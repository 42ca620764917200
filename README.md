# Per-user state of the Wikidata Telegram bot, in Dafny

This project models the per-user state store of the Wikidata Telegram bot and
the handlers that drive it, and proves what the store promises.

- **Entity history** (`HistoryLog`): the `History` table of (user, entity, type, rank).
  `addHistoryEntity` keeps a window of at most five entries per user and type.
  The rank `id` runs in reverse: the newest entry has the smallest rank.
  A new entry is ranked one below the current minimum, and an empty log counts as 6, so the first entry gets rank 5.
  When the minimum was already 1, the rank-5 row is evicted and every rank moves up by one.
  An entity the user already has, under any type, is not recorded again.
  `getHistoryEntities` lists one log by ascending rank, newest first.
  The class `HistoryRepository` holds the table.
- **Path history** (`PathLog`): the `HistoryPaths` table, one space-joined string per user.
  An update moves the first token of the new path to the front and drops its other copies.
  A list longer than five then loses its last token.
  A user's first path is stored as given.
  The class `PathRepository` holds the table.
- **SPARQL wizard** (`SparqlWizard`): the `SparQLQueries` table, one row per user.
  A row holds the subject, predicate and object typed so far and a phase `status` 0..3.
  Each text message that reaches the `message:text` handler fills the next field with its lower-cased text and moves the phase on by one, up to phase 3, where texts change nothing.
  The query string is assembled from the stored subject and from the ids that a label search finds for the predicate and the object.
  The class `QueryRepository` holds the table.
- **Results** (`Results`): the page of query results a reply shows, ten per page.
  It also models the conversion of a SPARQL result row (`queryJsonEntryToResult`).
  Finally it models the entity ids found in claim values and their de-duplication.
- **Handlers** (`Bot`): the session key, the `/sparql` command, the `message:text` handler and the entity id in callback data.
- **Entity-id messages** (`HearsEntity`) and the **inline-search helpers** (`InlineSearch`): the alphabet generator and the choice between a search and the popular entities.
- `Text` holds the string operations these rely on: `toLowerCase`/`toUpperCase`, `split(" ")`/`join(" ")` and integer `toString`.
  `Wrappers` holds `Option`.

Label searches, the SPARQL endpoint, the search API and the popular list are parameters of the operations that use them.

## Model

| member | source | states |
|---|---|---|
| HistoryLog.MinRank | source/wd-helper.ts:85-89 | `MIN(id)` over a log is None exactly when the log is empty; otherwise some row holds it and no row is ranked lower |
| HistoryLog.MaxRank | source/wd-helper.ts:57 | a helper of the `ORDER BY id` listing: the largest rank of a log, the upper end of the ranks `ByRank` runs through, None exactly for an empty log |
| HistoryLog.MatchingMembers | source/wd-helper.ts:54-56 | the `user_id AND type` filter keeps exactly the rows of that user and type |
| HistoryLog.ByRank | source/wd-helper.ts:57 | `ORDER BY id` returns the same rows (same multiset, same length) |
| HistoryLog.ByRankSorted | source/wd-helper.ts:57 | the listing is in ascending rank order, newest first |
| HistoryLog.AscendingPermutes | source/wd-helper.ts:57 | listing rank by rank loses and adds no row |
| HistoryLog.GetHistoryEntities | source/wd-helper.ts:48-67 | one entity per row of that user and type, in rank order, and [] exactly when there are none |
| HistoryLog.WindowRanks | source/wd-helper.ts:85-91 | in a window of n rows the minimum rank is 6 - n and the maximum is 5 |
| HistoryLog.InsertWindow | source/wd-helper.ts:93-98 | a log with fewer than five rows takes the new row one rank below its minimum, stays a window and lists it first |
| HistoryLog.EvictWindowValid | source/wd-helper.ts:100-117 | after the eviction of a full log, its ranks are exactly 1..5 again, one row each |
| HistoryLog.EvictWindowListing | source/wd-helper.ts:100-117 | after the eviction, the new row comes first, then the four newest old rows |
| HistoryLog.RecordedFilling | source/wd-helper.ts:83-98 | while a log has fewer than five rows nothing is deleted and the new row gets rank 5 - n, so 5 for an empty log |
| HistoryLog.RecordedEvicts | source/wd-helper.ts:100-117 | for a full log the new row enters at rank 0, rank 5 leaves and every rank of that user and type moves up by one |
| HistoryLog.RecordedFull | source/wd-helper.ts:100-117 | after an eviction the log has five rows and the new entity is the only row ranked 1 |
| HistoryLog.RecordedLog | source/wd-helper.ts:83-117 | a new entity keeps the log a window, and its listing becomes the five newest of the entity followed by the old listing |
| HistoryLog.RecordedOtherLogs | source/wd-helper.ts:100-117 | with the delete scoped, recording never changes another user's or another type's log |
| HistoryLog.RecordedConsistent | source/wd-helper.ts:69-120 | recording keeps every log a window and every user's entities distinct |
| HistoryLog.AsWrittenEvictsEverywhere | source/wd-helper.ts:103-109 | as written, an eviction also removes the rank-5 row from every other user's and type's log |
| HistoryLog.AsWrittenLosesOtherUsersEntry | source/wd-helper.ts:100-117 | a concrete table shape where, as written, another user's one-entry history becomes empty, while the scoped delete keeps it |
| HistoryLog.HistoryRepository.AddHistoryEntity | source/wd-helper.ts:69-120 | the table invariant holds afterwards; an entity the user already has, under any type, changes nothing; a new one heads a listing of the five newest; other logs are untouched |
| PathLog.FirstToken | source/wd-helper.ts:156 | the first token of `path.split(" ")` holds no space |
| PathLog.RemoveAll | source/wd-helper.ts:157 | the filter leaves no copy of the token, and every other token as often as before |
| PathLog.RemoveAllSubsequence | source/wd-helper.ts:157 | the filter keeps the other tokens in their order |
| PathLog.Promote | source/wd-helper.ts:157-162 | the token heads the new list, and a list of at most five stays at most five |
| PathLog.PromoteTail | source/wd-helper.ts:157-162 | after the head there is no copy of the token, and the rest keep their relative order |
| PathLog.PromoteMembers | source/wd-helper.ts:157-162 | only the token is new, and no old token is lost while there is room |
| PathLog.PromoteNoDuplicates | source/wd-helper.ts:157-162 | a list without repeats stays without repeats |
| PathLog.PromoteExisting | source/wd-helper.ts:157-162 | a token already in a short list without repeats moves to the front; the length and the set of tokens stay the same |
| PathLog.PromoteNew | source/wd-helper.ts:158-162 | a new token on a full list gives the token followed by the first four old tokens |
| PathLog.PromoteLongList | source/wd-helper.ts:157-162 | a list longer than five that gains a new token loses only its last token, so it stays as long as it was |
| PathLog.StoredPromote | source/wd-helper.ts:155-164 | the joined new list splits back into the same list |
| PathLog.GetHistoryEntitiesPaths | source/wd-helper.ts:122-141 | [] without a row; otherwise the pieces hold no space and join back to the stored string |
| PathLog.PathRepository.AddHistoryEntityPath | source/wd-helper.ts:143-172 | an existing row stores the joined promoted list and then lists as that list; a first row stores the path verbatim; other users are untouched |
| PathLog.PathRepository.ClearHistoryPaths | source/wd-helper.ts:174-184 | the user's row is gone and lists as []; other users are untouched |
| Text.ToLower | source/index.ts:282 | `toLowerCase` leaves no upper-case letter and changes characters only in case |
| Text.ToUpper | source/hears-entity.ts:12 | `toUpperCase` leaves no lower-case letter and changes characters only in case |
| Text.Split | source/wd-helper.ts:138 | `split(" ")` gives at least one piece, and no piece holds a space |
| Text.JoinSplit | source/wd-helper.ts:138 | joining the pieces of a string gives the string back |
| Text.SplitJoin | source/wd-helper.ts:155-164 | splitting joined pieces without spaces gives the pieces back |
| Text.Digits | source/index.ts:60 | an integer prints as decimal digits without leading zeros |
| Text.DigitsRoundTrip | source/index.ts:60 | the printed digits read back as the number |
| Text.DecimalStringSign | source/index.ts:60 | a printed integer starts with '-' exactly when it is negative |
| Text.DecimalStringInjective | source/index.ts:60 | different integers print differently |
| SparqlWizard.GetSparQLQuery | source/wd-helper.ts:241-259 | the stored row is returned when the user has one; otherwise the result is a fresh record without a status |
| SparqlWizard.Advance | source/index.ts:280-303 | a text writes a row exactly in phases 0, 1 and 2, and the phase moves on by exactly one |
| SparqlWizard.AdvanceAppends | source/index.ts:281-294 | phases 0..2 append the lower-cased text to the answers and keep the row well-formed; phase 3 writes nothing |
| SparqlWizard.AfterTextsAnswers | source/index.ts:278-303 | after any run of texts the phase is min(3, start + number of texts), and the answers are the first texts, lower-cased, in order |
| SparqlWizard.AfterTextsWithoutRow | source/wd-helper.ts:255-257 | without a row no text ever writes one |
| SparqlWizard.ThreeTextsFromStart | source/index.ts:223-227 | after `/sparql`, three texts become subject, predicate and object at phase 3, and later texts change nothing |
| SparqlWizard.QueryWords | source/wd-helper.ts:276-280 | read word by word, a query over a subject, property and entity without spaces names `?subject ?subjectLabel`, keeps `?persona` in the triple, and has the property after `wdt:` and the entity after `wd:` |
| SparqlWizard.QueryTextSpelledOut | source/wd-helper.ts:276-280 | for every subject, property and entity, the query is the source's template with the subject written verbatim twice after `?`, the property after `wdt:` and the entity after `wd:`, with its tabs and spaces |
| SparqlWizard.SpacedSubjectSplitsVariable | source/wd-helper.ts:276 | a subject with a space (such as "douglas adams") does not stay one variable: the query's third word is `?` and the subject's first word only |
| SparqlWizard.QueryTextInjective | source/wd-helper.ts:276-280 | different space-free subjects, properties or entities give different queries |
| SparqlWizard.BuiltQueryWords | source/wd-helper.ts:261-280 | read word by word, a stored row's query whose subject and resolved ids hold no space has the subject as its variable and the resolved ids, with "undefined" on a miss |
| SparqlWizard.BuiltQueryText | source/wd-helper.ts:261-288 | for every stored row the query is the template over the stored subject verbatim and the resolved ids ("undefined" on a miss); without a row it is the template over `persona`, `P40` and `Q40026` |
| SparqlWizard.QueryRepository.InitializeSparQLQuery | source/wd-helper.ts:186-215 | whatever was there, the user ends with one empty row in phase 0 |
| SparqlWizard.QueryRepository.UpdateSparQLQuery | source/wd-helper.ts:217-239 | all four fields are overwritten when a row exists; otherwise nothing changes |
| Results.ResultsPage | source/wd-helper.ts:329-335 | a page has at most ten results; page p >= 0 holds those at 10p.. 10p + 9 that exist |
| Results.PagesCover | source/wd-helper.ts:329-335 | the pages from 0 on, one after the other, are all the results, in order |
| Results.PageMinusOne | source/wd-helper.ts:331-335 | page -1 is empty, because `slice` counts negative indices from the end |
| Results.EntryResultFirstUsable | source/wd-helper.ts:301-322 | a row's result is its first binding with a value and a label; with none it is empty |
| Results.QueryJsonEntryToResult | source/wd-helper.ts:301-322 | the loop over the keys returns the row's result |
| Results.QuerySparql | source/wd-helper.ts:365-370 | one result per returned row, in order |
| Results.UnitEntity | source/wd-helper.ts:39 | a match of `/Q\d+$/` is "Q" and digits ending the unit |
| Results.UnitEntityMatches | source/wd-helper.ts:39 | whenever the unit ends in "Q" and digits, that suffix is the match |
| Results.EntitiesInSnakValue | source/wd-helper.ts:33-46 | an entity value gives its id; a quantity gives at most one id from its unit that the SDK accepts; anything else gives [] |
| Results.QuantityUnitEntity | source/wd-helper.ts:38-43 | a unit ending in an accepted entity id yields that id |
| Results.FilterUnique | source/wd-helper.ts:30 | the de-duplicated list has the same values and no repeats |
| Results.FilterUniqueOrder | source/wd-helper.ts:30 | values come out in the order of their first occurrence |
| Results.Flatten | source/wd-helper.ts:29 | the flattened ids are exactly those of some claim value |
| Results.EntitiesInClaimValues | source/wd-helper.ts:23-31 | every entity id of the claim values, once each |
| HearsEntity.MatchEntityCommand | source/hears-entity.ts:11-12 | an accepted message is an upper-cased Q, P or L id with no leading zero, the message itself up to case with an optional leading slash |
| HearsEntity.AcceptsIdForm | source/hears-entity.ts:11-12 | every optional slash, q/p/l in either case, digit 1-9 and further digits is accepted, giving the id without the slash and upper-cased |
| HearsEntity.RejectsOtherForms | source/hears-entity.ts:11 | a leading zero, a second slash, a trailing non-digit or any other leading character is refused |
| HearsEntity.ExampleAccepted | source/hears-entity.ts:11-12 | "/q42" names Q42 |
| HearsEntity.ExamplesRefused | source/hears-entity.ts:11 | "Q0", "Q042", "Q42x", "//Q42" and " Q42" are refused |
| InlineSearch.GenCharArray | source/inline-search.ts:13-20 | code(z) - code(a) + 1 strings when code(a) <= code(z), none otherwise or for an empty argument; element i is the unit code(a) + i |
| InlineSearch.Alphabet | source/inline-search.ts:23 | exactly the 26 letters A..Z, in order |
| InlineSearch.GetSearchResults | source/inline-search.ts:39-46 | a non-empty query gives the ids of the search hits in order; an empty one gives the popular entities |
| Bot.SessionKey | source/index.ts:55-61 | the chat id, else the callback's chat instance, else the sender id, printed; none only when all three are absent |
| Bot.SessionKeysSeparateChats | source/index.ts:57-60 | two different chats never share a session key |
| Bot.SessionKeysSeparateSenders | source/index.ts:57-60 | without a chat or a chat instance, two different senders never share a session key |
| Bot.CallbackEntityId | source/index.ts:187 | the id is "" or "Q" followed by digits |
| Bot.CallbackEntityIdLeftmost | source/index.ts:187 | the id comes from the leftmost "entity-Q" followed by a digit and takes all the digits after it; without one it is "" |
| Bot.OnCallback | source/index.ts:186-190 | without an id the callback is only answered; otherwise the entity shown is a Q id |
| Bot.OnSparqlCommand | source/index.ts:223-227 | `/sparql` resets the sender's wizard to an empty row in phase 0, whatever its state |
| Bot.HandleText | source/index.ts:278-304 | the row moves on as `Advance` says; phase 2 replies with the requested page of the built query's results, or with the no-results text when the page is empty; phase 3 and a missing row reply nothing |

## Left out

- HistoryLog.HistoryRepository.AddHistoryEntity: requires the table invariant (every log a window, entities distinct per user). Every operation of the model keeps it, but tables written by other means are not covered.
- The `auto_id` column of `History` is not modelled. The order of the rows in the sequence stands for the table order, which decides the order of rows with equal rank.
- Label searches (`getEntityIdFromLabel`, `getPropertyFromLabel`) are the parameters `entityOf` and `propertyOf` of type `string -> Option<string>`. A miss interpolates the literal text "undefined", as the code does.
- The SPARQL endpoint behind `querySparql` is the parameter `runQuery`. The search API behind `getSearchResults` is the parameter `search`. The popular entities are the parameter `popular`.
- `getPopularEntities` is left out: it reads the clock, keeps a process-wide cache and uses the network.
- TypeORM and the data source are replaced by in-memory maps and sequences. Each store operation is atomic: async interleaving and lost updates are not modelled.
- Rendering is left out: `entryString`, the text of a results page, translations, menus, keyboards, photos and `format-wd-entity`. A reply carries the page of results or names the message it sends. Every rendered entry contains "  /" and an id, so the rendered text is empty exactly when the page is; the model relies on this.
- The rest of the bot wiring is left out: errorBoundary, setMyCommands, start, and the commented-out pagination.
- The sender id `ctx.from?.id as number` is taken as always present. An update without a sender is not modelled.
- `toLowerCase`/`toUpperCase` are modelled on ASCII letters only. Other characters are kept as they are.
- `genCharArray` takes strings as sequences of UTF-16 code units, as `charCodeAt` and `String.fromCharCode` see them.
- A SPARQL result row is a sequence of (key, binding) pairs in the order `for ... in` visits them. A binding's value and label are strings, and "" stands for an absent field.
- `isEntityId` of the Wikibase SDK is a parameter. `arrayFilterUnique` is modelled as keeping the first occurrence of each value.
- `claimValues` of the entity reader is foreign: `EntitiesInClaimValues` takes the claim values as one list.
- SparqlWizard.BuildSparQLQuery: it has no contract of its own. The query for a user without a row is the template over `persona`, `P40` and `Q40026`, which the source writes out as a second literal. `BuiltQueryText` states every query in full.
- SparqlWizard.BuiltQueryWords: the word-by-word reading holds only for a subject and resolved ids without spaces. A subject typed as several words is embedded verbatim too (`BuiltQueryText`), but then it is no longer one SPARQL variable (`SpacedSubjectSplitsVariable`). SparqlWizard.QueryWords and SparqlWizard.QueryTextInjective have the same limit.
- Handlers registered before `message:text` that end a text's handling are left out: the entity-id handler (source/index.ts:80), `/lang`, `/language`, `/settings`, `/start language`, `/history` and `/start history` (source/index.ts:86-118), and `/start`, `/help` and `/search` (source/index.ts:231-244). The inline and location middlewares (source/index.ts:81-82) are not part of this model either. A text they take (such as "Q42" or "p31") never reaches the wizard; `HandleText` models only the texts that do.

## Findings

| source | as written | input that shows it | evidently intended | confidence | as-written member | corrected member |
|---|---|---|---|---|---|---|
| source/wd-helper.ts:107-108 | The eviction delete calls `.where` twice. The second call replaces the first, so the delete removes every row ranked 5, of every user and every type. | User 1 has Q1..Q5 of type "t" ranked 1..5. User 2 has only Q9 of type "t", ranked 5. User 1 adds Q6. User 2's history is now empty. | Only user 1's type-"t" row ranked 5 is deleted, as the comment at line 102 and the scoped update at line 116 say | not executed | HistoryLog.AsWrittenLosesOtherUsersEntry | HistoryLog.HistoryRepository.AddHistoryEntity |

/**
 * The handlers of the bot's entry point that read or write per-user
 * state: the session key, the `/sparql` command, the `message:text`
 * handler that drives the query wizard, and the entity id of a callback.
 */
module Bot {
  import opened Wrappers
  import opened Text
  import opened SparqlWizard
  import opened Results

  // ---------------------------------------------------------------------
  // Session key

  /**
   * `getSessionKey`: `(ctx.chat?.id ?? ctx.callbackQuery?.chat_instance ??
   * ctx.from?.id)?.toString()`. `??` passes over absent values only, so a
   * chat id of 0 is still used.
   */
  function SessionKey(chatId: Option<int>, chatInstance: Option<string>, fromId: Option<int>): (r: Option<string>)
    ensures r.None? <==> chatId.None? && chatInstance.None? && fromId.None?
    ensures chatId.Some? ==> r == Some(DecimalString(chatId.value))
    ensures chatId.None? && chatInstance.Some? ==> r == Some(chatInstance.value)
    ensures chatId.None? && chatInstance.None? && fromId.Some? ==> r == Some(DecimalString(fromId.value))
  {
    if chatId.Some? then Some(DecimalString(chatId.value))
    else if chatInstance.Some? then chatInstance
    else if fromId.Some? then Some(DecimalString(fromId.value))
    else None
  }

  /** Two different chats never share a session, whatever else the updates carry. */
  lemma SessionKeysSeparateChats(
    a: int, b: int, instanceA: Option<string>, instanceB: Option<string>, fromA: Option<int>, fromB: Option<int>)
    requires a != b
    ensures SessionKey(Some(a), instanceA, fromA) != SessionKey(Some(b), instanceB, fromB)
  {
    if DecimalString(a) == DecimalString(b) {
      DecimalStringInjective(a, b);
    }
  }

  /** Without a chat, updates from different senders (and no chat instance) use different sessions. */
  lemma SessionKeysSeparateSenders(a: int, b: int)
    requires a != b
    ensures SessionKey(None, None, Some(a)) != SessionKey(None, None, Some(b))
  {
    if DecimalString(a) == DecimalString(b) {
      DecimalStringInjective(a, b);
    }
  }

  // ---------------------------------------------------------------------
  // Callback data

  /** The leading decimal digits of `s`. */
  function LeadingDigits(s: string): (r: string)
    ensures |r| <= |s| && r == s[..|r|]
    ensures forall i :: 0 <= i < |r| ==> IsDigit(r[i])
    ensures |r| < |s| ==> !IsDigit(s[|r|])
    decreases |s|
  {
    if s == [] || !IsDigit(s[0]) then []
    else [s[0]] + LeadingDigits(s[1..])
  }

  /** `/entity-(Q\d+)/` can start matching at `k`. */
  predicate MatchesAt(data: string, k: int) {
    0 <= k && k + 9 <= |data| && data[k..k + 8] == "entity-Q" && IsDigit(data[k + 8])
  }

  /**
   * `data.match(/entity-(Q\d+)/)?.[1] ?? ""`: the group of the leftmost
   * match, with all the digits that follow its "Q", or "" without a match.
   */
  function CallbackEntityId(data: string): (r: string)
    ensures r == "" || IsQNumber(r)
    decreases |data|
  {
    if |data| < 9 then ""
    else if data[..8] == "entity-Q" && IsDigit(data[8]) then
      var digits := LeadingDigits(data[8..]);
      assert IsQNumber("Q" + digits) by {
        assert forall i :: 1 <= i < |"Q" + digits| ==> ("Q" + digits)[i] == digits[i - 1];
      }
      "Q" + digits
    else CallbackEntityId(data[1..])
  }

  /**
   * The id comes from the leftmost place "entity-Q" and a digit occur, and
   * takes every digit after it; without such a place it is "".
   */
  lemma {:induction false} CallbackEntityIdLeftmost(data: string, k: int)
    requires 0 <= k <= |data|
    requires forall j :: 0 <= j < k ==> !MatchesAt(data, j)
    ensures MatchesAt(data, k) ==> CallbackEntityId(data) == "Q" + LeadingDigits(data[k + 8..])
    ensures (forall j :: k <= j <= |data| ==> !MatchesAt(data, j)) ==> CallbackEntityId(data) == ""
    decreases |data|
  {
    if |data| >= 9 {
      if k == 0 {
        if !MatchesAt(data, 0) && forall j :: 0 <= j <= |data| ==> !MatchesAt(data, j) {
          NoMatchShift(data);
        }
      } else {
        assert !MatchesAt(data, 0);
        assert data[..8] != "entity-Q" || !IsDigit(data[8]);
        var rest := data[1..];
        forall j | 0 <= j < k - 1 ensures !MatchesAt(rest, j) {
          ShiftMatch(data, j);
        }
        CallbackEntityIdLeftmost(rest, k - 1);
        if MatchesAt(data, k) {
          ShiftMatch(data, k - 1);
          assert rest[k - 1 + 8..] == data[k + 8..];
        }
        if forall j :: k <= j <= |data| ==> !MatchesAt(data, j) {
          forall j | k - 1 <= j <= |rest| ensures !MatchesAt(rest, j) {
            ShiftMatch(data, j);
          }
        }
      }
    }
  }

  lemma ShiftMatch(data: string, j: int)
    requires |data| >= 1 && 0 <= j
    ensures MatchesAt(data[1..], j) <==> MatchesAt(data, j + 1)
  {
    if j + 10 <= |data| {
      assert data[1..][j..j + 8] == data[j + 1..j + 9];
    }
  }

  lemma {:induction false} NoMatchShift(data: string)
    requires forall j :: 0 <= j <= |data| ==> !MatchesAt(data, j)
    ensures CallbackEntityId(data) == ""
    decreases |data|
  {
    if |data| >= 9 {
      assert !MatchesAt(data, 0);
      forall j | 0 <= j <= |data| - 1 ensures !MatchesAt(data[1..], j) {
        ShiftMatch(data, j);
      }
      NoMatchShift(data[1..]);
    }
  }

  /** What the callback handler does with the data. */
  datatype CallbackAction = AnswerOnly | ShowEntity(id: string)

  /** `callback_query:data`: show the entity named in the data, or only answer the query. */
  function OnCallback(data: string): (r: CallbackAction)
    ensures r.ShowEntity? ==> IsQNumber(r.id)
    ensures r.AnswerOnly? <==> CallbackEntityId(data) == ""
  {
    var entityId := CallbackEntityId(data);
    if entityId == "" then AnswerOnly else ShowEntity(entityId)
  }

  // ---------------------------------------------------------------------
  // The wizard handlers

  /** What the bot replies to a command or a text message. */
  datatype Reply =
    | AskSubject                      // 'sparql-send-subject'
    | AskPredicate                    // 'sparql-send-predicate'
    | AskObject                       // 'sparql-send-object'
    | NoResults                       // 'sparql-no-results'
    | ResultsText(page: seq<Predicate>) // the rendered page of results
    | NoReply

  /** `/sparql` and `/query`: the wizard starts over for the sender. */
  method OnSparqlCommand(store: QueryRepository, userId: int) returns (reply: Reply)
    modifies store
    ensures store.queries == old(store.queries)[userId := StartRow]
    ensures old(store.Valid()) ==> store.Valid()
    ensures reply == AskSubject
  {
    store.InitializeSparQLQuery(userId);
    reply := AskSubject;
  }

  /**
   * The `message:text` handler: the wizard row moves one phase on, as
   * `Advance` says, and in phase 2 the finished query is built, run and
   * answered with the requested page of results (`locationPage`, 0 when
   * unset), or with the no-results text for an empty page. Every rendered
   * entry holds at least "  /" and the entity id, so the rendered text is
   * empty exactly when the page is.
   */
  method HandleText(
    store: QueryRepository, userId: int, text: string,
    propertyOf: string -> Option<string>, entityOf: string -> Option<string>,
    runQuery: string -> seq<Entry>, locationPage: Option<int>)
    returns (reply: Reply)
    modifies store
    ensures var next := Advance(GetSparQLQuery(old(store.queries), userId), text);
      store.queries == if next.Some? then old(store.queries)[userId := next.value] else old(store.queries)
    ensures old(store.Valid()) ==> store.Valid()
    ensures userId !in old(store.queries) ==> reply == NoReply
    ensures userId in old(store.queries) ==>
      var status := old(store.queries)[userId].status;
      && (status == 0 ==> reply == AskPredicate)
      && (status == 1 ==> reply == AskObject)
      && (status == 2 ==>
            var page := ResultsPage(QuerySparql(runQuery(BuildSparQLQuery(store.queries, userId, propertyOf, entityOf))),
                                    locationPage.GetOr(0));
            reply == if page == [] then NoResults else ResultsText(page))
      && (status != 0 && status != 1 && status != 2 ==> reply == NoReply)
  {
    var sparqlStatus := GetSparQLQuery(store.queries, userId);
    ghost var before := store.queries;
    if sparqlStatus.Some? && sparqlStatus.value.status == 0 {
      store.UpdateSparQLQuery(userId, ToLower(text), "", "", 1);
      reply := AskPredicate;
    } else if sparqlStatus.Some? && sparqlStatus.value.status == 1 {
      store.UpdateSparQLQuery(userId, sparqlStatus.value.subject, ToLower(text), "", 2);
      reply := AskObject;
    } else if sparqlStatus.Some? && sparqlStatus.value.status == 2 {
      var row := sparqlStatus.value;
      store.UpdateSparQLQuery(userId, row.subject, row.predicateLabel, ToLower(text), 3);
      var query := BuildSparQLQuery(store.queries, userId, propertyOf, entityOf);
      var raw := QuerySparql(runQuery(query));
      var page := ResultsPage(raw, locationPage.GetOr(0));
      if page == [] {
        reply := NoResults;
      } else {
        reply := ResultsText(page);
      }
    } else {
      reply := NoReply;
    }
    if userId in before && Phase(before[userId]) {
      AdvanceAppends(before[userId], text);
    }
  }
}

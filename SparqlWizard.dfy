/**
 * The SPARQL query wizard: the `SparQLQueries` table, one row per user
 * holding the subject, predicate and object typed so far and a phase
 * `status` 0..3, the per-message transition of the text handler, and the
 * query string assembled from a finished row.
 */
module SparqlWizard {
  import opened Wrappers
  import opened Text

  /** A `SparQLQueries` row (its key, `user_id`, is the map key of the table). */
  datatype QueryRow = QueryRow(subject: string, predicateLabel: string, objectLabel: string, status: int)

  /** The row `initializeSparQLQuery` writes: nothing asked yet, phase 0. */
  const StartRow: QueryRow := QueryRow("", "", "", 0)

  /**
   * `getSparQLQuery(user_id)`: the stored row, or None for the fresh record
   * it returns when the user has none (that record has no `status`, so no
   * `status === n` test in the handler holds for it).
   */
  function GetSparQLQuery(queries: map<int, QueryRow>, userId: int): (r: Option<QueryRow>)
    ensures r.Some? <==> userId in queries
    ensures r.Some? ==> r.value == queries[userId]
  {
    if userId in queries then Some(queries[userId]) else None
  }

  /**
   * The row the `message:text` handler writes through `updateSparQLQuery`
   * for `text` in the current state, or None when it writes nothing.
   */
  function Advance(current: Option<QueryRow>, text: string): (r: Option<QueryRow>)
    ensures r.Some? <==> current.Some? && 0 <= current.value.status <= 2
    ensures r.Some? ==> r.value.status == current.value.status + 1
  {
    match current
    case None => None
    case Some(row) =>
      var t := ToLower(text);
      if row.status == 0 then Some(QueryRow(t, "", "", 1))
      else if row.status == 1 then Some(QueryRow(row.subject, t, "", 2))
      else if row.status == 2 then Some(QueryRow(row.subject, row.predicateLabel, t, 3))
      else None
  }

  // ---------------------------------------------------------------------
  // The wizard as a list of answers

  /** A row the wizard can be in: a phase 0..3, and no answer past the phase. */
  ghost predicate Phase(row: QueryRow) {
    && 0 <= row.status <= 3
    && (row.status < 1 ==> row.subject == "")
    && (row.status < 2 ==> row.predicateLabel == "")
    && (row.status < 3 ==> row.objectLabel == "")
  }

  /** The answers given so far, one per phase passed. */
  function Answers(row: QueryRow): seq<string>
    requires 0 <= row.status <= 3
  {
    [row.subject, row.predicateLabel, row.objectLabel][..row.status]
  }

  /** Every text lower-cased. */
  function LowerAll(texts: seq<string>): (r: seq<string>)
    ensures |r| == |texts|
    ensures forall i :: 0 <= i < |r| ==> r[i] == ToLower(texts[i])
  {
    seq(|texts|, i requires 0 <= i < |texts| => ToLower(texts[i]))
  }

  lemma LowerAllCons(texts: seq<string>, n: nat)
    requires n < |texts|
    ensures LowerAll(texts[..n + 1]) == [ToLower(texts[0])] + LowerAll(texts[1..][..n])
  {
    assert texts[..n + 1] == [texts[0]] + texts[1..][..n];
  }

  /**
   * One text in phase 0, 1 or 2 appends its lower-cased form to the
   * answers and moves one phase on; phase 3 takes no more answers.
   */
  lemma AdvanceAppends(row: QueryRow, text: string)
    requires Phase(row)
    ensures row.status < 3 ==>
      && Advance(Some(row), text).Some?
      && Phase(Advance(Some(row), text).value)
      && Answers(Advance(Some(row), text).value) == Answers(row) + [ToLower(text)]
    ensures row.status == 3 ==> Advance(Some(row), text).None?
  {
    var t := ToLower(text);
    if row.status == 1 {
      assert Answers(row) == [row.subject];
      assert Answers(QueryRow(row.subject, t, "", 2)) == [row.subject, t];
    } else if row.status == 2 {
      assert Answers(row) == [row.subject, row.predicateLabel];
      assert Answers(QueryRow(row.subject, row.predicateLabel, t, 3)) == [row.subject, row.predicateLabel, t];
    } else if row.status == 0 {
      assert Answers(row) == [];
      assert Answers(QueryRow(t, "", "", 1)) == [t];
    }
  }

  /** The state after a run of text messages; a message that writes nothing leaves the row as it was. */
  function AfterTexts(current: Option<QueryRow>, texts: seq<string>): Option<QueryRow>
    decreases |texts|
  {
    if texts == [] then current
    else
      var next := Advance(current, texts[0]);
      AfterTexts(if next.Some? then next else current, texts[1..])
  }

  /**
   * Any run of texts moves the phase on by one per text until phase 3 and
   * never skips: the answers are exactly the first texts, lower-cased.
   */
  lemma {:induction false} AfterTextsAnswers(row: QueryRow, texts: seq<string>)
    requires Phase(row)
    ensures AfterTexts(Some(row), texts).Some?
    ensures var last := AfterTexts(Some(row), texts).value;
      && Phase(last)
      && last.status == (if row.status + |texts| < 3 then row.status + |texts| else 3)
      && Answers(last) == Answers(row) + LowerAll(texts[..last.status - row.status])
    decreases |texts|
  {
    if texts != [] {
      AdvanceAppends(row, texts[0]);
      var next := Advance(Some(row), texts[0]);
      if next.Some? {
        var row' := next.value;
        assert AfterTexts(Some(row), texts) == AfterTexts(Some(row'), texts[1..]);
        AfterTextsAnswers(row', texts[1..]);
        var last := AfterTexts(Some(row'), texts[1..]).value;
        var n := last.status - row'.status;
        LowerAllCons(texts, n);
        calc {
          Answers(last);
          Answers(row') + LowerAll(texts[1..][..n]);
          Answers(row) + ([ToLower(texts[0])] + LowerAll(texts[1..][..n]));
          Answers(row) + LowerAll(texts[..n + 1]);
        }
      } else {
        AfterTextsAnswers(row, texts[1..]);
        assert texts[..0] == [];
      }
    } else {
      assert texts[..0] == [];
    }
  }

  /** Without a row, no text ever writes one. */
  lemma {:induction false} AfterTextsWithoutRow(texts: seq<string>)
    ensures AfterTexts(None, texts) == None
    decreases |texts|
  {
    if texts != [] {
      AfterTextsWithoutRow(texts[1..]);
    }
  }

  /**
   * After `/sparql`, three texts give subject, predicate and object in that
   * order, lower-cased, at phase 3; later texts change nothing.
   */
  lemma ThreeTextsFromStart(a: string, b: string, c: string, later: seq<string>)
    ensures AfterTexts(Some(StartRow), [a, b, c] + later)
      == Some(QueryRow(ToLower(a), ToLower(b), ToLower(c), 3))
  {
    var texts := [a, b, c] + later;
    AfterTextsAnswers(StartRow, texts);
    var last := AfterTexts(Some(StartRow), texts).value;
    assert last.status == 3;
    assert texts[..3] == [a, b, c];
    assert LowerAll([a, b, c]) == [ToLower(a), ToLower(b), ToLower(c)];
    assert Answers(StartRow) == [];
    assert Answers(last) == [last.subject, last.predicateLabel, last.objectLabel];
    assert Answers(last) == [ToLower(a), ToLower(b), ToLower(c)];
    assert last.subject == ToLower(a) && last.predicateLabel == ToLower(b) && last.objectLabel == ToLower(c);
  }

  // ---------------------------------------------------------------------
  // The query string

  /** The rest of the query after the object id. */
  const ServiceTail: string :=
    "wikibase:label { bd:serviceParam wikibase:language \"[AUTO_LANGUAGE],en\" }\n\t\t  }\n\t\t  LIMIT 100"

  /**
   * The query template of `buildSparQLQuery`, written word by word (the
   * words of the template up to the object id are separated by single
   * spaces; the rest is `ServiceTail`).
   */
  function QueryText(subject: string, property: string, entity: string): string {
    "SELECT" + [Space] + "DISTINCT" + [Space] + ("?" + subject) + [Space] + ("?" + subject + "Label")
      + [Space] + "WHERE" + [Space] + "{\n\t\t\t?persona" + [Space] + ("wdt:" + property)
      + [Space] + ("wd:" + entity + "\n\t\t\tSERVICE") + [Space] + ServiceTail
  }

  /** A template literal's `${id}`: a resolver miss (`undefined`) prints as "undefined". */
  function Interpolated(id: Option<string>): string {
    id.GetOr("undefined")
  }

  /**
   * `buildSparQLQuery(user_id)`: without a row, the fixed query for
   * P40/Q40026 (the source spells it out as a second literal of the same
   * template); otherwise the template over the stored subject and the ids
   * the label searches resolve for the stored predicate and object.
   */
  function BuildSparQLQuery(
    queries: map<int, QueryRow>, userId: int,
    propertyOf: string -> Option<string>, entityOf: string -> Option<string>): string
  {
    if userId in queries then
      var row := queries[userId];
      QueryText(row.subject, Interpolated(propertyOf(row.predicateLabel)), Interpolated(entityOf(row.objectLabel)))
    else
      QueryText("persona", "P40", "Q40026")
  }

  /** A word without spaces, a space and the rest split into the word and the rest's words. */
  lemma SplitWord(a: string, t: string)
    requires Space !in a
    ensures Split(a + [Space] + t) == [a] + Split(t)
  {
    SplitGlued(a, [Space] + t);
    assert ([Space] + t)[1..] == t;
    assert a + ([Space] + t) == a + [Space] + t;
    assert a + "" == a;
  }

  /**
   * Read word by word, a query names the subject twice as a variable, keeps
   * `?persona` in the triple, and carries the property after `wdt:` and the
   * entity after `wd:`, when none of the three holds a space.
   */
  lemma QueryWords(subject: string, property: string, entity: string)
    requires Space !in subject && Space !in property && Space !in entity
    ensures var w := Split(QueryText(subject, property, entity));
      && |w| >= 9
      && w[..5] == ["SELECT", "DISTINCT", "?" + subject, "?" + subject + "Label", "WHERE"]
      && w[5] == "{\n\t\t\t?persona"
      && w[6] == "wdt:" + property
      && w[7] == "wd:" + entity + "\n\t\t\tSERVICE"
  {
    SplitEightWords("SELECT", "DISTINCT", "?" + subject, "?" + subject + "Label", "WHERE",
      "{\n\t\t\t?persona", "wdt:" + property, "wd:" + entity + "\n\t\t\tSERVICE", ServiceTail);
  }

  /** The first eight space-free words of a line split back out of it. */
  lemma SplitEightWords(a0: string, a1: string, a2: string, a3: string, a4: string, a5: string,
                        a6: string, a7: string, tail: string)
    requires Space !in a0 && Space !in a1 && Space !in a2 && Space !in a3
    requires Space !in a4 && Space !in a5 && Space !in a6 && Space !in a7
    ensures var w := Split(a0 + [Space] + a1 + [Space] + a2 + [Space] + a3 + [Space] + a4 + [Space]
                             + a5 + [Space] + a6 + [Space] + a7 + [Space] + tail);
      && |w| >= 9
      && w[..8] == [a0, a1, a2, a3, a4, a5, a6, a7]
  {
    var t4 := a4 + [Space] + a5 + [Space] + a6 + [Space] + a7 + [Space] + tail;
    assert a0 + [Space] + a1 + [Space] + a2 + [Space] + a3 + [Space] + a4 + [Space]
      + a5 + [Space] + a6 + [Space] + a7 + [Space] + tail
      == a0 + [Space] + a1 + [Space] + a2 + [Space] + a3 + [Space] + t4;
    SplitFourWords(a0, a1, a2, a3, t4);
    SplitFourWords(a4, a5, a6, a7, tail);
  }

  lemma SplitFourWords(a0: string, a1: string, a2: string, a3: string, tail: string)
    requires Space !in a0 && Space !in a1 && Space !in a2 && Space !in a3
    ensures Split(a0 + [Space] + a1 + [Space] + a2 + [Space] + a3 + [Space] + tail)
      == [a0, a1, a2, a3] + Split(tail)
  {
    var t3 := a3 + [Space] + tail;
    var t2 := a2 + [Space] + t3;
    var t1 := a1 + [Space] + t2;
    assert a0 + [Space] + a1 + [Space] + a2 + [Space] + a3 + [Space] + tail == a0 + [Space] + t1;
    SplitWord(a3, tail);
    SplitWord(a2, t3);
    SplitWord(a1, t2);
    SplitWord(a0, t1);
  }

  /**
   * The template as the source spells it: the subject, whatever it holds,
   * is written verbatim after `?` twice, the property after `wdt:` and the
   * entity after `wd:`.
   */
  lemma QueryTextSpelledOut(subject: string, property: string, entity: string)
    ensures QueryText(subject, property, entity)
      == "SELECT DISTINCT ?" + subject + " ?" + subject + "Label WHERE {\n\t\t\t?persona wdt:" + property
         + " wd:" + entity + "\n\t\t\tSERVICE " + ServiceTail
  {
    assert "SELECT" + [Space] + "DISTINCT" + [Space] + "?" == "SELECT DISTINCT ?";
    assert [Space] + "?" == " ?";
    assert "Label" + [Space] + "WHERE" + [Space] + "{\n\t\t\t?persona" + [Space] + "wdt:"
      == "Label WHERE {\n\t\t\t?persona wdt:";
    assert [Space] + "wd:" == " wd:";
    assert "\n\t\t\tSERVICE" + [Space] == "\n\t\t\tSERVICE ";
    Regroup(subject, property, entity, "SELECT", "DISTINCT", "?", "Label", "WHERE", "{\n\t\t\t?persona",
      "wdt:", "wd:", "\n\t\t\tSERVICE", ServiceTail, "SELECT DISTINCT ?", " ?",
      "Label WHERE {\n\t\t\t?persona wdt:", " wd:", "\n\t\t\tSERVICE ");
  }

  /** The words of the template, regrouped into the runs of fixed text between the values. */
  lemma Regroup(s: string, p: string, o: string, select: string, distinct: string, mark: string, labelWord: string,
                where: string, persona: string, wdt: string, wd: string, service: string, tail: string,
                y1: string, y2: string, y3: string, y4: string, y5: string)
    requires y1 == select + [Space] + distinct + [Space] + mark
    requires y2 == [Space] + mark
    requires y3 == labelWord + [Space] + where + [Space] + persona + [Space] + wdt
    requires y4 == [Space] + wd
    requires y5 == service + [Space]
    ensures select + [Space] + distinct + [Space] + (mark + s) + [Space] + (mark + s + labelWord) + [Space] + where
      + [Space] + persona + [Space] + (wdt + p) + [Space] + (wd + o + service) + [Space] + tail
      == y1 + s + y2 + s + y3 + p + y4 + o + y5 + tail
  {
  }

  /**
   * A subject with a space in it does not stay one variable: the query's
   * third word is `?` and the subject's first word only.
   */
  lemma SpacedSubjectSplitsVariable(first: string, rest: string, property: string, entity: string)
    requires Space !in first
    ensures var w := Split(QueryText(first + [Space] + rest, property, entity));
      && |w| >= 4
      && w[..3] == ["SELECT", "DISTINCT", "?" + first]
      && w[2] != "?" + (first + [Space] + rest)
  {
    var subject := first + [Space] + rest;
    var t := rest + [Space] + ("?" + subject + "Label") + [Space] + "WHERE" + [Space] + "{\n\t\t\t?persona"
      + [Space] + ("wdt:" + property) + [Space] + ("wd:" + entity + "\n\t\t\tSERVICE") + [Space] + ServiceTail;
    RegroupSpaced(first, rest, property, entity, "SELECT", "DISTINCT", "?", "Label", "WHERE", "{\n\t\t\t?persona",
      "wdt:", "wd:", "\n\t\t\tSERVICE", ServiceTail);
    SplitThreeWords("SELECT", "DISTINCT", "?" + first, t);
  }

  /** The template over a subject `first rest`, regrouped after the subject's first word. */
  lemma RegroupSpaced(first: string, rest: string, p: string, o: string, select: string, distinct: string,
                      mark: string, labelWord: string, where: string, persona: string, wdt: string, wd: string,
                      service: string, tail: string)
    ensures var s := first + [Space] + rest;
      select + [Space] + distinct + [Space] + (mark + s) + [Space] + (mark + s + labelWord) + [Space] + where
        + [Space] + persona + [Space] + (wdt + p) + [Space] + (wd + o + service) + [Space] + tail
      == select + [Space] + distinct + [Space] + (mark + first) + [Space]
        + (rest + [Space] + (mark + s + labelWord) + [Space] + where + [Space] + persona + [Space] + (wdt + p)
           + [Space] + (wd + o + service) + [Space] + tail)
  {
  }

  lemma SplitThreeWords(a0: string, a1: string, a2: string, tail: string)
    requires Space !in a0 && Space !in a1 && Space !in a2
    ensures Split(a0 + [Space] + a1 + [Space] + a2 + [Space] + tail) == [a0, a1, a2] + Split(tail)
  {
    var t2 := a2 + [Space] + tail;
    var t1 := a1 + [Space] + t2;
    assert a0 + [Space] + a1 + [Space] + a2 + [Space] + tail == a0 + [Space] + t1;
    SplitWord(a2, tail);
    SplitWord(a1, t2);
    SplitWord(a0, t1);
  }

  /** Different space-free subjects, properties or entities give different queries. */
  lemma QueryTextInjective(s: string, p: string, o: string, s': string, p': string, o': string)
    requires Space !in s && Space !in p && Space !in o
    requires Space !in s' && Space !in p' && Space !in o'
    requires QueryText(s, p, o) == QueryText(s', p', o')
    ensures s == s' && p == p' && o == o'
  {
    QueryWords(s, p, o);
    QueryWords(s', p', o');
    var w := Split(QueryText(s, p, o));
    assert w[2] == "?" + s == "?" + s';
    assert s == ("?" + s)[1..];
    assert s' == ("?" + s')[1..];
    assert p == ("wdt:" + p)[4..];
    assert p' == ("wdt:" + p')[4..];
    var tail := "\n\t\t\tSERVICE";
    assert o == ("wd:" + o + tail)[3..|w[7]| - |tail|];
    assert o' == ("wd:" + o' + tail)[3..|w[7]| - |tail|];
  }

  /**
   * A finished row's query carries the stored subject verbatim as its
   * variable and the resolved ids (or "undefined") after `wdt:` and `wd:`.
   */
  lemma BuiltQueryWords(
    queries: map<int, QueryRow>, userId: int,
    propertyOf: string -> Option<string>, entityOf: string -> Option<string>)
    requires userId in queries
    requires Space !in queries[userId].subject
    requires Space !in Interpolated(propertyOf(queries[userId].predicateLabel))
    requires Space !in Interpolated(entityOf(queries[userId].objectLabel))
    ensures var w := Split(BuildSparQLQuery(queries, userId, propertyOf, entityOf));
      var row := queries[userId];
      && |w| >= 8
      && w[2] == "?" + row.subject
      && w[3] == "?" + row.subject + "Label"
      && w[5] == "{\n\t\t\t?persona"
      && w[6] == "wdt:" + Interpolated(propertyOf(row.predicateLabel))
      && w[7] == "wd:" + Interpolated(entityOf(row.objectLabel)) + "\n\t\t\tSERVICE"
  {
    var row := queries[userId];
    QueryWords(row.subject, Interpolated(propertyOf(row.predicateLabel)), Interpolated(entityOf(row.objectLabel)));
  }

  /**
   * `buildSparQLQuery` in the source's own spelling, for every stored row:
   * the subject as typed, the resolved ids (or "undefined"); without a row,
   * the fixed query over `?persona`, P40 and Q40026.
   */
  lemma BuiltQueryText(
    queries: map<int, QueryRow>, userId: int,
    propertyOf: string -> Option<string>, entityOf: string -> Option<string>)
    ensures userId in queries ==>
      var row := queries[userId];
      BuildSparQLQuery(queries, userId, propertyOf, entityOf)
        == "SELECT DISTINCT ?" + row.subject + " ?" + row.subject + "Label WHERE {\n\t\t\t?persona wdt:"
           + Interpolated(propertyOf(row.predicateLabel)) + " wd:" + Interpolated(entityOf(row.objectLabel))
           + "\n\t\t\tSERVICE " + ServiceTail
    ensures userId !in queries ==>
      BuildSparQLQuery(queries, userId, propertyOf, entityOf)
        == "SELECT DISTINCT ?" + "persona" + " ?" + "persona" + "Label WHERE {\n\t\t\t?persona wdt:" + "P40"
           + " wd:" + "Q40026" + "\n\t\t\tSERVICE " + ServiceTail
  {
    if userId in queries {
      var row := queries[userId];
      QueryTextSpelledOut(row.subject, Interpolated(propertyOf(row.predicateLabel)), Interpolated(entityOf(row.objectLabel)));
    } else {
      QueryTextSpelledOut("persona", "P40", "Q40026");
    }
  }

  /**
   * The `SparQLQueries` table, keyed by user id, with the two operations
   * that write it.
   */
  class QueryRepository {
    var queries: map<int, QueryRow>

    /** Every row is one the wizard can be in. */
    ghost predicate Valid()
      reads this
    {
      forall u :: u in queries ==> Phase(queries[u])
    }

    constructor ()
      ensures queries == map[]
      ensures Valid()
    {
      queries := map[];
    }

    /**
     * `initializeSparQLQuery(user_id)`: whatever was there, the user ends
     * with exactly one row, empty and in phase 0.
     */
    method InitializeSparQLQuery(userId: int)
      modifies this
      ensures queries == old(queries)[userId := StartRow]
      ensures old(Valid()) ==> Valid()
    {
      if userId !in queries {
        queries := queries[userId := StartRow];
      } else {
        queries := queries - {userId};
        queries := queries[userId := StartRow];
      }
    }

    /**
     * `updateSparQLQuery(user_id, subject, predicate, object, status)`: all
     * four fields are overwritten when the user has a row; otherwise
     * nothing happens.
     */
    method UpdateSparQLQuery(userId: int, subject: string, predicateLabel: string, objectLabel: string, status: int)
      modifies this
      ensures userId in old(queries) ==>
        queries == old(queries)[userId := QueryRow(subject, predicateLabel, objectLabel, status)]
      ensures userId !in old(queries) ==> queries == old(queries)
    {
      if userId in queries {
        queries := queries[userId := QueryRow(subject, predicateLabel, objectLabel, status)];
      }
    }
  }
}

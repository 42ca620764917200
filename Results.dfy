/**
 * The pure helpers around query results and claim values: the page of
 * results `createResultsString` renders, the conversion of a SPARQL result
 * row into a `Result`, and the entity ids found in claim values.
 */
module Results {
  import opened Wrappers
  import opened Text

  // ---------------------------------------------------------------------
  // Result pages

  const EntriesPerPage: int := 10

  /**
   * How `Array.prototype.slice` reads an index: a negative one counts from
   * the end, and both are clamped to `0..len`.
   */
  function SliceIndex(i: int, len: nat): (r: nat)
    ensures r <= len
  {
    if i < 0 then (if len + i < 0 then 0 else len + i)
    else if i > len then len
    else i
  }

  /** `xs.slice(start, end)`. */
  function Slice<T>(xs: seq<T>, start: int, end: int): seq<T> {
    var s := SliceIndex(start, |xs|);
    var e := SliceIndex(end, |xs|);
    if s < e then xs[s..e] else []
  }

  /**
   * The results `createResultsString` renders for the zero-based page
   * `page`: at most ten, those at 10·page.. 10·page + 9 for a page that is
   * not negative.
   */
  function ResultsPage<T>(results: seq<T>, page: int): (r: seq<T>)
    ensures |r| <= EntriesPerPage
    ensures page >= 0 ==>
      |r| == if |results| <= page * EntriesPerPage then 0
             else if |results| - page * EntriesPerPage < EntriesPerPage then |results| - page * EntriesPerPage
             else EntriesPerPage
    ensures page >= 0 ==> forall i :: 0 <= i < |r| ==> r[i] == results[page * EntriesPerPage + i]
  {
    Slice(results, page * EntriesPerPage, (page + 1) * EntriesPerPage)
  }

  /** The pages from `page` on, one after the other. */
  function PagesFrom<T>(results: seq<T>, page: nat): seq<T>
    decreases |results| - page * EntriesPerPage
  {
    if page * EntriesPerPage >= |results| then []
    else ResultsPage(results, page) + PagesFrom(results, page + 1)
  }

  /** Paging neither drops nor repeats a result: the pages from 0 on are all results, in order. */
  lemma {:induction false} PagesCover<T>(results: seq<T>, page: nat)
    ensures PagesFrom(results, page)
      == if page * EntriesPerPage >= |results| then [] else results[page * EntriesPerPage..]
    decreases |results| - page * EntriesPerPage
  {
    var start := page * EntriesPerPage;
    if start < |results| {
      PagesCover(results, page + 1);
      var p := ResultsPage(results, page);
      if start + EntriesPerPage >= |results| {
        assert p == results[start..];
        assert p + [] == p;
      } else {
        assert p == results[start..start + EntriesPerPage];
        assert results[start..] == p + results[start + EntriesPerPage..];
      }
    }
  }

  /** A negative page count from the end, as `slice` does; page -1 is always empty. */
  lemma PageMinusOne<T>(results: seq<T>)
    ensures ResultsPage(results, -1) == []
  {
  }

  // ---------------------------------------------------------------------
  // SPARQL result rows

  /** A bound variable of a result row: its `value` and `label` ("" when absent). */
  datatype Binding = Binding(value: string, labelText: string)

  /** A result row: its variables in the order `for (key in entry)` visits them. */
  type Entry = seq<(string, Option<Binding>)>

  /** The `predicate` part of a `Result`. */
  datatype Predicate = Predicate(value: string, labelText: string)

  /** `entry[key] && entry[key].value && entry[key].label`. */
  predicate Usable(binding: Option<Binding>) {
    binding.Some? && binding.value.value != "" && binding.value.labelText != ""
  }

  /** The `Result` of a row: its first usable binding, or empty value and label. */
  function EntryResult(entry: Entry): Predicate
    decreases |entry|
  {
    if entry == [] then Predicate("", "")
    else if Usable(entry[0].1) then Predicate(entry[0].1.value.value, entry[0].1.value.labelText)
    else EntryResult(entry[1..])
  }

  /**
   * A row's result comes from its first usable binding; a row without one
   * gives empty value and label, and otherwise neither is empty.
   */
  lemma {:induction false} EntryResultFirstUsable(entry: Entry, i: int)
    requires 0 <= i <= |entry|
    requires forall j :: 0 <= j < i ==> !Usable(entry[j].1)
    ensures i < |entry| && Usable(entry[i].1) ==>
      EntryResult(entry) == Predicate(entry[i].1.value.value, entry[i].1.value.labelText)
    ensures i == |entry| ==> EntryResult(entry) == Predicate("", "")
    ensures EntryResult(entry).value == "" <==> EntryResult(entry).labelText == ""
    decreases |entry|
  {
    if entry != [] && !Usable(entry[0].1) {
      if i > 0 {
        EntryResultFirstUsable(entry[1..], i - 1);
      } else {
        EntryResultUsable(entry[1..]);
      }
    }
  }

  lemma {:induction false} EntryResultUsable(entry: Entry)
    ensures EntryResult(entry).value == "" <==> EntryResult(entry).labelText == ""
    decreases |entry|
  {
    if entry != [] && !Usable(entry[0].1) {
      EntryResultUsable(entry[1..]);
    }
  }

  /** `queryJsonEntryToResult(entry)`: the loop over the row's keys. */
  method QueryJsonEntryToResult(entry: Entry) returns (r: Predicate)
    ensures r == EntryResult(entry)
  {
    var i := 0;
    while i < |entry|
      invariant 0 <= i <= |entry|
      invariant EntryResult(entry[i..]) == EntryResult(entry)
    {
      var (_, binding) := entry[i];
      if binding.Some? && binding.value.value != "" && binding.value.labelText != "" {
        return Predicate(binding.value.value, binding.value.labelText);
      }
      assert entry[i..][1..] == entry[i + 1..];
      i := i + 1;
    }
    return Predicate("", "");
  }

  /** `querySparql` after the fetch: one result per row, in order. */
  function QuerySparql(raw: seq<Entry>): (r: seq<Predicate>)
    ensures |r| == |raw|
    ensures forall i :: 0 <= i < |r| ==> r[i] == EntryResult(raw[i])
  {
    if raw != [] then seq(|raw|, i requires 0 <= i < |raw| => EntryResult(raw[i])) else []
  }

  // ---------------------------------------------------------------------
  // Entity ids in claim values

  /** A claim value: an entity reference, a quantity with its unit, or anything else. */
  datatype SnakValue = EntityIdValue(id: string) | Quantity(unit: string) | OtherValue

  /** "Q" followed by one or more decimal digits. */
  predicate IsQNumber(s: string) {
    |s| >= 2 && s[0] == 'Q' && forall i :: 1 <= i < |s| ==> IsDigit(s[i])
  }

  /** The number of decimal digits `s` ends with. */
  function TrailingDigits(s: string): (n: nat)
    ensures n <= |s|
    ensures forall i :: |s| - n <= i < |s| ==> IsDigit(s[i])
    ensures n < |s| ==> !IsDigit(s[|s| - n - 1])
    decreases |s|
  {
    if s == [] || !IsDigit(s[|s| - 1]) then 0 else TrailingDigits(s[..|s| - 1]) + 1
  }

  /** `/Q\d+$/.exec(unit)?.[0]`. */
  function UnitEntity(unit: string): (r: Option<string>)
    ensures r.Some? ==> IsQNumber(r.value) && |r.value| <= |unit| && unit[|unit| - |r.value|..] == r.value
  {
    var n := TrailingDigits(unit);
    if 1 <= n < |unit| && unit[|unit| - n - 1] == 'Q' then Some(unit[|unit| - n - 1..]) else None
  }

  /** Whenever the unit ends in "Q" and digits, that suffix is the match, so the match is unique. */
  lemma UnitEntityMatches(unit: string, k: int)
    requires 0 <= k <= |unit| && IsQNumber(unit[k..])
    ensures UnitEntity(unit) == Some(unit[k..])
  {
    var n := TrailingDigits(unit);
    assert unit[k] == unit[k..][0];
    forall i | k < i < |unit| ensures IsDigit(unit[i]) {
      assert unit[i] == unit[k..][i - k];
    }
    assert n == |unit| - k - 1;
  }

  /** `entitiesInSnakValue(claim)`, with the id check of the Wikibase SDK as a parameter. */
  function EntitiesInSnakValue(claim: SnakValue, isEntityId: string -> bool): (r: seq<string>)
    ensures |r| <= 1
    ensures claim.EntityIdValue? ==> r == [claim.id]
    ensures claim.Quantity? && r != [] ==>
      IsQNumber(r[0]) && isEntityId(r[0]) && |r[0]| <= |claim.unit|
      && claim.unit[|claim.unit| - |r[0]|..] == r[0]
    ensures claim.OtherValue? ==> r == []
  {
    match claim
    case EntityIdValue(id) => [id]
    case Quantity(unit) =>
      var entity := UnitEntity(unit);
      if entity.Some? && isEntityId(entity.value) then [entity.value] else []
    case OtherValue => []
  }

  /** A quantity whose unit ends in an entity id the SDK accepts yields that id. */
  lemma QuantityUnitEntity(unit: string, k: int, isEntityId: string -> bool)
    requires 0 <= k <= |unit| && IsQNumber(unit[k..]) && isEntityId(unit[k..])
    ensures EntitiesInSnakValue(Quantity(unit), isEntityId) == [unit[k..]]
  {
    UnitEntityMatches(unit, k);
  }

  /** The first index at which `x` occurs in `xs`. */
  function FirstIndex(xs: seq<string>, x: string): (i: nat)
    requires x in xs
    ensures i < |xs| && xs[i] == x && x !in xs[..i]
    decreases |xs|
  {
    if xs[0] == x then 0
    else
      assert xs[1..][..FirstIndex(xs[1..], x)] == xs[..FirstIndex(xs[1..], x) + 1][1..];
      FirstIndex(xs[1..], x) + 1
  }

  /** `arrayFilterUnique()` as a filter: the first occurrence of every value, in order. */
  function FilterUnique(xs: seq<string>): (r: seq<string>)
    ensures forall x :: x in r <==> x in xs
    ensures NoDuplicates(r)
    decreases |xs|
  {
    if xs == [] then []
    else
      var prefix := FilterUnique(xs[..|xs| - 1]);
      var last := xs[|xs| - 1];
      assert xs == xs[..|xs| - 1] + [last];
      if last in prefix then prefix else prefix + [last]
  }

  /** The values come out in the order of their first occurrence. */
  lemma {:induction false} FilterUniqueOrder(xs: seq<string>)
    ensures forall i, j :: 0 <= i < j < |FilterUnique(xs)| ==>
      FirstIndex(xs, FilterUnique(xs)[i]) < FirstIndex(xs, FilterUnique(xs)[j])
    decreases |xs|
  {
    if xs != [] {
      var init := xs[..|xs| - 1];
      var last := xs[|xs| - 1];
      var prefix := FilterUnique(init);
      FilterUniqueOrder(init);
      assert xs == init + [last];
      forall y | y in init ensures FirstIndex(xs, y) == FirstIndex(init, y) {
        FirstIndexPrefix(init, last, y);
      }
      if last !in prefix {
        assert FirstIndex(xs, last) == |xs| - 1 by {
          FirstIndexPrefix(init, last, last);
        }
        var r := prefix + [last];
        forall i, j | 0 <= i < j < |r| ensures FirstIndex(xs, r[i]) < FirstIndex(xs, r[j]) {
          assert r[i] == prefix[i] && r[i] in init;
          if j < |prefix| {
            assert r[j] == prefix[j] && r[j] in init;
          }
        }
      }
    }
  }

  lemma FirstIndexPrefix(init: seq<string>, last: string, y: string)
    requires y in init + [last]
    ensures y in init ==> FirstIndex(init + [last], y) == FirstIndex(init, y)
    ensures y !in init ==> FirstIndex(init + [last], y) == |init|
  {
    var xs := init + [last];
    var i := FirstIndex(xs, y);
    if y in init {
      var k := FirstIndex(init, y);
      assert xs[k] == y;
      assert xs[..i] == init[..i] || i == |init|;
    } else {
      assert xs[..|init|] == init;
    }
  }

  /** Every value's entity ids, one list after another. */
  function Flatten(values: seq<SnakValue>, isEntityId: string -> bool): (r: seq<string>)
    ensures forall x :: x in r <==> exists i :: 0 <= i < |values| && x in EntitiesInSnakValue(values[i], isEntityId)
    decreases |values|
  {
    if values == [] then []
    else
      var rest := Flatten(values[1..], isEntityId);
      EntitiesInSnakValue(values[0], isEntityId) + rest
  }

  /**
   * The de-duplication of `entitiesInClaimValues`: each entity id found in
   * the claim values once.
   */
  function EntitiesInClaimValues(values: seq<SnakValue>, isEntityId: string -> bool): (r: seq<string>)
    ensures NoDuplicates(r)
    ensures forall x :: x in r <==> exists i :: 0 <= i < |values| && x in EntitiesInSnakValue(values[i], isEntityId)
  {
    FilterUnique(Flatten(values, isEntityId))
  }
}

/**
 * The inline-query helpers: the alphabet used to warm the entity cache
 * and the choice between a search and the popular entities.
 */
module InlineSearch {

  /** A UTF-16 code unit, what `charCodeAt` returns and `String.fromCharCode` takes. */
  newtype CodeUnit = x: int | 0 <= x < 0x1_0000

  /** A JavaScript string, as its code units. */
  type JsString = seq<CodeUnit>

  /**
   * `genCharArray(charA, charZ)`: one single-unit string per code from the
   * first unit of `charA` up to the first unit of `charZ`. An empty
   * argument makes `charCodeAt(0)` NaN, and no comparison with NaN holds.
   */
  method GenCharArray(charA: JsString, charZ: JsString) returns (result: seq<JsString>)
    ensures charA == [] || charZ == [] ==> result == []
    ensures charA != [] && charZ != [] ==>
      |result| == if charA[0] <= charZ[0] then charZ[0] as int - charA[0] as int + 1 else 0
    ensures forall k :: 0 <= k < |result| ==>
      |result[k]| == 1 && result[k][0] as int == charA[0] as int + k
  {
    result := [];
    if charA == [] || charZ == [] {
      return;
    }
    var i: int := charA[0] as int;
    while i <= charZ[0] as int
      invariant charA[0] as int <= i
      invariant i <= charZ[0] as int + 1 || result == []
      invariant |result| == i - charA[0] as int
      invariant forall k :: 0 <= k < |result| ==>
        |result[k]| == 1 && result[k][0] as int == charA[0] as int + k
    {
      result := result + [[i as CodeUnit]];
      i := i + 1;
    }
  }

  /** `genCharArray('A', 'Z')` in `init`: the 26 capital letters in order. */
  method Alphabet() returns (letters: seq<JsString>)
    ensures |letters| == 26
    ensures forall k :: 0 <= k < 26 ==> letters[k] == [('A' as int + k) as CodeUnit]
  {
    letters := GenCharArray(['A' as int as CodeUnit], ['Z' as int as CodeUnit]);
  }

  /** A search hit; only its id is used. */
  datatype SearchHit = SearchHit(id: string)

  /**
   * `getSearchResults(language, query)`: the ids of the search hits for a
   * non-empty query, in their order, and the popular entities otherwise.
   */
  function GetSearchResults(
    language: string, query: string,
    search: (string, string) -> seq<SearchHit>, popular: seq<string>): (r: seq<string>)
    ensures query != "" ==> |r| == |search(language, query)|
    ensures query != "" ==> forall i :: 0 <= i < |r| ==> r[i] == search(language, query)[i].id
    ensures query == "" ==> r == popular
  {
    if query != "" then
      var hits := search(language, query);
      seq(|hits|, i requires 0 <= i < |hits| => hits[i].id)
    else popular
  }
}

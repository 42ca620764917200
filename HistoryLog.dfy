/**
 * The entity history: the `History` table (user_id, entity, type, id) and the
 * bounded, recency-ranked window that `addHistoryEntity` keeps per user and
 * type. The rank `id` runs "reversed": the smallest id is the newest entry.
 * A log of n entries holds exactly the ids 6 - n .. 5, one row each.
 */
module HistoryLog {
  import opened Wrappers

  /** At most this many entries are kept per (user, type). */
  const WindowSize: int := 5

  /** The rank an empty log stands for, so the first entry is ranked 5. */
  const EmptyLastId: int := 6

  /** One row of the `History` table; `kind` is the column `type`, `id` the rank. */
  datatype HistoryRow = HistoryRow(userId: int, entity: string, kind: string, id: int)

  predicate InLog(r: HistoryRow, userId: int, kind: string) {
    r.userId == userId && r.kind == kind
  }

  /** `WHERE user_id = :user_id AND type = :type`, in table order. */
  function Matching(rows: seq<HistoryRow>, userId: int, kind: string): seq<HistoryRow>
    decreases |rows|
  {
    if rows == [] then []
    else
      var last := rows[|rows| - 1];
      Matching(rows[..|rows| - 1], userId, kind) + (if InLog(last, userId, kind) then [last] else [])
  }

  /** The rows ranked `id`, in table order. */
  function WithRank(rs: seq<HistoryRow>, id: int): seq<HistoryRow>
    decreases |rs|
  {
    if rs == [] then []
    else
      var last := rs[|rs| - 1];
      WithRank(rs[..|rs| - 1], id) + (if last.id == id then [last] else [])
  }

  /** The rows not ranked `id`: `DELETE ... WHERE id = :id` with no other condition. */
  function OtherRanks(rs: seq<HistoryRow>, id: int): seq<HistoryRow>
    decreases |rs|
  {
    if rs == [] then []
    else
      var last := rs[|rs| - 1];
      OtherRanks(rs[..|rs| - 1], id) + (if last.id != id then [last] else [])
  }

  /** `DELETE ... WHERE user_id = :id AND type = :type AND id = :rank`. */
  function DeleteRank(rows: seq<HistoryRow>, userId: int, kind: string, id: int): seq<HistoryRow>
    decreases |rows|
  {
    if rows == [] then []
    else
      var last := rows[|rows| - 1];
      DeleteRank(rows[..|rows| - 1], userId, kind, id)
        + (if InLog(last, userId, kind) && last.id == id then [] else [last])
  }

  function Bumped(r: HistoryRow): HistoryRow {
    r.(id := r.id + 1)
  }

  /** Every row one rank older. */
  function Bump(rs: seq<HistoryRow>): (r: seq<HistoryRow>)
    ensures |r| == |rs|
  {
    seq(|rs|, k requires 0 <= k < |rs| => Bumped(rs[k]))
  }

  /** `UPDATE ... SET id = id + 1 WHERE user_id = :id AND type = :type`. */
  function ShiftRanks(rows: seq<HistoryRow>, userId: int, kind: string): (r: seq<HistoryRow>)
    ensures |r| == |rows|
  {
    seq(|rows|, k requires 0 <= k < |rows| =>
      if InLog(rows[k], userId, kind) then Bumped(rows[k]) else rows[k])
  }

  function Entities(rs: seq<HistoryRow>): (r: seq<string>)
    ensures |r| == |rs|
  {
    seq(|rs|, k requires 0 <= k < |rs| => rs[k].entity)
  }

  /** `MIN(history.id)`, or `None` (SQL NULL) over no rows. */
  function MinRank(rs: seq<HistoryRow>): (m: Option<int>)
    ensures m.None? <==> rs == []
    ensures m.Some? ==> exists x :: x in rs && x.id == m.value
    ensures m.Some? ==> forall x :: x in rs ==> m.value <= x.id
    decreases |rs|
  {
    if rs == [] then None
    else
      var last := rs[|rs| - 1];
      assert rs == rs[..|rs| - 1] + [last];
      var m := MinRank(rs[..|rs| - 1]);
      if m.None? || last.id < m.value then Some(last.id) else m
  }

  /** `MAX(id)`, or `None` over no rows. */
  function MaxRank(rs: seq<HistoryRow>): (m: Option<int>)
    ensures m.None? <==> rs == []
    ensures m.Some? ==> exists x :: x in rs && x.id == m.value
    ensures m.Some? ==> forall x :: x in rs ==> x.id <= m.value
    decreases |rs|
  {
    if rs == [] then None
    else
      var last := rs[|rs| - 1];
      assert rs == rs[..|rs| - 1] + [last];
      var m := MaxRank(rs[..|rs| - 1]);
      if m.None? || last.id > m.value then Some(last.id) else m
  }

  /** The rows ranked `lo`, then those ranked `lo + 1`, ..., up to `hi`. */
  function Ascending(rs: seq<HistoryRow>, lo: int, hi: int): seq<HistoryRow>
    decreases hi - lo + 1
  {
    if lo > hi then [] else WithRank(rs, lo) + Ascending(rs, lo + 1, hi)
  }

  /** `ORDER BY id ASC` (rows of equal rank keep table order): the same rows, reordered. */
  function ByRank(rs: seq<HistoryRow>): (r: seq<HistoryRow>)
    ensures multiset(r) == multiset(rs)
    ensures |r| == |rs|
  {
    if rs == [] then []
    else
      var lo := MinRank(rs).value;
      var hi := MaxRank(rs).value;
      AscendingPermutes(rs, lo, hi);
      var r := Ascending(rs, lo, hi);
      assert |r| == |multiset(r)| == |multiset(rs)|;
      r
  }

  /**
   * `getHistoryEntities(user_id, type)`: the entities of that user's rows of
   * that type, oldest rank last, and [] when there are none.
   */
  function GetHistoryEntities(rows: seq<HistoryRow>, userId: int, kind: string): (r: seq<string>)
    ensures |r| == |Matching(rows, userId, kind)|
    ensures r == [] <==> Matching(rows, userId, kind) == []
    ensures r == Entities(ByRank(Matching(rows, userId, kind)))
  {
    var history := ByRank(Matching(rows, userId, kind));
    if |history| < 1 then [] else Entities(history)
  }

  /** `findOne({where: {user_id, entity}})` found a row: the type is not part of the test. */
  predicate HasEntity(rows: seq<HistoryRow>, userId: int, entity: string) {
    exists x :: x in rows && x.userId == userId && x.entity == entity
  }

  /** `lastId ? lastId : 6`: a missing (or zero) minimum falls back to 6. */
  function LastId(minId: Option<int>): int {
    if minId.Some? && minId.value != 0 then minId.value else EmptyLastId
  }

  /** The newest `WindowSize` of a newest-first list. */
  function Newest(xs: seq<string>): (r: seq<string>)
    ensures |r| <= WindowSize
  {
    if |xs| > WindowSize then xs[..WindowSize] else xs
  }

  /**
   * The table after `addHistoryEntity(user_id, entity, type)`, with the
   * eviction scoped to the user and type as the code's comment intends.
   */
  function Recorded(rows: seq<HistoryRow>, userId: int, entity: string, kind: string): seq<HistoryRow> {
    if HasEntity(rows, userId, entity) then rows
    else
      var lastId := LastId(MinRank(Matching(rows, userId, kind)));
      var inserted := rows + [HistoryRow(userId, entity, kind, lastId - 1)];
      if lastId == 1 then ShiftRanks(DeleteRank(inserted, userId, kind, WindowSize), userId, kind)
      else inserted
  }

  /**
   * The table after `addHistoryEntity` as the code is written: the delete's
   * second `.where` replaces the first, so it removes the rank-5 row of EVERY
   * user and type.
   */
  function RecordedAsWritten(rows: seq<HistoryRow>, userId: int, entity: string, kind: string): seq<HistoryRow> {
    if HasEntity(rows, userId, entity) then rows
    else
      var lastId := LastId(MinRank(Matching(rows, userId, kind)));
      var inserted := rows + [HistoryRow(userId, entity, kind, lastId - 1)];
      if lastId == 1 then ShiftRanks(OtherRanks(inserted, WindowSize), userId, kind)
      else inserted
  }

  // ---------------------------------------------------------------------
  // The window invariant

  /** The lowest rank a log of this length holds. */
  function Floor(rs: seq<HistoryRow>): int {
    WindowSize + 1 - |rs|
  }

  /** One log: at most 5 rows, ranked exactly Floor .. 5, one row per rank. */
  ghost predicate Window(rs: seq<HistoryRow>) {
    && |rs| <= WindowSize
    && (forall x :: x in rs ==> Floor(rs) <= x.id <= WindowSize)
    && (forall id :: Floor(rs) <= id <= WindowSize ==> |WithRank(rs, id)| == 1)
  }

  /** Per user, an entity is in at most one row, whatever its type. */
  ghost predicate DistinctEntities(rows: seq<HistoryRow>)
    decreases |rows|
  {
    rows != [] ==>
      var last := rows[|rows| - 1];
      DistinctEntities(rows[..|rows| - 1]) && !HasEntity(rows[..|rows| - 1], last.userId, last.entity)
  }

  /** The table invariant every operation keeps. */
  ghost predicate Consistent(rows: seq<HistoryRow>) {
    && (forall u, t :: Window(Matching(rows, u, t)))
    && DistinctEntities(rows)
  }

  // ---------------------------------------------------------------------
  // Lemmas about the row filters

  lemma MatchingAppend(rows: seq<HistoryRow>, x: HistoryRow, userId: int, kind: string)
    ensures Matching(rows + [x], userId, kind)
         == Matching(rows, userId, kind) + (if InLog(x, userId, kind) then [x] else [])
  {
    assert (rows + [x])[..|rows + [x]| - 1] == rows;
  }

  lemma WithRankAppend(rs: seq<HistoryRow>, x: HistoryRow, id: int)
    ensures WithRank(rs + [x], id) == WithRank(rs, id) + (if x.id == id then [x] else [])
  {
    assert (rs + [x])[..|rs + [x]| - 1] == rs;
  }

  lemma OtherRanksAppend(rs: seq<HistoryRow>, x: HistoryRow, id: int)
    ensures OtherRanks(rs + [x], id) == OtherRanks(rs, id) + (if x.id != id then [x] else [])
  {
    assert (rs + [x])[..|rs + [x]| - 1] == rs;
  }

  /** `WHERE user_id = :u AND type = :t` keeps exactly the rows of that log. */
  lemma {:induction false} MatchingMembers(rows: seq<HistoryRow>, userId: int, kind: string)
    ensures forall x :: x in Matching(rows, userId, kind) <==> x in rows && InLog(x, userId, kind)
    decreases |rows|
  {
    if rows != [] {
      var init := rows[..|rows| - 1];
      assert rows == init + [rows[|rows| - 1]];
      MatchingMembers(init, userId, kind);
    }
  }

  lemma {:induction false} WithRankMembers(rs: seq<HistoryRow>, id: int)
    ensures forall x :: x in WithRank(rs, id) <==> x in rs && x.id == id
    decreases |rs|
  {
    if rs != [] {
      var init := rs[..|rs| - 1];
      assert rs == init + [rs[|rs| - 1]];
      WithRankMembers(init, id);
    }
  }

  lemma {:induction false} OtherRanksMembers(rs: seq<HistoryRow>, id: int)
    ensures forall x :: x in OtherRanks(rs, id) <==> x in rs && x.id != id
    decreases |rs|
  {
    if rs != [] {
      var init := rs[..|rs| - 1];
      assert rs == init + [rs[|rs| - 1]];
      OtherRanksMembers(init, id);
    }
  }

  lemma {:induction false} DeleteRankMembers(rows: seq<HistoryRow>, userId: int, kind: string, id: int)
    ensures forall x :: x in DeleteRank(rows, userId, kind, id) <==> x in rows && !(InLog(x, userId, kind) && x.id == id)
    decreases |rows|
  {
    if rows != [] {
      var init := rows[..|rows| - 1];
      assert rows == init + [rows[|rows| - 1]];
      DeleteRankMembers(init, userId, kind, id);
    }
  }

  lemma {:induction false} WithRankAbsent(rs: seq<HistoryRow>, id: int)
    requires forall x :: x in rs ==> x.id != id
    ensures WithRank(rs, id) == []
    decreases |rs|
  {
    if rs != [] {
      var init := rs[..|rs| - 1];
      assert rs == init + [rs[|rs| - 1]];
      WithRankAbsent(init, id);
    }
  }

  lemma {:induction false} OtherRanksNone(rs: seq<HistoryRow>, id: int)
    requires forall x :: x in rs ==> x.id == id
    ensures OtherRanks(rs, id) == []
    decreases |rs|
  {
    if rs != [] {
      var init := rs[..|rs| - 1];
      assert rs == init + [rs[|rs| - 1]];
      OtherRanksNone(init, id);
    }
  }

  /** Deleting one rank of a log leaves the other ranks' rows as they were. */
  lemma {:induction false} WithRankOtherRanks(rs: seq<HistoryRow>, gone: int, id: int)
    ensures WithRank(OtherRanks(rs, gone), id) == if id == gone then [] else WithRank(rs, id)
    decreases |rs|
  {
    if rs != [] {
      var init, last := rs[..|rs| - 1], rs[|rs| - 1];
      WithRankOtherRanks(init, gone, id);
      var o := OtherRanks(init, gone);
      var w := WithRank(init, id);
      if last.id != gone {
        assert OtherRanks(rs, gone) == o + [last];
        WithRankAppend(o, last, id);
        if id == gone {
          assert WithRank(o + [last], id) == [] + [];
        } else {
          assert WithRank(rs, id) == w + (if last.id == id then [last] else []);
        }
      } else {
        assert OtherRanks(rs, gone) == o + [] == o;
        if id != gone {
          assert WithRank(rs, id) == w + [] == w;
        }
      }
    }
  }

  /** A log splits into the rows of one rank and the rest. */
  lemma {:induction false} SplitByRank(rs: seq<HistoryRow>, id: int)
    ensures multiset(rs) == multiset(WithRank(rs, id)) + multiset(OtherRanks(rs, id))
    ensures |rs| == |WithRank(rs, id)| + |OtherRanks(rs, id)|
    decreases |rs|
  {
    if rs != [] {
      var init, last := rs[..|rs| - 1], rs[|rs| - 1];
      assert rs == init + [last];
      SplitByRank(init, id);
    }
  }

  lemma {:induction false} WithRankBump(rs: seq<HistoryRow>, id: int)
    ensures WithRank(Bump(rs), id + 1) == Bump(WithRank(rs, id))
    decreases |rs|
  {
    if rs != [] {
      var init, last := rs[..|rs| - 1], rs[|rs| - 1];
      assert Bump(rs) == Bump(init) + [Bumped(last)];
      WithRankAppend(Bump(init), Bumped(last), id + 1);
      WithRankBump(init, id);
      var w := WithRank(init, id);
      assert Bump(w + (if last.id == id then [last] else []))
          == Bump(w) + (if last.id == id then [Bumped(last)] else []);
    }
  }

  lemma {:induction false} MatchingDeleteRank(rows: seq<HistoryRow>, userId: int, kind: string, id: int, u: int, t: string)
    ensures Matching(DeleteRank(rows, userId, kind, id), u, t)
         == if u == userId && t == kind then OtherRanks(Matching(rows, u, t), id) else Matching(rows, u, t)
    decreases |rows|
  {
    if rows != [] {
      var init, last := rows[..|rows| - 1], rows[|rows| - 1];
      MatchingDeleteRank(init, userId, kind, id, u, t);
      var d := DeleteRank(init, userId, kind, id);
      var m := Matching(init, u, t);
      assert DeleteRank(rows, userId, kind, id)
          == d + (if InLog(last, userId, kind) && last.id == id then [] else [last]);
      assert Matching(rows, u, t) == m + (if InLog(last, u, t) then [last] else []);
      if InLog(last, userId, kind) && last.id == id {
        assert DeleteRank(rows, userId, kind, id) == d + [] == d;
        if u == userId && t == kind {
          OtherRanksAppend(m, last, id);
          assert OtherRanks(m + [last], id) == OtherRanks(m, id) + [] == OtherRanks(m, id);
        } else {
          assert Matching(rows, u, t) == m + [] == m;
        }
      } else {
        assert DeleteRank(rows, userId, kind, id) == d + [last];
        MatchingAppend(d, last, u, t);
        if u == userId && t == kind {
          if InLog(last, u, t) {
            OtherRanksAppend(m, last, id);
          } else {
            assert Matching(rows, u, t) == m + [] == m;
          }
        }
      }
    }
  }

  lemma {:induction false} MatchingShift(rows: seq<HistoryRow>, userId: int, kind: string, u: int, t: string)
    ensures Matching(ShiftRanks(rows, userId, kind), u, t)
         == if u == userId && t == kind then Bump(Matching(rows, u, t)) else Matching(rows, u, t)
    decreases |rows|
  {
    if rows != [] {
      var init, last := rows[..|rows| - 1], rows[|rows| - 1];
      var shiftedLast := if InLog(last, userId, kind) then Bumped(last) else last;
      assert ShiftRanks(rows, userId, kind) == ShiftRanks(init, userId, kind) + [shiftedLast];
      MatchingAppend(ShiftRanks(init, userId, kind), shiftedLast, u, t);
      MatchingShift(init, userId, kind, u, t);
      var m := Matching(init, u, t);
      if InLog(last, u, t) {
        assert Matching(rows, u, t) == m + [last];
        if u == userId && t == kind {
          assert Bump(m + [last]) == Bump(m) + [Bumped(last)];
        }
      } else {
        assert Matching(rows, u, t) == m + [] == m;
      }
    }
  }

  lemma {:induction false} MatchingOtherRanks(rows: seq<HistoryRow>, id: int, u: int, t: string)
    ensures Matching(OtherRanks(rows, id), u, t) == OtherRanks(Matching(rows, u, t), id)
    decreases |rows|
  {
    if rows != [] {
      var init, last := rows[..|rows| - 1], rows[|rows| - 1];
      MatchingOtherRanks(init, id, u, t);
      var m := Matching(init, u, t);
      assert OtherRanks(rows, id) == OtherRanks(init, id) + (if last.id != id then [last] else []);
      assert Matching(rows, u, t) == m + (if InLog(last, u, t) then [last] else []);
      var o := OtherRanks(init, id);
      MatchingAppend(o, last, u, t);
      if InLog(last, u, t) {
        OtherRanksAppend(m, last, id);
        if last.id == id {
          assert OtherRanks(rows, id) == o + [] == o;
          assert OtherRanks(m + [last], id) == OtherRanks(m, id) + [] == OtherRanks(m, id);
        }
      } else {
        assert Matching(rows, u, t) == m + [] == m;
        if last.id == id {
          assert OtherRanks(rows, id) == o + [] == o;
        }
      }
    }
  }

  // ---------------------------------------------------------------------
  // Lemmas about the ordering

  /** Ascending only looks at the ranks between its bounds. */
  lemma {:induction false} AscendingCongruent(a: seq<HistoryRow>, b: seq<HistoryRow>, lo: int, hi: int)
    requires forall id :: lo <= id <= hi ==> WithRank(a, id) == WithRank(b, id)
    ensures Ascending(a, lo, hi) == Ascending(b, lo, hi)
    decreases hi - lo + 1
  {
    if lo <= hi {
      AscendingCongruent(a, b, lo + 1, hi);
    }
  }

  /** Ascending lists ranks `lo` .. `hi` only, in ascending order. */
  lemma {:induction false} AscendingSorted(rs: seq<HistoryRow>, lo: int, hi: int)
    ensures forall k :: 0 <= k < |Ascending(rs, lo, hi)| ==> lo <= Ascending(rs, lo, hi)[k].id <= hi
    ensures forall i, j :: 0 <= i < j < |Ascending(rs, lo, hi)| ==> Ascending(rs, lo, hi)[i].id <= Ascending(rs, lo, hi)[j].id
    decreases hi - lo + 1
  {
    if lo <= hi {
      AscendingSorted(rs, lo + 1, hi);
      WithRankMembers(rs, lo);
      var here, rest := WithRank(rs, lo), Ascending(rs, lo + 1, hi);
      var a := here + rest;
      forall k | 0 <= k < |a| ensures a[k].id == lo || (k >= |here| && a[k] == rest[k - |here|]) {
        if k < |here| {
          assert a[k] == here[k] && here[k] in here;
        }
      }
    }
  }

  /** The listing of a log is in ascending rank order: newest first. */
  lemma ByRankSorted(rs: seq<HistoryRow>)
    ensures forall i, j :: 0 <= i < j < |ByRank(rs)| ==> ByRank(rs)[i].id <= ByRank(rs)[j].id
  {
    if rs != [] {
      AscendingSorted(rs, MinRank(rs).value, MaxRank(rs).value);
    }
  }

  /** Listing a log by rank loses and adds no row. */
  lemma {:induction false} AscendingPermutes(rs: seq<HistoryRow>, lo: int, hi: int)
    requires lo <= hi
    requires forall x :: x in rs ==> lo <= x.id <= hi
    ensures multiset(Ascending(rs, lo, hi)) == multiset(rs)
    decreases hi - lo
  {
    SplitByRank(rs, lo);
    assert Ascending(rs, lo, hi) == WithRank(rs, lo) + Ascending(rs, lo + 1, hi);
    if lo == hi {
      OtherRanksNone(rs, lo);
    } else {
      AscendingPastLowest(rs, lo, hi);
      AscendingPermutes(OtherRanks(rs, lo), lo + 1, hi);
    }
  }

  /** Above the lowest rank, listing a log or the log without its lowest rank is the same. */
  lemma AscendingPastLowest(rs: seq<HistoryRow>, lo: int, hi: int)
    requires forall x :: x in rs ==> lo <= x.id <= hi
    ensures forall x :: x in OtherRanks(rs, lo) ==> lo + 1 <= x.id <= hi
    ensures Ascending(rs, lo + 1, hi) == Ascending(OtherRanks(rs, lo), lo + 1, hi)
  {
    OtherRanksMembers(rs, lo);
    AscendingWithout(rs, lo, lo + 1, hi);
  }

  /** Listing ranks above `gone` does not see the rows ranked `gone`. */
  lemma AscendingWithout(rs: seq<HistoryRow>, gone: int, lo: int, hi: int)
    requires gone < lo
    ensures Ascending(rs, lo, hi) == Ascending(OtherRanks(rs, gone), lo, hi)
  {
    forall id | lo <= id <= hi
      ensures WithRank(rs, id) == WithRank(OtherRanks(rs, gone), id)
    {
      WithRankOtherRanks(rs, gone, id);
    }
    AscendingCongruent(rs, OtherRanks(rs, gone), lo, hi);
  }

  lemma {:induction false} AscendingTop(rs: seq<HistoryRow>, lo: int, hi: int)
    requires lo <= hi
    ensures Ascending(rs, lo, hi) == Ascending(rs, lo, hi - 1) + WithRank(rs, hi)
    decreases hi - lo
  {
    var w := WithRank(rs, lo);
    if lo < hi {
      AscendingTop(rs, lo + 1, hi);
      var mid := Ascending(rs, lo + 1, hi - 1);
      assert w + (mid + WithRank(rs, hi)) == (w + mid) + WithRank(rs, hi);
    } else {
      assert w + [] == [] + w;
    }
  }

  lemma {:induction false} AscendingBump(rs: seq<HistoryRow>, lo: int, hi: int)
    ensures Ascending(Bump(rs), lo + 1, hi + 1) == Bump(Ascending(rs, lo, hi))
    decreases hi - lo + 1
  {
    if lo <= hi {
      AscendingBump(rs, lo + 1, hi);
      WithRankBump(rs, lo);
      var w, rest := WithRank(rs, lo), Ascending(rs, lo + 1, hi);
      assert Bump(w + rest) == Bump(w) + Bump(rest);
    }
  }

  lemma EntitiesBump(rs: seq<HistoryRow>)
    ensures Entities(Bump(rs)) == Entities(rs)
  {
  }

  // ---------------------------------------------------------------------
  // Lemmas about one log's window

  /** In a window the smallest rank is the floor and the largest is 5. */
  lemma WindowRanks(rs: seq<HistoryRow>)
    requires Window(rs) && rs != []
    ensures MinRank(rs) == Some(Floor(rs))
    ensures MaxRank(rs) == Some(WindowSize)
  {
    var lo := Floor(rs);
    WithRankMembers(rs, lo);
    WithRankMembers(rs, WindowSize);
    assert |WithRank(rs, lo)| == 1;
    assert WithRank(rs, lo)[0] in WithRank(rs, lo);
    assert |WithRank(rs, WindowSize)| == 1;
    assert WithRank(rs, WindowSize)[0] in WithRank(rs, WindowSize);
  }

  /** A window lists by rank from its floor to 5. */
  lemma WindowByRank(rs: seq<HistoryRow>)
    requires Window(rs)
    ensures ByRank(rs) == Ascending(rs, Floor(rs), WindowSize)
  {
    if rs != [] {
      WindowRanks(rs);
    }
  }

  /** A window that is not full takes a new row one below its floor, at the head. */
  lemma InsertWindow(rs: seq<HistoryRow>, x: HistoryRow)
    requires Window(rs) && |rs| < WindowSize
    requires x.id == Floor(rs) - 1
    ensures Window(rs + [x])
    ensures ByRank(rs + [x]) == [x] + ByRank(rs)
  {
    InsertWindowValid(rs, x);
    WindowByRank(rs);
    WindowByRank(rs + [x]);
    AscendingAppended(rs, x, WindowSize);
  }

  lemma InsertWindowValid(rs: seq<HistoryRow>, x: HistoryRow)
    requires Window(rs) && |rs| < WindowSize
    requires x.id == Floor(rs) - 1
    ensures Window(rs + [x])
  {
    var lo := Floor(rs);
    forall id | lo - 1 <= id <= WindowSize ensures |WithRank(rs + [x], id)| == 1 {
      WithRankAppend(rs, x, id);
      if id == lo - 1 {
        WithRankAbsent(rs, lo - 1);
      }
    }
  }

  /** After the eviction of a full window the ranks are 1 .. 5 again, one row each. */
  lemma EvictWindowValid(rs: seq<HistoryRow>, x: HistoryRow)
    requires Window(rs) && |rs| == WindowSize
    requires x.id == 0
    ensures |Bump(OtherRanks(rs + [x], WindowSize))| == WindowSize
    ensures Window(Bump(OtherRanks(rs + [x], WindowSize)))
  {
    EvictedCounts(rs, x);
    EvictedRange(rs, x);
  }

  lemma EvictedCounts(rs: seq<HistoryRow>, x: HistoryRow)
    requires |rs| == WindowSize
    requires forall id :: 1 <= id <= WindowSize ==> |WithRank(rs, id)| == 1
    requires forall y :: y in rs ==> y.id != 0
    requires x.id == 0
    ensures |Bump(OtherRanks(rs + [x], WindowSize))| == WindowSize
    ensures forall id :: 1 <= id <= WindowSize ==> |WithRank(Bump(OtherRanks(rs + [x], WindowSize)), id)| == 1
  {
    var m1 := rs + [x];
    var m2 := OtherRanks(m1, WindowSize);
    SplitByRank(m1, WindowSize);
    WithRankAppend(rs, x, WindowSize);
    forall id | 1 <= id <= WindowSize ensures |WithRank(Bump(m2), id)| == 1 {
      WithRankBump(m2, id - 1);
      WithRankOtherRanks(m1, WindowSize, id - 1);
      WithRankAppend(rs, x, id - 1);
      if id == 1 {
        WithRankAbsent(rs, 0);
      }
    }
  }

  lemma EvictedRange(rs: seq<HistoryRow>, x: HistoryRow)
    requires forall y :: y in rs ==> 1 <= y.id <= WindowSize
    requires x.id == 0
    ensures forall y :: y in Bump(OtherRanks(rs + [x], WindowSize)) ==> 1 <= y.id <= WindowSize
  {
    var m2 := OtherRanks(rs + [x], WindowSize);
    var m3 := Bump(m2);
    OtherRanksMembers(rs + [x], WindowSize);
    forall y | y in m3 ensures 1 <= y.id <= WindowSize {
      var k :| 0 <= k < |m3| && m3[k] == y;
      assert m2[k] in m2;
    }
  }

  /** After the eviction of a full window the new row comes first, then the 4 newest. */
  lemma EvictWindowListing(rs: seq<HistoryRow>, x: HistoryRow)
    requires Window(rs) && |rs| == WindowSize
    requires x.id == 0
    ensures ByRank(Bump(OtherRanks(rs + [x], WindowSize))) == Bump([x] + ByRank(rs)[..WindowSize - 1])
  {
    var m2 := OtherRanks(rs + [x], WindowSize);
    EvictWindowValid(rs, x);
    WindowByRank(Bump(m2));
    AscendingBump(m2, 0, WindowSize - 1);
    assert forall y :: y in rs ==> y.id != 0;
    EvictedAscending(rs, x, WindowSize);
    FullWindowPrefix(rs);
  }

  /** Below the evicted rank `top`, the new row ranked 0 comes first, then the old ranks 1 .. top - 1. */
  lemma EvictedAscending(rs: seq<HistoryRow>, x: HistoryRow, top: int)
    requires forall y :: y in rs ==> y.id != 0
    requires x.id == 0 < top
    ensures Ascending(OtherRanks(rs + [x], top), 0, top - 1) == [x] + Ascending(rs, 1, top - 1)
  {
    AscendingBelowEvicted(rs + [x], top);
    AscendingAppended(rs, x, top - 1);
  }

  /** Deleting rank `top` does not change the listing of the ranks below it. */
  lemma AscendingBelowEvicted(rs: seq<HistoryRow>, top: int)
    ensures Ascending(OtherRanks(rs, top), 0, top - 1) == Ascending(rs, 0, top - 1)
  {
    forall id | 0 <= id <= top - 1 ensures WithRank(OtherRanks(rs, top), id) == WithRank(rs, id) {
      WithRankOtherRanks(rs, top, id);
    }
    AscendingCongruent(OtherRanks(rs, top), rs, 0, top - 1);
  }

  /** A row whose rank no other row of the log has heads the listing from that rank. */
  lemma AscendingAppended(rs: seq<HistoryRow>, x: HistoryRow, hi: int)
    requires forall y :: y in rs ==> y.id != x.id
    requires x.id <= hi
    ensures Ascending(rs + [x], x.id, hi) == [x] + Ascending(rs, x.id + 1, hi)
  {
    forall id | x.id + 1 <= id <= hi ensures WithRank(rs + [x], id) == WithRank(rs, id) {
      WithRankAppend(rs, x, id);
      assert WithRank(rs + [x], id) == WithRank(rs, id) + [];
    }
    AscendingCongruent(rs + [x], rs, x.id + 1, hi);
    WithRankAbsent(rs, x.id);
    WithRankAppend(rs, x, x.id);
    assert WithRank(rs + [x], x.id) == [] + [x];
  }

  /** The four newest entries of a full window are its ranks 1 .. 4. */
  lemma FullWindowPrefix(rs: seq<HistoryRow>)
    requires Window(rs) && |rs| == WindowSize
    ensures ByRank(rs)[..WindowSize - 1] == Ascending(rs, 1, WindowSize - 1)
  {
    WindowByRank(rs);
    AscendingTop(rs, 1, WindowSize);
    var all := Ascending(rs, 1, WindowSize);
    assert |WithRank(rs, WindowSize)| == 1;
    assert all[..WindowSize - 1] == Ascending(rs, 1, WindowSize - 1);
  }

  // ---------------------------------------------------------------------
  // Lemmas about Recorded

  /** A recorded entity never touches another user's or another type's log. */
  lemma RecordedOtherLogs(rows: seq<HistoryRow>, userId: int, entity: string, kind: string, u: int, t: string)
    requires u != userId || t != kind
    ensures Matching(Recorded(rows, userId, entity, kind), u, t) == Matching(rows, u, t)
  {
    if !HasEntity(rows, userId, entity) {
      var lastId := LastId(MinRank(Matching(rows, userId, kind)));
      var x := HistoryRow(userId, entity, kind, lastId - 1);
      var inserted := rows + [x];
      MatchingAppend(rows, x, u, t);
      if lastId == 1 {
        var deleted := DeleteRank(inserted, userId, kind, WindowSize);
        MatchingDeleteRank(inserted, userId, kind, WindowSize, u, t);
        MatchingShift(deleted, userId, kind, u, t);
      }
    }
  }

  /**
   * Recording a new entity puts it first in its log and keeps at most the
   * 5 newest; the log stays a window.
   */
  lemma RecordedLog(rows: seq<HistoryRow>, userId: int, entity: string, kind: string)
    requires Window(Matching(rows, userId, kind))
    requires !HasEntity(rows, userId, entity)
    ensures Window(Matching(Recorded(rows, userId, entity, kind), userId, kind))
    ensures GetHistoryEntities(Recorded(rows, userId, entity, kind), userId, kind)
         == Newest([entity] + GetHistoryEntities(rows, userId, kind))
  {
    if |Matching(rows, userId, kind)| < WindowSize {
      RecordedLogFilling(rows, userId, entity, kind);
    } else {
      RecordedLogFull(rows, userId, entity, kind);
    }
  }

  lemma RecordedLogFilling(rows: seq<HistoryRow>, userId: int, entity: string, kind: string)
    requires Window(Matching(rows, userId, kind))
    requires !HasEntity(rows, userId, entity)
    requires |Matching(rows, userId, kind)| < WindowSize
    ensures Window(Matching(Recorded(rows, userId, entity, kind), userId, kind))
    ensures GetHistoryEntities(Recorded(rows, userId, entity, kind), userId, kind)
         == Newest([entity] + GetHistoryEntities(rows, userId, kind))
  {
    var m := Matching(rows, userId, kind);
    RecordedFilling(rows, userId, entity, kind);
    var x := HistoryRow(userId, entity, kind, WindowSize - |m|);
    MatchingAppend(rows, x, userId, kind);
    assert Matching(Recorded(rows, userId, entity, kind), userId, kind) == m + [x];
    InsertListing(m, x);
  }

  lemma RecordedLogFull(rows: seq<HistoryRow>, userId: int, entity: string, kind: string)
    requires Window(Matching(rows, userId, kind))
    requires !HasEntity(rows, userId, entity)
    requires |Matching(rows, userId, kind)| == WindowSize
    ensures Window(Matching(Recorded(rows, userId, entity, kind), userId, kind))
    ensures GetHistoryEntities(Recorded(rows, userId, entity, kind), userId, kind)
         == Newest([entity] + GetHistoryEntities(rows, userId, kind))
  {
    var m := Matching(rows, userId, kind);
    var x := HistoryRow(userId, entity, kind, 0);
    RecordedEvicts(rows, userId, entity, kind);
    EvictListing(m, x);
  }

  /** The listing of a filling log gains the new entity at its head. */
  lemma InsertListing(m: seq<HistoryRow>, x: HistoryRow)
    requires Window(m) && |m| < WindowSize
    requires x.id == Floor(m) - 1
    ensures Window(m + [x])
    ensures Entities(ByRank(m + [x])) == Newest([x.entity] + Entities(ByRank(m)))
  {
    InsertWindow(m, x);
    NewestOfShort(x, ByRank(m));
  }

  lemma NewestOfShort(x: HistoryRow, b: seq<HistoryRow>)
    requires |b| < WindowSize
    ensures Entities([x] + b) == Newest([x.entity] + Entities(b))
  {
    assert Entities([x] + b) == [x.entity] + Entities(b);
  }

  /** The listing of a full log gains the new entity at its head and loses its last one. */
  lemma EvictListing(m: seq<HistoryRow>, x: HistoryRow)
    requires Window(m) && |m| == WindowSize
    requires x.id == 0
    ensures Window(Bump(OtherRanks(m + [x], WindowSize)))
    ensures Entities(ByRank(Bump(OtherRanks(m + [x], WindowSize)))) == Newest([x.entity] + Entities(ByRank(m)))
  {
    EvictWindowValid(m, x);
    EvictWindowListing(m, x);
    NewestOfFull(x, ByRank(m));
  }

  lemma NewestOfFull(x: HistoryRow, b: seq<HistoryRow>)
    requires |b| == WindowSize
    ensures Entities(Bump([x] + b[..WindowSize - 1])) == Newest([x.entity] + Entities(b))
  {
    var kept := b[..WindowSize - 1];
    EntitiesBump([x] + kept);
    assert Entities([x] + kept) == [x.entity] + Entities(b)[..WindowSize - 1];
  }

  /** While the log is not full nothing is deleted: the new row is ranked one below the floor. */
  lemma RecordedFilling(rows: seq<HistoryRow>, userId: int, entity: string, kind: string)
    requires Window(Matching(rows, userId, kind))
    requires !HasEntity(rows, userId, entity)
    requires |Matching(rows, userId, kind)| < WindowSize
    ensures Recorded(rows, userId, entity, kind)
         == rows + [HistoryRow(userId, entity, kind, WindowSize - |Matching(rows, userId, kind)|)]
  {
    var m := Matching(rows, userId, kind);
    if m != [] {
      WindowRanks(m);
    }
    assert LastId(MinRank(m)) == WindowSize + 1 - |m| != 1;
  }

  /** When the log is full the new row enters ranked 0, rank 5 goes, and the log moves up one rank. */
  lemma RecordedEvicts(rows: seq<HistoryRow>, userId: int, entity: string, kind: string)
    requires Window(Matching(rows, userId, kind))
    requires !HasEntity(rows, userId, entity)
    requires |Matching(rows, userId, kind)| == WindowSize
    ensures Matching(Recorded(rows, userId, entity, kind), userId, kind)
         == Bump(OtherRanks(Matching(rows, userId, kind) + [HistoryRow(userId, entity, kind, 0)], WindowSize))
  {
    var m := Matching(rows, userId, kind);
    WindowRanks(m);
    var x := HistoryRow(userId, entity, kind, 0);
    var inserted := rows + [x];
    MatchingAppend(rows, x, userId, kind);
    var deleted := DeleteRank(inserted, userId, kind, WindowSize);
    MatchingDeleteRank(inserted, userId, kind, WindowSize, userId, kind);
    MatchingShift(deleted, userId, kind, userId, kind);
  }

  /** When the log is full the new entity ends up ranked 1, the only row of that rank. */
  lemma RecordedFull(rows: seq<HistoryRow>, userId: int, entity: string, kind: string)
    requires Window(Matching(rows, userId, kind))
    requires !HasEntity(rows, userId, entity)
    requires |Matching(rows, userId, kind)| == WindowSize
    ensures |Matching(Recorded(rows, userId, entity, kind), userId, kind)| == WindowSize
    ensures WithRank(Matching(Recorded(rows, userId, entity, kind), userId, kind), 1)
         == [HistoryRow(userId, entity, kind, 1)]
  {
    var m := Matching(rows, userId, kind);
    var x := HistoryRow(userId, entity, kind, 0);
    RecordedEvicts(rows, userId, entity, kind);
    EvictWindowValid(m, x);
    var m1 := m + [x];
    var m2 := OtherRanks(m1, WindowSize);
    WithRankBump(m2, 0);
    WithRankOtherRanks(m1, WindowSize, 0);
    WithRankAppend(m, x, 0);
    WithRankAbsent(m, 0);
    assert WithRank(m1, 0) == [] + [x];
  }

  lemma HasEntityDeleteRank(rows: seq<HistoryRow>, userId: int, kind: string, id: int, u: int, e: string)
    ensures HasEntity(DeleteRank(rows, userId, kind, id), u, e) ==> HasEntity(rows, u, e)
  {
    DeleteRankMembers(rows, userId, kind, id);
  }

  lemma HasEntityShift(rows: seq<HistoryRow>, userId: int, kind: string, u: int, e: string)
    ensures HasEntity(ShiftRanks(rows, userId, kind), u, e) <==> HasEntity(rows, u, e)
  {
    var s := ShiftRanks(rows, userId, kind);
    if HasEntity(s, u, e) {
      var y :| y in s && y.userId == u && y.entity == e;
      var k :| 0 <= k < |s| && s[k] == y;
      assert rows[k] in rows;
    }
    if HasEntity(rows, u, e) {
      var y :| y in rows && y.userId == u && y.entity == e;
      var k :| 0 <= k < |rows| && rows[k] == y;
      assert s[k] in s;
    }
  }

  lemma {:induction false} DistinctAfterDelete(rows: seq<HistoryRow>, userId: int, kind: string, id: int)
    requires DistinctEntities(rows)
    ensures DistinctEntities(DeleteRank(rows, userId, kind, id))
    decreases |rows|
  {
    if rows != [] {
      var init, last := rows[..|rows| - 1], rows[|rows| - 1];
      DistinctAfterDelete(init, userId, kind, id);
      var d := DeleteRank(init, userId, kind, id);
      if InLog(last, userId, kind) && last.id == id {
        assert DeleteRank(rows, userId, kind, id) == d + [] == d;
      } else {
        assert DeleteRank(rows, userId, kind, id) == d + [last];
        assert (d + [last])[..|d + [last]| - 1] == d;
        HasEntityDeleteRank(init, userId, kind, id, last.userId, last.entity);
      }
    }
  }

  lemma {:induction false} DistinctAfterShift(rows: seq<HistoryRow>, userId: int, kind: string)
    requires DistinctEntities(rows)
    ensures DistinctEntities(ShiftRanks(rows, userId, kind))
    decreases |rows|
  {
    if rows != [] {
      var init, last := rows[..|rows| - 1], rows[|rows| - 1];
      var s := ShiftRanks(rows, userId, kind);
      assert s[..|s| - 1] == ShiftRanks(init, userId, kind);
      DistinctAfterShift(init, userId, kind);
      HasEntityShift(init, userId, kind, last.userId, last.entity);
    }
  }

  /** Recording keeps every log a window and every user's entities distinct. */
  lemma RecordedConsistent(rows: seq<HistoryRow>, userId: int, entity: string, kind: string)
    requires Consistent(rows)
    ensures Consistent(Recorded(rows, userId, entity, kind))
  {
    var r := Recorded(rows, userId, entity, kind);
    forall u, t ensures Window(Matching(r, u, t)) {
      if u == userId && t == kind {
        if !HasEntity(rows, userId, entity) {
          RecordedLog(rows, userId, entity, kind);
        }
      } else {
        RecordedOtherLogs(rows, userId, entity, kind, u, t);
      }
    }
    if !HasEntity(rows, userId, entity) {
      var lastId := LastId(MinRank(Matching(rows, userId, kind)));
      var x := HistoryRow(userId, entity, kind, lastId - 1);
      var inserted := rows + [x];
      assert inserted[..|inserted| - 1] == rows;
      if lastId == 1 {
        DistinctAfterDelete(inserted, userId, kind, WindowSize);
        DistinctAfterShift(DeleteRank(inserted, userId, kind, WindowSize), userId, kind);
      }
    }
  }

  // ---------------------------------------------------------------------
  // The code as written

  /** As written, a full window's eviction also drops the rank-5 row of every other log. */
  lemma AsWrittenEvictsEverywhere(rows: seq<HistoryRow>, userId: int, entity: string, kind: string, u: int, t: string)
    requires !HasEntity(rows, userId, entity)
    requires MinRank(Matching(rows, userId, kind)) == Some(1)
    requires u != userId || t != kind
    ensures Matching(RecordedAsWritten(rows, userId, entity, kind), u, t)
         == OtherRanks(Matching(rows, u, t), WindowSize)
  {
    var x := HistoryRow(userId, entity, kind, 0);
    var inserted := rows + [x];
    MatchingAppend(rows, x, u, t);
    assert Matching(inserted, u, t) == Matching(rows, u, t) + [] == Matching(rows, u, t);
    MatchingOtherRanks(inserted, WindowSize, u, t);
    MatchingShift(OtherRanks(inserted, WindowSize), userId, kind, u, t);
  }

  /**
   * A table with one full log and another user's single entry ranked 5: as
   * written, recording a new entity in the full log empties the other
   * user's history; the scoped delete keeps it.
   */
  lemma AsWrittenLosesOtherUsersEntry(full: seq<HistoryRow>, other: HistoryRow, userId: int, entity: string, kind: string)
    requires Window(full) && |full| == WindowSize
    requires forall x :: x in full ==> InLog(x, userId, kind) && x.entity != entity
    requires other.userId != userId && other.id == WindowSize
    ensures GetHistoryEntities(full + [other], other.userId, other.kind) == [other.entity]
    ensures GetHistoryEntities(RecordedAsWritten(full + [other], userId, entity, kind), other.userId, other.kind) == []
    ensures GetHistoryEntities(Recorded(full + [other], userId, entity, kind), other.userId, other.kind) == [other.entity]
  {
    var rows := full + [other];
    TwoLogs(full, other, userId, entity, kind);
    SingleEntryLog(rows, other.userId, other.kind, other);
    AsWrittenEvictsEverywhere(rows, userId, entity, kind, other.userId, other.kind);
    assert OtherRanks([other], WindowSize) == OtherRanks([], WindowSize) + [] == [];
    RecordedOtherLogs(rows, userId, entity, kind, other.userId, other.kind);
    SingleEntryLog(Recorded(rows, userId, entity, kind), other.userId, other.kind, other);
  }

  lemma TwoLogs(full: seq<HistoryRow>, other: HistoryRow, userId: int, entity: string, kind: string)
    requires Window(full) && |full| == WindowSize
    requires forall x :: x in full ==> InLog(x, userId, kind) && x.entity != entity
    requires other.userId != userId
    ensures Matching(full + [other], userId, kind) == full
    ensures Matching(full + [other], other.userId, other.kind) == [other]
    ensures MinRank(full) == Some(1)
    ensures !HasEntity(full + [other], userId, entity)
  {
    MatchingAll(full, userId, kind);
    MatchingNone(full, other.userId, other.kind);
    MatchingAppend(full, other, userId, kind);
    MatchingAppend(full, other, other.userId, other.kind);
    assert full + [] == full;
    assert [] + [other] == [other];
    WindowRanks(full);
  }

  lemma SingleEntryLog(rows: seq<HistoryRow>, userId: int, kind: string, x: HistoryRow)
    requires Matching(rows, userId, kind) == [x]
    ensures GetHistoryEntities(rows, userId, kind) == [x.entity]
  {
    SingleListing(x);
    assert Entities([x]) == [x.entity];
  }

  lemma {:induction false} MatchingAll(rows: seq<HistoryRow>, userId: int, kind: string)
    requires forall x :: x in rows ==> InLog(x, userId, kind)
    ensures Matching(rows, userId, kind) == rows
    decreases |rows|
  {
    if rows != [] {
      var init := rows[..|rows| - 1];
      assert rows == init + [rows[|rows| - 1]];
      MatchingAll(init, userId, kind);
    }
  }

  lemma {:induction false} MatchingNone(rows: seq<HistoryRow>, userId: int, kind: string)
    requires forall x :: x in rows ==> !InLog(x, userId, kind)
    ensures Matching(rows, userId, kind) == []
    decreases |rows|
  {
    if rows != [] {
      var init := rows[..|rows| - 1];
      assert rows == init + [rows[|rows| - 1]];
      MatchingNone(init, userId, kind);
    }
  }

  /** A log of one row lists that row. */
  lemma SingleListing(x: HistoryRow)
    ensures ByRank([x]) == [x]
  {
    var r := ByRank([x]);
    assert |r| == 1;
    assert r[0] in multiset(r);
  }

  /**
   * The `History` table, with the two operations of the entity history.
   */
  class HistoryRepository {
    var rows: seq<HistoryRow>

    ghost predicate Valid()
      reads this
    {
      Consistent(rows)
    }

    constructor ()
      ensures Valid() && rows == []
    {
      rows := [];
    }

    /**
     * `addHistoryEntity(user_id, entity, type)`. The source's eviction delete
     * is not scoped (see `RecordedAsWritten`); this one is scoped to the
     * user and type.
     */
    method AddHistoryEntity(userId: int, entity: string, kind: string)
      requires Valid()
      modifies this
      ensures Valid()
      ensures rows == Recorded(old(rows), userId, entity, kind)
      ensures HasEntity(old(rows), userId, entity) ==> rows == old(rows)
      ensures !HasEntity(old(rows), userId, entity) ==>
        GetHistoryEntities(rows, userId, kind) == Newest([entity] + GetHistoryEntities(old(rows), userId, kind))
      ensures forall u, t :: u != userId || t != kind ==> Matching(rows, u, t) == Matching(old(rows), u, t)
    {
      ghost var before := rows;
      if !HasEntity(rows, userId, entity) {
        var lastId := LastId(MinRank(Matching(rows, userId, kind)));
        rows := rows + [HistoryRow(userId, entity, kind, lastId - 1)];
        if lastId == 1 {
          rows := DeleteRank(rows, userId, kind, WindowSize);
          rows := ShiftRanks(rows, userId, kind);
        }
        assert rows == Recorded(before, userId, entity, kind);
        RecordedLog(before, userId, entity, kind);
      }
      RecordedConsistent(before, userId, entity, kind);
      forall u, t | u != userId || t != kind
        ensures Matching(rows, u, t) == Matching(before, u, t)
      {
        RecordedOtherLogs(before, userId, entity, kind, u, t);
      }
    }
  }
}

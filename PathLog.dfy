/**
 * The path log: the `HistoryPaths` table, one row per user holding a
 * space-joined list of entity ids, most recent first.
 */
module PathLog {
  import opened Text

  /** A list that is at most this long stays so: an update pops one token past it. */
  const MaxTokens: int := 5

  /** `path.split(" ")[0]`: everything before the first space. */
  function FirstToken(path: string): (r: string)
    ensures Space !in r
  {
    Split(path)[0]
  }

  /** `entities.filter(entity => entity !== token)`. */
  function RemoveAll(xs: seq<string>, token: string): (r: seq<string>)
    ensures token !in r
    ensures multiset(r) == multiset(xs)[token := 0]
    ensures |r| <= |xs|
    decreases |xs|
  {
    if xs == [] then []
    else
      assert xs == [xs[0]] + xs[1..];
      (if xs[0] != token then [xs[0]] else []) + RemoveAll(xs[1..], token)
  }

  /**
   * The new list after `filter`, `unshift(token)` and, past `MaxTokens`
   * entries, one `pop()`.
   */
  function Promote(tokens: seq<string>, token: string): (r: seq<string>)
    ensures |r| >= 1 && r[0] == token
    ensures |tokens| <= MaxTokens ==> |r| <= MaxTokens
  {
    var filtered := [token] + RemoveAll(tokens, token);
    if |filtered| > MaxTokens then filtered[..|filtered| - 1] else filtered
  }

  /** `a` is `b` with some elements left out, the rest in the same order. */
  ghost predicate Subsequence(a: seq<string>, b: seq<string>)
    decreases |b|
  {
    if a == [] then true
    else if b == [] then false
    else if a[0] == b[0] then Subsequence(a[1..], b[1..])
    else Subsequence(a, b[1..])
  }

  /**
   * `getHistoryEntitiesPaths(user_id)`: the user's stored string split on
   * spaces, or [] when the user has no row.
   */
  function GetHistoryEntitiesPaths(paths: map<int, string>, userId: int): (r: seq<string>)
    ensures userId !in paths ==> r == []
    ensures userId in paths ==> |r| >= 1 && Join(r) == paths[userId]
    ensures forall k :: 0 <= k < |r| ==> Space !in r[k]
  {
    if userId in paths then
      JoinSplit(paths[userId]);
      Split(paths[userId])
    else []
  }

  // ---------------------------------------------------------------------
  // What an update does to the list

  /** The filter keeps the other tokens in their order. */
  lemma {:induction false} RemoveAllSubsequence(xs: seq<string>, token: string)
    ensures Subsequence(RemoveAll(xs, token), xs)
    decreases |xs|
  {
    if xs != [] {
      RemoveAllSubsequence(xs[1..], token);
      var rest := RemoveAll(xs[1..], token);
      if xs[0] != token {
        assert ([xs[0]] + rest)[1..] == rest;
      } else {
        assert [] + rest == rest;
      }
    }
  }

  lemma {:induction false} SubsequencePrefix(a: seq<string>, b: seq<string>, n: nat)
    requires Subsequence(a, b) && n <= |a|
    ensures Subsequence(a[..n], b)
    decreases |b|
  {
    if n > 0 {
      if a[0] == b[0] {
        assert a[..n][1..] == a[1..][..n - 1];
        SubsequencePrefix(a[1..], b[1..], n - 1);
      } else {
        SubsequencePrefix(a, b[1..], n);
      }
    } else if b != [] {
      assert a[..n] == [];
    }
  }

  /** Every earlier copy of the token is gone; the rest keep their order. */
  lemma PromoteTail(tokens: seq<string>, token: string)
    ensures token !in Promote(tokens, token)[1..]
    ensures Subsequence(Promote(tokens, token)[1..], tokens)
  {
    var rest := RemoveAll(tokens, token);
    var r := Promote(tokens, token);
    RemoveAllSubsequence(tokens, token);
    assert r[1..] == rest[..|r| - 1];
    SubsequencePrefix(rest, tokens, |r| - 1);
  }

  /** Nothing new enters the list but the token; nothing is lost while there is room. */
  lemma PromoteMembers(tokens: seq<string>, token: string, x: string)
    ensures x in Promote(tokens, token) ==> x == token || x in tokens
    ensures x == token ==> x in Promote(tokens, token)
    ensures x in tokens && |RemoveAll(tokens, token)| < MaxTokens ==> x in Promote(tokens, token)
  {
    var rest := RemoveAll(tokens, token);
    assert x in multiset(rest) <==> x in tokens && x != token;
    assert [token] + rest == Promote(tokens, token) || |rest| >= MaxTokens;
    assert Promote(tokens, token)[0] == token;
    if x in Promote(tokens, token) && x != token {
      var k :| 0 <= k < |Promote(tokens, token)| && Promote(tokens, token)[k] == x;
      assert ([token] + rest)[k] == x;
      assert rest[k - 1] in rest;
    }
  }

  /** A list without repeated tokens keeps none. */
  lemma PromoteNoDuplicates(tokens: seq<string>, token: string)
    requires NoDuplicates(tokens)
    ensures NoDuplicates(Promote(tokens, token))
  {
    var rest := RemoveAll(tokens, token);
    RemoveAllNoDuplicates(tokens, token);
    var f := [token] + rest;
    assert NoDuplicates(f) by {
      forall i, j | 0 <= i < j < |f| ensures f[i] != f[j] {
        assert f[j] == rest[j - 1] && rest[j - 1] in rest;
        if i > 0 {
          assert f[i] == rest[i - 1];
        }
      }
    }
  }

  lemma {:induction false} RemoveAllNoDuplicates(xs: seq<string>, token: string)
    requires NoDuplicates(xs)
    ensures NoDuplicates(RemoveAll(xs, token))
    decreases |xs|
  {
    if xs != [] {
      RemoveAllNoDuplicates(xs[1..], token);
      var rest := RemoveAll(xs[1..], token);
      if xs[0] != token {
        var r := [xs[0]] + rest;
        forall i, j | 0 <= i < j < |r| ensures r[i] != r[j] {
          assert r[j] == rest[j - 1] && rest[j - 1] in multiset(rest);
          if i > 0 {
            assert r[i] == rest[i - 1];
          }
        }
      } else {
        assert [] + rest == rest;
      }
    }
  }

  /** A token already in a short duplicate-free list moves to the front; the set is unchanged. */
  lemma PromoteExisting(tokens: seq<string>, token: string)
    requires NoDuplicates(tokens) && |tokens| <= MaxTokens
    requires token in tokens
    ensures |Promote(tokens, token)| == |tokens|
    ensures forall x :: x in Promote(tokens, token) <==> x in tokens
  {
    var rest := RemoveAll(tokens, token);
    var k :| 0 <= k < |tokens| && tokens[k] == token;
    assert multiset(tokens)[token] == 1 by {
      NoDuplicatesCount(tokens, k);
    }
    assert |multiset(rest)| == |multiset(tokens)| - 1;
    forall x ensures x in Promote(tokens, token) <==> x in tokens {
      PromoteMembers(tokens, token, x);
    }
  }

  lemma {:induction false} NoDuplicatesCount(xs: seq<string>, k: int)
    requires NoDuplicates(xs) && 0 <= k < |xs|
    ensures multiset(xs)[xs[k]] == 1
    decreases |xs|
  {
    var last := |xs| - 1;
    assert xs == xs[..last] + [xs[last]];
    if k != last {
      NoDuplicatesCount(xs[..last], k);
    }
  }

  /** A new token on a full list pushes the oldest one out. */
  lemma PromoteNew(tokens: seq<string>, token: string)
    requires |tokens| == MaxTokens
    requires token !in tokens
    ensures Promote(tokens, token) == [token] + tokens[..MaxTokens - 1]
  {
    RemoveAllAbsent(tokens, token);
  }

  /**
   * An update drops at most one token: a list already longer than
   * `MaxTokens` (a first path stored as given) that gains a new token keeps
   * its length.
   */
  lemma PromoteLongList(tokens: seq<string>, token: string)
    requires |tokens| > MaxTokens
    requires token !in tokens
    ensures |Promote(tokens, token)| == |tokens|
    ensures Promote(tokens, token) == [token] + tokens[..|tokens| - 1]
  {
    RemoveAllAbsent(tokens, token);
  }

  lemma {:induction false} RemoveAllAbsent(xs: seq<string>, token: string)
    requires token !in xs
    ensures RemoveAll(xs, token) == xs
    decreases |xs|
  {
    if xs != [] {
      RemoveAllAbsent(xs[1..], token);
      assert [xs[0]] + xs[1..] == xs;
    }
  }

  /** A stored list of tokens without spaces reads back as itself. */
  lemma StoredPromote(tokens: seq<string>, token: string)
    requires forall k :: 0 <= k < |tokens| ==> Space !in tokens[k]
    requires Space !in token
    ensures Split(Join(Promote(tokens, token))) == Promote(tokens, token)
  {
    var r := Promote(tokens, token);
    var rest := RemoveAll(tokens, token);
    forall k | 0 <= k < |r| ensures Space !in r[k] {
      if k > 0 {
        assert r[k] == rest[k - 1] && rest[k - 1] in multiset(rest);
        var j :| 0 <= j < |tokens| && tokens[j] == r[k];
      }
    }
    SplitJoin(r);
  }

  /**
   * The `HistoryPaths` table, keyed by user id, with the operations of the
   * path log.
   */
  class PathRepository {
    var paths: map<int, string>

    constructor ()
      ensures paths == map[]
    {
      paths := map[];
    }

    /**
     * `addHistoryEntityPath(user_id, path)`: an existing list is updated by
     * `Promote` with the first token of `path`; a first entry stores `path`
     * as given.
     */
    method AddHistoryEntityPath(userId: int, path: string)
      modifies this
      ensures userId in old(paths) ==>
        paths == old(paths)[userId := Join(Promote(Split(old(paths)[userId]), FirstToken(path)))]
      ensures userId !in old(paths) ==> paths == old(paths)[userId := path]
      ensures userId in old(paths) ==>
        GetHistoryEntitiesPaths(paths, userId)
          == Promote(GetHistoryEntitiesPaths(old(paths), userId), FirstToken(path))
      ensures userId !in old(paths) ==> GetHistoryEntitiesPaths(paths, userId) == Split(path)
      ensures forall u :: u != userId ==> GetHistoryEntitiesPaths(paths, u) == GetHistoryEntitiesPaths(old(paths), u)
    {
      if userId in paths {
        var entities := Split(paths[userId]);
        var newPathPart := FirstToken(path);
        var filtered := RemoveAll(entities, newPathPart);
        filtered := [newPathPart] + filtered;
        if |filtered| > MaxTokens {
          filtered := filtered[..|filtered| - 1];
        }
        StoredPromote(entities, newPathPart);
        paths := paths[userId := Join(filtered)];
      } else {
        paths := paths[userId := path];
      }
    }

    /** `clearHistoryPaths(user_id)`: the user's row is deleted. */
    method ClearHistoryPaths(userId: int)
      modifies this
      ensures paths == old(paths) - {userId}
      ensures GetHistoryEntitiesPaths(paths, userId) == []
      ensures forall u :: u != userId ==> GetHistoryEntitiesPaths(paths, u) == GetHistoryEntitiesPaths(old(paths), u)
    {
      paths := paths - {userId};
    }
  }
}

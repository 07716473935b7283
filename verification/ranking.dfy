/**
 Ranked lists: `sorted(xs, key=k, reverse=True)` followed by a slice, as the
 top-states table and both "biggest movers" computations use it.
 */
module Ranking {
  import opened Seqs
  import opened Sorting

  /** Keys never increase along `s`. */
  ghost predicate Descending<T>(s: seq<T>, key: T -> real) {
    forall i, j :: 0 <= i < j < |s| ==> key(s[i]) >= key(s[j])
  }

  /**
   `sorted(s, key=key, reverse=True)`: largest key first, and elements with
   equal keys in their order in `s` (Python keeps a reversed sort stable).
   */
  function RankDesc<T>(s: seq<T>, key: T -> real): (r: seq<T>)
    ensures |r| == |s| && multiset(r) == multiset(s)
    ensures Descending(r, key)
    ensures forall k :: Tied(r, key, k) == Tied(s, key, k)
  {
    var r := SortBy(s, Negated(key));
    assert Descending(r, key) by {
      forall i, j | 0 <= i < j < |r| ensures key(r[i]) >= key(r[j]) {
        assert Negated(key)(r[i]) <= Negated(key)(r[j]);
      }
    }
    assert forall k :: Tied(r, key, k) == Tied(s, key, k) by {
      forall k ensures Tied(r, key, k) == Tied(s, key, k) {
        TiedNegated(r, key, k);
        TiedNegated(s, key, k);
      }
    }
    r
  }

  /** `RankDesc` is the only descending arrangement of `s` that keeps ties in their order in `s`. */
  lemma RankDescUnique<T>(s: seq<T>, r: seq<T>, key: T -> real)
    requires multiset(r) == multiset(s) && Descending(r, key)
    requires forall k :: Tied(r, key, k) == Tied(s, key, k)
    ensures r == RankDesc(s, key)
  {
    assert Ascending(r, Negated(key)) by {
      forall i, j | 0 <= i < j < |r| ensures Negated(key)(r[i]) <= Negated(key)(r[j]) {
        assert key(r[i]) >= key(r[j]);
      }
    }
    forall k ensures Tied(r, Negated(key), k) == Tied(s, Negated(key), k) {
      TiedNegated(r, key, -k);
      TiedNegated(s, key, -k);
    }
    SortUnique(s, r, Negated(key));
  }

  /** Leaving elements out of a descending sequence keeps it descending. */
  lemma {:induction false} FilterDescending<T>(s: seq<T>, key: T -> real, p: T -> bool)
    requires Descending(s, key)
    ensures Descending(Filter(s, p), key)
  {
    if |s| > 0 {
      var init := s[..|s| - 1];
      assert Descending(init, key);
      FilterDescending(init, key, p);
      var f := Filter(init, p);
      if p(s[|s| - 1]) {
        var g := f + [s[|s| - 1]];
        forall i, j | 0 <= i < j < |g| ensures key(g[i]) >= key(g[j]) {
          if j == |f| {
            assert g[i] in init;
          }
        }
      }
    }
  }

  /**
   In a descending sequence the first `n` elements beat every element left
   out: no element outside `Take(r, n)` has a larger key than one inside.
   */
  lemma TakeBeatsRest<T>(r: seq<T>, key: T -> real, n: nat)
    requires Descending(r, key)
    ensures Descending(Take(r, n), key)
    ensures forall x, i :: x in r && x !in Take(r, n) && 0 <= i < |Take(r, n)| ==> key(x) <= key(Take(r, n)[i])
  {
    var t := Take(r, n);
    forall x, i | x in r && x !in t && 0 <= i < |t| ensures key(x) <= key(t[i]) {
      var j :| 0 <= j < |r| && r[j] == x;
      assert forall k :: 0 <= k < |t| ==> t[k] == r[k];
      assert j >= |t|;
    }
  }

  /** An element of `s` that satisfies `p` is kept by `Filter`. */
  lemma {:induction false} FilterKeeps<T>(s: seq<T>, p: T -> bool, x: T)
    requires x in s && p(x)
    ensures x in Filter(s, p)
  {
    var init := s[..|s| - 1];
    if x != s[|s| - 1] {
      assert s == init + [s[|s| - 1]];
      FilterKeeps(init, p, x);
    }
  }

  /** The ties within the first `n` elements are the first of the ties of the whole sequence. */
  lemma TiedTake<T>(s: seq<T>, key: T -> real, n: nat, k: real)
    ensures Tied(Take(s, n), key, k) <= Tied(s, key, k)
  {
    var t := Take(s, n);
    assert s == t + s[|t|..];
    FilterAppend(t, s[|t|..], KeyIs(key, k));
  }
}

/**
 Python's `sorted(xs, key=k)` / `list.sort(key=k)`: a stable sort by a
 numeric key. `reverse=True` keeps equal elements in their original order
 too, so a descending sort is the ascending sort by the negated key.
 */
module Sorting {
  import opened Seqs

  /** Keys never decrease along `s`. */
  ghost predicate Ascending<T>(s: seq<T>, key: T -> real) {
    forall i, j :: 0 <= i < j < |s| ==> key(s[i]) <= key(s[j])
  }

  /** The predicate "has key `k`", named so that every use denotes the same function. */
  function KeyIs<T>(key: T -> real, k: real): T -> bool {
    x => key(x) == k
  }

  /** The elements of `s` with key `k`, in their order in `s`. */
  function Tied<T>(s: seq<T>, key: T -> real, k: real): seq<T> {
    Filter(s, KeyIs(key, k))
  }

  /**
   Inserts `x` into `r` after the last element whose key is at most `key(x)`;
   on an ascending `r` that puts `x` after every element it ties with.
   */
  function Insert<T>(r: seq<T>, x: T, key: T -> real): (q: seq<T>)
    ensures |q| == |r| + 1
    ensures multiset(q) == multiset(r) + multiset{x}
  {
    if |r| == 0 then [x]
    else if key(r[|r| - 1]) <= key(x) then r + [x]
    else
      assert r == r[..|r| - 1] + [r[|r| - 1]];
      Insert(r[..|r| - 1], x, key) + [r[|r| - 1]]
  }

  lemma {:induction false} InsertAscending<T>(r: seq<T>, x: T, key: T -> real)
    requires Ascending(r, key)
    ensures Ascending(Insert(r, x, key), key)
  {
    if |r| > 0 && key(r[|r| - 1]) > key(x) {
      var last := r[|r| - 1];
      var r' := r[..|r| - 1];
      assert r == r' + [last];
      InsertAscending(r', x, key);
      var q' := Insert(r', x, key);
      var q := q' + [last];
      assert forall y :: y in multiset(q') ==> key(y) <= key(last) by {
        forall y | y in multiset(q') ensures key(y) <= key(last) {
          assert y in multiset(r') + multiset{x};
        }
      }
      forall i, j | 0 <= i < j < |q| ensures key(q[i]) <= key(q[j]) {
        if j == |q| - 1 {
          assert q[i] == q'[i] && q'[i] in multiset(q');
        }
      }
    }
  }

  lemma {:induction false} InsertTied<T>(r: seq<T>, x: T, key: T -> real, k: real)
    requires Ascending(r, key)
    ensures Tied(Insert(r, x, key), key, k) == Tied(r, key, k) + (if key(x) == k then [x] else [])
  {
    var q := Insert(r, x, key);
    if |r| == 0 {
      assert q == [x] && q[..0] == [];
    } else {
      var last := r[|r| - 1];
      var r' := r[..|r| - 1];
      assert r == r' + [last];
      if key(last) <= key(x) {
        assert q[..|q| - 1] == r;
      } else {
        InsertTied(r', x, key, k);
        assert q[..|q| - 1] == Insert(r', x, key);
      }
    }
  }

  /** Stable ascending sort by `key`. */
  function SortBy<T>(s: seq<T>, key: T -> real): (r: seq<T>)
    ensures |r| == |s|
    ensures Ascending(r, key)
    ensures multiset(r) == multiset(s)
    ensures forall k :: Tied(r, key, k) == Tied(s, key, k)
  {
    if |s| == 0 then []
    else
      var s' := s[..|s| - 1];
      var x := s[|s| - 1];
      assert s == s' + [x];
      var r' := SortBy(s', key);
      var r := Insert(r', x, key);
      InsertAscending(r', x, key);
      assert forall k :: Tied(r, key, k) == Tied(s, key, k) by {
        forall k ensures Tied(r, key, k) == Tied(s, key, k) {
          InsertTied(r', x, key, k);
        }
      }
      r
  }

  /** The order-reversing key: sorting by it is `sorted(..., reverse=True)`. */
  function Negated<T>(key: T -> real): T -> real {
    x => -key(x)
  }

  /** Ties under a key are ties under its negation, with the same order. */
  lemma TiedNegated<T>(s: seq<T>, key: T -> real, k: real)
    ensures Tied(s, Negated(key), -k) == Tied(s, key, k)
  {
    FilterAgrees(s, KeyIs(Negated(key), -k), KeyIs(key, k));
  }

  lemma TiedSnoc<T>(p: seq<T>, y: T, key: T -> real, k: real)
    ensures Tied(p + [y], key, k) == Tied(p, key, k) + (if key(y) == k then [y] else [])
  {
    assert (p + [y])[..|p|] == p;
  }

  /** In an ascending sequence the last element has the largest key. */
  lemma LastIsMax<T>(r: seq<T>, y: T, key: T -> real)
    requires Ascending(r, key) && |r| > 0 && y in multiset(r)
    ensures key(y) <= key(r[|r| - 1])
  {
    var i :| 0 <= i < |r| && r[i] == y;
    if i < |r| - 1 {
      assert key(r[i]) <= key(r[|r| - 1]);
    }
  }

  /** Dropping the same last element keeps equal groups of ties equal. */
  lemma TiedCancel<T>(p1: seq<T>, p2: seq<T>, y: T, key: T -> real)
    requires forall k :: Tied(p1 + [y], key, k) == Tied(p2 + [y], key, k)
    ensures forall k :: Tied(p1, key, k) == Tied(p2, key, k)
  {
    forall k ensures Tied(p1, key, k) == Tied(p2, key, k) {
      TiedSnoc(p1, y, key, k);
      TiedSnoc(p2, y, key, k);
      var a, b := Tied(p1, key, k), Tied(p2, key, k);
      var x: seq<T> := if key(y) == k then [y] else [];
      assert a + x == b + x;
      assert a == (a + x)[..|a|] && b == (b + x)[..|b|];
    }
  }

  /** Dropping the last element keeps a sequence ascending. */
  lemma AscendingInit<T>(p: seq<T>, y: T, key: T -> real)
    requires Ascending(p + [y], key)
    ensures Ascending(p, key)
  {
    var r := p + [y];
    forall i, j | 0 <= i < j < |p| ensures key(p[i]) <= key(p[j]) {
      assert p[i] == r[i] && p[j] == r[j];
    }
  }

  /** Two ascending arrangements with equal multisets and equal ties end in the same element. */
  lemma ArrangementLast<T>(p1: seq<T>, y1: T, p2: seq<T>, y2: T, key: T -> real)
    requires multiset(p1 + [y1]) == multiset(p2 + [y2])
    requires Ascending(p1 + [y1], key) && Ascending(p2 + [y2], key)
    requires forall k :: Tied(p1 + [y1], key, k) == Tied(p2 + [y2], key, k)
    ensures y1 == y2
  {
    var r1, r2 := p1 + [y1], p2 + [y2];
    assert key(y1) == key(y2) by {
      assert y2 in multiset(r2) && y1 in multiset(r1);
      LastIsMax(r1, y2, key);
      LastIsMax(r2, y1, key);
    }
    var K := key(y1);
    TiedSnoc(p1, y1, key, K);
    TiedSnoc(p2, y2, key, K);
    var t := Tied(r1, key, K);
    assert t == Tied(r2, key, K);
    assert t[|t| - 1] == y1;
  }

  /**
   Two ascending arrangements with equal multisets and equal ties end in the
   same element, and what precedes it is again such a pair.
   */
  lemma ArrangementStep<T>(p1: seq<T>, y1: T, p2: seq<T>, y2: T, key: T -> real)
    requires multiset(p1 + [y1]) == multiset(p2 + [y2])
    requires Ascending(p1 + [y1], key) && Ascending(p2 + [y2], key)
    requires forall k :: Tied(p1 + [y1], key, k) == Tied(p2 + [y2], key, k)
    ensures y1 == y2
    ensures multiset(p1) == multiset(p2)
    ensures Ascending(p1, key) && Ascending(p2, key)
    ensures forall k :: Tied(p1, key, k) == Tied(p2, key, k)
  {
    ArrangementLast(p1, y1, p2, y2, key);
    TiedCancel(p1, p2, y1, key);
    assert multiset(p1) == multiset(p1 + [y1]) - multiset{y1};
    assert multiset(p2) == multiset(p2 + [y2]) - multiset{y2};
    AscendingInit(p1, y1, key);
    AscendingInit(p2, y2, key);
  }

  /**
   Two ascending arrangements of the same elements that keep every group of
   ties in the same order are equal.
   */
  lemma {:induction false} ArrangementUnique<T>(r1: seq<T>, r2: seq<T>, key: T -> real)
    requires multiset(r1) == multiset(r2)
    requires Ascending(r1, key) && Ascending(r2, key)
    requires forall k :: Tied(r1, key, k) == Tied(r2, key, k)
    ensures r1 == r2
    decreases |r1|
  {
    assert |r1| == |r2| by {
      assert |multiset(r1)| == |multiset(r2)|;
    }
    if |r1| > 0 {
      var n := |r1|;
      assert r1 == r1[..n - 1] + [r1[n - 1]] && r2 == r2[..n - 1] + [r2[n - 1]];
      ArrangementStep(r1[..n - 1], r1[n - 1], r2[..n - 1], r2[n - 1], key);
      ArrangementUnique(r1[..n - 1], r2[..n - 1], key);
    }
  }

  /**
   `SortBy` is the stable sort: any arrangement of `s` that is ascending and
   keeps every group of ties in its order in `s` is `SortBy(s, key)`.
   */
  lemma SortUnique<T>(s: seq<T>, r: seq<T>, key: T -> real)
    requires multiset(r) == multiset(s) && Ascending(r, key)
    requires forall k :: Tied(r, key, k) == Tied(s, key, k)
    ensures r == SortBy(s, key)
  {
    ArrangementUnique(r, SortBy(s, key), key);
  }
}

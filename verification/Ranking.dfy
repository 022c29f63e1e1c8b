/**
 Ranking ids by a real key with ties broken by the smaller id: what a sorted prefix is, that it is
 unique, and that sorting and taking a prefix gives it.
 */
module Ranking {

  type Key = int -> real

  /** `a` is ranked before `b` by `(key, id)`. */
  predicate Before(key: Key, a: int, b: int) {
    key(a) < key(b) || (key(a) == key(b) && a < b)
  }

  predicate Ordered(key: Key, s: seq<int>) {
    forall i, j :: 0 <= i < j < |s| ==> Before(key, s[i], s[j])
  }

  function Elements(s: seq<int>): set<int> { set x | x in s }

  predicate Distinct(s: seq<int>) { forall i, j :: 0 <= i < j < |s| ==> s[i] != s[j] }

  function Least(a: nat, b: nat): nat { if a < b then a else b }

  /** `r` holds the first `k` ids of `all` in ranking order. */
  predicate IsTop(key: Key, all: set<int>, k: nat, r: seq<int>) {
    && Ordered(key, r)
    && Elements(r) <= all
    && |r| == Least(k, |all|)
    && forall x, y :: x in r && y in all && y !in r ==> Before(key, x, y)
  }

  lemma OrderedDistinct(key: Key, s: seq<int>)
    requires Ordered(key, s)
    ensures Distinct(s)
  {
    forall i, j | 0 <= i < j < |s|
      ensures s[i] != s[j]
    {
      assert Before(key, s[i], s[j]);
    }
  }

  lemma {:induction false} DistinctSize(s: seq<int>)
    requires Distinct(s)
    ensures |Elements(s)| == |s|
  {
    if s != [] {
      var t := s[..|s| - 1];
      DistinctSize(t);
      assert s == t + [s[|s| - 1]];
      assert Elements(s) == Elements(t) + {s[|s| - 1]};
      assert s[|s| - 1] !in t;
    }
  }

  // ----- uniqueness -----

  /** Two ordered sequences with the same elements are the same. */
  lemma {:induction false} OrderedUnique(key: Key, a: seq<int>, b: seq<int>)
    requires Ordered(key, a) && Ordered(key, b) && Elements(a) == Elements(b)
    ensures a == b
    decreases |a|
  {
    assert b != [] ==> b[0] in Elements(b);
    if a != [] {
      assert a[0] in Elements(a);
      FirstIsLeast(key, a, b);
      OrderedDistinct(key, a);
      OrderedDistinct(key, b);
      assert a == [a[0]] + a[1..] && b == [b[0]] + b[1..];
      assert Elements(a[1..]) == Elements(a) - {a[0]};
      assert Elements(b[1..]) == Elements(b) - {b[0]};
      OrderedUnique(key, a[1..], b[1..]);
    }
  }

  lemma FirstIsLeast(key: Key, a: seq<int>, b: seq<int>)
    requires Ordered(key, a) && Ordered(key, b) && Elements(a) == Elements(b) && a != []
    ensures b != [] && a[0] == b[0]
  {
    assert a[0] in Elements(b);
    var i :| 0 <= i < |b| && b[i] == a[0];
    assert b[0] in Elements(a);
    var j :| 0 <= j < |a| && a[j] == b[0];
  }

  /** The prefix is unique. */
  lemma TopUnique(key: Key, all: set<int>, k: nat, a: seq<int>, b: seq<int>)
    requires IsTop(key, all, k, a) && IsTop(key, all, k, b)
    ensures a == b
  {
    TopContained(key, all, k, a, b);
    TopContained(key, all, k, b, a);
    OrderedUnique(key, a, b);
  }

  lemma TopContained(key: Key, all: set<int>, k: nat, a: seq<int>, b: seq<int>)
    requires IsTop(key, all, k, a) && IsTop(key, all, k, b)
    ensures Elements(a) <= Elements(b)
  {
    forall x | x in Elements(a)
      ensures x in Elements(b)
    {
      assert forall y :: y in b && y !in a ==> Before(key, x, y);
      assert x !in b ==> forall y :: y in b ==> Before(key, y, x);
      if x !in Elements(b) {
        OrderedDistinct(key, a);
        OrderedDistinct(key, b);
        DistinctSize(a);
        DistinctSize(b);
        SameSizeOther(Elements(a), Elements(b), x);
      }
    }
  }

  lemma SameSizeOther(a: set<int>, b: set<int>, x: int)
    requires |a| == |b| && x in a && x !in b
    ensures exists y :: y in b && y !in a
  {
    if forall y :: y in b ==> y in a {
      assert b <= a - {x};
      SubsetSize(b, a - {x});
    }
  }

  lemma {:induction false} SubsetSize(a: set<int>, b: set<int>)
    requires a <= b
    ensures |a| <= |b|
  {
    assert b == a + (b - a);
  }

  /** Only the keys of the ranked ids matter. */
  lemma TopCongruence(key: Key, key': Key, all: set<int>, k: nat, r: seq<int>)
    requires IsTop(key, all, k, r) && forall x :: x in all ==> key(x) == key'(x)
    ensures IsTop(key', all, k, r)
  {
    assert forall i :: 0 <= i < |r| ==> r[i] in Elements(r);
  }

  // ----- sorting -----

  function Insert(key: Key, x: int, s: seq<int>): seq<int> {
    if s == [] || Before(key, x, s[0]) then [x] + s else [s[0]] + Insert(key, x, s[1..])
  }

  /** `sorted(ids, key=lambda id: (key(id), id))` */
  function SortBy(key: Key, s: seq<int>): seq<int> {
    if s == [] then [] else Insert(key, s[0], SortBy(key, s[1..]))
  }

  lemma {:induction false} InsertElements(key: Key, x: int, s: seq<int>)
    ensures Elements(Insert(key, x, s)) == Elements(s) + {x}
    decreases s
  {
    if s == [] || Before(key, x, s[0]) {
      assert Insert(key, x, s) == [x] + s;
    } else {
      InsertElements(key, x, s[1..]);
      assert s == [s[0]] + s[1..];
      var t := Insert(key, x, s[1..]);
      assert Elements([s[0]] + t) == {s[0]} + Elements(t);
    }
  }

  lemma {:induction false} InsertOrdered(key: Key, x: int, s: seq<int>)
    requires Ordered(key, s) && x !in s
    ensures Ordered(key, Insert(key, x, s))
    decreases s
  {
    if s == [] {
    } else if Before(key, x, s[0]) {
      var t := [x] + s;
      forall i, j | 0 <= i < j < |t|
        ensures Before(key, t[i], t[j])
      {
        if i == 0 {
          if j > 1 { assert Before(key, s[0], s[j - 1]); }
        } else {
          assert Before(key, s[i - 1], s[j - 1]);
        }
      }
    } else {
      var u := Insert(key, x, s[1..]);
      InsertOrdered(key, x, s[1..]);
      InsertElements(key, x, s[1..]);
      var t := [s[0]] + u;
      forall i, j | 0 <= i < j < |t|
        ensures Before(key, t[i], t[j])
      {
        if i == 0 {
          assert u[j - 1] in Elements(s[1..]) + {x};
          if u[j - 1] != x {
            var m :| 0 <= m < |s[1..]| && s[1..][m] == u[j - 1];
            assert Before(key, s[0], s[m + 1]);
          }
        } else {
          assert Before(key, u[i - 1], u[j - 1]);
        }
      }
    }
  }

  lemma {:induction false} SortByCorrect(key: Key, s: seq<int>)
    requires Distinct(s)
    ensures Ordered(key, SortBy(key, s)) && Elements(SortBy(key, s)) == Elements(s) && |SortBy(key, s)| == |s|
    decreases s
  {
    if s != [] {
      assert s == [s[0]] + s[1..];
      SortByCorrect(key, s[1..]);
      var t := SortBy(key, s[1..]);
      assert s[0] !in s[1..];
      assert s[0] !in Elements(t);
      InsertElements(key, s[0], t);
      InsertOrdered(key, s[0], t);
      OrderedDistinct(key, SortBy(key, s));
      DistinctSize(SortBy(key, s));
      DistinctSize(s);
    }
  }

  /** Sort, then take a prefix. */
  function Top(key: Key, s: seq<int>, k: nat): seq<int> {
    var t := SortBy(key, s);
    t[..Least(k, |t|)]
  }

  lemma TopCorrect(key: Key, s: seq<int>, k: nat)
    requires Distinct(s)
    ensures IsTop(key, Elements(s), k, Top(key, s, k))
  {
    SortByCorrect(key, s);
    DistinctSize(s);
    var t := SortBy(key, s);
    PrefixIsTop(key, t, k);
  }

  lemma PrefixIsTop(key: Key, t: seq<int>, k: nat)
    requires Ordered(key, t)
    ensures IsTop(key, Elements(t), k, t[..Least(k, |t|)])
  {
    var n := Least(k, |t|);
    var r := t[..n];
    OrderedDistinct(key, t);
    DistinctSize(t);
    assert forall q :: 0 <= q < n ==> r[q] == t[q] && t[q] in r;
    forall x, y | x in r && y in Elements(t) && y !in r
      ensures Before(key, x, y)
    {
      var i :| 0 <= i < n && r[i] == x;
      var j :| 0 <= j < |t| && t[j] == y;
      assert Before(key, t[i], t[j]);
    }
  }
}

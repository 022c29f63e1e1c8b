/**
 The order of reciprocal-rank fusion in whole numbers: which of two ids comes first is decided by comparing
 products of their ranks, and the fused list has the ids in that order.
 */
module FusionOrder {
  import opened Ranking
  import opened RankFusion

  /** The branch has the id at this rank, counted from one. */
  predicate AtRank(b: Branch, id: int, rank: nat) { 1 <= rank <= |b| && b[rank - 1] == id }

  /** More than, or as much with the smaller id. */
  predicate Outscores(left: int, right: int, a: int, b: int) { left > right || (left == right && a < b) }

  // ----- fractions -----

  lemma FractionOrder(n: int, d: int, m: int, e: int)
    requires d > 0 && e > 0
    ensures n as real / d as real > m as real / e as real <==> n * e > m * d
    ensures n as real / d as real == m as real / e as real <==> n * e == m * d
  {
    var x, y := n as real / d as real, m as real / e as real;
    assert x * d as real == n as real && y * e as real == m as real;
    Crossed(x, y, d as real, e as real);
    assert (n * e) as real == n as real * e as real && (m * d) as real == m as real * d as real;
  }

  lemma Crossed(x: real, y: real, d: real, e: real)
    requires d > 0.0 && e > 0.0
    ensures x > y <==> (x * d) * e > (y * e) * d
    ensures x == y <==> (x * d) * e == (y * e) * d
  {
    assert d * e > 0.0;
    assert (x * d) * e - (y * e) * d == (x - y) * (d * e);
    Signs(x - y, d * e);
  }

  lemma Signs(x: real, scale: real)
    requires scale > 0.0
    ensures x > 0.0 <==> x * scale > 0.0
    ensures x == 0.0 <==> x * scale == 0.0
  {
  }

  lemma SumOfTwo(a: int, b: int)
    requires a > 0 && b > 0
    ensures a * b > 0
    ensures 1.0 / a as real + 1.0 / b as real == (a + b) as real / (a * b) as real
  {
    var x, y := a as real, b as real;
    assert (a * b) as real == x * y && x * y > 0.0;
    assert 1.0 / x == y / (x * y) && 1.0 / y == x / (x * y);
  }

  // ----- scores of two branches -----

  lemma SharedScore(k: nat, x: Branch, y: Branch, a: int, p: nat, q: nat)
    requires Distinct(x) && Distinct(y) && AtRank(x, a, p) && AtRank(y, a, q)
    ensures (k + p) * (k + q) > 0
    ensures Score(k, [x, y], a) == (2 * k + p + q) as real / ((k + p) * (k + q)) as real
  {
    TwoBranches(k, x, y, a);
    ContributionAt(k, x, p - 1);
    ContributionAt(k, y, q - 1);
    SumOfTwo(k + p, k + q);
  }

  /** The id stands in one of the branches only, at this rank. */
  predicate LoneAt(x: Branch, y: Branch, a: int, p: nat) {
    (AtRank(x, a, p) && a !in y) || (AtRank(y, a, p) && a !in x)
  }

  lemma LoneScore(k: nat, x: Branch, y: Branch, a: int, p: nat)
    requires Distinct(x) && Distinct(y) && LoneAt(x, y, a, p)
    ensures k + p > 0 && Score(k, [x, y], a) == 1.0 / (k + p) as real
  {
    TwoBranches(k, x, y, a);
    AbsentContributesZero(k, x, a);
    AbsentContributesZero(k, y, a);
    if AtRank(x, a, p) && a !in y { ContributionAt(k, x, p - 1); } else { ContributionAt(k, y, p - 1); }
  }

  lemma ByScores(k: nat, bs: seq<Branch>, a: int, b: int, n: int, d: int, m: int, e: int)
    requires d > 0 && e > 0
    requires Score(k, bs, a) == n as real / d as real && Score(k, bs, b) == m as real / e as real
    ensures Before(ScoreKey(k, bs), a, b) <==> Outscores(n * e, m * d, a, b)
  {
    FractionOrder(n, d, m, e);
    hide Score;
  }

  /** Two ids that both branches hold, at ranks `p` and `q` and at ranks `r` and `s`. */
  lemma SharedOrder(k: nat, x: Branch, y: Branch, a: int, b: int, p: nat, q: nat, r: nat, s: nat)
    requires Distinct(x) && Distinct(y)
    requires AtRank(x, a, p) && AtRank(y, a, q) && AtRank(x, b, r) && AtRank(y, b, s)
    ensures
      Before(ScoreKey(k, [x, y]), a, b)
      <==> Outscores((2 * k + p + q) * ((k + r) * (k + s)), (2 * k + r + s) * ((k + p) * (k + q)), a, b)
  {
    SharedScore(k, x, y, a, p, q);
    SharedScore(k, x, y, b, r, s);
    hide *;
    ByScores(k, [x, y], a, b, 2 * k + p + q, (k + p) * (k + q), 2 * k + r + s, (k + r) * (k + s));
  }

  /** An id of one branch at rank `p`, against one that both hold, at ranks `r` and `s`. */
  lemma LoneAgainstShared(k: nat, x: Branch, y: Branch, a: int, b: int, p: nat, r: nat, s: nat)
    requires Distinct(x) && Distinct(y) && LoneAt(x, y, a, p) && AtRank(x, b, r) && AtRank(y, b, s)
    ensures
      Before(ScoreKey(k, [x, y]), a, b) <==> Outscores((k + r) * (k + s), (2 * k + r + s) * (k + p), a, b)
    ensures
      Before(ScoreKey(k, [x, y]), b, a) <==> Outscores((2 * k + r + s) * (k + p), (k + r) * (k + s), b, a)
  {
    LoneScore(k, x, y, a, p);
    SharedScore(k, x, y, b, r, s);
    hide *;
    ByScores(k, [x, y], a, b, 1, k + p, 2 * k + r + s, (k + r) * (k + s));
    ByScores(k, [x, y], b, a, 2 * k + r + s, (k + r) * (k + s), 1, k + p);
  }

  /** Two ids that only one branch holds each: the smaller rank comes first. */
  lemma LoneOrder(k: nat, x: Branch, y: Branch, a: int, b: int, p: nat, q: nat)
    requires Distinct(x) && Distinct(y) && LoneAt(x, y, a, p) && LoneAt(x, y, b, q)
    ensures Before(ScoreKey(k, [x, y]), a, b) <==> p < q || (p == q && a < b)
  {
    LoneScore(k, x, y, a, p);
    LoneScore(k, x, y, b, q);
    hide *;
    ByScores(k, [x, y], a, b, 1, k + p, 1, k + q);
    OutscoresIs(k, p, q, a, b);
  }

  lemma OutscoresIs(k: nat, p: nat, q: nat, a: int, b: int)
    ensures Outscores(1 * (k + q), 1 * (k + p), a, b) <==> p < q || (p == q && a < b)
  {
  }

  // ----- the fused list -----

  /** The list names `a`, and no `b` before it. */
  predicate Precedes(fused: seq<int>, a: int, b: int) {
    exists i :: 0 <= i < |fused| && fused[i] == a && forall j :: 0 <= j <= i ==> fused[j] != b
  }

  lemma PrecedesIsBefore(key: Key, all: set<int>, topK: nat, fused: seq<int>, a: int, b: int)
    requires IsTop(key, all, topK, fused) && a in all && b in all && a != b && (a in fused || b in fused)
    ensures Precedes(fused, a, b) <==> Before(key, a, b)
  {
    if Before(key, a, b) {
      assert a in fused;
      var i :| 0 <= i < |fused| && fused[i] == a;
      forall j | 0 <= j <= i
        ensures fused[j] != b
      {
        assert j < i ==> Before(key, fused[j], fused[i]);
      }
    }
    if Precedes(fused, a, b) {
      var i :| 0 <= i < |fused| && fused[i] == a && forall j :: 0 <= j <= i ==> fused[j] != b;
      if j :| 0 <= j < |fused| && fused[j] == b { assert Before(key, fused[i], fused[j]); }
    }
  }

  /** The fused list orders two shared ids by their ranks alone. */
  lemma FusedSharedOrder(k: nat, x: Branch, y: Branch, topK: nat, fused: seq<int>, a: int, b: int,
      p: nat, q: nat, r: nat, s: nat)
    requires IsTop(ScoreKey(k, [x, y]), Union([x, y]), topK, fused) && Distinct(x) && Distinct(y)
    requires AtRank(x, a, p) && AtRank(y, a, q) && AtRank(x, b, r) && AtRank(y, b, s)
    requires a != b && (a in fused || b in fused)
    ensures
      Precedes(fused, a, b)
      <==> Outscores((2 * k + p + q) * ((k + r) * (k + s)), (2 * k + r + s) * ((k + p) * (k + q)), a, b)
  {
    TwoBranches(k, x, y, a);
    assert a in Union([x, y]) && b in Union([x, y]);
    hide IsTop, ScoreKey, Union, Before, Precedes, Outscores;
    PrecedesIsBefore(ScoreKey(k, [x, y]), Union([x, y]), topK, fused, a, b);
    SharedOrder(k, x, y, a, b, p, q, r, s);
  }

  /** With the harness's constant, ranks 1 and 9 come before ranks 5 and 5. */
  lemma UnevenRanksWin(topK: nat, fused: seq<int>)
    requires
      var x, y := [1, 11, 12, 13, 2], [21, 22, 23, 24, 2, 25, 26, 27, 1];
      IsTop(ScoreKey(60, [x, y]), Union([x, y]), topK, fused)
    requires 1 in fused || 2 in fused
    ensures Precedes(fused, 1, 2)
  {
    var x, y := [1, 11, 12, 13, 2], [21, 22, 23, 24, 2, 25, 26, 27, 1];
    hide IsTop, ScoreKey, Union, Precedes;
    FusedSharedOrder(60, x, y, topK, fused, 1, 2, 1, 9, 5, 5);
  }
}

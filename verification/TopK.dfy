/**
 The exact-neighbour oracle of the perf canary: `exact_topk_ids` shortlists rows by a coarse
 distance and re-ranks the shortlist exactly; `recall_at_k` compares it with returned ids.
 */
module TopK {
  import opened Ranking

  type Vector = seq<real>

  const RECALL_REFINE: nat := 200

  // ----- distances -----

  function SumSquares(x: Vector): real {
    if x == [] then 0.0 else SumSquares(x[1..]) + x[0] * x[0]
  }

  function Dot(x: Vector, y: Vector): real
    requires |x| == |y|
  {
    if x == [] then 0.0 else Dot(x[1..], y[1..]) + x[0] * y[0]
  }

  /** `((x - q) ** 2).sum()` */
  function SquaredDistance(x: Vector, q: Vector): real
    requires |x| == |q|
  {
    if x == [] then 0.0 else SquaredDistance(x[1..], q[1..]) + (x[0] - q[0]) * (x[0] - q[0])
  }

  /** `(x * x).sum() - 2.0 * (q @ x) + (q * q).sum()` */
  function ExpandedDistance(x: Vector, q: Vector): real
    requires |x| == |q|
  {
    SumSquares(x) - 2.0 * Dot(q, x) + SumSquares(q)
  }

  /** Without rounding the coarse formula is the squared distance, in every dimension. */
  lemma {:induction false} ExpansionIsExact(x: Vector, q: Vector)
    requires |x| == |q|
    ensures ExpandedDistance(x, q) == SquaredDistance(x, q)
    decreases x
  {
    if x != [] {
      ExpansionIsExact(x[1..], q[1..]);
      var a, b := x[0], q[0];
      assert (a - b) * (a - b) == a * a - 2.0 * (b * a) + b * b;
    }
  }

  // ----- the shortlist -----

  /** The rows `0` to `n - 1`. */
  function Indices(n: nat): (s: set<int>)
    ensures forall i :: i in s <==> 0 <= i < n
    ensures |s| == n
  {
    if n == 0 then {} else Indices(n - 1) + {n - 1}
  }

  function KeyOf(d: seq<real>): Key { i => if 0 <= i < |d| then d[i] else 0.0 }

  function Greater(a: nat, b: nat): nat { if a < b then b else a }

  /** `min(max(_RECALL_REFINE, k), rows)` */
  function Take(n: nat, k: nat): nat { Least(Greater(RECALL_REFINE, k), n) }

  /** What `argpartition(...)[:take]` promises: `take` rows, none farther than a row left out. */
  predicate IsShortlist(coarse: seq<real>, take: nat, c: set<int>) {
    && c <= Indices(|coarse|)
    && |c| == take
    && forall i, j :: i in c && 0 <= j < |coarse| && j !in c ==> coarse[i] <= coarse[j]
  }

  datatype Result<+T> = Ok(value: T) | ValueError

  /** Some shortlist; which of the rows at the boundary it holds is left open. */
  method ArgPartition(coarse: seq<real>, take: nat) returns (c: seq<int>)
    requires 1 <= take <= |coarse|
    ensures Distinct(c) && IsShortlist(coarse, take, Elements(c))
  {
    var all := Rows(|coarse|);
    RowsAreIndices(|coarse|);
    c := Top(KeyOf(coarse), all, take);
    TopCorrect(KeyOf(coarse), all, take);
    TopIsShortlist(coarse, take, c);
  }

  function Rows(n: nat): (s: seq<int>)
    ensures |s| == n && forall i :: 0 <= i < n ==> s[i] == i
  {
    if n == 0 then [] else Rows(n - 1) + [n - 1]
  }

  lemma RowsAreIndices(n: nat)
    ensures Distinct(Rows(n)) && Elements(Rows(n)) == Indices(n)
  {
    var s := Rows(n);
    assert forall i :: i in Indices(n) ==> s[i] in s;
  }

  lemma TopIsShortlist(coarse: seq<real>, take: nat, c: seq<int>)
    requires take <= |coarse| && IsTop(KeyOf(coarse), Indices(|coarse|), take, c)
    ensures Distinct(c) && IsShortlist(coarse, take, Elements(c))
  {
    OrderedDistinct(KeyOf(coarse), c);
    DistinctSize(c);
    forall i, j | i in Elements(c) && 0 <= j < |coarse| && j !in Elements(c)
      ensures coarse[i] <= coarse[j]
    {
      assert Before(KeyOf(coarse), i, j);
    }
  }

  predicate SameDimension(vectors: seq<Vector>, q: Vector) { forall x :: x in vectors ==> |x| == |q| }

  /** The float64 distances of the re-ranking step. */
  function Distances(vectors: seq<Vector>, q: Vector): (d: seq<real>)
    requires SameDimension(vectors, q)
    ensures |d| == |vectors| && forall i :: 0 <= i < |d| ==> d[i] == SquaredDistance(vectors[i], q)
  {
    seq(|vectors|, i requires 0 <= i < |vectors| => SquaredDistance(vectors[i], q))
  }

  /**
   One query of `exact_topk_ids`; `coarse` are the float32 values of the expanded formula. An empty
   corpus makes `argpartition` raise.
   */
  method ExactTopKIds(vectors: seq<Vector>, q: Vector, coarse: seq<real>, k: nat)
    returns (r: Result<seq<int>>, ghost c: set<int>)
    requires SameDimension(vectors, q) && |coarse| == |vectors|
    ensures r.ValueError? <==> vectors == []
    ensures r.Ok? ==>
      && IsShortlist(coarse, Take(|vectors|, k), c)
      && IsTop(KeyOf(Distances(vectors, q)), c, k, r.value)
  {
    c := {};
    if vectors == [] { return ValueError, c; }
    var take := Take(|vectors|, k);
    var candidates := ArgPartition(coarse, take);
    c := Elements(candidates);
    var refined := KeyOf(Distances(vectors, q));
    r := Ok(Top(refined, candidates, k));
    TopCorrect(refined, candidates, k);
  }

  /** Without rounding the coarse distances are the exact ones. */
  lemma UnroundedIsExact(vectors: seq<Vector>, q: Vector, coarse: seq<real>)
    requires SameDimension(vectors, q) && |coarse| == |vectors|
    requires forall i :: 0 <= i < |vectors| ==> coarse[i] == ExpandedDistance(vectors[i], q)
    ensures coarse == Distances(vectors, q)
  {
    forall i | 0 <= i < |vectors|
      ensures coarse[i] == Distances(vectors, q)[i]
    {
      ExpansionIsExact(vectors[i], q);
    }
  }

  // ----- when the shortlist is wide enough -----

  /** The rows within `slack` of a distance. */
  function Within(exact: seq<real>, limit: real): set<int> {
    set i: int | 0 <= i < |exact| && exact[i] <= limit
  }

  ghost predicate CoarseError(coarse: seq<real>, exact: seq<real>, eps: real)
    requires |coarse| == |exact|
  {
    eps >= 0.0 && forall i :: 0 <= i < |exact| ==> exact[i] - eps <= coarse[i] <= exact[i] + eps
  }

  /** A row left out is at least as far, up to twice the error, as every row on the shortlist. */
  lemma ShortlistHolds(coarse: seq<real>, exact: seq<real>, eps: real, take: nat, c: set<int>, limit: real, t: int)
    requires |coarse| == |exact| && CoarseError(coarse, exact, eps) && IsShortlist(coarse, take, c)
    requires 0 <= t < |exact| && exact[t] <= limit && eps >= 0.0
    requires |Within(exact, limit + 2.0 * eps)| <= take
    ensures t in c
  {
    if t !in c {
      var near := Within(exact, limit + 2.0 * eps);
      assert forall i :: i in c ==> coarse[i] <= coarse[t];
      assert c <= near - {t} && t in near;
      SubsetSize(c, near - {t});
    }
  }

  /** The true nearest rows are in the shortlist. */
  lemma ShortlistHoldsTop(coarse: seq<real>, exact: seq<real>, eps: real, take: nat, c: set<int>, k: nat, top: seq<int>)
    requires |coarse| == |exact| && CoarseError(coarse, exact, eps) && IsShortlist(coarse, take, c)
    requires IsTop(KeyOf(exact), Indices(|exact|), k, top) && top != []
    requires |Within(exact, exact[LastIndex(exact, k, top)] + 2.0 * eps)| <= take
    ensures Elements(top) <= c
  {
    hide IsTop, IsShortlist, Within;
    var last := LastIndex(exact, k, top);
    forall t | t in Elements(top)
      ensures t in c
    {
      TopWithinLast(exact, k, top, t);
      ShortlistHolds(coarse, exact, eps, take, c, exact[last], t);
    }
  }

  /** The last of the true nearest rows. */
  function LastIndex(exact: seq<real>, k: nat, top: seq<int>): (i: int)
    requires IsTop(KeyOf(exact), Indices(|exact|), k, top) && top != []
    ensures 0 <= i < |exact| && i in Elements(top)
  {
    assert top[|top| - 1] in Elements(top);
    top[|top| - 1]
  }

  lemma TopWithinLast(exact: seq<real>, k: nat, top: seq<int>, t: int)
    requires IsTop(KeyOf(exact), Indices(|exact|), k, top) && top != [] && t in Elements(top)
    ensures 0 <= t < |exact| && exact[t] <= exact[LastIndex(exact, k, top)]
  {
    var i :| 0 <= i < |top| && top[i] == t;
    if i < |top| - 1 { assert Before(KeyOf(exact), top[i], top[|top| - 1]); }
  }

  /** Re-ranking a shortlist that holds the nearest rows finds them. */
  lemma RerankFindsTop(exact: seq<real>, c: set<int>, k: nat, top: seq<int>, r: seq<int>)
    requires IsTop(KeyOf(exact), Indices(|exact|), k, top) && Elements(top) <= c <= Indices(|exact|)
    requires IsTop(KeyOf(exact), c, k, r)
    ensures r == top
  {
    var key := KeyOf(exact);
    SubsetSize(c, Indices(|exact|));
    OrderedDistinct(key, top);
    DistinctSize(top);
    SubsetSize(Elements(top), c);
    assert IsTop(key, c, k, top);
    TopUnique(key, c, k, top, r);
  }

  /**
   Shortlist and re-rank equals brute force when the coarse distances are within `eps` of the exact
   ones and at most `take` rows lie within `2 * eps` of the k-th exact distance.
   */
  lemma ShortlistIsExact(coarse: seq<real>, exact: seq<real>, eps: real, k: nat, c: set<int>, top: seq<int>,
      r: seq<int>)
    requires |coarse| == |exact| && CoarseError(coarse, exact, eps)
    requires IsShortlist(coarse, Take(|coarse|, k), c)
    requires IsTop(KeyOf(exact), Indices(|exact|), k, top)
    requires top != [] ==> |Within(exact, exact[LastIndex(exact, k, top)] + 2.0 * eps)| <= Take(|coarse|, k)
    requires IsTop(KeyOf(exact), c, k, r)
    ensures r == top
  {
    if top == [] {
      SubsetSize(c, Indices(|exact|));
      assert Elements(top) <= c;
    } else {
      ShortlistHoldsTop(coarse, exact, eps, Take(|coarse|, k), c, k, top);
    }
    RerankFindsTop(exact, c, k, top, r);
  }

  /** Small corpora are always exact: the shortlist is the whole corpus. */
  lemma SmallCorpusIsExact(coarse: seq<real>, exact: seq<real>, k: nat, c: set<int>, top: seq<int>, r: seq<int>)
    requires |coarse| == |exact| <= RECALL_REFINE && IsShortlist(coarse, Take(|coarse|, k), c)
    requires IsTop(KeyOf(exact), Indices(|exact|), k, top) && IsTop(KeyOf(exact), c, k, r)
    ensures r == top
  {
    SameSizeSubset(c, Indices(|exact|));
    TopUnique(KeyOf(exact), c, k, top, r);
  }

  lemma SameSizeSubset(a: set<int>, b: set<int>)
    requires a <= b && |a| == |b|
    ensures a == b
  {
    assert b == a + (b - a);
    assert |b - a| == 0;
  }

  // ----- and exactly when it is -----

  /** With exact coarse distances every outcome of `argpartition` is right if and only if the ties fit. */
  lemma TiesDecide(d: seq<real>, k: nat, top: seq<int>)
    requires k >= 1 && d != [] && IsTop(KeyOf(d), Indices(|d|), k, top) && top != []
    ensures |Within(d, d[LastIndex(d, k, top)])| <= Take(|d|, k) <==> AlwaysExact(d, k, top)
  {
    if |Within(d, d[LastIndex(d, k, top)])| <= Take(|d|, k) {
      TiesFit(d, k, top);
    } else {
      TiesOverflow(d, k, top);
    }
  }

  /** Re-ranking any shortlist of the exact distances gives the nearest rows. */
  ghost predicate AlwaysExact(d: seq<real>, k: nat, top: seq<int>) {
    forall c, r :: IsShortlist(d, Take(|d|, k), c) && IsTop(KeyOf(d), c, k, r) ==> r == top
  }

  lemma TiesFit(d: seq<real>, k: nat, top: seq<int>)
    requires IsTop(KeyOf(d), Indices(|d|), k, top) && top != []
    requires |Within(d, d[LastIndex(d, k, top)])| <= Take(|d|, k)
    ensures AlwaysExact(d, k, top)
  {
    hide IsShortlist, IsTop, Within, Take, CoarseError, KeyOf, Indices;
    NoError(d);
    var last := LastIndex(d, k, top);
    assert d[last] + 2.0 * 0.0 == d[last];
    forall c, r | IsShortlist(d, Take(|d|, k), c) && IsTop(KeyOf(d), c, k, r)
      ensures r == top
    {
      ShortlistIsExact(d, d, 0.0, k, c, top, r);
    }
  }

  lemma NoError(d: seq<real>)
    ensures CoarseError(d, d, 0.0)
  {
  }

  lemma TiesOverflow(d: seq<real>, k: nat, top: seq<int>)
    requires k >= 1 && IsTop(KeyOf(d), Indices(|d|), k, top) && top != []
    requires |Within(d, d[LastIndex(d, k, top)])| > Take(|d|, k)
    ensures !AlwaysExact(d, k, top)
  {
    var last := LastIndex(d, k, top);
    var c := DroppingLast(d, k, top);
    var list := Enumerate(c);
    var r := Top(KeyOf(d), list, k);
    TopCorrect(KeyOf(d), list, k);
    hide IsShortlist, Top, Within, Take;
    assert IsTop(KeyOf(d), c, k, r);
    assert last in Elements(top) && last !in Elements(r);
    assert r != top;
  }

  lemma SomeMember(c: set<int>) returns (x: int)
    requires c != {}
    ensures x in c
  {
    assert (forall y :: y !in c) ==> c == {};
    x :| x in c;
  }

  lemma {:induction false} Enumerate(c: set<int>) returns (s: seq<int>)
    ensures Distinct(s) && Elements(s) == c
    decreases c
  {
    if c == {} {
      s := [];
    } else {
      var x := SomeMember(c);
      s := Enumerate(c - {x});
      assert x !in Elements(s);
      s := s + [x];
      assert Elements(s) == Elements(s[..|s| - 1]) + {x};
    }
  }

  /** A set of a given size between two sets. */
  lemma {:induction false} Between(lo: set<int>, hi: set<int>, n: nat) returns (c: set<int>)
    requires lo <= hi && |lo| <= n <= |hi|
    ensures lo <= c <= hi && |c| == n
    decreases n - |lo|
  {
    if |lo| == n {
      c := lo;
    } else {
      assert hi == lo + (hi - lo);
      var x := SomeMember(hi - lo);
      SubsetSize(lo + {x}, hi);
      c := Between(lo + {x}, hi, n);
    }
  }

  /** Too many ties: a shortlist may leave out the last of the true nearest rows. */
  lemma DroppingLast(d: seq<real>, k: nat, top: seq<int>) returns (c: set<int>)
    requires k >= 1 && IsTop(KeyOf(d), Indices(|d|), k, top) && top != []
    requires |Within(d, d[LastIndex(d, k, top)])| > Take(|d|, k)
    ensures IsShortlist(d, Take(|d|, k), c) && LastIndex(d, k, top) !in c
  {
    var take, last := Take(|d|, k), LastIndex(d, k, top);
    var near := Within(d, d[last]);
    var closer := set i: int | 0 <= i < |d| && d[i] < d[last];
    CloserIsSmall(d, k, top, closer);
    assert near <= Indices(|d|);
    SubsetSize(near, Indices(|d|));
    assert closer <= near - {last};
    c := Between(closer, near - {last}, take);
  }

  lemma CloserIsSmall(d: seq<real>, k: nat, top: seq<int>, closer: set<int>)
    requires k >= 1 && IsTop(KeyOf(d), Indices(|d|), k, top) && top != []
    requires closer == set i: int | 0 <= i < |d| && d[i] < d[LastIndex(d, k, top)]
    ensures |closer| <= Take(|d|, k)
  {
    var last := LastIndex(d, k, top);
    forall i | i in closer
      ensures i in Elements(top)
    {
      CloserIsTop(d, k, top, i);
    }
    OrderedDistinct(KeyOf(d), top);
    DistinctSize(top);
    SubsetSize(closer, Elements(top));
  }

  lemma CloserIsTop(d: seq<real>, k: nat, top: seq<int>, i: int)
    requires IsTop(KeyOf(d), Indices(|d|), k, top) && top != []
    requires 0 <= i < |d| && d[i] < d[LastIndex(d, k, top)]
    ensures i in Elements(top)
  {
    assert i !in top ==> Before(KeyOf(d), LastIndex(d, k, top), i);
  }

  // ----- recall -----

  function Shifted(ids: seq<int>): set<int> { set x | x in ids :: x + 1 }

  function FirstIds(ids: seq<int>, k: nat): set<int> { Elements(ids[..Least(k, |ids|)]) }

  function Hits(exact: seq<seq<int>>, returned: seq<seq<int>>, k: nat): real
    requires |exact| == |returned| && k > 0
  {
    if exact == [] then 0.0
    else
      var n := |exact| - 1;
      Hits(exact[..n], returned[..n], k)
      + |Shifted(exact[n]) * FirstIds(returned[n], k)| as real / k as real
  }

  datatype Recall = Mean(value: real) | IndexError | ZeroDivisionError

  /**
   Mean recall; exact ids count from zero, returned ids from one. A missing result row raises before the
   division by `k`.
   */
  method RecallAtK(exact: seq<seq<int>>, returned: seq<seq<int>>, k: nat) returns (r: Recall)
    ensures r.IndexError? <==> |returned| < |exact| && (k > 0 || returned == [])
    ensures r.ZeroDivisionError? <==> exact == [] || (k == 0 && returned != [])
    ensures r.Mean? ==>
      && |returned| >= |exact| && k > 0
      && r.value == Hits(exact, returned[..|exact|], k) / |exact| as real
      && r.value * (k * |exact|) as real == |Found(exact, returned, k)| as real
  {
    hide Found, Shifted, FirstIds, Hits;
    NoHits(k);
    var hits := 0.0;
    var i := 0;
    while i < |exact|
      invariant 0 <= i <= |exact| && i <= |returned|
      invariant i > 0 ==> k > 0
      invariant k > 0 ==> hits == Hits(exact[..i], returned[..i], k)
    {
      if i >= |returned| { return IndexError; }
      var truth := Shifted(exact[i]);
      var got := FirstIds(returned[i], k);
      if k == 0 { return ZeroDivisionError; }
      NextHits(exact, returned, k, i);
      hits := hits + |truth * got| as real / k as real;
      i := i + 1;
    }
    assert exact[..i] == exact;
    if i == 0 { return ZeroDivisionError; }
    RecallCounts(exact, returned, k);
    r := Mean(hits / |exact| as real);
  }

  lemma NoHits(k: nat)
    ensures k > 0 ==> Hits([], [], k) == 0.0
  {
  }

  lemma NextHits(exact: seq<seq<int>>, returned: seq<seq<int>>, k: nat, i: nat)
    requires i < |exact| && i < |returned| && k > 0
    ensures
      Hits(exact[..i + 1], returned[..i + 1], k)
      == Hits(exact[..i], returned[..i], k) + |Shifted(exact[i]) * FirstIds(returned[i], k)| as real / k as real
  {
    assert exact[..i + 1][..i] == exact[..i] && returned[..i + 1][..i] == returned[..i];
    hide Shifted, FirstIds;
  }

  /** Recall times the number of neighbours asked for is the number of true neighbours found. */
  lemma RecallCounts(exact: seq<seq<int>>, returned: seq<seq<int>>, k: nat)
    requires 0 < |exact| <= |returned| && k > 0
    ensures
      Hits(exact, returned[..|exact|], k) / |exact| as real * (k * |exact|) as real
      == |Found(exact, returned, k)| as real
  {
    hide *;
    var first := returned[..|exact|];
    SameFound(exact, returned, k);
    HitsCount(exact, first, k);
    MeanTimes(Hits(exact, first, k), |exact|, k);
  }

  lemma SameFound(exact: seq<seq<int>>, returned: seq<seq<int>>, k: nat)
    requires |exact| <= |returned|
    ensures Found(exact, returned[..|exact|], k) == Found(exact, returned, k)
  {
    forall q, id
      ensures (q, id) in Found(exact, returned[..|exact|], k) <==> (q, id) in Found(exact, returned, k)
    {
      FoundIs(exact, returned[..|exact|], k, q, id);
      FoundIs(exact, returned, k, q, id);
    }
    hide Found;
  }

  lemma MeanTimes(hits: real, n: nat, k: nat)
    requires n > 0
    ensures hits / n as real * (k * n) as real == Times(hits, k)
  {
    assert hits / n as real * (k as real * n as real) == hits / n as real * n as real * k as real;
  }

  /** The pairs of a query and one of its first `k` returned ids that is a true neighbour. */
  ghost function Found(exact: seq<seq<int>>, returned: seq<seq<int>>, k: nat): set<(int, int)>
    requires |exact| <= |returned|
  {
    set q: int, j: int | 0 <= q < |exact| && 0 <= j < |returned[q]| && j < k && returned[q][j] - 1 in exact[q] ::
      (q, returned[q][j])
  }

  ghost predicate IsFound(exact: seq<seq<int>>, returned: seq<seq<int>>, k: nat, q: int, id: int)
    requires |exact| <= |returned|
  {
    && 0 <= q < |exact| && id - 1 in exact[q]
    && exists j :: 0 <= j < |returned[q]| && j < k && returned[q][j] == id
  }

  lemma FoundIs(exact: seq<seq<int>>, returned: seq<seq<int>>, k: nat, q: int, id: int)
    requires |exact| <= |returned|
    ensures (q, id) in Found(exact, returned, k) <==> IsFound(exact, returned, k, q, id)
  {
  }

  function Tagged(q: int, ids: set<int>): set<(int, int)> { set id | id in ids :: (q, id) }

  lemma {:induction false} TaggedSize(q: int, ids: set<int>)
    ensures |Tagged(q, ids)| == |ids|
    decreases ids
  {
    if ids != {} {
      var x := SomeMember(ids);
      TaggedSize(q, ids - {x});
      assert Tagged(q, ids) == Tagged(q, ids - {x}) + {(q, x)};
    }
  }

  function Times(x: real, k: nat): real { x * k as real }

  /** `k` times the sum of the hit rates is the number of true neighbours found. */
  lemma {:induction false} HitsCount(exact: seq<seq<int>>, returned: seq<seq<int>>, k: nat)
    requires |exact| == |returned| && k > 0
    ensures Times(Hits(exact, returned, k), k) == |Found(exact, returned, k)| as real
    decreases |exact|
  {
    if exact == [] {
      NoneFound(exact, returned, k);
    } else {
      hide *;
      var n := |exact| - 1;
      var hits := Shifted(exact[n]) * FirstIds(returned[n], k);
      HitsCount(exact[..n], returned[..n], k);
      HitsLast(exact, returned, k);
      FoundLast(exact, returned, k);
      TaggedSize(n, hits);
    }
  }

  lemma HitsLast(exact: seq<seq<int>>, returned: seq<seq<int>>, k: nat)
    requires |exact| == |returned| > 0 && k > 0
    ensures
      var n := |exact| - 1;
      Times(Hits(exact, returned, k), k)
      == Times(Hits(exact[..n], returned[..n], k), k) + |Shifted(exact[n]) * FirstIds(returned[n], k)| as real
  {
    hide Shifted, FirstIds, Times;
    var n := |exact| - 1;
    TimesShare(Hits(exact[..n], returned[..n], k), |Shifted(exact[n]) * FirstIds(returned[n], k)|, k);
  }

  lemma TimesShare(x: real, h: nat, k: nat)
    requires k > 0
    ensures Times(x + h as real / k as real, k) == Times(x, k) + h as real
  {
    ShareTimes(x, h, k);
  }

  lemma NoneFound(exact: seq<seq<int>>, returned: seq<seq<int>>, k: nat)
    requires exact == [] == returned && k > 0
    ensures Hits(exact, returned, k) == 0.0 && Found(exact, returned, k) == {}
  {
  }

  lemma FoundLast(exact: seq<seq<int>>, returned: seq<seq<int>>, k: nat)
    requires |exact| == |returned| > 0
    ensures
      var n := |exact| - 1;
      var before, more := Found(exact[..n], returned[..n], k), Tagged(n, Shifted(exact[n]) * FirstIds(returned[n], k));
      Found(exact, returned, k) == before + more && before !! more
  {
    var n := |exact| - 1;
    var before, more := Found(exact[..n], returned[..n], k), Tagged(n, Shifted(exact[n]) * FirstIds(returned[n], k));
    forall q, id
      ensures (q, id) in Found(exact, returned, k) <==> (q, id) in before + more
      ensures !((q, id) in before && (q, id) in more)
    {
      LastQuery(exact, returned, k, q, id);
      FoundIs(exact[..n], returned[..n], k, q, id);
    }
    hide Found, Tagged;
    assert Found(exact, returned, k) == before + more;
  }

  lemma ShareTimes(x: real, h: nat, k: nat)
    requires k > 0
    ensures (x + h as real / k as real) * k as real == x * k as real + h as real
  {
    assert h as real / k as real * k as real == h as real;
  }

  lemma LastQuery(exact: seq<seq<int>>, returned: seq<seq<int>>, k: nat, q: int, id: int)
    requires |exact| == |returned| > 0
    ensures
      var n := |exact| - 1;
      (q, id) in Found(exact, returned, k)
      <==> (q, id) in Found(exact[..n], returned[..n], k)
           || (q, id) in Tagged(n, Shifted(exact[n]) * FirstIds(returned[n], k))
  {
    var n := |exact| - 1;
    FoundIs(exact, returned, k, q, id);
    FoundIs(exact[..n], returned[..n], k, q, id);
    if q == n {
      ShiftedMember(exact[n], id);
      FirstIdsAre(returned[n], k, id);
    }
  }

  lemma FirstIdsAre(ids: seq<int>, k: nat, id: int)
    ensures id in FirstIds(ids, k) <==> exists j :: 0 <= j < |ids| && j < k && ids[j] == id
  {
    var first := ids[..Least(k, |ids|)];
    if j :| 0 <= j < |ids| && j < k && ids[j] == id { assert first[j] == id; }
    if id in first {
      var j :| 0 <= j < |first| && first[j] == id;
      assert ids[j] == id;
    }
  }

  /** One more true neighbour among the first `k` raises the sum of the hit rates by one `k`-th. */
  lemma OneMoreHit(exact: seq<seq<int>>, returned: seq<seq<int>>, k: nat, q: nat, j: nat, id: int)
    requires |exact| == |returned| && q < |exact| && j < |returned[q]| && j < k
    requires returned[q][j] - 1 !in exact[q] && id - 1 in exact[q]
    requires forall i :: 0 <= i < |returned[q]| && i < k ==> returned[q][i] != id
    ensures
      Hits(exact, returned[q := returned[q][j := id]], k) == Hits(exact, returned, k) + 1.0 / k as real
  {
    hide *;
    var better := returned[q := returned[q][j := id]];
    FoundGrows(exact, returned, k, q, j, id);
    HitsCount(exact, returned, k);
    HitsCount(exact, better, k);
    OneShare(Hits(exact, returned, k), Hits(exact, better, k), k);
  }

  lemma FoundGrows(exact: seq<seq<int>>, returned: seq<seq<int>>, k: nat, q: nat, j: nat, id: int)
    requires |exact| == |returned| && q < |exact| && j < |returned[q]| && j < k
    requires returned[q][j] - 1 !in exact[q] && id - 1 in exact[q]
    requires forall i :: 0 <= i < |returned[q]| && i < k ==> returned[q][i] != id
    ensures |Found(exact, returned[q := returned[q][j := id]], k)| == |Found(exact, returned, k)| + 1
  {
    var better := returned[q := returned[q][j := id]];
    FoundIs(exact, returned, k, q, id);
    hide Found;
    assert (q, id) !in Found(exact, returned, k);
    forall p, x
      ensures (p, x) in Found(exact, better, k) <==> (p, x) in Found(exact, returned, k) + {(q, id)}
    {
      OneMoreFound(exact, returned, k, q, j, id, p, x);
    }
    assert Found(exact, better, k) == Found(exact, returned, k) + {(q, id)};
  }

  lemma OneMoreFound(exact: seq<seq<int>>, returned: seq<seq<int>>, k: nat, q: nat, j: nat, id: int, p: int, x: int)
    requires |exact| == |returned| && q < |exact| && j < |returned[q]| && j < k
    requires returned[q][j] - 1 !in exact[q] && id - 1 in exact[q]
    ensures
      var better := returned[q := returned[q][j := id]];
      (p, x) in Found(exact, better, k) <==> (p, x) in Found(exact, returned, k) + {(q, id)}
  {
    var better := returned[q := returned[q][j := id]];
    FoundIs(exact, returned, k, p, x);
    FoundIs(exact, better, k, p, x);
    hide Found;
    if p == q {
      var was, now := returned[q], better[q];
      if i :| 0 <= i < |was| && i < k && was[i] == x { assert i != j ==> now[i] == x; }
      if i :| 0 <= i < |now| && i < k && now[i] == x { assert i != j ==> was[i] == x; }
      assert now[j] == id;
    }
  }

  lemma OneShare(x: real, y: real, k: nat)
    requires k > 0 && Times(y, k) == Times(x, k) + 1.0
    ensures y == x + 1.0 / k as real
  {
    assert (y - x) * k as real == 1.0;
  }

  /**
   The shortlist holds `k` rows and 200 rows, where there are so many, and never more than the larger number: that
   many distances are computed again.
   */
  lemma ShortlistWidth(coarse: seq<real>, k: nat, c: set<int>)
    requires IsShortlist(coarse, Take(|coarse|, k), c)
    ensures |c| <= |coarse| && (|c| <= 200 || |c| <= k)
    ensures |c| < |coarse| ==> |c| >= 200 && |c| >= k
  {
  }

  lemma ShiftedMember(ids: seq<int>, y: int)
    ensures y in Shifted(ids) <==> y - 1 in ids
  {
    if y - 1 in ids { assert (y - 1) + 1 in Shifted(ids); }
  }

  lemma {:induction false} ShiftedSize(ids: seq<int>)
    requires Distinct(ids)
    ensures |Shifted(ids)| == |ids|
  {
    if ids != [] {
      var c, x := ids[..|ids| - 1], ids[|ids| - 1];
      ShiftedSize(c);
      assert ids == c + [x];
      forall y
        ensures y in Shifted(ids) <==> y in Shifted(c) + {x + 1}
      {
        ShiftedMember(ids, y);
        ShiftedMember(c, y);
      }
      ShiftedMember(c, x + 1);
      assert Shifted(ids) == Shifted(c) + {x + 1};
    }
  }

  /** Recall lies between zero and one, and is one exactly when every true neighbour was returned. */
  lemma {:induction false} HitsBounded(exact: seq<seq<int>>, returned: seq<seq<int>>, k: nat)
    requires |exact| == |returned| && k > 0
    requires forall i :: 0 <= i < |exact| ==> Distinct(exact[i]) && |exact[i]| == k
    ensures 0.0 <= Hits(exact, returned, k) <= |exact| as real
    ensures Hits(exact, returned, k) == |exact| as real
       <==> forall i :: 0 <= i < |exact| ==> Shifted(exact[i]) <= FirstIds(returned[i], k)
    decreases |exact|
  {
    if exact != [] {
      var n := |exact| - 1;
      HitsBounded(exact[..n], returned[..n], k);
      ShiftedSize(exact[n]);
      var truth, got := Shifted(exact[n]), FirstIds(returned[n], k);
      SubsetSize(truth * got, truth);
      if truth <= got { assert truth * got == truth; }
      if |truth * got| == k { SameSizeSubset(truth * got, truth); }
      ShareBounds(|truth * got|, k);
      assert forall i :: 0 <= i < n ==> exact[..n][i] == exact[i] && returned[..n][i] == returned[i];
    }
  }

  lemma ShareBounds(h: nat, k: nat)
    requires h <= k && k > 0
    ensures 0.0 <= h as real / k as real <= 1.0
    ensures h as real / k as real == 1.0 <==> h == k
  {
  }
}

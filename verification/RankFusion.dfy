/**
 `rrf_fuse`: reciprocal-rank fusion of ranked id lists. The dictionary-updating loop computes the
 prefix of the union ordered by total reciprocal rank, ties by id.
 */
module RankFusion {
  import opened Ranking

  type Branch = seq<int>

  const RRF_K: nat := 60
  const CANDIDATES: nat := 50

  /** `1.0 / (rrf_k + rank)`, ranks counted from one. */
  function Recip(k: nat, rank: nat): real
    requires rank >= 1
  {
    1.0 / (k + rank) as real
  }

  /** What one branch adds to the score of an id. */
  function Contribution(k: nat, b: Branch, id: int): real {
    if b == [] then 0.0
    else Contribution(k, b[..|b| - 1], id) + if b[|b| - 1] == id then Recip(k, |b|) else 0.0
  }

  function Score(k: nat, bs: seq<Branch>, id: int): real {
    if bs == [] then 0.0 else Score(k, bs[..|bs| - 1], id) + Contribution(k, bs[|bs| - 1], id)
  }

  function Union(bs: seq<Branch>): set<int> {
    if bs == [] then {} else Union(bs[..|bs| - 1]) + Elements(bs[|bs| - 1])
  }

  /** The sort key: higher scores first. */
  function ScoreKey(k: nat, bs: seq<Branch>): Key { id => -Score(k, bs, id) }

  // ----- the loop -----

  /**
   The dictionary after the branches `bs` and the first ids `part` of the next one; `order` is the
   insertion order of its keys.
   */
  ghost predicate Tallied(scores: map<int, real>, order: seq<int>, k: nat, bs: seq<Branch>, part: Branch) {
    && scores.Keys == Union(bs) + Elements(part) == Elements(order)
    && Distinct(order)
    && forall id :: id in scores ==> scores[id] == Score(k, bs, id) + Contribution(k, part, id)
  }

  function Bump(scores: map<int, real>, id: int, amount: real): map<int, real> {
    scores[id := (if id in scores then scores[id] else 0.0) + amount]
  }

  lemma TalliedStep(scores: map<int, real>, order: seq<int>, k: nat, bs: seq<Branch>, part: Branch, id: int)
    requires Tallied(scores, order, k, bs, part)
    ensures
      Tallied(Bump(scores, id, Recip(k, |part| + 1)), if id in scores then order else order + [id], k, bs, part + [id])
  {
    hide Tallied, Recip;
    TalliedOrder(scores, order, k, bs, part, id);
    TalliedScores(scores, order, k, bs, part, id);
    TalliedFrom(Bump(scores, id, Recip(k, |part| + 1)), if id in scores then order else order + [id], k, bs,
                part + [id]);
  }

  lemma TalliedFrom(scores: map<int, real>, order: seq<int>, k: nat, bs: seq<Branch>, part: Branch)
    requires scores.Keys == Union(bs) + Elements(part) == Elements(order) && Distinct(order)
    requires forall id :: id in scores ==> scores[id] == Score(k, bs, id) + Contribution(k, part, id)
    ensures Tallied(scores, order, k, bs, part)
  {
  }

  lemma TalliedOrder(scores: map<int, real>, order: seq<int>, k: nat, bs: seq<Branch>, part: Branch, id: int)
    requires Tallied(scores, order, k, bs, part)
    ensures
      var order' := if id in scores then order else order + [id];
      Distinct(order') &&
      Bump(scores, id, Recip(k, |part| + 1)).Keys == Union(bs) + Elements(part + [id]) == Elements(order')
  {
    OrderStep(order, id);
    ElementsStep(part, id);
    hide Distinct, Elements, Union, Score, Contribution, Recip;
    assert Bump(scores, id, Recip(k, |part| + 1)).Keys == scores.Keys + {id};
  }

  lemma TalliedScores(scores: map<int, real>, order: seq<int>, k: nat, bs: seq<Branch>, part: Branch, id: int)
    requires Tallied(scores, order, k, bs, part)
    ensures
      var scores' := Bump(scores, id, Recip(k, |part| + 1));
      forall x :: x in scores' ==> scores'[x] == Score(k, bs, x) + Contribution(k, part + [id], x)
  {
    AbsentScoresZero(k, bs, id);
    AbsentContributesZero(k, part, id);
    assert id !in scores ==> id !in Union(bs) && id !in part;
    hide Distinct, Elements, Union, Score, Contribution, Recip;
    var scores' := Bump(scores, id, Recip(k, |part| + 1));
    forall x | x in scores'
      ensures scores'[x] == Score(k, bs, x) + Contribution(k, part + [id], x)
    {
      ContributionStep(k, part, id, x);
    }
  }

  lemma OrderStep(order: seq<int>, id: int)
    requires Distinct(order)
    ensures id !in Elements(order) ==> Distinct(order + [id])
    ensures Elements(order + [id]) == Elements(order) + {id}
  {
  }

  lemma ElementsStep(part: Branch, id: int)
    ensures Elements(part + [id]) == Elements(part) + {id}
  {
  }

  lemma ContributionStep(k: nat, part: Branch, id: int, x: int)
    ensures Contribution(k, part + [id], x)
         == Contribution(k, part, x) + if id == x then Recip(k, |part| + 1) else 0.0
  {
    assert (part + [id])[..|part|] == part;
  }

  lemma TalliedBranch(scores: map<int, real>, order: seq<int>, k: nat, bs: seq<Branch>, b: Branch)
    requires Tallied(scores, order, k, bs, b)
    ensures Tallied(scores, order, k, bs + [b], [])
  {
    assert (bs + [b])[..|bs|] == bs;
    assert Elements([]) == {};
  }

  method Fuse(branches: seq<Branch>, topK: nat, k: nat) returns (fused: seq<int>)
    ensures IsTop(ScoreKey(k, branches), Union(branches), topK, fused)
  {
    hide Tallied, Recip;
    var scores: map<int, real> := map[];
    var order: seq<int> := [];
    TalliedStart(k);
    var i := 0;
    while i < |branches|
      invariant 0 <= i <= |branches|
      invariant Tallied(scores, order, k, branches[..i], [])
    {
      var branch := branches[i];
      var rank := 0;
      while rank < |branch|
        invariant 0 <= rank <= |branch|
        invariant Tallied(scores, order, k, branches[..i], branch[..rank])
      {
        var id := branch[rank];
        TalliedStep(scores, order, k, branches[..i], branch[..rank], id);
        assert branch[..rank] + [id] == branch[..rank + 1];
        if id !in scores { order := order + [id]; }
        scores := Bump(scores, id, Recip(k, rank + 1));
        rank := rank + 1;
      }
      assert branch[..rank] == branch && branches[..i] + [branch] == branches[..i + 1];
      TalliedBranch(scores, order, k, branches[..i], branch);
      i := i + 1;
    }
    assert branches[..i] == branches;
    var key: Key := id => if id in scores then -scores[id] else 0.0;
    fused := Top(key, order, topK);
    TalliedTop(scores, order, k, branches, topK, key);
  }

  lemma TalliedStart(k: nat)
    ensures Tallied(map[], [], k, [], [])
  {
  }

  lemma TalliedTop(scores: map<int, real>, order: seq<int>, k: nat, bs: seq<Branch>, topK: nat, key: Key)
    requires Tallied(scores, order, k, bs, [])
    requires forall id :: key(id) == if id in scores then -scores[id] else 0.0
    ensures IsTop(ScoreKey(k, bs), Union(bs), topK, Top(key, order, topK))
  {
    hide IsTop, Top;
    TopCorrect(key, order, topK);
    TopCongruence(key, ScoreKey(k, bs), Union(bs), topK, Top(key, order, topK));
  }

  lemma {:induction false} AbsentContributesZero(k: nat, b: Branch, id: int)
    ensures id !in b ==> Contribution(k, b, id) == 0.0
    decreases b
  {
    if b != [] { AbsentContributesZero(k, b[..|b| - 1], id); }
  }

  lemma {:induction false} AbsentScoresZero(k: nat, bs: seq<Branch>, id: int)
    ensures id !in Union(bs) ==> Score(k, bs, id) == 0.0
    decreases bs
  {
    if bs != [] {
      AbsentScoresZero(k, bs[..|bs| - 1], id);
      AbsentContributesZero(k, bs[|bs| - 1], id);
    }
  }

  // ----- reciprocals -----

  lemma RecipFalls(k: nat, r: nat, s: nat)
    requires 1 <= r < s
    ensures Recip(k, r) > Recip(k, s)
  {
    InverseFalls((k + r) as real, (k + s) as real);
  }

  lemma InverseFalls(x: real, y: real)
    requires 0.0 < x < y
    ensures 1.0 / x > 1.0 / y
  {
    var d, e := 1.0 / x, 1.0 / y;
    assert x * d == 1.0 && y * e == 1.0 && e > 0.0;
    assert (y - x) * e > 0.0;
    assert x * (d - e) > 0.0;
  }

  /** Two ranks within the first `k + 1` outweigh any single rank. */
  lemma TwoOutweighOne(k: nat, p: nat, q: nat, r: nat)
    requires 1 <= p <= k + 1 && 1 <= q <= k + 1 && 1 <= r
    ensures Recip(k, p) + Recip(k, q) > Recip(k, r)
  {
    if p < k + 1 { RecipFalls(k, p, k + 1); }
    if q < k + 1 { RecipFalls(k, q, k + 1); }
    if r > 1 { RecipFalls(k, 1, r); }
    var x := (k + 1) as real;
    assert Recip(k, k + 1) == 1.0 / (2.0 * x - 1.0);
    HalfIsMore(x);
  }

  lemma HalfIsMore(x: real)
    requires x >= 1.0
    ensures 1.0 / (2.0 * x - 1.0) + 1.0 / (2.0 * x - 1.0) > 1.0 / x
  {
    var y := 2.0 * x - 1.0;
    assert 1.0 / x == y / (x * y) && 1.0 / y == x / (x * y);
    assert x / (x * y) + x / (x * y) == (2.0 * x) / (x * y);
  }

  // ----- positions -----

  lemma {:induction false} ContributionAt(k: nat, b: Branch, p: nat)
    requires Distinct(b) && p < |b|
    ensures Contribution(k, b, b[p]) == Recip(k, p + 1)
    decreases b
  {
    var c := b[..|b| - 1];
    if p == |b| - 1 {
      AbsentContributesZero(k, c, b[p]);
    } else {
      assert c[p] == b[p] && b[|b| - 1] != b[p];
      ContributionAt(k, c, p);
    }
  }

  lemma TwoBranches(k: nat, x: Branch, y: Branch, id: int)
    ensures Score(k, [x, y], id) == Contribution(k, x, id) + Contribution(k, y, id)
    ensures Union([x, y]) == Elements(x) + Elements(y)
  {
    var bs := [x, y];
    assert bs[..1] == [x] && [x][..0] == [];
    assert Score(k, [x], id) == 0.0 + Contribution(k, x, id);
    assert Union([x]) == {} + Elements(x);
  }

  // ----- consensus -----

  /** Every id found by both branches is ranked before every id found by only one. */
  ghost predicate Consensus(k: nat, x: Branch, y: Branch) {
    forall a, b :: a in x && a in y && ((b in x && b !in y) || (b in y && b !in x)) ==>
      Before(ScoreKey(k, [x, y]), a, b)
  }

  lemma ConsensusHolds(k: nat, x: Branch, y: Branch)
    requires Distinct(x) && Distinct(y) && |x| <= k + 1 && |y| <= k + 1
    ensures Consensus(k, x, y)
  {
    forall a, b | a in x && a in y && ((b in x && b !in y) || (b in y && b !in x))
      ensures Before(ScoreKey(k, [x, y]), a, b)
    {
      var p :| 0 <= p < |x| && x[p] == a;
      var q :| 0 <= q < |y| && y[q] == a;
      ContributionAt(k, x, p);
      ContributionAt(k, y, q);
      TwoBranches(k, x, y, a);
      TwoBranches(k, x, y, b);
      var r := LoneRank(k, x, y, b);
      TwoOutweighOne(k, p + 1, q + 1, r);
    }
  }

  lemma LoneRank(k: nat, x: Branch, y: Branch, b: int) returns (r: nat)
    requires Distinct(x) && Distinct(y) && ((b in x && b !in y) || (b in y && b !in x))
    ensures r >= 1 && Contribution(k, x, b) + Contribution(k, y, b) == Recip(k, r)
  {
    AbsentContributesZero(k, x, b);
    AbsentContributesZero(k, y, b);
    if b in x {
      var i :| 0 <= i < |x| && x[i] == b;
      ContributionAt(k, x, i);
      r := i + 1;
    } else {
      var i :| 0 <= i < |y| && y[i] == b;
      ContributionAt(k, y, i);
      r := i + 1;
    }
  }

  /** The lengths the harness uses are within the bound. */
  lemma HarnessConsensus(x: Branch, y: Branch)
    requires Distinct(x) && Distinct(y) && |x| <= 50 && |y| <= 50
    ensures CANDIDATES == 50 && RRF_K == 60 && Consensus(60, x, y)
  {
    ConsensusHolds(RRF_K, x, y);
  }

  /** Two branches of length `n` that share only their last id. */
  function LeftWitness(n: nat): Branch { seq(n, i requires 0 <= i < n => if i == n - 1 then 2 * n else i) }

  function RightWitness(n: nat): Branch { seq(n, i requires 0 <= i < n => if i == n - 1 then 2 * n else n + i) }

  /** `k + 1` is the largest length for which consensus always holds. */
  lemma ConsensusExactly(k: nat, n: nat)
    ensures n <= k + 1
       <==> forall x: Branch, y: Branch :: Distinct(x) && Distinct(y) && |x| <= n && |y| <= n ==> Consensus(k, x, y)
  {
    if n <= k + 1 {
      forall x: Branch, y: Branch | Distinct(x) && Distinct(y) && |x| <= n && |y| <= n
        ensures Consensus(k, x, y)
      {
        ConsensusHolds(k, x, y);
      }
    } else {
      ConsensusBreaks(k, n);
    }
  }

  lemma ConsensusBreaks(k: nat, n: nat)
    requires n >= k + 2
    ensures Distinct(LeftWitness(n)) && Distinct(RightWitness(n))
    ensures |LeftWitness(n)| == |RightWitness(n)| == n && !Consensus(k, LeftWitness(n), RightWitness(n))
  {
    var x, y := LeftWitness(n), RightWitness(n);
    assert x[n - 1] == y[n - 1] == 2 * n && x[0] == 0;
    assert 0 !in y;
    ContributionAt(k, x, n - 1);
    ContributionAt(k, y, n - 1);
    ContributionAt(k, x, 0);
    AbsentContributesZero(k, y, 0);
    TwoBranches(k, x, y, 2 * n);
    TwoBranches(k, x, y, 0);
    OneOutweighsTwo(k, n);
    assert 2 * n in x && 2 * n in y && 0 in x;
    assert !Before(ScoreKey(k, [x, y]), 2 * n, 0);
  }

  lemma OneOutweighsTwo(k: nat, n: nat)
    requires n >= k + 2
    ensures Recip(k, n) + Recip(k, n) <= Recip(k, 1)
  {
    if n > k + 2 { RecipFalls(k, k + 2, n); }
    var x := (k + 1) as real;
    assert Recip(k, k + 2) == 1.0 / (2.0 * x);
    assert 1.0 / (2.0 * x) + 1.0 / (2.0 * x) == 1.0 / x;
  }

  // ----- the order of the branches -----

  lemma {:induction false} ScoreWithout(k: nat, bs: seq<Branch>, j: nat, id: int)
    requires j < |bs|
    ensures Score(k, bs, id) == Score(k, bs[..j] + bs[j + 1..], id) + Contribution(k, bs[j], id)
    ensures Union(bs) == Union(bs[..j] + bs[j + 1..]) + Elements(bs[j])
    decreases bs
  {
    hide Contribution, Elements;
    var n := |bs| - 1;
    if j == n {
      assert bs[..j] + bs[j + 1..] == bs[..n];
    } else {
      var rest := bs[..j] + bs[j + 1..];
      var c := bs[..n];
      ScoreWithout(k, c, j, id);
      assert rest[..|rest| - 1] == c[..j] + c[j + 1..] && rest[|rest| - 1] == bs[n] && c[j] == bs[j];
    }
  }

  lemma {:induction false} ScorePermuted(k: nat, bs: seq<Branch>, cs: seq<Branch>, id: int)
    requires multiset(bs) == multiset(cs)
    ensures Score(k, bs, id) == Score(k, cs, id) && Union(bs) == Union(cs)
    decreases |bs|
  {
    hide Contribution, Elements;
    if bs == [] {
      assert |multiset(cs)| == 0;
    } else {
      var n := |bs| - 1;
      var b := bs[n];
      assert bs == bs[..n] + [b];
      assert b in multiset(cs);
      var j :| 0 <= j < |cs| && cs[j] == b;
      var ds := cs[..j] + cs[j + 1..];
      assert cs == cs[..j] + [b] + cs[j + 1..];
      assert multiset(ds) == multiset(cs) - multiset{b};
      ScorePermuted(k, bs[..n], ds, id);
      ScoreWithout(k, cs, j, id);
    }
  }

  /** Fusion does not depend on the order in which the branches are given. */
  lemma FusionIgnoresBranchOrder(k: nat, bs: seq<Branch>, cs: seq<Branch>, topK: nat, r: seq<int>, s: seq<int>)
    requires multiset(bs) == multiset(cs)
    requires IsTop(ScoreKey(k, bs), Union(bs), topK, r) && IsTop(ScoreKey(k, cs), Union(cs), topK, s)
    ensures r == s
  {
    ScorePermuted(k, bs, cs, 0);
    forall x | x in Union(bs)
      ensures ScoreKey(k, bs)(x) == ScoreKey(k, cs)(x)
    {
      ScorePermuted(k, bs, cs, x);
    }
    TopCongruence(ScoreKey(k, bs), ScoreKey(k, cs), Union(bs), topK, r);
    TopUnique(ScoreKey(k, cs), Union(cs), topK, r, s);
  }

  // ----- conservation of score mass -----

  function SumOver(ids: seq<int>, value: Key): real {
    if ids == [] then 0.0 else SumOver(ids[..|ids| - 1], value) + value(ids[|ids| - 1])
  }

  /** `1 / (k + 1) + ... + 1 / (k + n)` */
  function BranchMass(k: nat, n: nat): real {
    if n == 0 then 0.0 else BranchMass(k, n - 1) + 1.0 / (k + n) as real
  }

  function Mass(k: nat, bs: seq<Branch>): real {
    if bs == [] then 0.0 else Mass(k, bs[..|bs| - 1]) + BranchMass(k, |bs[|bs| - 1]|)
  }

  lemma SumLast(ids: seq<int>, f: Key)
    requires ids != []
    ensures SumOver(ids, f) == SumOver(ids[..|ids| - 1], f) + f(ids[|ids| - 1])
  {
  }

  lemma {:induction false} SumAdds(ids: seq<int>, f: Key, g: Key, h: Key)
    requires forall x :: x in ids ==> h(x) == f(x) + g(x)
    ensures SumOver(ids, h) == SumOver(ids, f) + SumOver(ids, g)
    decreases ids
  {
    if ids != [] {
      var c, x := ids[..|ids| - 1], ids[|ids| - 1];
      assert x in ids && forall y :: y in c ==> y in ids;
      SumAdds(c, f, g, h);
      SumLast(ids, f);
      SumLast(ids, g);
      SumLast(ids, h);
    }
  }

  /** A value at one id only. */
  function Spike(at: int, v: real): Key { x => if x == at then v else 0.0 }

  lemma {:induction false} SumSpike(ids: seq<int>, at: int, v: real)
    requires Distinct(ids)
    ensures SumOver(ids, Spike(at, v)) == if at in ids then v else 0.0
    decreases ids
  {
    if ids != [] {
      var c := ids[..|ids| - 1];
      SumSpike(c, at, v);
      assert ids == c + [ids[|ids| - 1]];
    }
  }

  lemma {:induction false} SumZero(ids: seq<int>, f: Key)
    requires forall x :: x in ids ==> f(x) == 0.0
    ensures SumOver(ids, f) == 0.0
    decreases ids
  {
    if ids != [] {
      var c, x := ids[..|ids| - 1], ids[|ids| - 1];
      assert x in ids && forall y :: y in c ==> y in ids;
      SumZero(c, f);
      SumLast(ids, f);
    }
  }

  lemma {:induction false} BranchMassConserved(k: nat, b: Branch, ids: seq<int>)
    requires Distinct(ids) && Elements(b) <= Elements(ids)
    ensures SumOver(ids, id => Contribution(k, b, id)) == BranchMass(k, |b|)
    decreases b
  {
    if b == [] {
      SumZero(ids, id => Contribution(k, b, id));
    } else {
      var c, last := b[..|b| - 1], b[|b| - 1];
      assert forall x :: x in Elements(c) ==> x in Elements(b);
      BranchMassConserved(k, c, ids);
      assert last in Elements(b);
      SumSpike(ids, last, Recip(k, |b|));
      SumAdds(ids, id => Contribution(k, c, id), Spike(last, Recip(k, |b|)), id => Contribution(k, b, id));
    }
  }

  /** The scores of all ids add up to the reciprocals of all branch positions. */
  lemma {:induction false} MassConserved(k: nat, bs: seq<Branch>, ids: seq<int>)
    requires Distinct(ids) && Union(bs) <= Elements(ids)
    ensures SumOver(ids, id => Score(k, bs, id)) == Mass(k, bs)
    decreases bs
  {
    if bs == [] {
      SumZero(ids, id => Score(k, bs, id));
    } else {
      var cs, b := bs[..|bs| - 1], bs[|bs| - 1];
      MassConserved(k, cs, ids);
      BranchMassConserved(k, b, ids);
      SumAdds(ids, id => Score(k, cs, id), id => Contribution(k, b, id), id => Score(k, bs, id));
    }
  }

  // ----- dominance -----

  /** `a` stands ahead of `b` in a branch that holds `b`. */
  ghost predicate Ahead(branch: Branch, a: int, b: int) {
    b in branch ==> exists i, j :: 0 <= i < j < |branch| && branch[i] == a && branch[j] == b
  }

  lemma AheadContributes(k: nat, branch: Branch, a: int, b: int)
    requires Distinct(branch) && Ahead(branch, a, b)
    ensures Contribution(k, branch, a) >= Contribution(k, branch, b)
    ensures b in branch ==> Contribution(k, branch, a) > Contribution(k, branch, b)
  {
    if b in branch {
      var i, j :| 0 <= i < j < |branch| && branch[i] == a && branch[j] == b;
      ContributionAt(k, branch, i);
      ContributionAt(k, branch, j);
      RecipFalls(k, i + 1, j + 1);
    } else {
      AbsentContributesZero(k, branch, b);
      ContributionNotNegative(k, branch, a);
    }
  }

  lemma {:induction false} ContributionNotNegative(k: nat, b: Branch, id: int)
    ensures Contribution(k, b, id) >= 0.0
    decreases b
  {
    if b != [] { ContributionNotNegative(k, b[..|b| - 1], id); }
  }

  lemma {:induction false} DominanceScores(k: nat, bs: seq<Branch>, a: int, b: int)
    requires forall i :: 0 <= i < |bs| ==> Distinct(bs[i]) && Ahead(bs[i], a, b)
    ensures Score(k, bs, a) >= Score(k, bs, b)
    ensures b in Union(bs) ==> Score(k, bs, a) > Score(k, bs, b)
    decreases bs
  {
    hide Ahead, Contribution, Distinct;
    if bs != [] {
      DominanceScores(k, bs[..|bs| - 1], a, b);
      AheadContributes(k, bs[|bs| - 1], a, b);
    }
  }

  /** An id ahead of another in every branch that holds the other is ranked before it. */
  lemma FusionRespectsDominance(k: nat, bs: seq<Branch>, a: int, b: int)
    requires forall i :: 0 <= i < |bs| ==> Distinct(bs[i]) && Ahead(bs[i], a, b)
    requires b in Union(bs)
    ensures Before(ScoreKey(k, bs), a, b)
  {
    DominanceScores(k, bs, a, b);
  }

  // ----- the first fused id -----

  predicate IsLeader(x: Branch, y: Branch, id: int)
    requires x != [] && y != []
  {
    id == x[0] || id == y[0]
  }

  /** The rank of an id in a branch, counted from one. */
  function Rank(b: Branch, id: int): (r: nat)
    requires id in b
    ensures 1 <= r <= |b| && b[r - 1] == id
  {
    if b[0] == id then 1 else 1 + Rank(b[1..], id)
  }

  /** The reciprocal rank of an id where the branch holds it. */
  function Weight(k: nat, b: Branch, id: int): real { if id in b then Recip(k, Rank(b, id)) else 0.0 }

  /** By its ranks in the two branches `a` comes before `b`, the smaller id first on equal terms. */
  predicate Outranks(k: nat, x: Branch, y: Branch, a: int, b: int) {
    var s, t := Weight(k, x, a) + Weight(k, y, a), Weight(k, x, b) + Weight(k, y, b);
    s > t || (s == t && a < b)
  }

  /** Some branch leader outranks every id that both branches hold and neither leads with. */
  ghost predicate LeaderBeatsShared(k: nat, x: Branch, y: Branch)
    requires x != [] && y != []
  {
    exists l :: IsLeader(x, y, l) && forall c :: c in x && c in y && !IsLeader(x, y, c) ==> Outranks(k, x, y, l, c)
  }

  lemma WeightIsContribution(k: nat, b: Branch, id: int)
    requires Distinct(b)
    ensures Contribution(k, b, id) == Weight(k, b, id)
  {
    if id in b { ContributionAt(k, b, Rank(b, id) - 1); } else { AbsentContributesZero(k, b, id); }
  }

  /** The fused order is the order by ranks. */
  lemma OrderByRanks(k: nat, x: Branch, y: Branch, a: int, b: int)
    requires Distinct(x) && Distinct(y)
    ensures Before(ScoreKey(k, [x, y]), a, b) <==> Outranks(k, x, y, a, b)
  {
    hide Weight, Contribution, Score, Distinct;
    TwoBranches(k, x, y, a);
    TwoBranches(k, x, y, b);
    WeightIsContribution(k, x, a);
    WeightIsContribution(k, y, a);
    WeightIsContribution(k, x, b);
    WeightIsContribution(k, y, b);
  }

  lemma LeaderBeatsLone(k: nat, x: Branch, y: Branch, l: int, c: int)
    requires Distinct(x) && Distinct(y) && x != [] && y != [] && IsLeader(x, y, l)
    requires !IsLeader(x, y, c) && ((c in x && c !in y) || (c in y && c !in x))
    ensures Before(ScoreKey(k, [x, y]), l, c)
  {
    TwoBranches(k, x, y, l);
    TwoBranches(k, x, y, c);
    ContributionNotNegative(k, x, l);
    ContributionNotNegative(k, y, l);
    if l == x[0] { ContributionAt(k, x, 0); } else { ContributionAt(k, y, 0); }
    var r := LoneRank(k, x, y, c);
    AbsentContributesZero(k, x, c);
    AbsentContributesZero(k, y, c);
    var b := if c in x then x else y;
    var i :| 0 <= i < |b| && b[i] == c;
    ContributionAt(k, b, i);
    RecipFalls(k, 1, i + 1);
  }

  /** Exactly when the first fused id leads a branch, as the harness asserts. */
  lemma FirstIsLeaderExactly(k: nat, x: Branch, y: Branch, topK: nat, r: seq<int>)
    requires Distinct(x) && Distinct(y) && x != [] && y != [] && topK >= 1
    requires IsTop(ScoreKey(k, [x, y]), Union([x, y]), topK, r)
    ensures r != [] && (IsLeader(x, y, r[0]) <==> LeaderBeatsShared(k, x, y))
  {
    hide ScoreKey, IsTop, Outranks;
    var all, key := Union([x, y]), ScoreKey(k, [x, y]);
    TwoBranches(k, x, y, 0);
    assert x[0] in all;
    FirstBeatsAll(key, all, topK, r);
    if IsLeader(x, y, r[0]) {
      forall c | c in x && c in y && !IsLeader(x, y, c)
        ensures Outranks(k, x, y, r[0], c)
      {
        OrderByRanks(k, x, y, r[0], c);
      }
    } else if LeaderBeatsShared(k, x, y) {
      var l :| IsLeader(x, y, l) && forall c :: c in x && c in y && !IsLeader(x, y, c) ==> Outranks(k, x, y, l, c);
      assert l in all && r[0] in all;
      OrderByRanks(k, x, y, l, r[0]);
      if !(r[0] in x && r[0] in y) { LeaderBeatsLone(k, x, y, l, r[0]); }
    }
  }

  predicate SharesNothing(x: Branch, y: Branch) { forall id :: id in x ==> id !in y }

  /** A leader that both branches hold outranks every other id that both hold. */
  ghost predicate SharedLeaderWins(k: nat, x: Branch, y: Branch)
    requires x != [] && y != []
  {
    exists l :: IsLeader(x, y, l) && l in x && l in y
      && forall c :: c in x && c in y && !IsLeader(x, y, c) ==> Outranks(k, x, y, l, c)
  }

  /**
   Within the length for which consensus holds, the first id leads exactly when the branches share nothing or a
   shared leader wins.
   */
  lemma FirstLeadsExactly(k: nat, x: Branch, y: Branch, topK: nat, r: seq<int>)
    requires Distinct(x) && Distinct(y) && x != [] && y != [] && topK >= 1 && |x| <= k + 1 && |y| <= k + 1
    requires IsTop(ScoreKey(k, [x, y]), Union([x, y]), topK, r)
    ensures r != [] && (IsLeader(x, y, r[0]) <==> SharesNothing(x, y) || SharedLeaderWins(k, x, y))
  {
    FirstIsLeaderExactly(k, x, y, topK, r);
    if SharesNothing(x, y) {
      DisjointBranchesKeepLeader(k, x, y, topK, r);
    } else {
      FirstIsShared(k, x, y, topK, r);
      if IsLeader(x, y, r[0]) {
        hide ScoreKey, IsTop, Outranks;
        TwoBranches(k, x, y, 0);
        FirstBeatsAll(ScoreKey(k, [x, y]), Union([x, y]), topK, r);
        forall c | c in x && c in y && !IsLeader(x, y, c)
          ensures Outranks(k, x, y, r[0], c)
        {
          OrderByRanks(k, x, y, r[0], c);
        }
      }
    }
  }

  /** Where the branches share an id, a shared id comes first. */
  lemma FirstIsShared(k: nat, x: Branch, y: Branch, topK: nat, r: seq<int>)
    requires Distinct(x) && Distinct(y) && topK >= 1 && |x| <= k + 1 && |y| <= k + 1 && !SharesNothing(x, y)
    requires IsTop(ScoreKey(k, [x, y]), Union([x, y]), topK, r)
    ensures r != [] && r[0] in x && r[0] in y
  {
    hide ScoreKey, IsTop, Distinct;
    var s :| s in x && s in y;
    TwoBranches(k, x, y, 0);
    assert s in Union([x, y]);
    FirstBeatsAll(ScoreKey(k, [x, y]), Union([x, y]), topK, r);
    if r[0] in x <==> r[0] !in y { SharedBeatsLone(k, x, y, s, r[0]); }
  }

  /**
   If neither leader is held by the other branch, the harness's assertion holds exactly for branches that share
   nothing.
   */
  lemma NoSharedLeader(k: nat, x: Branch, y: Branch, topK: nat, r: seq<int>)
    requires Distinct(x) && Distinct(y) && x != [] && y != [] && topK >= 1 && |x| <= k + 1 && |y| <= k + 1
    requires x[0] !in y && y[0] !in x
    requires IsTop(ScoreKey(k, [x, y]), Union([x, y]), topK, r)
    ensures r != [] && (IsLeader(x, y, r[0]) <==> SharesNothing(x, y))
  {
    FirstLeadsExactly(k, x, y, topK, r);
  }

  lemma FirstBeatsAll(key: Key, all: set<int>, topK: nat, r: seq<int>)
    requires IsTop(key, all, topK, r) && topK >= 1 && |all| > 0
    ensures r != [] && r[0] in all && forall c :: c in all && c != r[0] ==> Before(key, r[0], c)
  {
    assert r[0] in Elements(r);
    forall c | c in all && c != r[0]
      ensures Before(key, r[0], c)
    {
      if c in r {
        var j :| 0 <= j < |r| && r[j] == c;
        assert Before(key, r[0], r[j]);
      }
    }
  }

  /** Branches that share no id keep a leader in front. */
  lemma DisjointBranchesKeepLeader(k: nat, x: Branch, y: Branch, topK: nat, r: seq<int>)
    requires Distinct(x) && Distinct(y) && x != [] && y != [] && topK >= 1
    requires forall id :: id in x ==> id !in y
    requires IsTop(ScoreKey(k, [x, y]), Union([x, y]), topK, r)
    ensures r != [] && IsLeader(x, y, r[0])
  {
    assert IsLeader(x, y, x[0]);
    assert LeaderBeatsShared(k, x, y);
    FirstIsLeaderExactly(k, x, y, topK, r);
  }

  /** A shared runner-up can pass both leaders: 1 and 2 lead, 3 is second in both branches. */
  lemma SharedRunnerUpPassesLeaders(topK: nat, r: seq<int>)
    requires topK >= 1 && IsTop(ScoreKey(RRF_K, [[1, 3], [2, 3]]), Union([[1, 3], [2, 3]]), topK, r)
    ensures r != [] && r[0] == 3
  {
    hide ScoreKey, Union, IsTop, Distinct;
    var x, y := [1, 3], [2, 3];
    assert Distinct(x) && Distinct(y) by { WitnessDistinct(); }
    SharedBeatsLone(RRF_K, x, y, 3, 1);
    SharedBeatsLone(RRF_K, x, y, 3, 2);
    assert Union([x, y]) == {1, 2, 3} by {
      TwoBranches(RRF_K, x, y, 0);
      assert Elements(x) == {1, 3} && Elements(y) == {2, 3};
    }
    ThirdIsFirst(ScoreKey(RRF_K, [x, y]), topK, r);
  }

  lemma WitnessDistinct()
    ensures Distinct([1, 3]) && Distinct([2, 3])
  {
  }

  lemma SharedBeatsLone(k: nat, x: Branch, y: Branch, shared: int, lone: int)
    requires Distinct(x) && Distinct(y) && |x| <= k + 1 && |y| <= k + 1
    requires shared in x && shared in y && (lone in x <==> lone !in y)
    ensures Before(ScoreKey(k, [x, y]), shared, lone)
  {
    hide ScoreKey, Before, Distinct;
    ConsensusHolds(k, x, y);
  }

  lemma ThirdIsFirst(key: Key, topK: nat, r: seq<int>)
    requires topK >= 1 && IsTop(key, {1, 2, 3}, topK, r) && Before(key, 3, 1) && Before(key, 3, 2)
    ensures r != [] && r[0] == 3
  {
    hide IsTop;
    FirstBeatsAll(key, {1, 2, 3}, topK, r);
  }
}

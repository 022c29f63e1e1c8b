/**
 The version store behind snapshot reads: chains of row versions, newest first, the writes a commit
 publishes into them, and the garbage collector.
 */
module VersionStore {
  import opened Text

  const TS_INF: nat := 0xFFFF_FFFF_FFFF_FFFE

  /** `oldest_active_timestamp` when no snapshot is active. */
  const NO_SNAPSHOT: nat := 0xFFFF_FFFF_FFFF_FFFF

  /** Column name to value; values are compared and never inspected. */
  type Row = map<string, string>

  /** `value` is `None` for a tombstone. */
  datatype Version = Version(begin: nat, end: nat, value: Option<Row>)

  // ----- one chain -----

  predicate VisibleAt(v: Version, ts: nat) { v.begin <= ts < v.end }

  /** `get_visible`: the first visible version decides. */
  function Visible(chain: seq<Version>, ts: nat): Option<Row> {
    if chain == [] then None
    else if VisibleAt(chain[0], ts) then chain[0].value
    else Visible(chain[1..], ts)
  }

  function AddVersion(chain: seq<Version>, v: Version): seq<Version> {
    if chain != [] && chain[0].end == TS_INF then [v, chain[0].(end := v.begin)] + chain[1..] else [v] + chain
  }

  predicate Keeps(oldest: nat, v: Version) { v.end == TS_INF || v.end > oldest }

  function Retained(chain: seq<Version>, oldest: nat): seq<Version> {
    if chain == [] then []
    else if Keeps(oldest, chain[0]) then [chain[0]] + Retained(chain[1..], oldest)
    else Retained(chain[1..], oldest)
  }

  function GcChain(chain: seq<Version>, oldest: nat): seq<Version> {
    if |chain| <= 1 then chain else Retained(chain, oldest)
  }

  /** The newest version has no end. */
  predicate ChainOk(chain: seq<Version>) { chain != [] && chain[0].begin < chain[0].end == TS_INF }

  /** Adding a version changes what is seen from its timestamp on and nothing before, whatever was published earlier. */
  lemma AddVersionReads(chain: seq<Version>, v: Version, ts: nat)
    requires ChainOk(chain) && v.begin < v.end == TS_INF && ts < TS_INF
    ensures ChainOk(AddVersion(chain, v))
    ensures Visible(AddVersion(chain, v), ts) == if ts >= v.begin then v.value else Visible(chain, ts)
  {
    var c := AddVersion(chain, v);
    assert c[1..] == [chain[0].(end := v.begin)] + chain[1..];
    assert c[1..][1..] == chain[1..];
  }

  /** Removing versions that are not visible at a timestamp does not change what is seen there. */
  lemma {:induction false} RetainedReads(chain: seq<Version>, oldest: nat, ts: nat)
    requires oldest <= ts
    ensures Visible(Retained(chain, oldest), ts) == Visible(chain, ts)
    decreases |chain|
  {
    if chain != [] {
      RetainedReads(chain[1..], oldest, ts);
      if Keeps(oldest, chain[0]) { assert Retained(chain, oldest)[1..] == Retained(chain[1..], oldest); }
    }
  }

  /** Collecting garbage changes no read at or after the oldest active snapshot. */
  lemma GcChainReads(chain: seq<Version>, oldest: nat, ts: nat)
    requires ChainOk(chain)
    ensures ChainOk(GcChain(chain, oldest))
    ensures oldest <= ts ==> Visible(GcChain(chain, oldest), ts) == Visible(chain, ts)
  {
    if |chain| > 1 {
      assert Retained(chain, oldest)[0] == chain[0];
      if oldest <= ts { RetainedReads(chain, oldest, ts); }
    }
  }

  // ----- the store -----

  datatype Write =
    | Insert(row: nat, data: Row)
    | Delete(row: nat, before: Row)
    | Update(row: nat, before: Row, after: Row)

  type Chains = map<nat, seq<Version>>

  predicate StoreOk(chains: Chains) { forall r :: r in chains ==> ChainOk(chains[r]) }

  function ReadAt(chains: Chains, row: nat, ts: nat): Option<Row> {
    if row in chains then Visible(chains[row], ts) else None
  }

  /** `read_latest` */
  function Latest(chains: Chains, row: nat): Option<Row> {
    if row in chains && chains[row] != [] then chains[row][0].value else None
  }

  function Fresh(begin: nat, value: Option<Row>): Version { Version(begin, TS_INF, value) }

  function Append(chains: Chains, row: nat, ts: nat, value: Option<Row>): Chains {
    if row in chains then chains[row := AddVersion(chains[row], Fresh(ts, value))] else chains
  }

  /** The row as it was before the first versioned write becomes the oldest version. */
  function Seeded(chains: Chains, row: nat, before: Row): Chains {
    if Latest(chains, row).None? && before != map[] then chains[row := [Fresh(1, Some(before))]] else chains
  }

  function Publish(chains: Chains, w: Write, ts: nat): Chains {
    match w
    case Insert(row, data) => chains[row := [Fresh(ts, Some(data))]]
    case Delete(row, before) => Append(Seeded(chains, row, before), row, ts, None)
    case Update(row, before, after) => Append(Seeded(chains, row, before), row, ts, Some(after))
  }

  function PublishAll(chains: Chains, ws: seq<Write>, ts: nat): Chains {
    if ws == [] then chains else Publish(PublishAll(chains, ws[..|ws| - 1], ts), ws[|ws| - 1], ts)
  }

  function Collected(chains: Chains, oldest: nat): Chains {
    map r | r in chains && !Forgotten(GcChain(chains[r], oldest), oldest) :: GcChain(chains[r], oldest)
  }

  /** A chain whose newest version is a tombstone that no snapshot can look behind. */
  predicate Forgotten(chain: seq<Version>, oldest: nat) {
    chain == [] || (chain[0].value.None? && chain[0].end < oldest)
  }

  class Store {
    var chains: Chains

    constructor ()
      ensures chains == map[] && StoreOk(chains)
    {
      chains := map[];
    }

    method InsertRow(row: nat, ts: nat, data: Row)
      modifies this
      ensures chains == old(chains)[row := [Fresh(ts, Some(data))]]
    {
      chains := chains[row := [Version(ts, TS_INF, Some(data))]];
    }

    /** `update` and `delete`; `found` is false for the `NotFound` error. */
    method AppendVersion(row: nat, ts: nat, value: Option<Row>) returns (found: bool)
      modifies this
      ensures found == (row in old(chains)) && chains == Append(old(chains), row, ts, value)
    {
      found := row in chains;
      if found {
        var chain := chains[row];
        if chain != [] && chain[0].end == TS_INF { chain := chain[0 := chain[0].(end := ts)]; }
        chain := [Version(ts, TS_INF, value)] + chain;
        assert chain == AddVersion(chains[row], Fresh(ts, value));
        chains := chains[row := chain];
      }
    }

    method Read(row: nat, ts: nat) returns (r: Option<Row>)
      ensures r == ReadAt(chains, row, ts)
    {
      if row !in chains { return None; }
      var chain := chains[row];
      for i := 0 to |chain|
        invariant Visible(chain, ts) == Visible(chain[i..], ts)
      {
        if VisibleAt(chain[i], ts) { return chain[i].value; }
      }
      r := None;
    }

    /** The loop of `finalize_commit` that publishes the writes of one table. */
    method PublishWrites(ws: seq<Write>, ts: nat)
      modifies this
      ensures chains == PublishAll(old(chains), ws, ts)
    {
      for i := 0 to |ws|
        invariant chains == PublishAll(old(chains), ws[..i], ts)
      {
        assert ws[..i + 1][..i] == ws[..i];
        hide Append;
        match ws[i] {
          case Insert(row, data) => InsertRow(row, ts, data);
          case Delete(row, before) =>
            if Latest(chains, row).None? && before != map[] { InsertRow(row, 1, before); }
            var _ := AppendVersion(row, ts, None);
          case Update(row, before, after) =>
            if Latest(chains, row).None? && before != map[] { InsertRow(row, 1, before); }
            var _ := AppendVersion(row, ts, Some(after));
        }
      }
      assert ws[..|ws|] == ws;
    }

    /** `gc`: every chain is cut, then the forgotten ones are dropped. */
    method Gc(oldest: nat)
      modifies this
      ensures chains == Collected(old(chains), oldest)
    {
      var left := chains.Keys;
      while left != {}
        invariant left <= old(chains).Keys == chains.Keys
        invariant forall r :: r in chains ==>
          chains[r] == if r in left then old(chains)[r] else GcChain(old(chains)[r], oldest)
      {
        var r :| r in left;
        chains := chains[r := GcChain(chains[r], oldest)];
        left := left - {r};
      }
      chains := map r | r in chains && !Forgotten(chains[r], oldest) :: chains[r];
    }
  }

  // ----- what a commit changes -----

  predicate Reseeds(chains: Chains, w: Write) {
    !w.Insert? && Latest(chains, w.row).None? && w.before != map[]
  }

  /**
   What the written row reads as afterwards: the new value from the commit on, and before it what the write
   leaves of the past.
   */
  function AfterWrite(chains: Chains, w: Write, ts: nat, at: nat): Option<Row> {
    match w
    case Insert(_, data) => if at >= ts then Some(data) else None
    case Delete(row, before) =>
      if Reseeds(chains, w) then (if at >= ts then None else if at >= 1 then Some(before) else None)
      else if at >= ts then None else ReadAt(chains, row, at)
    case Update(row, before, after) =>
      if Reseeds(chains, w) then (if at >= ts then Some(after) else if at >= 1 then Some(before) else None)
      else if row !in chains then None
      else if at >= ts then Some(after) else ReadAt(chains, row, at)
  }

  lemma PublishReads(chains: Chains, w: Write, ts: nat, at: nat)
    requires StoreOk(chains) && ts < TS_INF && at < TS_INF
    ensures StoreOk(Publish(chains, w, ts))
    ensures ReadAt(Publish(chains, w, ts), w.row, at) == AfterWrite(chains, w, ts, at)
    ensures forall r :: r != w.row ==> ReadAt(Publish(chains, w, ts), r, at) == ReadAt(chains, r, at)
  {
    match w
    case Insert(row, data) => FreshReads(ts, Some(data), at);
    case Delete(row, before) =>
      SeededReads(chains, row, before, at);
      AppendReads(Seeded(chains, row, before), row, ts, None, at);
    case Update(row, before, after) =>
      SeededReads(chains, row, before, at);
      AppendReads(Seeded(chains, row, before), row, ts, Some(after), at);
  }

  lemma FreshReads(begin: nat, value: Option<Row>, at: nat)
    requires begin < TS_INF && at < TS_INF
    ensures ChainOk([Fresh(begin, value)])
    ensures Visible([Fresh(begin, value)], at) == if at >= begin then value else None
  {
    assert [Fresh(begin, value)][1..] == [];
  }

  lemma SeededReads(chains: Chains, row: nat, before: Row, at: nat)
    requires StoreOk(chains) && at < TS_INF
    ensures StoreOk(Seeded(chains, row, before))
    ensures ReadAt(Seeded(chains, row, before), row, at) ==
      if Latest(chains, row).None? && before != map[] then (if at >= 1 then Some(before) else None)
      else ReadAt(chains, row, at)
    ensures forall r :: r != row ==> ReadAt(Seeded(chains, row, before), r, at) == ReadAt(chains, r, at)
  {
    FreshReads(1, Some(before), at);
    hide Visible, ChainOk;
  }

  lemma AppendReads(chains: Chains, row: nat, ts: nat, value: Option<Row>, at: nat)
    requires StoreOk(chains) && ts < TS_INF && at < TS_INF
    ensures
      var c := Append(chains, row, ts, value);
      && StoreOk(c)
      && ReadAt(c, row, at) == (if row in chains && at >= ts then value else ReadAt(chains, row, at))
      && forall r :: r != row ==> ReadAt(c, r, at) == ReadAt(chains, r, at)
  {
    if row in chains {
      AddVersionReads(chains[row], Fresh(ts, value), at);
      hide Visible;
    }
  }

  /** The snapshot already reads the row as the write will leave its past. */
  predicate PastFits(chains: Chains, w: Write, at: nat) {
    if w.Insert? then ReadAt(chains, w.row, at) == None
    else if Reseeds(chains, w) then ReadAt(chains, w.row, at) == if at >= 1 then Some(w.before) else None
    else true
  }

  /** A write changes nothing for a snapshot taken before its commit exactly when its past fits. */
  lemma SnapshotStableExactly(chains: Chains, w: Write, ts: nat, at: nat)
    requires StoreOk(chains) && at < ts < TS_INF
    ensures (forall r :: ReadAt(Publish(chains, w, ts), r, at) == ReadAt(chains, r, at)) <==> PastFits(chains, w, at)
  {
    PublishReads(chains, w, ts, at);
    hide Publish, Visible, StoreOk;
    assert AfterWrite(chains, w, ts, at) == ReadAt(chains, w.row, at) <==> PastFits(chains, w, at);
  }

  // ----- clocks -----

  /** `create_rw_snapshot` takes the next timestamp; `create_snapshot` only looks at it. */
  function ClockAfterSnapshot(clock: nat, readOnly: bool): nat { if readOnly then clock else clock + 1 }

  /**
   An update by a commit that takes its timestamp `between` timestamps after a snapshot was created stays
   invisible to the snapshot exactly when the snapshot is read-write, or another timestamp was taken in
   between, or nothing changes. A read-only snapshot thus sees the commit that comes right after it.
   */
  lemma UpdateInvisibleExactly(chains: Chains, row: nat, before: Row, after: Row, clock: nat, readOnly: bool,
      between: nat)
    requires StoreOk(chains) && Latest(chains, row).Some?
    requires ClockAfterSnapshot(clock, readOnly) + between < TS_INF
    ensures
      var ts := ClockAfterSnapshot(clock, readOnly) + between;
      ReadAt(Publish(chains, Update(row, before, after), ts), row, clock) == ReadAt(chains, row, clock)
      <==> !readOnly || between > 0 || ReadAt(chains, row, clock) == Some(after)
  {
    PublishReads(chains, Update(row, before, after), ClockAfterSnapshot(clock, readOnly) + between, clock);
  }

  // ----- garbage collection -----

  /** Collecting garbage changes no read of an active or future snapshot. */
  lemma GcInvisible(chains: Chains, oldest: nat, row: nat, at: nat)
    requires StoreOk(chains) && oldest <= at < TS_INF
    ensures StoreOk(Collected(chains, oldest))
    ensures ReadAt(Collected(chains, oldest), row, at) == ReadAt(chains, row, at)
  {
    CollectedOk(chains, oldest, at);
    if row in chains {
      GcChainReads(chains[row], oldest, at);
    }
  }

  lemma CollectedOk(chains: Chains, oldest: nat, at: nat)
    requires StoreOk(chains)
    ensures StoreOk(Collected(chains, oldest))
  {
    forall r | r in Collected(chains, oldest)
      ensures ChainOk(Collected(chains, oldest)[r])
    {
      GcChainReads(chains[r], oldest, at);
    }
  }

  /**
   With no snapshot active, collecting garbage changes no read at or after the last commit, although deleted
   rows are forgotten.
   */
  lemma GcInvisibleWhenIdle(chains: Chains, row: nat, at: nat)
    requires StoreOk(chains) && at < TS_INF && (row in chains ==> chains[row][0].begin <= at)
    ensures ReadAt(Collected(chains, NO_SNAPSHOT), row, at) == ReadAt(chains, row, at)
  {
    if row in chains {
      var chain := chains[row];
      GcChainReads(chain, NO_SNAPSHOT, at);
      var c := GcChain(chain, NO_SNAPSHOT);
      assert c[0] == chain[0];
      assert VisibleAt(chain[0], at);
    }
  }

  /** Some snapshot that is active or still to come, with a timestamp from `oldest` on, sees the version. */
  ghost predicate SeenLater(v: Version, oldest: nat) { exists at :: oldest <= at && VisibleAt(v, at) }

  /**
   A chain of two versions or more keeps exactly those that have no end or that a snapshot from `oldest` on may
   see: everything else is removed. A lone version stays.
   */
  lemma {:induction false} GcKeepsExactly(chain: seq<Version>, oldest: nat, v: Version)
    requires forall i :: 0 <= i < |chain| ==> chain[i].begin < chain[i].end
    ensures |chain| >= 2 ==>
      (v in GcChain(chain, oldest) <==> v in chain && (v.end == TS_INF || SeenLater(v, oldest)))
    ensures |chain| == 1 ==> GcChain(chain, oldest) == chain
  {
    if |chain| >= 2 {
      RetainedHas(chain, oldest, v);
      if v in chain { KeptIsSeen(v, oldest); }
    }
  }

  lemma KeptIsSeen(v: Version, oldest: nat)
    requires v.begin < v.end
    ensures Keeps(oldest, v) <==> v.end == TS_INF || SeenLater(v, oldest)
  {
    if v.end > oldest { assert VisibleAt(v, if v.begin < oldest then oldest else v.begin); }
  }

  lemma {:induction false} RetainedHas(chain: seq<Version>, oldest: nat, v: Version)
    ensures v in Retained(chain, oldest) <==> v in chain && Keeps(oldest, v)
    decreases |chain|
  {
    if chain != [] {
      RetainedHas(chain[1..], oldest, v);
      assert chain == [chain[0]] + chain[1..];
    }
  }

  /** A sweep forgets a row exactly when its newest version is a tombstone and no snapshot is active. */
  lemma RowForgottenExactly(chains: Chains, oldest: nat, row: nat)
    requires StoreOk(chains) && row in chains
    ensures row !in Collected(chains, oldest) <==> Latest(chains, row).None? && oldest > TS_INF
  {
    GcChainReads(chains[row], oldest, 0);
    assert GcChain(chains[row], oldest)[0] == chains[row][0];
  }

  // ----- publication in any order -----

  /** A value published with its commit timestamp; commits may publish in any order. */
  datatype Publication = Publication(ts: nat, value: Option<Row>)

  function AppendAll(chain: seq<Version>, ps: seq<Publication>): seq<Version> {
    if ps == [] then chain
    else AddVersion(AppendAll(chain, ps[..|ps| - 1]), Fresh(ps[|ps| - 1].ts, ps[|ps| - 1].value))
  }

  /** The publication that came last among those at or below a timestamp. */
  function LastIndex(ps: seq<Publication>, at: nat): Option<nat> {
    if ps == [] then None
    else if ps[|ps| - 1].ts <= at then Some(|ps| - 1)
    else LastIndex(ps[..|ps| - 1], at)
  }

  lemma {:induction false} LastIndexIs(ps: seq<Publication>, at: nat)
    ensures LastIndex(ps, at).Some? ==> LastIndex(ps, at).value < |ps| && ps[LastIndex(ps, at).value].ts <= at
    ensures forall j :: 0 <= j < |ps| && ps[j].ts <= at ==> LastIndex(ps, at).Some? && j <= LastIndex(ps, at).value
    decreases |ps|
  {
    if ps != [] { LastIndexIs(ps[..|ps| - 1], at); }
  }

  /** A read finds what was published last, which need not be what was committed last. */
  lemma {:induction false} LastPublishedWins(chain: seq<Version>, ps: seq<Publication>, at: nat)
    requires ChainOk(chain) && at < TS_INF && forall i :: 0 <= i < |ps| ==> ps[i].ts < TS_INF
    ensures ChainOk(AppendAll(chain, ps))
    ensures
      var i := LastIndex(ps, at);
      && (i.Some? ==> i.value < |ps| && Visible(AppendAll(chain, ps), at) == ps[i.value].value)
      && (i.None? ==> Visible(AppendAll(chain, ps), at) == Visible(chain, at))
    decreases |ps|
  {
    if ps != [] {
      var rest, p := ps[..|ps| - 1], ps[|ps| - 1];
      LastPublishedWins(chain, rest, at);
      AddVersionReads(AppendAll(chain, rest), Fresh(p.ts, p.value), at);
      hide Visible, AddVersion;
    }
  }

  predicate IsNewest(ps: seq<Publication>, at: nat, i: nat) {
    i < |ps| && ps[i].ts <= at && forall j :: 0 <= j < |ps| && ps[j].ts <= at ==> ps[j].ts <= ps[i].ts
  }

  predicate Ascending(ps: seq<Publication>) { forall i, j :: 0 <= i < j < |ps| ==> ps[i].ts < ps[j].ts }

  /**
   Every snapshot finds the newest commit it may see exactly when commits publish in the order of their
   timestamps.
   */
  lemma PublicationOrderExactly(ps: seq<Publication>)
    requires forall i, j :: 0 <= i < j < |ps| ==> ps[i].ts != ps[j].ts
    ensures
      (forall at, i :: LastIndex(ps, at) == Some(i) ==> IsNewest(ps, at, i)) <==> Ascending(ps)
  {
    if Ascending(ps) {
      forall at, i | LastIndex(ps, at) == Some(i)
        ensures IsNewest(ps, at, i)
      {
        LastIndexIs(ps, at);
      }
    } else {
      var i, j :| 0 <= i < j < |ps| && ps[i].ts > ps[j].ts;
      var at := ps[i].ts;
      LastIndexIs(ps, at);
      var last := LastIndex(ps, at).value;
      assert j <= last && ps[last].ts != ps[i].ts;
      assert !IsNewest(ps, at, last);
    }
  }
}

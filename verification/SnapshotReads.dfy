/**
 What a transaction reads. A `SELECT` inside a transaction walks the rows that base storage holds now,
 lets the version chain of a row hide it or replace columns of it, and takes everything else from
 storage as it is. A commit first changes storage, then takes its timestamp, then publishes versions.
 This module says exactly which of these steps change what an earlier snapshot reads.
 */
module SnapshotReads {
  import opened Text
  import opened VersionStore

  datatype Db = Db(storage: map<nat, Row>, chains: Chains)

  /** The columns of the stored row, with the version's value where it has one. */
  function Merged(stored: Row, v: Row): Row { map c | c in stored :: if c in v then v[c] else stored[c] }

  /** `exists_in_vs`, the engine's test for a row with version history. */
  predicate Versioned(chains: Chains, row: nat) {
    && row in chains
    && (ReadAt(chains, row, TS_INF - 1).Some? || Latest(chains, row).Some?)
  }

  /** How the chain of a row changes a read: not at all, by hiding the row, or by replacing columns. */
  datatype View = Stored | Hidden | Overlaid(v: Row)

  function ViewOf(chains: Chains, row: nat, at: nat): View {
    if !Versioned(chains, row) then Stored
    else match ReadAt(chains, row, at)
      case None => Hidden
      case Some(v) => Overlaid(v)
  }

  function Show(stored: Row, view: View): Option<Row> {
    match view
    case Stored => Some(stored)
    case Hidden => None
    case Overlaid(v) => Some(Merged(stored, v))
  }

  /**
   A `SELECT` on one table: the output columns of a stored row, whether `_id` is among them, and the WHERE
   clause. Storage answers the query first; versions are consulted afterwards, by `_id`, and replace output
   columns by name.
   */
  datatype Query = Query(output: Row -> Row, withId: bool, keeps: (nat, Row) -> bool)

  /** Without `_id` in the result there is nothing to look versions up by. */
  function Seen(q: Query, chains: Chains, row: nat, at: nat): View {
    if q.withId then ViewOf(chains, row, at) else Stored
  }

  function Find<V>(m: map<nat, V>, row: nat): Option<V> { if row in m then Some(m[row]) else None }

  function Result(q: Query, row: nat, stored: Option<Row>, view: View): Option<Row> {
    if stored.None? || !q.keeps(row, stored.value) then None else Show(q.output(stored.value), view)
  }

  /** What a transaction with snapshot timestamp `at` and no writes of its own gets for the row. */
  function TxnRead(q: Query, db: Db, row: nat, at: nat): Option<Row> {
    Result(q, row, Find(db.storage, row), Seen(q, db.chains, row, at))
  }

  lemma VersionedIsLive(chains: Chains, row: nat)
    requires StoreOk(chains)
    ensures Versioned(chains, row) <==> Latest(chains, row).Some?
  {
    if row in chains {
      assert VisibleAt(chains[row][0], TS_INF - 1);
    }
  }

  // ----- when two views show the same row -----

  function Cell(stored: Row, view: View, c: string): string
    requires c in stored
  {
    if view.Overlaid? && c in view.v then view.v[c] else stored[c]
  }

  predicate SameColumns(a: Row, view: View, b: Row, view': View) {
    a.Keys == b.Keys && forall c :: c in a && c in b ==> Cell(a, view, c) == Cell(b, view', c)
  }

  lemma ShownColumns(stored: Row, view: View)
    requires !view.Hidden?
    ensures Show(stored, view).Some? && Show(stored, view).value.Keys == stored.Keys
    ensures forall c :: c in stored ==> Show(stored, view).value[c] == Cell(stored, view, c)
  {
  }

  lemma SameShown(a: Row, view: View, b: Row, view': View)
    requires !view.Hidden? && !view'.Hidden?
    ensures Show(a, view) == Show(b, view') <==> SameColumns(a, view, b, view')
  {
    ShownColumns(a, view);
    ShownColumns(b, view');
    hide Cell, Show;
    var x, y := Show(a, view).value, Show(b, view').value;
    if SameColumns(a, view, b, view') {
      assert x.Keys == y.Keys;
      assert forall c :: c in x ==> x[c] == y[c];
      assert x == y;
    }
    if x == y {
      assert a.Keys == b.Keys;
      forall c | c in a && c in b
        ensures Cell(a, view, c) == Cell(b, view', c)
      {
        assert x[c] == y[c];
      }
    }
  }

  /** Storage has the row, the WHERE clause keeps it, and no version hides it. */
  predicate Shown(q: Query, row: nat, stored: Option<Row>, view: View) {
    stored.Some? && q.keeps(row, stored.value) && !view.Hidden?
  }

  predicate SameResult(q: Query, row: nat, stored: Option<Row>, view: View, stored': Option<Row>, view': View) {
    && (Shown(q, row, stored, view) <==> Shown(q, row, stored', view'))
    && (Shown(q, row, stored, view) ==> SameColumns(q.output(stored.value), view, q.output(stored'.value), view'))
  }

  lemma ResultsSame(q: Query, row: nat, stored: Option<Row>, view: View, stored': Option<Row>, view': View)
    ensures
      Result(q, row, stored, view) == Result(q, row, stored', view')
      <==> SameResult(q, row, stored, view, stored', view')
  {
    if Shown(q, row, stored, view) && Shown(q, row, stored', view') {
      SameShown(q.output(stored.value), view, q.output(stored'.value), view');
    }
    hide SameColumns;
    assert Shown(q, row, stored, view) <==> Result(q, row, stored, view).Some?;
    assert Shown(q, row, stored', view') <==> Result(q, row, stored', view').Some?;
  }

  // ----- what a step does to a read -----

  /** `apply_txn_writes`: the write in base storage, before the commit has a timestamp. */
  function Applied(storage: map<nat, Row>, w: Write): map<nat, Row> {
    match w
    case Insert(row, data) => storage[row := data]
    case Delete(row, _) => storage - {row}
    case Update(row, _, after) => if row in storage then storage[row := Merged(storage[row], after)] else storage
  }

  /** Some output column changes that the version does not hold. */
  predicate ChangesOutput(q: Query, stored: Row, stored': Row, view: View) {
    || q.output(stored).Keys != q.output(stored').Keys
    || exists c ::
         && c in q.output(stored) && c in q.output(stored') && !(view.Overlaid? && c in view.v)
         && q.output(stored)[c] != q.output(stored')[c]
  }

  /**
   The row is not hidden, and it comes or goes for the WHERE clause or changes in an output column that no
   version holds.
   */
  predicate ApplyDisturbs(q: Query, db: Db, w: Write, at: nat) {
    var row, view := w.row, Seen(q, db.chains, w.row, at);
    var stored, stored' := Find(db.storage, row), Find(Applied(db.storage, w), row);
    && !view.Hidden?
    && (|| Shown(q, row, stored, view) != Shown(q, row, stored', view)
        || (Shown(q, row, stored, view) && ChangesOutput(q, stored.value, stored'.value, view)))
  }

  lemma ApplyExactly(q: Query, db: Db, w: Write, at: nat)
    ensures
      TxnRead(q, db.(storage := Applied(db.storage, w)), w.row, at) == TxnRead(q, db, w.row, at)
      <==> !ApplyDisturbs(q, db, w, at)
  {
    hide ViewOf, Applied;
    var view := Seen(q, db.chains, w.row, at);
    var stored, stored' := Find(db.storage, w.row), Find(Applied(db.storage, w), w.row);
    ResultsSame(q, w.row, stored, view, stored', view);
    hide Result;
    if Shown(q, w.row, stored, view) && Shown(q, w.row, stored', view) {
      OutputUnchanged(q, stored.value, stored'.value, view);
    }
  }

  lemma OutputUnchanged(q: Query, stored: Row, stored': Row, view: View)
    ensures SameColumns(q.output(stored), view, q.output(stored'), view) <==> !ChangesOutput(q, stored, stored', view)
  {
  }

  /** How the chain of the written row is seen after publication. */
  function ViewAfterPublish(chains: Chains, w: Write, ts: nat, at: nat): View {
    match w
    case Insert(_, data) => if at >= ts then Overlaid(data) else Hidden
    case Delete(_, _) => Stored
    case Update(row, before, after) =>
      if !Reseeds(chains, w) && row !in chains then Stored
      else if at >= ts then Overlaid(after)
      else if Reseeds(chains, w) then (if at >= 1 then Overlaid(before) else Hidden)
      else match ReadAt(chains, row, at)
        case None => Hidden
        case Some(v) => Overlaid(v)
  }

  lemma LatestAfterPublish(chains: Chains, w: Write, ts: nat)
    ensures Latest(Publish(chains, w, ts), w.row) ==
      match w
      case Insert(_, data) => Some(data)
      case Delete(_, _) => None
      case Update(row, _, after) => if Reseeds(chains, w) || row in chains then Some(after) else None
  {
  }

  lemma PublishView(chains: Chains, w: Write, ts: nat, at: nat)
    requires StoreOk(chains) && ts < TS_INF && at < TS_INF
    ensures StoreOk(Publish(chains, w, ts))
    ensures ViewOf(Publish(chains, w, ts), w.row, at) == ViewAfterPublish(chains, w, ts, at)
    ensures forall r :: r != w.row ==> ViewOf(Publish(chains, w, ts), r, at) == ViewOf(chains, r, at)
  {
    PublishReads(chains, w, ts, at);
    PublishOthers(chains, w, ts);
    LatestAfterPublish(chains, w, ts);
    VersionedIsLive(Publish(chains, w, ts), w.row);
    hide Publish, Versioned, Visible, StoreOk, Latest;
  }

  lemma PublishOthers(chains: Chains, w: Write, ts: nat)
    requires StoreOk(chains)
    ensures forall r :: r != w.row ==> Versioned(Publish(chains, w, ts), r) == Versioned(chains, r)
  {
  }

  /** The result holds `_id` and the row, and the chain then hides or shows other columns. */
  predicate PublishDisturbs(q: Query, db: Db, w: Write, ts: nat, at: nat) {
    && q.withId && w.row in db.storage && q.keeps(w.row, db.storage[w.row])
    && var view, view' := ViewOf(db.chains, w.row, at), ViewAfterPublish(db.chains, w, ts, at);
       || view.Hidden? != view'.Hidden?
       || (!view.Hidden? && ShowsOther(q.output(db.storage[w.row]), view, view'))
  }

  predicate ShowsOther(out: Row, view: View, view': View) {
    exists c :: c in out && Cell(out, view, c) != Cell(out, view', c)
  }

  lemma ViewChange(q: Query, row: nat, stored: Option<Row>, view: View, view': View)
    ensures
      Result(q, row, stored, view) == Result(q, row, stored, view')
      <==> !(&& stored.Some? && q.keeps(row, stored.value)
             && (view.Hidden? != view'.Hidden? || (!view.Hidden? && ShowsOther(q.output(stored.value), view, view'))))
  {
    ResultsSame(q, row, stored, view, stored, view');
    hide Result;
  }

  lemma PublishExactly(q: Query, db: Db, w: Write, ts: nat, at: nat)
    requires StoreOk(db.chains) && ts < TS_INF && at < TS_INF
    ensures
      TxnRead(q, db.(chains := Publish(db.chains, w, ts)), w.row, at) == TxnRead(q, db, w.row, at)
      <==> !PublishDisturbs(q, db, w, ts, at)
  {
    PublishView(db.chains, w, ts, at);
    hide ViewOf, Publish, ViewAfterPublish;
    ViewChange(q, w.row, Find(db.storage, w.row), ViewOf(db.chains, w.row, at), ViewAfterPublish(db.chains, w, ts, at));
    hide Result;
  }

  /** After a sweep the first version that was kept and is visible decides. */
  function ViewAfterSweep(chains: Chains, row: nat, oldest: nat, at: nat): View {
    if !Versioned(chains, row) then Stored
    else match Visible(GcChain(chains[row], oldest), at)
      case None => Hidden
      case Some(v) => Overlaid(v)
  }

  lemma SweepView(chains: Chains, oldest: nat, row: nat, at: nat)
    requires StoreOk(chains)
    ensures StoreOk(Collected(chains, oldest))
    ensures ViewOf(Collected(chains, oldest), row, at) == ViewAfterSweep(chains, row, oldest, at)
    ensures oldest <= at ==> ViewAfterSweep(chains, row, oldest, at) == ViewOf(chains, row, at)
  {
    CollectedOk(chains, oldest, at);
    VersionedIsLive(chains, row);
    VersionedIsLive(Collected(chains, oldest), row);
    if row in chains {
      GcChainReads(chains[row], oldest, at);
      HeadKept(chains[row], oldest);
    }
    hide Versioned, Visible, GcChain, StoreOk, ChainOk;
  }

  lemma HeadKept(chain: seq<Version>, oldest: nat)
    requires ChainOk(chain)
    ensures GcChain(chain, oldest) != [] && GcChain(chain, oldest)[0] == chain[0]
  {
  }

  predicate SweepDisturbs(q: Query, db: Db, oldest: nat, row: nat, at: nat) {
    && q.withId && row in db.storage && q.keeps(row, db.storage[row])
    && var view, view' := ViewOf(db.chains, row, at), ViewAfterSweep(db.chains, row, oldest, at);
       || view.Hidden? != view'.Hidden?
       || (!view.Hidden? && ShowsOther(q.output(db.storage[row]), view, view'))
  }

  /**
   A sweep changes a read exactly when the first version kept and visible shows otherwise, and never at or
   above `oldest`.
   */
  lemma SweepExactly(q: Query, db: Db, oldest: nat, row: nat, at: nat)
    requires StoreOk(db.chains)
    ensures
      TxnRead(q, db.(chains := Collected(db.chains, oldest)), row, at) == TxnRead(q, db, row, at)
      <==> !SweepDisturbs(q, db, oldest, row, at)
    ensures oldest <= at ==> !SweepDisturbs(q, db, oldest, row, at)
  {
    SweepView(db.chains, oldest, row, at);
    hide ViewOf, Collected, ViewAfterSweep;
    ViewChange(q, row, Find(db.storage, row), ViewOf(db.chains, row, at), ViewAfterSweep(db.chains, row, oldest, at));
    hide Result;
  }

  // ----- sweeping chains that were published in order -----

  /** Older versions end where newer ones begin, or before. */
  predicate InOrder(chain: seq<Version>) { forall i, j :: 0 <= i < j < |chain| ==> chain[j].end <= chain[i].begin }

  function SeenVersion(chain: seq<Version>, at: nat): Option<Version> {
    if chain == [] then None
    else if VisibleAt(chain[0], at) then Some(chain[0])
    else SeenVersion(chain[1..], at)
  }

  lemma {:induction false} SeenDecides(chain: seq<Version>, at: nat)
    ensures SeenVersion(chain, at).None? ==> Visible(chain, at) == None
    ensures SeenVersion(chain, at).Some? ==> Visible(chain, at) == SeenVersion(chain, at).value.value
    decreases |chain|
  {
    if chain != [] && !VisibleAt(chain[0], at) { SeenDecides(chain[1..], at); }
  }

  lemma {:induction false} NothingBelow(chain: seq<Version>, oldest: nat, at: nat)
    requires forall i :: 0 <= i < |chain| ==> chain[i].end <= at
    ensures Visible(Retained(chain, oldest), at) == None
    decreases |chain|
  {
    if chain != [] {
      NothingBelow(chain[1..], oldest, at);
      if Keeps(oldest, chain[0]) { assert Retained(chain, oldest)[1..] == Retained(chain[1..], oldest); }
    }
  }

  /** In an ordered chain a read survives a sweep unless the version it sees is dropped, and then it sees nothing. */
  lemma {:induction false} OrderedRetained(chain: seq<Version>, oldest: nat, at: nat)
    requires InOrder(chain)
    ensures
      var seen := SeenVersion(chain, at);
      Visible(Retained(chain, oldest), at) ==
        if seen.Some? && !Keeps(oldest, seen.value) then None else Visible(chain, at)
    decreases |chain|
  {
    if chain != [] {
      var rest := chain[1..];
      assert forall i :: 0 <= i < |rest| ==> rest[i] == chain[i + 1];
      assert InOrder(rest);
      OrderedRetained(rest, oldest, at);
      if Keeps(oldest, chain[0]) { assert Retained(chain, oldest)[1..] == Retained(rest, oldest); }
      if VisibleAt(chain[0], at) { NothingBelow(rest, oldest, at); }
    }
  }

  /** For a chain published in order: a sweep changes the read exactly when a version that shows the row is dropped. */
  lemma OrderedSweepExactly(q: Query, db: Db, oldest: nat, row: nat, at: nat)
    requires StoreOk(db.chains) && Versioned(db.chains, row) && InOrder(db.chains[row])
    ensures
      var seen := SeenVersion(db.chains[row], at);
      TxnRead(q, db.(chains := Collected(db.chains, oldest)), row, at) == TxnRead(q, db, row, at)
      <==> !(&& q.withId && row in db.storage && q.keeps(row, db.storage[row])
             && seen.Some? && seen.value.value.Some? && !Keeps(oldest, seen.value))
  {
    SweepExactly(q, db, oldest, row, at);
    var chain := db.chains[row];
    OrderedRetained(chain, oldest, at);
    SeenDecides(chain, at);
    OneVersion(chain, oldest, at);
    hide TxnRead, Collected, Visible, SeenVersion, Retained, InOrder, Versioned;
    assert ViewOf(db.chains, row, at) == match Visible(chain, at) case None => Hidden case Some(v) => Overlaid(v);
  }

  lemma OneVersion(chain: seq<Version>, oldest: nat, at: nat)
    requires ChainOk(chain)
    ensures |chain| == 1 ==> Retained(chain, oldest) == chain
  {
    if |chain| == 1 { assert Retained(chain[1..], oldest) == []; }
  }

  // ----- a commit that nobody interrupts -----

  function AppliedAll(storage: map<nat, Row>, ws: seq<Write>): map<nat, Row> {
    if ws == [] then storage else Applied(AppliedAll(storage, ws[..|ws| - 1]), ws[|ws| - 1])
  }

  predicate DistinctRows(ws: seq<Write>) { forall i, j :: 0 <= i < j < |ws| ==> ws[i].row != ws[j].row }

  lemma OtherRows(storage: map<nat, Row>, chains: Chains, w: Write, ts: nat, row: nat)
    requires w.row != row
    ensures Find(Applied(storage, w), row) == Find(storage, row)
    ensures Find(Publish(chains, w, ts), row) == Find(chains, row)
  {
  }

  lemma {:induction false} RowUntouched(storage: map<nat, Row>, chains: Chains, ws: seq<Write>, ts: nat, row: nat)
    requires forall i :: 0 <= i < |ws| ==> ws[i].row != row
    ensures Find(AppliedAll(storage, ws), row) == Find(storage, row)
    ensures Find(PublishAll(chains, ws, ts), row) == Find(chains, row)
    decreases |ws|
  {
    hide Applied, Publish, Find;
    if ws != [] {
      var rest, w := ws[..|ws| - 1], ws[|ws| - 1];
      RowUntouched(storage, chains, rest, ts, row);
      OtherRows(AppliedAll(storage, rest), PublishAll(chains, rest, ts), w, ts, row);
    }
  }

  lemma SameRow(storage: map<nat, Row>, storage': map<nat, Row>, chains: Chains, chains': Chains, w: Write, ts: nat)
    requires Find(storage, w.row) == Find(storage', w.row) && Find(chains, w.row) == Find(chains', w.row)
    ensures Find(Applied(storage, w), w.row) == Find(Applied(storage', w), w.row)
    ensures Find(Publish(chains, w, ts), w.row) == Find(Publish(chains', w, ts), w.row)
  {
  }

  /** Where every row is written once, the commit does to a row what its one write does. */
  lemma {:induction false} RowTouchedOnce(storage: map<nat, Row>, chains: Chains, ws: seq<Write>, ts: nat, i: nat)
    requires DistinctRows(ws) && i < |ws|
    ensures Find(AppliedAll(storage, ws), ws[i].row) == Find(Applied(storage, ws[i]), ws[i].row)
    ensures Find(PublishAll(chains, ws, ts), ws[i].row) == Find(Publish(chains, ws[i], ts), ws[i].row)
    decreases |ws|
  {
    hide Applied, Publish, Find;
    var rest, w := ws[..|ws| - 1], ws[|ws| - 1];
    if i == |ws| - 1 {
      RowUntouched(storage, chains, rest, ts, w.row);
      SameRow(AppliedAll(storage, rest), storage, PublishAll(chains, rest, ts), chains, w, ts);
    } else {
      RowTouchedOnce(storage, chains, rest, ts, i);
      OtherRows(AppliedAll(storage, rest), PublishAll(chains, rest, ts), w, ts, ws[i].row);
    }
  }

  /** A read depends on the row's own storage and chain. */
  lemma ReadByRow(q: Query, db: Db, db': Db, row: nat, at: nat)
    requires Find(db.storage, row) == Find(db'.storage, row) && Find(db.chains, row) == Find(db'.chains, row)
    ensures TxnRead(q, db, row, at) == TxnRead(q, db', row, at)
  {
  }

  function Committed(db: Db, ws: seq<Write>, ts: nat): Db {
    Db(AppliedAll(db.storage, ws), PublishAll(db.chains, ws, ts))
  }

  /**
   The write leaves the past of its row alone: the WHERE clause keeps or drops the row as before, a version hides
   it as before, and the output columns, with what the versions replace in them, are the same.
   */
  predicate KeepsPast(q: Query, db: Db, w: Write, ts: nat, at: nat) {
    var view := Seen(q, db.chains, w.row, at);
    var view' := if q.withId then ViewAfterPublish(db.chains, w, ts, at) else Stored;
    SameResult(q, w.row, Find(db.storage, w.row), view, Find(Applied(db.storage, w), w.row), view')
  }

  lemma WriteExactly(q: Query, db: Db, w: Write, ts: nat, at: nat)
    requires StoreOk(db.chains) && ts < TS_INF && at < TS_INF
    ensures
      TxnRead(q, Db(Applied(db.storage, w), Publish(db.chains, w, ts)), w.row, at) == TxnRead(q, db, w.row, at)
      <==> KeepsPast(q, db, w, ts, at)
  {
    PublishView(db.chains, w, ts, at);
    hide Publish, ViewOf, ViewAfterPublish, Applied;
    var view' := if q.withId then ViewAfterPublish(db.chains, w, ts, at) else Stored;
    var view := Seen(q, db.chains, w.row, at);
    ResultsSame(q, w.row, Find(db.storage, w.row), view, Find(Applied(db.storage, w), w.row), view');
    hide Result, SameResult;
  }

  /**
   An uninterrupted commit changes nothing that an earlier snapshot reads exactly when each of its writes keeps
   the past.
   */
  lemma CommitExactly(q: Query, db: Db, ws: seq<Write>, ts: nat, at: nat)
    requires StoreOk(db.chains) && DistinctRows(ws) && at < ts < TS_INF
    ensures
      (forall row :: TxnRead(q, Committed(db, ws, ts), row, at) == TxnRead(q, db, row, at))
      <==> forall i :: 0 <= i < |ws| ==> KeepsPast(q, db, ws[i], ts, at)
  {
    forall i | 0 <= i < |ws|
      ensures
        TxnRead(q, Committed(db, ws, ts), ws[i].row, at) == TxnRead(q, db, ws[i].row, at)
        <==> KeepsPast(q, db, ws[i], ts, at)
    {
      var w := ws[i];
      RowTouchedOnce(db.storage, db.chains, ws, ts, i);
      hide TxnRead, KeepsPast;
      ReadByRow(q, Committed(db, ws, ts), Db(Applied(db.storage, w), Publish(db.chains, w, ts)), w.row, at);
      WriteExactly(q, db, w, ts, at);
    }
    forall row | forall i :: 0 <= i < |ws| ==> ws[i].row != row
      ensures TxnRead(q, Committed(db, ws, ts), row, at) == TxnRead(q, db, row, at)
    {
      RowUntouched(db.storage, db.chains, ws, ts, row);
      hide TxnRead;
      ReadByRow(q, Committed(db, ws, ts), db, row, at);
    }
  }

  // ----- queries that name columns -----

  /** `SELECT` of the columns that `shows` names, as they are stored. */
  function Select(shows: string -> bool, withId: bool, keeps: (nat, Row) -> bool): Query {
    Query(r => map c | c in r && shows(c) :: r[c], withId, keeps)
  }

  /** `SELECT *`, which brings `_id` along. */
  function SelectAll(): Query { Select(_ => true, true, (_, _) => true) }

  /** A shown column changes. */
  predicate ChangesShown(shows: string -> bool, stored: Row, after: Row, c: string) {
    shows(c) && c in stored && c in after && after[c] != stored[c]
  }

  lemma SelectedColumns(
      shows: string -> bool, withId: bool, keeps: (nat, Row) -> bool, stored: Row, after: Row, view: View)
    ensures
      var q := Select(shows, withId, keeps);
      ChangesOutput(q, stored, Merged(stored, after), view)
      <==> exists c :: ChangesShown(shows, stored, after, c) && !(view.Overlaid? && c in view.v)
  {
    var q, stored' := Select(shows, withId, keeps), Merged(stored, after);
    assert q.output(stored).Keys == q.output(stored').Keys;
    forall c | c in q.output(stored)
      ensures q.output(stored)[c] != q.output(stored')[c] <==> ChangesShown(shows, stored, after, c)
    {
    }
    if c :| ChangesShown(shows, stored, after, c) && !(view.Overlaid? && c in view.v) {
      assert c in q.output(stored) && c in q.output(stored');
    }
  }

  /** A version that holds the whole row before an update shows it as it was. */
  lemma OldRowShown(shows: string -> bool, withId: bool, keeps: (nat, Row) -> bool, stored: Row, after: Row)
    ensures
      var q := Select(shows, withId, keeps);
      SameColumns(q.output(stored), Stored, q.output(Merged(stored, after)), Overlaid(stored))
  {
  }
}

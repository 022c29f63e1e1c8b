/**
 Whole connections of `MinimalPgClient`. A response is a list of messages that ends in its only
 ReadyForQuery (section 55.2.2 of the PostgreSQL 16 documentation). The module says exactly when a
 call consumes its own response and nothing else, and what it returns in terms of the messages.
 */
module PgSession {
  import opened PgBytes
  import opened PgWire
  import opened Strings = Text

  predicate IsResponse(ms: seq<Framed>) {
    && ms != []
    && ms[|ms| - 1].kind == KIND_READY
    && forall i :: 0 <= i < |ms| - 1 ==> ms[i].kind != KIND_READY
  }

  // ----- what a response says -----

  /** The messages before the first ErrorResponse. */
  function BeforeError(ms: seq<Framed>): seq<Framed> {
    if ms == [] || ms[0].kind == KIND_ERROR then [] else [ms[0]] + BeforeError(ms[1..])
  }

  predicate Decodes(ms: seq<Framed>) {
    forall m :: m in ms && m.kind == KIND_DATA ==> DecodeRow(m.body).Ok?
  }

  /** The rows of a response in order. */
  function RowsOf(ms: seq<Framed>): seq<Row> {
    if ms == [] then []
    else if ms[0].kind == KIND_DATA && DecodeRow(ms[0].body).Ok? then
      [DecodeRow(ms[0].body).value] + RowsOf(ms[1..])
    else RowsOf(ms[1..])
  }

  function DataCount(ms: seq<Framed>): nat {
    if ms == [] then 0 else (if ms[0].kind == KIND_DATA then 1 else 0) + DataCount(ms[1..])
  }

  /** The error of the last ErrorResponse, or the one known before. */
  function LastError(ms: seq<Framed>, known: Option<Error>): Option<Error> {
    if ms == [] then known
    else LastError(ms[1..], if ms[0].kind == KIND_ERROR then Some(ErrorOf(ms[0].body)) else known)
  }

  function QueryAnswer(ms: seq<Framed>): Result<seq<Row>> {
    match LastError(ms, None)
    case Some(e) => Err(e)
    case None => Ok(RowsOf(ms))
  }

  function StreamAnswer(ms: seq<Framed>, keep: bool): Result<Transfer> {
    match LastError(ms, None)
    case Some(e) => Err(e)
    case None => Ok(Transfer(DataCount(ms), if keep then RowsOf(ms) else []))
  }

  // ----- small facts -----

  lemma ErrorsAreWireErrors(parts: seq<bytes>, code: Option<bytes>, message: bytes)
    ensures ErrorFields(parts, code, message).PgWireError?
  {
  }

  lemma {:induction false} CellsFailOneWay(body: bytes, offset: int, count: int)
    ensures Cells(body, offset, count).Err? ==> Cells(body, offset, count) == Err(StructError)
    decreases count
  {
    if count > 0 {
      var header := PySlice(body, offset, offset + 4);
      if |header| == 4 {
        var length := UnpackI32(header);
        CellsFailOneWay(body, if length == -1 then offset + 4 else offset + 4 + length, count - 1);
      }
    }
  }

  lemma RowsFailOneWay(body: bytes)
    ensures DecodeRow(body).Err? ==> DecodeRow(body) == Err(StructError)
  {
    var header := PySlice(body, 0, 2);
    if |header| == 2 { CellsFailOneWay(body, 2, UnpackI16(header)); }
  }

  lemma FirstOf(ms: seq<Framed>, rest: bytes)
    requires IsResponse(ms)
    ensures ms != []
    ensures NextMessage(Frames(ms) + rest) == Read(Ok(ms[0]), Frames(ms[1..]) + rest)
    ensures |ms| > 1 ==> IsResponse(ms[1..]) && ms[0].kind != KIND_READY
    ensures |ms| == 1 ==> ms[0].kind == KIND_READY && Frames(ms[1..]) + rest == rest
  {
    FirstFrame(ms, rest);
    hide NextMessage, Frame;
    assert |ms| == 1 ==> ms[1..] == [] && Frames([]) + rest == rest;
  }

  lemma FirstFrame(ms: seq<Framed>, rest: bytes)
    requires ms != []
    ensures NextMessage(Frames(ms) + rest) == Read(Ok(ms[0]), Frames(ms[1..]) + rest)
  {
    hide NextMessage, Frame;
    assert Frames(ms) + rest == Frame(ms[0]) + (Frames(ms[1..]) + rest);
    ReadFrame(ms[0], Frames(ms[1..]) + rest);
  }

  lemma FramesLength(ms: seq<Framed>)
    requires IsResponse(ms)
    ensures |Frames(ms)| > 0
  {
  }

  /** An error that is known stays known. */
  lemma {:induction false} LastErrorKeeps(ms: seq<Framed>, known: Option<Error>)
    requires known.Some?
    ensures LastError(ms, known).Some?
    decreases ms
  {
    if ms != [] {
      LastErrorKeeps(ms[1..], if ms[0].kind == KIND_ERROR then Some(ErrorOf(ms[0].body)) else known);
    }
  }

  /** Without an error in the end, nothing was cut off before one. */
  lemma {:induction false} NoErrorNoCut(ms: seq<Framed>)
    requires LastError(ms, None).None?
    ensures BeforeError(ms) == ms
    decreases ms
  {
    if ms != [] {
      if ms[0].kind == KIND_ERROR { LastErrorKeeps(ms[1..], Some(ErrorOf(ms[0].body))); }
      NoErrorNoCut(ms[1..]);
      assert [ms[0]] + ms[1..] == ms;
    }
  }

  lemma DecodesTail(ms: seq<Framed>)
    requires ms != []
    ensures Decodes(ms) == ((ms[0].kind == KIND_DATA ==> DecodeRow(ms[0].body).Ok?) && Decodes(ms[1..]))
  {
    assert ms == [ms[0]] + ms[1..];
  }

  lemma BeforeErrorTail(ms: seq<Framed>)
    requires ms != [] && ms[0].kind != KIND_ERROR
    ensures Decodes(BeforeError(ms))
         == ((ms[0].kind == KIND_DATA ==> DecodeRow(ms[0].body).Ok?) && Decodes(BeforeError(ms[1..])))
  {
    DecodesTail(BeforeError(ms));
    assert BeforeError(ms)[1..] == BeforeError(ms[1..]);
  }

  // ----- `query` -----

  lemma {:induction false} QueryReads(ms: seq<Framed>, rest: bytes, rows: seq<Row>, error: Option<Error>)
    requires IsResponse(ms) && (error.Some? || Decodes(BeforeError(ms)))
    ensures QueryFrom(Frames(ms) + rest, rows, error)
         == Read(match LastError(ms, error) case Some(e) => Err(e) case None => Ok(rows + RowsOf(ms)), rest)
    decreases ms
  {
    hide IsResponse, Decodes, DecodeRow, ErrorOf, NextMessage, Frames;
    FirstOf(ms, rest);
    var m, more := ms[0], ms[1..];
    if m.kind == KIND_READY {
      ReadyIsLast(ms);
      assert rows + [] == rows;
    } else {
      ReadyIsLast(ms);
      if m.kind == KIND_DATA && error.None? {
        BeforeErrorTail(ms);
        var row := DecodeRow(m.body).value;
        QueryReads(more, rest, rows + [row], error);
        assert rows + [row] + RowsOf(more) == rows + ([row] + RowsOf(more));
      } else if m.kind == KIND_ERROR {
        QueryReads(more, rest, rows, Some(ErrorOf(m.body)));
        LastErrorKeeps(more, Some(ErrorOf(m.body)));
      } else {
        if error.None? { BeforeErrorTail(ms); } else { LastErrorKeeps(more, error); }
        QueryReads(more, rest, rows, error);
      }
    }
  }

  lemma ReadyIsLast(ms: seq<Framed>)
    requires IsResponse(ms)
    ensures ms != [] && (ms[0].kind == KIND_READY <==> |ms| == 1)
    ensures |ms| == 1 ==> ms[1..] == []
  {
  }

  /** A row that does not decode stops `query` in the middle of the response. */
  lemma {:induction false} QueryStops(ms: seq<Framed>, rest: bytes, rows: seq<Row>)
    requires IsResponse(ms) && !Decodes(BeforeError(ms))
    ensures
      var r := QueryFrom(Frames(ms) + rest, rows, None);
      r.result == Err(StructError) && |r.rest| > |rest|
    decreases ms
  {
    hide IsResponse, Decodes, DecodeRow, ErrorOf, NextMessage, Frames;
    FirstOf(ms, rest);
    ReadyIsLast(ms);
    var m, more := ms[0], ms[1..];
    NotErrorFirst(ms);
    BeforeErrorTail(ms);
    if m.kind == KIND_DATA && DecodeRow(m.body).Err? {
      RowsFailOneWay(m.body);
      FramesLength(more);
    } else {
      if |ms| == 1 { NothingToDecode(); }
      QueryStops(more, rest, if m.kind == KIND_DATA then rows + [DecodeRow(m.body).value] else rows);
    }
  }

  lemma NotErrorFirst(ms: seq<Framed>)
    requires !Decodes(BeforeError(ms))
    ensures ms != [] && ms[0].kind != KIND_ERROR
  {
  }

  lemma NothingToDecode()
    ensures Decodes(BeforeError([]))
  {
  }

  /** `query` consumes its own response and nothing else exactly when every row before the first error decodes. */
  lemma QueryAlignedExactly(ms: seq<Framed>, rest: bytes)
    requires IsResponse(ms)
    ensures QueryFrom(Frames(ms) + rest, [], None).rest == rest <==> Decodes(BeforeError(ms))
    ensures Decodes(BeforeError(ms)) ==> QueryFrom(Frames(ms) + rest, [], None).result == QueryAnswer(ms)
    ensures !Decodes(BeforeError(ms)) ==> QueryFrom(Frames(ms) + rest, [], None).result == Err(StructError)
  {
    hide QueryFrom, Frames, Decodes, IsResponse;
    if Decodes(BeforeError(ms)) {
      QueryReads(ms, rest, [], None);
      assert [] + RowsOf(ms) == RowsOf(ms);
    } else {
      QueryStops(ms, rest, []);
    }
  }

  // ----- `query_streaming` -----

  lemma {:induction false} StreamReads(ms: seq<Framed>, rest: bytes, keep: bool, count: nat, rows: seq<Row>,
                                       error: Option<Error>)
    requires IsResponse(ms) && (keep ==> Decodes(ms))
    ensures StreamFrom(Frames(ms) + rest, keep, count, rows, error)
         == Read(match LastError(ms, error)
                 case Some(e) => Err(e)
                 case None => Ok(Transfer(count + DataCount(ms), if keep then rows + RowsOf(ms) else rows)), rest)
    decreases ms
  {
    hide IsResponse, Decodes, DecodeRow, ErrorOf, NextMessage, Frames;
    FirstOf(ms, rest);
    ReadyIsLast(ms);
    DecodesTail(ms);
    var m, more := ms[0], ms[1..];
    if m.kind == KIND_READY {
      assert rows + [] == rows;
    } else if m.kind == KIND_ERROR {
      StreamReads(more, rest, keep, count, rows, Some(ErrorOf(m.body)));
    } else if m.kind == KIND_DATA {
      if keep {
        var row := DecodeRow(m.body).value;
        StreamReads(more, rest, keep, count + 1, rows + [row], error);
        assert rows + [row] + RowsOf(more) == rows + ([row] + RowsOf(more));
      } else {
        StreamReads(more, rest, keep, count + 1, rows, error);
      }
    } else {
      StreamReads(more, rest, keep, count, rows, error);
    }
  }

  lemma {:induction false} StreamStops(ms: seq<Framed>, rest: bytes, count: nat, rows: seq<Row>, error: Option<Error>)
    requires IsResponse(ms) && !Decodes(ms)
    ensures
      var r := StreamFrom(Frames(ms) + rest, true, count, rows, error);
      r.result == Err(StructError) && |r.rest| > |rest|
    decreases ms
  {
    hide IsResponse, Decodes, DecodeRow, ErrorOf, NextMessage, Frames;
    FirstOf(ms, rest);
    ReadyIsLast(ms);
    DecodesTail(ms);
    var m, more := ms[0], ms[1..];
    if m.kind == KIND_DATA && DecodeRow(m.body).Err? {
      RowsFailOneWay(m.body);
      FramesLength(more);
    } else {
      if |ms| == 1 { EmptyDecodes(); }
      if m.kind == KIND_ERROR {
        StreamStops(more, rest, count, rows, Some(ErrorOf(m.body)));
      } else if m.kind == KIND_DATA {
        StreamStops(more, rest, count + 1, rows + [DecodeRow(m.body).value], error);
      } else {
        StreamStops(more, rest, count, rows, error);
      }
    }
  }

  lemma EmptyDecodes()
    ensures Decodes([])
  {
  }

  /** `query_streaming` is aligned exactly when it keeps no rows or every row decodes, even after an error. */
  lemma StreamAlignedExactly(ms: seq<Framed>, rest: bytes, keep: bool)
    requires IsResponse(ms)
    ensures StreamFrom(Frames(ms) + rest, keep, 0, [], None).rest == rest <==> (keep ==> Decodes(ms))
    ensures (keep ==> Decodes(ms)) ==> StreamFrom(Frames(ms) + rest, keep, 0, [], None).result == StreamAnswer(ms, keep)
    ensures keep && !Decodes(ms) ==> StreamFrom(Frames(ms) + rest, keep, 0, [], None).result == Err(StructError)
  {
    hide StreamFrom, Frames, Decodes, IsResponse;
    if keep ==> Decodes(ms) {
      StreamReads(ms, rest, keep, 0, [], None);
      assert [] + RowsOf(ms) == RowsOf(ms);
    } else {
      StreamStops(ms, rest, 0, [], None);
    }
  }

  // ----- the two calls agree -----

  /** The same error, or the same rows with their number. */
  predicate SameOutcome(q: Result<seq<Row>>, t: Result<Transfer>) {
    match q
    case Err(e) => t == Err(e)
    case Ok(rows) => t == Ok(Transfer(|rows|, rows))
  }

  lemma {:induction false} CountsAgree(ms: seq<Framed>)
    requires Decodes(ms)
    ensures |RowsOf(ms)| == DataCount(ms)
    decreases ms
  {
    if ms != [] {
      DecodesTail(ms);
      CountsAgree(ms[1..]);
    }
  }

  lemma {:induction false} LastErrorIsWire(ms: seq<Framed>, known: Option<Error>)
    requires known.Some? ==> known.value.PgWireError?
    ensures LastError(ms, known).Some? ==> LastError(ms, known).value.PgWireError?
    decreases ms
  {
    if ms != [] {
      ErrorsAreWireErrors(SplitZero(ms[0].body), None, DEFAULT_MESSAGE);
      LastErrorIsWire(ms[1..], if ms[0].kind == KIND_ERROR then Some(ErrorOf(ms[0].body)) else known);
    }
  }

  /** `query` and `query_streaming(keep_rows=True)` differ only over a malformed row after an error. */
  lemma QueryAgreesWithStreaming(ms: seq<Framed>, rest: bytes)
    requires IsResponse(ms)
    ensures
      var s := Frames(ms) + rest;
      SameOutcome(QueryFrom(s, [], None).result, StreamFrom(s, true, 0, [], None).result)
      <==> (Decodes(BeforeError(ms)) ==> Decodes(ms))
  {
    hide QueryFrom, StreamFrom, Frames, Decodes, IsResponse, BeforeError;
    QueryAlignedExactly(ms, rest);
    StreamAlignedExactly(ms, rest, true);
    if Decodes(ms) { CountsAgree(ms); }
    LastErrorIsWire(ms, None);
    if LastError(ms, None).None? { NoErrorNoCut(ms); }
    PrefixDecodes(ms);
  }

  lemma {:induction false} PrefixDecodes(ms: seq<Framed>)
    ensures Decodes(ms) ==> Decodes(BeforeError(ms))
    decreases ms
  {
    if ms != [] && ms[0].kind != KIND_ERROR {
      PrefixDecodes(ms[1..]);
      DecodesTail(ms);
      BeforeErrorTail(ms);
    }
  }

  // ----- `_startup` -----

  /** The server accepts without a password and reports no error. */
  predicate Welcomes(ms: seq<Framed>) {
    forall m :: m in ms ==>
      && m.kind != KIND_ERROR
      && (m.kind == KIND_AUTH ==> |m.body| >= 4 && UnpackI32(m.body[..4]) == 0)
  }

  lemma {:induction false} StartupAlignedExactly(ms: seq<Framed>, rest: bytes)
    requires IsResponse(ms)
    ensures StartupFrom(Frames(ms) + rest).result.Ok? <==> Welcomes(ms)
    ensures Welcomes(ms) ==> StartupFrom(Frames(ms) + rest).rest == rest
    decreases ms
  {
    hide IsResponse, ErrorOf, NextMessage, Frames, UnpackI32;
    FirstOf(ms, rest);
    ReadyIsLast(ms);
    var m := ms[0];
    assert ms == [m] + ms[1..];
    assert Welcomes(ms) == (Welcomes([m]) && Welcomes(ms[1..]));
    if |m.body| >= 4 { PySliceInside(m.body, 0, 4); }
    if |ms| > 1 { StartupAlignedExactly(ms[1..], rest); }
  }

  // ----- sessions -----

  datatype Call = Simple | Streaming(keep: bool)

  datatype Reply = Rows(rows: seq<Row>) | Moved(transfer: Transfer)

  function RunCall(c: Call, s: bytes): Read<Reply> {
    match c
    case Simple =>
      var r := QueryFrom(s, [], None);
      Read(match r.result case Ok(rows) => Ok(Rows(rows)) case Err(e) => Err(e), r.rest)
    case Streaming(keep) =>
      var r := StreamFrom(s, keep, 0, [], None);
      Read(match r.result case Ok(t) => Ok(Moved(t)) case Err(e) => Err(e), r.rest)
  }

  /** The results of consecutive calls on one connection, whether they return or raise, and what is left. */
  function RunCalls(cs: seq<Call>, s: bytes): (seq<Result<Reply>>, bytes) {
    if cs == [] then ([], s)
    else
      var first := RunCall(cs[0], s);
      var (more, rest) := RunCalls(cs[1..], first.rest);
      ([first.result] + more, rest)
  }

  predicate Readable(c: Call, ms: seq<Framed>) {
    IsResponse(ms) && match c
      case Simple => Decodes(BeforeError(ms))
      case Streaming(keep) => keep ==> Decodes(ms)
  }

  /** What a call returns, in terms of its own response only. */
  function Answer(c: Call, ms: seq<Framed>): Result<Reply> {
    match c
    case Simple => (match QueryAnswer(ms) case Ok(rows) => Ok(Rows(rows)) case Err(e) => Err(e))
    case Streaming(keep) => (match StreamAnswer(ms, keep) case Ok(t) => Ok(Moved(t)) case Err(e) => Err(e))
  }

  function Answers(cs: seq<Call>, rs: seq<seq<Framed>>): (r: seq<Result<Reply>>)
    requires |cs| == |rs|
    ensures |r| == |cs| && forall k :: 0 <= k < |cs| ==> r[k] == Answer(cs[k], rs[k])
  {
    seq(|cs|, k requires 0 <= k < |cs| => Answer(cs[k], rs[k]))
  }

  function AllFrames(rs: seq<seq<Framed>>): bytes {
    if rs == [] then [] else Frames(rs[0]) + AllFrames(rs[1..])
  }

  lemma CallAlignedExactly(c: Call, ms: seq<Framed>, rest: bytes)
    requires IsResponse(ms)
    ensures RunCall(c, Frames(ms) + rest).rest == rest <==> Readable(c, ms)
    ensures Readable(c, ms) ==> RunCall(c, Frames(ms) + rest).result == Answer(c, ms)
  {
    hide QueryFrom, StreamFrom, QueryAnswer, StreamAnswer, Decodes, Frames;
    QueryAlignedExactly(ms, rest);
    match c
    case Simple =>
    case Streaming(keep) => StreamAlignedExactly(ms, rest, keep);
  }

  /** Every call consumes exactly its own response, so the k-th result is the answer to the k-th response. */
  lemma {:induction false} CallsStayAligned(cs: seq<Call>, rs: seq<seq<Framed>>, rest: bytes)
    requires |cs| == |rs| && forall k :: 0 <= k < |cs| ==> Readable(cs[k], rs[k])
    ensures RunCalls(cs, AllFrames(rs) + rest) == (Answers(cs, rs), rest)
    decreases cs
  {
    hide Readable, RunCall, Answer, Frames;
    if cs == [] {
      assert AllFrames(rs) + rest == rest;
    } else {
      ReadableIsResponse(cs[0], rs[0]);
      var after := AllFrames(rs[1..]) + rest;
      assert AllFrames(rs) + rest == Frames(rs[0]) + after;
      CallAlignedExactly(cs[0], rs[0], after);
      CallsStayAligned(cs[1..], rs[1..], rest);
      assert Answers(cs, rs) == [Answer(cs[0], rs[0])] + Answers(cs[1..], rs[1..]);
    }
  }

  lemma ReadableIsResponse(c: Call, ms: seq<Framed>)
    requires Readable(c, ms)
    ensures IsResponse(ms)
  {
  }

  /** A connection: the greeting and then any calls. */
  lemma ConnectionStaysAligned(greeting: seq<Framed>, cs: seq<Call>, rs: seq<seq<Framed>>, rest: bytes)
    requires IsResponse(greeting) && Welcomes(greeting)
    requires |cs| == |rs| && forall k :: 0 <= k < |cs| ==> Readable(cs[k], rs[k])
    ensures
      var started := StartupFrom(Frames(greeting) + (AllFrames(rs) + rest));
      && started.result.Ok?
      && RunCalls(cs, started.rest) == (Answers(cs, rs), rest)
  {
    hide StartupFrom, Frames, IsResponse, Welcomes, RunCalls, Answers, Readable;
    StartupAlignedExactly(greeting, AllFrames(rs) + rest);
    CallsStayAligned(cs, rs, rest);
  }

  /** Other responses do not reach the k-th result. */
  lemma ResultDependsOnOwnResponse(cs: seq<Call>, rs: seq<seq<Framed>>, rs': seq<seq<Framed>>,
                                   rest: bytes, rest': bytes,
                                   k: nat)
    requires |cs| == |rs| == |rs'| && k < |cs| && rs[k] == rs'[k]
    requires forall i :: 0 <= i < |cs| ==> Readable(cs[i], rs[i]) && Readable(cs[i], rs'[i])
    ensures |RunCalls(cs, AllFrames(rs) + rest).0| == |RunCalls(cs, AllFrames(rs') + rest').0| == |cs|
    ensures RunCalls(cs, AllFrames(rs) + rest).0[k] == RunCalls(cs, AllFrames(rs') + rest').0[k]
  {
    hide RunCalls, AllFrames, Readable, Answer;
    CallsStayAligned(cs, rs, rest);
    CallsStayAligned(cs, rs', rest');
  }

  /**
   A DataRow without its column count: `query` raises before ReadyForQuery, and the next query
   takes that stale message for its own, whatever its response holds.
   */
  lemma MalformedRowDesynchronizes(next: seq<Framed>, rest: bytes)
    requires IsResponse(next)
    ensures
      var bad := [Message(KIND_DATA, []), Message(KIND_READY, [73])];
      && IsResponse(bad) && !Readable(Simple, bad)
      && RunCalls([Simple, Simple], Frames(bad) + (Frames(next) + rest))
         == ([Err(StructError), Ok(Rows([]))], Frames(next) + rest)
  {
    hide QueryFrom, NextMessage, Frame, Frames, DecodeRow;
    var row, ready := Message(KIND_DATA, []), Message(KIND_READY, [73]);
    var bad, after := [row, ready], Frames(next) + rest;
    var stale := Frames([ready]) + after;
    assert bad[1..] == [ready];
    FirstFrame(bad, after);
    BadRowStops(Frames(bad) + after, stale);
    FirstFrame([ready], after);
    assert Frames([ready][1..]) + after == after by { NoFrames(); }
    ReadyReturns(stale, after);
    EmptyRowIsMalformed();
    assert BeforeError(bad)[0] == row;
    TwoCalls(Frames(bad) + after);
  }

  lemma NoFrames()
    ensures forall r: seq<Framed> :: |r| == 0 ==> Frames(r) == []
  {
  }

  lemma EmptyRowIsMalformed()
    ensures DecodeRow([]) == Err(StructError)
  {
  }

  lemma BadRowStops(s: bytes, after: bytes)
    requires NextMessage(s) == Read(Ok(Message(KIND_DATA, [])), after)
    ensures QueryFrom(s, [], None) == Read(Err(StructError), after)
  {
    EmptyRowIsMalformed();
  }

  lemma ReadyReturns(s: bytes, after: bytes)
    requires NextMessage(s) == Read(Ok(Message(KIND_READY, [73])), after)
    ensures QueryFrom(s, [], None) == Read(Ok([]), after)
  {
  }

  lemma TwoCalls(s: bytes)
    ensures
      var first := RunCall(Simple, s);
      var second := RunCall(Simple, first.rest);
      RunCalls([Simple, Simple], s) == ([first.result, second.result], second.rest)
  {
    hide RunCall;
    var cs := [Simple, Simple];
    var one := cs[1..];
    var none := one[1..];
    assert one == [Simple] && none == [];
    var first := RunCall(Simple, s);
    var second := RunCall(Simple, first.rest);
    assert RunCalls(none, second.rest) == ([], second.rest);
    assert RunCalls(one, first.rest) == ([second.result] + [], second.rest);
    assert [second.result] + [] == [second.result];
    assert RunCalls(cs, s).0 == [first.result] + RunCalls(one, first.rest).0;
    assert RunCalls(cs, s).1 == RunCalls(one, first.rest).1;
    assert [first.result] + [second.result] == [first.result, second.result];
  }
}

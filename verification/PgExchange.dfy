/**
 What the wire client does with the bytes themselves: the layout of messages and rows byte by byte, whole
 exchanges from the rows a server sends to the rows a caller gets, and streams that end too early, carry an
 impossible length or refuse the connection.
 */
module PgExchange {
  import opened PgBytes
  import opened PgWire
  import opened PgSession
  import opened Strings = Text

  // ----- layout -----

  /** A kind byte, four bytes of length that count themselves, and the body. */
  lemma MessageLayout(kind: byte, size: bytes, body: bytes, rest: bytes)
    requires |size| == 4 && size[0] < 128 && BigEndian(size) == 4 + |body|
    ensures NextMessage([kind] + size + body + rest) == Read(Ok(Message(kind, body)), rest)
  {
    NetworkOrder(size);
    MessageSlices(kind, size, body + rest);
    assert [kind] + size + body + rest == [kind] + size + (body + rest);
    assert (body + rest)[..|body|] == body && (body + rest)[|body|..] == rest;
  }

  lemma MessageSlices(kind: byte, size: bytes, more: bytes)
    requires |size| == 4
    ensures
      var s := [kind] + size + more;
      s[..1] == [kind] && s[1..][..4] == size && s[1..][4..] == more
  {
  }

  /** A length below four, or a negative one, is refused before the body is read. */
  lemma ImpossibleLength(kind: byte, size: bytes, rest: bytes)
    requires |size| == 4 && (size[0] >= 128 || BigEndian(size) < 4)
    ensures NextMessage([kind] + size + rest) == Read(Err(ValueError), rest)
  {
    NetworkOrder(size);
    BigEndianFour(size);
    MessageSlices(kind, size, rest);
  }

  /** A query travels as `Q`, its length, the text and a zero byte. */
  lemma QueryLayout(sql: bytes)
    requires |sql| + 5 <= MAX32
    ensures
      var sent := Frame(Message(KIND_QUERY, sql + [0]));
      && |sent| == |sql| + 6 && sent[0] == 81 && sent[5..] == sql + [0]
      && BigEndian(sent[1..5]) == |sql| + 5 && sent[1] < 128
  {
    var n := |sql| + 5;
    var sent := Frame(Message(KIND_QUERY, sql + [0]));
    assert sent[1..5] == PackI32(n);
    UnpackPack32(n);
    NetworkOrder(PackI32(n));
    BigEndianFour(PackI32(n));
  }

  /** Protocol 3.0, user "bench" and database "default", behind a length that counts itself. */
  lemma StartupLayout()
    ensures |STARTUP| == 37 && BigEndian(STARTUP[..4]) == 37 && STARTUP[4..8] == [0, 3, 0, 0]
    ensures STARTUP[8..19] == [117, 115, 101, 114, 0, 98, 101, 110, 99, 104, 0]
    ensures STARTUP[19..] ==
      [100, 97, 116, 97, 98, 97, 115, 101, 0, 100, 101, 102, 97, 117, 108, 116, 0, 0]
  {
    var size := PackI32(37);
    assert |STARTUP_PAYLOAD| == 33;
    assert STARTUP == size + STARTUP_PAYLOAD && STARTUP[..4] == size;
    assert size == [0, 0, 0, 37];
    BigEndianFour(size);
  }

  /** Two fields, NULL and "x". */
  lemma RowLayout()
    ensures DecodeRow([0, 2, 255, 255, 255, 255, 0, 0, 0, 1, 120]) == Ok([Null, Text([120])])
  {
    var row: Row := [Null, Text([120])];
    assert PackI16(2) == [0, 2] && PackI32(-1) == [255, 255, 255, 255] && PackI32(1) == [0, 0, 0, 1];
    assert row[1..] == [Text([120])] && row[1..][1..] == [];
    var nothing: Row := [];
    assert EncodeCells(nothing) == [];
    assert EncodeCells(row[1..]) == [0, 0, 0, 1, 120];
    assert EncodeCells(row) == [255, 255, 255, 255] + [0, 0, 0, 1, 120];
    assert EncodeRow(row) == [0, 2, 255, 255, 255, 255, 0, 0, 0, 1, 120];
    DecodeEncodedRow(row);
  }

  /** A field header that announces at least as many bytes as are left. */
  predicate Announces(tail: bytes) { |tail| >= 4 && UnpackI32(tail[..4]) >= |tail| - 4 }

  /** A last field whose length exceeds the body is cut off without an error, as Python slices do. */
  lemma ClippedField(row: Row, tail: bytes)
    requires IsRow(row) && |row| < MAX16 && Announces(tail)
    ensures DecodeRow(PackI16(|row| + 1) + (EncodeCells(row) + tail)) == Ok(row + [Text(tail[4..])])
  {
    hide Cells, DecodeRow, EncodeCells, Announces, PackI16, IsRow, IsCell;
    CellsOfRow(row, tail);
    var count, cells := PackI16(|row| + 1), EncodeCells(row);
    CountOf(|row| + 1, cells + tail);
    assert count + (cells + tail) == count + cells + tail;
    ClippedCells(count, row, tail, tail[4..]);
  }

  lemma CellsOfRow(row: Row, tail: bytes)
    requires IsRow(row) && Announces(tail)
    ensures (forall c :: c in row ==> IsCell(c)) && |tail| >= 4
  {
  }

  lemma CountOf(n: nat, more: bytes)
    requires n <= MAX16
    ensures DecodeRow(PackI16(n) + more) == Cells(PackI16(n) + more, |PackI16(n)|, n)
  {
    UnpackPack16(n);
    hide PackI16, UnpackI16, Cells;
    PySliceInside(PackI16(n) + more, 0, 2);
    assert (PackI16(n) + more)[0..2] == PackI16(n);
  }

  lemma {:induction false} ClippedCells(left: bytes, row: Row, tail: bytes, raw: bytes)
    requires (forall c :: c in row ==> IsCell(c)) && Announces(tail) && tail[4..] == raw
    ensures Cells(left + EncodeCells(row) + tail, |left|, |row| + 1) == Ok(row + [Text(raw)])
    decreases row
  {
    hide Cells, EncodeCell, Announces;
    if row == [] {
      assert left + EncodeCells(row) + tail == left + tail;
      LastCell(left, tail, raw);
      assert row + [Text(raw)] == [Text(raw)];
    } else {
      var cell, more := EncodeCell(row[0]), EncodeCells(row[1..]);
      var body := left + EncodeCells(row) + tail;
      assert row == [row[0]] + row[1..];
      assert body == (left + cell) + more + tail && body == left + cell + (more + tail);
      ClippedCells(left + cell, row[1..], tail, raw);
      DecodeCell(left, row[0], more + tail, |row| + 1);
      assert [row[0]] + (row[1..] + [Text(raw)]) == row + [Text(raw)];
    }
  }

  lemma LastCell(left: bytes, tail: bytes, raw: bytes)
    requires Announces(tail) && tail[4..] == raw
    ensures Cells(left + tail, |left|, 1) == Ok([Text(raw)])
  {
    hide UnpackI32, PySlice;
    var body, n := left + tail, UnpackI32(tail[..4]);
    LastSlices(left, tail, n);
    OneCell(body, |left|, n);
    NoCells(body, |left| + 4 + n);
    hide Cells;
    PrependToNothing([Text(raw)]);
  }

  lemma OneCell(body: bytes, offset: nat, n: nat)
    requires |PySlice(body, offset, offset + 4)| == 4 && UnpackI32(PySlice(body, offset, offset + 4)) == n
    ensures
      Cells(body, offset, 1)
      == Prepend([Text(PySlice(body, offset + 4, offset + 4 + n))], Cells(body, offset + 4 + n, 0))
  {
    hide UnpackI32, PySlice, Prepend;
  }

  lemma LastSlices(left: bytes, tail: bytes, n: nat)
    requires |tail| >= 4 && n >= |tail| - 4
    ensures PySlice(left + tail, |left|, |left| + 4) == tail[..4]
    ensures PySlice(left + tail, |left| + 4, |left| + 4 + n) == tail[4..]
  {
    var body := left + tail;
    assert body[|left|..|left| + 4] == tail[..4] && body[|left| + 4..] == tail[4..];
  }

  // ----- whole exchanges -----

  function DataRows(rows: seq<Row>): (ms: seq<Message>)
    requires forall i :: 0 <= i < |rows| ==> IsRow(rows[i]) && |EncodeRow(rows[i])| + 4 <= MAX32
    ensures |ms| == |rows|
    ensures forall i :: 0 <= i < |ms| ==> |ms[i].body| + 4 <= MAX32 && ms[i] == Message(68, EncodeRow(rows[i]))
  {
    seq(|rows|, i requires 0 <= i < |rows| => Message(68, EncodeRow(rows[i])))
  }

  /** RowDescription, the rows, CommandComplete and ReadyForQuery. */
  function Response(description: bytes, rows: seq<Row>, tag: bytes): (ms: seq<Framed>)
    requires |description| + 4 <= MAX32 && |tag| + 4 <= MAX32
    requires forall i :: 0 <= i < |rows| ==> IsRow(rows[i]) && |EncodeRow(rows[i])| + 4 <= MAX32
  {
    [Message(84, description)] + DataRows(rows) + [Message(67, tag), Message(90, [73])]
  }

  lemma {:induction false} PlainRows(rows: seq<Row>, after: seq<Framed>)
    requires forall i :: 0 <= i < |rows| ==> IsRow(rows[i]) && |EncodeRow(rows[i])| + 4 <= MAX32
    requires forall m :: m in after ==> m.kind != KIND_DATA && m.kind != KIND_ERROR
    ensures
      var ms: seq<Framed> := DataRows(rows) + after;
      RowsOf(ms) == rows && DataCount(ms) == |rows| && LastError(ms, None) == None && Decodes(ms)
    decreases |rows|, |after|
  {
    hide EncodeRow, IsRow, DecodeRow;
    var ms: seq<Framed> := DataRows(rows) + after;
    if rows != [] {
      RowDecodes(rows[0]);
      assert ms[0] == Message(68, EncodeRow(rows[0]));
      assert ms[1..] == DataRows(rows[1..]) + after;
      PlainRows(rows[1..], after);
      DecodesTail(ms);
      assert rows == [rows[0]] + rows[1..];
    } else {
      assert ms == after;
      if after != [] {
        PlainRows(rows, after[1..]);
        assert DataRows(rows) + after[1..] == after[1..];
        assert after[0] in after;
        DecodesTail(after);
      }
    }
  }

  lemma RowDecodes(row: Row)
    requires IsRow(row)
    ensures DecodeRow(EncodeRow(row)) == Ok(row)
  {
    DecodeEncodedRow(row);
  }

  lemma ResponseIs(description: bytes, rows: seq<Row>, tag: bytes)
    requires |description| + 4 <= MAX32 && |tag| + 4 <= MAX32
    requires forall i :: 0 <= i < |rows| ==> IsRow(rows[i]) && |EncodeRow(rows[i])| + 4 <= MAX32
    ensures
      var ms := Response(description, rows, tag);
      && IsResponse(ms) && Decodes(ms)
      && RowsOf(ms) == rows && DataCount(ms) == |rows| && LastError(ms, None) == None
  {
    hide EncodeRow, IsRow, DecodeRow;
    var ms := Response(description, rows, tag);
    var after: seq<Framed> := [Message(67, tag), Message(90, [73])];
    PlainRows(rows, after);
    assert ms[1..] == DataRows(rows) + after;
    DecodesTail(ms);
    forall i | 0 <= i < |ms| - 1
      ensures ms[i].kind != KIND_READY
    {
      if 1 <= i <= |rows| { assert ms[i] == DataRows(rows)[i - 1]; }
    }
  }

  /** Either call gives its caller the rows that the server encoded, and leaves what follows unread. */
  lemma RowsArrive(description: bytes, rows: seq<Row>, tag: bytes, keep: bool, rest: bytes)
    requires |description| + 4 <= MAX32 && |tag| + 4 <= MAX32
    requires forall i :: 0 <= i < |rows| ==> IsRow(rows[i]) && |EncodeRow(rows[i])| + 4 <= MAX32
    ensures
      var s := Frames(Response(description, rows, tag)) + rest;
      && RunCall(Simple, s) == Read(Ok(Rows(rows)), rest)
      && RunCall(Streaming(keep), s) == Read(Ok(Moved(Transfer(|rows|, if keep then rows else []))), rest)
  {
    hide Response, Frames, RunCall, Decodes, IsResponse, EncodeRow, IsRow;
    var ms := Response(description, rows, tag);
    ResponseIs(description, rows, tag);
    PrefixDecodes(ms);
    CallAlignedExactly(Simple, ms, rest);
    CallAlignedExactly(Streaming(keep), ms, rest);
  }

  /** Rows, an ErrorResponse and ReadyForQuery. */
  function Failure(rows: seq<Row>, fields: bytes): (ms: seq<Framed>)
    requires |fields| + 4 <= MAX32
    requires forall i :: 0 <= i < |rows| ==> IsRow(rows[i]) && |EncodeRow(rows[i])| + 4 <= MAX32
  {
    DataRows(rows) + [Message(69, fields), Message(90, [73])]
  }

  lemma {:induction false} FailureIs(rows: seq<Row>, fields: bytes)
    requires |fields| + 4 <= MAX32
    requires forall i :: 0 <= i < |rows| ==> IsRow(rows[i]) && |EncodeRow(rows[i])| + 4 <= MAX32
    ensures
      var ms := Failure(rows, fields);
      IsResponse(ms) && Decodes(ms) && LastError(ms, None) == Some(ErrorOf(fields))
    decreases |rows|
  {
    hide EncodeRow, IsRow, DecodeRow, ErrorOf;
    var ms := Failure(rows, fields);
    if rows == [] {
      var ready: seq<Framed> := [Message(90, [73])];
      assert ms == [Message(69, fields), Message(90, [73])];
      assert ms[1..] == ready && ready[1..] == [];
      assert LastError(ready, Some(ErrorOf(fields))) == LastError(ready[1..], Some(ErrorOf(fields)));
      DecodesTail(ms);
      DecodesTail(ready);
    } else {
      RowDecodes(rows[0]);
      FailureIs(rows[1..], fields);
      assert ms[0] == Message(68, EncodeRow(rows[0])) && ms[1..] == Failure(rows[1..], fields);
      DecodesTail(ms);
    }
  }

  /** Either call raises the last SQLSTATE and the last message that the server sent, after the whole response. */
  lemma ErrorArrives(rows: seq<Row>, fs: seq<Field>, c: Call, rest: bytes)
    requires (forall f :: f in fs ==> IsField(f)) && |EncodeFields(fs)| + 4 <= MAX32
    requires forall i :: 0 <= i < |rows| ==> IsRow(rows[i]) && |EncodeRow(rows[i])| + 4 <= MAX32
    ensures LastField(fs, 77, Some(DEFAULT_MESSAGE)).Some?
    ensures
      RunCall(c, Frames(Failure(rows, EncodeFields(fs))) + rest)
      == Read(Err(PgWireError(LastField(fs, 67, None), LastField(fs, 77, Some(DEFAULT_MESSAGE)).value)), rest)
  {
    ErrorOfFields(fs);
    hide Failure, Frames, RunCall, Decodes, IsResponse, EncodeRow, IsRow, ErrorOf, EncodeFields, LastField;
    var ms := Failure(rows, EncodeFields(fs));
    FailureIs(rows, EncodeFields(fs));
    PrefixDecodes(ms);
    CallAlignedExactly(c, ms, rest);
  }

  // ----- streams that end too early -----

  lemma TruncatedFrame(m: Framed, n: nat)
    requires n < |Frame(m)|
    ensures NextMessage(Frame(m)[..n]) == Read(Err(ConnectionError), [])
  {
    var size := PackI32(|m.body| + 4);
    var s := Frame(m)[..n];
    UnpackPack32(|m.body| + 4);
    hide PackI32, UnpackI32;
    if n >= 5 {
      assert s == [m.kind] + size + m.body[..n - 5];
      MessageSlices(m.kind, size, m.body[..n - 5]);
    }
  }

  lemma TruncatedFirst(ms: seq<Framed>, n: nat)
    requires ms != [] && n < |Frames(ms)|
    ensures
      var k := |Frame(ms[0])|;
      NextMessage(Frames(ms)[..n]) ==
        if n < k then Read(Err(ConnectionError), []) else Read(Ok(ms[0]), Frames(ms[1..])[..n - k])
    ensures n >= |Frame(ms[0])| ==> n - |Frame(ms[0])| < |Frames(ms[1..])| && |ms| > 1
  {
    var k := |Frame(ms[0])|;
    hide NextMessage, Frame;
    assert Frames(ms) == Frame(ms[0]) + Frames(ms[1..]);
    if n < k {
      assert Frames(ms)[..n] == Frame(ms[0])[..n];
      TruncatedFrame(ms[0], n);
    } else {
      assert Frames(ms)[..n] == Frame(ms[0]) + Frames(ms[1..])[..n - k];
      ReadFrame(ms[0], Frames(ms[1..])[..n - k]);
    }
  }

  lemma {:induction false} TruncatedQuery(ms: seq<Framed>, n: nat, rows: seq<Row>, error: Option<Error>)
    requires IsResponse(ms) && n < |Frames(ms)| && (error.Some? || Decodes(BeforeError(ms)))
    ensures QueryFrom(Frames(ms)[..n], rows, error) == Read(Err(ConnectionError), [])
    decreases ms
  {
    hide IsResponse, Decodes, DecodeRow, ErrorOf, NextMessage, Frames, Frame;
    FirstOf(ms, []);
    TruncatedFirst(ms, n);
    var m, more, k := ms[0], ms[1..], |Frame(ms[0])|;
    if n >= k {
      if m.kind == KIND_DATA && error.None? {
        BeforeErrorTail(ms);
        TruncatedQuery(more, n - k, rows + [DecodeRow(m.body).value], error);
      } else if m.kind == KIND_ERROR {
        TruncatedQuery(more, n - k, rows, Some(ErrorOf(m.body)));
      } else {
        if error.None? { BeforeErrorTail(ms); }
        TruncatedQuery(more, n - k, rows, error);
      }
    }
  }

  lemma {:induction false} TruncatedStream(ms: seq<Framed>, n: nat, keep: bool, count: nat, rows: seq<Row>,
      error: Option<Error>)
    requires IsResponse(ms) && n < |Frames(ms)| && (keep ==> Decodes(ms))
    ensures StreamFrom(Frames(ms)[..n], keep, count, rows, error) == Read(Err(ConnectionError), [])
    decreases ms
  {
    hide IsResponse, Decodes, DecodeRow, ErrorOf, NextMessage, Frames, Frame;
    FirstOf(ms, []);
    TruncatedFirst(ms, n);
    DecodesTail(ms);
    var m, more, k := ms[0], ms[1..], |Frame(ms[0])|;
    if n >= k {
      if m.kind == KIND_ERROR {
        TruncatedStream(more, n - k, keep, count, rows, Some(ErrorOf(m.body)));
      } else if m.kind == KIND_DATA {
        TruncatedStream(more, n - k, keep, count + 1, if keep then rows + [DecodeRow(m.body).value] else rows, error);
      } else {
        TruncatedStream(more, n - k, keep, count, rows, error);
      }
    }
  }

  /** A server that closes the connection anywhere inside a readable response makes the call raise, never return. */
  lemma TruncationIsNoticed(c: Call, ms: seq<Framed>, n: nat)
    requires Readable(c, ms) && n < |Frames(ms)|
    ensures RunCall(c, Frames(ms)[..n]) == Read(Err(ConnectionError), [])
  {
    hide Frames, QueryFrom, StreamFrom, Decodes;
    match c
    case Simple => TruncatedQuery(ms, n, [], None);
    case Streaming(keep) => TruncatedStream(ms, n, keep, 0, [], None);
  }

  // ----- connections that are refused -----

  /** What the client raises at a message of the greeting that is not welcoming. */
  predicate Refusal(m: Message, e: Error) {
    || (m.kind == 69 && e == ErrorOf(m.body))
    || (m.kind == 82 && |m.body| < 4 && e == StructError)
    || (m.kind == 82 && |m.body| >= 4 && UnpackI32(m.body[..4]) != 0
        && e == UnsupportedAuth(UnpackI32(m.body[..4])))
  }

  /** The first message that refuses decides, and what follows it is left unread. */
  lemma {:induction false} StartupRefused(ms: seq<Framed>, i: nat, rest: bytes, e: Error)
    requires i < |ms| && Welcomes(ms[..i]) && (forall j :: 0 <= j < i ==> ms[j].kind != KIND_READY)
    requires Refusal(ms[i], e)
    ensures StartupFrom(Frames(ms) + rest) == Read(Err(e), Frames(ms[i + 1..]) + rest)
    decreases i
  {
    hide ErrorOf, NextMessage, Frames, UnpackI32;
    FirstFrame(ms, rest);
    if |ms[0].body| >= 4 {
      PySliceInside(ms[0].body, 0, 4);
    } else {
      ShortSlice(ms[0].body);
    }
    if i > 0 {
      assert ms[..i][0] == ms[0];
      assert ms[1..][..i - 1] == ms[..i][1..] && ms[1..][i..] == ms[i + 1..];
      StartupRefused(ms[1..], i - 1, rest, e);
    }
  }

  lemma ShortSlice(s: bytes)
    requires |s| < 4
    ensures |PySlice(s, 0, 4)| < 4
  {
  }
}

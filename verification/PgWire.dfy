/**
 `MinimalPgClient` of the PG wire benchmark: length-prefixed messages read from a socket that may
 deliver any fragments, DataRow decoding, and the reading loops of `query` and `query_streaming`.
 Each method is tied to a function of the bytes the server sends.
 */
module PgWire {
  import opened PgBytes
  import opened Strings = Text

  /** The exceptions the client can raise. */
  datatype Error =
    | ConnectionError
    | ValueError
    | StructError
    | PgWireError(code: Option<bytes>, message: bytes)
    | UnsupportedAuth(request: int)

  datatype Result<+T> = Ok(value: T) | Err(error: Error)

  /** A result and the bytes that are still unread after it. */
  datatype Read<+T> = Read(result: Result<T>, rest: bytes)

  datatype Message = Message(kind: byte, body: bytes)

  /** A field of a row: SQL NULL or the bytes of its text. */
  datatype Cell = Null | Text(raw: bytes)

  type Row = seq<Cell>

  const KIND_AUTH: byte := 82       // 'R'
  const KIND_ERROR: byte := 69      // 'E'
  const KIND_READY: byte := 90      // 'Z'
  const KIND_DATA: byte := 68       // 'D'
  const KIND_QUERY: byte := 81      // 'Q'
  const FIELD_CODE: byte := 67      // 'C'
  const FIELD_MESSAGE: byte := 77   // 'M'

  // ----- what the bytes say -----

  /** `_recv_exact(count)`: a negative count is refused by `recv`, a short stream ends in EOF. */
  function Exact(s: bytes, count: int): (r: Read<bytes>)
    ensures |r.rest| <= |s|
  {
    if count < 0 then Read(Err(ValueError), s)
    else if count <= |s| then Read(Ok(s[..count]), s[count..])
    else Read(Err(ConnectionError), [])
  }

  /** `_read_message` */
  function NextMessage(s: bytes): (r: Read<Message>)
    ensures |r.rest| <= |s|
    ensures r.result.Ok? ==> |r.rest| < |s|
  {
    var kind := Exact(s, 1);
    if kind.result.Err? then Read(Err(kind.result.error), kind.rest)
    else
      var size := Exact(kind.rest, 4);
      if size.result.Err? then Read(Err(size.result.error), size.rest)
      else
        var body := Exact(size.rest, UnpackI32(size.result.value) - 4);
        if body.result.Err? then Read(Err(body.result.error), body.rest)
        else Read(Ok(Message(kind.result.value[0], body.result.value)), body.rest)
  }

  /** The remaining `count` fields of a DataRow body from `offset` on. */
  function Cells(body: bytes, offset: int, count: int): Result<Row>
    decreases count
  {
    if count <= 0 then Ok([])
    else
      var header := PySlice(body, offset, offset + 4);
      if |header| != 4 then Err(StructError)
      else
        var length := UnpackI32(header);
        var (cell, next) :=
          if length == -1 then (Null, offset + 4)
          else (Text(PySlice(body, offset + 4, offset + 4 + length)), offset + 4 + length);
        Prepend([cell], Cells(body, next, count - 1))
  }

  function Prepend(done: Row, more: Result<Row>): Result<Row> {
    match more
    case Err(e) => Err(e)
    case Ok(cells) => Ok(done + cells)
  }

  lemma PrependNothing(more: Result<Row>)
    ensures Prepend([], more) == more
  {
    if more.Ok? { assert [] + more.value == more.value; }
  }

  lemma PrependToNothing(done: Row)
    ensures Prepend(done, Ok([])) == Ok(done)
  {
    assert done + [] == done;
  }

  lemma PrependError(done: Row, e: Error)
    ensures Prepend(done, Err(e)) == Err(e)
  {
  }

  lemma PrependTwice(a: Row, b: Row, more: Result<Row>)
    ensures Prepend(a, Prepend(b, more)) == Prepend(a + b, more)
  {
    if more.Ok? { assert a + (b + more.value) == a + b + more.value; }
  }

  function DecodeRow(body: bytes): Result<Row> {
    var header := PySlice(body, 0, 2);
    if |header| != 2 then Err(StructError) else Cells(body, 2, UnpackI16(header))
  }

  /** `body.split(b"\x00")` */
  function SplitZero(body: bytes): (parts: seq<bytes>)
    ensures |parts| >= 1
  {
    if body == [] then [[]]
    else
      var rest := SplitZero(body[1..]);
      if body[0] == 0 then [[]] + rest else [[body[0]] + rest[0]] + rest[1..]
  }

  /** "query failed" */
  const DEFAULT_MESSAGE: bytes := [113, 117, 101, 114, 121, 32, 102, 97, 105, 108, 101, 100]

  /** `_error_fields`: the last `C` field and the last `M` field win. */
  function ErrorFields(parts: seq<bytes>, code: Option<bytes>, message: bytes): Error {
    if parts == [] then PgWireError(code, message)
    else if parts[0] != [] && parts[0][0] == FIELD_CODE then ErrorFields(parts[1..], Some(parts[0][1..]), message)
    else if parts[0] != [] && parts[0][0] == FIELD_MESSAGE then ErrorFields(parts[1..], code, parts[0][1..])
    else ErrorFields(parts[1..], code, message)
  }

  function ErrorOf(body: bytes): Error { ErrorFields(SplitZero(body), None, DEFAULT_MESSAGE) }

  /** The reading loop of `query`. */
  function QueryFrom(s: bytes, rows: seq<Row>, error: Option<Error>): Read<seq<Row>>
    decreases |s|
  {
    var next := NextMessage(s);
    match next.result
    case Err(e) => Read(Err(e), next.rest)
    case Ok(Message(kind, body)) =>
      if kind == KIND_DATA then
        if error.Some? then QueryFrom(next.rest, rows, error)
        else match DecodeRow(body)
          case Err(e) => Read(Err(e), next.rest)
          case Ok(row) => QueryFrom(next.rest, rows + [row], error)
      else if kind == KIND_ERROR then QueryFrom(next.rest, rows, Some(ErrorOf(body)))
      else if kind == KIND_READY then
        Read(if error.Some? then Err(error.value) else Ok(rows), next.rest)
      else QueryFrom(next.rest, rows, error)
  }

  datatype Transfer = Transfer(rowCount: nat, rows: seq<Row>)

  /** The reading loop of `query_streaming`, without its clock. */
  function StreamFrom(s: bytes, keep: bool, count: nat, rows: seq<Row>, error: Option<Error>): Read<Transfer>
    decreases |s|
  {
    var next := NextMessage(s);
    match next.result
    case Err(e) => Read(Err(e), next.rest)
    case Ok(Message(kind, body)) =>
      if kind == KIND_ERROR then StreamFrom(next.rest, keep, count, rows, Some(ErrorOf(body)))
      else if kind == KIND_DATA then
        if !keep then StreamFrom(next.rest, keep, count + 1, rows, error)
        else match DecodeRow(body)
          case Err(e) => Read(Err(e), next.rest)
          case Ok(row) => StreamFrom(next.rest, keep, count + 1, rows + [row], error)
      else if kind == KIND_READY then
        Read(if error.Some? then Err(error.value) else Ok(Transfer(count, rows)), next.rest)
      else StreamFrom(next.rest, keep, count, rows, error)
  }

  /** The reading loop of `_startup`. */
  function StartupFrom(s: bytes): Read<()>
    decreases |s|
  {
    var next := NextMessage(s);
    match next.result
    case Err(e) => Read(Err(e), next.rest)
    case Ok(Message(kind, body)) =>
      if kind == KIND_AUTH then
        var header := PySlice(body, 0, 4);
        if |header| != 4 then Read(Err(StructError), next.rest)
        else if UnpackI32(header) != 0 then Read(Err(UnsupportedAuth(UnpackI32(header))), next.rest)
        else StartupFrom(next.rest)
      else if kind == KIND_ERROR then Read(Err(ErrorOf(body)), next.rest)
      else if kind == KIND_READY then Read(Ok(()), next.rest)
      else StartupFrom(next.rest)
  }

  // ----- messages as bytes -----

  /** A message whose length fits the signed prefix. */
  type Framed = m: Message | |m.body| + 4 <= MAX32 witness Message(0, [])

  function Frame(m: Framed): bytes { [m.kind] + PackI32(|m.body| + 4) + m.body }

  function Frames(ms: seq<Framed>): bytes {
    if ms == [] then [] else Frame(ms[0]) + Frames(ms[1..])
  }

  // ----- the client -----

  /** The server's bytes still to come before it closes the connection, and what was sent to it. */
  class Socket {
    var incoming: bytes
    var outgoing: bytes

    constructor (incoming: bytes)
      ensures this.incoming == incoming && outgoing == []
    {
      this.incoming := incoming;
      outgoing := [];
    }

    /** `recv`: some non-empty part of what was asked for, of any size; nothing only at the end. */
    method Recv(count: int) returns (r: Result<bytes>)
      modifies this`incoming
      ensures count < 0 ==> r == Err(ValueError) && incoming == old(incoming)
      ensures count >= 0 ==>
        && r.Ok? && |r.value| <= count && old(incoming) == r.value + incoming
        && (count > 0 && old(incoming) != [] ==> r.value != [])
    {
      if count < 0 { return Err(ValueError); }
      if count == 0 || incoming == [] { return Ok([]); }
      var size: nat;
      if count < |incoming| { size :| 1 <= size <= count; } else { size :| 1 <= size <= |incoming|; }
      r := Ok(incoming[..size]);
      incoming := incoming[size..];
    }

    method SendAll(data: bytes)
      modifies this`outgoing
      ensures outgoing == old(outgoing) + data
    {
      outgoing := outgoing + data;
    }
  }

  function Flatten(chunks: seq<bytes>): bytes {
    if chunks == [] then [] else Flatten(chunks[..|chunks| - 1]) + chunks[|chunks| - 1]
  }

  class MinimalPgClient {
    const socket: Socket

    constructor (socket: Socket)
      ensures this.socket == socket
    {
      this.socket := socket;
    }

    method RecvExact(count: int) returns (r: Result<bytes>)
      modifies socket`incoming
      ensures Read(r, socket.incoming) == Exact(old(socket.incoming), count)
    {
      var chunks: seq<bytes> := [];
      var remaining := count;
      while remaining != 0
        invariant count < 0 ==> remaining == count && socket.incoming == old(socket.incoming)
        invariant count >= 0 ==> remaining >= 0 && |Flatten(chunks)| + remaining == count
        invariant count >= 0 ==> old(socket.incoming) == Flatten(chunks) + socket.incoming
        decreases if remaining < 0 then 0 else remaining
      {
        var chunk := socket.Recv(remaining);
        if chunk.Err? { return chunk; }
        if chunk.value == [] { return Err(ConnectionError); }
        ghost var before := chunks;
        chunks := chunks + [chunk.value];
        assert chunks[..|chunks| - 1] == before;
        remaining := remaining - |chunk.value|;
      }
      r := Ok(Flatten(chunks));
    }

    method ReadMessage() returns (r: Result<Message>)
      modifies socket`incoming
      ensures Read(r, socket.incoming) == NextMessage(old(socket.incoming))
    {
      var kind := RecvExact(1);
      if kind.Err? { return Err(kind.error); }
      var size := RecvExact(4);
      if size.Err? { return Err(size.error); }
      var body := RecvExact(UnpackI32(size.value) - 4);
      if body.Err? { return Err(body.error); }
      r := Ok(Message(kind.value[0], body.value));
    }

    /** Repeated reading gives back exactly the messages that were framed, however they arrive. */
    method ReadMessages(count: nat, ghost sent: seq<Framed>, ghost after: bytes) returns (got: seq<Message>)
      requires |sent| == count
      requires socket.incoming == Frames(sent) + after
      modifies socket`incoming
      ensures got == sent && socket.incoming == after
    {
      got := [];
      while |got| < count
        invariant |got| <= count && got == sent[..|got|]
        invariant socket.incoming == Frames(sent[|got|..]) + after
      {
        ghost var todo := sent[|got|..];
        assert todo[0] == sent[|got|] && todo[1..] == sent[|got| + 1..];
        assert Frames(todo) + after == Frame(todo[0]) + (Frames(todo[1..]) + after);
        ReadFrame(todo[0], Frames(todo[1..]) + after);
        var m := ReadMessage();
        got := got + [m.value];
      }
      assert sent[count..] == [];
    }

    method Startup() returns (r: Result<()>)
      modifies socket
      ensures Read(r, socket.incoming) == StartupFrom(old(socket.incoming))
      ensures socket.outgoing == old(socket.outgoing) + STARTUP
    {
      socket.SendAll(STARTUP);
      while true
        invariant StartupFrom(socket.incoming) == StartupFrom(old(socket.incoming))
        invariant socket.outgoing == old(socket.outgoing) + STARTUP
        decreases |socket.incoming|
      {
        var next := ReadMessage();
        if next.Err? { return Err(next.error); }
        var Message(kind, body) := next.value;
        if kind == KIND_AUTH {
          var header := PySlice(body, 0, 4);
          if |header| != 4 { return Err(StructError); }
          var code := UnpackI32(header);
          if code != 0 { return Err(UnsupportedAuth(code)); }
        } else if kind == KIND_ERROR {
          return Err(ErrorOf(body));
        } else if kind == KIND_READY {
          return Ok(());
        }
      }
    }

    /** The field loop of a DataRow. */
    static method ParseRow(body: bytes) returns (r: Result<Row>)
      ensures r == DecodeRow(body)
    {
      hide PySlice, UnpackI32, UnpackI16, Prepend;
      var header := PySlice(body, 0, 2);
      if |header| != 2 { return Err(StructError); }
      var count := UnpackI16(header);
      var offset := 2;
      var row: Row := [];
      var i := 0;
      PrependNothing(Cells(body, offset, count));
      while i < count
        invariant 0 <= i && (i <= count || i == 0)
        invariant DecodeRow(body) == Prepend(row, Cells(body, offset, count - i))
      {
        var field := PySlice(body, offset, offset + 4);
        if |field| != 4 {
          PrependError(row, StructError);
          return Err(StructError);
        }
        var length := UnpackI32(field);
        ghost var done := row;
        offset := offset + 4;
        if length == -1 {
          row := row + [Null];
        } else {
          row := row + [Text(PySlice(body, offset, offset + length))];
          offset := offset + length;
        }
        i := i + 1;
        PrependTwice(done, [row[|done|]], Cells(body, offset, count - i));
      }
      PrependToNothing(row);
      r := Ok(row);
    }

    /** What `query` and `query_streaming` send, or the refusal to pack an oversized length. */
    method SendQuery(sql: bytes) returns (r: Result<()>)
      modifies socket`outgoing
      ensures r == if |sql| + 5 <= MAX32 then Ok(()) else Err(StructError)
      ensures socket.outgoing
           == old(socket.outgoing) + if r.Ok? then Frame(Message(KIND_QUERY, sql + [0])) else []
    {
      var payload := sql + [0];
      if |payload| + 4 > MAX32 { return Err(StructError); }
      socket.SendAll(Frame(Message(KIND_QUERY, payload)));
      r := Ok(());
    }

    method Query(sql: bytes) returns (r: Result<seq<Row>>)
      modifies socket
      ensures |sql| + 5 > MAX32 ==> r == Err(StructError) && socket.incoming == old(socket.incoming)
      ensures |sql| + 5 <= MAX32 ==>
        && Read(r, socket.incoming) == QueryFrom(old(socket.incoming), [], None)
        && socket.outgoing == old(socket.outgoing) + Frame(Message(KIND_QUERY, sql + [0]))
    {
      var sent := SendQuery(sql);
      if sent.Err? { return Err(sent.error); }
      var rows: seq<Row> := [];
      var error: Option<Error> := None;
      while true
        invariant QueryFrom(socket.incoming, rows, error) == QueryFrom(old(socket.incoming), [], None)
        invariant socket.outgoing == old(socket.outgoing) + Frame(Message(KIND_QUERY, sql + [0]))
        decreases |socket.incoming|
      {
        var next := ReadMessage();
        if next.Err? { return Err(next.error); }
        var Message(kind, body) := next.value;
        if kind == KIND_DATA {
          if error.Some? { continue; }
          var row := ParseRow(body);
          if row.Err? { return Err(row.error); }
          rows := rows + [row.value];
        } else if kind == KIND_ERROR {
          error := Some(ErrorOf(body));
        } else if kind == KIND_READY {
          if error.Some? { return Err(error.value); }
          return Ok(rows);
        }
      }
    }

    method QueryStreaming(sql: bytes, keepRows: bool) returns (r: Result<Transfer>)
      modifies socket
      ensures |sql| + 5 > MAX32 ==> r == Err(StructError) && socket.incoming == old(socket.incoming)
      ensures |sql| + 5 <= MAX32 ==>
        && Read(r, socket.incoming) == StreamFrom(old(socket.incoming), keepRows, 0, [], None)
        && socket.outgoing == old(socket.outgoing) + Frame(Message(KIND_QUERY, sql + [0]))
    {
      var sent := SendQuery(sql);
      if sent.Err? { return Err(sent.error); }
      var rowCount := 0;
      var rows: seq<Row> := [];
      var error: Option<Error> := None;
      while true
        invariant rowCount >= 0
        invariant StreamFrom(socket.incoming, keepRows, rowCount, rows, error)
               == StreamFrom(old(socket.incoming), keepRows, 0, [], None)
        invariant socket.outgoing == old(socket.outgoing) + Frame(Message(KIND_QUERY, sql + [0]))
        decreases |socket.incoming|
      {
        var next := ReadMessage();
        if next.Err? { return Err(next.error); }
        var Message(kind, body) := next.value;
        if kind == KIND_ERROR {
          error := Some(ErrorOf(body));
          continue;
        }
        if kind == KIND_DATA {
          rowCount := rowCount + 1;
          if keepRows {
            var row := ParseRow(body);
            if row.Err? { return Err(row.error); }
            rows := rows + [row.value];
          }
        } else if kind == KIND_READY {
          if error.Some? { return Err(error.value); }
          return Ok(Transfer(rowCount, rows));
        }
      }
    }
  }

  /** The startup packet: protocol 3.0, user "bench", database "default". */
  const STARTUP_PAYLOAD: bytes :=
    [0, 3, 0, 0] + [117, 115, 101, 114, 0] + [98, 101, 110, 99, 104, 0]
    + [100, 97, 116, 97, 98, 97, 115, 101, 0] + [100, 101, 102, 97, 117, 108, 116, 0] + [0]

  const STARTUP: bytes := PackI32(|STARTUP_PAYLOAD| + 4) + STARTUP_PAYLOAD

  // ----- framing -----

  /** A framed message is read back whole, whatever follows it. */
  lemma ReadFrame(m: Framed, rest: bytes)
    ensures NextMessage(Frame(m) + rest) == Read(Ok(m), rest)
  {
    var size := PackI32(|m.body| + 4);
    var s := Frame(m) + rest;
    UnpackPack32(|m.body| + 4);
    assert s[..1] == [m.kind] && s[1..] == size + m.body + rest;
    assert s[1..][..4] == size && s[1..][4..] == m.body + rest;
    assert (m.body + rest)[..|m.body|] == m.body && (m.body + rest)[|m.body|..] == rest;
  }

  /** The length prefix makes the byte stream uniquely decodable. */
  lemma {:induction false} FramesInjective(a: seq<Framed>, b: seq<Framed>)
    requires Frames(a) == Frames(b)
    ensures a == b
    decreases |a|
  {
    if a != [] && b != [] {
      ReadFrame(a[0], Frames(a[1..]));
      ReadFrame(b[0], Frames(b[1..]));
      FramesInjective(a[1..], b[1..]);
      assert a == [a[0]] + a[1..] && b == [b[0]] + b[1..];
    }
  }

  // ----- DataRow -----

  predicate IsCell(c: Cell) { c.Text? ==> |c.raw| <= MAX32 }

  predicate IsRow(row: Row) { |row| <= MAX16 && forall c :: c in row ==> IsCell(c) }

  function EncodeCell(c: Cell): bytes
    requires IsCell(c)
  {
    match c
    case Null => PackI32(-1)
    case Text(raw) => PackI32(|raw|) + raw
  }

  function EncodeCells(row: Row): bytes
    requires forall c :: c in row ==> IsCell(c)
  {
    if row == [] then [] else EncodeCell(row[0]) + EncodeCells(row[1..])
  }

  /** Section 55.7 of the PostgreSQL 16 documentation: Int16 count, then Int32 length and bytes per field. */
  function EncodeRow(row: Row): bytes
    requires IsRow(row)
  {
    PackI16(|row|) + EncodeCells(row)
  }

  lemma {:induction false} DecodeCells(left: bytes, row: Row)
    requires forall c :: c in row ==> IsCell(c)
    ensures Cells(left + EncodeCells(row), |left|, |row|) == Ok(row)
    decreases row
  {
    hide Cells, EncodeCell;
    if row == [] {
      NoCells(left + EncodeCells(row), |left|);
    } else {
      var body, cell, more := left + EncodeCells(row), EncodeCell(row[0]), EncodeCells(row[1..]);
      assert row == [row[0]] + row[1..];
      assert body == (left + cell) + more;
      DecodeCells(left + cell, row[1..]);
      DecodeCell(left, row[0], more, |row|);
    }
  }

  lemma NoCells(body: bytes, offset: int)
    ensures Cells(body, offset, 0) == Ok([])
  {
  }

  lemma DecodeCell(left: bytes, c: Cell, more: bytes, count: nat)
    requires IsCell(c) && count > 0
    ensures
      var body, next := left + EncodeCell(c) + more, left + EncodeCell(c);
      Cells(body, |left|, count) == Prepend([c], Cells(body, |next|, count - 1))
  {
    hide PackI32, UnpackI32, PySlice;
    var length := if c.Null? then -1 else |c.raw|;
    var raw := if c.Null? then [] else c.raw;
    UnpackPack32(length);
    assert EncodeCell(c) == PackI32(length) + raw;
    CellSlices(left, EncodeCell(c), more, PackI32(length), raw);
  }

  lemma CellSlices(left: bytes, cell: bytes, more: bytes, header: bytes, raw: bytes)
    requires |header| == 4 && cell == header + raw
    ensures PySlice(left + cell + more, |left|, |left| + 4) == header
    ensures PySlice(left + cell + more, |left| + 4, |left| + 4 + |raw|) == raw
  {
    var body := left + cell + more;
    assert body[|left|..|left| + 4] == header;
    assert body[|left| + 4..|left| + 4 + |raw|] == raw;
  }

  /** Decoding inverts encoding; NULL stays apart from the empty text. */
  lemma DecodeEncodedRow(row: Row)
    requires IsRow(row)
    ensures DecodeRow(EncodeRow(row)) == Ok(row)
  {
    var count := PackI16(|row|);
    UnpackPack16(|row|);
    DecodeCells(count, row);
    assert EncodeRow(row)[0..2] == count;
  }

  // ----- ErrorResponse -----

  datatype Field = Field(kind: byte, text: bytes)

  predicate IsField(f: Field) { f.kind != 0 && 0 !in f.text }

  /** Section 55.7: each field is a type byte and a string, the message ends with a zero byte. */
  function EncodeFields(fs: seq<Field>): bytes {
    if fs == [] then [0] else [fs[0].kind] + fs[0].text + [0] + EncodeFields(fs[1..])
  }

  /** The text of the last field of a kind. */
  function LastField(fs: seq<Field>, kind: byte, default: Option<bytes>): Option<bytes> {
    if fs == [] then default
    else LastField(fs[1..], kind, if fs[0].kind == kind then Some(fs[0].text) else default)
  }

  lemma {:induction false} SplitZeroAt(a: bytes, b: bytes)
    requires 0 !in a
    ensures SplitZero(a + [0] + b) == [a] + SplitZero(b)
    decreases a
  {
    var s := a + [0] + b;
    if a == [] {
      assert s[1..] == b;
    } else {
      assert s[1..] == a[1..] + [0] + b && s[0] == a[0];
      SplitZeroAt(a[1..], b);
      assert [a[0]] + a[1..] == a;
    }
  }

  lemma {:induction false} FieldsDecode(fs: seq<Field>, code: Option<bytes>, message: bytes)
    requires forall f :: f in fs ==> IsField(f)
    ensures LastField(fs, FIELD_MESSAGE, Some(message)).Some?
    ensures ErrorFields(SplitZero(EncodeFields(fs)), code, message)
         == PgWireError(LastField(fs, FIELD_CODE, code), LastField(fs, FIELD_MESSAGE, Some(message)).value)
    decreases fs
  {
    if fs == [] {
      SplitZeroAt([], []);
      assert [] + [0] + [] == EncodeFields(fs);
      var two: seq<bytes> := [[], []];
      assert SplitZero(EncodeFields(fs)) == two;
      assert two[1..] == [[]] && two[1..][1..] == [];
      assert ErrorFields(two[1..][1..], code, message) == PgWireError(code, message);
      assert ErrorFields(two[1..], code, message) == PgWireError(code, message);
    } else {
      var part, more := [fs[0].kind] + fs[0].text, EncodeFields(fs[1..]);
      assert fs[0] in fs && 0 !in part;
      SplitZeroAt(part, more);
      assert EncodeFields(fs) == part + [0] + more;
      assert ([part] + SplitZero(more))[1..] == SplitZero(more);
      assert part[1..] == fs[0].text;
      FieldsDecode(fs[1..], if fs[0].kind == FIELD_CODE then Some(fs[0].text) else code,
                   if fs[0].kind == FIELD_MESSAGE then fs[0].text else message);
    }
  }

  /** The raised error carries the last SQLSTATE and the last message the server sent. */
  lemma ErrorOfFields(fs: seq<Field>)
    requires forall f :: f in fs ==> IsField(f)
    ensures LastField(fs, FIELD_MESSAGE, Some(DEFAULT_MESSAGE)).Some?
    ensures ErrorOf(EncodeFields(fs))
         == PgWireError(LastField(fs, FIELD_CODE, None), LastField(fs, FIELD_MESSAGE, Some(DEFAULT_MESSAGE)).value)
  {
    FieldsDecode(fs, None, DEFAULT_MESSAGE);
  }
}

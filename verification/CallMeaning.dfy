/**
 What the calls that `_rewrite_calls` replaces compute in the engine, and what DuckDB computes on the text
 that replaces them. The replacement is read as a call: a name before the first parenthesis and the
 arguments between the separating commas. Argument texts have given values; everything that the rewriter
 adds around them is evaluated by DuckDB's rules.
 */
module CallMeaning {
  import opened Text
  import opened ArgScanner
  import opened CallSearch
  import opened SqlTree
  import opened CallTemplates
  import HiveArrays
  import CallRewriter

  /**
   `Column` holds the non-NULL numbers of a group in ascending order, `Moment` a time in seconds since the
   epoch. A list may hold NULLs. `Fails` stands for an error.
   */
  datatype Cell =
    | Null
    | Text(s: string)
    | Number(n: real)
    | List(items: seq<Option<string>>)
    | Column(numbers: seq<real>)
    | Moment(seconds: int)
    | Fails

  /** The values of the argument texts, and how a text reads as a time under a format. */
  datatype Setting = Setting(values: map<string, Cell>, parse: (string, string) -> Option<int>)

  const DATE := "%Y-%m-%d"
  const DATE_TIME := "%Y-%m-%d %H:%M:%S"

  // ----- reading a call -----

  /** The part before the first parenthesis. */
  function Before(t: string): (f: string)
    ensures |f| <= |t|
  {
    if t == [] || t[0] == '(' then [] else [t[0]] + Before(t[1..])
  }

  datatype Reading = Reading(f: string, args: seq<string>)

  /** A text that is one call: its name and its arguments. */
  function Read(t: string): Option<Reading> {
    var f := Before(t);
    if |f| + 2 <= |t| && t[|t| - 1] == ')' then Some(Reading(f, Pieces(t[|f| + 1..|t| - 1]))) else None
  }

  /** At any depth the scanner passes over the text without a cut. */
  ghost predicate IsPassed(s: string) { forall d: nat, prev: char :: Keeps(Mode(d, None), prev, s) }

  /** The texts can stand between the commas of a call. */
  ghost predicate AreArgs(a: seq<string>) {
    a != [] && forall i :: 0 <= i < |a| ==> Trimmed(a[i]) && IsPassed(a[i])
  }

  lemma {:induction false} BeforeParen(f: string, z: string)
    requires '(' !in f
    ensures Before(f + "(" + z) == f
    decreases f
  {
    if f != [] {
      assert (f + "(" + z)[1..] == f[1..] + "(" + z && (f + "(" + z)[0] == f[0];
      BeforeParen(f[1..], z);
      assert f == [f[0]] + f[1..];
    }
  }

  /** Reading a call that was written with comma and blank between its arguments gives them back. */
  lemma ReadWritten(f: string, a: seq<string>)
    requires '(' !in f && AreArgs(a)
    ensures Read(CallText(f, Join(a, ", "))) == Some(Reading(f, a))
  {
    var inner := Join(a, ", ");
    var t := CallText(f, inner);
    BeforeParen(f, inner + ")");
    forall i | 0 <= i < |a|
      ensures IsArg(a[i])
    {
      assert Keeps(TOP, ' ', a[i]);
    }
    SplitInvertsJoin(a);
    hide Pieces, IsArg, Before;
    assert t == f + "(" + (inner + ")");
    assert t[|f| + 1..|t| - 1] == inner;
  }

  // ----- DuckDB -----

  predicate IsQuoted(t: string) {
    |t| >= 2 && t[0] == '\'' && t[|t| - 1] == '\'' && '\'' !in t[1..|t| - 1]
  }

  function DuckValue(e: Setting, t: string): Cell
    decreases |t|, 3
  {
    if IsQuoted(t) then Text(t[1..|t| - 1])
    else if t in e.values then e.values[t]
    else DuckCallValue(e, t)
  }

  function DuckCallValue(e: Setting, t: string): Cell
    decreases |t|, 2
  {
    match Read(t)
    case None => Fails
    case Some(r) => DuckCall(e, r.f, PieceValues(e, t, r.args))
  }

  function PieceValues(e: Setting, t: string, pieces: seq<string>): (v: seq<Cell>)
    ensures |v| == |pieces| && forall i :: 0 <= i < |v| ==> v[i] == PieceValue(e, t, pieces[i])
    decreases |t|, 1
  {
    seq(|pieces|, i requires 0 <= i < |pieces| => PieceValue(e, t, pieces[i]))
  }

  /** A piece of a call is shorter than the call. */
  function PieceValue(e: Setting, t: string, piece: string): Cell
    decreases |t|, 0
  {
    if |piece| < |t| then DuckValue(e, piece) else Fails
  }

  /** The texts among the items; aggregation and `concat_ws` skip NULL. */
  function Present(items: seq<Option<string>>): seq<string> {
    if items == [] then []
    else (if items[0].Some? then [items[0].value] else []) + Present(items[1..])
  }

  function ItemOf(v: Cell): Option<string> { if v.Text? then Some(v.s) else None }

  function ItemsOf(vs: seq<Cell>): (r: seq<Option<string>>)
    ensures |r| == |vs| && forall i :: 0 <= i < |r| ==> r[i] == ItemOf(vs[i])
  {
    seq(|vs|, i requires 0 <= i < |vs| => ItemOf(vs[i]))
  }

  predicate Scalars(vs: seq<Cell>) { forall i :: 0 <= i < |vs| ==> vs[i].Text? || vs[i].Null? }

  /** The functions and macros that occur in replacements; the placeholders stand for the names without prefix. */
  function DuckCall(e: Setting, f: string, v: seq<Cell>): Cell {
    if f == "array_to_string" then if |v| == 2 then ArrayToString(v[0], v[1]) else Fails
    else if f == "duckdb_concat_ws" then
      if v == [] || !Scalars(v) then Fails
      else if v[0].Null? then Null
      else Text(Join(Present(ItemsOf(v[1..])), v[0].s))
    else if f == "list_value" then if Scalars(v) then List(ItemsOf(v)) else Fails
    else if f == "quantile_cont" then if |v| == 2 then QuantileCont(v[0], v[1]) else Fails
    else if f == "strptime" then if |v| == 2 then Strptime(e, v[0], v[1]) else Fails
    else if f == "epoch" then if |v| == 1 then Epoch(v[0]) else Fails
    else if f == "duckdb_unix_timestamp" then if |v| == 1 then Epoch(CastTimestamp(e, v[0])) else Fails
    else Fails
  }

  function ArrayToString(list: Cell, sep: Cell): Cell {
    if !(list.List? || list.Null?) || !(sep.Text? || sep.Null?) then Fails
    else if list.Null? || sep.Null? then Null
    else Text(Join(Present(list.items), sep.s))
  }

  function QuantileCont(x: Cell, p: Cell): Cell {
    if !x.Column? || !p.Number? || !(0.0 <= p.n <= 1.0) then Fails
    else if x.numbers == [] then Null
    else Number(Interpolated(x.numbers, p.n))
  }

  function Strptime(e: Setting, x: Cell, format: Cell): Cell {
    if x.Null? then Null
    else if !x.Text? || !format.Text? then Fails
    else match e.parse(format.s, x.s)
      case None => Fails
      case Some(seconds) => Moment(seconds)
  }

  /** `CAST(x AS TIMESTAMP)` reads a date with or without a time. */
  function CastTimestamp(e: Setting, x: Cell): Cell {
    if x.Null? then Null
    else if !x.Text? then Fails
    else if e.parse(DATE_TIME, x.s).Some? then Moment(e.parse(DATE_TIME, x.s).value)
    else if e.parse(DATE, x.s).Some? then Moment(e.parse(DATE, x.s).value)
    else Fails
  }

  function Epoch(t: Cell): Cell {
    if t.Null? then Null else if t.Moment? then Number(t.seconds as real) else Fails
  }

  // ----- the engine -----

  /** An array is one text. */
  function Encoded(v: Cell): Cell { if v.List? then Text(HiveArrays.Encode(Present(v.items))) else v }

  /** The pieces at NUL of all texts; NULLs and other values are skipped. */
  function AllPieces(v: seq<Cell>): seq<string> {
    if v == [] then []
    else (if v[0].Text? then HiveArrays.Decode(v[0].s) else []) + AllPieces(v[1..])
  }

  /** The separator of `concat_ws` is taken to be constant; NULL counts as empty. */
  function EngineCall(e: Setting, f: string, v: seq<Cell>): Cell {
    if f == "concat_ws" then
      if |v| < 2 then Fails else Text(Join(AllPieces(v[1..]), if v[0].Text? then v[0].s else []))
    else if f == "array" then Text(HiveArrays.Encode(Present(ItemsOf(v))))
    else if f == "str_to_map" then if 1 <= |v| <= 3 then v[0] else Fails
    else if f == "percentile_approx" then if |v| == 2 then PercentileApproxOf(v[0], v[1]) else Fails
    else if f == "unix_timestamp" then if v == [] then Fails else UnixTimestampOf(e, v[0])
    else Fails
  }

  function PercentileApproxOf(x: Cell, p: Cell): Cell {
    if !x.Column? || !p.Number? then Fails
    else if x.numbers == [] then Null
    else Number(NearestRank(x.numbers, Clamped(p.n)))
  }

  function Clamped(p: real): real { if p < 0.0 then 0.0 else if p > 1.0 then 1.0 else p }

  function First(s: string, n: nat): string { if n <= |s| then s[..n] else s }

  /** The whole text as a date and time, or its first ten characters as a date; the format is not looked at. */
  function UnixTimestampOf(e: Setting, x: Cell): Cell {
    if x.Null? then Null
    else if !x.Text? then Fails
    else if e.parse(DATE_TIME, x.s).Some? then Number(e.parse(DATE_TIME, x.s).value as real)
    else match e.parse(DATE, First(x.s, 10))
      case None => Null
      case Some(seconds) => Number(seconds as real)
  }

  // ----- quantiles -----

  /** `(n - 1) * p` */
  function Position(n: nat, p: real): (h: real)
    requires n > 0 && 0.0 <= p <= 1.0
    ensures 0.0 <= h <= (n - 1) as real
  {
    var last := (n - 1) as real;
    assert last * (1.0 - p) == last - last * p;
    last * p
  }

  /** Rounding to the nearest index, a half upwards. */
  function NearestRank(s: seq<real>, p: real): real
    requires s != [] && 0.0 <= p <= 1.0
  {
    s[(Position(|s|, p) + 0.5).Floor]
  }

  /** The value a share `f` of the way from `x` to `y`. */
  function Blend(x: real, y: real, f: real): real { x + f * (y - x) }

  function Interpolated(s: seq<real>, p: real): real
    requires s != [] && 0.0 <= p <= 1.0
  {
    var h := Position(|s|, p);
    var i := h.Floor;
    if h == i as real then s[i] else Blend(s[i], s[i + 1], h - i as real)
  }

  /** The position is an element, or the elements around it are equal. */
  predicate OnElement(s: seq<real>, p: real)
    requires s != [] && 0.0 <= p <= 1.0
  {
    var h := Position(|s|, p);
    h == h.Floor as real || s[h.Floor] == s[h.Floor + 1]
  }

  lemma QuantilesAgreeExactly(s: seq<real>, p: real)
    requires s != [] && 0.0 <= p <= 1.0
    ensures Interpolated(s, p) == NearestRank(s, p) <==> OnElement(s, p)
  {
    hide Position, Blend;
    var h := Position(|s|, p);
    var f := h - h.Floor as real;
    if f != 0.0 {
      BlendIsEnd(s[h.Floor], s[h.Floor + 1], f);
      assert (h + 0.5).Floor == if f < 0.5 then h.Floor else h.Floor + 1;
    } else {
      assert (h + 0.5).Floor == h.Floor;
    }
  }

  lemma BlendIsEnd(x: real, y: real, f: real)
    requires 0.0 < f < 1.0
    ensures Blend(x, y, f) == x <==> x == y
    ensures Blend(x, y, f) == y <==> x == y
  {
    var gap := y - x;
    Scaled(f, gap);
    Scaled(f - 1.0, gap);
    assert Blend(x, y, f) - x == f * gap;
    assert Blend(x, y, f) - y == (f - 1.0) * gap;
  }

  lemma Scaled(f: real, gap: real)
    requires f != 0.0
    ensures f * gap == 0.0 <==> gap == 0.0
  {
  }

  // ----- lists -----

  function Total(l: seq<string>): nat { if l == [] then 0 else |l[0]| + Total(l[1..]) }

  lemma {:induction false} JoinLength(l: seq<string>, sep: string)
    requires l != []
    ensures |Join(l, sep)| == Total(l) + (|l| - 1) * |sep|
    decreases l
  {
    if |l| > 1 {
      JoinLength(l[1..], sep);
      assert (|l| - 1) * |sep| == (|l[1..]| - 1) * |sep| + |sep|;
    } else {
      assert Total(l[1..]) == 0;
    }
  }

  lemma {:induction false} JoinHolds(l: seq<string>, sep: string, c: char)
    requires c !in sep
    ensures c in Join(l, sep) <==> exists i :: 0 <= i < |l| && c in l[i]
    decreases l
  {
    if |l| > 1 {
      JoinHolds(l[1..], sep, c);
      if i :| 0 <= i < |l| && c in l[i] { assert i > 0 ==> c in l[1..][i - 1]; }
      if i :| 0 <= i < |l| - 1 && c in l[1..][i] { assert c in l[i + 1]; }
    }
  }

  /** Joining what the engine finds in an array gives the list's own text exactly when no NUL was lost. */
  lemma JoinDecodedExactly(l: seq<string>, sep: string)
    ensures
      Join(HiveArrays.Decode(HiveArrays.Encode(l)), sep) == Join(l, sep)
      <==> HiveArrays.NulFree(l) || sep == [HiveArrays.NUL]
  {
    var text := HiveArrays.Encode(l);
    DecodedJoins(text);
    HiveArrays.SurvivesExactly(l);
    if l != [] && !HiveArrays.NulFree(l) && sep != [HiveArrays.NUL] { NulLost(l, sep); }
  }

  lemma DecodedJoins(text: string)
    ensures Join(HiveArrays.Decode(text), [HiveArrays.NUL]) == text
  {
    HiveArrays.DecodeIsCut([], text);
    HiveArrays.CutExactly(text, [HiveArrays.NUL], HiveArrays.Decode(text));
  }

  lemma NulLost(l: seq<string>, sep: string)
    requires l != [] && !HiveArrays.NulFree(l) && sep != [HiveArrays.NUL]
    ensures Join(HiveArrays.Decode(HiveArrays.Encode(l)), sep) != Join(l, sep)
  {
    var nul, text := [HiveArrays.NUL], HiveArrays.Encode(l);
    var m := HiveArrays.Decode(text);
    HiveArrays.SurvivesExactly(l);
    DecodedJoins(text);
    DecodedNulFree(text);
    hide HiveArrays.Decode, Join, Total;
    if |sep| == 1 {
      assert HiveArrays.NUL !in sep;
      JoinHolds(m, sep, HiveArrays.NUL);
      JoinHolds(l, sep, HiveArrays.NUL);
    } else {
      JoinLength(m, sep);
      JoinLength(m, nul);
      JoinLength(l, sep);
      JoinLength(l, nul);
      LengthsDiffer(|m| - |l|, |l|, |sep|);
    }
  }

  lemma LengthsDiffer(more: int, n: nat, k: nat)
    requires more > 0
    ensures (n + more - 1) * k - more == (n - 1) * k <==> k == 1
  {
    assert (n + more - 1) * k == (n - 1) * k + more * k;
    assert more * k == more <==> k == 1 by { if k != 1 { assert more * (k - 1) != 0; } }
  }

  lemma DecodedNulFree(text: string)
    ensures HiveArrays.NulFree(HiveArrays.Decode(text))
  {
    var m, nul := HiveArrays.Decode(text), [HiveArrays.NUL];
    HiveArrays.DecodeIsCut([], text);
    forall k | 0 <= k < |m|
      ensures HiveArrays.NUL !in m[k]
    {
      if HiveArrays.NUL in m[k] {
        var i :| 0 <= i < |m[k]| && m[k][i] == HiveArrays.NUL;
        HiveArrays.PiecesHoldNoDelimiter(text, nul, k, i);
        assert HiveArrays.OccursAt(m[k], nul, i);
      }
    }
  }

  lemma {:induction false} PresentTexts(vs: seq<Cell>)
    requires Scalars(vs)
    ensures HiveArrays.NulFree(Present(ItemsOf(vs))) <==>
      forall i :: 0 <= i < |vs| && vs[i].Text? ==> HiveArrays.NUL !in vs[i].s
    ensures Present(ItemsOf(vs)) == [] ==> AllPieces(vs) == []
    ensures Present(ItemsOf(vs)) != [] ==>
      AllPieces(vs) == HiveArrays.Decode(HiveArrays.Encode(Present(ItemsOf(vs))))
    decreases vs
  {
    if vs != [] {
      var rest := vs[1..];
      var more := Present(ItemsOf(rest));
      PresentTexts(rest);
      assert ItemsOf(vs)[1..] == ItemsOf(rest);
      hide HiveArrays.Decode, HiveArrays.Encode, HiveArrays.NulFree;
      if vs[0].Text? {
        assert Present(ItemsOf(vs)) == [vs[0].s] + more;
        DecodeFirst(vs[0].s, more);
        NulFreeFirst(vs[0].s, more);
      } else {
        assert Present(ItemsOf(vs)) == more;
      }
      assert forall i :: 1 <= i < |vs| ==> vs[i] == rest[i - 1];
    }
  }

  lemma NulFreeFirst(x: string, more: seq<string>)
    ensures HiveArrays.NulFree([x] + more) <==> HiveArrays.NUL !in x && HiveArrays.NulFree(more)
  {
    var l := [x] + more;
    assert l[0] == x && forall i :: 1 <= i < |l| ==> l[i] == more[i - 1];
    if HiveArrays.NulFree(l) {
      forall i | 0 <= i < |more|
        ensures HiveArrays.NUL !in more[i]
      {
        assert l[i + 1] == more[i];
      }
    }
  }

  /** The pieces of a list's text are those of its first element, then those of the rest. */
  lemma DecodeFirst(x: string, more: seq<string>)
    ensures
      HiveArrays.Decode(HiveArrays.Encode([x] + more))
      == HiveArrays.Decode(x) + if more == [] then [] else HiveArrays.Decode(HiveArrays.Encode(more))
  {
    var l := [x] + more;
    assert l[1..] == more;
    if more != [] {
      DecodeAtNul([], x, HiveArrays.Encode(more));
      assert x + [HiveArrays.NUL] + HiveArrays.Encode(more) == HiveArrays.Encode(l);
    }
  }

  lemma {:induction false} DecodeAtNul(cur: string, x: string, z: string)
    ensures
      HiveArrays.DecodeFrom(cur, x + [HiveArrays.NUL] + z)
      == HiveArrays.DecodeFrom(cur, x) + HiveArrays.DecodeFrom([], z)
    decreases x
  {
    var t := x + [HiveArrays.NUL] + z;
    if x == [] {
      assert t[1..] == z;
    } else {
      assert t[0] == x[0] && t[1..] == x[1..] + [HiveArrays.NUL] + z;
      DecodeAtNul(if x[0] == HiveArrays.NUL then [] else cur + [x[0]], x[1..], z);
    }
  }

  // ----- the replaced calls -----

  /** The values of the argument texts as DuckDB has them. */
  function Values(e: Setting, a: seq<string>): (v: seq<Cell>)
    ensures |v| == |a| && forall i :: 0 <= i < |v| ==> v[i] == DuckValue(e, a[i])
  {
    seq(|a|, i requires 0 <= i < |a| => DuckValue(e, a[i]))
  }

  /** A written call is evaluated by applying the function to the values of its arguments. */
  lemma WrittenCall(e: Setting, f: string, a: seq<string>)
    requires '(' !in f && AreArgs(a)
    ensures DuckCallValue(e, CallText(f, Join(a, ", "))) == DuckCall(e, f, Values(e, a))
  {
    var t := CallText(f, Join(a, ", "));
    ReadWritten(f, a);
    hide DuckCall, Read, DuckValue, CallText, Join, AreArgs;
    var v := PieceValues(e, t, a);
    forall i | 0 <= i < |a|
      ensures v[i] == Values(e, a)[i]
    {
      PartLength(f, a, i);
    }
    assert v == Values(e, a);
  }

  lemma PartLength(f: string, a: seq<string>, i: nat)
    requires i < |a|
    ensures |a[i]| < |CallText(f, Join(a, ", "))|
  {
    PieceLength(a, i);
  }

  lemma {:induction false} PieceLength(a: seq<string>, i: nat)
    requires i < |a|
    ensures |a[i]| <= |Join(a, ", ")|
    decreases a
  {
    if i > 0 { PieceLength(a[1..], i - 1); }
  }

  lemma TwoValues(e: Setting, a: seq<string>)
    requires |a| == 2
    ensures Values(e, a) == [DuckValue(e, a[0]), DuckValue(e, a[1])]
    ensures Join(a, ", ") == a[0] + ", " + a[1]
    ensures AreArgs(a) ==> AreArgs([a[1], a[0]])
    ensures Join([a[1], a[0]], ", ") == a[1] + ", " + a[0]
  {
    hide DuckValue;
    assert a[1..] == [a[1]] && [a[1], a[0]][1..] == [a[0]];
  }

  function ListOf(list: Option<seq<string>>): Cell {
    match list
    case None => Null
    case Some(l) => List(AllThere(l))
  }

  function AllThere(l: seq<string>): (r: seq<Option<string>>)
    ensures |r| == |l| && forall i :: 0 <= i < |r| ==> r[i] == Some(l[i])
  {
    seq(|l|, i requires 0 <= i < |l| => Some(l[i]))
  }

  lemma {:induction false} PresentAll(l: seq<string>)
    ensures Present(AllThere(l)) == l
    decreases l
  {
    if l != [] {
      assert AllThere(l)[1..] == AllThere(l[1..]);
      PresentAll(l[1..]);
    }
  }

  /**
   `concat_ws(sep, list)` becomes `array_to_string(list, sep)`, which computes the same exactly when the list is
   not NULL and the engine's text of it lost no NUL: the engine gives the empty text for NULL.
   */
  lemma ConcatWsAgreesExactly(e: Setting, a: seq<string>, sep: string, list: Option<seq<string>>)
    requires |a| == 2 && AreArgs(a) && DuckValue(e, a[0]) == Text(sep) && DuckValue(e, a[1]) == ListOf(list)
    ensures
      var r := Replacement(ConcatWs, a);
      && r.Ok?
      && (DuckCallValue(e, r.value) == EngineCall(e, Name(ConcatWs), [Text(sep), Encoded(ListOf(list))])
          <==> list.Some? && (HiveArrays.NulFree(list.value) || sep == [HiveArrays.NUL]))
  {
    TwoValues(e, a);
    TwoValues(e, [a[1], a[0]]);
    WrittenCall(e, "array_to_string", [a[1], a[0]]);
    ArrayToStringIs(e, ListOf(list), Text(sep));
    ConcatWsOfTwo(e, sep, list);
    hide DuckValue, DuckCallValue, DuckCall, EngineCall, Join, HiveArrays.NulFree, ArrayToString, AreArgs, CallText,
        ListOf, Encoded;
  }

  lemma ArrayToStringIs(e: Setting, list: Cell, sep: Cell)
    ensures DuckCall(e, "array_to_string", [list, sep]) == ArrayToString(list, sep)
  {
  }

  lemma ConcatWsOfTwo(e: Setting, sep: string, list: Option<seq<string>>)
    ensures
      ArrayToString(ListOf(list), Text(sep)) == EngineCall(e, "concat_ws", [Text(sep), Encoded(ListOf(list))])
      <==> list.Some? && (HiveArrays.NulFree(list.value) || sep == [HiveArrays.NUL])
  {
    var v := [Text(sep), Encoded(ListOf(list))];
    assert v[1..] == [v[1]] && [v[1]][1..] == [];
    hide HiveArrays.Decode, HiveArrays.Encode, Join, HiveArrays.NulFree;
    if list.Some? {
      PresentAll(list.value);
      JoinDecodedExactly(list.value, sep);
      var pieces := HiveArrays.Decode(HiveArrays.Encode(list.value));
      assert pieces + [] == pieces;
      assert AllPieces([]) == [];
      assert AllPieces([v[1]]) == pieces;
      assert AllPieces(v[1..]) == pieces;
    } else {
      assert AllPieces([Null]) == [] + AllPieces([]);
    }
  }

  /**
   With more arguments the placeholder for DuckDB's own `concat_ws` is written. On texts and NULLs it computes the
   same exactly when no text holds a NUL character, or NUL is the separator.
   */
  lemma ConcatWsOfTextsExactly(e: Setting, a: seq<string>, sep: string, v: seq<Cell>)
    requires |a| >= 3 && AreArgs(a) && Values(e, a) == [Text(sep)] + v && Scalars(v)
    ensures
      var r := Replacement(ConcatWs, a);
      && r.Ok?
      && (DuckCallValue(e, r.value) == EngineCall(e, Name(ConcatWs), [Text(sep)] + v)
          <==> sep == [HiveArrays.NUL] || forall i :: 0 <= i < |v| && v[i].Text? ==> HiveArrays.NUL !in v[i].s)
  {
    WrittenCall(e, "duckdb_concat_ws", a);
    ConcatWsOfMany(e, sep, v);
    hide DuckValue, DuckCallValue, DuckCall, EngineCall, Join, AreArgs, CallText, Scalars;
  }

  lemma ConcatWsOfMany(e: Setting, sep: string, v: seq<Cell>)
    requires Scalars(v) && v != []
    ensures
      DuckCall(e, "duckdb_concat_ws", [Text(sep)] + v) == EngineCall(e, "concat_ws", [Text(sep)] + v)
      <==> sep == [HiveArrays.NUL] || forall i :: 0 <= i < |v| && v[i].Text? ==> HiveArrays.NUL !in v[i].s
  {
    var all := [Text(sep)] + v;
    assert all[1..] == v && Scalars(all);
    PresentTexts(v);
    JoinDecodedExactly(Present(ItemsOf(v)), sep);
    hide HiveArrays.Decode, HiveArrays.Encode, Join, HiveArrays.NulFree, Present, AllPieces, ItemsOf;
  }

  /** The list that the engine reads in an array. */
  function EngineList(v: Cell): Option<seq<Option<string>>> {
    if v.Text? then Some(AllThere(HiveArrays.Decode(v.s))) else None
  }

  /** `array(...)` becomes `list_value(...)`: the same list exactly when no value is NULL or holds a NUL character. */
  lemma ArrayAgreesExactly(e: Setting, a: seq<string>)
    requires AreArgs(a) && Scalars(Values(e, a))
    ensures
      var r, v := Replacement(MakeArray, a), Values(e, a);
      && r.Ok? && DuckCallValue(e, r.value).List?
      && (Some(DuckCallValue(e, r.value).items) == EngineList(EngineCall(e, Name(MakeArray), v))
          <==> forall i :: 0 <= i < |v| ==> v[i].Text? && HiveArrays.NUL !in v[i].s)
  {
    WrittenCall(e, "list_value", a);
    ListValueExactly(e, Values(e, a));
    hide DuckValue, DuckCallValue, DuckCall, EngineCall, Join, AreArgs, CallText, Scalars, EngineList;
  }

  lemma ListValueExactly(e: Setting, v: seq<Cell>)
    requires Scalars(v) && v != []
    ensures DuckCall(e, "list_value", v) == List(ItemsOf(v))
    ensures
      Some(ItemsOf(v)) == EngineList(EngineCall(e, "array", v))
      <==> forall i :: 0 <= i < |v| ==> v[i].Text? && HiveArrays.NUL !in v[i].s
  {
    var l := Present(ItemsOf(v));
    var decoded := HiveArrays.Decode(HiveArrays.Encode(l));
    PresentTexts(v);
    HiveArrays.SurvivesExactly(l);
    hide HiveArrays.Decode, HiveArrays.Encode, HiveArrays.NulFree, Present, AllPieces;
    if forall i :: 0 <= i < |v| ==> v[i].Text? {
      var texts := seq(|v|, i requires 0 <= i < |v| => v[i].s);
      assert ItemsOf(v) == AllThere(texts);
      PresentAll(texts);
      assert l == texts && l != [];
      if AllThere(decoded) == AllThere(l) { ThereOnce(decoded, l); }
    } else {
      var i :| 0 <= i < |v| && !v[i].Text?;
      assert ItemsOf(v)[i] == None;
    }
  }

  lemma ThereOnce(l: seq<string>, m: seq<string>)
    requires AllThere(l) == AllThere(m)
    ensures l == m
  {
    assert |AllThere(l)| == |AllThere(m)|;
    forall i | 0 <= i < |l|
      ensures l[i] == m[i]
    {
      assert AllThere(l)[i] == AllThere(m)[i];
    }
  }

  /**
   `percentile_approx(x, p)` becomes `quantile_cont(x, p)`: nearest rank and interpolation agree on a group exactly
   when the position is that of an element or lies between equal ones.
   */
  lemma PercentileAgreesExactly(e: Setting, a: seq<string>, x: seq<real>, p: real)
    requires |a| == 2 && AreArgs(a) && DuckValue(e, a[0]) == Column(x) && DuckValue(e, a[1]) == Number(p)
    requires 0.0 <= p <= 1.0
    ensures
      var r := Replacement(PercentileApprox, a);
      && r.Ok?
      && (DuckCallValue(e, r.value) == EngineCall(e, Name(PercentileApprox), Values(e, a))
          <==> x == [] || OnElement(x, p))
  {
    TwoValues(e, a);
    WrittenCall(e, "quantile_cont", a);
    QuantilesOf(e, x, p);
    hide DuckValue, DuckCallValue, DuckCall, EngineCall, Join, AreArgs, CallText, OnElement;
  }

  lemma QuantilesOf(e: Setting, x: seq<real>, p: real)
    requires 0.0 <= p <= 1.0
    ensures
      DuckCall(e, "quantile_cont", [Column(x), Number(p)]) == EngineCall(e, "percentile_approx", [Column(x), Number(p)])
      <==> x == [] || OnElement(x, p)
  {
    if x != [] { QuantilesAgreeExactly(x, p); }
    hide OnElement, Interpolated, NearestRank;
  }

  /** Dates have at most ten characters and are no date-times. */
  ghost predicate DatesAreShort(e: Setting) {
    forall s :: e.parse(DATE, s).Some? ==> |s| <= 10 && e.parse(DATE_TIME, s).None?
  }

  /**
   `unix_timestamp(x, format)` becomes `epoch(strptime(x, '%Y-%m-%d'))`: the same seconds exactly for NULL and for
   dates. The engine also reads a time, and gives NULL where DuckDB fails.
   */
  lemma UnixTimestampAgreesExactly(e: Setting, a: seq<string>)
    requires |a| == 2 && AreArgs(a) && DatesAreShort(e)
    requires DuckValue(e, a[0]).Text? || DuckValue(e, a[0]).Null?
    requires CallText("strptime", a[0] + ", " + Quoted(DATE_FORMAT)) !in e.values
    ensures
      var r, x := Replacement(UnixTimestamp, a), DuckValue(e, a[0]);
      && r.Ok?
      && (DuckCallValue(e, r.value) == EngineCall(e, Name(UnixTimestamp), Values(e, a))
          <==> x.Null? || e.parse(DATE, x.s).Some?)
  {
    hide *;
    FirstIsArg(a);
    var x := DuckValue(e, a[0]);
    UnixTimestampText(a);
    StrptimeValue(e, a[0]);
    EpochOf(e, x);
    TwoValues(e, a);
    TimeCalls(e, x, Values(e, a)[1]);
  }

  lemma FirstIsArg(a: seq<string>)
    requires AreArgs(a)
    ensures a != [] && AreArgs([a[0]])
  {
    hide IsPassed, Trimmed;
  }

  lemma UnixTimestampText(a: seq<string>)
    requires |a| == 2
    ensures
      Replacement(UnixTimestamp, a)
      == Ok(CallText("epoch", CallText("strptime", a[0] + ", " + Quoted(DATE_FORMAT))))
    ensures Name(UnixTimestamp) == "unix_timestamp"
  {
  }

  /** DuckDB evaluates the written `epoch(strptime(...))` from the inside. */
  lemma StrptimeValue(e: Setting, x: string)
    requires AreArgs([x]) && CallText("strptime", x + ", " + Quoted(DATE_FORMAT)) !in e.values
    ensures
      DuckCallValue(e, CallText("epoch", CallText("strptime", x + ", " + Quoted(DATE_FORMAT))))
      == Epoch(Strptime(e, DuckValue(e, x), Text(DATE)))
  {
    var inner := [x, Quoted(DATE_FORMAT)];
    var call := CallText("strptime", x + ", " + Quoted(DATE_FORMAT));
    QuotedFormat(e);
    TwoValues(e, inner);
    AreArgsTwo(x, Quoted(DATE_FORMAT));
    CallIsArg("strptime", inner);
    assert call[0] == 's';
    NestedCall(e, call);
    TimeCalls(e, DuckValue(e, x), Text(DATE));
    TimeCalls(e, DuckValue(e, call), Null);
    hide DuckValue, DuckCallValue, DuckCall, AreArgs, CallText, Quoted, Strptime, Epoch, Join;
    WrittenCall(e, "strptime", inner);
    WrittenCall(e, "epoch", [call]);
    assert Join([call], ", ") == call by { JoinOne(call); }
    assert Values(e, [call]) == [DuckValue(e, call)];
  }

  lemma JoinOne(x: string)
    ensures Join([x], ", ") == x
  {
  }

  lemma AreArgsTwo(x: string, y: string)
    requires AreArgs([x]) && Trimmed(y) && IsPassed(y)
    ensures AreArgs([x, y])
  {
    assert [x][0] == x;
    hide IsPassed, Trimmed;
  }

  lemma EpochOf(e: Setting, x: Cell)
    requires DatesAreShort(e) && (x.Text? || x.Null?)
    ensures Epoch(Strptime(e, x, Text(DATE))) == UnixTimestampOf(e, x) <==> x.Null? || e.parse(DATE, x.s).Some?
  {
    if x.Text? {
      assert |x.s| == 10 ==> First(x.s, 10) == x.s;
    }
  }

  lemma TimeCalls(e: Setting, x: Cell, y: Cell)
    ensures DuckCall(e, "strptime", [x, y]) == Strptime(e, x, y)
    ensures DuckCall(e, "epoch", [x]) == Epoch(x)
    ensures EngineCall(e, "unix_timestamp", [x, y]) == UnixTimestampOf(e, x)
    ensures DATE == DATE_FORMAT
  {
    hide Strptime, Epoch, UnixTimestampOf;
  }

  lemma CastCalls(e: Setting, v: seq<Cell>)
    requires v != []
    ensures DuckCall(e, "duckdb_unix_timestamp", [v[0]]) == Epoch(CastTimestamp(e, v[0]))
    ensures EngineCall(e, "unix_timestamp", v) == UnixTimestampOf(e, v[0])
  {
    hide CastTimestamp, Epoch, UnixTimestampOf;
  }

  /** Any other number of arguments leaves the macro of the same name, which casts: dates, with or without a time. */
  lemma UnixTimestampCastExactly(e: Setting, a: seq<string>)
    requires |a| != 2 && AreArgs(a) && DatesAreShort(e)
    requires DuckValue(e, a[0]).Text? || DuckValue(e, a[0]).Null?
    ensures
      var r, x := Replacement(UnixTimestamp, a), DuckValue(e, a[0]);
      && r.Ok?
      && (DuckCallValue(e, r.value) == EngineCall(e, Name(UnixTimestamp), Values(e, a))
          <==> x.Null? || e.parse(DATE, x.s).Some? || e.parse(DATE_TIME, x.s).Some?)
  {
    hide *;
    FirstIsArg(a);
    JoinOne(a[0]);
    UnixTimestampPlain(a);
    CastOf(e, DuckValue(e, a[0]));
    CastCalls(e, Values(e, a));
    assert Values(e, [a[0]]) == [DuckValue(e, a[0])];
    WrittenCall(e, "duckdb_unix_timestamp", [a[0]]);
  }

  lemma UnixTimestampPlain(a: seq<string>)
    requires a != [] && |a| != 2
    ensures Replacement(UnixTimestamp, a) == Ok(CallText("duckdb_unix_timestamp", a[0]))
    ensures Name(UnixTimestamp) == "unix_timestamp"
  {
  }

  lemma CastOf(e: Setting, x: Cell)
    requires DatesAreShort(e) && (x.Text? || x.Null?)
    ensures
      Epoch(CastTimestamp(e, x)) == UnixTimestampOf(e, x)
      <==> x.Null? || e.parse(DATE, x.s).Some? || e.parse(DATE_TIME, x.s).Some?
  {
    if x.Text? {
      assert |x.s| == 10 ==> First(x.s, 10) == x.s;
    }
  }

  /** `str_to_map` is its first argument on both sides: the engine keeps maps as their text. */
  lemma StrToMapAgrees(e: Setting, a: seq<string>)
    requires 1 <= |a| <= 3 && AreArgs(a)
    ensures
      var r := Replacement(StrToMap, a);
      r.Ok? && DuckValue(e, r.value) == EngineCall(e, Name(StrToMap), Values(e, a))
  {
    var f := Name(StrToMap);
    assert f == "str_to_map";
    assert f != "concat_ws" && f != "array";
    hide DuckValue;
  }

  /** The format is read as a literal. */
  lemma QuotedFormat(e: Setting)
    ensures DuckValue(e, Quoted(DATE_FORMAT)) == Text(DATE_FORMAT)
    ensures Trimmed(Quoted(DATE_FORMAT)) && IsPassed(Quoted(DATE_FORMAT))
  {
    FormatPassed();
    var t := Quoted(DATE_FORMAT);
    hide IsPassed, DuckCallValue;
    assert t[1..|t| - 1] == DATE_FORMAT && |DATE_FORMAT| == 8;
  }

  lemma FormatPassed()
    ensures IsPassed(Quoted(DATE_FORMAT))
  {
    DateEscaped();
    assert IsLiteral('\'', DATE_FORMAT) by { assert |DATE_FORMAT| == 8; }
    hide Scan, Cuts, IsLiteral;
    forall d: nat, prev: char
      ensures Keeps(Mode(d, None), prev, Quoted(DATE_FORMAT))
    {
      ScanLiteral(Mode(d, None), prev, '\'', DATE_FORMAT);
    }
  }

  /** A call written around arguments can itself be an argument. */
  lemma CallIsArg(f: string, a: seq<string>)
    requires f != [] && |a| == 2 && AreArgs(a) && forall i :: 0 <= i < |f| ==> 'a' <= f[i] <= 'z'
    ensures AreArgs([CallText(f, a[0] + ", " + a[1])])
  {
    var inner := a[0] + ", " + a[1];
    var t := CallText(f, inner);
    forall d: nat, prev: char
      ensures Keeps(Mode(d, None), prev, t)
    {
      CallPassed(f, a[0], a[1], d, prev);
    }
    assert t[0] == f[0] && t[|t| - 1] == ')';
  }

  lemma CallPassed(f: string, a: string, b: string, d: nat, prev: char)
    requires IsPassed(a) && IsPassed(b) && forall i :: 0 <= i < |f| ==> 'a' <= f[i] <= 'z'
    ensures Keeps(Mode(d, None), prev, CallText(f, a + ", " + b))
  {
    var m, m1, inner := Mode(d, None), Mode(d + 1, None), a + ", " + b;
    hide IsPassed;
    ScanPlain(m, prev, f);
    PassedAt(a, d + 1, '(');
    PassedAt(b, d + 1, LastOr(LastOr('(', a), ", "));
    CommaPassed(d + 1, LastOr('(', a));
    hide Scan, Cuts;
    ScanTwo(m1, LastOr('(', a), ", ", b);
    ScanTwo(m1, '(', a, ", " + b);
    assert a + (", " + b) == inner;
    ScanGroup(m, LastOr(prev, f), inner);
    ScanTwo(m, prev, f, "(" + inner + ")");
    assert f + ("(" + inner + ")") == CallText(f, inner);
  }

  lemma PassedAt(s: string, d: nat, prev: char)
    requires IsPassed(s)
    ensures Keeps(Mode(d, None), prev, s)
  {
  }

  lemma CommaPassed(d: nat, prev: char)
    requires d > 0
    ensures Keeps(Mode(d, None), prev, ", ")
  {
    var s := ", ";
    assert s[1..] == " " && " "[1..] == [];
    assert Scan(Mode(d, None), ',', " ") == Mode(d, None) && Cuts(Mode(d, None), ',', " ") == 0;
  }

  /** What is neither a literal nor given a value is evaluated as a call. */
  lemma NestedCall(e: Setting, t: string)
    requires t !in e.values && t != [] && t[0] != '\''
    ensures DuckValue(e, t) == DuckCallValue(e, t)
  {
  }

  // ----- arguments -----

  /** The trimmed argument texts of a well-formed call can stand between commas. */
  lemma {:induction false} TreeArgsAreArgs(k: Target, args: Args)
    requires IsName(k.name) && WfArgs(k, args)
    ensures AreArgs(ArgTexts(args))
    decreases args
  {
    hide IsPassed;
    CallRewriter.TrimmedArgsOk(k, args);
    OneTreeArg(k, args.arg);
    if args.More? {
      TreeArgsAreArgs(k, args.others);
      var a, more := ArgTexts(args), ArgTexts(args.others);
      assert forall i :: 1 <= i < |a| ==> a[i] == more[i - 1];
    }
  }

  lemma OneTreeArg(k: Target, t: Sql)
    requires IsName(k.name) && Wf(k, t, []) && NoTopComma(t)
    ensures Trimmed(Strip(Print(t))) && IsPassed(Strip(Print(t)))
  {
    var u := CallRewriter.Trim(t);
    CallRewriter.PrintTrim(k, t);
    CallRewriter.WfTrimLeft(k, t, []);
    CallRewriter.WfTrimRight(k, CallRewriter.TrimLeft(t), []);
    TrimKeepsNoComma(t);
    var lead, tail := StripParts(Print(t));
    forall d: nat, prev: char
      ensures Keeps(Mode(d, None), prev, Print(u))
    {
      ScanPrint(k, u, [], Mode(d, None), prev);
    }
  }

  lemma {:induction false} TrimKeepsNoComma(t: Sql)
    requires NoTopComma(t)
    ensures NoTopComma(CallRewriter.Trim(t))
  {
    LeftKeepsNoComma(t);
    RightKeepsNoComma(CallRewriter.TrimLeft(t));
  }

  lemma LeftKeepsNoComma(t: Sql)
    requires NoTopComma(t)
    ensures NoTopComma(CallRewriter.TrimLeft(t))
  {
  }

  lemma RightKeepsNoComma(t: Sql)
    requires NoTopComma(t)
    ensures NoTopComma(CallRewriter.TrimRight(t))
  {
  }
}

/**
 What the rewritten constructs mean on both sides. The Hive side follows the engine's own
 evaluation of `split(...)[n]`, `slice` and `posexplode` on arrays encoded as text; the DuckDB
 side uses lists, one-based `list_extract`, inclusive `list_slice` with negative positions counted
 from the end, and `UNNEST(range(1, len + 1))`.
 */
module HiveMeaning {
  import opened Text
  import opened HiveArrays

  // ----- lists -----

  /** Element `n` counted from zero, or NULL. */
  function HiveElement<T>(l: seq<T>, n: nat): Option<T> {
    if n < |l| then Some(l[n]) else None
  }

  /** Element `n` counted from one; negative positions count from the end. */
  function ListExtract<T>(l: seq<T>, n: int): Option<T> {
    var i := if n < 0 then |l| + n else n - 1;
    if 0 <= i < |l| then Some(l[i]) else None
  }

  function Min(a: int, b: int): int { if a < b then a else b }

  function Max(a: int, b: int): int { if a < b then b else a }

  /** The engine's `SLICE(l, start, length)`: a start at or below zero counts from the end. */
  function HiveSlice<T>(l: seq<T>, start: int, length: int): seq<T> {
    var begin := if start > 0 then start - 1 else Max(|l| + start, 0);
    var end := Min(begin + Max(length, 0), |l|);
    if begin >= |l| then [] else l[begin..end]
  }

  /** `list_slice(l, from, to)`, both ends one-based and inclusive. */
  function ListSlice<T>(l: seq<T>, from: int, to: int): seq<T> {
    var lo := Max(if from < 0 then |l| + 1 + from else from, 1);
    var hi := Min(if to < 0 then |l| + 1 + to else to, |l|);
    if lo <= hi then l[lo - 1..hi] else []
  }

  /** Zero-based element access is one-based access one further. */
  lemma ElementShift<T>(l: seq<T>, n: nat)
    ensures ListExtract(l, n + 1) == HiveElement(l, n)
  {
  }

  /**
   Exactly when a list of `n` elements, a start `b` and a length `c` make the two slices agree
   for every content: always for a start of at least one with a length that is not negative.
   */
  predicate SliceAgrees(n: nat, b: int, c: int) {
    || n == 0
    || (b >= 1 && (c >= 0 || b + c > 0 || b > n || c < 0 - n))
    || (b == 0 && (c == 1 || c <= 0 - n))
    || (b < 0 && if b + c <= 0 then -b <= n || c <= 0 || c == -b else b + c - 1 >= n)
  }

  lemma SliceShift<T>(l: seq<T>, b: int, c: int)
    requires SliceAgrees(|l|, b, c)
    ensures ListSlice(l, b, b + c - 1) == HiveSlice(l, b, c)
  {
  }

  /** Where the guard fails, a list with distinct elements tells the slices apart. */
  lemma SliceDiffers(n: nat, b: int, c: int)
    requires !SliceAgrees(n, b, c)
    ensures
      var l := seq(n, i requires 0 <= i < n => i);
      ListSlice(l, b, b + c - 1) != HiveSlice(l, b, c)
  {
    var l := seq(n, i requires 0 <= i < n => i);
    var h, d := HiveSlice(l, b, c), ListSlice(l, b, b + c - 1);
    var begin := if b > 0 then b - 1 else Max(n + b, 0);
    var end := Min(begin + Max(c, 0), n);
    var lo := Max(if b < 0 then n + 1 + b else b, 1);
    var to := b + c - 1;
    var hi := Min(if to < 0 then n + 1 + to else to, n);
    assert |h| == if begin >= n then 0 else end - begin;
    assert |d| == if lo <= hi then hi - lo + 1 else 0;
    assert |h| != |d|;
  }

  /** The two slices agree on every list of length `n` if and only if the guard holds. */
  lemma SliceAgreesExactly(n: nat, b: int, c: int)
    ensures SliceAgrees(n, b, c)
       <==> forall l: seq<int> :: |l| == n ==> ListSlice(l, b, b + c - 1) == HiveSlice(l, b, c)
  {
    if SliceAgrees(n, b, c) {
      forall l: seq<int> | |l| == n
        ensures ListSlice(l, b, b + c - 1) == HiveSlice(l, b, c)
      {
        SliceShift(l, b, c);
      }
    } else {
      SliceDiffers(n, b, c);
      var l := seq(n, i requires 0 <= i < n => i);
      assert |l| == n;
    }
  }

  /** Element `n` of the engine's slice is element `n` from its start on, as long as the length reaches it. */
  lemma HiveSliceElements<T>(l: seq<T>, b: int, c: int, n: nat)
    ensures
      HiveElement(HiveSlice(l, b, c), n)
      == if n < c then HiveElement(l, n + if b > 0 then b - 1 else Max(|l| + b, 0)) else None
  {
  }

  /** Position `n` of an inclusive slice, and what positions below one stand for. */
  lemma ListSliceElements<T>(l: seq<T>, from: int, to: int, n: nat)
    requires n >= 1
    ensures from >= 1 && to >= 0 ==>
      ListExtract(ListSlice(l, from, to), n) == if from + n - 1 <= to then ListExtract(l, from + n - 1) else None
    ensures from < 0 ==> ListSlice(l, from, to) == ListSlice(l, Max(|l| + 1 + from, 1), to)
    ensures from == 0 ==> ListSlice(l, from, to) == ListSlice(l, 1, to)
    ensures to < 0 ==> ListSlice(l, from, to) == ListSlice(l, from, Max(|l| + 1 + to, 0))
  {
  }

  // ----- posexplode -----

  /** A row of a lateral view: the position and the value are NULL in an outer row without a match. */
  datatype Exploded<R> = Exploded(row: R, pos: Option<int>, value: Option<string>)

  function Enumerated<R>(row: R, items: seq<string>): (r: seq<Exploded<R>>)
    ensures |r| == |items|
    ensures forall i :: 0 <= i < |r| ==> r[i] == Exploded(row, Some(i), Some(items[i]))
  {
    seq(|items|, i requires 0 <= i < |items| => Exploded(row, Some(i), Some(items[i])))
  }

  /** The engine's loop body for one row; a NULL array gives a row only under OUTER. */
  function HivePosExplode<R>(outer: bool, row: R, encoded: Option<string>): seq<Exploded<R>> {
    match encoded
    case None => if outer then [Exploded(row, None, None)] else []
    case Some(s) => Enumerated(row, Decode(s))
  }

  /** `range(from, to)`, the upper end excluded. */
  function Range(from: int, to: int): (r: seq<int>)
    decreases to - from
    ensures |r| == Max(to - from, 0)
    ensures forall i :: 0 <= i < |r| ==> r[i] == from + i
  {
    if from < to then [from] + Range(from + 1, to) else []
  }

  /** `SELECT item_pos - 1, list_extract(l, item_pos) FROM UNNEST(range(1, len(l) + 1)) u(item_pos)` */
  function DuckInner<R>(row: R, list: Option<seq<string>>): seq<Exploded<R>> {
    match list
    case None => []
    case Some(items) =>
      var positions := Range(1, |items| + 1);
      seq(|positions|, i requires 0 <= i < |positions| =>
        Exploded(row, Some(positions[i] - 1), ListExtract(items, positions[i])))
  }

  /** CROSS JOIN keeps the inner rows, LEFT JOIN ... ON TRUE adds a NULL row where there are none. */
  function DuckLateral<R>(outer: bool, row: R, list: Option<seq<string>>): seq<Exploded<R>> {
    var inner := DuckInner(row, list);
    if outer && inner == [] then [Exploded(row, None, None)] else inner
  }

  function EncodeList(list: Option<seq<string>>): Option<string> {
    match list
    case None => None
    case Some(l) => Some(Encode(l))
  }

  /** The list is NULL or survives the engine's encoding. */
  predicate Explodes(list: Option<seq<string>>) { list.Some? ==> list.value != [] && NulFree(list.value) }

  lemma DuckInnerIs<R>(row: R, items: seq<string>)
    ensures DuckInner(row, Some(items)) == Enumerated(row, items)
  {
    var d, h := DuckInner(row, Some(items)), Enumerated(row, items);
    forall i | 0 <= i < |items|
      ensures d[i] == h[i]
    {
      ElementShift(items, i);
    }
  }

  /**
   The two views agree on a row exactly when the list is NULL, or holds an element and no NUL: an
   empty list is one empty element to the engine, with or without OUTER.
   */
  lemma PosExplodeAgreesExactly<R>(outer: bool, row: R, list: Option<seq<string>>)
    ensures DuckLateral(outer, row, list) == HivePosExplode(outer, row, EncodeList(list)) <==> Explodes(list)
    ensures |DuckLateral(outer, row, list)| <= |HivePosExplode(outer, row, EncodeList(list))|
  {
    if list.Some? {
      var items := list.value;
      var decoded := Decode(Encode(items));
      SurvivesExactly(items);
      DuckInnerIs(row, items);
      hide Decode, Encode, DuckInner;
      var h, d := Enumerated(row, decoded), DuckLateral(outer, row, list);
      if items == [] {
        assert d == [] || d[0].pos == None;
        assert h[0].pos == Some(0);
      }
    }
  }

  function HiveView<R>(outer: bool, rows: seq<R>, list: R -> Option<seq<string>>): seq<Exploded<R>> {
    if rows == [] then []
    else HivePosExplode(outer, rows[0], EncodeList(list(rows[0]))) + HiveView(outer, rows[1..], list)
  }

  function DuckView<R>(outer: bool, rows: seq<R>, list: R -> Option<seq<string>>): seq<Exploded<R>> {
    if rows == [] then []
    else DuckLateral(outer, rows[0], list(rows[0])) + DuckView(outer, rows[1..], list)
  }

  lemma SplitEqual<T>(a: seq<T>, b: seq<T>, c: seq<T>, d: seq<T>)
    requires |a| <= |c| && |b| <= |d|
    ensures a + b == c + d <==> a == c && b == d
  {
    if a + b == c + d {
      assert |a + b| == |c + d|;
      assert (a + b)[..|a|] == a && (c + d)[..|c|] == c;
      assert (a + b)[|a|..] == b && (c + d)[|c|..] == d;
    }
  }

  /** Whole tables: the rewritten join returns the view's rows in order exactly when every row's list explodes alike. */
  lemma {:induction false} LateralViewsAgreeExactly<R>(outer: bool, rows: seq<R>, list: R -> Option<seq<string>>)
    ensures
      DuckView(outer, rows, list) == HiveView(outer, rows, list)
      <==> forall i :: 0 <= i < |rows| ==> Explodes(list(rows[i]))
    ensures |DuckView(outer, rows, list)| <= |HiveView(outer, rows, list)|
  {
    if rows != [] {
      hide DuckLateral, HivePosExplode, Explodes;
      PosExplodeAgreesExactly(outer, rows[0], list(rows[0]));
      LateralViewsAgreeExactly(outer, rows[1..], list);
      SplitEqual(DuckLateral(outer, rows[0], list(rows[0])), DuckView(outer, rows[1..], list),
                 HivePosExplode(outer, rows[0], EncodeList(list(rows[0]))), HiveView(outer, rows[1..], list));
      assert forall i :: 1 <= i < |rows| ==> rows[i] == rows[1..][i - 1];
    }
  }

  // ----- expressions -----

  /** `Items` occurs on the DuckDB side only: an array of the engine is a `Str`. */
  datatype Value = Null | Int(i: int) | Str(s: string) | Items(l: seq<string>) | TypeError

  /** The columns of a row. */
  type World = string -> Value

  predicate IsScalar(v: Value) { !v.Items? }

  ghost predicate Scalars(w: World) { forall name :: IsScalar(w(name)) }

  datatype Expr =
    | Col(name: string)
    | Num(n: nat)
    | Quote(body: string)
    | SplitAll(s: Expr, d: Expr)
    | SplitAt(s: Expr, d: Expr, n: nat)
    | SliceOf(a: Expr, b: Expr, c: Expr)

  /** DuckDB expressions as the rewriter writes them; `Span` is `(b) + (c) - 1`. */
  datatype Duck =
    | DCol(name: string)
    | DNum(n: nat)
    | DQuote(body: string)
    | DSplit(s: Duck, d: Duck)
    | DExtract(s: Duck, d: Duck, n: nat)
    | DSlice(a: Duck, b: Duck, to: Duck)
    | DSpan(b: Duck, c: Duck)

  function Translate(e: Expr): Duck {
    match e
    case Col(name) => DCol(name)
    case Num(n) => DNum(n)
    case Quote(body) => DQuote(body)
    case SplitAll(s, d) => DSplit(Translate(s), Translate(d))
    case SplitAt(s, d, n) => DExtract(Translate(s), Translate(d), n + 1)
    case SliceOf(a, b, c) =>
      var b' := Translate(b);
      DSlice(Translate(a), b', DSpan(b', Translate(c)))
  }

  predicate IsArray(e: Expr) { e.SplitAll? || e.SliceOf? }

  /** Splits take scalars and slices take an array and two scalars, as DuckDB's types demand. */
  predicate Typed(e: Expr) {
    match e
    case Col(_) => true
    case Num(_) => true
    case Quote(_) => true
    case SplitAll(s, d) => Typed(s) && Typed(d) && !IsArray(s) && !IsArray(d)
    case SplitAt(s, d, _) => Typed(s) && Typed(d) && !IsArray(s) && !IsArray(d)
    case SliceOf(a, b, c) => Typed(a) && Typed(b) && Typed(c) && IsArray(a) && !IsArray(b) && !IsArray(c)
  }

  predicate IsNumeric(v: Value) { v.Int? || v.Null? }

  /** `SPLIT` of the engine: the pieces joined by NUL. */
  function EngineCutValue(s: Value, d: Value): Value {
    if !(s.Str? || s.Null?) || !(d.Str? || d.Null?) then TypeError
    else if s.Str? && d.Str? then Str(Encode(RustCut(s.s, d.s)))
    else Null
  }

  function DuckCutValue(s: Value, d: Value): Value {
    if !(s.Str? || s.Null?) || !(d.Str? || d.Null?) then TypeError
    else if s.Str? && d.Str? then Items(DuckCut(s.s, d.s))
    else Null
  }

  function FromOption(o: Option<string>): Value {
    match o
    case None => Null
    case Some(s) => Str(s)
  }

  function EngineSliceValue(l: Value, b: Value, c: Value): Value {
    if !(l.Str? || l.Null?) || !IsNumeric(b) || !IsNumeric(c) then TypeError
    else if l.Str? && b.Int? && c.Int? then Str(Encode(HiveSlice(Decode(l.s), b.i, c.i)))
    else Null
  }

  function DuckSliceValue(l: Value, from: Value, to: Value): Value {
    if !(l.Items? || l.Null?) || !IsNumeric(from) || !IsNumeric(to) then TypeError
    else if l.Items? && from.Int? && to.Int? then Items(ListSlice(l.l, from.i, to.i))
    else Null
  }

  function Add(b: Value, c: Value): Value {
    if !IsNumeric(b) || !IsNumeric(c) then TypeError
    else if b.Int? && c.Int? then Int(b.i + c.i)
    else Null
  }

  /** `(b) + (c) - 1` */
  function SpanValue(b: Value, c: Value): Value { Add(Add(b, c), Int(-1)) }

  function EngineEval(w: World, e: Expr): Value {
    match e
    case Col(name) => w(name)
    case Num(n) => Int(n)
    case Quote(body) => Str(body)
    case SplitAll(s, d) => EngineCutValue(EngineEval(w, s), EngineEval(w, d))
    case SplitAt(s, d, n) =>
      var l := EngineCutValue(EngineEval(w, s), EngineEval(w, d));
      if l.Str? then FromOption(HiveElement(Decode(l.s), n)) else l
    case SliceOf(a, b, c) => EngineSliceValue(EngineEval(w, a), EngineEval(w, b), EngineEval(w, c))
  }

  function DuckEval(w: World, e: Duck): Value {
    match e
    case DCol(name) => w(name)
    case DNum(n) => Int(n)
    case DQuote(body) => Str(body)
    case DSplit(s, d) => DuckCutValue(DuckEval(w, s), DuckEval(w, d))
    case DExtract(s, d, n) =>
      var l := DuckCutValue(DuckEval(w, s), DuckEval(w, d));
      if l.Items? then FromOption(ListExtract(l.l, n)) else l
    case DSlice(a, b, to) => DuckSliceValue(DuckEval(w, a), DuckEval(w, b), DuckEval(w, to))
    case DSpan(b, c) => SpanValue(DuckEval(w, b), DuckEval(w, c))
  }

  /** On texts, arrays and whole numbers nothing fails, and a value is missing exactly where an operand is. */
  lemma NullsPropagate(s: Value, d: Value, l: Value, b: Value, c: Value)
    requires (s.Str? || s.Null?) && (d.Str? || d.Null?) && IsNumeric(b) && IsNumeric(c)
    ensures EngineCutValue(s, d) == Null <==> s.Null? || d.Null?
    ensures DuckCutValue(s, d) == Null <==> s.Null? || d.Null?
    ensures EngineCutValue(s, d) != TypeError && DuckCutValue(s, d) != TypeError
    ensures l.Str? || l.Null? ==>
      EngineSliceValue(l, b, c) != TypeError && (EngineSliceValue(l, b, c) == Null <==> l.Null? || b.Null? || c.Null?)
    ensures l.Items? || l.Null? ==>
      && DuckSliceValue(l, b, SpanValue(b, c)) != TypeError
      && (DuckSliceValue(l, b, SpanValue(b, c)) == Null <==> l.Null? || b.Null? || c.Null?)
  {
    hide Decode, Encode, HiveSlice, ListSlice, RustCut, DuckCut;
  }

  /** The engine's form of a DuckDB value. */
  function EncodeValue(v: Value): Value { if v.Items? then Str(Encode(v.l)) else v }

  predicate SplitFits(s: Value, d: Value) { s.Str? && d.Str? ==> CutFits(s.s, d.s) }

  predicate SliceFits(l: Value, b: Value, c: Value) {
    l.Items? && b.Int? && c.Int? ==> SliceAgrees(|l.l|, b.i, c.i)
  }

  /** Every split and every slice the expression computes on this row is one on which the engines agree. */
  predicate Agreeable(w: World, e: Expr) {
    match e
    case Col(_) => true
    case Num(_) => true
    case Quote(_) => true
    case SplitAll(s, d) =>
      Agreeable(w, s) && Agreeable(w, d) && SplitFits(DuckEval(w, Translate(s)), DuckEval(w, Translate(d)))
    case SplitAt(s, d, _) =>
      Agreeable(w, s) && Agreeable(w, d) && SplitFits(DuckEval(w, Translate(s)), DuckEval(w, Translate(d)))
    case SliceOf(a, b, c) =>
      && Agreeable(w, a) && Agreeable(w, b) && Agreeable(w, c)
      && SliceFits(DuckEval(w, Translate(a)), DuckEval(w, Translate(b)), DuckEval(w, Translate(c)))
  }

  /** A scalar, or an array without NUL. */
  predicate Shaped(e: Expr, v: Value) { if IsArray(e) then !v.Str? && (v.Items? ==> NulFree(v.l)) else !v.Items? }

  /** The translation preserves meaning: the engine computes the encoding of what DuckDB computes. */
  lemma {:induction false} TranslationPreservesMeaning(w: World, e: Expr)
    requires Scalars(w) && Typed(e) && Agreeable(w, e)
    ensures EngineEval(w, e) == EncodeValue(DuckEval(w, Translate(e)))
    ensures Shaped(e, DuckEval(w, Translate(e)))
    decreases e
  {
    hide EngineCutValue, DuckCutValue, EngineSliceValue, DuckSliceValue, SpanValue, SplitFits, SliceFits, Encode,
        Decode;
    match e
    case Col(_) =>
    case Num(_) =>
    case Quote(_) =>
    case SplitAll(s, d) =>
      TranslationPreservesMeaning(w, s);
      TranslationPreservesMeaning(w, d);
      SplitValuesAgree(DuckEval(w, Translate(s)), DuckEval(w, Translate(d)));
    case SplitAt(s, d, n) =>
      TranslationPreservesMeaning(w, s);
      TranslationPreservesMeaning(w, d);
      var x, y := DuckEval(w, Translate(s)), DuckEval(w, Translate(d));
      SplitValuesAgree(x, y);
      var l := DuckCutValue(x, y);
      if l.Items? { ElementShift(l.l, n); }
    case SliceOf(a, b, c) =>
      TranslationPreservesMeaning(w, a);
      TranslationPreservesMeaning(w, b);
      TranslationPreservesMeaning(w, c);
      SliceValuesAgree(DuckEval(w, Translate(a)), DuckEval(w, Translate(b)), DuckEval(w, Translate(c)));
  }

  /** Where a split fits, the engine's text encodes DuckDB's list and decodes to it. */
  lemma SplitValuesAgree(s: Value, d: Value)
    requires SplitFits(s, d)
    ensures
      var l := DuckCutValue(s, d);
      && EngineCutValue(s, d) == EncodeValue(l) && !l.Str? && !l.Int?
      && (l.Items? ==> NulFree(l.l) && Decode(Encode(l.l)) == l.l)
  {
    if s.Str? && d.Str? {
      SurvivesExactly(CutFrom([], s.s, d.s));
    }
  }

  lemma SliceValuesAgree(l: Value, b: Value, c: Value)
    requires !l.Str? && (l.Items? ==> NulFree(l.l)) && !b.Items? && !c.Items? && SliceFits(l, b, c)
    ensures
      var r := DuckSliceValue(l, b, SpanValue(b, c));
      && EngineSliceValue(EncodeValue(l), b, c) == EncodeValue(r)
      && !r.Str? && (r.Items? ==> NulFree(r.l))
  {
    if l.Items? && b.Int? && c.Int? {
      hide Decode, HiveSlice, ListSlice, SliceAgrees;
      SliceShift(l.l, b.i, c.i);
      SurvivesExactly(l.l);
      SlicesOfNothing(b.i, c.i);
      SliceNulFree(l.l, b.i, b.i + c.i - 1);
    }
  }

  /** The empty list is one empty element to the engine, and no slice of it has any text. */
  lemma SlicesOfNothing(b: int, c: int)
    ensures Decode([]) == [[]] && Encode([]) == []
    ensures Encode(HiveSlice([[]], b, c)) == [] && ListSlice<string>([], b, b + c - 1) == []
  {
    assert Decode([]) == [[]];
    assert Encode([[]]) == [];
    var r: seq<string> := HiveSlice([[]], b, c);
    assert r == [] || r == [[]];
  }

  lemma SliceNulFree(l: seq<string>, from: int, to: int)
    requires NulFree(l)
    ensures NulFree(ListSlice(l, from, to))
  {
  }

  lemma CutLone(s: string, d: string)
    requires |s| == |d| == 1 && s != d
    ensures CutFrom([], s, d) == [s]
  {
    var nothing: string := [];
    assert s[..1] == s && s[1..] == nothing && nothing + [s[0]] == s;
    assert CutFrom(s, nothing, d) == [s + nothing];
    assert CutFrom(nothing, s, d) == CutFrom(nothing + [s[0]], s[1..], d);
  }

  /** `posexplode(slice(split('a', ','), 2, 1))`: the engine emits the row (0, "") and DuckDB none. */
  lemma EmptySliceExplodes<R>(w: World, row: R)
    ensures
      var e := SliceOf(SplitAll(Quote("a"), Quote(",")), Num(2), Num(1));
      && EngineEval(w, e) == Str([]) && DuckEval(w, Translate(e)) == Items([])
      && HivePosExplode(false, row, Some([])) == [Exploded(row, Some(0), Some([]))]
      && DuckLateral(false, row, Some([])) == []
  {
    EmptySliceValues(w);
    assert Decode([]) == [[]];
    DuckInnerIs(row, []);
    hide EngineEval, DuckEval, Decode, DuckInner;
  }

  lemma EmptySliceValues(w: World)
    ensures
      var e := SliceOf(SplitAll(Quote("a"), Quote(",")), Num(2), Num(1));
      EngineEval(w, e) == Str([]) && DuckEval(w, Translate(e)) == Items([])
  {
    var cut := CutFrom([], "a", ",");
    CutLone("a", ",");
    SurvivesExactly(cut);
    assert HiveSlice(["a"], 2, 1) == [] && ListSlice(["a"], 2, 2) == [] && Encode([]) == [];
    hide Encode, Decode, CutFrom, HiveSlice, ListSlice;
    assert EngineEval(w, SplitAll(Quote("a"), Quote(","))) == Str(Encode(cut));
    assert DuckEval(w, DSplit(DQuote("a"), DQuote(","))) == Items(cut);
  }
}

/**
 `_rewrite_indexed_split`: `split(s, d)[n]` becomes `list_extract(string_split(s, d), n + 1)`.
 The loop moves a cursor instead of starting over, so it ends on every text; on a well-formed
 tree it rewrites the indexed splits that are not inside the arguments of another split.
 */
module IndexedSplit {
  import opened Text
  import opened ArgScanner
  import opened CallSearch
  import opened SqlTree
  import opened CallTemplates
  import opened CallRewriter

  const SPLIT := Target("split", false)

  // ----- decimal numbers -----

  predicate IsDigit(c: char) { '0' <= c <= '9' }

  function DigitValue(c: char): nat
    requires IsDigit(c)
  {
    c as int - '0' as int
  }

  function DigitCount(s: string): (n: nat)
    ensures n <= |s| && forall i :: 0 <= i < n ==> IsDigit(s[i])
  {
    if s != [] && IsDigit(s[0]) then
      var n := DigitCount(s[1..]);
      assert forall i :: 1 <= i < n + 1 ==> s[i] == s[1..][i - 1];
      n + 1
    else 0
  }

  /** `int(digits)` */
  function Decimal(s: string): nat
    requires forall i :: 0 <= i < |s| ==> IsDigit(s[i])
  {
    if s == [] then 0 else Decimal(s[..|s| - 1]) * 10 + DigitValue(s[|s| - 1])
  }

  /** `str(n)` */
  function Show(n: nat): (s: string)
    ensures s != [] && forall i :: 0 <= i < |s| ==> IsDigit(s[i])
  {
    if n < 10 then [(n + '0' as int) as char] else Show(n / 10) + [(n % 10 + '0' as int) as char]
  }

  lemma {:induction false} DecimalShow(n: nat)
    ensures Decimal(Show(n)) == n
  {
    var s := Show(n);
    if n >= 10 {
      DecimalShow(n / 10);
      assert s[..|s| - 1] == Show(n / 10);
    } else {
      assert s[..0] == [];
    }
  }

  // ----- the loop on any text -----

  datatype Index = Index(n: nat, rest: string)

  /** `re.match(r"\s*\[\s*(\d+)\s*\]", s)`: the number and what follows the bracket. */
  function IndexPrefix(s: string): (r: Option<Index>)
    ensures r.Some? ==> |r.value.rest| < |s|
  {
    LStripShorter(s);
    var a := LStrip(s);
    if a != [] && a[0] == '[' then
      LStripShorter(a[1..]);
      var b := LStrip(a[1..]);
      var n := DigitCount(b);
      LStripShorter(b[n..]);
      var c := LStrip(b[n..]);
      if n > 0 && c != [] && c[0] == ']' then Some(Index(Decimal(b[..n]), c[1..])) else None
    else None
  }

  lemma LStripShorter(s: string)
    ensures |LStrip(s)| <= |s|
  {
  }

  function Extraction(a: string, b: string, n: nat): string {
    CallText("list_extract", CallText("string_split", a + ", " + b) + (", " + Show(n)))
  }

  function RewriteFrom(sql: string, start: nat): Result<string>
    requires start <= |sql|
    decreases |sql| - start
  {
    match Search(sql, SPLIT.name, start)
    case None => Ok(sql)
    case Some(m) =>
      var end := Close(sql, m.end, Mode(1, None));
      match IndexPrefix(sql[end..])
      case None => RewriteFrom(sql, end)
      case Some(index) =>
        var args := Pieces(Inside(sql, m.end, end));
        if |args| < 2 then IndexError
        else
          var left := sql[..m.start] + Extraction(args[0], args[1], index.n + 1);
          RewriteFrom(left + index.rest, |left|)
  }

  method RewriteIndexedSplit(sql: string) returns (r: Result<string>)
    ensures r == RewriteFrom(sql, 0)
  {
    hide IndexPrefix, Extraction, Pieces, Search, Close, Inside;
    var text := sql;
    var start: nat := 0;
    while true
      invariant start <= |text|
      invariant RewriteFrom(text, start) == RewriteFrom(sql, 0)
      decreases |text| - start
    {
      var found := Search(text, SPLIT.name, start);
      if found.None? { return Ok(text); }
      var m := found.value;
      var end := FindClose(text, m.end);
      var indexed := IndexPrefix(text[end..]);
      if indexed.None? {
        start := end;
        continue;
      }
      var args := SplitArgs(Inside(text, m.end, end));
      if |args| < 2 { return IndexError; }
      var left := text[..m.start] + Extraction(args[0], args[1], indexed.value.n + 1);
      text := left + indexed.value.rest;
      start := |left|;
    }
  }

  /** Text left of the cursor is final. */
  lemma {:induction false} LeftOfCursorIsFinal(sql: string, start: nat)
    requires start <= |sql| && RewriteFrom(sql, start).Ok?
    ensures sql[..start] <= RewriteFrom(sql, start).value
    decreases |sql| - start
  {
    hide IndexPrefix, Extraction, Pieces, Search, Close, Inside;
    var found := Search(sql, SPLIT.name, start);
    if found.Some? {
      var m := found.value;
      var end := Close(sql, m.end, Mode(1, None));
      match IndexPrefix(sql[end..])
      case None =>
        LeftOfCursorIsFinal(sql, end);
        PrefixChain(sql, start, end, RewriteFrom(sql, end).value);
      case Some(index) =>
        var args := Pieces(Inside(sql, m.end, end));
        var cut := Extraction(args[0], args[1], index.n + 1);
        var left := sql[..m.start] + cut;
        LeftOfCursorIsFinal(left + index.rest, |left|);
        SplicedPrefix(sql, start, m.start, cut, index.rest, RewriteFrom(left + index.rest, |left|).value);
    }
  }

  lemma PrefixChain(sql: string, i: nat, j: nat, out: string)
    requires i <= j <= |sql| && sql[..j] <= out
    ensures sql[..i] <= out
  {
    assert sql[..i] <= sql[..j];
  }

  lemma SplicedPrefix(sql: string, i: nat, j: nat, cut: string, rest: string, out: string)
    requires i <= j <= |sql| && (sql[..j] + cut + rest)[..|sql[..j] + cut|] <= out
    ensures sql[..i] <= out
  {
    var left := sql[..j] + cut;
    assert (left + rest)[..|left|] == left;
    assert sql[..i] <= left;
  }

  // ----- the rewriting on trees -----

  function DigitsOf(t: Sql): (r: (string, Sql))
    ensures Size(r.1) <= Size(t)
    ensures forall i :: 0 <= i < |r.0| ==> IsDigit(r.0[i])
  {
    if t.Ch? && IsDigit(t.c) then var (ds, rest) := DigitsOf(t.rest); ([t.c] + ds, rest) else ([], t)
  }

  datatype TreeIndex = TreeIndex(n: nat, rest: Sql)

  /** The index right after a call, if there is one. */
  function IndexOf(t: Sql): (r: Option<TreeIndex>)
    ensures r.Some? ==> Size(r.value.rest) < Size(t)
  {
    var a := TrimLeft(t);
    if a.Ch? && a.c == '[' then
      var (ds, b) := DigitsOf(TrimLeft(a.rest));
      var c := TrimLeft(b);
      if ds != [] && c.Ch? && c.c == ']' then Some(TreeIndex(Decimal(ds), c.rest)) else None
    else None
  }

  /** `list_extract(string_split(a, b), n)` */
  function ExtractionTemplate(n: nat): Template {
    TCall("list_extract", TText("string_split", TGroup(Pair(0, 1), TText(", " + Show(n), TEnd))))
  }

  function Indexed(t: Sql): Sql
    decreases Size(t)
  {
    match t
    case End => End
    case Ch(c, r) => Ch(c, Indexed(r))
    case Lit(q, body, r) => Lit(q, body, Indexed(r))
    case Paren(inner, r) => Paren(Indexed(inner), Indexed(r))
    case Call(h, args, r) =>
      match IndexOf(r)
      case None => Call(h, args, Indexed(r))
      case Some(index) => Extracted(TrimmedArgs(args), index.n, Indexed(index.rest))
  }

  function Extracted(ts: seq<Sql>, n: nat, rest: Sql): Sql {
    if |ts| < 2 then rest
    else
      FitsExtraction(n + 1, |ts|);
      Inst(ExtractionTemplate(n + 1), ts, rest)
  }

  lemma FitsExtraction(n: nat, count: nat)
    requires count >= 2
    ensures Fits(ExtractionTemplate(n), count)
  {
    RenderPair(0, 1, seq(count, _ => []));
    var t := TText(", " + Show(n), TEnd);
    assert Fits(t, count) && Fits(TGroup(Pair(0, 1), t), count);
    assert Fits(TText("string_split", TGroup(Pair(0, 1), t)), count);
  }

  /** Some indexed split that the loop reaches has fewer than two arguments. */
  predicate LacksArgs(t: Sql)
    decreases Size(t)
  {
    match t
    case End => false
    case Ch(_, r) => LacksArgs(r)
    case Lit(_, _, r) => LacksArgs(r)
    case Paren(inner, r) => LacksArgs(inner) || LacksArgs(r)
    case Call(_, args, r) =>
      match IndexOf(r)
      case None => LacksArgs(r)
      case Some(index) => |ArgList(args)| < 2 || LacksArgs(index.rest)
  }

  // ----- text and tree agree on the index -----

  /** What may follow a run of siblings: the end of the text or the parenthesis around the run. */
  predicate Outside(z: string) { z == [] || z[0] == ')' }

  lemma {:induction false} TrimLeftText(k: Target, t: Sql, pre: string, z: string)
    requires IsName(k.name) && Wf(k, t, pre) && Outside(z)
    ensures LStrip(Print(t) + z) == Print(TrimLeft(t)) + z
    ensures exists pre' :: Wf(k, TrimLeft(t), pre')
    decreases t
  {
    hide Quiet, Ready, Escaped, Follows, WfArgs, PrintArgs, Bound;
    if t.Ch? && IsSpace(t.c) {
      TrimLeftText(k, t.rest, pre + [t.c], z);
      assert (Print(t) + z)[1..] == Print(t.rest) + z;
    } else {
      if t.Call? { HeadVisible(k.name, t.head); }
      assert Print(t) != [] ==> (Print(t) + z)[0] == Print(t)[0] && !IsSpace(Print(t)[0]);
    }
  }

  lemma {:induction false} DigitsText(t: Sql, pre: string, z: string)
    requires Wf(SPLIT, t, pre) && Outside(z)
    ensures
      var s, (ds, rest) := Print(t) + z, DigitsOf(t);
      DigitCount(s) == |ds| && s[..|ds|] == ds && s[|ds|..] == Print(rest) + z
    ensures exists pre' :: Wf(SPLIT, DigitsOf(t).1, pre')
    decreases t
  {
    hide Quiet, Ready, Escaped, Follows, WfArgs, PrintArgs, Bound;
    var s := Print(t) + z;
    if t.Ch? && IsDigit(t.c) {
      DigitsText(t.rest, pre + [t.c], z);
      assert s[1..] == Print(t.rest) + z;
      var (ds, rest) := DigitsOf(t.rest);
      assert s[..|ds| + 1] == [t.c] + s[1..][..|ds|];
      assert s[|ds| + 1..] == s[1..][|ds|..];
    } else {
      if t.Call? { HeadNotDigit(t.head); }
      assert s != [] ==> !IsDigit(s[0]);
    }
  }

  lemma HeadNotDigit(h: string)
    requires IsHead(SPLIT.name, h)
    ensures h != [] && !IsDigit(h[0]) && h[0] != '[' && h[0] != ']'
  {
    assert h[..5][0] == h[0];
    assert Fold(h[0]) == 's';
  }

  /** The first character of a run that is not a character node. */
  lemma FirstVisible(t: Sql, pre: string, z: string)
    requires Wf(SPLIT, t, pre) && Outside(z) && !t.Ch?
    ensures
      var s := Print(t) + z;
      s == [] || (s[0] != '[' && s[0] != ']')
  {
    if t.Call? { HeadNotDigit(t.head); }
  }

  lemma {:induction false} IndexText(t: Sql, pre: string, z: string)
    requires Wf(SPLIT, t, pre) && Outside(z)
    ensures
      match IndexOf(t)
      case None => IndexPrefix(Print(t) + z).None?
      case Some(i) => IndexPrefix(Print(t) + z) == Some(Index(i.n, Print(i.rest) + z))
  {
    hide Quiet, Ready, IsLiteral, IsHead, Follows, WfArgs, PrintArgs, Bound, TrimLeft, DigitsOf, DigitCount;
    var s := Print(t) + z;
    TrimLeftText(SPLIT, t, pre, z);
    var a := TrimLeft(t);
    var p1 :| Wf(SPLIT, a, p1);
    if a.Ch? {
      assert LStrip(s)[0] == a.c && LStrip(s)[1..] == Print(a.rest) + z;
      if a.c == '[' {
        IndexTextInside(a.rest, p1 + [a.c], z);
      }
    } else {
      FirstVisible(a, p1, z);
    }
  }

  /** The digits and the closing bracket. */
  lemma IndexTextInside(t: Sql, pre: string, z: string)
    requires Wf(SPLIT, t, pre) && Outside(z)
    ensures
      var b, (ds, d) := LStrip(Print(t) + z), DigitsOf(TrimLeft(t));
      var c, c' := LStrip(b[DigitCount(b)..]), TrimLeft(d);
      && DigitCount(b) == |ds| && b[..|ds|] == ds
      && (c'.Ch? ==> c != [] && c[0] == c'.c && c[1..] == Print(c'.rest) + z)
      && (!c'.Ch? ==> c == [] || c[0] != ']')
  {
    hide Wf, LStrip, DigitCount, DigitsOf, TrimLeft, Outside;
    TrimLeftText(SPLIT, t, pre, z);
    var p1 :| Wf(SPLIT, TrimLeft(t), p1);
    DigitsText(TrimLeft(t), p1, z);
    var d := DigitsOf(TrimLeft(t)).1;
    var p2 :| Wf(SPLIT, d, p2);
    TrimLeftText(SPLIT, d, p2, z);
    var c' := TrimLeft(d);
    var p3 :| Wf(SPLIT, c', p3);
    if c'.Ch? {
      assert (Print(c') + z)[1..] == Print(c'.rest) + z;
    } else {
      FirstVisible(c', p3, z);
    }
  }

  /** What follows an index is well-formed on its own. */
  lemma IndexRestWf(t: Sql, pre: string)
    requires Wf(SPLIT, t, pre) && IndexOf(t).Some?
    ensures Wf(SPLIT, IndexOf(t).value.rest, [])
  {
    hide Quiet, Ready, IsLiteral, IsHead, Follows, WfArgs, PrintArgs, Bound, TrimLeft, DigitsOf, DigitCount, Print;
    TrimLeftText(SPLIT, t, pre, []);
    var a := TrimLeft(t);
    var p1 :| Wf(SPLIT, a, p1);
    TrimLeftText(SPLIT, a.rest, p1 + [a.c], []);
    var p2 :| Wf(SPLIT, TrimLeft(a.rest), p2);
    DigitsText(TrimLeft(a.rest), p2, []);
    var d := DigitsOf(TrimLeft(a.rest)).1;
    var p3 :| Wf(SPLIT, d, p3);
    TrimLeftText(SPLIT, d, p3, []);
    var c := TrimLeft(d);
    var p4 :| Wf(SPLIT, c, p4);
    WfReset(SPLIT, c.rest, p4, ']');
  }

  // ----- the loop on the text of a tree -----

  /** A cursor position the loop can reach with `left` behind it: no match starts between them. */
  predicate IsCursor(left: string, cursor: nat) {
    && cursor <= |left|
    && Quiet(SPLIT.name, left, cursor)
  }

  lemma PrintExtracted(args: Args, n: nat, rest: Sql)
    requires WfArgs(SPLIT, args) && |ArgList(args)| >= 2
    ensures Print(Extracted(TrimmedArgs(args), n, rest))
         == Extraction(ArgTexts(args)[0], ArgTexts(args)[1], n + 1) + Print(rest)
  {
    hide Print, Inst, Show, WfArgs;
    var ts, a := TrimmedArgs(args), ArgTexts(args);
    TrimmedArgsOk(SPLIT, args);
    FitsExtraction(n + 1, |ts|);
    PrintInst(ExtractionTemplate(n + 1), ts, a, rest);
    RenderExtraction(n + 1, a);
  }

  lemma RenderExtraction(n: nat, a: seq<string>)
    requires |a| >= 2
    ensures Fits(ExtractionTemplate(n), |a|)
    ensures Render(ExtractionTemplate(n), a) == Extraction(a[0], a[1], n)
  {
    hide Show, Render, Fits;
    RenderNested("list_extract", "string_split", ", " + Show(n), a);
  }

  lemma RenderNested(f: string, g: string, tail: string, a: seq<string>)
    requires |a| >= 2
    ensures
      var t := TCall(f, TText(g, TGroup(Pair(0, 1), TText(tail, TEnd))));
      Fits(t, |a|) && Render(t, a) == CallText(f, CallText(g, a[0] + ", " + a[1]) + tail)
  {
    RenderPair(0, 1, a);
    hide Pair;
    var t2 := TText(tail, TEnd);
    var t1 := TGroup(Pair(0, 1), t2);
    assert Fits(t2, |a|) && Render(t2, a) == tail;
    assert Fits(t1, |a|) && Render(t1, a) == "(" + (a[0] + ", " + a[1]) + ")" + tail;
    assert Fits(TText(g, t1), |a|) && Render(TText(g, t1), a) == g + Render(t1, a);
    ExtractionGlue(g, a[0] + ", " + a[1], tail);
    RenderCall(f, TText(g, t1), a);
  }

  lemma ExtractionGlue(f: string, inner: string, tail: string)
    ensures f + ("(" + inner + ")" + tail) == (f + "(" + inner + ")") + tail
  {
  }

  /** One step at a call: the loop rewrites it or moves past it. */
  lemma StepAtCall(left: string, cursor: nat, h: string, args: Args, r: Sql, z: string)
    requires IsCursor(left, cursor) && Bound(left) && IsHead(SPLIT.name, h) && WfArgs(SPLIT, args)
    requires Wf(SPLIT, r, []) && Outside(z)
    ensures
      var call := h + "(" + PrintArgs(args) + ")";
      var sql := left + call + (Print(r) + z);
      && cursor <= |sql|
      && match IndexOf(r)
         case None => |left + call| <= |sql| && RewriteFrom(sql, cursor) == RewriteFrom(sql, |left + call|)
         case Some(i) =>
           if |ArgList(args)| < 2 then RewriteFrom(sql, cursor).IndexError?
           else
             var next := left + Extraction(ArgTexts(args)[0], ArgTexts(args)[1], i.n + 1);
             RewriteFrom(sql, cursor) == RewriteFrom(next + (Print(i.rest) + z), |next|)
  {
    hide Pieces, IndexPrefix, Search, Close, Inside, Extraction, Quiet, Bound, IsHead, WfArgs, PrintArgs, IndexOf,
        ArgTexts, Print;
    var call := h + "(" + PrintArgs(args) + ")";
    var sql := left + call + (Print(r) + z);
    var site := Site(left, h, args, Print(r) + z);
    SearchAtSite(SPLIT, sql, site, cursor);
    PiecesAreArgTexts(SPLIT, args);
    IndexText(r, [], z);
  }

  /**
   From `left + Print(t) + z` the loop reaches `left + Print(Indexed(t)) + z` with everything up
   to `z` behind the cursor, unless an indexed split lacks an argument.
   */
  lemma {:induction false} LoopFollowsTree(t: Sql, left: string, cursor: nat, z: string) returns (cursor': nat)
    requires Wf(SPLIT, t, left) && IsCursor(left, cursor) && Outside(z)
    ensures LacksArgs(t) ==> RewriteFrom(left + Print(t) + z, cursor).IndexError?
    ensures !LacksArgs(t) ==>
      && IsCursor(left + Print(Indexed(t)), cursor')
      && RewriteFrom(left + Print(t) + z, cursor) == RewriteFrom(left + Print(Indexed(t)) + z, cursor')
    decreases Size(t)
  {
    hide RewriteFrom, Quiet, Ready, IsLiteral, IsHead, Follows, WfArgs, PrintArgs, IndexOf;
    match t
    case End =>
      cursor' := cursor;
      assert left + [] == left;
    case Ch(c, r) =>
      AfterChar(SPLIT, left, c, cursor);
      cursor' := LoopFollowsTree(r, left + [c], cursor, z);
      Assoc(left, [c], Print(r));
      Assoc(left, [c], Print(Indexed(r)));
    case Lit(q, body, r) =>
      var lit := [q] + body + [q];
      AfterLiteral(SPLIT, r, left, q, body, cursor);
      cursor' := LoopFollowsTree(r, left + lit, cursor, z);
      Assoc(left, lit, Print(r));
      Assoc(left, lit, Print(Indexed(r)));
    case Paren(inner, r) =>
      cursor' := LoopThroughGroup(inner, r, left, cursor, z);
    case Call(h, args, r) =>
      cursor' := LoopThroughCall(h, args, r, left, cursor, z);
  }

  lemma {:induction false} LoopThroughGroup(inner: Sql, r: Sql, left: string, cursor: nat, z: string)
    returns (cursor': nat)
    requires Wf(SPLIT, Paren(inner, r), left) && IsCursor(left, cursor) && Outside(z)
    ensures
      var t := Paren(inner, r);
      && (LacksArgs(t) ==> RewriteFrom(left + Print(t) + z, cursor).IndexError?)
      && (!LacksArgs(t) ==>
            && IsCursor(left + Print(Indexed(t)), cursor')
            && RewriteFrom(left + Print(t) + z, cursor) == RewriteFrom(left + Print(Indexed(t)) + z, cursor'))
    decreases Size(Paren(inner, r)), 0
  {
    hide RewriteFrom, Quiet, Ready, Wf, Print, LacksArgs, Indexed;
    PrintParen(inner, r);
    var t := Paren(inner, r);
    LacksParen(inner, r);
    WfParen(inner, r, left);
    IntoGroup(SPLIT, inner, left, cursor);
    var z1 := ")" + Print(r) + z;
    cursor' := LoopFollowsTree(inner, left + "(", cursor, z1);
    GroupGlue(left, Print(inner), Print(r), z);
    if !LacksArgs(inner) {
      var mid := Print(Indexed(inner));
      AfterGroup(SPLIT, r, left, mid, cursor');
      cursor' := LoopFollowsTree(r, left + ("(" + mid + ")"), cursor', z);
      GroupGlue(left, mid, Print(r), z);
      Assoc(left, "(" + mid + ")", Print(Indexed(r)));
      PrintParen(Indexed(inner), Indexed(r));
    }
  }

  lemma PrintParen(inner: Sql, r: Sql)
    ensures Print(Paren(inner, r)) == "(" + Print(inner) + ")" + Print(r)
    ensures Indexed(Paren(inner, r)) == Paren(Indexed(inner), Indexed(r))
  {
  }

  lemma LacksParen(inner: Sql, r: Sql)
    ensures LacksArgs(Paren(inner, r)) == (LacksArgs(inner) || LacksArgs(r))
  {
  }

  lemma WfParen(inner: Sql, r: Sql, pre: string)
    requires Wf(SPLIT, Paren(inner, r), pre)
    ensures !Ready(SPLIT.name, pre) && Wf(SPLIT, inner, []) && Wf(SPLIT, r, [])
  {
  }

  lemma GroupGlue(left: string, inner: string, r: string, z: string)
    ensures left + ("(" + inner + ")" + r) + z == (left + "(") + inner + (")" + r + z)
    ensures left + ("(" + inner + ")" + r) + z == left + ("(" + inner + ")") + r + z
  {
  }

  lemma {:induction false} LoopThroughCall(h: string, args: Args, r: Sql, left: string, cursor: nat, z: string)
    returns (cursor': nat)
    requires Wf(SPLIT, Call(h, args, r), left) && IsCursor(left, cursor) && Outside(z)
    ensures
      var t := Call(h, args, r);
      && (LacksArgs(t) ==> RewriteFrom(left + Print(t) + z, cursor).IndexError?)
      && (!LacksArgs(t) ==>
            && IsCursor(left + Print(Indexed(t)), cursor')
            && RewriteFrom(left + Print(t) + z, cursor) == RewriteFrom(left + Print(Indexed(t)) + z, cursor'))
    decreases Size(Call(h, args, r)), 0
  {
    hide RewriteFrom, Quiet, Ready, IsHead, Follows, WfArgs, PrintArgs, IndexOf, Extraction, Extracted, Bound;
    var t := Call(h, args, r);
    var call := h + "(" + PrintArgs(args) + ")";
    cursor' := 0;
    StepAtCall(left, cursor, h, args, r, z);
    CallGlue(left, call, Print(r), z);
    match IndexOf(r)
    case None =>
      AfterClose(r, left + h + "(" + PrintArgs(args));
      assert left + h + "(" + PrintArgs(args) + ")" == left + call;
      cursor' := LoopFollowsTree(r, left + call, |left + call|, z);
      CallGlue(left, call, Print(Indexed(r)), z);
    case Some(i) =>
      if |ArgList(args)| >= 2 {
        var cut := Extraction(ArgTexts(args)[0], ArgTexts(args)[1], i.n + 1);
        IndexRestWf(r, []);
        ExtractionCloses(ArgTexts(args)[0], ArgTexts(args)[1], i.n + 1);
        AfterClose(i.rest, left + cut[..|cut| - 1]);
        assert left + cut[..|cut| - 1] + ")" == left + cut;
        cursor' := LoopFollowsTree(i.rest, left + cut, |left + cut|, z);
        PrintExtracted(args, i.n, Indexed(i.rest));
        CallGlue(left, cut, Print(Indexed(i.rest)), z);
        CallGlue(left, cut, Print(i.rest), z);
      }
  }

  lemma CallGlue(left: string, call: string, r: string, z: string)
    ensures left + (call + r) + z == left + call + (r + z)
    ensures left + (call + r) + z == left + call + r + z
    ensures left + (call + r) == left + call + r
  {
  }

  lemma ExtractionCloses(a: string, b: string, n: nat)
    ensures
      var cut := Extraction(a, b, n);
      cut != [] && cut == cut[..|cut| - 1] + ")"
  {
  }

  lemma AfterClose(r: Sql, x: string)
    requires Wf(SPLIT, r, [])
    ensures Wf(SPLIT, r, x + ")") && IsCursor(x + ")", |x + ")"|)
  {
    WfReset(SPLIT, r, x, ')');
  }

  /** On the text of a well-formed tree the loop computes `Indexed`. */
  lemma RewritesIndexedSplits(t: Sql)
    requires Wf(SPLIT, t, [])
    ensures RewriteFrom(Print(t), 0) == if LacksArgs(t) then IndexError else Ok(Print(Indexed(t)))
  {
    hide LacksArgs, Indexed, Print, Wf, Quiet;
    assert IsCursor([], 0) by { EmptyCursor(); }
    var cursor := LoopFollowsTree(t, [], 0, []);
    assert [] + Print(t) + [] == Print(t);
    if !LacksArgs(t) {
      var out := Print(Indexed(t));
      assert [] + out == out && out + [] == out;
      SearchFails(out, SPLIT.name, cursor);
    }
  }

  lemma EmptyCursor()
    ensures IsCursor([], 0)
  {
  }

  // ----- which indexed splits are left -----

  /** Some split in the tree, at any depth, is indexed. */
  predicate HasIndexed(t: Sql) {
    match t
    case End => false
    case Ch(_, r) => HasIndexed(r)
    case Lit(_, _, r) => HasIndexed(r)
    case Paren(inner, r) => HasIndexed(inner) || HasIndexed(r)
    case Call(_, args, r) => IndexOf(r).Some? || HasIndexedArg(args) || HasIndexed(r)
  }

  predicate HasIndexedArg(args: Args) {
    match args
    case Last(a) => HasIndexed(a)
    case More(a, others) => HasIndexed(a) || HasIndexedArg(others)
  }

  /** An indexed split stands in an argument that an outer split keeps. */
  predicate Nested(t: Sql)
    decreases Size(t)
  {
    match t
    case End => false
    case Ch(_, r) => Nested(r)
    case Lit(_, _, r) => Nested(r)
    case Paren(inner, r) => Nested(inner) || Nested(r)
    case Call(_, args, r) =>
      match IndexOf(r)
      case None => HasIndexedArg(args) || Nested(r)
      case Some(index) =>
        || HasIndexed(ArgList(args)[0])
        || (|ArgList(args)| >= 2 && HasIndexed(ArgList(args)[1]))
        || Nested(index.rest)
  }

  /** The character cannot be part of an index. */
  predicate EndsIndex(t: Sql) {
    t.Ch? ==> !IsSpace(t.c) && !IsDigit(t.c) && t.c != '[' && t.c != ']'
  }

  lemma {:induction false} TrimLeftAppend(t: Sql, u: Sql)
    requires EndsIndex(u)
    ensures TrimLeft(Append(t, u)) == Append(TrimLeft(t), u)
  {
    if t.Ch? && IsSpace(t.c) { TrimLeftAppend(t.rest, u); }
  }

  lemma {:induction false} DigitsAppend(t: Sql, u: Sql)
    requires EndsIndex(u)
    ensures DigitsOf(Append(t, u)) == (DigitsOf(t).0, Append(DigitsOf(t).1, u))
  {
    if t.Ch? && IsDigit(t.c) { DigitsAppend(t.rest, u); }
  }

  lemma IndexOfAppend(t: Sql, u: Sql)
    requires EndsIndex(u)
    ensures IndexOf(Append(t, u)).Some? == IndexOf(t).Some?
  {
    hide TrimLeft, DigitsOf;
    TrimLeftAppend(t, u);
    var a := TrimLeft(t);
    if a.Ch? && a.c == '[' {
      TrimLeftAppend(a.rest, u);
      DigitsAppend(TrimLeft(a.rest), u);
      TrimLeftAppend(DigitsOf(TrimLeft(a.rest)).1, u);
    }
  }

  lemma {:induction false} HasIndexedAppend(t: Sql, u: Sql)
    requires EndsIndex(u)
    ensures HasIndexed(Append(t, u)) == (HasIndexed(t) || HasIndexed(u))
  {
    hide IndexOf, EndsIndex;
    match t
    case End =>
    case Ch(_, r) => HasIndexedAppend(r, u);
    case Lit(_, _, r) => HasIndexedAppend(r, u);
    case Paren(_, r) => HasIndexedAppend(r, u);
    case Call(_, _, r) =>
      HasIndexedAppend(r, u);
      IndexOfAppend(r, u);
  }

  lemma {:induction false} HasIndexedChars(s: string, t: Sql)
    ensures HasIndexed(Chars(s, t)) == HasIndexed(t)
    decreases s
  {
    if s != [] { HasIndexedChars(s[1..], t); }
  }

  /** Trailing blanks are not part of an index. */
  lemma {:induction false} TrimsCommute(t: Sql)
    ensures TrimLeft(TrimRight(t)) == TrimRight(TrimLeft(t))
    ensures DigitsOf(TrimRight(t)) == (DigitsOf(t).0, TrimRight(DigitsOf(t).1))
    decreases t
  {
    if t.Ch? { TrimsCommute(t.rest); }
  }

  lemma {:induction false} IndexOfTrim(t: Sql)
    ensures IndexOf(TrimRight(t)).Some? == IndexOf(t).Some?
  {
    hide TrimLeft, DigitsOf, Decimal, Size;
    TrimsCommute(t);
    var a := TrimLeft(t);
    if a.Ch? && a.c == '[' {
      assert TrimRight(a) == Ch('[', TrimRight(a.rest));
      TrimsCommute(a.rest);
      var b := TrimLeft(a.rest);
      TrimsCommute(b);
      TrimsCommute(DigitsOf(b).1);
    }
  }

  lemma {:induction false} HasIndexedTrimRight(t: Sql)
    ensures HasIndexed(TrimRight(t)) == HasIndexed(t)
    decreases t
  {
    hide IndexOf;
    match t
    case End =>
    case Ch(_, r) => HasIndexedTrimRight(r);
    case Lit(_, _, r) => HasIndexedTrimRight(r);
    case Paren(_, r) => HasIndexedTrimRight(r);
    case Call(_, _, r) =>
      HasIndexedTrimRight(r);
      IndexOfTrim(r);
  }

  lemma {:induction false} HasIndexedTrimLeft(t: Sql)
    ensures HasIndexed(TrimLeft(t)) == HasIndexed(t)
    decreases t
  {
    if t.Ch? && IsSpace(t.c) { HasIndexedTrimLeft(t.rest); }
  }

  lemma HasIndexedTrim(t: Sql)
    ensures HasIndexed(Trim(t)) == HasIndexed(t)
  {
    HasIndexedTrimLeft(t);
    HasIndexedTrimRight(TrimLeft(t));
  }

  lemma FirstTwoArgs(args: Args)
    requires |ArgList(args)| >= 2
    ensures TrimmedArgs(args)[0] == Trim(ArgList(args)[0])
    ensures TrimmedArgs(args)[1] == Trim(ArgList(args)[1])
  {
    assert args.More?;
    var more := args.others;
    assert TrimmedArgs(more)[0] == Trim(more.arg) && ArgList(more)[0] == more.arg;
  }

  lemma HasIndexedExtracted(ts: seq<Sql>, n: nat, rest: Sql)
    requires |ts| >= 2
    ensures HasIndexed(Extracted(ts, n, rest)) == (HasIndexed(ts[0]) || HasIndexed(ts[1]) || HasIndexed(rest))
  {
    hide IndexOf, Show, Inst, ExtractionTemplate, Pair;
    InstExtraction(n + 1, ts, rest);
    var pair := Inst(Pair(0, 1), ts, End);
    var tail := Chars(", " + Show(n + 1), End);
    HasIndexedChars("list_extract", Paren(Chars("string_split", Paren(pair, tail)), rest));
    HasIndexedChars("string_split", Paren(pair, tail));
    HasIndexedChars(", " + Show(n + 1), End);
    HasIndexedAppend(ts[1], End);
    HasIndexedChars(", ", Append(ts[1], End));
    HasIndexedAppend(ts[0], Chars(", ", Append(ts[1], End)));
  }

  lemma InstExtraction(n: nat, ts: seq<Sql>, rest: Sql)
    requires |ts| >= 2
    ensures Fits(ExtractionTemplate(n), |ts|) && Fits(Pair(0, 1), |ts|)
    ensures Inst(Pair(0, 1), ts, End) == Append(ts[0], Chars(", ", Append(ts[1], End)))
    ensures Inst(ExtractionTemplate(n), ts, rest)
         == Chars("list_extract",
              Paren(Chars("string_split", Paren(Inst(Pair(0, 1), ts, End), Chars(", " + Show(n), End))), rest))
  {
    hide Chars, Append, Show;
    FitsExtraction(n, |ts|);
    RenderPair(0, 1, seq(|ts|, _ => []));
    var t1 := TArg(1, TEnd);
    assert Fits(t1, |ts|) && Inst(t1, ts, End) == Append(ts[1], End);
    assert Fits(TText(", ", t1), |ts|) && Inst(TText(", ", t1), ts, End) == Chars(", ", Append(ts[1], End));
    var t2 := TText(", " + Show(n), TEnd);
    assert Fits(t2, |ts|) && Inst(t2, ts, End) == Chars(", " + Show(n), End);
    var t3 := TGroup(Pair(0, 1), t2);
    assert Fits(t3, |ts|) && Inst(t3, ts, End) == Paren(Inst(Pair(0, 1), ts, End), Inst(t2, ts, End));
    var t4 := TText("string_split", t3);
    assert Fits(t4, |ts|) && Inst(t4, ts, End) == Chars("string_split", Inst(t3, ts, End));
    assert Fits(TGroup(t4, TEnd), |ts|) && Inst(TGroup(t4, TEnd), ts, rest) == Paren(Inst(t4, ts, End), rest);
  }

  /** A rewritten run starts with the character it started with, or with one no index has. */
  lemma IndexedHead(t: Sql)
    requires !LacksArgs(t) && !t.Ch?
    ensures EndsIndex(Indexed(t))
  {
    if t.Call? && IndexOf(t.rest).Some? {
      var index := IndexOf(t.rest).value;
      InstExtraction(index.n + 1, TrimmedArgs(t.args), Indexed(index.rest));
    }
  }

  lemma {:induction false} IndexedTrimLeft(t: Sql)
    requires !LacksArgs(t)
    ensures TrimLeft(Indexed(t)) == Indexed(TrimLeft(t)) && !LacksArgs(TrimLeft(t))
    decreases t
  {
    hide IndexOf, Extracted;
    if t.Ch? {
      if IsSpace(t.c) { IndexedTrimLeft(t.rest); }
    } else {
      IndexedHead(t);
    }
  }

  lemma {:induction false} IndexedDigits(t: Sql)
    requires !LacksArgs(t)
    ensures DigitsOf(Indexed(t)) == (DigitsOf(t).0, Indexed(DigitsOf(t).1)) && !LacksArgs(DigitsOf(t).1)
    decreases t
  {
    hide IndexOf, Extracted;
    if t.Ch? {
      if IsDigit(t.c) { IndexedDigits(t.rest); }
    } else {
      IndexedHead(t);
    }
  }

  /** Rewriting what follows a split neither gives it an index nor takes one away. */
  lemma IndexedKeepsIndex(t: Sql)
    requires !LacksArgs(t)
    ensures IndexOf(Indexed(t)).Some? == IndexOf(t).Some?
  {
    hide TrimLeft, DigitsOf, Extracted;
    IndexedTrimLeft(t);
    var a := TrimLeft(t);
    if !a.Ch? {
      IndexedHead(a);
    } else if a.c == '[' {
      assert Indexed(a) == Ch('[', Indexed(a.rest)) && !LacksArgs(a.rest);
      IndexedTrimLeft(a.rest);
      var b := TrimLeft(a.rest);
      IndexedDigits(b);
      var d := DigitsOf(b).1;
      IndexedTrimLeft(d);
      if !TrimLeft(d).Ch? { IndexedHead(TrimLeft(d)); }
    }
  }

  /**
   The rewriting leaves an indexed split behind exactly when one was nested in an argument of
   another split.
   */
  lemma {:induction false} LeavesExactlyNested(t: Sql)
    requires !LacksArgs(t)
    ensures HasIndexed(Indexed(t)) <==> Nested(t)
    decreases Size(t)
  {
    hide IndexOf, Extracted;
    match t
    case End =>
    case Ch(_, r) => LeavesExactlyNested(r);
    case Lit(_, _, r) => LeavesExactlyNested(r);
    case Paren(inner, r) =>
      LeavesExactlyNested(inner);
      LeavesExactlyNested(r);
    case Call(h, args, r) =>
      match IndexOf(r)
      case None =>
        LeavesExactlyNested(r);
        IndexedKeepsIndex(r);
      case Some(index) =>
        LeavesExactlyNested(index.rest);
        HasIndexedExtracted(TrimmedArgs(args), index.n, Indexed(index.rest));
        FirstTwoArgs(args);
        HasIndexedTrim(ArgList(args)[0]);
        HasIndexedTrim(ArgList(args)[1]);
  }
}

/**
 The two passes of `duckdb_sql` that change meaning-bearing numbers, composed on text: indexed
 splits first, `slice` calls second. On the text of an expression without nested indexed splits
 they print exactly its translation, whose meaning `HiveMeaning` shows to be the same.
 */
module HivePipeline {
  import opened Text
  import opened ArgScanner
  import opened CallSearch
  import opened SqlTree
  import opened CallTemplates
  import opened CallRewriter
  import opened IndexedSplit
  import opened HiveMeaning

  const SLICE := Target("slice", false)

  // ----- expressions as text -----

  predicate Valid(e: Expr) {
    match e
    case Col(name) => name != [] && forall i :: 0 <= i < |name| ==> IsWord(name[i])
    case Num(_) => true
    case Quote(body) => IsLiteral('\'', body) && Quiet("split", body, 0) && Quiet("slice", body, 0)
    case SplitAll(s, d) => Valid(s) && Valid(d)
    case SplitAt(s, d, _) => Valid(s) && Valid(d)
    case SliceOf(a, b, c) => Valid(a) && Valid(b) && Valid(c)
  }

  predicate HasAt(e: Expr) {
    match e
    case Col(_) => false
    case Num(_) => false
    case Quote(_) => false
    case SplitAll(s, d) => HasAt(s) || HasAt(d)
    case SplitAt(_, _, _) => true
    case SliceOf(a, b, c) => HasAt(a) || HasAt(b) || HasAt(c)
  }

  /** No indexed split inside an argument of a split. */
  predicate Flat(e: Expr) {
    match e
    case Col(_) => true
    case Num(_) => true
    case Quote(_) => true
    case SplitAll(s, d) => !HasAt(s) && !HasAt(d)
    case SplitAt(s, d, _) => !HasAt(s) && !HasAt(d)
    case SliceOf(a, b, c) => Flat(a) && Flat(b) && Flat(c)
  }

  function Nodes(e: Expr): nat {
    match e
    case Col(_) => 1
    case Num(_) => 1
    case Quote(_) => 1
    case SplitAll(s, d) => 1 + Nodes(s) + Nodes(d)
    case SplitAt(s, d, _) => 1 + Nodes(s) + Nodes(d)
    case SliceOf(a, b, c) => 1 + Nodes(a) + Nodes(b) + Nodes(c)
  }

  function HiveText(e: Expr): string {
    match e
    case Col(name) => name
    case Num(n) => Show(n)
    case Quote(body) => Quoted(body)
    case SplitAll(s, d) => CallText("split", HiveText(s) + ", " + HiveText(d))
    case SplitAt(s, d, n) => CallText("split", HiveText(s) + ", " + HiveText(d)) + ("[" + Show(n) + "]")
    case SliceOf(a, b, c) => CallText("slice", HiveText(a) + ", " + (HiveText(b) + ", " + HiveText(c)))
  }

  /** The text between the two passes. */
  function MidText(e: Expr): string {
    match e
    case Col(name) => name
    case Num(n) => Show(n)
    case Quote(body) => Quoted(body)
    case SplitAll(s, d) => CallText("split", MidText(s) + ", " + MidText(d))
    case SplitAt(s, d, n) => Extraction(MidText(s), MidText(d), n + 1)
    case SliceOf(a, b, c) => CallText("slice", MidText(a) + ", " + (MidText(b) + ", " + MidText(c)))
  }

  function DuckText(e: Duck): string {
    match e
    case DCol(name) => name
    case DNum(n) => Show(n)
    case DQuote(body) => Quoted(body)
    case DSplit(s, d) => CallText("split", DuckText(s) + ", " + DuckText(d))
    case DExtract(s, d, n) => Extraction(DuckText(s), DuckText(d), n)
    case DSlice(a, b, to) => CallText("list_slice", DuckText(a) + ", " + DuckText(b) + ", " + DuckText(to))
    case DSpan(b, c) => "(" + DuckText(b) + ") + (" + DuckText(c) + ") - 1"
  }

  lemma {:induction false} MidIsHive(e: Expr)
    requires !HasAt(e)
    ensures MidText(e) == HiveText(e) && Flat(e)
  {
    match e
    case Col(_) =>
    case Num(_) =>
    case Quote(_) =>
    case SplitAll(s, d) =>
      MidIsHive(s);
      MidIsHive(d);
    case SliceOf(a, b, c) =>
      MidIsHive(a);
      MidIsHive(b);
      MidIsHive(c);
  }

  // ----- trees of the first pass -----

  function Comma(t: Sql): Sql { Ch(',', Ch(' ', t)) }

  function TwoArgs(a: Sql, b: Sql): Args { More(a, Last(Ch(' ', b))) }

  function ThreeArgs(a: Sql, b: Sql, c: Sql): Args { More(a, More(Ch(' ', b), Last(Ch(' ', c)))) }

  function SplitTree(e: Expr, rest: Sql): Sql
    decreases e
  {
    match e
    case Col(name) => Chars(name, rest)
    case Num(n) => Chars(Show(n), rest)
    case Quote(body) => Lit('\'', body, rest)
    case SplitAll(s, d) => Call("split", TwoArgs(SplitTree(s, End), SplitTree(d, End)), rest)
    case SplitAt(s, d, n) =>
      Call("split", TwoArgs(SplitTree(s, End), SplitTree(d, End)), Ch('[', Chars(Show(n), Ch(']', rest))))
    case SliceOf(a, b, c) =>
      Chars("slice", Paren(SplitTree(a, Comma(SplitTree(b, Comma(SplitTree(c, End))))), rest))
  }

  /** Trees of the second pass, on the text between the passes. */
  function SliceTree(e: Expr, rest: Sql): Sql
    decreases e
  {
    match e
    case Col(name) => Chars(name, rest)
    case Num(n) => Chars(Show(n), rest)
    case Quote(body) => Lit('\'', body, rest)
    case SplitAll(s, d) => Chars("split", Paren(SliceTree(s, Comma(SliceTree(d, End))), rest))
    case SplitAt(s, d, n) =>
      Chars("list_extract", Paren(
        Chars("string_split", Paren(SliceTree(s, Comma(SliceTree(d, End))), Comma(Chars(Show(n + 1), End)))),
        rest))
    case SliceOf(a, b, c) =>
      Call("slice", ThreeArgs(SliceTree(a, End), SliceTree(b, End), SliceTree(c, End)), rest)
  }

  lemma PrintComma(t: Sql)
    ensures Print(Comma(t)) == ", " + Print(t)
  {
  }

  lemma PrintNamedGroup(f: string, inner: Sql, rest: Sql)
    ensures Print(Chars(f, Paren(inner, rest))) == CallText(f, Print(inner)) + Print(rest)
  {
    PrintChars(f, Paren(inner, rest));
    GroupGlue(f, Print(inner), Print(rest));
    hide Print, Chars;
    PrintParen(inner, rest);
  }

  lemma PrintParen(inner: Sql, rest: Sql)
    ensures Print(Paren(inner, rest)) == "(" + Print(inner) + ")" + Print(rest)
  {
  }

  lemma GroupGlue(f: string, inner: string, rest: string)
    ensures f + ("(" + inner + ")" + rest) == CallText(f, inner) + rest
  {
  }

  lemma PrintTwoArgs(a: Sql, b: Sql)
    ensures PrintArgs(TwoArgs(a, b)) == Print(a) + ", " + Print(b)
  {
    PrintLastBlank(b);
    BlankGlue(Print(a), Print(b));
  }

  lemma PrintLastBlank(b: Sql)
    ensures PrintArgs(Last(Ch(' ', b))) == " " + Print(b)
  {
  }

  lemma BlankGlue(a: string, b: string)
    ensures a + "," + (" " + b) == a + ", " + b
  {
  }

  lemma PrintThreeArgs(a: Sql, b: Sql, c: Sql)
    ensures PrintArgs(ThreeArgs(a, b, c)) == Print(a) + ", " + (Print(b) + ", " + Print(c))
  {
    hide Print;
    var tail := More(Ch(' ', b), Last(Ch(' ', c)));
    PrintLastBlank(c);
    PrintLastBlank(b);
    BlankGlue(" " + Print(b), Print(c));
    assert PrintArgs(tail) == " " + Print(b) + ", " + Print(c);
    assert PrintArgs(tail) == " " + (Print(b) + ", " + Print(c));
    BlankGlue(Print(a), Print(b) + ", " + Print(c));
  }

  lemma {:induction false} PrintSplitTree(e: Expr, rest: Sql)
    ensures Print(SplitTree(e, rest)) == HiveText(e) + Print(rest)
    decreases e
  {
    hide PrintArgs;
    match e
    case Col(name) => PrintChars(name, rest);
    case Num(n) => PrintChars(Show(n), rest);
    case Quote(body) =>
    case SplitAll(s, d) =>
      PrintSplitTree(s, End);
      PrintSplitTree(d, End);
      PrintTwoArgs(SplitTree(s, End), SplitTree(d, End));
      DropEnd(HiveText(s));
      DropEnd(HiveText(d));
    case SplitAt(s, d, n) =>
      PrintSplitTree(s, End);
      PrintSplitTree(d, End);
      PrintTwoArgs(SplitTree(s, End), SplitTree(d, End));
      DropEnd(HiveText(s));
      DropEnd(HiveText(d));
      PrintIndex(n, rest);
      Assoc(CallText("split", HiveText(s) + ", " + HiveText(d)), "[" + Show(n) + "]", Print(rest));
    case SliceOf(a, b, c) =>
      var tc := SplitTree(c, End);
      var tb := SplitTree(b, Comma(tc));
      PrintSplitTree(c, End);
      DropEnd(HiveText(c));
      PrintComma(tc);
      PrintSplitTree(b, Comma(tc));
      PrintComma(tb);
      PrintSplitTree(a, Comma(tb));
      CommaGlue(HiveText(a), HiveText(b), HiveText(c));
      PrintNamedGroup("slice", SplitTree(a, Comma(tb)), rest);
  }

  lemma DropEnd(s: string)
    ensures s + Print(End) == s
  {
  }

  lemma CommaGlue(a: string, b: string, c: string)
    ensures a + (", " + (b + (", " + c))) == a + ", " + (b + ", " + c)
    ensures a + (", " + b) == a + ", " + b
  {
  }

  lemma PrintIndex(n: nat, rest: Sql)
    ensures Print(Ch('[', Chars(Show(n), Ch(']', rest)))) == "[" + Show(n) + "]" + Print(rest)
  {
    hide Show;
    PrintChars(Show(n), Ch(']', rest));
    assert Print(Ch(']', rest)) == "]" + Print(rest);
    assert "[" + (Show(n) + ("]" + Print(rest))) == "[" + Show(n) + "]" + Print(rest);
  }

  lemma {:induction false} PrintSliceTree(e: Expr, rest: Sql)
    ensures Print(SliceTree(e, rest)) == MidText(e) + Print(rest)
    decreases e
  {
    hide PrintArgs;
    match e
    case Col(name) => PrintChars(name, rest);
    case Num(n) => PrintChars(Show(n), rest);
    case Quote(body) =>
    case SplitAll(s, d) =>
      PrintSliceTree(d, End);
      PrintSliceTree(s, Comma(SliceTree(d, End)));
      PrintPair(s, d);
      PrintNamedGroup("split", SliceTree(s, Comma(SliceTree(d, End))), rest);
    case SplitAt(s, d, n) =>
      PrintSliceTree(d, End);
      PrintSliceTree(s, Comma(SliceTree(d, End)));
      PrintPair(s, d);
      var inner := SliceTree(s, Comma(SliceTree(d, End)));
      var number := Comma(Chars(Show(n + 1), End));
      PrintChars(Show(n + 1), End);
      DropEnd(Show(n + 1));
      PrintComma(Chars(Show(n + 1), End));
      PrintNamedGroup("string_split", inner, number);
      PrintNamedGroup("list_extract", Chars("string_split", Paren(inner, number)), rest);
    case SliceOf(a, b, c) =>
      PrintSliceTree(a, End);
      PrintSliceTree(b, End);
      PrintSliceTree(c, End);
      DropEnd(MidText(a));
      DropEnd(MidText(b));
      DropEnd(MidText(c));
      PrintThreeArgs(SliceTree(a, End), SliceTree(b, End), SliceTree(c, End));
  }

  lemma PrintPair(s: Expr, d: Expr)
    requires Print(SliceTree(d, End)) == MidText(d) + Print(End)
    requires Print(SliceTree(s, Comma(SliceTree(d, End)))) == MidText(s) + Print(Comma(SliceTree(d, End)))
    ensures Print(SliceTree(s, Comma(SliceTree(d, End)))) == MidText(s) + ", " + MidText(d)
  {
    hide Print, SliceTree, MidText;
    DropEnd(MidText(d));
    PrintComma(SliceTree(d, End));
    CommaGlue(MidText(s), MidText(d), []);
  }

  // ----- the trees are well-formed -----

  /** A run that may follow any text: nothing, or a character that resets the context. */
  predicate Opens(k: Target, rest: Sql) {
    rest.End? || (rest.Ch? && IsPlain(rest.c) && Reset(rest.c) && Wf(k, rest.rest, []))
  }

  lemma OpensAnywhere(k: Target, rest: Sql, x: string)
    requires IsName(k.name) && Opens(k, rest)
    ensures Wf(k, rest, x)
  {
    if rest.Ch? { WfReset(k, rest.rest, x, rest.c); }
  }

  lemma OpensComma(k: Target, t: Sql)
    requires IsName(k.name) && Wf(k, t, [])
    ensures Opens(k, Comma(t))
  {
    WfLeadBlank(k, t);
  }

  lemma WfWord(k: Target, w: string, rest: Sql, pre: string)
    requires IsName(k.name) && AllPlain(w) && Opens(k, rest)
    ensures Wf(k, Chars(w, rest), pre)
  {
    WfChars(k, w, rest, pre);
    OpensAnywhere(k, rest, pre + w);
  }

  /** A name other than the searched one, and a group. */
  lemma WfNamedGroup(k: Target, f: string, inner: Sql, rest: Sql, pre: string)
    requires IsName(k.name) && Bound(pre) && AllPlain(f) && f != [] && !IsSpace(f[|f| - 1])
    requires Fold(f[|f| - 1]) != k.name[|k.name| - 1]
    requires Wf(k, inner, []) && Opens(k, rest)
    ensures Wf(k, Chars(f, Paren(inner, rest)), pre)
  {
    WfChars(k, f, Paren(inner, rest), pre);
    NotReady(k.name, pre, f);
    OpensAnywhere(k, rest, []);
  }

  lemma ShowPlain(n: nat)
    ensures AllPlain(Show(n)) && NoSpace(Show(n)) && Show(n) != []
  {
  }

  lemma WordsPlain(w: string)
    requires forall i :: 0 <= i < |w| ==> IsWord(w[i])
    ensures AllPlain(w) && NoSpace(w)
  {
  }

  lemma WfPairArgs(k: Target, a: Sql, b: Sql)
    requires IsName(k.name) && Wf(k, a, []) && Wf(k, b, []) && NoTopComma(a) && NoTopComma(b)
    ensures WfArgs(k, TwoArgs(a, b))
  {
    WfLeadBlank(k, b);
    assert NoTopComma(Ch(' ', b));
    assert WfArgs(k, Last(Ch(' ', b)));
  }

  lemma OpensIndex(n: nat, rest: Sql)
    requires Opens(SPLIT, rest)
    ensures Opens(SPLIT, Ch('[', Chars(Show(n), Ch(']', rest))))
  {
    ShowPlain(n);
    OpensAnywhere(SPLIT, rest, []);
    assert Opens(SPLIT, Ch(']', rest));
    WfWord(SPLIT, Show(n), Ch(']', rest), []);
  }

  lemma {:induction false} WfSplitTree(e: Expr, rest: Sql, pre: string)
    requires Valid(e) && Neutral("split", pre) && Opens(SPLIT, rest)
    ensures Wf(SPLIT, SplitTree(e, rest), pre)
    decreases Nodes(e), 0
  {
    hide Opens, Ready, Quiet, Show;
    OpensAnywhere(SPLIT, rest, []);
    EmptyNeutral("split");
    match e
    case Col(name) =>
      WordsPlain(name);
      WfWord(SPLIT, name, rest, pre);
    case Num(n) =>
      ShowPlain(n);
      WfWord(SPLIT, Show(n), rest, pre);
    case Quote(body) =>
    case SplitAll(s, d) =>
      WfSplitArgs(s, d);
    case SplitAt(s, d, n) =>
      WfSplitArgs(s, d);
      OpensIndex(n, rest);
      OpensAnywhere(SPLIT, Ch('[', Chars(Show(n), Ch(']', rest))), []);
    case SliceOf(a, b, c) =>
      OpensEnd(SPLIT);
      WfSplitTree(c, End, []);
      OpensComma(SPLIT, SplitTree(c, End));
      WfSplitTree(b, Comma(SplitTree(c, End)), []);
      OpensComma(SPLIT, SplitTree(b, Comma(SplitTree(c, End))));
      WfSplitTree(a, Comma(SplitTree(b, Comma(SplitTree(c, End)))), []);
      WfNamedGroup(SPLIT, "slice", SplitTree(a, Comma(SplitTree(b, Comma(SplitTree(c, End))))), rest, pre);
  }

  lemma OpensEnd(k: Target)
    ensures Opens(k, End)
  {
  }

  lemma {:induction false} WfSplitArgs(s: Expr, d: Expr)
    requires Valid(s) && Valid(d)
    ensures WfArgs(SPLIT, TwoArgs(SplitTree(s, End), SplitTree(d, End)))
    ensures IsHead("split", "split")
    decreases Nodes(s) + Nodes(d), 1
  {
    hide Opens, Ready, Quiet, Wf, WfArgs;
    EmptyNeutral("split");
    OpensEnd(SPLIT);
    WfSplitTree(s, End, []);
    WfSplitTree(d, End, []);
    NoCommaSplitTree(s, End);
    NoCommaSplitTree(d, End);
    WfPairArgs(SPLIT, SplitTree(s, End), SplitTree(d, End));
  }

  lemma {:induction false} NoCommaChars(w: string, t: Sql)
    requires ',' !in w && NoTopComma(t)
    ensures NoTopComma(Chars(w, t))
    decreases w
  {
    if w != [] { NoCommaChars(w[1..], t); }
  }

  lemma NoCommaSplitTree(e: Expr, rest: Sql)
    requires Valid(e) && NoTopComma(rest)
    ensures NoTopComma(SplitTree(e, rest))
  {
    hide Show;
    match e
    case Col(name) => NoCommaChars(name, rest);
    case Num(n) => NoCommaChars(Show(n), rest);
    case Quote(_) =>
    case SplitAll(_, _) =>
    case SplitAt(_, _, n) => NoCommaChars(Show(n), Ch(']', rest));
    case SliceOf(a, b, c) =>
      NoCommaChars("slice", Paren(SplitTree(a, Comma(SplitTree(b, Comma(SplitTree(c, End))))), rest));
  }

  lemma {:induction false} WfSliceTree(e: Expr, rest: Sql, pre: string)
    requires Valid(e) && Neutral("slice", pre) && Opens(SLICE, rest)
    ensures Wf(SLICE, SliceTree(e, rest), pre)
    decreases Nodes(e), 0
  {
    hide Opens, Ready, Quiet, Show;
    OpensAnywhere(SLICE, rest, []);
    match e
    case Col(name) =>
      WordsPlain(name);
      WfWord(SLICE, name, rest, pre);
    case Num(n) =>
      ShowPlain(n);
      WfWord(SLICE, Show(n), rest, pre);
    case Quote(body) =>
    case SplitAll(s, d) =>
      WfPairGroup(s, d);
      WfNamedGroup(SLICE, "split", SliceTree(s, Comma(SliceTree(d, End))), rest, pre);
    case SplitAt(s, d, n) =>
      WfPairGroup(s, d);
      WfExtraction(SliceTree(s, Comma(SliceTree(d, End))), n + 1, rest, pre);
    case SliceOf(a, b, c) =>
      EmptyNeutral("slice");
      OpensEnd(SLICE);
      WfSliceTree(a, End, []);
      WfSliceTree(b, End, []);
      WfSliceTree(c, End, []);
      WfTripleArgs(a, b, c);
  }

  lemma {:induction false} WfPairGroup(s: Expr, d: Expr)
    requires Valid(s) && Valid(d)
    ensures Wf(SLICE, SliceTree(s, Comma(SliceTree(d, End))), [])
    decreases Nodes(s) + Nodes(d), 1
  {
    hide Opens, Ready, Quiet, Wf;
    EmptyNeutral("slice");
    OpensEnd(SLICE);
    WfSliceTree(d, End, []);
    OpensComma(SLICE, SliceTree(d, End));
    WfSliceTree(s, Comma(SliceTree(d, End)), []);
  }

  lemma WfExtraction(inner: Sql, n: nat, rest: Sql, pre: string)
    requires Wf(SLICE, inner, []) && Opens(SLICE, rest) && Bound(pre)
    ensures Wf(SLICE, Chars("list_extract", Paren(
              Chars("string_split", Paren(inner, Comma(Chars(Show(n), End)))), rest)), pre)
  {
    hide Show, Wf, Opens, Chars, Comma, Bound, AllPlain;
    OpensNumber(n);
    WfStringSplit(inner, Comma(Chars(Show(n), End)));
    WfListExtract(Chars("string_split", Paren(inner, Comma(Chars(Show(n), End)))), rest, pre);
  }

  lemma OpensNumber(n: nat)
    ensures Opens(SLICE, Comma(Chars(Show(n), End)))
  {
    hide Show, Wf, Opens;
    ShowPlain(n);
    OpensEnd(SLICE);
    WfWord(SLICE, Show(n), End, []);
    OpensComma(SLICE, Chars(Show(n), End));
  }

  lemma WfStringSplit(inner: Sql, rest: Sql)
    requires Wf(SLICE, inner, []) && Opens(SLICE, rest)
    ensures Wf(SLICE, Chars("string_split", Paren(inner, rest)), [])
  {
    hide Wf, Opens, Chars;
    WfNamedGroup(SLICE, "string_split", inner, rest, []);
  }

  lemma WfListExtract(inner: Sql, rest: Sql, pre: string)
    requires Wf(SLICE, inner, []) && Opens(SLICE, rest) && Bound(pre)
    ensures Wf(SLICE, Chars("list_extract", Paren(inner, rest)), pre)
  {
    hide Wf, Opens, Chars;
    WfNamedGroup(SLICE, "list_extract", inner, rest, pre);
  }

  lemma WfTripleArgs(a: Expr, b: Expr, c: Expr)
    requires Valid(a) && Valid(b) && Valid(c)
    requires Wf(SLICE, SliceTree(a, End), []) && Wf(SLICE, SliceTree(b, End), []) && Wf(SLICE, SliceTree(c, End), [])
    ensures WfArgs(SLICE, ThreeArgs(SliceTree(a, End), SliceTree(b, End), SliceTree(c, End)))
    ensures IsHead("slice", "slice")
  {
    hide Wf, SliceTree, Valid;
    NoCommaSliceTree(a, End);
    NoCommaSliceTree(b, End);
    NoCommaSliceTree(c, End);
    WfPairArgs(SLICE, SliceTree(b, End), SliceTree(c, End));
    WfLeadBlank(SLICE, SliceTree(b, End));
    assert NoTopComma(Ch(' ', SliceTree(b, End)));
  }

  lemma NoCommaSliceTree(e: Expr, rest: Sql)
    requires Valid(e) && NoTopComma(rest)
    ensures NoTopComma(SliceTree(e, rest))
  {
    hide Show;
    match e
    case Col(name) => NoCommaChars(name, rest);
    case Num(n) => NoCommaChars(Show(n), rest);
    case Quote(_) =>
    case SplitAll(s, d) => NoCommaChars("split", Paren(SliceTree(s, Comma(SliceTree(d, End))), rest));
    case SplitAt(s, d, n) =>
      NoCommaChars("list_extract", Paren(
        Chars("string_split", Paren(SliceTree(s, Comma(SliceTree(d, End))), Comma(Chars(Show(n + 1), End)))), rest));
    case SliceOf(_, _, _) =>
  }

  // ----- the first pass -----

  predicate Visible(s: string) { s != [] && !IsSpace(s[0]) && !IsSpace(s[|s| - 1]) }

  lemma HiveTextVisible(e: Expr)
    requires Valid(e)
    ensures Visible(HiveText(e))
  {
    match e
    case Col(name) => WordsPlain(name);
    case Num(n) => ShowPlain(n);
    case Quote(_) =>
    case SplitAll(_, _) =>
    case SplitAt(_, _, _) =>
    case SliceOf(_, _, _) =>
  }

  lemma SplitArgTexts(s: Expr, d: Expr)
    requires Valid(s) && Valid(d)
    ensures ArgTexts(TwoArgs(SplitTree(s, End), SplitTree(d, End))) == [HiveText(s), HiveText(d)]
  {
    hide Print, SplitTree, Strip;
    var a, b := SplitTree(s, End), SplitTree(d, End);
    PrintSplitTree(s, End);
    PrintSplitTree(d, End);
    DropEnd(HiveText(s));
    DropEnd(HiveText(d));
    HiveTextVisible(s);
    HiveTextVisible(d);
    StripOfTrimmed(HiveText(s));
    StripLead(" ", HiveText(d));
    PrintBlank(b);
    assert ArgTexts(Last(Ch(' ', b))) == [Strip(Print(Ch(' ', b)))];
  }

  lemma PrintBlank(t: Sql)
    ensures Print(Ch(' ', t)) == " " + Print(t)
  {
  }

  lemma {:induction false} IndexedChars(w: string, t: Sql)
    ensures Indexed(Chars(w, t)) == Chars(w, Indexed(t)) && LacksArgs(Chars(w, t)) == LacksArgs(t)
    decreases w
  {
    if w != [] { IndexedChars(w[1..], t); }
  }

  lemma {:induction false} DigitsOfChars(w: string, t: Sql)
    requires (forall i :: 0 <= i < |w| ==> IsDigit(w[i])) && t.Ch? && !IsDigit(t.c)
    ensures DigitsOf(Chars(w, t)) == (w, t)
    decreases w
  {
    if w != [] {
      DigitsOfChars(w[1..], t);
      assert [w[0]] + w[1..] == w;
    }
  }

  lemma IndexOfShown(n: nat, rest: Sql)
    ensures IndexOf(Ch('[', Chars(Show(n), Ch(']', rest)))) == Some(TreeIndex(n, rest))
  {
    hide Show;
    DigitsOfChars(Show(n), Ch(']', rest));
    DecimalShow(n);
    ShowPlain(n);
    var inner := Chars(Show(n), Ch(']', rest));
    assert inner.Ch? && inner.c == Show(n)[0];
    assert TrimLeft(inner) == inner;
  }

  lemma NoIndex(rest: Sql)
    requires EndsIndex(rest)
    ensures IndexOf(rest).None?
  {
  }

  /** The first pass on the tree prints the text between the passes. */
  lemma {:induction false} FirstPassTree(e: Expr, rest: Sql)
    requires Valid(e) && Flat(e) && EndsIndex(rest)
    ensures Print(Indexed(SplitTree(e, rest))) == MidText(e) + Print(Indexed(rest))
    ensures LacksArgs(SplitTree(e, rest)) == LacksArgs(rest)
    decreases e, 1
  {
    hide PrintArgs, IndexOf, Extracted, Extraction, ArgTexts, WfArgs, Show, EndsIndex;
    match e
    case Col(name) =>
      IndexedChars(name, rest);
      PrintChars(name, Indexed(rest));
    case Num(n) =>
      IndexedChars(Show(n), rest);
      PrintChars(Show(n), Indexed(rest));
    case Quote(body) =>
    case SplitAll(s, d) => FirstPassAll(s, d, rest);
    case SplitAt(s, d, n) => FirstPassAt(s, d, n, rest);
    case SliceOf(a, b, c) => FirstPassNested(a, b, c, rest);
  }

  lemma FirstPassAll(s: Expr, d: Expr, rest: Sql)
    requires Valid(s) && Valid(d) && !HasAt(s) && !HasAt(d) && EndsIndex(rest)
    ensures Print(Indexed(SplitTree(SplitAll(s, d), rest))) == MidText(SplitAll(s, d)) + Print(Indexed(rest))
    ensures LacksArgs(SplitTree(SplitAll(s, d), rest)) == LacksArgs(rest)
  {
    hide PrintArgs, IndexOf, Extracted, Extraction, ArgTexts, WfArgs, Show, EndsIndex;
    NoIndex(rest);
    MidIsHive(s);
    MidIsHive(d);
    PrintSplitArgs(s, d);
  }

  lemma FirstPassAt(s: Expr, d: Expr, n: nat, rest: Sql)
    requires Valid(s) && Valid(d) && !HasAt(s) && !HasAt(d) && EndsIndex(rest)
    ensures Print(Indexed(SplitTree(SplitAt(s, d, n), rest))) == MidText(SplitAt(s, d, n)) + Print(Indexed(rest))
    ensures LacksArgs(SplitTree(SplitAt(s, d, n), rest)) == LacksArgs(rest)
  {
    hide PrintArgs, IndexOf, Extracted, Extraction, ArgTexts, WfArgs, Show, EndsIndex;
    IndexOfShown(n, rest);
    MidIsHive(s);
    MidIsHive(d);
    SplitArgTexts(s, d);
    WfSplitArgs(s, d);
    PrintExtracted(TwoArgs(SplitTree(s, End), SplitTree(d, End)), n, Indexed(rest));
  }

  lemma {:induction false} FirstPassNested(a: Expr, b: Expr, c: Expr, rest: Sql)
    requires Valid(a) && Valid(b) && Valid(c) && Flat(a) && Flat(b) && Flat(c) && EndsIndex(rest)
    ensures Print(Indexed(SplitTree(SliceOf(a, b, c), rest))) == MidText(SliceOf(a, b, c)) + Print(Indexed(rest))
    ensures LacksArgs(SplitTree(SliceOf(a, b, c), rest)) == LacksArgs(rest)
    decreases SliceOf(a, b, c), 0
  {
    hide PrintArgs, IndexOf, Extracted, Extraction, ArgTexts, WfArgs, Show, EndsIndex;
    var tc := SplitTree(c, End);
    var tb := SplitTree(b, Comma(tc));
    CommaEndsIndex(tc);
    CommaEndsIndex(tb);
    FirstPassTree(c, End);
    FirstPassTree(b, Comma(tc));
    FirstPassTree(a, Comma(tb));
    FirstPassSlice(a, b, c, SplitTree(a, Comma(tb)), tb, tc);
    IndexedChars("slice", Paren(SplitTree(a, Comma(tb)), rest));
    PrintNamedGroup("slice", Indexed(SplitTree(a, Comma(tb))), Indexed(rest));
  }

  lemma CommaEndsIndex(t: Sql)
    ensures EndsIndex(Comma(t)) && EndsIndex(End)
    ensures Indexed(Comma(t)) == Comma(Indexed(t)) && LacksArgs(Comma(t)) == LacksArgs(t)
  {
  }

  lemma FirstPassSlice(a: Expr, b: Expr, c: Expr, ta: Sql, tb: Sql, tc: Sql)
    requires Print(Indexed(tc)) == MidText(c) + Print(End)
    requires Print(Indexed(tb)) == MidText(b) + Print(Indexed(Comma(tc)))
    requires Print(Indexed(ta)) == MidText(a) + Print(Indexed(Comma(tb)))
    ensures Print(Indexed(ta)) == MidText(a) + ", " + (MidText(b) + ", " + MidText(c))
  {
    hide Print, Indexed, MidText, Comma;
    CommaEndsIndex(tc);
    CommaEndsIndex(tb);
    DropEnd(MidText(c));
    PrintComma(Indexed(tc));
    PrintComma(Indexed(tb));
    CommaGlue(MidText(a), MidText(b), MidText(c));
  }

  lemma PrintSplitArgs(s: Expr, d: Expr)
    ensures PrintArgs(TwoArgs(SplitTree(s, End), SplitTree(d, End))) == HiveText(s) + ", " + HiveText(d)
  {
    hide Print, SplitTree, HiveText;
    PrintSplitTree(s, End);
    PrintSplitTree(d, End);
    DropEnd(HiveText(s));
    DropEnd(HiveText(d));
    PrintTwoArgs(SplitTree(s, End), SplitTree(d, End));
  }

  lemma FirstPass(e: Expr)
    requires Valid(e) && Flat(e)
    ensures RewriteFrom(HiveText(e), 0) == Ok(MidText(e))
  {
    hide RewriteFrom, SplitTree, HiveText, MidText, Indexed, Wf, LacksArgs;
    EmptyNeutral("split");
    OpensEnd(SPLIT);
    WfSplitTree(e, End, []);
    CommaEndsIndex(End);
    FirstPassTree(e, End);
    IndexedEnd();
    PrintSplitTree(e, End);
    DropEnd(HiveText(e));
    DropEnd(MidText(e));
    RewritesIndexedSplits(SplitTree(e, End));
  }

  lemma IndexedEnd()
    ensures Indexed(End) == End && !LacksArgs(End)
  {
  }

  // ----- the second pass -----

  lemma {:induction false} TrimRightChars(w: string, t: Sql)
    requires NoSpace(w) && TrimRight(t) == t
    ensures TrimRight(Chars(w, t)) == Chars(w, t)
    decreases w
  {
    if w != [] { TrimRightChars(w[1..], t); }
  }

  lemma TrimNamedGroup(f: string, inner: Sql)
    requires NoSpace(f) && f != []
    ensures TrimRight(Chars(f, Paren(inner, End))) == Chars(f, Paren(inner, End))
    ensures TrimLeft(Chars(f, Paren(inner, End))) == Chars(f, Paren(inner, End))
  {
    TrimRightChars(f, Paren(inner, End));
  }

  /** The printed expression is trimmed already. */
  lemma SliceTreeTrimmed(e: Expr)
    requires Valid(e)
    ensures TrimRight(SliceTree(e, End)) == SliceTree(e, End)
    ensures TrimLeft(SliceTree(e, End)) == SliceTree(e, End)
  {
    match e
    case Col(name) =>
      WordsPlain(name);
      TrimRightChars(name, End);
    case Num(n) =>
      ShowPlain(n);
      TrimRightChars(Show(n), End);
    case Quote(_) =>
    case SplitAll(s, d) => SplitTreeTrimmed(s, d);
    case SplitAt(s, d, n) => ExtractTreeTrimmed(s, d, n);
    case SliceOf(_, _, _) =>
  }

  lemma SplitTreeTrimmed(s: Expr, d: Expr)
    ensures TrimRight(SliceTree(SplitAll(s, d), End)) == SliceTree(SplitAll(s, d), End)
    ensures TrimLeft(SliceTree(SplitAll(s, d), End)) == SliceTree(SplitAll(s, d), End)
  {
    hide TrimRight, TrimLeft, Chars;
    TrimNamedGroup("split", SliceTree(s, Comma(SliceTree(d, End))));
  }

  lemma ExtractTreeTrimmed(s: Expr, d: Expr, n: nat)
    ensures TrimRight(SliceTree(SplitAt(s, d, n), End)) == SliceTree(SplitAt(s, d, n), End)
    ensures TrimLeft(SliceTree(SplitAt(s, d, n), End)) == SliceTree(SplitAt(s, d, n), End)
  {
    hide TrimRight, TrimLeft, Chars, Show;
    TrimNamedGroup("list_extract",
      Chars("string_split", Paren(SliceTree(s, Comma(SliceTree(d, End))), Comma(Chars(Show(n + 1), End)))));
  }

  lemma TrimsToItself(e: Expr)
    requires Valid(e)
    ensures Trim(SliceTree(e, End)) == SliceTree(e, End)
    ensures Trim(Ch(' ', SliceTree(e, End))) == SliceTree(e, End)
  {
    SliceTreeTrimmed(e);
  }

  lemma FullSliceArgs(a: Expr, b: Expr, c: Expr)
    requires Valid(a) && Valid(b) && Valid(c)
    ensures
      var args := ThreeArgs(SliceTree(a, End), SliceTree(b, End), SliceTree(c, End));
      && |ArgList(args)| == 3
      && FullArgs(Slice, args)
         == [Full(Slice, SliceTree(a, End)), Full(Slice, SliceTree(b, End)), Full(Slice, SliceTree(c, End))]
      && FailingArgs(Slice, args)
         == [Fails(Slice, SliceTree(a, End)), Fails(Slice, SliceTree(b, End)), Fails(Slice, SliceTree(c, End))]
  {
    hide Full, Fails, Trim, SliceTree;
    TrimsToItself(a);
    TrimsToItself(b);
    TrimsToItself(c);
    var a', b', c' := SliceTree(a, End), SliceTree(b, End), SliceTree(c, End);
    var t2 := Last(Ch(' ', c'));
    var t1 := More(Ch(' ', b'), t2);
    FailsBlank(b');
    FailsBlank(c');
    assert ArgList(t2) == [Ch(' ', c')] && ArgList(t1) == [Ch(' ', b')] + ArgList(t2);
    assert FullArgs(Slice, t2) == [Full(Slice, c')];
    assert FullArgs(Slice, t1) == [Full(Slice, b')] + [Full(Slice, c')];
    assert FailingArgs(Slice, t2) == [Fails(Slice, c')];
    assert FailingArgs(Slice, t1) == [Fails(Slice, b')] + [Fails(Slice, c')];
  }

  lemma FailsBlank(t: Sql)
    ensures Fails(Slice, Ch(' ', t)) == Fails(Slice, t)
  {
  }

  lemma UsesNothing(t: Template, bs: seq<bool>)
    requires Fits(t, |bs|) && forall i :: 0 <= i < |bs| ==> !bs[i]
    ensures !Uses(t, bs)
  {
  }

  lemma SecondPassWord(w: string, rest: Sql)
    ensures Print(Full(Slice, Chars(w, rest))) == w + Print(Full(Slice, rest))
    ensures Fails(Slice, Chars(w, rest)) == Fails(Slice, rest)
  {
    hide Full, Fails, Print;
    OverChars(Slice, w, rest);
    PrintChars(w, Full(Slice, rest));
  }

  lemma SecondPassQuote(body: string, rest: Sql)
    ensures Print(Full(Slice, Lit('\'', body, rest))) == Quoted(body) + Print(Full(Slice, rest))
    ensures Fails(Slice, Lit('\'', body, rest)) == Fails(Slice, rest)
  {
  }

  lemma SecondPassGroup(f: string, inner: Sql, rest: Sql)
    requires !Fails(Slice, inner)
    ensures Print(Full(Slice, Chars(f, Paren(inner, rest))))
         == CallText(f, Print(Full(Slice, inner))) + Print(Full(Slice, rest))
    ensures Fails(Slice, Chars(f, Paren(inner, rest))) == Fails(Slice, rest)
  {
    hide Print, Chars;
    OverChars(Slice, f, Paren(inner, rest));
    PrintNamedGroup(f, Full(Slice, inner), Full(Slice, rest));
  }

  lemma {:induction false} SecondPassTree(e: Expr, rest: Sql)
    requires Valid(e)
    ensures Print(Full(Slice, SliceTree(e, rest))) == DuckText(Translate(e)) + Print(Full(Slice, rest))
    ensures Fails(Slice, SliceTree(e, rest)) == Fails(Slice, rest)
    decreases e
  {
    hide Full, Fails, Print, Chars, CallText, Quoted, Extraction, Show, Comma, ThreeArgs;
    match e
    case Col(name) => SecondPassWord(name, rest);
    case Num(n) => SecondPassWord(Show(n), rest);
    case Quote(body) => SecondPassQuote(body, rest);
    case SplitAll(s, d) =>
      var inner := SliceTree(s, Comma(SliceTree(d, End)));
      SecondPassTree(d, End);
      SecondPassTree(s, Comma(SliceTree(d, End)));
      SecondPassPair(s, d);
      SecondPassGroup("split", inner, rest);
    case SplitAt(s, d, n) =>
      var inner := SliceTree(s, Comma(SliceTree(d, End)));
      SecondPassTree(d, End);
      SecondPassTree(s, Comma(SliceTree(d, End)));
      SecondPassPair(s, d);
      SecondPassExtraction(inner, n + 1, rest);
      ExtractionUnfolds(DuckText(Translate(s)), DuckText(Translate(d)), n + 1);
    case SliceOf(a, b, c) =>
      SecondPassTree(a, End);
      SecondPassTree(b, End);
      SecondPassTree(c, End);
      SecondPassSlice(a, b, c, rest);
  }

  lemma ExtractionUnfolds(a: string, b: string, n: nat)
    ensures Extraction(a, b, n) == CallText("list_extract", CallText("string_split", a + ", " + b) + (", " + Show(n)))
  {
  }

  lemma FullComma(t: Sql)
    ensures Full(Slice, Comma(t)) == Comma(Full(Slice, t)) && Fails(Slice, Comma(t)) == Fails(Slice, t)
    ensures Full(Slice, End) == End && !Fails(Slice, End)
  {
  }

  lemma SecondPassPair(s: Expr, d: Expr)
    requires Print(Full(Slice, SliceTree(d, End))) == DuckText(Translate(d)) + Print(Full(Slice, End))
    requires Print(Full(Slice, SliceTree(s, Comma(SliceTree(d, End)))))
          == DuckText(Translate(s)) + Print(Full(Slice, Comma(SliceTree(d, End))))
    requires Fails(Slice, SliceTree(d, End)) == Fails(Slice, End)
    requires Fails(Slice, SliceTree(s, Comma(SliceTree(d, End)))) == Fails(Slice, Comma(SliceTree(d, End)))
    ensures Print(Full(Slice, SliceTree(s, Comma(SliceTree(d, End)))))
         == DuckText(Translate(s)) + ", " + DuckText(Translate(d))
    ensures !Fails(Slice, SliceTree(s, Comma(SliceTree(d, End))))
  {
    hide Print, Full, SliceTree, DuckText, Translate, Fails;
    var td := SliceTree(d, End);
    FullComma(td);
    FullComma(End);
    DropEnd(DuckText(Translate(d)));
    PrintComma(Full(Slice, td));
    CommaGlue(DuckText(Translate(s)), DuckText(Translate(d)), []);
  }

  lemma SecondPassExtraction(inner: Sql, n: nat, rest: Sql)
    requires !Fails(Slice, inner)
    ensures
      var t := Chars("list_extract", Paren(Chars("string_split", Paren(inner, Comma(Chars(Show(n), End)))), rest));
      && Print(Full(Slice, t))
         == CallText("list_extract", CallText("string_split", Print(Full(Slice, inner))) + (", " + Show(n)))
            + Print(Full(Slice, rest))
      && Fails(Slice, t) == Fails(Slice, rest)
  {
    hide Show, Chars, Full, Fails, Print, CallText, Comma;
    var number := Comma(Chars(Show(n), End));
    SecondPassWord(Show(n), End);
    FullComma(Chars(Show(n), End));
    PrintComma(Full(Slice, Chars(Show(n), End)));
    DropEnd(Show(n));
    SecondPassGroup("string_split", inner, number);
    SecondPassGroup("list_extract", Chars("string_split", Paren(inner, number)), rest);
  }

  lemma SecondPassSlice(a: Expr, b: Expr, c: Expr, rest: Sql)
    requires Valid(a) && Valid(b) && Valid(c)
    requires Print(Full(Slice, SliceTree(a, End))) == DuckText(Translate(a)) + Print(Full(Slice, End))
    requires Print(Full(Slice, SliceTree(b, End))) == DuckText(Translate(b)) + Print(Full(Slice, End))
    requires Print(Full(Slice, SliceTree(c, End))) == DuckText(Translate(c)) + Print(Full(Slice, End))
    requires Fails(Slice, SliceTree(a, End)) == Fails(Slice, End)
    requires Fails(Slice, SliceTree(b, End)) == Fails(Slice, End)
    requires Fails(Slice, SliceTree(c, End)) == Fails(Slice, End)
    ensures
      var t := Call("slice", ThreeArgs(SliceTree(a, End), SliceTree(b, End), SliceTree(c, End)), rest);
      && Print(Full(Slice, t)) == DuckText(Translate(SliceOf(a, b, c))) + Print(Full(Slice, rest))
      && Fails(Slice, t) == Fails(Slice, rest)
  {
    hide SliceTree, FullArgs, FailingArgs, Print, Full, Fails, DuckText, Translate;
    var args := ThreeArgs(SliceTree(a, End), SliceTree(b, End), SliceTree(c, End));
    FullSliceArgs(a, b, c);
    FullComma(End);
    var x, y, z := DuckText(Translate(a)), DuckText(Translate(b)), DuckText(Translate(c));
    DropEnd(x);
    DropEnd(y);
    DropEnd(z);
    SliceCallNode(args, x, y, z, rest);
    DuckSliceText(a, b, c);
  }

  lemma DuckSliceText(a: Expr, b: Expr, c: Expr)
    ensures
      var x, y, z := DuckText(Translate(a)), DuckText(Translate(b)), DuckText(Translate(c));
      DuckText(Translate(SliceOf(a, b, c))) == CallText("list_slice", x + ", " + y + ", (" + y + ") + (" + z + ") - 1")
  {
    SpanGlue(DuckText(Translate(a)), DuckText(Translate(b)), DuckText(Translate(c)));
  }

  /** A `slice` call whose arguments print as `x`, `y` and `z` after rewriting. */
  lemma SliceCallNode(args: Args, x: string, y: string, z: string, rest: Sql)
    requires |ArgList(args)| == 3
    requires
      var ts := FullArgs(Slice, args);
      Print(ts[0]) == x && Print(ts[1]) == y && Print(ts[2]) == z
    requires forall i :: 0 <= i < 3 ==> !FailingArgs(Slice, args)[i]
    ensures
      var t := Call("slice", args, rest);
      && Print(Full(Slice, t))
         == CallText("list_slice", x + ", " + y + ", (" + y + ") + (" + z + ") - 1") + Print(Full(Slice, rest))
      && Fails(Slice, t) == Fails(Slice, rest)
  {
    hide Render, FullArgs, FailingArgs, Uses, Print, Inst, SliceBounds;
    var texts := [x, y, z];
    RenderSlice(texts);
    RenderCall("list_slice", SliceBounds(), texts);
    assert TemplateFor(Slice, args) == TCall("list_slice", SliceBounds());
    PrintInst(TCall("list_slice", SliceBounds()), FullArgs(Slice, args), texts, Full(Slice, rest));
    UsesNothing(TCall("list_slice", SliceBounds()), FailingArgs(Slice, args));
  }

  lemma SpanGlue(x: string, y: string, z: string)
    ensures x + ", " + y + ", (" + y + ") + (" + z + ") - 1" == x + ", " + y + ", " + ("(" + y + ") + (" + z + ") - 1")
  {
    assert ", (" == ", " + "(";
  }

  // ----- both passes -----

  /** The text of an expression goes in, the text of its translation comes out. */
  method TranslateText(e: Expr) returns (r: Result<string>)
    requires Valid(e) && Flat(e)
    ensures r == Ok(DuckText(Translate(e)))
  {
    hide RewriteFrom, SliceTree, HiveText, MidText, Wf, Full, Fails, DuckText, Translate;
    var hive := HiveText(e);
    r := RewriteIndexedSplit(hive);
    FirstPass(e);
    EmptyNeutral("slice");
    OpensEnd(SLICE);
    WfSliceTree(e, End, []);
    PrintSliceTree(e, End);
    DropEnd(MidText(e));
    ghost var rounds;
    r, rounds := RewriteCalls(r.value, Slice, SliceTree(e, End));
    SecondPassTree(e, End);
    FullComma(End);
    DropEnd(DuckText(Translate(e)));
  }
}

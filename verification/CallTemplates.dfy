/**
 The six replacements that `duckdb_sql` hands to `_rewrite_calls`, once as the text they build and
 once as templates over trees, and what instantiating a template keeps.
 */
module CallTemplates {
  import opened Text
  import opened ArgScanner
  import opened CallSearch
  import opened SqlTree

  datatype Rule = ConcatWs | Slice | PercentileApprox | StrToMap | MakeArray | UnixTimestamp

  /** A replacement either builds text or indexes an argument that is not there. */
  datatype Result<+T> = Ok(value: T) | IndexError

  function Name(rule: Rule): (name: string)
    ensures IsName(name)
  {
    match rule
    case ConcatWs => "concat_ws"
    case Slice => "slice"
    case PercentileApprox => "percentile_approx"
    case StrToMap => "str_to_map"
    case MakeArray => "array"
    case UnixTimestamp => "unix_timestamp"
  }

  function TargetOf(rule: Rule): (k: Target)
    ensures IsName(k.name)
  {
    Target(Name(rule), rule.StrToMap?)
  }

  /** `f(inner)` */
  function CallText(f: string, inner: string): string { f + "(" + inner + ")" }

  const DATE_FORMAT := "%Y-%m-%d"

  function Quoted(body: string): string { ['\''] + body + ['\''] }

  /** The replacement lambdas, on the argument texts. */
  function Replacement(rule: Rule, a: seq<string>): Result<string>
    requires |a| >= 1
  {
    match rule
    case ConcatWs =>
      if |a| == 2 then Ok(CallText("array_to_string", a[1] + ", " + a[0]))
      else Ok(CallText("duckdb_concat_ws", Join(a, ", ")))
    case Slice =>
      if |a| < 3 then IndexError
      else Ok(CallText("list_slice", a[0] + ", " + a[1] + ", (" + a[1] + ") + (" + a[2] + ") - 1"))
    case PercentileApprox =>
      if |a| < 2 then IndexError else Ok(CallText("quantile_cont", a[0] + ", " + a[1]))
    case StrToMap => Ok(a[0])
    case MakeArray => Ok(CallText("list_value", Join(a, ", ")))
    case UnixTimestamp =>
      if |a| == 2 then Ok(CallText("epoch", CallText("strptime", a[0] + ", " + Quoted(DATE_FORMAT))))
      else Ok(CallText("duckdb_unix_timestamp", a[0]))
  }

  // ----- templates -----

  datatype Template =
    | TEnd
    | TText(text: string, rest: Template)
    | TGroup(inner: Template, rest: Template)
    | TLit(quote: char, body: string, rest: Template)
    | TArg(index: nat, rest: Template)

  /** Arguments `i` to `n - 1` separated by comma and blank. */
  function ListOf(i: nat, n: nat): Template
    requires i < n
    decreases n - i
  {
    if i + 1 == n then TArg(i, TEnd) else TArg(i, TText(", ", ListOf(i + 1, n)))
  }

  function TemplateOf(rule: Rule, n: nat): Option<Template>
    requires n >= 1
  {
    match rule
    case ConcatWs =>
      if n == 2 then Some(TCall("array_to_string", Pair(1, 0)))
      else Some(TCall("duckdb_concat_ws", ListOf(0, n)))
    case Slice => if n < 3 then None else Some(TCall("list_slice", SliceBounds()))
    case PercentileApprox => if n < 2 then None else Some(TCall("quantile_cont", Pair(0, 1)))
    case StrToMap => Some(TArg(0, TEnd))
    case MakeArray => Some(TCall("list_value", ListOf(0, n)))
    case UnixTimestamp =>
      if n == 2 then Some(TCall("epoch", TCall("strptime", DateArg())))
      else Some(TCall("duckdb_unix_timestamp", TArg(0, TEnd)))
  }

  function Pair(i: nat, j: nat): Template { TArg(i, TText(", ", TArg(j, TEnd))) }

  function DateArg(): Template { TArg(0, TText(", ", TLit('\'', DATE_FORMAT, TEnd))) }

  function TCall(f: string, inner: Template): Template { TText(f, TGroup(inner, TEnd)) }

  /** `a, b, (b) + (c) - 1` */
  function SliceBounds(): Template {
    TArg(0, TText(", ", TArg(1, TText(", ",
      TGroup(TArg(1, TEnd), TText(" + ", TGroup(TArg(2, TEnd), TText(" - 1", TEnd))))))))
  }

  /** Every argument the template names is one of the first `n`. */
  predicate Fits(t: Template, n: nat) {
    match t
    case TEnd => true
    case TText(_, r) => Fits(r, n)
    case TGroup(inner, r) => Fits(inner, n) && Fits(r, n)
    case TLit(_, _, r) => Fits(r, n)
    case TArg(i, r) => i < n && Fits(r, n)
  }

  function Render(t: Template, a: seq<string>): string
    requires Fits(t, |a|)
  {
    match t
    case TEnd => []
    case TText(s, r) => s + Render(r, a)
    case TGroup(inner, r) => "(" + Render(inner, a) + ")" + Render(r, a)
    case TLit(q, body, r) => [q] + body + [q] + Render(r, a)
    case TArg(i, r) => a[i] + Render(r, a)
  }

  /** The template with trees for its arguments, followed by `rest`. */
  function Inst(t: Template, ts: seq<Sql>, rest: Sql): Sql
    requires Fits(t, |ts|)
  {
    match t
    case TEnd => rest
    case TText(s, r) => Chars(s, Inst(r, ts, rest))
    case TGroup(inner, r) => Paren(Inst(inner, ts, End), Inst(r, ts, rest))
    case TLit(q, body, r) => Lit(q, body, Inst(r, ts, rest))
    case TArg(i, r) => Append(ts[i], Inst(r, ts, rest))
  }

  lemma {:induction false} PrintInst(t: Template, ts: seq<Sql>, a: seq<string>, rest: Sql)
    requires |a| == |ts| && forall i :: 0 <= i < |ts| ==> a[i] == Print(ts[i])
    requires Fits(t, |ts|)
    ensures Print(Inst(t, ts, rest)) == Render(t, a) + Print(rest)
    decreases t
  {
    match t
    case TEnd =>
    case TText(s, r) =>
      PrintInst(r, ts, a, rest);
      PrintChars(s, Inst(r, ts, rest));
    case TGroup(inner, r) =>
      PrintInst(inner, ts, a, End);
      PrintInst(r, ts, a, rest);
    case TLit(q, body, r) => PrintInst(r, ts, a, rest);
    case TArg(i, r) =>
      PrintInst(r, ts, a, rest);
      PrintAppend(ts[i], Inst(r, ts, rest));
  }

  // ----- the templates are the lambdas -----

  lemma {:induction false} RenderList(i: nat, a: seq<string>)
    requires i < |a|
    ensures Fits(ListOf(i, |a|), |a|) && Render(ListOf(i, |a|), a) == Join(a[i..], ", ")
    decreases |a| - i
  {
    if i + 1 < |a| {
      RenderList(i + 1, a);
      assert a[i..][1..] == a[i + 1..];
    }
  }

  lemma RenderCall(f: string, inner: Template, a: seq<string>)
    requires Fits(inner, |a|)
    ensures Fits(TCall(f, inner), |a|) && Render(TCall(f, inner), a) == CallText(f, Render(inner, a))
  {
    var group := TGroup(inner, TEnd);
    assert Fits(group, |a|);
    assert Render(group, a) == "(" + Render(inner, a) + ")";
  }

  lemma RenderPair(i: nat, j: nat, a: seq<string>)
    requires i < |a| && j < |a|
    ensures Fits(Pair(i, j), |a|) && Render(Pair(i, j), a) == a[i] + ", " + a[j]
  {
    RenderArg(j, a);
    assert Fits(TText(", ", TArg(j, TEnd)), |a|);
    assert Render(TText(", ", TArg(j, TEnd)), a) == ", " + a[j];
  }

  lemma RenderArg(i: nat, a: seq<string>)
    requires i < |a|
    ensures Fits(TArg(i, TEnd), |a|) && Render(TArg(i, TEnd), a) == a[i]
  {
    assert Fits(TEnd, |a|) && Render(TEnd, a) == [];
    assert a[i] + [] == a[i];
  }

  lemma RenderSlice(a: seq<string>)
    requires |a| >= 3
    ensures Fits(SliceBounds(), |a|)
    ensures Render(SliceBounds(), a) == a[0] + ", " + a[1] + ", (" + a[1] + ") + (" + a[2] + ") - 1"
  {
    var t4 := TText(" - 1", TEnd);
    var t3 := TText(" + ", TGroup(TArg(2, TEnd), t4));
    var t2 := TText(", ", TGroup(TArg(1, TEnd), t3));
    var t1 := TText(", ", TArg(1, t2));
    RenderArg(1, a);
    RenderArg(2, a);
    assert Fits(t4, |a|) && Render(t4, a) == " - 1";
    assert Fits(TGroup(TArg(2, TEnd), t4), |a|);
    assert Render(TGroup(TArg(2, TEnd), t4), a) == "(" + a[2] + ")" + " - 1";
    assert Fits(t3, |a|) && Render(t3, a) == " + " + ("(" + a[2] + ")" + " - 1");
    assert Fits(TGroup(TArg(1, TEnd), t3), |a|);
    assert Render(TGroup(TArg(1, TEnd), t3), a) == "(" + a[1] + ")" + Render(t3, a);
    assert Fits(t2, |a|) && Render(t2, a) == ", " + ("(" + a[1] + ")" + Render(t3, a));
    assert Fits(TArg(1, t2), |a|) && Render(TArg(1, t2), a) == a[1] + Render(t2, a);
    assert Fits(t1, |a|) && Render(t1, a) == ", " + (a[1] + Render(t2, a));
    SliceGlue(a[0], a[1], a[2], Render(t1, a), Render(t2, a), Render(t3, a));
  }

  lemma SliceGlue(a: string, b: string, c: string, s1: string, s2: string, s3: string)
    requires s3 == " + " + ("(" + c + ")" + " - 1") && s2 == ", " + ("(" + b + ")" + s3)
    requires s1 == ", " + (b + s2)
    ensures a + s1 == a + ", " + b + ", (" + b + ") + (" + c + ") - 1"
  {
    assert s3 == " + (" + c + ") - 1";
    assert s2 == ", (" + b + ")" + s3;
    assert ")" + s3 == ") + (" + c + ") - 1";
    assert s2 == ", (" + b + (")" + s3);
  }

  lemma RenderArgLit(i: nat, q: char, body: string, a: seq<string>)
    requires i < |a|
    ensures Fits(TArg(i, TText(", ", TLit(q, body, TEnd))), |a|)
    ensures Render(TArg(i, TText(", ", TLit(q, body, TEnd))), a) == a[i] + ", " + ([q] + body + [q])
  {
    var t2 := TLit(q, body, TEnd);
    var t1 := TText(", ", t2);
    assert Fits(t2, |a|) && Fits(t1, |a|);
    assert Render(t2, a) == [q] + body + [q] + Render(TEnd, a);
    assert Render(t1, a) == ", " + Render(t2, a);
    assert Render(TArg(i, t1), a) == a[i] + Render(t1, a);
  }

  /** The template of a rule says exactly what its lambda builds, and is missing where it raises. */
  lemma RenderIsReplacement(rule: Rule, a: seq<string>)
    requires |a| >= 1
    ensures TemplateOf(rule, |a|).None? <==> Replacement(rule, a).IndexError?
    ensures TemplateOf(rule, |a|).Some? ==>
      && Fits(TemplateOf(rule, |a|).value, |a|)
      && Replacement(rule, a) == Ok(Render(TemplateOf(rule, |a|).value, a))
  {
    hide Render, Join;
    RenderList(0, a);
    assert a[0..] == a;
    match rule
    case ConcatWs =>
      if |a| == 2 {
        RenderPair(1, 0, a);
        RenderCall("array_to_string", Pair(1, 0), a);
      } else {
        RenderCall("duckdb_concat_ws", ListOf(0, |a|), a);
      }
    case Slice =>
      if |a| >= 3 {
        RenderSlice(a);
        RenderCall("list_slice", SliceBounds(), a);
      }
    case PercentileApprox =>
      if |a| >= 2 {
        RenderPair(0, 1, a);
        RenderCall("quantile_cont", Pair(0, 1), a);
      }
    case StrToMap => RenderArg(0, a);
    case MakeArray => RenderCall("list_value", ListOf(0, |a|), a);
    case UnixTimestamp =>
      if |a| == 2 {
        RenderArgLit(0, '\'', DATE_FORMAT, a);
        RenderCall("strptime", DateArg(), a);
        RenderCall("epoch", TCall("strptime", DateArg()), a);
      } else {
        RenderArg(0, a);
        RenderCall("duckdb_unix_timestamp", TArg(0, TEnd), a);
      }
  }

  // ----- instantiating keeps well-formedness -----

  predicate AllPlain(s: string) { forall i :: 0 <= i < |s| ==> IsPlain(s[i]) }

  /** In the context `x` the template creates no match, and its arguments are read as on their own. */
  predicate Good(k: Target, t: Template, x: string)
    decreases t
  {
    match t
    case TEnd => true
    case TText(s, r) => AllPlain(s) && Good(k, r, x + s)
    case TGroup(inner, r) => !Ready(k.name, x) && Good(k, inner, []) && Good(k, r, [])
    case TLit(q, body, r) => IsLiteral(q, body) && Quiet(k.name, body, 0) && Good(k, r, [])
    case TArg(i, r) =>
      && Neutral(k.name, x)
      && (r.TEnd? || (r.TText? && r.text != [] && Reset(r.text[0]) && AllPlain(r.text)
                      && Good(k, r.rest, r.text[1..])))
  }

  /** What follows the template starts in a fresh context, or the target is open. */
  predicate Closed(k: Target, t: Template) {
    match t
    case TEnd => false
    case TText(_, r) => Closed(k, r)
    case TGroup(_, r) => r.TEnd? || Closed(k, r)
    case TLit(_, _, r) => r.TEnd? || Closed(k, r)
    case TArg(_, r) => if r.TEnd? then k.open else Closed(k, r)
  }

  lemma {:induction false} WfInst(k: Target, t: Template, ts: seq<Sql>, rest: Sql, x: string)
    requires IsName(k.name) && Fits(t, |ts|) && Good(k, t, x)
    requires forall i :: 0 <= i < |ts| ==> Wf(k, ts[i], [])
    requires rest.End? || (Wf(k, rest, []) && (k.open ==> Follows(rest)) && Closed(k, t))
    ensures Wf(k, Inst(t, ts, rest), x)
    decreases t
  {
    match t
    case TEnd =>
    case TText(s, r) =>
      WfInst(k, r, ts, rest, x + s);
      WfChars(k, s, Inst(r, ts, rest), x);
    case TGroup(inner, r) =>
      WfInst(k, inner, ts, End, []);
      if !r.TEnd? { WfInst(k, r, ts, rest, []); }
    case TLit(q, body, r) =>
      if !r.TEnd? { WfInst(k, r, ts, rest, []); }
    case TArg(i, r) =>
      WfNeutral(k, ts[i], x);
      var trail := Trail(ts[i], x);
      if r.TEnd? {
        if !rest.End? { WfFollows(k, rest, trail); }
      } else {
        WfInst(k, r.rest, ts, rest, r.text[1..]);
        WfAfterReset(k, r.text, Inst(r.rest, ts, rest), trail);
      }
      WfAppend(k, ts[i], Inst(r, ts, rest), x);
  }

  lemma WfAfterReset(k: Target, s: string, t: Sql, trail: string)
    requires IsName(k.name) && s != [] && Reset(s[0]) && AllPlain(s) && Wf(k, t, s[1..])
    ensures Wf(k, Chars(s, t), trail) && Follows(Chars(s, t))
  {
    WfChars(k, s, t, trail);
    ResetNeutral(k.name, trail, s[0]);
    WfShift(k, t, trail + [s[0]], s[1..]);
    assert trail + [s[0]] + s[1..] == trail + s;
  }

  // ----- every template is good wherever its call may stand -----

  lemma {:induction false} GoodList(k: Target, i: nat, n: nat, x: string)
    requires IsName(k.name) && i < n && Neutral(k.name, x)
    ensures Good(k, ListOf(i, n), x)
    decreases n - i
  {
    if i + 1 < n {
      BlanksNeutral(k.name, " ");
      assert ", "[1..] == " ";
      GoodList(k, i + 1, n, " ");
    }
  }

  /** A word that ends neither in the name nor in a blank does not announce a match. */
  lemma NotReady(name: string, pre: string, w: string)
    requires IsName(name) && Bound(pre) && w != [] && !IsSpace(w[|w| - 1])
    requires Fold(w[|w| - 1]) != name[|name| - 1]
          || (|w| > |name| && IsWord(w[|w| - |name| - 1]))
    ensures !Ready(name, pre + w)
  {
    assert !AllSpace(w);
    ReadyShift(name, pre, w);
    assert RStrip(w) == w;
    if |name| <= |w| {
      assert w[|w| - |name|..][|name| - 1] == w[|w| - 1];
    }
  }

  lemma EmptyNeutral(name: string)
    requires IsName(name)
    ensures Neutral(name, [])
  {
    BlanksNeutral(name, []);
  }

  lemma GoodPair(k: Target, i: nat, j: nat)
    requires IsName(k.name)
    ensures Good(k, Pair(i, j), [])
  {
    EmptyNeutral(k.name);
    BlanksNeutral(k.name, " ");
    assert ", "[1..] == " ";
  }

  /** A word that cannot end in a bounded occurrence of the name, and a group after it. */
  lemma GoodCall(k: Target, pre: string, w: string, inner: Template)
    requires IsName(k.name) && Bound(pre) && w != [] && !IsSpace(w[|w| - 1]) && AllPlain(w)
    requires Fold(w[|w| - 1]) != k.name[|k.name| - 1]
          || (|w| > |k.name| && IsWord(w[|w| - |k.name| - 1]))
    requires Good(k, inner, [])
    ensures Good(k, TCall(w, inner), pre)
    ensures Closed(k, TCall(w, inner))
  {
    NotReady(k.name, pre, w);
  }

  lemma GoodConcatWs(n: nat, pre: string)
    requires n >= 1 && Bound(pre)
    ensures Good(TargetOf(ConcatWs), TemplateOf(ConcatWs, n).value, pre)
    ensures Closed(TargetOf(ConcatWs), TemplateOf(ConcatWs, n).value)
  {
    var k := TargetOf(ConcatWs);
    if n == 2 {
      GoodPair(k, 1, 0);
      GoodCall(k, pre, "array_to_string", Pair(1, 0));
    } else {
      EmptyNeutral(k.name);
      GoodList(k, 0, n, []);
      GoodCall(k, pre, "duckdb_concat_ws", ListOf(0, n));
    }
  }

  lemma GoodEpoch(pre: string)
    requires Bound(pre)
    ensures Good(TargetOf(UnixTimestamp), TCall("epoch", TCall("strptime", DateArg())), pre)
    ensures Closed(TargetOf(UnixTimestamp), TCall("epoch", TCall("strptime", DateArg())))
  {
    var k := TargetOf(UnixTimestamp);
    GoodDateArg(k);
    GoodCall(k, [], "strptime", DateArg());
    GoodCall(k, pre, "epoch", TCall("strptime", DateArg()));
  }

  lemma GoodUnixTimestamp(n: nat, pre: string)
    requires n >= 1 && Bound(pre)
    ensures Good(TargetOf(UnixTimestamp), TemplateOf(UnixTimestamp, n).value, pre)
    ensures Closed(TargetOf(UnixTimestamp), TemplateOf(UnixTimestamp, n).value)
  {
    var k := TargetOf(UnixTimestamp);
    if n == 2 {
      GoodEpoch(pre);
    } else {
      EmptyNeutral(k.name);
      GoodCall(k, pre, "duckdb_unix_timestamp", TArg(0, TEnd));
    }
  }

  lemma GoodSlice(pre: string)
    requires Bound(pre)
    ensures Good(TargetOf(Slice), TCall("list_slice", SliceBounds()), pre)
    ensures Closed(TargetOf(Slice), TCall("list_slice", SliceBounds()))
  {
    GoodSliceBounds(TargetOf(Slice));
    GoodCall(TargetOf(Slice), pre, "list_slice", SliceBounds());
  }

  lemma GoodPercentile(pre: string)
    requires Bound(pre)
    ensures Good(TargetOf(PercentileApprox), TCall("quantile_cont", Pair(0, 1)), pre)
    ensures Closed(TargetOf(PercentileApprox), TCall("quantile_cont", Pair(0, 1)))
  {
    GoodPair(TargetOf(PercentileApprox), 0, 1);
    GoodCall(TargetOf(PercentileApprox), pre, "quantile_cont", Pair(0, 1));
  }

  lemma GoodMakeArray(n: nat, pre: string)
    requires n >= 1 && Bound(pre)
    ensures Good(TargetOf(MakeArray), TCall("list_value", ListOf(0, n)), pre)
    ensures Closed(TargetOf(MakeArray), TCall("list_value", ListOf(0, n)))
  {
    EmptyNeutral("array");
    GoodList(TargetOf(MakeArray), 0, n, []);
    GoodCall(TargetOf(MakeArray), pre, "list_value", ListOf(0, n));
  }

  lemma TemplatesAreGood(rule: Rule, n: nat, pre: string)
    requires n >= 1 && TemplateOf(rule, n).Some?
    requires Bound(pre) && (TargetOf(rule).open ==> !Ready(Name(rule), pre))
    ensures Good(TargetOf(rule), TemplateOf(rule, n).value, pre)
    ensures Closed(TargetOf(rule), TemplateOf(rule, n).value)
  {
    match rule
    case ConcatWs => GoodConcatWs(n, pre);
    case Slice => GoodSlice(pre);
    case PercentileApprox => GoodPercentile(pre);
    case StrToMap =>
    case MakeArray => GoodMakeArray(n, pre);
    case UnixTimestamp => GoodUnixTimestamp(n, pre);
  }

  lemma GoodSliceBounds(k: Target)
    requires IsName(k.name)
    ensures Good(k, SliceBounds(), [])
  {
    EmptyNeutral(k.name);
    BlanksNeutral(k.name, " ");
    assert ", "[1..] == " ";
    ResetNeutral(k.name, " ", '+');
    WfPlus(k);
  }

  /** After `+` and a blank a parenthesis matches nothing. */
  lemma WfPlus(k: Target)
    requires IsName(k.name)
    ensures !Ready(k.name, [] + " + ")
  {
    ResetNeutral(k.name, " ", '+');
    assert [] + " + " == (" " + ['+']) + " ";
    RStripDrops(" " + ['+'], " ");
  }

  lemma GoodDateArg(k: Target)
    requires IsName(k.name)
    ensures Good(k, DateArg(), [])
  {
    EmptyNeutral(k.name);
    DateEscaped();
  }

  lemma DateEscaped()
    ensures Escaped('\'', '\'', DATE_FORMAT)
  {
    var s := DATE_FORMAT;
    assert s[1..] == "Y-%m-%d" && s[1..][1..] == "-%m-%d";
    assert "-%m-%d"[1..] == "%m-%d" && "%m-%d"[1..] == "m-%d" && "m-%d"[1..] == "-%d" && "-%d"[1..] == "%d";
    assert "%d"[1..] == "d" && "d"[1..] == [];
    assert Escaped('\'', '-', "%d");
    assert Escaped('\'', '%', "m-%d");
    assert Escaped('\'', 'Y', "-%m-%d");
  }
}

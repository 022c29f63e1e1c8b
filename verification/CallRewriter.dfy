/**
 `_rewrite_calls`: the loop that finds the leftmost call of a name, cuts it out and splices in its
 replacement, until no call is left. On the text of a well-formed tree it computes the structural
 rewriting of the tree, in exactly as many rounds as the tree's weight.
 */
module CallRewriter {
  import opened Text
  import opened ArgScanner
  import opened CallSearch
  import opened SqlTree
  import opened CallTemplates

  // ----- trimming on trees -----

  function Size(t: Sql): nat {
    match t
    case End => 0
    case Ch(_, r) => 1 + Size(r)
    case Lit(_, _, r) => 1 + Size(r)
    case Paren(inner, r) => 1 + Size(inner) + Size(r)
    case Call(_, args, r) => 1 + SizeArgs(args) + Size(r)
  }

  function SizeArgs(args: Args): nat {
    match args
    case Last(a) => 1 + Size(a)
    case More(a, others) => 1 + Size(a) + SizeArgs(others)
  }

  function TrimLeft(t: Sql): (r: Sql)
    ensures Size(r) <= Size(t)
  {
    if t.Ch? && IsSpace(t.c) then TrimLeft(t.rest) else t
  }

  function TrimRight(t: Sql): (u: Sql)
    ensures Size(u) <= Size(t)
  {
    match t
    case End => End
    case Ch(c, r) => var r' := TrimRight(r); if r'.End? && IsSpace(c) then End else Ch(c, r')
    case Lit(q, body, r) => Lit(q, body, TrimRight(r))
    case Paren(inner, r) => Paren(inner, TrimRight(r))
    case Call(h, args, r) => Call(h, args, TrimRight(r))
  }

  function Trim(t: Sql): (r: Sql)
    ensures Size(r) <= Size(t)
  {
    TrimRight(TrimLeft(t))
  }

  function TrimmedArgs(args: Args): (ts: seq<Sql>)
    ensures |ts| == |ArgList(args)|
  {
    match args
    case Last(a) => [Trim(a)]
    case More(a, others) => [Trim(a)] + TrimmedArgs(others)
  }

  lemma HeadVisible(name: string, h: string)
    requires IsName(name) && IsHead(name, h)
    ensures h != [] && !IsSpace(h[0])
  {
    NameChars(h[..|name|], name);
    assert h[0] == h[..|name|][0];
  }

  lemma {:induction false} PrintTrimLeft(k: Target, t: Sql, pre: string)
    requires IsName(k.name) && Wf(k, t, pre)
    ensures Print(TrimLeft(t)) == LStrip(Print(t))
    ensures exists pre' :: Wf(k, TrimLeft(t), pre')
    decreases t
  {
    if t.Ch? && IsSpace(t.c) {
      PrintTrimLeft(k, t.rest, pre + [t.c]);
      assert Print(t)[1..] == Print(t.rest);
    } else {
      if t.Call? { HeadVisible(k.name, t.head); }
      assert Print(t) != [] ==> !IsSpace(Print(t)[0]);
    }
  }

  /** Trailing blanks behind visible text are dropped from what follows it. */
  lemma RStripAfter(a: string, b: string)
    requires a != [] && !IsSpace(a[|a| - 1])
    ensures RStrip(a + b) == a + RStrip(b)
  {
    var tail := RStripParts(b);
    assert a + b == (a + RStrip(b)) + tail;
    RStripUnique(a + RStrip(b), tail);
  }

  lemma RStripBlank(c: char, b: string)
    requires IsSpace(c)
    ensures RStrip([c] + b) == if RStrip(b) == [] then [] else [c] + RStrip(b)
  {
    var tail := RStripParts(b);
    hide RStrip, IsSpace;
    var core := RStrip(b);
    if core == [] {
      assert [c] + b == [] + ([c] + tail);
      RStripUnique([], [c] + tail);
    } else {
      assert [c] + b == ([c] + core) + tail;
      assert ([c] + core)[|core|] == core[|core| - 1];
      RStripUnique([c] + core, tail);
    }
  }

  lemma {:induction false} PrintTrimRight(k: Target, t: Sql, pre: string)
    requires IsName(k.name) && Wf(k, t, pre)
    ensures Print(TrimRight(t)) == RStrip(Print(t))
    ensures TrimRight(t).End? <==> Print(TrimRight(t)) == []
    decreases t
  {
    hide RStrip;
    match t
    case End =>
      RStripUnique([], []);
      assert [] + [] == Print(End);
    case Ch(c, r) =>
      PrintTrimRight(k, r, pre + [c]);
      if IsSpace(c) { RStripBlank(c, Print(r)); } else { RStripAfter([c], Print(r)); }
    case Lit(q, body, r) =>
      PrintTrimRight(k, r, []);
      RStripAfter([q] + body + [q], Print(r));
    case Paren(inner, r) =>
      PrintTrimRight(k, r, []);
      RStripAfter("(" + Print(inner) + ")", Print(r));
    case Call(h, args, r) =>
      PrintTrimRight(k, r, []);
      RStripAfter(h + "(" + PrintArgs(args) + ")", Print(r));
  }

  lemma PrintTrim(k: Target, t: Sql)
    requires IsName(k.name) && Wf(k, t, [])
    ensures Print(Trim(t)) == Strip(Print(t))
  {
    PrintTrimLeft(k, t, []);
    var pre :| Wf(k, TrimLeft(t), pre);
    PrintTrimRight(k, TrimLeft(t), pre);
  }

  lemma {:induction false} WfTrimLeft(k: Target, t: Sql, b: string)
    requires IsName(k.name) && AllSpace(b) && Wf(k, t, b)
    ensures Wf(k, TrimLeft(t), [])
    decreases t
  {
    if t.Ch? && IsSpace(t.c) {
      WfTrimLeft(k, t.rest, b + [t.c]);
    } else {
      BlanksNeutral(k.name, b);
      WfNeutral(k, t, b);
    }
  }

  lemma {:induction false} WfTrimRight(k: Target, t: Sql, pre: string)
    requires Wf(k, t, pre)
    ensures Wf(k, TrimRight(t), pre)
    ensures Follows(t) ==> Follows(TrimRight(t))
    ensures FollowsBlank(t) ==> FollowsBlank(TrimRight(t))
    decreases t
  {
    match t
    case End =>
    case Ch(c, r) => WfTrimRight(k, r, pre + [c]);
    case Lit(q, body, r) => WfTrimRight(k, r, []);
    case Paren(inner, r) => WfTrimRight(k, r, []);
    case Call(h, args, r) => WfTrimRight(k, r, []);
  }

  lemma WfLeadBlank(k: Target, t: Sql)
    requires IsName(k.name) && Wf(k, t, [])
    ensures Wf(k, Ch(' ', t), [])
  {
    BlanksNeutral(k.name, " ");
    WfNeutral(k, t, " ");
    hide Neutral, Ready;
    assert [] + [' '] == " ";
  }

  lemma {:induction false} TrimmedArgsOk(k: Target, args: Args)
    requires IsName(k.name) && WfArgs(k, args)
    ensures
      var ts := TrimmedArgs(args);
      && |ts| == |ArgTexts(args)|
      && forall i :: 0 <= i < |ts| ==> Wf(k, ts[i], []) && Print(ts[i]) == ArgTexts(args)[i]
    decreases args
  {
    PrintTrim(k, args.arg);
    WfTrimLeft(k, args.arg, []);
    WfTrimRight(k, TrimLeft(args.arg), []);
    if args.More? { TrimmedArgsOk(k, args.others); }
  }

  // ----- the structural rewriting -----

  /** The template of a call, `TEnd` standing in where there is none. */
  function TemplateFor(rule: Rule, args: Args): (t: Template)
    ensures Fits(t, |ArgList(args)|)
  {
    var n := |ArgList(args)|;
    match TemplateOf(rule, n)
    case Some(t) =>
      RenderIsReplacement(rule, seq(n, _ => []));
      t
    case None => TEnd
  }

  /** Each call becomes its template applied to its trimmed, recursively rewritten arguments. */
  function Full(rule: Rule, t: Sql): Sql
    decreases Size(t)
  {
    match t
    case End => End
    case Ch(c, r) => Ch(c, Full(rule, r))
    case Lit(q, body, r) => Lit(q, body, Full(rule, r))
    case Paren(inner, r) => Paren(Full(rule, inner), Full(rule, r))
    case Call(h, args, r) => Inst(TemplateFor(rule, args), FullArgs(rule, args), Full(rule, r))
  }

  function FullArgs(rule: Rule, args: Args): (ts: seq<Sql>)
    ensures |ts| == |ArgList(args)|
    decreases SizeArgs(args)
  {
    match args
    case Last(a) => [Full(rule, Trim(a))]
    case More(a, others) => [Full(rule, Trim(a))] + FullArgs(rule, others)
  }

  /** The sum of `ws[i]` over the occurrences of argument `i` in the template. */
  function Copies(t: Template, ws: seq<nat>): nat
    requires Fits(t, |ws|)
  {
    match t
    case TEnd => 0
    case TText(_, r) => Copies(r, ws)
    case TGroup(inner, r) => Copies(inner, ws) + Copies(r, ws)
    case TLit(_, _, r) => Copies(r, ws)
    case TArg(i, r) => ws[i] + Copies(r, ws)
  }

  /** One for each call plus, for each copy its template makes of an argument, the argument's weight. */
  function Weight(rule: Rule, t: Sql): nat {
    match t
    case End => 0
    case Ch(_, r) => Weight(rule, r)
    case Lit(_, _, r) => Weight(rule, r)
    case Paren(inner, r) => Weight(rule, inner) + Weight(rule, r)
    case Call(_, args, r) => 1 + Copies(TemplateFor(rule, args), Weights(rule, args)) + Weight(rule, r)
  }

  function Weights(rule: Rule, args: Args): (ws: seq<nat>)
    ensures |ws| == |ArgList(args)|
  {
    match args
    case Last(a) => [Weight(rule, a)]
    case More(a, others) => [Weight(rule, a)] + Weights(rule, others)
  }

  /** The `slice` template copies its second argument. */
  lemma SliceWeight(a: Sql, b: Sql, c: Sql, h: string)
    ensures Weight(Slice, Call(h, More(a, More(b, Last(c))), End))
         == 1 + Weight(Slice, a) + 2 * Weight(Slice, b) + Weight(Slice, c)
  {
    var args := More(a, More(b, Last(c)));
    var ws := Weights(Slice, args);
    assert Weights(Slice, Last(c)) == [Weight(Slice, c)];
    assert Weights(Slice, More(b, Last(c))) == [Weight(Slice, b), Weight(Slice, c)];
    assert ws == [Weight(Slice, a), Weight(Slice, b), Weight(Slice, c)];
    assert ArgList(Last(c)) == [c] && ArgList(More(b, Last(c))) == [b, c] && |ArgList(args)| == 3;
    assert TemplateFor(Slice, args) == TCall("list_slice", SliceBounds());
    var t4 := TText(" - 1", TEnd);
    var t3 := TText(" + ", TGroup(TArg(2, TEnd), t4));
    var t2 := TText(", ", TGroup(TArg(1, TEnd), t3));
    var t1 := TText(", ", TArg(1, t2));
    assert Fits(t4, 3) && Copies(t4, ws) == 0;
    assert Fits(TGroup(TArg(2, TEnd), t4), 3) && Copies(TArg(2, TEnd), ws) == ws[2];
    assert Fits(t3, 3) && Copies(t3, ws) == ws[2];
    assert Fits(TGroup(TArg(1, TEnd), t3), 3) && Copies(TArg(1, TEnd), ws) == ws[1];
    assert Fits(t2, 3) && Copies(t2, ws) == ws[1] + ws[2];
    assert Fits(TArg(1, t2), 3) && Fits(t1, 3) && Copies(t1, ws) == ws[1] + ws[1] + ws[2];
    assert Fits(SliceBounds(), 3) && Copies(SliceBounds(), ws) == ws[0] + Copies(t1, ws);
    assert Fits(TGroup(SliceBounds(), TEnd), 3);
    assert Copies(TCall("list_slice", SliceBounds()), ws) == Copies(SliceBounds(), ws);
    assert Weight(Slice, End) == 0;
  }

  /** Some call that the loop reaches lacks an argument its replacement indexes. */
  predicate Fails(rule: Rule, t: Sql) {
    match t
    case End => false
    case Ch(_, r) => Fails(rule, r)
    case Lit(_, _, r) => Fails(rule, r)
    case Paren(inner, r) => Fails(rule, inner) || Fails(rule, r)
    case Call(_, args, r) =>
      || TemplateOf(rule, |ArgList(args)|).None?
      || Uses(TemplateFor(rule, args), FailingArgs(rule, args))
      || Fails(rule, r)
  }

  function FailingArgs(rule: Rule, args: Args): (bs: seq<bool>)
    ensures |bs| == |ArgList(args)|
  {
    match args
    case Last(a) => [Fails(rule, a)]
    case More(a, others) => [Fails(rule, a)] + FailingArgs(rule, others)
  }

  predicate Uses(t: Template, bs: seq<bool>)
    requires Fits(t, |bs|)
  {
    match t
    case TEnd => false
    case TText(_, r) => Uses(r, bs)
    case TGroup(inner, r) => Uses(inner, bs) || Uses(r, bs)
    case TLit(_, _, r) => Uses(r, bs)
    case TArg(i, r) => bs[i] || Uses(r, bs)
  }

  // ----- how the three measures distribute -----

  lemma {:induction false} FullAppend(rule: Rule, t: Sql, u: Sql)
    ensures Full(rule, Append(t, u)) == Append(Full(rule, t), Full(rule, u))
    decreases t
  {
    match t
    case End =>
    case Ch(c, r) => FullAppend(rule, r, u);
    case Lit(q, body, r) => FullAppend(rule, r, u);
    case Paren(inner, r) => FullAppend(rule, r, u);
    case Call(h, args, r) =>
      FullAppend(rule, r, u);
      InstAppend(TemplateFor(rule, args), FullArgs(rule, args), Full(rule, r), Full(rule, u));
  }

  lemma {:induction false} OverAppend(rule: Rule, t: Sql, u: Sql)
    ensures Weight(rule, Append(t, u)) == Weight(rule, t) + Weight(rule, u)
    ensures Fails(rule, Append(t, u)) <==> Fails(rule, t) || Fails(rule, u)
    decreases t
  {
    hide TemplateFor, Copies, Uses;
    match t
    case End =>
    case Ch(c, r) => OverAppend(rule, r, u);
    case Lit(q, body, r) => OverAppend(rule, r, u);
    case Paren(inner, r) => OverAppend(rule, r, u);
    case Call(h, args, r) => OverAppend(rule, r, u);
  }

  lemma AppendAssoc(a: Sql, b: Sql, c: Sql)
    ensures Append(Append(a, b), c) == Append(a, Append(b, c))
  {
  }

  lemma AppendChars(s: string, t: Sql, u: Sql)
    ensures Append(Chars(s, t), u) == Chars(s, Append(t, u))
  {
  }

  lemma {:induction false} InstAppend(t: Template, ts: seq<Sql>, rest: Sql, u: Sql)
    requires Fits(t, |ts|)
    ensures Append(Inst(t, ts, rest), u) == Inst(t, ts, Append(rest, u))
    decreases t
  {
    match t
    case TEnd =>
    case TText(s, r) =>
      InstAppend(r, ts, rest, u);
      AppendChars(s, Inst(r, ts, rest), u);
    case TGroup(inner, r) => InstAppend(r, ts, rest, u);
    case TLit(q, body, r) => InstAppend(r, ts, rest, u);
    case TArg(i, r) =>
      InstAppend(r, ts, rest, u);
      AppendAssoc(ts[i], Inst(r, ts, rest), u);
  }

  lemma {:induction false} OverChars(rule: Rule, s: string, t: Sql)
    ensures Full(rule, Chars(s, t)) == Chars(s, Full(rule, t))
    ensures Weight(rule, Chars(s, t)) == Weight(rule, t)
    ensures Fails(rule, Chars(s, t)) == Fails(rule, t)
    decreases s
  {
    if s != [] { OverChars(rule, s[1..], t); }
  }

  lemma OverTrim(rule: Rule, t: Sql)
    ensures Weight(rule, Trim(t)) == Weight(rule, t)
    ensures Fails(rule, Trim(t)) == Fails(rule, t)
  {
    OverTrimLeft(rule, t);
    OverTrimRight(rule, TrimLeft(t));
  }

  lemma {:induction false} OverTrimLeft(rule: Rule, t: Sql)
    ensures Weight(rule, TrimLeft(t)) == Weight(rule, t)
    ensures Fails(rule, TrimLeft(t)) == Fails(rule, t)
    decreases t
  {
    if t.Ch? && IsSpace(t.c) { OverTrimLeft(rule, t.rest); }
  }

  lemma {:induction false} OverTrimRight(rule: Rule, t: Sql)
    ensures Weight(rule, TrimRight(t)) == Weight(rule, t)
    ensures Fails(rule, TrimRight(t)) == Fails(rule, t)
    decreases t
  {
    hide TemplateFor, Copies, Uses;
    match t
    case End =>
    case Ch(c, r) => OverTrimRight(rule, r);
    case Lit(q, body, r) => OverTrimRight(rule, r);
    case Paren(inner, r) => OverTrimRight(rule, r);
    case Call(h, args, r) => OverTrimRight(rule, r);
  }

  lemma {:induction false} FullInst(rule: Rule, t: Template, ts: seq<Sql>, rest: Sql, fs: seq<Sql>)
    requires Fits(t, |ts|) && |fs| == |ts|
    requires forall i :: 0 <= i < |ts| ==> fs[i] == Full(rule, ts[i])
    ensures Full(rule, Inst(t, ts, rest)) == Inst(t, fs, Full(rule, rest))
    decreases t
  {
    match t
    case TEnd =>
    case TText(s, r) =>
      FullInst(rule, r, ts, rest, fs);
      OverChars(rule, s, Inst(r, ts, rest));
    case TGroup(inner, r) =>
      FullInst(rule, inner, ts, End, fs);
      FullInst(rule, r, ts, rest, fs);
    case TLit(q, body, r) => FullInst(rule, r, ts, rest, fs);
    case TArg(i, r) =>
      FullInst(rule, r, ts, rest, fs);
      FullAppend(rule, ts[i], Inst(r, ts, rest));
  }

  lemma {:induction false} WeightInst(rule: Rule, t: Template, ts: seq<Sql>, rest: Sql, ws: seq<nat>)
    requires Fits(t, |ts|) && |ws| == |ts|
    requires forall i :: 0 <= i < |ts| ==> ws[i] == Weight(rule, ts[i])
    ensures Weight(rule, Inst(t, ts, rest)) == Copies(t, ws) + Weight(rule, rest)
    decreases t
  {
    hide TemplateFor, Weights, Append, Chars;
    match t
    case TEnd =>
    case TText(s, r) =>
      WeightInst(rule, r, ts, rest, ws);
      OverChars(rule, s, Inst(r, ts, rest));
    case TGroup(inner, r) =>
      WeightInst(rule, inner, ts, End, ws);
      WeightInst(rule, r, ts, rest, ws);
    case TLit(q, body, r) => WeightInst(rule, r, ts, rest, ws);
    case TArg(i, r) =>
      WeightInst(rule, r, ts, rest, ws);
      OverAppend(rule, ts[i], Inst(r, ts, rest));
  }

  lemma {:induction false} FailsInst(rule: Rule, t: Template, ts: seq<Sql>, rest: Sql, bs: seq<bool>)
    requires Fits(t, |ts|) && |bs| == |ts|
    requires forall i :: 0 <= i < |ts| ==> bs[i] == Fails(rule, ts[i])
    ensures Fails(rule, Inst(t, ts, rest)) <==> Uses(t, bs) || Fails(rule, rest)
    decreases t
  {
    match t
    case TEnd =>
    case TText(s, r) =>
      FailsInst(rule, r, ts, rest, bs);
      OverChars(rule, s, Inst(r, ts, rest));
    case TGroup(inner, r) =>
      FailsInst(rule, inner, ts, End, bs);
      FailsInst(rule, r, ts, rest, bs);
    case TLit(q, body, r) => FailsInst(rule, r, ts, rest, bs);
    case TArg(i, r) =>
      FailsInst(rule, r, ts, rest, bs);
      OverAppend(rule, ts[i], Inst(r, ts, rest));
  }

  lemma ArgsTail(rule: Rule, args: Args, i: nat)
    requires args.More? && 1 <= i < |ArgList(args)|
    ensures FullArgs(rule, args)[i] == FullArgs(rule, args.others)[i - 1]
    ensures Weights(rule, args)[i] == Weights(rule, args.others)[i - 1]
    ensures FailingArgs(rule, args)[i] == FailingArgs(rule, args.others)[i - 1]
    ensures TrimmedArgs(args)[i] == TrimmedArgs(args.others)[i - 1]
  {
    hide Full, Weight, Fails, Trim;
  }

  lemma {:induction false} OverArgs(rule: Rule, args: Args, i: nat)
    requires i < |ArgList(args)|
    ensures FullArgs(rule, args)[i] == Full(rule, TrimmedArgs(args)[i])
    ensures Weights(rule, args)[i] == Weight(rule, TrimmedArgs(args)[i])
    ensures FailingArgs(rule, args)[i] == Fails(rule, TrimmedArgs(args)[i])
    decreases args
  {
    hide Full, Weight, Fails, Trim;
    if i == 0 {
      OverTrim(rule, args.arg);
    } else {
      OverArgs(rule, args.others, i - 1);
      ArgsTail(rule, args, i);
    }
  }

  // ----- one round on the tree -----

  predicate HasCall(t: Sql) {
    match t
    case End => false
    case Ch(_, r) => HasCall(r)
    case Lit(_, _, r) => HasCall(r)
    case Paren(inner, r) => HasCall(inner) || HasCall(r)
    case Call(_, _, _) => true
  }

  /** The leftmost outermost call with the text on both sides of it. */
  datatype Site = Site(before: string, head: string, args: Args, after: string)

  function FirstCall(t: Sql): Site
    requires HasCall(t)
  {
    match t
    case Ch(c, r) => var s := FirstCall(r); s.(before := [c] + s.before)
    case Lit(q, body, r) => var s := FirstCall(r); s.(before := [q] + body + [q] + s.before)
    case Paren(inner, r) =>
      if HasCall(inner) then
        var s := FirstCall(inner); s.(before := "(" + s.before, after := s.after + ")" + Print(r))
      else var s := FirstCall(r); s.(before := "(" + Print(inner) + ")" + s.before)
    case Call(h, args, r) => Site([], h, args, Print(r))
  }

  /** The leftmost outermost call replaced by its template. */
  function Replace(rule: Rule, t: Sql): Sql
    requires HasCall(t)
  {
    match t
    case Ch(c, r) => Ch(c, Replace(rule, r))
    case Lit(q, body, r) => Lit(q, body, Replace(rule, r))
    case Paren(inner, r) =>
      if HasCall(inner) then Paren(Replace(rule, inner), r) else Paren(inner, Replace(rule, r))
    case Call(h, args, r) => Inst(TemplateFor(rule, args), TrimmedArgs(args), r)
  }

  function SiteText(s: Site, call: string): string { s.before + call + s.after }

  function CallTextOf(s: Site): string { s.head + "(" + PrintArgs(s.args) + ")" }

  lemma GlueLeft(x: string, b: string, c: string, f: string)
    ensures x + (b + c + f) == (x + b) + c + f
  {
  }

  lemma GlueGroup(b: string, c: string, f: string, r: string)
    ensures "(" + (b + c + f) + ")" + r == ("(" + b) + c + (f + ")" + r)
  {
  }

  lemma {:induction false} SitePrint(t: Sql)
    requires HasCall(t)
    ensures Print(t) == SiteText(FirstCall(t), CallTextOf(FirstCall(t)))
  {
    var s := FirstCall(t);
    var c := CallTextOf(s);
    match t
    case Ch(ch, r) =>
      SitePrint(r);
      GlueLeft([ch], FirstCall(r).before, c, s.after);
    case Lit(q, body, r) =>
      SitePrint(r);
      GlueLeft([q] + body + [q], FirstCall(r).before, c, s.after);
    case Paren(inner, r) =>
      if HasCall(inner) {
        SitePrint(inner);
        GlueGroup(FirstCall(inner).before, c, FirstCall(inner).after, Print(r));
      } else {
        SitePrint(r);
        GlueLeft("(" + Print(inner) + ")", FirstCall(r).before, c, s.after);
      }
    case Call(h, args, r) =>
      assert SiteText(s, c) == [] + c + Print(r) == c + Print(r);
  }

  lemma {:induction false} ReplacePrint(rule: Rule, t: Sql)
    requires HasCall(t) && WfArgs(TargetOf(rule), FirstCall(t).args)
    ensures
      var s := FirstCall(t);
      && Fits(TemplateFor(rule, s.args), |ArgTexts(s.args)|)
      && Print(Replace(rule, t)) == SiteText(s, Render(TemplateFor(rule, s.args), ArgTexts(s.args)))
    decreases t
  {
    hide TemplateFor, Render, WfArgs, TargetOf, Inst, ArgTexts, PrintArgs, Fits, TrimmedArgs, ArgList;
    var s := FirstCall(t);
    var c := Render(TemplateFor(rule, s.args), ArgTexts(s.args));
    match t
    case Ch(ch, r) =>
      ReplacePrint(rule, r);
      GlueLeft([ch], FirstCall(r).before, c, s.after);
    case Lit(q, body, r) =>
      ReplacePrint(rule, r);
      GlueLeft([q] + body + [q], FirstCall(r).before, c, s.after);
    case Paren(inner, r) =>
      if HasCall(inner) {
        ReplacePrint(rule, inner);
        GlueGroup(FirstCall(inner).before, c, FirstCall(inner).after, Print(r));
      } else {
        ReplacePrint(rule, r);
        GlueLeft("(" + Print(inner) + ")", FirstCall(r).before, c, s.after);
      }
    case Call(h, args, r) =>
      PrintReplacedCall(rule, args, r);
      assert SiteText(s, c) == [] + c + Print(r) == c + Print(r);
  }

  lemma PrintReplacedCall(rule: Rule, args: Args, r: Sql)
    requires WfArgs(TargetOf(rule), args)
    ensures Fits(TemplateFor(rule, args), |ArgTexts(args)|)
    ensures Print(Inst(TemplateFor(rule, args), TrimmedArgs(args), r))
         == Render(TemplateFor(rule, args), ArgTexts(args)) + Print(r)
  {
    hide TemplateFor, Render, Print;
    TrimmedArgsOk(TargetOf(rule), args);
    PrintInst(TemplateFor(rule, args), TrimmedArgs(args), ArgTexts(args), r);
  }

  /** Where the search finds the first call, and that it finds nothing before it. */
  lemma {:induction false} SiteQuiet(k: Target, t: Sql, pre: string)
    requires IsName(k.name) && HasCall(t) && Wf(k, t, pre) && Quiet(k.name, pre, 0)
    ensures
      var s := FirstCall(t);
      && Quiet(k.name, pre + s.before, 0) && Bound(pre + s.before)
      && IsHead(k.name, s.head) && WfArgs(k, s.args)
    decreases t
  {
    hide Quiet, Bound, IsHead;
    var s := FirstCall(t);
    match t
    case Ch(c, r) =>
      AfterChar(k, pre, c, 0);
      SiteQuiet(k, r, pre + [c]);
      Assoc(pre, [c], FirstCall(r).before);
    case Lit(q, body, r) =>
      var lit := [q] + body + [q];
      AfterLiteral(k, r, pre, q, body, 0);
      SiteQuiet(k, r, pre + lit);
      Assoc(pre, lit, FirstCall(r).before);
    case Paren(inner, r) =>
      IntoGroup(k, inner, pre, 0);
      if HasCall(inner) {
        SiteQuiet(k, inner, pre + "(");
        Assoc(pre, "(", FirstCall(inner).before);
      } else {
        var group := "(" + Print(inner) + ")";
        QuietPrint(k, inner, pre + "(");
        AfterGroup(k, r, pre, Print(inner), 0);
        SiteQuiet(k, r, pre + group);
        Assoc(pre, group, FirstCall(r).before);
      }
    case Call(h, args, r) =>
      assert pre + [] == pre;
  }

  lemma AfterChar(k: Target, pre: string, c: char, from: nat)
    requires Quiet(k.name, pre, from) && IsPlain(c)
    ensures Quiet(k.name, pre + [c], from)
  {
    QuietExtend(k.name, pre, c, from);
  }

  lemma AfterLiteral(k: Target, r: Sql, pre: string, q: char, body: string, from: nat)
    requires IsName(k.name) && Quiet(k.name, pre, from) && IsLiteral(q, body) && Quiet(k.name, body, 0)
    requires Wf(k, r, [])
    ensures Quiet(k.name, pre + ([q] + body + [q]), from) && Wf(k, r, pre + ([q] + body + [q]))
  {
    QuietLiteral(k.name, pre, q, body, from);
    WfReset(k, r, pre + ([q] + body), q);
    assert pre + ([q] + body) + [q] == pre + ([q] + body + [q]);
  }

  lemma IntoGroup(k: Target, inner: Sql, pre: string, from: nat)
    requires IsName(k.name) && Quiet(k.name, pre, from) && !Ready(k.name, pre) && Wf(k, inner, [])
    ensures Quiet(k.name, pre + "(", from) && Wf(k, inner, pre + "(")
  {
    QuietExtend(k.name, pre, '(', from);
    WfReset(k, inner, pre, '(');
  }

  lemma AfterGroup(k: Target, r: Sql, pre: string, inner: string, from: nat)
    requires IsName(k.name) && Quiet(k.name, pre + "(" + inner, from) && Wf(k, r, [])
    ensures Quiet(k.name, pre + ("(" + inner + ")"), from) && Wf(k, r, pre + ("(" + inner + ")"))
  {
    var left := pre + "(" + inner;
    QuietExtend(k.name, left, ')', from);
    WfReset(k, r, left, ')');
    assert left + [')'] == pre + ("(" + inner + ")");
  }

  lemma QuietLiteral(name: string, pre: string, q: char, body: string, from: nat)
    requires IsName(name) && Quiet(name, pre, from) && IsQuote(q) && Quiet(name, body, 0)
    ensures Quiet(name, pre + ([q] + body + [q]), from)
  {
    var left := pre + [q];
    QuietExtend(name, pre, q, from);
    ResetNeutral(name, pre, q);
    forall p | from <= p < |left + body| && (left + body)[p] == '('
      ensures !Ready(name, (left + body)[..p])
    {
      if p < |left| {
        assert (left + body)[..p] == left[..p];
      } else {
        var j := p - |left|;
        assert body[j] == '(' && (left + body)[..p] == left + body[..j];
        ReadyShift(name, left, body[..j]);
      }
    }
    QuietExtend(name, left + body, q, from);
    assert left + body + [q] == pre + ([q] + body + [q]);
  }

  lemma {:induction false} QuietPrint(k: Target, t: Sql, pre: string)
    requires IsName(k.name) && !HasCall(t) && Wf(k, t, pre) && Quiet(k.name, pre, 0)
    ensures Quiet(k.name, pre + Print(t), 0)
    decreases t
  {
    hide Quiet, Ready, IsLiteral, Escaped;
    match t
    case End => assert pre + [] == pre;
    case Ch(c, r) =>
      AfterChar(k, pre, c, 0);
      QuietPrint(k, r, pre + [c]);
      Assoc(pre, [c], Print(r));
    case Lit(q, body, r) =>
      AfterLiteral(k, r, pre, q, body, 0);
      QuietPrint(k, r, pre + ([q] + body + [q]));
      Assoc(pre, [q] + body + [q], Print(r));
    case Paren(inner, r) =>
      IntoGroup(k, inner, pre, 0);
      QuietPrint(k, inner, pre + "(");
      AfterGroup(k, r, pre, Print(inner), 0);
      QuietPrint(k, r, pre + ("(" + Print(inner) + ")"));
      Assoc(pre, "(" + Print(inner) + ")", Print(r));
  }

  lemma Assoc(a: string, b: string, c: string)
    ensures a + b + c == a + (b + c)
  {
  }

  lemma ReplaceCallKeeps(rule: Rule, h: string, args: Args, r: Sql, pre: string)
    requires Wf(TargetOf(rule), Call(h, args, r), pre)
    requires TemplateOf(rule, |ArgList(args)|).Some?
    ensures
      var t, u := Call(h, args, r), Inst(TemplateFor(rule, args), TrimmedArgs(args), r);
      && Wf(TargetOf(rule), u, pre)
      && Full(rule, u) == Full(rule, t)
      && Weight(rule, u) == Weight(rule, t) - 1
      && Fails(rule, u) == Fails(rule, t)
  {
    hide Good, Closed, Follows, TemplateOf, Name;
    var k, ts, tp := TargetOf(rule), TrimmedArgs(args), TemplateFor(rule, args);
    TrimmedArgsOk(k, args);
    TemplatesAreGood(rule, |ArgList(args)|, pre);
    WfInst(k, tp, ts, r, pre);
    forall i | 0 <= i < |ts|
      ensures FullArgs(rule, args)[i] == Full(rule, ts[i])
      ensures Weights(rule, args)[i] == Weight(rule, ts[i])
      ensures FailingArgs(rule, args)[i] == Fails(rule, ts[i])
    {
      OverArgs(rule, args, i);
    }
    FullInst(rule, tp, ts, r, FullArgs(rule, args));
    WeightInst(rule, tp, ts, r, Weights(rule, args));
    FailsInst(rule, tp, ts, r, FailingArgs(rule, args));
  }

  /** A round keeps the tree well-formed and the result in sight, and costs exactly one. */
  lemma {:induction false} ReplaceKeeps(rule: Rule, t: Sql, pre: string)
    requires HasCall(t) && Wf(TargetOf(rule), t, pre)
    requires TemplateOf(rule, |ArgList(FirstCall(t).args)|).Some?
    ensures Wf(TargetOf(rule), Replace(rule, t), pre)
    ensures Full(rule, Replace(rule, t)) == Full(rule, t)
    ensures Weight(rule, Replace(rule, t)) == Weight(rule, t) - 1
    ensures Fails(rule, Replace(rule, t)) == Fails(rule, t)
    decreases t
  {
    hide TemplateOf, TargetOf;
    match t
    case Ch(c, r) => ReplaceKeeps(rule, r, pre + [c]);
    case Lit(q, body, r) => ReplaceKeeps(rule, r, []);
    case Paren(inner, r) =>
      if HasCall(inner) { ReplaceKeeps(rule, inner, []); } else { ReplaceKeeps(rule, r, []); }
    case Call(h, args, r) => ReplaceCallKeeps(rule, h, args, r, pre);
  }

  lemma {:induction false} NoCallNoChange(rule: Rule, t: Sql)
    requires !HasCall(t)
    ensures Full(rule, t) == t && Weight(rule, t) == 0 && !Fails(rule, t)
  {
    match t
    case End =>
    case Ch(c, r) => NoCallNoChange(rule, r);
    case Lit(q, body, r) => NoCallNoChange(rule, r);
    case Paren(inner, r) =>
      NoCallNoChange(rule, inner);
      NoCallNoChange(rule, r);
  }

  lemma {:induction false} FirstCallFails(rule: Rule, t: Sql)
    requires HasCall(t) && TemplateOf(rule, |ArgList(FirstCall(t).args)|).None?
    ensures Fails(rule, t)
  {
    match t
    case Ch(c, r) => FirstCallFails(rule, r);
    case Lit(q, body, r) => FirstCallFails(rule, r);
    case Paren(inner, r) => if HasCall(inner) { FirstCallFails(rule, inner); } else { FirstCallFails(rule, r); }
    case Call(h, args, r) =>
  }

  // ----- one round on the text -----

  datatype Round = Done | Raised | Next(sql: string)

  /** The body of the `while` loop, for any text. */
  function RoundOf(rule: Rule, sql: string): Round {
    match Search(sql, Name(rule), 0)
    case None => Done
    case Some(m) =>
      var end := Close(sql, m.end, Mode(1, None));
      match Replacement(rule, Pieces(Inside(sql, m.end, end)))
      case IndexError => Raised
      case Ok(text) => Round.Next(sql[..m.start] + text + sql[end..])
  }

  /** The text-level round is the tree-level round. */
  lemma RoundSimulates(rule: Rule, t: Sql)
    requires Wf(TargetOf(rule), t, [])
    ensures RoundOf(rule, Print(t))
         == if !HasCall(t) then Done
            else if TemplateOf(rule, |ArgList(FirstCall(t).args)|).None? then Raised
            else Round.Next(Print(Replace(rule, t)))
  {
    var k, sql := TargetOf(rule), Print(t);
    assert [] + sql == sql;
    if !HasCall(t) {
      QuietPrint(k, t, []);
      SearchFails(sql, k.name, 0);
    } else {
      var s := FirstCall(t);
      SiteQuiet(k, t, []);
      assert [] + s.before == s.before;
      SitePrint(t);
      ReplacePrint(rule, t);
      RoundAtSite(rule, sql, s);
    }
  }

  /** What the search and the closing scan find at the first call. */
  lemma SearchAtSite(k: Target, sql: string, s: Site, cursor: nat)
    requires IsName(k.name) && sql == SiteText(s, CallTextOf(s)) && cursor <= |s.before|
    requires Quiet(k.name, s.before, cursor) && Bound(s.before) && IsHead(k.name, s.head) && WfArgs(k, s.args)
    ensures
      var from := |s.before| + |s.head| + 1;
      var end := from + |PrintArgs(s.args)| + 1;
      && cursor <= |sql|
      && Search(sql, k.name, cursor) == Some(Match(|s.before|, from))
      && Close(sql, from, Mode(1, None)) == end <= |sql|
      && Inside(sql, from, end) == PrintArgs(s.args)
      && sql[..|s.before|] == s.before && sql[end..] == s.after
  {
    hide Ready, Quiet, Close, Search, WfArgs, PrintArgs;
    var left, inner := s.before + s.head, PrintArgs(s.args);
    SiteSlices(s.before, s.head, inner, s.after);
    HeadReady(k.name, s.before, s.head);
    HeadFlat(k.name, s.head);
    QuietAppend(k.name, s.before, s.head, cursor);
    SearchFinds(sql, k.name, cursor, |left|);
    CloseOfArgs(k, s.args, sql, |left| + 1);
  }

  lemma SiteSlices(b: string, h: string, inner: string, f: string)
    ensures
      var sql, p := b + (h + "(" + inner + ")") + f, |b + h|;
      var end := p + 1 + |inner| + 1;
      && sql[..p] == b + h && sql[p] == '('
      && sql[p + 1..p + 1 + |inner|] == inner && sql[p + 1 + |inner|] == ')'
      && end <= |sql| && sql[..|b|] == b && sql[end..] == f
  {
    var sql := b + (h + "(" + inner + ")") + f;
    assert sql == (b + h) + ("(" + inner + ")" + f);
  }

  lemma RoundAtSite(rule: Rule, sql: string, s: Site)
    requires sql == SiteText(s, CallTextOf(s))
    requires Quiet(Name(rule), s.before, 0) && Bound(s.before) && IsHead(Name(rule), s.head)
    requires WfArgs(TargetOf(rule), s.args)
    ensures TemplateOf(rule, |ArgList(s.args)|).None? ==> RoundOf(rule, sql) == Raised
    ensures TemplateOf(rule, |ArgList(s.args)|).Some? ==>
      RoundOf(rule, sql) == Round.Next(SiteText(s, Render(TemplateFor(rule, s.args), ArgTexts(s.args))))
  {
    hide Replacement, Pieces, Close, Search, WfArgs, PrintArgs, Quiet, Name, TemplateOf, Render;
    SearchAtSite(TargetOf(rule), sql, s, 0);
    PiecesAreArgTexts(TargetOf(rule), s.args);
    RenderIsReplacement(rule, ArgTexts(s.args));
  }

  lemma PiecesAreArgTexts(k: Target, args: Args)
    requires IsName(k.name) && WfArgs(k, args)
    ensures Pieces(PrintArgs(args)) == ArgTexts(args)
  {
    PiecesOfArgs(k, args, ' ');
  }

  // ----- the loop -----

  method RewriteCalls(sql: string, rule: Rule, ghost tree: Sql) returns (r: Result<string>, ghost rounds: nat)
    requires sql == Print(tree) && Wf(TargetOf(rule), tree, [])
    ensures r == if Fails(rule, tree) then IndexError else Ok(Print(Full(rule, tree)))
    ensures r.Ok? ==> rounds == Weight(rule, tree)
  {
    hide RoundOf, Full, Weight, Fails, Print, Wf;
    var text := sql;
    ghost var cur := tree;
    rounds := 0;
    while true
      invariant text == Print(cur) && Wf(TargetOf(rule), cur, [])
      invariant Full(rule, cur) == Full(rule, tree) && Fails(rule, cur) == Fails(rule, tree)
      invariant rounds + Weight(rule, cur) == Weight(rule, tree)
      decreases Weight(rule, cur)
    {
      RoundSimulates(rule, cur);
      RoundUnfolds(rule, text);
      var found := Search(text, Name(rule), 0);
      if found.None? {
        NoCallNoChange(rule, cur);
        return Ok(text), rounds;
      }
      var m := found.value;
      var end := FindClose(text, m.end);
      var args := SplitArgs(Inside(text, m.end, end));
      var replacement := Replacement(rule, args);
      if replacement.IndexError? {
        FirstCallFails(rule, cur);
        return IndexError, rounds;
      }
      ReplaceKeeps(rule, cur, []);
      text := text[..m.start] + replacement.value + text[end..];
      cur := Replace(rule, cur);
      rounds := rounds + 1;
    }
  }

  lemma RoundUnfolds(rule: Rule, sql: string)
    ensures RoundOf(rule, sql)
         == match Search(sql, Name(rule), 0)
            case None => Done
            case Some(m) =>
              var end := Close(sql, m.end, Mode(1, None));
              match Replacement(rule, Pieces(Inside(sql, m.end, end)))
              case IndexError => Raised
              case Ok(text) => Round.Next(sql[..m.start] + text + sql[end..])
  {
  }
}

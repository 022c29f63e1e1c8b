/**
 Why `concat_ws` and `unix_timestamp` are rewritten to placeholder names first. Without them the
 lambdas would build the searched name again wherever a call does not have exactly two arguments,
 and the loop would end exactly on the texts in which every call it reaches has two.
 */
module NaiveRewriter {
  import opened Text
  import opened ArgScanner
  import opened CallSearch
  import opened SqlTree
  import opened CallTemplates
  import opened CallRewriter

  /** The rules whose lambdas use a placeholder. */
  predicate Masked(rule: Rule) { rule.ConcatWs? || rule.UnixTimestamp? }

  function NaiveInner(rule: Rule, a: seq<string>): string
    requires |a| >= 1
  {
    if rule.ConcatWs? then Join(a, ", ") else a[0]
  }

  /** The lambda without its placeholder: the two-argument branch as it is, the other one under the searched name. */
  function NaiveReplacement(rule: Rule, a: seq<string>): Result<string>
    requires |a| >= 1
  {
    if |a| == 2 then Replacement(rule, a) else Ok(CallText(Name(rule), NaiveInner(rule, a)))
  }

  /** The body of the loop with that lambda. */
  function NaiveRound(rule: Rule, sql: string): Round {
    match Search(sql, Name(rule), 0)
    case None => Done
    case Some(m) =>
      var end := Close(sql, m.end, Mode(1, None));
      match NaiveReplacement(rule, Pieces(Inside(sql, m.end, end)))
      case IndexError => Raised
      case Ok(text) => Round.Next(sql[..m.start] + text + sql[end..])
  }

  /** The loop ends within `n` rounds. */
  predicate EndsWithin(rule: Rule, sql: string, n: nat)
    decreases n
  {
    match NaiveRound(rule, sql)
    case Done => true
    case Raised => true
    case Next(next) => n > 0 && EndsWithin(rule, next, n - 1)
  }

  // ----- calls that the loop cannot get past -----

  /** Some call that the loop reaches does not have exactly two arguments. */
  predicate Stuck(rule: Rule, t: Sql) {
    match t
    case End => false
    case Ch(_, r) => Stuck(rule, r)
    case Lit(_, _, r) => Stuck(rule, r)
    case Paren(inner, r) => Stuck(rule, inner) || Stuck(rule, r)
    case Call(_, args, r) =>
      || |ArgList(args)| != 2
      || Uses(TemplateFor(rule, args), StuckArgs(rule, args))
      || Stuck(rule, r)
  }

  function StuckArgs(rule: Rule, args: Args): (bs: seq<bool>)
    ensures |bs| == |ArgList(args)|
  {
    match args
    case Last(a) => [Stuck(rule, a)]
    case More(a, others) => [Stuck(rule, a)] + StuckArgs(rule, others)
  }

  lemma {:induction false} StuckAppend(rule: Rule, t: Sql, u: Sql)
    ensures Stuck(rule, Append(t, u)) <==> Stuck(rule, t) || Stuck(rule, u)
    decreases t
  {
    hide TemplateFor, Uses, StuckArgs;
    match t
    case End =>
    case Ch(c, r) => StuckAppend(rule, r, u);
    case Lit(q, body, r) => StuckAppend(rule, r, u);
    case Paren(inner, r) => StuckAppend(rule, r, u);
    case Call(h, args, r) => StuckAppend(rule, r, u);
  }

  lemma {:induction false} StuckChars(rule: Rule, s: string, t: Sql)
    ensures Stuck(rule, Chars(s, t)) == Stuck(rule, t)
    decreases s
  {
    if s != [] { StuckChars(rule, s[1..], t); }
  }

  lemma StuckTrim(rule: Rule, t: Sql)
    ensures Stuck(rule, Trim(t)) == Stuck(rule, t)
  {
    StuckTrimLeft(rule, t);
    StuckTrimRight(rule, TrimLeft(t));
  }

  lemma {:induction false} StuckTrimLeft(rule: Rule, t: Sql)
    ensures Stuck(rule, TrimLeft(t)) == Stuck(rule, t)
    decreases t
  {
    if t.Ch? && IsSpace(t.c) { StuckTrimLeft(rule, t.rest); }
  }

  lemma {:induction false} StuckTrimRight(rule: Rule, t: Sql)
    ensures Stuck(rule, TrimRight(t)) == Stuck(rule, t)
    decreases t
  {
    hide TemplateFor, Uses, StuckArgs;
    match t
    case End =>
    case Ch(c, r) => StuckTrimRight(rule, r);
    case Lit(q, body, r) => StuckTrimRight(rule, r);
    case Paren(inner, r) => StuckTrimRight(rule, r);
    case Call(h, args, r) => StuckTrimRight(rule, r);
  }

  lemma {:induction false} StuckAt(rule: Rule, args: Args, i: nat)
    requires i < |ArgList(args)|
    ensures StuckArgs(rule, args)[i] == Stuck(rule, TrimmedArgs(args)[i])
    decreases args
  {
    hide Stuck, Trim;
    if i == 0 { StuckTrim(rule, args.arg); } else { StuckAt(rule, args.others, i - 1); }
  }

  lemma {:induction false} StuckInst(rule: Rule, t: Template, ts: seq<Sql>, rest: Sql, bs: seq<bool>)
    requires Fits(t, |ts|) && |bs| == |ts|
    requires forall i :: 0 <= i < |ts| ==> bs[i] == Stuck(rule, ts[i])
    ensures Stuck(rule, Inst(t, ts, rest)) <==> Uses(t, bs) || Stuck(rule, rest)
    decreases t
  {
    hide TemplateFor, StuckArgs, Append, Chars;
    match t
    case TEnd =>
    case TText(s, r) =>
      StuckInst(rule, r, ts, rest, bs);
      StuckChars(rule, s, Inst(r, ts, rest));
    case TGroup(inner, r) =>
      StuckInst(rule, inner, ts, End, bs);
      StuckInst(rule, r, ts, rest, bs);
    case TLit(q, body, r) => StuckInst(rule, r, ts, rest, bs);
    case TArg(i, r) =>
      StuckInst(rule, r, ts, rest, bs);
      StuckAppend(rule, ts[i], Inst(r, ts, rest));
  }

  /** Replacing a call with two arguments neither frees the loop nor catches it. */
  lemma {:induction false} StuckReplace(rule: Rule, t: Sql)
    requires HasCall(t) && |ArgList(FirstCall(t).args)| == 2
    ensures Stuck(rule, Replace(rule, t)) == Stuck(rule, t)
    decreases t
  {
    hide TemplateFor, Uses, StuckArgs;
    match t
    case Ch(c, r) => StuckReplace(rule, r);
    case Lit(q, body, r) => StuckReplace(rule, r);
    case Paren(inner, r) => if HasCall(inner) { StuckReplace(rule, inner); } else { StuckReplace(rule, r); }
    case Call(h, args, r) =>
      forall i | 0 <= i < |TrimmedArgs(args)|
        ensures StuckArgs(rule, args)[i] == Stuck(rule, TrimmedArgs(args)[i])
      {
        StuckAt(rule, args, i);
      }
      StuckInst(rule, TemplateFor(rule, args), TrimmedArgs(args), r, StuckArgs(rule, args));
  }

  lemma {:induction false} FirstCallSticks(rule: Rule, t: Sql)
    requires HasCall(t) && |ArgList(FirstCall(t).args)| != 2
    ensures Stuck(rule, t)
    decreases t
  {
    hide TemplateFor, Uses, StuckArgs;
    match t
    case Ch(c, r) => FirstCallSticks(rule, r);
    case Lit(q, body, r) => FirstCallSticks(rule, r);
    case Paren(inner, r) => if HasCall(inner) { FirstCallSticks(rule, inner); } else { FirstCallSticks(rule, r); }
    case Call(h, args, r) =>
  }

  lemma {:induction false} NoCallNotStuck(rule: Rule, t: Sql)
    requires !HasCall(t)
    ensures !Stuck(rule, t)
    decreases t
  {
    match t
    case End =>
    case Ch(c, r) => NoCallNotStuck(rule, r);
    case Lit(q, body, r) => NoCallNotStuck(rule, r);
    case Paren(inner, r) =>
      NoCallNotStuck(rule, inner);
      NoCallNotStuck(rule, r);
  }

  // ----- the call built again -----

  /** The argument list as the template prints it. */
  function Reprinted(args: Args): Args {
    match args
    case Last(a) => Last(Trim(a))
    case More(a, others) => More(Trim(a), LeadBlank(Reprinted(others)))
  }

  function LeadBlank(args: Args): Args { args.(arg := Ch(' ', args.arg)) }

  lemma LeadBlankOk(k: Target, args: Args)
    requires IsName(k.name) && WfArgs(k, args)
    ensures WfArgs(k, LeadBlank(args)) && PrintArgs(LeadBlank(args)) == " " + PrintArgs(args)
  {
    WfLeadBlank(k, args.arg);
    hide Wf;
    assert Print(Ch(' ', args.arg)) == " " + Print(args.arg);
    if args.More? { Assoc(" ", Print(args.arg), "," + PrintArgs(args.others)); }
  }

  lemma {:induction false} ReprintedOk(k: Target, args: Args)
    requires IsName(k.name) && WfArgs(k, args)
    ensures WfArgs(k, Reprinted(args)) && PrintArgs(Reprinted(args)) == Join(ArgTexts(args), ", ")
    decreases args
  {
    hide Strip, Wf, Print, Trim, LeadBlank;
    TrimmedArgsOk(k, args);
    assert TrimmedArgs(args)[0] == Trim(args.arg);
    TrimNoTopComma(args.arg);
    if args.More? {
      ReprintedOk(k, args.others);
      LeadBlankOk(k, Reprinted(args.others));
      var a, b := ArgTexts(args)[0], Join(ArgTexts(args.others), ", ");
      assert ArgTexts(args)[1..] == ArgTexts(args.others);
      assert a + "," + (" " + b) == a + ", " + b;
    }
  }

  lemma TrimNoTopComma(t: Sql)
    requires NoTopComma(t)
    ensures NoTopComma(Trim(t))
  {
    TrimLeftNoTopComma(t);
    TrimRightNoTopComma(TrimLeft(t));
  }

  lemma TrimLeftNoTopComma(t: Sql)
    requires NoTopComma(t)
    ensures NoTopComma(TrimLeft(t))
  {
  }

  lemma TrimRightNoTopComma(t: Sql)
    requires NoTopComma(t)
    ensures NoTopComma(TrimRight(t))
  {
  }

  lemma {:induction false} ReprintedCount(args: Args)
    ensures |ArgList(Reprinted(args))| == |ArgList(args)|
    decreases args
  {
    if args.More? {
      ReprintedCount(args.others);
      assert |ArgList(LeadBlank(Reprinted(args.others)))| == |ArgList(Reprinted(args.others))|;
    }
  }

  function RebuiltArgs(rule: Rule, args: Args): Args {
    if rule.ConcatWs? then Reprinted(args) else Last(Trim(args.arg))
  }

  lemma RebuiltOk(rule: Rule, args: Args)
    requires Masked(rule) && WfArgs(TargetOf(rule), args) && |ArgList(args)| != 2
    ensures WfArgs(TargetOf(rule), RebuiltArgs(rule, args)) && |ArgList(RebuiltArgs(rule, args))| != 2
    ensures |ArgTexts(args)| == |ArgList(args)|
    ensures PrintArgs(RebuiltArgs(rule, args)) == NaiveInner(rule, ArgTexts(args))
  {
    hide Wf, Print, Trim, Join, Reprinted;
    var k := TargetOf(rule);
    TrimmedArgsOk(k, args);
    if rule.ConcatWs? {
      ReprintedOk(k, args);
      ReprintedCount(args);
    } else {
      assert TrimmedArgs(args)[0] == Trim(args.arg);
      TrimNoTopComma(args.arg);
    }
  }

  /** The first call with the name and the arguments that the naive lambda gives it. */
  function Rebuild(rule: Rule, t: Sql): Sql
    requires HasCall(t)
  {
    match t
    case Ch(c, r) => Ch(c, Rebuild(rule, r))
    case Lit(q, body, r) => Lit(q, body, Rebuild(rule, r))
    case Paren(inner, r) =>
      if HasCall(inner) then Paren(Rebuild(rule, inner), r) else Paren(inner, Rebuild(rule, r))
    case Call(_, args, r) => Call(Name(rule), RebuiltArgs(rule, args), r)
  }

  lemma {:induction false} RebuildSite(rule: Rule, t: Sql)
    requires HasCall(t)
    ensures
      var s := FirstCall(t);
      && HasCall(Rebuild(rule, t))
      && FirstCall(Rebuild(rule, t)) == Site(s.before, Name(rule), RebuiltArgs(rule, s.args), s.after)
    decreases t
  {
    hide Name, RebuiltArgs, Print;
    match t
    case Ch(c, r) => RebuildSite(rule, r);
    case Lit(q, body, r) => RebuildSite(rule, r);
    case Paren(inner, r) => if HasCall(inner) { RebuildSite(rule, inner); } else { RebuildSite(rule, r); }
    case Call(h, args, r) =>
  }

  lemma NameIsHead(name: string)
    requires IsName(name)
    ensures IsHead(name, name)
  {
    forall i | 0 <= i < |name|
      ensures Fold(name[i]) == name[i]
    {
      assert 'a' <= name[i] <= 'z' || name[i] == '_';
    }
    assert name[..|name|] == name;
  }

  lemma {:induction false} RebuildKeeps(rule: Rule, t: Sql, pre: string)
    requires Masked(rule) && HasCall(t) && Wf(TargetOf(rule), t, pre) && |ArgList(FirstCall(t).args)| != 2
    ensures Wf(TargetOf(rule), Rebuild(rule, t), pre)
    decreases t
  {
    hide Name, Ready, Quiet, IsHead, IsLiteral, RebuiltArgs;
    match t
    case Ch(c, r) => RebuildKeeps(rule, r, pre + [c]);
    case Lit(q, body, r) => RebuildKeeps(rule, r, []);
    case Paren(inner, r) =>
      if HasCall(inner) { RebuildKeeps(rule, inner, []); } else { RebuildKeeps(rule, r, []); }
    case Call(h, args, r) =>
      RebuiltOk(rule, args);
      NameIsHead(Name(rule));
  }

  // ----- one naive round -----

  lemma NaiveRoundSimulates(rule: Rule, t: Sql)
    requires Masked(rule) && Wf(TargetOf(rule), t, [])
    ensures NaiveRound(rule, Print(t))
         == if !HasCall(t) then Done
            else if |ArgList(FirstCall(t).args)| == 2 then Round.Next(Print(Replace(rule, t)))
            else Round.Next(Print(Rebuild(rule, t)))
  {
    hide Print, Wf, Quiet, Replace, Rebuild, Pieces, Inside, Replacement, Bound, IsHead;
    var k, sql := TargetOf(rule), Print(t);
    assert [] + sql == sql;
    if !HasCall(t) {
      EmptyQuiet(k.name);
      QuietPrint(k, t, []);
      SearchFails(sql, k.name, 0);
    } else {
      var s := FirstCall(t);
      EmptyQuiet(k.name);
      SiteQuiet(k, t, []);
      assert [] + s.before == s.before;
      SitePrint(t);
      if |ArgList(s.args)| == 2 {
        ReplacePrint(rule, t);
      } else {
        RebuiltOk(rule, s.args);
        RebuildSite(rule, t);
        SitePrint(Rebuild(rule, t));
      }
      NaiveAtSite(rule, sql, s);
    }
  }

  lemma EmptyQuiet(name: string)
    ensures Quiet(name, [], 0)
  {
  }

  lemma NaiveAtSite(rule: Rule, sql: string, s: Site)
    requires Masked(rule) && sql == SiteText(s, CallTextOf(s))
    requires Quiet(Name(rule), s.before, 0) && Bound(s.before) && IsHead(Name(rule), s.head)
    requires WfArgs(TargetOf(rule), s.args)
    ensures |ArgTexts(s.args)| == |ArgList(s.args)|
    ensures |ArgList(s.args)| == 2 ==>
      NaiveRound(rule, sql) == Round.Next(SiteText(s, Render(TemplateFor(rule, s.args), ArgTexts(s.args))))
    ensures |ArgList(s.args)| != 2 ==>
      NaiveRound(rule, sql) == Round.Next(SiteText(s, CallText(Name(rule), NaiveInner(rule, ArgTexts(s.args)))))
  {
    hide Replacement, Pieces, Close, Search, WfArgs, PrintArgs, Quiet, Name, TemplateOf, Render, NaiveInner, ArgTexts,
      Bound, IsHead, ArgList, TrimmedArgs, Inside, Fits;
    TrimmedArgsOk(TargetOf(rule), s.args);
    SearchAtSite(TargetOf(rule), sql, s, 0);
    PiecesAreArgTexts(TargetOf(rule), s.args);
    RenderIsReplacement(rule, ArgTexts(s.args));
    MaskedHasTemplate(rule, |ArgList(s.args)|);
  }

  lemma MaskedHasTemplate(rule: Rule, n: nat)
    requires Masked(rule) && n >= 1
    ensures TemplateOf(rule, n).Some?
  {
  }

  // ----- when the naive loop ends -----

  lemma {:induction false} EndsIfNotStuck(rule: Rule, t: Sql)
    requires Masked(rule) && Wf(TargetOf(rule), t, []) && !Stuck(rule, t)
    ensures EndsWithin(rule, Print(t), Weight(rule, t))
    decreases Weight(rule, t)
  {
    hide NaiveRound, Print, Wf, Weight, Stuck, Replace, Full, Fails, TemplateOf, TargetOf;
    NaiveRoundSimulates(rule, t);
    if HasCall(t) {
      if |ArgList(FirstCall(t).args)| != 2 { FirstCallSticks(rule, t); }
      MaskedHasTemplate(rule, 2);
      ReplaceKeeps(rule, t, []);
      StuckReplace(rule, t);
      EndsIfNotStuck(rule, Replace(rule, t));
    }
  }

  lemma {:induction false} NeverEndsIfStuck(rule: Rule, t: Sql, n: nat)
    requires Masked(rule) && Wf(TargetOf(rule), t, []) && Stuck(rule, t)
    ensures !EndsWithin(rule, Print(t), n)
    decreases n
  {
    hide NaiveRound, Print, Wf, Weight, Stuck, Replace, Rebuild, Full, Fails, TemplateOf, TargetOf;
    NaiveRoundSimulates(rule, t);
    if !HasCall(t) { NoCallNotStuck(rule, t); }
    if n > 0 {
      if |ArgList(FirstCall(t).args)| == 2 {
        MaskedHasTemplate(rule, 2);
        ReplaceKeeps(rule, t, []);
        StuckReplace(rule, t);
        NeverEndsIfStuck(rule, Replace(rule, t), n - 1);
      } else {
        RebuildKeeps(rule, t, []);
        RebuildSite(rule, t);
        RebuiltStays(rule, t);
        FirstCallSticks(rule, Rebuild(rule, t));
        NeverEndsIfStuck(rule, Rebuild(rule, t), n - 1);
      }
    }
  }

  lemma RebuiltStays(rule: Rule, t: Sql)
    requires Masked(rule) && HasCall(t) && Wf(TargetOf(rule), t, []) && |ArgList(FirstCall(t).args)| != 2
    ensures |ArgList(RebuiltArgs(rule, FirstCall(t).args))| != 2
  {
    hide Print, Wf, Quiet, Bound, IsHead;
    EmptyQuiet(Name(rule));
    SiteQuiet(TargetOf(rule), t, []);
    RebuiltOk(rule, FirstCall(t).args);
  }

  /** Without the placeholder the loop ends exactly when every call it reaches has two arguments. */
  lemma NaiveEndsExactly(rule: Rule, t: Sql)
    requires Masked(rule) && Wf(TargetOf(rule), t, [])
    ensures (exists n :: EndsWithin(rule, Print(t), n)) <==> !Stuck(rule, t)
  {
    if Stuck(rule, t) {
      forall n
        ensures !EndsWithin(rule, Print(t), n)
      {
        NeverEndsIfStuck(rule, t, n);
      }
    } else {
      EndsIfNotStuck(rule, t);
    }
  }
}

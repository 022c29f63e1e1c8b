/**
 The rule for `str_to_map`, whose replacement is the first argument itself. The text shrinks in every
 round, so the loop ends on every text at all; but the argument can meet its surroundings and make a
 new call, so the result is the structural rewriting only on readable text.
 */
module StrToMapRule {
  import opened Text
  import opened ArgScanner
  import opened CallSearch
  import opened SqlTree
  import opened CallTemplates
  import opened CallRewriter
  import opened BalancedText

  // ----- every round shrinks the text -----

  lemma {:induction false} FirstOfJoin(parts: seq<string>, sep: string)
    requires parts != []
    ensures |parts[0]| <= |Join(parts, sep)|
  {
  }

  lemma {:induction false} LStripShort(s: string)
    ensures |LStrip(s)| <= |s|
    decreases s
  {
    if s != [] && IsSpace(s[0]) { LStripShort(s[1..]); }
  }

  lemma FirstPieceShort(text: string)
    ensures |Pieces(text)[0]| <= |text|
  {
    var raw := RawPieces(TOP, ' ', [], text);
    PiecesCoverText(TOP, ' ', [], text);
    assert [] + text == text;
    FirstOfJoin(raw, ",");
    LStripShort(raw[0]);
    hide RawPieces, LStrip, RStrip, Join;
    assert Pieces(text)[0] == Strip(raw[0]);
  }

  /** A round neither raises nor keeps the length of the text, whatever the text is. */
  lemma RoundShrinks(sql: string)
    ensures !RoundOf(StrToMap, sql).Raised?
    ensures RoundOf(StrToMap, sql).Next? ==> |RoundOf(StrToMap, sql).sql| < |sql|
  {
    hide Search, Close, Pieces, Name;
    var found := Search(sql, Name(StrToMap), 0);
    if found.Some? {
      var m := found.value;
      var end := Close(sql, m.end, Mode(1, None));
      FirstPieceShort(Inside(sql, m.end, end));
    }
  }

  // ----- the loop on every text -----

  /** What the loop leaves. */
  function Flattened(sql: string): string
    decreases |sql|
  {
    RoundShrinks(sql);
    match RoundOf(StrToMap, sql)
    case Done => sql
    case Raised => sql
    case Next(next) => Flattened(next)
  }

  /** `_rewrite_calls` with this rule ends on every text, and no call is left. */
  method RewriteStrToMap(sql: string) returns (r: string)
    ensures r == Flattened(sql) && Search(r, Name(StrToMap), 0).None?
  {
    hide Search, Close, Pieces, Name, Inside;
    r := sql;
    while true
      invariant Flattened(r) == Flattened(sql)
      decreases |r|
    {
      RoundShrinks(r);
      var found := Search(r, Name(StrToMap), 0);
      if found.None? { return; }
      var m := found.value;
      var end := FindClose(r, m.end);
      var args := SplitArgs(Inside(r, m.end, end));
      r := r[..m.start] + args[0] + r[end..];
    }
  }

  /** On readable text it is the structural rewriting. */
  lemma {:induction false} FlattenedIsStructural(t: Sql)
    requires Wf(TargetOf(StrToMap), t, [])
    ensures Flattened(Print(t)) == Print(Full(StrToMap, t))
    decreases Weight(StrToMap, t)
  {
    hide RoundOf, Full, Weight, Fails, Print, Wf, Replace, TargetOf;
    RoundSimulates(StrToMap, t);
    if HasCall(t) {
      ReplaceKeeps(StrToMap, t, []);
      FlattenedIsStructural(Replace(StrToMap, t));
    } else {
      NoCallNoChange(StrToMap, t);
    }
  }

  // ----- a text that is not readable -----

  predicate IsPlainWord(w: string) {
    w != [] && forall i :: 0 <= i < |w| ==> IsPlain(w[i]) && w[i] != ',' && !IsSpace(w[i])
  }

  lemma NameIsWord()
    ensures
      var n := Name(StrToMap);
      IsPlainWord(n) && IsName(n) && IsHead(n, n) && '(' !in n
  {
    var n := Name(StrToMap);
    assert n == "str_to_map";
    assert n[..|n|] == n && n[|n|..] == [];
  }

  lemma EmptyContext(name: string)
    requires IsName(name)
    ensures Quiet(name, [], 0) && Bound([]) && !Ready(name, [])
  {
    assert RStrip([]) == [];
  }

  lemma {:induction false} WfWord(k: Target, w: string, pre: string)
    requires forall i :: 0 <= i < |w| ==> IsPlain(w[i]) && w[i] != ','
    ensures Wf(k, Chars(w, End), pre) && NoTopComma(Chars(w, End)) && Print(Chars(w, End)) == w
    decreases w
  {
    if w != [] { WfWord(k, w[1..], pre + [w[0]]); }
  }

  function Parens(w: string): string { "(" + w + ")" }

  function CallOn(n: string, w: string): string { n + Parens(w) }

  /** A call whose argument is a plain word gives way to the word. */
  lemma WordRound(n: string, w: string, after: string)
    requires n == Name(StrToMap) && IsPlainWord(w)
    ensures RoundOf(StrToMap, CallOn(n, w) + after) == Round.Next(w + after)
  {
    NameIsWord();
    var k := TargetOf(StrToMap);
    var args := Last(Chars(w, End));
    WordArgs(k, w);
    var s := Site([], n, args, after);
    hide RoundOf, Wf, WfArgs, PrintArgs, ArgTexts, Quiet, IsHead, Name, Chars, IsPlainWord, IsName, Bound;
    SiteOfCall(n, w, args, after);
    EmptyContext(k.name);
    OneArgument(args);
    hide TemplateFor;
    RoundAtSite(StrToMap, SiteText(s, CallTextOf(s)), s);
    RenderArg(0, [w]);
    assert [] + w + after == w + after;
  }

  lemma WordArgs(k: Target, w: string)
    requires IsPlainWord(w)
    ensures
      var args := Last(Chars(w, End));
      WfArgs(k, args) && PrintArgs(args) == w && ArgTexts(args) == [w]
  {
    WfWord(k, w, []);
    StripOfTrimmed(w);
    hide Chars, Wf, NoTopComma, Strip;
  }

  lemma SiteOfCall(n: string, w: string, args: Args, after: string)
    requires PrintArgs(args) == w
    ensures
      var s := Site([], n, args, after);
      SiteText(s, CallTextOf(s)) == CallOn(n, w) + after
  {
    hide PrintArgs;
    assert [] + CallOn(n, w) == CallOn(n, w);
    assert n + "(" + w + ")" == CallOn(n, w);
  }

  lemma NoRoundInWord(w: string)
    requires IsPlainWord(w)
    ensures RoundOf(StrToMap, w) == Done
  {
    NameIsWord();
    assert Quiet(Name(StrToMap), w, 0);
    hide Search, Name;
    SearchFails(w, Name(StrToMap), 0);
  }

  /** `str_to_map(str_to_map)(w)` for a word `w`. */
  function Joined(n: string, w: string): string { CallOn(n, n) + Parens(w) }

  function JoinedTree(n: string, w: string): Sql {
    Call(n, Last(Chars(n, End)), Paren(Chars(w, End), End))
  }

  /** The argument meets the group behind the call, and the loop goes on to the word. */
  lemma JoinedGoesOn(n: string, w: string)
    requires n == Name(StrToMap) && IsPlainWord(w)
    ensures Flattened(Joined(n, w)) == w
  {
    NameIsWord();
    WordRound(n, n, Parens(w));
    WordRound(n, w, []);
    NoRoundInWord(w);
    hide RoundOf, Name, Parens, IsPlainWord;
    assert CallOn(n, w) + [] == CallOn(n, w) && w + [] == w;
    assert Flattened(w) == w;
    assert Flattened(CallOn(n, w)) == w;
  }

  lemma JoinedTreeOk(n: string, w: string)
    requires IsName(n) && IsHead(n, n) && IsPlainWord(n) && IsPlainWord(w)
    ensures Print(JoinedTree(n, w)) == Joined(n, w) && Wf(Target(n, false), JoinedTree(n, w), [])
  {
    var k := Target(n, false);
    WfWord(k, n, []);
    WfWord(k, w, []);
    EmptyContext(n);
    hide Chars, Ready, IsHead, IsPlainWord, IsName;
    var group := Paren(Chars(w, End), End);
    assert Wf(k, End, []) && Print(End) == [];
    assert Parens(w) + [] == Parens(w);
    assert Wf(k, group, []) && Print(group) == Parens(w);
    var args := Last(Chars(n, End));
    assert WfArgs(k, args) && PrintArgs(args) == n;
    assert n + "(" + n + ")" == CallOn(n, n);
  }

  lemma {:induction false} WordUnchanged(w: string)
    ensures Full(StrToMap, Chars(w, End)) == Chars(w, End)
    decreases w
  {
    if w != [] { WordUnchanged(w[1..]); }
  }

  lemma {:induction false} TrimWord(w: string)
    requires w != [] && forall i :: 0 <= i < |w| ==> !IsSpace(w[i])
    ensures Trim(Chars(w, End)) == Chars(w, End)
    decreases w
  {
    if |w| > 1 { TrimWord(w[1..]); }
  }

  /** The structural rewriting drops the call and leaves the group alone. */
  lemma JoinedFull(n: string, w: string)
    requires IsPlainWord(n) && IsPlainWord(w)
    ensures Print(Full(StrToMap, JoinedTree(n, w))) == CallOn(n, w)
  {
    var args, group := Last(Chars(n, End)), Paren(Chars(w, End), End);
    TrimWord(n);
    WordUnchanged(n);
    WordUnchanged(w);
    WfWord(Target(n, false), n, []);
    WfWord(Target(n, false), w, []);
    hide Chars, Trim, IsPlainWord, Wf, NoTopComma;
    assert Full(StrToMap, End) == End && Full(StrToMap, group) == group;
    assert FullArgs(StrToMap, args) == [Chars(n, End)];
    OneArgument(args);
    hide TemplateFor;
    assert Inst(TEnd, [Chars(n, End)], group) == group;
    assert Full(StrToMap, Call(n, args, group)) == Append(Chars(n, End), group);
    hide Full, Inst, Append;
    PrintAppend(Chars(n, End), group);
    assert Print(End) == [];
    assert Parens(w) + [] == Parens(w);
  }

  lemma OneArgument(args: Args)
    requires args.Last?
    ensures TemplateFor(StrToMap, args) == TArg(0, TEnd)
  {
  }

  lemma JoinedNotReadable(n: string, w: string)
    requires n == Name(StrToMap)
    ensures !Readable(TargetOf(StrToMap), [], [], Joined(n, w))
  {
    NameIsWord();
    var k := TargetOf(StrToMap);
    EmptyContext(n);
    HeadReady(n, [], n);
    assert [] + n == n;
    hide Ready, HeadStart, Quiet, LiteralEnd, IsHead, Name, IsName;
    ClosedNotReadable(k, n, w);
    hide Readable, Parens;
    var z := ")" + Parens(w);
    ReadablePlain(k, [true], [], n, z);
    GroupNotReadable(k, n, z);
    ReadablePlain(k, [], [], n, "(" + n + z);
    JoinedText(n, w);
  }

  lemma ClosedNotReadable(k: Target, n: string, w: string)
    requires k.open
    ensures !Readable(k, [true], n, ")" + Parens(w))
  {
    var z := ")" + Parens(w);
    assert z[1..] == Parens(w) && Parens(w)[0] == '(';
  }

  lemma GroupNotReadable(k: Target, n: string, z: string)
    requires Ready(k.name, n) && !Readable(k, [true], [], n + z)
    ensures !Readable(k, [], n, "(" + n + z)
  {
    hide Ready, HeadStart, Quiet, LiteralEnd, KeepsApart;
    var y := "(" + n + z;
    assert y[1..] == n + z && [] + [true] == [true];
  }

  lemma JoinedText(n: string, w: string)
    ensures Joined(n, w) == n + ("(" + n + (")" + Parens(w)))
  {
  }

  /** The text is balanced but not readable, and the loop's result is not the structural one. */
  lemma JoinedIsNotStructural(w: string)
    requires IsPlainWord(w)
    ensures
      var n := Name(StrToMap);
      var sql, t := Joined(n, w), JoinedTree(n, w);
      && Print(t) == sql && Wf(Target(n, false), t, [])
      && Print(Full(StrToMap, t)) == CallOn(n, w) && Flattened(sql) == w && CallOn(n, w) != w
      && Balanced(n, 0, sql) && !Readable(TargetOf(StrToMap), [], [], sql)
  {
    var n := Name(StrToMap);
    NameIsWord();
    JoinedGoesOn(n, w);
    JoinedTreeOk(n, w);
    JoinedFull(n, w);
    JoinedNotReadable(n, w);
    hide Print, Wf, Full, Flattened, Balanced, Readable, Chars, Name, IsPlainWord, Joined;
    TreesAreBalancedTexts(Target(n, false), Joined(n, w));
    assert |CallOn(n, w)| > |w|;
  }
}

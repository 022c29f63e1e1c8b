/**
 SQL text as a tree relative to one searched function name: the calls of that name are nodes,
 everything else is characters, quoted literals and parenthesised groups.
 */
module SqlTree {
  import opened Text
  import opened ArgScanner
  import opened CallSearch

  /** A run of siblings, first node first. */
  datatype Sql =
    | End
    | Ch(c: char, rest: Sql)
    | Lit(quote: char, body: string, rest: Sql)
    | Paren(inner: Sql, rest: Sql)
    | Call(head: string, args: Args, rest: Sql)

  datatype Args = Last(arg: Sql) | More(arg: Sql, others: Args)

  /** The searched name; `open` says that its replacement text starts and ends with an argument. */
  datatype Target = Target(name: string, open: bool)

  // ----- text -----

  function Print(t: Sql): string {
    match t
    case End => []
    case Ch(c, r) => [c] + Print(r)
    case Lit(q, body, r) => [q] + body + [q] + Print(r)
    case Paren(inner, r) => "(" + Print(inner) + ")" + Print(r)
    case Call(h, args, r) => h + "(" + PrintArgs(args) + ")" + Print(r)
  }

  function PrintArgs(args: Args): string {
    match args
    case Last(a) => Print(a)
    case More(a, others) => Print(a) + "," + PrintArgs(others)
  }

  function ArgList(args: Args): (r: seq<Sql>)
    ensures |r| >= 1
  {
    match args
    case Last(a) => [a]
    case More(a, others) => [a] + ArgList(others)
  }

  function Append(t: Sql, u: Sql): Sql {
    match t
    case End => u
    case Ch(c, r) => Ch(c, Append(r, u))
    case Lit(q, body, r) => Lit(q, body, Append(r, u))
    case Paren(inner, r) => Paren(inner, Append(r, u))
    case Call(h, args, r) => Call(h, args, Append(r, u))
  }

  function Chars(s: string, t: Sql): Sql {
    if s == [] then t else Ch(s[0], Chars(s[1..], t))
  }

  lemma PrintAppend(t: Sql, u: Sql)
    ensures Print(Append(t, u)) == Print(t) + Print(u)
  {
  }

  lemma PrintChars(s: string, t: Sql)
    ensures Print(Chars(s, t)) == s + Print(t)
  {
  }

  // ----- well-formedness -----

  predicate IsPlain(c: char) { !IsQuote(c) && c != '(' && c != ')' }

  /** The scanning loops leave the literal exactly at its closing quote. */
  predicate IsLiteral(q: char, body: string) {
    && IsQuote(q)
    && Escaped(q, q, body)
    && (body != [] ==> body[|body| - 1] != '\\')
  }

  /** Every quote `q` inside the literal has a backslash to its left. */
  predicate Escaped(q: char, prev: char, body: string)
    decreases body
  {
    body == [] || ((body[0] == q ==> prev == '\\') && Escaped(q, body[0], body[1..]))
  }

  predicate NoTopComma(t: Sql) {
    match t
    case End => true
    case Ch(c, r) => c != ',' && NoTopComma(r)
    case Lit(_, _, r) => NoTopComma(r)
    case Paren(_, r) => NoTopComma(r)
    case Call(_, _, r) => NoTopComma(r)
  }

  /** Text that may follow a call whose replacement ends with an argument. */
  predicate Follows(t: Sql) {
    match t
    case End => true
    case Lit(_, _, _) => true
    case Ch(c, r) => Reset(c) || (IsSpace(c) && FollowsBlank(r))
    case Paren(_, _) => false
    case Call(_, _, _) => false
  }

  predicate FollowsBlank(t: Sql) {
    match t
    case End => true
    case Lit(_, _, _) => true
    case Ch(c, r) => IsSpace(c) ==> FollowsBlank(r)
    case Paren(_, _) => false
    case Call(_, _, _) => false
  }

  /**
   The calls of `k.name` that the search sees in `pre + Print(t)` from the end of `pre` on are
   exactly the `Call` nodes of `t`, whose arguments hold no separating commas of their own.
   */
  predicate Wf(k: Target, t: Sql, pre: string)
    decreases t
  {
    match t
    case End => true
    case Ch(c, r) => IsPlain(c) && Wf(k, r, pre + [c])
    case Lit(q, body, r) => IsLiteral(q, body) && Quiet(k.name, body, 0) && Wf(k, r, [])
    case Paren(inner, r) => !Ready(k.name, pre) && Wf(k, inner, []) && Wf(k, r, [])
    case Call(h, args, r) =>
      && IsHead(k.name, h) && Bound(pre) && WfArgs(k, args) && Wf(k, r, [])
      && (k.open ==> !Ready(k.name, pre) && Follows(r))
  }

  predicate WfArgs(k: Target, args: Args)
    decreases args
  {
    match args
    case Last(a) => Wf(k, a, []) && NoTopComma(a)
    case More(a, others) => Wf(k, a, []) && NoTopComma(a) && WfArgs(k, others)
  }

  // ----- contexts -----

  /** A neutral context can be dropped. */
  lemma {:induction false} WfShift(k: Target, t: Sql, pre: string, s: string)
    requires IsName(k.name) && Neutral(k.name, pre)
    ensures Wf(k, t, pre + s) == Wf(k, t, s)
    decreases t
  {
    match t
    case End =>
    case Ch(c, r) =>
      assert pre + s + [c] == pre + (s + [c]);
      WfShift(k, r, pre, s + [c]);
    case Lit(q, body, r) =>
    case Paren(inner, r) =>
      ReadyShift(k.name, pre, s);
    case Call(h, args, r) =>
      ReadyShift(k.name, pre, s);
      assert s == [] ==> pre + s == pre;
  }

  lemma WfNeutral(k: Target, t: Sql, pre: string)
    requires IsName(k.name) && Neutral(k.name, pre)
    ensures Wf(k, t, pre) == Wf(k, t, [])
  {
    assert pre + [] == pre;
    WfShift(k, t, pre, []);
  }

  /** After a reset character every context is as good as none. */
  lemma WfReset(k: Target, t: Sql, x: string, c: char)
    requires IsName(k.name) && Reset(c)
    ensures Wf(k, t, x + [c]) == Wf(k, t, [])
  {
    ResetNeutral(k.name, x, c);
    WfNeutral(k, t, x + [c]);
  }

  /** The sibling characters since the last literal, group or call. */
  function Trail(t: Sql, pre: string): string {
    match t
    case End => pre
    case Ch(c, r) => Trail(r, pre + [c])
    case Lit(_, _, r) => Trail(r, [])
    case Paren(_, r) => Trail(r, [])
    case Call(_, _, r) => Trail(r, [])
  }

  lemma FollowsAppend(t: Sql, u: Sql)
    requires Follows(u)
    ensures Follows(t) ==> Follows(Append(t, u))
    ensures FollowsBlank(t) ==> FollowsBlank(Append(t, u))
    ensures FollowsBlank(u)
  {
    match t
    case End => FollowsIsBlank(u);
    case Ch(c, r) => FollowsAppend(r, u);
    case Lit(_, _, _) => FollowsIsBlank(u);
    case Paren(_, _) => FollowsIsBlank(u);
    case Call(_, _, _) => FollowsIsBlank(u);
  }

  lemma FollowsIsBlank(u: Sql)
    requires Follows(u)
    ensures FollowsBlank(u)
  {
  }

  lemma {:induction false} WfAppend(k: Target, t: Sql, u: Sql, pre: string)
    requires Wf(k, t, pre) && Wf(k, u, Trail(t, pre))
    requires k.open ==> Follows(u)
    ensures Wf(k, Append(t, u), pre)
    decreases t
  {
    match t
    case End =>
    case Ch(c, r) => WfAppend(k, r, u, pre + [c]);
    case Lit(q, body, r) => WfAppend(k, r, u, []);
    case Paren(inner, r) => WfAppend(k, r, u, []);
    case Call(h, args, r) =>
      WfAppend(k, r, u, []);
      if k.open { FollowsAppend(r, u); }
  }

  lemma {:induction false} WfChars(k: Target, s: string, t: Sql, pre: string)
    requires forall i :: 0 <= i < |s| ==> IsPlain(s[i])
    ensures Wf(k, Chars(s, t), pre) == Wf(k, t, pre + s)
    decreases s
  {
    if s == [] {
      assert pre + s == pre;
    } else {
      WfChars(k, s[1..], t, pre + [s[0]]);
      assert pre + [s[0]] + s[1..] == pre + s;
    }
  }

  /** What follows an argument-ended replacement does not mind the argument. */
  lemma {:induction false} WfFollows(k: Target, t: Sql, x: string)
    requires IsName(k.name) && Follows(t) && Wf(k, t, [])
    ensures Wf(k, t, x)
  {
    match t
    case End =>
    case Lit(q, body, r) =>
    case Ch(c, r) =>
      assert [] + [c] == [c];
      if Reset(c) {
        WfReset(k, r, x, c);
        WfReset(k, r, [], c);
      } else {
        WfFollowsBlank(k, r, [c], x + [c]);
      }
  }

  lemma {:induction false} WfFollowsBlank(k: Target, t: Sql, b: string, x: string)
    requires IsName(k.name) && FollowsBlank(t) && Bound(x) && AllSpace(b) && Wf(k, t, b)
    ensures Wf(k, t, x)
    decreases t
  {
    match t
    case End =>
    case Lit(q, body, r) =>
    case Ch(c, r) =>
      if IsSpace(c) {
        WfFollowsBlank(k, r, b + [c], x + [c]);
      } else {
        BlanksNeutral(k.name, b);
        WfShift(k, r, b, [c]);
        assert [c][0] == c;
        WfBoundShift(k, r, x, [c]);
      }
  }

  /** A bounded context can be dropped in front of something that is not blank. */
  lemma {:induction false} WfBoundShift(k: Target, t: Sql, pre: string, s: string)
    requires IsName(k.name) && Bound(pre) && !AllSpace(s)
    ensures Wf(k, t, pre + s) == Wf(k, t, s)
    decreases t
  {
    ReadyShift(k.name, pre, s);
    match t
    case End =>
    case Ch(c, r) =>
      assert pre + s + [c] == pre + (s + [c]);
      assert forall i :: 0 <= i < |s| ==> (s + [c])[i] == s[i];
      WfBoundShift(k, r, pre, s + [c]);
    case Lit(q, body, r) =>
    case Paren(inner, r) =>
    case Call(h, args, r) =>
  }

  // ----- scanning a printed tree -----

  lemma {:induction false} ScanLiteralBody(m: Mode, prev: char, q: char, body: string)
    requires IsQuote(q) && m.quote == Some(q)
    requires Escaped(q, prev, body)
    ensures Scan(m, prev, body) == m && Cuts(m, prev, body) == 0
    decreases body
  {
    if body != [] { ScanLiteralBody(m, body[0], q, body[1..]); }
  }

  lemma ScanLiteral(m: Mode, prev: char, q: char, body: string)
    requires IsLiteral(q, body) && m.quote.None?
    ensures Scan(m, prev, [q] + body + [q]) == m && Cuts(m, prev, [q] + body + [q]) == 0
  {
    var m1 := m.(quote := Some(q));
    ScanLiteralBody(m1, q, q, body);
    ScanConcat(m1, q, body, [q]);
    assert ([q] + body + [q])[0] == q && ([q] + body + [q])[1..] == body + [q];
  }

  lemma ScanHead(m: Mode, prev: char, k: Target, h: string)
    requires IsName(k.name) && IsHead(k.name, h) && m.quote.None?
    ensures Scan(m, prev, h) == m && Cuts(m, prev, h) == 0
  {
    var nm, gap := h[..|k.name|], h[|k.name|..];
    assert h == nm + gap;
    NameChars(nm, k.name);
    forall i | 0 <= i < |nm|
      ensures IsPlain(nm[i]) && nm[i] != ','
    {
      NameChar(nm[i], k.name[i]);
    }
    ScanPlain(m, prev, nm);
    BlanksKeepMode(m, LastOr(prev, nm), gap);
    ScanConcat(m, prev, nm, gap);
  }

  lemma {:induction false} ScanPlain(m: Mode, prev: char, s: string)
    requires m.quote.None? && forall i :: 0 <= i < |s| ==> IsPlain(s[i]) && s[i] != ','
    ensures Scan(m, prev, s) == m && Cuts(m, prev, s) == 0
    decreases s
  {
    if s != [] { ScanPlain(m, s[0], s[1..]); }
  }

  /** Scanning a group returns to the depth before it, without a cut. */
  lemma ScanGroup(m: Mode, prev: char, s: string)
    requires m.quote.None? && m.depth >= 0
    requires Scan(m.(depth := m.depth + 1), '(', s) == m.(depth := m.depth + 1)
    requires Cuts(m.(depth := m.depth + 1), '(', s) == 0
    ensures Scan(m, prev, "(" + s + ")") == m && Cuts(m, prev, "(" + s + ")") == 0
  {
    var m1 := m.(depth := m.depth + 1);
    assert ("(" + s + ")")[0] == '(' && ("(" + s + ")")[1..] == s + ")";
    ScanConcat(m1, '(', s, ")");
  }

  /** Two stretches that both keep the mode. */
  lemma ScanTwo(m: Mode, prev: char, a: string, b: string)
    requires Scan(m, prev, a) == m && Cuts(m, prev, a) == 0
    requires Scan(m, LastOr(prev, a), b) == m && Cuts(m, LastOr(prev, a), b) == 0
    ensures Scan(m, prev, a + b) == m && Cuts(m, prev, a + b) == 0
  {
    ScanConcat(m, prev, a, b);
  }

  /** Text that leaves the scanner as it found it. */
  predicate Keeps(m: Mode, prev: char, s: string) {
    Scan(m, prev, s) == m && Cuts(m, prev, s) == 0
  }

  lemma ScanCallNode(k: Target, h: string, s: string, r: string, m: Mode, prev: char)
    requires IsName(k.name) && IsHead(k.name, h) && m.quote.None? && m.depth >= 0
    requires Keeps(m.(depth := m.depth + 1), '(', s) && Keeps(m, ')', r)
    ensures Keeps(m, prev, h + "(" + s + ")" + r)
  {
    var group := "(" + s + ")";
    ScanHead(m, prev, k, h);
    ScanGroup(m, LastOr(prev, h), s);
    ScanTwo(m, LastOr(prev, h), group, r);
    ScanTwo(m, prev, h, group + r);
    assert h + "(" + s + ")" + r == h + (group + r);
  }

  lemma {:induction false} ScanPrint(k: Target, t: Sql, pre: string, m: Mode, prev: char)
    requires IsName(k.name) && Wf(k, t, pre) && m.quote.None? && m.depth >= 0
    requires m.depth > 0 || NoTopComma(t)
    ensures Keeps(m, prev, Print(t))
    decreases t
  {
    var inner := m.(depth := m.depth + 1);
    match t
    case End =>
    case Ch(c, r) =>
      ScanPrint(k, r, pre + [c], m, c);
      assert ([c] + Print(r))[1..] == Print(r);
    case Lit(q, body, r) =>
      ScanLiteral(m, prev, q, body);
      ScanPrint(k, r, [], m, q);
      ScanTwo(m, prev, [q] + body + [q], Print(r));
    case Paren(i, r) =>
      ScanPrint(k, i, [], inner, '(');
      ScanGroup(m, prev, Print(i));
      ScanPrint(k, r, [], m, ')');
      ScanTwo(m, prev, "(" + Print(i) + ")", Print(r));
    case Call(h, args, r) =>
      ScanPrintArgs(k, args, inner, '(');
      ScanPrint(k, r, [], m, ')');
      ScanCallNode(k, h, PrintArgs(args), Print(r), m, prev);
  }

  lemma {:induction false} ScanPrintArgs(k: Target, args: Args, m: Mode, prev: char)
    requires IsName(k.name) && WfArgs(k, args) && m.quote.None? && m.depth > 0
    ensures Keeps(m, prev, PrintArgs(args))
    decreases args
  {
    ScanPrint(k, args.arg, [], m, prev);
    if args.More? {
      var a, b := Print(args.arg), PrintArgs(args.others);
      ScanPrintArgs(k, args.others, m, ',');
      assert PrintArgs(args) == a + ("," + b);
      ScanConcat(m, prev, a, "," + b);
      assert ("," + b)[0] == ',' && ("," + b)[1..] == b;
    }
  }

  /** The trimmed text of every argument. */
  function ArgTexts(args: Args): (r: seq<string>)
    ensures |r| == |ArgList(args)|
  {
    match args
    case Last(a) => [Strip(Print(a))]
    case More(a, others) => [Strip(Print(a))] + ArgTexts(others)
  }

  /** `_split_args` on the text of an argument list. */
  lemma {:induction false} PiecesOfArgs(k: Target, args: Args, prev: char)
    requires IsName(k.name) && WfArgs(k, args)
    ensures StripAll(RawPieces(TOP, prev, [], PrintArgs(args))) == ArgTexts(args)
    decreases args
  {
    hide Strip;
    var a := Print(args.arg);
    ScanPrint(k, args.arg, [], TOP, prev);
    if args.Last? {
      OnePiece(TOP, prev, a);
    } else {
      PiecesOfMore(a, PrintArgs(args.others), prev);
      PiecesOfArgs(k, args.others, ',');
    }
  }

  lemma PiecesOfMore(a: string, b: string, prev: char)
    requires Keeps(TOP, prev, a)
    ensures StripAll(RawPieces(TOP, prev, [], a + "," + b))
         == [Strip(a)] + StripAll(RawPieces(TOP, ',', [], b))
  {
    hide Strip;
    RawPiecesOfCut(prev, [], a, b);
    assert [] + a == a;
    StripAllConcat([a], RawPieces(TOP, ',', [], b));
  }

  // ----- the closing parenthesis of a printed argument list -----

  /** As long as the depth stays positive, `Close` follows the scan. */
  predicate Inner(m: Mode, prev: char, s: string)
    decreases s
  {
    m.depth >= 1 && (s == [] || Inner(Next(m, prev, s[0]), s[0], s[1..]))
  }

  lemma {:induction false} CloseSkips(text: string, i: nat, m: Mode, s: string)
    requires 1 <= i && i + |s| <= |text| && text[i..i + |s|] == s
    requires Inner(m, text[i - 1], s)
    ensures Close(text, i, m) == Close(text, i + |s|, Scan(m, text[i - 1], s))
    decreases s
  {
    if s != [] {
      assert text[i] == s[0];
      assert text[i + 1..i + |s|] == s[1..];
      CloseSkips(text, i + 1, Next(m, text[i - 1], s[0]), s[1..]);
    }
  }

  lemma {:induction false} InnerConcat(m: Mode, prev: char, a: string, b: string)
    requires Inner(m, prev, a) && Inner(Scan(m, prev, a), LastOr(prev, a), b)
    ensures Inner(m, prev, a + b)
    decreases a
  {
    if a == [] {
      assert a + b == b;
    } else {
      assert (a + b)[1..] == a[1..] + b;
      InnerConcat(Next(m, prev, a[0]), a[0], a[1..], b);
    }
  }

  /** Text without parentheses never changes the depth. */
  lemma {:induction false} InnerFlat(m: Mode, prev: char, s: string)
    requires m.depth >= 1 && '(' !in s && ')' !in s
    ensures Inner(m, prev, s)
    decreases s
  {
    if s != [] { InnerFlat(Next(m, prev, s[0]), s[0], s[1..]); }
  }

  lemma {:induction false} InnerQuoted(m: Mode, prev: char, q: char, body: string)
    requires m.quote == Some(q) && m.depth >= 1
    requires Escaped(q, prev, body)
    ensures Inner(m, prev, body + [q])
    decreases body
  {
    if body != [] {
      assert (body + [q])[0] == body[0] && (body + [q])[1..] == body[1..] + [q];
      InnerQuoted(m, body[0], q, body[1..]);
    } else {
      assert body + [q] == [q];
    }
  }

  lemma InnerParens(m: Mode, prev: char, s: string)
    requires m.quote.None? && m.depth >= 1
    requires Inner(m.(depth := m.depth + 1), '(', s)
    requires Scan(m.(depth := m.depth + 1), '(', s) == m.(depth := m.depth + 1)
    ensures Inner(m, prev, "(" + s + ")")
  {
    var m1 := m.(depth := m.depth + 1);
    assert ("(" + s + ")")[0] == '(' && ("(" + s + ")")[1..] == s + ")";
    InnerConcat(m1, '(', s, ")");
  }

  lemma InnerTwo(m: Mode, prev: char, a: string, b: string)
    requires Scan(m, prev, a) == m && Inner(m, prev, a) && Inner(m, LastOr(prev, a), b)
    ensures Inner(m, prev, a + b)
  {
    InnerConcat(m, prev, a, b);
  }

  lemma InnerLitNode(m: Mode, prev: char, q: char, body: string, r: string)
    requires IsLiteral(q, body) && m.quote.None? && m.depth >= 1 && Inner(m, q, r)
    ensures Inner(m, prev, [q] + body + [q] + r)
  {
    var lit := [q] + body + [q];
    InnerQuoted(m.(quote := Some(q)), q, q, body);
    assert lit[0] == q && lit[1..] == body + [q];
    ScanLiteral(m, prev, q, body);
    InnerTwo(m, prev, lit, r);
  }

  lemma InnerGroupNode(m: Mode, prev: char, s: string, r: string)
    requires m.quote.None? && m.depth >= 1
    requires Inner(m.(depth := m.depth + 1), '(', s) && Keeps(m.(depth := m.depth + 1), '(', s)
    requires Inner(m, ')', r)
    ensures Inner(m, prev, "(" + s + ")" + r)
  {
    InnerParens(m, prev, s);
    ScanGroup(m, prev, s);
    InnerTwo(m, prev, "(" + s + ")", r);
  }

  lemma InnerCallNode(k: Target, m: Mode, prev: char, h: string, s: string, r: string)
    requires IsName(k.name) && IsHead(k.name, h) && m.quote.None? && m.depth >= 1
    requires Inner(m.(depth := m.depth + 1), '(', s) && Keeps(m.(depth := m.depth + 1), '(', s)
    requires Inner(m, ')', r)
    ensures Inner(m, prev, h + "(" + s + ")" + r)
  {
    HeadFlat(k.name, h);
    InnerFlat(m, prev, h);
    ScanHead(m, prev, k, h);
    InnerGroupNode(m, LastOr(prev, h), s, r);
    InnerTwo(m, prev, h, "(" + s + ")" + r);
    assert h + "(" + s + ")" + r == h + ("(" + s + ")" + r);
  }

  lemma {:induction false} InnerPrint(k: Target, t: Sql, pre: string, m: Mode, prev: char)
    requires IsName(k.name) && Wf(k, t, pre) && m.quote.None? && m.depth >= 1
    ensures Inner(m, prev, Print(t))
    decreases t
  {
    var deeper := m.(depth := m.depth + 1);
    match t
    case End =>
    case Ch(c, r) =>
      InnerPrint(k, r, pre + [c], m, c);
      assert ([c] + Print(r))[1..] == Print(r);
    case Lit(q, body, r) =>
      InnerPrint(k, r, [], m, q);
      InnerLitNode(m, prev, q, body, Print(r));
    case Paren(i, r) =>
      InnerPrint(k, i, [], deeper, '(');
      ScanPrint(k, i, [], deeper, '(');
      InnerPrint(k, r, [], m, ')');
      InnerGroupNode(m, prev, Print(i), Print(r));
    case Call(h, args, r) =>
      InnerPrintArgs(k, args, deeper, '(');
      ScanPrintArgs(k, args, deeper, '(');
      InnerPrint(k, r, [], m, ')');
      InnerCallNode(k, m, prev, h, PrintArgs(args), Print(r));
  }

  lemma HeadFlat(name: string, h: string)
    requires IsName(name) && IsHead(name, h)
    ensures '(' !in h && ')' !in h
  {
    NameChars(h[..|name|], name);
    assert h == h[..|name|] + h[|name|..];
  }

  lemma {:induction false} InnerPrintArgs(k: Target, args: Args, m: Mode, prev: char)
    requires IsName(k.name) && WfArgs(k, args) && m.quote.None? && m.depth >= 1
    ensures Inner(m, prev, PrintArgs(args))
    decreases args
  {
    InnerPrint(k, args.arg, [], m, prev);
    if args.More? {
      var a, b := Print(args.arg), PrintArgs(args.others);
      ScanPrint(k, args.arg, [], m, prev);
      InnerPrintArgs(k, args.others, m, ',');
      assert PrintArgs(args) == a + ("," + b);
      assert ("," + b)[0] == ',' && ("," + b)[1..] == b;
      InnerConcat(m, prev, a, "," + b);
    }
  }

  /** From just past the opening parenthesis the loop stops just past the matching one. */
  lemma CloseOfArgs(k: Target, args: Args, text: string, i: nat)
    requires IsName(k.name) && WfArgs(k, args)
    requires 1 <= i && i + |PrintArgs(args)| < |text|
    requires text[i..i + |PrintArgs(args)|] == PrintArgs(args) && text[i + |PrintArgs(args)|] == ')'
    ensures Close(text, i, Mode(1, None)) == i + |PrintArgs(args)| + 1
  {
    var s := PrintArgs(args);
    InnerPrintArgs(k, args, Mode(1, None), text[i - 1]);
    CloseSkips(text, i, Mode(1, None), s);
    ScanPrintArgs(k, args, Mode(1, None), text[i - 1]);
  }
}

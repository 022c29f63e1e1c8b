/**
 Which texts are the texts of trees: exactly those whose parentheses and quotes close and whose
 literals do not look like calls. Everything proved of printed trees thus holds of such texts.
 */
module BalancedText {
  import opened Text
  import opened CallSearch
  import opened SqlTree
  import opened CallTemplates
  import opened CallRewriter

  /** The position of the quote that ends a literal; `prev` is the character to the left of `s`. */
  function LiteralEnd(q: char, prev: char, s: string): (r: Option<nat>)
    ensures r.Some? ==> r.value < |s|
    decreases s
  {
    if s == [] then None
    else if s[0] == q && prev != '\\' then Some(0)
    else match LiteralEnd(q, s[0], s[1..])
      case None => None
      case Some(n) => Some(n + 1)
  }

  /**
   `s` can be read as part of the text of a tree: `open` says of each open parenthesis whether it belongs
   to a call, and `pre` is the text since the last quote or parenthesis. All quotes and parentheses close
   and no literal holds a call. If the replacement is an argument, which may then meet its surroundings,
   no call announces another one in front of it, and what follows a call keeps apart from it.
   */
  predicate Readable(k: Target, open: seq<bool>, pre: string, s: string)
    decreases |s|
  {
    if s == [] then open == []
    else if IsQuote(s[0]) then
      var e := LiteralEnd(s[0], s[0], s[1..]);
      e.Some? && Quiet(k.name, s[1..][..e.value], 0) && Readable(k, open, [], s[1..][e.value + 1..])
    else if s[0] == '(' then
      && (k.open && Ready(k.name, pre) ==> !Ready(k.name, pre[..HeadStart(k.name, pre)]))
      && Readable(k, open + [Ready(k.name, pre)], [], s[1..])
    else if s[0] == ')' then
      && open != [] && (k.open && open[|open| - 1] ==> KeepsApart(k.name, s[1..]))
      && Readable(k, open[..|open| - 1], [], s[1..])
    else Readable(k, open, pre + [s[0]], s[1..])
  }

  /** What may follow a call whose replacement is an argument: neither a word nor, after blanks, a group or a call. */
  predicate KeepsApart(name: string, z: string) {
    z == [] || z[0] == ')' || (z[0] != '(' && (Reset(z[0]) || (IsSpace(z[0]) && ApartAfterBlank(name, z[1..]))))
  }

  predicate ApartAfterBlank(name: string, z: string) {
    || z == [] || z[0] == ')' || IsQuote(z[0])
    || (IsPlain(z[0]) && IsSpace(z[0]) && ApartAfterBlank(name, z[1..]))
    || (IsPlain(z[0]) && !IsSpace(z[0]) && !(OpensAfter(z) && IsHead(name, Flat(z))))
  }

  /** The stretch before the first quote or parenthesis. */
  function Flat(s: string): (f: string)
    ensures f <= s
    ensures |f| < |s| ==> !IsPlain(s[|f|])
    ensures forall i :: 0 <= i < |f| ==> IsPlain(s[i])
  {
    if s == [] || !IsPlain(s[0]) then [] else [s[0]] + Flat(s[1..])
  }

  predicate OpensAfter(s: string) { |Flat(s)| < |s| && s[|Flat(s)|] == '(' }

  /**
   Parentheses and quotes close, and no literal holds a call of `name`; `depth` parentheses are open in front
   of `s`.
   */
  predicate Balanced(name: string, depth: nat, s: string)
    decreases |s|
  {
    if s == [] then depth == 0
    else if IsQuote(s[0]) then
      var e := LiteralEnd(s[0], s[0], s[1..]);
      e.Some? && Quiet(name, s[1..][..e.value], 0) && Balanced(name, depth, s[1..][e.value + 1..])
    else if s[0] == '(' then Balanced(name, depth + 1, s[1..])
    else if s[0] == ')' then depth > 0 && Balanced(name, depth - 1, s[1..])
    else Balanced(name, depth, s[1..])
  }

  /** For all rules but `str_to_map` readable means balanced. */
  lemma {:induction false} ReadableIsBalanced(k: Target, open: seq<bool>, pre: string, s: string)
    requires !k.open
    ensures Readable(k, open, pre, s) == Balanced(k.name, |open|, s)
    decreases |s|
  {
    hide Quiet, LiteralEnd, Ready;
    if s != [] {
      if IsQuote(s[0]) {
        var e := LiteralEnd(s[0], s[0], s[1..]);
        if e.Some? { ReadableIsBalanced(k, open, [], s[1..][e.value + 1..]); }
      } else if s[0] == '(' {
        ReadableIsBalanced(k, open + [Ready(k.name, pre)], [], s[1..]);
      } else if s[0] == ')' {
        if open != [] { ReadableIsBalanced(k, open[..|open| - 1], [], s[1..]); }
      } else {
        ReadableIsBalanced(k, open, pre + [s[0]], s[1..]);
      }
    }
  }

  // ----- literals -----

  lemma {:induction false} EndIsLiteral(q: char, prev: char, s: string)
    requires LiteralEnd(q, prev, s).Some?
    ensures
      var n := LiteralEnd(q, prev, s).value;
      && s[n] == q && Escaped(q, prev, s[..n])
      && (n > 0 ==> s[n - 1] != '\\') && (n == 0 ==> prev != '\\')
    decreases s
  {
    if !(s[0] == q && prev != '\\') {
      EndIsLiteral(q, s[0], s[1..]);
      var n := LiteralEnd(q, prev, s).value;
      assert s[..n][1..] == s[1..][..n - 1];
    }
  }

  lemma {:induction false} LiteralEnds(q: char, prev: char, body: string, z: string)
    requires Escaped(q, prev, body) && (if body == [] then prev != '\\' else body[|body| - 1] != '\\')
    ensures LiteralEnd(q, prev, body + [q] + z) == Some(|body|)
    decreases body
  {
    var s := body + [q] + z;
    if body != [] {
      assert s[1..] == body[1..] + [q] + z;
      LiteralEnds(q, body[0], body[1..], z);
    }
  }

  // ----- from text to tree -----

  /** A call head that ends at the next parenthesis does not start in `pre`. */
  predicate NothingPending(name: string, pre: string, s: string) {
    OpensAfter(s) && Ready(name, pre + Flat(s)) ==> HeadStart(name, pre + Flat(s)) >= |pre|
  }

  lemma CutAgain(a: string, b: string, c: string, d: string)
    requires a + b == c + d && |a| <= |c|
    ensures b == c[|a|..] + d && a == c[..|a|]
  {
    assert (a + b)[|a|..] == b && (a + b)[..|a|] == a;
    assert (c + d)[|a|..] == c[|a|..] + d && (c + d)[..|a|] == c[..|a|];
  }

  lemma HeadOfReady(name: string, pre: string, f: string)
    requires IsName(name) && Ready(name, pre + f) && HeadStart(name, pre + f) == |pre|
    ensures Bound(pre) && IsHead(name, f)
  {
    var s := pre + f;
    var t := RStrip(s);
    var tail := RStripParts(s);
    CutAgain(pre, f, t, tail);
    assert f[..|name|] == t[|pre|..] && f[|name|..] == tail;
  }

  lemma PendingStep(name: string, pre: string, s: string)
    requires IsName(name) && s != [] && IsPlain(s[0]) && NothingPending(name, pre, s)
    requires !(OpensAfter(s) && Bound(pre) && IsHead(name, Flat(s)))
    ensures NothingPending(name, pre + [s[0]], s[1..])
  {
    hide Ready, HeadStart, IsHead, Bound;
    FlatStep(pre, s);
    var f := pre + Flat(s);
    if OpensAfter(s) && Ready(name, f) && HeadStart(name, f) == |pre| {
      HeadOfReady(name, pre, Flat(s));
    }
  }

  lemma FlatStep(pre: string, s: string)
    requires s != [] && IsPlain(s[0])
    ensures pre + [s[0]] + Flat(s[1..]) == pre + Flat(s) && OpensAfter(s) == OpensAfter(s[1..])
  {
    assert Flat(s) == [s[0]] + Flat(s[1..]);
  }

  lemma PendingNothing(name: string, s: string)
    ensures NothingPending(name, [], s)
  {
  }

  lemma NotReadyHere(name: string, pre: string, s: string)
    requires IsName(name) && s != [] && s[0] == '(' && NothingPending(name, pre, s)
    ensures !Ready(name, pre)
  {
    assert Flat(s) == [] && pre + [] == pre;
    var tail := RStripParts(pre);
    assert |RStrip(pre)| <= |pre|;
  }

  /** A tree for the text up to the parenthesis that closes what is open, or to the end. */
  lemma {:induction false} TreeUpTo(k: Target, open: seq<bool>, s: string, pre: string) returns (t: Sql, n: nat)
    requires IsName(k.name) && Readable(k, open, pre, s) && NothingPending(k.name, pre, s)
    ensures n <= |s| && Print(t) == s[..n] && Wf(k, t, pre) && Readable(k, open, [], s[n..])
    ensures if open == [] then n == |s| else n < |s| && s[n] == ')'
    decreases |s|, 3
  {
    hide Ready, HeadStart, Quiet, IsHead, LiteralEnd, NothingPending, OpensAfter, Print, Wf;
    if s == [] || s[0] == ')' {
      t, n := End, 0;
      NoTree(k, s, pre);
    } else if IsQuote(s[0]) {
      t, n := TreeOfLiteral(k, open, s, pre);
    } else if s[0] == '(' {
      NotReadyHere(k.name, pre, s);
      t, n := TreeOfParen(k, open, s, pre);
    } else if OpensAfter(s) && Bound(pre) && IsHead(k.name, Flat(s)) {
      t, n := TreeOfCall(k, open, s, pre);
    } else {
      PendingStep(k.name, pre, s);
      t, n := TreeOfChar(k, open, s, pre);
    }
  }

  lemma NoTree(k: Target, s: string, pre: string)
    ensures Print(End) == s[..0] && Wf(k, End, pre) && s[0..] == s
  {
  }

  lemma {:induction false} TreeOfChar(k: Target, open: seq<bool>, s: string, pre: string) returns (t: Sql, n: nat)
    requires IsName(k.name) && Readable(k, open, pre, s) && s != [] && IsPlain(s[0])
    requires NothingPending(k.name, pre + [s[0]], s[1..])
    ensures n <= |s| && Print(t) == s[..n] && Wf(k, t, pre) && Readable(k, open, [], s[n..])
    ensures if open == [] then n == |s| else n < |s| && s[n] == ')'
    decreases |s|, 0
  {
    hide NothingPending, LiteralEnd, Quiet;
    var rest, m := TreeUpTo(k, open, s[1..], pre + [s[0]]);
    t, n := Ch(s[0], rest), m + 1;
    assert s[..n] == [s[0]] + s[1..][..m] && s[n..] == s[1..][m..];
  }

  lemma {:induction false} TreeOfParen(k: Target, open: seq<bool>, s: string, pre: string) returns (t: Sql, n: nat)
    requires IsName(k.name) && Readable(k, open, pre, s) && s != [] && s[0] == '(' && !Ready(k.name, pre)
    ensures n <= |s| && Print(t) == s[..n] && Wf(k, t, pre) && Readable(k, open, [], s[n..])
    ensures if open == [] then n == |s| else n < |s| && s[n] == ')'
    decreases |s|, 0
  {
    hide Ready, LiteralEnd, Quiet;
    var inner, m, rest, r := TreeOfGroup(k, open, false, s[1..]);
    t, n := Paren(inner, rest), m + 2 + r;
    GroupText(s, m, r);
  }

  lemma {:induction false} TreeOfLiteral(k: Target, open: seq<bool>, s: string, pre: string) returns (t: Sql, n: nat)
    requires IsName(k.name) && Readable(k, open, pre, s) && s != [] && IsQuote(s[0])
    ensures n <= |s| && Print(t) == s[..n] && Wf(k, t, pre) && Readable(k, open, [], s[n..])
    ensures if open == [] then n == |s| else n < |s| && s[n] == ')'
    decreases |s|, 0
  {
    hide Quiet, NothingPending, LiteralEnd, IsLiteral, Escaped;
    var e, body, z := LiteralCut(k, open, pre, s);
    hide Readable;
    PendingNothing(k.name, z);
    var rest, m := TreeUpTo(k, open, z, []);
    t, n := Lit(s[0], body, rest), e + 2 + m;
    LiteralText(s, s[0], body, z, m);
  }

  lemma LiteralCut(k: Target, open: seq<bool>, pre: string, s: string) returns (e: nat, body: string, z: string)
    requires Readable(k, open, pre, s) && s != [] && IsQuote(s[0])
    ensures s == [s[0]] + body + [s[0]] + z && |body| == e && IsLiteral(s[0], body) && Quiet(k.name, body, 0)
    ensures Readable(k, open, [], z) && |z| < |s|
  {
    hide Quiet;
    e := LiteralEnd(s[0], s[0], s[1..]).value;
    EndIsLiteral(s[0], s[0], s[1..]);
    body, z := s[1..][..e], s[1..][e + 1..];
    assert e > 0 ==> body[e - 1] == s[1..][e - 1];
  }

  lemma LiteralText(s: string, q: char, body: string, z: string, m: nat)
    requires s == [q] + body + [q] + z && m <= |z|
    ensures
      var n := |body| + 2 + m;
      && n <= |s| && s[..n] == [q] + body + [q] + z[..m] && s[n..] == z[m..]
      && (m < |z| ==> n < |s| && s[n] == z[m]) && (m == |z| ==> n == |s|)
  {
  }

  /** After an opening parenthesis: the tree inside, and the tree of what follows the closing one. */
  lemma {:induction false} TreeOfGroup(k: Target, open: seq<bool>, call: bool, s: string)
    returns (inner: Sql, m: nat, rest: Sql, r: nat)
    requires IsName(k.name) && Readable(k, open + [call], [], s)
    ensures m < |s| && s[m] == ')' && Print(inner) == s[..m] && Wf(k, inner, [])
    ensures
      var z := s[m + 1..];
      && r <= |z| && Print(rest) == z[..r] && Wf(k, rest, []) && Readable(k, open, [], z[r..])
      && (k.open && call ==> KeepsApart(k.name, z))
      && if open == [] then r == |z| else r < |z| && z[r] == ')'
    decreases |s|, 4
  {
    hide Wf, NothingPending, Quiet, LiteralEnd, Ready, HeadStart, KeepsApart;
    PendingNothing(k.name, s);
    inner, m := TreeUpTo(k, open + [call], s, []);
    var z := s[m + 1..];
    assert s[m..][1..] == z && s[m..][0] == ')';
    assert (open + [call])[..|open|] == open;
    PendingNothing(k.name, z);
    rest, r := TreeUpTo(k, open, z, []);
  }

  lemma GroupText(s: string, m: nat, r: nat)
    requires s != [] && s[0] == '(' && m < |s[1..]| && s[1..][m] == ')' && r <= |s[1..][m + 1..]|
    ensures
      var z := s[1..][m + 1..];
      && m + 2 + r <= |s| && s[..m + 2 + r] == "(" + s[1..][..m] + ")" + z[..r] && s[m + 2 + r..] == z[r..]
      && (m + 2 + r < |s| <==> r < |z|) && (r < |z| ==> s[m + 2 + r] == z[r])
  {
  }

  lemma {:induction false} TreeOfCall(k: Target, open: seq<bool>, s: string, pre: string) returns (t: Sql, n: nat)
    requires IsName(k.name) && Readable(k, open, pre, s)
    requires OpensAfter(s) && Bound(pre) && IsHead(k.name, Flat(s)) && Flat(s) != []
    ensures n <= |s| && Print(t) == s[..n] && Wf(k, t, pre) && Readable(k, open, [], s[n..])
    ensures if open == [] then n == |s| else n < |s| && s[n] == ')'
    decreases |s|, 0
  {
    hide IsHead, Quiet, LiteralEnd, Wf, WfArgs, Print, PrintArgs, Bound, Readable, IsName, Ready, HeadStart, KeepsApart,
      Follows;
    var f := Flat(s);
    var g := s[|f|..];
    AfterHead(k, open, pre, s);
    hide Flat, OpensAfter;
    var inner, m, rest, r := TreeOfGroup(k, open, true, g[1..]);
    var args := SplitTree(k, inner, []);
    t, n := Call(f, args, rest), |f| + (m + 2 + r);
    var z := g[1..][m + 1..];
    if k.open {
      assert Print(rest) + z[r..] == z;
      ApartIsFollows(k, rest, [], z[r..]);
    }
    CallNode(k, f, args, rest, pre);
    CallSpan(s, f, m, r);
  }

  lemma CallSpan(s: string, f: string, m: nat, r: nat)
    requires f <= s && |f| < |s| && s[|f|] == '('
    requires
      var g := s[|f|..];
      m < |g[1..]| && g[1..][m] == ')' && r <= |g[1..][m + 1..]|
    ensures
      var g, n := s[|f|..], |f| + (m + 2 + r);
      var z := g[1..][m + 1..];
      && n <= |s| && s[..n] == f + ("(" + g[1..][..m] + ")" + z[..r]) && s[n..] == z[r..]
      && (r < |z| ==> n < |s| && s[n] == z[r]) && (r == |z| ==> n == |s|)
  {
    var g := s[|f|..];
    GroupText(g, m, r);
    HeadText(s, f, g, m + 2 + r);
  }

  lemma AfterHead(k: Target, open: seq<bool>, pre: string, s: string)
    requires IsName(k.name) && Readable(k, open, pre, s) && OpensAfter(s) && Bound(pre) && IsHead(k.name, Flat(s))
    ensures
      var g := s[|Flat(s)|..];
      g != [] && g[0] == '(' && Readable(k, open + [true], [], g[1..]) && (k.open ==> !Ready(k.name, pre))
  {
    var f := Flat(s);
    assert s == f + s[|f|..];
    ReadablePlain(k, open, pre, f, s[|f|..]);
    HeadReady(k.name, pre, f);
    assert (pre + f)[..|pre|] == pre;
    hide Quiet, LiteralEnd, Ready, HeadStart, Flat, IsHead;
  }

  lemma CallNode(k: Target, h: string, args: Args, rest: Sql, pre: string)
    requires IsHead(k.name, h) && Bound(pre) && WfArgs(k, args) && Wf(k, rest, [])
    requires k.open ==> !Ready(k.name, pre) && Follows(rest)
    ensures Wf(k, Call(h, args, rest), pre)
    ensures Print(Call(h, args, rest)) == h + ("(" + PrintArgs(args) + ")" + Print(rest))
  {
    var a, b := PrintArgs(args), Print(rest);
    assert h + "(" + a + ")" + b == h + ("(" + a + ")" + b);
  }

  lemma HeadText(s: string, f: string, g: string, j: nat)
    requires f <= s && g == s[|f|..] && j <= |g|
    ensures s[..|f| + j] == f + g[..j] && s[|f| + j..] == g[j..] && |s| == |f| + |g|
    ensures j < |g| ==> s[|f| + j] == g[j]
  {
  }

  // ----- what follows a call -----

  /** A tree that starts with a call prints a head and a parenthesis. */
  lemma CallFlat(k: Target, h: string, z: string)
    requires IsName(k.name) && IsHead(k.name, h)
    ensures Flat(h + "(" + z) == h && OpensAfter(h + "(" + z)
  {
    HeadPlain(k.name, h);
    FlatOf(h, z);
  }

  lemma {:induction false} FlatOf(h: string, z: string)
    requires forall i :: 0 <= i < |h| ==> IsPlain(h[i])
    ensures Flat(h + "(" + z) == h
    decreases h
  {
    var s := h + "(" + z;
    if h != [] {
      assert s[1..] == h[1..] + "(" + z;
      FlatOf(h[1..], z);
    }
  }

  lemma HeadStarts(name: string, h: string)
    requires IsName(name) && IsHead(name, h)
    ensures h != [] && IsWord(h[0]) && !IsSpace(h[0]) && IsPlain(h[0])
  {
    HeadPlain(name, h);
    NameChars(h[..|name|], name);
    assert h[..|name|][0] == h[0];
  }

  /** The first character of the text tells the first node of the tree. */
  lemma FirstNode(k: Target, t: Sql, pre: string, w: string)
    requires IsName(k.name) && Wf(k, t, pre) && (w == [] || w[0] == ')')
    ensures
      var z := Print(t) + w;
      && (t.End? <==> z == [] || z[0] == ')')
      && (t.Lit? <==> z != [] && IsQuote(z[0]))
      && (t.Paren? <==> z != [] && z[0] == '(')
      && (t.Ch? ==> z[0] == t.c && z[1..] == Print(t.rest) + w && IsPlain(t.c))
      && (t.Call? ==> IsPlain(z[0]) && IsWord(z[0]) && !IsSpace(z[0]) && OpensAfter(z) && IsHead(k.name, Flat(z)))
  {
    hide IsHead, Ready, Quiet;
    if t.Call? {
      HeadStarts(k.name, t.head);
      var more := PrintArgs(t.args) + ")" + Print(t.rest) + w;
      assert Print(t) + w == t.head + "(" + more;
      CallFlat(k, t.head, more);
    }
  }

  lemma {:induction false} ApartIsFollowsBlank(k: Target, t: Sql, pre: string, w: string)
    requires IsName(k.name) && Wf(k, t, pre) && (w == [] || w[0] == ')') && pre != [] && IsSpace(pre[|pre| - 1])
    ensures ApartAfterBlank(k.name, Print(t) + w) <==> FollowsBlank(t)
    decreases t
  {
    FirstNode(k, t, pre, w);
    hide Print, OpensAfter, IsHead, Flat;
    if t.Ch? {
      if IsSpace(t.c) {
        ApartIsFollowsBlank(k, t.rest, pre + [t.c], w);
      } else if OpensAfter(Print(t) + w) && IsHead(k.name, Flat(Print(t) + w)) {
        NoHeadAt(k, t, pre, w);
      }
    }
  }

  /** The stretch before a parenthesis either announces no match or ends in the head of a call. */
  lemma {:induction false} RunEnds(k: Target, t: Sql, pre: string, w: string) returns (o: nat)
    requires IsName(k.name) && Wf(k, t, pre) && (w == [] || w[0] == ')') && OpensAfter(Print(t) + w)
    ensures
      var f := Flat(Print(t) + w);
      o <= |f| && (!Ready(k.name, pre + f) || (IsHead(k.name, f[o..]) && (o == 0 ==> t.Call?)))
    decreases t
  {
    hide Ready, IsHead, Quiet;
    FirstNode(k, t, pre, w);
    var z := Print(t) + w;
    o := 0;
    if t.Paren? {
      assert pre + [] == pre;
    } else if t.Call? {
      assert Flat(z)[0..] == Flat(z);
    } else if t.Ch? {
      FlatStep(pre, z);
      hide Print;
      var o' := RunEnds(k, t.rest, pre + [t.c], w);
      o := o' + 1;
      assert Flat(z) == [z[0]] + Flat(z[1..]);
      assert Flat(z)[o..] == Flat(z[1..])[o'..];
    }
  }

  lemma HeadInHead(name: string, f: string, o: nat)
    requires IsName(name) && IsHead(name, f) && o <= |f| && IsHead(name, f[o..])
    ensures o == 0
  {
    var h := f[o..];
    NameChars(h[..|name|], name);
    var last := h[..|name|][|name| - 1];
    assert last == f[o + |name| - 1] && !IsSpace(last);
    forall j | |name| <= j < |f|
      ensures IsSpace(f[j])
    {
      assert f[|name|..][j - |name|] == f[j];
    }
  }

  /** A head in front of a parenthesis, where a name may start, is a call of the tree. */
  lemma NoHeadAt(k: Target, t: Sql, pre: string, w: string)
    requires IsName(k.name) && Wf(k, t, pre) && (w == [] || w[0] == ')') && Bound(pre)
    requires OpensAfter(Print(t) + w) && IsHead(k.name, Flat(Print(t) + w))
    ensures t.Call?
  {
    hide Print, Wf;
    var f := Flat(Print(t) + w);
    HeadReady(k.name, pre, f);
    var o := RunEnds(k, t, pre, w);
    HeadInHead(k.name, f, o);
  }

  lemma ApartIsFollows(k: Target, t: Sql, pre: string, w: string)
    requires IsName(k.name) && Wf(k, t, pre) && (w == [] || w[0] == ')')
    ensures KeepsApart(k.name, Print(t) + w) <==> Follows(t)
  {
    FirstNode(k, t, pre, w);
    hide Print, OpensAfter, IsHead, Flat, ApartAfterBlank, FollowsBlank;
    if t.Ch? && IsSpace(t.c) { ApartIsFollowsBlank(k, t.rest, pre + [t.c], w); }
  }

  /** Any well-formed run is an argument list, cut at its own commas. */
  lemma {:induction false} SplitTree(k: Target, t: Sql, pre: string) returns (args: Args)
    requires IsName(k.name) && Wf(k, t, pre)
    ensures PrintArgs(args) == Print(t) && Wf(k, args.arg, pre) && NoTopComma(args.arg)
    ensures (Follows(t) ==> Follows(args.arg)) && (FollowsBlank(t) ==> FollowsBlank(args.arg))
    ensures args.More? ==> WfArgs(k, args.others)
    ensures pre == [] ==> WfArgs(k, args)
    decreases t
  {
    hide Ready, Quiet, IsHead, IsLiteral, Print, PrintArgs, WfArgs;
    match t {
    case End =>
      args := Last(End);
      LastPrints(End);
    case Ch(c, r) =>
      if c == ',' {
        WfReset(k, r, pre, c);
        var more := SplitTree(k, r, []);
        args := More(End, more);
        CommaPrints(more, r);
      } else {
        var more := SplitTree(k, r, pre + [c]);
        args := more.(arg := Ch(c, more.arg));
        FrontChar(more, c, r);
      }
    case Lit(q, body, r) =>
      var more := SplitTree(k, r, []);
      args := more.(arg := Lit(q, body, more.arg));
      FrontLit(more, q, body, r);
    case Paren(inner, r) =>
      var more := SplitTree(k, r, []);
      args := more.(arg := Paren(inner, more.arg));
      FrontParen(more, inner, r);
    case Call(h, xs, r) =>
      var more := SplitTree(k, r, []);
      args := more.(arg := Call(h, xs, more.arg));
      FrontCall(more, h, xs, r);
    }
    ArgsOk(k, args);
  }

  lemma ArgsOk(k: Target, args: Args)
    ensures Wf(k, args.arg, []) && NoTopComma(args.arg) && (args.More? ==> WfArgs(k, args.others)) ==> WfArgs(k, args)
  {
    hide Wf, NoTopComma;
  }

  lemma LastPrints(t: Sql)
    ensures PrintArgs(Last(t)) == Print(t)
  {
  }

  lemma CommaPrints(more: Args, r: Sql)
    requires PrintArgs(more) == Print(r)
    ensures PrintArgs(More(End, more)) == Print(Ch(',', r))
  {
    assert [] + "," == [','];
  }

  /** Text put in front of the first argument stands in front of the list. */
  lemma PutFront(args: Args, x: Sql, h: string)
    requires Print(x) == h + Print(args.arg)
    ensures PrintArgs(args.(arg := x)) == h + PrintArgs(args)
  {
    hide Print;
    if args.More? {
      assert h + Print(args.arg) + "," + PrintArgs(args.others) == h + (Print(args.arg) + "," + PrintArgs(args.others));
    }
  }

  lemma FrontChar(more: Args, c: char, r: Sql)
    requires PrintArgs(more) == Print(r)
    ensures PrintArgs(more.(arg := Ch(c, more.arg))) == Print(Ch(c, r))
  {
    PutFront(more, Ch(c, more.arg), [c]);
  }

  lemma FrontLit(more: Args, q: char, body: string, r: Sql)
    requires PrintArgs(more) == Print(r)
    ensures PrintArgs(more.(arg := Lit(q, body, more.arg))) == Print(Lit(q, body, r))
  {
    PutFront(more, Lit(q, body, more.arg), [q] + body + [q]);
  }

  lemma FrontParen(more: Args, inner: Sql, r: Sql)
    requires PrintArgs(more) == Print(r)
    ensures PrintArgs(more.(arg := Paren(inner, more.arg))) == Print(Paren(inner, r))
  {
    PutFront(more, Paren(inner, more.arg), "(" + Print(inner) + ")");
  }

  lemma FrontCall(more: Args, h: string, xs: Args, r: Sql)
    requires PrintArgs(more) == Print(r)
    ensures PrintArgs(more.(arg := Call(h, xs, more.arg))) == Print(Call(h, xs, r))
  {
    PutFront(more, Call(h, xs, more.arg), h + "(" + PrintArgs(xs) + ")");
  }

  // ----- from tree to text -----

  lemma {:induction false} ReadablePlain(k: Target, open: seq<bool>, pre: string, f: string, z: string)
    requires forall i :: 0 <= i < |f| ==> IsPlain(f[i])
    ensures Readable(k, open, pre, f + z) == Readable(k, open, pre + f, z)
    decreases |f|
  {
    hide Quiet, Ready, HeadStart, KeepsApart, LiteralEnd;
    if f == [] {
      assert f + z == z && pre + f == pre;
    } else {
      assert (f + z)[1..] == f[1..] + z && pre + [f[0]] + f[1..] == pre + f;
      ReadablePlain(k, open, pre + [f[0]], f[1..], z);
    }
  }

  lemma HeadPlain(name: string, h: string)
    requires IsName(name) && IsHead(name, h)
    ensures forall i :: 0 <= i < |h| ==> IsPlain(h[i])
  {
    NameChars(h[..|name|], name);
    forall i | 0 <= i < |h|
      ensures IsPlain(h[i])
    {
      if i < |name| {
        assert h[..|name|][i] == h[i];
        assert Fold(h[i]) == name[i];
      } else {
        assert h[|name|..][i - |name|] == h[i];
      }
    }
  }

  lemma ReadableLiteral(k: Target, open: seq<bool>, pre: string, q: char, body: string, z: string)
    requires IsLiteral(q, body) && Quiet(k.name, body, 0) && Readable(k, open, [], z)
    ensures Readable(k, open, pre, [q] + body + [q] + z)
  {
    hide Quiet, Ready, HeadStart;
    var s := [q] + body + [q] + z;
    LiteralEnds(q, q, body, z);
    assert s[1..] == body + [q] + z;
    assert s[1..][..|body|] == body && s[1..][|body| + 1..] == z;
  }

  lemma ReadableGroup(k: Target, open: seq<bool>, pre: string, inside: string, z: string)
    requires k.open && Ready(k.name, pre) ==> !Ready(k.name, pre[..HeadStart(k.name, pre)])
    requires Readable(k, open + [Ready(k.name, pre)], [], inside + (")" + z))
    ensures Readable(k, open, pre, "(" + inside + ")" + z)
  {
    hide Quiet, LiteralEnd, Ready, HeadStart;
    var s := "(" + inside + ")" + z;
    assert s[1..] == inside + (")" + z);
  }

  lemma ReadableClose(k: Target, open: seq<bool>, call: bool, z: string)
    requires Readable(k, open, [], z) && (k.open && call ==> KeepsApart(k.name, z))
    ensures Readable(k, open + [call], [], ")" + z)
  {
    hide Quiet, LiteralEnd, Ready, HeadStart, KeepsApart;
    assert (")" + z)[1..] == z;
    assert (open + [call])[..|open|] == open;
  }

  /** At the end of a run the text before it does not matter. */
  lemma ReadableEnd(k: Target, open: seq<bool>, pre: string, z: string)
    requires Readable(k, open, [], z) && (z == [] || z[0] == ')')
    ensures Readable(k, open, pre, z)
  {
  }

  /** The text of a tree is readable in front of readable text that ends its run. */
  lemma {:induction false} PrintReadable(k: Target, t: Sql, pre: string, open: seq<bool>, z: string)
    requires IsName(k.name) && Wf(k, t, pre) && Readable(k, open, [], z) && (z == [] || z[0] == ')')
    ensures Readable(k, open, pre, Print(t) + z)
    decreases Size(t)
  {
    hide Readable, Quiet, Ready, IsHead, IsLiteral, Follows, KeepsApart, HeadStart, Bound;
    match t
    case End =>
      assert [] + z == z;
      ReadableEnd(k, open, pre, z);
    case Ch(c, r) =>
      PrintReadable(k, r, pre + [c], open, z);
      ReadablePlain(k, open, pre, [c], Print(r) + z);
      assert [c] + Print(r) + z == [c] + (Print(r) + z);
    case Lit(q, body, r) =>
      PrintReadable(k, r, [], open, z);
      ReadableLiteral(k, open, pre, q, body, Print(r) + z);
      assert [q] + body + [q] + Print(r) + z == [q] + body + [q] + (Print(r) + z);
    case Paren(inner, r) =>
      PrintReadable(k, r, [], open, z);
      ReadableClose(k, open, false, Print(r) + z);
      PrintReadable(k, inner, [], open + [false], ")" + (Print(r) + z));
      ReadableGroup(k, open, pre, Print(inner), Print(r) + z);
      GroupAssoc(Print(inner), Print(r), z);
    case Call(h, args, r) =>
      PrintReadable(k, r, [], open, z);
      if k.open { ApartIsFollows(k, r, [], z); }
      ReadableClose(k, open, true, Print(r) + z);
      JoinArgsOk(k, args);
      PrintReadable(k, JoinArgs(args), [], open + [true], ")" + (Print(r) + z));
      ReadableCall(k, open, pre, h, PrintArgs(args), Print(r) + z);
      CallAssoc(h, PrintArgs(args), Print(r), z);
  }

  lemma ReadableCall(k: Target, open: seq<bool>, pre: string, h: string, inside: string, z: string)
    requires IsName(k.name) && IsHead(k.name, h) && Bound(pre) && (k.open ==> !Ready(k.name, pre))
    requires Readable(k, open + [true], [], inside + (")" + z))
    ensures Readable(k, open, pre, h + ("(" + inside + ")" + z))
  {
    HeadReady(k.name, pre, h);
    HeadPlain(k.name, h);
    assert (pre + h)[..|pre|] == pre;
    hide Ready, HeadStart, Readable, IsHead, Bound;
    ReadableGroup(k, open, pre + h, inside, z);
    ReadablePlain(k, open, pre, h, "(" + inside + ")" + z);
  }

  /** The arguments of a call as one run, commas included. */
  function JoinArgs(args: Args): (t: Sql)
    ensures Size(t) < SizeArgs(args)
  {
    match args
    case Last(a) => a
    case More(a, others) =>
      SizeAppend(a, Ch(',', JoinArgs(others)));
      Append(a, Ch(',', JoinArgs(others)))
  }

  lemma {:induction false} SizeAppend(t: Sql, u: Sql)
    ensures Size(Append(t, u)) == Size(t) + Size(u)
    decreases t
  {
    match t
    case End =>
    case Ch(_, r) => SizeAppend(r, u);
    case Lit(_, _, r) => SizeAppend(r, u);
    case Paren(_, r) => SizeAppend(r, u);
    case Call(_, _, r) => SizeAppend(r, u);
  }

  lemma {:induction false} WfBeforeComma(k: Target, t: Sql, u: Sql, pre: string)
    requires IsName(k.name) && Wf(k, t, pre) && Wf(k, u, [])
    ensures Wf(k, Append(t, Ch(',', u)), pre)
    ensures Follows(t) ==> Follows(Append(t, Ch(',', u)))
    ensures FollowsBlank(t) ==> FollowsBlank(Append(t, Ch(',', u)))
    decreases t
  {
    hide Ready, Quiet, IsHead, IsLiteral;
    match t
    case End => WfReset(k, u, pre, ',');
    case Ch(c, r) => WfBeforeComma(k, r, u, pre + [c]);
    case Lit(q, body, r) => WfBeforeComma(k, r, u, []);
    case Paren(inner, r) => WfBeforeComma(k, r, u, []);
    case Call(h, args, r) => WfBeforeComma(k, r, u, []);
  }

  lemma {:induction false} JoinArgsOk(k: Target, args: Args)
    requires IsName(k.name) && WfArgs(k, args)
    ensures Wf(k, JoinArgs(args), []) && Print(JoinArgs(args)) == PrintArgs(args)
    decreases args
  {
    hide Wf;
    if args.More? {
      var u := JoinArgs(args.others);
      JoinArgsOk(k, args.others);
      WfBeforeComma(k, args.arg, u, []);
      PrintAppend(args.arg, Ch(',', u));
      assert Print(args.arg) + ([','] + Print(u)) == Print(args.arg) + "," + Print(u);
    }
  }

  lemma GroupAssoc(a: string, b: string, z: string)
    ensures "(" + a + ")" + b + z == "(" + a + ")" + (b + z)
  {
  }

  lemma CallAssoc(h: string, a: string, b: string, z: string)
    ensures h + "(" + a + ")" + b + z == h + ("(" + a + ")" + (b + z))
  {
  }

  // ----- both directions -----

  ghost predicate HasTree(k: Target, s: string) { exists t :: Wf(k, t, []) && Print(t) == s }

  /** The texts of trees are exactly the readable texts, for every rule. */
  lemma TreesAreReadableTexts(k: Target, s: string)
    requires IsName(k.name)
    ensures HasTree(k, s) <==> Readable(k, [], [], s)
  {
    hide Wf, Print, Readable;
    if HasTree(k, s) {
      var t :| Wf(k, t, []) && Print(t) == s;
      EmptyReadable(k);
      PrintReadable(k, t, [], [], []);
      assert s + [] == s;
    }
    if Readable(k, [], [], s) {
      PendingNothing(k.name, s);
      var t, n := TreeUpTo(k, [], s, []);
      assert s[..n] == s;
    }
  }

  lemma EmptyReadable(k: Target)
    ensures Readable(k, [], [], [])
  {
  }

  /** For every rule but `str_to_map` the texts of trees are exactly the balanced texts. */
  lemma TreesAreBalancedTexts(k: Target, s: string)
    requires IsName(k.name) && !k.open
    ensures HasTree(k, s) <==> Balanced(k.name, 0, s)
  {
    TreesAreReadableTexts(k, s);
    ReadableIsBalanced(k, [], [], s);
  }

  /** Which tree is read into a text does not matter: result, failure and number of rounds depend on the text alone. */
  lemma {:induction false} TreesAgree(rule: Rule, t: Sql, u: Sql)
    requires Wf(TargetOf(rule), t, []) && Wf(TargetOf(rule), u, []) && Print(t) == Print(u)
    ensures Fails(rule, t) == Fails(rule, u)
    ensures !Fails(rule, t) ==> Print(Full(rule, t)) == Print(Full(rule, u)) && Weight(rule, t) == Weight(rule, u)
    decreases Weight(rule, t)
  {
    hide RoundOf, Full, Weight, Fails, Print, Wf, Replace, FirstCall, ArgList, TemplateOf, TargetOf, HasCall;
    RoundSimulates(rule, t);
    RoundSimulates(rule, u);
    if !HasCall(t) {
      NoCallNoChange(rule, t);
      NoCallNoChange(rule, u);
    } else if RoundOf(rule, Print(t)).Raised? {
      FirstCallFails(rule, t);
      FirstCallFails(rule, u);
    } else {
      ReplaceKeeps(rule, t, []);
      ReplaceKeeps(rule, u, []);
      TreesAgree(rule, Replace(rule, t), Replace(rule, u));
    }
  }

  /**
   `_rewrite_calls` on any readable text: it stops, and the result is the structural rewriting of any tree of
   the text.
   */
  method RewriteReadable(sql: string, rule: Rule) returns (r: Result<string>)
    requires Readable(TargetOf(rule), [], [], sql)
    ensures HasTree(TargetOf(rule), sql)
    ensures forall tree :: Wf(TargetOf(rule), tree, []) && Print(tree) == sql ==>
      r == if Fails(rule, tree) then IndexError else Ok(Print(Full(rule, tree)))
  {
    TreesAreReadableTexts(TargetOf(rule), sql);
    hide Wf, Print, Readable, Fails, Full, Weight;
    ghost var tree :| Wf(TargetOf(rule), tree, []) && Print(tree) == sql;
    ghost var rounds;
    r, rounds := RewriteCalls(sql, rule, tree);
    forall u | Wf(TargetOf(rule), u, []) && Print(u) == sql
      ensures r == if Fails(rule, u) then IndexError else Ok(Print(Full(rule, u)))
    {
      TreesAgree(rule, tree, u);
    }
  }
}

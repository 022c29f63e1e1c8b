/**
 The search `re.compile(rf"\b{name}\s*\(", re.IGNORECASE).search(sql, start)` and a second
 reading of it: a match ends at exactly those opening parentheses whose left context is a
 bounded occurrence of the name followed by blanks.
 */
module CallSearch {
  import opened Text

  /** Case folding under `re.IGNORECASE`, for the characters that can meet an ASCII name. */
  function Fold(c: char): char {
    if 'A' <= c <= 'Z' then ((c as int) + 32) as char
    else if c == '\U{0130}' || c == '\U{0131}' then 'i'
    else if c == '\U{017F}' then 's'
    else if c == '\U{212A}' then 'k'
    else c
  }

  predicate SameName(s: string, name: string) {
    |s| == |name| && forall i :: 0 <= i < |s| ==> Fold(s[i]) == name[i]
  }

  /** The searched names are lower-case identifiers. */
  predicate IsName(name: string) {
    name != [] && forall i :: 0 <= i < |name| ==> 'a' <= name[i] <= 'z' || name[i] == '_'
  }

  predicate AtBoundary(text: string, i: nat)
    requires i <= |text|
  {
    i == 0 || !IsWord(text[i - 1])
  }

  function SkipBlanks(text: string, i: nat): (e: nat)
    requires i <= |text|
    ensures i <= e <= |text|
    decreases |text| - i
  {
    if i < |text| && IsSpace(text[i]) then SkipBlanks(text, i + 1) else i
  }

  /** The end of the match that starts at `i`, if there is one. */
  function MatchEnd(text: string, name: string, i: nat): (r: Option<nat>)
    requires i <= |text|
    ensures r.Some? ==> i + |name| < r.value <= |text| && text[r.value - 1] == '('
  {
    if AtBoundary(text, i) && i + |name| <= |text| && SameName(text[i..i + |name|], name) then
      var e := SkipBlanks(text, i + |name|);
      if e < |text| && text[e] == '(' then Some(e + 1) else None
    else None
  }

  datatype Match = Match(start: nat, end: nat)

  /** The leftmost match at or after `from`. */
  function Search(text: string, name: string, from: nat): (r: Option<Match>)
    requires from <= |text|
    ensures r.Some? ==> from <= r.value.start && r.value.start + |name| < r.value.end <= |text|
    decreases |text| - from
  {
    match MatchEnd(text, name, from)
    case Some(e) => Some(Match(from, e))
    case None => if from == |text| then None else Search(text, name, from + 1)
  }

  /** `s` ends with a bounded occurrence of the name and blanks: an opening parenthesis now matches. */
  predicate Ready(name: string, s: string) {
    var t := RStrip(s);
    && |name| <= |t|
    && SameName(t[|t| - |name|..], name)
    && AtBoundary(t, |t| - |name|)
  }

  /** Where the match that `Ready` announces starts. */
  function HeadStart(name: string, s: string): nat
    requires Ready(name, s)
  {
    |RStrip(s)| - |name|
  }

  /** No match that ends in `s` at or after position `from`. */
  predicate Quiet(name: string, s: string, from: nat) {
    forall q :: from <= q < |s| && s[q] == '(' ==> !Ready(name, s[..q])
  }

  // ----- characters of a name -----

  lemma NameChar(c: char, n: char)
    requires Fold(c) == n && ('a' <= n <= 'z' || n == '_')
    ensures IsWord(c) && !IsSpace(c) && c != '(' && c != ')'
  {
  }

  lemma NameChars(s: string, name: string)
    requires IsName(name) && SameName(s, name)
    ensures forall i :: 0 <= i < |s| ==> IsWord(s[i]) && !IsSpace(s[i]) && s[i] != '(' && s[i] != ')'
  {
    forall i | 0 <= i < |s|
      ensures IsWord(s[i]) && !IsSpace(s[i]) && s[i] != '(' && s[i] != ')'
    {
      NameChar(s[i], name[i]);
    }
  }

  // ----- the two readings agree -----

  lemma {:induction false} SkipBlanksTo(text: string, i: nat, p: nat)
    requires i <= p < |text| && AllSpace(text[i..p]) && !IsSpace(text[p])
    ensures SkipBlanks(text, i) == p
    decreases p - i
  {
    if i < p {
      assert text[i..p][0] == text[i];
      assert text[i + 1..p] == text[i..p][1..];
      SkipBlanksTo(text, i + 1, p);
    }
  }

  lemma {:induction false} SkipBlanksSpan(text: string, i: nat)
    requires i <= |text|
    ensures AllSpace(text[i..SkipBlanks(text, i)])
    decreases |text| - i
  {
    if i < |text| && IsSpace(text[i]) {
      SkipBlanksSpan(text, i + 1);
      var e := SkipBlanks(text, i);
      assert text[i..e] == [text[i]] + text[i + 1..e];
    }
  }

  lemma MatchIsReady(text: string, name: string, i: nat)
    requires i <= |text| && IsName(name) && MatchEnd(text, name, i).Some?
    ensures
      var p := MatchEnd(text, name, i).value - 1;
      Ready(name, text[..p]) && HeadStart(name, text[..p]) == i && RStrip(text[..p]) == text[..i + |name|]
  {
    var p := MatchEnd(text, name, i).value - 1;
    var core, tail := text[..i + |name|], text[i + |name|..p];
    SkipBlanksSpan(text, i + |name|);
    assert text[..p] == core + tail;
    NameChars(text[i..i + |name|], name);
    assert core[|core| - 1] == text[i..i + |name|][|name| - 1];
    RStripUnique(core, tail);
    assert core[i..] == text[i..i + |name|];
  }

  lemma ReadyIsMatch(text: string, name: string, p: nat)
    requires p < |text| && text[p] == '(' && IsName(name) && Ready(name, text[..p])
    ensures HeadStart(name, text[..p]) + |name| <= p
    ensures MatchEnd(text, name, HeadStart(name, text[..p])) == Some(p + 1)
  {
    var t := RStrip(text[..p]);
    var tail := RStripParts(text[..p]);
    var i := |t| - |name|;
    PrefixParts(text, p, t, tail, i);
    assert i > 0 ==> text[i - 1] == t[i - 1];
    SkipBlanksTo(text, |t|, p);
  }

  lemma PrefixParts(text: string, p: nat, t: string, tail: string, i: nat)
    requires p <= |text| && text[..p] == t + tail && i <= |t|
    ensures text[i..|t|] == t[i..] && text[|t|..p] == tail && text[..|t|] == t
  {
    assert |t| + |tail| == p;
    assert forall j :: 0 <= j < |t| ==> text[j] == text[..p][j] == t[j];
    assert forall j :: |t| <= j < p ==> text[j] == text[..p][j] == tail[j - |t|];
  }

  /** The only parenthesis in a match is its last character. */
  lemma MatchSpan(text: string, name: string, i: nat)
    requires i <= |text| && IsName(name) && MatchEnd(text, name, i).Some?
    ensures forall q :: i <= q < MatchEnd(text, name, i).value - 1 ==> text[q] != '('
  {
    var e := MatchEnd(text, name, i).value - 1;
    NameChars(text[i..i + |name|], name);
    SkipBlanksSpan(text, i + |name|);
    forall q | i <= q < e
      ensures text[q] != '('
    {
      if q < i + |name| {
        assert text[q] == text[i..i + |name|][q - i];
      } else {
        assert text[q] == text[i + |name|..e][q - i - |name|];
      }
    }
  }

  /** Only one match ends at `p`, and one that ends later starts after `p`. */
  lemma NoMatchBefore(text: string, name: string, from: nat, p: nat, i: nat)
    requires p <= |text| && IsName(name) && from <= i <= p
    requires p < |text| ==> text[p] == '(' && Ready(name, text[..p]) && i != HeadStart(name, text[..p])
    requires Quiet(name, text[..p], from)
    ensures MatchEnd(text, name, i).None?
  {
    assert forall e :: 0 <= e <= p ==> text[..p][..e] == text[..e];
    if MatchEnd(text, name, i).Some? {
      MatchIsReady(text, name, i);
      MatchSpan(text, name, i);
    }
  }

  lemma {:induction false} SearchSkips(text: string, name: string, from: nat, i: nat)
    requires from <= i <= |text|
    requires forall j :: from <= j < i ==> MatchEnd(text, name, j).None?
    requires MatchEnd(text, name, i).Some? || i == |text|
    ensures Search(text, name, from)
         == if MatchEnd(text, name, i).Some? then Some(Match(i, MatchEnd(text, name, i).value)) else None
    decreases i - from
  {
    if from < i { SearchSkips(text, name, from + 1, i); }
  }

  /** The first ready parenthesis at or after the cursor is where the search stops. */
  lemma SearchFinds(text: string, name: string, from: nat, p: nat)
    requires IsName(name) && p < |text| && text[p] == '(' && Ready(name, text[..p])
    requires from <= HeadStart(name, text[..p]) && from <= p
    requires Quiet(name, text[..p], from)
    ensures Search(text, name, from) == Some(Match(HeadStart(name, text[..p]), p + 1))
  {
    ReadyIsMatch(text, name, p);
    var i := HeadStart(name, text[..p]);
    forall j | from <= j < i
      ensures MatchEnd(text, name, j).None?
    {
      NoMatchBefore(text, name, from, p, j);
    }
    SearchSkips(text, name, from, i);
  }

  lemma SearchFails(text: string, name: string, from: nat)
    requires IsName(name) && from <= |text| && Quiet(name, text, from)
    ensures Search(text, name, from).None?
  {
    assert text[..|text|] == text;
    forall j | from <= j <= |text|
      ensures MatchEnd(text, name, j).None?
    {
      NoMatchBefore(text, name, from, |text|, j);
    }
    SearchSkips(text, name, from, |text|);
  }

  // ----- how context reaches `Ready` -----

  /** A name may start right after `pre`. */
  predicate Bound(pre: string) { pre == [] || !IsWord(pre[|pre| - 1]) }

  /** What follows `pre` is read as at the start of a text. */
  predicate Neutral(name: string, pre: string) { Bound(pre) && !Ready(name, pre) }

  /** A character after which every context is neutral. */
  predicate Reset(c: char) { !IsWord(c) && !IsSpace(c) }

  lemma RStripKeeps(a: string, b: string)
    requires !AllSpace(b)
    ensures RStrip(a + b) == a + RStrip(b) && RStrip(b) != []
  {
    var tail := RStripParts(b);
    assert RStrip(b) == [] ==> b == tail;
    assert a + b == (a + RStrip(b)) + tail;
    RStripUnique(a + RStrip(b), tail);
  }

  lemma {:induction false} RStripDrops(a: string, b: string)
    requires AllSpace(b)
    ensures RStrip(a + b) == RStrip(a)
  {
    var tail := RStripParts(a);
    assert a + b == RStrip(a) + (tail + b);
    RStripUnique(RStrip(a), tail + b);
  }

  lemma ReadyWords(name: string, s: string)
    requires IsName(name) && Ready(name, s)
    ensures
      var t := RStrip(s);
      forall j :: |t| - |name| <= j < |t| ==> IsWord(t[j])
  {
    var t := RStrip(s);
    NameChars(t[|t| - |name|..], name);
    forall j | |t| - |name| <= j < |t|
      ensures IsWord(t[j])
    {
      assert t[j] == t[|t| - |name|..][j - (|t| - |name|)];
    }
  }

  lemma ReadyShift(name: string, pre: string, s: string)
    requires IsName(name) && Bound(pre) && (AllSpace(s) ==> !Ready(name, pre))
    ensures Ready(name, pre + s) == Ready(name, s)
  {
    hide Ready, RStrip;
    if AllSpace(s) {
      ReadyShiftBlank(name, pre, s);
    } else if |RStrip(s)| >= |name| {
      ReadyShiftLong(name, pre, s);
    } else {
      ReadyShiftShort(name, pre, s);
    }
  }

  lemma ReadyShiftBlank(name: string, pre: string, s: string)
    requires IsName(name) && AllSpace(s) && !Ready(name, pre)
    ensures !Ready(name, pre + s) && !Ready(name, s)
  {
    RStripDrops(pre, s);
    RStripDrops([], s);
    assert [] + s == s;
    assert RStrip([]) == [];
    hide RStrip, SameName;
    assert !Ready(name, []);
  }

  lemma ReadyShiftShort(name: string, pre: string, s: string)
    requires IsName(name) && Bound(pre) && !AllSpace(s) && |RStrip(s)| < |name|
    ensures !Ready(name, pre + s) && !Ready(name, s)
  {
    RStripKeeps(pre, s);
    hide RStrip;
    assert pre == [] || RStrip(pre + s)[|pre| - 1] == pre[|pre| - 1];
    if Ready(name, pre + s) { ReadyWords(name, pre + s); }
  }

  lemma ReadyShiftLong(name: string, pre: string, s: string)
    requires IsName(name) && Bound(pre) && !AllSpace(s) && |RStrip(s)| >= |name|
    ensures Ready(name, pre + s) == Ready(name, s)
  {
    RStripKeeps(pre, s);
    ReadyByEnd(name, s);
    ReadyByEnd(name, pre + s);
    hide RStrip, Ready, EndsIn, AllSpace;
    EndOfJoin(name, pre, RStrip(s));
  }

  predicate EndsIn(name: string, t: string) {
    |name| <= |t| && SameName(t[|t| - |name|..], name) && AtBoundary(t, |t| - |name|)
  }

  lemma ReadyByEnd(name: string, s: string)
    ensures Ready(name, s) == EndsIn(name, RStrip(s))
  {
    hide RStrip, SameName, AtBoundary;
  }

  lemma EndOfJoin(name: string, pre: string, t: string)
    requires Bound(pre) && |name| <= |t|
    ensures EndsIn(name, pre + t) == EndsIn(name, t)
  {
    var u := pre + t;
    assert u[|u| - |name|..] == t[|t| - |name|..];
    assert AtBoundary(u, |u| - |name|) == AtBoundary(t, |t| - |name|);
    hide SameName, AtBoundary;
  }

  lemma ResetNeutral(name: string, x: string, c: char)
    requires IsName(name) && Reset(c)
    ensures Neutral(name, x + [c])
  {
    var u := x + [c];
    RStripUnique(u, []);
    assert u + [] == u;
    if Ready(name, u) { ReadyWords(name, u); }
  }

  lemma BlanksNeutral(name: string, s: string)
    requires IsName(name) && AllSpace(s)
    ensures Neutral(name, s)
  {
    ReadyShift(name, [], s);
    assert [] + s == s;
    assert RStrip([]) == [];
    RStripDrops([], s);
  }

  // ----- the head of a call -----

  /** A spelling of the name followed by blanks, as it stands before an opening parenthesis. */
  predicate IsHead(name: string, head: string) {
    && |name| <= |head|
    && SameName(head[..|name|], name)
    && AllSpace(head[|name|..])
  }

  lemma HeadReady(name: string, pre: string, head: string)
    requires IsName(name) && Bound(pre) && IsHead(name, head)
    ensures Ready(name, pre + head) && HeadStart(name, pre + head) == |pre|
  {
    var word, tail := head[..|name|], head[|name|..];
    var core := pre + word;
    NameChars(word, name);
    assert core[|core| - 1] == word[|name| - 1];
    assert pre + head == core + tail;
    RStripUnique(core, tail);
    WordAtEnd(name, pre, word);
    hide RStrip, SameName, AtBoundary, Bound;
  }

  lemma WordAtEnd(name: string, pre: string, word: string)
    requires Bound(pre) && SameName(word, name)
    ensures
      var core := pre + word;
      |core| - |name| == |pre| && SameName(core[|core| - |name|..], name) && AtBoundary(core, |core| - |name|)
  {
    var core := pre + word;
    assert core[|pre|..] == word;
    hide SameName;
    assert |word| == |name| by { SameLength(word, name); }
  }

  lemma SameLength(s: string, name: string)
    requires SameName(s, name)
    ensures |s| == |name|
  {
  }

  lemma QuietExtend(name: string, s: string, c: char, from: nat)
    requires Quiet(name, s, from) && (c == '(' && from <= |s| ==> !Ready(name, s))
    ensures Quiet(name, s + [c], from)
  {
    var u := s + [c];
    forall q | from <= q < |u| && u[q] == '('
      ensures !Ready(name, u[..q])
    {
      assert u[..q] == s[..q];
      assert s[..|s|] == s;
    }
  }

  /** Text without opening parentheses adds no match. */
  lemma QuietAppend(name: string, s: string, u: string, from: nat)
    requires Quiet(name, s, from) && '(' !in u
    ensures Quiet(name, s + u, from)
  {
    assert forall q :: |s| <= q < |s + u| ==> (s + u)[q] == u[q - |s|];
    assert forall q :: 0 <= q < |s| ==> (s + u)[..q] == s[..q];
  }
}

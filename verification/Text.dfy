/** Characters and plain string helpers shared by the SQL rewriter modules. */
module Text {

  datatype Option<+T> = None | Some(value: T)

  /** Python's `str.isspace`, which is also `\s` in a `str` pattern. */
  predicate IsSpace(c: char) {
    var n := c as int;
    || 0x09 <= n <= 0x0D || 0x1C <= n <= 0x20 || n == 0x85 || n == 0xA0 || n == 0x1680
    || 0x2000 <= n <= 0x200A || n == 0x2028 || n == 0x2029 || n == 0x202F || n == 0x205F
    || n == 0x3000
  }

  /** `\w`: letters, digits and underscore; non-ASCII characters that are not blank count as letters. */
  predicate IsWord(c: char) {
    || 'a' <= c <= 'z' || 'A' <= c <= 'Z' || '0' <= c <= '9' || c == '_'
    || (c as int >= 0x80 && !IsSpace(c))
  }

  predicate IsQuote(c: char) { c == '\'' || c == '"' }

  predicate AllSpace(s: string) { forall i :: 0 <= i < |s| ==> IsSpace(s[i]) }

  predicate NoSpace(s: string) { forall i :: 0 <= i < |s| ==> !IsSpace(s[i]) }

  /** The character before position `0` of `s` when `s` is read after `prev`. */
  function LastOr(prev: char, s: string): char {
    if s == [] then prev else s[|s| - 1]
  }

  function LStrip(s: string): string {
    if s != [] && IsSpace(s[0]) then LStrip(s[1..]) else s
  }

  function RStrip(s: string): (r: string)
    ensures |r| <= |s|
  {
    if s != [] && IsSpace(s[|s| - 1]) then RStrip(s[..|s| - 1]) else s
  }

  /** Python's `str.strip()`. */
  function Strip(s: string): string { RStrip(LStrip(s)) }

  lemma {:induction false} LStripParts(s: string) returns (lead: string)
    ensures s == lead + LStrip(s) && AllSpace(lead)
    ensures LStrip(s) == [] || !IsSpace(LStrip(s)[0])
  {
    if s != [] && IsSpace(s[0]) {
      lead := LStripParts(s[1..]);
      lead := [s[0]] + lead;
    } else {
      lead := [];
    }
  }

  lemma {:induction false} RStripParts(s: string) returns (tail: string)
    ensures s == RStrip(s) + tail && AllSpace(tail)
    ensures RStrip(s) == [] || !IsSpace(RStrip(s)[|RStrip(s)| - 1])
  {
    if s != [] && IsSpace(s[|s| - 1]) {
      tail := RStripParts(s[..|s| - 1]);
      tail := tail + [s[|s| - 1]];
    } else {
      tail := [];
    }
  }

  /** Stripping finds the trimmed core between two runs of blanks. */
  lemma {:induction false} RStripUnique(core: string, tail: string)
    requires AllSpace(tail)
    requires core == [] || !IsSpace(core[|core| - 1])
    ensures RStrip(core + tail) == core
  {
    if tail == [] {
      assert core + tail == core;
    } else {
      var t := tail[..|tail| - 1];
      assert (core + tail)[..|core + tail| - 1] == core + t;
      RStripUnique(core, t);
    }
  }

  lemma {:induction false} LStripUnique(lead: string, core: string)
    requires AllSpace(lead)
    requires core == [] || !IsSpace(core[0])
    ensures LStrip(lead + core) == core
  {
    if lead == [] {
      assert lead + core == core;
    } else {
      assert (lead + core)[1..] == lead[1..] + core;
      LStripUnique(lead[1..], core);
    }
  }

  predicate Trimmed(s: string) {
    s == [] || (!IsSpace(s[0]) && !IsSpace(s[|s| - 1]))
  }

  /** Stripping removes one run of blanks on each side and leaves a trimmed text. */
  lemma StripParts(s: string) returns (lead: string, tail: string)
    ensures s == lead + Strip(s) + tail && AllSpace(lead) && AllSpace(tail) && Trimmed(Strip(s))
  {
    lead := LStripParts(s);
    tail := RStripParts(LStrip(s));
  }

  lemma StripOfTrimmed(s: string)
    requires Trimmed(s)
    ensures Strip(s) == s
  {
  }

  lemma StripUnique(lead: string, core: string, tail: string)
    requires AllSpace(lead) && AllSpace(tail) && Trimmed(core)
    ensures Strip(lead + core + tail) == core
  {
    if core == [] {
      LStripUnique(lead + core + tail, []);
      assert lead + core + tail + [] == lead + core + tail;
    } else {
      assert lead + core + tail == lead + (core + tail);
      LStripUnique(lead, core + tail);
      RStripUnique(core, tail);
    }
  }

  /** `sep.join(parts)`. */
  function Join(parts: seq<string>, sep: string): string {
    if parts == [] then []
    else if |parts| == 1 then parts[0]
    else parts[0] + sep + Join(parts[1..], sep)
  }

  function StripAll(parts: seq<string>): (r: seq<string>)
    ensures |r| == |parts|
    ensures forall i :: 0 <= i < |r| ==> r[i] == Strip(parts[i])
  {
    seq(|parts|, i requires 0 <= i < |parts| => Strip(parts[i]))
  }

  lemma DropOne<T>(s: seq<T>, i: nat)
    requires i < |s|
    ensures s[i..][0] == s[i] && s[i..][1..] == s[i + 1..]
  {
  }

  lemma TakeOne<T>(s: seq<T>, start: nat, i: nat)
    requires start <= i < |s|
    ensures s[start..i] + [s[i]] == s[start..i + 1]
  {
  }
}

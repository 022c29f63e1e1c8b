/**
 Lists as the engine and DuckDB hold them. The engine has no list type: an array is one text whose
 elements are joined by NUL and recovered by cutting at NUL. DuckDB keeps a list of texts. Both cut
 a text at a delimiter, and this module says exactly where the two results are the same list.
 */
module HiveArrays {
  import opened Text

  const NUL: char := '\0'

  function Encode(l: seq<string>): string { Join(l, [NUL]) }

  /** `s.split('\0')`, with `cur` already read of the first element. */
  function DecodeFrom(cur: string, s: string): (l: seq<string>)
    ensures |l| == 1 + Nuls(s)
    decreases s
  {
    if s == [] then [cur]
    else if s[0] == NUL then [cur] + DecodeFrom([], s[1..])
    else DecodeFrom(cur + [s[0]], s[1..])
  }

  function Decode(s: string): (l: seq<string>)
    ensures |l| == 1 + Nuls(s)
  {
    DecodeFrom([], s)
  }

  function Nuls(s: string): nat
    decreases s
  {
    if s == [] then 0 else (if s[0] == NUL then 1 else 0) + Nuls(s[1..])
  }

  predicate NulFree(l: seq<string>) { forall i :: 0 <= i < |l| ==> NUL !in l[i] }

  // ----- encoding and back -----

  lemma {:induction false} NulsNone(s: string)
    ensures Nuls(s) == 0 <==> NUL !in s
    decreases s
  {
    if s != [] {
      NulsNone(s[1..]);
      assert s == [s[0]] + s[1..];
    }
  }

  lemma {:induction false} NulsConcat(a: string, b: string)
    ensures Nuls(a + b) == Nuls(a) + Nuls(b)
    decreases a
  {
    if a == [] {
      assert a + b == b;
    } else {
      assert (a + b)[1..] == a[1..] + b;
      NulsConcat(a[1..], b);
    }
  }

  function NulsInside(l: seq<string>): nat {
    if l == [] then 0 else Nuls(l[0]) + NulsInside(l[1..])
  }

  lemma {:induction false} NulsOfEncode(l: seq<string>)
    requires l != []
    ensures Nuls(Encode(l)) == |l| - 1 + NulsInside(l)
    decreases l
  {
    if |l| == 1 {
      assert NulsInside(l[1..]) == 0;
    } else {
      NulsOfEncode(l[1..]);
      NulsConcat(l[0] + [NUL], Encode(l[1..]));
      NulsConcat(l[0], [NUL]);
      assert Nuls([NUL]) == 1;
    }
  }

  lemma {:induction false} NothingInside(l: seq<string>)
    ensures NulsInside(l) == 0 <==> NulFree(l)
    decreases l
  {
    if l != [] {
      NulsNone(l[0]);
      NothingInside(l[1..]);
      assert l == [l[0]] + l[1..];
    }
  }

  lemma {:induction false} DecodeStretch(cur: string, a: string, z: string)
    requires NUL !in a
    ensures DecodeFrom(cur, a + z) == DecodeFrom(cur + a, z)
    decreases a
  {
    if a == [] {
      assert a + z == z && cur + a == cur;
    } else {
      assert (a + z)[1..] == a[1..] + z;
      assert cur + [a[0]] + a[1..] == cur + a;
      DecodeStretch(cur + [a[0]], a[1..], z);
    }
  }

  lemma {:induction false} DecodeInverts(l: seq<string>)
    requires l != [] && NulFree(l)
    ensures Decode(Encode(l)) == l
    decreases l
  {
    var a := l[0];
    if |l| == 1 {
      DecodeStretch([], a, []);
      assert a + [] == a && [] + a == a;
    } else {
      var z := Encode(l[1..]);
      DecodeInverts(l[1..]);
      assert Encode(l) == a + ([NUL] + z);
      DecodeStretch([], a, [NUL] + z);
      assert [] + a == a && ([NUL] + z)[1..] == z;
    }
  }

  /** A list survives encoding exactly when it is not empty and no element holds a NUL. */
  lemma SurvivesExactly(l: seq<string>)
    ensures Decode(Encode(l)) == l <==> l != [] && NulFree(l)
    ensures |Decode(Encode(l))| >= |l|
    ensures |Decode(Encode(l))| == |l| <==> l != [] && NulFree(l)
  {
    if l != [] {
      NulsOfEncode(l);
      NothingInside(l);
      if NulFree(l) { DecodeInverts(l); }
    }
  }

  // ----- cutting at a delimiter -----

  /** Leftmost occurrences of a delimiter that is not empty; `cur` is the part of the first piece already read. */
  function CutFrom(cur: string, s: string, d: string): (l: seq<string>)
    requires d != []
    ensures l != []
    decreases |s|
  {
    if |s| < |d| then [cur + s]
    else if s[..|d|] == d then [cur] + CutFrom([], s[|d|..], d)
    else CutFrom(cur + [s[0]], s[1..], d)
  }

  function Chars(s: string): (l: seq<string>)
    ensures |l| == |s|
  {
    seq(|s|, i requires 0 <= i < |s| => [s[i]])
  }

  /** Rust's `s.split(d)`: an empty delimiter also matches at both ends. */
  function RustCut(s: string, d: string): seq<string> {
    if d == [] then [[]] + Chars(s) + [[]] else CutFrom([], s, d)
  }

  /** DuckDB's `string_split(s, d)`: an empty delimiter gives the characters. */
  function DuckCut(s: string, d: string): seq<string> {
    if d != [] then CutFrom([], s, d) else if s == [] then [[]] else Chars(s)
  }

  /** The list that the engine's operators find in the result of its `SPLIT`. */
  function EngineCut(s: string, d: string): seq<string> { Decode(Encode(RustCut(s, d))) }

  predicate CutFits(s: string, d: string) { d != [] && NulFree(CutFrom([], s, d)) }

  /** The engines cut alike exactly when the delimiter is not empty and no piece holds a NUL. */
  lemma CutsAgreeExactly(s: string, d: string)
    ensures EngineCut(s, d) == DuckCut(s, d) <==> CutFits(s, d)
  {
    SurvivesExactly(RustCut(s, d));
    if d == [] {
      assert |EngineCut(s, d)| >= |s| + 2;
    }
  }

  lemma {:induction false} CutKeepsNulFree(cur: string, s: string, d: string)
    requires d != [] && NUL !in cur && NUL !in s
    ensures NulFree(CutFrom(cur, s, d))
    decreases |s|
  {
    if |s| >= |d| {
      if s[..|d|] == d {
        CutKeepsNulFree([], s[|d|..], d);
      } else {
        CutKeepsNulFree(cur + [s[0]], s[1..], d);
      }
    }
  }

  /** Ordinary text is cut alike by every delimiter that is not empty. */
  lemma PlainTextCutsAlike(s: string, d: string)
    requires d != [] && NUL !in s
    ensures EngineCut(s, d) == DuckCut(s, d)
  {
    CutKeepsNulFree([], s, d);
    CutsAgreeExactly(s, d);
  }

  // ----- what cutting means -----

  predicate OccursAt(s: string, d: string, i: nat) { i + |d| <= |s| && s[i..i + |d|] == d }

  /**
   The pieces, joined by the delimiter, are the text, and each ends where the delimiter next occurs: no occurrence
   begins inside a piece.
   */
  ghost predicate IsCut(s: string, d: string, l: seq<string>) {
    && l != [] && Join(l, d) == s
    && forall k, i :: 0 <= k < |l| && 0 <= i < |l[k]| ==> !OccursAt(Join(l[k..], d), d, i)
  }

  lemma {:induction false} CutFromIsCut(cur: string, s: string, d: string)
    requires d != [] && forall i :: 0 <= i < |cur| ==> !OccursAt(cur + s, d, i)
    ensures IsCut(cur + s, d, CutFrom(cur, s, d))
    decreases |s|
  {
    var l := CutFrom(cur, s, d);
    if |s| < |d| {
      assert l[0..] == l;
    } else if s[..|d|] == d {
      var rest := CutFrom([], s[|d|..], d);
      assert [] + s[|d|..] == s[|d|..];
      CutFromIsCut([], s[|d|..], d);
      hide CutFrom, OccursAt;
      assert l == [cur] + rest && l[0..] == l && l[1..] == rest;
      assert cur + d + s[|d|..] == cur + s;
      forall k, i | 0 <= k < |l| && 0 <= i < |l[k]|
        ensures !OccursAt(Join(l[k..], d), d, i)
      {
        if k > 0 { assert l[k] == rest[k - 1] && l[k..] == rest[k - 1..]; }
      }
    } else {
      assert cur + [s[0]] + s[1..] == cur + s;
      assert (cur + s)[|cur|..|cur| + |d|] == s[..|d|];
      CutFromIsCut(cur + [s[0]], s[1..], d);
    }
  }

  lemma {:induction false} CutUnique(s: string, d: string, l: seq<string>, m: seq<string>)
    requires d != [] && IsCut(s, d, l) && IsCut(s, d, m)
    ensures l == m
    decreases |l|
  {
    CutTail(s, d, l);
    CutTail(s, d, m);
    assert |l[0]| == |m[0]|;
    assert l[0] == s[..|l[0]|] && m[0] == s[..|m[0]|];
    if |l| > 1 {
      CutUnique(s[|l[0]| + |d|..], d, l[1..], m[1..]);
      assert l == [l[0]] + l[1..] && m == [m[0]] + m[1..];
    }
  }

  /** Behind the first piece stand a delimiter and the cut of the rest, or nothing. */
  lemma CutTail(s: string, d: string, l: seq<string>)
    requires d != [] && IsCut(s, d, l)
    ensures |l[0]| <= |s| && s[..|l[0]|] == l[0]
    ensures forall i :: 0 <= i < |l[0]| ==> !OccursAt(s, d, i)
    ensures |l| == 1 ==> s == l[0] && !OccursAt(s, d, |l[0]|)
    ensures |l| > 1 ==> OccursAt(s, d, |l[0]|) && IsCut(s[|l[0]| + |d|..], d, l[1..])
  {
    assert l[0..] == l;
    if |l| > 1 {
      var rest := l[1..];
      assert s == l[0] + d + Join(rest, d);
      assert s[|l[0]| + |d|..] == Join(rest, d);
      forall k, i | 0 <= k < |rest| && 0 <= i < |rest[k]|
        ensures !OccursAt(Join(rest[k..], d), d, i)
      {
        assert rest[k] == l[k + 1] && rest[k..] == l[k + 1..];
      }
    }
  }

  /** A delimiter that is not empty determines the pieces: cutting finds them and nothing else does. */
  lemma CutExactly(s: string, d: string, l: seq<string>)
    requires d != []
    ensures CutFrom([], s, d) == l <==> IsCut(s, d, l)
  {
    assert [] + s == s;
    CutFromIsCut([], s, d);
    if IsCut(s, d, l) { CutUnique(s, d, l, CutFrom([], s, d)); }
  }

  /** No piece contains the delimiter. */
  lemma PiecesHoldNoDelimiter(s: string, d: string, k: nat, i: nat)
    requires d != [] && k < |CutFrom([], s, d)|
    ensures !OccursAt(CutFrom([], s, d)[k], d, i)
  {
    var l := CutFrom([], s, d);
    CutExactly(s, d, l);
    hide CutFrom;
    var text := Join(l[k..], d);
    assert l[k..][0] == l[k] && text[..|l[k]|] == l[k];
    assert i + |d| <= |l[k]| ==> text[i..i + |d|] == l[k][i..i + |d|] && !OccursAt(text, d, i);
  }

  /** Decoding an array is cutting its text at NUL. */
  lemma {:induction false} DecodeIsCut(cur: string, s: string)
    ensures DecodeFrom(cur, s) == CutFrom(cur, s, [NUL])
    decreases |s|
  {
    if s != [] {
      assert s[..1] == [s[0]];
      DecodeIsCut(if s[0] == NUL then [] else cur + [s[0]], s[1..]);
    } else {
      assert cur + s == cur;
    }
  }

  lemma {:induction false} JoinChars(s: string, end: seq<string>)
    requires end == [] || end == [[]]
    ensures Join(Chars(s) + end, []) == s
    decreases s
  {
    if s == [] {
      assert Chars(s) + end == end;
    } else {
      JoinChars(s[1..], end);
      var more := Chars(s[1..]) + end;
      assert Chars(s) == [[s[0]]] + Chars(s[1..]);
      assert Chars(s) + end == [[s[0]]] + more && ([[s[0]]] + more)[1..] == more;
      assert more == [] ==> s[1..] == [];
    }
  }

  /** An empty delimiter cuts between all characters; Rust also cuts before the first and after the last. */
  lemma EmptyDelimiter(s: string)
    ensures Join(RustCut(s, []), []) == s && Join(DuckCut(s, []), []) == s
    ensures |RustCut(s, [])| == |s| + 2 && RustCut(s, [])[0] == [] && RustCut(s, [])[|s| + 1] == []
    ensures |DuckCut(s, [])| == if s == [] then 1 else |s|
    ensures forall p :: p in RustCut(s, []) || p in DuckCut(s, []) ==> |p| <= 1
  {
    JoinChars(s, []);
    JoinChars(s, [[]]);
    var inner := Chars(s) + [[]];
    assert Chars(s) + [] == Chars(s);
    assert [[]] + Chars(s) + [[]] == [[]] + inner && ([[]] + inner)[1..] == inner;
  }
}

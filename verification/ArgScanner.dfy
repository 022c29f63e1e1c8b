/**
 The quote- and depth-aware scanner of the Hive to DuckDB rewriter: `_split_args`
 and the closing-parenthesis loop that `_rewrite_calls` and `_rewrite_indexed_split` share.
 */
module ArgScanner {
  import opened Text

  /** What the scanning loops remember between characters. */
  datatype Mode = Mode(depth: int, quote: Option<char>)

  const TOP := Mode(0, None)

  /** One iteration of the scanning loops; `prev` is the character to the left. */
  function Next(m: Mode, prev: char, c: char): Mode {
    if m.quote.Some? then
      if c == m.quote.value && prev != '\\' then m.(quote := None) else m
    else if IsQuote(c) then m.(quote := Some(c))
    else if c == '(' then m.(depth := m.depth + 1)
    else if c == ')' then m.(depth := m.depth - 1)
    else m
  }

  /** A comma that separates two arguments. */
  predicate IsCut(m: Mode, c: char) { c == ',' && m == TOP }

  function Scan(m: Mode, prev: char, s: string): Mode
    decreases s
  {
    if s == [] then m else Scan(Next(m, prev, s[0]), s[0], s[1..])
  }

  /** The number of unquoted commas at depth zero. */
  function Cuts(m: Mode, prev: char, s: string): nat
    decreases s
  {
    if s == [] then 0
    else (if IsCut(m, s[0]) then 1 else 0) + Cuts(Next(m, prev, s[0]), s[0], s[1..])
  }

  /** The text between the cuts, blanks included; `cur` is the part of the first piece already read. */
  function RawPieces(m: Mode, prev: char, cur: string, s: string): (r: seq<string>)
    ensures |r| == 1 + Cuts(m, prev, s)
    decreases s
  {
    if s == [] then [cur]
    else if IsCut(m, s[0]) then [cur] + RawPieces(Next(m, prev, s[0]), s[0], [], s[1..])
    else RawPieces(Next(m, prev, s[0]), s[0], cur + [s[0]], s[1..])
  }

  /** What `_split_args` returns. */
  function Pieces(text: string): (r: seq<string>)
    ensures |r| == 1 + Cuts(TOP, ' ', text)
  {
    StripAll(RawPieces(TOP, ' ', [], text))
  }

  lemma StripAllConcat(a: seq<string>, b: seq<string>)
    ensures StripAll(a + b) == StripAll(a) + StripAll(b)
  {
  }

  /** The pieces still to come when the loop stands at `i` and the current piece began at `start`. */
  ghost function Remaining(text: string, start: nat, i: nat, m: Mode, prev: char): seq<string>
    requires start <= i <= |text|
  {
    StripAll(RawPieces(m, prev, text[start..i], text[i..]))
  }

  lemma RemainingStep(text: string, start: nat, i: nat, m: Mode, prev: char)
    requires start <= i < |text|
    ensures
      Remaining(text, start, i, m, prev)
      == if IsCut(m, text[i])
         then [Strip(text[start..i])] + Remaining(text, i + 1, i + 1, m, text[i])
         else Remaining(text, start, i + 1, Next(m, prev, text[i]), text[i])
  {
    hide Strip;
    DropOne(text, i);
    TakeOne(text, start, i);
    assert text[i + 1..i + 1] == [];
    if IsCut(m, text[i]) {
      StripAllConcat([text[start..i]], RawPieces(m, text[i], [], text[i + 1..]));
    }
  }

  method SplitArgs(text: string) returns (args: seq<string>)
    ensures args == Pieces(text)
  {
    hide Remaining;
    var start, depth := 0, 0;
    var quote: Option<char> := None;
    args := [];
    ghost var prev := ' ';
    ghost var total := RemainingAtStart(text);
    ghost var todo := total;
    var i := 0;
    while i < |text|
      invariant 0 <= start <= i <= |text|
      invariant i > 0 ==> prev == text[i - 1]
      invariant i == 0 ==> quote.None?
      invariant total == args + todo
      invariant todo == Remaining(text, start, i, Mode(depth, quote), prev)
    {
      var c := text[i];
      ghost var m := Mode(depth, quote);
      RemainingStep(text, start, i, m, prev);
      if quote.Some? {
        if c == quote.value && (i == 0 || text[i - 1] != '\\') { quote := None; }
      } else if IsQuote(c) {
        quote := Some(c);
      } else if c == '(' {
        depth := depth + 1;
      } else if c == ')' {
        depth := depth - 1;
      } else if c == ',' && depth == 0 {
        args := args + [Strip(text[start..i])];
        start := i + 1;
        todo := todo[1..];
      }
      assert Mode(depth, quote) == Next(m, prev, c);
      i := i + 1;
      prev := c;
    }
    args := args + [Strip(text[start..])];
    RemainingAtEnd(text, start, Mode(depth, quote), prev);
  }

  lemma RemainingAtStart(text: string) returns (all: seq<string>)
    ensures all == Pieces(text) == Remaining(text, 0, 0, TOP, ' ')
  {
    assert text[0..0] == [] && text[0..] == text;
    all := Pieces(text);
  }

  lemma RemainingAtEnd(text: string, start: nat, m: Mode, prev: char)
    requires start <= |text|
    ensures Remaining(text, start, |text|, m, prev) == [Strip(text[start..])]
  {
    assert text[start..|text|] == text[start..];
  }

  // ----- reading in two parts -----

  lemma {:induction false} ScanConcat(m: Mode, prev: char, a: string, b: string)
    ensures Scan(m, prev, a + b) == Scan(Scan(m, prev, a), LastOr(prev, a), b)
    ensures Cuts(m, prev, a + b) == Cuts(m, prev, a) + Cuts(Scan(m, prev, a), LastOr(prev, a), b)
    decreases a
  {
    if a == [] {
      assert a + b == b;
    } else {
      assert (a + b)[1..] == a[1..] + b;
      ScanConcat(Next(m, prev, a[0]), a[0], a[1..], b);
    }
  }

  /** Reading a stretch without cuts only grows the current piece. */
  lemma {:induction false} RawPiecesSkip(m: Mode, prev: char, cur: string, a: string, b: string)
    requires Cuts(m, prev, a) == 0
    ensures RawPieces(m, prev, cur, a + b) == RawPieces(Scan(m, prev, a), LastOr(prev, a), cur + a, b)
    decreases a
  {
    if a == [] {
      assert a + b == b && cur + a == cur;
    } else {
      assert (a + b)[1..] == a[1..] + b;
      assert cur + [a[0]] + a[1..] == cur + a;
      RawPiecesSkip(Next(m, prev, a[0]), a[0], cur + [a[0]], a[1..], b);
    }
  }

  /** Outside quotes the character to the left does not matter. */
  lemma PrevIrrelevant(m: Mode, p: char, p': char, s: string)
    requires m.quote.None?
    ensures Scan(m, p, s) == Scan(m, p', s)
    ensures Cuts(m, p, s) == Cuts(m, p', s)
    ensures forall cur :: RawPieces(m, p, cur, s) == RawPieces(m, p', cur, s)
    decreases s
  {
  }

  lemma {:induction false} BlanksKeepMode(m: Mode, prev: char, s: string)
    requires AllSpace(s) && m.quote.None?
    ensures Scan(m, prev, s) == m
    ensures Cuts(m, prev, s) == 0
    decreases s
  {
    if s != [] { BlanksKeepMode(m, s[0], s[1..]); }
  }

  /** A text without cuts is its own only piece. */
  lemma OnePiece(m: Mode, prev: char, s: string)
    requires Cuts(m, prev, s) == 0
    ensures RawPieces(m, prev, [], s) == [s]
  {
    RawPiecesSkip(m, prev, [], s, []);
    assert s + [] == s && [] + s == s;
  }

  // ----- `_split_args` undoes joining -----

  /** An argument as it can stand between two commas: trimmed, balanced, without a separating comma. */
  predicate IsArg(a: string) {
    Trimmed(a) && Scan(TOP, ' ', a) == TOP && Cuts(TOP, ' ', a) == 0
  }

  lemma RawPiecesOfCut(prev: char, cur: string, a: string, b: string)
    requires Cuts(TOP, prev, a) == 0 && Scan(TOP, prev, a) == TOP
    ensures RawPieces(TOP, prev, cur, a + "," + b) == [cur + a] + RawPieces(TOP, ',', [], b)
  {
    assert a + "," + b == a + ("," + b);
    RawPiecesSkip(TOP, prev, cur, a, "," + b);
    assert ("," + b)[0] == ',' && ("," + b)[1..] == b;
  }

  lemma {:induction false} SplitInvertsJoin(args: seq<string>)
    requires args != []
    requires forall i :: 0 <= i < |args| ==> IsArg(args[i])
    ensures Pieces(Join(args, ", ")) == args
  {
    SplitJoined(' ', [], args);
  }

  lemma {:induction false} SplitJoined(prev: char, lead: string, args: seq<string>)
    requires args != [] && AllSpace(lead)
    requires forall i :: 0 <= i < |args| ==> IsArg(args[i])
    ensures StripAll(RawPieces(TOP, prev, lead, Join(args, ", "))) == args
    decreases args
  {
    var a := args[0];
    PrevIrrelevant(TOP, ' ', prev, a);
    StripLead(lead, a);
    if |args| == 1 {
      RawPiecesSkip(TOP, prev, lead, a, []);
      assert a + [] == a;
    } else {
      var rest := Join(args[1..], ", ");
      SplitJoined(' ', " ", args[1..]);
      RawPiecesOfCommaBlank(prev, lead, a, rest);
      StripAllConcat([lead + a], RawPieces(TOP, ' ', " ", rest));
    }
  }

  lemma StripLead(lead: string, a: string)
    requires AllSpace(lead) && Trimmed(a)
    ensures Strip(lead + a) == a
  {
    assert lead + a + [] == lead + a;
    StripUnique(lead, a, []);
  }

  lemma RawPiecesOfCommaBlank(prev: char, cur: string, a: string, rest: string)
    requires Cuts(TOP, prev, a) == 0 && Scan(TOP, prev, a) == TOP
    ensures RawPieces(TOP, prev, cur, a + ", " + rest) == [cur + a] + RawPieces(TOP, ' ', " ", rest)
  {
    assert a + ", " + rest == a + "," + (" " + rest);
    RawPiecesOfCut(prev, cur, a, " " + rest);
    assert (" " + rest)[0] == ' ' && (" " + rest)[1..] == rest && [] + [' '] == " ";
  }

  // ----- for any text at all -----

  /** The raw pieces, commas put back, are the text. */
  lemma {:induction false} PiecesCoverText(m: Mode, prev: char, cur: string, s: string)
    ensures Join(RawPieces(m, prev, cur, s), ",") == cur + s
    decreases s
  {
    if s != [] {
      var next := Next(m, prev, s[0]);
      if IsCut(m, s[0]) {
        PiecesCoverText(next, s[0], [], s[1..]);
        var rest := RawPieces(next, s[0], [], s[1..]);
        assert ([cur] + rest)[1..] == rest;
        assert cur + "," + ([] + s[1..]) == cur + s;
      } else {
        PiecesCoverText(next, s[0], cur + [s[0]], s[1..]);
        assert cur + [s[0]] + s[1..] == cur + s;
      }
    }
  }

  /** No piece holds a cut: `begin` is the mode in which the current piece started. */
  lemma {:induction false} PiecesHaveNoCuts(begin: Mode, first: char, cur: string, s: string)
    requires Cuts(begin, first, cur) == 0
    ensures
      var r := RawPieces(Scan(begin, first, cur), LastOr(first, cur), cur, s);
      && Cuts(begin, first, r[0]) == 0
      && forall j :: 1 <= j < |r| ==> Cuts(TOP, ',', r[j]) == 0
    decreases s
  {
    if s != [] {
      var m, prev := Scan(begin, first, cur), LastOr(first, cur);
      if IsCut(m, s[0]) {
        PiecesHaveNoCuts(TOP, ',', [], s[1..]);
      } else {
        ScanConcat(begin, first, cur, [s[0]]);
        PiecesHaveNoCuts(begin, first, cur + [s[0]], s[1..]);
      }
    }
  }

  lemma StripKeepsNoCuts(prev: char, s: string)
    requires Cuts(TOP, prev, s) == 0
    ensures Cuts(TOP, ' ', Strip(s)) == 0
  {
    var lead, tail := StripParts(s);
    var core := Strip(s);
    assert s == lead + (core + tail);
    ScanConcat(TOP, prev, lead, core + tail);
    BlanksKeepMode(TOP, prev, lead);
    ScanConcat(TOP, LastOr(prev, lead), core, tail);
    PrevIrrelevant(TOP, LastOr(prev, lead), ' ', core);
  }

  /** Every returned piece splits to itself. */
  lemma PiecesResplit(text: string, j: nat)
    requires j < |Pieces(text)|
    ensures Pieces(Pieces(text)[j]) == [Pieces(text)[j]]
  {
    var raw := RawPieces(TOP, ' ', [], text);
    PiecesHaveNoCuts(TOP, ' ', [], text);
    StripKeepsNoCuts(if j == 0 then ' ' else ',', raw[j]);
    var p := Pieces(text)[j];
    OnePiece(TOP, ' ', p);
    var lead, tail := StripParts(raw[j]);
    StripOfTrimmed(p);
  }

  // ----- the closing parenthesis -----

  /** Where the scanning loop stops: just past the parenthesis that closes depth one, or at the end. */
  function Close(text: string, i: nat, m: Mode): (end: nat)
    requires 1 <= i <= |text|
    ensures i <= end <= |text|
    decreases |text| - i
  {
    if i == |text| || m.depth == 0 then i
    else Close(text, i + 1, Next(m, text[i - 1], text[i]))
  }

  method FindClose(text: string, from: nat) returns (end: nat)
    requires 1 <= from <= |text|
    ensures end == Close(text, from, Mode(1, None))
  {
    var depth := 1;
    var quote: Option<char> := None;
    end := from;
    while end < |text| && depth != 0
      invariant from <= end <= |text|
      invariant Close(text, from, Mode(1, None)) == Close(text, end, Mode(depth, quote))
    {
      var c := text[end];
      if quote.Some? {
        if c == quote.value && text[end - 1] != '\\' { quote := None; }
      } else if IsQuote(c) {
        quote := Some(c);
      } else if c == '(' {
        depth := depth + 1;
      } else if c == ')' {
        depth := depth - 1;
      }
      end := end + 1;
    }
  }

  /** The argument text between the opening and the closing parenthesis, `text[from:end - 1]`. */
  function Inside(text: string, from: nat, end: nat): string
    requires from <= end <= |text|
  {
    if from < end then text[from..end - 1] else []
  }
}

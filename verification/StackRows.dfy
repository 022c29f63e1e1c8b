/**
 Hive's `stack(n, v1, ...)`: the two ways the rewriter cuts the values into `VALUES` tuples, against
 the engine's own rule, which accepts exactly `n` rows of as many values as there are aliases.
 */
module StackRows {

  datatype Tuples = Tuples(rows: seq<seq<string>>) | ZeroDivisionError | ZeroStepError

  /** Python's `//` for a non-negative dividend and a divisor other than zero. */
  function FloorDiv(a: nat, b: int): int
    requires b != 0
  {
    if b > 0 then a / b else -((a - b - 1) / -b)
  }

  /** `values[i:i + width]` */
  function Slice(values: seq<string>, i: nat, width: nat): seq<string> {
    var low := if i < |values| then i else |values|;
    var high := if i + width < |values| then i + width else |values|;
    values[low..high]
  }

  /** The first `count` slices of `width` values. */
  function Chunks(values: seq<string>, width: nat, count: nat): (cs: seq<seq<string>>)
    ensures |cs| == count && forall r :: 0 <= r < count ==> cs[r] == Slice(values, r * width, width)
  {
    if count == 0 then [] else Chunks(values, width, count - 1) + [Slice(values, (count - 1) * width, width)]
  }

  /** The number of steps of `range(0, n, width)`. */
  function Steps(n: nat, width: nat): nat
    requires width > 0
  {
    (n + width - 1) / width
  }

  /** `SELECT stack(...)`: the width is the number of values over the number of rows, rounded down. */
  method SelectTuples(rows: int, values: seq<string>) returns (r: Tuples)
    ensures r == SelectSpec(rows, values)
  {
    if rows == 0 { return ZeroDivisionError; }
    var width := FloorDiv(|values|, rows);
    if width == 0 { return ZeroStepError; }
    var tuples: seq<seq<string>> := [];
    if width < 0 { return Tuples(tuples); }
    tuples := CutTo(|values|, width, values);
    r := Tuples(tuples);
  }

  function SelectSpec(rows: int, values: seq<string>): Tuples {
    if rows == 0 then ZeroDivisionError
    else
      var width := FloorDiv(|values|, rows);
      if width == 0 then ZeroStepError
      else if width < 0 then Tuples([])
      else Tuples(Chunks(values, width, Steps(|values|, width)))
  }

  /** `[values[i:i + width] for i in range(0, stop, width)]` */
  method CutTo(stop: nat, width: nat, values: seq<string>) returns (tuples: seq<seq<string>>)
    requires width > 0
    ensures tuples == Chunks(values, width, Steps(stop, width))
  {
    hide Steps, Slice, Chunks;
    tuples := [];
    var i := 0;
    ghost var n := 0;
    StepsBound(n, stop, width);
    while i < stop
      invariant i == n * width && |tuples| == n && (i < stop <==> n < Steps(stop, width)) && n <= Steps(stop, width)
      invariant forall r :: 0 <= r < n ==> tuples[r] == Slice(values, r * width, width)
      decreases stop - i
    {
      tuples := tuples + [Slice(values, i, width)];
      MulAtMost(n, n, width);
      i, n := i + width, n + 1;
      StepsBound(n, stop, width);
    }
  }

  /** `k` steps of `width` stay below `n` exactly when more than `k` fit. */
  lemma StepsBound(k: nat, n: nat, width: nat)
    requires width > 0
    ensures k * width < n <==> k < Steps(n, width)
  {
    var q := Steps(n, width);
    assert q * width <= n + width - 1 < q * width + width;
    if k < q { MulAtMost(k + 1, q, width); } else { MulAtMost(q, k, width); }
  }

  lemma MulAtMost(a: nat, b: nat, width: nat)
    requires a <= b
    ensures a * width <= b * width && (a + 1) * width == a * width + width
  {
    assert (b - a) * width >= 0;
  }

  /** `LATERAL VIEW stack(...)`: the width is the number of aliases, and the rows are as many as asked for. */
  method LateralTuples(rows: int, aliases: nat, values: seq<string>) returns (tuples: seq<seq<string>>)
    requires aliases > 0
    ensures tuples == Chunks(values, aliases, if rows > 0 then rows else 0)
  {
    if rows <= 0 { return []; }
    tuples := CutTo(rows * aliases, aliases, values);
    StepsOfProduct(rows, aliases);
  }

  lemma StepsOfProduct(rows: nat, width: nat)
    requires width > 0
    ensures Steps(rows * width, width) == rows
  {
    StepsBound(rows, rows * width, width);
    if rows > 0 {
      StepsBound(rows - 1, rows * width, width);
      MulAtMost(rows - 1, rows, width);
    }
  }

  // ----- what the cut keeps -----

  function Concat(rows: seq<seq<string>>): seq<string> {
    if rows == [] then [] else Concat(rows[..|rows| - 1]) + rows[|rows| - 1]
  }

  function Prefix(values: seq<string>, n: nat): seq<string> { if n <= |values| then values[..n] else values }

  lemma {:induction false} ChunksCover(values: seq<string>, width: nat, count: nat)
    requires width > 0
    ensures Concat(Chunks(values, width, count)) == Prefix(values, count * width)
    decreases count
  {
    hide Slice, Prefix;
    if count == 0 {
      PrefixNone(values);
    } else {
      var cs, rest := Chunks(values, width, count), Chunks(values, width, count - 1);
      var i := (count - 1) * width;
      ChunksCover(values, width, count - 1);
      NextSlice(values, i, width);
      MulAtMost(count - 1, count, width);
      assert cs[..count - 1] == rest && cs[count - 1] == Slice(values, i, width);
      assert i + width == count * width;
    }
  }

  lemma PrefixNone(values: seq<string>)
    ensures Prefix(values, 0) == []
  {
  }

  lemma NextSlice(values: seq<string>, i: nat, width: nat)
    ensures Prefix(values, i) + Slice(values, i, width) == Prefix(values, i + width)
  {
  }

  /**
   The tuples of `SELECT stack` hold the values in order and nothing else. It divides by zero for no rows, has an
   impossible step when there are fewer values than rows, and no tuples for a negative number of rows.
   */
  lemma SelectTuplesCover(rows: int, values: seq<string>)
    ensures SelectSpec(rows, values) == ZeroDivisionError <==> rows == 0
    ensures SelectSpec(rows, values) == ZeroStepError <==> (0 <= |values| < rows) || (rows < 0 && values == [])
    ensures SelectSpec(rows, values).Tuples? ==>
      Concat(SelectSpec(rows, values).rows) == if rows > 0 then values else []
  {
    hide Chunks, Slice, Steps;
    if rows > 0 {
      var width := FloorDivPositive(|values|, rows);
      QuotientZero(|values|, rows);
      if width > 0 {
        var count := Steps(|values|, width);
        StepsBound(count, |values|, width);
        ChunksCover(values, width, count);
        assert Prefix(values, count * width) == values;
      }
    } else if rows < 0 {
      NegativeDiv(|values|, rows);
    }
  }

  lemma QuotientZero(n: nat, rows: nat)
    requires rows > 0
    ensures n / rows == 0 <==> n < rows
  {
    assert n == (n / rows) * rows + n % rows;
    if n / rows >= 1 { MulAtMost(1, n / rows, rows); }
  }

  lemma NegativeDiv(n: nat, rows: int)
    requires rows < 0
    ensures FloorDiv(n, rows) == 0 <==> n == 0
    ensures n > 0 ==> FloorDiv(n, rows) < 0
  {
    var d := -rows;
    var m := n + d - 1;
    assert m == (m / d) * d + m % d;
    QuotientZero(m, d);
  }

  // ----- the engine's rule -----

  /** The shape the engine accepts. */
  predicate EngineAccepts(rows: nat, columns: nat, values: seq<string>) {
    rows > 0 && columns > 0 && |values| == rows * columns
  }

  /** `tuples` are the rows the engine builds: row `r`, column `c` is value `r * columns + c`. */
  predicate IsGrid(tuples: seq<seq<string>>, rows: nat, columns: nat, values: seq<string>) {
    && |tuples| == rows
    && forall r :: 0 <= r < rows ==> |tuples[r]| == columns && RowIs(tuples[r], r, columns, values)
  }

  predicate RowIs(row: seq<string>, r: nat, columns: nat, values: seq<string>) {
    forall c :: 0 <= c < |row| ==> r * columns + c < |values| && row[c] == values[r * columns + c]
  }

  lemma SliceRow(values: seq<string>, r: nat, width: nat)
    ensures RowIs(Slice(values, r * width, width), r, width, values)
    ensures |Slice(values, r * width, width)| == width <==> width == 0 || r * width + width <= |values|
  {
  }

  /** The first rows of the cut form the engine's grid exactly when there are enough values. */
  lemma ChunksGrid(values: seq<string>, width: nat, count: nat)
    requires width > 0 && count > 0
    ensures IsGrid(Chunks(values, width, count), count, width, values) <==> |values| >= count * width
  {
    var cs := Chunks(values, width, count);
    MulAtMost(count - 1, count, width);
    SliceRow(values, count - 1, width);
    forall r | 0 <= r < count
      ensures |values| >= count * width ==> |cs[r]| == width && RowIs(cs[r], r, width, values)
    {
      SliceRow(values, r, width);
      MulAtMost(r, count - 1, width);
    }
  }

  /** The rewritten `SELECT stack` has the engine's rows exactly when the engine accepts the statement. */
  lemma SelectStackExactly(rows: nat, columns: nat, values: seq<string>)
    requires rows > 0 && columns > 0
    ensures
      var r := SelectSpec(rows, values);
      r.Tuples? && IsGrid(r.rows, rows, columns, values) <==> EngineAccepts(rows, columns, values)
  {
    hide IsGrid, Chunks, Steps, FloorDiv;
    var n := |values|;
    var width := FloorDivPositive(n, rows);
    if n == rows * columns {
      QuotientIs(n, rows, columns);
      StepsOfProduct(rows, columns);
      ChunksGrid(values, columns, rows);
    } else if width > 0 && IsGrid(Chunks(values, width, Steps(n, width)), rows, columns, values) {
      GridFills(values, width, rows, columns);
    }
  }

  lemma FloorDivPositive(n: nat, rows: nat) returns (width: nat)
    requires rows > 0
    ensures width == n / rows == FloorDiv(n, rows) && rows * width <= n
  {
    width := n / rows;
    DivTimes(n, rows);
  }

  lemma DivTimes(n: nat, rows: nat)
    requires rows > 0
    ensures rows * (n / rows) <= n
  {
    assert n == rows * (n / rows) + n % rows;
  }

  /** A cut by a width of which `rows` fit, if it is a grid, is filled by the values. */
  lemma GridFills(values: seq<string>, width: nat, rows: nat, columns: nat)
    requires rows > 0 && width > 0 && rows * width <= |values|
    requires IsGrid(Chunks(values, width, Steps(|values|, width)), rows, columns, values)
    ensures |values| == rows * columns
  {
    hide Steps, RowIs;
    var cs := Chunks(values, width, Steps(|values|, width));
    StepsBound(rows, |values|, width);
    MulAtMost(1, rows, width);
    assert cs[0] == Slice(values, 0, width) && |cs[0]| == columns;
    assert width == columns;
  }

  lemma QuotientIs(n: nat, rows: nat, columns: nat)
    requires rows > 0 && n == rows * columns
    ensures n / rows == columns
  {
    var q := n / rows;
    assert n == q * rows + n % rows;
    if q < columns { MulAtMost(q + 1, columns, rows); MulAtMost(q, columns, rows); }
    if q > columns { MulAtMost(columns + 1, q, rows); MulAtMost(columns, q, rows); }
  }

  /**
   The lateral form has full rows as soon as there are enough values, so it agrees with the engine unless there
   are too many.
   */
  lemma LateralStackExactly(rows: nat, aliases: nat, values: seq<string>)
    requires rows > 0 && aliases > 0
    ensures IsGrid(Chunks(values, aliases, rows), rows, aliases, values) <==> |values| >= rows * aliases
    ensures EngineAccepts(rows, aliases, values) ==> IsGrid(Chunks(values, aliases, rows), rows, aliases, values)
  {
    ChunksGrid(values, aliases, rows);
  }
}

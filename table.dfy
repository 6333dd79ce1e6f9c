/** The subscription table as the dashboard holds it after loading a spreadsheet:
    an ordered sequence of rows, one per subscription record. */
module Table {

  /** A cell of the `estado` column. `Missing` is a blank cell, which the data
      frame holds as NaN: it equals no string and `value_counts` drops it. */
  datatype Cell = Missing | Value(text: string)

  /** A date cell after `to_datetime(..., errors='coerce')`: a timestamp, or NaT
      when the spreadsheet cell did not parse as a date. */
  datatype Stamp = NaT | At(nanos: int)

  /** One subscription record. `otros` holds the columns the core never reads;
      they still reach the CSV text of the question context. */
  datatype Row = Row(estado: Cell, fechaInicio: Stamp, fechaCancelacion: Stamp, otros: seq<Cell>)

  /** The `estado` column of a table, row by row. */
  function Estados(df: seq<Row>): (col: seq<Cell>)
    ensures |col| == |df|
    ensures forall i :: 0 <= i < |df| ==> col[i] == df[i].estado
  {
    if df == [] then [] else Estados(df[..|df| - 1]) + [df[|df| - 1].estado]
  }

  /** The number of entries of `xs` equal to `x`. */
  function Count<T(==)>(xs: seq<T>, x: T): (n: nat)
    ensures n <= |xs|
    ensures n == 0 <==> x !in xs
  {
    if xs == [] then 0
    else Count(xs[..|xs| - 1], x) + (if xs[|xs| - 1] == x then 1 else 0)
  }

  /** The positions of `xs` that hold `x`: an independent reading of `Count`. */
  ghost function Positions<T>(xs: seq<T>, x: T): set<int>
  {
    set i | 0 <= i < |xs| && xs[i] == x
  }

  /** `Count` counts exactly the positions that hold `x`. */
  lemma {:induction false} CountIsPositions<T>(xs: seq<T>, x: T)
    ensures Count(xs, x) == |Positions(xs, x)|
  {
    if xs != [] {
      var n := |xs| - 1;
      var init := xs[..n];
      CountIsPositions(init, x);
      if xs[n] == x {
        assert Positions(xs, x) == Positions(init, x) + {n};
        assert n !in Positions(init, x);
      } else {
        assert Positions(xs, x) == Positions(init, x);
      }
    }
  }

  /** Counting distributes over concatenation. */
  lemma {:induction false} CountAppend<T>(xs: seq<T>, ys: seq<T>, x: T)
    ensures Count(xs + ys, x) == Count(xs, x) + Count(ys, x)
  {
    if ys == [] {
      assert xs + ys == xs;
    } else {
      var n := |ys| - 1;
      CountAppend(xs, ys[..n], x);
      assert (xs + ys)[..|xs + ys| - 1] == xs + ys[..n];
    }
  }

  /** The entries of `xs` that are not `x`, in their order. */
  function Without<T(==)>(xs: seq<T>, x: T): (r: seq<T>)
    ensures x !in r
    ensures forall y :: y in r ==> y in xs
    ensures forall i :: 0 <= i < |xs| && xs[i] != x ==> xs[i] in r
  {
    if xs == [] then []
    else Without(xs[..|xs| - 1], x) + (if xs[|xs| - 1] == x then [] else [xs[|xs| - 1]])
  }

  /** Every entry either is `x` or is kept by `Without`. */
  lemma {:induction false} CountPlusWithout<T>(xs: seq<T>, x: T)
    ensures Count(xs, x) + |Without(xs, x)| == |xs|
  {
    if xs != [] {
      CountPlusWithout(xs[..|xs| - 1], x);
    }
  }
}

/** The tabular data the column utilities work on, reduced to what they read:
    an ordered sequence of named columns, each with the number of its
    non-missing cells, and the number of rows all columns share. */
module Frame {

  /** One column: its name and how many of its cells hold a value. */
  datatype Column = Column(name: string, nonMissing: nat)

  /** A data frame: its columns in order and its row count. */
  datatype DataFrame = DataFrame(columns: seq<Column>, rows: nat)

  /** The errors the utilities raise. */
  datatype Error =
    | InvalidArgument   // an out-of-range threshold or an unknown chart kind
    | ColumnNotFound    // a column name to drop that the frame does not have

  datatype Result<T> = Ok(value: T) | Err(error: Error)

  /** The names of the given columns, in order. */
  function Names(cols: seq<Column>): (r: seq<string>)
    ensures |r| == |cols|
    ensures forall k :: 0 <= k < |cols| ==> r[k] == cols[k].name
  {
    if cols == [] then [] else Names(cols[..|cols| - 1]) + [cols[|cols| - 1].name]
  }

  /** Naming one more column appends its name. */
  lemma NamesSnoc(cols: seq<Column>, c: Column)
    ensures Names(cols + [c]) == Names(cols) + [c.name]
  {
    assert (cols + [c])[..|cols|] == cols;
  }

  /** No two columns share a name. */
  predicate DistinctNames(cols: seq<Column>)
  {
    forall i, j :: 0 <= i < j < |cols| ==> cols[i].name != cols[j].name
  }

  /** The share of a column's cells that hold a value. */
  function FillRatio(c: Column, rows: nat): real
    requires rows > 0
  {
    c.nonMissing as real / rows as real
  }

  /** The threshold test without division: the column is filled below `percent`. */
  predicate BelowThreshold(c: Column, rows: nat, percent: real)
  {
    c.nonMissing as real < percent * rows as real
  }

  /** The division-free test agrees with comparing the fill ratio itself. */
  lemma BelowThresholdIsRatioTest(c: Column, rows: nat, percent: real)
    requires rows > 0
    ensures BelowThreshold(c, rows, percent) <==> FillRatio(c, rows) < percent
  {
    var n, t := c.nonMissing as real, rows as real;
    assert FillRatio(c, rows) * t == n;
    if FillRatio(c, rows) < percent {
      assert FillRatio(c, rows) * t < percent * t;
    }
    if n < percent * t {
      assert FillRatio(c, rows) * t < percent * t;
    }
  }

  /** `s` is `t` with some elements left out and the rest in their original order. */
  predicate IsSubsequence<T(==)>(s: seq<T>, t: seq<T>)
    decreases |t|
  {
    if t == [] then s == []
    else
      (s != [] && s[|s| - 1] == t[|t| - 1] && IsSubsequence(s[..|s| - 1], t[..|t| - 1]))
      || IsSubsequence(s, t[..|t| - 1])
  }
}

/** Column removal: `DataEngineering.remove_columns_by_percentage` and
    `DataEngineering.remove_columns_by_name` of MLUtils.py. */
module DataEngineering {
  import opened Frame

  /** One log line of the threshold filter: the removed column and its fill ratio. */
  datatype LogEntry = LogEntry(column: string, fillRatio: real)

  /** What the threshold filter returns: the remaining frame, the log, the removal count. */
  datatype Removal = Removal(table: DataFrame, logs: seq<LogEntry>, removedCount: nat)

  /** The columns the threshold filter marks for removal, in their original order.
      `ThresholdMembers` shows they are exactly the input columns below the threshold. */
  function Marked(cols: seq<Column>, rows: nat, percent: real): (r: seq<Column>)
    ensures forall k :: 0 <= k < |r| ==> BelowThreshold(r[k], rows, percent)
    ensures IsSubsequence(r, cols)
  {
    if cols == [] then []
    else
      var last := cols[|cols| - 1];
      var init := Marked(cols[..|cols| - 1], rows, percent);
      if BelowThreshold(last, rows, percent) then init + [last] else init
  }

  /** The columns the threshold filter keeps, in their original order.
      `ThresholdMembers` shows they are exactly the input columns not below the threshold. */
  function Kept(cols: seq<Column>, rows: nat, percent: real): (r: seq<Column>)
    ensures forall k :: 0 <= k < |r| ==> !BelowThreshold(r[k], rows, percent)
    ensures IsSubsequence(r, cols)
  {
    if cols == [] then []
    else
      var last := cols[|cols| - 1];
      var init := Kept(cols[..|cols| - 1], rows, percent);
      if BelowThreshold(last, rows, percent) then init else init + [last]
  }

  /** The columns whose names are not in `names`, in their original order. */
  function Drop(cols: seq<Column>, names: seq<string>): (r: seq<Column>)
    ensures forall c :: c in r <==> c in cols && c.name !in names
    ensures IsSubsequence(r, cols)
  {
    if cols == [] then []
    else
      var last := cols[|cols| - 1];
      var init := Drop(cols[..|cols| - 1], names);
      if last.name in names then init else init + [last]
  }

  /** The log the threshold filter writes for the given removed columns. */
  function LogsOf(removed: seq<Column>, rows: nat): (r: seq<LogEntry>)
    requires rows > 0
    ensures |r| == |removed|
    ensures forall k :: 0 <= k < |removed| ==>
              r[k] == LogEntry(removed[k].name, FillRatio(removed[k], rows))
  {
    if removed == [] then []
    else
      var last := removed[|removed| - 1];
      LogsOf(removed[..|removed| - 1], rows) + [LogEntry(last.name, FillRatio(last, rows))]
  }

  /** `remove_columns_by_name`: drops the named columns; a name the frame lacks is an error. */
  function RemoveColumnsByName(df: DataFrame, names: seq<string>): (r: Result<DataFrame>)
    ensures r.Ok? <==> forall n :: n in names ==> n in Names(df.columns)
    ensures r.Err? ==> r.error == ColumnNotFound
    ensures r.Ok? ==> r.value.rows == df.rows
    ensures r.Ok? ==> IsSubsequence(r.value.columns, df.columns)
    ensures r.Ok? ==> forall c :: c in r.value.columns <==> c in df.columns && c.name !in names
    ensures r.Ok? ==> forall c: Column :: c.name !in names ==>
              multiset(r.value.columns)[c] == multiset(df.columns)[c]
  {
    if forall n :: n in names ==> n in Names(df.columns) then
      DropKeepsUnlistedCopies(df.columns, names);
      Ok(DataFrame(Drop(df.columns, names), df.rows))
    else
      Err(ColumnNotFound)
  }

  /** `remove_columns_by_percentage`: rejects a threshold outside [0, 1]; otherwise walks
      the columns in order, logs and counts every column whose fill ratio is below the
      threshold, and drops those columns by name. */
  method RemoveColumnsByPercentage(df: DataFrame, percent: real) returns (r: Result<Removal>)
    requires df.rows > 0
    requires DistinctNames(df.columns)
    ensures r.Err? <==> percent < 0.0 || percent > 1.0
    ensures r.Err? ==> r.error == InvalidArgument
    ensures r.Ok? ==> r.value == Removal(
                        DataFrame(Kept(df.columns, df.rows, percent), df.rows),
                        LogsOf(Marked(df.columns, df.rows, percent), df.rows),
                        |Marked(df.columns, df.rows, percent)|)
    ensures r.Ok? ==> forall c :: c in r.value.table.columns ==> FillRatio(c, df.rows) >= percent
    ensures r.Ok? ==> forall e :: e in r.value.logs ==>
              e.fillRatio < percent &&
              exists c :: c in df.columns && c.name == e.column && FillRatio(c, df.rows) == e.fillRatio
    ensures r.Ok? ==> r.value.removedCount == |r.value.logs|
                                          == |df.columns| - |r.value.table.columns|
    ensures r.Ok? ==> IsSubsequence(r.value.table.columns, df.columns)
  {
    if percent < 0.0 || percent > 1.0 {
      return Err(InvalidArgument);
    }
    var cols, rows := df.columns, df.rows;
    var logs: seq<LogEntry> := [];
    var columnsToRemove: seq<string> := [];
    var removedCount: nat := 0;
    for i := 0 to |cols|
      invariant logs == LogsOf(Marked(cols[..i], rows, percent), rows)
      invariant columnsToRemove == Names(Marked(cols[..i], rows, percent))
      invariant removedCount == |Marked(cols[..i], rows, percent)|
    {
      var column := cols[i];
      var ratio := FillRatio(column, rows);
      BelowThresholdIsRatioTest(column, rows, percent);
      MarkedStep(cols, i, rows, percent);
      if ratio < percent {
        LogsOfSnoc(Marked(cols[..i], rows, percent), column, rows);
        NamesSnoc(Marked(cols[..i], rows, percent), column);
        logs := logs + [LogEntry(column.name, ratio)];
        columnsToRemove := columnsToRemove + [column.name];
        removedCount := removedCount + 1;
      }
    }
    assert cols[..|cols|] == cols;
    ghost var marked, kept := Marked(cols, rows, percent), Kept(cols, rows, percent);
    MarkedNamesExist(cols, rows, percent);
    DropMarkedIsKept(cols, rows, percent);
    var dropped := RemoveColumnsByName(df, columnsToRemove);
    assert dropped == Ok(DataFrame(kept, rows));
    r := Ok(Removal(dropped.value, logs, removedCount));
    ThresholdPartition(cols, rows, percent);
    KeptMeetThreshold(cols, rows, percent);
    LogsReportRemoved(cols, rows, percent);
    assert r.value.logs == LogsOf(marked, rows);
    assert r.value.table.columns == kept;
  }

  /** One more column either extends the marked prefix by itself or leaves it as it was. */
  lemma MarkedStep(cols: seq<Column>, i: nat, rows: nat, percent: real)
    requires i < |cols|
    ensures Marked(cols[..i + 1], rows, percent)
            == if BelowThreshold(cols[i], rows, percent) then Marked(cols[..i], rows, percent) + [cols[i]]
               else Marked(cols[..i], rows, percent)
  {
    assert cols[..i + 1][..i] == cols[..i];
  }

  /** Logging one more removed column appends its entry. */
  lemma LogsOfSnoc(removed: seq<Column>, c: Column, rows: nat)
    requires rows > 0
    ensures LogsOf(removed + [c], rows) == LogsOf(removed, rows) + [LogEntry(c.name, FillRatio(c, rows))]
  {
    assert (removed + [c])[..|removed|] == removed;
  }

  /** Every kept column is filled at least to the threshold. */
  lemma KeptMeetThreshold(cols: seq<Column>, rows: nat, percent: real)
    requires rows > 0
    ensures forall c :: c in Kept(cols, rows, percent) ==> FillRatio(c, rows) >= percent
  {
    var kept := Kept(cols, rows, percent);
    forall c | c in kept ensures FillRatio(c, rows) >= percent {
      var k :| 0 <= k < |kept| && kept[k] == c;
      BelowThresholdIsRatioTest(c, rows, percent);
    }
  }

  /** Every log entry names a column of the input, with its true fill ratio, below the
      threshold. */
  lemma LogsReportRemoved(cols: seq<Column>, rows: nat, percent: real)
    requires rows > 0
    ensures forall e :: e in LogsOf(Marked(cols, rows, percent), rows) ==>
              e.fillRatio < percent &&
              exists c :: c in cols && c.name == e.column && FillRatio(c, rows) == e.fillRatio
  {
    ThresholdMembers(cols, rows, percent);
    var m := Marked(cols, rows, percent);
    var logs := LogsOf(m, rows);
    forall e | e in logs
      ensures e.fillRatio < percent
      ensures exists c :: c in cols && c.name == e.column && FillRatio(c, rows) == e.fillRatio
    {
      var k :| 0 <= k < |m| && logs[k] == e;
      assert m[k] in m;
      BelowThresholdIsRatioTest(m[k], rows, percent);
    }
  }

  /** The marked and the kept columns split the input: together they have its length
      and its elements. */
  lemma {:induction false} ThresholdPartition(cols: seq<Column>, rows: nat, percent: real)
    ensures |Kept(cols, rows, percent)| + |Marked(cols, rows, percent)| == |cols|
    ensures multiset(Kept(cols, rows, percent)) + multiset(Marked(cols, rows, percent))
            == multiset(cols)
  {
    if cols != [] {
      var init, last := cols[..|cols| - 1], cols[|cols| - 1];
      ThresholdPartition(init, rows, percent);
      var m, k := Marked(init, rows, percent), Kept(init, rows, percent);
      assert cols == init + [last];
      assert multiset(cols) == multiset(init) + multiset{last};
      if BelowThreshold(last, rows, percent) {
        assert Marked(cols, rows, percent) == m + [last];
        assert Kept(cols, rows, percent) == k;
        assert multiset(m + [last]) == multiset(m) + multiset{last};
      } else {
        assert Marked(cols, rows, percent) == m;
        assert Kept(cols, rows, percent) == k + [last];
        assert multiset(k + [last]) == multiset(k) + multiset{last};
      }
    }
  }

  /** The marked columns are exactly the input columns below the threshold, and the
      kept columns exactly those at or above it. */
  lemma ThresholdMembers(cols: seq<Column>, rows: nat, percent: real)
    ensures forall c :: c in Marked(cols, rows, percent) <==> c in cols && BelowThreshold(c, rows, percent)
    ensures forall c :: c in Kept(cols, rows, percent) <==> c in cols && !BelowThreshold(c, rows, percent)
  {
    forall c
      ensures c in Marked(cols, rows, percent) <==> c in cols && BelowThreshold(c, rows, percent)
      ensures c in Kept(cols, rows, percent) <==> c in cols && !BelowThreshold(c, rows, percent)
    {
      ThresholdMember(cols, rows, percent, c);
    }
  }

  lemma ThresholdMember(cols: seq<Column>, rows: nat, percent: real, c: Column)
    ensures c in Marked(cols, rows, percent) <==> c in cols && BelowThreshold(c, rows, percent)
    ensures c in Kept(cols, rows, percent) <==> c in cols && !BelowThreshold(c, rows, percent)
  {
    var m, k := Marked(cols, rows, percent), Kept(cols, rows, percent);
    ThresholdPartition(cols, rows, percent);
    assert multiset(k)[c] + multiset(m)[c] == multiset(cols)[c];
    if c in m {
      var i :| 0 <= i < |m| && m[i] == c;
      assert forall j :: 0 <= j < |k| ==> k[j] != c;
    } else if c in k {
      var j :| 0 <= j < |k| && k[j] == c;
    }
  }

  /** Every name in the removal list is a column of the frame, so dropping them cannot fail. */
  lemma MarkedNamesExist(cols: seq<Column>, rows: nat, percent: real)
    ensures forall n :: n in Names(Marked(cols, rows, percent)) ==> n in Names(cols)
  {
    ThresholdMembers(cols, rows, percent);
    var m := Marked(cols, rows, percent);
    forall n | n in Names(m) ensures n in Names(cols) {
      var k :| 0 <= k < |m| && Names(m)[k] == n;
      assert m[k] in m;
      var j :| 0 <= j < |cols| && cols[j] == m[k];
      assert Names(cols)[j] == n;
    }
  }

  /** Dropping by a name list that names exactly the columns below the threshold keeps
      exactly the columns at or above it. */
  lemma {:induction false} DropBelowThresholdNames(cols: seq<Column>, names: seq<string>, rows: nat, percent: real)
    requires forall i :: 0 <= i < |cols| ==> (cols[i].name in names <==> BelowThreshold(cols[i], rows, percent))
    ensures Drop(cols, names) == Kept(cols, rows, percent)
  {
    if cols != [] {
      DropBelowThresholdNames(cols[..|cols| - 1], names, rows, percent);
    }
  }

  /** With distinct column names, dropping the marked columns by name leaves exactly
      the kept columns. */
  lemma DropMarkedIsKept(cols: seq<Column>, rows: nat, percent: real)
    requires DistinctNames(cols)
    ensures Drop(cols, Names(Marked(cols, rows, percent))) == Kept(cols, rows, percent)
  {
    ThresholdMembers(cols, rows, percent);
    var m := Marked(cols, rows, percent);
    var names := Names(m);
    forall i | 0 <= i < |cols|
      ensures cols[i].name in names <==> BelowThreshold(cols[i], rows, percent)
    {
      if BelowThreshold(cols[i], rows, percent) {
        assert cols[i] in m;
        var k :| 0 <= k < |m| && m[k] == cols[i];
        assert names[k] == cols[i].name;
      }
      if cols[i].name in names {
        var k :| 0 <= k < |m| && names[k] == cols[i].name;
        assert m[k] in m;
        var j :| 0 <= j < |cols| && cols[j] == m[k];
        assert cols[j].name == cols[i].name;
        assert j == i;
      }
    }
    DropBelowThresholdNames(cols, names, rows, percent);
  }

  /** A threshold of 0 removes nothing: no fill ratio is negative. */
  lemma {:induction false} ZeroThresholdKeepsAll(cols: seq<Column>, rows: nat)
    ensures Marked(cols, rows, 0.0) == []
    ensures Kept(cols, rows, 0.0) == cols
  {
    if cols != [] {
      ZeroThresholdKeepsAll(cols[..|cols| - 1], rows);
      assert cols[..|cols| - 1] + [cols[|cols| - 1]] == cols;
    }
  }

  /** Dropping an empty name list returns the frame unchanged. */
  lemma RemoveNoNamesIsIdentity(df: DataFrame)
    ensures RemoveColumnsByName(df, []) == Ok(df)
  {
    DropNothing(df.columns);
  }

  /** Dropping by name keeps every copy of an unlisted column: a column that occurs
      several times in the input occurs as often in the result. */
  lemma {:induction false} DropKeepsUnlistedCopies(cols: seq<Column>, names: seq<string>)
    ensures forall c: Column :: c.name !in names ==> multiset(Drop(cols, names))[c] == multiset(cols)[c]
  {
    if cols != [] {
      var init, last := cols[..|cols| - 1], cols[|cols| - 1];
      DropKeepsUnlistedCopies(init, names);
      assert cols == init + [last];
      if last.name in names {
        assert Drop(cols, names) == Drop(init, names);
      } else {
        assert Drop(cols, names) == Drop(init, names) + [last];
      }
    }
  }

  /** Dropping no names keeps every column. */
  lemma {:induction false} DropNothing(cols: seq<Column>)
    ensures Drop(cols, []) == cols
  {
    if cols != [] {
      DropNothing(cols[..|cols| - 1]);
      assert cols[..|cols| - 1] + [cols[|cols| - 1]] == cols;
    }
  }

  /** Columns A (5 of 5 filled), B (2 of 5) and C (0 of 5) at threshold 0.5: only A
      stays, and B and C are logged at 40% and 0%. */
  lemma ThreeColumnExample()
    ensures Kept([Column("A", 5), Column("B", 2), Column("C", 0)], 5, 0.5) == [Column("A", 5)]
    ensures LogsOf(Marked([Column("A", 5), Column("B", 2), Column("C", 0)], 5, 0.5), 5)
            == [LogEntry("B", 0.4), LogEntry("C", 0.0)]
  {
    ExampleMarked();
    ExampleKept();
    ExampleLogs();
  }

  lemma ExampleMarked()
    ensures Marked([Column("A", 5), Column("B", 2), Column("C", 0)], 5, 0.5)
            == [Column("B", 2), Column("C", 0)]
  {
    var a, b, c := Column("A", 5), Column("B", 2), Column("C", 0);
    assert [a, b, c][..2] == [a, b] && [a, b][..1] == [a] && [a][..0] == [];
  }

  lemma ExampleKept()
    ensures Kept([Column("A", 5), Column("B", 2), Column("C", 0)], 5, 0.5) == [Column("A", 5)]
  {
    var a, b, c := Column("A", 5), Column("B", 2), Column("C", 0);
    assert [a, b, c][..2] == [a, b] && [a, b][..1] == [a] && [a][..0] == [];
  }

  lemma ExampleLogs()
    ensures LogsOf([Column("B", 2), Column("C", 0)], 5) == [LogEntry("B", 0.4), LogEntry("C", 0.0)]
  {
  }
}

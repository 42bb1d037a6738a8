/** The reporting table: a new frame whose nine columns are assigned one by
    one, each copied row by row from a fixed column of the cleaned table. */
module Report {
  import opened Table

  /** The output columns, in the order they are assigned. */
  const ReportColumns: seq<string> :=
    ["City", "Cloudiness", "Country", "Humidity", "Date", "Latitude", "Longitude", "Max Temp", "Wind Speed"]

  /** The cleaned-table column each output column is copied from, position by position. */
  const SourceColumns: seq<string> :=
    ["name", "clouds.all", "sys.country", "humidity", "dt", "coord.lat", "coord.lon", "main.temp_max", "wind.speed"]

  /** A table with an explicit column order. */
  datatype Frame = Frame(columns: seq<string>, rows: seq<Row>)

  /** `out` is the reporting row of `row`: it has only report columns, and each
      report column holds exactly the cell of its source column (absent where
      that cell is missing). */
  predicate Projects(out: Row, row: Row)
  {
    (forall c :: c in out ==> c in ReportColumns) &&
    forall k :: 0 <= k < |ReportColumns| ==>
      (ReportColumns[k] in out <==> SourceColumns[k] in row) &&
      (SourceColumns[k] in row ==> out[ReportColumns[k]] == row[SourceColumns[k]])
  }

  /** The cell `df1[name]` gets for one row when `df1[name] = df[field]`. */
  function Assign(target: Row, name: string, source: Row, field: string): Row
  {
    if field in source then target[name := source[field]] else target - {name}
  }

  /** `out` holds the first `m` report columns of `row` and nothing else. */
  predicate ProjectsFirst(out: Row, row: Row, m: nat)
    requires m <= |ReportColumns|
  {
    OnlyColumns(out, m) && CopiesColumns(out, row, m)
  }

  /** Every column of `out` is one of the first `m` report columns. */
  predicate OnlyColumns(out: Row, m: nat)
    requires m <= |ReportColumns|
  {
    forall c :: c in out ==> c in ReportColumns[..m]
  }

  /** Each of the first `m` report columns holds its source cell, if there is one. */
  predicate CopiesColumns(out: Row, row: Row, m: nat)
    requires m <= |ReportColumns|
  {
    forall k :: 0 <= k < m ==>
      (ReportColumns[k] in out <==> SourceColumns[k] in row) &&
      (SourceColumns[k] in row ==> out[ReportColumns[k]] == row[SourceColumns[k]])
  }

  /** Assigning the next report column extends the projected prefix by one. */
  lemma AssignNext(out: Row, row: Row, m: nat)
    requires m < |ReportColumns| && ProjectsFirst(out, row, m)
    ensures ProjectsFirst(Assign(out, ReportColumns[m], row, SourceColumns[m]), row, m + 1)
  {
    AssignKeepsOnly(out, row, m);
    AssignKeepsCopies(out, row, m);
  }

  lemma AssignKeepsOnly(out: Row, row: Row, m: nat)
    requires m < |ReportColumns| && OnlyColumns(out, m)
    ensures OnlyColumns(Assign(out, ReportColumns[m], row, SourceColumns[m]), m + 1)
  {
    var name := ReportColumns[m];
    var r := Assign(out, name, row, SourceColumns[m]);
    assert ReportColumns[..m + 1] == ReportColumns[..m] + [name];
    forall c | c in r
      ensures c in ReportColumns[..m + 1]
    {
      if c != name {
        assert c in out;
      }
    }
  }

  lemma AssignKeepsCopies(out: Row, row: Row, m: nat)
    requires m < |ReportColumns| && CopiesColumns(out, row, m)
    ensures CopiesColumns(Assign(out, ReportColumns[m], row, SourceColumns[m]), row, m + 1)
  {
    var name := ReportColumns[m];
    var r := Assign(out, name, row, SourceColumns[m]);
    forall k | 0 <= k < m
      ensures ReportColumns[k] != name
    {
      ColumnsDistinct(k, m);
    }
  }

  /** The report column names are pairwise different. */
  lemma ColumnsDistinct(k: nat, m: nat)
    requires k < m < |ReportColumns|
    ensures ReportColumns[k] != ReportColumns[m]
  {
  }

  /** `df1[name] = df[field]`: set (or replace) a column of the frame, row by row,
      from a column of `df`. */
  function SetColumn(df1: Frame, name: string, df: seq<Row>, field: string): (g: Frame)
    requires |df1.rows| == |df|
    ensures |g.rows| == |df|
  {
    Frame(if name in df1.columns then df1.columns else df1.columns + [name],
          seq(|df|, i requires 0 <= i < |df| => Assign(df1.rows[i], name, df[i], field)))
  }

  /** A column assignment keeps the existing columns in their order and makes
      `name` a column, adding it at the end only when it is new. */
  lemma SetColumnOrder(df1: Frame, name: string, df: seq<Row>, field: string)
    requires |df1.rows| == |df|
    ensures var g := SetColumn(df1, name, df, field);
      |g.columns| == |df1.columns| + (if name in df1.columns then 0 else 1) &&
      name in g.columns && g.columns[..|df1.columns|] == df1.columns
  {
  }

  /** Row by row, a column assignment copies the source cell into `name` (and
      leaves `name` missing where the source cell is missing), and keeps every
      other cell of the frame as it was. */
  lemma SetColumnCells(df1: Frame, name: string, df: seq<Row>, field: string, i: nat)
    requires |df1.rows| == |df| && i < |df|
    ensures var g := SetColumn(df1, name, df, field);
      (name in g.rows[i] <==> field in df[i]) &&
      (field in df[i] ==> g.rows[i][name] == df[i][field])
    ensures var g := SetColumn(df1, name, df, field);
      forall c :: c != name ==>
        (c in g.rows[i] <==> c in df1.rows[i]) &&
        (c in df1.rows[i] ==> g.rows[i][c] == df1.rows[i][c])
  {
  }

  /** A row after the first `m` column assignments. */
  function BuildRow(row: Row, m: nat): Row
    requires m <= |ReportColumns|
  {
    if m == 0 then map[]
    else Assign(BuildRow(row, m - 1), ReportColumns[m - 1], row, SourceColumns[m - 1])
  }

  /** After `m` assignments a row holds the first `m` report columns of its source. */
  lemma {:induction false} BuildRowFirst(row: Row, m: nat)
    requires m <= |ReportColumns|
    ensures ProjectsFirst(BuildRow(row, m), row, m)
  {
    if m > 0 {
      var before := BuildRow(row, m - 1);
      BuildRowFirst(row, m - 1);
      AssignNext(before, row, m - 1);
      assert BuildRow(row, m) == Assign(before, ReportColumns[m - 1], row, SourceColumns[m - 1]);
    }
  }

  /** Each row the nine assignments build is the reporting row of its source. */
  lemma ReportRowProjects(row: Row)
    ensures Projects(BuildRow(row, |ReportColumns|), row)
  {
    BuildRowFirst(row, |ReportColumns|);
    assert ReportColumns[..|ReportColumns|] == ReportColumns;
  }

  /** `df1` is the frame after the first `m` column assignments on `df`. */
  predicate Built(df1: Frame, df: seq<Row>, m: nat)
    requires m <= |ReportColumns|
  {
    df1.columns == ReportColumns[..m] && |df1.rows| == |df| &&
    forall i :: 0 <= i < |df| ==> df1.rows[i] == BuildRow(df[i], m)
  }

  /** The next assignment of the schema extends the built frame by one column. */
  lemma BuildNext(df1: Frame, df: seq<Row>, m: nat)
    requires m < |ReportColumns| && Built(df1, df, m)
    ensures Built(SetColumn(df1, ReportColumns[m], df, SourceColumns[m]), df, m + 1)
  {
    forall k | 0 <= k < m
      ensures ReportColumns[k] != ReportColumns[m]
    {
      ColumnsDistinct(k, m);
    }
    var g := SetColumn(df1, ReportColumns[m], df, SourceColumns[m]);
    assert ReportColumns[..m + 1] == ReportColumns[..m] + [ReportColumns[m]];
    assert g.columns == df1.columns + [ReportColumns[m]];
    forall i | 0 <= i < |df|
      ensures g.rows[i] == BuildRow(df[i], m + 1)
    {
      assert g.rows[i] == Assign(df1.rows[i], ReportColumns[m], df[i], SourceColumns[m]);
    }
  }

  /** The projection of the script: nine assignments in schema order, the k-th
      copying column `SourceColumns[k]` of `df` into `ReportColumns[k]` (City from
      name, Cloudiness from clouds.all, ..., Wind Speed from wind.speed). The new
      frame takes the row index of `df` with its first column; it is modelled as
      one empty row per row of `df`. */
  method BuildReport(df: seq<Row>) returns (df1: Frame)
    ensures df1.columns == ["City", "Cloudiness", "Country", "Humidity", "Date",
                            "Latitude", "Longitude", "Max Temp", "Wind Speed"]
    ensures |df1.rows| == |df|
    ensures forall i :: 0 <= i < |df| ==> Projects(df1.rows[i], df[i])
  {
    var f0 := Frame([], seq(|df|, _ => map[]));
    assert Built(f0, df, 0);
    var f1 := SetColumn(f0, ReportColumns[0], df, SourceColumns[0]);
    assert Built(f1, df, 1) by { BuildNext(f0, df, 0); }
    var f2 := SetColumn(f1, ReportColumns[1], df, SourceColumns[1]);
    assert Built(f2, df, 2) by { BuildNext(f1, df, 1); }
    var f3 := SetColumn(f2, ReportColumns[2], df, SourceColumns[2]);
    assert Built(f3, df, 3) by { BuildNext(f2, df, 2); }
    var f4 := SetColumn(f3, ReportColumns[3], df, SourceColumns[3]);
    assert Built(f4, df, 4) by { BuildNext(f3, df, 3); }
    var f5 := SetColumn(f4, ReportColumns[4], df, SourceColumns[4]);
    assert Built(f5, df, 5) by { BuildNext(f4, df, 4); }
    var f6 := SetColumn(f5, ReportColumns[5], df, SourceColumns[5]);
    assert Built(f6, df, 6) by { BuildNext(f5, df, 5); }
    var f7 := SetColumn(f6, ReportColumns[6], df, SourceColumns[6]);
    assert Built(f7, df, 7) by { BuildNext(f6, df, 6); }
    var f8 := SetColumn(f7, ReportColumns[7], df, SourceColumns[7]);
    assert Built(f8, df, 8) by { BuildNext(f7, df, 7); }
    df1 := SetColumn(f8, ReportColumns[8], df, SourceColumns[8]);
    assert Built(df1, df, 9) by { BuildNext(f8, df, 8); }
    assert ReportColumns[..9] == ReportColumns;
    forall i | 0 <= i < |df|
      ensures Projects(df1.rows[i], df[i])
    {
      ReportRowProjects(df[i]);
    }
  }

  /** A reporting row is determined by its source row. */
  lemma ProjectsUnique(out1: Row, out2: Row, row: Row)
    requires Projects(out1, row) && Projects(out2, row)
    ensures out1 == out2
  {
    forall c | c in out1
      ensures c in out2 && out1[c] == out2[c]
    {
      var k :| 0 <= k < |ReportColumns| && ReportColumns[k] == c;
    }
    forall c | c in out2
      ensures c in out1
    {
      var k :| 0 <= k < |ReportColumns| && ReportColumns[k] == c;
    }
  }
}

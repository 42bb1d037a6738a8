/** Cleaning the fetched table: the flattened humidity column is renamed, then
    only the rows whose humidity compares `<= 100` are kept. A missing
    humidity cell (NaN) compares false and so drops its row; nothing bounds the
    humidity from below. */
module Clean {
  import opened Table
  import Selection

  /** The rename of one row: the "main.humidity" cell moves to "humidity";
      every other cell stays. */
  function RenameHumidity(row: Row): (r: Row)
    ensures "main.humidity" !in r
    ensures "main.humidity" in row ==> "humidity" in r && r["humidity"] == row["main.humidity"]
    ensures "main.humidity" !in row ==> r == row
    ensures forall c :: c != "humidity" && c != "main.humidity" ==>
              (c in r <==> c in row) && (c in row ==> r[c] == row[c])
  {
    if "main.humidity" in row then (row - {"main.humidity"})["humidity" := row["main.humidity"]]
    else row
  }

  /** `df.humidity <= 100` for one row. */
  predicate HumidityAtMost100(row: Row)
  {
    "humidity" in row && AtMost100(row["humidity"])
  }

  /** The renamed table. */
  function Renamed(df: seq<Row>): seq<Row>
  {
    Selection.Map(RenameHumidity, df)
  }

  /** The cleaned table: renamed, then filtered on humidity. */
  function Cleaned(df: seq<Row>): seq<Row>
  {
    Selection.Filter(HumidityAtMost100, Renamed(df))
  }

  /** The raw row's humidity exceeds 100: the rows `df['main.humidity'] > 100`
      that the script inspects before dropping them. */
  predicate HumidityAbove100(row: Row)
  {
    "main.humidity" in row &&
    match row["main.humidity"]
    case Int(h) => h > 100
    case Num(h) => h > 100.0
    case Text(_) => false
  }

  /** The row holds a numeric humidity under its flattened name. */
  predicate HasNumericHumidity(row: Row)
  {
    "main.humidity" in row && !row["main.humidity"].Text?
  }

  /** The cleaned table keeps exactly the rows under the threshold, renamed and
      otherwise unchanged, in their original order. */
  lemma CleanedExact(df: seq<Row>)
    ensures var pos := Selection.Positions(HumidityAtMost100, Renamed(df));
      |Cleaned(df)| == |pos| && Selection.Ascending(pos) &&
      (forall row :: row in Cleaned(df) ==> HumidityAtMost100(row)) &&
      (forall i :: 0 <= i < |df| ==> (HumidityAtMost100(RenameHumidity(df[i])) <==> i in pos)) &&
      forall j :: 0 <= j < |pos| ==> pos[j] < |df| && Cleaned(df)[j] == RenameHumidity(df[pos[j]])
  {
    Selection.FilterPositions(HumidityAtMost100, Renamed(df));
  }

  /** With a numeric humidity in every row, the cleaned table has as many rows as
      the raw one minus those whose humidity exceeds 100. */
  lemma CleanedCount(df: seq<Row>)
    requires forall i :: 0 <= i < |df| ==> HasNumericHumidity(df[i])
    ensures |Cleaned(df)| == |df| - |Selection.Filter(HumidityAbove100, df)|
  {
    var renamed := Renamed(df);
    Selection.FilterPartition(HumidityAtMost100, HumidityNotAtMost100, renamed);
    forall row | row in df
      ensures HumidityAbove100(row) == HumidityNotAtMost100(RenameHumidity(row))
    {
      DroppedIffAbove100(row);
    }
    Selection.FilterMap(RenameHumidity, HumidityNotAtMost100, HumidityAbove100, df);
  }

  predicate HumidityNotAtMost100(row: Row)
  {
    !HumidityAtMost100(row)
  }

  lemma DroppedIffAbove100(row: Row)
    requires HasNumericHumidity(row)
    ensures !HumidityAtMost100(RenameHumidity(row)) <==> HumidityAbove100(row)
  {
    assert RenameHumidity(row)["humidity"] == row["main.humidity"];
  }

  /** A negative humidity passes the filter: no lower bound is applied. */
  lemma NoLowerBound()
    ensures Cleaned([map["main.humidity" := Int(-5)]]) == [map["humidity" := Int(-5)]]
  {
    var raw: seq<Row> := [map["main.humidity" := Int(-5)]];
    assert Renamed(raw) == [RenameHumidity(raw[0])];
    assert RenameHumidity(raw[0]) == map["humidity" := Int(-5)];
  }

  /** Three raw rows with humidities 95, 150 and 0: the 150 row is dropped. */
  lemma DropsImpossibleHumidity(a: Row, b: Row, c: Row)
    requires a == map["main.humidity" := Int(95)]
    requires b == map["main.humidity" := Int(150)]
    requires c == map["main.humidity" := Int(0)]
    ensures Cleaned([a, b, c]) == [RenameHumidity(a), RenameHumidity(c)]
    ensures |Cleaned([a, b, c])| == 2 && forall row :: row in Cleaned([a, b, c]) ==> row["humidity"] != Int(150)
  {
    var raw := [a, b, c];
    var renamed := Renamed(raw);
    assert renamed == [RenameHumidity(a), RenameHumidity(b), RenameHumidity(c)];
    assert RenameHumidity(a)["humidity"] == Int(95);
    assert RenameHumidity(b)["humidity"] == Int(150);
    assert RenameHumidity(c)["humidity"] == Int(0);
    assert renamed[..2] == [RenameHumidity(a), RenameHumidity(b)];
    assert renamed[..2][..1] == [RenameHumidity(a)];
    assert renamed[..2][..1][..0] == [];
    var p := HumidityAtMost100;
    assert Selection.Filter(p, renamed[..2][..1]) == [RenameHumidity(a)];
    assert Selection.Filter(p, renamed[..2]) == [RenameHumidity(a)];
    assert Selection.Filter(p, renamed) == [RenameHumidity(a), RenameHumidity(c)];
  }
}

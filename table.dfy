/** The flattened tables the script works on.

    A weather response is flattened into one row whose column names are the
    dotted JSON paths ("main.humidity", "coord.lat", ...). A row is modelled as
    a map from column name to cell; a column that is absent from a row stands
    for a missing (NaN) cell. */
module Table {

  /** One cell: an integer, a floating-point number (carried as an opaque real,
      nothing numeric is proved about it) or a string. */
  datatype Value = Int(i: int) | Num(r: real) | Text(s: string)

  /** One row of a table, keyed by column name. */
  type Row = map<string, Value>

  /** A cell compares as `<= 100` in the script's filter. */
  predicate AtMost100(v: Value)
  {
    match v
    case Int(h) => h <= 100
    case Num(h) => h <= 100.0
    case Text(_) => false
  }

  /** The columns of a table built by appending rows: every column that some
      row has. A column no row has is not a column of the table at all, and
      selecting it raises a KeyError. */
  function ColumnsOf(df: seq<Row>): (cols: set<string>)
    ensures forall c :: c in cols <==> exists i :: 0 <= i < |df| && c in df[i]
    decreases |df|
  {
    if df == [] then {}
    else ColumnsOf(df[..|df| - 1]) + df[|df| - 1].Keys
  }
}

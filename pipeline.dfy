/** The modelled part of the script end to end: resolve and deduplicate the
    city names, fetch one record per city, clean the table and project it to
    the reporting schema. */
module Pipeline {
  import opened Table
  import Cities
  import Fetch
  import Clean
  import Report

  /** Humidity in every reported row is present and at most 100: the filter and
      the projection compose. */
  lemma ReportedHumidityBounded(raw: seq<Row>, i: nat, out: Row)
    requires i < |Clean.Cleaned(raw)| && Report.Projects(out, Clean.Cleaned(raw)[i])
    ensures "Humidity" in out && AtMost100(out["Humidity"])
  {
    var row := Clean.Cleaned(raw)[i];
    assert row in Clean.Cleaned(raw);
    assert Report.ReportColumns[3] == "Humidity" && Report.SourceColumns[3] == "humidity";
  }

  /** How a run ends: a KeyError on a column the table does not have, or the
      reporting table. */
  datatype Result = KeyError(column: string) | Done(table: Report.Frame)

  /** The outcome of looking a list of columns up in turn. */
  datatype Lookup = AllPresent | Missing(column: string)

  /** Selecting `names` one after another from a table with columns `cols`:
      the first name that is not a column raises. */
  function FirstMissing(cols: set<string>, names: seq<string>): (r: Lookup)
    ensures r.AllPresent? <==> forall k :: 0 <= k < |names| ==> names[k] in cols
    ensures r.Missing? ==>
      r.column !in cols &&
      exists k :: 0 <= k < |names| && names[k] == r.column && forall j :: 0 <= j < k ==> names[j] in cols
    decreases |names|
  {
    if names == [] then AllPresent
    else if names[0] !in cols then Missing(names[0])
    else
      var r := FirstMissing(cols, names[1..]);
      assert forall k :: 1 <= k < |names| ==> names[k] == names[1..][k - 1];
      r
  }

  /** The column lookups the script makes on its table, in program order: the
      raw `main.humidity` column for the over-100 display, then (after the
      rename, through which that column becomes `humidity`) the nine source
      columns of the reporting table. */
  function Lookups(raw: seq<Row>): Lookup
  {
    if "main.humidity" !in ColumnsOf(raw) then Missing("main.humidity")
    else FirstMissing(ColumnsOf(Clean.Renamed(raw)), Report.SourceColumns)
  }

  /** When no call succeeds the table has no columns, and the script stops at
      its first lookup, of `main.humidity`. */
  lemma EmptyTableRaises()
    ensures Lookups([]) == Missing("main.humidity")
  {
  }

  /** A run that gets past all its lookups fetched at least one record, and
      every source column is present in some renamed row. */
  lemma LookupsPassed(raw: seq<Row>)
    ensures Lookups(raw).AllPresent? ==> |raw| > 0
    ensures Lookups(raw).AllPresent? ==> forall k :: 0 <= k < |Report.SourceColumns| ==>
      exists i :: 0 <= i < |raw| && Report.SourceColumns[k] in Clean.Renamed(raw)[i]
  {
    if Lookups(raw).AllPresent? {
      assert "main.humidity" in ColumnsOf(raw);
    }
  }

  /** The script's data path from resolved names to the reporting table. */
  method Run(resolved: seq<string>, apiKey: string, respond: string -> Fetch.Outcome)
    returns (cities: seq<string>, result: Result)
    ensures cities == Cities.FirstOccurrences(resolved)
    ensures Cities.NoDuplicates(cities) && |cities| <= |resolved|
    ensures forall c :: c in cities <==> c in resolved
    ensures var raw := Fetch.Records(Fetch.Calls(apiKey, respond, cities));
      (result.KeyError? <==> Lookups(raw).Missing?) &&
      (result.KeyError? ==> result.column == Lookups(raw).column)
    ensures (forall i :: 0 <= i < |cities| ==> !Fetch.Succeeds(Fetch.Calls(apiKey, respond, cities)[i])) ==>
      result == KeyError("main.humidity")
    ensures result.Done? ==> result.table.columns == Report.ReportColumns
    ensures result.Done? ==> |result.table.rows| <= |cities|
    ensures result.Done? ==>
      var df := Clean.Cleaned(Fetch.Records(Fetch.Calls(apiKey, respond, cities)));
      |result.table.rows| == |df| &&
      forall i :: 0 <= i < |df| ==> Report.Projects(result.table.rows[i], df[i])
    ensures result.Done? ==> forall i :: 0 <= i < |result.table.rows| ==>
      "Humidity" in result.table.rows[i] && AtMost100(result.table.rows[i]["Humidity"])
  {
    cities := Cities.CollectCities(resolved);
    assert |cities| <= |resolved|;
    var raw, x, log := Fetch.FetchWeather(apiKey, cities, respond);
    assert |raw| <= |cities| by {
      Fetch.CounterArithmetic(Fetch.Calls(apiKey, respond, cities));
    }
    assert (forall i :: 0 <= i < |cities| ==> !Fetch.Succeeds(Fetch.Calls(apiKey, respond, cities)[i])) ==> raw == [] by {
      Fetch.EmptyIffNoSuccess(Fetch.Calls(apiKey, respond, cities));
    }
    if "main.humidity" !in ColumnsOf(raw) {
      result := KeyError("main.humidity");
      return;
    }
    var df := Clean.Cleaned(raw);
    assert |df| <= |raw|;
    var lookup := FirstMissing(ColumnsOf(Clean.Renamed(raw)), Report.SourceColumns);
    if lookup.Missing? {
      result := KeyError(lookup.column);
      return;
    }
    var df1 := Report.BuildReport(df);
    forall i | 0 <= i < |df1.rows|
      ensures "Humidity" in df1.rows[i] && AtMost100(df1.rows[i]["Humidity"])
    {
      ReportedHumidityBounded(raw, i, df1.rows[i]);
    }
    result := Done(df1);
  }
}

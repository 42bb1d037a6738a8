/** The weather fetch: one query per city, in list order. A response whose
    `cod` field is 200 is flattened into a row and appended to the table;
    any other response, a response without `cod`, and any exception append
    nothing and never stop the loop. A progress counter `x`, starting at 1,
    goes up on each success and down on each failure; its value is printed
    with every success. */
module Fetch {
  import opened Table
  import Selection

  /** The endpoint prefix; it already ends in the query-string separator. */
  const BaseUrl := "http://api.openweathermap.org/data/2.5/weather?"

  /** The query for one city: key and city inserted verbatim, nothing escaped. */
  function QueryUrl(apiKey: string, city: string): (url: string)
    ensures |url| == |BaseUrl| + |apiKey| + |city| + 24
    ensures url[..|BaseUrl|] == BaseUrl
    ensures url[|url| - 15..] == "&units=imperial"
    ensures url[|BaseUrl|..|BaseUrl| + 6] == "appid=" && url[|BaseUrl| + 6..|BaseUrl| + 6 + |apiKey|] == apiKey
    ensures url[|BaseUrl| + 6 + |apiKey|..|BaseUrl| + |apiKey| + 9] == "&q="
    ensures url[|BaseUrl| + |apiKey| + 9..|url| - 15] == city
  {
    BaseUrl + "appid=" + apiKey + "&q=" + city + "&units=imperial"
  }

  /** What the HTTP call gives back: a (flattened) JSON body, or an exception
      from the request or the JSON decoding. */
  datatype Outcome = Response(body: Row) | Raised

  /** One iteration's input: the city and the outcome of its query. */
  datatype Call = Call(city: string, outcome: Outcome)

  /** Python's `cod == 200`: holds for the integer 200 and the float 200.0,
      not for a string such as "404". */
  predicate IsOk(cod: Value)
  {
    cod == Int(200) || cod == Num(200.0)
  }

  /** The call for which a record is appended. A body without `cod` makes
      `response['cod']` raise, which the exception handler absorbs. */
  predicate Succeeds(c: Call)
  {
    c.outcome.Response? && "cod" in c.outcome.body && IsOk(c.outcome.body["cod"])
  }

  /** The calls the loop makes, the HTTP call modelled by `respond`. */
  function Calls(apiKey: string, respond: string -> Outcome, cities: seq<string>): (r: seq<Call>)
    ensures |r| == |cities|
    ensures forall i :: 0 <= i < |cities| ==> r[i] == Call(cities[i], respond(QueryUrl(apiKey, cities[i])))
    decreases |cities|
  {
    if cities == [] then []
    else
      var last := cities[|cities| - 1];
      Calls(apiKey, respond, cities[..|cities| - 1]) + [Call(last, respond(QueryUrl(apiKey, last)))]
  }

  /** The table after the calls: the bodies of the successful ones. */
  function Records(calls: seq<Call>): seq<Row>
    decreases |calls|
  {
    if calls == [] then []
    else
      var last := calls[|calls| - 1];
      Records(calls[..|calls| - 1]) + (if Succeeds(last) then [last.outcome.body] else [])
  }

  /** The body a call carries; the empty row for an exception. */
  function Body(c: Call): Row
  {
    if c.outcome.Response? then c.outcome.body else map[]
  }

  /** The table is the order-preserving selection of the successful calls,
      each replaced by its body. */
  lemma {:induction false} RecordsAreSelectedBodies(calls: seq<Call>)
    ensures Records(calls) == Selection.Map(Body, Selection.Filter(Succeeds, calls))
    decreases |calls|
  {
    if calls != [] {
      var init := calls[..|calls| - 1];
      var last := calls[|calls| - 1];
      RecordsAreSelectedBodies(init);
      assert Selection.Filter(Succeeds, calls)
        == Selection.Filter(Succeeds, init) + (if Succeeds(last) then [last] else []);
      if Succeeds(last) {
        Selection.MapSnoc(Body, Selection.Filter(Succeeds, init), last);
      }
    }
  }

  /** The table stays empty exactly when no call succeeds. */
  lemma EmptyIffNoSuccess(calls: seq<Call>)
    ensures Records(calls) == [] <==> forall i :: 0 <= i < |calls| ==> !Succeeds(calls[i])
  {
    var pos := Selection.Positions(Succeeds, calls);
    RecordsAtPositions(calls);
    Selection.PositionsExact(Succeeds, calls);
    if Records(calls) != [] {
      assert Succeeds(calls[pos[0]]);
    }
  }

  /** The counter `x` after the calls. */
  function Counter(calls: seq<Call>): int
    decreases |calls|
  {
    if calls == [] then 1
    else Counter(calls[..|calls| - 1]) + (if Succeeds(calls[|calls| - 1]) then 1 else -1)
  }

  /** One progress line, "Processing Record data for {n} of Set 1 | {city}". */
  datatype Progress = Progress(n: int, city: string)

  /** The progress lines printed for the calls: one per success, carrying the
      counter as it stood before that success. */
  function Log(calls: seq<Call>): seq<Progress>
    decreases |calls|
  {
    if calls == [] then []
    else
      var init := calls[..|calls| - 1];
      var last := calls[|calls| - 1];
      Log(init) + (if Succeeds(last) then [Progress(Counter(init), last.city)] else [])
  }

  /** The fetch loop of the script. */
  method FetchWeather(apiKey: string, cities: seq<string>, respond: string -> Outcome)
    returns (df: seq<Row>, x: int, log: seq<Progress>)
    ensures df == Records(Calls(apiKey, respond, cities))
    ensures x == Counter(Calls(apiKey, respond, cities))
    ensures log == Log(Calls(apiKey, respond, cities))
  {
    df, x, log := [], 1, [];
    for k := 0 to |cities|
      invariant df == Records(Calls(apiKey, respond, cities[..k]))
      invariant x == Counter(Calls(apiKey, respond, cities[..k]))
      invariant log == Log(Calls(apiKey, respond, cities[..k]))
    {
      var city := cities[k];
      CallsStep(apiKey, respond, cities, k);
      Step(Calls(apiKey, respond, cities[..k]), Call(city, respond(QueryUrl(apiKey, city))));
      var queryUrl := QueryUrl(apiKey, city);
      var response := respond(queryUrl);
      match response {
        case Raised =>
          x := x - 1;
        case Response(body) =>
          if "cod" !in body {
            x := x - 1;
          } else if IsOk(body["cod"]) {
            log := log + [Progress(x, city)];
            df := df + [body];
            x := x + 1;
          } else {
            x := x - 1;
          }
      }
    }
    assert cities[..|cities|] == cities;
  }

  lemma CallsStep(apiKey: string, respond: string -> Outcome, cities: seq<string>, k: nat)
    requires k < |cities|
    ensures var before := Calls(apiKey, respond, cities[..k]);
      var c := Call(cities[k], respond(QueryUrl(apiKey, cities[k])));
      var after := Calls(apiKey, respond, cities[..k + 1]);
      after == before + [c] && after[..k] == before
  {
    assert cities[..k + 1][..k] == cities[..k];
  }

  /** After the loop, x = 1 + successes - failures. */
  lemma {:induction false} CounterArithmetic(calls: seq<Call>)
    ensures |Records(calls)| <= |calls|
    ensures Counter(calls) == 1 + |Records(calls)| - (|calls| - |Records(calls)|)
    decreases |calls|
  {
    if calls != [] {
      CounterArithmetic(calls[..|calls| - 1]);
    }
  }

  /** One more call extends the table, the counter and the log as one loop
      iteration does. */
  lemma Step(calls: seq<Call>, c: Call)
    ensures Records(calls + [c]) == Records(calls) + (if Succeeds(c) then [c.outcome.body] else [])
    ensures Counter(calls + [c]) == Counter(calls) + (if Succeeds(c) then 1 else -1)
    ensures Log(calls + [c]) == Log(calls) + (if Succeeds(c) then [Progress(Counter(calls), c.city)] else [])
  {
    assert (calls + [c])[..|calls|] == calls;
  }

  lemma {:induction false} RecordsAtPositions(calls: seq<Call>)
    ensures var pos := Selection.Positions(Succeeds, calls);
      |Records(calls)| == |pos| &&
      forall j :: 0 <= j < |pos| ==>
        pos[j] < |calls| && Succeeds(calls[pos[j]]) &&
        Records(calls)[j] == calls[pos[j]].outcome.body
    decreases |calls|
  {
    if calls != [] {
      var n := |calls| - 1;
      var init, last := calls[..n], calls[n];
      RecordsAtPositions(init);
      var pos' := Selection.Positions(Succeeds, init);
      assert Selection.Positions(Succeeds, calls) == pos' + (if Succeeds(last) then [n] else []);
      assert Records(calls) == Records(init) + (if Succeeds(last) then [last.outcome.body] else []);
      forall j | 0 <= j < |pos'|
        ensures calls[pos'[j]] == init[pos'[j]]
      {
      }
    }
  }

  /** j successes precede the j-th successful call. */
  lemma {:induction false} RecordsBeforePositions(calls: seq<Call>)
    ensures var pos := Selection.Positions(Succeeds, calls);
      forall j :: 0 <= j < |pos| ==> pos[j] < |calls| && |Records(calls[..pos[j]])| == j
    decreases |calls|
  {
    if calls != [] {
      var n := |calls| - 1;
      var init, last := calls[..n], calls[n];
      RecordsBeforePositions(init);
      RecordsAtPositions(init);
      var pos' := Selection.Positions(Succeeds, init);
      assert Selection.Positions(Succeeds, calls) == pos' + (if Succeeds(last) then [n] else []);
      forall j | 0 <= j < |pos'|
        ensures calls[..pos'[j]] == init[..pos'[j]]
      {
      }
      assert calls[..n] == init;
    }
  }

  lemma {:induction false} LogAtPositions(calls: seq<Call>)
    ensures var pos := Selection.Positions(Succeeds, calls);
      |Log(calls)| == |pos| &&
      forall j :: 0 <= j < |pos| ==>
        pos[j] < |calls| && Log(calls)[j] == Progress(2 * j + 1 - pos[j], calls[pos[j]].city)
    decreases |calls|
  {
    if calls != [] {
      var n := |calls| - 1;
      var init, last := calls[..n], calls[n];
      LogAtPositions(init);
      RecordsAtPositions(init);
      CounterArithmetic(init);
      var pos' := Selection.Positions(Succeeds, init);
      assert Selection.Positions(Succeeds, calls) == pos' + (if Succeeds(last) then [n] else []);
      assert Log(calls) == Log(init) + (if Succeeds(last) then [Progress(Counter(init), last.city)] else []);
      forall j | 0 <= j < |pos'|
        ensures calls[pos'[j]] == init[pos'[j]]
      {
      }
    }
  }

  /** The table holds exactly the bodies of the successful calls, in city
      order: the j-th record comes from the j-th successful call, a call's
      body is appended if and only if it succeeds, and the line printed for
      the j-th record shows 2j + 1 - p, where p is the position of its city. */
  lemma FetchedInCityOrder(calls: seq<Call>)
    ensures var pos := Selection.Positions(Succeeds, calls);
      |Records(calls)| == |pos| && |Log(calls)| == |pos| &&
      Selection.Ascending(pos) &&
      (forall i :: 0 <= i < |calls| ==> (Succeeds(calls[i]) <==> i in pos)) &&
      forall j :: 0 <= j < |pos| ==>
        pos[j] < |calls| && Succeeds(calls[pos[j]]) &&
        Records(calls)[j] == calls[pos[j]].outcome.body &&
        Log(calls)[j] == Progress(2 * j + 1 - pos[j], calls[pos[j]].city)
  {
    Selection.FilterPositions(Succeeds, calls);
    RecordsAtPositions(calls);
    LogAtPositions(calls);
  }

  /** The printed index equals the running record number exactly when no call
      before that record's failed. */
  lemma PrintedIndexIsRecordNumber(calls: seq<Call>, j: nat)
    requires j < |Selection.Positions(Succeeds, calls)|
    ensures |Log(calls)| == |Selection.Positions(Succeeds, calls)|
    ensures Selection.Positions(Succeeds, calls)[j] < |calls|
    ensures var p := Selection.Positions(Succeeds, calls)[j];
      Log(calls)[j].n == j + 1 <==> forall i :: 0 <= i < p ==> Succeeds(calls[i])
  {
    RecordsAtPositions(calls);
    RecordsBeforePositions(calls);
    LogAtPositions(calls);
    var p := Selection.Positions(Succeeds, calls)[j];
    AllSucceedIffFullCount(calls[..p]);
    assert forall i :: 0 <= i < p ==> calls[..p][i] == calls[i];
  }

  /** Every call succeeded exactly when each of them appended a record. */
  lemma {:induction false} AllSucceedIffFullCount(calls: seq<Call>)
    ensures |Records(calls)| == |calls| <==> forall i :: 0 <= i < |calls| ==> Succeeds(calls[i])
    decreases |calls|
  {
    if calls != [] {
      var init := calls[..|calls| - 1];
      AllSucceedIffFullCount(init);
      CounterArithmetic(init);
      assert forall i :: 0 <= i < |init| ==> init[i] == calls[i];
    }
  }

  /** A failed first call shifts the printed numbering: the first record is
      announced as number 0. */
  lemma FailureShiftsNumbering(body: Row)
    requires "cod" in body && body["cod"] == Int(200)
    ensures Log([Call("a", Raised), Call("b", Response(body))]) == [Progress(0, "b")]
  {
    var calls := [Call("a", Raised), Call("b", Response(body))];
    assert calls[..1] == [Call("a", Raised)];
    assert calls[..1][..0] == [];
    assert Counter(calls[..1]) == 0;
    assert Log(calls[..1]) == [];
  }
}

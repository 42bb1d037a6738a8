# WeatherPy data path, modelled in Dafny

WeatherPy is a linear notebook script. It samples random coordinates and resolves each one to the nearest city name. It queries the OpenWeatherMap current-weather API once per city and collects the successful responses into a flat table. It drops rows with impossible humidity and projects the rest to a nine-column reporting table, which it writes to CSV and plots.

This project models the four deterministic pieces of that script. The external calls become inputs.

- **City list** (module `Cities`): the resolved names are the input. A name is appended only when the list does not already hold it.
- **Fetch loop** (module `Fetch`): the query URL is built by plain concatenation. The HTTP call is a parameter `respond` that maps each URL to an `Outcome`: a flattened JSON body, or an exception. A body is appended only when its `cod` equals 200. The progress counter `x` and the printed progress lines are computed exactly.
- **Cleaning** (module `Clean`): the column `main.humidity` is renamed to `humidity`. Then exactly the rows whose humidity compares `<= 100` are kept, in order.
- **Reporting table** (module `Report`): a new frame is filled by nine column assignments. Each one copies a fixed column of the cleaned table, row by row.
- `Pipeline.Run` chains the four steps and stops with a KeyError where the script would. `Selection` holds an order-preserving filter and an elementwise map. The humidity filter is defined with them. The fetch loop's table has its own recursion, and `Fetch.RecordsAreSelectedBodies` proves it equal to the successful calls' bodies as selected and mapped by `Selection`. `Table` holds the cell and row types and the column set of a table.

A row is a map from column name to cell. Column names are the flattened dotted JSON paths (`main.humidity`, `coord.lat`, ...). A column missing from a row stands for a pandas NaN cell. A cell is an integer, a float or a string. Floats are carried as opaque `real` values, and nothing numeric is proved about them.

The script applies only `humidity <= 100`. Nothing bounds humidity from below, so a negative humidity is kept (`Clean.NoLowerBound`).

The table's columns are those of the rows appended to it. A column that no row has is not a column at all, and selecting it raises a KeyError that ends the script. This happens at the `main.humidity` lookup (line 113) when no call succeeded, and at one of the nine assignments (lines 149-157) when no fetched row has that field. `Pipeline.Run` returns that KeyError instead of a table.

## Model

| member | source | states |
|---|---|---|
| Cities.FirstOccurrences | WeatherPy_API_Challenge_Billy_Zhao.py:63-68 | the kept names are exactly the resolved names (both directions), with no duplicates, and there are at most as many as there are coordinates |
| Cities.CollectCities | WeatherPy_API_Challenge_Billy_Zhao.py:63-68 | the appending loop yields the first-occurrence list: duplicate-free, holding exactly the resolved names |
| Cities.FirstOccurrencesOnce | WeatherPy_API_Challenge_Billy_Zhao.py:63-68 | every resolved name occurs in the city list exactly once (multiplicity 1) |
| Cities.FirstOccurrencesOrder | WeatherPy_API_Challenge_Billy_Zhao.py:63-68 | the city list is ordered by the position where each name was first resolved |
| Cities.TokyoParis | WeatherPy_API_Challenge_Billy_Zhao.py:63-68 | resolving to tokyo, tokyo, paris gives the list tokyo, paris |
| Fetch.QueryUrl | WeatherPy_API_Challenge_Billy_Zhao.py:92 | the URL starts with the endpoint prefix, then `appid=` and the key, and ends with `&units=imperial`; the city stands verbatim between `&q=` and that suffix, so it can be read back unchanged |
| Fetch.IsOk | WeatherPy_API_Challenge_Billy_Zhao.py:95 | definition of `cod == 200`: the integer 200 or the float 200.0; characterised by Fetch.Succeeds and Fetch.FetchWeather |
| Fetch.Succeeds | WeatherPy_API_Challenge_Billy_Zhao.py:94-95 | definition: a response, not an exception, whose `cod` is present and equal to 200; a body without `cod` raises a KeyError and counts as a failure; characterised by Fetch.FetchWeather and Fetch.FetchedInCityOrder |
| Fetch.Records | WeatherPy_API_Challenge_Billy_Zhao.py:87-97 | definition of the table after the loop: the successful calls' bodies, appended in call order; characterised by Fetch.RecordsAreSelectedBodies and Fetch.FetchedInCityOrder |
| Fetch.Counter | WeatherPy_API_Challenge_Billy_Zhao.py:88-103 | definition of `x` after the loop: 1, plus 1 per success and minus 1 per failure; characterised by Fetch.CounterArithmetic |
| Fetch.Log | WeatherPy_API_Challenge_Billy_Zhao.py:96 | definition of the printed progress lines: one per success, showing `x` as it stood before that success; characterised by Fetch.FetchedInCityOrder and Fetch.PrintedIndexIsRecordNumber |
| Fetch.Calls | WeatherPy_API_Challenge_Billy_Zhao.py:91-94 | the loop queries every city once, in list order, with that city's own query URL |
| Fetch.FetchWeather | WeatherPy_API_Challenge_Billy_Zhao.py:87-104 | the loop's final table, counter and printed lines are those of the recorded calls: bodies of the successful calls, the counter from 1, and one line per success |
| Fetch.RecordsAreSelectedBodies | WeatherPy_API_Challenge_Billy_Zhao.py:93-97 | the table is the bodies of exactly the successful calls, in call order |
| Fetch.EmptyIffNoSuccess | WeatherPy_API_Challenge_Billy_Zhao.py:93-104 | the table stays empty if and only if no call succeeds |
| Fetch.CounterArithmetic | WeatherPy_API_Challenge_Billy_Zhao.py:88-103 | after the loop x = 1 + successes - failures, with successes at most the number of cities |
| Fetch.FetchedInCityOrder | WeatherPy_API_Challenge_Billy_Zhao.py:91-104 | a city's body is appended if and only if its call succeeded; the j-th record and j-th printed line come from the j-th successful city in list order; that line shows 2j + 1 - p, p being the city's position |
| Fetch.PrintedIndexIsRecordNumber | WeatherPy_API_Challenge_Billy_Zhao.py:96-103 | the printed index equals the running record number if and only if no earlier call failed |
| Fetch.FailureShiftsNumbering | WeatherPy_API_Challenge_Billy_Zhao.py:96-103 | when the first call fails and the second succeeds, that record is printed as number 0 |
| Selection.Filter | WeatherPy_API_Challenge_Billy_Zhao.py:135 | the row selection keeps at most the rows it is given, each of them an input row that passes the test |
| Selection.FilterPositions | WeatherPy_API_Challenge_Billy_Zhao.py:135 | the selection is the subsequence at ascending positions, and a position is selected if and only if its element passes the test |
| Clean.Renamed | WeatherPy_API_Challenge_Billy_Zhao.py:134 | definition: every row renamed, in order; characterised by Clean.RenameHumidity and Selection.Map |
| Clean.HumidityAtMost100 | WeatherPy_API_Challenge_Billy_Zhao.py:135 | definition of the mask `humidity <= 100`; a missing cell (NaN) fails it; characterised by Clean.CleanedExact and Clean.DroppedIffAbove100 |
| Clean.Cleaned | WeatherPy_API_Challenge_Billy_Zhao.py:134-135 | definition: the renamed rows that pass the mask, in order; characterised by Clean.CleanedExact and Clean.CleanedCount |
| Clean.RenameHumidity | WeatherPy_API_Challenge_Billy_Zhao.py:134 | the `main.humidity` cell moves to `humidity` and `main.humidity` is gone; every other cell is unchanged; a row without that cell is left as it is |
| Clean.CleanedExact | WeatherPy_API_Challenge_Billy_Zhao.py:134-135 | the cleaned table holds exactly the rows whose renamed humidity is `<= 100`: renamed but otherwise unchanged, in original order, each satisfying the bound |
| Clean.CleanedCount | WeatherPy_API_Challenge_Billy_Zhao.py:113-135 | when every row has a numeric humidity, the cleaned row count is the raw count minus the rows with `main.humidity > 100` |
| Clean.DroppedIffAbove100 | WeatherPy_API_Challenge_Billy_Zhao.py:113-135 | for a row with a numeric humidity, the filter drops it if and only if its raw humidity exceeds 100 |
| Clean.NoLowerBound | WeatherPy_API_Challenge_Billy_Zhao.py:135 | a row with humidity -5 is kept: no lower bound is applied |
| Clean.DropsImpossibleHumidity | WeatherPy_API_Challenge_Billy_Zhao.py:134-135 | rows with humidity 95, 150 and 0 clean to the two renamed rows 95 and 0; the 150 row is absent |
| Report.SetColumn | WeatherPy_API_Challenge_Billy_Zhao.py:149-157 | one assignment `df1[name] = df[field]`: the frame keeps one row per source row; its effect is characterised by Report.SetColumnOrder and Report.SetColumnCells |
| Report.SetColumnOrder | WeatherPy_API_Challenge_Billy_Zhao.py:149-157 | a column assignment keeps the existing columns in order and makes the name a column, adding it at the end only when it is new |
| Report.SetColumnCells | WeatherPy_API_Challenge_Billy_Zhao.py:149-157 | in row i the assigned column holds the source cell of row i, and is missing exactly where that cell is missing; every other cell of the row is unchanged |
| Report.ReportRowProjects | WeatherPy_API_Challenge_Billy_Zhao.py:149-157 | the nine assignments give each row only the nine report columns, each holding its source column's cell, and missing exactly where that cell is missing |
| Report.BuildReport | WeatherPy_API_Challenge_Billy_Zhao.py:147-157 | the frame's columns are City, Cloudiness, Country, Humidity, Date, Latitude, Longitude, Max Temp, Wind Speed in that order; it has as many rows as the cleaned table, and row i projects cleaned row i |
| Report.ProjectsUnique | WeatherPy_API_Challenge_Billy_Zhao.py:147-157 | the projection contract fixes each reporting row completely |
| Pipeline.ReportedHumidityBounded | WeatherPy_API_Challenge_Billy_Zhao.py:135-152 | every reporting row built from a cleaned row has a Humidity cell that is at most 100 |
| Table.ColumnsOf | WeatherPy_API_Challenge_Billy_Zhao.py:87-97 | a name is a column of the appended table if and only if some row has it |
| Pipeline.Lookups | WeatherPy_API_Challenge_Billy_Zhao.py:113-157 | definition of the script's column lookups in program order: raw `main.humidity` (line 113), then the nine source columns after the rename (lines 149-157); characterised by Pipeline.FirstMissing, Pipeline.EmptyTableRaises and Pipeline.LookupsPassed |
| Pipeline.FirstMissing | WeatherPy_API_Challenge_Billy_Zhao.py:149-157 | selecting the columns in turn succeeds if and only if all are present; otherwise it fails on the first absent one, all earlier ones being present |
| Pipeline.EmptyTableRaises | WeatherPy_API_Challenge_Billy_Zhao.py:113 | with no fetched record, the script raises a KeyError on `main.humidity` |
| Pipeline.LookupsPassed | WeatherPy_API_Challenge_Billy_Zhao.py:113-157 | a run that passes every lookup fetched at least one record, and each of the nine source columns is in some renamed row |
| Pipeline.Run | WeatherPy_API_Challenge_Billy_Zhao.py:63-157 | the city list is the first-occurrence list of the resolved names; a KeyError exactly when a lookup fails, on the first absent column, and always on `main.humidity` when no call succeeded; otherwise a table with the nine report columns whose row i is the projection of cleaned row i, so no more rows than cities and every Humidity present and at most 100 |

## Left out

- Random coordinate generation (lines 58-60): nondeterministic floating point. The resolved names are the input instead.
- The `citipy.nearest_city` lookup (line 64): an external dataset. Its results, one per coordinate, are the input.
- The HTTP request and JSON decoding (line 94): network I/O. They become the parameter `respond`, a function from URL to outcome. Two identical URLs therefore get the same outcome in the model.
- The API key from the `config` module (line 31): an opaque string parameter.
- `json_normalize` and `DataFrame.append` (line 97): the body in an outcome is already the flattened row. The column set of the appended table is modelled (`Table.ColumnsOf`). The model does not capture the sorting of columns (`sort=True`), the NaN cells that `append` fills in for a row's missing columns, or the duplicate row index it produces. An exception raised by `append` after the progress line was printed is not modelled either.
- pandas column alignment and dtypes: a value missing from a row is an absent key, and integers are not widened to floats when a column has gaps. A row that has no `main.humidity` but already has a `humidity` cell keeps that cell on rename.
- Clean.HumidityAtMost100: a string humidity cell drops its row, where pandas would raise a type error for the whole comparison.
- Report.BuildReport: the new frame `pd.DataFrame()` takes its row index from the first column assignment. This is modelled as one empty row per cleaned row.
- Float-valued fields (latitude, longitude, temperature, wind speed) are carried as opaque reals. Nothing numeric is proved about them.
- CSV export (line 160), the date string (lines 44-45) and all plotting (lines 183-232): file I/O, wall-clock time and UI.
- Console output: the two banner lines (89-90) and the display-only expressions (lines 71, 113, 120, 127, 136, 163, 170) are not modelled, except that the `main.humidity` lookup at line 113 can raise. The progress lines are returned as values (`Fetch.Log`) rather than printed.

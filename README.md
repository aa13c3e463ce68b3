# Flight map data pipeline, modelled in Dafny

This project models the data pipeline behind a flight-route map. It covers two files:

- `data_process/h.py`: how schedule rows become flights and flights become routes.
  - `parse_time`, `parse_days`, `is_morning_flight` and `classify_aircraft_size` normalise a row's cells.
  - The row loop of `create_flight_visualization` turns table rows into flight records and collects airports, aircraft types and size buckets.
  - `merge_flights_to_routes` groups flights by the key `departure-arrival` in first-seen order. It ORs their morning/evening flags, collects airlines, types, sizes and single aircraft codes, and gives each route a colour and type.
- `data_process/pre.py`: the preprocessing that produces the schedule table.
  - `read_md_to_excel`, after the file is read: header line, data rows with the header's number of cells, stripped cells.
  - The night-window test and `filter_flight_by_time`.
  - The airline code, name and fleet lookups.
  - `find_airport_name`.
  - The in-place changes `process_flight_data` makes to the table: drop the product column, insert the airline name first, normalise the two city columns, insert the arrival time after the departure time, set the fleet column.

Modules:

- `Wrappers`: `Option` and `Result`.
- `Text`: the Python string operations the source relies on (`isspace`/`strip`, `int()`, `split`, `re.split(r'\t+')`, `replace`, `upper`, substring `in`).
- `Lists`: generic sequence helpers: map, the present values of a list of options, first match, filter, distinctness.
- `Normalize`: the four record functions of `h.py`.
- `Flights`: the row loop. `BuildFlights` is a method proved against the function `FlightsOf`.
- `Routes`: the aggregator. `MergeFlightsToRoutes` and `GroupFlights` are loops proved against `RoutesOf` and `Table`; `Fold` is one route's accumulator.
- `TextTable`: the text-table reader. `ReadTable`, `FindHeader`, `CollectRows` and `StripColumns` are loops proved against `ParseTable`.
- `Preprocess`: the night test, the lookups and the processing.
  - `Frame` is the table object whose `Drop`, `Insert` and `Assign` methods change it in place.
  - `ProcessFlightData` runs the steps on a `Frame` and is proved against the function `Processed`, whose properties are lemmas.

A missing spreadsheet cell (pandas NaN) is `None`. Coordinates are opaque values. The airport table is a list of (full name, short name) pairs in the table's order. The time reader used by the night filter (`datetime.strptime` with three formats) is a parameter `clock`.

## Model

| member | source | states |
|---|---|---|
| Text.Strip | data_process/h.py:36 | `str.strip()`: the result is no longer than the input and neither starts nor ends with whitespace (Python's `isspace` set) |
| Text.StripIdempotent | data_process/pre.py:34-44 | stripping an already stripped cell changes nothing |
| Text.PyIntOfDigits | data_process/h.py:41 | `int()` of a string of digits is its decimal value |
| Text.JoinSplitOn | data_process/pre.py:14 | splitting at a separator and joining the parts back with it gives the text again |
| Text.SplitTabRunsNoTab | data_process/pre.py:30 | `re.split(r'\t+')`: no cell contains a tab |
| Text.SplitTabRunsConcat | data_process/pre.py:30 | the cells glued together are the line without its tabs |
| Text.TokensNoSpace | data_process/h.py:150 | `split()` yields non-empty words without whitespace |
| Text.TokensConcat | data_process/h.py:150 | the words glued together are the text without its whitespace |
| Text.ContainsAt | data_process/pre.py:157 | substring `in` holds exactly when the text is a slice at some position |
| Normalize.ParseTimeMinutesOnly | data_process/h.py:45-46 | one or two digits (no leading zero) are the minutes of hour 0: "5" is 00:05 |
| Normalize.ParseTimeThreeDigits | data_process/h.py:47-48 | three digits (no leading zero) are H and MM: "815" is 08:15 |
| Normalize.ParseTimeFourOrMore | data_process/h.py:49-50 | four or more digits (no leading zero) are HH and the rest: "2250" is 22:50 |
| Normalize.ParseTimeOfDigits | data_process/h.py:44-50 | a digit cell is read through `str(int(float(s)))`, that is, with its leading zeros dropped, then fixed-width |
| Normalize.ParseTimeUpToFourDigits | data_process/h.py:44-50 | one to four digits read as HHMM: hour = value / 100 and minute = value % 100, with no range check |
| Normalize.ParseTimeNextDay | data_process/h.py:54-61 | a parsed time is "next day" exactly when its hour is below 6, and its display ends in the suffix exactly then |
| Normalize.ParseTimeDisplayRoundTrip | data_process/h.py:40-41 | for two-digit fields, a display without the suffix parses back to the same hour and minute |
| Normalize.ClockTextParses | data_process/h.py:40-41 | "HH:MM" with two-digit fields parses to that hour and minute |
| Normalize.ParseTimeNeedsDigit | data_process/h.py:33-52 | a cell without any digit gives `None` |
| Normalize.ParseDaysIgnoresStrip | data_process/h.py:74-79 | whitespace holds no digit, so stripping first changes nothing |
| Normalize.DigitsInMembership | data_process/h.py:79 | a day number is listed exactly when its digit occurs in the text |
| Normalize.DigitsInOfDigits | data_process/h.py:79 | on a string of digits every character gives one day, in order, duplicates kept |
| Normalize.ParseDays | data_process/h.py:74-79 | a missing cell gives no days, and a cell never gives more days than its stripped text has characters |
| Normalize.MorningOfDigits | data_process/h.py:81-85 | a one-to-four digit departure cell is a morning one exactly when its value is in [600, 1200) |
| Normalize.MorningIsNotNextDay | data_process/h.py:81-85 | a morning time is never "next day", and no unparsed time is morning |
| Normalize.HasAnyExists | data_process/h.py:100-102 | `any(code in s for code in codes)` holds exactly when some code occurs in `s` |
| Normalize.SizeOfText | data_process/h.py:100-119 | small, medium or large exactly when codes of that list and of no other occur; the default bucket exactly when the number of lists with a hit is not one |
| Normalize.ClassifyAircraftSize | data_process/h.py:89-90 | a missing type is the default bucket |
| Normalize.ClassifyNormalised | data_process/h.py:92 | case and surrounding whitespace do not change the bucket |
| Normalize.ClassifyIgnoresBlanks | data_process/h.py:92 | a blank on each side of the type does not change the bucket |
| Normalize.ClassifyOneListExample | data_process/h.py:104-116 | codes from one list only ("A320/B738") give that list's bucket (medium) |
| Normalize.ClassifyMixedExample | data_process/h.py:117-119 | codes from two lists ("E190/A332") give the default bucket |
| Normalize.ClassifySmallExample | data_process/h.py:111-112 | a small-list code alone is small |
| Normalize.ClassifyLargeExample | data_process/h.py:115-116 | a large-list code alone is large |
| Normalize.ClassifyUnknownExample | data_process/h.py:107-108 | a type on none of the lists is the default bucket |
| Normalize.ClassifySubstringExample | data_process/h.py:100-102 | matching is by containment: a longer code containing a listed one takes its bucket |
| Flights.AircraftTokensShape | data_process/h.py:255-256 | every single code is non-empty and holds no whitespace, '/' or ',' |
| Flights.AircraftTokensConcat | data_process/h.py:255-256 | the codes glued together are the type text without separators and whitespace |
| Flights.AircraftTokensOfPair | data_process/h.py:255-256 | "A/B" splits into exactly the codes A and B |
| Flights.RowFlight | data_process/h.py:224-234 | a row gives a flight exactly when both stripped endpoint names have coordinates |
| Flights.RowFlightFields | data_process/h.py:226-270 | the flight reads the row's cells: stripped endpoints, their coordinates, parsed times and days, type, size bucket, single codes and the morning flag of its departure time |
| Flights.MissingAircraftType | data_process/h.py:247-256 | a missing type becomes the unknown-type marker with the default bucket and no single codes |
| Flights.UnknownIsDefault | data_process/h.py:247-248 | the unknown-type marker is classified as the default bucket |
| Flights.BuildFlights | data_process/h.py:224-274 | the loop yields `FlightsOf(rows)` and collects exactly their airports, aircraft types and size buckets |
| Flights.FlightsOfAppend | data_process/h.py:224-272 | the flights of two blocks of rows are each block's flights, in order |
| Flights.FlightsConsistent | data_process/h.py:224-272 | every flight built is consistent with its coordinates and its own cells |
| Flights.FlightsOfOrigin | data_process/h.py:224-272 | flight k comes from row `idx[k]`, and the indices increase |
| Flights.FlightsOfKeeps | data_process/h.py:232-272 | no row that resolves is dropped |
| Flights.AirportsOfMember | data_process/h.py:273-274 | an airport is collected exactly when some flight starts or ends there |
| Flights.TypesOfMember | data_process/h.py:250 | a type is collected exactly when some flight has it |
| Flights.SizesOfMember | data_process/h.py:251 | a size bucket is collected exactly when some flight has it |
| Routes.Fold | data_process/h.py:137-160 | a route's accumulator holds exactly its flights, in order |
| Routes.FoldFlags | data_process/h.py:156-160 | the morning flag is set exactly when some flight is a morning one, the evening flag exactly when some flight is not |
| Routes.FoldSets | data_process/h.py:148-152 | an airline, type or size bucket is collected exactly when some flight has it |
| Routes.FoldCode | data_process/h.py:149-153 | a single code is collected exactly when some flight contributes it |
| Routes.MergeFlightsToRoutes | data_process/h.py:121-193 | the two loops yield `RoutesOf(flights)` |
| Routes.GroupFlights | data_process/h.py:137-160 | the grouping loop yields the keys in first-seen order and, per key, the fold of its flights |
| Routes.TableSnoc | data_process/h.py:139-160 | one step of the grouping loop adds the flight to its key's accumulator (a fresh one for a new key) and leaves the others |
| Routes.KeysMember | data_process/h.py:139 | a key is listed exactly when some flight has it |
| Routes.KeysDistinct | data_process/h.py:163 | no key is listed twice |
| Routes.MembersInOrder | data_process/h.py:142 | a route's flights keep their input order |
| Routes.Partition | data_process/h.py:137-142 | every flight sits in the route with its key, and only that route has that key |
| Routes.RouteFlights | data_process/h.py:163-188 | a route's flights are exactly those with its key, and a route is never empty |
| Routes.RouteFlags | data_process/h.py:156-173 | a route's flags match its flights, at least one is set, and the colour and type follow the flag pair |
| Routes.RouteSets | data_process/h.py:182-185 | a route's airlines, types and sizes are the duplicate-free unions over its flights |
| Routes.RouteEndpoints | data_process/h.py:143-146 | a route's endpoints and coordinates are those of its last flight |
| Routes.RouteIndividual | data_process/h.py:149-153 | for flights built from rows, a route's single codes are those its flights carry |
| Routes.KeysFirstSeen | data_process/h.py:163 | routes appear in the order their keys are first seen |
| Routes.HeldAll | data_process/h.py:137-142 | every flight is held by exactly one route |
| Routes.CountsSum | data_process/h.py:187 | the routes' flight counts add up to the number of flights |
| Routes.KeyCollision | data_process/h.py:139 | flights "A-B" to "C" and "A" to "B-C" share one route |
| TextTable.ReadTable | data_process/pre.py:14-46 | the reader returns `ParseTable(content)` |
| TextTable.FindHeader | data_process/pre.py:18-27 | the scan stops at the first header line, and the data starts on the next line |
| TextTable.CollectRows | data_process/pre.py:31-37 | the row loop keeps, in order, the cells of every later line with the header's number of cells |
| TextTable.LineRow | data_process/pre.py:32-36 | one line gives a row exactly when its stripped text is non-empty and splits into the header's number of cells, and no cell of the row holds a tab |
| TextTable.StripColumns | data_process/pre.py:43-44 | the column-by-column pass strips every cell |
| TextTable.NoHeaderIff | data_process/pre.py:26-27 | the result is the no-header error exactly when no line names both columns |
| TextTable.HeaderIsFirst | data_process/pre.py:20-24 | the header is the first line naming both columns, and its cells are the column names |
| TextTable.NoRowsIff | data_process/pre.py:39-40 | after a header, the result is the no-rows error exactly when no later line has the header's number of cells |
| TextTable.DuplicateColumnsIff | data_process/pre.py:42-44 | with a header and rows, the result is the duplicate-columns error exactly when two header cells are equal |
| TextTable.TableShape | data_process/pre.py:29-46 | a table has rows, distinct column names, one cell per column in every row, and only stripped cells |
| TextTable.RowsOrigin | data_process/pre.py:31-37 | row r is the stripped cells of a line after the header with the header's number of cells, lines are taken in order, and every such line is taken, each at its own position |
| TextTable.RowKept | data_process/pre.py:31-37 | every line after the header with the header's number of cells gives a row, at the position right after the rows of the lines before it (a repeated line gives a row each time) |
| TextTable.HeaderFrom | data_process/pre.py:20-24 | the scan returns a header line at or after its start, and no line before it is a header |
| Preprocess.NightOnClock | data_process/pre.py:64-70 | on a clock time, night is 19:59 to 23:59 and 00:01 to 08:01, both ends included |
| Preprocess.NightExamples | data_process/pre.py:66-77 | 19:59 and 08:01 are night; 19:58, 08:02, 00:00 and 12:00 are not; an unreadable time counts as night |
| Preprocess.FilterKeepsNight | data_process/pre.py:84-87 | the filter keeps exactly the rows whose departure time is a night time, under the same columns; each night row lands right after the night rows before it, so repeated rows are all kept |
| Preprocess.FilterKeepsOrder | data_process/pre.py:84-87 | the kept rows keep their order, and their positions in the table are exactly the positions of the night rows |
| Preprocess.FilterByTimeIdempotent | data_process/pre.py:84-87 | filtering again changes nothing |
| Lists.FilterIdempotent | data_process/pre.py:85-86 | filtering a filtered list with the same test changes nothing |
| Preprocess.AirlineCodePrefix | data_process/pre.py:136-138 | the code is the stripped flight number cut to at most two characters |
| Preprocess.AirlineKnown | data_process/pre.py:142 | the name, and likewise the fleet looked up at line 174, is "" exactly for a code the airline table does not know |
| Preprocess.AirlineExamples | data_process/pre.py:93-105 | "HU" is 海南航空, "9H" flies B738, an unknown code gets "" |
| Preprocess.CustomNameFirst | data_process/pre.py:149-158 | a stripped name containing 重庆万州 becomes 万州/五桥, whatever the airport table says |
| Preprocess.FirstMutualMatch | data_process/pre.py:161-163 | otherwise the first airport entry whose name contains, or is contained in, the city name gives the short name |
| Preprocess.NoMatchUnchanged | data_process/pre.py:164 | with no custom and no airport match, the name is returned unchanged |
| Preprocess.EmptyCityTakesFirst | data_process/pre.py:162 | an empty city name is contained in every airport name, so it takes the first entry's short name |
| Preprocess.IndexOf | data_process/pre.py:170 | `get_loc`: a position exactly when the column exists, and the column is at that position |
| Preprocess.RenameCities | data_process/pre.py:166-167 | renaming a city column that exists keeps the column names and the number of rows, and the table stays well formed |
| Preprocess.Frame.Drop | data_process/pre.py:128-129 | the column is removed from the header and every row, and the names stay distinct |
| Preprocess.Frame.Insert | data_process/pre.py:143 | the column goes in at the given position in the header and every row; a name already present is refused and nothing changes |
| Preprocess.Frame.Assign | data_process/pre.py:166-175 | the column is replaced, or added at the end when missing |
| Preprocess.DropCells | data_process/pre.py:128-129 | dropping a column leaves every other cell of a row in place |
| Preprocess.InsertCells | data_process/pre.py:143 | an inserted column holds the given values, and every other cell is unchanged |
| Preprocess.SetCells | data_process/pre.py:166-175 | an assigned column holds the given values, and every other cell is unchanged |
| Preprocess.DistinctInsertAt | data_process/pre.py:143 | inserting a name that is not there keeps the column names distinct |
| Preprocess.ProcessFlightData | data_process/pre.py:127-179 | the frame ends up holding `Processed(table)` and the result is its night filter; an error is the first step's that fails (city step as intended; see Findings) |
| Preprocess.RenameCityColumns | data_process/pre.py:146-167 | the frame's city step matches `NormalizeCities` |
| Preprocess.AddTimesAndFleet | data_process/pre.py:169-175 | the frame's last steps match `WithTimesAndFleet`: the arrival time inserted after the departure time, then the fleet column set; a missing departure-time column or an existing arrival-time column is an error |
| Preprocess.ProcessedCells | data_process/pre.py:127-175 | row by row: the airline name and fleet of the flight number's code, arrival time 23:59, standard city names when there is an airport table, no product cell, every other cell as it was (city step as intended; see Findings) |
| Preprocess.ProcessedNames | data_process/pre.py:127-175 | the columns are the old ones without the product column, plus airline name, arrival time and fleet |
| Preprocess.ProcessedLayout | data_process/pre.py:143-171 | the airline name is the first column and the arrival time comes right after the departure time |
| Preprocess.FleetLast | data_process/pre.py:175 | a table without a fleet column gets it as the last column |
| Preprocess.ProcessedOkIff | data_process/pre.py:141-175 | processing succeeds exactly when the flight-number and departure-time columns exist, the airline-name and arrival-time columns do not, and both city columns exist when there is an airport table (city step as intended; see Findings) |
| Preprocess.ProcessedNeeds | data_process/pre.py:141-175 | a table that is processed had the columns the steps read and none of those they insert |
| Preprocess.ProcessedAccepts | data_process/pre.py:141-175 | a table with those columns, and without the inserted ones, is processed (city step as intended; see Findings) |
| Preprocess.ProcessedNight | data_process/pre.py:179 | a processed row is a night flight exactly when its original departure time is a night time |
| Preprocess.ParsedTableWellFormed | data_process/pre.py:46 | a table read from the text meets what the processing requires of its input |
| Preprocess.AsWrittenFailsWithoutAirports | data_process/pre.py:146-167 | as written, an empty airport table makes the city step fail on every table |
| Preprocess.NormalizeCitiesWithoutAirports | data_process/pre.py:121-167 | as intended, an empty airport table leaves the cities as they are; with one, both versions agree |
| Lists.FilterKeeps | data_process/pre.py:85-86 | every element that passes the test is kept, each occurrence right after the elements kept before it |
| Lists.FilterOrigin | data_process/pre.py:85-86 | the kept elements are in their original order, and their positions are exactly those of the elements that pass |
| Lists.PresentOrigin | data_process/pre.py:35-37 | the kept values come from the list in order, and every present value is kept at its own position |
| Lists.DistinctIff | data_process/pre.py:42-44 | `Distinct` holds exactly when no two positions hold the same element |

## Left out

- File and spreadsheet reading and writing: `load_airport_coordinates`, `read_excel`, `read_csv`, `ExcelWriter`, `open`. The model takes the text, the rows, the coordinate map and the airport table as inputs.
- A `read_md_to_excel` result of `None` passed on to `process_flight_data` (`len(None)` fails there). `ProcessFlightData` takes a table that was read.
- Floating point:
  - latitude/longitude parsing and `parse_coordinates`; coordinates are opaque;
  - the map-centre average;
  - `int(float(s))` beyond digits with at most one dot, where float precision would matter.
- Normalize.ParseTime, Normalize.ParseDays: Unicode digits, which Python's `int()` and `isdigit()` accept, are not modelled; only ASCII digits are, so a fullwidth digit that `parse_days` keeps is dropped by `DigitsIn`. Likewise only ASCII letters change case in `upper()`.
- Preprocess.FilterByTime: `datetime.strptime` and its three formats are not modelled. The reading of a time cell is the parameter `clock`, and the night test is proved for whatever it returns.
- The HTML/JavaScript template, including the route filter written in JavaScript inside it, and every console message.
- `list(set(...))` order: route aggregates are sets, and no order is claimed for them.
- Preprocess.FindAirportName: `dict(zip(...))` over the airport CSV is not modelled. The mapping is given as the dictionary's items in insertion order.
- TextTable.ParseTable: pandas' handling of a repeated column name is modelled only as the failure of the strip pass (`DuplicateColumns`).
- Concurrency plays no part in the source.

## Findings

| source | as written | input that shows it | evidently intended | confidence | as-written member | corrected member |
|---|---|---|---|---|---|---|
| data_process/pre.py:146-167 | `find_airport_name` is defined only inside `if airport_mapping:`, but both city columns are renamed with it unconditionally, so when the airport CSV cannot be read the run stops with an `UnboundLocalError` | any table with a 出港城市 column and an empty airport table | the message at line 125 says the original city names are kept, so the renaming should be skipped without an airport table | not executed | Preprocess.AsWrittenCities (shown by Preprocess.AsWrittenFailsWithoutAirports) | Preprocess.NormalizeCities (proved by Preprocess.NormalizeCitiesWithoutAirports, used by Preprocess.Processed) |

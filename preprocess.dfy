/**
 * The preprocessing of `data_process/pre.py` after the text table is read: the night-window
 * test on departure times, the airline code and the airline table, the airport-name search,
 * the night filter, and the in-place changes `process_flight_data` makes to the table (drop
 * the product column, put the airline name first, normalise the two city columns, add the
 * arrival-time column after the departure-time column and the aircraft column at the end).
 */
module Preprocess {
  import opened Wrappers
  import opened Text
  import opened Lists
  import opened TextTable

  // ---------------------------------------------------------------------------
  // The night window

  /** The first and last minute of the evening part of the window (19:59) and of the morning part (08:01). */
  const EveningStart: int := 1199
  const MorningEnd: int := 481

  /**
   * Whether a departure time lies in the night window, given the hour and minute that the
   * time formats yield (`None` when no format fits: such a row is kept). Midnight itself is
   * not in the window.
   */
  function IsNightFlight(t: Option<(int, int)>): bool {
    match t
    case None => true
    case Some((hour, minute)) =>
      var total := hour * 60 + minute;
      total >= EveningStart || (total <= MorningEnd && total >= 1)
  }

  /** On a clock time, the window is 19:59 to 23:59 and 00:01 to 08:01, both ends included. */
  lemma NightOnClock(hour: int, minute: int)
    requires 0 <= hour < 24 && 0 <= minute < 60
    ensures IsNightFlight(Some((hour, minute))) <==>
      || hour >= 20 || (hour == 19 && minute == 59)
      || (hour == 0 && minute >= 1) || (1 <= hour < 8) || (hour == 8 && minute <= 1)
  {
  }

  /** The ends of the window, midnight and noon. */
  lemma NightExamples()
    ensures IsNightFlight(Some((19, 59))) && IsNightFlight(Some((8, 1)))
    ensures !IsNightFlight(Some((19, 58))) && !IsNightFlight(Some((8, 2)))
    ensures !IsNightFlight(Some((0, 0))) && !IsNightFlight(Some((12, 0)))
    ensures IsNightFlight(None)
  {
  }

  // ---------------------------------------------------------------------------
  // Airline code, name and fleet

  /** The airline code of a flight number: its first two characters once stripped, or all of it when shorter. */
  function AirlineCode(flightNumber: string): string {
    var s := Strip(flightNumber);
    if |s| >= 2 then s[..2] else s
  }

  /** The code is the stripped flight number cut to at most two characters. */
  lemma AirlineCodePrefix(flightNumber: string)
    ensures var s, c := Strip(flightNumber), AirlineCode(flightNumber);
      |c| == (if |s| < 2 then |s| else 2) && c == s[..|c|]
  {
  }

  /** The airline table: code to name and to the aircraft types it flies. */
  const AirlineInfo: map<string, (string, string)> := map[
    "JD" := ("首都航空", "A319/A320/A321/A332/A333"),
    "HU" := ("海南航空", "A20N/A21N/A332/A333/B738/B38M/B788/B789"),
    "GS" := ("天津航空", "A320/A20N/A321/A332/E190/E195"),
    "PN" := ("西部航空", "A319/A19N/A320/A20N/A321/A21N"),
    "9H" := ("长安航空", "B738"),
    "CN" := ("大新华航空", "B738"),
    "UQ" := ("乌鲁木齐航空", "B738"),
    "GX" := ("北部湾航空", "A320/A20N/E190"),
    "8L" := ("祥鹏航空", "A320/A20N/A333/B737/B738/B38M"),
    "FU" := ("福州航空", "B738/B38M"),
    "Y8" := ("金鹏航空", "B738")
  ]

  /** The airline name of a code, or "" for a code the table does not know. */
  function AirlineName(code: string): string {
    if code in AirlineInfo then AirlineInfo[code].0 else ""
  }

  /** The aircraft types of a code, or "" for a code the table does not know. */
  function AirlineAircraft(code: string): string {
    if code in AirlineInfo then AirlineInfo[code].1 else ""
  }

  /** Every airline in the table has a name and a fleet, so "" marks exactly the unknown codes. */
  lemma AirlineKnown(code: string)
    ensures AirlineName(code) == "" <==> code !in AirlineInfo
    ensures AirlineAircraft(code) == "" <==> code !in AirlineInfo
  {
  }

  /** A known code gets the table's name and fleet; an unknown one gets "" for both. */
  lemma AirlineExamples()
    ensures AirlineName("HU") == "海南航空" && AirlineAircraft("9H") == "B738"
    ensures AirlineName("ZZ") == "" && AirlineAircraft("ZZ") == ""
  {
  }

  // ---------------------------------------------------------------------------
  // Airport names

  /** The hand-written renamings, tried before the airport table. */
  const CustomAirportNames: seq<(string, string)> := [("重庆万州", "万州/五桥")]

  /** A custom entry applies when its original name occurs in the (stripped) city name. */
  function CustomHit(city: string): ((string, string)) -> bool {
    (entry: (string, string)) => Contains(city, entry.0)
  }

  /** An airport entry applies when either its full name or the city name occurs in the other. */
  function MutualHit(city: string): ((string, string)) -> bool {
    (entry: (string, string)) => Contains(entry.0, city) || Contains(city, entry.0)
  }

  /**
   * The standard name of a city: the custom renaming whose original occurs in the stripped
   * name, else the short name of the first airport entry that contains or is contained in the
   * name, else the name unchanged. `mapping` holds the airport table's (full name, short
   * name) pairs in the table's order.
   */
  function FindAirportName(city: string, mapping: seq<(string, string)>): string {
    match FirstIndex(CustomHit(Strip(city)), CustomAirportNames, 0)
    case Some(k) => CustomAirportNames[k].1
    case None =>
      match FirstIndex(MutualHit(city), mapping, 0)
      case Some(k) => mapping[k].1
      case None => city
  }

  /** `FindAirportName` against a fixed airport table, as a function of the city name. */
  function AirportNameIn(mapping: seq<(string, string)>): string -> string {
    city => FindAirportName(city, mapping)
  }

  /** A city name containing a custom original is renamed by the custom entry, whatever the airport table says. */
  lemma CustomNameFirst(city: string, mapping: seq<(string, string)>)
    requires Contains(Strip(city), CustomAirportNames[0].0)
    ensures FindAirportName(city, mapping) == CustomAirportNames[0].1
  {
  }

  /** Otherwise the first airport entry whose name contains, or is contained in, the city name gives the short name. */
  lemma FirstMutualMatch(city: string, mapping: seq<(string, string)>, k: nat)
    requires !Contains(Strip(city), CustomAirportNames[0].0)
    requires k < |mapping| && (Contains(mapping[k].0, city) || Contains(city, mapping[k].0))
    requires forall j :: 0 <= j < k ==> !Contains(mapping[j].0, city) && !Contains(city, mapping[j].0)
    ensures FindAirportName(city, mapping) == mapping[k].1
  {
    var hit := MutualHit(city);
    assert hit(mapping[k]);
    assert forall j :: 0 <= j < k ==> !hit(mapping[j]);
  }

  /** A name that matches no custom entry and no airport entry is returned as it is. */
  lemma NoMatchUnchanged(city: string, mapping: seq<(string, string)>)
    requires !Contains(Strip(city), CustomAirportNames[0].0)
    requires forall j :: 0 <= j < |mapping| ==> !Contains(mapping[j].0, city) && !Contains(city, mapping[j].0)
    ensures FindAirportName(city, mapping) == city
  {
    var hit := MutualHit(city);
    assert forall j :: 0 <= j < |mapping| ==> !hit(mapping[j]);
  }

  /** The empty name occurs in every airport name, so a blank city cell takes the first entry's short name. */
  lemma EmptyCityTakesFirst(mapping: seq<(string, string)>)
    requires mapping != []
    ensures FindAirportName("", mapping) == mapping[0].1
  {
    assert Strip("") == "";
    assert MatchesFrom(mapping[0].0, "", 0, 0);
    assert MutualHit("")(mapping[0]);
  }

  // ---------------------------------------------------------------------------
  // Tables as values: column positions and column edits

  /** The table's other column names. */
  const ProductLabel: string := "适用产品"
  const AirlineNameLabel: string := "航司名"
  const ArrivalCityLabel: string := "到港城市"
  const DepartureTimeLabel: string := "出发时刻"
  const ArrivalTimeLabel: string := "到达时刻"
  const AircraftLabel: string := "机型"

  /** The arrival time written into every row. */
  const DefaultArrivalTime: string := "23:59"

  /** Every row has one cell per column, and no two columns share a name. */
  predicate WellFormed(t: Table) {
    (forall r :: 0 <= r < |t.rows| ==> |t.rows[r]| == |t.headers|) && Distinct(t.headers)
  }

  /** Equality with `x`, as a function. */
  function IsName(x: string): string -> bool {
    y => y == x
  }

  /** The position of a column, or `None` when the table has no column of that name. */
  function IndexOf(headers: seq<string>, name: string): (k: Option<nat>)
    ensures k.Some? <==> name in headers
    ensures k.Some? ==> k.value < |headers| && headers[k.value] == name
  {
    var k := FirstIndex(IsName(name), headers, 0);
    assert k.Some? ==> IsName(name)(headers[k.value]);
    assert name in headers ==> k.Some? by {
      if name in headers {
        var i :| 0 <= i < |headers| && headers[i] == name;
        assert IsName(name)(headers[i]);
      }
    }
    k
  }

  /** The sequence without its element at `i`. */
  function RemoveAt<T>(s: seq<T>, i: nat): (r: seq<T>)
    requires i < |s|
    ensures |r| == |s| - 1
    ensures forall j :: 0 <= j < |r| ==> r[j] == if j < i then s[j] else s[j + 1]
  {
    s[..i] + s[i + 1..]
  }

  /** The sequence with `x` placed at position `i`, the elements from `i` on moving one place up. */
  function InsertAt<T>(s: seq<T>, i: nat, x: T): (r: seq<T>)
    requires i <= |s|
    ensures |r| == |s| + 1 && r[i] == x
    ensures forall j :: 0 <= j < i ==> r[j] == s[j]
    ensures forall j :: i <= j < |s| ==> r[j + 1] == s[j]
  {
    s[..i] + [x] + s[i..]
  }

  /** The cells of column `k`, top to bottom. */
  function ColumnAt(t: Table, k: nat): (cells: seq<string>)
    requires WellFormed(t) && k < |t.headers|
    ensures |cells| == |t.rows| && forall r :: 0 <= r < |t.rows| ==> cells[r] == t.rows[r][k]
  {
    seq(|t.rows|, r requires 0 <= r < |t.rows| => t.rows[r][k])
  }

  /** The cells of the named column, or `None` when there is no such column (`df[name]`). */
  function ColumnOf(t: Table, name: string): Option<seq<string>>
    requires WellFormed(t)
  {
    match IndexOf(t.headers, name)
    case None => None
    case Some(k) => Some(ColumnAt(t, k))
  }

  /** The table without column `k`. */
  function DropColumn(t: Table, k: nat): (u: Table)
    requires WellFormed(t) && k < |t.headers|
    ensures WellFormed(u) && |u.rows| == |t.rows|
  {
    var u := Table(RemoveAt(t.headers, k), seq(|t.rows|, r requires 0 <= r < |t.rows| => RemoveAt(t.rows[r], k)));
    DistinctRemoveAt(t.headers, k);
    u
  }

  /** The table with a new column `name` at position `k`, row `r` holding `values[r]`. */
  function InsertColumn(t: Table, k: nat, name: string, values: seq<string>): (u: Table)
    requires WellFormed(t) && k <= |t.headers| && name !in t.headers && |values| == |t.rows|
    ensures WellFormed(u) && |u.rows| == |t.rows|
  {
    var u := Table(InsertAt(t.headers, k, name), seq(|t.rows|, r requires 0 <= r < |t.rows| => InsertAt(t.rows[r], k, values[r])));
    DistinctInsertAt(t.headers, k, name);
    u
  }

  /** The table with column `k` holding `values` (`df[name] = values` on an existing column). */
  function ReplaceColumn(t: Table, k: nat, values: seq<string>): (u: Table)
    requires WellFormed(t) && k < |t.headers| && |values| == |t.rows|
    ensures WellFormed(u) && u.headers == t.headers && |u.rows| == |t.rows|
  {
    Table(t.headers, seq(|t.rows|, r requires 0 <= r < |t.rows| => t.rows[r][k := values[r]]))
  }

  /** `df[name] = values`: the named column is replaced, or a new one is added at the end. */
  function SetColumn(t: Table, name: string, values: seq<string>): (u: Table)
    requires WellFormed(t) && |values| == |t.rows|
    ensures WellFormed(u) && |u.rows| == |t.rows|
  {
    match IndexOf(t.headers, name)
    case Some(k) => ReplaceColumn(t, k, values)
    case None => InsertColumn(t, |t.headers|, name, values)
  }

  /** Removing an element keeps the others distinct. */
  lemma DistinctRemoveAt<T>(s: seq<T>, i: nat)
    requires i < |s| && Distinct(s)
    ensures Distinct(RemoveAt(s, i))
  {
    var r := RemoveAt(s, i);
    DistinctIff(s);
    DistinctIff(r);
    forall a, b | 0 <= a < b < |r|
      ensures r[a] != r[b]
    {
      var a', b' := if a < i then a else a + 1, if b < i then b else b + 1;
      assert r[a] == s[a'] && r[b] == s[b'] && a' < b';
    }
  }

  /** Inserting a new element keeps the elements distinct. */
  lemma DistinctInsertAt<T>(s: seq<T>, i: nat, x: T)
    requires i <= |s| && Distinct(s) && x !in s
    ensures Distinct(InsertAt(s, i, x))
  {
    var r := InsertAt(s, i, x);
    DistinctIff(s);
    DistinctIff(r);
    forall a, b | 0 <= a < b < |r|
      ensures r[a] != r[b]
    {
      if a == i {
        assert r[a] == x && r[b] == s[b - 1] && s[b - 1] in s;
      } else if b == i {
        assert r[a] == s[a] && r[b] == x && s[a] in s;
      } else if b < i {
        assert r[a] == s[a] && r[b] == s[b];
      } else if i < a {
        assert r[a] == s[a - 1] && r[b] == s[b - 1];
      } else {
        assert r[a] == s[a] && r[b] == s[b - 1];
      }
    }
  }

  // ---------------------------------------------------------------------------
  // The night filter

  /** A departure-time cell is a night departure when its stripped text reads as a night time; `clock` reads a time. */
  predicate NightCell(clock: string -> Option<(int, int)>, cell: string) {
    IsNightFlight(clock(Strip(cell)))
  }

  /** A row is kept when its cell in column `d` is a night departure. */
  function NightRow(clock: string -> Option<(int, int)>, d: nat): seq<string> -> bool {
    row => d < |row| && NightCell(clock, row[d])
  }

  /**
   * The night flights: the rows whose departure time is in the night window, in their order,
   * under the same columns; a table without a departure-time column is an error.
   */
  function FilterByTime(t: Table, clock: string -> Option<(int, int)>): Result<Table, ProcessError> {
    match IndexOf(t.headers, DepartureTimeLabel)
    case None => Err(MissingColumn(DepartureTimeLabel))
    case Some(d) => Ok(Table(t.headers, Filter(NightRow(clock, d), t.rows)))
  }

  /**
   * The filter keeps exactly the rows whose departure time is a night time, under the same
   * columns, and keeps every such row in its own place: night row `r` comes right after the
   * night rows before it, so a repeated row is kept as often as it occurs.
   */
  lemma FilterKeepsNight(t: Table, clock: string -> Option<(int, int)>)
    requires WellFormed(t) && DepartureTimeLabel in t.headers
    ensures FilterByTime(t, clock).Ok?
    ensures var n, d := FilterByTime(t, clock).value, IndexOf(t.headers, DepartureTimeLabel).value;
      && n.headers == t.headers
      && (forall row :: row in n.rows <==> row in t.rows && NightCell(clock, row[d]))
      && (forall r :: 0 <= r < |t.rows| && NightCell(clock, t.rows[r][d]) ==>
            var before := FilterByTime(Table(t.headers, t.rows[..r]), clock).value.rows;
            |before| < |n.rows| && n.rows[|before|] == t.rows[r])
  {
    var d := IndexOf(t.headers, DepartureTimeLabel).value;
    var keep := NightRow(clock, d);
    var n := FilterByTime(t, clock).value;
    forall r | 0 <= r < |t.rows| && NightCell(clock, t.rows[r][d])
      ensures var before := Filter(keep, t.rows[..r]);
        |before| < |n.rows| && n.rows[|before|] == t.rows[r]
    {
      assert keep(t.rows[r]);
      FilterKeeps(keep, t.rows, r);
    }
    forall row | row in t.rows && NightCell(clock, row[d])
      ensures row in n.rows
    {
      var r :| 0 <= r < |t.rows| && t.rows[r] == row;
      assert keep(t.rows[r]);
      FilterKeeps(keep, t.rows, r);
    }
    forall row | row in n.rows
      ensures row in t.rows && NightCell(clock, row[d])
    {
      assert keep(row);
    }
  }

  /**
   * The night rows keep their order: row `k` of the result is row `idx[k]` of the table, with
   * increasing `idx`, and `idx` holds exactly the positions of the night rows.
   */
  lemma FilterKeepsOrder(t: Table, clock: string -> Option<(int, int)>) returns (idx: seq<nat>)
    requires FilterByTime(t, clock).Ok?
    ensures var n, d := FilterByTime(t, clock).value, IndexOf(t.headers, DepartureTimeLabel).value;
      && |idx| == |n.rows|
      && (forall k :: 0 <= k < |idx| ==> idx[k] < |t.rows| && t.rows[idx[k]] == n.rows[k])
      && (forall k, l :: 0 <= k < l < |idx| ==> idx[k] < idx[l])
      && (forall r :: 0 <= r < |t.rows| ==> (r in idx <==> d < |t.rows[r]| && NightCell(clock, t.rows[r][d])))
  {
    var d := IndexOf(t.headers, DepartureTimeLabel).value;
    var keep := NightRow(clock, d);
    var kept := Filter(keep, t.rows);
    idx := FilterOrigin(keep, t.rows);
    forall r | 0 <= r < |t.rows|
      ensures r in idx <==> keep(t.rows[r])
    {
      if r in idx {
        var k :| 0 <= k < |idx| && idx[k] == r;
        assert kept[k] in kept;
      }
    }
  }

  /** Filtering the night flights again changes nothing. */
  lemma FilterByTimeIdempotent(t: Table, clock: string -> Option<(int, int)>)
    requires FilterByTime(t, clock).Ok?
    ensures FilterByTime(FilterByTime(t, clock).value, clock) == FilterByTime(t, clock)
  {
    var d := IndexOf(t.headers, DepartureTimeLabel).value;
    FilterIdempotent(NightRow(clock, d), t.rows);
  }

  // ---------------------------------------------------------------------------
  // City names

  /** Why the processing stops: a column it reads is missing, a column it adds exists, or no airport table is defined. */
  datatype ProcessError = MissingColumn(name: string) | ColumnExists(name: string) | NoAirportNames

  /** `df[name] = df[name].apply(find_airport_name)` for one city column. */
  function RenameCities(t: Table, name: string, mapping: seq<(string, string)>): (r: Result<Table, ProcessError>)
    requires WellFormed(t)
    ensures r.Ok? ==> WellFormed(r.value) && r.value.headers == t.headers && |r.value.rows| == |t.rows|
  {
    match ColumnOf(t, name)
    case None => Err(MissingColumn(name))
    case Some(cells) => Ok(SetColumn(t, name, MapSeq(AirportNameIn(mapping), cells)))
  }

  /**
   * The city step as the source runs it: both city columns are renamed whether or not the
   * airport table was read, and with no airport table the renaming function was never
   * defined, so the step fails once the departure-city column is found.
   */
  function AsWrittenCities(t: Table, mapping: seq<(string, string)>): Result<Table, ProcessError>
    requires WellFormed(t)
  {
    if DepartureCityLabel !in t.headers then Err(MissingColumn(DepartureCityLabel))
    else if mapping == [] then Err(NoAirportNames)
    else match RenameCities(t, DepartureCityLabel, mapping)
      case Err(e) => Err(e)
      case Ok(u) => RenameCities(u, ArrivalCityLabel, mapping)
  }

  /** The city step as intended: without an airport table the city names stay as they are. */
  function NormalizeCities(t: Table, mapping: seq<(string, string)>): (r: Result<Table, ProcessError>)
    requires WellFormed(t)
    ensures r.Ok? ==> WellFormed(r.value) && r.value.headers == t.headers && |r.value.rows| == |t.rows|
  {
    if mapping == [] then Ok(t)
    else match RenameCities(t, DepartureCityLabel, mapping)
      case Err(e) => Err(e)
      case Ok(u) => RenameCities(u, ArrivalCityLabel, mapping)
  }

  /** As written, an empty airport table fails the city step on every table that has a departure-city column. */
  lemma AsWrittenFailsWithoutAirports(t: Table)
    requires WellFormed(t)
    ensures AsWrittenCities(t, []).Err?
    ensures DepartureCityLabel in t.headers ==> AsWrittenCities(t, []) == Err(NoAirportNames)
  {
  }

  /** As intended, an empty airport table leaves the table as it is; with airports both versions agree. */
  lemma NormalizeCitiesWithoutAirports(t: Table, mapping: seq<(string, string)>)
    requires WellFormed(t)
    ensures mapping == [] ==> NormalizeCities(t, mapping) == Ok(t)
    ensures mapping != [] ==> NormalizeCities(t, mapping) == AsWrittenCities(t, mapping)
  {
  }

  // ---------------------------------------------------------------------------
  // Cells by column name

  /** The cell of row `r` in the named column, or `None` when there is no such column. */
  function Cell(t: Table, r: nat, name: string): Option<string>
    requires WellFormed(t) && r < |t.rows|
  {
    match IndexOf(t.headers, name)
    case None => None
    case Some(k) => Some(t.rows[r][k])
  }

  /** In distinct names, the position of a name is the one place it occurs. */
  lemma IndexOfUnique(headers: seq<string>, i: nat)
    requires Distinct(headers) && i < |headers|
    ensures IndexOf(headers, headers[i]) == Some(i)
  {
    DistinctIff(headers);
    var k := IndexOf(headers, headers[i]).value;
    assert headers[k] == headers[i];
  }

  /** Dropping column `k` removes its name and keeps every other name. */
  lemma DropNames(t: Table, k: nat, c: string)
    requires WellFormed(t) && k < |t.headers|
    ensures c in DropColumn(t, k).headers <==> c in t.headers && c != t.headers[k]
  {
    var h, u := t.headers, DropColumn(t, k).headers;
    DistinctIff(h);
    if c in u {
      var j :| 0 <= j < |u| && u[j] == c;
      assert c == if j < k then h[j] else h[j + 1];
    }
    if c in h && c != h[k] {
      var j :| 0 <= j < |h| && h[j] == c;
      if j < k {
        assert u[j] == c;
      } else {
        assert u[j - 1] == c;
      }
    }
  }

  /** Dropping column `k` leaves every other cell of a row where it was. */
  lemma DropCells(t: Table, k: nat, r: nat, c: string)
    requires WellFormed(t) && k < |t.headers| && r < |t.rows|
    ensures Cell(DropColumn(t, k), r, c) == if c == t.headers[k] then None else Cell(t, r, c)
  {
    var u := DropColumn(t, k);
    DropNames(t, k, c);
    if c in u.headers {
      var j := IndexOf(u.headers, c).value;
      var j' := if j < k then j else j + 1;
      assert t.headers[j'] == c;
      IndexOfUnique(t.headers, j');
    }
  }

  /** Inserting column `name` adds that name and keeps every other one. */
  lemma InsertNames(t: Table, k: nat, name: string, values: seq<string>, c: string)
    requires WellFormed(t) && k <= |t.headers| && name !in t.headers && |values| == |t.rows|
    ensures c in InsertColumn(t, k, name, values).headers <==> c in t.headers || c == name
  {
    var h, u := t.headers, InsertColumn(t, k, name, values).headers;
    if c in u && c != name {
      var j :| 0 <= j < |u| && u[j] == c;
      if j < k {
        assert h[j] == c;
      } else {
        assert h[j - 1] == c;
      }
    }
    if c in h {
      var j :| 0 <= j < |h| && h[j] == c;
      assert u[if j < k then j else j + 1] == c;
    }
  }

  /** After inserting column `name`, row `r` holds `values[r]` there and its other cells are unchanged. */
  lemma InsertCells(t: Table, k: nat, name: string, values: seq<string>, r: nat, c: string)
    requires WellFormed(t) && k <= |t.headers| && name !in t.headers && |values| == |t.rows| && r < |t.rows|
    ensures Cell(InsertColumn(t, k, name, values), r, c) == if c == name then Some(values[r]) else Cell(t, r, c)
  {
    var u := InsertColumn(t, k, name, values);
    InsertNames(t, k, name, values, c);
    IndexOfUnique(u.headers, k);
    if c in t.headers {
      var j := IndexOf(t.headers, c).value;
      var j' := if j < k then j else j + 1;
      assert u.headers[j'] == c;
      IndexOfUnique(u.headers, j');
    }
  }

  /** After `df[name] = values`, the names are the old ones and `name`. */
  lemma SetNames(t: Table, name: string, values: seq<string>, c: string)
    requires WellFormed(t) && |values| == |t.rows|
    ensures c in SetColumn(t, name, values).headers <==> c in t.headers || c == name
  {
    if name !in t.headers {
      InsertNames(t, |t.headers|, name, values, c);
    }
  }

  /** After `df[name] = values`, row `r` holds `values[r]` in that column and its other cells are unchanged. */
  lemma SetCells(t: Table, name: string, values: seq<string>, r: nat, c: string)
    requires WellFormed(t) && |values| == |t.rows| && r < |t.rows|
    ensures Cell(SetColumn(t, name, values), r, c) == if c == name then Some(values[r]) else Cell(t, r, c)
  {
    match IndexOf(t.headers, name)
    case Some(k) =>
    case None =>
      InsertCells(t, |t.headers|, name, values, r, c);
  }

  // ---------------------------------------------------------------------------
  // The processing as a function of the table

  /** The product column is dropped when the table has one. */
  function WithoutProduct(t: Table): (u: Table)
    requires WellFormed(t)
    ensures WellFormed(u) && |u.rows| == |t.rows|
  {
    match IndexOf(t.headers, ProductLabel)
    case None => t
    case Some(k) => DropColumn(t, k)
  }

  /** The arrival-time column goes right after the departure-time column, and the fleet column is set from the codes. */
  function WithTimesAndFleet(t: Table, codes: seq<string>): (r: Result<Table, ProcessError>)
    requires WellFormed(t) && |codes| == |t.rows|
    ensures r.Ok? ==> WellFormed(r.value) && |r.value.rows| == |t.rows|
  {
    match IndexOf(t.headers, DepartureTimeLabel)
    case None => Err(MissingColumn(DepartureTimeLabel))
    case Some(d) =>
      if ArrivalTimeLabel in t.headers then Err(ColumnExists(ArrivalTimeLabel))
      else
        var u := InsertColumn(t, d + 1, ArrivalTimeLabel, seq(|t.rows|, _ => DefaultArrivalTime));
        Ok(SetColumn(u, AircraftLabel, MapSeq(AirlineAircraft, codes)))
  }

  /**
   * The table after processing, before the night filter (the specification of
   * `ProcessFlightData`): the product column dropped, the airline name inserted first, the
   * city columns normalised, the arrival time added after the departure time and the
   * fleet column set. A missing column the steps read, or an existing column they insert,
   * is an error.
   */
  function Processed(t: Table, mapping: seq<(string, string)>): (r: Result<Table, ProcessError>)
    requires WellFormed(t)
    ensures r.Ok? ==> WellFormed(r.value) && |r.value.rows| == |t.rows|
  {
    var t1 := WithoutProduct(t);
    match ColumnOf(t1, FlightNumberLabel)
    case None => Err(MissingColumn(FlightNumberLabel))
    case Some(numbers) =>
      var codes := MapSeq(AirlineCode, numbers);
      if AirlineNameLabel in t1.headers then Err(ColumnExists(AirlineNameLabel))
      else
        match NormalizeCities(InsertColumn(t1, 0, AirlineNameLabel, MapSeq(AirlineName, codes)), mapping)
        case Err(e) => Err(e)
        case Ok(t3) => WithTimesAndFleet(t3, codes)
  }

  /** The intermediate tables of a processing that succeeds, each step's output feeding the next. */
  lemma ProcessedSteps(t: Table, mapping: seq<(string, string)>) returns (t1: Table, codes: seq<string>, names: seq<string>, t2: Table, t3: Table)
    requires WellFormed(t) && Processed(t, mapping).Ok?
    ensures t1 == WithoutProduct(t) && FlightNumberLabel in t1.headers && AirlineNameLabel !in t1.headers
    ensures codes == MapSeq(AirlineCode, ColumnOf(t1, FlightNumberLabel).value) && names == MapSeq(AirlineName, codes)
    ensures |names| == |t1.rows| && t2 == InsertColumn(t1, 0, AirlineNameLabel, names)
    ensures NormalizeCities(t2, mapping).Ok? && t3 == NormalizeCities(t2, mapping).value
    ensures WellFormed(t3) && |codes| == |t3.rows| && Processed(t, mapping) == WithTimesAndFleet(t3, codes)
  {
    t1 := WithoutProduct(t);
    codes := MapSeq(AirlineCode, ColumnOf(t1, FlightNumberLabel).value);
    names := MapSeq(AirlineName, codes);
    t2 := InsertColumn(t1, 0, AirlineNameLabel, names);
    t3 := NormalizeCities(t2, mapping).value;
  }

  /** Dropping the product column keeps every cell of the other columns. */
  lemma WithoutProductCells(t: Table, r: nat, c: string)
    requires WellFormed(t) && r < |t.rows|
    ensures Cell(WithoutProduct(t), r, c) == if c == ProductLabel then None else Cell(t, r, c)
  {
    match IndexOf(t.headers, ProductLabel)
    case None =>
    case Some(k) => DropCells(t, k, r, c);
  }

  /** Renaming one city column needs that column, and changes only its cells, each to its standard name. */
  lemma RenameCells(t: Table, name: string, mapping: seq<(string, string)>, r: nat, c: string)
    requires WellFormed(t) && r < |t.rows|
    requires RenameCities(t, name, mapping).Ok?
    ensures name in t.headers
    ensures Cell(RenameCities(t, name, mapping).value, r, c) ==
      if c == name then Some(FindAirportName(Cell(t, r, name).value, mapping)) else Cell(t, r, c)
  {
    var cells := ColumnOf(t, name).value;
    var values := MapSeq(AirportNameIn(mapping), cells);
    SetCells(t, name, values, r, c);
  }

  /** The city step needs both city columns when there is an airport table, and changes only their cells. */
  lemma NormalizeCells(t: Table, mapping: seq<(string, string)>, r: nat, c: string)
    requires WellFormed(t) && r < |t.rows|
    requires NormalizeCities(t, mapping).Ok?
    ensures mapping != [] ==> DepartureCityLabel in t.headers && ArrivalCityLabel in t.headers
    ensures Cell(NormalizeCities(t, mapping).value, r, c) ==
      if mapping != [] && (c == DepartureCityLabel || c == ArrivalCityLabel)
      then Some(FindAirportName(Cell(t, r, c).value, mapping))
      else Cell(t, r, c)
  {
    if mapping != [] {
      var u := RenameCities(t, DepartureCityLabel, mapping).value;
      RenameCells(t, DepartureCityLabel, mapping, r, c);
      RenameCells(u, ArrivalCityLabel, mapping, r, c);
      RenameCells(t, DepartureCityLabel, mapping, r, ArrivalCityLabel);
    }
  }

  /** The intermediate table of the last steps when they succeed: the arrival time inserted at `d + 1`, after the departure time at `d`. */
  lemma TimesAndFleetSteps(t: Table, codes: seq<string>) returns (d: nat, times: seq<string>, u: Table)
    requires WellFormed(t) && |codes| == |t.rows| && WithTimesAndFleet(t, codes).Ok?
    ensures DepartureTimeLabel in t.headers && ArrivalTimeLabel !in t.headers
    ensures IndexOf(t.headers, DepartureTimeLabel) == Some(d) && d < |t.headers|
    ensures times == seq(|t.rows|, _ => DefaultArrivalTime) && u == InsertColumn(t, d + 1, ArrivalTimeLabel, times)
    ensures WellFormed(u) && |codes| == |u.rows| && WithTimesAndFleet(t, codes) == Ok(SetColumn(u, AircraftLabel, MapSeq(AirlineAircraft, codes)))
  {
    d := IndexOf(t.headers, DepartureTimeLabel).value;
    times := seq(|t.rows|, _ => DefaultArrivalTime);
    u := InsertColumn(t, d + 1, ArrivalTimeLabel, times);
  }

  /** The last steps need the departure-time column and no arrival-time column; they change those two columns' cells only. */
  lemma TimesAndFleetCells(t: Table, codes: seq<string>, r: nat, c: string)
    requires WellFormed(t) && |codes| == |t.rows| && r < |t.rows|
    requires WithTimesAndFleet(t, codes).Ok?
    ensures DepartureTimeLabel in t.headers && ArrivalTimeLabel !in t.headers
    ensures Cell(WithTimesAndFleet(t, codes).value, r, c) ==
      if c == AircraftLabel then Some(AirlineAircraft(codes[r]))
      else if c == ArrivalTimeLabel then Some(DefaultArrivalTime)
      else Cell(t, r, c)
  {
    var d, times, u := TimesAndFleetSteps(t, codes);
    InsertCells(t, d + 1, ArrivalTimeLabel, times, r, c);
    SetCells(u, AircraftLabel, MapSeq(AirlineAircraft, codes), r, c);
  }

  /**
   * Row `r` of the processed table, column by column: the airline name and the fleet of its
   * flight number's code, the fixed arrival time, the standard names of its two cities when
   * there is an airport table, no product cell, and every other cell as it was.
   */
  lemma ProcessedCells(t: Table, mapping: seq<(string, string)>, r: nat, c: string)
    requires WellFormed(t) && r < |t.rows|
    requires Processed(t, mapping).Ok?
    ensures FlightNumberLabel in t.headers
    ensures mapping != [] ==> DepartureCityLabel in t.headers && ArrivalCityLabel in t.headers
    ensures Cell(Processed(t, mapping).value, r, c) ==
      var code := AirlineCode(Cell(t, r, FlightNumberLabel).value);
      if c == AirlineNameLabel then Some(AirlineName(code))
      else if c == AircraftLabel then Some(AirlineAircraft(code))
      else if c == ArrivalTimeLabel then Some(DefaultArrivalTime)
      else if c == ProductLabel then None
      else if mapping != [] && (c == DepartureCityLabel || c == ArrivalCityLabel)
      then Some(FindAirportName(Cell(t, r, c).value, mapping))
      else Cell(t, r, c)
  {
    var t1, codes, names, t2, t3 := ProcessedSteps(t, mapping);
    WithoutProductCells(t, r, FlightNumberLabel);
    assert codes[r] == AirlineCode(Cell(t, r, FlightNumberLabel).value);
    WithoutProductCells(t, r, c);
    InsertCells(t1, 0, AirlineNameLabel, names, r, c);
    NormalizeCells(t2, mapping, r, c);
    TimesAndFleetCells(t3, codes, r, c);
    if mapping != [] {
      WithoutProductCells(t, r, DepartureCityLabel);
      WithoutProductCells(t, r, ArrivalCityLabel);
      InsertNames(t1, 0, AirlineNameLabel, names, DepartureCityLabel);
      InsertNames(t1, 0, AirlineNameLabel, names, ArrivalCityLabel);
    }
  }

  /** The processed table's columns are the old ones without the product column, plus the airline name, the arrival time and the fleet. */
  lemma ProcessedNames(t: Table, mapping: seq<(string, string)>, c: string)
    requires WellFormed(t) && Processed(t, mapping).Ok?
    ensures c in Processed(t, mapping).value.headers <==>
      (c in t.headers && c != ProductLabel) || c == AirlineNameLabel || c == ArrivalTimeLabel || c == AircraftLabel
  {
    var t1, codes, names, t2, t3 := ProcessedSteps(t, mapping);
    WithoutProductNames(t, c);
    InsertNames(t1, 0, AirlineNameLabel, names, c);
    TimesAndFleetNames(t3, codes, c);
  }

  /** Dropping the product column removes that name and keeps every other one. */
  lemma WithoutProductNames(t: Table, c: string)
    requires WellFormed(t)
    ensures c in WithoutProduct(t).headers <==> c in t.headers && c != ProductLabel
  {
    match IndexOf(t.headers, ProductLabel)
    case None =>
    case Some(k) => DropNames(t, k, c);
  }

  /** The last steps add the arrival-time and fleet names. */
  lemma TimesAndFleetNames(t: Table, codes: seq<string>, c: string)
    requires WellFormed(t) && |codes| == |t.rows| && WithTimesAndFleet(t, codes).Ok?
    ensures c in WithTimesAndFleet(t, codes).value.headers <==> c in t.headers || c == ArrivalTimeLabel || c == AircraftLabel
  {
    var d, times, u := TimesAndFleetSteps(t, codes);
    InsertNames(t, d + 1, ArrivalTimeLabel, times, c);
    SetNames(u, AircraftLabel, MapSeq(AirlineAircraft, codes), c);
  }

  /**
   * What the processing reads and inserts: the flight-number and departure-time columns
   * present, no airline-name and no arrival-time column yet, and, when there is an airport
   * table, both city columns.
   */
  predicate ProcessingColumns(headers: seq<string>, mapping: seq<(string, string)>) {
    && FlightNumberLabel in headers && DepartureTimeLabel in headers
    && AirlineNameLabel !in headers && ArrivalTimeLabel !in headers
    && (mapping != [] ==> DepartureCityLabel in headers && ArrivalCityLabel in headers)
  }

  /** The processing succeeds exactly when the table has the columns it reads and not those it inserts. */
  lemma ProcessedOkIff(t: Table, mapping: seq<(string, string)>)
    requires WellFormed(t)
    ensures Processed(t, mapping).Ok? <==> ProcessingColumns(t.headers, mapping)
  {
    if Processed(t, mapping).Ok? {
      ProcessedNeeds(t, mapping);
    }
    if ProcessingColumns(t.headers, mapping) {
      ProcessedAccepts(t, mapping);
    }
  }

  /** A processing that succeeds had the columns it reads and not those it inserts. */
  lemma ProcessedNeeds(t: Table, mapping: seq<(string, string)>)
    requires WellFormed(t) && Processed(t, mapping).Ok?
    ensures ProcessingColumns(t.headers, mapping)
  {
    var t1, codes, names, t2, t3 := ProcessedSteps(t, mapping);
    WithoutProductNames(t, FlightNumberLabel);
    WithoutProductNames(t, AirlineNameLabel);
    AirlineInsertNames(t, t1, names, DepartureTimeLabel);
    AirlineInsertNames(t, t1, names, ArrivalTimeLabel);
    AirlineInsertNames(t, t1, names, DepartureCityLabel);
    AirlineInsertNames(t, t1, names, ArrivalCityLabel);
    if mapping != [] {
      var u := RenameCities(t2, DepartureCityLabel, mapping).value;
      assert u.headers == t2.headers;
    }
  }

  /** A table with the columns the processing reads, and not those it inserts, is processed. */
  lemma ProcessedAccepts(t: Table, mapping: seq<(string, string)>)
    requires WellFormed(t) && ProcessingColumns(t.headers, mapping)
    ensures Processed(t, mapping).Ok?
  {
    var t1 := WithoutProduct(t);
    WithoutProductNames(t, FlightNumberLabel);
    WithoutProductNames(t, AirlineNameLabel);
    var codes := MapSeq(AirlineCode, ColumnOf(t1, FlightNumberLabel).value);
    var names := MapSeq(AirlineName, codes);
    var t2 := InsertColumn(t1, 0, AirlineNameLabel, names);
    AirlineInsertNames(t, t1, names, DepartureCityLabel);
    AirlineInsertNames(t, t1, names, ArrivalCityLabel);
    AirlineInsertNames(t, t1, names, DepartureTimeLabel);
    AirlineInsertNames(t, t1, names, ArrivalTimeLabel);
    if mapping != [] {
      var u := RenameCities(t2, DepartureCityLabel, mapping).value;
      assert u.headers == t2.headers;
    }
  }

  /** A column other than the product and airline-name columns is in the table after the airline name is inserted exactly when it was in the original. */
  lemma AirlineInsertNames(t: Table, t1: Table, names: seq<string>, c: string)
    requires WellFormed(t) && t1 == WithoutProduct(t) && |names| == |t1.rows| && AirlineNameLabel !in t1.headers
    requires c != ProductLabel && c != AirlineNameLabel
    ensures c in InsertColumn(t1, 0, AirlineNameLabel, names).headers <==> c in t.headers
  {
    WithoutProductNames(t, c);
    InsertNames(t1, 0, AirlineNameLabel, names, c);
  }

  /**
   * The column order after processing: the airline name first, the arrival time right after
   * the departure time (at `d + 1`).
   */
  lemma ProcessedLayout(t: Table, mapping: seq<(string, string)>) returns (d: nat)
    requires WellFormed(t) && Processed(t, mapping).Ok?
    ensures var h := Processed(t, mapping).value.headers;
      && d + 1 < |h| && h[0] == AirlineNameLabel
      && h[d] == DepartureTimeLabel && h[d + 1] == ArrivalTimeLabel
  {
    var t1, codes, names, t2, t3 := ProcessedSteps(t, mapping);
    assert t3.headers[0] == AirlineNameLabel;
    d := TimesAndFleetLayout(t3, codes);
  }

  /** A table without a fleet column gets it as the last column. */
  lemma FleetLast(t: Table, mapping: seq<(string, string)>)
    requires WellFormed(t) && Processed(t, mapping).Ok? && AircraftLabel !in t.headers
    ensures var h := Processed(t, mapping).value.headers;
      h != [] && h[|h| - 1] == AircraftLabel
  {
    var t1, codes, names, t2, t3 := ProcessedSteps(t, mapping);
    AirlineInsertNames(t, t1, names, AircraftLabel);
    var d := TimesAndFleetLayout(t3, codes);
  }

  /** The arrival time goes at `d + 1`, right after the departure time at `d`; the columns before it stay; a new fleet column goes last. */
  lemma TimesAndFleetLayout(t: Table, codes: seq<string>) returns (d: nat)
    requires WellFormed(t) && |codes| == |t.rows| && WithTimesAndFleet(t, codes).Ok?
    ensures var h := WithTimesAndFleet(t, codes).value.headers;
      && d < |t.headers| && d + 1 < |h|
      && (forall j :: 0 <= j <= d ==> h[j] == t.headers[j])
      && h[d] == DepartureTimeLabel && h[d + 1] == ArrivalTimeLabel
      && (AircraftLabel !in t.headers ==> h[|h| - 1] == AircraftLabel)
  {
    var times, u;
    d, times, u := TimesAndFleetSteps(t, codes);
    var values := MapSeq(AirlineAircraft, codes);
    assert u.headers == InsertAt(t.headers, d + 1, ArrivalTimeLabel);
    if AircraftLabel in u.headers {
      assert SetColumn(u, AircraftLabel, values).headers == u.headers;
    } else {
      assert SetColumn(u, AircraftLabel, values).headers == InsertAt(u.headers, |u.headers|, AircraftLabel);
    }
    if AircraftLabel !in t.headers {
      InsertNames(t, d + 1, ArrivalTimeLabel, times, AircraftLabel);
    }
  }

  /**
   * The night filter on the processed table keeps a row exactly when the departure time it
   * had in the original table is a night time.
   */
  lemma ProcessedNight(t: Table, mapping: seq<(string, string)>, clock: string -> Option<(int, int)>)
    requires WellFormed(t) && Processed(t, mapping).Ok?
    ensures DepartureTimeLabel in t.headers
    ensures FilterByTime(Processed(t, mapping).value, clock).Ok?
    ensures var p := Processed(t, mapping).value;
      var n := FilterByTime(p, clock).value;
      forall r :: 0 <= r < |t.rows| ==>
        (p.rows[r] in n.rows <==> NightCell(clock, Cell(t, r, DepartureTimeLabel).value))
  {
    var p := Processed(t, mapping).value;
    ProcessedOkIff(t, mapping);
    ProcessedNames(t, mapping, DepartureTimeLabel);
    FilterKeepsNight(p, clock);
    var n := FilterByTime(p, clock).value;
    var d := IndexOf(p.headers, DepartureTimeLabel).value;
    forall r | 0 <= r < |t.rows|
      ensures p.rows[r] in n.rows <==> NightCell(clock, Cell(t, r, DepartureTimeLabel).value)
    {
      ProcessedCells(t, mapping, r, DepartureTimeLabel);
      assert Cell(p, r, DepartureTimeLabel) == Some(p.rows[r][d]);
    }
  }

  /** A table read from the text meets what the processing asks of its input. */
  lemma ParsedTableWellFormed(content: string)
    requires ParseTable(content).Ok?
    ensures WellFormed(ParseTable(content).value)
  {
    TableShape(content);
  }

  // ---------------------------------------------------------------------------
  // The table object and the processing run

  /** A table whose columns are dropped, inserted and assigned in place. */
  class Frame {
    var headers: seq<string>
    var rows: seq<seq<string>>

    /** The table the object holds. */
    function Contents(): Table
      reads this
    {
      Table(headers, rows)
    }

    ghost predicate Valid()
      reads this
    {
      WellFormed(Contents())
    }

    constructor (t: Table)
      requires WellFormed(t)
      ensures Valid() && Contents() == t
    {
      headers, rows := t.headers, t.rows;
    }

    /** Removes the named column, which must exist (`df.drop(name, axis=1)`). */
    method Drop(name: string)
      requires Valid() && name in headers
      modifies this
      ensures Valid()
      ensures Contents() == DropColumn(old(Contents()), IndexOf(old(headers), name).value)
    {
      var k, cells := IndexOf(headers, name).value, rows;
      headers, rows := RemoveAt(headers, k), seq(|cells|, r requires 0 <= r < |cells| => RemoveAt(cells[r], k));
      DistinctRemoveAt(old(headers), k);
    }

    /** Inserts the column `name` at position `k`; a name already present is refused and nothing changes (`df.insert`). */
    method Insert(k: nat, name: string, values: seq<string>) returns (ok: bool)
      requires Valid() && k <= |headers| && |values| == |rows|
      modifies this
      ensures Valid()
      ensures ok <==> name !in old(headers)
      ensures ok ==> Contents() == InsertColumn(old(Contents()), k, name, values)
      ensures !ok ==> Contents() == old(Contents())
    {
      if name in headers {
        return false;
      }
      var cells := rows;
      headers, rows := InsertAt(headers, k, name), seq(|cells|, r requires 0 <= r < |cells| => InsertAt(cells[r], k, values[r]));
      DistinctInsertAt(old(headers), k, name);
      ok := true;
    }

    /** Sets the named column to `values`, replacing it or adding it at the end (`df[name] = values`). */
    method Assign(name: string, values: seq<string>)
      requires Valid() && |values| == |rows|
      modifies this
      ensures Valid()
      ensures Contents() == SetColumn(old(Contents()), name, values)
    {
      match IndexOf(headers, name)
      case Some(k) =>
        var cells := rows;
        rows := seq(|cells|, r requires 0 <= r < |cells| => cells[r][k := values[r]]);
      case None =>
        var k, cells := |headers|, rows;
        headers, rows := InsertAt(headers, k, name), seq(|cells|, r requires 0 <= r < |cells| => InsertAt(cells[r], k, values[r]));
        DistinctInsertAt(old(headers), k, name);
    }
  }

  /**
   * The processing run on a table read from the text: the frame ends up holding the processed
   * table, and the result is its night flights; an error leaves the run where it stopped.
   * `mapping` is the airport table (empty when it could not be read) and `clock` reads a time.
   */
  method ProcessFlightData(frame: Frame, mapping: seq<(string, string)>, clock: string -> Option<(int, int)>)
    returns (night: Result<Table, ProcessError>)
    requires frame.Valid()
    modifies frame
    ensures frame.Valid()
    ensures match Processed(old(frame.Contents()), mapping)
      case Err(e) => night == Err(e)
      case Ok(p) => frame.Contents() == p && night == FilterByTime(p, clock)
  {
    ghost var t := frame.Contents();
    if ProductLabel in frame.headers {
      frame.Drop(ProductLabel);
    }
    assert frame.Contents() == WithoutProduct(t);
    var numbers := ColumnOf(frame.Contents(), FlightNumberLabel);
    if numbers.None? {
      return Err(MissingColumn(FlightNumberLabel));
    }
    var codes := MapSeq(AirlineCode, numbers.value);
    var ok := frame.Insert(0, AirlineNameLabel, MapSeq(AirlineName, codes));
    if !ok {
      return Err(ColumnExists(AirlineNameLabel));
    }
    var failure := RenameCityColumns(frame, mapping);
    if failure.Some? {
      return Err(failure.value);
    }
    failure := AddTimesAndFleet(frame, codes);
    if failure.Some? {
      return Err(failure.value);
    }
    night := FilterByTime(frame.Contents(), clock);
  }

  /** The last steps on the frame: the arrival time after the departure time, then the fleet of each code. */
  method AddTimesAndFleet(frame: Frame, codes: seq<string>) returns (failure: Option<ProcessError>)
    requires frame.Valid() && |codes| == |frame.rows|
    modifies frame
    ensures frame.Valid()
    ensures match WithTimesAndFleet(old(frame.Contents()), codes)
      case Err(e) => failure == Some(e)
      case Ok(u) => failure == None && frame.Contents() == u
  {
    var d := IndexOf(frame.headers, DepartureTimeLabel);
    if d.None? {
      return Some(MissingColumn(DepartureTimeLabel));
    }
    var ok := frame.Insert(d.value + 1, ArrivalTimeLabel, seq(|frame.rows|, _ => DefaultArrivalTime));
    if !ok {
      return Some(ColumnExists(ArrivalTimeLabel));
    }
    frame.Assign(AircraftLabel, MapSeq(AirlineAircraft, codes));
    failure := None;
  }

  /** The city step on the frame: both city columns get their standard names when there is an airport table. */
  method RenameCityColumns(frame: Frame, mapping: seq<(string, string)>) returns (failure: Option<ProcessError>)
    requires frame.Valid()
    modifies frame
    ensures frame.Valid()
    ensures match NormalizeCities(old(frame.Contents()), mapping)
      case Err(e) => failure == Some(e)
      case Ok(u) => failure == None && frame.Contents() == u
  {
    if mapping == [] {
      return None;
    }
    ghost var t := frame.Contents();
    var cells := ColumnOf(frame.Contents(), DepartureCityLabel);
    if cells.None? {
      return Some(MissingColumn(DepartureCityLabel));
    }
    frame.Assign(DepartureCityLabel, MapSeq(AirportNameIn(mapping), cells.value));
    assert frame.Contents() == RenameCities(t, DepartureCityLabel, mapping).value;
    cells := ColumnOf(frame.Contents(), ArrivalCityLabel);
    if cells.None? {
      return Some(MissingColumn(ArrivalCityLabel));
    }
    frame.Assign(ArrivalCityLabel, MapSeq(AirportNameIn(mapping), cells.value));
    failure := None;
  }
}

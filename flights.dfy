/**
 * The row-to-flight loop of `create_flight_visualization` (data_process/h.py): every
 * spreadsheet row whose two stripped endpoint names have coordinates becomes one flight
 * record, in row order; the loop also collects the airports and the aircraft types and
 * sizes it has seen.
 */
module Flights {
  import opened Wrappers
  import opened Text
  import opened Normalize
  import opened Lists

  /** A coordinate pair, taken as it stands from the coordinate table. */
  datatype Coord = Coord(lat: real, lng: real)

  /** A spreadsheet cell: `None` is pandas' missing value, `Some(s)` the cell's `str()`. */
  type Cell = Option<string>

  /** One spreadsheet row, columns already renamed. */
  datatype Row = Row(
    airline: Cell, flightNumber: Cell, departure: Cell, arrival: Cell,
    departureTime: Cell, arrivalTime: Cell, days: Cell, aircraftType: Cell)

  /** One flight record. */
  datatype Flight = Flight(
    airline: string, flightNumber: string, days: seq<int>,
    departure: string, arrival: string,
    departureTime: Option<TimeInfo>, arrivalTime: Option<TimeInfo>,
    departureCoord: Coord, arrivalCoord: Coord,
    aircraftType: string, aircraftSize: AircraftSize, isMorning: bool,
    individualAircraft: seq<string>)

  /** Stands in for a missing aircraft type. */
  const UnknownAircraft: string := "未知机型"

  /** `str(cell)`: a missing value prints as "nan". */
  function CellText(c: Cell): string {
    match c
    case None => "nan"
    case Some(s) => s
  }

  /** The aircraft type of a row: its text, or the unknown-type marker for a missing cell. */
  function AircraftTypeOf(c: Cell): string {
    match c
    case None => UnknownAircraft
    case Some(s) => s
  }

  /**
   * The single aircraft codes of a type text: '/' and ',' become blanks and the text is
   * split on whitespace; an empty or unknown type has none.
   */
  function AircraftTokens(t: string): seq<string> {
    if t != "" && t != UnknownAircraft then Tokens(Replace(Replace(t, '/', ' '), ',', ' ')) else []
  }

  /** Every code is non-empty and holds no whitespace, '/' or ','. */
  lemma AircraftTokensShape(t: string)
    ensures forall i :: 0 <= i < |AircraftTokens(t)| ==>
      && AircraftTokens(t)[i] != []
      && (forall k :: 0 <= k < |AircraftTokens(t)[i]| ==> !IsSpace(AircraftTokens(t)[i][k]))
      && '/' !in AircraftTokens(t)[i] && ',' !in AircraftTokens(t)[i]
  {
    if t != "" && t != UnknownAircraft {
      var x := Replace(Replace(t, '/', ' '), ',', ' ');
      var parts := Tokens(x);
      TokensNoSpace(x);
      TokensConcat(x);
      forall i | 0 <= i < |parts|
        ensures '/' !in parts[i] && ',' !in parts[i]
      {
        forall k | 0 <= k < |parts[i]|
          ensures parts[i][k] != '/' && parts[i][k] != ','
        {
          ConcatMember(parts, i, k);
          RemoveSpaceMember(x, parts[i][k]);
        }
      }
    }
  }

  /** The codes glued together are the type text without its separators and whitespace. */
  lemma AircraftTokensConcat(t: string)
    requires t != "" && t != UnknownAircraft
    ensures Concat(AircraftTokens(t)) == RemoveSpace(Replace(Replace(t, '/', ' '), ',', ' '))
  {
    TokensConcat(Replace(Replace(t, '/', ' '), ',', ' '));
  }

  /** Two codes joined by '/' (as in "A320/B738") split back into those two codes. */
  lemma AircraftTokensOfPair(a: string, b: string)
    requires a != [] && forall k :: 0 <= k < |a| ==> !IsSpace(a[k]) && a[k] != '/' && a[k] != ','
    requires b != [] && forall k :: 0 <= k < |b| ==> !IsSpace(b[k]) && b[k] != '/' && b[k] != ','
    ensures AircraftTokens(a + "/" + b) == [a, b]
  {
    var t := a + "/" + b;
    assert t[|a|] == '/' && '/' !in UnknownAircraft;
    var x := Replace(Replace(t, '/', ' '), ',', ' ');
    assert x == a + [' '] + b;
    TokensTwoWords(a, b);
  }

  /** Both stripped endpoint names of the row have coordinates. */
  predicate Resolves(row: Row, coords: map<string, Coord>) {
    Strip(CellText(row.departure)) in coords && Strip(CellText(row.arrival)) in coords
  }

  /**
   * The flight a row stands for, or `None` when either stripped endpoint name has no
   * coordinates (the row is skipped).
   */
  function RowFlight(row: Row, coords: map<string, Coord>): (r: Option<Flight>)
    ensures r.Some? <==> Resolves(row, coords)
  {
    var dep, arr := Strip(CellText(row.departure)), Strip(CellText(row.arrival));
    if dep !in coords || arr !in coords then None
    else
      var depTime := ParseTime(row.departureTime);
      var aircraft := AircraftTypeOf(row.aircraftType);
      Some(Flight(
        CellText(row.airline), CellText(row.flightNumber), ParseDays(row.days),
        dep, arr, depTime, ParseTime(row.arrivalTime),
        coords[dep], coords[arr],
        aircraft, ClassifyAircraftSize(Some(aircraft)), IsMorningFlight(depTime),
        AircraftTokens(aircraft)))
  }

  /**
   * What every built flight satisfies: stripped endpoint names that have coordinates, the
   * table's coordinates, the morning flag of its departure time, and the size bucket and
   * single codes of its aircraft type.
   */
  ghost predicate Consistent(f: Flight, coords: map<string, Coord>) {
    && f.departure in coords && f.departureCoord == coords[f.departure]
    && f.arrival in coords && f.arrivalCoord == coords[f.arrival]
    && Strip(f.departure) == f.departure && Strip(f.arrival) == f.arrival
    && f.isMorning == IsMorningFlight(f.departureTime)
    && f.aircraftSize == ClassifyAircraftSize(Some(f.aircraftType))
    && f.individualAircraft == AircraftTokens(f.aircraftType)
  }

  /** The flight of a row is consistent and reads the row's cells. */
  lemma RowFlightFields(row: Row, coords: map<string, Coord>)
    requires RowFlight(row, coords).Some?
    ensures var f := RowFlight(row, coords).value;
      && Consistent(f, coords)
      && f.departure == Strip(CellText(row.departure)) && f.arrival == Strip(CellText(row.arrival))
      && f.departureTime == ParseTime(row.departureTime) && f.arrivalTime == ParseTime(row.arrivalTime)
      && f.days == ParseDays(row.days)
      && f.airline == CellText(row.airline) && f.flightNumber == CellText(row.flightNumber)
  {
    var f := RowFlight(row, coords).value;
    StripIdempotent(CellText(row.departure));
    StripIdempotent(CellText(row.arrival));
  }

  /** A row with no aircraft type gets the unknown-type marker, the default bucket and no single codes. */
  lemma MissingAircraftType(row: Row, coords: map<string, Coord>)
    requires RowFlight(row, coords).Some? && row.aircraftType.None?
    ensures RowFlight(row, coords).value.aircraftType == UnknownAircraft
    ensures RowFlight(row, coords).value.aircraftSize == Default
    ensures RowFlight(row, coords).value.individualAircraft == []
  {
    UnknownIsDefault();
  }

  /** The unknown-type marker matches none of the code lists. */
  lemma UnknownIsDefault()
    ensures ClassifyAircraftSize(Some(UnknownAircraft)) == Default
  {
    NoSmallCode(UnknownAircraft);
    NoMediumCode(UnknownAircraft);
    NoLargeCode(UnknownAircraft);
    ClassifyPlain(UnknownAircraft, Default);
  }

  /** What a row stands for, as a function of the row. */
  function RowOutcome(coords: map<string, Coord>): Row -> Option<Flight> {
    row => RowFlight(row, coords)
  }

  /** The flights of the rows that resolve, in row order (the specification of the loop). */
  function FlightsOf(rows: seq<Row>, coords: map<string, Coord>): seq<Flight> {
    Present(MapSeq(RowOutcome(coords), rows))
  }

  /** The endpoint names and coordinates of a list of flights. */
  function AirportsOf(fs: seq<Flight>): set<(string, Coord)> {
    if fs == [] then {}
    else
      var f := fs[|fs| - 1];
      AirportsOf(fs[..|fs| - 1]) + {(f.departure, f.departureCoord), (f.arrival, f.arrivalCoord)}
  }

  /** The aircraft types of a list of flights. */
  function TypesOf(fs: seq<Flight>): set<string> {
    if fs == [] then {} else TypesOf(fs[..|fs| - 1]) + {fs[|fs| - 1].aircraftType}
  }

  /** The size buckets of a list of flights. */
  function SizesOf(fs: seq<Flight>): set<AircraftSize> {
    if fs == [] then {} else SizesOf(fs[..|fs| - 1]) + {fs[|fs| - 1].aircraftSize}
  }

  /**
   * The row loop: a row whose endpoints do not resolve is skipped; any other row is appended
   * as its flight record, and the record's two airports, aircraft type and size bucket are
   * added to the collected sets.
   */
  method BuildFlights(rows: seq<Row>, coords: map<string, Coord>)
    returns (flights: seq<Flight>, airports: set<(string, Coord)>,
             aircraftTypes: set<string>, aircraftSizes: set<AircraftSize>)
    ensures flights == FlightsOf(rows, coords)
    ensures airports == AirportsOf(flights)
    ensures aircraftTypes == TypesOf(flights)
    ensures aircraftSizes == SizesOf(flights)
  {
    flights, airports, aircraftTypes, aircraftSizes := [], {}, {}, {};
    var i := 0;
    while i < |rows|
      invariant 0 <= i <= |rows|
      invariant flights == FlightsOf(rows[..i], coords)
      invariant airports == AirportsOf(flights)
      invariant aircraftTypes == TypesOf(flights)
      invariant aircraftSizes == SizesOf(flights)
    {
      flights, airports, aircraftTypes, aircraftSizes :=
        TakeRow(rows, i, coords, flights, airports, aircraftTypes, aircraftSizes);
      i := i + 1;
    }
    assert rows[..|rows|] == rows;
  }

  /** One pass of the row loop: row `i` is taken in after the rows before it. */
  method TakeRow(rows: seq<Row>, i: nat, coords: map<string, Coord>,
                 flights: seq<Flight>, airports: set<(string, Coord)>,
                 aircraftTypes: set<string>, aircraftSizes: set<AircraftSize>)
    returns (flights': seq<Flight>, airports': set<(string, Coord)>,
             aircraftTypes': set<string>, aircraftSizes': set<AircraftSize>)
    requires i < |rows|
    requires flights == FlightsOf(rows[..i], coords)
    requires airports == AirportsOf(flights)
    requires aircraftTypes == TypesOf(flights)
    requires aircraftSizes == SizesOf(flights)
    ensures flights' == FlightsOf(rows[..i + 1], coords)
    ensures airports' == AirportsOf(flights')
    ensures aircraftTypes' == TypesOf(flights')
    ensures aircraftSizes' == SizesOf(flights')
  {
    flights', airports', aircraftTypes', aircraftSizes' := flights, airports, aircraftTypes, aircraftSizes;
    var r := RowFlight(rows[i], coords);
    FlightsOfSnoc(rows, i, coords);
    if r.Some? {
      var f := r.value;
      CollectedSnoc(flights, f);
      flights' := flights + [f];
      airports' := airports + {(f.departure, f.departureCoord), (f.arrival, f.arrivalCoord)};
      aircraftTypes' := aircraftTypes + {f.aircraftType};
      aircraftSizes' := aircraftSizes + {f.aircraftSize};
    }
  }

  /** One more flight adds its airports, type and size to what was collected. */
  lemma CollectedSnoc(fs: seq<Flight>, f: Flight)
    ensures AirportsOf(fs + [f]) == AirportsOf(fs) + {(f.departure, f.departureCoord), (f.arrival, f.arrivalCoord)}
    ensures TypesOf(fs + [f]) == TypesOf(fs) + {f.aircraftType}
    ensures SizesOf(fs + [f]) == SizesOf(fs) + {f.aircraftSize}
  {
    assert (fs + [f])[..|fs|] == fs;
  }

  /** The flights of two row blocks are the flights of each block, in order. */
  lemma FlightsOfAppend(a: seq<Row>, b: seq<Row>, coords: map<string, Coord>)
    ensures FlightsOf(a + b, coords) == FlightsOf(a, coords) + FlightsOf(b, coords)
  {
    var f := RowOutcome(coords);
    MapAppend(f, a, b);
    PresentAppend(MapSeq(f, a), MapSeq(f, b));
  }

  /** One more row adds its flight, if it has one, at the end. */
  lemma FlightsOfSnoc(rows: seq<Row>, i: nat, coords: map<string, Coord>)
    requires i < |rows|
    ensures var r := RowFlight(rows[i], coords);
      FlightsOf(rows[..i + 1], coords) == FlightsOf(rows[..i], coords) + (if r.Some? then [r.value] else [])
  {
    var f := RowOutcome(coords);
    assert rows[..i + 1] == rows[..i] + [rows[i]];
    MapAppend(f, rows[..i], [rows[i]]);
    PresentSnoc(MapSeq(f, rows[..i]), f(rows[i]));
  }

  /** Every flight built is consistent with the coordinate table. */
  lemma FlightsConsistent(rows: seq<Row>, coords: map<string, Coord>)
    ensures forall k :: 0 <= k < |FlightsOf(rows, coords)| ==> Consistent(FlightsOf(rows, coords)[k], coords)
  {
    var os := MapSeq(RowOutcome(coords), rows);
    forall k | 0 <= k < |FlightsOf(rows, coords)|
      ensures Consistent(FlightsOf(rows, coords)[k], coords)
    {
      PresentMember(os, k);
      var j :| 0 <= j < |os| && os[j] == Some(Present(os)[k]);
      RowFlightFields(rows[j], coords);
    }
  }

  /** The k-th flight comes from row `idx[k]`, and the rows are taken in order. */
  lemma FlightsOfOrigin(rows: seq<Row>, coords: map<string, Coord>) returns (idx: seq<nat>)
    ensures |idx| == |FlightsOf(rows, coords)|
    ensures forall k :: 0 <= k < |idx| ==> idx[k] < |rows| && RowFlight(rows[idx[k]], coords) == Some(FlightsOf(rows, coords)[k])
    ensures forall k, l :: 0 <= k < l < |idx| ==> idx[k] < idx[l]
  {
    idx := PresentOrigin(MapSeq(RowOutcome(coords), rows));
  }

  /**
   * No row that resolves is dropped: its flight follows the flights of the rows before it.
   */
  lemma FlightsOfKeeps(rows: seq<Row>, coords: map<string, Coord>, j: nat)
    requires j < |rows| && Resolves(rows[j], coords)
    ensures |FlightsOf(rows[..j], coords)| < |FlightsOf(rows, coords)|
    ensures FlightsOf(rows, coords)[|FlightsOf(rows[..j], coords)|] == RowFlight(rows[j], coords).value
  {
    var os := MapSeq(RowOutcome(coords), rows);
    MapTake(RowOutcome(coords), rows, j);
    PresentRank(os, j);
  }

  /** An airport is collected exactly when some flight starts or ends there, with its coordinates. */
  lemma {:induction false} AirportsOfMember(fs: seq<Flight>, p: (string, Coord))
    ensures p in AirportsOf(fs) <==>
      exists i :: 0 <= i < |fs| && (p == (fs[i].departure, fs[i].departureCoord) || p == (fs[i].arrival, fs[i].arrivalCoord))
  {
    if fs != [] {
      var n := |fs| - 1;
      AirportsOfMember(fs[..n], p);
      if p in AirportsOf(fs[..n]) {
        var i :| 0 <= i < n && (p == (fs[..n][i].departure, fs[..n][i].departureCoord) || p == (fs[..n][i].arrival, fs[..n][i].arrivalCoord));
        assert fs[..n][i] == fs[i];
      }
      if exists i :: 0 <= i < |fs| && (p == (fs[i].departure, fs[i].departureCoord) || p == (fs[i].arrival, fs[i].arrivalCoord)) {
        var i :| 0 <= i < |fs| && (p == (fs[i].departure, fs[i].departureCoord) || p == (fs[i].arrival, fs[i].arrivalCoord));
        if i < n {
          assert fs[..n][i] == fs[i];
        }
      }
    }
  }

  /** An aircraft type is collected exactly when some flight has it. */
  lemma {:induction false} TypesOfMember(fs: seq<Flight>, t: string)
    ensures t in TypesOf(fs) <==> exists i :: 0 <= i < |fs| && fs[i].aircraftType == t
  {
    if fs != [] {
      var n := |fs| - 1;
      TypesOfMember(fs[..n], t);
      if t in TypesOf(fs[..n]) {
        var i :| 0 <= i < n && fs[..n][i].aircraftType == t;
        assert fs[..n][i] == fs[i];
      }
      if exists i :: 0 <= i < |fs| && fs[i].aircraftType == t {
        var i :| 0 <= i < |fs| && fs[i].aircraftType == t;
        if i < n {
          assert fs[..n][i] == fs[i];
        }
      }
    }
  }

  /** A size bucket is collected exactly when some flight has it. */
  lemma {:induction false} SizesOfMember(fs: seq<Flight>, z: AircraftSize)
    ensures z in SizesOf(fs) <==> exists i :: 0 <= i < |fs| && fs[i].aircraftSize == z
  {
    if fs != [] {
      var n := |fs| - 1;
      SizesOfMember(fs[..n], z);
      if z in SizesOf(fs[..n]) {
        var i :| 0 <= i < n && fs[..n][i].aircraftSize == z;
        assert fs[..n][i] == fs[i];
      }
      if exists i :: 0 <= i < |fs| && fs[i].aircraftSize == z {
        var i :| 0 <= i < |fs| && fs[i].aircraftSize == z;
        if i < n {
          assert fs[..n][i] == fs[i];
        }
      }
    }
  }
}

/**
 * `merge_flights_to_routes` (data_process/h.py): flights are grouped by the string key
 * `departure + "-" + arrival`; each group accumulates its flights, the morning and evening
 * flags, and the sets of airlines, aircraft types, size buckets and single aircraft codes,
 * and is then given one of three colours. Groups come out in the order their keys were
 * first seen.
 */
module Routes {
  import opened Wrappers
  import opened Text
  import opened Normalize
  import opened Flights
  import opened Lists

  /** The route key of a flight; different endpoint pairs can share one (see `KeyCollision`). */
  function RouteKey(f: Flight): string {
    f.departure + "-" + f.arrival
  }

  /** The accumulator one route key collects while the flights are scanned. */
  datatype Acc = Acc(
    flights: seq<Flight>, hasMorning: bool, hasEvening: bool,
    airlines: set<string>, aircraftTypes: set<string>, aircraftSizes: set<AircraftSize>,
    individualAircraft: set<string>,
    departure: string, arrival: string, departureCoord: Option<Coord>, arrivalCoord: Option<Coord>)

  /** A fresh accumulator: no flights, no flags, empty sets, blank endpoints, no coordinates. */
  const EmptyAcc: Acc := Acc([], false, false, {}, {}, {}, {}, "", "", None, None)

  /** The set of the codes in a list. */
  function Elements(s: seq<string>): set<string> {
    set x | x in s
  }

  /**
   * One flight added to its route's accumulator: appended to the flights, one of the two
   * flags raised, its airline, type, size bucket and single codes added to the sets, and
   * its endpoints and coordinates written over the route's.
   */
  function AddFlight(acc: Acc, f: Flight): Acc {
    var parsed := AircraftTokens(f.aircraftType);
    Acc(acc.flights + [f],
      if f.isMorning then true else acc.hasMorning,
      if f.isMorning then acc.hasEvening else true,
      acc.airlines + {f.airline}, acc.aircraftTypes + {f.aircraftType},
      acc.aircraftSizes + {f.aircraftSize},
      acc.individualAircraft + Elements(parsed) + Elements(f.individualAircraft),
      f.departure, f.arrival, Some(f.departureCoord), Some(f.arrivalCoord))
  }

  /** The accumulator of the flights `m`, added one at a time to a fresh one. */
  function Fold(m: seq<Flight>): (acc: Acc)
    ensures acc.flights == m
  {
    if m == [] then EmptyAcc else AddFlight(Fold(m[..|m| - 1]), m[|m| - 1])
  }

  /** The single codes a flight contributes: those split out of its type, then those it carries. */
  function FlightCodes(f: Flight): seq<string> {
    AircraftTokens(f.aircraftType) + f.individualAircraft
  }

  /** Every flight leaves its airline, type, size bucket and flag in the accumulator. */
  lemma {:induction false} FoldHas(m: seq<Flight>, t: nat)
    requires t < |m|
    ensures var acc, f := Fold(m), m[t];
      && f.airline in acc.airlines && f.aircraftType in acc.aircraftTypes
      && f.aircraftSize in acc.aircraftSizes
      && (if f.isMorning then acc.hasMorning else acc.hasEvening)
  {
    var n := |m| - 1;
    if t < n {
      FoldHas(m[..n], t);
    }
  }

  /** Every flight leaves its single codes in the accumulator. */
  lemma {:induction false} FoldCodeHas(m: seq<Flight>, t: nat, c: string)
    requires t < |m| && c in FlightCodes(m[t])
    ensures c in Fold(m).individualAircraft
  {
    var n := |m| - 1;
    var f := m[n];
    if t < n {
      FoldCodeHas(m[..n], t, c);
    } else {
      assert c in Elements(AircraftTokens(f.aircraftType)) + Elements(f.individualAircraft);
    }
  }

  /** A raised morning flag comes from a morning flight. */
  lemma {:induction false} MorningFrom(m: seq<Flight>) returns (t: nat)
    requires Fold(m).hasMorning
    ensures t < |m| && m[t].isMorning
  {
    var n := |m| - 1;
    if m[n].isMorning {
      t := n;
    } else {
      t := MorningFrom(m[..n]);
    }
  }

  /** A raised evening flag comes from a flight that is not a morning one. */
  lemma {:induction false} EveningFrom(m: seq<Flight>) returns (t: nat)
    requires Fold(m).hasEvening
    ensures t < |m| && !m[t].isMorning
  {
    var n := |m| - 1;
    if !m[n].isMorning {
      t := n;
    } else {
      t := EveningFrom(m[..n]);
    }
  }

  /** A collected airline comes from some flight. */
  lemma {:induction false} AirlineFrom(m: seq<Flight>, a: string) returns (t: nat)
    requires a in Fold(m).airlines
    ensures t < |m| && m[t].airline == a
  {
    var n := |m| - 1;
    if a == m[n].airline {
      t := n;
    } else {
      t := AirlineFrom(m[..n], a);
    }
  }

  /** A collected aircraft type comes from some flight. */
  lemma {:induction false} TypeFrom(m: seq<Flight>, a: string) returns (t: nat)
    requires a in Fold(m).aircraftTypes
    ensures t < |m| && m[t].aircraftType == a
  {
    var n := |m| - 1;
    if a == m[n].aircraftType {
      t := n;
    } else {
      t := TypeFrom(m[..n], a);
    }
  }

  /** A collected size bucket comes from some flight. */
  lemma {:induction false} SizeFrom(m: seq<Flight>, z: AircraftSize) returns (t: nat)
    requires z in Fold(m).aircraftSizes
    ensures t < |m| && m[t].aircraftSize == z
  {
    var n := |m| - 1;
    if z == m[n].aircraftSize {
      t := n;
    } else {
      t := SizeFrom(m[..n], z);
    }
  }

  /** A collected single code comes from some flight. */
  lemma {:induction false} CodeFrom(m: seq<Flight>, c: string) returns (t: nat)
    requires c in Fold(m).individualAircraft
    ensures t < |m| && c in FlightCodes(m[t])
  {
    var n := |m| - 1;
    var f := m[n];
    if c in Elements(AircraftTokens(f.aircraftType)) + Elements(f.individualAircraft) {
      t := n;
    } else {
      t := CodeFrom(m[..n], c);
    }
  }

  /** The morning flag is raised exactly when some flight is a morning one, the evening flag when some is not. */
  lemma FoldFlags(m: seq<Flight>)
    ensures Fold(m).hasMorning <==> exists t :: 0 <= t < |m| && m[t].isMorning
    ensures Fold(m).hasEvening <==> exists t :: 0 <= t < |m| && !m[t].isMorning
  {
    if Fold(m).hasMorning {
      var t := MorningFrom(m);
    }
    if Fold(m).hasEvening {
      var t := EveningFrom(m);
    }
    forall t | 0 <= t < |m| {
      FoldHas(m, t);
    }
  }

  /** An airline, aircraft type or size bucket is collected exactly when some flight has it. */
  lemma FoldSets(m: seq<Flight>, a: string, z: AircraftSize)
    ensures a in Fold(m).airlines <==> exists t :: 0 <= t < |m| && m[t].airline == a
    ensures a in Fold(m).aircraftTypes <==> exists t :: 0 <= t < |m| && m[t].aircraftType == a
    ensures z in Fold(m).aircraftSizes <==> exists t :: 0 <= t < |m| && m[t].aircraftSize == z
  {
    if a in Fold(m).airlines {
      var t := AirlineFrom(m, a);
    }
    if a in Fold(m).aircraftTypes {
      var t := TypeFrom(m, a);
    }
    if z in Fold(m).aircraftSizes {
      var t := SizeFrom(m, z);
    }
    forall t | 0 <= t < |m| {
      FoldHas(m, t);
    }
  }

  /** A single code is collected exactly when some flight contributes it. */
  lemma FoldCode(m: seq<Flight>, c: string)
    ensures c in Fold(m).individualAircraft <==> exists t :: 0 <= t < |m| && c in FlightCodes(m[t])
  {
    if c in Fold(m).individualAircraft {
      var t := CodeFrom(m, c);
    }
    forall t | 0 <= t < |m| && c in FlightCodes(m[t]) {
      FoldCodeHas(m, t, c);
    }
  }

  /** The route keys in the order they are first seen. */
  function Keys(fs: seq<Flight>): seq<string> {
    if fs == [] then []
    else
      var init := Keys(fs[..|fs| - 1]);
      var k := RouteKey(fs[|fs| - 1]);
      if k in init then init else init + [k]
  }

  /** Each flight marked with whether it belongs to key `k`. */
  function Marks(fs: seq<Flight>, k: string): (os: seq<Option<Flight>>)
    ensures |os| == |fs|
    ensures forall j :: 0 <= j < |fs| ==> os[j] == if RouteKey(fs[j]) == k then Some(fs[j]) else None
  {
    seq(|fs|, j requires 0 <= j < |fs| => if RouteKey(fs[j]) == k then Some(fs[j]) else None)
  }

  /** The flights with key `k`, in input order. */
  function Members(fs: seq<Flight>, k: string): seq<Flight> {
    Present(Marks(fs, k))
  }

  /** Route colours and route types. */
  const BothColour: string := "#CE6A85"
  const MorningColour: string := "#FF8C61"
  const EveningColour: string := "#4E598C"
  const BothKind: string := "早晚班"
  const MorningKind: string := "早班"
  const EveningKind: string := "晚班"

  /** One finished route. */
  datatype Route = Route(
    key: string, departure: string, arrival: string,
    departureCoord: Option<Coord>, arrivalCoord: Option<Coord>,
    flights: seq<Flight>, airlines: set<string>, aircraftTypes: set<string>,
    aircraftSizes: set<AircraftSize>, individualAircraft: set<string>,
    colour: string, kind: string, flightCount: int, hasMorning: bool, hasEvening: bool)

  /** The colour and type of a flag pair: both, morning only, otherwise evening. */
  function ColourOf(hasMorning: bool, hasEvening: bool): (string, string) {
    if hasMorning && hasEvening then (BothColour, BothKind)
    else if hasMorning then (MorningColour, MorningKind)
    else (EveningColour, EveningKind)
  }

  /** The route built from a key and its accumulator. */
  function Finish(key: string, acc: Acc): Route {
    var (colour, kind) := ColourOf(acc.hasMorning, acc.hasEvening);
    Route(key, acc.departure, acc.arrival, acc.departureCoord, acc.arrivalCoord,
      acc.flights, acc.airlines, acc.aircraftTypes, acc.aircraftSizes, acc.individualAircraft,
      colour, kind, |acc.flights|, acc.hasMorning, acc.hasEvening)
  }

  /** The routes of a flight list: one per key, in first-seen order, each folded over its members. */
  function RoutesOf(fs: seq<Flight>): (rs: seq<Route>)
    ensures |rs| == |Keys(fs)|
  {
    var keys := Keys(fs);
    seq(|keys|, i requires 0 <= i < |keys| => Finish(keys[i], Fold(Members(fs, keys[i]))))
  }

  /**
   * The grouping loop, followed by the loop that turns each accumulator into a route in the
   * order the keys were first seen.
   */
  method MergeFlightsToRoutes(flights: seq<Flight>) returns (routes: seq<Route>)
    ensures routes == RoutesOf(flights)
  {
    var keys, accs := GroupFlights(flights);
    routes := [];
    var j := 0;
    while j < |keys|
      invariant 0 <= j <= |keys|
      invariant routes == RoutesOf(flights)[..j]
    {
      var key := keys[j];
      assert RoutesOf(flights)[j] == Finish(key, accs[key]);
      assert RoutesOf(flights)[..j + 1] == RoutesOf(flights)[..j] + [RoutesOf(flights)[j]];
      routes := routes + [Finish(key, accs[key])];
      j := j + 1;
    }
    assert RoutesOf(flights)[..j] == RoutesOf(flights);
  }

  /**
   * The grouping loop over a key-to-accumulator map that starts every new key with a fresh
   * accumulator; the order in which keys were first inserted is kept alongside.
   */
  method GroupFlights(flights: seq<Flight>) returns (keys: seq<string>, accs: map<string, Acc>)
    ensures keys == Keys(flights) && accs == Table(flights)
  {
    keys, accs := [], map[];
    var i := 0;
    while i < |flights|
      invariant 0 <= i <= |flights|
      invariant keys == Keys(flights[..i]) && accs == Table(flights[..i])
    {
      var f := flights[i];
      var key := RouteKey(f);
      KeysSnoc(flights, i);
      TableSnoc(flights, i);
      if key !in accs {
        keys := keys + [key];
      }
      accs := accs[key := AddFlight(if key in accs then accs[key] else EmptyAcc, f)];
      i := i + 1;
    }
    assert flights[..|flights|] == flights;
  }

  /** The accumulator of every key seen in `fs`, built from that key's flights. */
  ghost function Table(fs: seq<Flight>): map<string, Acc> {
    map k | k in Keys(fs) :: Fold(Members(fs, k))
  }

  /**
   * One step of the grouping loop: the key of the next flight gets that flight added to its
   * accumulator, which is a fresh one when the key is new; every other key keeps its own.
   */
  lemma TableSnoc(fs: seq<Flight>, i: nat)
    requires i < |fs|
    ensures var f, t := fs[i], Table(fs[..i]);
      var key := RouteKey(f);
      Table(fs[..i + 1]) == t[key := AddFlight(if key in t then t[key] else EmptyAcc, f)]
  {
    var f, t := fs[i], Table(fs[..i]);
    var key := RouteKey(f);
    var acc := if key in t then t[key] else EmptyAcc;
    var next := t[key := AddFlight(acc, f)];
    var before := Members(fs[..i], key);
    if key !in t {
      MembersOutsideKeys(fs[..i], key);
    }
    assert acc == Fold(before);
    assert (before + [f])[..|before|] == before;
    KeysSnoc(fs, i);
    assert forall k :: k in next <==> k in Keys(fs[..i + 1]);
    forall k | k in next
      ensures next[k] == Fold(Members(fs[..i + 1], k))
    {
      MembersSnoc(fs, i, k);
      if k == key {
        assert Members(fs[..i + 1], k) == before + [f];
      } else {
        assert Members(fs[..i + 1], k) == Members(fs[..i], k);
      }
    }
    TableIs(fs[..i + 1], next);
  }

  /** A map holding exactly the seen keys, each with the fold of its flights, is the table. */
  lemma TableIs(fs: seq<Flight>, m: map<string, Acc>)
    requires forall k :: k in m <==> k in Keys(fs)
    requires forall k :: k in m ==> m[k] == Fold(Members(fs, k))
    ensures m == Table(fs)
  {
  }

  /** One more flight: the members of its key gain it at the end, the others are unchanged. */
  lemma MembersSnoc(fs: seq<Flight>, i: nat, k: string)
    requires i < |fs|
    ensures Members(fs[..i + 1], k) == Members(fs[..i], k) + (if RouteKey(fs[i]) == k then [fs[i]] else [])
  {
    var o := if RouteKey(fs[i]) == k then Some(fs[i]) else None;
    assert Marks(fs[..i + 1], k) == Marks(fs[..i], k) + [o];
    PresentSnoc(Marks(fs[..i], k), o);
  }

  /** One more flight: its key is appended unless already seen. */
  lemma KeysSnoc(fs: seq<Flight>, i: nat)
    requires i < |fs|
    ensures var init := Keys(fs[..i]);
      Keys(fs[..i + 1]) == if RouteKey(fs[i]) in init then init else init + [RouteKey(fs[i])]
  {
    assert fs[..i + 1][..i] == fs[..i];
  }

  /** A key is listed exactly when some flight has it. */
  lemma {:induction false} KeysMember(fs: seq<Flight>, k: string)
    ensures k in Keys(fs) <==> exists j :: 0 <= j < |fs| && RouteKey(fs[j]) == k
  {
    if fs != [] {
      var n := |fs| - 1;
      KeysMember(fs[..n], k);
      if exists j :: 0 <= j < n && RouteKey(fs[..n][j]) == k {
        var j :| 0 <= j < n && RouteKey(fs[..n][j]) == k;
        assert fs[j] == fs[..n][j];
      }
      if exists j :: 0 <= j < |fs| && RouteKey(fs[j]) == k {
        var j :| 0 <= j < |fs| && RouteKey(fs[j]) == k;
        if j < n {
          assert fs[..n][j] == fs[j];
        }
      }
    }
  }

  /** No key is listed twice. */
  lemma {:induction false} KeysDistinct(fs: seq<Flight>)
    ensures forall a, b :: 0 <= a < b < |Keys(fs)| ==> Keys(fs)[a] != Keys(fs)[b]
  {
    if fs != [] {
      KeysDistinct(fs[..|fs| - 1]);
    }
  }

  /** A key nobody has collects no flights. */
  lemma {:induction false} MembersOutsideKeys(fs: seq<Flight>, k: string)
    requires k !in Keys(fs)
    ensures Members(fs, k) == []
  {
    if fs != [] {
      var n := |fs| - 1;
      assert fs[..n + 1] == fs;
      MembersOutsideKeys(fs[..n], k);
      MembersSnoc(fs, n, k);
    }
  }

  /** Every flight a route holds has that route's key. */
  lemma MembersHaveKey(fs: seq<Flight>, k: string)
    ensures forall t :: 0 <= t < |Members(fs, k)| ==> RouteKey(Members(fs, k)[t]) == k
  {
    var os := Marks(fs, k);
    forall t | 0 <= t < |Members(fs, k)|
      ensures RouteKey(Members(fs, k)[t]) == k
    {
      PresentMember(os, t);
    }
  }

  /** Every flight with key `k` is among that key's members. */
  lemma MembersHold(fs: seq<Flight>, k: string, j: nat)
    requires j < |fs| && RouteKey(fs[j]) == k
    ensures fs[j] in Members(fs, k)
  {
    PresentRank(Marks(fs, k), j);
  }

  /** The members of a key keep their input order: the t-th member is flight `idx[t]`, indices increasing. */
  lemma MembersInOrder(fs: seq<Flight>, k: string) returns (idx: seq<nat>)
    ensures |idx| == |Members(fs, k)|
    ensures forall t :: 0 <= t < |idx| ==> idx[t] < |fs| && fs[idx[t]] == Members(fs, k)[t] && RouteKey(fs[idx[t]]) == k
    ensures forall t, u :: 0 <= t < u < |idx| ==> idx[t] < idx[u]
  {
    idx := PresentOrigin(Marks(fs, k));
  }

  /** The routes partition the flights: each flight sits in the route with its key, and that route is the only one with that key. */
  lemma Partition(fs: seq<Flight>, j: nat) returns (i: nat)
    requires j < |fs|
    ensures i < |RoutesOf(fs)|
    ensures RoutesOf(fs)[i].key == RouteKey(fs[j]) && fs[j] in RoutesOf(fs)[i].flights
    ensures forall i' :: 0 <= i' < |RoutesOf(fs)| && i' != i ==> RoutesOf(fs)[i'].key != RouteKey(fs[j])
  {
    var keys := Keys(fs);
    var k := RouteKey(fs[j]);
    KeysMember(fs, k);
    KeysDistinct(fs);
    i :| 0 <= i < |keys| && keys[i] == k;
    MembersHold(fs, k, j);
  }

  /** A route's flights are the members of its key, all with that key, and a route is never empty. */
  lemma RouteFlights(fs: seq<Flight>, i: nat)
    requires i < |RoutesOf(fs)|
    ensures RoutesOf(fs)[i].key == Keys(fs)[i]
    ensures RoutesOf(fs)[i].flights == Members(fs, Keys(fs)[i]) != []
    ensures RoutesOf(fs)[i].flightCount == |RoutesOf(fs)[i].flights|
    ensures forall t :: 0 <= t < |RoutesOf(fs)[i].flights| ==> RouteKey(RoutesOf(fs)[i].flights[t]) == RoutesOf(fs)[i].key
  {
    var k := Keys(fs)[i];
    KeysMember(fs, k);
    var j :| 0 <= j < |fs| && RouteKey(fs[j]) == k;
    MembersHold(fs, k, j);
    MembersHaveKey(fs, k);
  }

  /**
   * A route's flags and colour: it has a morning (evening) flight exactly when its morning
   * (evening) flag is set, at least one flag is set, and the colour and type follow the pair.
   */
  lemma RouteFlags(fs: seq<Flight>, i: nat)
    requires i < |RoutesOf(fs)|
    ensures var r := RoutesOf(fs)[i];
      && (r.hasMorning <==> exists t :: 0 <= t < |r.flights| && r.flights[t].isMorning)
      && (r.hasEvening <==> exists t :: 0 <= t < |r.flights| && !r.flights[t].isMorning)
      && (r.hasMorning || r.hasEvening)
      && (r.colour == BothColour <==> r.hasMorning && r.hasEvening)
      && (r.colour == MorningColour <==> r.hasMorning && !r.hasEvening)
      && (r.colour == EveningColour <==> !r.hasMorning)
      && (r.kind == BothKind <==> r.colour == BothColour)
      && (r.kind == MorningKind <==> r.colour == MorningColour)
      && (r.kind == EveningKind <==> r.colour == EveningColour)
  {
    var m := Members(fs, Keys(fs)[i]);
    RouteFlights(fs, i);
    FoldFlags(m);
    assert m[0].isMorning || !m[0].isMorning;
  }

  /** A route's sets are the duplicate-free unions over its flights. */
  lemma RouteSets(fs: seq<Flight>, i: nat, a: string, z: AircraftSize)
    requires i < |RoutesOf(fs)|
    ensures var r := RoutesOf(fs)[i];
      && (a in r.airlines <==> exists t :: 0 <= t < |r.flights| && r.flights[t].airline == a)
      && (a in r.aircraftTypes <==> exists t :: 0 <= t < |r.flights| && r.flights[t].aircraftType == a)
      && (z in r.aircraftSizes <==> exists t :: 0 <= t < |r.flights| && r.flights[t].aircraftSize == z)
  {
    FoldSets(Members(fs, Keys(fs)[i]), a, z);
  }

  /** A route's endpoints and coordinates are those of its last flight. */
  lemma RouteEndpoints(fs: seq<Flight>, i: nat)
    requires i < |RoutesOf(fs)|
    ensures var r := RoutesOf(fs)[i];
      && r.flights != []
      && r.departure == r.flights[|r.flights| - 1].departure
      && r.arrival == r.flights[|r.flights| - 1].arrival
      && r.departureCoord == Some(r.flights[|r.flights| - 1].departureCoord)
      && r.arrivalCoord == Some(r.flights[|r.flights| - 1].arrivalCoord)
  {
    RouteFlights(fs, i);
  }

  /** For flights built from rows, a route's single codes are those its flights carry. */
  lemma RouteIndividual(fs: seq<Flight>, i: nat, c: string)
    requires i < |RoutesOf(fs)|
    requires forall t :: 0 <= t < |fs| ==> fs[t].individualAircraft == AircraftTokens(fs[t].aircraftType)
    ensures var r := RoutesOf(fs)[i];
      c in r.individualAircraft <==> exists t :: 0 <= t < |r.flights| && c in r.flights[t].individualAircraft
  {
    var m := Members(fs, Keys(fs)[i]);
    FoldCode(m, c);
    forall t | 0 <= t < |m|
      ensures c in FlightCodes(m[t]) <==> c in m[t].individualAircraft
    {
      PresentMember(Marks(fs, Keys(fs)[i]), t);
      var j :| 0 <= j < |fs| && Marks(fs, Keys(fs)[i])[j] == Some(m[t]);
    }
  }

  /**
   * The keys of routes appear in first-seen order: every flight of a later route comes after
   * some flight of each earlier route.
   */
  lemma {:induction false} KeysFirstSeen(fs: seq<Flight>, a: nat, b: nat, j: nat)
    requires a < b < |Keys(fs)| && j < |fs| && RouteKey(fs[j]) == Keys(fs)[b]
    ensures exists j' :: 0 <= j' < j && RouteKey(fs[j']) == Keys(fs)[a]
  {
    var n := |fs| - 1;
    var init := fs[..n];
    var ks := Keys(init);
    if j < n && b < |ks| {
      assert init[j] == fs[j];
      KeysFirstSeen(init, a, b, j);
      var j' :| 0 <= j' < j && RouteKey(init[j']) == ks[a];
      assert init[j'] == fs[j'];
    } else if j < n {
      assert init[j] == fs[j];
      KeysMember(init, Keys(fs)[b]);
    } else {
      if b < |ks| {
        KeysDistinct(fs);
      }
      KeysMember(init, ks[a]);
      var j' :| 0 <= j' < n && RouteKey(init[j']) == ks[a];
      assert init[j'] == fs[j'];
    }
  }

  /** The number of flights held by the routes of keys `ks`. */
  function Held(fs: seq<Flight>, ks: seq<string>): nat {
    if ks == [] then 0 else Held(fs, ks[..|ks| - 1]) + |Members(fs, ks[|ks| - 1])|
  }

  /** The total flight count of all routes. */
  function TotalCount(rs: seq<Route>): int {
    if rs == [] then 0 else TotalCount(rs[..|rs| - 1]) + rs[|rs| - 1].flightCount
  }

  /** One more flight adds one to the count of the distinct keys that include its key, and nothing otherwise. */
  lemma {:induction false} HeldSnoc(fs: seq<Flight>, i: nat, ks: seq<string>)
    requires i < |fs|
    requires forall a, b :: 0 <= a < b < |ks| ==> ks[a] != ks[b]
    ensures Held(fs[..i + 1], ks) == Held(fs[..i], ks) + (if RouteKey(fs[i]) in ks then 1 else 0)
  {
    if ks != [] {
      var ks' := ks[..|ks| - 1];
      HeldSnoc(fs, i, ks');
      MembersSnoc(fs, i, ks[|ks| - 1]);
      assert RouteKey(fs[i]) in ks <==> RouteKey(fs[i]) in ks' || RouteKey(fs[i]) == ks[|ks| - 1];
    }
  }

  /** Every flight is held by exactly one route. */
  lemma {:induction false} HeldAll(fs: seq<Flight>)
    ensures Held(fs, Keys(fs)) == |fs|
  {
    if fs != [] {
      var n := |fs| - 1;
      assert fs[..n + 1] == fs;
      HeldAll(fs[..n]);
      KeysDistinct(fs[..n]);
      KeysSnoc(fs, n);
      HeldSnoc(fs, n, Keys(fs[..n]));
      var k := RouteKey(fs[n]);
      if k !in Keys(fs[..n]) {
        MembersOutsideKeys(fs[..n], k);
        MembersSnoc(fs, n, k);
      }
    }
  }

  /** The flight counts of the routes add up to the number of flights. */
  lemma CountsSum(fs: seq<Flight>)
    ensures TotalCount(RoutesOf(fs)) == |fs|
  {
    var rs, ks := RoutesOf(fs), Keys(fs);
    HeldAll(fs);
    forall j | 0 <= j < |rs|
      ensures rs[j].flightCount == |Members(fs, ks[j])|
    {
      assert rs[j] == Finish(ks[j], Fold(Members(fs, ks[j])));
    }
    CountsHeld(fs, rs, ks, |ks|);
    assert rs[..|ks|] == rs && ks[..|ks|] == ks;
  }

  /** When route `j` counts the flights of key `j`, the counts of the first `n` routes are the flights held by the first `n` keys. */
  lemma {:induction false} CountsHeld(fs: seq<Flight>, rs: seq<Route>, ks: seq<string>, n: nat)
    requires |rs| == |ks| && n <= |ks|
    requires forall j :: 0 <= j < |rs| ==> rs[j].flightCount == |Members(fs, ks[j])|
    ensures TotalCount(rs[..n]) == Held(fs, ks[..n])
  {
    if n > 0 {
      CountsHeld(fs, rs, ks, n - 1);
      assert rs[..n][..n - 1] == rs[..n - 1];
      assert ks[..n][..n - 1] == ks[..n - 1];
    }
  }

  /** Two flights whose endpoints differ but whose keys are both "A-B-C" share one route. */
  lemma KeyCollision(f: Flight, g: Flight)
    requires f.departure == "A-B" && f.arrival == "C"
    requires g.departure == "A" && g.arrival == "B-C"
    ensures |RoutesOf([f, g])| == 1
    ensures RoutesOf([f, g])[0].flights == [f, g]
    ensures RoutesOf([f, g])[0].departure == "A" && RoutesOf([f, g])[0].arrival == "B-C"
  {
    var fs, k := [f, g], "A-B-C";
    assert RouteKey(f) == k == RouteKey(g);
    assert fs[..0] == [] && fs[..2] == fs;
    KeysSnoc(fs, 0);
    KeysSnoc(fs, 1);
    assert Keys(fs) == [k];
    MembersSnoc(fs, 0, k);
    MembersSnoc(fs, 1, k);
    assert Members(fs, k) == [f, g];
    assert [f, g][..1] == [f];
  }
}

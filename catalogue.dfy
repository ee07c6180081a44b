/**
 * The transit catalogue: an arena of stops and buses, name indexes into it,
 * a directed stop-to-stop road distance table and a stop -> bus names index.
 * The C++ `const Stop*` / `const Bus*` pointers are indices into the arenas.
 */
module Catalogue {
  import opened Wrappers

  /** Index into `stops`; stands for a `const Stop*`. */
  type StopId = nat
  /** Index into `buses`; stands for a `const Bus*`. */
  type BusId = nat

  datatype Coordinates = Coordinates(lat: real, lng: real)

  datatype Stop = Stop(name: string, coordinates: Coordinates)

  datatype Bus = Bus(name: string, route: seq<StopId>, isRoundtrip: bool)

  /** Per-bus statistics; the all-zero value is the "not found" answer. */
  datatype BusInfo = BusInfo(routeDistance: int, stops: nat, uniqueStop: nat)

  /** The distinct stops of a route. */
  function Elements(route: seq<StopId>): set<StopId>
  {
    set s | s in route
  }

  lemma {:induction false} ElementsBounds(route: seq<StopId>)
    ensures |Elements(route)| <= |route|
    ensures |route| > 0 ==> 1 <= |Elements(route)|
    decreases |route|
  {
    if route != [] {
      var init := route[..|route| - 1];
      ElementsBounds(init);
      assert Elements(route) == Elements(init) + {route[|route| - 1]};
      assert route[0] in Elements(route);
    }
  }

  /** A directed stop-to-stop distance. */
  type Distance = (StopId, StopId) -> int

  /** Sum of the directed distances route[k-1] -> route[k] for i < k <= j. */
  function SegmentDistance(dist: Distance, route: seq<StopId>, i: nat, j: nat): int
    requires i <= j < |route|
    decreases j
  {
    if j == i then 0 else SegmentDistance(dist, route, i, j - 1) + dist(route[j - 1], route[j])
  }

  /** Sum of the directed distances route[k] -> route[k-1] for i < k <= j (riding backwards). */
  function ReverseSegmentDistance(dist: Distance, route: seq<StopId>, i: nat, j: nat): int
    requires i <= j < |route|
    decreases j
  {
    if j == i then 0 else ReverseSegmentDistance(dist, route, i, j - 1) + dist(route[j], route[j - 1])
  }

  lemma {:induction false} SegmentDistanceAdditive(dist: Distance, route: seq<StopId>, i: nat, j: nat, k: nat)
    requires i <= j <= k < |route|
    ensures SegmentDistance(dist, route, i, k)
            == SegmentDistance(dist, route, i, j) + SegmentDistance(dist, route, j, k)
    decreases k
  {
    if k > j {
      SegmentDistanceAdditive(dist, route, i, j, k - 1);
    }
  }

  /** The road length of a whole route: the summed consecutive-pair distances. */
  function RouteDistance(dist: Distance, route: seq<StopId>): int
  {
    if |route| == 0 then 0 else SegmentDistance(dist, route, 0, |route| - 1)
  }

  /** A route is a palindrome: it reads the same backwards. */
  predicate Palindrome(route: seq<StopId>)
  {
    forall k | 0 <= k < |route| :: route[k] == route[|route| - 1 - k]
  }

  /**
   * On a palindromic route, riding stops i..j backwards covers the same
   * directed legs as riding the mirrored positions forwards.
   */
  lemma {:induction false} ReverseSegmentIsMirroredSegment(dist: Distance, route: seq<StopId>, i: nat, j: nat)
    requires i <= j < |route| && Palindrome(route)
    ensures ReverseSegmentDistance(dist, route, i, j)
            == SegmentDistance(dist, route, |route| - 1 - j, |route| - 1 - i)
    decreases j
  {
    var m := |route| - 1;
    if j > i {
      ReverseSegmentIsMirroredSegment(dist, route, i, j - 1);
      SegmentDistanceAdditive(dist, route, m - j, m - j + 1, m - i);
      assert route[m - j] == route[j] && route[m - (j - 1)] == route[j - 1];
    }
  }

  class TransportCatalogue {
    var stops: seq<Stop>
    var buses: seq<Bus>
    var stopnameToStop: map<string, StopId>
    var busnameToBus: map<string, BusId>
    var busesInStops: map<StopId, set<string>>
    var distances: map<(StopId, StopId), int>
    /** The geodesic fallback distance (great-circle distance, truncated to an int). */
    const geoDistance: (Coordinates, Coordinates) -> nat

    /** `i` is the first stop of the arena that carries `name`. */
    ghost predicate FirstStopNamed(name: string, i: StopId)
      reads this`stops
    {
      i < |stops| && stops[i].name == name && forall j | 0 <= j < i :: stops[j].name != name
    }

    ghost predicate FirstBusNamed(name: string, b: BusId)
      reads this`buses
    {
      b < |buses| && buses[b].name == name && forall j | 0 <= j < b :: buses[j].name != name
    }

    /** Every stop of `route` is a stop of the arena. */
    predicate RouteIn(route: seq<StopId>)
      reads this`stops
    {
      forall k | 0 <= k < |route| :: route[k] < |stops|
    }

    /** The names of the buses stored in the index for stop `s`. */
    function BusesAt(s: StopId): set<string>
      reads this`busesInStops
    {
      if s in busesInStops then busesInStops[s] else {}
    }

    /** The names of all stored buses whose route passes through `s`. */
    ghost function NamesThrough(s: StopId): set<string>
      reads this`buses
    {
      set b | 0 <= b < |buses| && s in buses[b].route :: buses[b].name
    }

    ghost predicate Valid()
      reads this
    {
      && (forall n | n in stopnameToStop :: FirstStopNamed(n, stopnameToStop[n]))
      && (forall i | 0 <= i < |stops| :: stops[i].name in stopnameToStop)
      && (forall n | n in busnameToBus :: FirstBusNamed(n, busnameToBus[n]))
      && (forall b | 0 <= b < |buses| :: buses[b].name in busnameToBus)
      && (forall b | 0 <= b < |buses| :: RouteIn(buses[b].route))
      && (forall p | p in distances :: p.0 < |stops| && p.1 < |stops|)
      && (forall s | s in busesInStops :: s < |stops|)
      && (forall s: StopId | s < |stops| :: BusesAt(s) == NamesThrough(s))
    }

    constructor (geoDistance: (Coordinates, Coordinates) -> nat)
      ensures Valid()
      ensures stops == [] && buses == [] && distances == map[]
      ensures stopnameToStop == map[] && busnameToBus == map[] && busesInStops == map[]
      ensures this.geoDistance == geoDistance
    {
      stops, buses := [], [];
      stopnameToStop, busnameToBus := map[], map[];
      busesInStops, distances := map[], map[];
      this.geoDistance := geoDistance;
    }

    /** Lookup by name; `None` stands for the null pointer. */
    function FindStop(name: string): (r: Option<StopId>)
      reads this
      requires Valid()
      ensures r.Some? <==> exists i | 0 <= i < |stops| :: stops[i].name == name
      ensures r.Some? ==> FirstStopNamed(name, r.value)
    {
      if name in stopnameToStop then Some(stopnameToStop[name]) else None
    }

    function FindBus(name: string): (r: Option<BusId>)
      reads this
      requires Valid()
      ensures r.Some? <==> exists b | 0 <= b < |buses| :: buses[b].name == name
      ensures r.Some? ==> FirstBusNamed(name, r.value)
    {
      if name in busnameToBus then Some(busnameToBus[name]) else None
    }

    method AddStop(name: string, coordinates: Coordinates)
      requires Valid()
      modifies this
      ensures Valid()
      ensures stops == old(stops) + [Stop(name, coordinates)]
      ensures stopnameToStop == if name in old(stopnameToStop) then old(stopnameToStop)
                                else old(stopnameToStop)[name := |old(stops)|]
      ensures buses == old(buses) && busnameToBus == old(busnameToBus)
      ensures busesInStops == old(busesInStops) && distances == old(distances)
      ensures name !in old(stopnameToStop) ==>
                FindStop(name).Some? && stops[FindStop(name).value] == Stop(name, coordinates)
      ensures name in old(stopnameToStop) ==> FindStop(name) == old(FindStop(name))
    {
      stops := stops + [Stop(name, coordinates)];
      if name !in stopnameToStop {
        stopnameToStop := stopnameToStop[name := |stops| - 1];
      }
      AppendedStopKeepsValid(Stop(name, coordinates));
    }

    /** Appending a stop and registering its name if it is new keeps the invariant. */
    twostate lemma AppendedStopKeepsValid(stop: Stop)
      requires old(Valid())
      requires stops == old(stops) + [stop]
      requires stopnameToStop == if stop.name in old(stopnameToStop) then old(stopnameToStop)
                                 else old(stopnameToStop)[stop.name := |old(stops)|]
      requires buses == old(buses) && busnameToBus == old(busnameToBus)
      requires busesInStops == old(busesInStops) && distances == old(distances)
      ensures Valid()
    {
      forall n | n in stopnameToStop ensures FirstStopNamed(n, stopnameToStop[n]) {
        if n in old(stopnameToStop) {
          assert old(FirstStopNamed(n, stopnameToStop[n]));
        }
      }
      forall i | 0 <= i < |stops| ensures stops[i].name in stopnameToStop {
        if i < |old(stops)| {
          assert old(stops[i].name in stopnameToStop);
        }
      }
      forall b | 0 <= b < |buses| ensures RouteIn(buses[b].route) {
        assert old(RouteIn(buses[b].route));
      }
      forall s: StopId | s < |stops|
        ensures BusesAt(s) == NamesThrough(s)
      {
        if s == |stops| - 1 {
          assert s !in busesInStops;
          forall b | 0 <= b < |buses| ensures s !in buses[b].route {
            assert old(RouteIn(buses[b].route));
          }
          assert NamesThrough(s) == {};
        } else {
          assert old(BusesAt(s)) == old(NamesThrough(s));
        }
      }
    }

    /** The stop ids a list of known stop names resolves to. */
    function Resolve(names: seq<string>): (route: seq<StopId>)
      reads this`stopnameToStop
      requires forall k | 0 <= k < |names| :: names[k] in stopnameToStop
      ensures |route| == |names|
    {
      if names == [] then [] else Resolve(names[..|names| - 1]) + [stopnameToStop[names[|names| - 1]]]
    }

    lemma {:induction false} ResolveAt(names: seq<string>, k: nat)
      requires forall k | 0 <= k < |names| :: names[k] in stopnameToStop
      requires k < |names|
      ensures Resolve(names)[k] == stopnameToStop[names[k]]
      decreases |names|
    {
      if k < |names| - 1 {
        ResolveAt(names[..|names| - 1], k);
      }
    }

    lemma NamesThroughExtended(oldBuses: seq<Bus>, bus: Bus, s: StopId)
      requires buses == oldBuses + [bus]
      ensures NamesThrough(s) ==
              (set b | 0 <= b < |oldBuses| && s in oldBuses[b].route :: oldBuses[b].name)
              + (if s in bus.route then {bus.name} else {})
    {
      var left := set b | 0 <= b < |oldBuses| && s in oldBuses[b].route :: oldBuses[b].name;
      var right := if s in bus.route then {bus.name} else {};
      forall x | x in NamesThrough(s) ensures x in left + right {
        var b :| 0 <= b < |buses| && s in buses[b].route && buses[b].name == x;
        if b < |oldBuses| { assert buses[b] == oldBuses[b]; }
      }
      forall x | x in left + right ensures x in NamesThrough(s) {
        if x in left {
          var b :| 0 <= b < |oldBuses| && s in oldBuses[b].route && oldBuses[b].name == x;
          assert buses[b] == oldBuses[b];
        } else {
          assert buses[|oldBuses|] == bus;
        }
      }
    }

    method AddBus(name: string, data: seq<string>, isRoundtrip: bool)
      requires Valid()
      requires forall k | 0 <= k < |data| :: data[k] in stopnameToStop
      modifies this`buses, this`busnameToBus, this`busesInStops
      ensures Valid()
      ensures buses == old(buses) + [Bus(name, Resolve(data), isRoundtrip)]
      ensures busnameToBus == if name in old(busnameToBus) then old(busnameToBus)
                              else old(busnameToBus)[name := |old(buses)|]
      ensures forall s: StopId | s < |stops| ::
                BusesAt(s) == old(BusesAt(s)) + (if s in Resolve(data) then {name} else {})
    {
      var route := ResolveRoute(data);
      ghost var oldBuses := buses;
      buses := buses + [Bus(name, route, isRoundtrip)];
      if name !in busnameToBus {
        busnameToBus := busnameToBus[name := |buses| - 1];
      }
      IndexRoute(name, route);
      AppendedBusKeepsValid(Bus(name, route, isRoundtrip));
    }

    /** Appending a bus, registering its name and indexing its stops keeps the invariant. */
    twostate lemma AppendedBusKeepsValid(bus: Bus)
      requires old(Valid())
      requires RouteIn(bus.route)
      requires stops == old(stops) && stopnameToStop == old(stopnameToStop)
      requires distances == old(distances)
      requires buses == old(buses) + [bus]
      requires busnameToBus == if bus.name in old(busnameToBus) then old(busnameToBus)
                               else old(busnameToBus)[bus.name := |old(buses)|]
      requires forall s | s in busesInStops :: s < |stops|
      requires forall s: StopId :: BusesAt(s) == old(BusesAt(s)) + (if s in bus.route then {bus.name} else {})
      ensures Valid()
    {
      forall s: StopId | s < |stops|
        ensures BusesAt(s) == NamesThrough(s)
      {
        assert old(BusesAt(s)) == old(NamesThrough(s));
        NamesThroughExtended(old(buses), bus, s);
      }
      forall n | n in busnameToBus ensures FirstBusNamed(n, busnameToBus[n]) {
        if n in old(busnameToBus) {
          assert old(FirstBusNamed(n, busnameToBus[n]));
        }
      }
      forall b | 0 <= b < |buses| ensures RouteIn(buses[b].route) && buses[b].name in busnameToBus {
        if b < |old(buses)| {
          assert old(RouteIn(buses[b].route)) && old(buses[b].name in busnameToBus);
        }
      }
    }

    /** The loop of AddBus that looks every stop name up with FindStop. */
    method ResolveRoute(data: seq<string>) returns (route: seq<StopId>)
      requires Valid()
      requires forall k | 0 <= k < |data| :: data[k] in stopnameToStop
      ensures route == Resolve(data)
      ensures forall i | 0 <= i < |route| :: route[i] < |stops|
    {
      route := [];
      var k := 0;
      while k < |data|
        invariant 0 <= k <= |data|
        invariant route == Resolve(data[..k])
      {
        assert data[..k + 1][..k] == data[..k];
        route := route + [FindStop(data[k]).value];
        k := k + 1;
      }
      assert data[..k] == data;
      forall i | 0 <= i < |route| ensures route[i] < |stops| {
        ResolveAt(data, i);
      }
    }

    /** The loop of AddBus that records `name` in the index of every stop of `route`. */
    method IndexRoute(name: string, route: seq<StopId>)
      requires forall s | s in busesInStops :: s < |stops|
      requires forall j | 0 <= j < |route| :: route[j] < |stops|
      modifies this`busesInStops
      ensures forall s | s in busesInStops :: s < |stops|
      ensures forall s: StopId :: BusesAt(s) == old(BusesAt(s)) + (if s in route then {name} else {})
    {
      var i := 0;
      while i < |route|
        invariant 0 <= i <= |route|
        invariant forall s | s in busesInStops :: s < |stops|
        invariant forall s: StopId ::
                    BusesAt(s) == old(BusesAt(s)) + (if s in route[..i] then {name} else {})
      {
        var stop := route[i];
        busesInStops := busesInStops[stop := BusesAt(stop) + {name}];
        assert route[..i + 1] == route[..i] + [stop];
        i := i + 1;
      }
      assert route[..i] == route;
    }

    /** The directed road distance, falling back to the geodesic distance. */
    function GetDistance(from: StopId, to: StopId): (d: int)
      reads this`stops, this`distances
      requires from < |stops| && to < |stops|
      ensures (from, to) in distances ==> d == distances[(from, to)]
      ensures (from, to) !in distances ==> d == geoDistance(stops[from].coordinates, stops[to].coordinates)
    {
      if (from, to) in distances then distances[(from, to)]
      else geoDistance(stops[from].coordinates, stops[to].coordinates)
    }

    method SetDistance(from: StopId, to: StopId, distance: int)
      requires Valid()
      requires from < |stops| && to < |stops|
      modifies this`distances
      ensures Valid()
      ensures GetDistance(from, to) == distance
      ensures (to, from) in distances
      ensures (to, from) != (from, to) ==>
                distances[(to, from)] ==
                  if (to, from) in old(distances) && old(distances)[(to, from)] != 0
                  then old(distances)[(to, from)] else distance
      ensures forall p | p != (from, to) && p != (to, from) ::
                (p in distances <==> p in old(distances)) &&
                (p in distances ==> distances[p] == old(distances)[p])
    {
      distances := distances[(from, to) := distance];
      // operator[] on a missing reverse entry inserts a zero, which is then overwritten
      if (to, from) !in distances || distances[(to, from)] == 0 {
        distances := distances[(to, from) := distance];
      }
    }

    /**
     * A snapshot of the distance table as a function value: GetDistance on
     * the stops of the catalogue, 0 elsewhere.
     */
    function Legs(): (dist: Distance)
      reads this`stops, this`distances
      ensures forall a: StopId, b: StopId | a < |stops| && b < |stops| :: dist(a, b) == GetDistance(a, b)
    {
      var table, arena, geo := distances, stops, geoDistance;
      (a: StopId, b: StopId) =>
        if (a, b) in table then table[(a, b)]
        else if a < |arena| && b < |arena| then geo(arena[a].coordinates, arena[b].coordinates)
        else 0
    }

    method GetBusInfo(name: string) returns (info: BusInfo)
      requires Valid()
      ensures FindBus(name).None? ==> info == BusInfo(0, 0, 0)
      ensures FindBus(name).Some? ==>
                var route := buses[FindBus(name).value].route;
                info == BusInfo(RouteDistance(Legs(), route), |route|, |Elements(route)|)
    {
      var bus := FindBus(name);
      if bus.None? {
        return BusInfo(0, 0, 0);
      }
      var route := buses[bus.value].route;
      assert RouteIn(route);
      var routeDistance := 0;
      var uniqueStop: set<StopId> := {};
      var k := 0;
      while k < |route|
        invariant 0 <= k <= |route|
        invariant uniqueStop == Elements(route[..k])
        invariant routeDistance == if k == 0 then 0 else SegmentDistance(Legs(), route, 0, k - 1)
      {
        if k > 0 {
          routeDistance := routeDistance + GetDistance(route[k - 1], route[k]);
        }
        assert route[..k + 1] == route[..k] + [route[k]];
        uniqueStop := uniqueStop + {route[k]};
        k := k + 1;
      }
      assert route[..k] == route;
      info := BusInfo(routeDistance, |route|, |uniqueStop|);
    }

    /** The bus registered under `name` (the first bus added with that name). */
    function BusNamed(name: string): (bus: Bus)
      reads this
      requires Valid() && name in busnameToBus
      ensures bus.name == name && RouteIn(bus.route)
      ensures FindBus(name) == Some(busnameToBus[name]) && bus == buses[FindBus(name).value]
    {
      buses[busnameToBus[name]]
    }

    /** The registered buses by name (the first bus added under each name). */
    function GetBuses(): (r: map<string, Bus>)
      reads this
      requires Valid()
      ensures r.Keys == busnameToBus.Keys
      ensures forall k | 0 <= k < |buses| :: buses[k].name in r
      ensures forall n | n in r :: r[n].name == n && r[n] in buses && RouteIn(r[n].route)
    {
      map n | n in busnameToBus :: BusNamed(n)
    }

    /** The names of the buses through a stop; empty for an unknown or unserved stop. */
    function GetStopInfo(name: string): (r: set<string>)
      reads this
      requires Valid()
      ensures FindStop(name).None? ==> r == {}
      ensures FindStop(name).Some? ==>
                forall b :: b in r <==>
                  exists k | 0 <= k < |buses| :: buses[k].name == b && FindStop(name).value in buses[k].route
    {
      var stop := FindStop(name);
      if stop.None? then {}
      else
        assert BusesAt(stop.value) == NamesThrough(stop.value);
        BusesAt(stop.value)
    }
  }
}

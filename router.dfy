/**
 * The route graph builder and the itinerary translator.
 *
 * Every stop served by some bus gets a wait vertex 2k and a board vertex 2k+1.
 * A wait edge 2k -> 2k+1 costs the boarding wait time; a travel edge goes from
 * the board vertex of one stop to the wait vertex of another stop of the same bus.
 * The shortest-path router itself is an oracle (`buildRoute`) handed to FindRoute.
 */
module Router {
  import opened Wrappers
  import opened Catalogue

  datatype RouteSettings = RouteSettings(busWaitTime: int, busVelocity: real)

  datatype Edge = Edge(from: nat, to: nat, weight: real, name: string, spanCount: int)

  /** One step of an itinerary; ErrorMessage is the single item of an unreachable target. */
  datatype RouteItem =
    | Wait(stopName: string, time: real)
    | Ride(busName: string, time: real, spanCount: int)
    | ErrorMessage

  /** The `std::out_of_range` thrown by the vertex lookups. */
  datatype RouterError = OutOfRange

  /** What the edges depend on: the settings, the stop numbering and the distance table. */
  datatype Layout = Layout(settings: RouteSettings, vertexes: map<StopId, nat>, dist: Distance)

  /** Minutes to ride `distance` metres at `busVelocity` km/h. */
  function CalculateTime(settings: RouteSettings, distance: real): real
    requires settings.busVelocity > 0.0
  {
    distance / settings.busVelocity / 1000.0 * 60.0
  }

  /** How many leading stops of a stored route are enumerated pairwise. */
  function PrefixSize(bus: Bus): (size: nat)
    ensures size <= |bus.route|
    ensures bus.isRoundtrip ==> size == |bus.route|
    ensures !bus.isRoundtrip ==> size == (|bus.route| + 1) / 2
  {
    if bus.isRoundtrip then |bus.route|
    else if |bus.route| % 2 == 0 then |bus.route| / 2
    else |bus.route| / 2 + 1
  }

  /** The stops served by the buses of `buses`. */
  function StopsOf(buses: map<string, Bus>): set<StopId>
  {
    set n, k | n in buses && 0 <= k < |buses[n].route| :: buses[n].route[k]
  }

  /** The wait vertex of a stop (0 for a stop without one). */
  function Vertex(l: Layout, s: StopId): nat
  {
    if s in l.vertexes then l.vertexes[s] else 0
  }

  function WaitEdge(settings: RouteSettings, k: nat): Edge
  {
    Edge(2 * k, 2 * k + 1, settings.busWaitTime as real, "", 0)
  }

  /** The wait edges of the first `n` enumerated stops. */
  function WaitEdges(settings: RouteSettings, n: nat): seq<Edge>
  {
    if n == 0 then [] else WaitEdges(settings, n - 1) + [WaitEdge(settings, n - 1)]
  }

  /** Riding `bus` from position i to position j > i. */
  function ForwardEdge(l: Layout, bus: Bus, i: nat, j: nat): Edge
    requires l.settings.busVelocity > 0.0 && i < j < |bus.route|
  {
    Edge(Vertex(l, bus.route[i]) + 1, Vertex(l, bus.route[j]),
         CalculateTime(l.settings, SegmentDistance(l.dist, bus.route, i, j) as real), bus.name, j - i)
  }

  /** Riding `bus` backwards from position j to position i < j. */
  function BackwardEdge(l: Layout, bus: Bus, i: nat, j: nat): Edge
    requires l.settings.busVelocity > 0.0 && i < j < |bus.route|
  {
    Edge(Vertex(l, bus.route[j]) + 1, Vertex(l, bus.route[i]),
         CalculateTime(l.settings, ReverseSegmentDistance(l.dist, bus.route, i, j) as real), bus.name, j - i)
  }

  /** The loop edge of a roundtrip bus at position i: ride on to the end of the route. */
  function LoopEdge(l: Layout, bus: Bus, i: nat): Edge
    requires l.settings.busVelocity > 0.0 && i < PrefixSize(bus)
  {
    Edge(Vertex(l, bus.route[i]) + 1, Vertex(l, bus.route[i]),
         CalculateTime(l.settings, SegmentDistance(l.dist, bus.route, i, PrefixSize(bus) - 1) as real),
         bus.name, PrefixSize(bus))
  }

  /** The edges added for the pair (i, j). */
  function PairEdges(l: Layout, bus: Bus, i: nat, j: nat): seq<Edge>
    requires l.settings.busVelocity > 0.0 && i < j < |bus.route|
  {
    [ForwardEdge(l, bus, i, j)] + (if bus.isRoundtrip then [] else [BackwardEdge(l, bus, i, j)])
  }

  /** The edges added by the inner loop for the pairs (i, j), i < j < end. */
  function InnerEdges(l: Layout, bus: Bus, i: nat, end: nat): seq<Edge>
    requires l.settings.busVelocity > 0.0 && i < end <= |bus.route|
    decreases end
  {
    if end <= i + 1 then [] else InnerEdges(l, bus, i, end - 1) + PairEdges(l, bus, i, end - 1)
  }

  /** The edges added by iteration i of the outer loop. */
  function RowEdges(l: Layout, bus: Bus, i: nat): seq<Edge>
    requires l.settings.busVelocity > 0.0 && i < PrefixSize(bus)
  {
    InnerEdges(l, bus, i, PrefixSize(bus)) + (if bus.isRoundtrip then [LoopEdge(l, bus, i)] else [])
  }

  /** The edges added by the first n iterations of the outer loop. */
  function RowsEdges(l: Layout, bus: Bus, n: nat): seq<Edge>
    requires l.settings.busVelocity > 0.0 && n <= PrefixSize(bus)
  {
    if n == 0 then [] else RowsEdges(l, bus, n - 1) + RowEdges(l, bus, n - 1)
  }

  /** The travel edges of one bus. */
  function BusEdges(l: Layout, bus: Bus): seq<Edge>
    requires l.settings.busVelocity > 0.0
  {
    RowsEdges(l, bus, PrefixSize(bus))
  }

  /** The travel edges of the buses `order` names, in that order. */
  function BusesEdges(l: Layout, buses: map<string, Bus>, order: seq<string>): seq<Edge>
    requires l.settings.busVelocity > 0.0 && forall k | 0 <= k < |order| :: order[k] in buses
  {
    if order == [] then []
    else BusesEdges(l, buses, order[..|order| - 1]) + BusEdges(l, buses[order[|order| - 1]])
  }

  lemma BusesEdgesAppend(l: Layout, buses: map<string, Bus>, order: seq<string>, name: string)
    requires l.settings.busVelocity > 0.0 && name in buses
    requires forall k | 0 <= k < |order| :: order[k] in buses
    ensures BusesEdges(l, buses, order + [name]) == BusesEdges(l, buses, order) + BusEdges(l, buses[name])
  {
    assert (order + [name])[..|order|] == order;
  }

  /** `order` lists every name of `names` exactly once. */
  ghost predicate Enumerates(order: seq<string>, names: set<string>)
  {
    && (forall k | 0 <= k < |order| :: order[k] in names)
    && (forall n | n in names :: n in order)
    && (forall a, b | 0 <= a < b < |order| :: order[a] != order[b])
  }

  lemma StopsOfAdd(buses: map<string, Bus>, names: set<string>, name: string)
    requires name in names && names <= buses.Keys
    ensures StopsOf(buses - (names - {name})) == StopsOf(buses - names) + Elements(buses[name].route)
  {
    var after, before := buses - (names - {name}), buses - names;
    var route := buses[name].route;
    assert name in after && after[name] == buses[name];
    forall s | s in Elements(route) ensures s in StopsOf(after) {
      var k :| 0 <= k < |route| && route[k] == s;
      assert after[name].route[k] == s;
    }
    forall s | s in StopsOf(before) ensures s in StopsOf(after) {
      var n, k :| n in before && 0 <= k < |before[n].route| && before[n].route[k] == s;
      assert n in after && after[n].route[k] == s;
    }
    forall s | s in StopsOf(after) ensures s in StopsOf(before) + Elements(route) {
      var n, k :| n in after && 0 <= k < |after[n].route| && after[n].route[k] == s;
      if n == name {
        assert s in Elements(route);
      } else {
        assert n in before && before[n].route[k] == s;
      }
    }
  }

  lemma CalculateTimeMonotone(settings: RouteSettings, a: real, b: real)
    requires settings.busVelocity > 0.0 && 0.0 <= a <= b
    ensures 0.0 <= CalculateTime(settings, a) <= CalculateTime(settings, b)
  {
    var v := settings.busVelocity;
    assert a / v <= b / v by {
      assert b / v - a / v == (b - a) / v;
    }
  }

  /** Riding i -> j -> k costs exactly riding i -> j plus riding j -> k. */
  lemma CalculateTimeAdditive(settings: RouteSettings, a: real, b: real)
    requires settings.busVelocity > 0.0
    ensures CalculateTime(settings, a + b) == CalculateTime(settings, a) + CalculateTime(settings, b)
  {
    var v := settings.busVelocity;
    assert (a + b) / v == a / v + b / v;
  }

  lemma {:induction false} WaitEdgesAt(settings: RouteSettings, n: nat)
    ensures |WaitEdges(settings, n)| == n
    ensures forall k | 0 <= k < n :: WaitEdges(settings, n)[k] == WaitEdge(settings, k)
  {
    if n > 0 {
      WaitEdgesAt(settings, n - 1);
    }
  }

  /** A travel edge of bus `name`: board (odd) vertex to wait (even) vertex, inside `bound`. */
  predicate TravelShaped(e: Edge, name: string, bound: nat)
  {
    e.from % 2 == 1 && e.to % 2 == 0 && e.from < bound && e.to < bound
    && e.name == name && e.spanCount >= 1
  }

  /** Every stop of the route has an even wait vertex whose board vertex is below `bound`. */
  predicate EvenStops(l: Layout, bus: Bus, bound: nat)
  {
    forall k | 0 <= k < |bus.route| ::
      bus.route[k] in l.vertexes && l.vertexes[bus.route[k]] % 2 == 0 && l.vertexes[bus.route[k]] + 1 < bound
  }

  lemma {:induction false} InnerEdgesShaped(l: Layout, bus: Bus, i: nat, end: nat, bound: nat)
    requires l.settings.busVelocity > 0.0 && i < end <= |bus.route| && EvenStops(l, bus, bound)
    ensures forall e | e in InnerEdges(l, bus, i, end) :: TravelShaped(e, bus.name, bound)
    decreases end
  {
    if end > i + 1 {
      InnerEdgesShaped(l, bus, i, end - 1, bound);
    }
  }

  lemma {:induction false} RowsEdgesShaped(l: Layout, bus: Bus, n: nat, bound: nat)
    requires l.settings.busVelocity > 0.0 && n <= PrefixSize(bus) && EvenStops(l, bus, bound)
    ensures forall e | e in RowsEdges(l, bus, n) :: TravelShaped(e, bus.name, bound)
  {
    if n > 0 {
      RowsEdgesShaped(l, bus, n - 1, bound);
      InnerEdgesShaped(l, bus, n - 1, PrefixSize(bus), bound);
    }
  }

  lemma {:induction false} BusesEdgesShaped(l: Layout, buses: map<string, Bus>, order: seq<string>, bound: nat)
    requires l.settings.busVelocity > 0.0 && forall k | 0 <= k < |order| :: order[k] in buses
    requires forall n | n in buses :: buses[n].name == n && EvenStops(l, buses[n], bound)
    ensures forall e | e in BusesEdges(l, buses, order) :: e.name in buses && TravelShaped(e, e.name, bound)
  {
    if order != [] {
      var last := buses[order[|order| - 1]];
      BusesEdgesShaped(l, buses, order[..|order| - 1], bound);
      RowsEdgesShaped(l, last, PrefixSize(last), bound);
    }
  }

  /** The pair (i, j) contributes its forward edge, and its backward edge on a non-roundtrip bus. */
  lemma {:induction false} InnerEdgesHave(l: Layout, bus: Bus, i: nat, j: nat, end: nat)
    requires l.settings.busVelocity > 0.0 && i < j < end <= |bus.route|
    ensures ForwardEdge(l, bus, i, j) in InnerEdges(l, bus, i, end)
    ensures !bus.isRoundtrip ==> BackwardEdge(l, bus, i, j) in InnerEdges(l, bus, i, end)
    decreases end
  {
    if j < end - 1 {
      InnerEdgesHave(l, bus, i, j, end - 1);
    }
  }

  lemma {:induction false} RowsEdgesHave(l: Layout, bus: Bus, i: nat, n: nat)
    requires l.settings.busVelocity > 0.0 && i < n <= PrefixSize(bus)
    ensures forall e | e in RowEdges(l, bus, i) :: e in RowsEdges(l, bus, n)
  {
    if i < n - 1 {
      RowsEdgesHave(l, bus, i, n - 1);
    }
  }

  /**
   * The travel edges of a bus: for every i < j < PrefixSize(bus) a forward edge,
   * a backward edge unless the bus is a roundtrip, and a loop edge at every i of a roundtrip bus.
   */
  lemma BusEdgesHave(l: Layout, bus: Bus, i: nat, j: nat)
    requires l.settings.busVelocity > 0.0 && i < j < PrefixSize(bus)
    ensures ForwardEdge(l, bus, i, j) in BusEdges(l, bus)
    ensures !bus.isRoundtrip ==> BackwardEdge(l, bus, i, j) in BusEdges(l, bus)
  {
    InnerEdgesHave(l, bus, i, j, PrefixSize(bus));
    RowsEdgesHave(l, bus, i, PrefixSize(bus));
  }

  lemma LoopEdgeHave(l: Layout, bus: Bus, i: nat)
    requires l.settings.busVelocity > 0.0 && bus.isRoundtrip && i < PrefixSize(bus)
    ensures LoopEdge(l, bus, i) in BusEdges(l, bus)
  {
    RowsEdgesHave(l, bus, i, PrefixSize(bus));
  }

  /**
   * On a route stored as a palindrome (a non-roundtrip bus), riding back from j to i costs
   * what riding forward over the mirrored positions costs.
   */
  lemma BackwardMirrorsForward(l: Layout, bus: Bus, i: nat, j: nat)
    requires l.settings.busVelocity > 0.0 && i < j < |bus.route| && Palindrome(bus.route)
    ensures var m := |bus.route| - 1;
              BackwardEdge(l, bus, i, j).weight
              == CalculateTime(l.settings, SegmentDistance(l.dist, bus.route, m - j, m - i) as real)
  {
    ReverseSegmentIsMirroredSegment(l.dist, bus.route, i, j);
  }

  lemma {:induction false} BusesEdgesHave(l: Layout, buses: map<string, Bus>, order: seq<string>, k: nat)
    requires l.settings.busVelocity > 0.0 && forall k | 0 <= k < |order| :: order[k] in buses
    requires k < |order|
    ensures forall e | e in BusEdges(l, buses[order[k]]) :: e in BusesEdges(l, buses, order)
  {
    if k < |order| - 1 {
      BusesEdgesHave(l, buses, order[..|order| - 1], k);
    }
  }

  lemma HalfOfBoardVertex(v: nat)
    requires v % 2 == 0
    ensures (v + 1) / 2 == v / 2 && (v + 1) % 2 == 1
  {
  }

  /** `more` after `items`, or the first error. */
  function Prepend(items: seq<RouteItem>, more: Result<seq<RouteItem>, RouterError>): Result<seq<RouteItem>, RouterError>
  {
    if more.Err? then more else Ok(items + more.value)
  }

  lemma PrependAppend(a: seq<RouteItem>, b: seq<RouteItem>, more: Result<seq<RouteItem>, RouterError>)
    ensures Prepend(a, Prepend(b, more)) == Prepend(a + b, more)
  {
    if more.Ok? {
      assert a + (b + more.value) == (a + b) + more.value;
    }
  }

  function ItemTime(item: RouteItem): real
  {
    match item
    case Wait(_, t) => t
    case Ride(_, t, _) => t
    case ErrorMessage => 0.0
  }

  /** The sum of the item times: the `total_time` of a route answer. */
  function TotalTime(items: seq<RouteItem>): real
  {
    if items == [] then 0.0 else TotalTime(items[..|items| - 1]) + ItemTime(items[|items| - 1])
  }

  lemma {:induction false} TotalTimeAppend(a: seq<RouteItem>, b: seq<RouteItem>)
    ensures TotalTime(a + b) == TotalTime(a) + TotalTime(b)
    decreases |b|
  {
    if b != [] {
      assert (a + b)[..|a + b| - 1] == a + b[..|b| - 1];
      assert (a + b)[|a + b| - 1] == b[|b| - 1];
      TotalTimeAppend(a, b[..|b| - 1]);
    } else {
      assert a + b == a;
    }
  }

  class TransportRouter {
    const catalogue: TransportCatalogue
    const settings: RouteSettings
    /** The edges of graph_, in insertion order (an edge id is an index). */
    var edges: seq<Edge>
    /** The vertex count graph_ was created with. */
    var vertexCount: nat
    var uniqueStops: set<StopId>
    var stopsVertexes: map<StopId, nat>
    var stopsByVertexes: seq<StopId>
    /** The order in which AddBuses enumerated the buses of the catalogue. */
    ghost var busOrder: seq<string>

    /** The vertex numbering: the k-th enumerated stop owns vertices 2k and 2k+1. */
    ghost predicate Numbered()
      reads this`stopsVertexes, this`stopsByVertexes, this`uniqueStops
    {
      && |stopsByVertexes| == |uniqueStops|
      && (forall k | 0 <= k < |stopsByVertexes| ::
            stopsByVertexes[k] in stopsVertexes && stopsVertexes[stopsByVertexes[k]] == 2 * k)
      && (forall s | s in stopsVertexes :: s in uniqueStops)
      && (forall s | s in uniqueStops ::
            s in stopsVertexes && stopsVertexes[s] / 2 < |stopsByVertexes|
            && stopsVertexes[s] % 2 == 0 && stopsByVertexes[stopsVertexes[s] / 2] == s)
    }

    /** Every route of `buses` is a route of the catalogue. */
    ghost predicate Routed(buses: map<string, Bus>)
      reads catalogue`stops
    {
      forall n | n in buses :: catalogue.RouteIn(buses[n].route)
    }

    /** Every stop of every bus in `buses` has a vertex. */
    ghost predicate Covered(buses: map<string, Bus>)
      reads this`stopsVertexes
    {
      forall n, k | n in buses && 0 <= k < |buses[n].route| :: buses[n].route[k] in stopsVertexes
    }

    ghost function CurrentLayout(): Layout
      reads this`stopsVertexes, catalogue`stops, catalogue`distances
    {
      Layout(settings, stopsVertexes, catalogue.Legs())
    }

    /** What FindRoute relies on: a valid catalogue and a stop arena index behind every numbered stop. */
    ghost predicate Ready()
      reads this`stopsByVertexes, catalogue
    {
      && catalogue.Valid()
      && forall k | 0 <= k < |stopsByVertexes| :: stopsByVertexes[k] < |catalogue.stops|
    }

    /**
     * The shape of the graph (a consequence of Valid, see EdgeShapes): edge i < |stopsByVertexes|
     * is the wait edge of the i-th stop, every later edge is a travel edge of a catalogue bus.
     */
    ghost predicate Shaped()
      reads this, catalogue
    {
      && Ready()
      && vertexCount == 2 * |stopsByVertexes|
      && |stopsByVertexes| <= |edges|
      && (forall i | 0 <= i < |stopsByVertexes| :: edges[i] == WaitEdge(settings, i))
      && (forall i | |stopsByVertexes| <= i < |edges| ::
            edges[i].name in catalogue.busnameToBus && TravelShaped(edges[i], edges[i].name, vertexCount))
    }

    ghost predicate Valid()
      reads this, catalogue
    {
      && catalogue.Valid()
      && settings.busVelocity > 0.0
      && Routed(catalogue.GetBuses())
      && uniqueStops == StopsOf(catalogue.GetBuses())
      && Numbered()
      && Ready()
      && vertexCount == 2 * |uniqueStops|
      && Enumerates(busOrder, catalogue.GetBuses().Keys)
      && edges == WaitEdges(settings, |stopsByVertexes|)
                  + BusesEdges(CurrentLayout(), catalogue.GetBuses(), busOrder)
    }

    constructor (catalogue: TransportCatalogue, settings: RouteSettings)
      requires catalogue.Valid() && settings.busVelocity > 0.0
      ensures this.catalogue == catalogue && this.settings == settings
      ensures Valid()
    {
      this.catalogue := catalogue;
      this.settings := settings;
      edges, vertexCount := [], 0;
      uniqueStops, stopsVertexes, stopsByVertexes := {}, map[], [];
      busOrder := [];
      new;
      BuildRouter();
    }

    /** The wait vertex of a stop pointer; `None` is the null pointer. */
    function GetVertexByStop(stop: Option<StopId>): (r: Result<nat, RouterError>)
      reads this`stopsVertexes
      ensures r.Ok? <==> stop.Some? && stop.value in stopsVertexes
      ensures r.Ok? ==> r.value == stopsVertexes[stop.value]
    {
      if stop.Some? && stop.value in stopsVertexes then Ok(stopsVertexes[stop.value])
      else Err(OutOfRange)
    }

    function GetStopByVertex(id: nat): (r: Result<StopId, RouterError>)
      reads this`stopsByVertexes
      ensures r.Ok? <==> id / 2 < |stopsByVertexes|
      ensures r.Ok? ==> r.value == stopsByVertexes[id / 2]
    {
      if id / 2 < |stopsByVertexes| then Ok(stopsByVertexes[id / 2]) else Err(OutOfRange)
    }

    /** Adds the leg from -> to to the running `distance`; returns the time for the new total. */
    method CalcDistanceAndGetTime(from: StopId, to: StopId, distance: real)
      returns (time: real, newDistance: real)
      requires settings.busVelocity > 0.0
      requires from < |catalogue.stops| && to < |catalogue.stops|
      ensures newDistance == distance + catalogue.GetDistance(from, to) as real
      ensures time == CalculateTime(settings, newDistance)
    {
      newDistance := distance + catalogue.GetDistance(from, to) as real;
      time := CalculateTime(settings, newDistance);
    }

    method BuildRouter()
      requires catalogue.Valid() && settings.busVelocity > 0.0
      requires stopsVertexes == map[] && stopsByVertexes == [] && edges == []
      modifies this`uniqueStops, this`vertexCount, this`stopsVertexes, this`stopsByVertexes,
               this`edges, this`busOrder
      ensures Valid()
    {
      var buses := catalogue.GetBuses();
      assert Routed(buses);
      CollectStops(buses);
      vertexCount := |uniqueStops| * 2;
      NumberStops();
      NumberedCovers(buses);
      AddBuses(buses);
      BuiltIsValid(buses);
    }

    twostate lemma BuiltIsValid(buses: map<string, Bus>)
      requires old(catalogue.Valid()) && unchanged(catalogue)
      requires settings.busVelocity > 0.0
      requires buses == old(catalogue.GetBuses())
      requires uniqueStops == StopsOf(buses)
      requires Numbered()
      requires vertexCount == 2 * |uniqueStops|
      requires Enumerates(busOrder, buses.Keys)
      requires edges == WaitEdges(settings, |stopsByVertexes|) + BusesEdges(CurrentLayout(), buses, busOrder)
      ensures Valid()
    {
      forall k | 0 <= k < |stopsByVertexes| ensures stopsByVertexes[k] < |catalogue.stops| {
        var s := stopsByVertexes[k];
        assert s in StopsOf(buses);
        var n, j :| n in buses && 0 <= j < |buses[n].route| && buses[n].route[j] == s;
        assert catalogue.RouteIn(buses[n].route);
      }
    }

    /** The first loop of BuildRouter: every stop of every bus in `buses`. */
    method CollectStops(buses: map<string, Bus>)
      modifies this`uniqueStops
      ensures uniqueStops == StopsOf(buses)
    {
      uniqueStops := {};
      var names := buses.Keys;
      while names != {}
        invariant names <= buses.Keys
        invariant uniqueStops == StopsOf(buses - names)
        decreases |names|
      {
        var name :| name in names;
        var route := buses[name].route;
        var k := 0;
        while k < |route|
          invariant 0 <= k <= |route|
          invariant uniqueStops == StopsOf(buses - names) + Elements(route[..k])
        {
          assert route[..k + 1] == route[..k] + [route[k]];
          uniqueStops := uniqueStops + {route[k]};
          k := k + 1;
        }
        assert route[..k] == route;
        StopsOfAdd(buses, names, name);
        names := names - {name};
      }
      assert buses - names == buses;
    }

    /** The second loop of BuildRouter: number the stops and add one wait edge per stop. */
    method NumberStops()
      requires stopsVertexes == map[] && stopsByVertexes == [] && edges == []
      modifies this`stopsVertexes, this`stopsByVertexes, this`edges
      ensures Numbered()
      ensures edges == WaitEdges(settings, |stopsByVertexes|)
    {
      var vertex := 0;
      var remaining := uniqueStops;
      while remaining != {}
        invariant remaining <= uniqueStops
        invariant vertex == 2 * |stopsByVertexes|
        invariant |stopsByVertexes| + |remaining| == |uniqueStops|
        invariant forall k | 0 <= k < |stopsByVertexes| ::
                    stopsByVertexes[k] in stopsVertexes && stopsVertexes[stopsByVertexes[k]] == 2 * k
        invariant forall s | s in stopsVertexes :: s in uniqueStops && s !in remaining
        invariant forall s | s in uniqueStops && s !in remaining ::
                    s in stopsVertexes && stopsVertexes[s] / 2 < |stopsByVertexes|
                    && stopsVertexes[s] % 2 == 0 && stopsByVertexes[stopsVertexes[s] / 2] == s
        invariant edges == WaitEdges(settings, |stopsByVertexes|)
        decreases |remaining|
      {
        var stop :| stop in remaining;
        stopsVertexes := stopsVertexes[stop := vertex];
        stopsByVertexes := stopsByVertexes + [stop];
        vertex := vertex + 2;
        var idStop := GetVertexByStop(Some(stop)).value;
        edges := edges + [Edge(idStop, idStop + 1, settings.busWaitTime as real, "", 0)];
        remaining := remaining - {stop};
      }
    }

    lemma NumberedCovers(buses: map<string, Bus>)
      requires Numbered() && uniqueStops == StopsOf(buses)
      ensures Covered(buses)
    {
      forall n, k | n in buses && 0 <= k < |buses[n].route| ensures buses[n].route[k] in stopsVertexes {
        assert buses[n].route[k] in StopsOf(buses);
      }
    }

    method AddBuses(buses: map<string, Bus>)
      requires settings.busVelocity > 0.0 && Routed(buses) && Covered(buses)
      modifies this`edges, this`busOrder
      ensures Enumerates(busOrder, buses.Keys)
      ensures edges == old(edges) + BusesEdges(CurrentLayout(), buses, busOrder)
    {
      ghost var l := CurrentLayout();
      ghost var order := [];
      var all := [];
      var names := buses.Keys;
      while names != {}
        invariant names <= buses.Keys
        invariant forall k | 0 <= k < |order| :: order[k] in buses && order[k] !in names
        invariant forall n | n in buses && n !in names :: n in order
        invariant forall a, b | 0 <= a < b < |order| :: order[a] != order[b]
        invariant all == BusesEdges(l, buses, order)
        invariant edges == old(edges)
        decreases |names|
      {
        var name :| name in names;
        var added := AddBusEdges(buses[name]);
        all := all + added;
        BusesEdgesAppend(l, buses, order, name);
        order := order + [name];
        names := names - {name};
      }
      edges := edges + all;
      busOrder := order;
    }

    /** The body of AddBuses for one bus: the outer loop over the start position i. */
    method AddBusEdges(bus: Bus) returns (added: seq<Edge>)
      requires settings.busVelocity > 0.0 && catalogue.RouteIn(bus.route)
      requires forall k | 0 <= k < |bus.route| :: bus.route[k] in stopsVertexes
      ensures added == BusEdges(CurrentLayout(), bus)
    {
      ghost var l := CurrentLayout();
      var stops := bus.route;
      var size := if bus.isRoundtrip then |stops|
                  else if |stops| % 2 == 0 then |stops| / 2
                  else |stops| / 2 + 1;
      assert size == PrefixSize(bus);
      added := [];
      var i := 0;
      while i < size
        invariant 0 <= i <= size
        invariant added == RowsEdges(l, bus, i)
      {
        var stopFromId := GetVertexByStop(Some(stops[i])).value;
        var distanceFromTo, row := AddPairEdges(bus, i, size, stopFromId);
        if bus.isRoundtrip {
          var totalTime := CalculateTime(settings, distanceFromTo);
          assert Edge(stopFromId + 1, stopFromId, totalTime, bus.name, size) == LoopEdge(l, bus, i);
          row := row + [Edge(stopFromId + 1, stopFromId, totalTime, bus.name, size)];
        }
        assert row == RowEdges(l, bus, i);
        assert RowsEdges(l, bus, i + 1) == RowsEdges(l, bus, i) + RowEdges(l, bus, i);
        added := added + row;
        i := i + 1;
      }
    }

    /** The inner loop of AddBuses: the edges from position i to every later j < size. */
    method AddPairEdges(bus: Bus, i: nat, size: nat, stopFromId: nat)
      returns (distanceFromTo: real, added: seq<Edge>)
      requires settings.busVelocity > 0.0 && catalogue.RouteIn(bus.route)
      requires forall k | 0 <= k < |bus.route| :: bus.route[k] in stopsVertexes
      requires size == PrefixSize(bus) && i < size && stopFromId == stopsVertexes[bus.route[i]]
      ensures added == InnerEdges(CurrentLayout(), bus, i, size)
      ensures distanceFromTo == SegmentDistance(catalogue.Legs(), bus.route, i, size - 1) as real
    {
      ghost var l := CurrentLayout();
      var stops := bus.route;
      distanceFromTo := 0.0;
      added := [];
      var distanceToFrom := 0.0;
      var j := i + 1;
      while j < size
        invariant i + 1 <= j <= size
        invariant distanceFromTo == SegmentDistance(l.dist, stops, i, j - 1) as real
        invariant !bus.isRoundtrip ==>
                    distanceToFrom == ReverseSegmentDistance(l.dist, stops, i, j - 1) as real
        invariant added == InnerEdges(l, bus, i, j)
      {
        var stopToId := GetVertexByStop(Some(stops[j])).value;
        var timeFromTo;
        timeFromTo, distanceFromTo := CalcDistanceAndGetTime(stops[j - 1], stops[j], distanceFromTo);
        var pair := [Edge(stopFromId + 1, stopToId, timeFromTo, bus.name, j - i)];
        if !bus.isRoundtrip {
          var timeToFrom;
          timeToFrom, distanceToFrom := CalcDistanceAndGetTime(stops[j], stops[j - 1], distanceToFrom);
          // the span is |i - j|
          pair := pair + [Edge(stopToId + 1, stopFromId, timeToFrom, bus.name, j - i)];
        }
        assert pair == PairEdges(l, bus, i, j);
        added := added + pair;
        j := j + 1;
      }
    }

    /** Both vertices of a served stop lead back to it. */
    lemma VertexRoundTrip(s: StopId)
      requires Numbered() && vertexCount == 2 * |uniqueStops| && s in uniqueStops
      ensures GetVertexByStop(Some(s)).Ok?
      ensures var v := GetVertexByStop(Some(s)).value;
                v % 2 == 0 && v + 1 < vertexCount
                && GetStopByVertex(v) == Ok(s) && GetStopByVertex(v + 1) == Ok(s)
    {
      HalfOfBoardVertex(stopsVertexes[s]);
    }

    /** The graph of a valid router has the shape Shaped describes. */
    lemma EdgeShapes()
      requires Valid()
      ensures Shaped()
    {
      var l, buses := CurrentLayout(), catalogue.GetBuses();
      forall n | n in buses ensures buses[n].name == n && EvenStops(l, buses[n], vertexCount) {
        forall k | 0 <= k < |buses[n].route|
          ensures var s := buses[n].route[k];
                    s in stopsVertexes && stopsVertexes[s] % 2 == 0 && stopsVertexes[s] + 1 < vertexCount
        {
          assert buses[n].route[k] in StopsOf(buses);
        }
      }
      WaitEdgesAt(settings, |stopsByVertexes|);
      BusesEdgesShaped(l, buses, busOrder, vertexCount);
    }

    /** The wait vertex v of a stop has exactly one outgoing edge: the wait edge v -> v+1, at index v/2. */
    lemma OneWaitEdgePerStop(s: StopId)
      requires Valid() && s in uniqueStops
      ensures var v := stopsVertexes[s];
                v / 2 < |edges| && edges[v / 2] == Edge(v, v + 1, settings.busWaitTime as real, "", 0)
                && forall i | 0 <= i < |edges| && edges[i].from == v :: i == v / 2
    {
      EdgeShapes();
      HalfOfBoardVertex(stopsVertexes[s]);
      WaitEdgeOfVertex(stopsVertexes[s] / 2);
    }

    /** In a shaped graph the k-th edge is the only edge leaving vertex 2k. */
    lemma WaitEdgeOfVertex(k: nat)
      requires Shaped() && k < |stopsByVertexes|
      ensures edges[k] == Edge(2 * k, 2 * k + 1, settings.busWaitTime as real, "", 0)
      ensures forall i | 0 <= i < |edges| && edges[i].from == 2 * k :: i == k
    {
    }

    /** Every pair i < j of the enumerated prefix of a catalogue bus is an edge of the graph. */
    lemma TravelEdgesPresent(name: string, i: nat, j: nat)
      requires Valid() && name in catalogue.busnameToBus
      requires i < j < PrefixSize(catalogue.BusNamed(name))
      ensures ForwardEdge(CurrentLayout(), catalogue.BusNamed(name), i, j) in edges
      ensures !catalogue.BusNamed(name).isRoundtrip ==>
                BackwardEdge(CurrentLayout(), catalogue.BusNamed(name), i, j) in edges
    {
      var buses := catalogue.GetBuses();
      BusEdgesHave(CurrentLayout(), buses[name], i, j);
      BusEdgesPresent(name);
    }

    /** A roundtrip bus has a loop edge at every stop position i, spanning the whole route. */
    lemma LoopEdgesPresent(name: string, i: nat)
      requires Valid() && name in catalogue.busnameToBus
      requires catalogue.BusNamed(name).isRoundtrip && i < PrefixSize(catalogue.BusNamed(name))
      ensures LoopEdge(CurrentLayout(), catalogue.BusNamed(name), i) in edges
    {
      var buses := catalogue.GetBuses();
      LoopEdgeHave(CurrentLayout(), buses[name], i);
      BusEdgesPresent(name);
    }

    lemma BusEdgesPresent(name: string)
      requires Valid() && name in catalogue.busnameToBus
      ensures forall e | e in BusEdges(CurrentLayout(), catalogue.BusNamed(name)) :: e in edges
    {
      var buses := catalogue.GetBuses();
      assert name in busOrder;
      var k :| 0 <= k < |busOrder| && busOrder[k] == name;
      BusesEdgesHave(CurrentLayout(), buses, busOrder, k);
    }

    /** `ids` are edge ids forming a path from vertex a to vertex b. */
    ghost predicate IsPath(a: nat, b: nat, ids: seq<nat>)
      reads this`edges
    {
      && (forall k | 0 <= k < |ids| :: ids[k] < |edges|)
      && (ids == [] ==> a == b)
      && (ids != [] ==> edges[ids[0]].from == a && edges[ids[|ids| - 1]].to == b)
      && (forall k | 0 <= k < |ids| - 1 :: edges[ids[k]].to == edges[ids[k + 1]].from)
    }

    /** What is assumed of graph::Router::BuildRoute: any route it returns is a path of the graph. */
    ghost predicate PathsOracle(buildRoute: (nat, nat) -> Option<seq<nat>>)
      reads this`edges
    {
      forall a: nat, b: nat :: buildRoute(a, b).Some? ==> IsPath(a, b, buildRoute(a, b).value)
    }

    /** The Wait item of an edge leaving a wait vertex. */
    ghost function WaitItems(e: Edge): seq<RouteItem>
      reads this`stopsByVertexes, catalogue
      requires Ready()
    {
      if e.from % 2 == 0 && e.from / 2 < |stopsByVertexes|
      then [Wait(catalogue.stops[stopsByVertexes[e.from / 2]].name, e.weight)]
      else []
    }

    /** The Bus item of an edge named after a catalogue bus. */
    ghost function RideItems(e: Edge): seq<RouteItem>
      reads catalogue
      requires catalogue.Valid()
    {
      var bus := catalogue.FindBus(e.name);
      if bus.Some? then [Ride(catalogue.buses[bus.value].name, e.weight, e.spanCount)] else []
    }

    /** The items of one edge; a wait vertex without a stop is the out_of_range of GetStopByVertex. */
    ghost function EdgeItems(e: Edge): Result<seq<RouteItem>, RouterError>
      reads this`stopsByVertexes, catalogue
      requires Ready()
    {
      if e.from % 2 == 0 && e.from / 2 >= |stopsByVertexes| then Err(OutOfRange)
      else Ok(WaitItems(e) + RideItems(e))
    }

    /** The itinerary of a list of edge ids. */
    ghost function Translate(ids: seq<nat>): Result<seq<RouteItem>, RouterError>
      reads this, catalogue
      requires Ready() && forall k | 0 <= k < |ids| :: ids[k] < |edges|
    {
      if ids == [] then Ok([])
      else
        var first := EdgeItems(edges[ids[0]]);
        if first.Err? then first else Prepend(first.value, Translate(ids[1..]))
    }

    /** The sum of the weights of the edges `ids`. */
    ghost function PathWeight(ids: seq<nat>): real
      reads this`edges
      requires forall k | 0 <= k < |ids| :: ids[k] < |edges|
    {
      if ids == [] then 0.0 else edges[ids[0]].weight + PathWeight(ids[1..])
    }

    /**
     * The answer to a route query: out_of_range for a stop without a vertex, the single
     * error item when the router finds no route, else the itinerary of the route found.
     */
    ghost function Itinerary(stopFrom: string, stopTo: string, buildRoute: (nat, nat) -> Option<seq<nat>>)
      : Result<seq<RouteItem>, RouterError>
      reads this, catalogue
      requires Ready() && PathsOracle(buildRoute)
    {
      var from, to := GetVertexByStop(catalogue.FindStop(stopFrom)), GetVertexByStop(catalogue.FindStop(stopTo));
      if from.Err? || to.Err? then Err(OutOfRange)
      else if buildRoute(from.value, to.value).None? then Ok([ErrorMessage])
      else Translate(buildRoute(from.value, to.value).value)
    }

    /** The body of FindRoute's loop: the items of one edge pushed after `items`. */
    method PushEdgeItems(items: seq<RouteItem>, edge: Edge) returns (r: Result<seq<RouteItem>, RouterError>)
      requires Ready()
      ensures r == Prepend(items, EdgeItems(edge))
    {
      var pushed := items;
      if edge.from % 2 == 0 {
        var stop := GetStopByVertex(edge.from);
        if stop.Err? {
          return Err(stop.error);
        }
        pushed := pushed + [Wait(catalogue.stops[stop.value].name, edge.weight)];
      }
      var bus := catalogue.FindBus(edge.name);
      if bus.Some? {
        pushed := pushed + [Ride(catalogue.buses[bus.value].name, edge.weight, edge.spanCount)];
      }
      assert pushed == items + (WaitItems(edge) + RideItems(edge));
      return Ok(pushed);
    }

    method FindRoute(stopFrom: string, stopTo: string, buildRoute: (nat, nat) -> Option<seq<nat>>)
      returns (r: Result<seq<RouteItem>, RouterError>)
      requires Ready() && PathsOracle(buildRoute)
      ensures r == Itinerary(stopFrom, stopTo, buildRoute)
    {
      var stopFromId := GetVertexByStop(catalogue.FindStop(stopFrom));
      if stopFromId.Err? {
        return Err(stopFromId.error);
      }
      var stopToId := GetVertexByStop(catalogue.FindStop(stopTo));
      if stopToId.Err? {
        return Err(stopToId.error);
      }
      var resultRoute := buildRoute(stopFromId.value, stopToId.value);
      if resultRoute.None? {
        return Ok([ErrorMessage]);
      }
      assert IsPath(stopFromId.value, stopToId.value, resultRoute.value);
      r := TranslatePath(resultRoute.value);
    }

    /** The loop of FindRoute: the items of the edges of a route, in order. */
    method TranslatePath(path: seq<nat>) returns (r: Result<seq<RouteItem>, RouterError>)
      requires Ready() && forall k | 0 <= k < |path| :: path[k] < |edges|
      ensures r == Translate(path)
    {
      var items := [];
      var i := 0;
      TranslateSuffix(path, [], 0);
      while i < |path|
        invariant 0 <= i <= |path|
        invariant Translate(path) == Prepend(items, Translate(path[i..]))
      {
        var edge := edges[path[i]];
        TranslateStep(path, items, i);
        var next := PushEdgeItems(items, edge);
        if next.Err? {
          return next;
        }
        items := next.value;
        i := i + 1;
      }
      TranslateSuffix(path, items, i);
      return Ok(items);
    }

    lemma TranslateSuffix(path: seq<nat>, items: seq<RouteItem>, i: nat)
      requires Ready() && forall k | 0 <= k < |path| :: path[k] < |edges|
      requires i == 0 || i == |path|
      ensures i == 0 && items == [] ==> Translate(path) == Prepend(items, Translate(path[i..]))
      ensures i == |path| ==> Prepend(items, Translate(path[i..])) == Ok(items)
    {
      assert path[0..] == path;
      assert items + [] == items;
      assert Translate(path).Ok? ==> [] + Translate(path).value == Translate(path).value;
    }

    /** One step of TranslatePath: the items of edge `path[i]` move from the route into `items`. */
    lemma TranslateStep(path: seq<nat>, items: seq<RouteItem>, i: nat)
      requires Ready() && forall k | 0 <= k < |path| :: path[k] < |edges|
      requires i < |path|
      ensures var first := EdgeItems(edges[path[i]]);
                Prepend(items, Translate(path[i..]))
                == if first.Err? then first else Prepend(items + first.value, Translate(path[i + 1..]))
    {
      assert path[i..][1..] == path[i + 1..];
      var first := EdgeItems(edges[path[i]]);
      if first.Ok? {
        PrependAppend(items, first.value, Translate(path[i + 1..]));
      }
    }

    /**
     * With no bus named "", every edge of the graph yields exactly one item: a Wait item for
     * a wait edge and a Bus item, named after the edge's bus, for a travel edge.
     */
    lemma EdgeItem(i: nat)
      requires Shaped() && "" !in catalogue.busnameToBus && i < |edges|
      ensures EdgeItems(edges[i]).Ok? && |EdgeItems(edges[i]).value| == 1
      ensures var e, item := edges[i], EdgeItems(edges[i]).value[0];
                && ItemTime(item) == e.weight
                && e.to % 2 != e.from % 2
                && (e.from % 2 == 0 ==> item == Wait(catalogue.stops[stopsByVertexes[e.from / 2]].name, e.weight))
                && (e.from % 2 == 1 ==> item == Ride(e.name, e.weight, e.spanCount))
    {
      var e := edges[i];
      if i < |stopsByVertexes| {
        assert e.from / 2 == i;
        assert forall b | 0 <= b < |catalogue.buses| :: catalogue.buses[b].name != "";
      } else {
        assert TravelShaped(e, e.name, vertexCount);
        assert catalogue.FirstBusNamed(e.name, catalogue.busnameToBus[e.name]);
      }
    }

    lemma OneItem(i: nat)
      requires Shaped() && "" !in catalogue.busnameToBus && i < |edges|
      ensures EdgeItems(edges[i]).Ok? && |EdgeItems(edges[i]).value| == 1
    {
      EdgeItem(i);
    }

    /**
     * The itinerary of any list of graph edges has one item per edge, and its total time
     * is the weight of the route the router found.
     */
    lemma {:induction false} RouteTime(ids: seq<nat>)
      requires Shaped() && "" !in catalogue.busnameToBus
      requires forall k | 0 <= k < |ids| :: ids[k] < |edges|
      ensures Translate(ids).Ok? && |Translate(ids).value| == |ids|
      ensures forall k | 0 <= k < |ids| :: Translate(ids).value[k] == EdgeItems(edges[ids[k]]).value[0]
      ensures TotalTime(Translate(ids).value) == PathWeight(ids)
    {
      if ids != [] {
        EdgeItem(ids[0]);
        RouteTime(ids[1..]);
        var item, rest := EdgeItems(edges[ids[0]]).value, Translate(ids[1..]).value;
        assert Translate(ids) == Ok(item + rest);
        forall k | 0 <= k < |ids|
          ensures EdgeItems(edges[ids[k]]).Ok? && |EdgeItems(edges[ids[k]]).value| == 1
          ensures (item + rest)[k] == EdgeItems(edges[ids[k]]).value[0]
        {
          OneItem(ids[k]);
          if k > 0 {
            assert ids[1..][k - 1] == ids[k];
            assert (item + rest)[k] == rest[k - 1];
          }
        }
        assert TotalTime(item) == edges[ids[0]].weight by {
          assert item[..0] == [];
        }
        TotalTimeAppend(item, rest);
      }
    }

    /**
     * Along a path the items alternate between Wait and Bus, the first one a Wait item
     * exactly when the path starts at a wait vertex.
     */
    lemma RouteAlternates(a: nat, b: nat, ids: seq<nat>)
      requires Shaped() && "" !in catalogue.busnameToBus
      requires IsPath(a, b, ids)
      ensures Translate(ids).Ok? && |Translate(ids).value| == |ids|
      ensures forall k | 0 <= k < |ids| :: Translate(ids).value[k].Wait? != Translate(ids).value[k].Ride?
      ensures |ids| > 0 ==> (Translate(ids).value[0].Wait? <==> a % 2 == 0)
      ensures forall k | 0 <= k < |ids| - 1 :: Translate(ids).value[k].Wait? <==> Translate(ids).value[k + 1].Ride?
    {
      RouteTime(ids);
      var items := Translate(ids).value;
      forall k | 0 <= k < |ids|
        ensures items[k].Wait? != items[k].Ride?
        ensures items[k].Wait? <==> edges[ids[k]].from % 2 == 0
        ensures edges[ids[k]].to % 2 != edges[ids[k]].from % 2
      {
        EdgeItem(ids[k]);
      }
    }
  }
}

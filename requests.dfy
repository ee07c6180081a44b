/**
 * The request layer of the JSON reader: how a bus request's stop list becomes the
 * stored route, and how the Bus, Stop and Route queries decide their answers.
 * The JSON documents themselves are abstracted: a bus request arrives as its
 * fields, an answer is an `Answer` value standing for the dictionary the
 * reader assembles with json::Builder.
 */
module Requests {
  import opened Wrappers
  import opened Catalogue
  import opened Router

  /** The first and the last stop of a bus request, as listed (before expansion). */
  datatype RouteEnds = RouteEnds(beginRoute: string, endRoute: string)

  /** The answer dictionaries, less the "request_id" key every answer starts with. */
  datatype Answer =
    | NotFound
    | BusStats(stopCount: nat, uniqueStopCount: nat, routeLength: int)
    | StopBuses(buses: seq<string>)
    | RouteAnswer(items: seq<RouteItem>, totalTime: real)

  function Reversed(s: seq<string>): (r: seq<string>)
    ensures |r| == |s|
    ensures forall k | 0 <= k < |s| :: r[k] == s[|s| - 1 - k]
  {
    if s == [] then [] else [s[|s| - 1]] + Reversed(s[..|s| - 1])
  }

  /** Reversing a list with one more stop in front gives that stop at the back. */
  lemma ReversedCons(a: string, s: seq<string>)
    ensures Reversed([a] + s) == Reversed(s) + [a]
  {
    var l, r := Reversed([a] + s), Reversed(s) + [a];
    forall k | 0 <= k < |l| ensures l[k] == r[k] {
      if k < |s| {
        assert l[k] == ([a] + s)[|s| - k];
      }
    }
  }

  /**
   * The stored route of a bus request: a roundtrip whose list is already closed is
   * kept, any other roundtrip is closed with its first stop, and a non-roundtrip
   * list is followed by its own reversal without the turning stop.
   */
  function ExpandRoute(stops: seq<string>, isRoundtrip: bool): (r: seq<string>)
    requires stops != []
    ensures forall k | 0 <= k < |r| :: r[k] in stops
  {
    if stops[0] == stops[|stops| - 1] && isRoundtrip then stops
    else if !isRoundtrip then stops + Reversed(stops[..|stops| - 1])
    else stops + [stops[0]]
  }

  predicate PalindromeNames(route: seq<string>)
  {
    forall k | 0 <= k < |route| :: route[k] == route[|route| - 1 - k]
  }

  /** A roundtrip route is stored closed: unchanged if it already is, else with its first stop appended. */
  lemma RoundtripExpansion(stops: seq<string>)
    requires stops != []
    ensures var r := ExpandRoute(stops, true);
              && r[0] == stops[0] && r[|r| - 1] == stops[0]
              && (stops[0] == stops[|stops| - 1] ==> r == stops)
              && (stops[0] != stops[|stops| - 1] ==> r == stops + [stops[0]])
  {
  }

  /**
   * A non-roundtrip list of n stops is stored as a palindrome of 2n - 1 stops that
   * starts with the list and starts and ends at its first stop.
   */
  lemma MirrorExpansion(stops: seq<string>)
    requires stops != []
    ensures var r := ExpandRoute(stops, false);
              && |r| == 2 * |stops| - 1
              && r[..|stops|] == stops
              && r[0] == stops[0] && r[|r| - 1] == stops[0]
              && PalindromeNames(r)
  {
    var n, r := |stops|, ExpandRoute(stops, false);
    assert r == stops + Reversed(stops[..n - 1]);
    forall k | 0 <= k < |r| ensures r[k] == r[|r| - 1 - k] {
      if k < n - 1 {
        assert r[|r| - 1 - k] == stops[k];
      } else if k >= n {
        assert r[k] == stops[2 * n - 2 - k];
      }
    }
  }

  /**
   * The router enumerates pairs over the first PrefixSize stops of a stored route;
   * for a non-roundtrip that is exactly the stops of the request.
   */
  lemma PrefixIsRequestedStops(name: string, stops: seq<string>, route: seq<StopId>)
    requires stops != [] && |route| == |ExpandRoute(stops, false)|
    ensures PrefixSize(Bus(name, route, false)) == |stops|
  {
    MirrorExpansion(stops);
  }

  /** Resolving a palindrome of names gives a palindrome of stops (what BackwardMirrorsForward needs). */
  lemma ResolvedPalindrome(catalogue: TransportCatalogue, names: seq<string>)
    requires forall k | 0 <= k < |names| :: names[k] in catalogue.stopnameToStop
    requires PalindromeNames(names)
    ensures Palindrome(catalogue.Resolve(names))
  {
    var route := catalogue.Resolve(names);
    forall k | 0 <= k < |route| ensures route[k] == route[|route| - 1 - k] {
      catalogue.ResolveAt(names, k);
      catalogue.ResolveAt(names, |route| - 1 - k);
    }
  }

  /** The order of std::string's operator<: lexicographic by character. */
  predicate Below(a: string, b: string)
  {
    if a == [] then b != []
    else b != [] && (a[0] < b[0] || (a[0] == b[0] && Below(a[1..], b[1..])))
  }

  lemma {:induction false} BelowIrreflexive(a: string)
    ensures !Below(a, a)
  {
    if a != [] {
      BelowIrreflexive(a[1..]);
    }
  }

  lemma {:induction false} BelowTransitive(a: string, b: string, c: string)
    requires Below(a, b) && Below(b, c)
    ensures Below(a, c)
  {
    if a != [] && a[0] == b[0] && b[0] == c[0] {
      BelowTransitive(a[1..], b[1..], c[1..]);
    }
  }

  lemma {:induction false} BelowTotal(a: string, b: string)
    requires a != b
    ensures Below(a, b) || Below(b, a)
  {
    if a != [] && b != [] && a[0] == b[0] {
      assert a == [a[0]] + a[1..] && b == [b[0]] + b[1..];
      BelowTotal(a[1..], b[1..]);
    }
  }

  /** Ascending with no name twice. */
  predicate StrictlySorted(s: seq<string>)
  {
    forall i, j | 0 <= i < j < |s| :: Below(s[i], s[j])
  }

  /** `x` put into its place in an ascending list. */
  function Insert(s: seq<string>, x: string): (r: seq<string>)
    requires StrictlySorted(s) && x !in s
    ensures StrictlySorted(r) && |r| == |s| + 1
    ensures forall y :: y in r <==> y in s || y == x
  {
    if s == [] then [x]
    else if Below(x, s[0]) then
      assert StrictlySorted([x] + s) by {
        forall i, j | 0 <= i < j < |s| + 1 ensures Below(([x] + s)[i], ([x] + s)[j]) {
          if i == 0 && j > 1 {
            BelowTransitive(x, s[0], s[j - 1]);
          }
        }
      }
      [x] + s
    else
      var rest := Insert(s[1..], x);
      BelowTotal(x, s[0]);
      assert StrictlySorted([s[0]] + rest) by {
        forall j | 0 <= j < |rest| ensures Below(s[0], rest[j]) {
          assert rest[j] in s[1..] || rest[j] == x;
        }
      }
      [s[0]] + rest
  }

  /** The names of a set, ascending: the vector copy of the set and std::sort of GetResultOfStop. */
  method SortNames(names: set<string>) returns (sorted: seq<string>)
    ensures StrictlySorted(sorted) && |sorted| == |names|
    ensures forall y :: y in sorted <==> y in names
  {
    sorted := [];
    var remaining := names;
    while remaining != {}
      invariant remaining <= names
      invariant StrictlySorted(sorted) && |sorted| + |remaining| == |names|
      invariant forall y :: y in sorted <==> y in names && y !in remaining
      decreases |remaining|
    {
      var name :| name in remaining;
      sorted := Insert(sorted, name);
      remaining := remaining - {name};
    }
  }

  /** The parts of JsonReader the bus requests and the stat requests work on. */
  class JsonReader {
    const catalogue: TransportCatalogue
    /** routes_: the stored route of every bus request and its listed ends. */
    var routes: map<string, (seq<string>, RouteEnds)>
    /** result_: the answers, in request order. */
    var result: seq<Answer>

    constructor (catalogue: TransportCatalogue)
      ensures this.catalogue == catalogue && routes == map[] && result == []
    {
      this.catalogue := catalogue;
      routes, result := map[], [];
    }

    /** The mirroring loop of ParseBusInCatalogue: every stop but the last, last to first. */
    static method MirrorRoute(stops: seq<string>) returns (roundRoute: seq<string>)
      requires stops != []
      ensures roundRoute == ExpandRoute(stops, false)
    {
      var n := |stops|;
      roundRoute := stops;
      var k := n - 1;
      assert stops[k..n - 1] == [];
      while k > 0
        invariant 0 <= k <= n - 1
        invariant roundRoute == stops + Reversed(stops[k..n - 1])
      {
        ReversedCons(stops[k - 1], stops[k..n - 1]);
        assert stops[k - 1..n - 1] == [stops[k - 1]] + stops[k..n - 1];
        roundRoute := roundRoute + [stops[k - 1]];
        k := k - 1;
      }
      assert stops[0..n - 1] == stops[..n - 1];
    }

    /**
     * A bus request with its fields read: an empty name (the request is not a bus)
     * is skipped; otherwise the expanded route is added to the catalogue and recorded
     * with the listed ends.
     */
    method ParseBus(name: string, stops: seq<string>, isRoundtrip: bool)
      requires catalogue.Valid()
      requires name != "" ==> stops != [] && forall k | 0 <= k < |stops| :: stops[k] in catalogue.stopnameToStop
      modifies catalogue`buses, catalogue`busnameToBus, catalogue`busesInStops, this`routes
      ensures catalogue.Valid()
      ensures name == "" ==> unchanged(catalogue) && routes == old(routes)
      ensures name != "" ==>
                && catalogue.buses == old(catalogue.buses) + [Bus(name, catalogue.Resolve(ExpandRoute(stops, isRoundtrip)), isRoundtrip)]
                && routes == old(routes)[name := (ExpandRoute(stops, isRoundtrip), RouteEnds(stops[0], stops[|stops| - 1]))]
    {
      if name == "" {
        return;
      }
      var info := RouteEnds(stops[0], stops[|stops| - 1]);
      var roundRoute := RoundRoute(stops, isRoundtrip);
      forall k | 0 <= k < |roundRoute| ensures roundRoute[k] in catalogue.stopnameToStop {
        assert roundRoute[k] in stops;
      }
      catalogue.AddBus(name, roundRoute, isRoundtrip);
      routes := routes[name := (roundRoute, info)];
    }

    /** The route ParseBusInCatalogue stores for a bus request. */
    static method RoundRoute(stops: seq<string>, isRoundtrip: bool) returns (roundRoute: seq<string>)
      requires stops != []
      ensures roundRoute == ExpandRoute(stops, isRoundtrip)
    {
      if stops[0] == stops[|stops| - 1] && isRoundtrip {
        return stops;
      }
      roundRoute := stops;
      if !isRoundtrip {
        roundRoute := MirrorRoute(stops);
      } else {
        roundRoute := roundRoute + [stops[0]];
      }
    }

    /** The `route_time` accumulation of GetResultOfRoute. */
    static method SumTimes(items: seq<RouteItem>) returns (routeTime: real)
      ensures routeTime == TotalTime(items)
    {
      routeTime := 0.0;
      var i := 0;
      while i < |items|
        invariant 0 <= i <= |items|
        invariant routeTime == TotalTime(items[..i])
      {
        assert items[..i + 1][..i] == items[..i];
        routeTime := routeTime + ItemTime(items[i]);
        i := i + 1;
      }
      assert items[..i] == items;
    }

    /** A Bus query: "not found" exactly when the bus is unknown or has no stops. */
    method GetResultOfBus(name: string)
      requires catalogue.Valid()
      modifies this`result
      ensures |result| == |old(result)| + 1 && result[..|old(result)|] == old(result)
      ensures var bus, answer := catalogue.FindBus(name), result[|result| - 1];
                if bus.None? || |catalogue.buses[bus.value].route| == 0 then answer == NotFound
                else
                  var route := catalogue.buses[bus.value].route;
                  answer == BusStats(|route|, |Elements(route)|, RouteDistance(catalogue.Legs(), route))
    {
      var info := catalogue.GetBusInfo(name);
      if info.stops == 0 {
        result := result + [NotFound];
        assert result[..|old(result)|] == old(result);
        return;
      }
      result := result + [BusStats(info.stops, info.uniqueStop, info.routeDistance)];
      assert result[..|old(result)|] == old(result);
    }

    /** A Stop query: "not found" for an unknown stop, else its buses ascending, each once. */
    method GetResultOfStop(name: string)
      requires catalogue.Valid()
      modifies this`result
      ensures |result| == |old(result)| + 1 && result[..|old(result)|] == old(result)
      ensures var answer := result[|result| - 1];
                if catalogue.FindStop(name).None? then answer == NotFound
                else
                  && answer.StopBuses?
                  && StrictlySorted(answer.buses)
                  && forall b :: b in answer.buses <==> b in catalogue.GetStopInfo(name)
    {
      var ptr := catalogue.FindStop(name);
      if ptr.None? {
        result := result + [NotFound];
        assert result[..|old(result)|] == old(result);
        return;
      }
      var names := catalogue.GetStopInfo(name);
      var sorted := SortNames(names);
      result := result + [StopBuses(sorted)];
      assert result[..|old(result)|] == old(result);
    }

    /**
     * A Route query: "not found" when a stop has no buses or no route exists; else the
     * items and their summed time. An out_of_range from the router escapes as `thrown`.
     */
    method GetResultOfRoute(stopFrom: string, stopTo: string, router: TransportRouter,
                            buildRoute: (nat, nat) -> Option<seq<nat>>)
      returns (thrown: Option<RouterError>)
      requires catalogue.Valid() && router.catalogue == catalogue
      requires router.Ready() && router.PathsOracle(buildRoute)
      modifies this`result
      ensures var found := old(router.Itinerary(stopFrom, stopTo, buildRoute));
                if old(catalogue.GetStopInfo(stopFrom) == {} || catalogue.GetStopInfo(stopTo) == {}) then
                  thrown == None && result == old(result) + [NotFound]
                else if found.Err? then thrown == Some(found.error) && result == old(result)
                else if found.value == [ErrorMessage] then thrown == None && result == old(result) + [NotFound]
                else thrown == None && result == old(result) + [RouteAnswer(found.value, TotalTime(found.value))]
    {
      ghost var itinerary := router.Itinerary(stopFrom, stopTo, buildRoute);
      if |catalogue.GetStopInfo(stopFrom)| == 0 || |catalogue.GetStopInfo(stopTo)| == 0 {
        result := result + [NotFound];
        return None;
      }
      var found := router.FindRoute(stopFrom, stopTo, buildRoute);
      assert found == itinerary;
      if found.Err? {
        return Some(found.error);
      }
      var items := found.value;
      if |items| == 1 && items[0] == ErrorMessage {
        assert items == [ErrorMessage];
        result := result + [NotFound];
        return None;
      }
      var routeTime := SumTimes(items);
      result := result + [RouteAnswer(items, routeTime)];
      return None;
    }
  }
}

# Transport catalogue: a Dafny model

This project models the core of a transit catalogue service. The service works like this:

- It reads a JSON document with base requests: stops with their coordinates and road distances, and buses with their stop lists.
- It stores them in a catalogue.
- It builds a route graph over the stops.
- It answers stat requests: bus statistics, the buses through a stop, and the fastest itinerary between two stops.
- It writes the answers back as a JSON document, assembled with a step-by-step builder.

The modules follow the source files:

| module | file | models |
|---|---|---|
| `Wrappers` | `wrappers.dfy` | `Option` and `Result` |
| `Catalogue` | `catalogue.dfy` | `transport_catalogue.cpp` |
| `Router` | `router.dfy` | `transport_router.cpp` |
| `Requests` | `requests.dfy` | the route expansion and the answer logic of `json_reader.cpp` |
| `Json` | `json_node.dfy` | `json::Node`: kinds, checked accessors, equality |
| `JsonLoad` | `json_load.dfy` | the scalar loaders of `json.cpp` and the string escaping of the printer |
| `JsonBuilder` | `json_builder.dfy` | `json_builder.cpp` |

## Modelling choices

**Catalogue.** The catalogue is a class.
- Stops and buses live in `seq` arenas. A `const Stop*` or `const Bus*` is an index into them, and the null pointer is `None`.
- The name indexes, the distance table and the stop-to-buses index are `map` fields.
- The geodesic fallback distance is a function value fixed at construction.
- `Valid()` ties the indexes to the arenas: each name maps to the FIRST stop or bus added under it, and each stop's bus set is exactly the set of names of the buses passing through it.
- A second stop or bus with an existing name keeps the first entry, because `std::unordered_map::insert` does not overwrite. The model follows the code.

**Router.** The router is a class whose edges are a `seq<Edge>` in insertion order, so an edge id is an index.
- Which edges a valid router holds is described by heap-free functions of a `Layout`: the settings, the stop numbering and the distance table.
- The wait edges come first. After them come the travel edges of every bus, bus by bus, in the order the enumeration visited them.
- The order in which an `unordered_map` or `unordered_set` is enumerated is unspecified. The model lets the loops pick elements with `:|` and records the bus order it chose in a ghost field.
- `graph::Router::BuildRoute`, the shortest-path search, is not part of this model. `FindRoute` receives it as a function parameter, and the only assumption about it is that any route it returns is a path of the graph.

**Reader.**
- A bus request arrives as its already extracted fields.
- An answer is an `Answer` value standing for the dictionary the reader assembles.
- `GetResultOfRoute` receives the router and the shortest-path oracle as parameters.

**JSON loaders.**
- Each loader is a method over `(input: seq<char>, position)`. It is proved equal to a recursive or staged specification function: `StringAt`, `NumberAt`, `WordAt`, `ValueAt`, `NodeAt`.
- Literal names are read as a contiguous run of letters (`WordAt`), the reading RFC 8259 intends. The loop as written, which lets `input >> c` skip whitespace between letters, is `LoadBoolAndNullAsWritten`, proved equal to `SpacedWordAt`; see "## Findings".
- The properties are proved about those functions: round trips with the printer and with a spelled-out number, well-formedness of what is accepted, and rejection of malformed text.
- `input >> c` skipping whitespace is `SkipSpaces`.
- A double is held as its exact `real` value. `int` is the `Int32` newtype.

**Builder.** The builder is a class with the root node, the stack of open containers, the pending key and its flag.
- A pointer on the stack is the path from the root to the container it points at.
- Adding to the innermost container is `Put(root, path, updated container)`.
- `Valid()` says that the stack is the chain of prefixes of the innermost path, and that the innermost path leads to a node.
- A thrown `std::logic_error` is a returned `Some(LogicError)`. On that path the builder's state is unchanged.

## Model

| member | source | states |
|---|---|---|
| Catalogue.ElementsBounds | src/transport_catalogue.cpp:79-81 | the unique-stop count of a route is at most its stop count, and at least 1 for a non-empty route |
| Catalogue.SegmentDistanceAdditive | src/transport_catalogue.cpp:68-77 | the accumulated road distance over positions i..k splits at any j between them |
| Catalogue.ReverseSegmentIsMirroredSegment | src/transport_router.cpp:36-39 | on a palindromic route, riding positions j..i backwards covers the legs of the mirrored forward ride |
| Catalogue.TransportCatalogue.constructor | src/transport_catalogue.h:49-55 | an empty catalogue satisfies the invariant |
| Catalogue.TransportCatalogue.FindStop | src/transport_catalogue.cpp:36-43 | a stop is found exactly when some stored stop has the name, and it is the first stop added under that name |
| Catalogue.TransportCatalogue.FindBus | src/transport_catalogue.cpp:45-53 | a bus is found exactly when some stored bus has the name, and it is the first bus added under that name |
| Catalogue.TransportCatalogue.AddStop | src/transport_catalogue.cpp:12-18 | the stop is appended; its name is indexed only if new, so a duplicate name keeps finding the earlier stop; the invariant is kept and nothing else changes |
| Catalogue.TransportCatalogue.AddBus | src/transport_catalogue.cpp:20-34 | the bus is appended with its route resolved stop by stop; its name is indexed only if new; exactly the stops of its route gain its name in the stop index; the invariant is kept |
| Catalogue.TransportCatalogue.AppendedBusKeepsValid | src/transport_catalogue.cpp:27-33 | appending a bus, registering its name and indexing its stops keeps the catalogue invariant |
| Catalogue.TransportCatalogue.ResolveRoute | src/transport_catalogue.cpp:21-25 | the loop maps every stop name to the stop the name index holds, and every result is a stored stop |
| Catalogue.TransportCatalogue.IndexRoute | src/transport_catalogue.cpp:31-33 | after the loop, the stops of the route, and only they, have gained the bus name |
| Catalogue.TransportCatalogue.GetDistance | src/transport_catalogue.cpp:108-114 | the stored directed distance when the pair is present, else the geodesic distance of the two stops |
| Catalogue.TransportCatalogue.SetDistance | src/transport_catalogue.cpp:99-106 | the forward distance becomes the given one; the reverse entry is set too unless it already holds a non-zero distance; every other pair is unchanged |
| Catalogue.TransportCatalogue.GetBusInfo | src/transport_catalogue.cpp:55-84 | all zeros for an unknown bus; otherwise the stop count, the number of distinct stops and the sum of GetDistance over consecutive stops |
| Catalogue.TransportCatalogue.BusNamed | src/transport_catalogue.cpp:120-122 | the bus an indexed name maps to carries that name and stored stops |
| Catalogue.TransportCatalogue.GetBuses | src/transport_catalogue.cpp:120-122 | the keys are the indexed names, and every stored bus's name is among them; each key maps to a stored bus of that name whose stops are all in the catalogue |
| Catalogue.TransportCatalogue.GetStopInfo | src/transport_catalogue.cpp:86-97 | empty for an unknown stop; otherwise exactly the names of the stored buses whose route passes through the stop |
| Router.PrefixSize | src/transport_router.cpp:14-24 | a roundtrip bus enumerates its whole route; any other bus enumerates the first half of the route, rounded up |
| Router.CalculateTimeMonotone | src/transport_router.cpp:125-127 | the travel time is non-negative and grows with the distance |
| Router.CalculateTimeAdditive | src/transport_router.cpp:125-127 | the time for a sum of distances is the sum of the times |
| Router.WaitEdgesAt | src/transport_router.cpp:62-68 | the k-th wait edge goes from vertex 2k to 2k+1 with the bus wait time as its weight |
| Router.BusesEdgesShaped | src/transport_router.cpp:26-45 | every travel edge goes from a board (odd) vertex to a wait (even) vertex inside the graph, is named after its bus and spans at least one stop |
| Router.BusEdgesHave | src/transport_router.cpp:26-41 | for every i < j inside the enumerated prefix there is a forward edge, and a backward edge unless the bus is a roundtrip |
| Router.LoopEdgeHave | src/transport_router.cpp:42-45 | a roundtrip bus has a loop edge at every position, spanning the rest of its route |
| Router.BackwardMirrorsForward | src/transport_router.cpp:36-39 | on a palindromic route the backward edge j to i weighs what the mirrored forward ride weighs |
| Router.TotalTimeAppend | src/json_reader.cpp:213-214 | the summed time of two item lists one after the other is the sum of their summed times |
| Router.TransportRouter.constructor | src/transport_router.cpp:3-4 | constructing the router builds the whole graph and establishes the router invariant |
| Router.TransportRouter.GetVertexByStop | src/transport_router.cpp:105-113 | the vertex of a numbered stop; out_of_range for the null pointer or an unnumbered stop |
| Router.TransportRouter.GetStopByVertex | src/transport_router.cpp:115-123 | the stop numbered id/2, or out_of_range when there is none |
| Router.TransportRouter.CalcDistanceAndGetTime | src/transport_router.cpp:6-9 | the running distance grows by the leg's GetDistance, and the time is that of the new total |
| Router.TransportRouter.BuildRouter | src/transport_router.cpp:50-73 | the built graph has exactly the wait edges of the numbered stops, followed by the travel edges of every catalogue bus |
| Router.TransportRouter.BuiltIsValid | src/transport_router.cpp:50-73 | the state BuildRouter leaves behind satisfies the router invariant |
| Router.TransportRouter.CollectStops | src/transport_router.cpp:54-58 | the collected set is exactly the stops on the routes of the buses |
| Router.TransportRouter.NumberStops | src/transport_router.cpp:62-68 | the k-th enumerated stop gets vertex 2k, the numbering is a bijection onto the collected stops, and one wait edge is added per stop |
| Router.TransportRouter.AddBuses | src/transport_router.cpp:11-48 | every bus is visited exactly once, and its travel edges are appended in visiting order |
| Router.TransportRouter.AddBusEdges | src/transport_router.cpp:26-46 | the outer loop adds, for every start position of the prefix, its pair edges and, on a roundtrip, its loop edge |
| Router.TransportRouter.AddPairEdges | src/transport_router.cpp:28-40 | the inner loop adds the pair edges from position i, and the running distance ends as the road distance from i to the end of the prefix |
| Router.TransportRouter.VertexRoundTrip | src/transport_router.cpp:105-123 | a served stop's wait vertex is even and inside the graph, and both of its vertices lead back to the stop |
| Router.TransportRouter.EdgeShapes | src/transport_router.cpp:50-73 | in a built router the first edges are the wait edges and every later edge is a travel edge of a catalogue bus |
| Router.TransportRouter.OneWaitEdgePerStop | src/transport_router.cpp:62-68 | the wait vertex of a stop has exactly one outgoing edge, the wait edge to its board vertex |
| Router.TransportRouter.TravelEdgesPresent | src/transport_router.cpp:26-41 | the graph of a built router contains the forward and backward edges of every pair of every catalogue bus |
| Router.TransportRouter.LoopEdgesPresent | src/transport_router.cpp:42-45 | the graph of a built router contains the loop edges of every roundtrip bus |
| Router.TransportRouter.BusEdgesPresent | src/transport_router.cpp:11-48 | the graph of a built router contains every travel edge of every catalogue bus |
| Router.TransportRouter.FindRoute | src/transport_router.cpp:75-103 | out_of_range for a stop without a vertex; the single error item when there is no route; otherwise the translated items of the route |
| Router.TransportRouter.TranslatePath | src/transport_router.cpp:88-101 | the loop yields the items of the route's edges in order, or the first out_of_range |
| Router.TransportRouter.PushEdgeItems | src/transport_router.cpp:89-100 | the items of one edge: a Wait item when it leaves a wait vertex, then a Bus item when its name is a bus |
| Router.TransportRouter.TranslateStep | src/transport_router.cpp:88-101 | one loop step moves the items of the next edge from the rest of the route into the output |
| Router.TransportRouter.EdgeItem | src/transport_router.cpp:88-101 | with no bus named "", every graph edge yields exactly one item: a Wait for a wait edge, a Bus for a travel edge, carrying its weight |
| Router.TransportRouter.RouteTime | src/transport_router.cpp:88-101 | an itinerary has one item per edge, and its summed time is the weight of the route |
| Router.TransportRouter.RouteAlternates | src/transport_router.cpp:88-101 | along a path, the items alternate between Wait and Bus, starting with Wait exactly when the path starts at a wait vertex |
| Requests.ExpandRoute | src/json_reader.cpp:107-127 | the stored route uses only stops of the request |
| Requests.RoundtripExpansion | src/json_reader.cpp:107-111 | a roundtrip is stored closed at its first stop: as listed if already closed, else with the first stop appended |
| Requests.MirrorExpansion | src/json_reader.cpp:113-121 | a non-roundtrip list of n stops is stored as a palindrome of 2n-1 stops that begins with the list |
| Requests.PrefixIsRequestedStops | src/transport_router.cpp:16-24 | for a mirrored route, the router's enumerated prefix is exactly the stops of the request |
| Requests.ResolvedPalindrome | src/json_reader.cpp:113-120 | resolving a palindrome of stop names gives a palindrome of stops |
| Requests.BelowIrreflexive | src/json_reader.cpp:176 | std::string's operator< is irreflexive |
| Requests.BelowTransitive | src/json_reader.cpp:176 | std::string's operator< is transitive |
| Requests.BelowTotal | src/json_reader.cpp:176 | std::string's operator< orders any two different strings |
| Requests.Insert | src/json_reader.cpp:175-176 | inserting a new name into an ascending list keeps it ascending and adds exactly that name |
| Requests.SortNames | src/json_reader.cpp:175-176 | the copied and sorted names are strictly ascending and hold exactly the names of the set |
| Requests.JsonReader.constructor | src/json_reader.h:35-36 | the reader starts with no routes and no answers |
| Requests.JsonReader.MirrorRoute | src/json_reader.cpp:113-118 | the mirroring loop produces the list followed by its reversal without the last stop |
| Requests.JsonReader.RoundRoute | src/json_reader.cpp:107-127 | the route handed to AddBus is the expansion of the request |
| Requests.JsonReader.ParseBus | src/json_reader.cpp:101-128 | a request without a name changes nothing; otherwise the expanded route is added to the catalogue and recorded with its listed ends |
| Requests.JsonReader.SumTimes | src/json_reader.cpp:204-214 | the accumulated route time is the sum of the item times |
| Requests.JsonReader.GetResultOfBus | src/json_reader.cpp:145-162 | exactly one answer is appended: not found for an unknown bus or one without stops, else its stop count, distinct stops and road length |
| Requests.JsonReader.GetResultOfStop | src/json_reader.cpp:164-185 | exactly one answer is appended: not found for an unknown stop, else its buses, ascending and each once |
| Requests.JsonReader.GetResultOfRoute | src/json_reader.cpp:194-226 | not found when either stop has no bus or no route exists; the router's out_of_range escapes; otherwise the items with their summed time |
| Json.KindsPartition | src/json.cpp:312-342 | every node has exactly one kind, and IsDouble holds for ints and doubles alike |
| Json.AsArray | src/json.cpp:360-365 | the items exactly when the node is an array, else logic_error |
| Json.AsMap | src/json.cpp:367-372 | the entries exactly when the node is a dict, else logic_error |
| Json.AsInt | src/json.cpp:374-379 | the value exactly when the node is an int, else logic_error |
| Json.AsBool | src/json.cpp:381-386 | the value exactly when the node is a bool, else logic_error |
| Json.AsDouble | src/json.cpp:388-396 | a value exactly for ints and doubles, an int read as the same number; else logic_error |
| Json.AsString | src/json.cpp:398-403 | the text exactly when the node is a string, else logic_error |
| Json.NodeEqualsIsEquality | src/json.cpp:537-539 | comparing the held variants structurally is exactly equality of the trees |
| Json.DocumentEqualsIsEquality | src/json.cpp:545-547 | documents are equal exactly when their roots are |
| JsonLoad.SkipSpaces | src/json.cpp:174 | reading with >> lands on the first non-whitespace character, or at the end |
| JsonLoad.LoadString | src/json.cpp:89-147 | the loop computes the string specification: escapes translated, ending after the closing quote |
| JsonLoad.EscapedPrefix | src/json.cpp:451-475 | reading the escaped form of a string yields the string and continues right after it |
| JsonLoad.PrintedStringLoads | src/json.cpp:451-475 | loading a printed string gives back the string and consumes exactly the printed text |
| JsonLoad.UnterminatedStringFails | src/json.cpp:96-99 | a string with no closing quote ahead is a parsing error |
| JsonLoad.LineBreakFails | src/json.cpp:136-139 | a raw line feed or carriage return inside a string is a parsing error |
| JsonLoad.UnknownEscapeFails | src/json.cpp:131-133 | a backslash followed by anything but n, t, r, quote or backslash is a parsing error |
| JsonLoad.DanglingBackslashFails | src/json.cpp:109-112 | a backslash at the end of the input is a parsing error |
| JsonLoad.Digits | src/json.cpp:29-36 | read_digits succeeds exactly on a digit, and consumes the maximal run of digits |
| JsonLoad.ReadDigits | src/json.cpp:29-36 | the loop computes Digits |
| JsonLoad.ToNode | src/json.cpp:68-80 | an int node exactly when there is no fraction, no exponent and the value fits in int; either way the node reads as the exact decimal value |
| JsonLoad.ReadFraction | src/json.cpp:52-56 | the fraction reader computes the fraction stage |
| JsonLoad.ReadExponent | src/json.cpp:59-66 | the exponent reader computes the exponent stage |
| JsonLoad.LoadNumber | src/json.cpp:15-85 | the loader computes NumberAt and converts it with ToNode |
| JsonLoad.SpelledNumberLoads | src/json.cpp:15-85 | any well-formed number followed by a delimiter loads back as itself and consumes exactly its text |
| JsonLoad.LoadedNumberIsWellFormed | src/json.cpp:15-85 | whatever is accepted is a well-formed number, is exactly the consumed text, and is followed by a delimiter |
| JsonLoad.WholeNeedsDigit | src/json.cpp:38-48 | a number with no integer digits is a parsing error |
| JsonLoad.FractionNeedsDigit | src/json.cpp:52-56 | a point not followed by a digit is a parsing error |
| JsonLoad.ExponentNeedsDigit | src/json.cpp:59-66 | an exponent marker and optional sign not followed by a digit is a parsing error |
| JsonLoad.WordAt | src/json.cpp:149-157 | the maximal run of lowercase letters at a position, as it should be read |
| JsonLoad.SpacedKeywordAccepted | src/json.cpp:149-157 | the loop as written reads "t r u e" as the literal true |
| JsonLoad.LoadBoolAndNull | src/json.cpp:149-171 | corrected reading: the loader reads the contiguous lowercase word, leaves the next character unread and maps the word to its literal, else a parsing error |
| JsonLoad.LoadBoolAndNullAsWritten | src/json.cpp:149-171 | the loop as written: letters are fetched past any whitespace, the first other character is left unread, and the collected word is mapped to its literal, else a parsing error |
| JsonLoad.SpacedLettersRead | src/json.cpp:150-156 | as written, a stretch of letters and whitespace followed by any other character reads as its letters with the whitespace dropped, ending after the whole stretch |
| JsonLoad.LiteralNamesExactly | src/json.cpp:159-170 | exactly null, true and false load, as the null, true and false nodes |
| JsonLoad.LoadValue | src/json.cpp:173-198 | the loader dispatches on the first non-space character: a delimiter or the end gives null, then number, string, literal, or a parsing error |
| JsonLoad.LoadNode | src/json.cpp:251-272 | the loader dispatches: opening brackets start containers, closing brackets are errors, then string or value |
| JsonLoad.ClosingBracketRejected | src/json.cpp:265-267 | a closing bracket is rejected when a node is expected, although LoadValue alone would read it as null |
| JsonLoad.PrintedStringNodeLoads | src/json.cpp:261-262 | a printed string after whitespace loads as a string node |
| JsonBuilder.Emplace | src/json_builder.cpp:33 | emplace adds the key, keeping an existing entry untouched |
| JsonBuilder.GetAppend | src/json_builder.cpp:103-112 | a pointer to a child is one more step from the container's path |
| JsonBuilder.GetPrefix | src/json_builder.cpp:69-77 | the path of every enclosing container of a reachable node is reachable |
| JsonBuilder.GetPut | src/json_builder.cpp:32-41 | after a change to the innermost container, its path leads to the changed container |
| JsonBuilder.PutLeavesOtherBranches | src/json_builder.cpp:32-41 | a change to one container leaves every node off its path as it was |
| JsonBuilder.Builder.constructor | src/json_builder.cpp:7 | a new builder has a null root, nothing open and no key |
| JsonBuilder.Builder.Key | src/json_builder.cpp:9-16 | succeeds exactly inside a dict with no unused key, then records the key as pending |
| JsonBuilder.Builder.Value | src/json_builder.cpp:18-45 | error when nothing is open and the root is set; sets the root when nothing is open; emplaces under the pending key in a dict and clears it; appends in an array; otherwise error and no change |
| JsonBuilder.Builder.AddNode | src/json_builder.cpp:88-114 | error inside a dict without a pending key; places the node as root, under the key or at the end of the array, and opens it (the existing entry under a duplicate key) |
| JsonBuilder.Builder.AddChild | src/json_builder.cpp:101-112 | the updated container replaces the innermost one and the path to its new child is pushed |
| JsonBuilder.Builder.StartDict | src/json_builder.cpp:47-54 | error when nothing is open and the root is set; otherwise AddNode of an empty dict |
| JsonBuilder.Builder.StartArray | src/json_builder.cpp:56-63 | error when nothing is open and the root is set; otherwise AddNode of an empty array |
| JsonBuilder.Builder.EndDict | src/json_builder.cpp:65-71 | closes the innermost container exactly when it is a dict, else error and no change |
| JsonBuilder.Builder.EndArray | src/json_builder.cpp:73-79 | closes the innermost container exactly when it is an array, else error and no change |
| JsonBuilder.Builder.Build | src/json_builder.cpp:81-86 | the root exactly when nothing is open and the root is not null |
| JsonBuilder.BuildEntry | src/json_reader.cpp:149-151 | StartDict, Key, Value, EndDict and Build give the one-entry dict |
| JsonBuilder.BuildArray | src/json_reader.cpp:178-184 | StartArray, one Value per element, EndArray and Build give the array of those elements |

## Left out

- Geodesic distance: `geo::ComputeDistance` is a parameter of the catalogue, a function to non-negative ints. The truncation of its double result is folded into it.
- Doubles are exact reals. Rounding, overflow and infinities are not modelled.
- The unused `stops_vertex_wait_` and `stops_vertex_bus_` maps that AddStop fills are not modelled.
- `GetBusInfo`'s geodesic length and curvature are not modelled. They are floating point and feed only the curvature answer.
- `graph::Router` (Dijkstra) and `graph::DirectedWeightedGraph` are not part of this model. The search is an oracle that returns paths of the graph, so the model does not prove that an itinerary is the shortest one.
- Router.TransportRouter.constructor: requires `bus_velocity > 0`. The source divides by it; a zero velocity would give infinite times.
- Router.TransportRouter.EdgeItem: assumes no bus is named "". A bus named "" would make every wait edge yield a Bus item as well, which the source would print. The reader never registers such a bus, because `ParseBusInCatalogue` skips a request with an empty name (src/json_reader.cpp:101).
- Router.TransportRouter.RouteTime: assumes no bus is named "", for the same reason as EdgeItem; every catalogue the reader builds meets it.
- Router.TransportRouter.RouteAlternates: assumes no bus is named "", for the same reason as EdgeItem; every catalogue the reader builds meets it.
- The order of `unordered_map` and `unordered_set` enumeration is an arbitrary choice. The model fixes nothing about it beyond each element being visited once.
- The static router singleton in `GetResultOfRoute` is not modelled. It is built once from the first catalogue and settings. The model passes the router in, so a later call with a different catalogue is not modelled.
- Requests.JsonReader.ParseBus: requires a non-empty stop list with known stops for a named bus. The source dereferences the first stop and null stop pointers without checking.
- The JSON documents of the reader (field extraction, `request_id`, the JSON key names of answers, `ParseRouteSettings`) are abstracted into method parameters and the `Answer` datatype.
- `GetResultOfMap` is not modelled.
- The map renderer and SVG output are not modelled.
- `main.cpp` and stream plumbing are not modelled.
- `LoadArray` and `LoadDict`: `LoadNode` only reports that a container opens there.
- `Load` and `Document` construction are not modelled.
- Printing of numbers, arrays and dicts is not modelled. Only string escaping is; dict keys are printed unescaped by the source.
- `std::stoi` and `std::stod` are the exact integer and decimal value of the accepted text. A value outside int becomes a double. `std::stod` throwing `out_of_range` is not modelled: the source turns it into a parsing error both on overflow and on underflow (ERANGE, e.g. `1e-400`), where the model yields the exact value.
- The message texts of `ParsingError` and `logic_error` are dropped.
- `input.get()` past the end: `read_char` throwing on a failed read cannot happen after a successful peek, so it is not modelled.
- JsonLoad.LoadBoolAndNull: reads the letters of a literal name contiguously, the corrected reading. The source skips whitespace between the letters, so `t r u e]` loads as `true` there and is a parsing error here, and `true false]` is a parsing error there and `true` followed by unread text here. The as-written loop is `JsonLoad.LoadBoolAndNullAsWritten`.
- JsonLoad.LoadValue: dispatches literal names to the corrected `LoadBoolAndNull`, so it differs from the source on letters separated by whitespace as that line says.
- JsonLoad.LoadNode: falls through to `LoadValue`, and so differs from the source on letters separated by whitespace in the same way.
- JsonLoad.LoadNode: at the end of input the source compares an uninitialised char. The model treats it as falling through to LoadValue, which yields null.
- JsonLoad.LoadValue: its `for` loop always leaves in its first iteration, so it is modelled as a single test.
- JsonBuilder.Builder.Value: the moved-from `key_value_` is modelled as the empty string. The standard leaves a moved-from string valid but unspecified.
- JsonBuilder.Builder.Build: moving the root out of the builder is not modelled. The model returns the root and leaves it in place.
- The context classes of `json_builder.h` (`DictValueContext` and the others) only restrict which calls compile. `json_builder.h` is not part of this model; the model allows every call sequence and reports errors at run time, as `Builder` itself does.

## Findings

| source | as written | input that shows it | evidently intended | confidence | as-written member | corrected member |
|---|---|---|---|---|---|---|
| src/json.cpp:149-157 | `LoadBoolAndNull` reads letters with `input >> c`, which skips whitespace between them (`JsonLoad.LoadBoolAndNullAsWritten`, `JsonLoad.SpacedLettersRead`) | `t r u e]` loads as the literal `true` and consumes seven characters | a literal name is a contiguous run of lowercase letters, so `t r u e` is invalid data | not executed | JsonLoad.SpacedKeywordAccepted | JsonLoad.LiteralNamesExactly |

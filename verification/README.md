# Transport register: route planning core

This project models the routing core of the Transport Register, a C++ bus
catalogue that answers "how do I get from stop X to stop Y fastest".

Its layers are these:

- **An append-only directed weighted graph** (`DirectedWeightedGraph`, module
  `Graphs`). Edge ids are insertion indices. Every vertex keeps its outgoing
  edge ids in insertion order.
- **An all-pairs shortest-path router** (`Router`, modules `RouteTables`,
  `FloydWarshall` and `Routers`).
  - The constructor fills a V×V table of optional `{weight, prev_edge}` cells
    with a Floyd–Warshall variant.
  - `BuildRoute` reconstructs a path by walking the predecessor edges
    backwards, then caches it under a fresh route id.
  - `GetRouteEdge` reads the cache and `RemoveRoute` erases from it.
  - The finished table is proved correct: a cell is filled exactly when a
    walk exists, and it then holds a lightest walk. The table is proved
    equal to a pure reference definition.
  - The backward walk terminates because every step shortens a ghost
    witness walk. No fuel bound is used.
- **The transport router** (`TransportRouter`, module `TransportRouting`).
  - The `m`-th stop in the dictionary's iteration order owns the vertices
    `2m` (`in`) and `2m + 1` (`out`).
  - A wait edge runs from `out` to `in`.
  - Every bus gets one ride edge for each pair of positions `i < j`. The edge
    runs from the `in` vertex of stop `i` to the `out` vertex of stop `j`. Its
    weight is the road distance divided by `speed * 1000 / 60`.
  - `FindRoute` asks the router for a route between two `out` vertices. It
    translates the route edge by edge into wait and ride items, then drops
    the route handle.
- **The register** (`TransportRegister`, module `TransportRegisters`).
  - It partitions the input records into stops and buses, the way libstdc++'s
    `std::partition` does on a vector.
  - It indexes every stop with the buses that call at it, and every bus with
    its statistics.
  - It builds the router and delegates route queries to it.
- **The helpers:**
  - `ParseStops`, `ComputeStopsDistance` and the stop/bus dispatch of
    `ReadBusOrStopInfo` (module `Parser`);
  - `Strip` (module `StringUtils`).

A worked scenario (module `Scenario`) goes through the whole pipeline on stops
A, B and C with one bus, and proves the answer is wait 5 at A, then bus "1"
for 6 minutes over 2 spans, 11 minutes in total. It fixes the stop
dictionary's iteration order to A, B, C.

Modelling choices:

- Weights are exact `real`s.
- An `unordered_map` is a `Dict`: a map plus a key order. The key order is
  fixed but arbitrary, and is a parameter wherever the source iterates.
- Lookups with `.at` that would throw become preconditions. The exception is
  `ComputeStopsDistance`, which returns `None` where `.at` would throw.

## Model

| member | source | states |
|---|---|---|
| Graphs.NewGraph | graph.h:53-55 | a new graph has exactly `vertexCount` vertices, no edges, empty outgoing lists, and is valid |
| Graphs.AddEdge | graph.h:58-62 | the new id is the old edge count; the edge count grows by one; the id reads back the inserted edge; earlier edges, the vertex count and all other outgoing lists are unchanged; the id is appended to `from`'s list |
| Graphs.GetVertexEdges | graph.h:82-88 | the outgoing list of `v` names exactly the edges leaving `v`, each once, in increasing (insertion) order |
| Graphs.OutIdsExact | graph.h:58-62 | the incidence lists built by appending ids hold exactly the edges leaving each vertex, strictly increasing |
| RouteTables.RelaxRoute | router.h:78-91 | a cell is replaced only if it is empty or the candidate is strictly lighter; the result is never heavier than the old cell or the candidate; the new predecessor is `route_to`'s edge if it has one, else `route_from`'s |
| RouteTables.ThroughVertexMonotone | router.h:83-90 | a pass never empties a filled cell nor makes it heavier; the pass changes a cell exactly when relaxation fires |
| RouteTables.ScanEdgesLightest | router.h:64-74 | scanning a vertex's edges keeps the lightest edge into each target, the earliest one on ties, and nothing when no edge reaches the target |
| RouteTables.ScanEdgesDiagonal | router.h:61-74 | with non-negative weights the diagonal cell keeps `{0, no edge}` through the scan |
| RouteTables.InitCellSpec | router.h:59-76 | after initialisation, diagonal cells are `{0, no edge}`; an off-diagonal cell is empty iff no edge joins the pair, else holds the lightest edge, the earliest on ties |
| Routers.InitializeRow | router.h:62-74 | the loop over one vertex's edges produces that row of the reference initial table |
| Routers.OfferEdge | router.h:64-74 | offering one more edge keeps the row equal to the scan of the edges offered so far: the edge claims its head's cell exactly when that cell is empty or strictly heavier |
| Routers.InitializeRoutesInternalData | router.h:59-76 | the in-place loops produce the reference initial table, with every diagonal cell `{0, no edge}` |
| Routers.PivotFixed | router.h:93-103 | the pass through `k` leaves row `k` and column `k` alone, so reading already-updated cells inside the pass is harmless |
| Routers.RelaxRoutesInternalDataThroughVertex | router.h:93-103 | the in-place row-by-row pass equals the reference pass through `k`; a cell changes exactly when relaxation fires for it |
| FloydWarshall.ClosureGood | router.h:116-121 | after passes through vertices `0..k-1`, each filled cell has a witness walk with inner vertices below `k`, weighing the cell's weight, ending in the cell's predecessor edge, and no lighter such walk exists |
| FloydWarshall.StepGood | router.h:93-103 | one pass through the next vertex turns a table good for the vertices before it into one good for those vertices and the new one: sound witnesses and no lighter walk |
| FloydWarshall.StepOptimal | router.h:93-103 | after the pass through `k`, no walk with inner vertices up to `k` is lighter than the cell, and an empty cell means no such walk exists |
| FloydWarshall.JoinSound | router.h:78-91 | when relaxation fires off the diagonal, the joined walk `i→k→j` is a walk of the new weight ending in the predecessor the source picks |
| FloydWarshall.TableCorrect | router.h:108-122 | in the finished table a cell is filled iff its target is reachable; a filled cell's witness is a lightest walk of the cell's weight; the diagonal is `{0, no edge}` |
| FloydWarshall.RowWalkable | router.h:132-139 | following the predecessor of a filled cell leads to a filled cell whose witness is one edge shorter, which is what the backward walk relies on |
| Routers.ClosureMeaning | router.h:108-122 | the finished table means, for every pair, "filled iff reachable, and then the weight of a lightest walk" |
| Routers.NewRouter | router.h:108-122 | the constructed router's table is filled exactly for connected pairs with lightest-walk weights, with id counter 0 and an empty cache |
| Routers.ExpandRoute | router.h:132-139 | the backward walk over predecessor edges, reversed, is a lightest walk from `from` to `to` of the cell's weight, empty iff the cell has no predecessor |
| Routers.WalkStep | router.h:133-137 | each step of the backward walk lands on a filled cell whose witness is strictly shorter (the loop's termination measure) |
| Routers.BuildRoute | router.h:124-145 | none iff no walk exists, then the router is unchanged; otherwise the id is the old counter, the counter grows by one, only that id is added to the cache, and the cached walk is a lightest path whose weight and length are reported; `from == to` gives weight 0 and no edges |
| Routers.GetRouteEdge | router.h:147-150 | a cached route's edge is an edge of the graph, and consecutive edges meet head to tail |
| Routers.RemoveRoute | router.h:152-155 | exactly the given id leaves the cache; other routes, the table and the counter are unchanged |
| Routers.RouteEdgesRoundTrip | router.h:141-150 | given what `BuildRoute` reports, the `edgeCount` edges read back with `GetRouteEdge` meet head to tail from `from` to `to` (none only when `from == to`), their weights read with `GetEdge` add up to the reported weight, and no walk between the two vertices is lighter |
| Routers.RemoveRouteIdempotent | router.h:152-155 | removing twice is removing once; removing an absent id is a no-op |
| Routers.BuildThenRemove | router.h:141-155 | building a route and removing its id restores the cache; only the counter has moved |
| Parser.ParseStops | parser.cpp:27-43 | the result starts with the input; a round trip or a route of at most one stop is unchanged; otherwise it has length `2n-1`, mirrors the input back, is a palindrome ending at the first stop, and mentions the same stops |
| Parser.MirrorIsExpansion | parser.cpp:38-42 | the list the loop builds, the input followed by its mirror image without the far end, is the one-way expansion: a palindrome ending at the first stop, naming the same stops |
| Parser.ComputeStopsDistance | parser.cpp:45-52 | defined iff either stop records the other; `lhs`'s record wins, else `rhs`'s record is used |
| Parser.DistanceDirections | parser.cpp:45-52 | the distance is defined in both directions or neither; a one-sided record reads the same both ways; a two-sided one reads from the starting stop |
| Parser.RoadDistanceSplit | transport_register.cpp:67-70 | the road distance along a route adds up over any split point |
| Parser.RoadDistanceNonNegative | transport_register.cpp:67-70 | with non-negative legs the road distance is non-negative |
| Parser.ReadBusOrStopInfo | parser.cpp:60-75 | one record per node in order; a bus exactly when the node's type is `"Bus"`, with its stops expanded; otherwise a stop with the node's name and distances |
| Parser.ReadOne | parser.cpp:65-72 | a node becomes a bus record exactly when its type is `"Bus"`, carrying its name and expanded stops; otherwise a stop record with its name and distances |
| StringUtils.SkipFront | general_utils.cpp:15-17 | the first loop stops at or after where it starts, everything it passes is whitespace, and it stops at the end or at a non-space |
| StringUtils.SkipBack | general_utils.cpp:18-20 | the second loop stops between the kept start and the end, everything it drops is whitespace, and what it keeps is empty or ends in a non-space |
| StringUtils.Strip | general_utils.cpp:14-22 | the result is a contiguous slice of the input between all-whitespace ends, and neither starts nor ends with whitespace |
| StringUtils.StripFixedPoints | general_utils.cpp:14-22 | input with nothing to strip is unchanged; stripping is idempotent; the result is empty iff the input is all whitespace |
| TransportRouting.WaitEdgesSnoc | transport_router.cpp:52-57 | the wait edges of `m + 1` stops are those of `m` stops plus the `out→in` edge of stop `m` weighing the wait time |
| TransportRouting.BusEdgesShape | transport_router.cpp:74-105 | a bus with `n` stops gets `n(n-1)/2` rides, the ride from position `a` to `b` sitting at a fixed index |
| TransportRouting.RowStartClosed | transport_router.cpp:84-105 | the number of rides starting before the `i`-th of `n` stops is `i(2n-1-i)/2` |
| TransportRouting.AddStopSlot | transport_router.cpp:42-58 | one iteration gives the `m`-th stop vertices `2m` and `2m+1`, both owned by it, and appends its wait edge, keeping labels parallel to edges |
| TransportRouting.FillGraphWithStops | transport_router.cpp:38-62 | the graph has `2 × stops` vertices; the `m`-th stop in iteration order owns `2m` and `2m+1` and no other stop has a slot; the labelled edge list is exactly one wait edge per stop |
| TransportRouting.AddRide | transport_router.cpp:93-104 | the edge and its label are appended together; vertices and stop slots are unchanged |
| TransportRouting.AddRideTo | transport_router.cpp:93-104 | the running distance grows by the leg into the `j`-th stop to the road distance from `i` to `j`, and exactly the ride from `i`'s `in` to `j`'s `out` at that distance is appended |
| TransportRouting.NextRide | transport_router.cpp:91-105 | each inner iteration keeps the running distance equal to the road distance so far and the appended rides equal to the row prefix up to `j` |
| TransportRouting.AddRidesFrom | transport_router.cpp:84-105 | the rides from the `i`-th stop to every later stop are appended in order, with cumulative distance over `speed·1000/60` as weight and the span as label |
| TransportRouting.RowSnoc | transport_router.cpp:91-105 | each inner iteration extends the row of rides by the ride to the next stop |
| TransportRouting.AddBusRides | transport_router.cpp:70-106 | a bus with at most one stop adds nothing; otherwise all its rides are appended, row by row |
| TransportRouting.FillGraphWithBuses | transport_router.cpp:64-108 | the rides of every bus are appended in the buses' iteration order; slots and vertex count are unchanged |
| TransportRouting.NextBus | transport_router.cpp:68-107 | each outer iteration appends exactly the next bus's rides, leaving vertices and stop slots alone |
| TransportRouting.WellLabelledConcat | transport_router.cpp:94-103 | well-labelled edge lists stay well-labelled when joined |
| TransportRouting.AllBusEdgesWellLabelled | transport_router.cpp:94-103 | every ride runs from an `in` (even) vertex to an `out` (odd) vertex with non-negative weight |
| TransportRouting.LabelledRoutable | transport_router.cpp:27 | the graph the transport router builds meets the router's precondition: edge ends are vertices and no weight is negative |
| TransportRouting.NewTransportRouter | transport_router.cpp:12-28 | the finished router is wired: labels parallel to edges, the stop slots as assigned, the edge list exactly the wait edges followed by every bus's rides, an empty route cache, and a table that gives lightest walks |
| TransportRouting.ItineraryTime | transport_router.cpp:121-140 | the itinerary of a walk takes as long as the walk weighs |
| TransportRouting.WalkAlternates | transport_router.cpp:47-103 | on a walk from an `out` vertex, edges alternate wait, ride, wait, …; the walk ends at an `out` vertex iff it has even length |
| TransportRouting.ItineraryAlternates | transport_router.cpp:121-140 | the itinerary between two `out` vertices alternates waits and rides, starts with a wait, ends with a ride, and every wait lasts the wait time |
| TransportRouting.TranslateRoute | transport_router.cpp:123-140 | each cached edge becomes a `BusItem(name, weight, span)` for a ride or a `WaitItem(stop of the edge's tail, weight)` for a wait, in order |
| TransportRouting.TranslateEdge | transport_router.cpp:126-139 | a ride edge becomes a bus item with its bus and span, a wait edge a wait item naming the stop that owns its tail; either lasts the edge's weight |
| TransportRouting.ItineraryFacts | transport_router.cpp:121-140 | the itinerary from a stop's `out` vertex takes the walk's weight, alternates, and opens with a wait at the departure stop |
| TransportRouting.FindRoute | transport_router.cpp:110-144 | none iff the two stops' `out` vertices are not connected; otherwise the itinerary of a lightest walk, with total time equal to the walk's weight, alternating and opening with a wait at the departure stop; the route cache is as before and the route-id counter has moved on by one; the same stop gives time 0 and no items |
| TransportRegisters.Partition | transport_register.cpp:17-19 | the result is a permutation of the input with every stop record before `split` and every bus record from `split` on |
| TransportRegisters.Swap | transport_register.cpp:17-19 | the swap inside the partition trades exactly two records and keeps the multiset of records |
| TransportRegisters.PartitionViews | transport_register.cpp:17-31 | the two ranges hold exactly the input's stop records and exactly its bus records |
| TransportRegisters.ComputeRoadRouteLength | transport_register.cpp:64-72 | 0 for fewer than two stops, otherwise the sum of the consecutive stops' distances, non-negative when every leg is |
| TransportRegisters.FullRideWeight | transport_register.cpp:64-72 | the ride from a bus's first stop to its last weighs the bus's road length converted to minutes and spans all its stops |
| TransportRegisters.LatestLast | transport_register.cpp:25-34 | in a dictionary filled in record order, a record not followed by one of the same name is the one kept |
| TransportRegisters.LatestValues | transport_register.cpp:25-34 | every dictionary entry is a record of the input carrying the entry's name |
| TransportRegisters.IndexStops | transport_register.cpp:23-27 | every stop name gets an entry with no bus names; the stop dictionary keeps the last record of each name |
| TransportRegisters.AddBusToStops | transport_register.cpp:39-41 | a bus's name joins exactly the entries of the stops it mentions; no entry is added or removed |
| TransportRegisters.IndexOneBus | transport_register.cpp:32-41 | one bus record updates the stop entries, stores its statistics under its name, and records it in the bus dictionary |
| TransportRegisters.BusTablesStep | transport_register.cpp:34-37 | one bus record sets its own name's entries in both tables to itself and its statistics |
| TransportRegisters.BusTablesLast | transport_register.cpp:31-37 | after all bus records each name keeps the last record of that name |
| TransportRegisters.IndexBuses | transport_register.cpp:31-42 | each stop's bus names grow by exactly the buses mentioning it; every bus name gets statistics of its last record (stop count, unique stop count, road length) |
| TransportRegisters.SplitRecords | transport_register.cpp:17-31 | the front range holds all and only the stop records, the back range all and only the bus records, with the same names and calling buses |
| TransportRegisters.IndexRecords | transport_register.cpp:17-42 | the stop entries are exactly the stop names with exactly the buses through each; the bus entries are exactly the bus names with the statistics of the kept record; the two dictionaries follow the given orders |
| TransportRegisters.NewTransportRegister | transport_register.cpp:14-46 | the stops are exactly the input's stop names, each with exactly the buses that mention it; the buses are exactly the input's bus names with their statistics; the router is built over both dictionaries in their iteration orders |
| TransportRegisters.FindRoute | transport_register.cpp:58-62 | the answer is the transport router's answer for the same stops; the register's data is unchanged |
| Scenario.ShortestFromAToC | transport_router.cpp:84-105 | in the scenario's graph the direct ride A→C (11 minutes with the wait) beats the ride with a change at B (16 minutes) |
| Scenario.RunScenario | transport_router.cpp:110-144 | stops A, B, C, round-trip bus "1" over A→B→C at 1000 m and 2000 m, wait 5, speed 30: the answer is wait 5 at A, bus "1" for 6 minutes over 2 spans, 11 in total |

## Left out

- Geographic positions and `ComputeGeoRouteDistance` (transport_register.cpp:74-82) are left out: they are floating-point great-circle trigonometry.
- JSON decoding is left out: `Stop::ParseFrom`, `Bus::ParseFrom` (parser.cpp:14-25, 54-58) and `MakeRoutingSettings` (transport_router.cpp:30-36). Nodes and settings arrive already decoded.
- `RenderMap`, queries.h and main.cpp are left out: they are output formatting and process I/O.
- `GetStop` and `GetBus` (transport_register.cpp:48-56) are left out. They read through `GetValuePointer` in general_utils.h, which is not part of this model; the model exposes `stops` and `buses` as maps.
- `ComputeUniqueItemsCount` is restated as the size of the set of stops, because general_utils.h is not part of this model.
- IEEE `double` rounding is not modelled: weights and times are exact `real`s.
- 32-bit `int` overflow of distances and wait times is not modelled.
- Wrap-around of the 64-bit route id counter is not modelled.
- The `unordered_map` iteration order is not fixed. It is a parameter, `Dict.keys`, or `stopOrder` and `busOrder` in `NewTransportRegister`.
- Ownership is not modelled: `unique_ptr` and the dictionaries' raw pointers into the input vector become plain values.
- Whitespace follows the C locale only.
- TransportRouting.NewTransportRouter: requires a bus speed above zero, a non-negative wait time, well-formed stop and bus dictionaries (stops keyed by their own names), and every bus with two or more stops served: each stop it mentions is known and each leg has a defined, non-negative distance. The source asserts non-negative weights in the router (router.h:66), divides by the speed, and throws (`.at`) on an unknown stop or an unrecorded distance.
- TransportRegisters.NewTransportRegister: requires every stop a bus mentions to be known, and every leg to have a non-negative distance in every record of the two stops' names. The source throws on an unknown name (`.at`) and asserts non-negative weights. The requirement is stated over all records of a name, because which duplicate the dictionary keeps depends on the record order after the partition.
- Scenario.RunScenario: proved for the stop order A, B, C only; the answer does not depend on the order, but each order gives different vertex numbers and would need its own walk enumeration.
- TransportRouting.FindRoute: requires both stops to be known. The source throws (`.at`, transport_router.cpp:112-113) rather than returning no route.
- Routers.GetRouteEdge: requires the id to be cached and the index in range, where the source's `.at` and `operator[]` would fail.

/** `TransportRouter` (transport_router.h / transport_router.cpp): the
    routing graph built from stops and buses, and the translation of the
    router's walks back into itineraries of waits and rides.

    Every stop owns two vertices, `in` and `out`.  Waiting at a stop is the
    edge `out -> in` weighing the configured wait; riding a bus from its
    `i`-th to its `j`-th stop (`i < j`) is one edge `in(i) -> out(j)`
    weighing the road distance between them over the bus's speed. */
module TransportRouting {
  import opened Wrappers
  import opened Graphs
  import opened Paths
  import opened RouteTables
  import opened Parser
  import Routers

  datatype StopVertexIds = StopVertexIds(inVertex: VertexId, outVertex: VertexId)

  /** What an edge stands for (`EdgeInfo`, transport_router.h:75-83). */
  datatype EdgeInfo = BusEdge(busName: string, spanCount: nat) | WaitEdge

  /** One step of an itinerary (transport_router.h:35-46). */
  datatype RouteItem = BusItem(busName: string, time: real, spanCount: nat) | WaitItem(stopName: string, time: real)

  datatype RouteInfo = RouteInfo(totalTime: real, items: seq<RouteItem>)

  /** `bus_wait_time` in minutes and `bus_speed` in km/h. */
  datatype RoutingSettings = RoutingSettings(busWaitTime: int, busSpeed: real)

  /** The graph with its labels: `graph_`, `stops_vertex_ids_`,
      `vertices_info_` (the stop owning each vertex) and `edges_info_`. */
  datatype Network = Network(graph: Graph, stopVertexIds: map<string, StopVertexIds>, verticesInfo: seq<string>, edgesInfo: seq<EdgeInfo>)

  datatype TransportRouter = TransportRouter(settings: RoutingSettings, net: Network, router: Routers.Router)

  /** An edge together with its label. */
  datatype Labelled = Labelled(edge: Edge, info: EdgeInfo)

  predicate SettingsValid(settings: RoutingSettings) {
    settings.busWaitTime >= 0 && settings.busSpeed > 0.0
  }

  // ------------------------------------------------------------ the labelled edge list

  /** `edges_info_` runs parallel to the graph's edge list. */
  predicate Parallel(net: Network) {
    |net.edgesInfo| == |net.graph.edges|
  }

  function LabelsOf(net: Network): seq<Labelled>
    requires Parallel(net)
  {
    seq(|net.graph.edges|, m requires 0 <= m < |net.graph.edges| => Labelled(net.graph.edges[m], net.edgesInfo[m]))
  }

  /** Minutes a bus needs for `distance` metres: metres over
      `speed * 1000 / 60` metres per minute. */
  function BusEdgeWeight(settings: RoutingSettings, distance: int): real
    requires settings.busSpeed > 0.0
  {
    distance as real / (settings.busSpeed * 1000.0 / 60.0)
  }

  /** The wait edges of the first `count` stops: stop `m` waits from
      `2m + 1` to `2m`. */
  function WaitEdges(settings: RoutingSettings, count: nat): seq<Labelled> {
    seq(count, m requires 0 <= m < count => Labelled(Edge(2 * m + 1, 2 * m, settings.busWaitTime as real), WaitEdge))
  }

  lemma WaitEdgesSnoc(settings: RoutingSettings, m: nat)
    ensures WaitEdges(settings, m + 1)
            == WaitEdges(settings, m) + [Labelled(Edge(2 * m + 1, 2 * m, settings.busWaitTime as real), WaitEdge)]
  {
  }

  /** A route a bus can drive: a single stop or none, or stops the
      dictionary knows with a non-negative distance on every leg. */
  predicate RouteServed(stops: Dict<Stop>, names: seq<string>) {
    |names| <= 1 || (RoadKnown(stops, names) && LegsNonNegative(stops, names))
  }

  predicate IdsCover(ids: map<string, StopVertexIds>, stops: Dict<Stop>) {
    forall k :: k in stops.values ==> k in ids
  }

  /** The edge riding `bus` from its `a`-th to its `b`-th stop. */
  function BusPair(ids: map<string, StopVertexIds>, stops: Dict<Stop>, settings: RoutingSettings, bus: Bus, a: nat, b: nat): Labelled
    requires settings.busSpeed > 0.0 && RouteServed(stops, bus.stops) && IdsCover(ids, stops)
    requires a < b < |bus.stops|
  {
    Labelled(
      Edge(ids[bus.stops[a]].inVertex, ids[bus.stops[b]].outVertex,
           BusEdgeWeight(settings, RoadDistance(stops, bus.stops, a, b))),
      BusEdge(bus.name, b - a))
  }

  /** The rides of `bus` that start at its `i`-th stop, nearest end first. */
  function BusRow(ids: map<string, StopVertexIds>, stops: Dict<Stop>, settings: RoutingSettings, bus: Bus, i: nat): seq<Labelled>
    requires settings.busSpeed > 0.0 && RouteServed(stops, bus.stops) && IdsCover(ids, stops)
    requires i + 1 < |bus.stops|
  {
    seq(|bus.stops| - 1 - i, d requires 0 <= d < |bus.stops| - 1 - i => BusPair(ids, stops, settings, bus, i, i + 1 + d))
  }

  /** The rides of `bus` starting at its `i`-th stop or later. */
  function BusRows(ids: map<string, StopVertexIds>, stops: Dict<Stop>, settings: RoutingSettings, bus: Bus, i: nat): seq<Labelled>
    requires settings.busSpeed > 0.0 && RouteServed(stops, bus.stops) && IdsCover(ids, stops)
    decreases |bus.stops| - i
  {
    if i + 1 >= |bus.stops| then [] else BusRow(ids, stops, settings, bus, i) + BusRows(ids, stops, settings, bus, i + 1)
  }

  /** Every bus of the dictionary drives a route that can be served. */
  predicate BusesServed(stops: Dict<Stop>, buses: Dict<Bus>) {
    forall k :: k in buses.values ==> RouteServed(stops, buses.values[k].stops)
  }

  /** The rides of the first `b` buses in the dictionary's order. */
  function AllBusEdges(ids: map<string, StopVertexIds>, stops: Dict<Stop>, settings: RoutingSettings, buses: Dict<Bus>, b: nat): seq<Labelled>
    requires settings.busSpeed > 0.0 && IdsCover(ids, stops) && DictWellFormed(buses) && BusesServed(stops, buses)
    requires b <= |buses.keys|
  {
    if b == 0 then []
    else
      assert buses.keys[b - 1] in buses.values;
      AllBusEdges(ids, stops, settings, buses, b - 1) + BusRows(ids, stops, settings, buses.values[buses.keys[b - 1]], 0)
  }

  // ------------------------------------------------------------ shape of a bus's rides

  /** How many rides start before the `i`-th of `n` stops. */
  function RowStart(n: nat, i: nat): nat
    requires i <= n
  {
    if i == 0 then 0 else RowStart(n, i - 1) + (n - i)
  }

  /** Where the ride from the `a`-th to the `b`-th stop sits among a bus's rides. */
  function PairIndex(n: nat, a: nat, b: nat): nat
    requires a < b <= n
  {
    RowStart(n, a) + (b - a - 1)
  }

  lemma {:induction false} RowStartClosed(n: nat, i: nat)
    requires i <= n
    ensures 2 * RowStart(n, i) == i * (2 * n - 1 - i)
  {
    if i > 0 {
      RowStartClosed(n, i - 1);
      assert (i - 1) * (2 * n - i) + 2 * (n - i) == i * (2 * n - 1 - i);
    }
  }

  lemma {:induction false} BusRowsAt(ids: map<string, StopVertexIds>, stops: Dict<Stop>, settings: RoutingSettings, bus: Bus, i: nat, a: nat, b: nat)
    requires settings.busSpeed > 0.0 && RouteServed(stops, bus.stops) && IdsCover(ids, stops)
    requires i <= a < b < |bus.stops|
    ensures RowStart(|bus.stops|, i) <= RowStart(|bus.stops|, a)
    ensures RowStart(|bus.stops|, a) - RowStart(|bus.stops|, i) + (b - a - 1) < |BusRows(ids, stops, settings, bus, i)|
    ensures BusRows(ids, stops, settings, bus, i)[RowStart(|bus.stops|, a) - RowStart(|bus.stops|, i) + (b - a - 1)]
            == BusPair(ids, stops, settings, bus, a, b)
    decreases a - i
  {
    var n := |bus.stops|;
    RowStartMonotone(n, i, a);
    var row := BusRow(ids, stops, settings, bus, i);
    var rows := BusRows(ids, stops, settings, bus, i);
    assert rows == row + BusRows(ids, stops, settings, bus, i + 1);
    if a == i {
      assert rows[b - a - 1] == row[b - a - 1];
    } else {
      BusRowsAt(ids, stops, settings, bus, i + 1, a, b);
      assert RowStart(n, i + 1) == RowStart(n, i) + |row|;
    }
  }

  lemma {:induction false} RowStartMonotone(n: nat, i: nat, a: nat)
    requires i <= a <= n
    ensures RowStart(n, i) <= RowStart(n, a)
    decreases a - i
  {
    if i < a {
      RowStartMonotone(n, i, a - 1);
    }
  }

  lemma {:induction false} BusRowsLength(ids: map<string, StopVertexIds>, stops: Dict<Stop>, settings: RoutingSettings, bus: Bus, i: nat)
    requires settings.busSpeed > 0.0 && RouteServed(stops, bus.stops) && IdsCover(ids, stops)
    requires i < |bus.stops|
    ensures RowStart(|bus.stops|, i) <= RowStart(|bus.stops|, |bus.stops| - 1)
    ensures |BusRows(ids, stops, settings, bus, i)| == RowStart(|bus.stops|, |bus.stops| - 1) - RowStart(|bus.stops|, i)
    decreases |bus.stops| - i
  {
    if i + 1 < |bus.stops| {
      BusRowsLength(ids, stops, settings, bus, i + 1);
    }
  }

  /** A bus with `n` stops gets `n(n-1)/2` rides, one for every pair of
      positions `a < b`, at the position `PairIndex(n, a, b)`
      (transport_router.cpp:74-99). */
  lemma BusEdgesShape(ids: map<string, StopVertexIds>, stops: Dict<Stop>, settings: RoutingSettings, bus: Bus)
    requires settings.busSpeed > 0.0 && RouteServed(stops, bus.stops) && IdsCover(ids, stops)
    ensures 2 * |BusRows(ids, stops, settings, bus, 0)| == |bus.stops| * (|bus.stops| - 1)
    ensures forall a, b :: 0 <= a < b < |bus.stops| ==>
              && PairIndex(|bus.stops|, a, b) < |BusRows(ids, stops, settings, bus, 0)|
              && BusRows(ids, stops, settings, bus, 0)[PairIndex(|bus.stops|, a, b)] == BusPair(ids, stops, settings, bus, a, b)
  {
    var n := |bus.stops|;
    if n > 0 {
      BusRowsLength(ids, stops, settings, bus, 0);
      RowStartClosed(n, n - 1);
      assert (n - 1) * (2 * n - 1 - (n - 1)) == n * (n - 1);
    }
    forall a, b | 0 <= a < b < n
      ensures && PairIndex(n, a, b) < |BusRows(ids, stops, settings, bus, 0)|
              && BusRows(ids, stops, settings, bus, 0)[PairIndex(n, a, b)] == BusPair(ids, stops, settings, bus, a, b)
    {
      BusRowsAt(ids, stops, settings, bus, 0, a, b);
    }
  }

  // ------------------------------------------------------------ well-labelled graphs

  /** What the labels promise of an edge: both ends are vertices, the weight
      is not negative, a wait goes from an `out` (odd) vertex to the `in`
      vertex just below it and weighs the wait time, a ride goes from an
      `in` (even) to an `out` (odd) vertex. */
  predicate LabelOk(l: Labelled, vertexCount: nat, settings: RoutingSettings) {
    && l.edge.from < vertexCount && l.edge.to < vertexCount && l.edge.weight >= 0.0
    && (l.info.WaitEdge? ==>
          l.edge.from % 2 == 1 && l.edge.to + 1 == l.edge.from && l.edge.weight == settings.busWaitTime as real)
    && (l.info.BusEdge? ==> l.edge.from % 2 == 0 && l.edge.to % 2 == 1)
  }

  predicate WellLabelled(ls: seq<Labelled>, vertexCount: nat, settings: RoutingSettings) {
    forall m :: 0 <= m < |ls| ==> LabelOk(ls[m], vertexCount, settings)
  }

  /** Each stop's pair of vertices: `in` even, `out` right above it, both
      vertices of the graph and both owned by the stop. */
  predicate IdsWired(net: Network) {
    forall k :: k in net.stopVertexIds ==>
      && net.stopVertexIds[k].inVertex % 2 == 0
      && net.stopVertexIds[k].outVertex == net.stopVertexIds[k].inVertex + 1
      && net.stopVertexIds[k].outVertex < VertexCount(net.graph)
      && net.stopVertexIds[k].outVertex < |net.verticesInfo|
      && net.verticesInfo[net.stopVertexIds[k].inVertex] == k
      && net.verticesInfo[net.stopVertexIds[k].outVertex] == k
  }

  /** The stop slots of `FillGraphWithStops`: the `m`-th stop in iteration
      order owns vertices `2m` and `2m + 1`, and no other vertex exists. */
  predicate SlotsAssigned(net: Network, keys: seq<string>) {
    && VertexCount(net.graph) == 2 * |keys|
    && |net.verticesInfo| == 2 * |keys|
    && net.stopVertexIds.Keys == (set k | k in keys)
    && forall m :: 0 <= m < |keys| ==>
         && keys[m] in net.stopVertexIds
         && net.stopVertexIds[keys[m]] == StopVertexIds(2 * m, 2 * m + 1)
         && net.verticesInfo[2 * m] == keys[m]
         && net.verticesInfo[2 * m + 1] == keys[m]
  }

  lemma WeightNonNegative(settings: RoutingSettings, distance: int)
    requires settings.busSpeed > 0.0 && distance >= 0
    ensures BusEdgeWeight(settings, distance) >= 0.0
  {
  }

  lemma WellLabelledConcat(xs: seq<Labelled>, ys: seq<Labelled>, vertexCount: nat, settings: RoutingSettings)
    requires WellLabelled(xs, vertexCount, settings) && WellLabelled(ys, vertexCount, settings)
    ensures WellLabelled(xs + ys, vertexCount, settings)
  {
    forall m | 0 <= m < |xs + ys| ensures LabelOk((xs + ys)[m], vertexCount, settings) {
      if m >= |xs| {
        assert (xs + ys)[m] == ys[m - |xs|];
      }
    }
  }

  /** A single ride runs from an `in` vertex to an `out` vertex of the
      graph and weighs no less than nothing. */
  lemma BusPairOk(net: Network, stops: Dict<Stop>, settings: RoutingSettings, bus: Bus, a: nat, b: nat)
    requires settings.busSpeed > 0.0 && RouteServed(stops, bus.stops) && IdsCover(net.stopVertexIds, stops) && IdsWired(net)
    requires a < b < |bus.stops|
    ensures LabelOk(BusPair(net.stopVertexIds, stops, settings, bus, a, b), VertexCount(net.graph), settings)
  {
    var ids := net.stopVertexIds;
    var d := RoadDistance(stops, bus.stops, a, b);
    RoadDistanceNonNegative(stops, bus.stops, a, b);
    WeightNonNegative(settings, d);
    assert bus.stops[a] in ids && bus.stops[b] in ids;
    SlotParity(net, bus.stops[a]);
    SlotParity(net, bus.stops[b]);
    assert BusPair(ids, stops, settings, bus, a, b)
        == Labelled(Edge(ids[bus.stops[a]].inVertex, ids[bus.stops[b]].outVertex, BusEdgeWeight(settings, d)), BusEdge(bus.name, b - a));
  }

  /** A wired stop's `in` vertex is even, its `out` vertex odd, and both are
      vertices of the graph. */
  lemma SlotParity(net: Network, name: string)
    requires IdsWired(net) && name in net.stopVertexIds
    ensures var ids := net.stopVertexIds[name];
      && ids.inVertex % 2 == 0 && ids.outVertex % 2 == 1
      && ids.inVertex < VertexCount(net.graph) && ids.outVertex < VertexCount(net.graph)
  {
  }

  lemma {:induction false} BusRowsWellLabelled(net: Network, stops: Dict<Stop>, settings: RoutingSettings, bus: Bus, i: nat)
    requires settings.busSpeed > 0.0 && RouteServed(stops, bus.stops) && IdsCover(net.stopVertexIds, stops) && IdsWired(net)
    ensures WellLabelled(BusRows(net.stopVertexIds, stops, settings, bus, i), VertexCount(net.graph), settings)
    decreases |bus.stops| - i
  {
    if i + 1 < |bus.stops| {
      var row := BusRow(net.stopVertexIds, stops, settings, bus, i);
      forall d | 0 <= d < |row| ensures LabelOk(row[d], VertexCount(net.graph), settings) {
        BusPairOk(net, stops, settings, bus, i, i + 1 + d);
      }
      BusRowsWellLabelled(net, stops, settings, bus, i + 1);
      WellLabelledConcat(row, BusRows(net.stopVertexIds, stops, settings, bus, i + 1), VertexCount(net.graph), settings);
    }
  }

  lemma {:induction false} AllBusEdgesWellLabelled(net: Network, stops: Dict<Stop>, settings: RoutingSettings, buses: Dict<Bus>, b: nat)
    requires settings.busSpeed > 0.0 && IdsCover(net.stopVertexIds, stops) && IdsWired(net)
    requires DictWellFormed(buses) && BusesServed(stops, buses) && b <= |buses.keys|
    ensures WellLabelled(AllBusEdges(net.stopVertexIds, stops, settings, buses, b), VertexCount(net.graph), settings)
  {
    if b > 0 {
      assert buses.keys[b - 1] in buses.values;
      AllBusEdgesWellLabelled(net, stops, settings, buses, b - 1);
      BusRowsWellLabelled(net, stops, settings, buses.values[buses.keys[b - 1]], 0);
      WellLabelledConcat(AllBusEdges(net.stopVertexIds, stops, settings, buses, b - 1),
                         BusRows(net.stopVertexIds, stops, settings, buses.values[buses.keys[b - 1]], 0),
                         VertexCount(net.graph), settings);
    }
  }

  /** A well-labelled graph is one the router accepts. */
  lemma LabelledRoutable(net: Network, settings: RoutingSettings)
    requires Valid(net.graph) && Parallel(net) && WellLabelled(LabelsOf(net), VertexCount(net.graph), settings)
    ensures Routable(net.graph)
  {
    forall e | 0 <= e < |net.graph.edges|
      ensures net.graph.edges[e].to < |net.graph.incidence| && net.graph.edges[e].weight >= 0.0
    {
      assert LabelOk(LabelsOf(net)[e], VertexCount(net.graph), settings);
    }
  }

  // ------------------------------------------------------------ building the graph

  /** Appending one edge and its label extends the labelled list by one. */
  lemma LabelsSnoc(net: Network, g: Graph, e: Edge, info: EdgeInfo)
    requires Parallel(net) && g.edges == net.graph.edges + [e]
    ensures Parallel(net.(graph := g, edgesInfo := net.edgesInfo + [info]))
    ensures LabelsOf(net.(graph := g, edgesInfo := net.edgesInfo + [info])) == LabelsOf(net) + [Labelled(e, info)]
  {
  }

  lemma AddEdgeAppends(g: Graph, e: Edge)
    requires Valid(g) && e.from < VertexCount(g)
    ensures AddEdge(g, e).0.edges == g.edges + [e]
  {
    var g' := AddEdge(g, e).0;
    forall m | 0 <= m < |g'.edges| ensures g'.edges[m] == (g.edges + [e])[m] {
      if m < |g.edges| {
        assert GetEdge(g', m) == GetEdge(g, m);
      }
    }
  }

  /** The first `m` stops of `keys` hold their slots, and no other stop does. */
  predicate SlotsUpTo(ids: map<string, StopVertexIds>, verticesInfo: seq<string>, keys: seq<string>, m: nat)
    requires m <= |keys| && |verticesInfo| == 2 * |keys|
  {
    && (forall a :: 0 <= a < m ==>
          && keys[a] in ids
          && ids[keys[a]] == StopVertexIds(2 * a, 2 * a + 1)
          && verticesInfo[2 * a] == keys[a]
          && verticesInfo[2 * a + 1] == keys[a])
    && (forall k :: k in ids ==> k in keys[..m])
  }

  lemma SlotsStep(ids: map<string, StopVertexIds>, verticesInfo: seq<string>, keys: seq<string>, m: nat)
    requires m < |keys| && |verticesInfo| == 2 * |keys| && SeqUtils.Distinct(keys)
    requires SlotsUpTo(ids, verticesInfo, keys, m)
    ensures SlotsUpTo(ids[keys[m] := StopVertexIds(2 * m, 2 * m + 1)],
                      verticesInfo[2 * m := keys[m]][2 * m + 1 := keys[m]], keys, m + 1)
  {
    assert keys[..m + 1] == keys[..m] + [keys[m]];
  }

  lemma SlotsDone(net: Network, keys: seq<string>)
    requires |net.verticesInfo| == 2 * |keys| && VertexCount(net.graph) == 2 * |keys|
    requires SlotsUpTo(net.stopVertexIds, net.verticesInfo, keys, |keys|)
    ensures SlotsAssigned(net, keys) && IdsWired(net)
  {
    assert keys[..|keys|] == keys;
    forall k | k in net.stopVertexIds
      ensures && net.stopVertexIds[k].inVertex % 2 == 0
              && net.stopVertexIds[k].outVertex == net.stopVertexIds[k].inVertex + 1
              && net.stopVertexIds[k].outVertex < VertexCount(net.graph)
              && net.stopVertexIds[k].outVertex < |net.verticesInfo|
              && net.verticesInfo[net.stopVertexIds[k].inVertex] == k
              && net.verticesInfo[net.stopVertexIds[k].outVertex] == k
    {
      var a :| 0 <= a < |keys| && keys[a] == k;
    }
  }

  /** The body of `FillGraphWithStops`'s loop (transport_router.cpp:42-58)
      for the `m`-th stop: its two vertices and its wait edge. */
  method AddStopSlot(net0: Network, settings: RoutingSettings, keys: seq<string>, m: nat) returns (net: Network)
    requires m < |keys| && SeqUtils.Distinct(keys)
    requires Valid(net0.graph) && Parallel(net0)
    requires VertexCount(net0.graph) == 2 * |keys| && |net0.verticesInfo| == 2 * |keys|
    requires SlotsUpTo(net0.stopVertexIds, net0.verticesInfo, keys, m)
    requires LabelsOf(net0) == WaitEdges(settings, m)
    ensures Valid(net.graph) && Parallel(net)
    ensures VertexCount(net.graph) == 2 * |keys| && |net.verticesInfo| == 2 * |keys|
    ensures SlotsUpTo(net.stopVertexIds, net.verticesInfo, keys, m + 1)
    ensures LabelsOf(net) == WaitEdges(settings, m + 1)
  {
    var name := keys[m];
    var ids := StopVertexIds(2 * m, 2 * m + 1);
    SlotsStep(net0.stopVertexIds, net0.verticesInfo, keys, m);
    net := net0.(stopVertexIds := net0.stopVertexIds[name := ids],
                 verticesInfo := net0.verticesInfo[ids.inVertex := name][ids.outVertex := name]);
    var e := Edge(ids.outVertex, ids.inVertex, settings.busWaitTime as real);
    var (g, id) := AddEdge(net.graph, e);
    assert id == |net.edgesInfo|;
    AddEdgeAppends(net.graph, e);
    LabelsSnoc(net, g, e, WaitEdge);
    WaitEdgesSnoc(settings, m);
    net := net.(graph := g, edgesInfo := net.edgesInfo + [WaitEdge]);
  }

  /** `FillGraphWithStops` (transport_router.cpp:38-62) on the graph and
      tables the constructor allocates (transport_router.cpp:17-20): the
      `m`-th stop in iteration order gets vertices `2m` and `2m + 1` and one
      wait edge between them. */
  method FillGraphWithStops(settings: RoutingSettings, stops: Dict<Stop>) returns (net: Network)
    requires DictWellFormed(stops)
    ensures Valid(net.graph) && Parallel(net)
    ensures SlotsAssigned(net, stops.keys) && IdsWired(net) && IdsCover(net.stopVertexIds, stops)
    ensures LabelsOf(net) == WaitEdges(settings, |stops.keys|)
  {
    var n := |stops.keys|;
    net := Network(NewGraph(2 * n), map[], seq(2 * n, _ => ""), []);
    var m := 0;
    while m < n
      invariant m <= n
      invariant Valid(net.graph) && Parallel(net)
      invariant VertexCount(net.graph) == 2 * n && |net.verticesInfo| == 2 * n
      invariant SlotsUpTo(net.stopVertexIds, net.verticesInfo, stops.keys, m)
      invariant LabelsOf(net) == WaitEdges(settings, m)
    {
      net := AddStopSlot(net, settings, stops.keys, m);
      m := m + 1;
    }
    SlotsDone(net, stops.keys);
    forall k | k in stops.values ensures k in net.stopVertexIds {
      assert k in set k' | k' in stops.keys;
    }
  }

  /** One ride of the innermost loop of `FillGraphWithBuses`
      (transport_router.cpp:93-104): label and edge appended together. */
  method AddRide(net0: Network, e: Edge, info: EdgeInfo) returns (net: Network)
    requires Valid(net0.graph) && Parallel(net0) && e.from < VertexCount(net0.graph)
    ensures Valid(net.graph) && Parallel(net)
    ensures net.stopVertexIds == net0.stopVertexIds && net.verticesInfo == net0.verticesInfo
    ensures VertexCount(net.graph) == VertexCount(net0.graph)
    ensures LabelsOf(net) == LabelsOf(net0) + [Labelled(e, info)]
  {
    net := net0.(edgesInfo := net0.edgesInfo + [info]);
    var (g, id) := AddEdge(net0.graph, e);
    assert id == |net.edgesInfo| - 1;
    AddEdgeAppends(net0.graph, e);
    LabelsSnoc(net0, g, e, info);
    net := net.(graph := g);
  }

  /** The state of the innermost loop of `FillGraphWithBuses` once the rides
      from the `i`-th stop up to the `j`-th have been added: `total` is the
      road distance covered so far and the new edges are that prefix of
      `BusRow`. */
  ghost predicate RidesUpTo(net0: Network, net: Network, settings: RoutingSettings, stops: Dict<Stop>, bus: Bus, i: nat, j: nat, total: int)
    requires settings.busSpeed > 0.0 && RouteServed(stops, bus.stops) && IdsCover(net0.stopVertexIds, stops)
    requires i <= j < |bus.stops| && i + 1 < |bus.stops| && Parallel(net0)
  {
    && total == RoadDistance(stops, bus.stops, i, j)
    && Valid(net.graph) && Parallel(net)
    && net.stopVertexIds == net0.stopVertexIds && net.verticesInfo == net0.verticesInfo
    && VertexCount(net.graph) == VertexCount(net0.graph)
    && LabelsOf(net) == LabelsOf(net0) + BusRow(net0.stopVertexIds, stops, settings, bus, i)[..j - i]
  }

  /** The innermost loop of `FillGraphWithBuses` (transport_router.cpp:77-105):
      the rides from the `i`-th stop of `bus` to every later stop, the
      distance accumulated leg by leg. */
  method AddRidesFrom(net0: Network, settings: RoutingSettings, stops: Dict<Stop>, bus: Bus, i: nat) returns (net: Network)
    requires Valid(net0.graph) && Parallel(net0) && IdsWired(net0) && IdsCover(net0.stopVertexIds, stops)
    requires settings.busSpeed > 0.0 && RouteServed(stops, bus.stops) && i + 1 < |bus.stops|
    ensures Valid(net.graph) && Parallel(net) && IdsWired(net)
    ensures net.stopVertexIds == net0.stopVertexIds && net.verticesInfo == net0.verticesInfo
    ensures VertexCount(net.graph) == VertexCount(net0.graph)
    ensures LabelsOf(net) == LabelsOf(net0) + BusRow(net0.stopVertexIds, stops, settings, bus, i)
  {
    var totalDistance := 0;
    net := net0;
    var j := i;
    assert BusRow(net0.stopVertexIds, stops, settings, bus, i)[..0] == [];
    while j + 1 < |bus.stops|
      invariant i <= j < |bus.stops|
      invariant RidesUpTo(net0, net, settings, stops, bus, i, j, totalDistance)
    {
      net, totalDistance := NextRide(net0, net, settings, stops, bus, i, j, totalDistance);
      j := j + 1;
    }
    RidesDone(net0, net, settings, stops, bus, i, j, totalDistance);
  }

  /** One turn of the innermost loop keeps its state. */
  method NextRide(net0: Network, net1: Network, settings: RoutingSettings, stops: Dict<Stop>, bus: Bus, i: nat, j: nat, before: int)
    returns (net: Network, total: int)
    requires Valid(net0.graph) && Parallel(net0) && IdsWired(net0) && IdsCover(net0.stopVertexIds, stops)
    requires settings.busSpeed > 0.0 && RouteServed(stops, bus.stops) && i <= j && j + 1 < |bus.stops|
    requires RidesUpTo(net0, net1, settings, stops, bus, i, j, before)
    ensures RidesUpTo(net0, net, settings, stops, bus, i, j + 1, total)
  {
    WiredKept(net0, net1);
    net, total := AddRideTo(net1, settings, stops, bus, i, j + 1, before);
    RowSnoc(net0.stopVertexIds, stops, settings, bus, i, j);
    ghost var row := BusRow(net0.stopVertexIds, stops, settings, bus, i);
    ghost var pair := BusPair(net0.stopVertexIds, stops, settings, bus, i, j + 1);
    SeqUtils.SnocStep(LabelsOf(net0), LabelsOf(net1), LabelsOf(net), row[..j - i], pair, row[..j + 1 - i]);
  }

  /** The loop's state at its last stop is the postcondition of
      `AddRidesFrom`. */
  lemma RidesDone(net0: Network, net: Network, settings: RoutingSettings, stops: Dict<Stop>, bus: Bus, i: nat, j: nat, total: int)
    requires Valid(net0.graph) && Parallel(net0) && IdsWired(net0) && IdsCover(net0.stopVertexIds, stops)
    requires settings.busSpeed > 0.0 && RouteServed(stops, bus.stops) && i + 1 < |bus.stops| && j + 1 == |bus.stops|
    requires RidesUpTo(net0, net, settings, stops, bus, i, j, total)
    ensures Valid(net.graph) && Parallel(net) && IdsWired(net)
    ensures net.stopVertexIds == net0.stopVertexIds && net.verticesInfo == net0.verticesInfo
    ensures VertexCount(net.graph) == VertexCount(net0.graph)
    ensures LabelsOf(net) == LabelsOf(net0) + BusRow(net0.stopVertexIds, stops, settings, bus, i)
  {
    var row := BusRow(net0.stopVertexIds, stops, settings, bus, i);
    assert row[..j - i] == row;
    WiredKept(net0, net);
  }

  /** Adding edges keeps the stop slots wired: `IdsWired` reads only the
      slot tables and the vertex count. */
  lemma WiredKept(net0: Network, net: Network)
    requires IdsWired(net0)
    requires net.stopVertexIds == net0.stopVertexIds && net.verticesInfo == net0.verticesInfo
    requires VertexCount(net.graph) == VertexCount(net0.graph)
    ensures IdsWired(net)
  {
  }

  /** One iteration of the innermost loop (transport_router.cpp:93-104): the
      distance grows by the leg into the `j`-th stop, and the ride from the
      `i`-th stop's `in` vertex to the `j`-th stop's `out` vertex is added,
      taking that distance at the bus's speed. */
  method AddRideTo(net0: Network, settings: RoutingSettings, stops: Dict<Stop>, bus: Bus, i: nat, j: nat, before: int)
    returns (net: Network, total: int)
    requires Valid(net0.graph) && Parallel(net0) && IdsWired(net0) && IdsCover(net0.stopVertexIds, stops)
    requires settings.busSpeed > 0.0 && RouteServed(stops, bus.stops) && i < j < |bus.stops|
    requires before == RoadDistance(stops, bus.stops, i, j - 1)
    ensures total == RoadDistance(stops, bus.stops, i, j)
    ensures Valid(net.graph) && Parallel(net) && IdsWired(net)
    ensures net.stopVertexIds == net0.stopVertexIds && net.verticesInfo == net0.verticesInfo
    ensures VertexCount(net.graph) == VertexCount(net0.graph)
    ensures LabelsOf(net) == LabelsOf(net0) + [BusPair(net0.stopVertexIds, stops, settings, bus, i, j)]
  {
    var ids := net0.stopVertexIds;
    total := before + ComputeStopsDistance(stops.values[bus.stops[j - 1]], stops.values[bus.stops[j]]).value;
    assert bus.stops[i] in ids && bus.stops[j] in ids;
    var e := Edge(ids[bus.stops[i]].inVertex, ids[bus.stops[j]].outVertex, BusEdgeWeight(settings, total));
    net := AddRide(net0, e, BusEdge(bus.name, j - i));
  }

  lemma RowSnoc(ids: map<string, StopVertexIds>, stops: Dict<Stop>, settings: RoutingSettings, bus: Bus, i: nat, j: nat)
    requires settings.busSpeed > 0.0 && RouteServed(stops, bus.stops) && IdsCover(ids, stops)
    requires i <= j && j + 1 < |bus.stops|
    ensures BusRow(ids, stops, settings, bus, i)[..j + 1 - i]
            == BusRow(ids, stops, settings, bus, i)[..j - i] + [BusPair(ids, stops, settings, bus, i, j + 1)]
  {
    var row := BusRow(ids, stops, settings, bus, i);
    assert row[j - i] == BusPair(ids, stops, settings, bus, i, j + 1);
  }

  /** The body of `FillGraphWithBuses`'s loop for one bus
      (transport_router.cpp:70-106): nothing for a bus with at most one
      stop, otherwise the rides from each stop but the last. */
  method AddBusRides(net0: Network, settings: RoutingSettings, stops: Dict<Stop>, bus: Bus) returns (net: Network)
    requires Valid(net0.graph) && Parallel(net0) && IdsWired(net0) && IdsCover(net0.stopVertexIds, stops)
    requires settings.busSpeed > 0.0 && RouteServed(stops, bus.stops)
    ensures Valid(net.graph) && Parallel(net) && IdsWired(net)
    ensures net.stopVertexIds == net0.stopVertexIds && net.verticesInfo == net0.verticesInfo
    ensures VertexCount(net.graph) == VertexCount(net0.graph)
    ensures LabelsOf(net) == LabelsOf(net0) + BusRows(net0.stopVertexIds, stops, settings, bus, 0)
  {
    net := net0;
    var stopCount := |bus.stops|;
    if stopCount <= 1 {
      return;
    }
    ghost var ids := net0.stopVertexIds;
    var i := 0;
    while i + 1 < stopCount
      invariant i <= stopCount - 1
      invariant Valid(net.graph) && Parallel(net) && IdsWired(net)
      invariant net.stopVertexIds == ids && net.verticesInfo == net0.verticesInfo
      invariant VertexCount(net.graph) == VertexCount(net0.graph)
      invariant LabelsOf(net) + BusRows(ids, stops, settings, bus, i) == LabelsOf(net0) + BusRows(ids, stops, settings, bus, 0)
    {
      var before := net;
      net := AddRidesFrom(net, settings, stops, bus, i);
      assert LabelsOf(net) + BusRows(ids, stops, settings, bus, i + 1)
          == LabelsOf(before) + BusRows(ids, stops, settings, bus, i);
      i := i + 1;
    }
  }

  /** The state of `FillGraphWithBuses`'s loop after the first `b` buses:
      the tables are untouched and the new edges are those buses' rides. */
  ghost predicate BusesUpTo(net0: Network, net: Network, settings: RoutingSettings, stops: Dict<Stop>, buses: Dict<Bus>, b: nat)
    requires settings.busSpeed > 0.0 && IdsCover(net0.stopVertexIds, stops) && DictWellFormed(buses) && BusesServed(stops, buses)
    requires b <= |buses.keys| && Parallel(net0)
  {
    && Valid(net.graph) && Parallel(net)
    && net.stopVertexIds == net0.stopVertexIds && net.verticesInfo == net0.verticesInfo
    && VertexCount(net.graph) == VertexCount(net0.graph)
    && LabelsOf(net) == LabelsOf(net0) + AllBusEdges(net0.stopVertexIds, stops, settings, buses, b)
  }

  /** `FillGraphWithBuses` (transport_router.cpp:64-108): the rides of every
      bus, bus after bus in the dictionary's iteration order. */
  method FillGraphWithBuses(net0: Network, settings: RoutingSettings, stops: Dict<Stop>, buses: Dict<Bus>) returns (net: Network)
    requires Valid(net0.graph) && Parallel(net0) && IdsWired(net0) && IdsCover(net0.stopVertexIds, stops)
    requires settings.busSpeed > 0.0 && DictWellFormed(buses) && BusesServed(stops, buses)
    ensures Valid(net.graph) && Parallel(net) && IdsWired(net)
    ensures net.stopVertexIds == net0.stopVertexIds && net.verticesInfo == net0.verticesInfo
    ensures VertexCount(net.graph) == VertexCount(net0.graph)
    ensures LabelsOf(net) == LabelsOf(net0) + AllBusEdges(net0.stopVertexIds, stops, settings, buses, |buses.keys|)
  {
    net := net0;
    var b := 0;
    assert LabelsOf(net0) + [] == LabelsOf(net0);
    while b < |buses.keys|
      invariant b <= |buses.keys|
      invariant BusesUpTo(net0, net, settings, stops, buses, b)
    {
      net := NextBus(net0, net, settings, stops, buses, b);
      b := b + 1;
    }
    WiredKept(net0, net);
  }

  /** One turn of `FillGraphWithBuses`'s loop (transport_router.cpp:70-106)
      keeps its state. */
  method NextBus(net0: Network, net1: Network, settings: RoutingSettings, stops: Dict<Stop>, buses: Dict<Bus>, b: nat)
    returns (net: Network)
    requires Valid(net0.graph) && Parallel(net0) && IdsWired(net0) && IdsCover(net0.stopVertexIds, stops)
    requires settings.busSpeed > 0.0 && DictWellFormed(buses) && BusesServed(stops, buses) && b < |buses.keys|
    requires BusesUpTo(net0, net1, settings, stops, buses, b)
    ensures BusesUpTo(net0, net, settings, stops, buses, b + 1)
  {
    WiredKept(net0, net1);
    assert buses.keys[b] in buses.values;
    var bus := buses.values[buses.keys[b]];
    net := AddBusRides(net1, settings, stops, bus);
    ghost var ids := net0.stopVertexIds;
    ghost var done := AllBusEdges(ids, stops, settings, buses, b);
    ghost var rows := BusRows(ids, stops, settings, bus, 0);
    SeqUtils.AppendAssoc(LabelsOf(net0), done, rows);
    assert AllBusEdges(ids, stops, settings, buses, b + 1) == done + rows;
    assert Valid(net.graph) && Parallel(net);
    assert net.stopVertexIds == net0.stopVertexIds && net.verticesInfo == net0.verticesInfo;
    assert VertexCount(net.graph) == VertexCount(net0.graph);
    assert LabelsOf(net) == LabelsOf(net0) + AllBusEdges(ids, stops, settings, buses, b + 1);
  }

  /** What every transport router keeps: the router was built over exactly
      this graph, the labels run parallel to it and say what each edge is. */
  ghost predicate Wired(tr: TransportRouter) {
    && Routers.Ready(tr.router) && tr.router.graph == tr.net.graph
    && Parallel(tr.net)
    && |tr.net.verticesInfo| == VertexCount(tr.net.graph)
    && IdsWired(tr.net)
    && WellLabelled(LabelsOf(tr.net), VertexCount(tr.net.graph), tr.settings)
  }

  /** The constructor (transport_router.cpp:12-28): two vertices per stop,
      the wait edges, then the rides of every bus, then the router over the
      finished graph. */
  method NewTransportRouter(stops: Dict<Stop>, buses: Dict<Bus>, settings: RoutingSettings) returns (tr: TransportRouter)
    requires StopsDictWellFormed(stops) && DictWellFormed(buses) && SettingsValid(settings)
    requires BusesServed(stops, buses)
    ensures Wired(tr) && tr.settings == settings
    ensures SlotsAssigned(tr.net, stops.keys) && IdsCover(tr.net.stopVertexIds, stops)
    ensures LabelsOf(tr.net) == WaitEdges(settings, |stops.keys|)
                                + AllBusEdges(tr.net.stopVertexIds, stops, settings, buses, |buses.keys|)
    ensures tr.router.nextRouteId == 0 && tr.router.cache == map[]
    ensures Routers.TableMeaning(tr.net.graph, tr.router.table)
  {
    var net := FillGraphWithStops(settings, stops);
    var waits := LabelsOf(net);
    net := FillGraphWithBuses(net, settings, stops, buses);
    AllBusEdgesWellLabelled(net, stops, settings, buses, |buses.keys|);
    WellLabelledConcat(waits, AllBusEdges(net.stopVertexIds, stops, settings, buses, |buses.keys|), VertexCount(net.graph), settings);
    LabelledRoutable(net, settings);
    var router := Routers.NewRouter(net.graph);
    tr := TransportRouter(settings, net, router);
  }

  // ------------------------------------------------------------ itineraries

  /** The itinerary step an edge stands for: a ride with its bus and span,
      or a wait at the stop owning the edge's tail. */
  function ItemOf(net: Network, e: EdgeId): RouteItem
    requires Parallel(net) && Valid(net.graph) && e < |net.graph.edges|
    requires |net.verticesInfo| == VertexCount(net.graph)
  {
    match net.edgesInfo[e]
    case BusEdge(name, span) => BusItem(name, net.graph.edges[e].weight, span)
    case WaitEdge => WaitItem(net.verticesInfo[net.graph.edges[e].from], net.graph.edges[e].weight)
  }

  function Itinerary(net: Network, p: seq<EdgeId>): seq<RouteItem>
    requires Parallel(net) && Valid(net.graph) && ValidIds(net.graph.edges, p)
    requires |net.verticesInfo| == VertexCount(net.graph)
  {
    seq(|p|, m requires 0 <= m < |p| => ItemOf(net, p[m]))
  }

  function ItemsTime(items: seq<RouteItem>): real {
    if |items| == 0 then 0.0 else ItemsTime(items[..|items| - 1]) + items[|items| - 1].time
  }

  /** Waits and rides alternate, starting with a wait and ending with a
      ride, and every wait lasts the configured wait time. */
  predicate Alternates(items: seq<RouteItem>, settings: RoutingSettings) {
    && |items| % 2 == 0
    && forall m :: 0 <= m < |items| ==>
         && (items[m].WaitItem? <==> m % 2 == 0)
         && (items[m].WaitItem? ==> items[m].time == settings.busWaitTime as real)
  }

  /** The itinerary of a walk takes as long as the walk weighs. */
  lemma {:induction false} ItineraryTime(net: Network, p: seq<EdgeId>)
    requires Parallel(net) && Valid(net.graph) && ValidIds(net.graph.edges, p)
    requires |net.verticesInfo| == VertexCount(net.graph)
    ensures ItemsTime(Itinerary(net, p)) == PathWeight(net.graph.edges, p)
    decreases |p|
  {
    if |p| > 0 {
      var q := p[..|p| - 1];
      ItineraryTime(net, q);
      assert Itinerary(net, p)[..|p| - 1] == Itinerary(net, q);
    }
  }

  /** On a walk from an `out` vertex, edges alternate wait, ride, wait, ...;
      the walk ends at an `out` vertex exactly when it has even length. */
  lemma {:induction false} WalkAlternates(net: Network, settings: RoutingSettings, p: seq<EdgeId>, s: VertexId, t: VertexId)
    requires Parallel(net) && WellLabelled(LabelsOf(net), VertexCount(net.graph), settings)
    requires IsPath(net.graph.edges, p, s, t) && s % 2 == 1
    ensures forall m :: 0 <= m < |p| ==> (net.edgesInfo[p[m]].WaitEdge? <==> m % 2 == 0)
    ensures t % 2 == 1 <==> |p| % 2 == 0
    decreases |p|
  {
    if |p| > 0 {
      var q := p[..|p| - 1];
      var e := p[|p| - 1];
      var u := net.graph.edges[e].from;
      assert IsPath(net.graph.edges, q, s, u) by {
        if |q| > 0 {
          assert net.graph.edges[q[|q| - 1]].to == u;
        }
      }
      WalkAlternates(net, settings, q, s, u);
      assert LabelOk(LabelsOf(net)[e], VertexCount(net.graph), settings);
      forall m | 0 <= m < |p| ensures net.edgesInfo[p[m]].WaitEdge? <==> m % 2 == 0 {
        if m < |q| {
          assert p[m] == q[m];
        }
      }
    }
  }

  lemma ItineraryAlternates(net: Network, settings: RoutingSettings, p: seq<EdgeId>, s: VertexId, t: VertexId)
    requires Valid(net.graph) && Parallel(net) && |net.verticesInfo| == VertexCount(net.graph)
    requires WellLabelled(LabelsOf(net), VertexCount(net.graph), settings)
    requires IsPath(net.graph.edges, p, s, t) && s % 2 == 1 && t % 2 == 1
    ensures Alternates(Itinerary(net, p), settings)
  {
    WalkAlternates(net, settings, p, s, t);
    var items := Itinerary(net, p);
    forall m | 0 <= m < |items|
      ensures && (items[m].WaitItem? <==> m % 2 == 0)
              && (items[m].WaitItem? ==> items[m].time == settings.busWaitTime as real)
    {
      assert LabelOk(LabelsOf(net)[p[m]], VertexCount(net.graph), settings);
    }
  }

  /** What a route query between two known stops answers: `None` exactly
      when no walk connects their `out` vertices; otherwise the itinerary of
      a lightest such walk `path`, which takes as long as the walk weighs,
      alternates waits and rides, and begins by waiting at the departure
      stop. */
  ghost predicate AnswersQuery(tr: TransportRouter, stopFrom: string, stopTo: string, info: Option<RouteInfo>, path: seq<EdgeId>)
    requires Wired(tr) && stopFrom in tr.net.stopVertexIds && stopTo in tr.net.stopVertexIds
  {
    var s, t := tr.net.stopVertexIds[stopFrom].outVertex, tr.net.stopVertexIds[stopTo].outVertex;
    && (info.None? <==> !Reachable(tr.net.graph.edges, s, t))
    && (info.Some? ==>
          && IsShortestPath(tr.net.graph.edges, path, s, t)
          && info.value.totalTime == PathWeight(tr.net.graph.edges, path)
          && info.value.items == Itinerary(tr.net, path)
          && info.value.totalTime == ItemsTime(info.value.items)
          && Alternates(info.value.items, tr.settings)
          && (info.value.items != [] ==>
                info.value.items[0] == WaitItem(stopFrom, tr.settings.busWaitTime as real)))
  }

  /** `FindRoute` (transport_router.cpp:110-144): a route between the `out`
      vertices of the two stops, translated edge by edge into an itinerary,
      whose handle is then dropped again, so the router's cache is as before.
      An unknown stop is the caller's fault. */
  method FindRoute(tr: TransportRouter, stopFrom: string, stopTo: string)
    returns (info: Option<RouteInfo>, tr': TransportRouter, ghost path: seq<EdgeId>)
    requires Wired(tr) && stopFrom in tr.net.stopVertexIds && stopTo in tr.net.stopVertexIds
    ensures Wired(tr') && tr'.settings == tr.settings && tr'.net == tr.net
    ensures tr'.router.cache == tr.router.cache && tr'.router.table == tr.router.table
    ensures info.Some? ==> tr'.router.nextRouteId == tr.router.nextRouteId + 1
    ensures AnswersQuery(tr, stopFrom, stopTo, info, path)
    ensures info.None? ==> tr' == tr
    ensures stopFrom == stopTo ==> info == Some(RouteInfo(0.0, []))
  {
    var net := tr.net;
    var vertexFrom := net.stopVertexIds[stopFrom].outVertex;
    var vertexTo := net.stopVertexIds[stopTo].outVertex;
    var route, r1 := Routers.BuildRoute(tr.router, vertexFrom, vertexTo);
    if route.None? {
      return None, tr, [];
    }
    var id := route.value.id;
    path := r1.cache[id];
    SlotParity(net, stopTo);
    assert IsPath(net.graph.edges, path, vertexFrom, vertexTo);
    var items := TranslateRoute(net, r1, id);
    Routers.BuildThenRemove(tr.router, r1, id, path);
    var r2 := Routers.RemoveRoute(r1, id);
    info := Some(RouteInfo(route.value.weight, items));
    tr' := tr.(router := r2);
    ItineraryFacts(tr, path, stopFrom, vertexTo);
  }

  /** The loop of `FindRoute` (transport_router.cpp:122-139): every edge of
      the cached route becomes the itinerary step it stands for. */
  method TranslateRoute(net: Network, r: Routers.Router, id: Routers.RouteId) returns (items: seq<RouteItem>)
    requires Parallel(net) && Valid(net.graph) && |net.verticesInfo| == VertexCount(net.graph)
    requires r.graph == net.graph && Routers.CacheWellFormed(r) && id in r.cache
    ensures ValidIds(net.graph.edges, r.cache[id])
    ensures items == Itinerary(net, r.cache[id])
  {
    ghost var path := r.cache[id];
    items := [];
    var edgeIdx := 0;
    while edgeIdx < |r.cache[id]|
      invariant edgeIdx <= |path| && |items| == edgeIdx
      invariant forall m :: 0 <= m < edgeIdx ==> items[m] == ItemOf(net, path[m])
    {
      var edgeId := Routers.GetRouteEdge(r, id, edgeIdx);
      var item := TranslateEdge(net, edgeId);
      items := items + [item];
      edgeIdx := edgeIdx + 1;
    }
  }

  /** The body of `FindRoute`'s loop (transport_router.cpp:126-139) for one
      edge: a ride keeps its bus and span, a wait names the stop owning the
      edge's tail; either way the item lasts the edge's weight. */
  method TranslateEdge(net: Network, edgeId: EdgeId) returns (item: RouteItem)
    requires Parallel(net) && Valid(net.graph) && |net.verticesInfo| == VertexCount(net.graph)
    requires edgeId < |net.graph.edges|
    ensures item.time == net.graph.edges[edgeId].weight
    ensures item.BusItem? <==> net.edgesInfo[edgeId].BusEdge?
    ensures item.BusItem? ==> item.busName == net.edgesInfo[edgeId].busName && item.spanCount == net.edgesInfo[edgeId].spanCount
    ensures item.WaitItem? ==> item.stopName == net.verticesInfo[net.graph.edges[edgeId].from]
  {
    var edge := GetEdge(net.graph, edgeId);
    item := match net.edgesInfo[edgeId]
      case BusEdge(name, span) => BusItem(name, edge.weight, span)
      case WaitEdge => WaitItem(net.verticesInfo[edge.from], edge.weight);
  }

  /** What the itinerary of a walk between two stops' `out` vertices
      promises: its time is the walk's weight, waits and rides alternate,
      and it opens with the wait at the departure stop. */
  lemma ItineraryFacts(tr: TransportRouter, path: seq<EdgeId>, stopFrom: string, t: VertexId)
    requires Wired(tr) && stopFrom in tr.net.stopVertexIds && t % 2 == 1
    requires IsPath(tr.net.graph.edges, path, tr.net.stopVertexIds[stopFrom].outVertex, t)
    ensures ItemsTime(Itinerary(tr.net, path)) == PathWeight(tr.net.graph.edges, path)
    ensures Alternates(Itinerary(tr.net, path), tr.settings)
    ensures path != [] ==> Itinerary(tr.net, path)[0] == WaitItem(stopFrom, tr.settings.busWaitTime as real)
  {
    var net := tr.net;
    var s := net.stopVertexIds[stopFrom].outVertex;
    ItineraryTime(net, path);
    ItineraryAlternates(net, tr.settings, path, s, t);
    if path != [] {
      assert LabelOk(LabelsOf(net)[path[0]], VertexCount(net.graph), tr.settings);
    }
  }
}

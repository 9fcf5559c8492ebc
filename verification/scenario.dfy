/** A worked example through the whole model: stops A, B and C, bus "1"
    driving A -> B -> C as a round trip, 1000 m from A to B and 2000 m from
    B to C, a 5-minute wait and a speed of 30 km/h.  The fastest way from A
    to C waits 5 minutes at A and rides bus "1" two spans in 6 minutes. */
module Scenario {
  import opened Wrappers
  import opened Graphs
  import opened Paths
  import opened Parser
  import opened TransportRouting
  import opened TransportRegisters

  const StopA: Stop := Stop("A", map["B" := 1000])
  const StopB: Stop := Stop("B", map["C" := 2000])
  const StopC: Stop := Stop("C", map[])
  const Bus1: Bus := Bus("1", ["A", "B", "C"])
  const Settings: RoutingSettings := RoutingSettings(5, 30.0)

  /** The graph the constructor builds, stop `m` of the order A, B, C
      owning vertices `2m` and `2m + 1`: three waits, then the rides A-B,
      A-C and B-C. */
  const Edges: seq<Edge> := [
    Edge(1, 0, 5.0), Edge(3, 2, 5.0), Edge(5, 4, 5.0),
    Edge(0, 3, 2.0), Edge(0, 5, 6.0), Edge(2, 5, 4.0)]

  const Labels: seq<Labelled> := [
    Labelled(Edges[0], WaitEdge), Labelled(Edges[1], WaitEdge), Labelled(Edges[2], WaitEdge),
    Labelled(Edges[3], BusEdge("1", 1)), Labelled(Edges[4], BusEdge("1", 2)), Labelled(Edges[5], BusEdge("1", 1))]

  const Ids: map<string, StopVertexIds> :=
    map["A" := StopVertexIds(0, 1), "B" := StopVertexIds(2, 3), "C" := StopVertexIds(4, 5)]

  /** A walk that does not stay put continues from the end of its first edge. */
  lemma PathTail(edges: seq<Edge>, p: seq<EdgeId>, s: VertexId, t: VertexId)
    requires IsPath(edges, p, s, t) && |p| > 0
    ensures edges[p[0]].from == s && IsPath(edges, p[1..], edges[p[0]].to, t)
  {
  }

  lemma PathsFrom5(p: seq<EdgeId>)
    requires IsPath(Edges, p, 5, 5)
    ensures p == []
  {
    if |p| > 0 {
      PathTail(Edges, p, 5, 5);
    }
  }

  lemma PathsFrom2(p: seq<EdgeId>)
    requires IsPath(Edges, p, 2, 5)
    ensures p == [5]
  {
    PathTail(Edges, p, 2, 5);
    assert p[0] == 5;
    PathsFrom5(p[1..]);
    assert p == [p[0]] + p[1..];
  }

  lemma PathsFrom3(p: seq<EdgeId>)
    requires IsPath(Edges, p, 3, 5)
    ensures p == [1, 5]
  {
    PathTail(Edges, p, 3, 5);
    assert p[0] == 1;
    PathsFrom2(p[1..]);
    assert p == [p[0]] + p[1..];
  }

  lemma PathsFrom0(p: seq<EdgeId>)
    requires IsPath(Edges, p, 0, 5)
    ensures p == [4] || p == [3, 1, 5]
  {
    PathTail(Edges, p, 0, 5);
    assert p == [p[0]] + p[1..];
    if p[0] == 3 {
      PathsFrom3(p[1..]);
    } else {
      assert p[0] == 4;
      PathsFrom5(p[1..]);
    }
  }

  /** From A's `out` vertex to C's there are exactly two walks: wait and
      ride straight to C, or wait, ride to B, wait again and ride on. */
  lemma {:induction false} PathsFromAToC(p: seq<EdgeId>)
    requires IsPath(Edges, p, 1, 5)
    ensures p == [0, 4] || p == [0, 3, 1, 5]
  {
    PathTail(Edges, p, 1, 5);
    assert p[0] == 0;
    PathsFrom0(p[1..]);
    assert p == [p[0]] + p[1..];
  }

  /** The direct ride is the only lightest walk: 11 minutes against 16. */
  lemma ShortestFromAToC(p: seq<EdgeId>)
    requires IsShortestPath(Edges, p, 1, 5)
    ensures p == [0, 4] && PathWeight(Edges, p) == 11.0
  {
    assert IsPath(Edges, [0, 4], 1, 5);
    assert PathWeight(Edges, [0, 4]) == 11.0 by {
      assert [0, 4][..1] == [0];
      assert [0][..0] == [];
    }
    assert PathWeight(Edges, [0, 3, 1, 5]) == 16.0 by {
      assert [0, 3, 1, 5][..3] == [0, 3, 1];
      assert [0, 3, 1][..2] == [0, 3];
      assert [0, 3][..1] == [0];
      assert [0][..0] == [];
    }
    PathsFromAToC(p);
  }

  const Data: seq<InputQuery> := [BusQuery(Bus1), StopQuery(StopA), StopQuery(StopB), StopQuery(StopC)]

  const StopValues: map<string, Stop> := map["A" := StopA, "B" := StopB, "C" := StopC]

  lemma DataNames()
    ensures StopNames(Data) == {"A", "B", "C"} && BusNames(Data) == {"1"}
  {
    assert StopQuery(StopA) in Data && StopQuery(StopB) in Data && StopQuery(StopC) in Data;
    assert BusQuery(Bus1) in Data;
  }

  lemma LegsOfData()
    ensures LegServed(Data, "A", "B") && LegServed(Data, "B", "C")
  {
  }

  /** The records meet everything the constructor demands of them. */
  lemma DataIsServed()
    ensures DataServed(Data)
    ensures OrderOf(["A", "B", "C"], StopNames(Data)) && OrderOf(["1"], BusNames(Data))
  {
    Bus1Served();
    forall q | q in Data && q.BusQuery? ensures BusServed(Data, q.bus) {
      assert q == Data[0];
    }
    OrdersOfData();
  }

  lemma Bus1Served()
    ensures BusServed(Data, Bus1)
  {
    DataNames();
    LegsOfData();
    forall a | 0 <= a < |Bus1.stops| - 1 ensures LegServed(Data, Bus1.stops[a], Bus1.stops[a + 1]) {
      assert a == 0 || a == 1;
    }
  }

  lemma OrdersOfData()
    ensures OrderOf(["A", "B", "C"], StopNames(Data)) && OrderOf(["1"], BusNames(Data))
  {
    DataNames();
    assert (set k | k in ["A", "B", "C"]) == {"A", "B", "C"};
  }

  /** With one record per name, the dictionaries hold exactly those records. */
  lemma DictsOfData(stops: Dict<Stop>, buses: Dict<Bus>)
    requires StopsFrom(Data, stops)
    requires buses.values.Keys == BusNames(Data)
    requires forall k :: k in buses.values ==> BusQuery(buses.values[k]) in Data && buses.values[k].name == k
    ensures stops.values == StopValues && buses.values == map["1" := Bus1]
  {
    DataNames();
    StopsOfData(stops);
    assert BusQuery(buses.values["1"]) in Data;
  }

  lemma StopsOfData(stops: Dict<Stop>)
    requires StopsFrom(Data, stops) && stops.values.Keys == {"A", "B", "C"}
    ensures stops.values == StopValues
  {
    assert StopQuery(stops.values["A"]) in Data;
    assert StopQuery(stops.values["B"]) in Data;
    assert StopQuery(stops.values["C"]) in Data;
  }

  /** The constructor's edge list for these records. */
  lemma ScenarioLabels(stops: Dict<Stop>, buses: Dict<Bus>)
    requires stops.values == StopValues && buses == Dict(["1"], map["1" := Bus1])
    requires IdsCover(Ids, stops) && BusesServed(stops, buses)
    ensures WaitEdges(Settings, 3) + AllBusEdges(Ids, stops, Settings, buses, 1) == Labels
  {
    assert RouteServed(stops, Bus1.stops);
    RowFromA(stops);
    RowFromB(stops);
    assert AllBusEdges(Ids, stops, Settings, buses, 1) == BusRows(Ids, stops, Settings, Bus1, 0);
    assert BusRows(Ids, stops, Settings, Bus1, 2) == [];
    assert BusRows(Ids, stops, Settings, Bus1, 0)
        == BusRow(Ids, stops, Settings, Bus1, 0) + BusRow(Ids, stops, Settings, Bus1, 1);
  }

  /** The rides from A: two minutes to B, six to C. */
  lemma RowFromA(stops: Dict<Stop>)
    requires stops.values == StopValues && IdsCover(Ids, stops) && RouteServed(stops, Bus1.stops)
    ensures BusRow(Ids, stops, Settings, Bus1, 0) == [Labels[3], Labels[4]]
  {
    assert RoadDistance(stops, Bus1.stops, 0, 1) == 1000;
    assert RoadDistance(stops, Bus1.stops, 0, 2) == 3000;
  }

  /** The ride from B: four minutes to C. */
  lemma RowFromB(stops: Dict<Stop>)
    requires stops.values == StopValues && IdsCover(Ids, stops) && RouteServed(stops, Bus1.stops)
    ensures BusRow(Ids, stops, Settings, Bus1, 1) == [Labels[5]]
  {
    assert RoadDistance(stops, Bus1.stops, 1, 2) == 2000;
  }

  lemma SlotsOfOrder(net: Network)
    requires SlotsAssigned(net, ["A", "B", "C"])
    ensures net.stopVertexIds == Ids
    ensures |net.verticesInfo| == 6 && net.verticesInfo[1] == "A"
  {
    var order := ["A", "B", "C"];
    forall k ensures k in order <==> k in {"A", "B", "C"} {
      assert k in order <==> k == order[0] || k == order[1] || k == order[2];
    }
    assert (set k | k in order) == {"A", "B", "C"};
    forall m | 0 <= m < 3 ensures net.stopVertexIds[order[m]] == StopVertexIds(2 * m, 2 * m + 1) {
    }
    assert order[0] == "A" && order[1] == "B" && order[2] == "C";
  }

  lemma NetworkOfLabels(net: Network)
    requires Parallel(net) && LabelsOf(net) == Labels
    ensures net.graph.edges == Edges
    ensures net.edgesInfo == [WaitEdge, WaitEdge, WaitEdge, BusEdge("1", 1), BusEdge("1", 2), BusEdge("1", 1)]
  {
    forall m | 0 <= m < 6 ensures net.graph.edges[m] == Edges[m] && net.edgesInfo[m] == Labels[m].info {
      assert LabelsOf(net)[m] == Labels[m];
    }
  }

  /** The router built over the example's records. */
  lemma BuiltNetwork(reg: TransportRegister, stops: Dict<Stop>, buses: Dict<Bus>)
    requires reg.router.settings == Settings && SlotsAssigned(reg.router.net, ["A", "B", "C"])
    requires StopsFrom(Data, stops) && buses.keys == ["1"]
    requires buses.values.Keys == BusNames(Data)
    requires forall k :: k in buses.values ==> BusQuery(buses.values[k]) in Data && buses.values[k].name == k
    requires IdsCover(reg.router.net.stopVertexIds, stops) && BusesServed(stops, buses) && DictWellFormed(buses)
    requires Parallel(reg.router.net)
    requires LabelsOf(reg.router.net) == WaitEdges(Settings, 3)
                                        + AllBusEdges(reg.router.net.stopVertexIds, stops, Settings, buses, 1)
    ensures reg.router.net.stopVertexIds == Ids
    ensures |reg.router.net.verticesInfo| == 6 && reg.router.net.verticesInfo[1] == "A"
    ensures reg.router.net.graph.edges == Edges
    ensures reg.router.net.edgesInfo == [WaitEdge, WaitEdge, WaitEdge, BusEdge("1", 1), BusEdge("1", 2), BusEdge("1", 1)]
  {
    DataNames();
    DictsOfData(stops, buses);
    SlotsOfOrder(reg.router.net);
    ScenarioLabels(stops, buses);
    NetworkOfLabels(reg.router.net);
  }

  /** The answer of a query from A to C over that network. */
  lemma AnswerFromAToC(tr: TransportRouter, info: Option<RouteInfo>, path: seq<EdgeId>)
    requires Wired(tr) && tr.net.stopVertexIds == Ids && |tr.net.verticesInfo| == 6 && tr.net.verticesInfo[1] == "A"
    requires tr.net.graph.edges == Edges
    requires tr.net.edgesInfo == [WaitEdge, WaitEdge, WaitEdge, BusEdge("1", 1), BusEdge("1", 2), BusEdge("1", 1)]
    requires AnswersQuery(tr, "A", "C", info, path)
    ensures info == Some(RouteInfo(11.0, [WaitItem("A", 5.0), BusItem("1", 6.0, 2)]))
  {
    AnswerOfWalks(tr.net, info, path);
  }

  /** The same, from what the answer says about walks from vertex 1 to
      vertex 5. */
  lemma AnswerOfWalks(net: Network, info: Option<RouteInfo>, path: seq<EdgeId>)
    requires Parallel(net) && Valid(net.graph) && |net.verticesInfo| == VertexCount(net.graph)
    requires |net.verticesInfo| == 6 && net.verticesInfo[1] == "A" && net.graph.edges == Edges
    requires net.edgesInfo == [WaitEdge, WaitEdge, WaitEdge, BusEdge("1", 1), BusEdge("1", 2), BusEdge("1", 1)]
    requires info.None? <==> !Reachable(Edges, 1, 5)
    requires info.Some? ==>
               && IsShortestPath(Edges, path, 1, 5)
               && info.value.totalTime == PathWeight(Edges, path)
               && info.value.items == Itinerary(net, path)
    ensures info == Some(RouteInfo(11.0, [WaitItem("A", 5.0), BusItem("1", 6.0, 2)]))
  {
    DirectWalk();
    ShortestFromAToC(path);
    ItineraryFromAToC(net);
  }

  /** Waiting at A and riding straight on is a walk from A to C. */
  lemma DirectWalk()
    ensures Reachable(Edges, 1, 5) && IsPath(Edges, [0, 4], 1, 5)
  {
    assert IsPath(Edges, [0, 4], 1, 5);
  }

  /** The direct walk from A to C reads as a wait at A and a two-span ride. */
  lemma ItineraryFromAToC(net: Network)
    requires Parallel(net) && Valid(net.graph) && |net.verticesInfo| == VertexCount(net.graph)
    requires |net.verticesInfo| == 6 && net.verticesInfo[1] == "A" && net.graph.edges == Edges
    requires net.edgesInfo == [WaitEdge, WaitEdge, WaitEdge, BusEdge("1", 1), BusEdge("1", 2), BusEdge("1", 1)]
    ensures Itinerary(net, [0, 4]) == [WaitItem("A", 5.0), BusItem("1", 6.0, 2)]
  {
    assert Itinerary(net, [0, 4]) == [ItemOf(net, 0), ItemOf(net, 4)];
  }

  /** The whole pipeline on the example: decode the four request nodes,
      build the register over them, and ask for the way from A to C. */
  method RunScenario() returns (info: Option<RouteInfo>)
    ensures info == Some(RouteInfo(11.0, [WaitItem("A", 5.0), BusItem("1", 6.0, 2)]))
  {
    var nodes := [
      Node("Bus", "1", map[], ["A", "B", "C"], true),
      Node("Stop", "A", map["B" := 1000], [], false),
      Node("Stop", "B", map["C" := 2000], [], false),
      Node("Stop", "C", map[], [], false)];
    var data := ReadBusOrStopInfo(nodes);
    assert data == Data;
    DataIsServed();
    var reg, stopsDict, busesDict := NewTransportRegister(data, Settings, ["A", "B", "C"], ["1"]);
    BuiltNetwork(reg, stopsDict, busesDict);
    var reg2; ghost var path;
    info, reg2, path := TransportRegisters.FindRoute(reg, "A", "C");
    AnswerFromAToC(reg.router, info, path);
  }
}

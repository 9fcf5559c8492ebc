/** The input records and the small helpers of parser.h / parser.cpp: the
    expansion of a bus's stop list, the road distance between two stops
    with its fallback direction, and the dispatch of decoded request nodes
    into stop and bus records. */
module Parser {
  import opened Wrappers
  import opened SeqUtils

  /** `BusOrStopInfo::Stop` without its geographic position: the stop's name
      and the road distances (in metres) it records to other stops. */
  datatype Stop = Stop(name: string, distances: map<string, int>)

  /** `BusOrStopInfo::Bus`: the bus's name and its expanded stop list. */
  datatype Bus = Bus(name: string, stops: seq<string>)

  /** `InputQuery`, the variant of the two records. */
  datatype InputQuery = StopQuery(stop: Stop) | BusQuery(bus: Bus)

  /** A request node after JSON decoding: its `type` and `name` and the
      attributes a stop or a bus reads from it.  A node without
      `road_distances` carries the empty map. */
  datatype Node = Node(kind: string, name: string, roadDistances: map<string, int>, stops: seq<string>, isRoundtrip: bool)

  /** `Dict<Object>`, an `unordered_map` from names; `keys` is the order in
      which iteration visits the entries, which the model leaves open. */
  datatype Dict<V> = Dict(keys: seq<string>, values: map<string, V>)

  predicate DictWellFormed<V>(d: Dict<V>) {
    Distinct(d.keys) && d.values.Keys == (set k | k in d.keys)
  }

  /** A stops dictionary is keyed by the stops' own names. */
  predicate StopsDictWellFormed(d: Dict<Stop>) {
    DictWellFormed(d) && forall k :: k in d.values ==> d.values[k].name == k
  }

  // ---------------------------------------------------------------- stops

  /** The stop list a bus actually drives: a round trip as listed, any other
      route out and back again without repeating the far end. */
  function ExpandStops(names: seq<string>, isRoundtrip: bool): seq<string> {
    if isRoundtrip || |names| <= 1 then names else names + Reverse(names[..|names| - 1])
  }

  /** `ParseStops` (parser.cpp:27-43) over the decoded stop names. */
  method ParseStops(stopNodes: seq<string>, isRoundtrip: bool) returns (stops: seq<string>)
    ensures stops == ExpandStops(stopNodes, isRoundtrip)
    ensures |stops| >= |stopNodes| && stops[..|stopNodes|] == stopNodes
    ensures isRoundtrip || |stopNodes| <= 1 ==> stops == stopNodes
    ensures !isRoundtrip && |stopNodes| > 1 ==>
              && |stops| == 2 * |stopNodes| - 1
              && (forall m :: |stopNodes| <= m < |stops| ==> stops[m] == stopNodes[2 * |stopNodes| - 2 - m])
              && IsPalindrome(stops)
              && stops[|stops| - 1] == stopNodes[0]
    ensures forall x :: x in stops <==> x in stopNodes
  {
    stops := stopNodes;
    if isRoundtrip || |stops| <= 1 {
      return;
    }
    var n := |stops|;
    var idx := n - 1;
    while idx > 0
      invariant 0 <= idx <= n - 1
      invariant |stops| == 2 * n - 1 - idx
      invariant stops[..n] == stopNodes
      invariant forall m :: n <= m < |stops| ==> stops[m] == stopNodes[2 * n - 2 - m]
    {
      stops := stops + [stops[idx - 1]];
      idx := idx - 1;
    }
    MirrorIsExpansion(stopNodes, stops);
  }

  /** What `ParseStops`'s loop leaves behind, the list followed by its
      mirror image without the far end, is the expansion of a one-way
      route: it reads the same backwards and names the same stops. */
  lemma MirrorIsExpansion(stopNodes: seq<string>, stops: seq<string>)
    requires |stopNodes| > 1 && |stops| == 2 * |stopNodes| - 1 && stops[..|stopNodes|] == stopNodes
    requires forall m :: |stopNodes| <= m < |stops| ==> stops[m] == stopNodes[2 * |stopNodes| - 2 - m]
    ensures stops == ExpandStops(stopNodes, false)
    ensures IsPalindrome(stops) && stops[|stops| - 1] == stopNodes[0]
    ensures forall x :: x in stops <==> x in stopNodes
  {
    var n := |stopNodes|;
    var e := ExpandStops(stopNodes, false);
    forall m | 0 <= m < |stops| ensures stops[m] == e[m] {
      if m >= n {
        assert e[m] == Reverse(stopNodes[..n - 1])[m - n];
      }
    }
    forall m | 0 <= m < |stops| ensures stops[m] == stops[|stops| - 1 - m] {
      if m < n - 1 {
        assert stops[|stops| - 1 - m] == stopNodes[m];
      }
    }
    forall x | x in stops ensures x in stopNodes {
      var m :| 0 <= m < |stops| && stops[m] == x;
      if m >= n {
        assert stops[m] == stopNodes[2 * n - 2 - m];
      }
    }
  }

  // ---------------------------------------------------------------- distances

  /** `ComputeStopsDistance` (parser.cpp:45-52): the distance `lhs` records to
      `rhs`, else the one `rhs` records to `lhs`; `None` where the source's
      `.at` would throw because neither stop records the other. */
  function ComputeStopsDistance(lhs: Stop, rhs: Stop): (r: Option<int>)
    ensures r.Some? <==> rhs.name in lhs.distances || lhs.name in rhs.distances
    ensures rhs.name in lhs.distances ==> r == Some(lhs.distances[rhs.name])
    ensures r.Some? && rhs.name !in lhs.distances ==> r == Some(rhs.distances[lhs.name])
  {
    if rhs.name in lhs.distances then Some(lhs.distances[rhs.name])
    else if lhs.name in rhs.distances then Some(rhs.distances[lhs.name])
    else None
  }

  /** A distance recorded on one side only is read the same in both
      directions; one recorded on both sides is read from the side the trip
      starts at. */
  lemma DistanceDirections(a: Stop, b: Stop)
    ensures ComputeStopsDistance(a, b).Some? <==> ComputeStopsDistance(b, a).Some?
    ensures (b.name in a.distances) != (a.name in b.distances) ==>
              ComputeStopsDistance(a, b) == ComputeStopsDistance(b, a)
    ensures b.name in a.distances && a.name in b.distances ==>
              && ComputeStopsDistance(a, b) == Some(a.distances[b.name])
              && ComputeStopsDistance(b, a) == Some(b.distances[a.name])
  {
  }

  /** Every stop of `names` is in the dictionary and every consecutive pair
      has a distance: what the source's `.at` calls demand. */
  predicate RoadKnown(stops: Dict<Stop>, names: seq<string>) {
    && (forall a :: 0 <= a < |names| ==> names[a] in stops.values)
    && (forall a :: 0 <= a < |names| - 1 ==>
          ComputeStopsDistance(stops.values[names[a]], stops.values[names[a + 1]]).Some?)
  }

  /** The distance of the leg from `names[a]` to `names[a + 1]`. */
  function Leg(stops: Dict<Stop>, names: seq<string>, a: nat): int
    requires RoadKnown(stops, names) && a + 1 < |names|
  {
    ComputeStopsDistance(stops.values[names[a]], stops.values[names[a + 1]]).value
  }

  /** No leg of the route has a negative distance. */
  predicate LegsNonNegative(stops: Dict<Stop>, names: seq<string>)
    requires RoadKnown(stops, names)
  {
    forall a :: 0 <= a < |names| - 1 ==> Leg(stops, names, a) >= 0
  }

  /** The road distance from position `i` to position `j` of the route, leg
      by leg. */
  function RoadDistance(stops: Dict<Stop>, names: seq<string>, i: nat, j: nat): int
    requires RoadKnown(stops, names) && i <= j < |names|
    decreases j - i
  {
    if i == j then 0 else RoadDistance(stops, names, i, j - 1) + Leg(stops, names, j - 1)
  }

  /** Distances add up along the route. */
  lemma {:induction false} RoadDistanceSplit(stops: Dict<Stop>, names: seq<string>, i: nat, m: nat, j: nat)
    requires RoadKnown(stops, names) && i <= m <= j < |names|
    ensures RoadDistance(stops, names, i, m) + RoadDistance(stops, names, m, j) == RoadDistance(stops, names, i, j)
    decreases j - m
  {
    if m < j {
      RoadDistanceSplit(stops, names, i, m, j - 1);
    }
  }

  lemma {:induction false} RoadDistanceNonNegative(stops: Dict<Stop>, names: seq<string>, i: nat, j: nat)
    requires RoadKnown(stops, names) && LegsNonNegative(stops, names) && i <= j < |names|
    ensures RoadDistance(stops, names, i, j) >= 0
    decreases j - i
  {
    if i < j {
      RoadDistanceNonNegative(stops, names, i, j - 1);
    }
  }

  // ---------------------------------------------------------------- dispatch

  /** `q` is the record decoded from `node`: a bus exactly when the node's
      type is `"Bus"`, carrying the node's name and its expanded stop list,
      and otherwise a stop carrying the node's name and distances. */
  predicate DecodedFrom(node: Node, q: InputQuery) {
    && (q.BusQuery? <==> node.kind == "Bus")
    && (q.BusQuery? ==> q.bus == Bus(node.name, ExpandStops(node.stops, node.isRoundtrip)))
    && (q.StopQuery? ==> q.stop == Stop(node.name, node.roadDistances))
  }

  /** One turn of `ReadBusOrStopInfo`'s loop (parser.cpp:64-72) with
      `Bus::ParseFrom` and `Stop::ParseFrom` (parser.cpp:14-25, 54-58). */
  method ReadOne(node: Node) returns (q: InputQuery)
    ensures DecodedFrom(node, q)
  {
    if node.kind == "Bus" {
      var stops := ParseStops(node.stops, node.isRoundtrip);
      q := BusQuery(Bus(node.name, stops));
    } else {
      q := StopQuery(Stop(node.name, node.roadDistances));
    }
  }

  /** `ReadBusOrStopInfo` (parser.cpp:60-75) over decoded nodes: one record
      per node in order, a bus exactly when the node's type is `"Bus"`. */
  method ReadBusOrStopInfo(nodes: seq<Node>) returns (result: seq<InputQuery>)
    ensures |result| == |nodes|
    ensures forall m :: 0 <= m < |nodes| ==> (result[m].BusQuery? <==> nodes[m].kind == "Bus")
    ensures forall m :: 0 <= m < |nodes| && result[m].BusQuery? ==>
              result[m].bus == Bus(nodes[m].name, ExpandStops(nodes[m].stops, nodes[m].isRoundtrip))
    ensures forall m :: 0 <= m < |nodes| && result[m].StopQuery? ==>
              result[m].stop == Stop(nodes[m].name, nodes[m].roadDistances)
  {
    result := [];
    var m := 0;
    while m < |nodes|
      invariant m <= |nodes| && |result| == m
      invariant forall a :: 0 <= a < m ==> DecodedFrom(nodes[a], result[a])
    {
      var q := ReadOne(nodes[m]);
      result := result + [q];
      m := m + 1;
    }
  }
}

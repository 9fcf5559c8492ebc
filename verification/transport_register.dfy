/** `TransportRegister` (transport_register.h / transport_register.cpp): the
    decoded records split into stops and buses, the per-stop index of the
    buses calling there, the per-bus statistics, and the route queries
    handed on to the transport router. */
module TransportRegisters {
  import opened Wrappers
  import opened SeqUtils
  import opened Parser
  import opened TransportRouting
  import Graphs
  import Paths

  /** `Responses::Stop`: the names of the buses calling at the stop. */
  datatype StopResponse = StopResponse(busNames: set<string>)

  /** `Responses::Bus` without its geographic length. */
  datatype BusResponse = BusResponse(stopCount: nat, uniqueStopCount: nat, roadRouteLength: int)

  /** `stops_`, `buses_` and `router_`. */
  datatype TransportRegister = TransportRegister(
    stops: map<string, StopResponse>,
    buses: map<string, BusResponse>,
    router: TransportRouter)

  // ------------------------------------------------------------ views of the records

  function StopNames(qs: seq<InputQuery>): set<string> {
    set q | q in qs && q.StopQuery? :: q.stop.name
  }

  function BusNames(qs: seq<InputQuery>): set<string> {
    set q | q in qs && q.BusQuery? :: q.bus.name
  }

  /** The names of the bus records of `qs` whose stop list mentions `stop`. */
  function BusesThrough(qs: seq<InputQuery>, stop: string): set<string> {
    set q | q in qs && q.BusQuery? && stop in q.bus.stops :: q.bus.name
  }

  /** Two lists hold the same stop records. */
  ghost predicate SameStops(a: seq<InputQuery>, b: seq<InputQuery>) {
    forall q: InputQuery :: q.StopQuery? ==> (q in a <==> q in b)
  }

  /** Two lists hold the same bus records. */
  ghost predicate SameBuses(a: seq<InputQuery>, b: seq<InputQuery>) {
    forall q: InputQuery :: q.BusQuery? ==> (q in a <==> q in b)
  }

  lemma SameStopsNames(a: seq<InputQuery>, b: seq<InputQuery>)
    requires SameStops(a, b)
    ensures StopNames(a) == StopNames(b)
  {
    forall x | x in StopNames(a) ensures x in StopNames(b) {
      var q :| q in a && q.StopQuery? && q.stop.name == x;
      assert q in b;
    }
    forall x | x in StopNames(b) ensures x in StopNames(a) {
      var q :| q in b && q.StopQuery? && q.stop.name == x;
      assert q in a;
    }
  }

  lemma SameBusesNames(a: seq<InputQuery>, b: seq<InputQuery>)
    requires SameBuses(a, b)
    ensures BusNames(a) == BusNames(b)
    ensures forall s :: BusesThrough(a, s) == BusesThrough(b, s)
  {
    forall x | x in BusNames(a) ensures x in BusNames(b) {
      var q :| q in a && q.BusQuery? && q.bus.name == x;
      assert q in b;
    }
    forall x | x in BusNames(b) ensures x in BusNames(a) {
      var q :| q in b && q.BusQuery? && q.bus.name == x;
      assert q in a;
    }
    forall s ensures BusesThrough(a, s) == BusesThrough(b, s) {
      forall x | x in BusesThrough(a, s) ensures x in BusesThrough(b, s) {
        var q :| q in a && q.BusQuery? && s in q.bus.stops && q.bus.name == x;
        assert q in b;
      }
      forall x | x in BusesThrough(b, s) ensures x in BusesThrough(a, s) {
        var q :| q in b && q.BusQuery? && s in q.bus.stops && q.bus.name == x;
        assert q in a;
      }
    }
  }

  lemma NamesSnoc(qs: seq<InputQuery>, q: InputQuery)
    ensures StopNames(qs + [q]) == StopNames(qs) + (if q.StopQuery? then {q.stop.name} else {})
    ensures BusNames(qs + [q]) == BusNames(qs) + (if q.BusQuery? then {q.bus.name} else {})
  {
    assert forall x :: x in qs + [q] <==> x in qs || x == q;
  }

  lemma ThroughSnoc(qs: seq<InputQuery>, q: InputQuery, s: string)
    ensures BusesThrough(qs + [q], s)
            == BusesThrough(qs, s) + (if q.BusQuery? && s in q.bus.stops then {q.bus.name} else {})
  {
    assert forall x :: x in qs + [q] <==> x in qs || x == q;
  }

  // ------------------------------------------------------------ the partition

  /** `std::partition` (transport_register.cpp:17-19) as libstdc++ runs it on
      a vector: one cursor moves forward over stops, one backward over buses,
      and a bus found ahead of a stop swaps places with it.  Stops end up
      before `split`, buses from `split` on, and no record is lost or
      duplicated. */
  method Partition(data: seq<InputQuery>) returns (parted: seq<InputQuery>, split: nat)
    ensures |parted| == |data| && multiset(parted) == multiset(data)
    ensures split <= |parted|
    ensures forall m :: 0 <= m < split ==> parted[m].StopQuery?
    ensures forall m :: split <= m < |parted| ==> parted[m].BusQuery?
  {
    parted := data;
    var first, last := 0, |data|;
    while true
      invariant first <= last <= |parted| == |data|
      invariant multiset(parted) == multiset(data)
      invariant forall m :: 0 <= m < first ==> parted[m].StopQuery?
      invariant forall m :: last <= m < |parted| ==> parted[m].BusQuery?
      decreases last - first
    {
      while first < last && parted[first].StopQuery?
        invariant first <= last
        invariant forall m :: 0 <= m < first ==> parted[m].StopQuery?
      {
        first := first + 1;
      }
      if first == last {
        return parted, first;
      }
      last := last - 1;
      while first < last && parted[last].BusQuery?
        invariant first <= last
        invariant forall m :: last < m < |parted| ==> parted[m].BusQuery?
      {
        last := last - 1;
      }
      if first == last {
        return parted, first;
      }
      parted := Swap(parted, first, last);
      first := first + 1;
    }
  }

  /** `std::iter_swap` of two positions: the two records trade places and
      nothing else moves. */
  method Swap(s: seq<InputQuery>, a: nat, b: nat) returns (t: seq<InputQuery>)
    requires a < b < |s|
    ensures |t| == |s| && multiset(t) == multiset(s)
    ensures t[a] == s[b] && t[b] == s[a]
    ensures forall m :: 0 <= m < |s| && m != a && m != b ==> t[m] == s[m]
  {
    t := s[a := s[b]][b := s[a]];
  }

  /** After the partition the front holds exactly the input's stop records
      and the back exactly its bus records. */
  lemma PartitionViews(data: seq<InputQuery>, parted: seq<InputQuery>, split: nat)
    requires multiset(parted) == multiset(data) && split <= |parted|
    requires forall m :: 0 <= m < split ==> parted[m].StopQuery?
    requires forall m :: split <= m < |parted| ==> parted[m].BusQuery?
    ensures SameStops(parted[..split], data) && SameBuses(parted[split..], data)
    ensures forall m :: 0 <= m < |parted[..split]| ==> parted[..split][m].StopQuery?
    ensures forall m :: 0 <= m < |parted[split..]| ==> parted[split..][m].BusQuery?
  {
    forall q: InputQuery ensures q in parted <==> q in data {
      assert q in parted <==> q in multiset(parted);
      assert q in data <==> q in multiset(data);
    }
    assert parted == parted[..split] + parted[split..];
    forall q: InputQuery | q.StopQuery? && q in parted ensures q in parted[..split] {
      var m :| 0 <= m < |parted| && parted[m] == q;
      assert m < split;
      assert parted[..split][m] == q;
    }
    forall q: InputQuery | q.BusQuery? && q in parted ensures q in parted[split..] {
      var m :| 0 <= m < |parted| && parted[m] == q;
      assert m >= split;
      assert parted[split..][m - split] == q;
    }
  }

  // ------------------------------------------------------------ road lengths

  /** The route's stops and legs are known wherever the length needs them. */
  predicate LengthDefined(stops: Dict<Stop>, names: seq<string>) {
    |names| <= 1 || RoadKnown(stops, names)
  }

  /** The road length of a whole route, leg by leg from its first stop to
      its last. */
  function RoadLength(stops: Dict<Stop>, names: seq<string>): int
    requires LengthDefined(stops, names)
  {
    if |names| <= 1 then 0 else RoadDistance(stops, names, 0, |names| - 1)
  }

  /** `ComputeRoadRouteLength` (transport_register.cpp:64-72): the sum of the
      consecutive stops' distances, 0 for fewer than two stops. */
  method ComputeRoadRouteLength(names: seq<string>, stops: Dict<Stop>) returns (r: int)
    requires LengthDefined(stops, names)
    ensures |names| <= 1 ==> r == 0
    ensures |names| > 1 ==> r == RoadDistance(stops, names, 0, |names| - 1)
    ensures |names| > 1 && LegsNonNegative(stops, names) ==> r >= 0
  {
    r := 0;
    var i := 1;
    while i < |names|
      invariant 1 <= i && (|names| >= 1 ==> i <= |names|)
      invariant |names| >= 2 ==> r == RoadDistance(stops, names, 0, i - 1)
      invariant |names| < 2 ==> r == 0
    {
      r := r + ComputeStopsDistance(stops.values[names[i - 1]], stops.values[names[i]]).value;
      i := i + 1;
    }
    if |names| > 1 && LegsNonNegative(stops, names) {
      RoadDistanceNonNegative(stops, names, 0, |names| - 1);
    }
  }

  /** The ride of a bus from its first stop to its last covers the bus's
      whole road length. */
  lemma FullRideWeight(ids: map<string, StopVertexIds>, stops: Dict<Stop>, settings: RoutingSettings, bus: Bus)
    requires settings.busSpeed > 0.0 && RouteServed(stops, bus.stops) && IdsCover(ids, stops)
    requires |bus.stops| >= 2
    ensures BusPair(ids, stops, settings, bus, 0, |bus.stops| - 1).edge.weight
            == BusEdgeWeight(settings, RoadLength(stops, bus.stops))
    ensures BusPair(ids, stops, settings, bus, 0, |bus.stops| - 1).info == BusEdge(bus.name, |bus.stops| - 1)
  {
  }

  /** `Responses::Bus` of a bus record (transport_register.cpp:35-37). */
  function BusStats(stops: Dict<Stop>, bus: Bus): BusResponse
    requires LengthDefined(stops, bus.stops)
  {
    BusResponse(|bus.stops|, |set x | x in bus.stops|, RoadLength(stops, bus.stops))
  }

  // ------------------------------------------------------------ the indexes

  /** The name a record carries. */
  function NameOf(q: InputQuery): string {
    match q
    case StopQuery(stop) => stop.name
    case BusQuery(bus) => bus.name
  }

  /** No record in `records[a + 1..end]` carries the name of record `a`:
      the one a dictionary filled in order keeps. */
  predicate LastOfName(records: seq<InputQuery>, a: nat, end: nat)
    requires a < end <= |records|
  {
    forall b :: a < b < end ==> NameOf(records[b]) != NameOf(records[a])
  }

  /** The dictionary that filling in the order of `records` leaves: each
      name maps to the last record carrying it. */
  function Latest(records: seq<InputQuery>): map<string, InputQuery> {
    if |records| == 0 then map[]
    else Latest(records[..|records| - 1])[NameOf(records[|records| - 1]) := records[|records| - 1]]
  }

  /** Every name of `records` is in the dictionary. */
  lemma {:induction false} LatestNames(records: seq<InputQuery>)
    ensures forall a :: 0 <= a < |records| ==> NameOf(records[a]) in Latest(records)
  {
    if |records| > 0 {
      var n := |records| - 1;
      var init := records[..n];
      LatestNames(init);
      forall a | 0 <= a < n ensures NameOf(records[a]) in Latest(records) {
        assert init[a] == records[a];
      }
    }
  }

  /** Under each name sits a record of `records` carrying that name. */
  lemma {:induction false} LatestValues(records: seq<InputQuery>)
    ensures forall k :: k in Latest(records) ==> NameOf(Latest(records)[k]) == k && Latest(records)[k] in records
  {
    if |records| > 0 {
      var n := |records| - 1;
      var init := records[..n];
      LatestValues(init);
      forall k | k in Latest(init) ensures Latest(init)[k] in records {
        var q := Latest(init)[k];
        var b :| 0 <= b < n && init[b] == q;
        assert records[b] == q;
      }
    }
  }

  /** A record no later record renames is the one the dictionary keeps. */
  lemma {:induction false} LatestLast(records: seq<InputQuery>)
    ensures forall a :: 0 <= a < |records| && LastOfName(records, a, |records|) ==>
              NameOf(records[a]) in Latest(records) && Latest(records)[NameOf(records[a])] == records[a]
  {
    if |records| > 0 {
      var n := |records| - 1;
      var init := records[..n];
      LatestLast(init);
      forall a | 0 <= a < n && LastOfName(records, a, |records|)
        ensures NameOf(records[a]) in Latest(records) && Latest(records)[NameOf(records[a])] == records[a]
      {
        assert NameOf(records[n]) != NameOf(records[a]);
        assert init[a] == records[a];
        assert LastOfName(init, a, n);
      }
    }
  }

  /** The loop over the stop records (transport_register.cpp:23-27): every
      stop gets an empty entry, and the dictionary keeps, for each name, the
      last record carrying it. */
  method IndexStops(records: seq<InputQuery>) returns (index: map<string, StopResponse>, values: map<string, Stop>)
    requires forall m :: 0 <= m < |records| ==> records[m].StopQuery?
    ensures index.Keys == StopNames(records) && values.Keys == StopNames(records)
    ensures forall k :: k in index ==> index[k].busNames == {}
    ensures forall k :: k in values ==> values[k].name == k && StopQuery(values[k]) in records
    ensures forall m :: 0 <= m < |records| && LastOfName(records, m, |records|) ==>
              values[records[m].stop.name] == records[m].stop
  {
    index, values := map[], map[];
    var m := 0;
    while m < |records|
      invariant m <= |records|
      invariant index.Keys == values.Keys == Latest(records[..m]).Keys
      invariant forall k :: k in index ==> index[k].busNames == {}
      invariant forall k :: k in values ==> Latest(records[..m])[k] == StopQuery(values[k])
    {
      var stop := records[m].stop;
      assert records[..m + 1][..m] == records[..m];
      values := values[stop.name := stop];
      if stop.name !in index {
        index := index[stop.name := StopResponse({})];
      }
      m := m + 1;
    }
    assert records[..m] == records;
    LatestNames(records);
    LatestValues(records);
    LatestLast(records);
    KeysAreStopNames(records, values);
  }

  /** A map from names holding, under each name, a stop record of that name
      from `records`, and holding every stop name of `records`, is keyed by
      exactly those names. */
  lemma KeysAreStopNames(records: seq<InputQuery>, values: map<string, Stop>)
    requires forall m :: 0 <= m < |records| ==> records[m].StopQuery? && records[m].stop.name in values
    requires forall k :: k in values ==> values[k].name == k && StopQuery(values[k]) in records
    ensures values.Keys == StopNames(records)
  {
    forall k | k in StopNames(records) ensures k in values {
      var q :| q in records && q.StopQuery? && q.stop.name == k;
      var m :| 0 <= m < |records| && records[m] == q;
    }
  }

  /** The inner loop of transport_register.cpp:39-41: the bus's name joins
      the entry of every stop it mentions; `.at` demands each is known. */
  method AddBusToStops(index0: map<string, StopResponse>, bus: Bus) returns (index: map<string, StopResponse>)
    requires forall a :: 0 <= a < |bus.stops| ==> bus.stops[a] in index0
    ensures index.Keys == index0.Keys
    ensures forall k :: k in index ==>
              index[k].busNames == index0[k].busNames + (if k in bus.stops then {bus.name} else {})
  {
    index := index0;
    var i := 0;
    while i < |bus.stops|
      invariant i <= |bus.stops|
      invariant index.Keys == index0.Keys
      invariant forall k :: k in index ==>
                  index[k].busNames == index0[k].busNames + (if k in bus.stops[..i] then {bus.name} else {})
    {
      var name := bus.stops[i];
      PrefixSnoc(bus.stops, i);
      index := index[name := StopResponse(index[name].busNames + {bus.name})];
      i := i + 1;
    }
    assert bus.stops[..i] == bus.stops;
  }

  /** The body of the loop over the bus records (transport_register.cpp:32-41). */
  method IndexOneBus(index0: map<string, StopResponse>, buses0: map<string, BusResponse>, values0: map<string, Bus>,
                     stops: Dict<Stop>, bus: Bus)
    returns (index: map<string, StopResponse>, buses: map<string, BusResponse>, values: map<string, Bus>)
    requires BusKnown(index0, stops, bus)
    ensures index.Keys == index0.Keys
    ensures forall k :: k in index ==>
              index[k].busNames == index0[k].busNames + (if k in bus.stops then {bus.name} else {})
    ensures buses == buses0[bus.name := BusStats(stops, bus)]
    ensures values == values0[bus.name := bus]
  {
    var length := ComputeRoadRouteLength(bus.stops, stops);
    assert length == RoadLength(stops, bus.stops);
    buses := buses0[bus.name := BusResponse(|bus.stops|, |set x | x in bus.stops|, length)];
    values := values0[bus.name := bus];
    index := AddBusToStops(index0, bus);
  }

  /** What the loop over the bus records needs of a bus: every stop it
      mentions is known, and so is its road length. */
  predicate BusKnown(index: map<string, StopResponse>, stops: Dict<Stop>, bus: Bus) {
    && (forall a :: 0 <= a < |bus.stops| ==> bus.stops[a] in index)
    && LengthDefined(stops, bus.stops)
  }

  /** The bus tables after the records `records`: under each name the
      statistics and the record of the last bus of that name. */
  ghost predicate BusTables(records: seq<InputQuery>, stops: Dict<Stop>, buses: map<string, BusResponse>, values: map<string, Bus>) {
    && buses.Keys == values.Keys == Latest(records).Keys
    && forall k :: k in values ==>
         && Latest(records)[k] == BusQuery(values[k])
         && LengthDefined(stops, values[k].stops) && buses[k] == BusStats(stops, values[k])
  }

  /** The loop over the bus records (transport_register.cpp:31-42): each
      bus's statistics under its name, the last record of a name winning,
      and its name in the entry of every stop it mentions. */
  method IndexBuses(index0: map<string, StopResponse>, stops: Dict<Stop>, records: seq<InputQuery>)
    returns (index: map<string, StopResponse>, buses: map<string, BusResponse>, values: map<string, Bus>)
    requires forall m :: 0 <= m < |records| ==> records[m].BusQuery? && BusKnown(index0, stops, records[m].bus)
    ensures index.Keys == index0.Keys
    ensures forall k :: k in index ==> index[k].busNames == index0[k].busNames + BusesThrough(records, k)
    ensures buses.Keys == values.Keys == BusNames(records)
    ensures forall k :: k in values ==>
              && values[k].name == k && BusQuery(values[k]) in records
              && LengthDefined(stops, values[k].stops) && buses[k] == BusStats(stops, values[k])
    ensures forall m :: 0 <= m < |records| && LastOfName(records, m, |records|) ==>
              values[records[m].bus.name] == records[m].bus
  {
    index, buses, values := index0, map[], map[];
    var m := 0;
    while m < |records|
      invariant m <= |records|
      invariant index.Keys == index0.Keys
      invariant forall k :: k in index ==> index[k].busNames == index0[k].busNames + BusesThrough(records[..m], k)
      invariant BusTables(records[..m], stops, buses, values)
    {
      ghost var index1, buses1, values1 := index, buses, values;
      index, buses, values := IndexOneBus(index, buses, values, stops, records[m].bus);
      ThroughStep(index0, index1, index, records, m);
      BusTablesStep(records, m, stops, buses1, values1);
      m := m + 1;
    }
    assert records[..m] == records;
    BusTablesDone(records, stops, buses, values);
    BusTablesLast(records, stops, buses, values);
  }

  /** One bus record extends the tables by its own entry. */
  lemma BusTablesStep(records: seq<InputQuery>, m: nat, stops: Dict<Stop>, buses: map<string, BusResponse>, values: map<string, Bus>)
    requires m < |records| && records[m].BusQuery? && LengthDefined(stops, records[m].bus.stops)
    requires BusTables(records[..m], stops, buses, values)
    ensures BusTables(records[..m + 1], stops, buses[records[m].bus.name := BusStats(stops, records[m].bus)],
                      values[records[m].bus.name := records[m].bus])
  {
    assert records[..m + 1][..m] == records[..m];
    assert Latest(records[..m + 1]) == Latest(records[..m])[records[m].bus.name := records[m]];
  }

  /** The tables after all bus records are keyed by the bus names, each
      entry a record of its own name with its statistics. */
  lemma BusTablesDone(records: seq<InputQuery>, stops: Dict<Stop>, buses: map<string, BusResponse>, values: map<string, Bus>)
    requires forall m :: 0 <= m < |records| ==> records[m].BusQuery?
    requires BusTables(records, stops, buses, values)
    ensures buses.Keys == values.Keys == BusNames(records)
    ensures forall k :: k in values ==>
              && values[k].name == k && BusQuery(values[k]) in records
              && LengthDefined(stops, values[k].stops) && buses[k] == BusStats(stops, values[k])
  {
    LatestValues(records);
    forall k | k in values ensures values[k].name == k && BusQuery(values[k]) in records {
      assert NameOf(Latest(records)[k]) == k;
    }
    LatestNames(records);
    forall m | 0 <= m < |records| ensures records[m].bus.name in values {
      assert NameOf(records[m]) == records[m].bus.name;
    }
    KeysAreBusNames(records, values);
  }

  /** The tables after all bus records keep, under each name, the last bus of that name. */
  lemma BusTablesLast(records: seq<InputQuery>, stops: Dict<Stop>, buses: map<string, BusResponse>, values: map<string, Bus>)
    requires forall m :: 0 <= m < |records| ==> records[m].BusQuery?
    requires BusTables(records, stops, buses, values)
    ensures forall m :: 0 <= m < |records| && LastOfName(records, m, |records|) ==>
              records[m].bus.name in values && values[records[m].bus.name] == records[m].bus
  {
    LatestLast(records);
    forall m | 0 <= m < |records| && LastOfName(records, m, |records|)
      ensures records[m].bus.name in values && values[records[m].bus.name] == records[m].bus
    {
      assert NameOf(records[m]) == records[m].bus.name;
    }
  }

  lemma ThroughStep(index0: map<string, StopResponse>, index1: map<string, StopResponse>, index: map<string, StopResponse>,
                    records: seq<InputQuery>, m: nat)
    requires m < |records| && records[m].BusQuery?
    requires index0.Keys == index1.Keys == index.Keys
    requires forall k :: k in index1 ==> index1[k].busNames == index0[k].busNames + BusesThrough(records[..m], k)
    requires forall k :: k in index ==>
               index[k].busNames == index1[k].busNames + (if k in records[m].bus.stops then {records[m].bus.name} else {})
    ensures forall k :: k in index ==> index[k].busNames == index0[k].busNames + BusesThrough(records[..m + 1], k)
  {
    PrefixSnoc(records, m);
    forall k | k in index
      ensures index[k].busNames == index0[k].busNames + BusesThrough(records[..m + 1], k)
    {
      ThroughSnoc(records[..m], records[m], k);
    }
  }

  lemma KeysAreBusNames(records: seq<InputQuery>, values: map<string, Bus>)
    requires forall m :: 0 <= m < |records| ==> records[m].BusQuery? && records[m].bus.name in values
    requires forall k :: k in values ==> values[k].name == k && BusQuery(values[k]) in records
    ensures values.Keys == BusNames(records)
  {
    forall k | k in BusNames(records) ensures k in values {
      var q :| q in records && q.BusQuery? && q.bus.name == k;
      var m :| 0 <= m < |records| && records[m] == q;
    }
  }

  // ------------------------------------------------------------ the constructor

  /** Every pair of stop records named `u` and `v` has a non-negative road
      distance between them, whichever record of a name the dictionary
      keeps. */
  predicate LegServed(data: seq<InputQuery>, u: string, v: string) {
    forall q, r :: q in data && r in data && q.StopQuery? && r.StopQuery? && q.stop.name == u && r.stop.name == v ==>
      ComputeStopsDistance(q.stop, r.stop).Some? && ComputeStopsDistance(q.stop, r.stop).value >= 0
  }

  /** Every stop the bus mentions is known and every leg has a distance. */
  predicate BusServed(data: seq<InputQuery>, bus: Bus) {
    && (forall a :: 0 <= a < |bus.stops| ==> bus.stops[a] in StopNames(data))
    && (forall a :: 0 <= a < |bus.stops| - 1 ==> LegServed(data, bus.stops[a], bus.stops[a + 1]))
  }

  /** What the constructor's lookups (`.at`, transport_register.cpp:40 and
      64-72) and the router's non-negative weights demand of the input. */
  predicate DataServed(data: seq<InputQuery>) {
    forall q :: q in data && q.BusQuery? ==> BusServed(data, q.bus)
  }

  /** An iteration order over a set of names: each name exactly once. */
  predicate OrderOf(order: seq<string>, names: set<string>) {
    Distinct(order) && (set k | k in order) == names
  }

  /** A stop dictionary filled from the records of `data`. */
  predicate StopsFrom(data: seq<InputQuery>, stops: Dict<Stop>) {
    && stops.values.Keys == StopNames(data)
    && forall k :: k in stops.values ==> StopQuery(stops.values[k]) in data && stops.values[k].name == k
  }

  /** A bus of served input drives a route the dictionary serves. */
  lemma BusRouteServed(data: seq<InputQuery>, stops: Dict<Stop>, bus: Bus)
    requires BusServed(data, bus) && StopsFrom(data, stops)
    ensures LengthDefined(stops, bus.stops) && RouteServed(stops, bus.stops)
  {
    var names := bus.stops;
    if |names| > 1 {
      forall a | 0 <= a < |names| - 1
        ensures && ComputeStopsDistance(stops.values[names[a]], stops.values[names[a + 1]]).Some?
                && ComputeStopsDistance(stops.values[names[a]], stops.values[names[a + 1]]).value >= 0
      {
        assert LegServed(data, names[a], names[a + 1]);
        assert names[a] in stops.values && names[a + 1] in stops.values;
        var x, y := stops.values[names[a]], stops.values[names[a + 1]];
        assert StopQuery(x) in data && StopQuery(y) in data;
      }
    }
  }

  /** The partition (transport_register.cpp:17-19) and the two ranges it
      leaves (transport_register.cpp:23, 31): the input's stop records and
      its bus records. */
  method SplitRecords(data: seq<InputQuery>) returns (stopRecords: seq<InputQuery>, busRecords: seq<InputQuery>)
    ensures forall m :: 0 <= m < |stopRecords| ==> stopRecords[m].StopQuery?
    ensures forall m :: 0 <= m < |busRecords| ==> busRecords[m].BusQuery?
    ensures SameStops(stopRecords, data) && SameBuses(busRecords, data)
    ensures StopNames(stopRecords) == StopNames(data) && BusNames(busRecords) == BusNames(data)
    ensures forall s :: BusesThrough(busRecords, s) == BusesThrough(data, s)
  {
    var parted, split := Partition(data);
    PartitionViews(data, parted, split);
    stopRecords, busRecords := parted[..split], parted[split..];
    SameStopsNames(stopRecords, data);
    SameBusesNames(busRecords, data);
  }

  lemma BusesKnown(data: seq<InputQuery>, index: map<string, StopResponse>, stops: Dict<Stop>, busRecords: seq<InputQuery>)
    requires DataServed(data) && StopsFrom(data, stops) && index.Keys == StopNames(data)
    requires forall m :: 0 <= m < |busRecords| ==> busRecords[m].BusQuery?
    requires SameBuses(busRecords, data)
    ensures forall m :: 0 <= m < |busRecords| ==> BusKnown(index, stops, busRecords[m].bus)
  {
    forall m | 0 <= m < |busRecords| ensures BusKnown(index, stops, busRecords[m].bus) {
      assert busRecords[m] in data;
      BusRouteServed(data, stops, busRecords[m].bus);
    }
  }

  /** The invariant of a register: its router is wired and knows exactly
      the register's stops. */
  ghost predicate RegisterReady(reg: TransportRegister) {
    Wired(reg.router) && reg.stops.Keys == reg.router.net.stopVertexIds.Keys
  }

  /** The constructor (transport_register.cpp:14-46): the records split into
      stops and buses; every stop indexed with the buses that mention it;
      every bus with its statistics; the router built over both
      dictionaries.  `stopOrder` and `busOrder` are the dictionaries'
      iteration orders, which the model leaves open. */
  method NewTransportRegister(data: seq<InputQuery>, settings: RoutingSettings, stopOrder: seq<string>, busOrder: seq<string>)
    returns (reg: TransportRegister, stopsDict: Dict<Stop>, busesDict: Dict<Bus>)
    requires SettingsValid(settings) && DataServed(data)
    requires OrderOf(stopOrder, StopNames(data)) && OrderOf(busOrder, BusNames(data))
    ensures RegisterReady(reg)
    ensures reg.stops.Keys == StopNames(data)
    ensures forall s :: s in reg.stops ==> reg.stops[s].busNames == BusesThrough(data, s)
    ensures reg.buses.Keys == BusNames(data)
    ensures stopsDict.keys == stopOrder && busesDict.keys == busOrder
    ensures StopsDictWellFormed(stopsDict) && DictWellFormed(busesDict) && StopsFrom(data, stopsDict)
    ensures forall k :: k in busesDict.values ==> BusQuery(busesDict.values[k]) in data && busesDict.values[k].name == k
    ensures BusesServed(stopsDict, busesDict)
    ensures forall k :: k in reg.buses ==> reg.buses[k] == BusStats(stopsDict, busesDict.values[k])
    ensures reg.router.settings == settings && SlotsAssigned(reg.router.net, stopOrder)
    ensures IdsCover(reg.router.net.stopVertexIds, stopsDict)
    ensures LabelsOf(reg.router.net) == WaitEdges(settings, |stopOrder|)
                                        + AllBusEdges(reg.router.net.stopVertexIds, stopsDict, settings, busesDict, |busOrder|)
    ensures reg.router.router.nextRouteId == 0 && reg.router.router.cache == map[]
  {
    var stopIndex, buses;
    stopIndex, buses, stopsDict, busesDict := IndexRecords(data, stopOrder, busOrder);
    var router := NewTransportRouter(stopsDict, busesDict, settings);
    reg := TransportRegister(stopIndex, buses, router);
  }

  /** The part of the constructor before the router (transport_register.cpp:17-42):
      the stop entries with their buses, the bus statistics, and the two
      dictionaries the router is built over. */
  method IndexRecords(data: seq<InputQuery>, stopOrder: seq<string>, busOrder: seq<string>)
    returns (stopIndex: map<string, StopResponse>, buses: map<string, BusResponse>, stopsDict: Dict<Stop>, busesDict: Dict<Bus>)
    requires DataServed(data)
    requires OrderOf(stopOrder, StopNames(data)) && OrderOf(busOrder, BusNames(data))
    ensures stopIndex.Keys == StopNames(data)
    ensures forall s :: s in stopIndex ==> stopIndex[s].busNames == BusesThrough(data, s)
    ensures buses.Keys == BusNames(data)
    ensures stopsDict.keys == stopOrder && busesDict.keys == busOrder
    ensures StopsDictWellFormed(stopsDict) && DictWellFormed(busesDict) && StopsFrom(data, stopsDict)
    ensures forall k :: k in busesDict.values ==> BusQuery(busesDict.values[k]) in data && busesDict.values[k].name == k
    ensures BusesServed(stopsDict, busesDict)
    ensures forall k :: k in buses ==> buses[k] == BusStats(stopsDict, busesDict.values[k])
  {
    var stopRecords, busRecords := SplitRecords(data);
    var index, values := IndexStops(stopRecords);
    stopsDict := Dict(stopOrder, values);
    BusesKnown(data, index, stopsDict, busRecords);
    var busValues;
    stopIndex, buses, busValues := IndexBuses(index, stopsDict, busRecords);
    busesDict := Dict(busOrder, busValues);
    forall k | k in busValues ensures RouteServed(stopsDict, busValues[k].stops) {
      BusRouteServed(data, stopsDict, busValues[k]);
    }
  }

  /** `FindRoute` (transport_register.cpp:58-62): the transport router's
      answer for the same two stops. */
  method FindRoute(reg: TransportRegister, stopFrom: string, stopTo: string)
    returns (info: Option<RouteInfo>, reg': TransportRegister, ghost path: seq<Graphs.EdgeId>)
    requires RegisterReady(reg) && stopFrom in reg.stops && stopTo in reg.stops
    ensures RegisterReady(reg') && reg'.stops == reg.stops && reg'.buses == reg.buses
    ensures reg'.router.net == reg.router.net && reg'.router.router.cache == reg.router.router.cache
    ensures AnswersQuery(reg.router, stopFrom, stopTo, info, path)
  {
    var tr;
    info, tr, path := TransportRouting.FindRoute(reg.router, stopFrom, stopTo);
    reg' := reg.(router := tr);
  }
}

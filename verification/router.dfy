/** The router (router.h): the imperative table construction, proved to
    compute the pure table of module RouteTables, and the route cache that
    `BuildRoute`, `GetRouteEdge` and `RemoveRoute` work on. */
module Routers {
  import opened Wrappers
  import opened Graphs
  import opened Paths
  import opened RouteTables
  import opened FloydWarshall
  import opened SeqUtils

  /** `uint64_t` in the source; the counter is not expected to wrap. */
  type RouteId = nat

  /** What `BuildRoute` reports: the route's cache key, its weight and length. */
  datatype RouteInfo = RouteInfo(id: RouteId, weight: real, edgeCount: nat)

  /** The router's state: the graph it was built over, the finished table,
      the next route id and the cache of expanded routes. */
  datatype Router = Router(graph: Graph, table: Table, nextRouteId: RouteId, cache: map<RouteId, seq<EdgeId>>)

  /** Every cached route is a walk over the graph's edges under an id already handed out. */
  predicate CacheWellFormed(r: Router) {
    forall id :: id in r.cache ==>
      id < r.nextRouteId && ValidIds(r.graph.edges, r.cache[id]) && Connected(r.graph.edges, r.cache[id])
  }

  /** The invariant every router keeps: its table is the finished
      Floyd–Warshall table of its graph. */
  ghost predicate Ready(r: Router) {
    && Routable(r.graph)
    && r.table == Closure(r.graph, VertexCount(r.graph))
    && CacheWellFormed(r)
  }

  /** What the finished table means for every pair of vertices. */
  ghost predicate TableMeaning(g: Graph, t: Table)
    requires Routable(g)
  {
    && IsSquare(t, VertexCount(g))
    && forall i, j :: 0 <= i < VertexCount(g) && 0 <= j < VertexCount(g) ==>
         && (t[i][j].Some? <==> Reachable(g.edges, i, j))
         && (t[i][j].Some? ==>
               && (forall p :: IsPath(g.edges, p, i, j) ==> t[i][j].value.weight <= PathWeight(g.edges, p))
               && exists p :: IsPath(g.edges, p, i, j) && PathWeight(g.edges, p) == t[i][j].value.weight)
  }

  lemma ClosureMeaning(g: Graph)
    requires Routable(g)
    ensures TableMeaning(g, Closure(g, VertexCount(g)))
  {
    var n := VertexCount(g);
    var t: Table := Closure(g, n);
    forall i, j | 0 <= i < n && 0 <= j < n
      ensures && (t[i][j].Some? <==> Reachable(g.edges, i, j))
              && (t[i][j].Some? ==>
                    && (forall p :: IsPath(g.edges, p, i, j) ==> t[i][j].value.weight <= PathWeight(g.edges, p))
                    && exists p :: IsPath(g.edges, p, i, j) && PathWeight(g.edges, p) == t[i][j].value.weight)
    {
      TableCorrect(g, i, j);
      if t[i][j].Some? {
        var w := Witness(g, n)[i][j];
        assert IsPath(g.edges, w, i, j) && PathWeight(g.edges, w) == t[i][j].value.weight;
      }
    }
  }

  // ------------------------------------------------------------ construction

  /** One iteration of `InitializeRoutesInternalData`'s outer loop
      (router.h:62-74), on row `v` of a table of empty cells: the diagonal
      cell gets `{0, no edge}`, then each outgoing edge of `v` claims cell
      `(v, to)` when that cell is empty or strictly heavier. */
  method InitializeRow(g: Graph, v: VertexId) returns (row: seq<Option<Cell>>)
    requires Routable(g) && v < VertexCount(g)
    ensures |row| == VertexCount(g)
    ensures forall b :: 0 <= b < |row| ==> row[b] == InitCell(g, v, b)
  {
    var n := VertexCount(g);
    row := seq(n, _ => None);
    row := row[v := Diagonal];
    var ids := GetVertexEdges(g, v);
    IncidenceValidIds(g, v);
    var idx := 0;
    while idx < |ids|
      invariant idx <= |ids| && RowScanned(g.edges, ids, v, n, row, idx)
    {
      row := OfferEdge(g, ids, v, n, row, idx);
      idx := idx + 1;
    }
    assert ids[..|ids|] == ids;
  }

  /** Row `v` after offering it the first `idx` edges of `ids`. */
  ghost predicate RowScanned(edges: seq<Edge>, ids: seq<EdgeId>, v: VertexId, n: nat, row: seq<Option<Cell>>, idx: nat)
    requires ValidIds(edges, ids) && idx <= |ids|
  {
    && |row| == n
    && forall b :: 0 <= b < n ==> row[b] == ScanEdges(edges, ids[..idx], b, if v == b then Diagonal else None)
  }

  /** One turn of the loop over `v`'s outgoing edges (router.h:64-74): the
      edge claims the cell of its head when that cell is empty or strictly
      heavier. */
  method OfferEdge(g: Graph, ids: seq<EdgeId>, v: VertexId, n: nat, row0: seq<Option<Cell>>, idx: nat)
    returns (row: seq<Option<Cell>>)
    requires Routable(g) && ValidIds(g.edges, ids) && idx < |ids| && n == VertexCount(g)
    requires RowScanned(g.edges, ids, v, n, row0, idx)
    ensures RowScanned(g.edges, ids, v, n, row, idx + 1)
  {
    var id := ids[idx];
    var edge := GetEdge(g, id);
    assert ids[..idx + 1][..idx] == ids[..idx];
    row := row0;
    if row[edge.to].None? || row[edge.to].value.weight > edge.weight {
      row := row[edge.to := Some(Cell(edge.weight, Some(id)))];
    }
  }

  /** `InitializeRoutesInternalData` (router.h:59-76) over the table of
      empty cells the constructor allocates (router.h:110-112). */
  method InitializeRoutesInternalData(g: Graph) returns (t: Table)
    requires Routable(g)
    ensures IsSquare(t, VertexCount(g))
    ensures t == InitTable(g)
    ensures forall v :: 0 <= v < VertexCount(g) ==> t[v][v] == Diagonal
  {
    var n := VertexCount(g);
    t := seq(n, _ => seq(n, _ => None));
    var v := 0;
    while v < n
      invariant v <= n && IsSquare(t, n)
      invariant forall a :: 0 <= a < v ==> t[a] == InitTable(g)[a]
    {
      var row := InitializeRow(g, v);
      t := t[v := row];
      v := v + 1;
    }
    forall a | 0 <= a < n ensures t[a][a] == Diagonal {
      InitCellSpec(g, a, a);
    }
  }

  /** `RelaxRoute`'s neighbours are untouched by the pass through `k`: the
      row and the column of `k` keep their cells. */
  lemma PivotFixed(t: Table, k: nat, x: nat)
    requires TableReady(t) && k < |t| && x < |t|
    ensures RelaxCell(t, x, k, k) == t[x][k]
    ensures RelaxCell(t, k, x, k) == t[k][x]
  {
  }

  /** `RelaxRoutesInternalDataThroughVertex` (router.h:93-103), updating the
      table in place row by row; cells already relaxed in this pass are read
      back, which is harmless because row and column `k` never change. */
  method RelaxRoutesInternalDataThroughVertex(t0: Table, k: nat) returns (t: Table)
    requires TableReady(t0) && k < |t0|
    ensures t == ThroughVertex(t0, k)
    ensures forall i, j :: 0 <= i < |t0| && 0 <= j < |t0| ==>
              (t[i][j] != t0[i][j] <==> Relaxes(t0, i, j, k))
  {
    var n := |t0|;
    t := t0;
    var i := 0;
    while i < n
      invariant i <= n && IsSquare(t, n)
      invariant forall a, b :: 0 <= a < n && 0 <= b < n ==>
                  t[a][b] == (if a < i then RelaxCell(t0, a, b, k) else t0[a][b])
    {
      PivotFixed(t0, k, i);
      if t[i][k].Some? {
        var j := 0;
        while j < n
          invariant j <= n && IsSquare(t, n)
          invariant forall a, b :: 0 <= a < n && 0 <= b < n ==>
                      t[a][b] == (if a < i || (a == i && b < j) then RelaxCell(t0, a, b, k) else t0[a][b])
        {
          PivotFixed(t0, k, j);
          if t[k][j].Some? {
            t := t[i := t[i][j := RelaxRoute(t[i][j], t[i][k].value, t[k][j].value)]];
          }
          j := j + 1;
        }
      }
      i := i + 1;
    }
    forall a | 0 <= a < n ensures t[a] == ThroughVertex(t0, k)[a] {
    }
    forall a, b | 0 <= a < n && 0 <= b < n
      ensures t[a][b] != t0[a][b] <==> Relaxes(t0, a, b, k)
    {
      ThroughVertexMonotone(t0, k, a, b);
    }
  }

  /** The constructor (router.h:108-122): initialise, then one pass through
      every vertex in increasing order.  The finished table is filled exactly
      for connected pairs and holds the weight of a lightest walk. */
  method NewRouter(g: Graph) returns (r: Router)
    requires Routable(g)
    ensures Ready(r) && r.graph == g
    ensures r.nextRouteId == 0 && r.cache == map[]
    ensures TableMeaning(g, r.table)
  {
    var n := VertexCount(g);
    var t := InitializeRoutesInternalData(g);
    var k := 0;
    while k < n
      invariant k <= n && t == Closure(g, k)
    {
      ClosureReady(g, k);
      t := RelaxRoutesInternalDataThroughVertex(t, k);
      k := k + 1;
    }
    ClosureMeaning(g);
    r := Router(g, t, 0, map[]);
  }

  // ------------------------------------------------------------ routes

  /** The loop of `BuildRoute` (router.h:132-139): follow the predecessor
      edges of row `from` back from `to` until a cell with no predecessor,
      then reverse.  The cells met on the way are always filled, and every
      step shortens the witness walk, so the loop ends; what it returns is
      a lightest walk from `from` to `to`. */
  method ExpandRoute(g: Graph, t: Table, from: VertexId, to: VertexId) returns (path: seq<EdgeId>)
    requires Routable(g) && t == Closure(g, VertexCount(g))
    requires from < VertexCount(g) && to < VertexCount(g) && t[from][to].Some?
    ensures IsShortestPath(g.edges, path, from, to)
    ensures PathWeight(g.edges, path) == t[from][to].value.weight
    ensures path == [] <==> t[from][to].value.prevEdge.None?
    ensures path != [] ==> t[from][to].value.prevEdge == Some(path[|path| - 1])
  {
    var edges: seq<EdgeId> := [];
    var edgeId := t[from][to].value.prevEdge;
    ghost var cur: VertexId := to;
    while edgeId.Some?
      invariant cur < VertexCount(g) && WalkAt(g, from, cur, to, edges)
      invariant edgeId == t[from][cur].value.prevEdge
      decreases |Witness(g, VertexCount(g))[from][cur]|
    {
      var id := edgeId.value;
      WalkStep(g, from, cur, to, edges);
      var prev := GetEdge(g, id).from;
      edges := edges + [id];
      cur := prev;
      edgeId := t[from][prev].value.prevEdge;
    }
    path := Reverse(edges);
    WalkEnd(g, from, cur, to, edges);
  }

  /** The state of the backward walk at cell `(from, cur)` with `edges`
      collected: the cell is filled, and its witness followed by the
      collected edges, reversed, is the witness of `(from, to)`. */
  ghost predicate WalkAt(g: Graph, from: VertexId, cur: VertexId, to: VertexId, edges: seq<EdgeId>)
    requires Routable(g) && from < VertexCount(g) && cur < VertexCount(g) && to < VertexCount(g)
  {
    && Closure(g, VertexCount(g))[from][cur].Some?
    && Witness(g, VertexCount(g))[from][cur] + Reverse(edges) == Witness(g, VertexCount(g))[from][to]
  }

  /** One step of the backward walk: the predecessor edge of cell
      `(from, cur)` is the last edge of its witness, the cell at that edge's
      tail is filled, and its witness is one edge shorter. */
  lemma WalkStep(g: Graph, from: VertexId, cur: VertexId, to: VertexId, edges: seq<EdgeId>)
    requires Routable(g) && from < VertexCount(g) && cur < VertexCount(g) && to < VertexCount(g)
    requires WalkAt(g, from, cur, to, edges) && Closure(g, VertexCount(g))[from][cur].value.prevEdge.Some?
    ensures var t, W := Closure(g, VertexCount(g)), Witness(g, VertexCount(g));
      var id := t[from][cur].value.prevEdge.value;
      && id < EdgeCount(g)
      && g.edges[id].from < VertexCount(g)
      && WalkAt(g, from, g.edges[id].from, to, edges + [id])
      && |W[from][g.edges[id].from]| < |W[from][cur]|
  {
    RowWalkable(g, from, cur);
    StepBack(g.edges, Closure(g, VertexCount(g)), Witness(g, VertexCount(g)), from, cur, to, edges);
  }

  /** `WalkStep` over any table and witnesses with the predecessor facts of
      `RowWalkable` at cell `(from, cur)`. */
  lemma StepBack(E: seq<Edge>, t: Table, W: Witnesses, from: VertexId, cur: VertexId, to: VertexId, edges: seq<EdgeId>)
    requires IsSquare(t, |t|) && WShape(W, |t|) && from < |t| && cur < |t| && to < |t|
    requires t[from][cur].Some? && t[from][cur].value.prevEdge.Some?
    requires IsPath(E, W[from][cur], from, cur)
    requires t[from][cur].value.prevEdge == (if W[from][cur] == [] then None else Some(Last(W[from][cur])))
    requires W[from][cur] != [] ==>
               var u := E[Last(W[from][cur])].from;
               && u < |t| && t[from][u].Some? && W[from][u] == W[from][cur][..|W[from][cur]| - 1]
    requires W[from][cur] + Reverse(edges) == W[from][to]
    ensures var id := t[from][cur].value.prevEdge.value;
      && id < |E|
      && E[id].from < |t|
      && t[from][E[id].from].Some?
      && |W[from][E[id].from]| < |W[from][cur]|
      && W[from][E[id].from] + Reverse(edges + [id]) == W[from][to]
  {
    var id := t[from][cur].value.prevEdge.value;
    var prev := E[id].from;
    var w := W[from][cur];
    assert w == W[from][prev] + [id];
    ReverseSnoc(edges, id);
    SeqUtils.AppendAssoc(W[from][prev], [id], Reverse(edges));
  }

  /** The walk stops at the cell with no predecessor, whose witness is
      empty, so the reversed edges are the witness of `(from, to)`. */
  lemma WalkEnd(g: Graph, from: VertexId, cur: VertexId, to: VertexId, edges: seq<EdgeId>)
    requires Routable(g) && from < VertexCount(g) && cur < VertexCount(g) && to < VertexCount(g)
    requires WalkAt(g, from, cur, to, edges)
    requires var t := Closure(g, VertexCount(g));
      t[from][cur].value.prevEdge.None? && t[from][to].Some?
    ensures var t, path := Closure(g, VertexCount(g)), Reverse(edges);
      && IsShortestPath(g.edges, path, from, to)
      && PathWeight(g.edges, path) == t[from][to].value.weight
      && (path == [] <==> t[from][to].value.prevEdge.None?)
      && (path != [] ==> t[from][to].value.prevEdge == Some(path[|path| - 1]))
  {
    var W := Witness(g, VertexCount(g));
    RowWalkable(g, from, cur);
    RowWalkable(g, from, to);
    TableCorrect(g, from, to);
    assert Reverse(edges) == W[from][to];
  }

  /** `BuildRoute` (router.h:124-145).  An empty cell means no route and the
      router is left as it was.  Otherwise the expanded route is cached under
      a fresh id; it is a lightest walk and weighs what the table says. */
  method BuildRoute(r: Router, from: VertexId, to: VertexId) returns (info: Option<RouteInfo>, r': Router)
    requires Ready(r) && from < VertexCount(r.graph) && to < VertexCount(r.graph)
    ensures Ready(r')
    ensures info.None? <==> !Reachable(r.graph.edges, from, to)
    ensures info.None? ==> r' == r
    ensures info.Some? ==>
              && info.value.id == r.nextRouteId
              && r.nextRouteId !in r.cache
              && r' == r.(nextRouteId := r.nextRouteId + 1, cache := r'.cache)
              && r'.cache.Keys == r.cache.Keys + {info.value.id}
              && (forall id :: id in r.cache ==> r'.cache[id] == r.cache[id])
              && IsShortestPath(r.graph.edges, r'.cache[info.value.id], from, to)
              && info.value.weight == PathWeight(r.graph.edges, r'.cache[info.value.id])
              && info.value.edgeCount == |r'.cache[info.value.id]|
    ensures from == to ==> info == Some(RouteInfo(r.nextRouteId, 0.0, 0))
  {
    TableCorrect(r.graph, from, to);
    var cell := r.table[from][to];
    if cell.None? {
      return None, r;
    }
    var path := ExpandRoute(r.graph, r.table, from, to);
    var id := r.nextRouteId;
    r' := r.(nextRouteId := id + 1, cache := r.cache[id := path]);
    info := Some(RouteInfo(id, cell.value.weight, |path|));
  }

  /** `GetRouteEdge` (router.h:147-150): the `idx`-th edge of a cached route;
      an unknown id or an index past the end is the caller's fault. */
  function GetRouteEdge(r: Router, routeId: RouteId, idx: nat): (e: EdgeId)
    requires routeId in r.cache && idx < |r.cache[routeId]|
    requires CacheWellFormed(r)
    ensures e < EdgeCount(r.graph)
    ensures idx > 0 ==> GetEdge(r.graph, GetRouteEdge(r, routeId, idx - 1)).to == GetEdge(r.graph, e).from
  {
    r.cache[routeId][idx]
  }

  /** `RemoveRoute` (router.h:152-155): drops one cached route, if present. */
  function RemoveRoute(r: Router, routeId: RouteId): (r': Router)
    ensures routeId !in r'.cache
    ensures forall id :: id != routeId ==> (id in r'.cache <==> id in r.cache)
    ensures forall id :: id in r'.cache ==> r'.cache[id] == r.cache[id]
    ensures r'.graph == r.graph && r'.table == r.table && r'.nextRouteId == r.nextRouteId
    ensures Ready(r) ==> Ready(r')
  {
    r.(cache := r.cache - {routeId})
  }

  /** The total weight of the first `m` edges of a cached route, each read
      back through `GetRouteEdge` and `GetEdge` as a caller of the router
      does. */
  ghost function ReadWeight(r: Router, routeId: RouteId, m: nat): real
    requires CacheWellFormed(r) && routeId in r.cache && m <= |r.cache[routeId]|
    decreases m
  {
    if m == 0 then 0.0
    else ReadWeight(r, routeId, m - 1) + GetEdge(r.graph, GetRouteEdge(r, routeId, m - 1)).weight
  }

  /** Reading the first `m` edges adds up to the weight of that prefix. */
  lemma {:induction false} ReadWeightPrefix(r: Router, routeId: RouteId, m: nat)
    requires CacheWellFormed(r) && routeId in r.cache && m <= |r.cache[routeId]|
    ensures ValidIds(r.graph.edges, r.cache[routeId][..m])
    ensures ReadWeight(r, routeId, m) == PathWeight(r.graph.edges, r.cache[routeId][..m])
    decreases m
  {
    var p := r.cache[routeId];
    if m > 0 {
      ReadWeightPrefix(r, routeId, m - 1);
      assert p[..m][..m - 1] == p[..m - 1];
    }
  }

  /** What a caller of `BuildRoute` gets by reading the route back edge by
      edge (router.h:141-150): `edgeCount` reads that meet head to tail and
      lead from `from` to `to`, whose weights add up to the reported weight,
      and no walk between the two vertices is lighter. */
  lemma RouteEdgesRoundTrip(r: Router, from: VertexId, to: VertexId, info: RouteInfo, r': Router)
    requires Ready(r) && from < VertexCount(r.graph) && to < VertexCount(r.graph)
    requires Ready(r') && r'.graph == r.graph && info.id in r'.cache
    requires IsShortestPath(r.graph.edges, r'.cache[info.id], from, to)
    requires info.weight == PathWeight(r.graph.edges, r'.cache[info.id])
    requires info.edgeCount == |r'.cache[info.id]|
    ensures info.edgeCount == 0 ==> from == to
    ensures info.edgeCount > 0 ==>
              && GetEdge(r.graph, GetRouteEdge(r', info.id, 0)).from == from
              && GetEdge(r.graph, GetRouteEdge(r', info.id, info.edgeCount - 1)).to == to
    ensures forall m :: 0 < m < info.edgeCount ==>
              GetEdge(r.graph, GetRouteEdge(r', info.id, m - 1)).to == GetEdge(r.graph, GetRouteEdge(r', info.id, m)).from
    ensures ReadWeight(r', info.id, info.edgeCount) == info.weight
    ensures forall q :: IsPath(r.graph.edges, q, from, to) ==> info.weight <= PathWeight(r.graph.edges, q)
  {
    var p := r'.cache[info.id];
    ReadWeightPrefix(r', info.id, info.edgeCount);
    assert p[..info.edgeCount] == p;
  }

  /** Removing a route twice is removing it once; removing an id that was
      never handed out changes nothing. */
  lemma RemoveRouteIdempotent(r: Router, routeId: RouteId)
    ensures RemoveRoute(RemoveRoute(r, routeId), routeId) == RemoveRoute(r, routeId)
    ensures routeId !in r.cache ==> RemoveRoute(r, routeId) == r
  {
  }

  /** Building a route and removing it again restores the cache; only the id
      counter has moved on. */
  lemma BuildThenRemove(r: Router, r': Router, id: RouteId, path: seq<EdgeId>)
    requires id !in r.cache && r' == r.(nextRouteId := id + 1, cache := r.cache[id := path])
    ensures RemoveRoute(r', id) == r.(nextRouteId := id + 1)
  {
  }
}

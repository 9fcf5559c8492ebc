/** The router's table as pure functions (router.h:59-103): a
    `V×V` grid of optional cells `{weight, prev_edge}`, its initialisation
    from the graph's edges and one Floyd–Warshall pass through a vertex.
    The imperative versions in module Routers are proved to compute these. */
module RouteTables {
  import opened Wrappers
  import opened Graphs
  import opened Paths

  /** `RouteWeightEdgeData`: the best known weight and the last edge of that route. */
  datatype Cell = Cell(weight: real, prevEdge: Option<EdgeId>)

  type Table = seq<seq<Option<Cell>>>

  /** The cell every vertex holds for itself: weight 0, no edge. */
  const Diagonal: Option<Cell> := Some(Cell(0.0, None))

  predicate IsSquare(t: Table, n: nat) {
    |t| == n && forall i :: 0 <= i < n ==> |t[i]| == n
  }

  /** What the router needs of its graph: every edge's ends are vertices and
      no weight is negative (the source asserts the latter, router.h:66). */
  ghost predicate Routable(g: Graph) {
    && Valid(g)
    && (forall e :: 0 <= e < |g.edges| ==> g.edges[e].to < |g.incidence|)
    && NonNegative(g.edges)
  }

  /** Cell `(v, j)` after offering it the edges `ids` in order: an edge into
      `j` replaces the held cell when the cell is empty or strictly heavier
      (router.h:64-74). */
  function ScanEdges(edges: seq<Edge>, ids: seq<EdgeId>, j: VertexId, start: Option<Cell>): Option<Cell>
    requires ValidIds(edges, ids)
    decreases |ids|
  {
    if |ids| == 0 then start
    else
      var c := ScanEdges(edges, ids[..|ids| - 1], j, start);
      var id := ids[|ids| - 1];
      if edges[id].to == j && (c.None? || c.value.weight > edges[id].weight)
      then Some(Cell(edges[id].weight, Some(id)))
      else c
  }

  /** The initial cell `(v, j)`: the diagonal first, then `v`'s outgoing edges. */
  function InitCell(g: Graph, v: VertexId, j: VertexId): Option<Cell>
    requires Valid(g) && v < VertexCount(g)
  {
    IncidenceValidIds(g, v);
    ScanEdges(g.edges, g.incidence[v], j, if v == j then Diagonal else None)
  }

  function InitTable(g: Graph): Table
    requires Valid(g)
  {
    seq(VertexCount(g), v requires 0 <= v < VertexCount(g) =>
      seq(VertexCount(g), j requires 0 <= j < VertexCount(g) => InitCell(g, v, j)))
  }

  /** `RelaxRoute` (router.h:78-91): the route through the middle vertex
      replaces the held cell only when the cell is empty or the candidate is
      strictly lighter; the new predecessor is the last edge of the joined
      route, i.e. that of its second half unless that half is empty. */
  function RelaxRoute(current: Option<Cell>, routeFrom: Cell, routeTo: Cell): (r: Option<Cell>)
    ensures r.Some?
    ensures current.Some? ==> r.value.weight <= current.value.weight
    ensures r.value.weight <= routeFrom.weight + routeTo.weight
    ensures r != current ==>
              && (current.None? || routeFrom.weight + routeTo.weight < current.value.weight)
              && r.value.weight == routeFrom.weight + routeTo.weight
              && r.value.prevEdge == (if routeTo.prevEdge.Some? then routeTo.prevEdge else routeFrom.prevEdge)
  {
    var candidate := routeFrom.weight + routeTo.weight;
    if current.None? || candidate < current.value.weight then
      Some(Cell(candidate, if routeTo.prevEdge.Some? then routeTo.prevEdge else routeFrom.prevEdge))
    else
      current
  }

  /** Whether the pass through `k` replaces cell `(i, j)`. */
  predicate Relaxes(t: Table, i: nat, j: nat, k: nat)
    requires IsSquare(t, |t|) && i < |t| && j < |t| && k < |t|
  {
    && t[i][k].Some? && t[k][j].Some?
    && (t[i][j].None? || t[i][k].value.weight + t[k][j].value.weight < t[i][j].value.weight)
  }

  /** Cell `(i, j)` after the pass through `k`, read against the table as it
      stood before the pass. */
  function RelaxCell(t: Table, i: nat, j: nat, k: nat): Option<Cell>
    requires IsSquare(t, |t|) && i < |t| && j < |t| && k < |t|
  {
    if t[i][k].Some? && t[k][j].Some? then RelaxRoute(t[i][j], t[i][k].value, t[k][j].value)
    else t[i][j]
  }

  /** One outer iteration of the constructor's loop (router.h:93-103, 118-121). */
  function ThroughVertex(t: Table, k: nat): (r: Table)
    requires IsSquare(t, |t|) && k < |t|
    ensures IsSquare(r, |t|)
  {
    seq(|t|, i requires 0 <= i < |t| => seq(|t|, j requires 0 <= j < |t| => RelaxCell(t, i, j, k)))
  }

  /** The table after initialisation and the passes through vertices `0..k-1`. */
  function Closure(g: Graph, k: nat): (r: Table)
    requires Valid(g) && k <= VertexCount(g)
    ensures IsSquare(r, VertexCount(g))
    decreases k
  {
    if k == 0 then InitTable(g) else ThroughVertex(Closure(g, k - 1), k - 1)
  }

  /** The relaxation never empties a cell and never makes it heavier (router.h:83-90). */
  lemma ThroughVertexMonotone(t: Table, k: nat, i: nat, j: nat)
    requires IsSquare(t, |t|) && k < |t| && i < |t| && j < |t|
    ensures t[i][j].Some? ==> ThroughVertex(t, k)[i][j].Some?
                              && ThroughVertex(t, k)[i][j].value.weight <= t[i][j].value.weight
    ensures Relaxes(t, i, j, k) <==> ThroughVertex(t, k)[i][j] != t[i][j]
  {
  }

  /** `ScanEdges` keeps the lightest edge into `j`, the earliest one among
      equally light edges, and nothing when no edge goes into `j`. */
  lemma {:induction false} ScanEdgesLightest(edges: seq<Edge>, ids: seq<EdgeId>, j: VertexId)
    requires ValidIds(edges, ids) && StrictlyIncreasing(ids)
    ensures var r := ScanEdges(edges, ids, j, None);
      && (r.None? <==> forall m :: 0 <= m < |ids| ==> edges[ids[m]].to != j)
      && (r.Some? ==>
            && r.value.prevEdge.Some?
            && r.value.prevEdge.value in ids
            && edges[r.value.prevEdge.value].to == j
            && r.value.weight == edges[r.value.prevEdge.value].weight
            && (forall m :: 0 <= m < |ids| && edges[ids[m]].to == j ==>
                  r.value.weight <= edges[ids[m]].weight)
            && (forall m :: 0 <= m < |ids| && edges[ids[m]].to == j && ids[m] < r.value.prevEdge.value ==>
                  r.value.weight < edges[ids[m]].weight))
    decreases |ids|
  {
    if |ids| > 0 {
      var pre := ids[..|ids| - 1];
      ScanEdgesLightest(edges, pre, j);
      var last := ids[|ids| - 1];
      forall m | 0 <= m < |pre| ensures pre[m] == ids[m] && ids[m] < last { }
    }
  }

  /** Scanning into the diagonal cell keeps weight 0 and no edge: with no
      negative weight, a self-loop is never strictly lighter. */
  lemma {:induction false} ScanEdgesDiagonal(edges: seq<Edge>, ids: seq<EdgeId>, j: VertexId)
    requires ValidIds(edges, ids) && NonNegative(edges)
    ensures ScanEdges(edges, ids, j, Diagonal) == Diagonal
    decreases |ids|
  {
    if |ids| > 0 {
      ScanEdgesDiagonal(edges, ids[..|ids| - 1], j);
    }
  }

  /** After initialisation (router.h:59-76): every diagonal cell is `{0, no
      edge}`; an off-diagonal cell is empty exactly when no edge joins the
      pair, and otherwise holds the lightest such edge, the earliest one on ties. */
  lemma InitCellSpec(g: Graph, v: VertexId, j: VertexId)
    requires Routable(g) && v < VertexCount(g) && j < VertexCount(g)
    ensures v == j ==> InitCell(g, v, j) == Diagonal
    ensures v != j ==> (InitCell(g, v, j).None? <==>
                          forall e :: 0 <= e < |g.edges| ==> !(g.edges[e].from == v && g.edges[e].to == j))
    ensures v != j && InitCell(g, v, j).Some? ==>
              var c := InitCell(g, v, j).value;
              && c.prevEdge.Some? && c.prevEdge.value < |g.edges|
              && g.edges[c.prevEdge.value].from == v && g.edges[c.prevEdge.value].to == j
              && c.weight == g.edges[c.prevEdge.value].weight
              && (forall e :: 0 <= e < |g.edges| && g.edges[e].from == v && g.edges[e].to == j ==>
                    c.weight <= g.edges[e].weight)
              && (forall e :: 0 <= e < c.prevEdge.value && g.edges[e].from == v && g.edges[e].to == j ==>
                    c.weight < g.edges[e].weight)
  {
    var ids := g.incidence[v];
    IncidenceValidIds(g, v);
    if v == j {
      ScanEdgesDiagonal(g.edges, ids, j);
    } else {
      ScanEdgesLightest(g.edges, ids, j);
      forall e | 0 <= e < |g.edges| && g.edges[e].from == v
        ensures exists m :: 0 <= m < |ids| && ids[m] == e
      {
        assert e in ids;
      }
    }
  }
}

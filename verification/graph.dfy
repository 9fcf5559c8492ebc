/** An append-only directed weighted graph (graph.h).  Vertices are the
    numbers below `VertexCount`; an edge's id is its insertion index; every
    vertex keeps the ids of its outgoing edges in insertion order. */
module Graphs {

  type VertexId = nat
  type EdgeId = nat

  datatype Edge = Edge(from: VertexId, to: VertexId, weight: real)

  /** `edges` is the edge list, `incidence[v]` the outgoing list of `v`;
      the vertex count is the length of `incidence`. */
  datatype Graph = Graph(edges: seq<Edge>, incidence: seq<seq<EdgeId>>)

  /** The ids of the edges leaving `v`, in increasing (insertion) order. */
  function OutIds(edges: seq<Edge>, v: VertexId): seq<EdgeId>
    decreases |edges|
  {
    if |edges| == 0 then []
    else
      OutIds(edges[..|edges| - 1], v)
      + (if edges[|edges| - 1].from == v then [|edges| - 1] else [])
  }

  /** The invariant every graph built through the interface keeps. */
  ghost predicate Valid(g: Graph) {
    && (forall e :: 0 <= e < |g.edges| ==> g.edges[e].from < |g.incidence|)
    && (forall v :: 0 <= v < |g.incidence| ==> g.incidence[v] == OutIds(g.edges, v))
  }

  predicate StrictlyIncreasing(s: seq<nat>) {
    forall a, b :: 0 <= a < b < |s| ==> s[a] < s[b]
  }

  /** `OutIds` lists exactly the edges leaving `v`, once each, in order. */
  lemma {:induction false} OutIdsExact(edges: seq<Edge>, v: VertexId)
    ensures StrictlyIncreasing(OutIds(edges, v))
    ensures forall x: nat :: x in OutIds(edges, v) <==> x < |edges| && edges[x].from == v
    decreases |edges|
  {
    if |edges| > 0 {
      var n := |edges| - 1;
      OutIdsExact(edges[..n], v);
      var pre := OutIds(edges[..n], v);
      var post := OutIds(edges, v);
      assert post == pre + (if edges[n].from == v then [n] else []);
      assert forall a :: 0 <= a < |pre| ==> pre[a] in pre && pre[a] < n;
      forall x: nat
        ensures x in post <==> x < |edges| && edges[x].from == v
      {
        if x < n {
          assert edges[..n][x] == edges[x];
        }
      }
    }
  }

  /** Constructor: `vertexCount` vertices and no edges (graph.h:53-55). */
  function NewGraph(vertexCount: nat): (g: Graph)
    ensures Valid(g)
    ensures VertexCount(g) == vertexCount && EdgeCount(g) == 0
    ensures forall v :: 0 <= v < vertexCount ==> GetVertexEdges(g, v) == []
  {
    Graph([], seq(vertexCount, _ => []))
  }

  /** Appends `e` and registers it under `e.from` (graph.h:58-62).  The
      source indexes the outgoing lists with `e.from` unchecked, so an
      out-of-range tail is the caller's fault. */
  function AddEdge(g: Graph, e: Edge): (r: (Graph, EdgeId))
    requires Valid(g) && e.from < VertexCount(g)
    ensures Valid(r.0)
    ensures r.1 == EdgeCount(g) && EdgeCount(r.0) == EdgeCount(g) + 1
    ensures GetEdge(r.0, r.1) == e
    ensures forall id :: 0 <= id < EdgeCount(g) ==> GetEdge(r.0, id) == GetEdge(g, id)
    ensures VertexCount(r.0) == VertexCount(g)
    ensures GetVertexEdges(r.0, e.from) == GetVertexEdges(g, e.from) + [r.1]
    ensures forall v :: 0 <= v < VertexCount(g) && v != e.from ==>
              GetVertexEdges(r.0, v) == GetVertexEdges(g, v)
  {
    var id := |g.edges|;
    var g' := Graph(g.edges + [e], g.incidence[e.from := g.incidence[e.from] + [id]]);
    assert g'.edges[..id] == g.edges;
    (g', id)
  }

  function VertexCount(g: Graph): nat {
    |g.incidence|
  }

  function EdgeCount(g: Graph): nat {
    |g.edges|
  }

  /** The edge with the given id; ids out of range are the caller's fault (graph.h:76-80). */
  function GetEdge(g: Graph, id: EdgeId): Edge
    requires id < EdgeCount(g)
  {
    g.edges[id]
  }

  /** The ids of the edges leaving `v`: each names an edge from `v`, every
      such edge appears, and they come in insertion order (graph.h:82-88). */
  function GetVertexEdges(g: Graph, v: VertexId): (ids: seq<EdgeId>)
    requires v < VertexCount(g)
    ensures Valid(g) ==> StrictlyIncreasing(ids)
    ensures Valid(g) ==> forall x: nat :: x in ids <==> x < EdgeCount(g) && g.edges[x].from == v
  {
    OutIdsExact(g.edges, v);
    g.incidence[v]
  }
}

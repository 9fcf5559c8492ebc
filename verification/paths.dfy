/** Walks in a graph's edge list: the notion of "route" that the router's
    results are stated against.  A walk is a sequence of edge ids whose
    consecutive edges meet; its weight is the sum of its edges' weights. */
module Paths {
  import opened Graphs

  predicate ValidIds(edges: seq<Edge>, p: seq<EdgeId>) {
    forall m :: 0 <= m < |p| ==> p[m] < |edges|
  }

  predicate NonNegative(edges: seq<Edge>) {
    forall e :: 0 <= e < |edges| ==> edges[e].weight >= 0.0
  }

  /** Consecutive edges of `p` meet head to tail. */
  predicate Connected(edges: seq<Edge>, p: seq<EdgeId>)
    requires ValidIds(edges, p)
  {
    forall m :: 0 <= m < |p| - 1 ==> edges[p[m]].to == edges[p[m + 1]].from
  }

  /** `p` is a walk from `s` to `t`; the empty walk goes from a vertex to itself. */
  predicate IsPath(edges: seq<Edge>, p: seq<EdgeId>, s: VertexId, t: VertexId) {
    && ValidIds(edges, p)
    && (if |p| == 0 then s == t
        else edges[p[0]].from == s && edges[p[|p| - 1]].to == t && Connected(edges, p))
  }

  /** Every vertex that `p` passes through strictly between its ends is below `k`. */
  predicate InteriorBelow(edges: seq<Edge>, p: seq<EdgeId>, k: nat)
    requires ValidIds(edges, p)
  {
    forall m :: 0 <= m < |p| - 1 ==> edges[p[m]].to < k
  }

  function PathWeight(edges: seq<Edge>, p: seq<EdgeId>): real
    requires ValidIds(edges, p)
    decreases |p|
  {
    if |p| == 0 then 0.0 else PathWeight(edges, p[..|p| - 1]) + edges[p[|p| - 1]].weight
  }

  /** The outgoing list of a vertex of a valid graph names only real edges. */
  lemma IncidenceValidIds(g: Graph, v: VertexId)
    requires Valid(g) && v < VertexCount(g)
    ensures ValidIds(g.edges, g.incidence[v])
    ensures StrictlyIncreasing(g.incidence[v])
    ensures forall x: nat :: x in g.incidence[v] <==> x < |g.edges| && g.edges[x].from == v
  {
    OutIdsExact(g.edges, v);
    var ids := g.incidence[v];
    forall m | 0 <= m < |ids| ensures ids[m] < |g.edges| {
      assert ids[m] in ids;
    }
  }

  ghost predicate Reachable(edges: seq<Edge>, s: VertexId, t: VertexId) {
    exists p :: IsPath(edges, p, s, t)
  }

  /** `p` is a walk from `s` to `t` no heavier than any other. */
  ghost predicate IsShortestPath(edges: seq<Edge>, p: seq<EdgeId>, s: VertexId, t: VertexId) {
    && IsPath(edges, p, s, t)
    && forall q :: IsPath(edges, q, s, t) ==> PathWeight(edges, p) <= PathWeight(edges, q)
  }

  lemma {:induction false} PathWeightAppend(edges: seq<Edge>, p: seq<EdgeId>, q: seq<EdgeId>)
    requires ValidIds(edges, p) && ValidIds(edges, q)
    ensures ValidIds(edges, p + q)
    ensures PathWeight(edges, p + q) == PathWeight(edges, p) + PathWeight(edges, q)
    decreases |q|
  {
    assert ValidIds(edges, p + q) by {
      forall m | 0 <= m < |p + q| ensures (p + q)[m] < |edges| {
        if m >= |p| { assert (p + q)[m] == q[m - |p|]; }
      }
    }
    if |q| == 0 {
      assert p + q == p;
    } else {
      var q' := q[..|q| - 1];
      PathWeightAppend(edges, p, q');
      assert (p + q)[..|p + q| - 1] == p + q';
      assert (p + q)[|p + q| - 1] == q[|q| - 1];
    }
  }

  lemma {:induction false} PathWeightNonNegative(edges: seq<Edge>, p: seq<EdgeId>)
    requires ValidIds(edges, p) && NonNegative(edges)
    ensures PathWeight(edges, p) >= 0.0
    decreases |p|
  {
    if |p| > 0 {
      PathWeightNonNegative(edges, p[..|p| - 1]);
    }
  }

  /** Joining a walk `s`→`m` and a walk `m`→`t` gives a walk `s`→`t`; its
      interior is the two interiors plus `m` (when both parts are non-empty). */
  lemma PathConcat(edges: seq<Edge>, p: seq<EdgeId>, q: seq<EdgeId>, s: VertexId, m: VertexId, t: VertexId, k: nat)
    requires IsPath(edges, p, s, m) && IsPath(edges, q, m, t)
    ensures IsPath(edges, p + q, s, t)
    ensures InteriorBelow(edges, p, k) && InteriorBelow(edges, q, k) && (m < k || p == [] || q == [])
            ==> InteriorBelow(edges, p + q, k)
    ensures PathWeight(edges, p + q) == PathWeight(edges, p) + PathWeight(edges, q)
  {
    PathWeightAppend(edges, p, q);
    if p == [] {
      assert p + q == q;
    } else if q == [] {
      assert p + q == p;
    } else {
      var r := p + q;
      forall x | 0 <= x < |r| - 1 ensures edges[r[x]].to == edges[r[x + 1]].from {
        if x < |p| - 1 {
          assert r[x] == p[x] && r[x + 1] == p[x + 1];
        } else if x == |p| - 1 {
          assert r[x] == p[x] && r[x + 1] == q[0];
        } else {
          assert r[x] == q[x - |p|] && r[x + 1] == q[x - |p| + 1];
        }
      }
      assert r[0] == p[0] && r[|r| - 1] == q[|q| - 1];
      if InteriorBelow(edges, p, k) && InteriorBelow(edges, q, k) && m < k {
        forall x | 0 <= x < |r| - 1 ensures edges[r[x]].to < k {
          if x < |p| - 1 {
            assert r[x] == p[x];
          } else if x == |p| - 1 {
            assert r[x] == p[x];
          } else {
            assert r[x] == q[x - |p|];
          }
        }
      }
    }
  }

  /** Dropping the last edge of a non-empty walk leaves a walk to that edge's tail. */
  lemma PathDropLast(edges: seq<Edge>, p: seq<EdgeId>, s: VertexId, t: VertexId, k: nat)
    requires IsPath(edges, p, s, t) && p != []
    ensures IsPath(edges, p[..|p| - 1], s, edges[p[|p| - 1]].from)
    ensures InteriorBelow(edges, p, k) ==> InteriorBelow(edges, p[..|p| - 1], k)
    ensures PathWeight(edges, p) == PathWeight(edges, p[..|p| - 1]) + edges[p[|p| - 1]].weight
  {
    var p' := p[..|p| - 1];
    if |p'| > 0 {
      assert p'[|p'| - 1] == p[|p| - 2];
      assert edges[p[|p| - 2]].to == edges[p[|p| - 1]].from;
    }
  }

  /** The single edge `e` is a walk from its tail to its head with no interior. */
  lemma SingleEdgePath(edges: seq<Edge>, e: EdgeId)
    requires e < |edges|
    ensures IsPath(edges, [e], edges[e].from, edges[e].to)
    ensures forall k: nat :: InteriorBelow(edges, [e], k)
    ensures PathWeight(edges, [e]) == edges[e].weight
  {
    assert [e][..0] == [];
  }

  lemma InteriorBelowMonotone(edges: seq<Edge>, p: seq<EdgeId>, k: nat, k': nat)
    requires ValidIds(edges, p) && InteriorBelow(edges, p, k) && k <= k'
    ensures InteriorBelow(edges, p, k')
  {
  }

  /** A non-empty slice of a connected walk is a walk between the slice's end vertices. */
  lemma PathSlice(edges: seq<Edge>, p: seq<EdgeId>, lo: nat, hi: nat)
    requires ValidIds(edges, p) && Connected(edges, p) && lo < hi <= |p|
    ensures IsPath(edges, p[lo..hi], edges[p[lo]].from, edges[p[hi - 1]].to)
  {
    var r := p[lo..hi];
    forall y | 0 <= y < |r| - 1 ensures edges[r[y]].to == edges[r[y + 1]].from {
      assert r[y] == p[lo + y] && r[y + 1] == p[lo + y + 1];
    }
  }

  /** Index of the first interior visit of `k` at or after position 0. */
  lemma FirstVisit(edges: seq<Edge>, p: seq<EdgeId>, x: nat, k: nat) returns (a: nat)
    requires ValidIds(edges, p) && x < |p| - 1 && edges[p[x]].to == k
    ensures a <= x && edges[p[a]].to == k
    ensures forall y :: 0 <= y < a ==> edges[p[y]].to != k
  {
    a := 0;
    while edges[p[a]].to != k
      invariant 0 <= a <= x
      invariant forall y :: 0 <= y < a ==> edges[p[y]].to != k
      decreases x - a
    {
      a := a + 1;
    }
  }

  /** Index of the last interior visit of `k`. */
  lemma LastVisit(edges: seq<Edge>, p: seq<EdgeId>, x: nat, k: nat) returns (b: nat)
    requires ValidIds(edges, p) && x < |p| - 1 && edges[p[x]].to == k
    ensures x <= b < |p| - 1 && edges[p[b]].to == k
    ensures forall y :: b < y < |p| - 1 ==> edges[p[y]].to != k
  {
    b := |p| - 2;
    while edges[p[b]].to != k
      invariant x <= b <= |p| - 2
      invariant forall y :: b < y < |p| - 1 ==> edges[p[y]].to != k
      decreases b - x
    {
      b := b - 1;
    }
  }

  /** Cutting a middle piece out of a walk of non-negative edges never makes it heavier. */
  lemma DropMiddle(edges: seq<Edge>, p: seq<EdgeId>, lo: nat, hi: nat)
    requires ValidIds(edges, p) && NonNegative(edges) && lo <= hi <= |p|
    ensures ValidIds(edges, p[..lo]) && ValidIds(edges, p[hi..])
    ensures PathWeight(edges, p[..lo]) + PathWeight(edges, p[hi..]) <= PathWeight(edges, p)
  {
    var mid := p[lo..hi];
    assert ValidIds(edges, p[..lo]) && ValidIds(edges, mid) && ValidIds(edges, p[hi..]);
    assert p == p[..lo] + mid + p[hi..];
    PathWeightAppend(edges, p[..lo], mid);
    PathWeightAppend(edges, p[..lo] + mid, p[hi..]);
    PathWeightNonNegative(edges, mid);
  }

  /** A walk through vertex `k` (and otherwise below `k`) splits into a walk
      to `k` and a walk from `k`, both avoiding `k` inside, that weigh no more
      together: the loops at `k` in between weigh at least nothing. */
  lemma SplitAtPivot(edges: seq<Edge>, p: seq<EdgeId>, i: VertexId, j: VertexId, k: nat)
    returns (p1: seq<EdgeId>, p2: seq<EdgeId>)
    requires NonNegative(edges) && IsPath(edges, p, i, j)
    requires InteriorBelow(edges, p, k + 1) && !InteriorBelow(edges, p, k)
    ensures IsPath(edges, p1, i, k) && InteriorBelow(edges, p1, k)
    ensures IsPath(edges, p2, k, j) && InteriorBelow(edges, p2, k)
    ensures PathWeight(edges, p1) + PathWeight(edges, p2) <= PathWeight(edges, p)
  {
    var x :| 0 <= x < |p| - 1 && edges[p[x]].to >= k;
    var a := FirstVisit(edges, p, x, k);
    var b := LastVisit(edges, p, x, k);
    p1 := p[..a + 1];
    p2 := p[b + 1..];
    DropMiddle(edges, p, a + 1, b + 1);
    HeadToPivot(edges, p, i, j, k, a);
    PivotToTail(edges, p, i, j, k, b);
  }

  /** The walk up to the first interior visit of `k` reaches `k` and stays
      below it inside. */
  lemma HeadToPivot(edges: seq<Edge>, p: seq<EdgeId>, i: VertexId, j: VertexId, k: nat, a: nat)
    requires IsPath(edges, p, i, j) && InteriorBelow(edges, p, k + 1)
    requires a < |p| - 1 && edges[p[a]].to == k
    requires forall y :: 0 <= y < a ==> edges[p[y]].to != k
    ensures IsPath(edges, p[..a + 1], i, k) && InteriorBelow(edges, p[..a + 1], k)
  {
    var p1 := p[..a + 1];
    PathSlice(edges, p, 0, a + 1);
    assert p[0..a + 1] == p1;
    forall y | 0 <= y < |p1| - 1 ensures edges[p1[y]].to < k {
      assert p1[y] == p[y];
    }
  }

  /** The walk after the last interior visit of `k` leaves from `k` and
      stays below it inside. */
  lemma PivotToTail(edges: seq<Edge>, p: seq<EdgeId>, i: VertexId, j: VertexId, k: nat, b: nat)
    requires IsPath(edges, p, i, j) && InteriorBelow(edges, p, k + 1)
    requires b < |p| - 1 && edges[p[b]].to == k
    requires forall y :: b < y < |p| - 1 ==> edges[p[y]].to != k
    ensures IsPath(edges, p[b + 1..], k, j) && InteriorBelow(edges, p[b + 1..], k)
  {
    var p2 := p[b + 1..];
    PathSlice(edges, p, b + 1, |p|);
    assert p[b + 1..|p|] == p2;
    assert edges[p[b]].to == edges[p[b + 1]].from;
    forall y | 0 <= y < |p2| - 1 ensures edges[p2[y]].to < k {
      assert p2[y] == p[b + 1 + y];
    }
  }
}

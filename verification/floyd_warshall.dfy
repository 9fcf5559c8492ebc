/** Correctness of the router's table (router.h:59-145).  Alongside the
    table we carry, as a ghost, a witness walk for every filled cell: the
    walk the cell's weight was obtained from.  The invariant `Good` says,
    after the passes through vertices `0..k-1`:
    - every filled cell's witness is a walk from `i` to `j` whose inner
      vertices are all below `k`, and whose weight is the cell's weight;
    - the cell's predecessor edge is the witness's last edge (none when the
      witness is empty);
    - following the predecessor leads to a cell whose witness is exactly
      this witness minus its last edge (prefix closure);
    - the cell is no heavier than any walk from `i` to `j` with inner
      vertices below `k`, and is filled if such a walk exists.
    At `k = V` this is all-pairs optimality, and prefix closure is what
    makes the backward walk of `BuildRoute` terminate and reproduce the
    witness. */
module FloydWarshall {
  import opened Wrappers
  import opened Graphs
  import opened Paths
  import opened RouteTables

  type Witnesses = seq<seq<seq<EdgeId>>>

  predicate WShape(w: Witnesses, n: nat) {
    |w| == n && forall i :: 0 <= i < n ==> |w[i]| == n
  }

  function Last(p: seq<EdgeId>): EdgeId
    requires p != []
  {
    p[|p| - 1]
  }

  ghost function InitWitness(g: Graph): (w: Witnesses)
    requires Valid(g)
    ensures WShape(w, VertexCount(g))
  {
    var n := VertexCount(g);
    seq(n, i requires 0 <= i < n => seq(n, j requires 0 <= j < n =>
      var c := InitCell(g, i, j);
      if c.Some? && c.value.prevEdge.Some? then [c.value.prevEdge.value] else []))
  }

  ghost function WitnessStep(t: Table, w: Witnesses, k: nat): (w': Witnesses)
    requires IsSquare(t, |t|) && WShape(w, |t|) && k < |t|
    ensures WShape(w', |t|)
  {
    seq(|t|, i requires 0 <= i < |t| => seq(|t|, j requires 0 <= j < |t| =>
      if Relaxes(t, i, j, k) then w[i][k] + w[k][j] else w[i][j]))
  }

  ghost function Witness(g: Graph, k: nat): (w: Witnesses)
    requires Valid(g) && k <= VertexCount(g)
    ensures WShape(w, VertexCount(g))
    decreases k
  {
    if k == 0 then InitWitness(g) else WitnessStep(Closure(g, k - 1), Witness(g, k - 1), k - 1)
  }

  /** Cell `(i, j)` after the passes through `0..k-1`: the diagonal is
      `{0, no edge}`; a filled cell's witness is a walk from `i` to `j` with
      inner vertices below `k`, weighing the cell's weight, whose last edge
      is the cell's predecessor. */
  ghost predicate CellSound(g: Graph, t: Table, w: Witnesses, k: nat, i: nat, j: nat)
    requires IsSquare(t, VertexCount(g)) && WShape(w, VertexCount(g))
    requires i < VertexCount(g) && j < VertexCount(g)
  {
    && (i == j ==> t[i][j] == Diagonal)
    && (t[i][j].Some? ==>
          && IsPath(g.edges, w[i][j], i, j)
          && InteriorBelow(g.edges, w[i][j], k)
          && PathWeight(g.edges, w[i][j]) == t[i][j].value.weight
          && t[i][j].value.prevEdge == (if w[i][j] == [] then None else Some(Last(w[i][j]))))
  }

  /** Following the predecessor of a filled cell `(i, j)` leads to a filled
      cell `(i, u)` whose witness is this one minus its last edge. */
  ghost predicate CellPrefix(g: Graph, t: Table, w: Witnesses, i: nat, j: nat)
    requires IsSquare(t, VertexCount(g)) && WShape(w, VertexCount(g))
    requires i < VertexCount(g) && j < VertexCount(g)
  {
    t[i][j].Some? && w[i][j] != [] && Last(w[i][j]) < |g.edges| ==>
      var u := g.edges[Last(w[i][j])].from;
      && u < VertexCount(g)
      && t[i][u].Some?
      && w[i][u] == w[i][j][..|w[i][j]| - 1]
  }

  ghost predicate CellGood(g: Graph, t: Table, w: Witnesses, k: nat, i: nat, j: nat)
    requires IsSquare(t, VertexCount(g)) && WShape(w, VertexCount(g))
    requires i < VertexCount(g) && j < VertexCount(g)
  {
    CellSound(g, t, w, k, i, j) && CellPrefix(g, t, w, i, j)
  }

  /** Cell `(i, j)` is no heavier than any walk whose inner vertices are below `k`. */
  ghost predicate Optimal(g: Graph, t: Table, k: nat, i: nat, j: nat)
    requires IsSquare(t, VertexCount(g)) && i < VertexCount(g) && j < VertexCount(g)
  {
    forall p :: IsPath(g.edges, p, i, j) && InteriorBelow(g.edges, p, k) ==>
      t[i][j].Some? && t[i][j].value.weight <= PathWeight(g.edges, p)
  }

  ghost predicate Good(g: Graph, t: Table, w: Witnesses, k: nat) {
    && IsSquare(t, VertexCount(g)) && WShape(w, VertexCount(g))
    && forall i, j :: 0 <= i < VertexCount(g) && 0 <= j < VertexCount(g) ==>
         CellGood(g, t, w, k, i, j) && Optimal(g, t, k, i, j)
  }

  // ---------------------------------------------------------------- base

  lemma InitCellGood(g: Graph, i: nat, j: nat)
    requires Routable(g) && i < VertexCount(g) && j < VertexCount(g)
    ensures CellGood(g, InitTable(g), InitWitness(g), 0, i, j)
    ensures Optimal(g, InitTable(g), 0, i, j)
  {
    var t, w, E := InitTable(g), InitWitness(g), g.edges;
    assert t[i][j] == InitCell(g, i, j);
    InitCellSpec(g, i, j);
    InitCellSpec(g, i, i);
    assert t[i][i] == InitCell(g, i, i);
    if t[i][j].Some? && i != j {
      var e := t[i][j].value.prevEdge.value;
      assert w[i][j] == [e];
      SingleEdgePath(E, e);
      assert w[i][i] == [];
      assert [e][..0] == [];
    }
    forall p | IsPath(E, p, i, j) && InteriorBelow(E, p, 0)
      ensures t[i][j].Some? && t[i][j].value.weight <= PathWeight(E, p)
    {
      if |p| == 0 {
      } else {
        assert |p| == 1;
        assert p[..0] == [];
        assert E[p[0]].from == i && E[p[0]].to == j;
      }
    }
  }

  lemma InitGood(g: Graph)
    requires Routable(g)
    ensures Good(g, InitTable(g), InitWitness(g), 0)
  {
    forall i, j | 0 <= i < VertexCount(g) && 0 <= j < VertexCount(g)
      ensures CellGood(g, InitTable(g), InitWitness(g), 0, i, j)
      ensures Optimal(g, InitTable(g), 0, i, j)
    {
      InitCellGood(g, i, j);
    }
  }

  // ---------------------------------------------------------------- step

  /** Filled cells weigh at least nothing. */
  lemma CellNonNegative(g: Graph, t: Table, w: Witnesses, k: nat, i: nat, j: nat)
    requires Routable(g) && Good(g, t, w, k) && i < VertexCount(g) && j < VertexCount(g)
    ensures t[i][j].Some? ==> t[i][j].value.weight >= 0.0
  {
    assert CellGood(g, t, w, k, i, j);
    if t[i][j].Some? {
      PathWeightNonNegative(g.edges, w[i][j]);
    }
  }

  /** The pass through `k` leaves row `k`, column `k` and the diagonal alone. */
  lemma NoSelfRelax(g: Graph, t: Table, w: Witnesses, k: nat, i: nat)
    requires Routable(g) && Good(g, t, w, k) && k < VertexCount(g) && i < VertexCount(g)
    ensures !Relaxes(t, i, k, k) && !Relaxes(t, k, i, k) && !Relaxes(t, i, i, k)
  {
    assert CellGood(g, t, w, k, k, k) && CellGood(g, t, w, k, i, i);
    CellNonNegative(g, t, w, k, i, k);
    CellNonNegative(g, t, w, k, k, i);
  }

  /** The witness of a filled cell `(a, b)` weighs that of its predecessor cell plus the last edge. */
  lemma WitnessLastStep(g: Graph, t: Table, w: Witnesses, k: nat, a: nat, b: nat)
    requires Routable(g) && Good(g, t, w, k) && a < VertexCount(g) && b < VertexCount(g)
    requires t[a][b].Some? && w[a][b] != []
    ensures Last(w[a][b]) < |g.edges|
    ensures var u := g.edges[Last(w[a][b])].from;
      && u < VertexCount(g) && t[a][u].Some?
      && t[a][b].value.weight == t[a][u].value.weight + g.edges[Last(w[a][b])].weight
      && IsPath(g.edges, w[a][u], a, u) && InteriorBelow(g.edges, w[a][u], k)
      && (u != a ==> |w[a][b]| >= 2 && u < k)
  {
    assert CellGood(g, t, w, k, a, b);
    var p := w[a][b];
    var u := g.edges[Last(p)].from;
    PathDropLast(g.edges, p, a, b, k);
    assert CellGood(g, t, w, k, a, u);
    if u != a {
      assert |p| >= 2;
      assert g.edges[p[|p| - 2]].to == u;
    }
  }

  /** A cell the pass leaves alone keeps its weight, predecessor and witness. */
  lemma KeptSound(g: Graph, t: Table, w: Witnesses, k: nat, i: nat, j: nat)
    requires Routable(g) && Good(g, t, w, k) && k < VertexCount(g)
    requires i < VertexCount(g) && j < VertexCount(g) && !Relaxes(t, i, j, k)
    ensures CellSound(g, ThroughVertex(t, k), WitnessStep(t, w, k), k + 1, i, j)
  {
    var t', w' := ThroughVertex(t, k), WitnessStep(t, w, k);
    assert t'[i][j] == RelaxCell(t, i, j, k);
    assert t'[i][j] == t[i][j] && w'[i][j] == w[i][j];
    assert CellGood(g, t, w, k, i, j);
    if t[i][j].Some? {
      InteriorBelowMonotone(g.edges, w[i][j], k, k + 1);
    }
  }

  /** The predecessor cell `(i, u)` of a cell the pass leaves alone is not
      relaxed either: the walk `k ~> u -> j` bounds cell `(k, j)`, and the pass
      found cell `(i, j)` no heavier than `(i, k)` plus `(k, j)`. */
  lemma KeptPredecessor(g: Graph, t: Table, w: Witnesses, k: nat, i: nat, j: nat)
    requires Routable(g) && Good(g, t, w, k) && k < VertexCount(g)
    requires i < VertexCount(g) && j < VertexCount(g) && !Relaxes(t, i, j, k)
    requires t[i][j].Some? && w[i][j] != []
    ensures Last(w[i][j]) < |g.edges| && g.edges[Last(w[i][j])].from < VertexCount(g)
    ensures !Relaxes(t, i, g.edges[Last(w[i][j])].from, k)
  {
    var E := g.edges;
    WitnessLastStep(g, t, w, k, i, j);
    assert CellGood(g, t, w, k, i, j);
    var e := Last(w[i][j]);
    var u := E[e].from;
    if u == i {
      NoSelfRelax(g, t, w, k, i);
    } else if t[i][k].Some? && t[k][u].Some? {
      ViaPredecessorBound(g, t, w, k, k, j, e);
      PredecessorKept(t, k, i, j, u, E[e].weight);
    }
  }

  /** When the pass leaves cell `(i, j)` alone and that cell is cell
      `(i, u)` plus an edge that also bounds `(k, j)` from `(k, u)`, the pass
      leaves `(i, u)` alone too. */
  lemma PredecessorKept(t: Table, k: nat, i: nat, j: nat, u: nat, we: real)
    requires IsSquare(t, |t|) && k < |t| && i < |t| && j < |t| && u < |t|
    requires !Relaxes(t, i, j, k) && t[i][j].Some? && t[i][u].Some? && t[i][k].Some? && t[k][u].Some?
    requires t[i][j].value.weight == t[i][u].value.weight + we
    requires t[k][j].Some? && t[k][j].value.weight <= t[k][u].value.weight + we
    ensures !Relaxes(t, i, u, k)
  {
  }

  lemma KeptPrefix(g: Graph, t: Table, w: Witnesses, k: nat, i: nat, j: nat)
    requires Routable(g) && Good(g, t, w, k) && k < VertexCount(g)
    requires i < VertexCount(g) && j < VertexCount(g) && !Relaxes(t, i, j, k)
    ensures CellPrefix(g, ThroughVertex(t, k), WitnessStep(t, w, k), i, j)
  {
    var t', w' := ThroughVertex(t, k), WitnessStep(t, w, k);
    assert t'[i][j] == RelaxCell(t, i, j, k);
    assert t'[i][j] == t[i][j] && w'[i][j] == w[i][j];
    if t[i][j].Some? && w[i][j] != [] {
      KeptPredecessor(g, t, w, k, i, j);
      var u := g.edges[Last(w[i][j])].from;
      assert CellGood(g, t, w, k, i, j);
      assert t'[i][u] == RelaxCell(t, i, u, k);
      assert w'[i][u] == w[i][u];
    }
  }

  /** When the pass replaces cell `(i, j)` with the walk `i ~> k ~> u -> j`,
      cell `(i, u)` holds `i ~> k ~> u` after the pass: either the pass
      replaced it too, or `u` is `k` itself. */
  lemma RelaxedPredecessor(g: Graph, t: Table, w: Witnesses, k: nat, i: nat, j: nat)
    requires Routable(g) && Good(g, t, w, k) && k < VertexCount(g)
    requires i < VertexCount(g) && j < VertexCount(g) && Relaxes(t, i, j, k)
    requires t[k][j].Some? && w[k][j] != []
    ensures Last(w[k][j]) < |g.edges|
    ensures var u := g.edges[Last(w[k][j])].from;
      && u < VertexCount(g)
      && ThroughVertex(t, k)[i][u].Some?
      && WitnessStep(t, w, k)[i][u] == w[i][k] + w[k][u]
      && w[k][u] == w[k][j][..|w[k][j]| - 1]
  {
    var t', w', E := ThroughVertex(t, k), WitnessStep(t, w, k), g.edges;
    WitnessLastStep(g, t, w, k, k, j);
    var e := Last(w[k][j]);
    var u := E[e].from;
    assert CellGood(g, t, w, k, k, j);
    if u != k {
      if t[i][u].Some? {
        ViaPredecessorBound(g, t, w, k, i, j, e);
      }
      PredecessorRelaxes(t, k, i, j, u, E[e].weight);
    }
    assert t'[i][u] == RelaxCell(t, i, u, k);
    if Relaxes(t, i, u, k) {
      assert w'[i][u] == w[i][k] + w[k][u];
    } else {
      assert u == k;
      assert CellGood(g, t, w, k, k, k);
      assert w[k][u] == [];
      assert w[i][k] + w[k][u] == w[i][k];
      assert w'[i][u] == w[i][u];
    }
  }

  /** The walk `i ~> u -> j` through a filled cell `(i, u)` and an edge
      bounds cell `(i, j)`. */
  lemma ViaPredecessorBound(g: Graph, t: Table, w: Witnesses, k: nat, i: nat, j: nat, e: EdgeId)
    requires Routable(g) && Good(g, t, w, k) && i < VertexCount(g) && j < VertexCount(g)
    requires e < |g.edges| && g.edges[e].to == j && g.edges[e].from < k
    requires t[i][g.edges[e].from].Some?
    ensures t[i][j].Some? && t[i][j].value.weight <= t[i][g.edges[e].from].value.weight + g.edges[e].weight
  {
    var E, u := g.edges, g.edges[e].from;
    assert CellGood(g, t, w, k, i, u);
    SingleEdgePath(E, e);
    PathConcat(E, w[i][u], [e], i, u, j, k);
    assert Optimal(g, t, k, i, j);
  }

  /** When the pass beats cell `(i, j)` and the route through `k` to `j`
      ends with an edge from `u`, the pass beats cell `(i, u)` as well,
      provided `(i, u)` was no better than `(i, j)` minus that edge. */
  lemma PredecessorRelaxes(t: Table, k: nat, i: nat, j: nat, u: nat, we: real)
    requires IsSquare(t, |t|) && k < |t| && i < |t| && j < |t| && u < |t|
    requires Relaxes(t, i, j, k) && t[k][u].Some?
    requires t[k][j].value.weight == t[k][u].value.weight + we
    requires t[i][u].Some? ==> t[i][j].Some? && t[i][j].value.weight <= t[i][u].value.weight + we
    ensures Relaxes(t, i, u, k)
  {
  }

  /** A cell the pass replaces gets the joined witness `i ~> k ~> j`. */
  lemma RelaxedSound(g: Graph, t: Table, w: Witnesses, k: nat, i: nat, j: nat)
    requires Routable(g) && Good(g, t, w, k) && k < VertexCount(g)
    requires i < VertexCount(g) && j < VertexCount(g) && Relaxes(t, i, j, k)
    ensures CellSound(g, ThroughVertex(t, k), WitnessStep(t, w, k), k + 1, i, j)
    ensures w[k][j] != [] && WitnessStep(t, w, k)[i][j] == w[i][k] + w[k][j]
  {
    NoSelfRelax(g, t, w, k, i);
    assert CellGood(g, t, w, k, i, k) && CellGood(g, t, w, k, k, j);
    JoinSound(g, t, w, k, i, j);
  }

  /** The joined witness of a relaxed cell off the diagonal, from two sound
      halves, is sound one pass on. */
  lemma JoinSound(g: Graph, t: Table, w: Witnesses, k: nat, i: nat, j: nat)
    requires IsSquare(t, VertexCount(g)) && WShape(w, VertexCount(g))
    requires k < VertexCount(g) && i < VertexCount(g) && j < VertexCount(g)
    requires i != j && k != j && Relaxes(t, i, j, k)
    requires CellSound(g, t, w, k, i, k) && CellSound(g, t, w, k, k, j)
    ensures CellSound(g, ThroughVertex(t, k), WitnessStep(t, w, k), k + 1, i, j)
    ensures w[k][j] != [] && WitnessStep(t, w, k)[i][j] == w[i][k] + w[k][j]
  {
    var p, q := w[i][k], w[k][j];
    var c := Cell(t[i][k].value.weight + t[k][j].value.weight, t[k][j].value.prevEdge);
    JoinCell(t, w, k, i, j);
    JoinPath(g.edges, p, q, i, k, j);
    assert c.prevEdge == Some(Last(p + q));
    CellSoundOf(g, ThroughVertex(t, k), WitnessStep(t, w, k), k + 1, i, j, c, p + q);
  }

  /** A filled cell off the diagonal is sound when its witness is a walk
      below the pass bound, weighs what the cell says and ends with the
      cell's predecessor. */
  lemma CellSoundOf(g: Graph, t: Table, w: Witnesses, k: nat, i: nat, j: nat, c: Cell, p: seq<EdgeId>)
    requires IsSquare(t, VertexCount(g)) && WShape(w, VertexCount(g))
    requires i < VertexCount(g) && j < VertexCount(g) && i != j
    requires t[i][j] == Some(c) && w[i][j] == p
    requires IsPath(g.edges, p, i, j) && InteriorBelow(g.edges, p, k)
    requires PathWeight(g.edges, p) == c.weight && p != [] && c.prevEdge == Some(Last(p))
    ensures CellSound(g, t, w, k, i, j)
  {
  }

  /** The relaxed cell and its witness, read off the two halves. */
  lemma JoinCell(t: Table, w: Witnesses, k: nat, i: nat, j: nat)
    requires IsSquare(t, |t|) && WShape(w, |t|) && k < |t| && i < |t| && j < |t|
    requires Relaxes(t, i, j, k)
    ensures WitnessStep(t, w, k)[i][j] == w[i][k] + w[k][j]
    ensures ThroughVertex(t, k)[i][j] == Some(Cell(t[i][k].value.weight + t[k][j].value.weight,
              if t[k][j].value.prevEdge.Some? then t[k][j].value.prevEdge else t[i][k].value.prevEdge))
  {
    assert ThroughVertex(t, k)[i][j] == RelaxCell(t, i, j, k);
  }

  /** Two walks below `k` that meet at `k` join into a walk below `k + 1`
      that ends with the second one's last edge. */
  lemma JoinPath(E: seq<Edge>, p: seq<EdgeId>, q: seq<EdgeId>, i: VertexId, k: VertexId, j: VertexId)
    requires IsPath(E, p, i, k) && IsPath(E, q, k, j) && k != j
    requires InteriorBelow(E, p, k) && InteriorBelow(E, q, k)
    ensures IsPath(E, p + q, i, j) && InteriorBelow(E, p + q, k + 1)
    ensures PathWeight(E, p + q) == PathWeight(E, p) + PathWeight(E, q)
    ensures q != [] && Last(p + q) == Last(q)
  {
    PathConcat(E, p, q, i, k, j, k + 1);
    InteriorBelowMonotone(E, p, k, k + 1);
    InteriorBelowMonotone(E, q, k, k + 1);
  }

  lemma RelaxedPrefix(g: Graph, t: Table, w: Witnesses, k: nat, i: nat, j: nat)
    requires Routable(g) && Good(g, t, w, k) && k < VertexCount(g)
    requires i < VertexCount(g) && j < VertexCount(g) && Relaxes(t, i, j, k)
    ensures CellPrefix(g, ThroughVertex(t, k), WitnessStep(t, w, k), i, j)
  {
    var w' := WitnessStep(t, w, k);
    RelaxedSound(g, t, w, k, i, j);
    RelaxedPredecessor(g, t, w, k, i, j);
    assert Last(w'[i][j]) == Last(w[k][j]);
    assert w'[i][j][..|w'[i][j]| - 1] == w[i][k] + w[k][j][..|w[k][j]| - 1];
  }

  lemma StepOptimal(g: Graph, t: Table, w: Witnesses, k: nat, i: nat, j: nat)
    requires Routable(g) && Good(g, t, w, k) && k < VertexCount(g)
    requires i < VertexCount(g) && j < VertexCount(g)
    ensures Optimal(g, ThroughVertex(t, k), k + 1, i, j)
  {
    var t', E := ThroughVertex(t, k), g.edges;
    assert t'[i][j] == RelaxCell(t, i, j, k);
    ThroughVertexMonotone(t, k, i, j);
    forall p | IsPath(E, p, i, j) && InteriorBelow(E, p, k + 1)
      ensures t'[i][j].Some? && t'[i][j].value.weight <= PathWeight(E, p)
    {
      if InteriorBelow(E, p, k) {
        assert Optimal(g, t, k, i, j);
      } else {
        var p1, p2 := SplitAtPivot(E, p, i, j, k);
        assert Optimal(g, t, k, i, k) && Optimal(g, t, k, k, j);
      }
    }
  }

  /** The pass through vertex `k' - 1` turns a good table for the first
      `k' - 1` vertices into one for the first `k'`. */
  lemma StepGood(g: Graph, t: Table, w: Witnesses, k': nat)
    requires Routable(g) && 0 < k' <= VertexCount(g) && Good(g, t, w, k' - 1)
    ensures Good(g, ThroughVertex(t, k' - 1), WitnessStep(t, w, k' - 1), k')
  {
    var k := k' - 1;
    var t', w' := ThroughVertex(t, k), WitnessStep(t, w, k);
    forall i, j | 0 <= i < VertexCount(g) && 0 <= j < VertexCount(g)
      ensures CellGood(g, t', w', k', i, j) && Optimal(g, t', k', i, j)
    {
      if Relaxes(t, i, j, k) {
        RelaxedSound(g, t, w, k, i, j);
        RelaxedPrefix(g, t, w, k, i, j);
      } else {
        KeptSound(g, t, w, k, i, j);
        KeptPrefix(g, t, w, k, i, j);
      }
      StepOptimal(g, t, w, k, i, j);
    }
  }

  lemma {:induction false} ClosureGood(g: Graph, k: nat)
    requires Routable(g) && k <= VertexCount(g)
    ensures Good(g, Closure(g, k), Witness(g, k), k)
    decreases k
  {
    if k == 0 {
      InitGood(g);
    } else {
      ClosureGood(g, k - 1);
      var t, w := Closure(g, k - 1), Witness(g, k - 1);
      StepGood(g, t, w, k);
    }
  }

  // ---------------------------------------------------------------- result

  /** No walk has an inner vertex outside the graph. */
  lemma InteriorBelowVertexCount(g: Graph, p: seq<EdgeId>, s: VertexId, t: VertexId)
    requires Routable(g) && IsPath(g.edges, p, s, t)
    ensures InteriorBelow(g.edges, p, VertexCount(g))
  {
  }

  /** Cells hold no negative weight and the diagonal is `{0, no edge}`. */
  ghost predicate TableReady(t: Table) {
    && IsSquare(t, |t|)
    && (forall i :: 0 <= i < |t| ==> t[i][i] == Diagonal)
    && (forall i, j :: 0 <= i < |t| && 0 <= j < |t| && t[i][j].Some? ==> t[i][j].value.weight >= 0.0)
  }

  lemma ClosureReady(g: Graph, k: nat)
    requires Routable(g) && k <= VertexCount(g)
    ensures TableReady(Closure(g, k))
  {
    ClosureGood(g, k);
    var t: Table, w: Witnesses := Closure(g, k), Witness(g, k);
    forall i, j | 0 <= i < |t| && 0 <= j < |t| && t[i][j].Some?
      ensures t[i][j].value.weight >= 0.0
    {
      CellNonNegative(g, t, w, k, i, j);
    }
    forall i | 0 <= i < |t| ensures t[i][i] == Diagonal {
      assert CellGood(g, t, w, k, i, i);
    }
  }

  /** The finished table (router.h:113-121, 124-145): cell `(i, j)` is filled
      exactly when some walk leads from `i` to `j`; its witness is then a
      lightest such walk and weighs the cell's weight, and its predecessor
      cells are prefix-closed along that witness. */
  lemma TableCorrect(g: Graph, i: VertexId, j: VertexId)
    requires Routable(g) && i < VertexCount(g) && j < VertexCount(g)
    ensures var t, w := Closure(g, VertexCount(g)), Witness(g, VertexCount(g));
      && (t[i][j].Some? <==> Reachable(g.edges, i, j))
      && (t[i][j].Some? ==>
            && IsShortestPath(g.edges, w[i][j], i, j)
            && PathWeight(g.edges, w[i][j]) == t[i][j].value.weight)
      && (i == j ==> t[i][j] == Diagonal)
  {
    var n := VertexCount(g);
    var t: Table, w: Witnesses := Closure(g, n), Witness(g, n);
    ClosureGood(g, n);
    assert CellGood(g, t, w, n, i, j) && Optimal(g, t, n, i, j);
    forall q | IsPath(g.edges, q, i, j)
      ensures t[i][j].Some? && t[i][j].value.weight <= PathWeight(g.edges, q)
    {
      InteriorBelowVertexCount(g, q, i, j);
    }
  }

  /** The facts the backward walk of `BuildRoute` relies on, for row `i`. */
  lemma RowWalkable(g: Graph, i: VertexId, j: VertexId)
    requires Routable(g) && i < VertexCount(g) && j < VertexCount(g)
    ensures var t, w := Closure(g, VertexCount(g)), Witness(g, VertexCount(g));
      t[i][j].Some? ==>
        && IsPath(g.edges, w[i][j], i, j)
        && t[i][j].value.prevEdge == (if w[i][j] == [] then None else Some(Last(w[i][j])))
        && (w[i][j] != [] ==>
              var u := g.edges[Last(w[i][j])].from;
              && u < VertexCount(g)
              && t[i][u].Some?
              && w[i][u] == w[i][j][..|w[i][j]| - 1])
  {
    var n := VertexCount(g);
    ClosureGood(g, n);
    assert CellGood(g, Closure(g, n), Witness(g, n), n, i, j);
  }
}

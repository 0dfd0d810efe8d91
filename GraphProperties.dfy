/**
 * Properties of the graph model that relate several operations, or that
 * characterise the enumerations against the point queries.
 */
module GraphProperties {
  import opened Graphs
  import opened Bijections
  import opened GraphModel

  // ---------------------------------------------------------------------------
  // What each mutation leaves alone

  /**
   * Adding a vertex keeps every old cell, zeroes every new one, changes no
   * other label, and so loses no edge between existing labels.
   */
  lemma AddVertexKeepsEdges<V(!new)>(g: Graph<V>, v: V)
    requires Inv(g) && !ContainsVertex(g, v)
    ensures var h := AddVertex(g, v).0;
            && (forall i, j :: 0 <= i < |g.cells| && 0 <= j < |g.cells| ==> h.cells[i][j] == g.cells[i][j])
            && (forall i, j :: 0 <= i < |h.cells| && 0 <= j < |h.cells| && (|g.cells| <= i || |g.cells| <= j) ==>
                  h.cells[i][j] == 0)
            && (forall u :: u != v ==> (ContainsVertex(h, u) <==> ContainsVertex(g, u)))
            && (forall s, d :: ContainsVertex(g, s) && ContainsVertex(g, d) ==>
                  EdgeWeight(h, s, d) == EdgeWeight(g, s, d))
  {
  }

  /** A successful `addEdge` changes the one cell of its two labels and no other. */
  lemma AddEdgeChangesOneCell<V(!new)>(g: Graph<V>, source: V, destination: V, weight: int)
    requires Inv(g) && AddEdge(g, source, destination, weight).1 == Ok(true)
    ensures var h := AddEdge(g, source, destination, weight).0;
            var si, di := g.bijection.GetValue(source), g.bijection.GetValue(destination);
            && |h.cells| == |g.cells|
            && forall i, j :: 0 <= i < |g.cells| && 0 <= j < |g.cells| ==>
                 h.cells[i][j] == if i == si && j == di then weight else g.cells[i][j]
  {
  }

  /**
   * A successful `removeVertex` zeroes the row and the column of the label's
   * index: every edge into or out of it reads 0, every other edge is kept.
   */
  lemma RemoveVertexIsolates<V(!new)>(g: Graph<V>, v: V)
    requires Inv(g) && ContainsVertex(g, v)
    ensures var h := RemoveVertex(g, v).0;
            var k := g.bijection.GetValue(v);
            && (forall i, j :: 0 <= i < |g.cells| && 0 <= j < |g.cells| ==>
                  h.cells[i][j] == if i == k || j == k then 0 else g.cells[i][j])
            && forall s, d :: ContainsVertex(g, s) && ContainsVertex(g, d) ==>
                 EdgeWeight(h, s, d) ==
                   if g.bijection.GetValue(s) == k || g.bijection.GetValue(d) == k then 0 else EdgeWeight(g, s, d)
  {
  }

  /** A successful `removeEdge` zeroes the one cell of its two labels and no other. */
  lemma RemoveEdgeChangesOneCell<V(!new)>(g: Graph<V>, source: V, destination: V)
    requires Inv(g) && ContainsVertex(g, source) && ContainsVertex(g, destination)
    ensures var h := RemoveEdge(g, source, destination).0;
            var si, di := g.bijection.GetValue(source), g.bijection.GetValue(destination);
            && |h.cells| == |g.cells|
            && forall i, j :: 0 <= i < |g.cells| && 0 <= j < |g.cells| ==>
                 h.cells[i][j] == if i == si && j == di then 0 else g.cells[i][j]
  {
  }

  // ---------------------------------------------------------------------------
  // The point queries

  /**
   * A contained label's index lies inside the matrix, so `containsEdge` and
   * `edgeWeight` never read out of bounds; a label is contained exactly when
   * `edgeWeight` of its self-loop is not -1.
   */
  lemma ContainedIndexInMatrix<V(!new)>(g: Graph<V>, v: V)
    requires Inv(g)
    ensures ContainsVertex(g, v) ==> 0 <= g.bijection.GetValue(v) < |g.cells|
    ensures ContainsVertex(g, v) <==> EdgeWeight(g, v, v) != -1
  {
  }

  /**
   * The vertex counter is the number of indices handed out (the frontier)
   * minus the number pushed back, and never exceeds the matrix size.
   */
  lemma VertexSizeIsHandedOutMinusReturned<V(!new)>(g: Graph<V>)
    requires Inv(g)
    ensures VertexSize(g) == g.stack[0] - (|g.stack| - 1)
    ensures VertexSize(g) <= |g.cells|
  {
  }

  // ---------------------------------------------------------------------------
  // edges() and vertices() against the point queries

  lemma {:induction false} RowEdgesMembership<V(!new)>(g: Graph<V>, i: int, j: int, e: Edge<V>)
    requires Inv(g) && 0 <= i < |g.cells| && 0 <= j <= |g.cells|
    ensures e in RowEdges(g, i, j) <==> exists c :: 0 <= c < j && e in CellEdges(g, i, c)
    decreases j
  {
    if j > 0 {
      RowEdgesMembership(g, i, j - 1, e);
    }
  }

  lemma {:induction false} EdgesOfRowsMembership<V(!new)>(g: Graph<V>, i: int, e: Edge<V>)
    requires Inv(g) && 0 <= i <= |g.cells|
    ensures e in EdgesOfRows(g, i) <==>
              exists r, c :: 0 <= r < i && 0 <= c < |g.cells| && e in CellEdges(g, r, c)
    decreases i
  {
    if i > 0 {
      EdgesOfRowsMembership(g, i - 1, e);
      RowEdgesMembership(g, i - 1, |g.cells|, e);
    }
  }

  /**
   * `edges()` lists exactly the positive-weight edges between labels that
   * still own their index, each with the weight `edgeWeight` reports.
   */
  lemma EdgesExact<V(!new)>(g: Graph<V>, e: Edge<V>)
    requires Inv(g)
    ensures e in Edges(g) <==>
              && OwnsIndex(g, e.source) && OwnsIndex(g, e.destination)
              && e.weight > 0 && e.weight == EdgeWeight(g, e.source, e.destination)
  {
    var n, b := |g.cells|, g.bijection;
    EdgesOfRowsMembership(g, n, e);
    if e in Edges(g) {
      var r, c :| 0 <= r < n && 0 <= c < n && e in CellEdges(g, r, c);
      assert e == Edge(b.inverse[r], b.inverse[c], g.cells[r][c]);
    }
    if OwnsIndex(g, e.source) && OwnsIndex(g, e.destination) && e.weight > 0
       && e.weight == EdgeWeight(g, e.source, e.destination) {
      var r, c := b.forward[e.source], b.forward[e.destination];
      assert e in CellEdges(g, r, c);
    }
  }

  /** Every reported edge is one `containsEdge` sees. */
  lemma EdgesAreContained<V(!new)>(g: Graph<V>, e: Edge<V>)
    requires Inv(g) && e in Edges(g)
    ensures ContainsEdge(g, e.source, e.destination)
    ensures EdgeWeight(g, e.source, e.destination) == e.weight
  {
    EdgesExact(g, e);
  }

  lemma {:induction false} VerticesBelowExact<V(!new)>(g: Graph<V>, k: int, v: V)
    requires Inv(g) && 0 <= k <= g.stack[0]
    ensures v in VerticesBelow(g, k) <==> OwnsIndex(g, v) && g.bijection.forward[v] < k
    decreases k
  {
    if k > 0 {
      VerticesBelowExact(g, k - 1, v);
      var u := g.bijection.inverse[k - 1];
      assert VerticesBelow(g, k) == VerticesBelow(g, k - 1) + {u};
      assert v == u ==> OwnsIndex(g, v) && g.bijection.forward[v] == k - 1;
    }
  }

  /**
   * `vertices()` lists exactly the labels that own an index below the vertex
   * count: after removals it can list removed labels and miss live ones.
   */
  lemma VerticesExact<V(!new)>(g: Graph<V>, v: V)
    requires Inv(g)
    ensures v in Vertices(g) <==>
              ContainsVertex(g, v) && OwnsIndex(g, v) && g.bijection.GetValue(v) < VertexSize(g)
  {
    VerticesBelowExact(g, if g.vertexCount < 0 then 0 else g.vertexCount, v);
  }

  // ---------------------------------------------------------------------------
  // Sequences of mutations

  /** One call of a mutating operation, with its arguments. */
  datatype GraphOp<V> =
    | AddVertexOp(vertex: V)
    | RemoveVertexOp(vertex: V)
    | AddEdgeOp(source: V, destination: V, weight: int)
    | RemoveEdgeOp(source: V, destination: V)

  /**
   * Applies one call; its outcome is whether the call returned true (an
   * `addEdge` that threw counts as false).
   */
  function ApplyOp<V(!new)>(g: Graph<V>, op: GraphOp<V>): (r: (Graph<V>, bool))
    requires Inv(g)
    ensures Inv(r.0)
    ensures !r.1 ==> r.0 == g
  {
    match op
    case AddVertexOp(v) => AddVertex(g, v)
    case RemoveVertexOp(v) => RemoveVertex(g, v)
    case AddEdgeOp(s, d, w) =>
      var (h, result) := AddEdge(g, s, d, w);
      (h, result == Ok(true))
    case RemoveEdgeOp(s, d) => RemoveEdge(g, s, d)
  }

  /** Runs the calls in order, collecting each one's outcome. */
  function RunOps<V(!new)>(g: Graph<V>, ops: seq<GraphOp<V>>): (r: (Graph<V>, seq<bool>))
    requires Inv(g)
    ensures Inv(r.0) && |r.1| == |ops|
    // a run in which no call returned true leaves the graph as it was
    ensures (forall k :: 0 <= k < |ops| ==> !r.1[k]) ==> r.0 == g
    decreases |ops|
  {
    if ops == [] then (g, [])
    else
      var (g1, b) := ApplyOp(g, ops[0]);
      var (g2, bs) := RunOps(g1, ops[1..]);
      var outcomes := [b] + bs;
      assert outcomes[0] == b;
      assert forall k :: 0 <= k < |bs| ==> bs[k] == outcomes[k + 1];
      (g2, outcomes)
  }

  /** How many of the calls satisfying `kind` returned true. */
  function Succeeded<V>(ops: seq<GraphOp<V>>, outcomes: seq<bool>, kind: GraphOp<V> -> bool): (n: nat)
    requires |outcomes| == |ops|
    ensures n <= |ops|
  {
    if ops == [] then 0
    else (if outcomes[0] && kind(ops[0]) then 1 else 0) + Succeeded(ops[1..], outcomes[1..], kind)
  }

  /**
   * Over any sequence of calls, the vertex count moves by the number of
   * `addVertex` calls that returned true minus the number of `removeVertex`
   * calls that returned true.
   */
  lemma {:induction false} VertexSizeCountsOutcomes<V(!new)>(g: Graph<V>, ops: seq<GraphOp<V>>)
    requires Inv(g)
    ensures var (h, outcomes) := RunOps(g, ops);
            VertexSize(h) == VertexSize(g)
              + Succeeded(ops, outcomes, (op: GraphOp<V>) => op.AddVertexOp?)
              - Succeeded(ops, outcomes, (op: GraphOp<V>) => op.RemoveVertexOp?)
    decreases |ops|
  {
    if ops != [] {
      var (g1, b) := ApplyOp(g, ops[0]);
      VertexSizeCountsOutcomes(g1, ops[1..]);
    }
  }

  /**
   * Over any sequence of calls, the edge count moves by the number of
   * `addEdge` calls that returned true minus the number of `removeEdge` calls
   * that returned true, whether or not those removed an edge.
   */
  lemma {:induction false} EdgeSizeCountsOutcomes<V(!new)>(g: Graph<V>, ops: seq<GraphOp<V>>)
    requires Inv(g)
    ensures var (h, outcomes) := RunOps(g, ops);
            EdgeSize(h) == EdgeSize(g)
              + Succeeded(ops, outcomes, (op: GraphOp<V>) => op.AddEdgeOp?)
              - Succeeded(ops, outcomes, (op: GraphOp<V>) => op.RemoveEdgeOp?)
    decreases |ops|
  {
    if ops != [] {
      var (g1, b) := ApplyOp(g, ops[0]);
      EdgeSizeCountsOutcomes(g1, ops[1..]);
    }
  }

  // ---------------------------------------------------------------------------
  // Single behaviours of the code as written

  /** Adding the same label twice: the second call is refused and the count rises by one. */
  lemma AddVertexTwice<V(!new)>(g: Graph<V>, v: V)
    requires Inv(g) && !ContainsVertex(g, v)
    ensures var (g1, first) := AddVertex(g, v);
            var (g2, second) := AddVertex(g1, v);
            first && !second && g2 == g1 && VertexSize(g2) == VertexSize(g) + 1
  {
  }

  /**
   * Removing the same label twice succeeds twice: the label stays mapped, its
   * index is pushed twice and the count drops by two.
   */
  lemma RemoveVertexTwice<V(!new)>(g: Graph<V>, v: V)
    requires Inv(g) && ContainsVertex(g, v)
    ensures var (g1, first) := RemoveVertex(g, v);
            var (g2, second) := RemoveVertex(g1, v);
            var k := g.bijection.GetValue(v);
            && first && second && ContainsVertex(g2, v)
            && g2.stack == g.stack + [k, k]
            && VertexSize(g2) == VertexSize(g) - 2
  {
  }

  /**
   * A label added right after a removal takes the removed label's index
   * (last in, first out), so the two labels then name the same vertex.
   */
  lemma RemoveThenAddReusesIndex<V(!new)>(g: Graph<V>, v: V, u: V)
    requires Inv(g) && ContainsVertex(g, v) && !ContainsVertex(g, u)
    ensures var g1 := RemoveVertex(g, v).0;
            var (g2, added) := AddVertex(g1, u);
            && added
            && g2.bijection.GetValue(u) == g.bijection.GetValue(v)
            && ContainsVertex(g2, v)
            && forall x :: ContainsVertex(g2, x) ==>
                 EdgeWeight(g2, u, x) == EdgeWeight(g2, v, x) && EdgeWeight(g2, x, u) == EdgeWeight(g2, x, v)
  {
  }

  /**
   * An edge of weight 0 is accepted and counted, yet invisible to
   * `containsEdge`, so it can be added again and counted again.
   */
  lemma ZeroWeightEdgeIsCountedButInvisible<V(!new)>(g: Graph<V>, a: V, b: V)
    requires Inv(g) && ContainsVertex(g, a) && ContainsVertex(g, b) && !ContainsEdge(g, a, b)
    ensures var (g1, first) := AddEdge(g, a, b, 0);
            var (g2, second) := AddEdge(g1, a, b, 0);
            && first == Ok(true) && !ContainsEdge(g1, a, b)
            && second == Ok(true) && EdgeSize(g2) == EdgeSize(g) + 2
  {
  }

  /** Removing an edge that is not there still decrements the edge count. */
  lemma RemoveAbsentEdgeDecrements<V(!new)>(a: V, b: V)
    requires a != b
    ensures var g := AddVertex(AddVertex(Init<V>(INITIAL_SIZE), a).0, b).0;
            var (h, removed) := RemoveEdge(g, a, b);
            removed && !ContainsEdge(g, a, b) && EdgeSize(h) == -1
  {
  }

  /**
   * After adding a and b and removing a, `vertices()` reports the removed a
   * and not the live b.
   */
  lemma VerticesAfterRemoval<V(!new)>(a: V, b: V)
    requires a != b
    ensures var g := RemoveVertex(AddVertex(AddVertex(Init<V>(INITIAL_SIZE), a).0, b).0, a).0;
            Vertices(g) == {a} && ContainsVertex(g, b) && VertexSize(g) == 1
  {
    var g1 := AddVertex(Init<V>(INITIAL_SIZE), a).0;
    var g2 := AddVertex(g1, b).0;
    var g := RemoveVertex(g2, a).0;
    assert g.bijection.inverse[0] == a;
  }

  /**
   * A whole session on a graph of size 10: three vertices, a duplicate edge
   * refused, a negative weight rejected with no change, and a vertex removal
   * that hides its edges but keeps both the label and the edge count.
   */
  lemma Session<V(!new)>(a: V, b: V, c: V)
    requires a != b && b != c && a != c
    ensures var g0 := Init<V>(INITIAL_SIZE);
            var g3 := AddVertex(AddVertex(AddVertex(g0, a).0, b).0, c).0;
            var (g4, added) := AddEdge(g3, a, b, 5);
            var (g5, duplicate) := AddEdge(g4, a, b, 3);
            var (g6, negative) := AddEdge(g5, b, c, -1);
            var (g7, removed) := RemoveVertex(g6, b);
            && added == Ok(true) && duplicate == Ok(false)
            && negative == Err(IllegalArgument("Weight cannot be negative")) && g6 == g5
            && EdgeWeight(g6, a, b) == 5 && !ContainsEdge(g6, b, a)
            && removed && !ContainsEdge(g7, a, b) && VertexSize(g7) == 2
            && ContainsVertex(g7, b) && EdgeSize(g7) == 1
  {
    var g0 := Init<V>(INITIAL_SIZE);
    var g1 := AddVertex(g0, a).0;
    var g2 := AddVertex(g1, b).0;
    var g3 := AddVertex(g2, c).0;
    AddVertexKeepsEdges(g0, a);
    AddVertexKeepsEdges(g1, b);
    AddVertexKeepsEdges(g2, c);
    assert g3.bijection.GetValue(a) == 0 && g3.bijection.GetValue(b) == 1;
    assert forall i, j :: 0 <= i < INITIAL_SIZE && 0 <= j < INITIAL_SIZE ==> g3.cells[i][j] == 0;
    var g4 := AddEdge(g3, a, b, 5).0;
    AddEdgeChangesOneCell(g3, a, b, 5);
    assert !ContainsEdge(g4, b, a);
    var g6 := AddEdge(AddEdge(g4, a, b, 3).0, b, c, -1).0;
    RemoveVertexIsolates(g6, b);
  }
}

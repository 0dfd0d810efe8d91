/**
 * Abstract model of the directed, weighted adjacency-matrix graph: its state
 * as a value, every public operation as a function from the old state to the
 * new state and the result, and the invariant every operation preserves.
 * The class `Structures.DirectedGraph` is proved against these functions.
 */
module GraphModel {
  import opened Graphs
  import opened Bijections

  /** Side length of the matrix made by the no-argument constructor and by `clear`. */
  const INITIAL_SIZE: int := 10

  /** The exception `addEdge` throws. */
  datatype GraphError = IllegalArgument(message: string)

  /** A returned value, or a thrown exception. */
  datatype Result<T> = Ok(value: T) | Err(error: GraphError)

  /** Rows of the square weight matrix; 0 means "no edge". */
  type Matrix = seq<seq<int>>

  /**
   * The whole state of a graph: the matrix, the free-index stack (its top is
   * the LAST element), the label bijection and the two counters.
   */
  datatype Graph<V> = Graph(cells: Matrix, stack: seq<int>, bijection: Bijection<V>,
                            vertexCount: int, edgeCount: int)

  // ---------------------------------------------------------------------------
  // The matrix

  ghost predicate IsSquare(m: Matrix) {
    forall i :: 0 <= i < |m| ==> |m[i]| == |m|
  }

  /** An n-by-n matrix of zeros (a fresh `new int[n][n]`). */
  function Zeros(n: nat): (m: Matrix)
    ensures |m| == n && IsSquare(m)
    ensures forall i, j :: 0 <= i < n && 0 <= j < n ==> m[i][j] == 0
  {
    seq(n, _ => seq(n, _ => 0))
  }

  /**
   * The side length after one growth step, `(int)(len * 1.5)` computed
   * exactly. It is larger than `len` exactly when `len >= 2`.
   */
  function GrownLength(len: nat): (r: nat)
    ensures r >= len
    ensures r > len <==> len >= 2
  {
    len * 3 / 2
  }

  /** The grown matrix: the old cells in the top-left corner, zeros elsewhere. */
  function Grow(m: Matrix): (r: Matrix)
    requires IsSquare(m)
    ensures |r| == GrownLength(|m|) && IsSquare(r)
    ensures forall i, j :: 0 <= i < |m| && 0 <= j < |m| ==> r[i][j] == m[i][j]
    ensures forall i, j :: 0 <= i < |r| && 0 <= j < |r| && (|m| <= i || |m| <= j) ==> r[i][j] == 0
  {
    var n, len := |m|, GrownLength(|m|);
    seq(len, i requires 0 <= i < len =>
      seq(len, j requires 0 <= j < len => if i < n && j < n then m[i][j] else 0))
  }

  /** The matrix with cell [i][j] set to w. */
  function SetCell(m: Matrix, i: int, j: int, w: int): (r: Matrix)
    requires IsSquare(m) && 0 <= i < |m| && 0 <= j < |m|
  {
    m[i := m[i][j := w]]
  }

  /** The matrix with row k and column k set to 0. */
  function ZeroRowAndColumn(m: Matrix, k: int): (r: Matrix)
    requires IsSquare(m)
  {
    seq(|m|, i requires 0 <= i < |m| =>
      seq(|m|, j requires 0 <= j < |m| => if i == k || j == k then 0 else m[i][j]))
  }

  // ---------------------------------------------------------------------------
  // The invariant

  /** At least 2 by 2, square, and every weight non-negative. */
  ghost predicate MatrixInv(m: Matrix) {
    && |m| >= 2
    && IsSquare(m)
    && forall i, j :: 0 <= i < |m| && 0 <= j < |m| ==> m[i][j] >= 0
  }

  /**
   * The free-index stack is never empty; its bottom element is the next
   * never-used index (the frontier), at most the matrix size; every other
   * entry is a recycled index below the frontier.
   */
  ghost predicate StackInv(stack: seq<int>, size: int) {
    && |stack| >= 1
    && 0 <= stack[0] <= size
    && forall k :: 1 <= k < |stack| ==> 0 <= stack[k] < stack[0]
  }

  /**
   * Every label maps below the frontier, the inverse table covers exactly the
   * indices below the frontier, and the label registered at an index maps
   * back to it.
   */
  ghost predicate BijectionInv<V(!new)>(b: Bijection<V>, frontier: int) {
    && (forall v :: v in b.forward ==> 0 <= b.forward[v] < frontier)
    && (forall i :: i in b.inverse <==> 0 <= i < frontier)
    && (forall i :: i in b.inverse ==> b.inverse[i] in b.forward && b.forward[b.inverse[i]] == i)
  }

  ghost predicate Inv<V(!new)>(g: Graph<V>) {
    && MatrixInv(g.cells)
    && StackInv(g.stack, |g.cells|)
    && BijectionInv(g.bijection, g.stack[0])
    && (forall i, j :: 0 <= i < |g.cells| && 0 <= j < |g.cells| && g.cells[i][j] != 0 ==>
          i < g.stack[0] && j < g.stack[0])
    // the frontier is reached only when every recycled index is used up
    && g.vertexCount + |g.stack| - 1 == g.stack[0]
  }

  function Top(stack: seq<int>): (top: int)
    requires |stack| > 0
  {
    stack[|stack| - 1]
  }

  // ---------------------------------------------------------------------------
  // Queries

  /** Whether the label is mapped to an index. */
  predicate ContainsVertex<V(!new)>(g: Graph<V>, v: V): (b: bool) {
    g.bijection.ContainsKey(v)
  }

  /** -1 when either label is absent, else the raw cell (0 for "no edge"). */
  function EdgeWeight<V(!new)>(g: Graph<V>, source: V, destination: V): (w: int)
    requires Inv(g)
    ensures w >= -1
    ensures w == -1 <==> !ContainsVertex(g, source) || !ContainsVertex(g, destination)
  {
    if !g.bijection.ContainsKey(source) || !g.bijection.ContainsKey(destination) then -1
    else g.cells[g.bijection.GetValue(source)][g.bijection.GetValue(destination)]
  }

  /** False when either label is absent, else whether the cell is positive. */
  function ContainsEdge<V(!new)>(g: Graph<V>, source: V, destination: V): (b: bool)
    requires Inv(g)
    ensures b <==> EdgeWeight(g, source, destination) > 0
    ensures b ==> ContainsVertex(g, source) && ContainsVertex(g, destination)
  {
    if !g.bijection.ContainsKey(source) || !g.bijection.ContainsKey(destination) then false
    else g.cells[g.bijection.GetValue(source)][g.bijection.GetValue(destination)] > 0
  }

  /** The vertex counter. */
  function VertexSize<V(!new)>(g: Graph<V>): (n: int) {
    g.vertexCount
  }

  function EdgeSize<V(!new)>(g: Graph<V>): int {
    g.edgeCount
  }

  /** The label is the one registered at its own index (no later label took it over). */
  predicate OwnsIndex<V(!new)>(g: Graph<V>, v: V) {
    && v in g.bijection.forward
    && g.bijection.forward[v] in g.bijection.inverse
    && g.bijection.inverse[g.bijection.forward[v]] == v
  }

  // ---------------------------------------------------------------------------
  // Construction and clear

  /** The state after `new DirectedGraph(size)`. */
  function Init<V(!new)>(size: int): (g: Graph<V>)
    requires size >= 2
    ensures Inv(g)
    ensures g.cells == Zeros(size) && g.stack == [0]
    ensures forall v :: !ContainsVertex(g, v)
    ensures VertexSize(g) == 0 && EdgeSize(g) == 0
  {
    Graph(Zeros(size), [0], Empty(), 0, 0)
  }

  /**
   * The state after `clear()`: whatever size the graph was constructed with,
   * a 10-by-10 zero matrix, the stack [0], no labels and zero counters.
   */
  function Clear<V(!new)>(): (g: Graph<V>)
    ensures Inv(g)
    ensures |g.cells| == INITIAL_SIZE
    ensures forall i, j :: 0 <= i < INITIAL_SIZE && 0 <= j < INITIAL_SIZE ==> g.cells[i][j] == 0
    ensures g.stack == [0] && g.bijection == Empty()
    ensures forall v :: !ContainsVertex(g, v)
    ensures VertexSize(g) == 0 && EdgeSize(g) == 0
  {
    Init(INITIAL_SIZE)
  }

  // ---------------------------------------------------------------------------
  // Mutations: each returns the new state and the operation's result

  /**
   * `addVertex`: a present label changes nothing; a new one grows the matrix
   * when the vertex count has reached its size, takes the popped top of the
   * stack as its index (minting `index + 1` when the pop empties the stack)
   * and counts one more vertex.
   */
  function AddVertex<V(!new)>(g: Graph<V>, v: V): (r: (Graph<V>, bool))
    requires Inv(g)
    ensures Inv(r.0)
    ensures r.1 <==> !ContainsVertex(g, v)
    ensures !r.1 ==> r.0 == g
    ensures r.1 ==> ContainsVertex(r.0, v) && r.0.bijection.GetValue(v) == Top(g.stack)
    ensures r.1 ==> VertexSize(r.0) == VertexSize(g) + 1 && EdgeSize(r.0) == EdgeSize(g)
    // a fresh index is minted only when no recycled one is left, and it equals the vertex count
    ensures r.1 && |g.stack| == 1 ==> Top(g.stack) == g.vertexCount && r.0.stack == [g.vertexCount + 1]
    ensures r.1 && |g.stack| > 1 ==> r.0.stack == g.stack[..|g.stack| - 1]
    // growth happens exactly when the count has reached the size
    ensures r.1 ==> |r.0.cells| == if g.vertexCount >= |g.cells| then GrownLength(|g.cells|) else |g.cells|
  {
    if g.bijection.ContainsKey(v) then (g, false)
    else
      var cells := if g.vertexCount >= |g.cells| then Grow(g.cells) else g.cells;
      var index := Top(g.stack);
      var popped := g.stack[..|g.stack| - 1];
      var stack := if popped == [] then popped + [index + 1] else popped;
      (Graph(cells, stack, g.bijection.Add(v, index), g.vertexCount + 1, g.edgeCount), true)
  }

  /**
   * `addEdge`: nothing changes and false is returned when the edge exists or
   * either label is absent; only then is a negative weight refused with an
   * exception; otherwise exactly the one cell is set and one more edge counted.
   */
  function AddEdge<V(!new)>(g: Graph<V>, source: V, destination: V, weight: int): (r: (Graph<V>, Result<bool>))
    requires Inv(g)
    ensures Inv(r.0)
    ensures r.1 == Ok(false) <==>
              ContainsEdge(g, source, destination) || !ContainsVertex(g, source) || !ContainsVertex(g, destination)
    ensures r.1.Err? <==>
              && ContainsVertex(g, source) && ContainsVertex(g, destination)
              && !ContainsEdge(g, source, destination) && weight < 0
    ensures r.1 != Ok(true) ==> r.0 == g
    ensures r.1 == Ok(true) ==>
              && EdgeWeight(r.0, source, destination) == weight
              && (ContainsEdge(r.0, source, destination) <==> weight > 0)
              && EdgeSize(r.0) == EdgeSize(g) + 1
              && VertexSize(r.0) == VertexSize(g)
              && r.0.stack == g.stack && r.0.bijection == g.bijection
  {
    if ContainsEdge(g, source, destination) || !ContainsVertex(g, source) || !ContainsVertex(g, destination) then
      (g, Ok(false))
    else if weight < 0 then
      (g, Err(IllegalArgument("Weight cannot be negative")))
    else
      var cells := SetCell(g.cells, g.bijection.GetValue(source), g.bijection.GetValue(destination), weight);
      (g.(cells := cells, edgeCount := g.edgeCount + 1), Ok(true))
  }

  /**
   * `removeVertex`: an absent label changes nothing; a present one has its
   * row and column zeroed, its index pushed on the stack and one vertex
   * discounted, while the label stays mapped and the edge count is kept.
   */
  function RemoveVertex<V(!new)>(g: Graph<V>, v: V): (r: (Graph<V>, bool))
    requires Inv(g)
    ensures Inv(r.0)
    ensures r.1 <==> ContainsVertex(g, v)
    ensures !r.1 ==> r.0 == g
    ensures r.1 ==>
              && r.0.stack == g.stack + [g.bijection.GetValue(v)]
              && VertexSize(r.0) == VertexSize(g) - 1
              && EdgeSize(r.0) == EdgeSize(g)
              && r.0.bijection == g.bijection
              && |r.0.cells| == |g.cells|
  {
    if !g.bijection.ContainsKey(v) then (g, false)
    else
      var index := g.bijection.GetValue(v);
      (g.(cells := ZeroRowAndColumn(g.cells, index), stack := g.stack + [index],
          vertexCount := g.vertexCount - 1), true)
  }

  /**
   * `removeEdge`: false and no change when either label is absent; otherwise
   * the cell is zeroed and the edge count decremented, whether or not an edge
   * was there.
   */
  function RemoveEdge<V(!new)>(g: Graph<V>, source: V, destination: V): (r: (Graph<V>, bool))
    requires Inv(g)
    ensures Inv(r.0)
    ensures r.1 <==> ContainsVertex(g, source) && ContainsVertex(g, destination)
    ensures !r.1 ==> r.0 == g
    ensures r.1 ==>
              && EdgeWeight(r.0, source, destination) == 0
              && !ContainsEdge(r.0, source, destination)
              && EdgeSize(r.0) == EdgeSize(g) - 1
              && VertexSize(r.0) == VertexSize(g)
              && r.0.stack == g.stack && r.0.bijection == g.bijection
  {
    if !ContainsVertex(g, source) || !ContainsVertex(g, destination) then (g, false)
    else
      var cells := SetCell(g.cells, g.bijection.GetValue(source), g.bijection.GetValue(destination), 0);
      (g.(cells := cells, edgeCount := g.edgeCount - 1), true)
  }

  // ---------------------------------------------------------------------------
  // Enumerations

  /**
   * What every reported edge satisfies: a positive weight between two mapped
   * labels, which `containsEdge` sees with that weight.
   */
  ghost predicate ListedEdge<V(!new)>(g: Graph<V>, e: Edge<V>)
    requires Inv(g)
  {
    && e.weight > 0
    && ContainsVertex(g, e.source) && ContainsVertex(g, e.destination)
    && ContainsEdge(g, e.source, e.destination)
    && EdgeWeight(g, e.source, e.destination) == e.weight
  }

  /** The edge of cell [i][j], if the cell is positive. */
  function CellEdges<V(!new)>(g: Graph<V>, i: int, j: int): (r: set<Edge<V>>)
    requires Inv(g) && 0 <= i < |g.cells| && 0 <= j < |g.cells|
  {
    if g.cells[i][j] > 0 then {Edge(g.bijection.GetKey(i), g.bijection.GetKey(j), g.cells[i][j])} else {}
  }

  /** The edges of cells [i][0 .. j). */
  function RowEdges<V(!new)>(g: Graph<V>, i: int, j: int): (r: set<Edge<V>>)
    requires Inv(g) && 0 <= i < |g.cells| && 0 <= j <= |g.cells|
    decreases j
  {
    if j == 0 then {} else RowEdges(g, i, j - 1) + CellEdges(g, i, j - 1)
  }

  /** The edges of rows [0 .. i). */
  function EdgesOfRows<V(!new)>(g: Graph<V>, i: int): (r: set<Edge<V>>)
    requires Inv(g) && 0 <= i <= |g.cells|
    decreases i
  {
    if i == 0 then {} else EdgesOfRows(g, i - 1) + RowEdges(g, i - 1, |g.cells|)
  }

  /** `edges()`: one triple per positive cell, labelled through the inverse table. */
  function Edges<V(!new)>(g: Graph<V>): (r: set<Edge<V>>)
    requires Inv(g)
    ensures forall e :: e in r ==> ListedEdge(g, e)
  {
    EdgesOfRowsListed(g, |g.cells|);
    EdgesOfRows(g, |g.cells|)
  }

  lemma {:induction false} RowEdgesListed<V(!new)>(g: Graph<V>, i: int, j: int)
    requires Inv(g) && 0 <= i < |g.cells| && 0 <= j <= |g.cells|
    ensures forall e :: e in RowEdges(g, i, j) ==> ListedEdge(g, e)
    decreases j
  {
    if j > 0 {
      RowEdgesListed(g, i, j - 1);
    }
  }

  lemma {:induction false} EdgesOfRowsListed<V(!new)>(g: Graph<V>, i: int)
    requires Inv(g) && 0 <= i <= |g.cells|
    ensures forall e :: e in EdgesOfRows(g, i) ==> ListedEdge(g, e)
    decreases i
  {
    if i > 0 {
      EdgesOfRowsListed(g, i - 1);
      RowEdgesListed(g, i - 1, |g.cells|);
    }
  }

  /** The labels registered at indices [0 .. k). */
  function VerticesBelow<V(!new)>(g: Graph<V>, k: int): (r: set<V>)
    requires Inv(g) && 0 <= k <= g.stack[0]
    ensures |r| <= k
    ensures forall v :: v in r ==> ContainsVertex(g, v)
    decreases k
  {
    if k == 0 then {} else VerticesBelow(g, k - 1) + {g.bijection.GetKey(k - 1)}
  }

  /** `vertices()`: the labels registered at indices [0 .. vertexCount). */
  function Vertices<V(!new)>(g: Graph<V>): (r: set<V>)
    requires Inv(g)
    ensures |r| <= if g.vertexCount < 0 then 0 else g.vertexCount
    ensures forall v :: v in r ==> ContainsVertex(g, v)
  {
    VerticesBelow(g, if g.vertexCount < 0 then 0 else g.vertexCount)
  }
}

/**
 * The graph object itself: a square weight matrix that grows in place, a
 * stack of free indices, the label bijection and two counters, updated by
 * its methods. Each method is proved to move the object's abstract value
 * (`Model()`) exactly as the matching function of `GraphModel` says.
 */
module Structures {
  import opened Graphs
  import opened Bijections
  import G = GraphModel
  import GraphProperties

  class DirectedGraph<V(==,!new)> {
    var matrix: array2<int>
    var stack: seq<int>
    var bijection: Bijection<V>
    var verticesCount: int
    var edgesCount: int

    /** The matrix contents as rows. */
    ghost var Cells: G.Matrix

    ghost function Model(): G.Graph<V>
      reads this
    {
      G.Graph(Cells, stack, bijection, verticesCount, edgesCount)
    }

    ghost predicate Valid()
      reads this, matrix
    {
      && G.Inv(Model())
      && matrix.Length0 == |Cells| && matrix.Length1 == |Cells|
      && forall i, j :: 0 <= i < |Cells| && 0 <= j < |Cells| ==> matrix[i, j] == Cells[i][j]
    }

    /** A graph with a 10-by-10 matrix. */
    constructor ()
      ensures Valid() && fresh(matrix)
      ensures Model() == G.Init(G.INITIAL_SIZE)
    {
      matrix := new int[G.INITIAL_SIZE, G.INITIAL_SIZE]((i, j) => 0);
      stack := [0];
      bijection := Empty();
      verticesCount, edgesCount := 0, 0;
      Cells := G.Zeros(G.INITIAL_SIZE);
    }

    /** A graph with an initialSize-by-initialSize matrix. */
    constructor WithSize(initialSize: int)
      requires initialSize >= 2
      ensures Valid() && fresh(matrix)
      ensures Model() == G.Init(initialSize)
    {
      matrix := new int[initialSize, initialSize]((i, j) => 0);
      stack := [0];
      bijection := Empty();
      verticesCount, edgesCount := 0, 0;
      Cells := G.Zeros(initialSize);
    }

    // -------------------------------------------------------------------------
    // Queries

    function VertexSize(): (r: int)
      reads this
      ensures r == G.VertexSize(Model())
    {
      verticesCount
    }

    function EdgeSize(): (r: int)
      reads this
      ensures r == G.EdgeSize(Model())
    {
      edgesCount
    }

    function ContainsVertex(vertex: V): (r: bool)
      reads this
      ensures r == G.ContainsVertex(Model(), vertex)
    {
      bijection.ContainsKey(vertex)
    }

    function ContainsEdge(source: V, destination: V): (r: bool)
      reads this, matrix
      requires Valid()
      ensures r == G.ContainsEdge(Model(), source, destination)
    {
      if !bijection.ContainsKey(source) || !bijection.ContainsKey(destination) then false
      else matrix[bijection.GetValue(source), bijection.GetValue(destination)] > 0
    }

    function EdgeWeight(source: V, destination: V): (r: int)
      reads this, matrix
      requires Valid()
      ensures r == G.EdgeWeight(Model(), source, destination)
    {
      if !bijection.ContainsKey(source) || !bijection.ContainsKey(destination) then -1
      else matrix[bijection.GetValue(source), bijection.GetValue(destination)]
    }

    /** The labels registered at indices 0 .. verticesCount - 1. */
    method Vertices() returns (vertices: set<V>)
      requires Valid()
      ensures vertices == G.Vertices(Model())
    {
      vertices := {};
      var i := 0;
      while i < verticesCount
        invariant 0 <= i && (i == 0 || i <= verticesCount)
        invariant vertices == G.VerticesBelow(Model(), i)
      {
        vertices := vertices + {bijection.GetKey(i)};
        i := i + 1;
      }
    }

    /** One edge per positive cell, labelled through the inverse table. */
    method Edges() returns (edges: set<Edge<V>>)
      requires Valid()
      ensures edges == G.Edges(Model())
    {
      edges := {};
      var n := matrix.Length0;
      var i := 0;
      while i < n
        invariant 0 <= i <= n
        invariant edges == G.EdgesOfRows(Model(), i)
      {
        var j := 0;
        while j < n
          invariant 0 <= j <= n
          invariant edges == G.EdgesOfRows(Model(), i) + G.RowEdges(Model(), i, j)
        {
          if matrix[i, j] > 0 {
            var source := bijection.GetKey(i);
            var destination := bijection.GetKey(j);
            edges := edges + {Edge(source, destination, matrix[i, j])};
          }
          j := j + 1;
        }
        i := i + 1;
      }
    }

    // -------------------------------------------------------------------------
    // Mutations

    /** A new matrix of side `(int)(len * 1.5)` holding a copy of `m` in its top-left corner. */
    static method GrowMatrix(m: array2<int>) returns (grown: array2<int>)
      requires m.Length0 == m.Length1
      ensures fresh(grown)
      ensures grown.Length0 == G.GrownLength(m.Length0) && grown.Length1 == G.GrownLength(m.Length0)
      ensures forall i, j :: 0 <= i < grown.Length0 && 0 <= j < grown.Length1 ==>
                grown[i, j] == if i < m.Length0 && j < m.Length0 then m[i, j] else 0
    {
      var n := m.Length0;
      var newLength := G.GrownLength(n);
      grown := new int[newLength, newLength]((i, j) => 0);
      var i := 0;
      while i < n
        invariant 0 <= i <= n
        invariant forall r, c :: 0 <= r < newLength && 0 <= c < newLength ==>
                    grown[r, c] == if r < i && c < n then m[r, c] else 0
      {
        var j := 0;
        while j < n
          invariant 0 <= j <= n
          invariant forall r, c :: 0 <= r < newLength && 0 <= c < newLength ==>
                      grown[r, c] == if (r < i && c < n) || (r == i && c < j) then m[r, c] else 0
        {
          grown[i, j] := m[i, j];
          j := j + 1;
        }
        i := i + 1;
      }
    }

    method AddVertex(vertex: V) returns (added: bool)
      requires Valid()
      modifies this
      ensures Valid()
      ensures (Model(), added) == G.AddVertex(old(Model()), vertex)
      // the matrix is replaced by a new array exactly when it grows
      ensures if added && old(verticesCount) >= old(matrix.Length0) then fresh(matrix) else matrix == old(matrix)
    {
      ghost var spec := G.AddVertex(Model(), vertex).0;
      if bijection.ContainsKey(vertex) {
        return false;
      }
      if verticesCount >= matrix.Length0 {
        matrix := GrowMatrix(matrix);
        Cells := G.Grow(Cells);
      }
      assert Cells == spec.cells;
      assert forall i, j :: 0 <= i < |Cells| && 0 <= j < |Cells| ==> matrix[i, j] == Cells[i][j];
      var index := stack[|stack| - 1];
      stack := stack[..|stack| - 1];
      if stack == [] {
        stack := stack + [index + 1];
      }
      assert stack == spec.stack;
      bijection := bijection.Add(vertex, index);
      assert bijection == spec.bijection;
      verticesCount := verticesCount + 1;
      assert Model() == spec;
      return true;
    }

    method AddEdge(source: V, destination: V, weight: int) returns (r: G.Result<bool>)
      requires Valid()
      modifies this, matrix
      ensures Valid() && matrix == old(matrix)
      ensures (Model(), r) == G.AddEdge(old(Model()), source, destination, weight)
    {
      if ContainsEdge(source, destination) || !ContainsVertex(source) || !ContainsVertex(destination) {
        return G.Ok(false);
      }
      if weight < 0 {
        return G.Err(G.IllegalArgument("Weight cannot be negative"));
      }
      var sourceIndex := bijection.GetValue(source);
      var destIndex := bijection.GetValue(destination);
      matrix[sourceIndex, destIndex] := weight;
      Cells := G.SetCell(Cells, sourceIndex, destIndex, weight);
      edgesCount := edgesCount + 1;
      return G.Ok(true);
    }

    method RemoveVertex(vertex: V) returns (removed: bool)
      requires Valid()
      modifies this, matrix
      ensures Valid() && matrix == old(matrix)
      ensures (Model(), removed) == G.RemoveVertex(old(Model()), vertex)
    {
      ghost var spec := G.RemoveVertex(Model(), vertex).0;
      if !bijection.ContainsKey(vertex) {
        return false;
      }
      var index := bijection.GetValue(vertex);
      var n := matrix.Length0;
      var i := 0;
      while i < n
        modifies matrix
        invariant 0 <= i <= n
        invariant forall r, c :: 0 <= r < n && 0 <= c < n ==>
                    matrix[r, c] == if r < i && (r == index || c == index) then 0 else old(matrix[r, c])
      {
        if index == i {
          // the vertex's own row
          var j := 0;
          while j < n
            modifies matrix
            invariant 0 <= j <= n
            invariant forall r, c :: 0 <= r < n && 0 <= c < n ==>
                        matrix[r, c] == if (r < i && (r == index || c == index)) || (r == i && c < j) then 0
                                        else old(matrix[r, c])
          {
            matrix[i, j] := 0;
            j := j + 1;
          }
        } else {
          // the vertex's column in another row
          matrix[i, index] := 0;
        }
        i := i + 1;
      }
      Cells := G.ZeroRowAndColumn(Cells, index);
      assert forall r, c :: 0 <= r < n && 0 <= c < n ==> matrix[r, c] == Cells[r][c];
      stack := stack + [index];
      verticesCount := verticesCount - 1;
      assert Model() == spec;
      return true;
    }

    method RemoveEdge(source: V, destination: V) returns (removed: bool)
      requires Valid()
      modifies this, matrix
      ensures Valid() && matrix == old(matrix)
      ensures (Model(), removed) == G.RemoveEdge(old(Model()), source, destination)
    {
      if !ContainsVertex(source) || !ContainsVertex(destination) {
        return false;
      }
      var sourceIndex := bijection.GetValue(source);
      var destIndex := bijection.GetValue(destination);
      matrix[sourceIndex, destIndex] := 0;
      Cells := G.SetCell(Cells, sourceIndex, destIndex, 0);
      edgesCount := edgesCount - 1;
      return true;
    }

    method Clear()
      modifies this
      ensures Valid() && fresh(matrix)
      ensures Model() == G.Clear()
    {
      matrix := new int[G.INITIAL_SIZE, G.INITIAL_SIZE]((i, j) => 0);
      Cells := G.Zeros(G.INITIAL_SIZE);
      stack := [0];
      bijection := Empty();
      verticesCount, edgesCount := 0, 0;
    }
  }

  /**
   * A client's first steps on a default graph: two vertices, then an edge of
   * weight 5 between them, which is accepted, counted and read back.
   */
  method FirstEdge<V(==,!new)>(a: V, b: V) returns (g: DirectedGraph<V>, r: G.Result<bool>)
    requires a != b
    ensures fresh(g) && fresh(g.matrix) && g.Valid()
    ensures r == G.Ok(true) && g.ContainsEdge(a, b) && g.EdgeWeight(a, b) == 5
    ensures g.VertexSize() == 2 && g.EdgeSize() == 1
  {
    g := new DirectedGraph();
    ghost var g0 := g.Model();
    var addedA := g.AddVertex(a);
    GraphProperties.AddVertexKeepsEdges(g0, a);
    ghost var g1 := g.Model();
    var addedB := g.AddVertex(b);
    GraphProperties.AddVertexKeepsEdges(g1, b);
    r := g.AddEdge(a, b, 5);
  }
}

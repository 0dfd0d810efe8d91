# DirectedGraph: a verified model of an adjacency-matrix graph

This project models `DirectedGraph<V>` from the `graph-matrix` repository. It is a directed,
weighted graph. Its edges live in a dense square `int` matrix: cell `[i][j]` holds the weight
of the edge from the vertex at index `i` to the vertex at index `j`, and 0 means "no edge".
Three parts work together:

- **Label bijection.** Caller labels map to matrix indices, and back.
- **Free-index stack.** It hands out indices last-in-first-out. When a pop empties it, the
  popped index plus one is pushed, so a fresh index is always ready.
- **Growth.** When the vertex count reaches the matrix side, the matrix is replaced by one of
  side `(int)(len * 1.5)`, and the old cells are copied into it.

The project has five files:

- `Edge.dfy` (module `Graphs`): the `Edge` triple that `edges()` returns.
- `Bijection.dfy` (module `Bijections`): the bijection, as its forward and inverse tables.
- `GraphModel.dfy` (module `GraphModel`):
  - the graph's state as a value;
  - the invariant `Inv`;
  - one function per public operation. Each maps the old state to the new state and the
    result, and its `ensures` say what the operation promises.
- `GraphProperties.dfy` (module `GraphProperties`): lemmas that relate several operations,
  characterise `edges()` and `vertices()`, and pin down the code's quirks.
- `DirectedGraph.dfy` (module `Structures`): the class itself. It holds
  - an `array2<int>` matrix that its methods overwrite, copy and replace;
  - the stack as a `seq<int>` (top = last element);
  - the bijection and the two counters.

  Each method is proved to move `Model()` exactly as the `GraphModel` function says. The
  client method `FirstEdge` shows that the method contracts compose.

The invariant `Inv` holds after both constructors, every mutation and `clear`:

- The stack is never empty.
- Its bottom entry is the frontier: the next never-used index. The frontier is at most the
  matrix side.
- Every other stack entry, and every mapped index, is below the frontier.
- `vertexCount + |stack| - 1 == frontier`. So a fresh index is popped only when no recycled
  index is left, and at that moment it equals the vertex count. This is why every index
  handed out stays inside the matrix once the size is at least 2.
- Every weight is non-negative.
- A non-zero cell lies on indices below the frontier. The inverse table covers exactly
  those indices, so `vertices()` and `edges()` never look up an unmapped index.

### Quirks of the code that the model keeps

All line numbers refer to `GraphMatrix/src/structures/DirectedGraph.java`.

- `removeVertex` (192-220) never removes the label from the bijection.
  - `containsVertex` stays true after the removal.
  - A second `removeVertex` of the same label succeeds again. It pushes the same index a
    second time and decrements the count again (`RemoveVertexTwice`).
- `addVertex` (72-78) takes the most recently freed index (last in, first out). After
  `removeVertex(v)` and `addVertex(u)`, the label `u` gets `v`'s index. `v` keeps it in the
  forward table, so both labels name the same row and column (`RemoveThenAddReusesIndex`).
- The edge count is not the number of positive cells:
  - `removeVertex` (192-220) does not decrement it;
  - `removeEdge` (223-234) decrements it even when no edge was there (`RemoveAbsentEdgeDecrements`);
  - `addEdge` (85-105) accepts and counts a weight-0 edge, which `containsEdge` (126-138)
    then does not see (`ZeroWeightEdgeIsCountedButInvisible`).
- `clear` (237-250) makes a 10-by-10 matrix, whatever size the constructor was given.
- `vertices()` (156-166) reads the inverse table at indices `0 .. verticesCount-1`, not at
  the indices the labels hold. After a removal it can report a removed label and miss a
  live one (`VerticesExact`, `VerticesAfterRemoval`).

## Model

| member | source | states |
|---|---|---|
| `Structures.DirectedGraph.constructor` | GraphMatrix/src/structures/DirectedGraph.java:31-35 | the new graph is valid with a 10-by-10 zero matrix, stack [0], no labels, zero counters |
| `Structures.DirectedGraph.WithSize` | GraphMatrix/src/structures/DirectedGraph.java:41-45 | the same, with an initialSize-by-initialSize matrix (initialSize at least 2) |
| `Structures.DirectedGraph.GrowMatrix` | GraphMatrix/src/structures/DirectedGraph.java:57-68 | the new matrix is a fresh array of side `len*3/2`; every old cell keeps its value and every new cell is 0 |
| `Structures.DirectedGraph.AddVertex` | GraphMatrix/src/structures/DirectedGraph.java:48-82 | keeps the object valid and changes its state and result exactly as `GraphModel.AddVertex`; the matrix is a fresh array exactly when it grew, otherwise the same array |
| `Structures.DirectedGraph.AddEdge` | GraphMatrix/src/structures/DirectedGraph.java:85-105 | keeps the object valid and changes state and result (value or exception) exactly as `GraphModel.AddEdge` |
| `Structures.DirectedGraph.RemoveVertex` | GraphMatrix/src/structures/DirectedGraph.java:192-220 | the row and column zeroing loops leave the matrix and state exactly as `GraphModel.RemoveVertex` |
| `Structures.DirectedGraph.RemoveEdge` | GraphMatrix/src/structures/DirectedGraph.java:223-234 | keeps the object valid and changes its state exactly as `GraphModel.RemoveEdge` |
| `Structures.DirectedGraph.Clear` | GraphMatrix/src/structures/DirectedGraph.java:237-250 | afterwards the object is valid and its state is `GraphModel.Clear()` |
| `Structures.DirectedGraph.VertexSize` | GraphMatrix/src/structures/DirectedGraph.java:108-111 | returns the model's vertex counter |
| `Structures.DirectedGraph.EdgeSize` | GraphMatrix/src/structures/DirectedGraph.java:114-117 | returns the model's edge counter |
| `Structures.DirectedGraph.ContainsVertex` | GraphMatrix/src/structures/DirectedGraph.java:120-123 | agrees with `GraphModel.ContainsVertex` on the object's model |
| `Structures.DirectedGraph.ContainsEdge` | GraphMatrix/src/structures/DirectedGraph.java:126-138 | reading the array agrees with `GraphModel.ContainsEdge` on the object's model |
| `Structures.DirectedGraph.EdgeWeight` | GraphMatrix/src/structures/DirectedGraph.java:141-153 | reading the array agrees with `GraphModel.EdgeWeight` on the object's model |
| `Structures.DirectedGraph.Vertices` | GraphMatrix/src/structures/DirectedGraph.java:156-166 | the loop over indices below the vertex count builds exactly `GraphModel.Vertices` |
| `Structures.DirectedGraph.Edges` | GraphMatrix/src/structures/DirectedGraph.java:169-189 | the nested loop over all cells builds exactly `GraphModel.Edges`, one triple per positive cell |
| `Structures.FirstEdge` | GraphMatrix/src/structures/DirectedGraph.java:48-105 | on a new default graph, two addVertex calls followed by addEdge(a, b, 5) succeed; the edge reads back with weight 5 and both counters are right |
| `GraphModel.Init` | GraphMatrix/src/structures/DirectedGraph.java:41-45 | a fresh graph satisfies the invariant, has no labels, stack [0] and zero counters |
| `GraphModel.Clear` | GraphMatrix/src/structures/DirectedGraph.java:240-249 | after clear: invariant holds, 10-by-10 zero matrix, stack [0], empty bijection, no label contained, both counters 0 |
| `GraphModel.GrownLength` | GraphMatrix/src/structures/DirectedGraph.java:59 | the grown side is never smaller, and is larger exactly when the side is at least 2 |
| `GraphModel.Grow` | GraphMatrix/src/structures/DirectedGraph.java:57-68 | growth keeps every old cell, zeroes every new cell, and has side `len*3/2` |
| `GraphModel.EdgeWeight` | GraphMatrix/src/structures/DirectedGraph.java:141-153 | the result is -1 exactly when a label is absent, and never below -1 (weights are non-negative) |
| `GraphModel.ContainsEdge` | GraphMatrix/src/structures/DirectedGraph.java:126-138 | true exactly when `EdgeWeight` is positive, and only for two present labels |
| `GraphModel.Edges` | GraphMatrix/src/structures/DirectedGraph.java:169-189 | every reported edge has a positive weight between two contained labels, and `containsEdge` and `edgeWeight` see it with that weight |
| `GraphModel.Vertices` | GraphMatrix/src/structures/DirectedGraph.java:156-166 | at most vertexCount labels are reported, each of them contained |
| `GraphModel.AddVertex` | GraphMatrix/src/structures/DirectedGraph.java:48-82 | invariant preserved; true exactly for a new label, otherwise no change; the label gets the popped top of the stack; vertex count +1; a fresh index is minted only from a one-element stack, and then equals the vertex count; growth exactly when count >= side |
| `GraphModel.AddEdge` | GraphMatrix/src/structures/DirectedGraph.java:85-105 | invariant preserved; `Ok(false)` and no change when the edge exists or a label is absent; only otherwise a negative weight gives `IllegalArgument`, again with no change; on success the weight reads back, `containsEdge` equals weight > 0, edge count +1 |
| `GraphModel.RemoveVertex` | GraphMatrix/src/structures/DirectedGraph.java:192-220 | invariant preserved; true exactly for a present label, otherwise no change; the index is pushed, vertex count -1; edge count, bijection and matrix size unchanged |
| `GraphModel.RemoveEdge` | GraphMatrix/src/structures/DirectedGraph.java:223-234 | invariant preserved; true exactly when both labels are present, otherwise no change; the weight then reads 0 and the edge count drops by one even if no edge was there |
| `GraphProperties.AddVertexKeepsEdges` | GraphMatrix/src/structures/DirectedGraph.java:57-79 | adding a vertex keeps every old cell, zeroes new cells, changes no other label, and keeps the weight of every edge between existing labels |
| `GraphProperties.AddEdgeChangesOneCell` | GraphMatrix/src/structures/DirectedGraph.java:99-101 | a successful addEdge changes exactly cell [idx(source)][idx(destination)], not even the reverse cell |
| `GraphProperties.RemoveVertexIsolates` | GraphMatrix/src/structures/DirectedGraph.java:200-215 | removeVertex zeroes exactly row idx and column idx; every edge at the vertex reads 0 and every other edge is kept |
| `GraphProperties.RemoveEdgeChangesOneCell` | GraphMatrix/src/structures/DirectedGraph.java:231 | a successful removeEdge zeroes exactly its one cell |
| `GraphProperties.ContainedIndexInMatrix` | GraphMatrix/src/structures/DirectedGraph.java:120-123 | a contained label's index lies inside the matrix; a label is contained exactly when `edgeWeight` of its self-loop is not -1 |
| `GraphProperties.VertexSizeIsHandedOutMinusReturned` | GraphMatrix/src/structures/DirectedGraph.java:108-111 | the vertex counter equals the indices handed out (the frontier) minus the indices pushed back, and never exceeds the matrix size |
| `GraphProperties.EdgesExact` | GraphMatrix/src/structures/DirectedGraph.java:169-189 | an edge is listed iff both ends own their index and its weight equals the positive `edgeWeight` |
| `GraphProperties.EdgesAreContained` | GraphMatrix/src/structures/DirectedGraph.java:169-189 | every listed edge is seen by `containsEdge` with the listed weight |
| `GraphProperties.VerticesExact` | GraphMatrix/src/structures/DirectedGraph.java:156-166 | a label is listed iff it is present, owns its index, and that index is below the vertex count |
| `GraphProperties.VertexSizeCountsOutcomes` | GraphMatrix/src/structures/DirectedGraph.java:48-220 | over any sequence of addVertex/removeVertex/addEdge/removeEdge calls, the vertex count moves by the addVertex calls that returned true minus the removeVertex calls that returned true |
| `GraphProperties.EdgeSizeCountsOutcomes` | GraphMatrix/src/structures/DirectedGraph.java:85-234 | over any sequence of calls, the edge count moves by the addEdge calls that returned true minus the removeEdge calls that returned true |
| `GraphProperties.AddVertexTwice` | GraphMatrix/src/structures/DirectedGraph.java:51-54 | a second addVertex of the same label returns false and changes nothing; the count rose by exactly one |
| `GraphProperties.RemoveVertexTwice` | GraphMatrix/src/structures/DirectedGraph.java:192-219 | removing a label twice succeeds twice, keeps the label, pushes its index twice and lowers the count by two |
| `GraphProperties.RemoveThenAddReusesIndex` | GraphMatrix/src/structures/DirectedGraph.java:72-78 | a label added after a removal gets the removed index (LIFO), and both labels then read the same edges |
| `GraphProperties.ZeroWeightEdgeIsCountedButInvisible` | GraphMatrix/src/structures/DirectedGraph.java:88-103 | a weight-0 edge is accepted and counted, invisible to containsEdge, and can be added and counted again |
| `GraphProperties.RemoveAbsentEdgeDecrements` | GraphMatrix/src/structures/DirectedGraph.java:226-233 | removeEdge between two present labels with no edge returns true and drives the edge count to -1 |
| `GraphProperties.VerticesAfterRemoval` | GraphMatrix/src/structures/DirectedGraph.java:161-163 | after adding a and b and removing a, vertices() is {a} although b is present |
| `GraphProperties.Session` | GraphMatrix/src/structures/DirectedGraph.java:85-219 | on a size-10 graph with a, b, c: addEdge(a,b,5) is true, a repeat is false, addEdge(b,c,-1) throws with no change; removeVertex(b) hides edge a→b, leaves 2 vertices, keeps b and the edge count 1 |

## Left out

- `toString` is a diagnostic dump. The demonstration driver `MyGraphsTest.java` only prints. Neither is modelled.
- The class `Bijection` is not part of this model. It is represented by a forward and an inverse map. When `add` registers a new label at an index that another label already holds, the model makes two assumptions about that unseen code:
  - the new label overwrites the inverse entry;
  - the old label keeps its forward entry.

  This collision happens on every `addVertex` of a new label right after a `removeVertex` (`DirectedGraph.java` lines 72-78 and 217). A `Bijection` that stays one-to-one would instead throw or evict the old label. The lemmas that rest on these assumptions are `RemoveThenAddReusesIndex` (the old label stays contained and both labels read the same edges) and `AddVertexKeepsEdges` (no other label changes when the index is a recycled one). Only `vertices()` and `edges()` read the inverse table.
- The class `graphs.Edge` and the interface `IGraph` are not part of this model. `Edge` is a value triple, and the returned `HashSet`s are mathematical sets.
- Java `int` is 32 bits; the model's integers are unbounded. Overflow of the two counters is not modelled, and neither is the saturation of the `(int)` cast in `(int)(len * 1.5)` at `Integer.MAX_VALUE`. Weights are stored and compared but never computed with. The double `RESIZE_MULTIPLIER` is replaced by the exact `len * 3 / 2`.
- Structures.DirectedGraph.WithSize: requires `initialSize >= 2`. A negative size throws `NegativeArraySizeException`. With size 0 or 1, growth does not enlarge the matrix (`GrownLength`), so a later cell access goes out of bounds. Those exceptions are not modelled.
- The matrix is a Dafny `array2`, not an array of row arrays. Jagged or aliased rows cannot occur, and the code never creates them.
- `java.util.Stack` and `Bijection` are objects mutated in place. In the class they are value fields that the methods reassign. Nothing else holds a reference to them.

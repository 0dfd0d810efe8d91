/** The edge triple reported by `edges()` (the class `graphs.Edge`). */
module Graphs {

  /** A directed edge from `source` to `destination` with its weight (`edges()` reports only positive ones). */
  datatype Edge<V> = Edge(source: V, destination: V, weight: int)
}

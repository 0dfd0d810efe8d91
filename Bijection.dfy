/**
 * The two-way label <-> index mapping the graph owns. Its implementation is
 * not part of this model; it is represented by its two lookup tables, kept in
 * lockstep by `Add`.
 */
module Bijections {

  datatype Bijection<V> = Bijection(forward: map<V, int>, inverse: map<int, V>) {

    /** True iff `v` is mapped to an index. */
    predicate ContainsKey(v: V): (b: bool) {
      v in forward
    }

    /** The index of a mapped label. */
    function GetValue(v: V): (index: int)
      requires ContainsKey(v)
    {
      forward[v]
    }

    /** The label registered at an index. */
    function GetKey(i: int): (v: V)
      requires i in inverse
    {
      inverse[i]
    }

    /** Registers `v` at `index` in both tables. */
    function Add(v: V, index: int): (b: Bijection<V>) {
      Bijection(forward[v := index], inverse[index := v])
    }
  }

  /** The bijection with no mappings (the state after `clear`). */
  function Empty<V>(): (b: Bijection<V>) {
    Bijection(map[], map[])
  }
}

/** Interaction rows and node pairs as `remove_node_pairs` sees them. */
module Events {

  /** One row `[node_i, node_j, time]` of the event dataset. The dataset is a
      floating-point tensor, so the node columns are reals as well. */
  datatype Row = Row(src: real, dst: real, time: real)

  /** An ordered node pair `(i, j)` to be held out of the training set. */
  datatype NodePair = NodePair(src: int, dst: int)

  /** Python's `int()` applied to a float: truncation toward zero. */
  function TruncToInt(x: real): (n: int)
    ensures 0.0 <= x ==> n as real <= x < n as real + 1.0
    ensures x < 0.0 ==> n as real - 1.0 < x <= n as real
  {
    if x >= 0.0 then x.Floor else -((-x).Floor)
  }

  /** A row belongs to `pair` when its truncated node columns equal the pair,
      component by component and in order. */
  predicate Matches(row: Row, pair: NodePair) {
    TruncToInt(row.src) == pair.src && TruncToInt(row.dst) == pair.dst
  }

  /** A row is dropped when it matches at least one of the removed pairs. */
  predicate Removed(row: Row, pairs: seq<NodePair>) {
    exists p :: p in pairs && Matches(row, p)
  }

  /** Node columns that hold a whole number convert back to that number. */
  lemma TruncOfWhole(n: int)
    ensures TruncToInt(n as real) == n
  {
  }
}

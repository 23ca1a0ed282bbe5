/** `remove_node_pairs`: builds a training set by dropping every event of the
    held-out node pairs, and returns the reduced events with the pairs used. */
module HeldOutSplit {
  import opened Wrappers
  import opened Events
  import opened NodePairFilter
  import opened CandidatePairs

  /** `random.choices` on an empty candidate list raises `IndexError`; this
      happens when pairs are drawn automatically for fewer than two nodes. */
  datatype Error = NoCandidatePairs

  /** The reduced dataset and the removed pairs, or the error raised while
      drawing pairs. `given` is the caller's `node_pairs` argument and
      `random` the stream of `random()` draws the generator would produce. */
  function RemoveNodePairs(rows: seq<Row>, numNodes: int, percentage: real,
                           given: Option<seq<NodePair>>, random: nat -> real)
    : (r: Result<(seq<Row>, seq<NodePair>), Error>)
    requires forall m: nat :: 0.0 <= random(m) < 1.0
    ensures given.Some? ==> r.Success? && r.value.1 == given.value
    ensures given.None? ==> (r.Success? <==> numNodes >= 2)
    ensures r.Success? ==> r.value.0 == Filter(rows, r.value.1)
    ensures r.Success? && given.None? ==>
              && 1 <= |r.value.1|
              && |r.value.1| == PickCount(numNodes * (numNodes - 1) / 2, percentage)
              && forall p :: p in r.value.1 ==> 0 <= p.src < p.dst < numNodes
  {
    match given
    case Some(pairs) => Success((Filter(rows, pairs), pairs))
    case None =>
      var candidates := UpperTriangle(numNodes);
      if |candidates| == 0 then Failure(NoCandidatePairs)
      else
        var pairs := Choices(candidates, PickCount(|candidates|, percentage), random);
        Success((Filter(rows, pairs), pairs))
  }

  /** A caller-supplied empty pair list is not `None`: nothing is drawn,
      nothing is removed, and the empty list is returned. */
  lemma SuppliedEmptyRemovesNothing(rows: seq<Row>, numNodes: int, percentage: real, random: nat -> real)
    requires forall m: nat :: 0.0 <= random(m) < 1.0
    ensures RemoveNodePairs(rows, numNodes, percentage, Some([]), random) == Success((rows, []))
  {
    FilterNoPairs(rows);
  }

  /** The automatic choice is arbitrary: for any candidate indices `picks`
      of the drawn count, repetitions allowed, some generator stream makes
      `remove_node_pairs` hold out exactly those candidates. */
  lemma {:induction false} AnyDrawIsPossible(rows: seq<Row>, numNodes: int, percentage: real, picks: seq<nat>)
    requires numNodes >= 2
    requires |picks| == PickCount(PairCount(numNodes), percentage)
    requires forall m :: 0 <= m < |picks| ==> picks[m] < PairCount(numNodes)
    ensures forall m: nat :: 0.0 <= PicksStream(PairCount(numNodes), picks)(m) < 1.0
    ensures var r := RemoveNodePairs(rows, numNodes, percentage, None, PicksStream(PairCount(numNodes), picks));
            && r.Success?
            && |r.value.1| == |picks|
            && (forall m :: 0 <= m < |picks| ==> r.value.1[m] == UpperTriangle(numNodes)[picks[m]])
            && r.value.0 == Filter(rows, r.value.1)
  {
    ChoicesReachesAll(UpperTriangle(numNodes), picks);
  }
}

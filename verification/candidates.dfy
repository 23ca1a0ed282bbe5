/** Automatic choice of the held-out pairs: the strict upper-triangle pairs of
    `np.triu_indices(num_nodes, k=1)`, a count of `max(int(num_pairs *
    percentage), 1)`, and `random.choices` drawing that many of them with
    replacement. */
module CandidatePairs {
  import opened Events

  /** Row-major order on node pairs, the order `np.triu_indices` lists them in. */
  predicate PairBefore(a: NodePair, b: NodePair) {
    a.src < b.src || (a.src == b.src && a.dst < b.dst)
  }

  predicate StrictlyIncreasing(s: seq<NodePair>) {
    forall m, n :: 0 <= m < n < |s| ==> PairBefore(s[m], s[n])
  }

  /** Number of pairs `(i, j)` with `i < j` over `count` nodes. */
  function PairCount(count: int): nat {
    if count <= 0 then 0 else count * (count - 1) / 2
  }

  lemma PairCountStep(count: int)
    requires count >= 1
    ensures PairCount(count) == (count - 1) + PairCount(count - 1)
  {
    assert count * (count - 1) == 2 * (count - 1) + (count - 1) * (count - 2);
  }

  /** The pairs `(i, j), (i, j + 1), ..., (i, n - 1)` of one matrix row. */
  function RowPairs(i: int, j: int, n: int): (r: seq<NodePair>)
    ensures forall p :: p in r <==> p.src == i && j <= p.dst < n
    ensures |r| == if j < n then n - j else 0
    ensures StrictlyIncreasing(r)
    ensures forall m :: 0 <= m < |r| ==> r[m].src == i
    decreases n - j
  {
    if j >= n then [] else [NodePair(i, j)] + RowPairs(i, j + 1, n)
  }

  /** The strict upper triangle from matrix row `i` on. */
  function TriuFrom(i: nat, n: int): (r: seq<NodePair>)
    ensures forall p :: p in r <==> i <= p.src < p.dst < n
    ensures |r| == PairCount(n - i)
    ensures StrictlyIncreasing(r)
    ensures forall m :: 0 <= m < |r| ==> i <= r[m].src
    decreases n - i
  {
    if i >= n then []
    else
      var head := RowPairs(i, i + 1, n);
      var tail := TriuFrom(i + 1, n);
      PairCountStep(n - i);
      assert forall m, k :: 0 <= m < |head| && 0 <= k < |tail| ==> PairBefore(head[m], tail[k]);
      head + tail
  }

  /** `list(zip(*np.triu_indices(n, k=1)))`: every pair `(i, j)` with
      `0 <= i < j < n`, each once, in row-major order. */
  function UpperTriangle(n: int): (r: seq<NodePair>)
    ensures forall p :: p in r <==> 0 <= p.src < p.dst < n
    ensures |r| == PairCount(n)
    ensures StrictlyIncreasing(r)
  {
    TriuFrom(0, n)
  }

  /** `max(int(num_pairs * percentage), 1)`: how many pairs are drawn. */
  function PickCount(numPairs: nat, percentage: real): (k: nat)
    ensures k >= 1
    ensures TruncToInt(numPairs as real * percentage) <= k
    ensures k == 1 || k == TruncToInt(numPairs as real * percentage)
    ensures 0.0 <= percentage <= 1.0 && numPairs >= 1 ==> k <= numPairs
  {
    var product := numPairs as real * percentage;
    assert 0.0 <= percentage <= 1.0 ==> product <= numPairs as real by {
      if 0.0 <= percentage <= 1.0 {
        assert numPairs as real * (1.0 - percentage) >= 0.0;
      }
    }
    var t := TruncToInt(product);
    if t >= 1 then t else 1
  }

  /** The index one draw `u` of `random()` selects among `n` candidates:
      `floor(u * n)`. */
  function DrawIndex(u: real, n: nat): (idx: nat)
    requires 0.0 <= u < 1.0 && n > 0
    ensures idx < n
    ensures idx as real <= u * n as real < idx as real + 1.0
  {
    assert u * n as real < n as real by {
      assert (1.0 - u) * n as real > 0.0;
    }
    (u * n as real).Floor
  }

  /** Every candidate can be drawn: the draw `i / n` selects index `i`. */
  lemma DrawIndexReachesAll(i: nat, n: nat)
    requires i < n
    ensures 0.0 <= i as real / n as real < 1.0
    ensures DrawIndex(i as real / n as real, n) == i
  {
    assert (i as real / n as real) * n as real == i as real;
  }

  /** `random.choices(population, k=k)` with the uniform draws `random(0)`,
      `random(1)`, ... taken from the generator: `k` picks, with replacement. */
  function Choices(population: seq<NodePair>, k: nat, random: nat -> real): (picked: seq<NodePair>)
    requires |population| > 0
    requires forall m: nat :: 0.0 <= random(m) < 1.0
    ensures |picked| == k
    ensures forall q :: q in picked ==> q in population
    ensures forall m :: 0 <= m < k ==> picked[m] == population[DrawIndex(random(m), |population|)]
  {
    var picked := seq(k, m requires 0 <= m < k => population[DrawIndex(random(m), |population|)]);
    assert forall m :: 0 <= m < k ==> picked[m] in population by {
      forall m | 0 <= m < k ensures picked[m] in population {
        var at := DrawIndex(random(m), |population|);
        assert picked[m] == population[at];
      }
    }
    picked
  }

  /** A generator stream whose first draws select the candidate indices
      `picks`, in order; later draws are 0. */
  function PicksStream(n: nat, picks: seq<nat>): nat -> real {
    (m: nat) => if m < |picks| && n > 0 then picks[m] as real / n as real else 0.0
  }

  /** Every sequence of candidates, repetitions allowed, is what
      `random.choices` returns for some generator stream. */
  lemma {:induction false} ChoicesReachesAll(population: seq<NodePair>, picks: seq<nat>)
    requires |population| > 0
    requires forall m :: 0 <= m < |picks| ==> picks[m] < |population|
    ensures forall m: nat :: 0.0 <= PicksStream(|population|, picks)(m) < 1.0
    ensures |Choices(population, |picks|, PicksStream(|population|, picks))| == |picks|
    ensures forall m :: 0 <= m < |picks| ==>
              Choices(population, |picks|, PicksStream(|population|, picks))[m] == population[picks[m]]
  {
    var random := PicksStream(|population|, picks);
    forall m: nat
      ensures 0.0 <= random(m) < 1.0
    {
      if m < |picks| {
        DrawIndexReachesAll(picks[m], |population|);
      }
    }
    forall m | 0 <= m < |picks|
      ensures DrawIndex(random(m), |population|) == picks[m]
    {
      DrawIndexReachesAll(picks[m], |population|);
    }
  }
}

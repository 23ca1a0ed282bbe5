/** The keep/drop loop of `remove_node_pairs`: every row whose ordered node
    pair is one of the removed pairs is dropped, every other row is kept whole
    and in its original position relative to the other kept rows. */
module NodePairFilter {
  import opened Events

  /** The reduced dataset. Defined from the back, like the loop that appends
      each kept row to the end of the result. */
  function Filter(rows: seq<Row>, pairs: seq<NodePair>): (kept: seq<Row>)
    ensures |kept| <= |rows|
    ensures forall x :: x in kept ==> x in rows && !Removed(x, pairs)
    decreases |rows|
  {
    if rows == [] then []
    else
      var init := Filter(rows[..|rows| - 1], pairs);
      var last := rows[|rows| - 1];
      if Removed(last, pairs) then init else init + [last]
  }

  /** The inner loop: `keep` starts true and is cleared by every matching pair. */
  method KeepRow(row: Row, pairs: seq<NodePair>) returns (keep: bool)
    ensures keep <==> !Removed(row, pairs)
  {
    keep := true;
    var k := 0;
    while k < |pairs|
      invariant 0 <= k <= |pairs|
      invariant keep <==> forall m :: 0 <= m < k ==> !Matches(row, pairs[m])
    {
      if TruncToInt(row.src) == pairs[k].src && TruncToInt(row.dst) == pairs[k].dst {
        keep := false;
      }
      k := k + 1;
    }
    if !keep {
      var m :| 0 <= m < |pairs| && Matches(row, pairs[m]);
      assert pairs[m] in pairs;
    }
  }

  /** The outer loop over the dataset rows, appending each kept row. */
  method FilterRows(rows: seq<Row>, pairs: seq<NodePair>) returns (reduced: seq<Row>)
    ensures reduced == Filter(rows, pairs)
  {
    reduced := [];
    var i := 0;
    while i < |rows|
      invariant 0 <= i <= |rows|
      invariant reduced == Filter(rows[..i], pairs)
    {
      var keep := KeepRow(rows[i], pairs);
      assert rows[..i + 1][..i] == rows[..i];
      if keep {
        reduced := reduced + [rows[i]];
      }
      i := i + 1;
    }
    assert rows[..|rows|] == rows;
  }

  /** Filtering rows none of which matches a removed pair changes nothing. */
  lemma {:induction false} FilterKeepsUnmatched(rows: seq<Row>, pairs: seq<NodePair>)
    requires forall k :: 0 <= k < |rows| ==> !Removed(rows[k], pairs)
    ensures Filter(rows, pairs) == rows
    decreases |rows|
  {
    if rows != [] {
      FilterKeepsUnmatched(rows[..|rows| - 1], pairs);
      assert rows[..|rows| - 1] + [rows[|rows| - 1]] == rows;
    }
  }

  /** An empty pair list removes nothing. */
  lemma {:induction false} FilterNoPairs(rows: seq<Row>)
    ensures Filter(rows, []) == rows
  {
    FilterKeepsUnmatched(rows, []);
  }

  /** Multiplicities: a removed row disappears entirely, every other row keeps
      exactly as many copies as the input has. */
  lemma {:induction false} FilterCounts(rows: seq<Row>, pairs: seq<NodePair>)
    ensures forall x :: multiset(Filter(rows, pairs))[x] ==
                        (if Removed(x, pairs) then 0 else multiset(rows)[x])
    decreases |rows|
  {
    if rows != [] {
      var init := rows[..|rows| - 1];
      FilterCounts(init, pairs);
      assert init + [rows[|rows| - 1]] == rows;
    }
  }

  /** Completeness: every input row that matches no removed pair is in the output. */
  lemma {:induction false} FilterComplete(rows: seq<Row>, pairs: seq<NodePair>)
    ensures forall k :: 0 <= k < |rows| && !Removed(rows[k], pairs) ==> rows[k] in Filter(rows, pairs)
  {
    FilterCounts(rows, pairs);
    forall k | 0 <= k < |rows| && !Removed(rows[k], pairs)
      ensures rows[k] in Filter(rows, pairs)
    {
      assert rows[k] in multiset(rows);
    }
  }

  /** Length: the output is exactly as long as the input if and only if no
      input row matches a removed pair. */
  lemma {:induction false} FilterLengthExact(rows: seq<Row>, pairs: seq<NodePair>)
    ensures |Filter(rows, pairs)| == |rows| <==> forall k :: 0 <= k < |rows| ==> !Removed(rows[k], pairs)
    decreases |rows|
  {
    if rows != [] {
      var init := rows[..|rows| - 1];
      FilterLengthExact(init, pairs);
      if Removed(rows[|rows| - 1], pairs) {
        assert |Filter(rows, pairs)| < |rows|;
      } else if forall k :: 0 <= k < |init| ==> !Removed(init[k], pairs) {
        assert forall k :: 0 <= k < |rows| ==> !Removed(rows[k], pairs) by {
          forall k | 0 <= k < |rows| ensures !Removed(rows[k], pairs) {
            if k < |init| {
              assert rows[k] == init[k];
            }
          }
        }
      } else {
        var k :| 0 <= k < |init| && Removed(init[k], pairs);
        assert rows[k] == init[k];
      }
    }
  }

  /** Indices of the kept rows, in increasing order. */
  function KeptIndices(rows: seq<Row>, pairs: seq<NodePair>): (idx: seq<nat>)
    ensures forall m :: 0 <= m < |idx| ==> idx[m] < |rows|
    decreases |rows|
  {
    if rows == [] then []
    else
      var init := KeptIndices(rows[..|rows| - 1], pairs);
      if Removed(rows[|rows| - 1], pairs) then init else init + [|rows| - 1]
  }

  /** `sub` is the subsequence of `s` found at the strictly increasing
      positions `idx`. */
  ghost predicate SubsequenceAt<T>(sub: seq<T>, s: seq<T>, idx: seq<nat>) {
    && |idx| == |sub|
    && (forall m :: 0 <= m < |idx| ==> idx[m] < |s| && sub[m] == s[idx[m]])
    && (forall m, n :: 0 <= m < n < |idx| ==> idx[m] < idx[n])
  }

  /** A position appears among the kept indices exactly when its row matches
      no removed pair. */
  lemma {:induction false} KeptIndicesExact(rows: seq<Row>, pairs: seq<NodePair>)
    ensures forall k :: 0 <= k < |rows| ==> (k in KeptIndices(rows, pairs) <==> !Removed(rows[k], pairs))
    decreases |rows|
  {
    if rows != [] {
      var init := rows[..|rows| - 1];
      KeptIndicesExact(init, pairs);
      forall k | 0 <= k < |rows|
        ensures k in KeptIndices(rows, pairs) <==> !Removed(rows[k], pairs)
      {
        if k < |init| {
          assert rows[k] == init[k];
          assert k != |rows| - 1;
        }
      }
    }
  }

  /** The output is the input read at the kept indices, in increasing order. */
  lemma {:induction false} FilterAtKeptIndices(rows: seq<Row>, pairs: seq<NodePair>)
    ensures SubsequenceAt(Filter(rows, pairs), rows, KeptIndices(rows, pairs))
    decreases |rows|
  {
    if rows != [] {
      var init := rows[..|rows| - 1];
      FilterAtKeptIndices(init, pairs);
      var kept0, idx0 := Filter(init, pairs), KeptIndices(init, pairs);
      assert forall m :: 0 <= m < |idx0| ==> rows[idx0[m]] == init[idx0[m]];
      if !Removed(rows[|rows| - 1], pairs) {
        assert Filter(rows, pairs) == kept0 + [rows[|rows| - 1]];
        assert KeptIndices(rows, pairs) == idx0 + [|rows| - 1];
      }
    }
  }

  /** Order preservation: the output is the subsequence of the input at the
      positions of exactly the rows that match no removed pair; each such row
      is taken whole, time column included. */
  lemma {:induction false} FilterIsSubsequence(rows: seq<Row>, pairs: seq<NodePair>)
    ensures SubsequenceAt(Filter(rows, pairs), rows, KeptIndices(rows, pairs))
    ensures forall k :: 0 <= k < |rows| ==> (k in KeptIndices(rows, pairs) <==> !Removed(rows[k], pairs))
  {
    FilterAtKeptIndices(rows, pairs);
    KeptIndicesExact(rows, pairs);
  }

  /** Idempotence: filtering the reduced dataset again removes nothing more. */
  lemma {:induction false} FilterIdempotent(rows: seq<Row>, pairs: seq<NodePair>)
    ensures Filter(Filter(rows, pairs), pairs) == Filter(rows, pairs)
  {
    var kept := Filter(rows, pairs);
    assert forall k :: 0 <= k < |kept| ==> !Removed(kept[k], pairs) by {
      forall k | 0 <= k < |kept| ensures !Removed(kept[k], pairs) {
        assert kept[k] in kept;
      }
    }
    FilterKeepsUnmatched(kept, pairs);
  }

  /** The result depends only on the set of removed pairs: order and
      repetitions in the pair list make no difference. */
  lemma {:induction false} FilterDependsOnPairSet(rows: seq<Row>, a: seq<NodePair>, b: seq<NodePair>)
    requires forall p :: p in a <==> p in b
    ensures Filter(rows, a) == Filter(rows, b)
    decreases |rows|
  {
    if rows != [] {
      FilterDependsOnPairSet(rows[..|rows| - 1], a, b);
      var last := rows[|rows| - 1];
      if Removed(last, a) {
        var p :| p in a && Matches(last, p);
        assert p in b;
      }
    }
  }

  /** Listing an already removed pair a second time changes nothing. */
  lemma {:induction false} FilterDuplicatePair(rows: seq<Row>, pairs: seq<NodePair>, k: nat)
    requires k < |pairs|
    ensures Filter(rows, pairs + [pairs[k]]) == Filter(rows, pairs)
  {
    FilterDependsOnPairSet(rows, pairs + [pairs[k]], pairs);
  }

  /** Matching is on the ordered pair only: a row running from `j` to `i`
      does not match the pair `(i, j)`, whatever its time. */
  lemma OrderedMatchOnly(i: int, j: int, t: real)
    requires i != j
    ensures !Matches(Row(j as real, i as real, t), NodePair(i, j))
    ensures Matches(Row(i as real, j as real, t), NodePair(i, j))
  {
    TruncOfWhole(i);
    TruncOfWhole(j);
  }

  /** On a dataset: removing only `(i, j)` keeps a row from `j` to `i` and
      drops a row from `i` to `j`. */
  lemma OrderedPairOnly(i: int, j: int, t: real)
    requires i != j
    ensures Filter([Row(j as real, i as real, t)], [NodePair(i, j)]) == [Row(j as real, i as real, t)]
    ensures Filter([Row(i as real, j as real, t)], [NodePair(i, j)]) == []
  {
    OrderedMatchOnly(i, j, t);
    var fwd := Row(i as real, j as real, t);
    assert Removed(fwd, [NodePair(i, j)]);
    assert [fwd][..0] == [];
  }
}

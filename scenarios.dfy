/** The trace on particular inputs: the empty sequence, a single element,
    any strictly ascending sequence, and the sequence the page starts
    with. */
module Scenarios {
  import opened LisSpec
  import opened LisTrace
  import Visualizer

  /** The empty sequence gives the two records `Init` and `Final` and an
      empty result. */
  lemma EmptySequence()
    ensures |Trace([])| == 2 && LisResult([]) == []
    ensures Trace([])[0].lengths == [] && Trace([])[1].lisResult == []
  {
  }

  /** A single element gives two records and is its own result. */
  lemma SingleElement(x: int)
    ensures |Trace([x])| == 2 && LisResult([x]) == [x]
  {
    assert Improvements([x], 1, 0) == [];
  }

  /** `arr` strictly increases from left to right. */
  ghost predicate Ascending(arr: seq<int>) {
    forall a, b :: 0 <= a < b < |arr| ==> arr[a] < arr[b]
  }

  /** On an ascending sequence every candidate improves the entry, so the
      entry for `i` after `j` candidates is `j + 1` and its back-pointer is
      `j - 1`. */
  lemma {:induction false} AscendingTables(arr: seq<int>, i: nat, j: nat)
    requires Ascending(arr) && j <= i < |arr|
    ensures Relaxed(arr, i, j) == j + 1
    ensures PrevAfter(arr, i, j) == j - 1
    ensures j > 0 ==> Improves(arr, i, j - 1)
    decreases i, j
  {
    if j > 0 {
      AscendingTables(arr, i, j - 1);
      AscendingTables(arr, j - 1, j - 1);
    }
  }

  /** On an ascending sequence the record count is quadratic: every pair
      before `(i, j)` improves. */
  lemma {:induction false} AscendingImprovements(arr: seq<int>, i: nat, j: nat)
    requires Ascending(arr) && j <= i <= |arr| && (i == |arr| ==> j == 0)
    ensures |Improvements(arr, i, j)| == i * (i - 1) / 2 + j
    decreases i, j
  {
    if j > 0 {
      AscendingTables(arr, i, j);
      AscendingImprovements(arr, i, j - 1);
    } else if i > 0 {
      AscendingImprovements(arr, i - 1, i - 1);
    }
  }

  /** Following back-pointers on an ascending sequence visits every position
      up to `k`. */
  lemma {:induction false} AscendingChain(arr: seq<int>, k: nat)
    requires Ascending(arr) && k < |arr|
    ensures Chain(FinalPrevs(arr), k) == seq(k + 1, a => a)
    decreases k
  {
    AscendingTables(arr, k, k);
    if k > 0 {
      AscendingChain(arr, k - 1);
    }
  }

  /** An ascending sequence is its own longest increasing subsequence, and
      its trace holds one record per pair `j < i` plus `Init` and
      `Final`. */
  lemma AscendingSequence(arr: seq<int>)
    requires Ascending(arr)
    ensures LisResult(arr) == arr
    ensures |Trace(arr)| == 2 + |arr| * (|arr| - 1) / 2
  {
    var n := |arr|;
    AscendingImprovements(arr, n, 0);
    if n > 0 {
      var lengths := FinalLengths(arr);
      forall k | 0 <= k < n
        ensures lengths[k] == k + 1
      {
        AscendingTables(arr, k, k);
      }
      var pos := FirstMaxIndex(lengths);
      assert lengths[n - 1] <= lengths[pos];
      assert pos == n - 1;
      AscendingChain(arr, n - 1);
    }
  }

  /** The tables the dynamic program ends with on the starting sequence. */
  lemma DefaultTables()
    ensures FinalLengths(Visualizer.DefaultSequence) == [1, 1, 2, 2, 2, 3, 4, 4]
    ensures FinalPrevs(Visualizer.DefaultSequence) == [-1, -1, 0, 0, 1, 4, 5, 5]
  {
    var arr := Visualizer.DefaultSequence;
    assert LisEnd(arr, 0) == 1;
    assert LisEnd(arr, 1) == 1;
    assert Relaxed(arr, 2, 1) == 2;
    assert LisEnd(arr, 2) == 2;
    assert Relaxed(arr, 3, 1) == 2;
    assert LisEnd(arr, 3) == 2;
    assert Relaxed(arr, 4, 2) == 2;
    assert LisEnd(arr, 4) == 2;
    assert Relaxed(arr, 5, 4) == 2;
    assert LisEnd(arr, 5) == 3;
    assert Relaxed(arr, 6, 3) == 3;
    assert Relaxed(arr, 6, 5) == 3;
    assert LisEnd(arr, 6) == 4;
    assert Relaxed(arr, 7, 4) == 3;
    assert Relaxed(arr, 7, 5) == 3;
    assert LisEnd(arr, 7) == 4;
  }

  /** On the starting sequence's length table the walk starts at position
      6, the first of the two entries 4. */
  lemma DefaultStart(lengths: seq<int>)
    requires lengths == [1, 1, 2, 2, 2, 3, 4, 4]
    ensures FirstMaxIndex(lengths) == 6
  {
    var pos := FirstMaxIndex(lengths);
    assert lengths[6] <= lengths[pos];
  }

  /** On the starting sequence's back-pointer table the walk from
      position 6 visits 1, 4, 5 and 6. */
  lemma DefaultWalk(prevs: seq<int>)
    requires prevs == [-1, -1, 0, 0, 1, 4, 5, 5]
    ensures Linked(prevs) && Chain(prevs, 6) == [1, 4, 5, 6]
  {
    assert Linked(prevs) by {
      forall k | 0 <= k < |prevs|
        ensures -1 <= prevs[k] < k
      {
      }
    }
    assert prevs[1] == -1 && prevs[4] == 1 && prevs[5] == 4 && prevs[6] == 5;
    assert Chain(prevs, -1) == [];
    assert Chain(prevs, 1) == [1];
    assert Chain(prevs, 4) == [1, 4];
    assert Chain(prevs, 5) == [1, 4, 5];
  }

  /** The page opens showing `[2, 3, 6, 9]`: the lowest-index tie-break
      picks this one among the increasing subsequences of length 4. */
  lemma DefaultResult()
    ensures LisResult(Visualizer.DefaultSequence) == [2, 3, 6, 9]
  {
    var arr := Visualizer.DefaultSequence;
    DefaultTables();
    DefaultStart(FinalLengths(arr));
    DefaultWalk(FinalPrevs(arr));
    assert Values(arr, [1, 4, 5, 6]) == [2, 3, 6, 9];
  }
}

/** The trace builder: the quadratic dynamic program run on two working
    arrays, recording a snapshot after every strict improvement, followed
    by the back-pointer walk that rebuilds the answer. */
module FindLis {
  import opened LisSpec
  import opened LisTrace

  /** Runs the dynamic program on `arr` and returns its trace and the
      reported subsequence. The trace is the reference trace of `arr`; the
      subsequence is strictly increasing, taken from `arr` at increasing
      positions, and no increasing subsequence of `arr` is longer. */
  method FindLIS(arr: seq<int>) returns (steps: seq<Step>, lis: seq<int>)
    ensures steps == Trace(arr)
    ensures lis == LisResult(arr)
    ensures steps[|steps| - 1] == Final(|steps| - 1, FinalSubsequence, arr, lis)
    ensures exists idx :: IsIncreasing(arr, idx) && Values(arr, idx) == lis
    ensures forall a, b :: 0 <= a < b < |lis| ==> lis[a] < lis[b]
    ensures forall idx :: IsIncreasing(arr, idx) ==> |idx| <= |lis|
  {
    var lengths, prevs;
    lengths, prevs, steps := FillTables(arr);
    lis := Reconstruct(arr, lengths, prevs);
    assert lis == LisResult(arr);
    steps := steps + [Final(|steps|, FinalSubsequence, arr, lis)];
    assert steps[|steps| - 1] == Final(|steps| - 1, FinalSubsequence, arr, lis);
    assert steps == Trace(arr);
    assert exists idx :: IsIncreasing(arr, idx) && Values(arr, idx) == lis by {
      LisResultIsIncreasing(arr);
    }
    assert forall idx :: IsIncreasing(arr, idx) ==> |idx| <= |lis| by {
      LisResultIsLongest(arr);
    }
    LisResultIsIncreasing(arr);
  }

  /** The nested loops: fills the length table (every entry starting at 1)
      and the back-pointer table (every entry starting at -1), and records
      the `Init` snapshot and one `Improve` snapshot per strict
      improvement. */
  method FillTables(arr: seq<int>) returns (lengths: seq<int>, prevs: seq<int>, steps: seq<Step>)
    ensures lengths == FinalLengths(arr) && prevs == FinalPrevs(arr)
    ensures steps == [InitStep(arr)] + Improvements(arr, |arr|, 0)
  {
    var n := |arr|;
    var d := new int[n](_ => 1);
    var prev := new int[n](_ => -1);
    steps := [Init(0, InitialSequence, arr, d[..], prev[..])];
    assert d[..] == seq(n, _ => 1) && prev[..] == seq(n, _ => -1);

    for i := 0 to n
      invariant d[..] == LengthsAt(arr, i, 0) && prev[..] == PrevsAt(arr, i, 0)
      invariant steps == [InitStep(arr)] + Improvements(arr, i, 0)
    {
      steps := ScanCandidates(arr, d, prev, i, steps);
      TablesNextRow(arr, i);
    }
    lengths, prevs := d[..], prev[..];
    assert lengths == FinalLengths(arr);
    assert prevs == FinalPrevs(arr);
  }

  /** The inner loop for position `i`: tries every earlier position `j` in
      turn, and on a strict improvement updates the entries for `i` and
      pushes an `Improve` record. */
  method ScanCandidates(arr: seq<int>, d: array<int>, prev: array<int>, i: nat, steps0: seq<Step>)
      returns (steps: seq<Step>)
    requires i < |arr| && d.Length == |arr| && prev.Length == |arr| && d != prev
    requires d[..] == LengthsAt(arr, i, 0) && prev[..] == PrevsAt(arr, i, 0)
    requires steps0 == [InitStep(arr)] + Improvements(arr, i, 0)
    modifies d, prev
    ensures d[..] == LengthsAt(arr, i, i) && prev[..] == PrevsAt(arr, i, i)
    ensures steps == [InitStep(arr)] + Improvements(arr, i, i)
  {
    steps := steps0;
    for j := 0 to i
      invariant d[..] == LengthsAt(arr, i, j) && prev[..] == PrevsAt(arr, i, j)
      invariant steps == [InitStep(arr)] + Improvements(arr, i, j)
    {
      assert d[j] == LengthAt(arr, i, j, j) == LisEnd(arr, j);
      assert d[i] == LengthAt(arr, i, j, i) == Relaxed(arr, i, j);
      TablesAdvance(arr, i, j);
      if arr[j] < arr[i] && d[j] + 1 > d[i] {
        d[i] := d[j] + 1;
        prev[i] := j;
        steps := steps + [Improve(|steps|, Comparing(j, i, arr[j], arr[i]), arr, d[..], prev[..], i, j)];
      }
    }
  }

  /** The reconstruction walk: starts at the first position of the largest
      length and prepends the value at each position while following the
      back-pointers down to the sentinel -1. */
  method Reconstruct(arr: seq<int>, lengths: seq<int>, prevs: seq<int>) returns (answer: seq<int>)
    requires |lengths| == |prevs| == |arr| && Linked(prevs)
    ensures answer == Values(arr, Chain(prevs, FirstMaxIndex(lengths)))
  {
    var pos := FirstMaxIndex(lengths);
    answer := [];
    var p := pos;
    while p != -1
      invariant -1 <= p < |arr|
      invariant Values(arr, Chain(prevs, pos)) == Values(arr, Chain(prevs, p)) + answer
      decreases p + 1
    {
      WalkStep(arr, prevs, p);
      PrependRegroup(Values(arr, Chain(prevs, prevs[p])), arr[p], answer);
      answer := [arr[p]] + answer;
      p := prevs[p];
    }
  }

  /** Prepending `x` to the answer moves it from the end of the walk's
      remaining values to the front of the answer. */
  lemma PrependRegroup(rest: seq<int>, x: int, answer: seq<int>)
    ensures rest + ([x] + answer) == (rest + [x]) + answer
  {
  }
}

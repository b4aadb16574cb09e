/** The longest strictly increasing subsequence (LIS) problem, and the
    quadratic dynamic program that solves it, stated as functions.

    The table entry `d[k]` of the dynamic program is `LisEnd(arr, k)`;
    `Relaxed(arr, i, j)` is what `d[i]` holds after the candidates
    `0 .. j-1` have been tried, and `PrevAfter(arr, i, j)` is the matching
    back-pointer. `LisResult(arr)` is the subsequence rebuilt from the first
    maximal entry by following back-pointers. */
module LisSpec {

  /** `idx` lists positions of `arr` whose positions and values both
      strictly increase: an increasing subsequence of `arr`. */
  ghost predicate IsIncreasing(arr: seq<int>, idx: seq<int>) {
    (forall a :: 0 <= a < |idx| ==> 0 <= idx[a] < |arr|) &&
    (forall a, b :: 0 <= a < b < |idx| ==> idx[a] < idx[b] && arr[idx[a]] < arr[idx[b]])
  }

  /** The values of `arr` at the positions `idx`. */
  function Values(arr: seq<int>, idx: seq<int>): seq<int>
    requires forall a :: 0 <= a < |idx| ==> 0 <= idx[a] < |arr|
  {
    seq(|idx|, a requires 0 <= a < |idx| => arr[idx[a]])
  }

  // ---------------------------------------------------------------------
  // The dynamic program

  /** The final table entry for position `k`: one more than the best entry
      of an earlier, strictly smaller element, or 1 when there is none. */
  function LisEnd(arr: seq<int>, k: nat): (r: nat)
    requires k < |arr|
    ensures r >= 1
    decreases k, 2
  {
    Relaxed(arr, k, k)
  }

  /** The entry for position `i` once the inner loop has tried the
      candidates `0 .. j-1`, starting from 1 and replaced only on a strict
      improvement. */
  function Relaxed(arr: seq<int>, i: nat, j: nat): (r: nat)
    requires j <= i < |arr|
    ensures r >= 1
    decreases j, 1
  {
    if j == 0 then 1
    else if Improves(arr, i, j - 1) then LisEnd(arr, j - 1) + 1
    else Relaxed(arr, i, j - 1)
  }

  /** Trying candidate `j` for position `i` updates the table: the value at
      `j` is strictly smaller and extending it is strictly longer. */
  predicate Improves(arr: seq<int>, i: nat, j: nat)
    requires j < i < |arr|
    decreases j, 3
  {
    arr[j] < arr[i] && LisEnd(arr, j) + 1 > Relaxed(arr, i, j)
  }

  /** The back-pointer for position `i` once the candidates `0 .. j-1` have
      been tried: the last candidate that improved the entry, or -1. */
  function PrevAfter(arr: seq<int>, i: nat, j: nat): (r: int)
    requires j <= i < |arr|
    ensures -1 <= r < j
    ensures r == -1 ==> Relaxed(arr, i, j) == 1
    ensures r != -1 ==> arr[r] < arr[i] && Relaxed(arr, i, j) == LisEnd(arr, r) + 1
  {
    if j == 0 then -1
    else if Improves(arr, i, j - 1) then j - 1
    else PrevAfter(arr, i, j - 1)
  }

  /** The final length table. */
  function FinalLengths(arr: seq<int>): seq<int>
  {
    seq(|arr|, k requires 0 <= k < |arr| => LisEnd(arr, k))
  }

  /** The final back-pointer table. */
  function FinalPrevs(arr: seq<int>): (r: seq<int>)
    ensures |r| == |arr| && Linked(r)
  {
    seq(|arr|, k requires 0 <= k < |arr| => PrevAfter(arr, k, k))
  }

  // ---------------------------------------------------------------------
  // Reconstruction

  /** Every back-pointer points strictly backwards or holds the sentinel -1. */
  predicate Linked(prev: seq<int>) {
    forall k :: 0 <= k < |prev| ==> -1 <= prev[k] < k
  }

  /** The positions visited by following back-pointers from `k` down to the
      sentinel, listed in the order the walk prepends them. */
  function Chain(prev: seq<int>, k: int): (r: seq<int>)
    requires Linked(prev) && -1 <= k < |prev|
    ensures forall a :: 0 <= a < |r| ==> 0 <= r[a] <= k
    ensures forall a, b :: 0 <= a < b < |r| ==> r[a] < r[b]
    ensures k == -1 <==> r == []
    ensures k >= 0 ==> r[|r| - 1] == k
    decreases k + 1
  {
    if k == -1 then [] else Chain(prev, prev[k]) + [k]
  }

  /** The walk from `k` visits at most `k + 1` positions. */
  lemma {:induction false} ChainLength(prev: seq<int>, k: int)
    requires Linked(prev) && -1 <= k < |prev|
    ensures |Chain(prev, k)| <= k + 1
    decreases k + 1
  {
    if k != -1 {
      ChainLength(prev, prev[k]);
    }
  }

  /** One step of the walk: the values along the walk from `k` are those
      along the walk from its back-pointer, followed by the value at `k`. */
  lemma WalkStep(arr: seq<int>, prev: seq<int>, k: nat)
    requires |prev| == |arr| && Linked(prev) && k < |prev|
    ensures Values(arr, Chain(prev, k)) == Values(arr, Chain(prev, prev[k])) + [arr[k]]
  {
    var c := Chain(prev, prev[k]);
    assert Chain(prev, k) == c + [k];
    ValuesSnoc(arr, c, k);
  }

  /** Extending the positions by one extends the values by one. */
  lemma ValuesSnoc(arr: seq<int>, idx: seq<int>, k: nat)
    requires forall a :: 0 <= a < |idx| ==> 0 <= idx[a] < |arr|
    requires k < |arr|
    ensures Values(arr, idx + [k]) == Values(arr, idx) + [arr[k]]
  {
  }

  /** The largest element (`Math.max` over a non-empty list). */
  function Max(d: seq<int>): (r: int)
    requires |d| > 0
    ensures r in d
    ensures forall k :: 0 <= k < |d| ==> d[k] <= r
  {
    if |d| == 1 then d[0]
    else
      var rest := Max(d[1..]);
      if d[0] >= rest then d[0] else rest
  }

  /** The first position holding `v` (`indexOf`), -1 when there is none. */
  function IndexOf(d: seq<int>, v: int): (r: int)
    ensures r == -1 <==> v !in d
    ensures r != -1 ==> 0 <= r < |d| && d[r] == v
    ensures forall k :: 0 <= k < r ==> d[k] != v
  {
    if |d| == 0 then -1
    else if d[0] == v then 0
    else
      var rest := IndexOf(d[1..], v);
      if rest == -1 then -1 else rest + 1
  }

  /** Where the reconstruction starts: the first position of the maximum of
      the table, or -1 for an empty table (the maximum of nothing is minus
      infinity, which no entry equals). */
  function FirstMaxIndex(d: seq<int>): (r: int)
    ensures |d| == 0 <==> r == -1
    ensures |d| > 0 ==> 0 <= r < |d| && d[r] == Max(d)
    ensures forall k :: 0 <= k < |d| ==> d[k] <= d[r]
    ensures forall k :: 0 <= k < r ==> d[k] < d[r]
  {
    if |d| == 0 then -1 else IndexOf(d, Max(d))
  }

  /** The subsequence the program reports: empty exactly for an empty
      input, and never longer than the input. */
  function LisResult(arr: seq<int>): (r: seq<int>)
    ensures |arr| == 0 <==> r == []
    ensures |r| <= |arr|
  {
    var prev := FinalPrevs(arr);
    var pos := FirstMaxIndex(FinalLengths(arr));
    ChainLength(prev, pos);
    Values(arr, Chain(prev, pos))
  }

  // ---------------------------------------------------------------------
  // Properties of the dynamic program

  /** The entry for `i` never decreases as more candidates are tried. */
  lemma {:induction false} RelaxedMonotone(arr: seq<int>, i: nat, j1: nat, j2: nat)
    requires j1 <= j2 <= i < |arr|
    ensures Relaxed(arr, i, j1) <= Relaxed(arr, i, j2)
    decreases j2
  {
    if j1 < j2 {
      RelaxedMonotone(arr, i, j1, j2 - 1);
    }
  }

  /** Candidate `j` improves the entry for `i` exactly when its value is
      smaller and its length is strictly greater than that of every earlier
      smaller candidate: equal values and equal lengths never update. */
  lemma ImprovesExactly(arr: seq<int>, i: nat, j: nat)
    requires j < i < |arr|
    ensures Improves(arr, i, j) <==>
              arr[j] < arr[i] &&
              forall p :: 0 <= p < j && arr[p] < arr[i] ==> LisEnd(arr, p) < LisEnd(arr, j)
  {
    RelaxedIsFirstBest(arr, i, j);
    var r := PrevAfter(arr, i, j);
    if r != -1 {
      assert 0 <= r < j && arr[r] < arr[i];
    }
  }

  /** After the candidates `0 .. j-1`, the entry for `i` is the best
      extension of an earlier smaller element; the back-pointer is the FIRST
      candidate reaching it (a later candidate of equal length never
      displaces it), and it is -1 exactly when no earlier element is
      smaller. */
  lemma {:induction false} RelaxedIsFirstBest(arr: seq<int>, i: nat, j: nat)
    requires j <= i < |arr|
    ensures forall p :: 0 <= p < j && arr[p] < arr[i] ==> LisEnd(arr, p) + 1 <= Relaxed(arr, i, j)
    ensures forall p :: 0 <= p < PrevAfter(arr, i, j) && arr[p] < arr[i] ==>
              LisEnd(arr, p) + 1 < Relaxed(arr, i, j)
    ensures PrevAfter(arr, i, j) == -1 <==> forall p :: 0 <= p < j ==> arr[i] <= arr[p]
  {
    if j > 0 {
      RelaxedIsFirstBest(arr, i, j - 1);
    }
  }

  /** Following the final back-pointers from `k` yields an increasing
      subsequence ending at `k` whose length is the table entry for `k`. */
  lemma {:induction false} ChainIsWitness(arr: seq<int>, k: nat)
    requires k < |arr|
    ensures IsIncreasing(arr, Chain(FinalPrevs(arr), k))
    ensures |Chain(FinalPrevs(arr), k)| == LisEnd(arr, k)
    decreases k
  {
    var prev := FinalPrevs(arr);
    var p := prev[k];
    assert p == PrevAfter(arr, k, k);
    if p != -1 {
      ChainIsWitness(arr, p);
      var c := Chain(prev, p);
      assert Chain(prev, k) == c + [k];
      forall a | 0 <= a < |c|
        ensures arr[c[a]] < arr[k]
      {
        if a < |c| - 1 {
          assert arr[c[a]] < arr[c[|c| - 1]];
        }
      }
    }
  }

  /** No increasing subsequence ending at position `k` is longer than the
      table entry for `k`. */
  lemma {:induction false} LisEndIsMaximal(arr: seq<int>, idx: seq<int>)
    requires IsIncreasing(arr, idx) && |idx| > 0
    ensures |idx| <= LisEnd(arr, idx[|idx| - 1])
    decreases |idx|
  {
    if |idx| > 1 {
      var front := idx[..|idx| - 1];
      assert IsIncreasing(arr, front);
      LisEndIsMaximal(arr, front);
      var p, k := idx[|idx| - 2], idx[|idx| - 1];
      RelaxedIsFirstBest(arr, k, k);
      assert LisEnd(arr, p) + 1 <= LisEnd(arr, k);
    }
  }

  /** The table entry for `k` is exactly the length of the longest strictly
      increasing subsequence of `arr` ending at `k`. */
  lemma LisEndIsLongestEndingAt(arr: seq<int>, k: nat)
    requires k < |arr|
    ensures exists idx :: IsIncreasing(arr, idx) && |idx| == LisEnd(arr, k) && idx[|idx| - 1] == k
    ensures forall idx :: IsIncreasing(arr, idx) && |idx| > 0 && idx[|idx| - 1] == k ==> |idx| <= LisEnd(arr, k)
  {
    ChainIsWitness(arr, k);
    var c := Chain(FinalPrevs(arr), k);
    assert IsIncreasing(arr, c) && |c| == LisEnd(arr, k) && c[|c| - 1] == k;
    forall idx | IsIncreasing(arr, idx) && |idx| > 0 && idx[|idx| - 1] == k
      ensures |idx| <= LisEnd(arr, k)
    {
      LisEndIsMaximal(arr, idx);
    }
  }

  /** The reported subsequence is strictly increasing and is taken from
      `arr` at strictly increasing positions. */
  lemma LisResultIsIncreasing(arr: seq<int>)
    ensures exists idx :: IsIncreasing(arr, idx) && Values(arr, idx) == LisResult(arr)
    ensures forall a, b :: 0 <= a < b < |LisResult(arr)| ==> LisResult(arr)[a] < LisResult(arr)[b]
    ensures |arr| == 0 ==> LisResult(arr) == []
  {
    var pos := FirstMaxIndex(FinalLengths(arr));
    var c := Chain(FinalPrevs(arr), pos);
    if pos != -1 {
      ChainIsWitness(arr, pos);
    }
    assert IsIncreasing(arr, c);
    assert Values(arr, c) == LisResult(arr);
  }

  /** The reported subsequence has the length of the largest table entry,
      and no increasing subsequence of `arr` is longer. */
  lemma LisResultIsLongest(arr: seq<int>)
    ensures |arr| > 0 ==> |LisResult(arr)| == Max(FinalLengths(arr))
    ensures forall idx :: IsIncreasing(arr, idx) ==> |idx| <= |LisResult(arr)|
  {
    var lengths := FinalLengths(arr);
    var pos := FirstMaxIndex(lengths);
    var c := Chain(FinalPrevs(arr), pos);
    assert |LisResult(arr)| == |c|;
    if pos != -1 {
      ChainIsWitness(arr, pos);
      assert lengths[pos] == LisEnd(arr, pos);
    }
    forall idx | IsIncreasing(arr, idx)
      ensures |idx| <= |c|
    {
      if |idx| > 0 {
        var last := idx[|idx| - 1];
        assert 0 <= last < |arr|;
        LisEndIsMaximal(arr, idx);
        assert lengths[last] == LisEnd(arr, last);
      }
    }
  }
}

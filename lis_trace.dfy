/** The replayable trace of the dynamic program: one `Init` record, one
    `Improve` record per strict improvement of the length table (outer
    position `i` ascending, inner candidate `j < i` ascending), and one
    `Final` record carrying the reported subsequence. `Trace(arr)` is the
    reference definition of that trace in terms of the dynamic program of
    `LisSpec`. */
module LisTrace {
  import opened LisSpec

  /** What a record says about itself; `Comparing(j, i, left, right)` stands
      for "Comparing elements at positions j and i: left < right". */
  datatype Description =
    | InitialSequence
    | Comparing(j: int, i: int, left: int, right: int)
    | FinalSubsequence

  /** One recorded instant of the algorithm. Every record carries its
      position in the trace and a copy of the input; `Init` and `Improve`
      records carry copies of the length and back-pointer tables, an
      `Improve` record the two compared positions, the `Final` record the
      result. */
  datatype Step =
    | Init(step: nat, description: Description, currentArray: seq<int>,
           lengths: seq<int>, prevPointers: seq<int>)
    | Improve(step: nat, description: Description, currentArray: seq<int>,
              lengths: seq<int>, prevPointers: seq<int>, currentI: int, currentJ: int)
    | Final(step: nat, description: Description, currentArray: seq<int>, lisResult: seq<int>)

  /** `(i1, j1)` comes strictly before `(i2, j2)` in the loop order. */
  predicate Before(i1: int, j1: int, i2: int, j2: int) {
    i1 < i2 || (i1 == i2 && j1 < j2)
  }

  /** The length entry for `k` while the loops stand at `(i, j)`: rows
      before `i` are final, row `i` has tried the candidates `0 .. j-1`,
      later rows still hold their initial 1. */
  function LengthAt(arr: seq<int>, i: nat, j: nat, k: nat): nat
    requires j <= i <= |arr| && k < |arr|
  {
    if k < i then LisEnd(arr, k) else if k == i then Relaxed(arr, i, j) else 1
  }

  /** The back-pointer entry for `k` while the loops stand at `(i, j)`. */
  function PrevAt(arr: seq<int>, i: nat, j: nat, k: nat): int
    requires j <= i <= |arr| && k < |arr|
  {
    if k < i then PrevAfter(arr, k, k) else if k == i then PrevAfter(arr, i, j) else -1
  }

  /** The length table while the loops stand at `(i, j)`. */
  function LengthsAt(arr: seq<int>, i: nat, j: nat): seq<int>
    requires j <= i <= |arr|
  {
    seq(|arr|, k requires 0 <= k < |arr| => LengthAt(arr, i, j, k))
  }

  /** The back-pointer table while the loops stand at `(i, j)`. */
  function PrevsAt(arr: seq<int>, i: nat, j: nat): seq<int>
    requires j <= i <= |arr|
  {
    seq(|arr|, k requires 0 <= k < |arr| => PrevAt(arr, i, j, k))
  }

  /** The first record: every length 1, every back-pointer -1, which are
      the tables as they stand before the loops start. */
  function InitStep(arr: seq<int>): (r: Step)
    ensures r.Init? && r.step == 0 && r.currentArray == arr
    ensures r.lengths == LengthsAt(arr, 0, 0) && r.prevPointers == PrevsAt(arr, 0, 0)
  {
    Init(0, InitialSequence, arr, seq(|arr|, _ => 1), seq(|arr|, _ => -1))
  }

  /** The record of an improvement at `(i, j)`, with the tables as they are
      just after the update. */
  function ImproveStep(arr: seq<int>, i: nat, j: nat, step: nat): (r: Step)
    requires j < i < |arr|
    ensures r.Improve? && r.step == step && r.currentI == i && r.currentJ == j
    ensures |r.lengths| == |arr| && |r.prevPointers| == |arr|
    ensures Improves(arr, i, j) ==>
              r.lengths[i] == r.lengths[j] + 1 && r.prevPointers[i] == j &&
              r.lengths[i] > LengthsAt(arr, i, j)[i]
  {
    Improve(step, Comparing(j, i, arr[j], arr[i]), arr,
            LengthsAt(arr, i, j + 1), PrevsAt(arr, i, j + 1), i, j)
  }

  /** The `Improve` records of every pair strictly before `(i, j)` in the
      loop order, numbered from 1. */
  function Improvements(arr: seq<int>, i: nat, j: nat): (r: seq<Step>)
    requires j <= i <= |arr| && (i == |arr| ==> j == 0)
    ensures |r| <= i * (i - 1) / 2 + j
    decreases i, j
  {
    if j > 0 then
      var before := Improvements(arr, i, j - 1);
      if Improves(arr, i, j - 1) then before + [ImproveStep(arr, i, j - 1, 1 + |before|)]
      else before
    else if i == 0 then []
    else Improvements(arr, i - 1, i - 1)
  }

  /** The whole trace of the program on `arr`: the `Init` record first and
      the `Final` record, numbered by its position, with the result last
      (`TraceNumbering` states the numbering of all of them). */
  function Trace(arr: seq<int>): (r: seq<Step>)
    ensures |r| >= 2
    ensures r[0] == InitStep(arr)
    ensures r[|r| - 1] == Final(|r| - 1, FinalSubsequence, arr, LisResult(arr))
  {
    var middle := Improvements(arr, |arr|, 0);
    [InitStep(arr)] + middle + [Final(1 + |middle|, FinalSubsequence, arr, LisResult(arr))]
  }

  /** The improving pairs `(i, j)` strictly before `(bi, bj)` in loop order. */
  ghost function ImprovingBefore(arr: seq<int>, bi: nat, bj: nat): set<(int, int)> {
    set i: nat, j: nat | j < i < |arr| && Before(i, j, bi, bj) && Improves(arr, i, j) :: (i, j)
  }

  /** Every pair `(i, j)` whose comparison improves the table. */
  ghost function ImprovingPairs(arr: seq<int>): set<(int, int)> {
    ImprovingBefore(arr, |arr|, 0)
  }

  /** The compared pairs the records of `s` carry. */
  ghost function PairsIn(s: seq<Step>): set<(int, int)> {
    set p | 0 <= p < |s| && s[p].Improve? :: (s[p].currentI, s[p].currentJ)
  }

  // ---------------------------------------------------------------------
  // The improvement records

  /** `x` is the record of an improving pair that comes strictly before
      `(i, j)` in loop order, numbered `step`. */
  predicate IsRecordBefore(arr: seq<int>, x: Step, step: nat, i: int, j: int) {
    x.Improve? && 0 <= x.currentJ < x.currentI < |arr| &&
    Improves(arr, x.currentI, x.currentJ) &&
    Before(x.currentI, x.currentJ, i, j) &&
    x == ImproveStep(arr, x.currentI, x.currentJ, step)
  }

  /** The pair recorded by `x` comes strictly before the pair recorded by `y`. */
  predicate InOrder(x: Step, y: Step) {
    x.Improve? && y.Improve? && Before(x.currentI, x.currentJ, y.currentI, y.currentJ)
  }

  /** Each improvement record before `(i, j)` is the record of an improving
      pair that comes before `(i, j)`, numbered by its position plus one. */
  lemma {:induction false} ImprovementsRecords(arr: seq<int>, i: nat, j: nat)
    requires j <= i <= |arr| && (i == |arr| ==> j == 0)
    ensures forall p :: 0 <= p < |Improvements(arr, i, j)| ==>
      IsRecordBefore(arr, Improvements(arr, i, j)[p], p + 1, i, j)
    decreases i, j
  {
    if j > 0 {
      ImprovementsRecords(arr, i, j - 1);
      var before := Improvements(arr, i, j - 1);
      var s := Improvements(arr, i, j);
      assert |before| <= |s|;
      forall p | 0 <= p < |s|
        ensures IsRecordBefore(arr, s[p], p + 1, i, j)
      {
        if p < |before| {
          assert s[p] == before[p];
          assert IsRecordBefore(arr, before[p], p + 1, i, j - 1);
        }
      }
    } else if i > 0 {
      var s := Improvements(arr, i - 1, i - 1);
      assert Improvements(arr, i, 0) == s;
      ImprovementsRecords(arr, i - 1, i - 1);
      forall p | 0 <= p < |s|
        ensures IsRecordBefore(arr, s[p], p + 1, i, 0)
      {
        assert IsRecordBefore(arr, s[p], p + 1, i - 1, i - 1);
      }
    }
  }

  /** The improvement records follow the loop order strictly. */
  lemma {:induction false} ImprovementsOrdered(arr: seq<int>, i: nat, j: nat)
    requires j <= i <= |arr| && (i == |arr| ==> j == 0)
    ensures forall p, q :: 0 <= p < q < |Improvements(arr, i, j)| ==>
      InOrder(Improvements(arr, i, j)[p], Improvements(arr, i, j)[q])
    decreases i, j
  {
    if j > 0 {
      ImprovementsOrdered(arr, i, j - 1);
      ImprovementsRecords(arr, i, j - 1);
      var before := Improvements(arr, i, j - 1);
      var s := Improvements(arr, i, j);
      forall p, q | 0 <= p < q < |s|
        ensures InOrder(s[p], s[q])
      {
        assert s[p] == before[p];
        assert IsRecordBefore(arr, before[p], p + 1, i, j - 1);
        if q < |before| {
          assert s[q] == before[q];
          assert InOrder(before[p], before[q]);
        }
      }
    } else if i > 0 {
      assert Improvements(arr, i, 0) == Improvements(arr, i - 1, i - 1);
      ImprovementsOrdered(arr, i - 1, i - 1);
    }
  }

  /** Trying one more candidate adds at most the pair just tried, which was
      not among the earlier ones. */
  lemma ImprovingBeforeNext(arr: seq<int>, i: nat, j: nat)
    requires j < i < |arr|
    ensures (i, j) !in ImprovingBefore(arr, i, j)
    ensures ImprovingBefore(arr, i, j + 1) ==
      ImprovingBefore(arr, i, j) + (if Improves(arr, i, j) then {(i, j)} else {})
  {
    var a, b := ImprovingBefore(arr, i, j + 1), ImprovingBefore(arr, i, j);
    var extra: set<(int, int)> := if Improves(arr, i, j) then {(i, j)} else {};
    forall x | x in a
      ensures x in b + extra
    {
      var i': nat, j': nat :| j' < i' < |arr| && Before(i', j', i, j + 1) && Improves(arr, i', j') && x == (i', j');
      if !(i' == i && j' == j) {
        assert x in b;
      }
    }
    forall x | x in b + extra
      ensures x in a
    {
      if x in b {
        var i': nat, j': nat :| j' < i' < |arr| && Before(i', j', i, j) && Improves(arr, i', j') && x == (i', j');
        assert Before(i', j', i, j + 1);
      }
    }
  }

  /** Finishing row `i - 1` is the same as starting row `i`. */
  lemma ImprovingBeforeRow(arr: seq<int>, i: nat)
    requires 0 < i <= |arr|
    ensures ImprovingBefore(arr, i, 0) == ImprovingBefore(arr, i - 1, i - 1)
  {
    var a, b := ImprovingBefore(arr, i, 0), ImprovingBefore(arr, i - 1, i - 1);
    forall x | x in a
      ensures x in b
    {
      var i': nat, j': nat :| j' < i' < |arr| && Before(i', j', i, 0) && Improves(arr, i', j') && x == (i', j');
      assert Before(i', j', i - 1, i - 1);
    }
    forall x | x in b
      ensures x in a
    {
      var i': nat, j': nat :| j' < i' < |arr| && Before(i', j', i - 1, i - 1) && Improves(arr, i', j') && x == (i', j');
      assert Before(i', j', i, 0);
    }
  }

  /** Appending an improvement record adds its pair. */
  lemma PairsInAppend(s: seq<Step>, x: Step)
    requires x.Improve?
    ensures PairsIn(s + [x]) == PairsIn(s) + {(x.currentI, x.currentJ)}
  {
    var t := s + [x];
    forall y | y in PairsIn(t)
      ensures y in PairsIn(s) + {(x.currentI, x.currentJ)}
    {
      var p :| 0 <= p < |t| && t[p].Improve? && y == (t[p].currentI, t[p].currentJ);
      if p < |s| {
        assert t[p] == s[p];
      }
    }
    forall y | y in PairsIn(s)
      ensures y in PairsIn(t)
    {
      var p :| 0 <= p < |s| && s[p].Improve? && y == (s[p].currentI, s[p].currentJ);
      assert t[p] == s[p];
    }
    assert t[|s|] == x;
  }

  /** Trying candidate `j` for `i` appends one record exactly when the pair
      improves. */
  lemma ImprovementsNext(arr: seq<int>, i: nat, j: nat)
    requires j < i < |arr|
    ensures Improves(arr, i, j) ==>
              Improvements(arr, i, j + 1) ==
              Improvements(arr, i, j) + [ImproveStep(arr, i, j, 1 + |Improvements(arr, i, j)|)]
    ensures !Improves(arr, i, j) ==> Improvements(arr, i, j + 1) == Improvements(arr, i, j)
  {
  }

  /** Trying candidate `j` for `i` keeps the records in step with the
      improving pairs. */
  lemma ImprovementsCountStep(arr: seq<int>, i: nat, j: nat)
    requires j < i < |arr|
    requires PairsIn(Improvements(arr, i, j)) == ImprovingBefore(arr, i, j)
    requires |Improvements(arr, i, j)| == |ImprovingBefore(arr, i, j)|
    ensures PairsIn(Improvements(arr, i, j + 1)) == ImprovingBefore(arr, i, j + 1)
    ensures |Improvements(arr, i, j + 1)| == |ImprovingBefore(arr, i, j + 1)|
  {
    ImprovingBeforeNext(arr, i, j);
    ImprovementsNext(arr, i, j);
    var before := Improvements(arr, i, j);
    var pairs := ImprovingBefore(arr, i, j);
    if Improves(arr, i, j) {
      PairsInAppend(before, ImproveStep(arr, i, j, 1 + |before|));
      assert |pairs + {(i, j)}| == |pairs| + 1;
    }
  }

  /** The records before `(i, j)` carry exactly the improving pairs before
      `(i, j)`, one record per pair. */
  lemma {:induction false} ImprovementsCount(arr: seq<int>, i: nat, j: nat)
    requires j <= i <= |arr| && (i == |arr| ==> j == 0)
    ensures PairsIn(Improvements(arr, i, j)) == ImprovingBefore(arr, i, j)
    ensures |Improvements(arr, i, j)| == |ImprovingBefore(arr, i, j)|
    decreases i, j
  {
    if j > 0 {
      ImprovementsCount(arr, i, j - 1);
      ImprovementsCountStep(arr, i, j - 1);
    } else if i > 0 {
      ImprovementsCount(arr, i - 1, i - 1);
      ImprovingBeforeRow(arr, i);
    } else {
      assert ImprovingBefore(arr, 0, 0) == {};
    }
  }

  // ---------------------------------------------------------------------
  // The tables recorded in the snapshots

  /** A length table and a back-pointer table that agree: every length is
      at least 1, every back-pointer points strictly backwards to a smaller
      element whose length is one less, and -1 goes with length 1. */
  ghost predicate Consistent(arr: seq<int>, lengths: seq<int>, prevs: seq<int>) {
    |lengths| == |arr| && |prevs| == |arr| &&
    forall k :: 0 <= k < |arr| ==>
      lengths[k] >= 1 && -1 <= prevs[k] < k &&
      (prevs[k] == -1 ==> lengths[k] == 1) &&
      (prevs[k] != -1 ==> arr[prevs[k]] < arr[k] && lengths[k] == lengths[prevs[k]] + 1)
  }

  /** The tables agree at every point of the loops. */
  lemma TablesConsistent(arr: seq<int>, i: nat, j: nat)
    requires j <= i <= |arr|
    ensures Consistent(arr, LengthsAt(arr, i, j), PrevsAt(arr, i, j))
  {
    var lengths, prevs := LengthsAt(arr, i, j), PrevsAt(arr, i, j);
    forall k | 0 <= k < |arr|
      ensures lengths[k] >= 1 && -1 <= prevs[k] < k
      ensures prevs[k] == -1 ==> lengths[k] == 1
      ensures prevs[k] != -1 ==> arr[prevs[k]] < arr[k] && lengths[k] == lengths[prevs[k]] + 1
    {
      var r := prevs[k];
      if k < i {
        assert r == PrevAfter(arr, k, k);
      } else if k == i {
        assert r == PrevAfter(arr, i, j);
      }
      if r != -1 {
        assert r < k <= i && lengths[r] == LisEnd(arr, r);
      }
    }
  }

  /** Trying candidate `j` for position `i` changes at most the entries
      for `i`. */
  lemma TablesAdvance(arr: seq<int>, i: nat, j: nat)
    requires j < i < |arr|
    ensures LengthsAt(arr, i, j + 1) == LengthsAt(arr, i, j)[i := Relaxed(arr, i, j + 1)]
    ensures PrevsAt(arr, i, j + 1) == PrevsAt(arr, i, j)[i := PrevAfter(arr, i, j + 1)]
  {
  }

  /** Finishing row `i` is the same as starting row `i + 1`. */
  lemma TablesNextRow(arr: seq<int>, i: nat)
    requires i < |arr|
    ensures LengthsAt(arr, i + 1, 0) == LengthsAt(arr, i, i)
    ensures PrevsAt(arr, i + 1, 0) == PrevsAt(arr, i, i)
    ensures Improvements(arr, i + 1, 0) == Improvements(arr, i, i)
  {
  }

  /** No length entry decreases from an earlier point of the loops to a
      later one. */
  lemma LengthsMonotone(arr: seq<int>, i1: nat, j1: nat, i2: nat, j2: nat, k: nat)
    requires j1 <= i1 <= |arr| && j2 <= i2 <= |arr| && k < |arr|
    requires (i1 == i2 && j1 <= j2) || i1 < i2
    ensures LengthAt(arr, i1, j1, k) <= LengthAt(arr, i2, j2, k)
  {
    if k == i1 {
      if i1 == i2 {
        RelaxedMonotone(arr, k, j1, j2);
      } else {
        RelaxedMonotone(arr, k, j1, k);
      }
    }
  }

  /** Where the loop goes after `(i, j)`: the next candidate, or the start
      of the next row. */
  function NextPoint(i: nat, j: nat): (nat, nat)
    requires j <= i
  {
    if j < i then (i, j + 1) else (i + 1, 0)
  }

  /** From a point of the loops after which no comparison improves the
      table, the tables already hold their final values. */
  lemma {:induction false} TablesStable(arr: seq<int>, i: nat, j: nat)
    requires j <= i <= |arr| && (i == |arr| ==> j == 0)
    requires forall i': nat, j': nat :: j' < i' < |arr| && !Before(i', j', i, j) ==> !Improves(arr, i', j')
    ensures LengthsAt(arr, i, j) == FinalLengths(arr)
    ensures PrevsAt(arr, i, j) == PrevsAt(arr, |arr|, 0) == FinalPrevs(arr)
    decreases |arr| - i, i - j
  {
    if i < |arr| {
      var (i2, j2) := NextPoint(i, j);
      TablesStable(arr, i2, j2);
      forall k | 0 <= k < |arr|
        ensures LengthAt(arr, i, j, k) == LengthAt(arr, i2, j2, k)
        ensures PrevAt(arr, i, j, k) == PrevAt(arr, i2, j2, k)
      {
        if k == i && j < i {
          assert !Improves(arr, i, j);
        }
      }
      assert LengthsAt(arr, i, j) == LengthsAt(arr, i2, j2);
      assert PrevsAt(arr, i, j) == PrevsAt(arr, i2, j2);
    } else {
      assert LengthsAt(arr, i, j) == FinalLengths(arr);
    }
  }

  // ---------------------------------------------------------------------
  // The whole trace

  /** The records of the trace are numbered by position and all carry the
      input; the first is `Init` with every length 1 and every back-pointer
      -1, the last is `Final` with the reported subsequence, and every
      record between them is an `Improve` record. */
  lemma TraceNumbering(arr: seq<int>)
    ensures forall p :: 0 <= p < |Trace(arr)| ==> Trace(arr)[p].step == p && Trace(arr)[p].currentArray == arr
    ensures Trace(arr)[0] == Init(0, InitialSequence, arr, seq(|arr|, _ => 1), seq(|arr|, _ => -1))
    ensures Trace(arr)[|Trace(arr)| - 1] ==
      Final(|Trace(arr)| - 1, FinalSubsequence, arr, LisResult(arr))
    ensures forall p :: 0 < p < |Trace(arr)| - 1 ==> Trace(arr)[p].Improve?
  {
    var n := |arr|;
    var m := Improvements(arr, n, 0);
    var t := Trace(arr);
    ImprovementsRecords(arr, n, 0);
    forall p | 0 < p < |t| - 1
      ensures t[p].Improve? && t[p].step == p && t[p].currentArray == arr
    {
      assert t[p] == m[p - 1];
      assert IsRecordBefore(arr, m[p - 1], p, n, 0);
    }
  }

  /** The records between `Init` and `Final` are the records the loops
      push. */
  lemma TraceMiddle(arr: seq<int>)
    ensures |Trace(arr)| == 2 + |Improvements(arr, |arr|, 0)|
    ensures forall p :: 0 < p < |Trace(arr)| - 1 ==> Trace(arr)[p] == Improvements(arr, |arr|, 0)[p - 1]
  {
  }

  /** The `Improve` records of the trace appear in loop order. */
  lemma TraceOrder(arr: seq<int>)
    ensures forall p, q :: 0 < p < q < |Trace(arr)| - 1 ==> InOrder(Trace(arr)[p], Trace(arr)[q])
  {
    var m := Improvements(arr, |arr|, 0);
    var t := Trace(arr);
    ImprovementsOrdered(arr, |arr|, 0);
    TraceMiddle(arr);
    forall p, q | 0 < p < q < |t| - 1
      ensures InOrder(t[p], t[q])
    {
      assert InOrder(m[p - 1], m[q - 1]);
    }
  }

  /** Between `Init` and `Final` the trace holds exactly one record per
      improving pair. */
  lemma TracePairSet(arr: seq<int>)
    ensures |Trace(arr)| == 2 + |ImprovingPairs(arr)|
    ensures PairsIn(Trace(arr)) == ImprovingPairs(arr)
  {
    var m := Improvements(arr, |arr|, 0);
    var t := Trace(arr);
    ImprovementsCount(arr, |arr|, 0);
    TraceMiddle(arr);
    forall x | x in PairsIn(t)
      ensures x in PairsIn(m)
    {
      var p :| 0 <= p < |t| && t[p].Improve? && x == (t[p].currentI, t[p].currentJ);
      assert t[p] == m[p - 1];
    }
    forall x | x in PairsIn(m)
      ensures x in PairsIn(t)
    {
      var p :| 0 <= p < |m| && m[p].Improve? && x == (m[p].currentI, m[p].currentJ);
      assert t[p + 1] == m[p];
    }
  }

  /** Between `Init` and `Final` the trace holds exactly one record per
      improving pair, in loop order. */
  lemma TracePairs(arr: seq<int>)
    ensures |Trace(arr)| == 2 + |ImprovingPairs(arr)|
    ensures PairsIn(Trace(arr)) == ImprovingPairs(arr)
    ensures forall p, q :: 0 < p < q < |Trace(arr)| - 1 ==> InOrder(Trace(arr)[p], Trace(arr)[q])
  {
    TracePairSet(arr);
    TraceOrder(arr);
  }

  /** The shape of the trace: records numbered by position, all carrying the
      input; first an `Init` record with every length 1 and every
      back-pointer -1, last the `Final` record with the reported
      subsequence, and between them exactly one `Improve` record per
      improving pair, in loop order. */
  lemma TraceShape(arr: seq<int>)
    ensures |Trace(arr)| == 2 + |ImprovingPairs(arr)|
    ensures forall p :: 0 <= p < |Trace(arr)| ==> Trace(arr)[p].step == p && Trace(arr)[p].currentArray == arr
    ensures Trace(arr)[0] == Init(0, InitialSequence, arr, seq(|arr|, _ => 1), seq(|arr|, _ => -1))
    ensures Trace(arr)[|Trace(arr)| - 1] ==
      Final(|Trace(arr)| - 1, FinalSubsequence, arr, LisResult(arr))
    ensures forall p :: 0 < p < |Trace(arr)| - 1 ==> Trace(arr)[p].Improve?
    ensures PairsIn(Trace(arr)) == ImprovingPairs(arr)
    ensures forall p, q :: 0 < p < q < |Trace(arr)| - 1 ==> InOrder(Trace(arr)[p], Trace(arr)[q])
  {
    TraceNumbering(arr);
    TracePairs(arr);
  }

  /** Where the loops stand when the record `x` is taken. */
  function PointOf(x: Step): (int, int) {
    if x.Improve? then (x.currentI, x.currentJ + 1) else (0, 0)
  }

  /** Each `Improve` record compares a smaller earlier element with a later
      one, names them in its description, and holds the tables just after
      the update: the length at `i` is one more than the length at `j`, and
      the back-pointer at `i` is `j`. */
  lemma TraceImproveRecords(arr: seq<int>)
    ensures forall p :: 0 < p < |Trace(arr)| - 1 ==>
      var x := Trace(arr)[p];
      x.Improve? && 0 <= x.currentJ < x.currentI < |arr| &&
      arr[x.currentJ] < arr[x.currentI] && Improves(arr, x.currentI, x.currentJ) &&
      x.description == Comparing(x.currentJ, x.currentI, arr[x.currentJ], arr[x.currentI]) &&
      |x.lengths| == |x.prevPointers| == |arr| &&
      x.lengths[x.currentI] == x.lengths[x.currentJ] + 1 &&
      x.prevPointers[x.currentI] == x.currentJ
  {
    var n := |arr|;
    var m := Improvements(arr, n, 0);
    var t := Trace(arr);
    ImprovementsRecords(arr, n, 0);
    forall p | 0 < p < |t| - 1
      ensures var x := t[p];
        x.Improve? && 0 <= x.currentJ < x.currentI < |arr| &&
        arr[x.currentJ] < arr[x.currentI] && Improves(arr, x.currentI, x.currentJ) &&
        x.description == Comparing(x.currentJ, x.currentI, arr[x.currentJ], arr[x.currentI]) &&
        |x.lengths| == |x.prevPointers| == |arr| &&
        x.lengths[x.currentI] == x.lengths[x.currentJ] + 1 &&
        x.prevPointers[x.currentI] == x.currentJ
    {
      assert t[p] == m[p - 1];
      assert IsRecordBefore(arr, m[p - 1], p, n, 0);
    }
  }

  /** Every record before the last holds the tables at its point of the
      loops. */
  lemma TraceSnapshots(arr: seq<int>)
    ensures forall p :: 0 <= p < |Trace(arr)| - 1 ==>
      var x := Trace(arr)[p];
      !x.Final? && 0 <= PointOf(x).1 <= PointOf(x).0 <= |arr| &&
      x.lengths == LengthsAt(arr, PointOf(x).0, PointOf(x).1) &&
      x.prevPointers == PrevsAt(arr, PointOf(x).0, PointOf(x).1)
  {
    var n := |arr|;
    var m := Improvements(arr, n, 0);
    var t := Trace(arr);
    TraceMiddle(arr);
    ImprovementsRecords(arr, n, 0);
    forall p | 0 <= p < |t| - 1
      ensures !t[p].Final? && 0 <= PointOf(t[p]).1 <= PointOf(t[p]).0 <= n
      ensures t[p].lengths == LengthsAt(arr, PointOf(t[p]).0, PointOf(t[p]).1)
      ensures t[p].prevPointers == PrevsAt(arr, PointOf(t[p]).0, PointOf(t[p]).1)
    {
      if p > 0 {
        assert t[p] == m[p - 1];
        assert IsRecordBefore(arr, m[p - 1], p, n, 0);
      }
    }
  }

  /** Both of the above: the `Improve` records' contents, and the tables
      every record before the last holds. */
  lemma TraceRecords(arr: seq<int>)
    ensures forall p :: 0 < p < |Trace(arr)| - 1 ==>
      var x := Trace(arr)[p];
      x.Improve? && 0 <= x.currentJ < x.currentI < |arr| &&
      arr[x.currentJ] < arr[x.currentI] && Improves(arr, x.currentI, x.currentJ) &&
      x.description == Comparing(x.currentJ, x.currentI, arr[x.currentJ], arr[x.currentI]) &&
      |x.lengths| == |x.prevPointers| == |arr| &&
      x.lengths[x.currentI] == x.lengths[x.currentJ] + 1 &&
      x.prevPointers[x.currentI] == x.currentJ
    ensures forall p :: 0 <= p < |Trace(arr)| - 1 ==>
      var x := Trace(arr)[p];
      !x.Final? && 0 <= PointOf(x).1 <= PointOf(x).0 <= |arr| &&
      x.lengths == LengthsAt(arr, PointOf(x).0, PointOf(x).1) &&
      x.prevPointers == PrevsAt(arr, PointOf(x).0, PointOf(x).1)
  {
    TraceImproveRecords(arr);
    TraceSnapshots(arr);
  }

  /** The points of the loops at which the records are taken never go
      backwards along the trace. */
  lemma PointsInOrder(arr: seq<int>, p: nat, q: nat)
    requires p <= q < |Trace(arr)| - 1
    ensures var a, b := PointOf(Trace(arr)[p]), PointOf(Trace(arr)[q]);
      a.0 < b.0 || (a.0 == b.0 && a.1 <= b.1)
  {
    TraceShape(arr);
    TraceRecords(arr);
    var t := Trace(arr);
    if 0 < p < q {
      assert InOrder(t[p], t[q]);
    }
  }

  /** Every record before the last holds consistent tables: lengths at
      least 1, back-pointers strictly backwards to a smaller element whose
      length is one less. */
  lemma TraceConsistent(arr: seq<int>)
    ensures forall p :: 0 <= p < |Trace(arr)| - 1 ==>
      !Trace(arr)[p].Final? && Consistent(arr, Trace(arr)[p].lengths, Trace(arr)[p].prevPointers)
  {
    var t := Trace(arr);
    TraceShape(arr);
    TraceRecords(arr);
    forall p | 0 <= p < |t| - 1
      ensures Consistent(arr, t[p].lengths, t[p].prevPointers)
    {
      TablesConsistent(arr, PointOf(t[p]).0, PointOf(t[p]).1);
    }
  }

  /** No length entry ever decreases from one record to a later one. */
  lemma TraceLengthsMonotone(arr: seq<int>)
    ensures forall p :: 0 <= p < |Trace(arr)| - 1 ==>
      !Trace(arr)[p].Final? && |Trace(arr)[p].lengths| == |arr|
    ensures forall p, q, k :: 0 <= p <= q < |Trace(arr)| - 1 && 0 <= k < |arr| ==>
      Trace(arr)[p].lengths[k] <= Trace(arr)[q].lengths[k]
  {
    var t := Trace(arr);
    TraceShape(arr);
    TraceRecords(arr);
    forall p, q, k | 0 <= p <= q < |t| - 1 && 0 <= k < |arr|
      ensures t[p].lengths[k] <= t[q].lengths[k]
    {
      PointsInOrder(arr, p, q);
      var a, b := PointOf(t[p]), PointOf(t[q]);
      LengthsMonotone(arr, a.0, a.1, b.0, b.1, k);
    }
  }

  /** No comparison after the point of the record just before `Final`
      improves the table. */
  lemma NoImprovementAfterLast(arr: seq<int>)
    ensures |Trace(arr)| >= 2
    ensures forall i': nat, j': nat ::
      j' < i' < |arr| && !Before(i', j', PointOf(Trace(arr)[|Trace(arr)| - 2]).0,
                                   PointOf(Trace(arr)[|Trace(arr)| - 2]).1)
      ==> !Improves(arr, i', j')
  {
    var t := Trace(arr);
    TraceShape(arr);
    var (li, lj) := PointOf(t[|t| - 2]);
    forall i': nat, j': nat | j' < i' < |arr| && Improves(arr, i', j')
      ensures Before(i', j', li, lj)
    {
      assert (i', j') in ImprovingPairs(arr);
      assert (i', j') in PairsIn(t);
      var q :| 0 <= q < |t| && t[q].Improve? && (i', j') == (t[q].currentI, t[q].currentJ);
      PointsInOrder(arr, q, |t| - 2);
    }
  }

  /** The record just before `Final` holds the final tables, so the
      reported subsequence is exactly as long as the largest length shown
      there. */
  lemma TraceLastTables(arr: seq<int>)
    ensures !Trace(arr)[|Trace(arr)| - 2].Final?
    ensures Trace(arr)[|Trace(arr)| - 2].lengths == FinalLengths(arr)
    ensures Trace(arr)[|Trace(arr)| - 2].prevPointers == FinalPrevs(arr)
    ensures |arr| > 0 ==> |LisResult(arr)| == Max(Trace(arr)[|Trace(arr)| - 2].lengths)
  {
    var t := Trace(arr);
    NoImprovementAfterLast(arr);
    TraceRecords(arr);
    var last := t[|t| - 2];
    var (li, lj) := PointOf(last);
    assert last.lengths == LengthsAt(arr, li, lj) && last.prevPointers == PrevsAt(arr, li, lj);
    TablesStable(arr, li, lj);
    LisResultIsLongest(arr);
  }
}

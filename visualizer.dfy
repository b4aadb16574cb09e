/** The page's state: the input sequence, the trace built from it, the
    reported subsequence and a cursor over the trace. Changing the sequence
    is one transaction: rebuild the trace, then put the cursor back on the
    first record. */
module Visualizer {
  import opened LisSpec
  import opened LisTrace
  import FindLis

  /** The sequence the page starts with. */
  const DefaultSequence: seq<int> := [5, 2, 8, 6, 3, 6, 9, 7]

  /** One step forward, clamped to the last of `count` records
      (`Math.min(pos + 1, count - 1)`). */
  function NextPosition(pos: int, count: int): (r: int)
    ensures r <= pos + 1 && r <= count - 1 && (r == pos + 1 || r == count - 1)
    ensures 0 <= pos < count ==> 0 <= r < count
    ensures 0 <= pos < count ==> (r == pos <==> pos == count - 1)
  {
    if pos + 1 < count - 1 then pos + 1 else count - 1
  }

  /** One step back, clamped to the first record (`Math.max(pos - 1, 0)`). */
  function PrevPosition(pos: int): (r: int)
    ensures r >= pos - 1 && r >= 0 && (r == pos - 1 || r == 0)
    ensures 0 <= pos ==> 0 <= r <= pos
    ensures 0 <= pos ==> (r == pos <==> pos == 0)
  {
    if pos - 1 > 0 then pos - 1 else 0
  }

  /** The position after `k` forward steps. */
  function Advanced(pos: int, count: int, k: nat): int
    decreases k
  {
    if k == 0 then pos else Advanced(NextPosition(pos, count), count, k - 1)
  }

  /** The position after `k` backward steps. */
  function Retreated(pos: int, k: nat): int
    decreases k
  {
    if k == 0 then pos else Retreated(PrevPosition(pos), k - 1)
  }

  /** Stepping forward `k` times moves `k` records, but never past the
      last; so from the last record it stays there. */
  lemma {:induction false} AdvanceRepeatedly(pos: int, count: int, k: nat)
    requires 0 <= pos < count
    ensures Advanced(pos, count, k) == if pos + k < count then pos + k else count - 1
    decreases k
  {
    if k > 0 {
      AdvanceRepeatedly(NextPosition(pos, count), count, k - 1);
    }
  }

  /** Stepping back `k` times moves `k` records, but never before the
      first; so from the first record it stays there. */
  lemma {:induction false} RetreatRepeatedly(pos: int, k: nat)
    requires 0 <= pos
    ensures Retreated(pos, k) == if pos - k > 0 then pos - k else 0
    decreases k
  {
    if k > 0 {
      RetreatRepeatedly(PrevPosition(pos), k - 1);
    }
  }

  /** The sequence without the element at `index`, the others in their
      order (`filter` on the position); an index outside the sequence
      removes nothing. */
  function RemoveAt(s: seq<int>, index: int): (r: seq<int>)
    ensures 0 <= index < |s| ==> r == s[..index] + s[index + 1..]
    ensures !(0 <= index < |s|) ==> r == s
    decreases |s|
  {
    if s == [] then []
    else (if index == 0 then [] else [s[0]]) + RemoveAt(s[1..], index - 1)
  }

  /** The state the page holds. */
  class App {
    var sequence: seq<int>
    var steps: seq<Step>
    var lisResult: seq<int>
    var currentStep: int

    /** The trace and the result belong to the current sequence, and the
        cursor points at one of the records. */
    ghost predicate Valid()
      reads this
    {
      steps == Trace(sequence) && lisResult == LisResult(sequence) &&
      0 <= currentStep < |steps|
    }

    /** The page as it is once mounted: the default sequence, its trace,
        and the cursor on the first record. */
    constructor ()
      ensures Valid()
      ensures sequence == DefaultSequence && currentStep == 0
    {
      sequence, steps, lisResult, currentStep := [], [], [], 0;
      new;
      SetSequence(DefaultSequence);
    }

    /** Replaces the sequence and, as one transaction, rebuilds the trace
        and puts the cursor on the first record. */
    method SetSequence(s: seq<int>)
      modifies this
      ensures Valid()
      ensures sequence == s && steps == Trace(s) && lisResult == LisResult(s)
      ensures currentStep == 0
    {
      sequence := s;
      var built, lis := FindLis.FindLIS(s);
      steps, lisResult := built, lis;
      currentStep := 0;
    }

    /** Appends an already parsed number to the sequence. */
    method AddNumber(num: int)
      modifies this
      ensures Valid()
      ensures sequence == old(sequence) + [num] && currentStep == 0
    {
      SetSequence(sequence + [num]);
    }

    /** Removes the element at `index`; the sequence is replaced (and the
        cursor reset) even when the index is outside it. */
    method RemoveNumber(index: int)
      modifies this
      ensures Valid()
      ensures sequence == RemoveAt(old(sequence), index) && currentStep == 0
    {
      SetSequence(RemoveAt(sequence, index));
    }

    /** The cursor is on the first record ("Previous Step" is disabled):
        exactly where a step back would leave it in place. */
    predicate AtStart(): (r: bool)
      reads this
      ensures Valid() ==> (r <==> PrevPosition(currentStep) == currentStep)
    {
      currentStep == 0
    }

    /** The cursor is on the last record ("Next Step" is disabled):
        exactly where a step forward would leave it in place. */
    predicate AtEnd(): (r: bool)
      reads this
      ensures Valid() ==> (r <==> NextPosition(currentStep, |steps|) == currentStep)
    {
      currentStep == |steps| - 1
    }

    /** Moves the cursor one record forward; a no-op exactly at the end. */
    method NextStep()
      requires Valid()
      modifies this`currentStep
      ensures Valid()
      ensures currentStep == NextPosition(old(currentStep), |steps|)
      ensures old(AtEnd()) <==> currentStep == old(currentStep)
    {
      currentStep := NextPosition(currentStep, |steps|);
    }

    /** Moves the cursor one record back; a no-op exactly at the start. */
    method PrevStep()
      requires Valid()
      modifies this`currentStep
      ensures Valid()
      ensures currentStep == PrevPosition(old(currentStep))
      ensures old(AtStart()) <==> currentStep == old(currentStep)
    {
      currentStep := PrevPosition(currentStep);
    }
  }
}

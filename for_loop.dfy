/**
 * The ForLoop order: a counter set to the starting value on a fresh entry
 * and moved by the step on every loop-back from the end of the block,
 * continuing while it has not reached the (exclusive) ending value.
 *
 * The four IntegerData values are 32-bit ints; the counter update is
 * unchecked C# arithmetic and wraps.
 */
module ForLoopOrder {
  import opened Wrappers
  import opened Int32

  /** Where control goes after the condition has been evaluated. */
  datatype Flow = EnterBlock | GoToEnd

  /** EvaluateConditions: ascending loops run while below the end, descending ones while above it. */
  predicate Continues(start: int, end: int, counter: int)
  {
    if start <= end then counter < end else counter > end
  }

  /** The counter after a loop-back: plus the step when ascending, minus it otherwise. */
  function Advance(start: int, end: int, step: int, counter: int): (r: int)
    ensures InRange(r)
  {
    Wrap(counter + (if start <= end then step else Wrap(-step)))
  }

  /** The counter at the k-th evaluation after a fresh entry (k loop-backs). */
  function CounterAt(start: int, end: int, step: int, k: nat): int
  {
    if k == 0 then start else Advance(start, end, step, CounterAt(start, end, step, k - 1))
  }

  /** The distance from start to end, rounded up to whole steps. */
  function Runs(start: int, end: int, step: int): nat
    requires step >= 1
  {
    var d := if start <= end then end - start else start - end;
    (d + step - 1) / step
  }

  /** The counter does not overflow on the way to the end: the last value taken is at most end ± (step - 1). */
  predicate NoOverflow(start: int, end: int, step: int)
  {
    && InRange(start) && InRange(end) && 1 <= step <= Int32Max
    && (start <= end ==> end + step - 1 <= Int32Max)
    && (start > end ==> end - step + 1 >= Int32Min)
  }

  lemma MulMonotone(a: nat, b: nat, step: nat)
    requires a <= b
    ensures a * step <= b * step
  {
  }

  /** Rounding up: fewer than the rounded-up number of steps stays strictly below the distance. */
  lemma CeilDivIff(d: nat, step: int, k: nat)
    requires step >= 1
    ensures k < (d + step - 1) / step <==> k * step < d
    ensures k <= (d + step - 1) / step ==> k * step <= d + step - 1
  {
    var q := (d + step - 1) / step;
    var r := (d + step - 1) % step;
    assert q * step + r == d + step - 1 && 0 <= r < step;
    if k < q {
      MulMonotone(k + 1, q, step);
      assert (k + 1) * step == k * step + step;
    } else {
      MulMonotone(q, k, step);
    }
    if k <= q {
      MulMonotone(k, q, step);
    }
  }

  /** Up to the last evaluation the counter has moved by exactly k steps. */
  lemma {:induction false} ForLoopCounter(start: int, end: int, step: int, k: nat)
    requires NoOverflow(start, end, step)
    requires k <= Runs(start, end, step)
    ensures CounterAt(start, end, step, k) == if start <= end then start + k * step else start - k * step
  {
    if k > 0 {
      ForLoopCounter(start, end, step, k - 1);
      var d := if start <= end then end - start else start - end;
      CeilDivIff(d, step, k);
      assert (k - 1) * step + step == k * step;
    }
  }

  /**
   * The loop body runs exactly Runs(start, end, step) times: the condition
   * holds at the first Runs evaluations and fails at the next, so start ==
   * end runs zero times.
   */
  lemma ForLoopRuns(start: int, end: int, step: int, k: nat)
    requires NoOverflow(start, end, step)
    requires k <= Runs(start, end, step)
    ensures Continues(start, end, CounterAt(start, end, step, k)) <==> k < Runs(start, end, step)
  {
    ForLoopCounter(start, end, step, k);
    var d := if start <= end then end - start else start - end;
    CeilDivIff(d, step, k);
  }

  /**
   * Without NoOverflow the wrapped counter can stay short of the end for
   * ever: counting from 0 towards int.MaxValue in steps of 2 (a step that
   * OnValidate accepts), every value the counter takes is even, so it never
   * reaches the odd end and wraps round instead.
   */
  lemma {:induction false} WrapStaysEven(k: nat)
    ensures CounterAt(0, Int32Max, 2, k) % 2 == 0
    ensures Continues(0, Int32Max, CounterAt(0, Int32Max, 2, k))
  {
    if k > 0 {
      WrapStaysEven(k - 1);
      var c := CounterAt(0, Int32Max, 2, k - 1);
      var r := Wrap(c + 2);
      var q := (r - (c + 2)) / 0x1_0000_0000;
      assert r == c + 2 + q * 0x1_0000_0000;
    }
  }

  /** The loop from 0 to int.MaxValue in steps of 2 overflows and its condition never fails. */
  lemma WrapNeverEnds()
    ensures !NoOverflow(0, Int32Max, 2)
    ensures forall k: nat :: Continues(0, Int32Max, CounterAt(0, Int32Max, 2, k))
  {
    forall k: nat ensures Continues(0, Int32Max, CounterAt(0, Int32Max, 2, k)) {
      WrapStaysEven(k);
    }
  }

  class ForLoop {
    var startingValue: int
    var endingValue: int
    var loopCounter: int
    var stepSize: int

    ghost predicate Valid()
      reads this
    {
      InRange(startingValue) && InRange(endingValue) && InRange(loopCounter) && InRange(stepSize)
    }

    /** A new order; the step defaults to 1. */
    constructor (startingValue: int, endingValue: int, loopCounter: int)
      requires InRange(startingValue) && InRange(endingValue) && InRange(loopCounter)
      ensures Valid()
      ensures this.startingValue == startingValue && this.endingValue == endingValue
      ensures this.loopCounter == loopCounter && stepSize == 1
    {
      this.startingValue := startingValue;
      this.endingValue := endingValue;
      this.loopCounter := loopCounter;
      stepSize := 1;
    }

    /**
     * PreEvaluate; `fromEnd` says whether the previous active order was
     * this loop's end (a loop-back) or not (a fresh entry).
     */
    method PreEvaluate(fromEnd: bool)
      requires Valid()
      modifies this
      ensures Valid()
      ensures !fromEnd ==> loopCounter == startingValue
      ensures fromEnd ==> loopCounter == Advance(startingValue, endingValue, stepSize, old(loopCounter))
      ensures startingValue == old(startingValue) && endingValue == old(endingValue) && stepSize == old(stepSize)
    {
      if !fromEnd {
        loopCounter := startingValue;
      } else {
        loopCounter := Wrap(loopCounter + (if startingValue <= endingValue then stepSize else Wrap(-stepSize)));
      }
    }

    predicate EvaluateConditions()
      reads this
    {
      Continues(startingValue, endingValue, loopCounter)
    }

    /**
     * One visit of the order as its Condition base drives it: PreEvaluate,
     * then the condition; when it is false, OnFalse goes to the end.
     */
    method Evaluate(fromEnd: bool) returns (flow: Flow)
      requires Valid()
      modifies this
      ensures Valid()
      ensures !fromEnd ==> loopCounter == startingValue
      ensures fromEnd ==> loopCounter == Advance(startingValue, endingValue, stepSize, old(loopCounter))
      ensures startingValue == old(startingValue) && endingValue == old(endingValue) && stepSize == old(stepSize)
      ensures flow == GoToEnd <==> !Continues(startingValue, endingValue, loopCounter)
    {
      PreEvaluate(fromEnd);
      if EvaluateConditions() {
        flow := EnterBlock;
      } else {
        flow := GoToEnd;
      }
    }

    /**
     * OnValidate: a zero step becomes 1 and a negative one its absolute
     * value. Math.Abs throws on int.MinValue, which is the Fail outcome.
     */
    method OnValidate() returns (r: Outcome<string>)
      requires Valid()
      modifies this
      ensures Valid()
      ensures startingValue == old(startingValue) && endingValue == old(endingValue) && loopCounter == old(loopCounter)
      ensures old(stepSize) == Int32Min ==> r.Fail? && stepSize == old(stepSize)
      ensures old(stepSize) != Int32Min ==> r.Pass? && stepSize >= 1
      ensures old(stepSize) == 0 ==> stepSize == 1
      ensures old(stepSize) != 0 && old(stepSize) != Int32Min ==>
        stepSize == (if old(stepSize) < 0 then -old(stepSize) else old(stepSize))
    {
      if stepSize == 0 {
        stepSize := 1;
      }
      if stepSize == Int32Min {
        return Fail("OverflowException");
      }
      stepSize := if stepSize < 0 then -stepSize else stepSize;
      r := Pass;
    }
  }
}

/**
 * UTimeVariable: a flow-engine variable holding a time of day, compared
 * against the clock's current time of day; and UTimeData, the inspector
 * field that holds either a reference to such a variable or a constant.
 *
 * Times are TimeSpan values in ticks (100 ns); the clock reading is an
 * input.
 */
module UTimes {
  /** A TimeSpan, in ticks. */
  type Ticks = int

  const TicksPerMillisecond: int := 10_000

  /** The Equals tolerance: 500 ms, that is 5,000,000 ticks. */
  const ToleranceMilliseconds: real := 500.0

  /** A UTime: only its time of day is read. */
  datatype UTime = UTime(time: Ticks)

  /** A SetOperator, by its ordinal: the enum's members are not part of this model. */
  type SetOperator = nat

  datatype ComparisonOperator = Equals | NotEquals | LessThan | GreaterThan | LessThanOrEquals | GreaterThanOrEquals

  /** TimeSpan.TotalMilliseconds. */
  function TotalMilliseconds(t: Ticks): real
  {
    t as real / TicksPerMillisecond as real
  }

  function Abs(x: real): real
  {
    if x < 0.0 then -x else x
  }

  /** Milliseconds below the tolerance are exactly ticks below 5,000,000. */
  lemma WithinTolerance(d: Ticks)
    ensures Abs(TotalMilliseconds(d)) < ToleranceMilliseconds <==> -5_000_000 < d < 5_000_000
  {
    var ms := TotalMilliseconds(d);
    assert ms * 10_000.0 == d as real;
  }

  /**
   * Evaluate: the current time of day against the stored value's time;
   * the operand `value` is not looked at.
   */
  function Evaluate(op: ComparisonOperator, currentTime: Ticks, stored: UTime, value: UTime): (r: bool)
    ensures op == Equals ==> (r <==> -5_000_000 < currentTime - stored.time < 5_000_000)
    ensures op == NotEquals ==> (r <==> !(-5_000_000 < currentTime - stored.time < 5_000_000))
    ensures op == GreaterThan ==> (r <==> currentTime > stored.time)
    ensures op == GreaterThanOrEquals ==> (r <==> currentTime >= stored.time)
    ensures op == LessThan ==> (r <==> currentTime < stored.time)
    ensures op == LessThanOrEquals ==> (r <==> currentTime <= stored.time)
  {
    var valueDate := stored.time;
    WithinTolerance(currentTime - valueDate);
    match op
    case Equals => Abs(TotalMilliseconds(currentTime - valueDate)) < ToleranceMilliseconds
    case NotEquals => Abs(TotalMilliseconds(currentTime - valueDate)) >= ToleranceMilliseconds
    case GreaterThan => currentTime > valueDate
    case GreaterThanOrEquals => currentTime >= valueDate
    case LessThan => currentTime < valueDate
    case LessThanOrEquals => currentTime <= valueDate
  }

  /**
   * NotEquals is the negation of Equals, GreaterThan of LessThanOrEquals
   * and LessThan of GreaterThanOrEquals; and the result never depends on
   * the operand.
   */
  lemma EvaluateComplements(currentTime: Ticks, stored: UTime, value: UTime, other: UTime, op: ComparisonOperator)
    ensures Evaluate(NotEquals, currentTime, stored, value) == !Evaluate(Equals, currentTime, stored, value)
    ensures Evaluate(GreaterThan, currentTime, stored, value) == !Evaluate(LessThanOrEquals, currentTime, stored, value)
    ensures Evaluate(LessThan, currentTime, stored, value) == !Evaluate(GreaterThanOrEquals, currentTime, stored, value)
    ensures Evaluate(op, currentTime, stored, value) == Evaluate(op, currentTime, stored, other)
  {
  }

  /** A stored time equals the clock exactly at that time, and stays Equals for just under half a second around it. */
  lemma EqualsWindow(stored: UTime, offset: int)
    ensures Evaluate(Equals, stored.time + offset, stored, stored) <==> -5_000_000 < offset < 5_000_000
  {
  }

  class UTimeVariable {
    var value: UTime

    constructor (value: UTime)
      ensures this.value == value
    {
      this.value := value;
    }

    /** SupportsArithmetic: every set operator is supported. */
    predicate SupportsArithmetic(setOperator: SetOperator)
    {
      true
    }

    /** SupportsComparison: the comparison operators are supported. */
    predicate SupportsComparison()
    {
      true
    }

    /** The variable's Evaluate with the current time of day. */
    function EvaluateAt(op: ComparisonOperator, currentTime: Ticks, operand: UTime): bool
      reads this
    {
      Evaluate(op, currentTime, value, operand)
    }
  }

  /** UTimeData: a variable reference (null for none) and a constant. */
  class UTimeData {
    var uTimeRef: UTimeVariable?
    var uTimeVal: UTime

    /** UTimeData(v): the constant v and no reference. */
    constructor (v: UTime)
      ensures uTimeVal == v && uTimeRef == null && Value() == v
    {
      uTimeVal := v;
      uTimeRef := null;
    }

    /** The Value getter: the constant without a reference, else the referenced variable's value. */
    function Value(): UTime
      reads this, uTimeRef
    {
      if uTimeRef == null then uTimeVal else uTimeRef.value
    }

    /** The Value setter: it writes where the getter reads, and nowhere else. */
    method SetValue(v: UTime)
      modifies this, uTimeRef
      ensures uTimeRef == old(uTimeRef) && Value() == v
      ensures uTimeRef == null ==> uTimeVal == v
      ensures uTimeRef != null ==> uTimeRef.value == v && uTimeVal == old(uTimeVal)
    {
      if uTimeRef == null {
        uTimeVal := v;
      } else {
        uTimeRef.value := v;
      }
    }
  }
}

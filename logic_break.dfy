/**
 * The Break order: it looks back through its node's order list for the
 * nearest condition that loops (a While, For or ForEach) and jumps to that
 * loop's end; with none, it logs an error and continues.
 */
module LogicBreakOrder {
  import opened Wrappers

  /** An entry of a node's order list, as far as Break looks at it. */
  datatype Order = OtherOrder | Condition(statementLooping: bool)

  /** Where Break sends control. */
  datatype BreakFlow = Continue | GoToEndOf(conditionIndex: nat)

  /** A condition whose StatementLooping is true: WhileLoop, ForLoop and ForEach. */
  predicate IsLoopingCondition(o: Order)
  {
    o.Condition? && o.statementLooping
  }

  /** The highest index below `before` holding a looping condition. */
  function NearestLooping(orders: seq<Order>, before: nat): (r: Option<nat>)
    requires before <= |orders|
    ensures r.Some? ==>
      && r.value < before && IsLoopingCondition(orders[r.value])
      && forall j :: r.value < j < before ==> !IsLoopingCondition(orders[j])
    ensures r.None? ==> forall j :: 0 <= j < before ==> !IsLoopingCondition(orders[j])
  {
    if before == 0 then None
    else if IsLoopingCondition(orders[before - 1]) then Some(before - 1)
    else NearestLooping(orders, before - 1)
  }

  /** OnEnter: the backward scan from the order before the break down to the first order. */
  method OnEnter(orderList: seq<Order>, orderIndex: nat) returns (flow: BreakFlow)
    requires orderIndex < |orderList|
    ensures flow == match NearestLooping(orderList, orderIndex)
      case None => Continue
      case Some(i) => GoToEndOf(i)
  {
    var loopingCond: Option<nat> := None;
    var i := orderIndex - 1;
    while i >= 0
      invariant -1 <= i < orderIndex
      invariant loopingCond.None? ==> NearestLooping(orderList, orderIndex) == NearestLooping(orderList, i + 1)
      invariant loopingCond.Some? ==> loopingCond == NearestLooping(orderList, orderIndex)
      decreases i + 1
    {
      var cond := orderList[i];
      if cond.Condition? && cond.statementLooping {
        loopingCond := Some(i);
        break;
      }
      i := i - 1;
    }
    if loopingCond.None? {
      flow := Continue;
    } else {
      flow := GoToEndOf(loopingCond.value);
    }
  }

  /** Break never looks at its own position or after it: orders from the break on do not matter. */
  lemma BreakLooksBackOnly(orders: seq<Order>, other: seq<Order>, orderIndex: nat)
    requires orderIndex < |orders| && orderIndex < |other| && orders[..orderIndex] == other[..orderIndex]
    ensures NearestLooping(orders, orderIndex) == NearestLooping(other, orderIndex)
  {
    var a := NearestLooping(orders, orderIndex);
    var b := NearestLooping(other, orderIndex);
    assert forall j :: 0 <= j < orderIndex ==> orders[j] == orders[..orderIndex][j] == other[j];
    if a.Some? && b.Some? && a.value != b.value {
      assert false;
    }
  }
}

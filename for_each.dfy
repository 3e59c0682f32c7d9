/**
 * The ForEach order: an index reset to -1 on a fresh entry and moved on by
 * one at every evaluation; while it is inside the collection the element
 * there is written into the item variable and the block runs.
 */
module ForEachOrder {
  import opened Wrappers
  import opened Int32
  import opened ForLoopOrder

  /**
   * One evaluation at the already incremented index `i`: the result (None
   * where the source throws: a null collection, or a negative index into
   * it) and the item variable's value afterwards.
   */
  function EvalAt<T>(collection: Option<seq<T>>, i: int, item: Option<T>): (Option<bool>, Option<T>)
  {
    match collection
    case None => (None, item)
    case Some(col) =>
      if i < |col| then
        if i < 0 then (None, item) else (Some(true), Some(col[i]))
      else (Some(false), item)
  }

  /**
   * The elements the block sees when evaluations continue from index
   * `index`, for at most `fuel` evaluations, up to the first false.
   */
  function Deliveries<T>(col: seq<T>, index: int, item: Option<T>, fuel: nat): seq<T>
    decreases fuel
  {
    if fuel == 0 then []
    else
      var i := Wrap(index + 1);
      var (r, it) := EvalAt(Some(col), i, item);
      if r == Some(true) then [it.value] + Deliveries(col, i, it, fuel - 1) else []
  }

  lemma {:induction false} DeliveriesFrom<T>(col: seq<T>, j: nat, item: Option<T>, fuel: nat)
    requires j <= |col| < Int32Max
    requires fuel > |col| - j
    ensures Deliveries(col, j - 1, item, fuel) == col[j..]
    decreases |col| - j
  {
    if j < |col| {
      DeliveriesFrom(col, j + 1, Some(col[j]), fuel - 1);
      assert col[j..] == [col[j]] + col[j + 1..];
    }
  }

  /**
   * From a fresh start the block sees every element once, in order, and
   * the evaluation after the last one is false (an empty collection runs
   * zero times).
   */
  lemma ForEachVisitsInOrder<T>(col: seq<T>, item: Option<T>, fuel: nat)
    requires |col| < Int32Max && fuel > |col|
    ensures Deliveries(col, -1, item, fuel) == col
  {
    DeliveriesFrom(col, 0, item, fuel);
  }

  class ForEach<T> {
    /** collection.Value; None stands for null. */
    var collection: Option<seq<T>>
    /** Whether an item variable is assigned. */
    var hasItemVariable: bool
    /** The item variable's value. */
    var item: Option<T>
    var currentIndex: int

    ghost predicate Valid()
      reads this
    {
      InRange(currentIndex)
    }

    constructor (collection: Option<seq<T>>, hasItemVariable: bool)
      ensures Valid()
      ensures this.collection == collection && this.hasItemVariable == hasItemVariable
      ensures item == None && currentIndex == 0
    {
      this.collection := collection;
      this.hasItemVariable := hasItemVariable;
      item := None;
      currentIndex := 0;
    }

    /** HasRequiredProperties: a collection and an item variable are both set. */
    predicate HasRequiredProperties()
      reads this
    {
      collection.Some? && hasItemVariable
    }

    /** PreEvaluate: a fresh entry (not from the end) resets the index to -1. */
    method PreEvaluate(fromEnd: bool)
      requires Valid()
      modifies this
      ensures Valid()
      ensures !fromEnd ==> currentIndex == -1
      ensures fromEnd ==> currentIndex == old(currentIndex)
      ensures collection == old(collection) && hasItemVariable == old(hasItemVariable) && item == old(item)
    {
      if !fromEnd {
        currentIndex := -1;
      }
    }

    /**
     * EvaluateConditions: increment the index, then test it against the
     * count and fetch the element; None where the source throws.
     */
    method EvaluateConditions() returns (r: Option<bool>)
      requires Valid()
      modifies this
      ensures Valid()
      ensures currentIndex == Wrap(old(currentIndex) + 1)
      ensures (r, item) == EvalAt(collection, currentIndex, old(item))
      ensures r == Some(true) ==>
        collection.Some? && 0 <= currentIndex < |collection.value| && item == Some(collection.value[currentIndex])
      ensures r == Some(false) ==> collection.Some? && currentIndex >= |collection.value| && item == old(item)
      ensures HasRequiredProperties() && -1 <= old(currentIndex) < Int32Max ==> r.Some?
      ensures collection == old(collection) && hasItemVariable == old(hasItemVariable)
    {
      currentIndex := Wrap(currentIndex + 1);
      if collection.None? {
        return None;
      }
      var col := collection.value;
      if currentIndex < |col| {
        if currentIndex < 0 {
          return None;
        }
        item := Some(col[currentIndex]);
        return Some(true);
      }
      return Some(false);
    }

    /**
     * One visit of the order as its Condition base drives it: PreEvaluate,
     * then the condition; a true result enters the block and a false one
     * goes to the end (the OnFalse override). None is where the source
     * throws.
     */
    method Evaluate(fromEnd: bool) returns (flow: Option<Flow>)
      requires Valid()
      modifies this
      ensures Valid()
      ensures currentIndex == Wrap((if fromEnd then old(currentIndex) else -1) + 1)
      ensures item == EvalAt(collection, currentIndex, old(item)).1
      ensures flow == Some(GoToEnd) <==> EvalAt(collection, currentIndex, old(item)).0 == Some(false)
      ensures flow == Some(EnterBlock) <==> EvalAt(collection, currentIndex, old(item)).0 == Some(true)
      ensures flow.None? <==> EvalAt(collection, currentIndex, old(item)).0.None?
      ensures !fromEnd && collection.Some? ==> (flow == Some(GoToEnd) <==> |collection.value| == 0)
      ensures collection == old(collection) && hasItemVariable == old(hasItemVariable)
    {
      PreEvaluate(fromEnd);
      var r := EvaluateConditions();
      match r
      case None => flow := None;
      case Some(b) => flow := if b then Some(EnterBlock) else Some(GoToEnd);
    }
  }
}

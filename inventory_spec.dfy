/**
 * The slot grid of the Bog inventory, as values.
 *
 * The inventory is a fixed-length list of optional slots. Here a slot is seen
 * through its observable contents, a `Cell` (item, quantity, slot index), and
 * every inventory operation is a function from the old list of cells to the
 * new one. The class `BogInventory.BogInventoryBase` is proved against these functions.
 */
module BogInventorySpec {
  import opened Wrappers

  /** A stack size is at least one. */
  type StackSize = n: int | n >= 1 witness 1

  /** An inventory item asset: its id, how many fit in one slot, whether it is locked. */
  datatype Item = Item(itemID: int, maxStackSize: StackSize, isLocked: bool)

  /** What an occupied slot holds. */
  datatype Cell = Cell(item: Item, quantity: int, slotIndex: int)

  type Cells = seq<Option<Cell>>

  /** Mathf.Min on integers. */
  function Min(a: int, b: int): int { if a <= b then a else b }

  /** The all-empty list of `n` slots that Awake and ResetInventory create. */
  function Empty(n: nat): (c: Cells)
    ensures |c| == n && forall i :: 0 <= i < n ==> c[i] == None
  {
    seq(n, i => None)
  }

  /** Every occupied position i holds a slot whose SlotIndex is i. */
  predicate IndexCoherent(c: Cells)
  {
    forall i :: 0 <= i < |c| && c[i].Some? ==> c[i].value.slotIndex == i
  }

  /** No slot holds more than its item's stack size. */
  predicate Bounded(c: Cells)
  {
    forall i :: 0 <= i < |c| && c[i].Some? ==> c[i].value.quantity <= c[i].value.item.maxStackSize
  }

  function Qty(o: Option<Cell>): int { if o.Some? then o.value.quantity else 0 }

  /** The total quantity held by the first n positions. */
  function QtySumTo(c: Cells, n: nat): int
    requires n <= |c|
  {
    if n == 0 then 0 else QtySumTo(c, n - 1) + Qty(c[n - 1])
  }

  /** The total quantity held by all occupied slots. */
  function QtySum(c: Cells): int { QtySumTo(c, |c|) }

  /** The number of empty positions among the first n. */
  function EmptyCountTo(c: Cells, n: nat): nat
    requires n <= |c|
  {
    if n == 0 then 0 else EmptyCountTo(c, n - 1) + (if c[n - 1].None? then 1 else 0)
  }

  /** The number of empty positions. */
  function EmptyCount(c: Cells): nat { EmptyCountTo(c, |c|) }

  predicate HasId(o: Option<Cell>, id: int) { o.Some? && o.value.item.itemID == id }

  /** The slot may be topped up with `item`: same ItemID and a stack size above 1. */
  predicate Stacks(o: Option<Cell>, item: Item)
  {
    o.Some? && o.value.item.itemID == item.itemID && o.value.item.maxStackSize > 1
  }

  /** List.FindIndex(slot => slot == null), as an option. */
  function FirstEmpty(c: Cells): (r: Option<nat>)
    ensures r.Some? ==> r.value < |c| && c[r.value].None? && forall j :: 0 <= j < r.value ==> c[j].Some?
    ensures r.None? ==> forall j :: 0 <= j < |c| ==> c[j].Some?
  {
    if c == [] then None
    else if c[0].None? then Some(0)
    else match FirstEmpty(c[1..])
      case None => None
      case Some(k) => Some(k + 1)
  }

  /** List.FindIndex(slot => slot != null && slot.Item.ItemID == id), as an option. */
  function FirstWithId(c: Cells, id: int): (r: Option<nat>)
    ensures r.Some? ==> r.value < |c| && HasId(c[r.value], id) && forall j :: 0 <= j < r.value ==> !HasId(c[j], id)
    ensures r.None? ==> forall j :: 0 <= j < |c| ==> !HasId(c[j], id)
  {
    if c == [] then None
    else if HasId(c[0], id) then Some(0)
    else match FirstWithId(c[1..], id)
      case None => None
      case Some(k) => Some(k + 1)
  }

  // ---------------------------------------------------------------- AddItem

  /**
   * The first loop of AddItem, from position i on: each slot that stacks with
   * `item` gains min(space left, remaining), gets SlotIndex i, and the loop
   * stops as soon as nothing remains. Returns the cells and what remains.
   */
  function TopUp(c: Cells, item: Item, amount: int, i: nat): (Cells, int)
    requires i <= |c|
    decreases |c| - i
  {
    if i == |c| then (c, amount)
    else if Stacks(c[i], item) then
      var s := c[i].value;
      var add := Min(s.item.maxStackSize - s.quantity, amount);
      var c' := c[i := Some(Cell(s.item, s.quantity + add, i))];
      if amount - add <= 0 then (c', amount - add) else TopUp(c', item, amount - add, i + 1)
    else TopUp(c, item, amount, i + 1)
  }

  /**
   * The second loop of AddItem: while something remains, put min(remaining,
   * MaxStackSize) into a new slot at the lowest empty position; stop when
   * there is none.
   */
  function Fill(c: Cells, item: Item, amount: int): Cells
    decreases if amount > 0 then amount else 0
  {
    if amount <= 0 then c
    else match FirstEmpty(c)
      case None => c
      case Some(e) =>
        var put := Min(amount, item.maxStackSize);
        Fill(c[e := Some(Cell(item, put, e))], item, amount - put)
  }

  /** BogInventoryBase.AddItem(item, amount). */
  function AddSpec(c: Cells, item: Item, amount: int): Cells
  {
    var (c', rest) := TopUp(c, item, amount, 0);
    Fill(c', item, rest)
  }

  // ---------------------------------------------------------------- InsertItem

  /** BogInventoryBase.InsertItem: a new slot at exactly the slot's SlotIndex, if that position is free. */
  function InsertSpec(c: Cells, item: Item, targetIndex: int, amount: int): Cells
  {
    if targetIndex < 0 || targetIndex >= |c| || c[targetIndex].Some? then c
    else c[targetIndex := Some(Cell(item, amount, targetIndex))]
  }

  // ---------------------------------------------------------------- Remove / Use

  /** Decrement the slot at k by `quantity`, emptying it once it is 0 or less. */
  function DecrementAt(c: Cells, k: nat, quantity: int): Cells
    requires k < |c| && c[k].Some?
  {
    var s := c[k].value;
    if s.quantity - quantity <= 0 then c[k := None]
    else c[k := Some(s.(quantity := s.quantity - quantity))]
  }

  /** RemoveItem(item) and RemoveItemEditor(item, quantity): the lowest slot with that ItemID. */
  function RemoveSpec(c: Cells, id: int, quantity: int): Cells
  {
    match FirstWithId(c, id)
    case None => c
    case Some(k) => DecrementAt(c, k, quantity)
  }

  /** RemoveItem(item, quantity): the selected slot, if it holds that ItemID. */
  function RemoveSelectedSpec(c: Cells, selected: int, id: int, quantity: int): Cells
    requires -1 <= selected < |c|
  {
    if selected == -1 || c[selected].None? || c[selected].value.item.itemID != id then c
    else DecrementAt(c, selected, quantity)
  }

  // ---------------------------------------------------------------- MoveItem

  function Swap(c: Cells, f: nat, t: nat): Cells
    requires f < |c| && t < |c|
  {
    var a := c[f];
    var b := c[t];
    c[f := b][t := a]
  }

  function Reindex(o: Option<Cell>, i: int): Option<Cell>
  {
    if o.Some? then Some(o.value.(slotIndex := i)) else None
  }

  /** Swap the two positions and give each moved slot its new SlotIndex. */
  function SwapReindex(c: Cells, f: nat, t: nat): Cells
    requires f < |c| && t < |c|
  {
    var s := Swap(c, f, t);
    s[f := Reindex(s[f], f)][t := Reindex(s[t], t)]
  }

  /**
   * The stacking branch of MoveItem: the target gains `amountToMove`, then the
   * source loses it and is emptied if nothing is left. The target is updated
   * first, as in the source, so that fromIndex == toIndex (one slot seen under
   * two names) comes out as the source's does.
   */
  function Merge(c: Cells, f: nat, t: nat, amountToMove: int): Cells
    requires f < |c| && t < |c| && c[f].Some? && c[t].Some?
  {
    var c1 := c[t := Some(c[t].value.(quantity := c[t].value.quantity + amountToMove))];
    var c2 := c1[f := Some(c1[f].value.(quantity := c1[f].value.quantity - amountToMove))];
    if c2[f].value.quantity <= 0 then c2[f := None] else c2
  }

  /**
   * BogInventoryBase.MoveItem on valid indices with an occupied source: merge
   * into a stack of the same item, or swap the two positions.
   */
  function MoveSpec(c: Cells, f: nat, t: nat): Cells
    requires f < |c| && t < |c| && c[f].Some?
  {
    var from := c[f].value;
    if c[t].Some? && from.item.itemID == c[t].value.item.itemID && from.item.maxStackSize > 1 then
      var to := c[t].value;
      var amountToMove := Min(from.item.maxStackSize - to.quantity, from.quantity);
      if amountToMove > 0 then Merge(c, f, t, amountToMove)
      else if from.quantity != to.quantity then SwapReindex(c, f, t)
      else c
    else if c[t].None? || from.item.itemID != c[t].value.item.itemID then SwapReindex(c, f, t)
    else c
  }

  // ---------------------------------------------------------------- Lock / Unlock

  /** UnlockItem / LockItem: set IsLocked on the item of the lowest slot with that ItemID. */
  function SetLockSpec(c: Cells, id: int, locked: bool): Cells
  {
    match FirstWithId(c, id)
    case None => c
    case Some(k) => c[k := Some(c[k].value.(item := c[k].value.item.(isLocked := locked)))]
  }

  predicate IsLockedAt(o: Option<Cell>) { o.Some? && o.value.item.isLocked }

  /** The position visited at step j of the cyclic scan from `start`. */
  function CyclicPos(start: nat, j: nat, n: nat): (r: nat)
    requires start < n && j < n
    ensures r < n && r == (start + j) % n
  {
    if start + j < n then start + j else start + j - n
  }

  /**
   * The cyclic scan of UnlockRandomItem from step j on: the first position,
   * in the order start, start+1, ... (mod n), that holds a locked item.
   */
  function CyclicFirstLocked(c: Cells, start: nat, j: nat): (r: Option<nat>)
    requires start < |c|
    ensures r.Some? ==> r.value < |c| && IsLockedAt(c[r.value])
    decreases |c| - j
  {
    if j >= |c| then None
    else if IsLockedAt(c[CyclicPos(start, j, |c|)]) then Some(CyclicPos(start, j, |c|))
    else CyclicFirstLocked(c, start, j + 1)
  }

  /** UnlockRandomItem with the random start index as a parameter. */
  function UnlockRandomSpec(c: Cells, start: nat): Cells
    requires |c| > 0 ==> start < |c|
  {
    if |c| == 0 then c
    else match CyclicFirstLocked(c, start, 0)
      case None => c
      case Some(k) => c[k := Some(c[k].value.(item := c[k].value.item.(isLocked := false)))]
  }

  // ---------------------------------------------------------------- Save data

  /** The occupied slots, in position order: what the save code hands to Encode. */
  function Occupied(c: Cells): (r: seq<Cell>)
    ensures |r| <= |c|
  {
    if c == [] then []
    else Occupied(c[..|c| - 1]) + (if c[|c| - 1].Some? then [c[|c| - 1].value] else [])
  }

  /**
   * ExtractSerialisedBogInventoryData: each non-null saved entry is inserted
   * at its saved SlotIndex with its saved Quantity, first entry first.
   */
  function ExtractSpec(c: Cells, saved: seq<Option<Cell>>): Cells
  {
    if saved == [] then c
    else
      var before := ExtractSpec(c, saved[..|saved| - 1]);
      match saved[|saved| - 1]
      case None => before
      case Some(s) => InsertSpec(before, s.item, s.slotIndex, s.quantity)
  }
}

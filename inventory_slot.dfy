/**
 * BogInventorySlot: one slot of the inventory. The inventory changes a slot's
 * quantity and index through shared references, so a slot is an object.
 */
module BogSlot {
  import opened Wrappers
  import opened BogInventorySpec

  class BogInventorySlot {
    var item: Item
    var quantity: int
    var slotIndex: int

    constructor (item: Item, quantity: int, slotIndex: int)
      ensures this.item == item
      ensures this.quantity == quantity
      ensures this.slotIndex == slotIndex
    {
      this.item := item;
      this.quantity := quantity;
      this.slotIndex := slotIndex;
    }

    /** The Quantity setter: any int is accepted; bounds are the inventory's business. */
    method SetQuantity(value: int)
      modifies this
      ensures quantity == value && item == old(item) && slotIndex == old(slotIndex)
    {
      quantity := value;
    }

    /** The SlotIndex setter: any int is accepted. */
    method SetSlotIndex(value: int)
      modifies this
      ensures slotIndex == value && item == old(item) && quantity == old(quantity)
    {
      slotIndex := value;
    }
  }

  /** What a (possibly null) slot reference holds. */
  ghost function CellOf(s: BogInventorySlot?): (r: Option<Cell>)
    reads s
    ensures s == null <==> r.None?
  {
    if s == null then None else Some(Cell(s.item, s.quantity, s.slotIndex))
  }
}

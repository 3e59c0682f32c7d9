/**
 * BogInventoryBase: the inventory manager. Its slot list is a fixed-size
 * buffer of width * height nullable slot references, edited in place; every
 * method is proved to take the buffer's contents, seen as cells, to what the
 * matching function of BogInventorySpec says.
 */
module BogInventory {
  import opened Wrappers
  import opened BogInventorySpec
  import opened BogSlot
  import opened BogInventoryLemmas
  import opened BogInventorySave

  class BogInventoryBase {
    const inventoryWidth: nat
    const inventoryHeight: nat
    var items: array<BogInventorySlot?>
    var selectedItemIndex: int

    /** The slot objects currently in the buffer. */
    ghost function Slots(): set<BogInventorySlot?>
      reads this, items
    {
      set i | 0 <= i < items.Length && items[i] != null :: items[i]
    }

    /**
     * The buffer has width * height positions, the selection is -1 or a
     * position, and every slot's SlotIndex is its position (so no slot object
     * sits at two positions).
     */
    ghost predicate Valid()
      reads this, items, Slots()
    {
      && items.Length == inventoryWidth * inventoryHeight
      && -1 <= selectedItemIndex < items.Length
      && forall i :: 0 <= i < items.Length && items[i] != null ==> items[i].slotIndex == i
    }

    /** The buffer's contents as cells. */
    ghost function View(): (v: Cells)
      reads this, items, Slots()
      ensures |v| == items.Length
    {
      seq(items.Length, i reads this, items, Slots() requires 0 <= i < items.Length => CellOf(items[i]))
    }

    lemma ValidCoherent()
      requires Valid()
      ensures IndexCoherent(View())
    {
    }

    /** Awake: a buffer of width * height empty positions and no selection. */
    constructor (width: nat, height: nat)
      ensures Valid() && fresh(items)
      ensures inventoryWidth == width && inventoryHeight == height
      ensures View() == Empty(width * height) && selectedItemIndex == -1
    {
      inventoryWidth := width;
      inventoryHeight := height;
      items := new BogInventorySlot?[width * height](_ => null);
      selectedItemIndex := -1;
      new;
      assert View() == Empty(width * height);
    }

    /** The lowest empty position, or -1 (List.FindIndex). */
    method FindEmpty() returns (r: int)
      requires Valid()
      ensures View() == old(View())
      ensures -1 <= r < items.Length
      ensures r == -1 <==> FirstEmpty(View()).None?
      ensures r >= 0 ==> FirstEmpty(View()) == Some(r)
    {
      var i := 0;
      while i < items.Length
        invariant 0 <= i <= items.Length
        invariant forall j :: 0 <= j < i ==> View()[j].Some?
      {
        if items[i] == null {
          assert View()[i].None?;
          return i;
        }
        assert View()[i].Some?;
        i := i + 1;
      }
      return -1;
    }

    /** The lowest position holding an item with this ItemID, or -1. */
    method FindWithId(id: int) returns (r: int)
      requires Valid()
      ensures -1 <= r < items.Length
      ensures r == -1 <==> FirstWithId(View(), id).None?
      ensures r >= 0 ==> FirstWithId(View(), id) == Some(r)
    {
      var i := 0;
      while i < items.Length
        invariant 0 <= i <= items.Length
        invariant forall j :: 0 <= j < i ==> !HasId(View()[j], id)
      {
        if items[i] != null && items[i].item.itemID == id {
          assert HasId(View()[i], id);
          return i;
        }
        assert !HasId(View()[i], id);
        i := i + 1;
      }
      return -1;
    }

    /** Write a slot's item and quantity in place (and its SlotIndex, which stays k). */
    method SetSlotAt(k: int, item: Item, quantity: int)
      requires Valid() && 0 <= k < items.Length && items[k] != null
      modifies items[k]
      ensures Valid() && items[..] == old(items[..])
      ensures View() == old(View())[k := Some(Cell(item, quantity, k))]
    {
      ghost var before := View();
      var slot := items[k];
      assert forall j :: 0 <= j < items.Length && j != k ==> items[j] != slot;
      slot.item := item;
      slot.quantity := quantity;
      slot.slotIndex := k;
      assert View() == before[k := Some(Cell(item, quantity, k))];
    }

    /** Clear position k. */
    method ClearAt(k: int)
      requires Valid() && 0 <= k < items.Length
      modifies items
      ensures Valid() && items == old(items)
      ensures items[..] == old(items[..])[k := null]
      ensures View() == old(View())[k := None]
    {
      ghost var before := View();
      items[k] := null;
      assert View() == before[k := None];
    }

    /** Put a slot that is nowhere in the buffer, and whose SlotIndex is k, at the empty position k. */
    method PlaceAt(k: int, slot: BogInventorySlot)
      requires Valid() && 0 <= k < items.Length && items[k] == null && slot.slotIndex == k
      requires forall j :: 0 <= j < items.Length ==> items[j] != slot
      modifies items
      ensures Valid() && items == old(items)
      ensures items[..] == old(items[..])[k := slot]
      ensures View() == old(View())[k := Some(Cell(slot.item, slot.quantity, k))]
    {
      ghost var before := View();
      items[k] := slot;
      assert View() == before[k := Some(Cell(slot.item, slot.quantity, k))];
    }

    /**
     * AddItem(item, amount): top up every existing stack of the item in
     * position order, then put what remains into new slots at the lowest
     * empty positions, MaxStackSize at a time, until it is placed or no
     * position is empty.
     */
    method AddItem(item: Item, amount: int)
      requires Valid()
      modifies items, Slots()
      ensures Valid() && items == old(items)
      ensures View() == AddSpec(old(View()), item, amount)
    {
      var rest := TopUpStacks(item, amount);
      FillEmpty(item, rest);
    }

    /** AddItem(item): the same two loops with an amount of 1. */
    method AddOneItem(item: Item)
      requires Valid()
      modifies items, Slots()
      ensures Valid() && items == old(items)
      ensures View() == AddSpec(old(View()), item, 1)
    {
      AddItem(item, 1);
    }

    /** The first loop of AddItem; returns what is left to place (at most 0 once the loop stopped early). */
    method TopUpStacks(item: Item, amount: int) returns (rest: int)
      requires Valid()
      modifies Slots()
      ensures Valid() && items == old(items)
      ensures (View(), rest) == TopUp(old(View()), item, amount, 0)
    {
      rest := amount;
      var i := 0;
      while i < items.Length
        invariant 0 <= i <= items.Length
        invariant Valid() && Slots() == old(Slots())
        invariant TopUp(View(), item, rest, i) == TopUp(old(View()), item, amount, 0)
      {
        var slot := items[i];
        if slot != null && slot.item.itemID == item.itemID && slot.item.maxStackSize > 1 {
          ghost var before := View();
          ghost var restBefore := rest;
          var spaceLeft := slot.item.maxStackSize - slot.quantity;
          var amountToAdd := Min(spaceLeft, rest);
          SetSlotAt(i, slot.item, slot.quantity + amountToAdd);
          rest := rest - amountToAdd;
          assert View() == before[i := Some(Cell(before[i].value.item, before[i].value.quantity + amountToAdd, i))];
          if rest <= 0 {
            return;
          }
        }
        i := i + 1;
      }
    }

    /** The second loop of AddItem. */
    method FillEmpty(item: Item, amount: int)
      requires Valid()
      modifies items
      ensures Valid() && items == old(items)
      ensures View() == Fill(old(View()), item, amount)
    {
      ghost var target := Fill(View(), item, amount);
      var rest := amount;
      while rest > 0
        invariant Valid()
        invariant Fill(View(), item, rest) == target
        decreases rest
      {
        var emptyIndex := FindEmpty();
        if emptyIndex == -1 {
          FillStops(View(), item, rest);
          return;
        }
        var put := Min(rest, item.maxStackSize);
        FillStep(View(), item, rest, emptyIndex);
        PlaceNew(emptyIndex, item, put);
        rest := rest - put;
      }
    }

    /** A new slot holding `quantity` of `item` at the empty position k. */
    method PlaceNew(k: int, item: Item, quantity: int)
      requires Valid() && 0 <= k < items.Length && items[k] == null
      modifies items
      ensures Valid() && items == old(items)
      ensures View() == old(View())[k := Some(Cell(item, quantity, k))]
    {
      var slot := new BogInventorySlot(item, quantity, k);
      PlaceAt(k, slot);
    }

    /** InsertItem: a new slot with the given quantity at the slot's own SlotIndex, if that position is in range and free. */
    method InsertItem(slot: BogInventorySlot, amount: int)
      requires Valid()
      modifies items
      ensures Valid() && items == old(items)
      ensures View() == InsertSpec(old(View()), slot.item, slot.slotIndex, amount)
    {
      var targetIndex := slot.slotIndex;
      if 0 <= targetIndex < items.Length && items[targetIndex] == null {
        PlaceNew(targetIndex, slot.item, amount);
      }
    }

    /** Take `quantity` from the slot at k, clearing the position once it holds 0 or less. */
    method DecrementSlot(k: int, quantity: int)
      requires Valid() && 0 <= k < items.Length && items[k] != null
      modifies items, items[k]
      ensures Valid() && items == old(items)
      ensures View() == DecrementAt(old(View()), k, quantity)
    {
      var slot := items[k];
      SetSlotAt(k, slot.item, slot.quantity - quantity);
      if slot.quantity <= 0 {
        ClearAt(k);
      }
    }

    /** RemoveItem(item, quantity): acts on the selected slot only, and only if it holds that item. */
    method RemoveSelected(item: Item, quantity: int)
      requires Valid()
      modifies items, Slots()
      ensures Valid() && items == old(items)
      ensures View() == RemoveSelectedSpec(old(View()), old(selectedItemIndex), item.itemID, quantity)
    {
      if selectedItemIndex != -1 {
        var slot := items[selectedItemIndex];
        if slot != null && slot.item.itemID == item.itemID {
          DecrementSlot(selectedItemIndex, quantity);
        }
      }
    }

    /** RemoveItem(item): one off the lowest slot with that ItemID. */
    method RemoveItem(item: Item)
      requires Valid()
      modifies items, Slots()
      ensures Valid() && items == old(items)
      ensures View() == RemoveSpec(old(View()), item.itemID, 1)
    {
      var k := FindWithId(item.itemID);
      if k != -1 {
        DecrementSlot(k, 1);
      }
    }

    /** RemoveItemEditor(item, quantity): `quantity` off the lowest slot with that ItemID. */
    method RemoveItemEditor(item: Item, quantity: int)
      requires Valid()
      modifies items, Slots()
      ensures Valid() && items == old(items)
      ensures View() == RemoveSpec(old(View()), item.itemID, quantity)
    {
      var k := FindWithId(item.itemID);
      if k != -1 {
        DecrementSlot(k, quantity);
      }
    }

    /**
     * UseItem on an occupied position: one off that slot. The source guards
     * only the item-used signal with the bounds and null check, and takes the
     * one off unguarded, so the caller must name an occupied position.
     */
    method UseItem(index: int)
      requires Valid() && 0 <= index < items.Length && items[index] != null
      modifies items, items[index]
      ensures Valid() && items == old(items)
      ensures View() == DecrementAt(old(View()), index, 1)
    {
      DecrementSlot(index, 1);
    }

    /**
     * Swap positions f and t and give each moved slot its new SlotIndex. The
     * two slots are taken out of the buffer while their SlotIndex is changed,
     * so that every intermediate state is valid; the final state is the one
     * the swap followed by the two SlotIndex writes produces.
     */
    method SwapSlots(f: int, t: int)
      requires Valid() && 0 <= f < items.Length && 0 <= t < items.Length
      modifies items, items[f], items[t]
      ensures Valid() && items == old(items)
      ensures View() == SwapReindex(old(View()), f, t)
    {
      ghost var v := View();
      if f == t {
        SwapReindexSame(v, f);
        return;
      }
      var a := items[f];
      var b := items[t];
      ClearAt(f);
      ClearAt(t);
      assert forall j :: 0 <= j < items.Length && items[j] != null ==> items[j] != a && items[j] != b;
      ghost var w := View();
      if a != null {
        a.slotIndex := t;
      }
      if b != null {
        b.slotIndex := f;
      }
      assert View() == w;
      if b != null {
        PlaceAt(f, b);
      }
      if a != null {
        PlaceAt(t, a);
      }
      SwapReindexParts(v, f, t);
    }

    /**
     * MoveItem(fromIndex, toIndex): with both indices in range and an occupied
     * source, merge into a stack of the same item or swap, and select the
     * target; otherwise nothing happens.
     */
    method MoveItem(fromIndex: int, toIndex: int)
      requires Valid()
      modifies this, items, Slots()
      ensures Valid() && items == old(items)
      ensures if 0 <= fromIndex < items.Length && 0 <= toIndex < items.Length && old(View())[fromIndex].Some?
        then View() == MoveSpec(old(View()), fromIndex, toIndex) && selectedItemIndex == toIndex
        else View() == old(View()) && selectedItemIndex == old(selectedItemIndex)
    {
      if 0 <= fromIndex < items.Length && 0 <= toIndex < items.Length {
        var fromSlot := items[fromIndex];
        var toSlot := items[toIndex];
        if fromSlot == null {
          return;
        }
        if toSlot != null && fromSlot.item.itemID == toSlot.item.itemID && fromSlot.item.maxStackSize > 1 {
          var spaceLeft := fromSlot.item.maxStackSize - toSlot.quantity;
          var amountToMove := Min(spaceLeft, fromSlot.quantity);
          if amountToMove > 0 {
            MergeSlots(fromIndex, toIndex, amountToMove);
          } else if fromSlot.quantity != toSlot.quantity {
            SwapSlots(fromIndex, toIndex);
          }
        } else if toSlot == null || fromSlot.item.itemID != toSlot.item.itemID {
          SwapSlots(fromIndex, toIndex);
        }
        selectedItemIndex := toIndex;
      }
    }

    /** The merge branch of MoveItem: target first, then source (one slot when f == t). */
    method MergeSlots(f: int, t: int, amountToMove: int)
      requires Valid() && 0 <= f < items.Length && 0 <= t < items.Length
      requires items[f] != null && items[t] != null
      modifies items, items[f], items[t]
      ensures Valid() && items == old(items)
      ensures View() == Merge(old(View()), f, t, amountToMove)
    {
      var toSlot := items[t];
      SetSlotAt(t, toSlot.item, toSlot.quantity + amountToMove);
      var fromSlot := items[f];
      SetSlotAt(f, fromSlot.item, fromSlot.quantity - amountToMove);
      if fromSlot.quantity <= 0 {
        ClearAt(f);
      }
    }

    /** UnlockItem / LockItem: set IsLocked on the item of the lowest slot with that ItemID. */
    method SetLocked(item: Item, locked: bool)
      requires Valid()
      modifies Slots()
      ensures Valid()
      ensures View() == SetLockSpec(old(View()), item.itemID, locked)
    {
      var k := FindWithId(item.itemID);
      if k != -1 {
        var slot := items[k];
        SetSlotAt(k, slot.item.(isLocked := locked), slot.quantity);
      }
    }

    method UnlockItem(item: Item)
      requires Valid()
      modifies Slots()
      ensures Valid()
      ensures View() == SetLockSpec(old(View()), item.itemID, false)
    {
      SetLocked(item, false);
    }

    method LockItem(item: Item)
      requires Valid()
      modifies Slots()
      ensures Valid()
      ensures View() == SetLockSpec(old(View()), item.itemID, true)
    {
      SetLocked(item, true);
    }

    /** InventoryContains: some slot holds an item with this ItemID. */
    method InventoryContains(item: Item) returns (r: bool)
      requires Valid()
      ensures r <==> exists j :: 0 <= j < items.Length && HasId(View()[j], item.itemID)
    {
      r := false;
      var i := 0;
      while i < items.Length
        invariant 0 <= i <= items.Length
        invariant forall j :: 0 <= j < i ==> !HasId(View()[j], item.itemID)
      {
        if items[i] != null && items[i].item.itemID == item.itemID {
          assert HasId(View()[i], item.itemID);
          return true;
        }
        i := i + 1;
      }
    }

    /**
     * UnlockRandomItem: starting at `startIndex` (the random draw) and going
     * round the buffer once, unlock the first locked item met.
     */
    method UnlockRandomItem(startIndex: nat)
      requires Valid()
      requires items.Length > 0 ==> startIndex < items.Length
      modifies Slots()
      ensures Valid()
      ensures View() == UnlockRandomSpec(old(View()), startIndex)
    {
      var n := items.Length;
      if n == 0 {
        return;
      }
      ghost var v := View();
      var index := startIndex;
      ghost var j: nat := 0;
      while true
        invariant 0 <= j < n && index == CyclicPos(startIndex, j, n)
        invariant Valid() && View() == v
        invariant CyclicFirstLocked(v, startIndex, j) == CyclicFirstLocked(v, startIndex, 0)
        decreases n - j
      {
        CyclicStep(v, startIndex, j);
        var slot := items[index];
        if slot != null && slot.item.isLocked {
          SetSlotAt(index, slot.item.(isLocked := false), slot.quantity);
          return;
        }
        CyclicNext(startIndex, j, n);
        index := (index + 1) % n;
        if index == startIndex {
          return;
        }
        j := j + 1;
      }
    }

    /**
     * ExtractSerialisedBogInventoryData: insert every non-null saved slot, in
     * order, at its saved SlotIndex with its saved Quantity; no data, no change.
     */
    method ExtractSerialisedBogInventoryData(serialisedItems: Option<BogInventoryData>)
      requires Valid()
      modifies items
      ensures Valid() && items == old(items)
      ensures serialisedItems.None? ==> View() == old(View())
      ensures serialisedItems.Some? ==> View() == ExtractSpec(old(View()), Saved(serialisedItems.value))
    {
      if serialisedItems.None? {
        return;
      }
      var data := serialisedItems.value;
      ghost var saved := Saved(data);
      for i := 0 to |data.inventoryItems|
        invariant Valid()
        invariant Saved(data) == saved
        invariant View() == ExtractSpec(old(View()), saved[..i])
      {
        assert saved[..i + 1][..i] == saved[..i];
        var serialisedItem := data.inventoryItems[i];
        if serialisedItem.Some? {
          var slot := serialisedItem.value.bogInventoryItem;
          InsertItem(slot, slot.quantity);
        }
      }
      assert saved[..|data.inventoryItems|] == saved;
    }

    /** ResetInventory: a fresh empty buffer while the game is playing; nothing otherwise. */
    method ResetInventory(isPlaying: bool)
      requires Valid()
      modifies this
      ensures Valid()
      ensures isPlaying ==> fresh(items) && View() == Empty(inventoryWidth * inventoryHeight)
      ensures !isPlaying ==> items == old(items) && View() == old(View())
      ensures selectedItemIndex == old(selectedItemIndex)
    {
      if isPlaying {
        items := new BogInventorySlot?[inventoryWidth * inventoryHeight](_ => null);
        assert View() == Empty(inventoryWidth * inventoryHeight);
      }
    }
  }
}

/**
 * The stack bound across the inventory operations: which operations keep
 * every slot within its item's MaxStackSize, which keep items of one ItemID
 * agreeing on that size (so that the bound can be carried from one
 * operation to the next), and where the inventory itself lets a slot exceed
 * its stack size.
 */
module BogInventoryBounds {
  import opened Wrappers
  import opened BogInventorySpec
  import opened BogInventoryLemmas

  /** Every slot holding `item`'s ItemID agrees with `item` on MaxStackSize. */
  predicate Agrees(c: Cells, item: Item)
  {
    forall k :: 0 <= k < |c| && c[k].Some? && c[k].value.item.itemID == item.itemID ==> c[k].value.item.maxStackSize == item.maxStackSize
  }

  /** Each occupied position of `r` holds `item` or the item that position held in `c`. */
  predicate ItemsFrom(r: Cells, c: Cells, item: Item)
  {
    |r| == |c| &&
    forall k :: 0 <= k < |r| && r[k].Some? ==> r[k].value.item == item || (c[k].Some? && r[k].value.item == c[k].value.item)
  }

  /** Saved entries that respect their own stack size. */
  predicate SavedBounded(saved: seq<Option<Cell>>)
  {
    forall i :: 0 <= i < |saved| && saved[i].Some? ==> saved[i].value.quantity <= saved[i].value.item.maxStackSize
  }

  /** Filling a list from consistent items and an agreeing item keeps the items consistent. */
  lemma ConsistentFrom(r: Cells, c: Cells, item: Item)
    requires ConsistentItems(c) && Agrees(c, item) && ItemsFrom(r, c, item)
    ensures ConsistentItems(r) && Agrees(r, item)
  {
    forall i, j | 0 <= i < |r| && 0 <= j < |r| && r[i].Some? && r[j].Some? && r[i].value.item.itemID == r[j].value.item.itemID
      ensures r[i].value.item.maxStackSize == r[j].value.item.maxStackSize
    {
      assert r[i].value.item == item || (c[i].Some? && r[i].value.item == c[i].value.item);
      assert r[j].value.item == item || (c[j].Some? && r[j].value.item == c[j].value.item);
    }
  }

  // ---------------------------------------------------------------- InsertItem

  /**
   * InsertItem keeps the bound when the stored amount fits the item's stack
   * size, and keeps items consistent when the item agrees with the list; but
   * it stores any amount, so a larger one breaks the bound.
   */
  lemma InsertBound(c: Cells, item: Item, targetIndex: int, amount: int)
    ensures Bounded(c) && amount <= item.maxStackSize ==> Bounded(InsertSpec(c, item, targetIndex, amount))
    ensures ConsistentItems(c) && Agrees(c, item) ==> ConsistentItems(InsertSpec(c, item, targetIndex, amount))
    ensures 0 <= targetIndex < |c| && c[targetIndex].None? && amount > item.maxStackSize ==> !Bounded(InsertSpec(c, item, targetIndex, amount))
  {
    var r := InsertSpec(c, item, targetIndex, amount);
    assert ItemsFrom(r, c, item);
    if ConsistentItems(c) && Agrees(c, item) {
      ConsistentFrom(r, c, item);
    }
    if 0 <= targetIndex < |c| && c[targetIndex].None? {
      assert r[targetIndex] == Some(Cell(item, amount, targetIndex));
    }
  }

  // ---------------------------------------------------------------- ExtractSerialisedBogInventoryData

  /** Loading saved entries that each fit their stack size into a bounded list keeps it bounded. */
  lemma {:induction false} ExtractBound(c: Cells, saved: seq<Option<Cell>>)
    requires Bounded(c) && SavedBounded(saved)
    ensures Bounded(ExtractSpec(c, saved))
    decreases |saved|
  {
    if saved != [] {
      var init := saved[..|saved| - 1];
      assert SavedBounded(init) by {
        forall i | 0 <= i < |init| && init[i].Some?
          ensures init[i].value.quantity <= init[i].value.item.maxStackSize
        {
          assert init[i] == saved[i];
        }
      }
      ExtractBound(c, init);
      match saved[|saved| - 1]
      case None =>
      case Some(s) =>
        InsertBound(ExtractSpec(c, init), s.item, s.slotIndex, s.quantity);
    }
  }

  /** A saved entry over its stack size, loaded into an empty position, leaves a slot over its stack size. */
  lemma ExtractOverfull(c: Cells, s: Cell)
    requires 0 <= s.slotIndex < |c| && c[s.slotIndex].None? && s.quantity > s.item.maxStackSize
    ensures !Bounded(ExtractSpec(c, [Some(s)]))
  {
    assert [Some(s)][..0] == [];
    assert ExtractSpec(c, [Some(s)]) == InsertSpec(c, s.item, s.slotIndex, s.quantity);
    InsertBound(c, s.item, s.slotIndex, s.quantity);
  }

  // ---------------------------------------------------------------- AddItem

  /** The first AddItem loop keeps every position's item. */
  lemma {:induction false} TopUpItems(c: Cells, item: Item, amount: int, i: nat)
    requires i <= |c|
    ensures ItemsFrom(TopUp(c, item, amount, i).0, c, item)
    decreases |c| - i
  {
    TopUpFacts(c, item, amount, i);
    if i < |c| {
      if Stacks(c[i], item) {
        var s := c[i].value;
        var add := Min(s.item.maxStackSize - s.quantity, amount);
        var c' := c[i := Some(Cell(s.item, s.quantity + add, i))];
        if amount - add > 0 {
          TopUpItems(c', item, amount - add, i + 1);
        }
      } else {
        TopUpItems(c, item, amount, i + 1);
      }
    }
  }

  /** The second AddItem loop puts only `item` into the positions it fills. */
  lemma {:induction false} FillItems(c: Cells, item: Item, amount: int)
    ensures ItemsFrom(Fill(c, item, amount), c, item)
    decreases if amount > 0 then amount else 0
  {
    FillShape(c, item, amount);
    if amount > 0 {
      match FirstEmpty(c)
      case None =>
      case Some(e) =>
        var put := Min(amount, item.maxStackSize);
        var c' := c[e := Some(Cell(item, put, e))];
        FillItems(c', item, amount - put);
    }
  }

  /** AddItem of an item that agrees with the list keeps same-ItemID items agreeing on their stack size. */
  lemma AddKeepsConsistent(c: Cells, item: Item, amount: int)
    requires ConsistentItems(c) && Agrees(c, item)
    ensures ConsistentItems(AddSpec(c, item, amount)) && Agrees(AddSpec(c, item, amount), item)
  {
    var (c', rest) := TopUp(c, item, amount, 0);
    TopUpItems(c, item, amount, 0);
    ConsistentFrom(c', c, item);
    FillItems(c', item, rest);
    ConsistentFrom(Fill(c', item, rest), c', item);
  }

  // ---------------------------------------------------------------- MoveItem

  /** The position whose slot ends up at k after swapping f and t. */
  function Partner(k: nat, f: nat, t: nat): nat
  {
    if k == f then t else if k == t then f else k
  }

  /** After the swap, position k holds the item its partner position held before. */
  lemma SwapReindexAt(c: Cells, f: nat, t: nat, k: nat)
    requires f < |c| && t < |c| && k < |c|
    ensures SwapReindex(c, f, t)[k].Some? <==> c[Partner(k, f, t)].Some?
    ensures SwapReindex(c, f, t)[k].Some? ==> SwapReindex(c, f, t)[k].value.item == c[Partner(k, f, t)].value.item
  {
    SwapReindexFacts(c, f, t);
  }

  /** Swapping two positions keeps same-ItemID items agreeing on their stack size. */
  lemma SwapKeepsConsistent(c: Cells, f: nat, t: nat)
    requires f < |c| && t < |c| && ConsistentItems(c)
    ensures ConsistentItems(SwapReindex(c, f, t))
  {
    var r := SwapReindex(c, f, t);
    forall i, j | 0 <= i < |r| && 0 <= j < |r| && r[i].Some? && r[j].Some? && r[i].value.item.itemID == r[j].value.item.itemID
      ensures r[i].value.item.maxStackSize == r[j].value.item.maxStackSize
    {
      SwapReindexAt(c, f, t, i);
      SwapReindexAt(c, f, t, j);
      SwapReindexFacts(c, f, t);
    }
  }

  /** MoveItem keeps same-ItemID items agreeing on their stack size, so the stack bound holds after every move. */
  lemma MoveKeepsConsistent(c: Cells, f: nat, t: nat)
    requires f < |c| && t < |c| && c[f].Some? && ConsistentItems(c)
    ensures ConsistentItems(MoveSpec(c, f, t))
    ensures IndexCoherent(c) && Bounded(c) ==> Bounded(MoveSpec(c, f, t))
  {
    var from := c[f].value;
    if c[t].Some? && from.item.itemID == c[t].value.item.itemID && from.item.maxStackSize > 1 {
      var to := c[t].value;
      var amountToMove := Min(from.item.maxStackSize - to.quantity, from.quantity);
      if amountToMove > 0 {
        var r := Merge(c, f, t, amountToMove);
        assert ItemsFrom(r, c, from.item);
        ConsistentFrom(r, c, from.item);
      } else if from.quantity != to.quantity {
        SwapKeepsConsistent(c, f, t);
      }
    } else if c[t].None? || from.item.itemID != c[t].value.item.itemID {
      SwapKeepsConsistent(c, f, t);
    }
    if IndexCoherent(c) {
      MoveKeepsInvariants(c, f, t);
    }
  }

  // ---------------------------------------------------------------- RemoveItem

  /**
   * A removal by a negative quantity raises the slot's quantity instead of
   * lowering it, so RemoveItemEditor and the quantity overload of RemoveItem
   * can push a slot past its stack size.
   */
  lemma NegativeRemoveOverfills(c: Cells, k: nat, quantity: int)
    requires k < |c| && c[k].Some? && quantity < 0
    ensures c[k].value.quantity - quantity > 0 ==>
      DecrementAt(c, k, quantity)[k] == Some(c[k].value.(quantity := c[k].value.quantity - quantity))
    ensures c[k].value.quantity - quantity > c[k].value.item.maxStackSize ==> !Bounded(DecrementAt(c, k, quantity))
  {
    var r := DecrementAt(c, k, quantity);
    if c[k].value.quantity - quantity > c[k].value.item.maxStackSize {
      assert r[k].Some? && r[k].value.quantity == c[k].value.quantity - quantity;
    }
  }
}

/**
 * What the inventory operations promise, proved about the value model in
 * BogInventorySpec: slot counts never change, SlotIndex stays equal to the
 * position, stacks stay within their size, quantities are conserved by moves
 * and counted exactly by adds and removes, and a saved inventory loads back
 * into an empty one unchanged.
 */
module BogInventoryLemmas {
  import opened Wrappers
  import opened BogInventorySpec

  // ---------------------------------------------------------------- sums over updates

  lemma {:induction false} QtySumToUpdate(c: Cells, i: nat, o: Option<Cell>, n: nat)
    requires i < |c| && n <= |c|
    ensures QtySumTo(c[i := o], n) == QtySumTo(c, n) + (if i < n then Qty(o) - Qty(c[i]) else 0)
  {
    if n > 0 {
      QtySumToUpdate(c, i, o, n - 1);
    }
  }

  lemma QtySumUpdate(c: Cells, i: nat, o: Option<Cell>)
    requires i < |c|
    ensures QtySum(c[i := o]) == QtySum(c) - Qty(c[i]) + Qty(o)
  {
    QtySumToUpdate(c, i, o, |c|);
  }

  lemma {:induction false} EmptyCountToUpdate(c: Cells, i: nat, o: Option<Cell>, n: nat)
    requires i < |c| && n <= |c|
    ensures EmptyCountTo(c[i := o], n) == EmptyCountTo(c, n)
      + (if i < n then (if o.None? then 1 else 0) - (if c[i].None? then 1 else 0) else 0)
  {
    if n > 0 {
      EmptyCountToUpdate(c, i, o, n - 1);
    }
  }

  lemma EmptyCountUpdate(c: Cells, i: nat, o: Option<Cell>)
    requires i < |c|
    ensures EmptyCount(c[i := o]) == EmptyCount(c) - (if c[i].None? then 1 else 0) + (if o.None? then 1 else 0)
  {
    EmptyCountToUpdate(c, i, o, |c|);
  }

  lemma {:induction false} EmptyCountToPositive(c: Cells, e: nat, n: nat)
    requires e < n <= |c| && c[e].None?
    ensures EmptyCountTo(c, n) >= 1
  {
    if e < n - 1 {
      EmptyCountToPositive(c, e, n - 1);
    }
  }

  lemma {:induction false} NoEmptyMeansZero(c: Cells, n: nat)
    requires n <= |c|
    requires forall j :: 0 <= j < n ==> c[j].Some?
    ensures EmptyCountTo(c, n) == 0
  {
    if n > 0 {
      NoEmptyMeansZero(c, n - 1);
    }
  }

  // ---------------------------------------------------------------- AddItem

  /** The first loop of AddItem keeps the number of slots, only touches slots that stack with the item, and conserves quantity. */
  lemma {:induction false} TopUpFacts(c: Cells, item: Item, amount: int, i: nat)
    requires i <= |c|
    ensures var (r, rest) := TopUp(c, item, amount, i);
      && |r| == |c|
      && (forall k :: 0 <= k < |c| && !Stacks(c[k], item) ==> r[k] == c[k])
      && (forall k :: 0 <= k < |c| ==> (r[k].Some? <==> c[k].Some?))
      && QtySum(r) + rest == QtySum(c) + amount
      && EmptyCount(r) == EmptyCount(c)
      && (amount >= 0 ==> 0 <= rest)
      && (amount >= 0 && Bounded(c) ==> rest <= amount)
    decreases |c| - i
  {
    if i == |c| {
    } else if Stacks(c[i], item) {
      var s := c[i].value;
      var add := Min(s.item.maxStackSize - s.quantity, amount);
      var c' := c[i := Some(Cell(s.item, s.quantity + add, i))];
      QtySumUpdate(c, i, Some(Cell(s.item, s.quantity + add, i)));
      EmptyCountUpdate(c, i, Some(Cell(s.item, s.quantity + add, i)));
      if amount - add > 0 {
        TopUpFacts(c', item, amount - add, i + 1);
        assert forall k :: 0 <= k < |c| && !Stacks(c[k], item) ==> c'[k] == c[k];
        if Bounded(c) {
          assert Bounded(c');
        }
      }
    } else {
      TopUpFacts(c, item, amount, i + 1);
    }
  }

  /** TopUp keeps SlotIndex equal to the position and every slot within its own stack size. */
  lemma {:induction false} TopUpKeeps(c: Cells, item: Item, amount: int, i: nat)
    requires i <= |c|
    requires IndexCoherent(c) && Bounded(c)
    ensures IndexCoherent(TopUp(c, item, amount, i).0) && Bounded(TopUp(c, item, amount, i).0)
    decreases |c| - i
  {
    if i == |c| {
    } else if Stacks(c[i], item) {
      var s := c[i].value;
      var add := Min(s.item.maxStackSize - s.quantity, amount);
      var c' := c[i := Some(Cell(s.item, s.quantity + add, i))];
      if amount - add > 0 {
        TopUpKeeps(c', item, amount - add, i + 1);
      }
    } else {
      TopUpKeeps(c, item, amount, i + 1);
    }
  }

  /** The second loop of AddItem keeps the slot count and only fills empty positions. */
  lemma {:induction false} FillShape(c: Cells, item: Item, amount: int)
    ensures |Fill(c, item, amount)| == |c|
    ensures forall k :: 0 <= k < |c| && c[k].Some? ==> Fill(c, item, amount)[k] == c[k]
    decreases if amount > 0 then amount else 0
  {
    if amount > 0 {
      match FirstEmpty(c)
      case None =>
      case Some(e) =>
        var put := Min(amount, item.maxStackSize);
        FillShape(c[e := Some(Cell(item, put, e))], item, amount - put);
    }
  }

  lemma MinStep(amount: int, m: int, k: int)
    requires amount > 0 && m >= 1 && k >= 1
    ensures Min(amount, m) + Min(amount - Min(amount, m), (k - 1) * m) == Min(amount, k * m)
  {
    assert (k - 1) * m + m == k * m;
    assert (k - 1) * m >= 0;
  }

  /**
   * The second loop of AddItem places exactly min(amount, empty positions *
   * MaxStackSize): nothing is lost while there is room.
   */
  lemma {:induction false} FillQuantity(c: Cells, item: Item, amount: int)
    requires amount >= 0
    ensures QtySum(Fill(c, item, amount)) == QtySum(c) + Min(amount, EmptyCount(c) * item.maxStackSize)
    decreases amount
  {
    if amount > 0 {
      match FirstEmpty(c)
      case None =>
        NoEmptyMeansZero(c, |c|);
      case Some(e) =>
        var put := Min(amount, item.maxStackSize);
        var c' := c[e := Some(Cell(item, put, e))];
        QtySumUpdate(c, e, Some(Cell(item, put, e)));
        EmptyCountUpdate(c, e, Some(Cell(item, put, e)));
        EmptyCountToPositive(c, e, |c|);
        FillQuantity(c', item, amount - put);
        MinStep(amount, item.maxStackSize, EmptyCount(c));
    }
  }

  /** One round of the second AddItem loop: the lowest empty position gets min(amount, MaxStackSize). */
  lemma FillStep(c: Cells, item: Item, amount: int, e: nat)
    requires amount > 0 && FirstEmpty(c) == Some(e)
    ensures Fill(c, item, amount) == Fill(c[e := Some(Cell(item, Min(amount, item.maxStackSize), e))], item, amount - Min(amount, item.maxStackSize))
  {
  }

  /** With no empty position the second AddItem loop stops. */
  lemma FillStops(c: Cells, item: Item, amount: int)
    requires FirstEmpty(c).None?
    ensures Fill(c, item, amount) == c
  {
  }

  /** Fill keeps SlotIndex equal to the position, and its new slots hold at most MaxStackSize. */
  lemma {:induction false} FillKeeps(c: Cells, item: Item, amount: int)
    requires IndexCoherent(c) && Bounded(c)
    ensures IndexCoherent(Fill(c, item, amount)) && Bounded(Fill(c, item, amount))
    decreases if amount > 0 then amount else 0
  {
    if amount > 0 {
      match FirstEmpty(c)
      case None =>
      case Some(e) =>
        var put := Min(amount, item.maxStackSize);
        FillKeeps(c[e := Some(Cell(item, put, e))], item, amount - put);
    }
  }

  /** AddItem keeps the slot count, the SlotIndex invariant and the stack bound. */
  lemma AddKeepsInvariants(c: Cells, item: Item, amount: int)
    requires IndexCoherent(c) && Bounded(c)
    ensures |AddSpec(c, item, amount)| == |c|
    ensures IndexCoherent(AddSpec(c, item, amount)) && Bounded(AddSpec(c, item, amount))
  {
    var (c', rest) := TopUp(c, item, amount, 0);
    TopUpFacts(c, item, amount, 0);
    TopUpKeeps(c, item, amount, 0);
    FillKeeps(c', item, rest);
    FillShape(c', item, rest);
  }

  /**
   * AddItem with a non-negative amount adds at most `amount` in total, and
   * exactly `amount` when the empty positions alone could take it; slots
   * holding other items are never touched.
   */
  lemma AddCountsQuantity(c: Cells, item: Item, amount: int)
    requires amount >= 0
    ensures |AddSpec(c, item, amount)| == |c|
    ensures QtySum(AddSpec(c, item, amount)) <= QtySum(c) + amount
    ensures Bounded(c) && EmptyCount(c) * item.maxStackSize >= amount ==> QtySum(AddSpec(c, item, amount)) == QtySum(c) + amount
    ensures forall k :: 0 <= k < |c| && c[k].Some? && c[k].value.item.itemID != item.itemID ==> AddSpec(c, item, amount)[k] == c[k]
  {
    var (c', rest) := TopUp(c, item, amount, 0);
    TopUpFacts(c, item, amount, 0);
    FillShape(c', item, rest);
    FillQuantity(c', item, rest);
  }

  // ---------------------------------------------------------------- InsertItem

  /** InsertItem never overwrites an occupied slot, and keeps the SlotIndex invariant. */
  lemma InsertNeverOverwrites(c: Cells, item: Item, targetIndex: int, amount: int)
    ensures |InsertSpec(c, item, targetIndex, amount)| == |c|
    ensures forall k :: 0 <= k < |c| && c[k].Some? ==> InsertSpec(c, item, targetIndex, amount)[k] == c[k]
    ensures IndexCoherent(c) ==> IndexCoherent(InsertSpec(c, item, targetIndex, amount))
    ensures 0 <= targetIndex < |c| && c[targetIndex].None? ==> InsertSpec(c, item, targetIndex, amount)[targetIndex] == Some(Cell(item, amount, targetIndex))
  {
  }

  // ---------------------------------------------------------------- Remove / Use

  /** Decrementing takes away min(held, quantity) and keeps the invariants. */
  lemma DecrementCounts(c: Cells, k: nat, quantity: int)
    requires k < |c| && c[k].Some?
    ensures |DecrementAt(c, k, quantity)| == |c|
    ensures QtySum(DecrementAt(c, k, quantity)) == QtySum(c) - Min(c[k].value.quantity, quantity)
    ensures forall j :: 0 <= j < |c| && j != k ==> DecrementAt(c, k, quantity)[j] == c[j]
    ensures IndexCoherent(c) ==> IndexCoherent(DecrementAt(c, k, quantity))
    ensures quantity >= 0 && Bounded(c) ==> Bounded(DecrementAt(c, k, quantity))
  {
    var s := c[k].value;
    if s.quantity - quantity <= 0 {
      QtySumUpdate(c, k, None);
    } else {
      QtySumUpdate(c, k, Some(s.(quantity := s.quantity - quantity)));
    }
  }

  /** RemoveItem by ItemID acts on the lowest slot with that ItemID, or changes nothing if there is none. */
  lemma RemoveCounts(c: Cells, id: int, quantity: int)
    ensures FirstWithId(c, id).None? ==> RemoveSpec(c, id, quantity) == c
    ensures FirstWithId(c, id).Some? ==>
      var k := FirstWithId(c, id).value;
      QtySum(RemoveSpec(c, id, quantity)) == QtySum(c) - Min(c[k].value.quantity, quantity)
      && forall j :: 0 <= j < |c| && j != k ==> RemoveSpec(c, id, quantity)[j] == c[j]
  {
    if FirstWithId(c, id).Some? {
      DecrementCounts(c, FirstWithId(c, id).value, quantity);
    }
  }

  // ---------------------------------------------------------------- MoveItem

  /** Items with the same ItemID have the same MaxStackSize (they are the same asset). */
  predicate ConsistentItems(c: Cells)
  {
    forall i, j :: 0 <= i < |c| && 0 <= j < |c| && c[i].Some? && c[j].Some? && c[i].value.item.itemID == c[j].value.item.itemID
      ==> c[i].value.item.maxStackSize == c[j].value.item.maxStackSize
  }

  lemma SwapReindexFacts(c: Cells, f: nat, t: nat)
    requires f < |c| && t < |c|
    ensures |SwapReindex(c, f, t)| == |c|
    ensures QtySum(SwapReindex(c, f, t)) == QtySum(c)
    ensures IndexCoherent(c) ==> IndexCoherent(SwapReindex(c, f, t))
    ensures Bounded(c) ==> Bounded(SwapReindex(c, f, t))
    ensures forall j :: 0 <= j < |c| && j != f && j != t ==> SwapReindex(c, f, t)[j] == c[j]
  {
    var a := c[f];
    var b := c[t];
    var s := c[f := b][t := a];
    QtySumUpdate(c, f, b);
    QtySumUpdate(c[f := b], t, a);
    QtySumUpdate(s, f, Reindex(s[f], f));
    QtySumUpdate(s[f := Reindex(s[f], f)], t, Reindex(s[t], t));
  }

  /** Swapping a position with itself changes nothing in a coherent list. */
  lemma SwapReindexSame(c: Cells, f: nat)
    requires f < |c| && IndexCoherent(c)
    ensures SwapReindex(c, f, f) == c
  {
  }

  /** For two distinct positions the swap is two writes of the reindexed slots. */
  lemma SwapReindexParts(c: Cells, f: nat, t: nat)
    requires f < |c| && t < |c| && f != t
    ensures SwapReindex(c, f, t) == c[f := None][t := None][f := Reindex(c[t], f)][t := Reindex(c[f], t)]
  {
  }

  /** MoveItem keeps the slot count, touches only the two positions, and always leaves the target occupied. */
  lemma MoveShape(c: Cells, f: nat, t: nat)
    requires f < |c| && t < |c| && c[f].Some?
    ensures |MoveSpec(c, f, t)| == |c|
    ensures MoveSpec(c, f, t)[t].Some?
    ensures forall j :: 0 <= j < |c| && j != f && j != t ==> MoveSpec(c, f, t)[j] == c[j]
  {
  }

  /** The merge branch of MoveItem: the target gains what the source loses. */
  lemma MergeConserves(c: Cells, f: nat, t: nat, amountToMove: int)
    requires f < |c| && t < |c| && c[f].Some? && c[t].Some?
    requires 0 < amountToMove <= c[f].value.quantity
    ensures QtySum(Merge(c, f, t, amountToMove)) == QtySum(c)
  {
    var c1 := c[t := Some(c[t].value.(quantity := c[t].value.quantity + amountToMove))];
    var c2 := c1[f := Some(c1[f].value.(quantity := c1[f].value.quantity - amountToMove))];
    if f == t {
      assert c2 == c;
    } else {
      var q1 := QtySum(c1);
      var q2 := QtySum(c2);
      QtySumUpdate(c, t, c1[t]);
      assert q1 == QtySum(c) + amountToMove;
      QtySumUpdate(c1, f, c2[f]);
      assert q2 == q1 - amountToMove;
      if c2[f].value.quantity <= 0 {
        QtySumUpdate(c2, f, None);
      }
    }
  }

  /** MoveItem conserves the total quantity. */
  lemma MoveConserves(c: Cells, f: nat, t: nat)
    requires f < |c| && t < |c| && c[f].Some?
    ensures QtySum(MoveSpec(c, f, t)) == QtySum(c)
  {
    var r := MoveSpec(c, f, t);
    var from := c[f].value;
    if c[t].Some? && from.item.itemID == c[t].value.item.itemID && from.item.maxStackSize > 1 {
      var to := c[t].value;
      var amountToMove := Min(from.item.maxStackSize - to.quantity, from.quantity);
      if amountToMove > 0 {
        MergeConserves(c, f, t, amountToMove);
      } else if from.quantity != to.quantity {
        SwapReindexFacts(c, f, t);
      }
    } else if c[t].None? || from.item.itemID != c[t].value.item.itemID {
      SwapReindexFacts(c, f, t);
    }
  }

  /** MoveItem keeps the SlotIndex invariant, and the stack bound when same-id items agree on their stack size. */
  lemma MoveKeepsInvariants(c: Cells, f: nat, t: nat)
    requires f < |c| && t < |c| && c[f].Some?
    requires IndexCoherent(c)
    ensures IndexCoherent(MoveSpec(c, f, t))
    ensures Bounded(c) && ConsistentItems(c) ==> Bounded(MoveSpec(c, f, t))
  {
    var from := c[f].value;
    if c[t].Some? && from.item.itemID == c[t].value.item.itemID && from.item.maxStackSize > 1 {
      var to := c[t].value;
      var amountToMove := Min(from.item.maxStackSize - to.quantity, from.quantity);
      if amountToMove <= 0 && from.quantity != to.quantity {
        SwapReindexFacts(c, f, t);
      }
    } else if c[t].None? || from.item.itemID != c[t].value.item.itemID {
      SwapReindexFacts(c, f, t);
    }
  }

  // ---------------------------------------------------------------- Lock / Unlock

  /** LockItem / UnlockItem change only IsLocked of the lowest slot with that ItemID. */
  lemma SetLockFacts(c: Cells, id: int, locked: bool)
    ensures |SetLockSpec(c, id, locked)| == |c|
    ensures FirstWithId(c, id).None? ==> SetLockSpec(c, id, locked) == c
    ensures FirstWithId(c, id).Some? ==>
      var k := FirstWithId(c, id).value;
      && SetLockSpec(c, id, locked)[k].Some?
      && SetLockSpec(c, id, locked)[k].value.item.isLocked == locked
      && SetLockSpec(c, id, locked)[k].value.quantity == c[k].value.quantity
      && SetLockSpec(c, id, locked)[k].value.item.itemID == id
      && forall j :: 0 <= j < |c| && j != k ==> SetLockSpec(c, id, locked)[j] == c[j]
    ensures FirstWithId(SetLockSpec(c, id, locked), id) == FirstWithId(c, id)
    ensures QtySum(SetLockSpec(c, id, locked)) == QtySum(c)
  {
    var r := SetLockSpec(c, id, locked);
    match FirstWithId(c, id)
    case None =>
    case Some(k) =>
      QtySumUpdate(c, k, r[k]);
      assert forall j :: 0 <= j < |c| ==> (HasId(r[j], id) <==> HasId(c[j], id));
      FirstWithIdSame(c, r, id);
  }

  lemma {:induction false} FirstWithIdSame(c: Cells, d: Cells, id: int)
    requires |c| == |d|
    requires forall j :: 0 <= j < |c| ==> (HasId(d[j], id) <==> HasId(c[j], id))
    ensures FirstWithId(d, id) == FirstWithId(c, id)
    decreases |c|
  {
    if c != [] && !HasId(c[0], id) {
      FirstWithIdSame(c[1..], d[1..], id);
    }
  }

  /** Locking then unlocking an item that was unlocked restores the inventory. */
  lemma LockUnlockRoundTrip(c: Cells, id: int)
    requires FirstWithId(c, id).Some? && !c[FirstWithId(c, id).value].value.item.isLocked
    ensures SetLockSpec(SetLockSpec(c, id, true), id, false) == c
  {
    SetLockFacts(c, id, true);
    var k := FirstWithId(c, id).value;
    var c1 := SetLockSpec(c, id, true);
    SetLockFacts(c1, id, false);
    var c2 := SetLockSpec(c1, id, false);
    assert c2[k] == c[k];
  }

  // ---------------------------------------------------------------- UnlockRandomItem

  /** One step of the UnlockRandomItem scan: the next index, and it is back at the start exactly after n steps. */
  lemma CyclicNext(start: nat, j: nat, n: nat)
    requires start < n && j < n
    ensures (CyclicPos(start, j, n) + 1) % n == if j + 1 < n then CyclicPos(start, j + 1, n) else start
    ensures j + 1 < n ==> CyclicPos(start, j + 1, n) != start
  {
  }

  /** A step that meets a locked slot ends the scan there; one that does not goes on. */
  lemma CyclicStep(c: Cells, start: nat, j: nat)
    requires start < |c| && j < |c|
    ensures IsLockedAt(c[CyclicPos(start, j, |c|)]) ==> CyclicFirstLocked(c, start, j) == Some(CyclicPos(start, j, |c|))
    ensures !IsLockedAt(c[CyclicPos(start, j, |c|)]) ==> CyclicFirstLocked(c, start, j) == CyclicFirstLocked(c, start, j + 1)
    ensures j + 1 == |c| && !IsLockedAt(c[CyclicPos(start, j, |c|)]) ==> CyclicFirstLocked(c, start, j) == None
  {
  }

  /** From step j on, the scan finds nothing exactly when no later step reaches a locked slot. */
  lemma {:induction false} CyclicNone(c: Cells, start: nat, j: nat)
    requires start < |c|
    ensures CyclicFirstLocked(c, start, j).None? <==>
      forall m :: j <= m < |c| ==> !IsLockedAt(c[CyclicPos(start, m, |c|)])
    decreases |c| - j
  {
    if j < |c| {
      CyclicNone(c, start, j + 1);
    }
  }

  /** What the scan finds is reached at some step m, and no step before m reaches a locked slot. */
  lemma {:induction false} CyclicFirst(c: Cells, start: nat, j: nat)
    requires start < |c|
    requires CyclicFirstLocked(c, start, j).Some?
    ensures exists m ::
              && j <= m < |c|
              && CyclicFirstLocked(c, start, j).value == CyclicPos(start, m, |c|)
              && (forall m' :: j <= m' < m ==> !IsLockedAt(c[CyclicPos(start, m', |c|)]))
    decreases |c| - j
  {
    if IsLockedAt(c[CyclicPos(start, j, |c|)]) {
      assert CyclicFirstLocked(c, start, j).value == CyclicPos(start, j, |c|);
    } else {
      CyclicFirst(c, start, j + 1);
      var m :| j + 1 <= m < |c| && CyclicFirstLocked(c, start, j + 1).value == CyclicPos(start, m, |c|)
        && forall m' :: j + 1 <= m' < m ==> !IsLockedAt(c[CyclicPos(start, m', |c|)]);
      assert forall m' :: j <= m' < m ==> !IsLockedAt(c[CyclicPos(start, m', |c|)]);
    }
  }

  /** Every position is reached by the cyclic scan: at step i - start, or i + n - start. */
  lemma CyclicCovers(n: nat, start: nat, i: nat)
    requires start < n && i < n
    ensures var m := if i >= start then i - start else i + n - start; m < n && CyclicPos(start, m, n) == i
  {
  }

  /**
   * UnlockRandomItem unlocks exactly one locked slot when there is one, the
   * start slot itself when it is locked, and changes nothing otherwise.
   */
  lemma UnlockRandomEffect(c: Cells, start: nat)
    requires |c| > 0 ==> start < |c|
    ensures (forall i :: 0 <= i < |c| ==> !IsLockedAt(c[i])) ==> UnlockRandomSpec(c, start) == c
    ensures (exists i :: 0 <= i < |c| && IsLockedAt(c[i])) ==>
      (exists k :: 0 <= k < |c| && IsLockedAt(c[k])
        && UnlockRandomSpec(c, start) == c[k := Some(c[k].value.(item := c[k].value.item.(isLocked := false)))])
    ensures |c| > 0 && IsLockedAt(c[start]) ==>
      UnlockRandomSpec(c, start) == c[start := Some(c[start].value.(item := c[start].value.item.(isLocked := false)))]
  {
    if |c| > 0 {
      CyclicNone(c, start, 0);
      if exists i :: 0 <= i < |c| && IsLockedAt(c[i]) {
        var i :| 0 <= i < |c| && IsLockedAt(c[i]);
        CyclicCovers(|c|, start, i);
        var m := if i >= start then i - start else i + |c| - start;
        assert IsLockedAt(c[CyclicPos(start, m, |c|)]);
      }
      if IsLockedAt(c[start]) {
        assert CyclicPos(start, 0, |c|) == start;
      }
    }
  }

  // ---------------------------------------------------------------- save and load

  function Somes(s: seq<Cell>): (r: seq<Option<Cell>>)
    ensures |r| == |s| && forall i :: 0 <= i < |s| ==> r[i] == Some(s[i])
  {
    seq(|s|, i requires 0 <= i < |s| => Some(s[i]))
  }

  lemma ExtractAppend(c: Cells, saved: seq<Option<Cell>>, x: Option<Cell>)
    ensures ExtractSpec(c, saved + [x]) ==
      match x
      case None => ExtractSpec(c, saved)
      case Some(s) => InsertSpec(ExtractSpec(c, saved), s.item, s.slotIndex, s.quantity)
  {
    assert (saved + [x])[..|saved + [x]| - 1] == saved;
  }

  /** Loading the first k saved slots into an empty inventory rebuilds the first k positions. */
  lemma {:induction false} ExtractOccupiedPrefix(v: Cells, k: nat)
    requires k <= |v| && IndexCoherent(v)
    ensures ExtractSpec(Empty(|v|), Somes(Occupied(v[..k]))) == v[..k] + Empty(|v| - k)
    decreases k
  {
    var n := |v|;
    if k == 0 {
      assert Occupied(v[..0]) == [];
      assert Somes([]) == [];
      assert v[..0] + Empty(n) == Empty(n);
    } else {
      ExtractOccupiedPrefix(v, k - 1);
      var p := v[..k - 1];
      assert v[..k][..k - 1] == p;
      if v[k - 1].Some? {
        assert Occupied(v[..k]) == Occupied(p) + [v[k - 1].value];
        assert Somes(Occupied(v[..k])) == Somes(Occupied(p)) + [Some(v[k - 1].value)];
        ExtractAppend(Empty(n), Somes(Occupied(p)), Some(v[k - 1].value));
        PrefixInsertStep(v, k);
      } else {
        assert Occupied(v[..k]) == Occupied(p);
        PrefixEmptyStep(v, k);
      }
    }
  }

  /** The occupied position k - 1 inserted into the first k - 1 positions followed by empty ones. */
  lemma PrefixInsertStep(v: Cells, k: nat)
    requires 0 < k <= |v| && IndexCoherent(v) && v[k - 1].Some?
    ensures var s := v[k - 1].value;
      InsertSpec(v[..k - 1] + Empty(|v| - (k - 1)), s.item, s.slotIndex, s.quantity) == v[..k] + Empty(|v| - k)
  {
    var n := |v|;
    var s := v[k - 1].value;
    var before := v[..k - 1] + Empty(n - (k - 1));
    assert s.slotIndex == k - 1;
    assert before[k - 1] == None;
    assert before[k - 1 := Some(s)] == v[..k] + Empty(n - k);
  }

  /** An empty position k - 1 extends the rebuilt prefix by itself. */
  lemma PrefixEmptyStep(v: Cells, k: nat)
    requires 0 < k <= |v| && v[k - 1].None?
    ensures v[..k - 1] + Empty(|v| - (k - 1)) == v[..k] + Empty(|v| - k)
  {
  }

  /** Saving the occupied slots and loading them into an empty inventory of the same size gives back the inventory. */
  lemma SaveLoadRoundTrip(v: Cells)
    requires IndexCoherent(v)
    ensures ExtractSpec(Empty(|v|), Somes(Occupied(v))) == v
  {
    ExtractOccupiedPrefix(v, |v|);
    assert v[..|v|] == v;
    assert v + Empty(0) == v;
  }
}

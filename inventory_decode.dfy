/**
 * BogInventoryData.Decode, and the save code's path from an inventory to its
 * saved form and back: saving the occupied slots and decoding them into an
 * empty inventory of the same size rebuilds the inventory.
 */
module BogInventoryDecode {
  import opened Wrappers
  import opened BogInventorySpec
  import opened BogInventoryLemmas
  import opened BogSlot
  import opened BogInventorySave
  import opened BogInventory

  /** Which of Decode's three exits was taken (the first two log a warning). */
  datatype DecodeResult = NoInventoryData | NoInventoryManager | Decoded

  /** The manager Decode writes to: the one passed in, else the one found in the scene. */
  function Target(bogInventoryManager: BogInventoryBase?, found: BogInventoryBase?): (r: BogInventoryBase?)
    ensures bogInventoryManager != null ==> r == bogInventoryManager
    ensures bogInventoryManager == null ==> r == found
  {
    if bogInventoryManager != null then bogInventoryManager else found
  }

  /**
   * Decode: no data, or no manager either given or found, and nothing
   * happens; otherwise the manager extracts the data. `found` stands for the
   * scene search, consulted only when no manager is given.
   */
  method Decode(inventoryData: Option<BogInventoryData>, bogInventoryManager: BogInventoryBase?, found: BogInventoryBase?)
    returns (r: DecodeResult)
    requires Target(bogInventoryManager, found) != null ==> Target(bogInventoryManager, found).Valid()
    modifies if Target(bogInventoryManager, found) != null then {Target(bogInventoryManager, found).items} else {}
    ensures inventoryData.None? ==> r == NoInventoryData
    ensures inventoryData.Some? && Target(bogInventoryManager, found) == null ==> r == NoInventoryManager
    ensures inventoryData.Some? && Target(bogInventoryManager, found) != null ==>
      var m := Target(bogInventoryManager, found);
      && r == Decoded && m.Valid() && m.items == old(m.items)
      && m.View() == ExtractSpec(old(m.View()), Saved(inventoryData.value))
  {
    if inventoryData.None? {
      return NoInventoryData;
    }
    var manager := bogInventoryManager;
    if manager == null {
      manager := found;
    }
    if manager == null {
      return NoInventoryManager;
    }
    manager.ExtractSerialisedBogInventoryData(inventoryData);
    return Decoded;
  }

  /** The save code's filter: the non-null slots of the inventory, in position order. */
  method OccupiedSlots(inv: BogInventoryBase) returns (s: seq<BogInventorySlot>)
    requires inv.Valid()
    ensures (set x | x in s) <= inv.Slots()
    ensures SlotCells(s) == Somes(Occupied(inv.View()))
  {
    ghost var v := inv.View();
    s := [];
    var i := 0;
    while i < inv.items.Length
      invariant 0 <= i <= inv.items.Length
      invariant (set x | x in s) <= inv.Slots()
      invariant SlotCells(s) == Somes(Occupied(v[..i]))
    {
      assert v[..i + 1][..i] == v[..i];
      var slot := inv.items[i];
      if slot != null {
        assert SlotCells(s + [slot]) == SlotCells(s) + [v[i]];
        s := s + [slot];
      }
      i := i + 1;
    }
    assert v[..inv.items.Length] == v;
  }

  /**
   * Save then load: encode the occupied slots of `source` and decode them
   * into a new, empty inventory of the same size; the result holds exactly
   * what `source` holds.
   */
  method SaveThenLoad(source: BogInventoryBase) returns (target: BogInventoryBase)
    requires source.Valid()
    ensures fresh(target) && target.Valid()
    ensures target.View() == source.View()
  {
    ghost var v := source.View();
    source.ValidCoherent();
    SaveLoadRoundTrip(v);
    var s := OccupiedSlots(source);
    var data := Encode(s);
    EncodedHolds(s, data);
    assert Saved(data) == Somes(Occupied(v));
    target := new BogInventoryBase(source.inventoryWidth, source.inventoryHeight);
    assert target.View() == Empty(|v|);
    target.ExtractSerialisedBogInventoryData(Some(data));
    assert target.View() == v;
    assert source.View() == v;
  }
}

/**
 * BogInventoryData: the save-file form of an inventory, an array of wrapped
 * slot references, and its Encode.
 */
module BogInventorySave {
  import opened Wrappers
  import opened BogInventorySpec
  import opened BogSlot

  /** SerialisedBogInventoryItem: one saved slot. */
  datatype SerialisedBogInventoryItem = SerialisedBogInventoryItem(bogInventoryItem: BogInventorySlot)

  /** BogInventoryData: the saved slots; an entry may be null. */
  datatype BogInventoryData = BogInventoryData(inventoryItems: seq<Option<SerialisedBogInventoryItem>>)

  /** The slot objects a saved inventory refers to. */
  ghost function Refs(d: BogInventoryData): set<BogInventorySlot>
  {
    set i | 0 <= i < |d.inventoryItems| && d.inventoryItems[i].Some? :: d.inventoryItems[i].value.bogInventoryItem
  }

  /** What the saved entries hold, as cells (a null entry is None). */
  ghost function Saved(d: BogInventoryData): (r: seq<Option<Cell>>)
    reads Refs(d)
    ensures |r| == |d.inventoryItems|
  {
    seq(|d.inventoryItems|, i reads Refs(d) requires 0 <= i < |d.inventoryItems| =>
      if d.inventoryItems[i].Some? then CellOf(d.inventoryItems[i].value.bogInventoryItem) else None)
  }

  /** What a list of slot objects holds, as cells. */
  ghost function SlotCells(s: seq<BogInventorySlot>): (r: seq<Option<Cell>>)
    reads set x | x in s
    ensures |r| == |s|
  {
    seq(|s|, i reads set x | x in s requires 0 <= i < |s| => CellOf(s[i]))
  }

  /** Encode: one wrapper per slot, in list order, referring to that very slot. */
  method Encode(currentInventoryItems: seq<BogInventorySlot>) returns (inventoryData: BogInventoryData)
    ensures |inventoryData.inventoryItems| == |currentInventoryItems|
    ensures forall i :: 0 <= i < |currentInventoryItems| ==>
      inventoryData.inventoryItems[i] == Some(SerialisedBogInventoryItem(currentInventoryItems[i]))
  {
    var a := new Option<SerialisedBogInventoryItem>[|currentInventoryItems|](_ => None);
    for i := 0 to |currentInventoryItems|
      invariant forall j :: 0 <= j < i ==> a[j] == Some(SerialisedBogInventoryItem(currentInventoryItems[j]))
    {
      a[i] := Some(SerialisedBogInventoryItem(currentInventoryItems[i]));
    }
    inventoryData := BogInventoryData(a[..]);
  }

  /** The saved form of a list of slots holds exactly what the slots hold. */
  lemma EncodedHolds(s: seq<BogInventorySlot>, d: BogInventoryData)
    requires |d.inventoryItems| == |s|
    requires forall i :: 0 <= i < |s| ==> d.inventoryItems[i] == Some(SerialisedBogInventoryItem(s[i]))
    ensures Refs(d) == set x | x in s
    ensures Saved(d) == SlotCells(s)
  {
    forall x | x in s
      ensures x in Refs(d)
    {
      var i :| 0 <= i < |s| && s[i] == x;
      assert d.inventoryItems[i].value.bogInventoryItem == x;
    }
  }
}

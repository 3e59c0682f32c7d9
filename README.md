# LUTE core components in Dafny

LUTE is a Unity toolkit for location-based games and stories. Most of it is
engine glue, but some of its components are small sequential state machines.
This project models those components and proves properties of them:

- **The Bog slot-grid inventory.** A fixed buffer of `width * height`
  nullable slots, each an item, a quantity and a slot index.
  - `BogInventorySpec` describes every inventory operation as a function on
    the list of slot contents.
  - The class `BogInventory.BogInventoryBase` edits a real array of slot
    objects, and each of its methods is proved to match the spec.
  - `BogInventorySave` and `BogInventoryDecode` model the save form:
    `Encode`, `Decode` and the round trip.
- **The dependency helper window** of the editor.
  - `VersionCompare` covers the `'.'` split, `int.Parse` and `CompareVersions`.
  - `DependencyHelper` covers the package and sample status maps and the
    "check in progress" flag.
- **The flow-control orders.** `ForLoopOrder`, `ForEachOrder` and
  `LogicBreakOrder`, with `WhileLoop` as a looping condition.
- **The listener registries.**
  - `ListenerLists` holds the list operations they share.
  - `GameEvents` holds `GameEvent`, `InterfaceGameEvent` and
    `GameEventHandler`.
- **The popup icon's button allocator** (`PopupIcons`) and the order that
  removes buttons from it (`RemovePopupButtonOrder`).
- **The map manager's marker registry** (`MapMarkers`).
- **Small rules:**
  - the location click handler's flags and gating (`LocationClick`);
  - the time-of-day variable (`UTimes`);
  - the editor's mock location list (`LocationArrayProvider`);
  - the "Use Logs" scripting define toggle (`LogaPreferences`);
  - the XR object dictionary (`XRObjects`);
  - the location display options (`DisplayOptions`).

Some external facts are inputs to the model rather than computed in it:

- the random start index of `UnlockRandomItem`;
- the clock's time of day;
- whether a location is "met" (a radius check done elsewhere);
- the package manager's list request and the set of sample directories that
  exist;
- the scene search for an inventory manager;
- the current editor toggle value.

Several conventions apply throughout:

- `null` is `Option.None`.
- A C# exception is an `Outcome.Fail` carrying the exception's name.
- A Unity object is a Dafny object or a value, depending on whether the
  source changes it in place.

## Model

| member | source | states |
|---|---|---|
| BogInventory.BogInventoryBase.constructor | Assets/LUTE/ThirdPartyAssets/BogGames/Bog_Inventory/Scripts/Core/BogInventoryBase.cs:34-37 | Awake creates a fresh buffer of width * height empty positions, and no slot is selected. |
| BogInventory.BogInventoryBase.ValidCoherent | Assets/LUTE/ThirdPartyAssets/BogGames/Bog_Inventory/Scripts/Core/BogInventoryBase.cs:160 | In a valid inventory, every occupied position i holds a slot whose SlotIndex is i. |
| BogInventory.BogInventoryBase.AddItem | Assets/LUTE/ThirdPartyAssets/BogGames/Bog_Inventory/Scripts/Core/BogInventoryBase.cs:48-92 | The buffer object stays the same, the invariant is kept, and the new contents are AddSpec of the old: top up matching stacks, then fill the lowest empty positions. |
| BogInventory.BogInventoryBase.AddOneItem | Assets/LUTE/ThirdPartyAssets/BogGames/Bog_Inventory/Scripts/Core/BogInventoryBase.cs:94-139 | The one-argument AddItem has the same effect as AddItem with amount 1. |
| BogInventory.BogInventoryBase.TopUpStacks | Assets/LUTE/ThirdPartyAssets/BogGames/Bog_Inventory/Scripts/Core/BogInventoryBase.cs:51-70 | The first loop: the new contents and the amount left over are exactly TopUp of the old contents. |
| BogInventory.BogInventoryBase.FillEmpty | Assets/LUTE/ThirdPartyAssets/BogGames/Bog_Inventory/Scripts/Core/BogInventoryBase.cs:73-87 | The second loop: the new contents are Fill of the old. It stops as soon as no position is empty. |
| BogInventory.BogInventoryBase.FindEmpty | Assets/LUTE/ThirdPartyAssets/BogGames/Bog_Inventory/Scripts/Core/BogInventoryBase.cs:75 | FindIndex(slot == null) returns -1 iff no position is empty, and otherwise the lowest empty position. |
| BogInventory.BogInventoryBase.FindWithId | Assets/LUTE/ThirdPartyAssets/BogGames/Bog_Inventory/Scripts/Core/BogInventoryBase.cs:192 | FindIndex by ItemID returns -1 iff no slot has the id, and otherwise the lowest position that has it. |
| BogInventory.BogInventoryBase.InsertItem | Assets/LUTE/ThirdPartyAssets/BogGames/Bog_Inventory/Scripts/Core/BogInventoryBase.cs:141-164 | The new contents are InsertSpec of the old: unchanged for an index out of range or occupied, otherwise a new slot at exactly that index. |
| BogInventory.BogInventoryBase.RemoveSelected | Assets/LUTE/ThirdPartyAssets/BogGames/Bog_Inventory/Scripts/Core/BogInventoryBase.cs:166-186 | RemoveItem(item, quantity) decrements the selected slot only when it holds the item's id, and empties it at 0 or less. |
| BogInventory.BogInventoryBase.RemoveItem | Assets/LUTE/ThirdPartyAssets/BogGames/Bog_Inventory/Scripts/Core/BogInventoryBase.cs:188-211 | The lowest slot with the id loses 1 and empties at 0 or less. Nothing changes without such a slot. |
| BogInventory.BogInventoryBase.RemoveItemEditor | Assets/LUTE/ThirdPartyAssets/BogGames/Bog_Inventory/Scripts/Core/BogInventoryBase.cs:213-234 | As RemoveItem, but decrementing by the given quantity. |
| BogInventory.BogInventoryBase.UseItem | Assets/LUTE/ThirdPartyAssets/BogGames/Bog_Inventory/Scripts/Core/BogInventoryBase.cs:236-249 | An occupied index loses 1 and empties at 0 or less. Nothing else changes. |
| BogInventory.BogInventoryBase.SwapSlots | Assets/LUTE/ThirdPartyAssets/BogGames/Bog_Inventory/Scripts/Core/BogInventoryBase.cs:279-283 | The two positions exchange their slots and each slot's SlotIndex becomes its new position (SwapReindex). |
| BogInventory.BogInventoryBase.MergeSlots | Assets/LUTE/ThirdPartyAssets/BogGames/Bog_Inventory/Scripts/Core/BogInventoryBase.cs:265-275 | The target gains amountToMove and the source loses it. The source empties at 0 or less (Merge). |
| BogInventory.BogInventoryBase.MoveItem | Assets/LUTE/ThirdPartyAssets/BogGames/Bog_Inventory/Scripts/Core/BogInventoryBase.cs:251-301 | Bad indices or an empty source change nothing, including the selection. Otherwise the contents become MoveSpec (merge or swap) and SelectedItemIndex becomes toIndex. |
| BogInventory.BogInventoryBase.UnlockItem | Assets/LUTE/ThirdPartyAssets/BogGames/Bog_Inventory/Scripts/Core/BogInventoryBase.cs:303-320 | The lowest slot with the id is unlocked, and nothing else changes. |
| BogInventory.BogInventoryBase.LockItem | Assets/LUTE/ThirdPartyAssets/BogGames/Bog_Inventory/Scripts/Core/BogInventoryBase.cs:322-339 | The lowest slot with the id is locked, and nothing else changes. |
| BogInventory.BogInventoryBase.InventoryContains | Assets/LUTE/ThirdPartyAssets/BogGames/Bog_Inventory/Scripts/Core/BogInventoryBase.cs:341-353 | The result is true iff some position holds a slot with the item's id. |
| BogInventory.BogInventoryBase.UnlockRandomItem | Assets/LUTE/ThirdPartyAssets/BogGames/Bog_Inventory/Scripts/Core/BogInventoryBase.cs:355-379 | The contents become UnlockRandomSpec: the cyclic scan from the given start unlocks the first locked item it meets. |
| BogInventory.BogInventoryBase.ExtractSerialisedBogInventoryData | Assets/LUTE/ThirdPartyAssets/BogGames/Bog_Inventory/Scripts/Core/BogInventoryBase.cs:423-437 | Null data changes nothing. Otherwise each saved entry is inserted in order at its SlotIndex with its Quantity (ExtractSpec). |
| BogInventory.BogInventoryBase.ResetInventory | Assets/LUTE/ThirdPartyAssets/BogGames/Bog_Inventory/Scripts/Core/BogInventoryBase.cs:407-417 | In play mode a fresh all-empty buffer of width * height replaces the old one. Outside play mode nothing changes. |
| BogInventorySpec.FirstEmpty | Assets/LUTE/ThirdPartyAssets/BogGames/Bog_Inventory/Scripts/Core/BogInventoryBase.cs:75 | The position found is empty and every earlier one is occupied. None means that all positions are occupied. |
| BogInventorySpec.FirstWithId | Assets/LUTE/ThirdPartyAssets/BogGames/Bog_Inventory/Scripts/Core/BogInventoryBase.cs:192 | The position found has the id and no earlier one does. None means that no position has it. |
| BogInventorySpec.CyclicPos | Assets/LUTE/ThirdPartyAssets/BogGames/Bog_Inventory/Scripts/Core/BogInventoryBase.cs:367-376 | Step j of the scan visits position (start + j) mod n. |
| BogInventorySpec.Occupied | Assets/LUTE/Scripts/Comps/SaveSystem/SaveData.cs:67 | The occupied slots in position order, never more than the positions. |
| BogInventoryLemmas.TopUpFacts | Assets/LUTE/ThirdPartyAssets/BogGames/Bog_Inventory/Scripts/Core/BogInventoryBase.cs:51-70 | Topping up changes only stackable slots with the item's id and never fills or empties a position. Quantity plus the amount left over is conserved, and the leftover lies between 0 and the amount. |
| BogInventoryLemmas.TopUpKeeps | Assets/LUTE/ThirdPartyAssets/BogGames/Bog_Inventory/Scripts/Core/BogInventoryBase.cs:55-62 | Topping up keeps SlotIndex equal to position and no slot above its MaxStackSize. |
| BogInventoryLemmas.FillShape | Assets/LUTE/ThirdPartyAssets/BogGames/Bog_Inventory/Scripts/Core/BogInventoryBase.cs:73-87 | Filling keeps the length and never touches an occupied position. |
| BogInventoryLemmas.FillQuantity | Assets/LUTE/ThirdPartyAssets/BogGames/Bog_Inventory/Scripts/Core/BogInventoryBase.cs:73-87 | Filling adds min(amount, empty positions * MaxStackSize) to the total quantity. |
| BogInventoryLemmas.FillKeeps | Assets/LUTE/ThirdPartyAssets/BogGames/Bog_Inventory/Scripts/Core/BogInventoryBase.cs:82-84 | Filling keeps SlotIndex equal to position and no slot above its MaxStackSize. |
| BogInventoryLemmas.AddKeepsInvariants | Assets/LUTE/ThirdPartyAssets/BogGames/Bog_Inventory/Scripts/Core/BogInventoryBase.cs:48-92 | AddItem keeps the length, the SlotIndex-equals-position invariant and the stack bound. |
| BogInventoryLemmas.AddCountsQuantity | Assets/LUTE/ThirdPartyAssets/BogGames/Bog_Inventory/Scripts/Core/BogInventoryBase.cs:48-92 | AddItem adds at most the amount, and exactly the amount when there is room for it. Slots of other items are unchanged. |
| BogInventoryLemmas.InsertNeverOverwrites | Assets/LUTE/ThirdPartyAssets/BogGames/Bog_Inventory/Scripts/Core/BogInventoryBase.cs:146-160 | Insert keeps the length and every occupied position, keeps the index invariant, and fills a free in-range target with exactly (item, amount, index). |
| BogInventoryLemmas.DecrementCounts | Assets/LUTE/ThirdPartyAssets/BogGames/Bog_Inventory/Scripts/Core/BogInventoryBase.cs:243-246 | A decrement removes min(quantity held, quantity) from the total, touches no other position, and keeps both invariants. |
| BogInventoryLemmas.RemoveCounts | Assets/LUTE/ThirdPartyAssets/BogGames/Bog_Inventory/Scripts/Core/BogInventoryBase.cs:213-234 | Removing with no slot of the id is the identity. Otherwise only the lowest such slot changes, and the total drops by min(quantity held, quantity). |
| BogInventoryLemmas.SwapReindexFacts | Assets/LUTE/ThirdPartyAssets/BogGames/Bog_Inventory/Scripts/Core/BogInventoryBase.cs:289-293 | A swap keeps the length and the total quantity, keeps both invariants, and touches only the two positions. |
| BogInventoryLemmas.SwapReindexSame | Assets/LUTE/ThirdPartyAssets/BogGames/Bog_Inventory/Scripts/Core/BogInventoryBase.cs:289-293 | Swapping a position with itself changes nothing. |
| BogInventoryLemmas.MoveShape | Assets/LUTE/ThirdPartyAssets/BogGames/Bog_Inventory/Scripts/Core/BogInventoryBase.cs:251-296 | A move touches only the two positions, and leaves the target occupied, so the item read at line 296 exists. |
| BogInventoryLemmas.MergeConserves | Assets/LUTE/ThirdPartyAssets/BogGames/Bog_Inventory/Scripts/Core/BogInventoryBase.cs:265-275 | A merge of up to the source's quantity conserves the total quantity. |
| BogInventoryLemmas.MoveConserves | Assets/LUTE/ThirdPartyAssets/BogGames/Bog_Inventory/Scripts/Core/BogInventoryBase.cs:251-301 | Every move conserves the total quantity. |
| BogInventoryLemmas.MoveKeepsInvariants | Assets/LUTE/ThirdPartyAssets/BogGames/Bog_Inventory/Scripts/Core/BogInventoryBase.cs:260-294 | A move keeps SlotIndex equal to position. When slots of one id agree on MaxStackSize, it also keeps the stack bound. |
| BogInventoryBounds.InsertBound | Assets/LUTE/ThirdPartyAssets/BogGames/Bog_Inventory/Scripts/Core/BogInventoryBase.cs:146-160 | An insert keeps the stack bound when the amount fits the stack size, and keeps same-id items agreeing on the size when the item agrees. An amount over the stack size put into a free in-range position breaks the bound. |
| BogInventoryBounds.ExtractBound | Assets/LUTE/ThirdPartyAssets/BogGames/Bog_Inventory/Scripts/Core/BogInventoryBase.cs:423-437 | Loading saved entries that each fit their stack size into a bounded list keeps it bounded. |
| BogInventoryBounds.ExtractOverfull | Assets/LUTE/ThirdPartyAssets/BogGames/Bog_Inventory/Scripts/Core/BogInventoryBase.cs:428-436 | A saved entry over its stack size, loaded into an empty position, leaves a slot over its stack size. |
| BogInventoryBounds.TopUpItems | Assets/LUTE/ThirdPartyAssets/BogGames/Bog_Inventory/Scripts/Core/BogInventoryBase.cs:51-62 | The top-up loop never changes which item a position holds. |
| BogInventoryBounds.FillItems | Assets/LUTE/ThirdPartyAssets/BogGames/Bog_Inventory/Scripts/Core/BogInventoryBase.cs:73-87 | The fill loop puts only the added item into the positions it fills. |
| BogInventoryBounds.AddKeepsConsistent | Assets/LUTE/ThirdPartyAssets/BogGames/Bog_Inventory/Scripts/Core/BogInventoryBase.cs:48-92 | Adding an item that agrees with the list on its stack size keeps all same-id items agreeing on it. |
| BogInventoryBounds.SwapKeepsConsistent | Assets/LUTE/ThirdPartyAssets/BogGames/Bog_Inventory/Scripts/Core/BogInventoryBase.cs:279-293 | A swap keeps same-id items agreeing on their stack size. |
| BogInventoryBounds.MoveKeepsConsistent | Assets/LUTE/ThirdPartyAssets/BogGames/Bog_Inventory/Scripts/Core/BogInventoryBase.cs:253-298 | Every move keeps same-id items agreeing on their stack size, so with the index invariant the stack bound holds after every move. |
| BogInventoryBounds.NegativeRemoveOverfills | Assets/LUTE/ThirdPartyAssets/BogGames/Bog_Inventory/Scripts/Core/BogInventoryBase.cs:213-228 | Removing a negative quantity raises the slot instead of lowering it, and can push it past its stack size. |
| BogInventoryLemmas.SetLockFacts | Assets/LUTE/ThirdPartyAssets/BogGames/Bog_Inventory/Scripts/Core/BogInventoryBase.cs:303-339 | Lock or unlock changes only the lock flag of the lowest slot with the id. It keeps its quantity and id and changes nothing when the id is absent. |
| BogInventoryLemmas.LockUnlockRoundTrip | Assets/LUTE/ThirdPartyAssets/BogGames/Bog_Inventory/Scripts/Core/BogInventoryBase.cs:303-339 | Locking an unlocked item and then unlocking it restores the inventory. |
| BogInventoryLemmas.CyclicNone | Assets/LUTE/ThirdPartyAssets/BogGames/Bog_Inventory/Scripts/Core/BogInventoryBase.cs:362-378 | The scan finds nothing iff none of the positions still to visit is locked. |
| BogInventoryLemmas.CyclicFirst | Assets/LUTE/ThirdPartyAssets/BogGames/Bog_Inventory/Scripts/Core/BogInventoryBase.cs:362-378 | What the scan finds is the first locked position in visiting order. |
| BogInventoryLemmas.CyclicCovers | Assets/LUTE/ThirdPartyAssets/BogGames/Bog_Inventory/Scripts/Core/BogInventoryBase.cs:362-378 | Every position is visited at some step below n. |
| BogInventoryLemmas.UnlockRandomEffect | Assets/LUTE/ThirdPartyAssets/BogGames/Bog_Inventory/Scripts/Core/BogInventoryBase.cs:355-379 | With nothing locked, nothing changes. Otherwise exactly one locked slot is unlocked, and it is the start position when that one is locked. |
| BogInventoryLemmas.SaveLoadRoundTrip | Assets/LUTE/ThirdPartyAssets/BogGames/Bog_Inventory/Scripts/Core/BogInventoryData.cs:46-51 | Extracting the occupied slots into an empty list of the same length rebuilds the list. This needs the SlotIndex invariant. |
| BogInventoryLemmas.ExtractOccupiedPrefix | Assets/LUTE/ThirdPartyAssets/BogGames/Bog_Inventory/Scripts/Core/BogInventoryBase.cs:428-436 | Extracting the occupied slots among the first k positions rebuilds those k positions and leaves the rest empty. |
| BogSlot.BogInventorySlot.constructor | Assets/LUTE/ThirdPartyAssets/BogGames/Bog_Inventory/Scripts/Core/BogInventorySlot.cs:22-27 | The slot stores the given item, quantity and slot index unchanged. |
| BogSlot.BogInventorySlot.SetQuantity | Assets/LUTE/ThirdPartyAssets/BogGames/Bog_Inventory/Scripts/Core/BogInventorySlot.cs:19 | Any int is stored, with no validation. Item and index are unchanged. |
| BogSlot.BogInventorySlot.SetSlotIndex | Assets/LUTE/ThirdPartyAssets/BogGames/Bog_Inventory/Scripts/Core/BogInventorySlot.cs:20 | Any int is stored, with no validation. Item and quantity are unchanged. |
| BogInventorySave.Encode | Assets/LUTE/ThirdPartyAssets/BogGames/Bog_Inventory/Scripts/Core/BogInventoryData.cs:42-54 | The array has one entry per given slot, and entry i wraps exactly slot i. |
| BogInventorySave.EncodedHolds | Assets/LUTE/ThirdPartyAssets/BogGames/Bog_Inventory/Scripts/Core/BogInventoryData.cs:20-23 | Encoded data refers to exactly the given slots, and its saved contents are theirs in order. |
| BogInventoryDecode.Decode | Assets/LUTE/ThirdPartyAssets/BogGames/Bog_Inventory/Scripts/Core/BogInventoryData.cs:61-81 | No data means nothing happens. No manager given or found means nothing happens. Otherwise the manager (the one given, else the one found) extracts the data. |
| BogInventoryDecode.OccupiedSlots | Assets/LUTE/Scripts/Comps/SaveSystem/SaveData.cs:67 | The non-null slots of the inventory, in position order, as the save code passes them to Encode. |
| BogInventoryDecode.SaveThenLoad | Assets/LUTE/ThirdPartyAssets/BogGames/Bog_Inventory/Scripts/Core/BogInventoryData.cs:42-81 | Encoding the occupied slots and decoding them into a new empty inventory of the same size gives the same contents at every position. |
| VersionCompare.Split | Assets/LUTE/Editor/Export/DependencyHelperWindow.cs:484 | String.Split('.') yields at least one piece and no piece contains '.'. |
| VersionCompare.SplitJoin | Assets/LUTE/Editor/Export/DependencyHelperWindow.cs:484 | Joining the pieces with '.' gives the string back. |
| VersionCompare.ParseInt | Assets/LUTE/Editor/Export/DependencyHelperWindow.cs:484-485 | int.Parse either fails or yields a value in the 32-bit range. |
| VersionCompare.ParseIntRoundTrip | Assets/LUTE/Editor/Export/DependencyHelperWindow.cs:484-485 | Every 32-bit value written in decimal parses back to itself. |
| VersionCompare.ParseIntRejects | Assets/LUTE/Editor/Export/DependencyHelperWindow.cs:484-485 | A non-digit inside the trimmed text makes the parse fail. |
| VersionCompare.ParseAll | Assets/LUTE/Editor/Export/DependencyHelperWindow.cs:484-485 | Select(int.Parse) succeeds with every piece's value, or fails iff some piece does not parse. |
| VersionCompare.Sign | Assets/LUTE/Editor/Export/DependencyHelperWindow.cs:495 | int.CompareTo: -1, 0 or 1 according to the sign. |
| VersionCompare.ComparePartsLoop | Assets/LUTE/Editor/Export/DependencyHelperWindow.cs:488-495 | The loop with early returns computes CompareParts. |
| VersionCompare.CompareVersions | Assets/LUTE/Editor/Export/DependencyHelperWindow.cs:481-496 | The method computes CompareVersionsSpec: a result in -1..1, and failure iff a component of either version does not parse. |
| VersionCompare.CompareVersionsSpec | Assets/LUTE/Editor/Export/DependencyHelperWindow.cs:481-496 | The result lies in -1..1, and None iff a component of either version does not parse. |
| VersionCompare.CompareFirstDifference | Assets/LUTE/Editor/Export/DependencyHelperWindow.cs:488-492 | At the first differing component the result is 1 or -1, whichever side is larger. |
| VersionCompare.ComparePrefix | Assets/LUTE/Editor/Export/DependencyHelperWindow.cs:495 | When one list is a prefix of the other, the result compares the counts, so 1.0 < 1.0.0. |
| VersionCompare.CompareZeroIffEqual | Assets/LUTE/Editor/Export/DependencyHelperWindow.cs:488-495 | The result is 0 exactly for equal component lists. |
| VersionCompare.CompareAntisymmetric | Assets/LUTE/Editor/Export/DependencyHelperWindow.cs:488-495 | Comparing b with a gives the negation of comparing a with b. |
| VersionCompare.CompareTransitive | Assets/LUTE/Editor/Export/DependencyHelperWindow.cs:488-495 | "At least" is transitive. |
| VersionCompare.CompareVersionsReflexive | Assets/LUTE/Editor/Export/DependencyHelperWindow.cs:481-496 | A parsable version compares equal to itself. |
| DependencyHelper.SampleId | Assets/LUTE/Editor/Export/DependencyHelperWindow.cs:103-109 | The sample key is the package id, a ':' and the sample name. |
| DependencyHelper.InitPackagesFacts | Assets/LUTE/Editor/Export/DependencyHelperWindow.cs:99-102 | Every required package id maps to false, and other keys are untouched. |
| DependencyHelper.InitSamplesOfFacts | Assets/LUTE/Editor/Export/DependencyHelperWindow.cs:103-109 | Every "id:sample" key of the package maps to false, and other keys are untouched. |
| DependencyHelper.InitSamplesFacts | Assets/LUTE/Editor/Export/DependencyHelperWindow.cs:99-109 | Every sample key of every required package maps to false, and other keys are untouched. |
| DependencyHelper.RequiredPackagesDistinct | Assets/LUTE/Editor/Export/DependencyHelperWindow.cs:50-97 | The six required packages have distinct ids. |
| DependencyHelper.FirstNamed | Assets/LUTE/Editor/Export/DependencyHelperWindow.cs:164 | The inner foreach breaks at the first installed entry named id; none when no entry has that name. |
| DependencyHelper.SampleCheck | Assets/LUTE/Editor/Export/DependencyHelperWindow.cs:193-206 | Only the XR Interaction Toolkit has a sample check. Its "Starter Assets" key becomes whether the sample directory exists. |
| DependencyHelper.CheckOneFacts | Assets/LUTE/Editor/Export/DependencyHelperWindow.cs:160-182 | One package either throws or is marked installed iff a same-id entry exists whose version is at least the required one (or none is required). Other package keys are untouched, and samples change only for an installed package. |
| DependencyHelper.CheckAllInstalledIff | Assets/LUTE/Editor/Export/DependencyHelperWindow.cs:158-184 | The loop completes iff no package throws. Then each package's status is whether it is installed, and keys of other packages are untouched. |
| DependencyHelper.DependencyHelperWindow.constructor | Assets/LUTE/Editor/Export/DependencyHelperWindow.cs:14-29 | The window starts with no packages, empty status maps and no check running. |
| DependencyHelper.DependencyHelperWindow.OnEnable | Assets/LUTE/Editor/Export/DependencyHelperWindow.cs:38-48 | The package list and both status maps are initialised, then a check is started unless one is running. |
| DependencyHelper.DependencyHelperWindow.InitializePackageList | Assets/LUTE/Editor/Export/DependencyHelperWindow.cs:50-112 | The six packages are appended, and every package and sample status is set to false. |
| DependencyHelper.DependencyHelperWindow.CheckPackageStatus | Assets/LUTE/Editor/Export/DependencyHelperWindow.cs:141-147 | While a check runs, nothing changes. Otherwise the flag is set, a list request is made and the progress callback is subscribed. |
| DependencyHelper.DependencyHelperWindow.CheckSampleStatus | Assets/LUTE/Editor/Export/DependencyHelperWindow.cs:193-206 | Only the sample map changes, as SampleCheck says. |
| DependencyHelper.DependencyHelperWindow.CheckPackage | Assets/LUTE/Editor/Export/DependencyHelperWindow.cs:162-182 | One iteration of the matching loop, exactly as CheckOne. |
| DependencyHelper.DependencyHelperWindow.CheckPackageListProgress | Assets/LUTE/Editor/Export/DependencyHelperWindow.cs:150-191 | A request in progress changes nothing. Otherwise the callback is unsubscribed. On success the statuses become CheckAll and the flag is cleared, unless a parse threw. On failure only the flags change. |
| DependencyHelper.StuckAfterThrow | Assets/LUTE/Editor/Export/DependencyHelperWindow.cs:150-191 | A version that fails to parse leaves the check flagged as running with no callback left to clear it. |
| ForLoopOrder.Advance | Assets/LUTE/Scripts/Orders/Logic/ForLoop.cs:30 | The loop-back step stays in the 32-bit range (int addition wraps). |
| ForLoopOrder.ForLoopCounter | Assets/LUTE/Scripts/Orders/Logic/ForLoop.cs:24-31 | Without overflow, after k loop-backs the counter is start + k*step when counting up and start - k*step when counting down. |
| ForLoopOrder.ForLoopRuns | Assets/LUTE/Scripts/Orders/Logic/ForLoop.cs:34-40 | Without overflow (NoOverflow), the loop continues exactly for the first ceil(abs(end - start) / step) evaluations, so start == end runs zero times. |
| ForLoopOrder.WrapStaysEven | Assets/LUTE/Scripts/Orders/Logic/ForLoop.cs:28-39 | From 0 towards int.MaxValue in steps of 2, the wrapped counter is always even and the condition always holds. |
| ForLoopOrder.WrapNeverEnds | Assets/LUTE/Scripts/Orders/Logic/ForLoop.cs:28-39 | That loop is outside NoOverflow, and its condition holds at every evaluation, so it never ends. |
| ForLoopOrder.ForLoop.constructor | Assets/LUTE/Scripts/Orders/Logic/ForLoop.cs:11-17 | The step size defaults to 1. |
| ForLoopOrder.ForLoop.PreEvaluate | Assets/LUTE/Scripts/Orders/Logic/ForLoop.cs:21-32 | A fresh entry resets the counter to the start. A loop-back moves it by +step or -step according to the direction. |
| ForLoopOrder.ForLoop.Evaluate | Assets/LUTE/Scripts/Orders/Logic/ForLoop.cs:34-45 | After PreEvaluate, a false condition (counter not short of the exclusive end) jumps to the end. |
| ForLoopOrder.ForLoop.OnValidate | Assets/LUTE/Scripts/Orders/Logic/ForLoop.cs:47-55 | The step becomes 1 when it was 0 and its absolute value otherwise. Int32.MinValue throws (Mathf.Abs overflows). |
| ForEachOrder.DeliveriesFrom | Assets/LUTE/Scripts/Orders/Logic/ForEach.cs:32-43 | From index j - 1 the loop delivers exactly the elements j onward. |
| ForEachOrder.ForEachVisitsInOrder | Assets/LUTE/Scripts/Orders/Logic/ForEach.cs:23-43 | From a fresh start the loop delivers every element once, in order. An empty collection gives nothing. |
| ForEachOrder.ForEach.constructor | Assets/LUTE/Scripts/Orders/Logic/ForEach.cs:10-19 | The collection and item variable are stored, and there is no item yet. |
| ForEachOrder.ForEach.PreEvaluate | Assets/LUTE/Scripts/Orders/Logic/ForEach.cs:23-30 | A fresh entry resets the index to -1. A loop-back leaves it alone. |
| ForEachOrder.ForEach.EvaluateConditions | Assets/LUTE/Scripts/Orders/Logic/ForEach.cs:32-43 | The index is incremented first. True means it is below the count and the item receives that element. False means it is past the end and the item is unchanged. A null collection throws. With its required properties set (HasRequiredProperties: a collection and an item variable) and the index at -1 or above, it never throws. |
| ForEachOrder.ForEach.Evaluate | Assets/LUTE/Scripts/Orders/Logic/ForEach.cs:23-48 | One visit: PreEvaluate, then EvaluateConditions. The flow is GoToEnd (the OnFalse override) iff the condition is false, EnterBlock iff it is true, and none iff the source throws. A fresh entry on a collection goes to the end iff the collection is empty. |
| LogicBreakOrder.NearestLooping | Assets/LUTE/Scripts/Orders/Logic/LogicBreak.cs:15-23 | The result is the highest looping condition strictly before the break, or none when no earlier order is one. |
| LogicBreakOrder.OnEnter | Assets/LUTE/Scripts/Orders/Logic/LogicBreak.cs:10-34 | With no enclosing looping condition the order continues. Otherwise it jumps to that condition's end. |
| LogicBreakOrder.BreakLooksBackOnly | Assets/LUTE/Scripts/Orders/Logic/LogicBreak.cs:15 | Orders at or after the break never influence the search. |
| ListenerLists.Registered | Assets/LUTE/Scripts/Util/Events/GameEvent.cs:23-29 | After registering, the listener and all earlier ones are in the list, and nothing else is. |
| ListenerLists.RemoveFirst | Assets/LUTE/Scripts/Util/Events/GameEvent.cs:31-37 | List.Remove of an absent listener changes nothing. Removing a present one shortens the list by one. |
| ListenerLists.ReversedIndex | Assets/LUTE/Scripts/Util/Events/GameEvent.cs:17-20 | The reverse loop's k-th notification goes to listener n-1-k. |
| ListenerLists.CountReversed | Assets/LUTE/Scripts/Util/Events/GameEvent.cs:17-20 | Raising notifies each listener as often as it is registered. |
| ListenerLists.CountNoDuplicates | Assets/LUTE/Scripts/Util/Events/GameEvent.cs:17-28 | In a duplicate-free list each listener occurs once or not at all. |
| ListenerLists.RegisteredNoDuplicates | Assets/LUTE/Scripts/Util/Events/GameEvent.cs:25-28 | Registering never creates a duplicate, and a new listener goes at the end. |
| ListenerLists.RemoveFirstElements | Assets/LUTE/Scripts/Util/Events/GameEvent.cs:33-36 | Unregistering keeps every other listener. |
| ListenerLists.RemoveFirstAt | Assets/LUTE/Scripts/Util/Events/GameEvent.cs:33-36 | In a duplicate-free list, removal cuts out exactly that listener's position. |
| ListenerLists.UnregisterFacts | Assets/LUTE/Scripts/Util/Events/GameEvent.cs:31-37 | After unregistering, the listener is gone, the others are kept and there are still no duplicates. |
| ListenerLists.RegisterUnregisterRoundTrip | Assets/LUTE/Scripts/Util/Events/GameEvent.cs:23-37 | Registering and then unregistering a new listener restores the list. |
| GameEvents.GameEvent.constructor | Assets/LUTE/Scripts/Util/Events/GameEvent.cs:13 | The listener list starts empty. |
| GameEvents.GameEvent.Raise | Assets/LUTE/Scripts/Util/Events/GameEvent.cs:15-21 | Listeners are notified in reverse registration order, each once. |
| GameEvents.GameEvent.RegisterListener | Assets/LUTE/Scripts/Util/Events/GameEvent.cs:23-29 | The list keeps no duplicates and becomes Registered. |
| GameEvents.GameEvent.UnregisterListener | Assets/LUTE/Scripts/Util/Events/GameEvent.cs:31-37 | The list becomes RemoveFirst, and the listener is gone. |
| GameEvents.InterfaceGameEvent.constructor | Assets/LUTE/Scripts/Util/Events/InterfaceGameEvent.cs:12 | Its own list and the base list both start empty. |
| GameEvents.InterfaceGameEvent.RegisterBaseListener | Assets/LUTE/Scripts/Util/Events/GameEvent.cs:23-29 | The inherited registration touches only the base list. |
| GameEvents.InterfaceGameEvent.RegisterListener | Assets/LUTE/Scripts/Util/Events/InterfaceGameEvent.cs:22-26 | The interface list becomes Registered, and the base list is untouched. |
| GameEvents.InterfaceGameEvent.UnregisterListener | Assets/LUTE/Scripts/Util/Events/InterfaceGameEvent.cs:28-32 | The interface list becomes RemoveFirst, and the base list is untouched. |
| GameEvents.InterfaceGameEvent.Raise | Assets/LUTE/Scripts/Util/Events/InterfaceGameEvent.cs:14-20 | Every handler is executed once, last first, even when handlers remove themselves. The handlers that deregister on execute are gone afterwards. |
| GameEvents.GameEventHandler.constructor | Assets/LUTE/Scripts/EventHandlers/GameEventHandler.cs:14-16 | The event reference and the deregister flag are stored. |
| GameEvents.GameEventHandler.Register | Assets/LUTE/Scripts/EventHandlers/GameEventHandler.cs:28-36 | With no event this throws. Otherwise the handler is registered with the event. |
| GameEvents.GameEventHandler.Deregister | Assets/LUTE/Scripts/EventHandlers/GameEventHandler.cs:38-46 | With no event this throws. Otherwise the handler is unregistered. |
| GameEvents.GameEventHandler.OnEventRaised | Assets/LUTE/Scripts/EventHandlers/GameEventHandler.cs:48-55 | With the flag set, the handler deregisters first (throwing without an event). With the flag off, registration is unchanged. |
| GameEvents.KeptIdempotent | Assets/LUTE/Scripts/EventHandlers/GameEventHandler.cs:50-54 | A second raise removes no further handlers. |
| GameEvents.RaiseTwice | Assets/LUTE/Scripts/EventHandlers/GameEventHandler.cs:16 | Over two raises a registered handler executes once with deregisterOnExecute and twice without it. |
| GameEvents.KeptCount | Assets/LUTE/Scripts/EventHandlers/GameEventHandler.cs:48-55 | After a raise, a deregistering handler is gone and the others keep their registrations. |
| PopupIcons.FirstNamed | Assets/LUTE/Scripts/Comps/PopupIcon.cs:114-128 | The first button with the name, or none when no button has it. |
| PopupIcons.FirstInactive | Assets/LUTE/Scripts/Comps/PopupIcon.cs:162-169 | The first inactive button, or none when all are active. |
| PopupIcons.EffectiveName | Assets/LUTE/Scripts/Comps/PopupIcon.cs:109-112 | An empty name becomes "PopupIconButton", and any other name is kept. |
| PopupIcons.SetActionRebinds | Assets/LUTE/Scripts/Comps/PopupIcon.cs:114-128 | A non-default name some button has rebinds and activates that button alone. The option at nextOptionIndex is untouched. |
| PopupIcons.SetActionTakesOption | Assets/LUTE/Scripts/Comps/PopupIcon.cs:130-133 | Otherwise the option at nextOptionIndex takes the name, gains the listener and is activated. Nothing else changes. |
| PopupIcons.RemoveEffect | Assets/LUTE/Scripts/Comps/PopupIcon.cs:146-174 | An empty or unknown name changes nothing. Otherwise the first match is reset (default name, no listeners, inactive) and nextOptionIndex becomes the lowest inactive button. |
| PopupIcons.SetThenRemove | Assets/LUTE/Scripts/Comps/PopupIcon.cs:100-174 | Naming an option and then removing that name hides the very button that took the action and moves the next option to it or earlier. |
| PopupIcons.PopupIcon.Awake | Assets/LUTE/Scripts/Comps/PopupIcon.cs:17-34 | The child buttons are cached and every one of them is inactive. |
| PopupIcons.PopupIcon.SetIcon | Assets/LUTE/Scripts/Comps/PopupIcon.cs:76-85 | This returns false and changes nothing past the last button. Otherwise only that button's sprite changes. |
| PopupIcons.PopupIcon.SetAction | Assets/LUTE/Scripts/Comps/PopupIcon.cs:100-134 | This returns false and changes nothing past the last button. Otherwise the buttons become SetActionSpec, and the index does not move. |
| PopupIcons.PopupIcon.MoveToNextOption | Assets/LUTE/Scripts/Comps/PopupIcon.cs:136-139 | The index goes up by exactly 1. |
| PopupIcons.PopupIcon.RemoveButton | Assets/LUTE/Scripts/Comps/PopupIcon.cs:146-174 | The buttons and index become RemoveSpec. |
| PopupIcons.PopupIcon.FindFirstInactive | Assets/LUTE/Scripts/Comps/PopupIcon.cs:162-169 | The index becomes the first inactive button, and is kept when there is none. |
| RemovePopupButtonOrder.ChoiceName | Assets/LUTE/Scripts/Orders/UserCreated/RemovePopupButton.cs:34-61 | Character and Quests have no case. Every other type removes "<Type>Button". |
| RemovePopupButtonOrder.ChoiceNamesDistinct | Assets/LUTE/Scripts/Orders/UserCreated/RemovePopupButton.cs:36-60 | Different types remove different, non-empty, non-default names. |
| RemovePopupButtonOrder.OnEnter | Assets/LUTE/Scripts/Orders/UserCreated/RemovePopupButton.cs:26-32 | The icon's buttons become RemoveSpec for the type's name. A type without a case touches nothing. A missing icon throws exactly when there is a name to remove. |
| MapMarkers.LocationMarker.constructor | Assets/LUTE/Scripts/LocationService/LUTEMapManager.cs:270-277 | A new marker records its location and is visible. |
| MapMarkers.RelatedMarkers | Assets/LUTE/Scripts/LocationService/LUTEMapManager.cs:185-194 | The markers with the InfoID, in list order: all of them and no others. |
| MapMarkers.Unrelated | Assets/LUTE/Scripts/LocationService/LUTEMapManager.cs:161-169 | The entries without the InfoID: all of them and no others. |
| MapMarkers.SpawnKeepsOnePerId | Assets/LUTE/Scripts/LocationService/LUTEMapManager.cs:257-277 | Appending a new marker for an absent id keeps one marker per id, and that marker is the only related one. |
| MapMarkers.RelatedAppend | Assets/LUTE/Scripts/LocationService/LUTEMapManager.cs:270-277 | After the append, the new marker is the only related one. |
| MapMarkers.UnrelatedIsWithout | Assets/LUTE/Scripts/LocationService/LUTEMapManager.cs:161-169 | Removing each related marker once yields exactly the unrelated entries in order. |
| MapMarkers.RemoveStep | Assets/LUTE/Scripts/LocationService/LUTEMapManager.cs:165-168 | List.Remove of a marker not yet removed drops exactly that marker. |
| MapMarkers.RelatedDistinct | Assets/LUTE/Scripts/LocationService/LUTEMapManager.cs:161-169 | The related markers contain no duplicates. |
| MapMarkers.UnrelatedKeepsValid | Assets/LUTE/Scripts/LocationService/LUTEMapManager.cs:161-169 | Removal keeps the list duplicate-free with one marker per id, and no marker with the InfoID is left. |
| MapMarkers.LocationsOf | Assets/LUTE/Scripts/LocationService/LUTEMapManager.cs:62-69 | Every collected entry comes from a location variable, so none is a missing location. |
| MapMarkers.LocationsOfComplete | Assets/LUTE/Scripts/LocationService/LUTEMapManager.cs:62-69 | Every location variable's value is collected, and only those values are. |
| MapMarkers.LUTEMapManager.constructor | Assets/LUTE/Scripts/LocationService/LUTEMapManager.cs:20-30 | Both lists start empty. |
| MapMarkers.LUTEMapManager.SpawnMarker | Assets/LUTE/Scripts/LocationService/LUTEMapManager.cs:251-277 | A null location, a null value or an existing id changes nothing. Otherwise exactly one new visible marker is appended. In either case some marker with the id then exists. |
| MapMarkers.LUTEMapManager.SpawnMarkers | Assets/LUTE/Scripts/LocationService/LUTEMapManager.cs:87-98 | Markers are only appended, and afterwards every runtime location with a value has a marker. Every appended marker is fresh and visible, and stands for a located runtime location that had no marker before. |
| MapMarkers.LUTEMapManager.SetHidden | Assets/LUTE/Scripts/LocationService/LUTEMapManager.cs:107-113 | Every marker with the id gets the hidden status, and every other marker keeps its own. |
| MapMarkers.LUTEMapManager.HideLocationMarker | Assets/LUTE/Scripts/LocationService/LUTEMapManager.cs:102-114 | Every marker with the InfoID is hidden. A null location or an empty list changes nothing. |
| MapMarkers.LUTEMapManager.ShowLocationMarker | Assets/LUTE/Scripts/LocationService/LUTEMapManager.cs:119-138 | An empty list or a null location changes nothing. With a marker for the id, all such markers are shown. Otherwise one new marker is spawned. |
| MapMarkers.LUTEMapManager.RemoveLocationMarker | Assets/LUTE/Scripts/LocationService/LUTEMapManager.cs:156-169 | All markers with the InfoID are removed and the rest keep their order. A null value throws exactly when some marker has an id. |
| MapMarkers.LUTEMapManager.AnyLocated | Assets/LUTE/Scripts/LocationService/LUTEMapManager.cs:161-163 | The FindAll predicate reads the null value only if some live marker has a location value, and the scan finds such a marker exactly when one exists. |
| MapMarkers.LUTEMapManager.RemoveRelated | Assets/LUTE/Scripts/LocationService/LUTEMapManager.cs:161-169 | Removing each related marker in turn leaves exactly the unrelated markers, in order, and keeps one marker per id. |
| MapMarkers.LUTEMapManager.ClearAllMarkers | Assets/LUTE/Scripts/LocationService/LUTEMapManager.cs:172-181 | Both lists become empty. |
| MapMarkers.LUTEMapManager.GetMarkerTransforms | Assets/LUTE/Scripts/LocationService/LUTEMapManager.cs:183-194 | A null location gives null. Otherwise the result is one entry per related marker, in list order. |
| MapMarkers.LUTEMapManager.ProcessLocationsEditor | Assets/LUTE/Scripts/LocationService/LUTEMapManager.cs:62-69 | The runtime list gains LocationsOf the variables, and the markers are untouched. |
| LocationClick.Normalise | Assets/LUTE/Scripts/EventHandlers/LocationClickEventHandler.cs:41-43 | After normalising, autoTrigger is not requiresPress, requiresPress is kept, and autoTrigger implies requiresLocation. |
| LocationClick.NormaliseIdempotent | Assets/LUTE/Scripts/EventHandlers/LocationClickEventHandler.cs:41-43 | Normalising twice is normalising once, and exactly one of press and auto-trigger is set. |
| LocationClick.LocationClickEventHandler.constructor | Assets/LUTE/Scripts/EventHandlers/LocationClickEventHandler.cs:13-19 | The defaults are auto-trigger on, press off and location off. The location and whether it is a variable reference are stored. |
| LocationClick.LocationClickEventHandler.Update | Assets/LUTE/Scripts/EventHandlers/LocationClickEventHandler.cs:38-79 | The flags become Normalise of the old ones. A display list is chosen only in play mode with a location value. The node executes iff playing with auto-trigger on, the location a variable reference, and the location met and enabled. It throws iff playing and either a missing value meets the default list, or auto-trigger is on for a constant location (the null `locationRef` read at line 71). A throw never executes the node. |
| LocationClick.LocationClickEventHandler.OnLocationClicked | Assets/LUTE/Scripts/EventHandlers/LocationClickEventHandler.cs:81-116 | The node executes iff presses are wanted, the clicked InfoID is the handler's own, the location is met (or need not be) and it is not disabled. A handler without a location value throws. CheckLocationStatus is the not-disabled test. |
| UTimes.WithinTolerance | Assets/LUTE/Scripts/VariableTypes/UTimeVariable.cs:31-36 | Fewer than 500 ms apart is exactly fewer than 5,000,000 ticks apart. |
| UTimes.Evaluate | Assets/LUTE/Scripts/VariableTypes/UTimeVariable.cs:25-58 | Each of the six operators compares the current time of day with the stored time, in ticks. Equals allows a 500 ms tolerance. |
| UTimes.EvaluateComplements | Assets/LUTE/Scripts/VariableTypes/UTimeVariable.cs:33-52 | NotEquals negates Equals, GreaterThan negates LessThanOrEquals and LessThan negates GreaterThanOrEquals. The value argument never matters. |
| UTimes.EqualsWindow | Assets/LUTE/Scripts/VariableTypes/UTimeVariable.cs:35-36 | A stored time equals the clock for offsets strictly inside plus or minus 5,000,000 ticks. |
| UTimes.UTimeVariable.constructor | Assets/LUTE/Scripts/VariableTypes/UTimeVariable.cs:14 | The variable holds the given value. |
| UTimes.UTimeData.constructor | Assets/LUTE/Scripts/VariableTypes/UTimeVariable.cs:80-84 | The constant is set, there is no reference, and Value reads the constant. |
| UTimes.UTimeData.SetValue | Assets/LUTE/Scripts/VariableTypes/UTimeVariable.cs:88-89 | The setter writes where the getter reads (the constant, or the referenced variable), so get after set returns the value. The getter Value reads the constant without a reference and the referenced variable with one. |
| LocationArrayProvider.Step | Assets/Mapbox/Unity/Location/LocationArrayEditorLocationProvider.cs:36-38 | The index goes up by one or wraps to 0, and for a non-empty list it stays in range. |
| LocationArrayProvider.ReadsCycle | Assets/Mapbox/Unity/Location/LocationArrayEditorLocationProvider.cs:31-39 | After n reads from -1 the index is (n-1) mod length. |
| LocationArrayProvider.LocationArrayEditorLocationProvider.constructor | Assets/Mapbox/Unity/Location/LocationArrayEditorLocationProvider.cs:31 | The index starts at -1. |
| LocationArrayProvider.LocationArrayEditorLocationProvider.LatitudeLongitude | Assets/Mapbox/Unity/Location/LocationArrayEditorLocationProvider.cs:32-41 | A read advances the index by Step and returns the entry it lands on. An empty list throws. |
| LocationArrayProvider.LocationArrayEditorLocationProvider.SetLocation | Assets/Mapbox/Unity/Location/LocationArrayEditorLocationProvider.cs:43-51 | Each location update performs exactly one read. |
| LocationArrayProvider.UpdatesInOrder | Assets/Mapbox/Unity/Location/LocationArrayEditorLocationProvider.cs:31-51 | Update k delivers entry k mod length, so the list is visited in order, cyclically. |
| LogaPreferences.Replace | Assets/LUTE/Editor/Prefs/LogaEditorPreferences.cs:113 | A string without the pattern is left unchanged. |
| LogaPreferences.ReplaceShortens | Assets/LUTE/Editor/Prefs/LogaEditorPreferences.cs:113 | Removing a present symbol strictly shortens the string. |
| LogaPreferences.ReplaceLength | Assets/LUTE/Editor/Prefs/LogaEditorPreferences.cs:113 | Replace(";;", ";") never lengthens the string. |
| LogaPreferences.ReplaceSkips | Assets/LUTE/Editor/Prefs/LogaEditorPreferences.cs:113 | Replace leaves a prefix at which the pattern never starts as it is. |
| LogaPreferences.TrimStart | Assets/LUTE/Editor/Prefs/LogaEditorPreferences.cs:113 | The result is a suffix that does not start with the character. |
| LogaPreferences.TrimEnd | Assets/LUTE/Editor/Prefs/LogaEditorPreferences.cs:113 | The result is a prefix that does not end with the character. |
| LogaPreferences.Trim | Assets/LUTE/Editor/Prefs/LogaEditorPreferences.cs:113 | The result has the character at neither end. |
| LogaPreferences.ToggleOne | Assets/LUTE/Editor/Prefs/LogaEditorPreferences.cs:106-125 | The rewrite fails (Replace's ArgumentException) exactly when disabling the empty symbol. |
| LogaPreferences.EnableAppends | Assets/LUTE/Editor/Prefs/LogaEditorPreferences.cs:106-109 | Enabling an absent symbol appends ";" + symbol, after which the string contains it. |
| LogaPreferences.DisableTrims | Assets/LUTE/Editor/Prefs/LogaEditorPreferences.cs:111-114 | Disabling a present symbol shortens the string and leaves no ';' at either end. |
| LogaPreferences.ToggleChangedIff | Assets/LUTE/Editor/Prefs/LogaEditorPreferences.cs:104-125 | The changed flag is set exactly when the string is different. |
| LogaPreferences.SubstringBlocksEnable | Assets/LUTE/Editor/Prefs/LogaEditorPreferences.cs:106 | For every define list in which the symbol occurs anywhere, even inside another symbol such as "MY_LOGA_ENABLE_PLAYER_LOGS", enabling leaves the list as it is and reports no change, so the symbol itself is never added. |
| LogaPreferences.EnableDisableRoundTrip | Assets/LUTE/Editor/Prefs/LogaEditorPreferences.cs:106-115 | On a clean list without the symbol, enabling and then disabling gives the list back. |
| LogaPreferences.LogaEditorPreferences.LoadOnScript | Assets/LUTE/Editor/Prefs/LogaEditorPreferences.cs:137-143 | Both preferences are read with false as the default, the constant is copied, and the settings are marked loaded. |
| LogaPreferences.LogaEditorPreferences.ToggleDefine | Assets/LUTE/Editor/Prefs/LogaEditorPreferences.cs:97-134 | Android and iOS are rewritten independently by ToggleOne and written back only if one changed. Disabling "" throws before any write. |
| LogaPreferences.LogaEditorPreferences.UseLogsToggled | Assets/LUTE/Editor/Prefs/LogaEditorPreferences.cs:55-64 | Only a value different from the stored one updates the preference and the constant and toggles the define. |
| LogaPreferences.LogaEditorPreferences.PreferencesGUI | Assets/LUTE/Editor/Prefs/LogaEditorPreferences.cs:43-65 | Preferences not yet loaded are loaded first, so the toggle is compared with the stored preference. Afterwards they are loaded, and only a changed value toggles the define. |
| XRObjects.XRObjectManager.constructor | Assets/LUTE/Scripts/Orders/UserCreated/PlaceObjectXR.cs:310 | The dictionary starts empty. |
| XRObjects.XRObjectManager.AddObject | Assets/LUTE/Scripts/Orders/UserCreated/PlaceObjectXR.cs:312-323 | The name maps to the object, whether it was present or not, and every other name is unchanged. |
| XRObjects.XRObjectManager.RemoveObject | Assets/LUTE/Scripts/Orders/UserCreated/PlaceObjectXR.cs:325-331 | The name is deleted. An absent name changes nothing. |
| XRObjects.XRObjectManager.GetObject | Assets/LUTE/Scripts/Orders/UserCreated/PlaceObjectXR.cs:333-340 | This returns the stored object, or null for an absent name. |
| XRObjects.AddThenGet | Assets/LUTE/Scripts/Orders/UserCreated/PlaceObjectXR.cs:312-340 | Through the manager: a get after an add returns the object added, and a get of any other name returns what it did before. |
| XRObjects.AddThenRemove | Assets/LUTE/Scripts/Orders/UserCreated/PlaceObjectXR.cs:312-340 | Through the manager: the get in between sees the object, and the map ends as it began. |
| DisplayOptions.LUTELocationDisplayOptions.constructor | Assets/LUTE/Scripts/LocationService/LUTELocationDisplayOptions.cs:17-32 | The serialized defaults: white colours, no sprite, name hidden, sprite and radius shown. |
| DisplayOptions.LUTELocationDisplayOptions.OnEnable | Assets/LUTE/Scripts/LocationService/LUTELocationDisplayOptions.cs:38-43 | The snapshot (the Default* getters) becomes the three flags. Flags, colours and sprite are untouched. |
| DisplayOptions.LUTELocationDisplayOptions.OnDisable | Assets/LUTE/Scripts/LocationService/LUTELocationDisplayOptions.cs:45-50 | The three flags are restored from the snapshot. Colours and sprite are untouched. |
| DisplayOptions.EditWhileEnabled | Assets/LUTE/Scripts/LocationService/LUTELocationDisplayOptions.cs:38-50 | After OnEnable, any flag and colour edits, then OnDisable, the flags equal their values at OnEnable and the colour edits stay. |

## Left out

- **Engine glue.** UI redraws (`DrawInventory`, `ShowInventory`), inventory signals, sounds, `Debug` logs and `Item.Use()` are not modelled. They have no effect on the modelled state.
- **Inventory aliasing and storage.**
  - `BogInventoryItem` is a value (ItemID, MaxStackSize of at least 1, IsLocked).
  - Lock and unlock rewrite the slot's copy of the item. Sharing one item asset between slots is not modelled.
  - The static `items` list is one field of one inventory object.
  - `GetCurrentlySelectedItem` is not modelled.
- BogInventory.BogInventoryBase.InsertItem: stores any amount, as the source does (BogInventoryBase.cs:160), so it keeps the stack bound only when the amount fits (BogInventoryBounds.InsertBound). The stack bound is not part of the inventory's invariant for this reason.
- BogInventory.BogInventoryBase.ExtractSerialisedBogInventoryData: inserts each saved quantity unchecked, so saved data over the stack size breaks the bound (BogInventoryBounds.ExtractOverfull).
- BogInventory.BogInventoryBase.RemoveSelected: a negative quantity raises the slot's quantity (`slot.Quantity -= quantity`, BogInventoryBase.cs:175), which can push it past its stack size.
- BogInventory.BogInventoryBase.RemoveItemEditor: the same holds for a negative quantity (BogInventoryBase.cs:222, BogInventoryBounds.NegativeRemoveOverfills).
- **Stack sizes per item id.** The bound survives a move only when items of one ItemID agree on MaxStackSize. AddItem, InsertItem, the swap and MoveItem are proved to keep that agreement. The source does not enforce it.
- BogInventory.BogInventoryBase.UseItem: requires a valid occupied index. The source decrements outside its own bounds check (BogInventoryBase.cs:243) and throws otherwise, and that throw is not modelled.
- **Inventory arithmetic.** Quantities are unbounded integers, so the 32-bit wrap-around of `Quantity += ...` is not modelled.
- **Three-argument `AddItem`.** The one at AddItemToInventory.cs:29 has no body in the source files, so it is not modelled.
- **Save format.**
  - The JSON text of the save file is not produced or parsed. A saved entry holds a reference to the live slot (as BogInventoryData.cs:20-23 stores the slot object), so a slot edited after encoding changes what is saved.
  - The save code's non-null filter (SaveData.cs:67) is modelled only as the input `Encode` receives: `OccupiedSlots` and `Occupied` reproduce it, and the rest of SaveData is not modelled.
  - BogInventoryDecode.SaveThenLoad calls the manager's extraction directly, which is what `Decode` does when given a manager.
- **Dependency helper.**
  - Its IMGUI drawing, import, install and reflection code is not modelled.
  - `EditorApplication.update` subscriptions are a counter.
- VersionCompare.ParseInt: covers decimal digits with an optional sign and surrounding white space. Culture-specific `int.Parse` details (other digit sets, thousands separators) are not modelled.
- **Flow-control orders.**
  - The `Condition` base class's dispatch (`OnEnter`, `OnFalse`, the jumps) is a returned flow value.
  - Whether the order "came from the end" is an input.
  - `IntegerData` references are plain fields, so aliasing between a counter and other variables is not modelled.
- ForLoopOrder.ForLoopRuns: holds only under NoOverflow. The unchecked `+=` (ForLoop.cs:30) wraps, and outside NoOverflow the counter can stay short of the end for ever. For example, start 0, end int.MaxValue and step 2 pass OnValidate but never end (ForLoopOrder.WrapNeverEnds).
- ForEachOrder.Deliveries: takes a fuel bound that must exceed the collection's length.
- **Collections.** A collection's elements are a sequence, and `col.Get` is indexing.
- **Listener responses.** What a listener does when notified is not modelled, apart from a handler deregistering itself. Node execution is a returned list of handlers.
- GameEvents.InterfaceGameEvent.Raise: requires every registered handler to belong to this event, and does not model handlers that would deregister from another one.
- **Popup icon.**
  - The static `ActivePopupIcon` is this icon.
  - Button game objects are values, so sprite images and listeners are identities.
- PopupIcons.PopupIcon.MoveToNextOption: does not model the 32-bit wrap-around of the index.
- **Map manager.**
  - These members are not modelled: `ProcessLocations` and `GetAllLocations` at run time, the tracker position, `ToggleMap`, `Awake`, `Start`, `Update` and `UpdateTracker`.
  - Markers destroyed by other code (Unity's destroyed-object null) are not modelled, and a marker's location is fixed.
  - A spawned marker is taken to hold its location variable. `SetInfo` (LocationMarker.cs:109-116) stores it only when the flow engine is present, and a marker without an engine is not modelled.
  - `SetHiddenStatus` and `ResetHiddenStatus` (in LocationMarker.cs, with no body in the source files) set and clear a hidden flag.
- **Location click handler.**
  - The radius check is the boolean "location met". A constant location (`LocationData` with a null `locationRef`, LocationVariable.cs:158-161) is the `locationIsRef` flag, which nothing changes.
  - The display list assigned to the location is returned instead of written to the location object.
- **Time variable.**
  - The `UTime` struct and the `ComparisonOperator` enum are not part of the source files. Six operators are assumed, and the `default` branch (`base.Evaluate`) is not modelled.
  - `DateTime.Now.TimeOfDay` is a parameter in ticks.
  - TimeSpan overflow is not modelled.
  - `UTimeData` is a struct in the source, so its copies share nothing. The model makes it a class, and the copy semantics of the struct are not modelled.
  - `SupportsArithmetic` and `SupportsComparison` return true, as in the source, and carry no contract of their own.
  - `SetOperator` is its ordinal here; the enum's members are not part of the source files.
- **Mock location provider.** Edits to the location list at run time are not modelled, and neither is parsing the strings into coordinates.
- **Preferences GUI.** `PreferencesGUI` is modelled only as its `prefsLoaded` guard (the call to `LoadOnScript` at LogaEditorPreferences.cs:45-48) and its "Use Logs" toggle. The rest is not modelled: the hide-icon toggle, the resources button and the GUI.changed save. `PlayerSettings` define strings are two fields.
- **XR object manager.**
  - The singleton `Instance` is not modelled.
  - Game objects are identities, and a destroyed object stays in the dictionary.
- **Display options.** The colour and sprite values are opaque.

# KindredLogistics auto-stash, modelled in Dafny

This project models the auto-stash routine of the KindredLogistics server mod,
`Utilities.StashServantInventory`. The routine empties a servant's inventory into the castle's
allied stashes in two phases.

1. **The scan.** It walks the allied stashes in the order the territory query returns them.
   - The first stash whose lower-cased name contains `spoils` and whose own inventory resolves
     becomes the overflow ("spoils") stash, and the scan ends there.
   - Every earlier stash that is not spoils-named and has an `AttachedBuffer` is indexed (a
     spoils-named stash whose own inventory does not resolve is skipped before its buffer is
     read). Each item key in the slots of its external attached inventories (those with the
     external-inventory prefab) maps to an ordered list of destinations. A destination is a
     pair: the stash, and its first attached inventory that holds the item.
   - A stash appears at most once per item. The empty-slot key 0 is never indexed.
2. **The pass.** It walks the servant's inventory slots in order.
   - An item the index does not know goes to the spoils stash.
   - An indexed item is offered to each of its destinations in turn. Before each offer, the
     amount is re-read as the servant's full current count.
   - Every offer is a `TransferItems` leg: a removal from the source inventory, then an
     addition to the destination. If the destination refuses, one compensating addition back
     to the source follows.

`Utilities.SharedHeartConnection`, the same-castle test, is modelled too.

The host's inventory store (`GetInventoryItemCount`, `TryRemoveInventoryItem`,
`TryAddInventoryItem`) is the class `HostStore.Store`.
- It holds a map from inventory entity to item counts.
- A removal succeeds exactly when the inventory holds enough units.
- An addition succeeds exactly when the host's capacity rule accepts it. That rule is not
  visible, so it is the store's oracle `accepts`.

Each imperative method is proved against a pure function of the old state:
- `ScanStashes` against `BuildIndex` / `SpoilsStash`;
- `TransferItems` against `TransferLeg`;
- `TransferToEach` against `Deliver`;
- `TransferPass` against `PassFrom`;
- `StashServantInventory` against `Run`.

The lemmas state the routine's properties about those functions.

Modules:
- `Ecs`: entities, item keys, inventory contents, totals.
- `HostStore`: the host store.
- `Transfer`: one transfer leg.
- `StashIndex`: the scan.
- `StashRun`: the pass and the whole run.
- `CastleHeart`: the same-castle test.

Where the code's behaviour is surprising, the model follows the code:
- The `break` at Utilities.cs:52 ends the whole scan. Stashes after the first spoils target are
  never indexed, not just skipped as overflow candidates (`StashIndex.LaterStashesIgnored`).
- Without a spoils stash, an unindexed slot leaves `stashEntries` null. The `foreach` at
  Utilities.cs:93 then throws, and the catch at line 100 ends the run at that slot. The model's
  exit is `NoDestinationList(slot)`.
- An empty slot (key 0) is never an index key. So without a spoils stash it ends the run, and
  with one it produces a leg to the spoils stash for the servant's count of key 0. It is not
  left untouched. A second run over an already emptied inventory therefore still makes legs
  when a spoils stash exists (`StashRun.EmptyInventoryRun`).
- Each destination of an item is offered the servant's whole current count, not a share.

## Model

| member | source | states |
|---|---|---|
| HostStore.Removed | Utilities.cs:135 | a removal succeeds iff the inventory holds at least the amount, and then lowers exactly that one count by the amount |
| HostStore.Added | Utilities.cs:137 | an addition succeeds iff the host accepts it, and then raises exactly that one count by the amount |
| HostStore.Store.Count | Utilities.cs:88 | the store's count of the item in the inventory, zero when the store has no such inventory or the inventory holds none of the item; every leg's amount is read through it (also line 95) |
| HostStore.Store.TryRemove | Utilities.cs:135 | reports success iff the old count covers the amount; the new store is the removal on success and unchanged otherwise |
| HostStore.Store.TryAdd | Utilities.cs:144 | reports success iff the host accepts; the new store is the addition on success and unchanged otherwise |
| Transfer.TransferItems | Utilities.cs:133-158 | the new store and the outcome are those of `TransferLeg` on the old store: remove, add to the destination, else add back to the source |
| Transfer.RemoveFailedChangesNothing | Utilities.cs:154-157 | the leg fails at the removal iff the source holds fewer units than asked, and then no count changes |
| Transfer.MovedShiftsAmount | Utilities.cs:135-140 | a moved leg lowers the source by the amount, raises the destination by it, and changes no other count |
| Transfer.RolledBackRestores | Utilities.cs:141-147 | a rolled-back leg leaves every count as it was |
| Transfer.LostDrainsSource | Utilities.cs:148-151 | a lost leg leaves the source short by exactly the amount and changes no other count |
| Transfer.OutcomeDecidedByHost | Utilities.cs:135-152 | once the removal succeeds, moved iff the destination accepts; rolled back iff it refuses and the source accepts the add-back; lost iff both refuse |
| Transfer.TransferConserves | Utilities.cs:133-158 | over any inventory list holding both ends, the total of each item is unchanged, except that a lost leg destroys exactly its amount |
| Transfer.TransferFrame | Utilities.cs:133-158 | a leg changes no count other than its item in its two inventories |
| StashIndex.ToLower | Utilities.cs:48 | lower-casing keeps the length and maps each character to its lower-case form (ASCII letters) |
| StashIndex.IsSpoilsName | Utilities.cs:48 | true iff the lower-cased name contains "spoils" as a substring, stated on the name itself: iff some six-character window of the name lower-cases to "spoils" |
| StashIndex.SpoilsNameIgnoresCase | Utilities.cs:48 | the spoils test reads the lower-cased name, so it gives the same answer for a name and its lower-cased copy |
| StashIndex.ScanLength | Utilities.cs:46-53 | the scan visits exactly the stashes before the first spoils-named stash whose inventory resolves |
| StashIndex.SpoilsStash | Utilities.cs:48-52 | the spoils stash is absent iff no stash is a spoils target; otherwise it is the first one, paired with its resolved inventory |
| StashIndex.FirstMatch | Utilities.cs:57-61 | the position of the first attached entity with the external prefab that holds a non-empty slot of the item, and none before it does |
| StashIndex.Contribution | Utilities.cs:48-74 | a visited stash offers an inventory for an item iff it is not spoils-named, has an attached buffer, and some external attached inventory holds the item; it offers the first such inventory |
| StashIndex.ScanStashes | Utilities.cs:46-77 | the map and spoils stash the scan builds are exactly `BuildIndex` and `SpoilsStash` of the stash list |
| StashIndex.IndexWellFormed | Utilities.cs:67-73 | no key of the index is the empty-slot key, every key has a destination, and no stash is listed twice under one key |
| StashIndex.IndexEntriesAreContributions | Utilities.cs:57-74 | every destination of an item is a stash visited before the scan stopped, paired with that stash's first inventory holding the item |
| StashIndex.IndexComplete | Utilities.cs:57-74 | every visited stash that offers an inventory for an item is listed under that item |
| StashIndex.IndexInScanOrder | Utilities.cs:46-77 | with distinct stash entities, an item's destination list is the visited stashes' contributions in scan order |
| StashIndex.SpoilsNeverIndexed | Utilities.cs:48-52 | with distinct stash entities, the spoils stash is never a destination of any item |
| StashIndex.LaterStashesIgnored | Utilities.cs:52 | once a spoils target is found, appending more stashes changes neither the spoils stash nor the index |
| StashRun.TransferToEach | Utilities.cs:93-97 | the new store and the legs are those of `Deliver`: one leg per destination in list order, each for the count read just before it |
| StashRun.TransferPass | Utilities.cs:83-98 | the new store, the legs and the exit are those of `PassFrom` over all slots |
| StashRun.StashServantInventory | Utilities.cs:39-108 | the new store, the legs and the exit are those of `Run`: the scan, the two servant-inventory lookups, then the pass |
| StashRun.FullCountRemoves | Utilities.cs:88-89 | a leg offered the source's whole current count never fails at the removal |
| StashRun.DeliverShape | Utilities.cs:93-97 | an indexed slot gets exactly one leg per destination, in list order, all for that slot and item, none failing at the removal |
| StashRun.DeliverAmounts | Utilities.cs:95-96 | the first destination is offered the whole count; each later one gets the previous amount after a rollback and nothing after a move or a loss |
| StashRun.PassRouting | Utilities.cs:83-98 | every leg of the pass belongs to a slot at or after the start and carries that slot's item; an indexed item goes to one of its destinations, any other item to the spoils stash; the legs come in slot order |
| StashRun.FirstUnindexed | Utilities.cs:86 | the first slot from `i` on whose item the index does not know, or the slot count when every item is known |
| StashRun.PassAbort | Utilities.cs:86-100 | with a spoils stash the pass completes; without one it ends at the first unindexed slot, with every leg from an earlier slot |
| StashRun.UnindexedGoesToSpoils | Utilities.cs:86-90 | an unindexed item, when a spoils stash exists, gets one leg to the spoils stash for the whole current count, and later legs belong to later slots |
| StashRun.IndexedGoesToEachDestination | Utilities.cs:93-97 | an indexed item's legs go to its destinations in list order with the amounts `DeliverAmounts` states, and later legs belong to later slots |
| StashRun.DeliverConserves | Utilities.cs:93-97 | over the servant and the destinations, one slot's legs keep each item's total, apart from the units lost legs destroyed |
| StashRun.PassConserves | Utilities.cs:83-98 | over the servant and every reachable inventory, the pass keeps each item's total, apart from the units lost legs destroyed |
| StashRun.DeliverFrame | Utilities.cs:93-97 | a count that none of a slot's legs moves ends as it began |
| StashRun.PassFrame | Utilities.cs:83-98 | a count that no leg of the pass moves ends as it began |
| StashRun.RunRouting | Utilities.cs:39-108 | the run's legs follow the routing rule over the index and spoils stash of its own scan, in slot order; with distinct stashes no indexed item goes to the spoils stash |
| StashRun.RunWithoutServant | Utilities.cs:78-82 | without a servant inventory, or without its inventory buffer, the run changes nothing, makes no leg and reports which lookup failed |
| StashRun.RunWithoutStashes | Utilities.cs:46-98 | with no stashes the run moves nothing, and it ends at slot 0 unless the servant has no slots |
| StashRun.UnindexedEndsRunWithoutSpoils | Utilities.cs:86-100 | without a spoils stash, an empty or unindexed slot ends the run at or before it, with every leg from an earlier slot |
| StashRun.RunConserves | Utilities.cs:39-108 | over the servant and every stash inventory, the run keeps each item's total, apart from the units lost legs destroyed |
| StashRun.EmptyInventoryRun | Utilities.cs:67-91 | for an all-empty inventory: without a spoils stash the run stops at slot 0 having moved nothing; with one it completes and sends every leg's key 0 to the spoils stash |
| CastleHeart.SharedHeartConnection | Utilities.cs:122-131 | true iff both entities have a heart connection and the two hearts are the same entity |
| CastleHeart.WithoutConnectionNeverShared | Utilities.cs:130 | an entity without a heart connection shares a heart with nothing |
| CastleHeart.SharedReflexive | Utilities.cs:124-128 | a connected entity shares a heart with itself |
| CastleHeart.SharedSymmetric | Utilities.cs:122-131 | the answer does not depend on which entity is the input |
| CastleHeart.SharedTransitive | Utilities.cs:124-128 | sharing a heart is transitive |

## Left out

- The component queries `StashQuery`, `RefinementStationQuery` and `UserEntityQuery` (Utilities.cs:18-37) are declarations for callers elsewhere; nothing here uses them.
- `TerritoryCheck` (Utilities.cs:110-120) is left out. It rests on the host's tile-in-territory test, whose rules are not visible.
- `StashService.GetAllAlliedStashesOnTerritory` is left out. Its result is the parameter `stashes`, in the order it returns.
- The two servant-inventory lookups (`TryGetInventoryEntity`, `TryGetBuffer<InventoryBuffer>`) are left out. Their results are the parameter `servant`.
- A stash's own inventory lookup and attached buffer are left out. They are fields of `Stash` that record what the lookups found.
- The external-inventory prefab is the parameter `prefab`. StashServices.cs, which defines it, is not part of this model.
- The host's capacity rule for additions is the oracle `accepts`. `HostStore.Removed` assumes the host removes exactly when enough units are present, a zero amount included.
- Logging, `LookupName`, the `NativeHashMap` allocation (capacity 100) and its `Dispose` have no effect on inventories, so they are left out.
- Exceptions other than the null destination list are left out. This includes a `ReadBuffer<InventoryBuffer>` on an attached entity without that buffer, which only ends the run through the catch.
- The servant's slot list is read once, when the pass starts. The model does not capture the host rearranging slots as items are removed during the pass. The code reads each slot's item from the live buffer, and a whole-count leg drains every stack of that item, so a later slot of the same item probably reads key 0. Without a spoils stash the code would then end the run at that slot: for slots [X, X, Y] with X and Y indexed, it plausibly stops at slot 1 and never moves Y, where the model completes the pass. `StashRun.PassAbort`, `StashRun.UnindexedEndsRunWithoutSpoils` and `StashRun.EmptyInventoryRun` hold of the snapshot only.
- `ToLower` is modelled for ASCII letters only, assuming an invariant-style culture. The .NET culture-sensitive mapping is not modelled: it changes other characters, and in Turkish or Azerbaijani cultures even maps 'I' to a dotless 'ı', so "SPOILS" would not be a spoils name there.
- Item counts and amounts are unbounded naturals. A 32-bit `int` count cannot overflow for real inventory sizes, so the width is not modelled.
- Patches/LogisticsPatch.cs, which calls the routine from a server hook, is not part of this model.
- StashIndex.IndexInScanOrder: holds only when stash entities are distinct, as the stash query returns each stash once. Without that, a stash listed twice still appears only once.
- StashIndex.SpoilsNeverIndexed: assumes distinct stash entities, for the same reason.
- StashRun.RunRouting: its spoils clause assumes distinct stash entities, for the same reason.
- StashRun.DeliverAmounts: assumes no destination is the servant's own inventory.
- StashRun.IndexedGoesToEachDestination: assumes no destination is the servant's own inventory, which its amount clauses need; the placement and order clauses hold without it (`StashRun.DeliverShape`, `StashRun.PassRouting`).

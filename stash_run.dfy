/** The transfer pass of `Utilities.StashServantInventory` and the whole run: after the
    index scan, walk the servant's inventory slots in order and send each slot's item to
    the spoils stash (when the item is not indexed) or to every indexed destination, with
    the amount re-read from the servant's inventory before each transfer. */
module StashRun {
  import opened Ecs
  import opened HostStore
  import opened Transfer
  import opened StashIndex

  /** One call of `TransferItems` made by the pass: the servant slot that caused it, the
      item, the destination, the amount read just before it, and how it ended. */
  datatype Leg = Leg(slot: nat, item: ItemId, destination: Entry, amount: nat, outcome: Outcome)

  /** How a run ends. */
  datatype Exit =
    | Completed                   // every slot was processed
    | NoServantInventory          // `TryGetInventoryEntity` found no servant inventory
    | NoInventoryBuffer           // the servant inventory has no `InventoryBuffer`
    | NoDestinationList(slot: nat) // an item neither indexed nor covered by a spoils stash:
                                  // the null destination list throws and the run ends there

  /** The servant's inventory entity and, when it has one, its slot list. */
  datatype ServantInventory = ServantInventory(entity: Entity, slots: Option<seq<ItemId>>)

  datatype PassResult = PassResult(bags: Bags, legs: seq<Leg>, exit: Exit)
  datatype DeliverResult = DeliverResult(bags: Bags, legs: seq<Leg>)

  /** The legs for one indexed slot, from destination `k` on: each destination receives the
      servant's count of the item as it stands after the previous legs. */
  function Deliver(bags: Bags, accepts: Acceptor, source: Entity, slot: nat, item: ItemId,
                   entries: seq<Entry>, k: nat): DeliverResult
    decreases |entries| - k
  {
    if k >= |entries| then DeliverResult(bags, [])
    else
      var amount := CountIn(bags, source, item);
      var t := TransferLeg(bags, accepts, source, entries[k].inventory, item, amount);
      var rest := Deliver(t.bags, accepts, source, slot, item, entries, k + 1);
      DeliverResult(rest.bags, [Leg(slot, item, entries[k], amount, t.outcome)] + rest.legs)
  }

  /** The transfer pass from slot `i` on (lines 83-98). */
  function PassFrom(bags: Bags, accepts: Acceptor, source: Entity, slots: seq<ItemId>, i: nat,
                    index: StashMatches, spoils: Option<Entry>): PassResult
    decreases |slots| - i
  {
    if i >= |slots| then PassResult(bags, [], Completed)
    else
      var item := slots[i];
      if item !in index && spoils.Some? then
        var amount := CountIn(bags, source, item);
        var t := TransferLeg(bags, accepts, source, spoils.value.inventory, item, amount);
        var rest := PassFrom(t.bags, accepts, source, slots, i + 1, index, spoils);
        PassResult(rest.bags, [Leg(i, item, spoils.value, amount, t.outcome)] + rest.legs, rest.exit)
      else if item !in index then
        PassResult(bags, [], NoDestinationList(i))
      else
        var d := Deliver(bags, accepts, source, i, item, index[item], 0);
        var rest := PassFrom(d.bags, accepts, source, slots, i + 1, index, spoils);
        PassResult(rest.bags, d.legs + rest.legs, rest.exit)
  }

  /** The whole run: the scan, the two servant-inventory lookups, and the pass. */
  function Run(bags: Bags, accepts: Acceptor, stashes: seq<Stash>, servant: Option<ServantInventory>,
               prefab: ItemId): PassResult
  {
    match servant
    case None => PassResult(bags, [], NoServantInventory)
    case Some(inventory) =>
      match inventory.slots
      case None => PassResult(bags, [], NoInventoryBuffer)
      case Some(slots) =>
        PassFrom(bags, accepts, inventory.entity, slots, 0, BuildIndex(stashes, prefab), SpoilsStash(stashes))
  }

  /** The inner loop of the pass (lines 93-97): one transfer per destination, in list order,
      re-reading the servant's count before each. */
  method TransferToEach(store: Store, source: Entity, slot: nat, item: ItemId, entries: seq<Entry>)
    returns (legs: seq<Leg>)
    modifies store
    ensures store.bags == Deliver(old(store.bags), store.accepts, source, slot, item, entries, 0).bags
    ensures legs == Deliver(old(store.bags), store.accepts, source, slot, item, entries, 0).legs
  {
    ghost var goal := Deliver(store.bags, store.accepts, source, slot, item, entries, 0);
    legs := [];
    for k := 0 to |entries|
      invariant var rest := Deliver(store.bags, store.accepts, source, slot, item, entries, k);
        rest.bags == goal.bags && legs + rest.legs == goal.legs
    {
      ghost var before := store.bags;
      var amount := store.Count(source, item);
      var outcome := TransferItems(store, source, entries[k].inventory, item, amount);
      var leg := Leg(slot, item, entries[k], amount, outcome);
      ghost var rest := Deliver(store.bags, store.accepts, source, slot, item, entries, k + 1);
      assert Deliver(before, store.accepts, source, slot, item, entries, k) == DeliverResult(rest.bags, [leg] + rest.legs);
      assert legs + [leg] + rest.legs == legs + ([leg] + rest.legs);
      legs := legs + [leg];
    }
  }

  /** The second phase of `StashServantInventory`: lines 83-98. */
  method TransferPass(store: Store, source: Entity, slots: seq<ItemId>, matches: StashMatches, spoils: Option<Entry>)
    returns (legs: seq<Leg>, exit: Exit)
    modifies store
    ensures store.bags == PassFrom(old(store.bags), store.accepts, source, slots, 0, matches, spoils).bags
    ensures legs == PassFrom(old(store.bags), store.accepts, source, slots, 0, matches, spoils).legs
    ensures exit == PassFrom(old(store.bags), store.accepts, source, slots, 0, matches, spoils).exit
  {
    ghost var goal := PassFrom(store.bags, store.accepts, source, slots, 0, matches, spoils);
    legs := [];
    for i := 0 to |slots|
      invariant var rest := PassFrom(store.bags, store.accepts, source, slots, i, matches, spoils);
        rest.bags == goal.bags && legs + rest.legs == goal.legs && rest.exit == goal.exit
    {
      ghost var before := store.bags;
      var item := slots[i];
      if item !in matches && spoils.Some? {
        var amount := store.Count(source, item);
        var outcome := TransferItems(store, source, spoils.value.inventory, item, amount);
        var leg := Leg(i, item, spoils.value, amount, outcome);
        ghost var rest := PassFrom(store.bags, store.accepts, source, slots, i + 1, matches, spoils);
        assert PassFrom(before, store.accepts, source, slots, i, matches, spoils) ==
          PassResult(rest.bags, [leg] + rest.legs, rest.exit);
        assert legs + [leg] + rest.legs == legs + ([leg] + rest.legs);
        legs := legs + [leg];
        continue;
      }
      if item !in matches {
        exit := NoDestinationList(i);
        return;
      }
      var delivered := TransferToEach(store, source, i, item, matches[item]);
      ghost var rest := PassFrom(store.bags, store.accepts, source, slots, i + 1, matches, spoils);
      assert PassFrom(before, store.accepts, source, slots, i, matches, spoils) ==
        PassResult(rest.bags, delivered + rest.legs, rest.exit);
      assert legs + delivered + rest.legs == legs + (delivered + rest.legs);
      legs := legs + delivered;
    }
    exit := Completed;
  }

  /** `StashServantInventory(servant)`: `stashes` is what `GetAllAlliedStashesOnTerritory`
      returned, `servant` what the servant's inventory lookups found, and `prefab` the
      external-inventory prefab. */
  method StashServantInventory(store: Store, stashes: seq<Stash>, servant: Option<ServantInventory>, prefab: ItemId)
    returns (legs: seq<Leg>, exit: Exit)
    modifies store
    ensures store.bags == Run(old(store.bags), store.accepts, stashes, servant, prefab).bags
    ensures legs == Run(old(store.bags), store.accepts, stashes, servant, prefab).legs
    ensures exit == Run(old(store.bags), store.accepts, stashes, servant, prefab).exit
  {
    var matches, spoils := ScanStashes(stashes, prefab);
    if servant.None? {
      return [], NoServantInventory;
    }
    var inventory := servant.value;
    if inventory.slots.None? {
      return [], NoInventoryBuffer;
    }
    legs, exit := TransferPass(store, inventory.entity, inventory.slots.value, matches, spoils);
  }

  // ---------------------------------------------------------------- properties of the pass

  /** A leg that offers the servant's whole current count never fails at the removal. */
  lemma FullCountRemoves(bags: Bags, accepts: Acceptor, source: Entity, destination: Entity, item: ItemId)
    ensures TransferLeg(bags, accepts, source, destination, item, CountIn(bags, source, item)).outcome != RemoveFailed
  {
    OutcomeDecidedByHost(bags, accepts, source, destination, item, CountIn(bags, source, item));
  }

  /** A leg goes where the routing rule sends its slot's item: an indexed item to one of its
      destinations, any other item to the spoils stash; and its removal never fails, since
      the amount is the servant's full current count. */
  predicate Routed(l: Leg, slots: seq<ItemId>, index: StashMatches, spoils: Option<Entry>)
  {
    && l.slot < |slots|
    && l.item == slots[l.slot]
    && (l.item in index ==> l.destination in index[l.item])
    && (l.item !in index ==> spoils == Some(l.destination))
    && l.outcome != RemoveFailed
  }

  lemma {:induction false} DeliverShape(bags: Bags, accepts: Acceptor, source: Entity, slot: nat, item: ItemId,
                                        entries: seq<Entry>, k: nat)
    requires k <= |entries|
    ensures var d := Deliver(bags, accepts, source, slot, item, entries, k);
      && |d.legs| == |entries| - k
      && forall j :: 0 <= j < |d.legs| ==>
           d.legs[j].slot == slot && d.legs[j].item == item &&
           d.legs[j].destination == entries[k + j] && d.legs[j].outcome != RemoveFailed
    decreases |entries| - k
  {
    if k < |entries| {
      var t := TransferLeg(bags, accepts, source, entries[k].inventory, item, CountIn(bags, source, item));
      DeliverShape(t.bags, accepts, source, slot, item, entries, k + 1);
    }
  }

  /** The first destination of a slot receives the servant's whole count; each later one
      receives what the previous leg left: the same amount after a rollback, nothing after a
      move or a loss. */
  lemma {:induction false} DeliverAmounts(bags: Bags, accepts: Acceptor, source: Entity, slot: nat, item: ItemId,
                                          entries: seq<Entry>, k: nat)
    requires k <= |entries|
    requires forall e :: e in entries ==> e.inventory != source
    ensures var d := Deliver(bags, accepts, source, slot, item, entries, k);
      && (d.legs != [] ==> d.legs[0].amount == CountIn(bags, source, item))
      && forall j :: 0 <= j < |d.legs| - 1 ==>
           d.legs[j + 1].amount == if d.legs[j].outcome == RolledBack then d.legs[j].amount else 0
    decreases |entries| - k
  {
    if k < |entries| {
      var amount := CountIn(bags, source, item);
      var t := TransferLeg(bags, accepts, source, entries[k].inventory, item, amount);
      DeliverAmounts(t.bags, accepts, source, slot, item, entries, k + 1);
      assert entries[k] in entries;
      MovedShiftsAmount(bags, accepts, source, entries[k].inventory, item, amount);
      RolledBackRestores(bags, accepts, source, entries[k].inventory, item, amount);
      LostDrainsSource(bags, accepts, source, entries[k].inventory, item, amount);
      assert CountIn(t.bags, source, item) == if t.outcome == RolledBack then amount else 0;
    }
  }

  /** Every leg in `legs` is routed and belongs to a slot at or after `i`. */
  predicate RoutedFrom(legs: seq<Leg>, slots: seq<ItemId>, index: StashMatches, spoils: Option<Entry>, i: nat)
  {
    forall n :: 0 <= n < |legs| ==> Routed(legs[n], slots, index, spoils) && i <= legs[n].slot
  }

  /** The legs come in slot order. */
  predicate SlotOrdered(legs: seq<Leg>)
  {
    forall m, n :: 0 <= m < n < |legs| ==> legs[m].slot <= legs[n].slot
  }

  /** One step of the pass at an unindexed slot with a spoils stash. */
  lemma PassSpoilsStep(bags: Bags, accepts: Acceptor, source: Entity, slots: seq<ItemId>, i: nat,
                       index: StashMatches, spoils: Option<Entry>)
    requires i < |slots| && slots[i] !in index && spoils.Some?
    ensures var amount := CountIn(bags, source, slots[i]);
      var t := TransferLeg(bags, accepts, source, spoils.value.inventory, slots[i], amount);
      var rest := PassFrom(t.bags, accepts, source, slots, i + 1, index, spoils);
      PassFrom(bags, accepts, source, slots, i, index, spoils) ==
        PassResult(rest.bags, [Leg(i, slots[i], spoils.value, amount, t.outcome)] + rest.legs, rest.exit)
  {
  }

  /** One step of the pass at an indexed slot. */
  lemma PassIndexedStep(bags: Bags, accepts: Acceptor, source: Entity, slots: seq<ItemId>, i: nat,
                        index: StashMatches, spoils: Option<Entry>)
    requires i < |slots| && slots[i] in index
    ensures var d := Deliver(bags, accepts, source, i, slots[i], index[slots[i]], 0);
      var rest := PassFrom(d.bags, accepts, source, slots, i + 1, index, spoils);
      PassFrom(bags, accepts, source, slots, i, index, spoils) == PassResult(rest.bags, d.legs + rest.legs, rest.exit)
  {
  }

  /** The legs of an indexed slot are routed and all belong to that slot. */
  lemma DeliverRouted(bags: Bags, accepts: Acceptor, source: Entity, slots: seq<ItemId>, i: nat,
                      index: StashMatches, spoils: Option<Entry>)
    requires i < |slots| && slots[i] in index
    ensures var d := Deliver(bags, accepts, source, i, slots[i], index[slots[i]], 0);
      RoutedFrom(d.legs, slots, index, spoils, i) && forall n :: 0 <= n < |d.legs| ==> d.legs[n].slot == i
  {
    var entries := index[slots[i]];
    DeliverShape(bags, accepts, source, i, slots[i], entries, 0);
    var d := Deliver(bags, accepts, source, i, slots[i], entries, 0);
    forall n | 0 <= n < |d.legs| ensures Routed(d.legs[n], slots, index, spoils) {
      assert entries[n] in entries;
    }
  }

  /** Legs of slot `i` followed by routed, ordered legs of later slots are routed and ordered. */
  lemma RoutedAppend(a: seq<Leg>, b: seq<Leg>, slots: seq<ItemId>, index: StashMatches, spoils: Option<Entry>, i: nat)
    requires RoutedFrom(a, slots, index, spoils, i) && forall n :: 0 <= n < |a| ==> a[n].slot == i
    requires RoutedFrom(b, slots, index, spoils, i + 1) && SlotOrdered(b)
    ensures RoutedFrom(a + b, slots, index, spoils, i) && SlotOrdered(a + b)
  {
    var c := a + b;
    forall n | 0 <= n < |c| ensures Routed(c[n], slots, index, spoils) && i <= c[n].slot {
      if n >= |a| {
        assert c[n] == b[n - |a|];
      }
    }
    forall m, n | 0 <= m < n < |c| ensures c[m].slot <= c[n].slot {
      if n < |a| {
      } else if m < |a| {
        assert c[n] == b[n - |a|];
      } else {
        assert c[m] == b[m - |a|] && c[n] == b[n - |a|];
      }
    }
  }

  /** Every leg of the pass is routed, belongs to a slot at or after `i`, and the legs come
      in slot order. */
  lemma {:induction false} PassRouting(bags: Bags, accepts: Acceptor, source: Entity, slots: seq<ItemId>, i: nat,
                                       index: StashMatches, spoils: Option<Entry>)
    ensures RoutedFrom(PassFrom(bags, accepts, source, slots, i, index, spoils).legs, slots, index, spoils, i)
    ensures SlotOrdered(PassFrom(bags, accepts, source, slots, i, index, spoils).legs)
    decreases |slots| - i
  {
    if i < |slots| {
      var item := slots[i];
      if item !in index && spoils.Some? {
        var amount := CountIn(bags, source, item);
        var t := TransferLeg(bags, accepts, source, spoils.value.inventory, item, amount);
        PassSpoilsStep(bags, accepts, source, slots, i, index, spoils);
        PassRouting(t.bags, accepts, source, slots, i + 1, index, spoils);
        FullCountRemoves(bags, accepts, source, spoils.value.inventory, item);
        var rest := PassFrom(t.bags, accepts, source, slots, i + 1, index, spoils);
        RoutedAppend([Leg(i, item, spoils.value, amount, t.outcome)], rest.legs, slots, index, spoils, i);
      } else if item in index {
        var d := Deliver(bags, accepts, source, i, item, index[item], 0);
        PassIndexedStep(bags, accepts, source, slots, i, index, spoils);
        DeliverRouted(bags, accepts, source, slots, i, index, spoils);
        PassRouting(d.bags, accepts, source, slots, i + 1, index, spoils);
        var rest := PassFrom(d.bags, accepts, source, slots, i + 1, index, spoils);
        RoutedAppend(d.legs, rest.legs, slots, index, spoils, i);
      }
    }
  }

  /** The first slot at or after `i` whose item is not indexed (`|slots|` when none is). */
  function FirstUnindexed(slots: seq<ItemId>, i: nat, index: StashMatches): (f: nat)
    requires i <= |slots|
    ensures i <= f <= |slots|
    ensures forall n :: i <= n < f ==> slots[n] in index
    ensures f < |slots| ==> slots[f] !in index
    decreases |slots| - i
  {
    if i == |slots| then i
    else if slots[i] !in index then i
    else FirstUnindexed(slots, i + 1, index)
  }

  /** Every leg in `legs` belongs to a slot before `f`. */
  predicate SlotsBefore(legs: seq<Leg>, f: nat)
  {
    forall n :: 0 <= n < |legs| ==> legs[n].slot < f
  }

  lemma SlotsBeforeAppend(a: seq<Leg>, b: seq<Leg>, f: nat)
    requires SlotsBefore(a, f) && SlotsBefore(b, f)
    ensures SlotsBefore(a + b, f)
  {
    forall n | |a| <= n < |a + b| ensures (a + b)[n].slot < f {
      assert (a + b)[n] == b[n - |a|];
    }
  }

  /** With a spoils stash the pass always completes. Without one it ends at the first
      unindexed slot (the null destination list), having processed only the slots before it. */
  lemma {:induction false} PassAbort(bags: Bags, accepts: Acceptor, source: Entity, slots: seq<ItemId>, i: nat,
                                     index: StashMatches, spoils: Option<Entry>)
    requires i <= |slots|
    ensures var r := PassFrom(bags, accepts, source, slots, i, index, spoils);
      var f := FirstUnindexed(slots, i, index);
      && (spoils.Some? ==> r.exit == Completed)
      && (spoils.None? ==> r.exit == if f < |slots| then NoDestinationList(f) else Completed)
      && (spoils.None? ==> SlotsBefore(r.legs, f))
    decreases |slots| - i
  {
    if i < |slots| {
      var item := slots[i];
      if item !in index && spoils.Some? {
        var t := TransferLeg(bags, accepts, source, spoils.value.inventory, item, CountIn(bags, source, item));
        PassSpoilsStep(bags, accepts, source, slots, i, index, spoils);
        PassAbort(t.bags, accepts, source, slots, i + 1, index, spoils);
      } else if item in index {
        var d := Deliver(bags, accepts, source, i, item, index[item], 0);
        PassIndexedStep(bags, accepts, source, slots, i, index, spoils);
        DeliverRouted(bags, accepts, source, slots, i, index, spoils);
        PassAbort(d.bags, accepts, source, slots, i + 1, index, spoils);
        var f := FirstUnindexed(slots, i + 1, index);
        assert FirstUnindexed(slots, i, index) == f;
        if spoils.None? {
          SlotsBeforeAppend(d.legs, PassFrom(d.bags, accepts, source, slots, i + 1, index, spoils).legs, f);
        }
      }
    }
  }

  /** An unindexed item, when a spoils stash exists, gets exactly one leg: to the spoils
      stash, for the servant's whole current count of it. */
  lemma UnindexedGoesToSpoils(bags: Bags, accepts: Acceptor, source: Entity, slots: seq<ItemId>, i: nat,
                              index: StashMatches, spoils: Option<Entry>)
    requires i < |slots| && slots[i] !in index && spoils.Some?
    ensures var r := PassFrom(bags, accepts, source, slots, i, index, spoils);
      && r.legs != []
      && r.legs[0].slot == i && r.legs[0].item == slots[i] && r.legs[0].destination == spoils.value
      && r.legs[0].amount == CountIn(bags, source, slots[i])
      && forall n :: 1 <= n < |r.legs| ==> r.legs[n].slot > i
  {
    var t := TransferLeg(bags, accepts, source, spoils.value.inventory, slots[i], CountIn(bags, source, slots[i]));
    PassSpoilsStep(bags, accepts, source, slots, i, index, spoils);
    PassRouting(t.bags, accepts, source, slots, i + 1, index, spoils);
    var rest := PassFrom(t.bags, accepts, source, slots, i + 1, index, spoils);
    var r := PassFrom(bags, accepts, source, slots, i, index, spoils);
    forall n | 1 <= n < |r.legs| ensures r.legs[n].slot > i {
      assert r.legs[n] == rest.legs[n - 1];
    }
  }

  /** An indexed item gets one leg per destination, in index order, each for the count left
      by the previous leg (see `DeliverAmounts`); none of them goes anywhere else. */
  lemma IndexedGoesToEachDestination(bags: Bags, accepts: Acceptor, source: Entity, slots: seq<ItemId>, i: nat,
                                     index: StashMatches, spoils: Option<Entry>)
    requires i < |slots| && slots[i] in index
    requires forall e :: e in index[slots[i]] ==> e.inventory != source
    ensures var r := PassFrom(bags, accepts, source, slots, i, index, spoils);
      var entries := index[slots[i]];
      && |r.legs| >= |entries|
      && (forall j :: 0 <= j < |entries| ==>
            r.legs[j].slot == i && r.legs[j].item == slots[i] && r.legs[j].destination == entries[j])
      && (entries != [] ==> r.legs[0].amount == CountIn(bags, source, slots[i]))
      && (forall j :: 0 <= j < |entries| - 1 ==>
            r.legs[j + 1].amount == if r.legs[j].outcome == RolledBack then r.legs[j].amount else 0)
      && forall n :: |entries| <= n < |r.legs| ==> r.legs[n].slot > i
  {
    var item := slots[i];
    var d := Deliver(bags, accepts, source, i, item, index[item], 0);
    PassIndexedStep(bags, accepts, source, slots, i, index, spoils);
    DeliverShape(bags, accepts, source, i, item, index[item], 0);
    DeliverAmounts(bags, accepts, source, i, item, index[item], 0);
    PassRouting(d.bags, accepts, source, slots, i + 1, index, spoils);
    var rest := PassFrom(d.bags, accepts, source, slots, i + 1, index, spoils);
    var r := PassFrom(bags, accepts, source, slots, i, index, spoils);
    assert r.legs == d.legs + rest.legs;
    forall n | 0 <= n < |d.legs| ensures r.legs[n] == d.legs[n] {
    }
    forall n | |d.legs| <= n < |r.legs| ensures r.legs[n].slot > i {
      assert r.legs[n] == rest.legs[n - |d.legs|];
    }
  }

  /** The units of `x` destroyed by lost legs. */
  function LostUnits(legs: seq<Leg>, x: ItemId): nat
  {
    if legs == [] then 0
    else (if legs[0].item == x && legs[0].outcome == Lost then legs[0].amount else 0) + LostUnits(legs[1..], x)
  }

  lemma {:induction false} LostUnitsAppend(a: seq<Leg>, b: seq<Leg>, x: ItemId)
    ensures LostUnits(a + b, x) == LostUnits(a, x) + LostUnits(b, x)
  {
    if a == [] {
      assert a + b == b;
    } else {
      assert (a + b)[1..] == a[1..] + b;
      LostUnitsAppend(a[1..], b, x);
    }
  }

  /** `es` lists the servant inventory and every inventory the pass can send items to. */
  predicate Covers(es: seq<Entity>, source: Entity, index: StashMatches, spoils: Option<Entry>)
  {
    && source in es
    && (forall y, e :: y in index && e in index[y] ==> e.inventory in es)
    && (spoils.Some? ==> spoils.value.inventory in es)
  }

  lemma {:induction false} DeliverConserves(bags: Bags, accepts: Acceptor, source: Entity, slot: nat, item: ItemId,
                                            entries: seq<Entry>, k: nat, es: seq<Entity>, x: ItemId)
    requires NoDuplicates(es) && source in es && forall e :: e in entries ==> e.inventory in es
    ensures var d := Deliver(bags, accepts, source, slot, item, entries, k);
      Total(d.bags, es, x) + LostUnits(d.legs, x) == Total(bags, es, x)
    decreases |entries| - k
  {
    if k < |entries| {
      var amount := CountIn(bags, source, item);
      var t := TransferLeg(bags, accepts, source, entries[k].inventory, item, amount);
      assert entries[k] in entries;
      TransferConserves(bags, accepts, source, entries[k].inventory, item, amount, es, x);
      DeliverConserves(t.bags, accepts, source, slot, item, entries, k + 1, es, x);
      var rest := Deliver(t.bags, accepts, source, slot, item, entries, k + 1);
      assert ([Leg(slot, item, entries[k], amount, t.outcome)] + rest.legs)[1..] == rest.legs;
    }
  }

  /** Over the servant inventory and every destination, the pass conserves each item's
      units except those destroyed by lost legs: per leg, units removed equal units added
      plus units restored unless the leg is lost. */
  lemma {:induction false} PassConserves(bags: Bags, accepts: Acceptor, source: Entity, slots: seq<ItemId>, i: nat,
                                         index: StashMatches, spoils: Option<Entry>, es: seq<Entity>, x: ItemId)
    requires NoDuplicates(es) && Covers(es, source, index, spoils)
    ensures var r := PassFrom(bags, accepts, source, slots, i, index, spoils);
      Total(r.bags, es, x) + LostUnits(r.legs, x) == Total(bags, es, x)
    decreases |slots| - i
  {
    if i < |slots| {
      var item := slots[i];
      if item !in index && spoils.Some? {
        var amount := CountIn(bags, source, item);
        var t := TransferLeg(bags, accepts, source, spoils.value.inventory, item, amount);
        TransferConserves(bags, accepts, source, spoils.value.inventory, item, amount, es, x);
        PassConserves(t.bags, accepts, source, slots, i + 1, index, spoils, es, x);
        var rest := PassFrom(t.bags, accepts, source, slots, i + 1, index, spoils);
        assert ([Leg(i, item, spoils.value, amount, t.outcome)] + rest.legs)[1..] == rest.legs;
      } else if item in index {
        var d := Deliver(bags, accepts, source, i, item, index[item], 0);
        DeliverConserves(bags, accepts, source, i, item, index[item], 0, es, x);
        PassConserves(d.bags, accepts, source, slots, i + 1, index, spoils, es, x);
        LostUnitsAppend(d.legs, PassFrom(d.bags, accepts, source, slots, i + 1, index, spoils).legs, x);
      }
    }
  }

  /** The leg moves item `x` in or out of inventory `e`. */
  predicate Touches(l: Leg, source: Entity, e: Entity, x: ItemId)
  {
    l.item == x && (e == source || e == l.destination.inventory)
  }

  /** No leg in `legs` moves item `x` in or out of inventory `e`. */
  predicate Untouched(legs: seq<Leg>, source: Entity, e: Entity, x: ItemId)
  {
    forall n :: 0 <= n < |legs| ==> !Touches(legs[n], source, e, x)
  }

  lemma UntouchedAppend(a: seq<Leg>, b: seq<Leg>, source: Entity, e: Entity, x: ItemId)
    ensures Untouched(a + b, source, e, x) <==> Untouched(a, source, e, x) && Untouched(b, source, e, x)
  {
    if Untouched(a + b, source, e, x) {
      forall n | 0 <= n < |a| ensures !Touches(a[n], source, e, x) {
        assert a[n] == (a + b)[n];
      }
      forall n | 0 <= n < |b| ensures !Touches(b[n], source, e, x) {
        assert b[n] == (a + b)[n + |a|];
      }
    }
    if Untouched(a, source, e, x) && Untouched(b, source, e, x) {
      forall n | |a| <= n < |a + b| ensures !Touches((a + b)[n], source, e, x) {
        assert (a + b)[n] == b[n - |a|];
      }
    }
  }

  /** One step of `Deliver`. */
  lemma DeliverStep(bags: Bags, accepts: Acceptor, source: Entity, slot: nat, item: ItemId,
                    entries: seq<Entry>, k: nat)
    requires k < |entries|
    ensures var amount := CountIn(bags, source, item);
      var t := TransferLeg(bags, accepts, source, entries[k].inventory, item, amount);
      var rest := Deliver(t.bags, accepts, source, slot, item, entries, k + 1);
      Deliver(bags, accepts, source, slot, item, entries, k) ==
        DeliverResult(rest.bags, [Leg(slot, item, entries[k], amount, t.outcome)] + rest.legs)
  {
  }

  lemma {:induction false} DeliverFrame(bags: Bags, accepts: Acceptor, source: Entity, slot: nat, item: ItemId,
                                        entries: seq<Entry>, k: nat, e: Entity, x: ItemId)
    ensures var d := Deliver(bags, accepts, source, slot, item, entries, k);
      Untouched(d.legs, source, e, x) ==> CountIn(d.bags, e, x) == CountIn(bags, e, x)
    decreases |entries| - k
  {
    if k < |entries| {
      var amount := CountIn(bags, source, item);
      var t := TransferLeg(bags, accepts, source, entries[k].inventory, item, amount);
      DeliverStep(bags, accepts, source, slot, item, entries, k);
      DeliverFrame(t.bags, accepts, source, slot, item, entries, k + 1, e, x);
      var rest := Deliver(t.bags, accepts, source, slot, item, entries, k + 1);
      var leg := Leg(slot, item, entries[k], amount, t.outcome);
      UntouchedAppend([leg], rest.legs, source, e, x);
      assert [leg][0] == leg;
      if !Touches(leg, source, e, x) {
        TransferFrame(bags, accepts, source, entries[k].inventory, item, amount, e, x);
      }
    }
  }

  /** Nothing else changes: a count that no leg moves ends as it began. */
  lemma {:induction false} PassFrame(bags: Bags, accepts: Acceptor, source: Entity, slots: seq<ItemId>, i: nat,
                                     index: StashMatches, spoils: Option<Entry>, e: Entity, x: ItemId)
    ensures var r := PassFrom(bags, accepts, source, slots, i, index, spoils);
      Untouched(r.legs, source, e, x) ==> CountIn(r.bags, e, x) == CountIn(bags, e, x)
    decreases |slots| - i
  {
    if i < |slots| {
      var item := slots[i];
      if item !in index && spoils.Some? {
        var amount := CountIn(bags, source, item);
        var t := TransferLeg(bags, accepts, source, spoils.value.inventory, item, amount);
        PassSpoilsStep(bags, accepts, source, slots, i, index, spoils);
        PassFrame(t.bags, accepts, source, slots, i + 1, index, spoils, e, x);
        var rest := PassFrom(t.bags, accepts, source, slots, i + 1, index, spoils);
        var leg := Leg(i, item, spoils.value, amount, t.outcome);
        UntouchedAppend([leg], rest.legs, source, e, x);
        assert [leg][0] == leg;
        if !Touches(leg, source, e, x) {
          TransferFrame(bags, accepts, source, spoils.value.inventory, item, amount, e, x);
        }
      } else if item in index {
        var d := Deliver(bags, accepts, source, i, item, index[item], 0);
        PassIndexedStep(bags, accepts, source, slots, i, index, spoils);
        DeliverFrame(bags, accepts, source, i, item, index[item], 0, e, x);
        PassFrame(d.bags, accepts, source, slots, i + 1, index, spoils, e, x);
        UntouchedAppend(d.legs, PassFrom(d.bags, accepts, source, slots, i + 1, index, spoils).legs, source, e, x);
      }
    }
  }

  // ---------------------------------------------------------------- properties of the run

  /** The run's legs follow the routing rule over the index and spoils stash its own scan
      found, in slot order; when stash ids are unique, no item that has an indexed
      destination is ever sent to the spoils stash. */
  lemma RunRouting(bags: Bags, accepts: Acceptor, stashes: seq<Stash>, source: Entity, slots: seq<ItemId>, prefab: ItemId)
    ensures var r := Run(bags, accepts, stashes, Some(ServantInventory(source, Some(slots))), prefab);
      var index := BuildIndex(stashes, prefab);
      var spoils := SpoilsStash(stashes);
      && RoutedFrom(r.legs, slots, index, spoils, 0)
      && SlotOrdered(r.legs)
      && (UniqueIds(stashes) && spoils.Some? ==>
            forall n :: 0 <= n < |r.legs| && r.legs[n].item in index ==>
              r.legs[n].destination.stash != spoils.value.stash)
  {
    var index := BuildIndex(stashes, prefab);
    var spoils := SpoilsStash(stashes);
    PassRouting(bags, accepts, source, slots, 0, index, spoils);
    if UniqueIds(stashes) && spoils.Some? {
      SpoilsNeverIndexed(stashes, prefab);
      var legs := Run(bags, accepts, stashes, Some(ServantInventory(source, Some(slots))), prefab).legs;
      forall n | 0 <= n < |legs| && legs[n].item in index ensures legs[n].destination.stash != spoils.value.stash {
        assert Routed(legs[n], slots, index, spoils);
        assert legs[n].destination in index[legs[n].item];
      }
    }
  }

  /** With no servant inventory, or no inventory buffer, the run moves nothing. */
  lemma RunWithoutServant(bags: Bags, accepts: Acceptor, stashes: seq<Stash>, servant: Option<ServantInventory>, prefab: ItemId)
    requires servant.None? || servant.value.slots.None?
    ensures var r := Run(bags, accepts, stashes, servant, prefab);
      r.bags == bags && r.legs == [] && r.exit == if servant.None? then NoServantInventory else NoInventoryBuffer
  {
  }

  /** With no stashes on the territory the index is empty and there is no spoils stash, so the
      run moves nothing and, unless the servant holds no slots at all, ends at slot 0. */
  lemma RunWithoutStashes(bags: Bags, accepts: Acceptor, source: Entity, slots: seq<ItemId>, prefab: ItemId)
    ensures var r := Run(bags, accepts, [], Some(ServantInventory(source, Some(slots))), prefab);
      && r.bags == bags && r.legs == []
      && r.exit == if slots == [] then Completed else NoDestinationList(0)
  {
    var index := BuildIndex([], prefab);
    assert ItemsOf(Scanned([])) == {};
    assert index == map[];
    assert SpoilsStash([]) == None;
  }

  /** Without a spoils stash, an empty slot (or any unindexed item) at slot `p` ends the run at
      or before `p`: the slot is never indexed, so its destination list is missing. */
  lemma UnindexedEndsRunWithoutSpoils(bags: Bags, accepts: Acceptor, stashes: seq<Stash>, source: Entity,
                                      slots: seq<ItemId>, prefab: ItemId, p: nat)
    requires SpoilsStash(stashes).None?
    requires p < |slots| && (slots[p] == EmptySlot || slots[p] !in BuildIndex(stashes, prefab))
    ensures var r := Run(bags, accepts, stashes, Some(ServantInventory(source, Some(slots))), prefab);
      && r.exit.NoDestinationList? && r.exit.slot <= p
      && SlotsBefore(r.legs, r.exit.slot)
  {
    var index := BuildIndex(stashes, prefab);
    IndexWellFormed(stashes, prefab);
    assert slots[p] !in index;
    PassAbort(bags, accepts, source, slots, 0, index, None);
  }

  /** `es` lists every inventory of every stash on the territory: its own and every entity
      attached to it. */
  predicate ListsInventories(es: seq<Entity>, stashes: seq<Stash>)
  {
    forall k :: 0 <= k < |stashes| ==>
      && (stashes[k].inventory.Some? ==> stashes[k].inventory.value in es)
      && (stashes[k].attached.Some? ==>
            forall a :: 0 <= a < |stashes[k].attached.value| ==> stashes[k].attached.value[a].entity in es)
  }

  /** Over the servant inventory and all stash inventories, a run changes the total of each
      item only by the units that lost legs destroyed. */
  lemma RunConserves(bags: Bags, accepts: Acceptor, stashes: seq<Stash>, source: Entity, slots: seq<ItemId>,
                     prefab: ItemId, es: seq<Entity>, x: ItemId)
    requires NoDuplicates(es) && source in es && ListsInventories(es, stashes)
    ensures var r := Run(bags, accepts, stashes, Some(ServantInventory(source, Some(slots))), prefab);
      Total(r.bags, es, x) + LostUnits(r.legs, x) == Total(bags, es, x)
  {
    var index := BuildIndex(stashes, prefab);
    var spoils := SpoilsStash(stashes);
    forall y: ItemId, e: Entry | y in index && e in index[y] ensures e.inventory in es {
      IndexEntriesAreContributions(stashes, prefab, y, e);
    }
    PassConserves(bags, accepts, source, slots, 0, index, spoils, es, x);
  }

  /** A servant whose every slot is empty: with no spoils stash the run stops at slot 0
      having moved nothing; with one, the run completes and every leg it makes sends the
      empty-slot key to the spoils stash. */
  lemma EmptyInventoryRun(bags: Bags, accepts: Acceptor, stashes: seq<Stash>, source: Entity,
                          slots: seq<ItemId>, prefab: ItemId)
    requires slots != [] && forall n :: 0 <= n < |slots| ==> slots[n] == EmptySlot
    ensures var r := Run(bags, accepts, stashes, Some(ServantInventory(source, Some(slots))), prefab);
      var spoils := SpoilsStash(stashes);
      && (spoils.None? ==> r.bags == bags && r.legs == [] && r.exit == NoDestinationList(0))
      && (spoils.Some? ==> r.exit == Completed)
      && (spoils.Some? ==>
            forall n :: 0 <= n < |r.legs| ==> r.legs[n].item == EmptySlot && r.legs[n].destination == spoils.value)
  {
    var index := BuildIndex(stashes, prefab);
    var spoils := SpoilsStash(stashes);
    IndexWellFormed(stashes, prefab);
    assert EmptySlot !in index;
    PassAbort(bags, accepts, source, slots, 0, index, spoils);
    PassRouting(bags, accepts, source, slots, 0, index, spoils);
    var r := PassFrom(bags, accepts, source, slots, 0, index, spoils);
    if spoils.None? {
      assert FirstUnindexed(slots, 0, index) == 0;
    } else {
      forall n | 0 <= n < |r.legs| ensures r.legs[n].item == EmptySlot && r.legs[n].destination == spoils.value {
        assert Routed(r.legs[n], slots, index, spoils);
      }
    }
  }
}

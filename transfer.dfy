/** `Utilities.TransferItems`: move one stack from a source inventory to a destination
    inventory by a removal followed by an addition, with one compensating addition back to
    the source when the destination refuses the units. */
module Transfer {
  import opened Ecs
  import opened HostStore

  /** The four terminal states of one transfer leg. */
  datatype Outcome =
    | RemoveFailed   // the source could not give up the units; nothing happened
    | Moved          // removed from the source and added to the destination
    | RolledBack     // the destination refused; the units went back to the source
    | Lost           // the destination and the source both refused; the units are gone

  datatype LegResult = LegResult(bags: Bags, outcome: Outcome)

  /** The store and the outcome after one transfer leg. */
  function TransferLeg(bags: Bags, accepts: Acceptor, source: Entity, destination: Entity,
                       item: ItemId, amount: nat): LegResult
  {
    match Removed(bags, source, item, amount)
    case None => LegResult(bags, RemoveFailed)
    case Some(drained) =>
      match Added(drained, accepts, destination, item, amount)
      case Some(moved) => LegResult(moved, Moved)
      case None =>
        match Added(drained, accepts, source, item, amount)
        case Some(restored) => LegResult(restored, RolledBack)
        case None => LegResult(drained, Lost)
  }

  /** `TransferItems(serverGameManager, outputInventory, inputInventory, itemGuid, transferAmount)`:
      `source` is the inventory the units leave, `destination` the one they go to. */
  method TransferItems(store: Store, source: Entity, destination: Entity, item: ItemId, amount: nat)
    returns (outcome: Outcome)
    modifies store
    ensures store.bags == TransferLeg(old(store.bags), store.accepts, source, destination, item, amount).bags
    ensures outcome == TransferLeg(old(store.bags), store.accepts, source, destination, item, amount).outcome
  {
    var removed := store.TryRemove(source, item, amount);
    if removed {
      var added := store.TryAdd(destination, item, amount);
      if added {
        outcome := Moved;
      } else {
        var restored := store.TryAdd(source, item, amount);
        if restored {
          outcome := RolledBack;
        } else {
          outcome := Lost;
        }
      }
    } else {
      outcome := RemoveFailed;
    }
  }

  /** The removal fails exactly when the source holds fewer than `amount` units, and then
      neither inventory changes and no addition is made. */
  lemma RemoveFailedChangesNothing(bags: Bags, accepts: Acceptor, source: Entity, destination: Entity,
                                   item: ItemId, amount: nat)
    ensures var t := TransferLeg(bags, accepts, source, destination, item, amount);
      (t.outcome == RemoveFailed <==> CountIn(bags, source, item) < amount) &&
      (t.outcome == RemoveFailed ==> t.bags == bags)
  {
  }

  /** A successful leg takes exactly `amount` from the source, gives exactly `amount` to the
      destination and changes no other count. */
  lemma MovedShiftsAmount(bags: Bags, accepts: Acceptor, source: Entity, destination: Entity,
                          item: ItemId, amount: nat)
    requires source != destination
    ensures var t := TransferLeg(bags, accepts, source, destination, item, amount);
      t.outcome == Moved ==>
        && CountIn(t.bags, source, item) == CountIn(bags, source, item) - amount
        && CountIn(t.bags, destination, item) == CountIn(bags, destination, item) + amount
        && forall e, i :: (e != source && e != destination) || i != item ==> CountIn(t.bags, e, i) == CountIn(bags, e, i)
  {
  }

  /** When the destination refuses and the add-back succeeds, every count ends as it began:
      the source is restored and the destination received nothing. */
  lemma RolledBackRestores(bags: Bags, accepts: Acceptor, source: Entity, destination: Entity,
                           item: ItemId, amount: nat)
    ensures var t := TransferLeg(bags, accepts, source, destination, item, amount);
      t.outcome == RolledBack ==> forall e, i :: CountIn(t.bags, e, i) == CountIn(bags, e, i)
  {
  }

  /** When the destination and the add-back both refuse, the source is short by exactly
      `amount` and no inventory was credited. */
  lemma LostDrainsSource(bags: Bags, accepts: Acceptor, source: Entity, destination: Entity,
                         item: ItemId, amount: nat)
    ensures var t := TransferLeg(bags, accepts, source, destination, item, amount);
      t.outcome == Lost ==>
        && CountIn(t.bags, source, item) + amount == CountIn(bags, source, item)
        && forall e, i :: e != source || i != item ==> CountIn(t.bags, e, i) == CountIn(bags, e, i)
  {
  }

  /** Which outcome a leg reaches: each addition is tried once, the add-back only after the
      destination refused, with the same amount. */
  lemma OutcomeDecidedByHost(bags: Bags, accepts: Acceptor, source: Entity, destination: Entity,
                             item: ItemId, amount: nat)
    requires CountIn(bags, source, item) >= amount
    ensures var drained := Removed(bags, source, item, amount).value;
      var t := TransferLeg(bags, accepts, source, destination, item, amount);
      && (t.outcome == Moved <==> accepts(destination, item, amount, BagOf(drained, destination)))
      && (t.outcome == RolledBack <==>
            !accepts(destination, item, amount, BagOf(drained, destination)) && accepts(source, item, amount, BagOf(drained, source)))
      && (t.outcome == Lost <==>
            !accepts(destination, item, amount, BagOf(drained, destination)) && !accepts(source, item, amount, BagOf(drained, source)))
  {
  }

  /** Units are conserved over any set of inventories that holds both ends of the leg,
      except for a lost leg, which destroys exactly `amount` units of `item`: the units
      removed equal the units added plus the units restored. */
  lemma TransferConserves(bags: Bags, accepts: Acceptor, source: Entity, destination: Entity,
                          item: ItemId, amount: nat, es: seq<Entity>, x: ItemId)
    requires NoDuplicates(es) && source in es && destination in es
    ensures var t := TransferLeg(bags, accepts, source, destination, item, amount);
      Total(t.bags, es, x) + (if t.outcome == Lost && x == item then amount else 0) == Total(bags, es, x)
  {
    match Removed(bags, source, item, amount)
    case None =>
    case Some(drained) =>
      TotalShift(bags, drained, es, x, source, if x == item then -(amount as int) else 0);
      match Added(drained, accepts, destination, item, amount)
      case Some(moved) =>
        TotalShift(drained, moved, es, x, destination, if x == item then amount else 0);
      case None =>
        match Added(drained, accepts, source, item, amount)
        case Some(restored) =>
          TotalShift(drained, restored, es, x, source, if x == item then amount else 0);
        case None =>
  }

  /** A leg changes only the count of `item` in the source and the destination. */
  lemma TransferFrame(bags: Bags, accepts: Acceptor, source: Entity, destination: Entity,
                      item: ItemId, amount: nat, e: Entity, x: ItemId)
    requires (e != source && e != destination) || x != item
    ensures CountIn(TransferLeg(bags, accepts, source, destination, item, amount).bags, e, x) == CountIn(bags, e, x)
  {
  }
}

/** The host's inventory operations that the engine calls (`GetInventoryItemCount`,
    `TryRemoveInventoryItem`, `TryAddInventoryItem` of the server game manager), modelled
    as a store object whose counts they read and change. */
module HostStore {
  import opened Ecs

  /** Whether the host accepts `amount` units of an item into an inventory with the given
      contents. The host's capacity rules are not visible, so this is an oracle. */
  type Acceptor = (Entity, ItemId, nat, Bag) -> bool

  /** The store after `TryRemoveInventoryItem`: it succeeds exactly when the inventory holds
      at least `amount` units, and then lowers that one count by `amount`. */
  function Removed(bags: Bags, e: Entity, item: ItemId, amount: nat): (r: Option<Bags>)
    ensures r.Some? <==> CountIn(bags, e, item) >= amount
    ensures r.Some? ==> forall e', i' ::
      CountIn(r.value, e', i') == CountIn(bags, e', i') - (if e' == e && i' == item then amount else 0)
  {
    if CountIn(bags, e, item) >= amount then Some(WithCount(bags, e, item, CountIn(bags, e, item) - amount))
    else None
  }

  /** The store after `TryAddInventoryItem`: it succeeds exactly when the host accepts the
      units, and then raises that one count by `amount`. */
  function Added(bags: Bags, accepts: Acceptor, e: Entity, item: ItemId, amount: nat): (r: Option<Bags>)
    ensures r.Some? <==> accepts(e, item, amount, BagOf(bags, e))
    ensures r.Some? ==> forall e', i' ::
      CountIn(r.value, e', i') == CountIn(bags, e', i') + (if e' == e && i' == item then amount else 0)
  {
    if accepts(e, item, amount, BagOf(bags, e)) then Some(WithCount(bags, e, item, CountIn(bags, e, item) + amount))
    else None
  }

  /** The server game manager's view of every inventory. */
  class Store {
    var bags: Bags
    const accepts: Acceptor

    constructor (bags: Bags, accepts: Acceptor)
      ensures this.bags == bags && this.accepts == accepts
    {
      this.bags := bags;
      this.accepts := accepts;
    }

    /** `GetInventoryItemCount`: the units of `item` in inventory `e`, zero when the store has
        no such inventory or the inventory holds none of the item. */
    function Count(e: Entity, item: ItemId): (n: nat)
      reads this
      ensures e in bags && item in bags[e] ==> n == bags[e][item]
      ensures e !in bags || item !in bags[e] ==> n == 0
    {
      CountIn(bags, e, item)
    }

    /** `TryRemoveInventoryItem`. */
    method TryRemove(e: Entity, item: ItemId, amount: nat) returns (ok: bool)
      modifies this
      ensures ok <==> old(Count(e, item)) >= amount
      ensures bags == if ok then Removed(old(bags), e, item, amount).value else old(bags)
    {
      var r := Removed(bags, e, item, amount);
      ok := r.Some?;
      if ok {
        bags := r.value;
      }
    }

    /** `TryAddInventoryItem`. */
    method TryAdd(e: Entity, item: ItemId, amount: nat) returns (ok: bool)
      modifies this
      ensures ok <==> accepts(e, item, amount, BagOf(old(bags), e))
      ensures bags == if ok then Added(old(bags), accepts, e, item, amount).value else old(bags)
    {
      var r := Added(bags, accepts, e, item, amount);
      ok := r.Some?;
      if ok {
        bags := r.value;
      }
    }
  }
}

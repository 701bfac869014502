/** Shared vocabulary: entity handles, item keys and inventory counts of the host's
    entity-component store, as the stashing engine sees them. */
module Ecs {

  datatype Option<+T> = None | Some(value: T)

  /** An opaque entity handle; the engine only compares handles for equality. */
  type Entity = int

  /** The `GuidHash` of a `PrefabGUID`: an opaque item-type key. */
  type ItemId = int

  /** The `GuidHash` of an empty inventory slot. */
  const EmptySlot: ItemId := 0

  /** Unit counts per item type of one inventory. */
  type Bag = map<ItemId, nat>

  /** The counts of every inventory entity in the store. */
  type Bags = map<Entity, Bag>

  function BagOf(bags: Bags, e: Entity): Bag
  {
    if e in bags then bags[e] else map[]
  }

  /** What `GetInventoryItemCount` reports: an absent inventory or item counts as zero. */
  function CountIn(bags: Bags, e: Entity, item: ItemId): nat
  {
    var b := BagOf(bags, e);
    if item in b then b[item] else 0
  }

  /** The store with the count of `item` in `e` set to `n` and every other count kept. */
  function WithCount(bags: Bags, e: Entity, item: ItemId, n: nat): (r: Bags)
    ensures forall e', i' :: CountIn(r, e', i') == if e' == e && i' == item then n else CountIn(bags, e', i')
  {
    bags[e := BagOf(bags, e)[item := n]]
  }

  /** No entity appears twice. */
  predicate NoDuplicates(es: seq<Entity>)
  {
    forall j, k :: 0 <= j < k < |es| ==> es[j] != es[k]
  }

  /** The units of `item` held by the inventories `es` together. */
  function Total(bags: Bags, es: seq<Entity>, item: ItemId): nat
  {
    if es == [] then 0 else CountIn(bags, es[0], item) + Total(bags, es[1..], item)
  }

  /** Changing the count of one inventory by `d` changes the total over a duplicate-free
      list by `d` if the list holds that inventory, and by nothing otherwise. */
  lemma {:induction false} TotalShift(b1: Bags, b2: Bags, es: seq<Entity>, item: ItemId, e0: Entity, d: int)
    requires NoDuplicates(es)
    requires forall e :: e != e0 ==> CountIn(b2, e, item) == CountIn(b1, e, item)
    requires CountIn(b2, e0, item) == CountIn(b1, e0, item) + d
    ensures Total(b2, es, item) == Total(b1, es, item) + (if e0 in es then d else 0)
    decreases |es|
  {
    if es != [] {
      assert NoDuplicates(es[1..]) by {
        forall j, k | 0 <= j < k < |es[1..]| ensures es[1..][j] != es[1..][k] {
          assert es[1..][j] == es[j + 1] && es[1..][k] == es[k + 1];
        }
      }
      TotalShift(b1, b2, es[1..], item, e0, d);
      if es[0] == e0 {
        assert e0 !in es[1..] by {
          forall k | 0 <= k < |es[1..]| ensures es[1..][k] != e0 {
            assert es[1..][k] == es[k + 1];
          }
        }
      }
      assert e0 in es <==> es[0] == e0 || e0 in es[1..];
    }
  }
}

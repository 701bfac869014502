/** The index scan of `Utilities.StashServantInventory`: walk the allied stashes in the
    order given, pick the first "spoils" stash whose inventory resolves as the overflow
    target (which ends the scan), and index every item held by the matching attached
    inventories of the stashes seen before it. */
module StashIndex {
  import opened Ecs

  /** An entity of a stash's `AttachedBuffer`: its `PrefabGUID` when it has one, and the
      item keys of its `InventoryBuffer` slots. */
  datatype Attached = Attached(entity: Entity, prefab: Option<ItemId>, slots: seq<ItemId>)

  /** An allied stash: its entity, its `NameableInteractable` name, its own inventory entity
      when `TryGetInventoryEntity` resolves one, and its `AttachedBuffer` when it has one. */
  datatype Stash = Stash(id: Entity, name: string, inventory: Option<Entity>, attached: Option<seq<Attached>>)

  /** A destination: a stash and the attached inventory that receives items. */
  datatype Entry = Entry(stash: Entity, inventory: Entity)

  /** The `matches` map: item key to its destinations, in scan order. */
  type StashMatches = map<ItemId, seq<Entry>>

  /** Stashes with pairwise distinct entities, as the host's stash query returns them. */
  predicate UniqueIds(stashes: seq<Stash>)
  {
    forall j, k :: 0 <= j < k < |stashes| ==> stashes[j].id != stashes[k].id
  }

  // ---------------------------------------------------------------- the spoils test

  function LowerChar(c: char): char
  {
    if 'A' <= c <= 'Z' then (c as int + 32) as char else c
  }

  /** `ToLower`, restricted to ASCII letters. */
  function ToLower(s: string): (r: string)
    ensures |r| == |s| && forall k :: 0 <= k < |s| ==> r[k] == LowerChar(s[k])
  {
    if s == [] then [] else [LowerChar(s[0])] + ToLower(s[1..])
  }

  /** `String.Contains`: `pattern` occurs in `s` at some position. */
  predicate Contains(s: string, pattern: string)
  {
    exists k :: 0 <= k <= |s| && OccursAt(s, pattern, k)
  }

  predicate OccursAt(s: string, pattern: string, k: nat)
  {
    k + |pattern| <= |s| && s[k..k + |pattern|] == pattern
  }

  const SpoilsMarker: string := "spoils"

  /** The overflow-stash test of the scan: the lowercased name contains "spoils". Read on the
      name itself: some six-character window of it lower-cases to "spoils". */
  predicate IsSpoilsName(name: string): (r: bool)
    ensures r <==> exists k :: 0 <= k <= |name| && SpoilsAt(name, k)
  {
    SpoilsWindows(name);
    Contains(ToLower(name), SpoilsMarker)
  }

  /** The window of `name` at `k` lower-cases to "spoils". */
  predicate SpoilsAt(name: string, k: nat)
  {
    k + |SpoilsMarker| <= |name| && ToLower(name[k..k + |SpoilsMarker|]) == SpoilsMarker
  }

  /** The marker occurs in the lower-cased name at `k` exactly when the name's window at `k`
      lower-cases to the marker. */
  lemma SpoilsWindows(name: string)
    ensures forall k: nat :: OccursAt(ToLower(name), SpoilsMarker, k) <==> SpoilsAt(name, k)
  {
    var w := |SpoilsMarker|;
    forall k: nat ensures OccursAt(ToLower(name), SpoilsMarker, k) <==> SpoilsAt(name, k) {
      if k + w <= |name| {
        var win, lowered := ToLower(name)[k..k + w], ToLower(name[k..k + w]);
        assert forall j :: 0 <= j < w ==> win[j] == lowered[j];
        assert win == lowered;
      }
    }
  }

  /** The test ignores letter case: lowercasing a name first decides nothing new. */
  lemma SpoilsNameIgnoresCase(name: string)
    ensures IsSpoilsName(ToLower(name)) == IsSpoilsName(name)
  {
    assert ToLower(ToLower(name)) == ToLower(name);
  }

  // ---------------------------------------------------------------- where the scan stops

  /** A stash that ends the scan: spoils-named and with a resolvable inventory. */
  predicate IsSpoilsTarget(s: Stash)
  {
    IsSpoilsName(s.name) && s.inventory.Some?
  }

  /** How many stashes the scan visits before it stops at the first spoils target. */
  function ScanLength(stashes: seq<Stash>): (k: nat)
    ensures k <= |stashes|
    ensures forall j :: 0 <= j < k ==> !IsSpoilsTarget(stashes[j])
    ensures k < |stashes| ==> IsSpoilsTarget(stashes[k])
  {
    if stashes == [] then 0
    else if IsSpoilsTarget(stashes[0]) then 0
    else 1 + ScanLength(stashes[1..])
  }

  /** The stashes that the scan can index. */
  function Scanned(stashes: seq<Stash>): seq<Stash>
  {
    stashes[..ScanLength(stashes)]
  }

  /** `missionStash` after the scan: the first spoils target, if any. */
  function SpoilsStash(stashes: seq<Stash>): (r: Option<Entry>)
    ensures r.None? <==> forall k :: 0 <= k < |stashes| ==> !IsSpoilsTarget(stashes[k])
    ensures r.Some? ==>
      exists k :: 0 <= k < |stashes| && IsSpoilsTarget(stashes[k]) &&
        (forall j :: 0 <= j < k ==> !IsSpoilsTarget(stashes[j])) &&
        r.value == Entry(stashes[k].id, stashes[k].inventory.value)
  {
    var k := ScanLength(stashes);
    if k < |stashes| then Some(Entry(stashes[k].id, stashes[k].inventory.value)) else None
  }

  // ---------------------------------------------------------------- what a stash contributes

  /** An attached entity that records `item`: an external inventory holding a non-empty slot
      of that item. */
  predicate Matches(a: Attached, item: ItemId, prefab: ItemId)
  {
    item != EmptySlot && a.prefab == Some(prefab) && item in a.slots
  }

  /** The position of the first attached entity that records `item`. */
  function FirstMatch(atts: seq<Attached>, item: ItemId, prefab: ItemId): (r: Option<nat>)
    ensures r.Some? ==> (r.value < |atts| && Matches(atts[r.value], item, prefab) &&
      forall b :: 0 <= b < r.value ==> !Matches(atts[b], item, prefab))
    ensures r.None? ==> forall b :: 0 <= b < |atts| ==> !Matches(atts[b], item, prefab)
  {
    if atts == [] then None
    else match FirstMatch(atts[..|atts| - 1], item, prefab)
      case Some(b) => Some(b)
      case None => if Matches(atts[|atts| - 1], item, prefab) then Some(|atts| - 1) else None
  }

  /** The inventory a visited stash offers for `item`: none for a spoils-named stash (whose
      inventory did not resolve), none without an `AttachedBuffer`, and otherwise its first
      attached inventory that records `item`. */
  function Contribution(s: Stash, item: ItemId, prefab: ItemId): (r: Option<Entity>)
    ensures r.Some? <==> (!IsSpoilsName(s.name) && s.attached.Some? &&
      exists a :: 0 <= a < |s.attached.value| && Matches(s.attached.value[a], item, prefab))
    ensures r.Some? ==>
      exists a :: 0 <= a < |s.attached.value| && Matches(s.attached.value[a], item, prefab) &&
        r.value == s.attached.value[a].entity &&
        forall b :: 0 <= b < a ==> !Matches(s.attached.value[b], item, prefab)
  {
    if IsSpoilsName(s.name) || s.attached.None? then None
    else match FirstMatch(s.attached.value, item, prefab)
      case Some(a) => Some(s.attached.value[a].entity)
      case None => None
  }

  /** No stash is listed twice. */
  predicate DistinctStashes(entries: seq<Entry>)
  {
    forall j, k :: 0 <= j < k < |entries| ==> entries[j].stash != entries[k].stash
  }

  /** Some destination of the list belongs to stash `id`. */
  predicate HasStash(entries: seq<Entry>, id: Entity)
  {
    exists e :: e in entries && e.stash == id
  }

  /** The destinations of `item` after visiting one more stash: its contribution is appended
      unless the stash is already listed. */
  function Extend(prev: seq<Entry>, s: Stash, item: ItemId, prefab: ItemId): seq<Entry>
  {
    match Contribution(s, item, prefab)
    case None => prev
    case Some(inventory) => if HasStash(prev, s.id) then prev else prev + [Entry(s.id, inventory)]
  }

  /** The destinations of `item` after visiting `scanned`. */
  function Entries(scanned: seq<Stash>, item: ItemId, prefab: ItemId): seq<Entry>
  {
    if scanned == [] then []
    else Extend(Entries(scanned[..|scanned| - 1], item, prefab), scanned[|scanned| - 1], item, prefab)
  }

  /** Every contributing stash, in scan order, with no de-duplication. */
  function Collect(scanned: seq<Stash>, item: ItemId, prefab: ItemId): seq<Entry>
  {
    if scanned == [] then []
    else
      var last := scanned[|scanned| - 1];
      Collect(scanned[..|scanned| - 1], item, prefab) +
        match Contribution(last, item, prefab)
        case None => []
        case Some(inventory) => [Entry(last.id, inventory)]
  }

  function StashItems(s: Stash): set<ItemId>
  {
    match s.attached
    case None => {}
    case Some(atts) => set a, x | a in atts && x in a.slots :: x
  }

  /** Every item key in a slot of an attached entity of `scanned`. */
  function ItemsOf(scanned: seq<Stash>): set<ItemId>
  {
    if scanned == [] then {} else ItemsOf(scanned[..|scanned| - 1]) + StashItems(scanned[|scanned| - 1])
  }

  /** The index of `scanned`: each item with at least one destination, mapped to them. */
  function IndexOf(scanned: seq<Stash>, prefab: ItemId): StashMatches
  {
    map x | x in ItemsOf(scanned) && Entries(scanned, x, prefab) != [] :: Entries(scanned, x, prefab)
  }

  /** The index that the scan of the whole stash list builds. */
  function BuildIndex(stashes: seq<Stash>, prefab: ItemId): StashMatches
  {
    IndexOf(Scanned(stashes), prefab)
  }

  // ---------------------------------------------------------------- the scan itself

  /** The first phase of `StashServantInventory`: lines 46-77. */
  method ScanStashes(stashes: seq<Stash>, prefab: ItemId) returns (matches: StashMatches, spoils: Option<Entry>)
    ensures matches == BuildIndex(stashes, prefab)
    ensures spoils == SpoilsStash(stashes)
  {
    matches := map[];
    spoils := None;
    var i := 0;
    while i < |stashes|
      invariant i <= ScanLength(stashes)
      invariant spoils == None
      invariant Represents(matches, stashes[..i], prefab)
    {
      var stash := stashes[i];
      assert stashes[..i + 1] == stashes[..i] + [stash];
      if IsSpoilsName(stash.name) && spoils.None? {
        if stash.inventory.None? {
          RepresentsSnocNone(matches, stashes[..i], stash, prefab);
          i := i + 1;
          continue;
        }
        spoils := Some(Entry(stash.id, stash.inventory.value));
        break;
      }
      if stash.attached.None? {
        RepresentsSnocNone(matches, stashes[..i], stash, prefab);
        i := i + 1;
        continue;
      }
      var buffer := stash.attached.value;
      RepresentsSnocNone(matches, stashes[..i], stash.(attached := Some([])), prefab);
      assert buffer[..0] == [];
      for a := 0 to |buffer|
        invariant Represents(matches, stashes[..i] + [stash.(attached := Some(buffer[..a]))], prefab)
      {
        var attached := buffer[a];
        assert buffer[..a + 1] == buffer[..a] + [attached];
        if attached.prefab.None? || attached.prefab.value != prefab {
          SkipAttached(matches, stashes[..i], stash, buffer[..a], attached, prefab);
          continue;
        }
        SkipAttached(matches, stashes[..i], stash, buffer[..a], attached.(slots := []), prefab);
        assert attached.slots[..0] == [];
        for j := 0 to |attached.slots|
          invariant Represents(matches,
            stashes[..i] + [stash.(attached := Some(buffer[..a] + [attached.(slots := attached.slots[..j])]))], prefab)
        {
          var item := attached.slots[j];
          RecordSlot(matches, stashes[..i], stash, buffer[..a], attached, j, prefab);
          if item == EmptySlot {
            continue;
          }
          if item !in matches {
            matches := matches[item := [Entry(stash.id, attached.entity)]];
          } else if HasStash(matches[item], stash.id) {
            continue;
          } else {
            matches := matches[item := matches[item] + [Entry(stash.id, attached.entity)]];
          }
        }
        assert attached.(slots := attached.slots[..|attached.slots|]) == attached;
      }
      assert buffer[..|buffer|] == buffer;
      assert stash.(attached := Some(buffer[..|buffer|])) == stash;
      i := i + 1;
    }
    assert i == ScanLength(stashes);
    RepresentsIndex(matches, stashes[..i], prefab);
  }

  // ---------------------------------------------------------------- proof of the scan

  /** `m` is the index of `scanned`, key by key. */
  ghost predicate Represents(m: StashMatches, scanned: seq<Stash>, prefab: ItemId)
  {
    forall x :: (x in m <==> Entries(scanned, x, prefab) != []) && (x in m ==> m[x] == Entries(scanned, x, prefab))
  }

  /** `matches` after the scan records one slot of an attached inventory of stash `e.stash`. */
  ghost function Record(m: StashMatches, item: ItemId, e: Entry): StashMatches
  {
    if item == EmptySlot then m
    else if item !in m then m[item := [e]]
    else if HasStash(m[item], e.stash) then m
    else m[item := m[item] + [e]]
  }

  lemma EntriesSnoc(scanned: seq<Stash>, s: Stash, item: ItemId, prefab: ItemId)
    ensures Entries(scanned + [s], item, prefab) == Extend(Entries(scanned, item, prefab), s, item, prefab)
  {
    assert (scanned + [s])[..|scanned|] == scanned;
  }

  lemma ExtendHasStash(prev: seq<Entry>, s: Stash, item: ItemId, prefab: ItemId)
    requires Contribution(s, item, prefab).Some?
    ensures HasStash(Extend(prev, s, item, prefab), s.id)
  {
    if !HasStash(prev, s.id) {
      var e := Entry(s.id, Contribution(s, item, prefab).value);
      assert e in prev + [e];
    }
  }

  /** A stash that offers nothing leaves the index as it was. */
  lemma RepresentsSnocNone(m: StashMatches, scanned: seq<Stash>, s: Stash, prefab: ItemId)
    requires Represents(m, scanned, prefab)
    requires IsSpoilsName(s.name) || s.attached.None? || s.attached.value == []
    ensures Represents(m, scanned + [s], prefab)
  {
    forall x ensures Entries(scanned + [s], x, prefab) == Entries(scanned, x, prefab) {
      EntriesSnoc(scanned, s, x, prefab);
    }
  }

  /** Appending an attached entity that records nothing changes nothing. */
  lemma SkipAttached(m: StashMatches, scanned: seq<Stash>, s: Stash, atts: seq<Attached>, att: Attached, prefab: ItemId)
    requires Represents(m, scanned + [s.(attached := Some(atts))], prefab)
    requires att.prefab != Some(prefab) || att.slots == []
    ensures Represents(m, scanned + [s.(attached := Some(atts + [att]))], prefab)
  {
    var s0, s1 := s.(attached := Some(atts)), s.(attached := Some(atts + [att]));
    forall x ensures Entries(scanned + [s1], x, prefab) == Entries(scanned + [s0], x, prefab) {
      EntriesSnoc(scanned, s0, x, prefab);
      EntriesSnoc(scanned, s1, x, prefab);
      assert (atts + [att])[..|atts|] == atts;
      assert Contribution(s1, x, prefab) == Contribution(s0, x, prefab);
    }
  }

  /** One more slot of an attached inventory can only give `item` its first destination in
      the current stash. */
  lemma ContributionSlot(s: Stash, atts: seq<Attached>, att: Attached, j: nat, x: ItemId, prefab: ItemId)
    requires !IsSpoilsName(s.name) && att.prefab == Some(prefab) && j < |att.slots|
    ensures var c0 := Contribution(s.(attached := Some(atts + [att.(slots := att.slots[..j])])), x, prefab);
      Contribution(s.(attached := Some(atts + [att.(slots := att.slots[..j + 1])])), x, prefab) ==
        if c0.Some? then c0
        else if x == att.slots[j] && x != EmptySlot then Some(att.entity)
        else None
  {
    var a0, a1 := att.(slots := att.slots[..j]), att.(slots := att.slots[..j + 1]);
    assert (atts + [a0])[..|atts|] == atts;
    assert (atts + [a1])[..|atts|] == atts;
    assert att.slots[..j + 1] == att.slots[..j] + [att.slots[j]];
    assert Matches(a1, x, prefab) <==> Matches(a0, x, prefab) || (x == att.slots[j] && x != EmptySlot);
  }

  /** The inner loop's step: recording slot `j` keeps `matches` the index of what was seen. */
  lemma RecordSlot(m: StashMatches, scanned: seq<Stash>, s: Stash, atts: seq<Attached>, att: Attached, j: nat, prefab: ItemId)
    requires !IsSpoilsName(s.name) && att.prefab == Some(prefab) && j < |att.slots|
    requires Represents(m, scanned + [s.(attached := Some(atts + [att.(slots := att.slots[..j])]))], prefab)
    ensures Represents(Record(m, att.slots[j], Entry(s.id, att.entity)),
      scanned + [s.(attached := Some(atts + [att.(slots := att.slots[..j + 1])]))], prefab)
  {
    var s0 := s.(attached := Some(atts + [att.(slots := att.slots[..j])]));
    var s1 := s.(attached := Some(atts + [att.(slots := att.slots[..j + 1])]));
    var y := att.slots[j];
    var m' := Record(m, y, Entry(s.id, att.entity));
    forall x ensures (x in m' <==> Entries(scanned + [s1], x, prefab) != []) &&
                     (x in m' ==> m'[x] == Entries(scanned + [s1], x, prefab))
    {
      EntriesSnoc(scanned, s0, x, prefab);
      EntriesSnoc(scanned, s1, x, prefab);
      ContributionSlot(s, atts, att, j, x, prefab);
      var prev := Entries(scanned, x, prefab);
      if Contribution(s0, x, prefab).Some? {
        ExtendHasStash(prev, s0, x, prefab);
      }
    }
  }

  lemma {:induction false} EntriesInItems(scanned: seq<Stash>, x: ItemId, prefab: ItemId)
    requires Entries(scanned, x, prefab) != []
    ensures x in ItemsOf(scanned)
  {
    var init, last := scanned[..|scanned| - 1], scanned[|scanned| - 1];
    if Entries(init, x, prefab) != [] {
      EntriesInItems(init, x, prefab);
    } else {
      var atts := last.attached.value;
      var a :| 0 <= a < |atts| && Matches(atts[a], x, prefab);
      assert atts[a] in atts;
    }
  }

  /** A map that represents the index of `scanned` is its `IndexOf`. */
  lemma RepresentsIndex(m: StashMatches, scanned: seq<Stash>, prefab: ItemId)
    requires Represents(m, scanned, prefab)
    ensures m == IndexOf(scanned, prefab)
  {
    forall x | x in m ensures x in ItemsOf(scanned) {
      EntriesInItems(scanned, x, prefab);
    }
    assert m.Keys == IndexOf(scanned, prefab).Keys;
  }

  // ---------------------------------------------------------------- properties of the index

  lemma {:induction false} EntriesNeverEmptySlot(scanned: seq<Stash>, prefab: ItemId)
    ensures Entries(scanned, EmptySlot, prefab) == []
  {
    if scanned != [] {
      EntriesNeverEmptySlot(scanned[..|scanned| - 1], prefab);
    }
  }

  lemma {:induction false} EntriesNoStashTwice(scanned: seq<Stash>, item: ItemId, prefab: ItemId)
    ensures DistinctStashes(Entries(scanned, item, prefab))
  {
    if scanned != [] {
      var init, last := scanned[..|scanned| - 1], scanned[|scanned| - 1];
      EntriesNoStashTwice(init, item, prefab);
      var prev := Entries(init, item, prefab);
      assert Entries(scanned, item, prefab) == Extend(prev, last, item, prefab);
      match Contribution(last, item, prefab)
      case None =>
        assert Entries(scanned, item, prefab) == prev;
      case Some(inventory) =>
        if !HasStash(prev, last.id) {
          assert Entries(scanned, item, prefab) == prev + [Entry(last.id, inventory)];
          var es := prev + [Entry(last.id, inventory)];
          forall j, k | 0 <= j < k < |es| ensures es[j].stash != es[k].stash {
            assert es[j] == prev[j];
            if k == |prev| {
              assert es[j] in prev;
            } else {
              assert es[k] == prev[k];
            }
          }
        }
    }
  }

  lemma {:induction false} EntriesOrigin(scanned: seq<Stash>, item: ItemId, prefab: ItemId, e: Entry)
    requires e in Entries(scanned, item, prefab)
    ensures exists p ::
      0 <= p < |scanned| && scanned[p].id == e.stash && Contribution(scanned[p], item, prefab) == Some(e.inventory)
  {
    var init, last := scanned[..|scanned| - 1], scanned[|scanned| - 1];
    if e in Entries(init, item, prefab) {
      EntriesOrigin(init, item, prefab, e);
      var p :| 0 <= p < |init| && init[p].id == e.stash && Contribution(init[p], item, prefab) == Some(e.inventory);
      assert scanned[p] == init[p];
    }
  }

  lemma {:induction false} EntriesComplete(scanned: seq<Stash>, item: ItemId, prefab: ItemId, p: nat)
    requires p < |scanned| && Contribution(scanned[p], item, prefab).Some?
    ensures HasStash(Entries(scanned, item, prefab), scanned[p].id)
  {
    var init, last := scanned[..|scanned| - 1], scanned[|scanned| - 1];
    var prev := Entries(init, item, prefab);
    if p == |scanned| - 1 {
      ExtendHasStash(prev, last, item, prefab);
    } else {
      assert init[p] == scanned[p];
      EntriesComplete(init, item, prefab, p);
      var e :| e in prev && e.stash == scanned[p].id;
      assert e in Extend(prev, last, item, prefab);
    }
  }

  lemma {:induction false} EntriesInScanOrder(scanned: seq<Stash>, item: ItemId, prefab: ItemId)
    requires UniqueIds(scanned)
    ensures Entries(scanned, item, prefab) == Collect(scanned, item, prefab)
  {
    if scanned != [] {
      var init, last := scanned[..|scanned| - 1], scanned[|scanned| - 1];
      assert UniqueIds(init);
      EntriesInScanOrder(init, item, prefab);
      forall e | e in Entries(init, item, prefab) ensures e.stash != last.id {
        EntriesOrigin(init, item, prefab, e);
        var p :| 0 <= p < |init| && init[p].id == e.stash && Contribution(init[p], item, prefab) == Some(e.inventory);
        assert scanned[p] == init[p];
      }
    }
  }

  /** Every key of the index is a real item (never the empty-slot key 0), every key has at
      least one destination, and no stash is listed twice for one key. */
  lemma IndexWellFormed(stashes: seq<Stash>, prefab: ItemId)
    ensures forall x :: x in BuildIndex(stashes, prefab) ==>
      && x != EmptySlot
      && BuildIndex(stashes, prefab)[x] != []
      && DistinctStashes(BuildIndex(stashes, prefab)[x])
  {
    EntriesNeverEmptySlot(Scanned(stashes), prefab);
    forall x | x in BuildIndex(stashes, prefab) {
      EntriesNoStashTwice(Scanned(stashes), x, prefab);
    }
  }

  /** Each destination of an item is a stash the scan visited before stopping, paired with
      that stash's contribution: its first external attached inventory holding the item. */
  lemma IndexEntriesAreContributions(stashes: seq<Stash>, prefab: ItemId, x: ItemId, e: Entry)
    requires x in BuildIndex(stashes, prefab) && e in BuildIndex(stashes, prefab)[x]
    ensures exists p ::
      0 <= p < ScanLength(stashes) && stashes[p].id == e.stash && Contribution(stashes[p], x, prefab) == Some(e.inventory)
  {
    EntriesOrigin(Scanned(stashes), x, prefab, e);
    var p :| 0 <= p < |Scanned(stashes)| && Scanned(stashes)[p].id == e.stash &&
      Contribution(Scanned(stashes)[p], x, prefab) == Some(e.inventory);
    assert Scanned(stashes)[p] == stashes[p];
  }

  /** Conversely, every visited stash that offers an inventory for an item is listed under
      that item. */
  lemma IndexComplete(stashes: seq<Stash>, prefab: ItemId, p: nat, x: ItemId)
    requires p < ScanLength(stashes) && Contribution(stashes[p], x, prefab).Some?
    ensures x in BuildIndex(stashes, prefab) && HasStash(BuildIndex(stashes, prefab)[x], stashes[p].id)
  {
    assert Scanned(stashes)[p] == stashes[p];
    EntriesComplete(Scanned(stashes), x, prefab, p);
    EntriesInItems(Scanned(stashes), x, prefab);
  }

  /** With distinct stash entities, an item's destinations are exactly the contributions of
      the visited stashes, in scan order. */
  lemma IndexInScanOrder(stashes: seq<Stash>, prefab: ItemId, x: ItemId)
    requires UniqueIds(stashes) && x in BuildIndex(stashes, prefab)
    ensures BuildIndex(stashes, prefab)[x] == Collect(Scanned(stashes), x, prefab)
  {
    assert UniqueIds(Scanned(stashes));
    EntriesInScanOrder(Scanned(stashes), x, prefab);
  }

  /** The spoils stash is never a destination of any item. */
  lemma SpoilsNeverIndexed(stashes: seq<Stash>, prefab: ItemId)
    requires UniqueIds(stashes) && SpoilsStash(stashes).Some?
    ensures forall x :: x in BuildIndex(stashes, prefab) ==>
      !HasStash(BuildIndex(stashes, prefab)[x], SpoilsStash(stashes).value.stash)
  {
    var index := BuildIndex(stashes, prefab);
    forall x: ItemId, e: Entry | x in index && e in index[x] ensures e.stash != SpoilsStash(stashes).value.stash {
      IndexEntriesAreContributions(stashes, prefab, x, e);
    }
  }

  /** Once a spoils target is found, nothing after it is looked at: appending stashes
      changes neither the spoils target nor the index. */
  lemma LaterStashesIgnored(stashes: seq<Stash>, tail: seq<Stash>, prefab: ItemId)
    requires SpoilsStash(stashes).Some?
    ensures SpoilsStash(stashes + tail) == SpoilsStash(stashes)
    ensures BuildIndex(stashes + tail, prefab) == BuildIndex(stashes, prefab)
  {
    var k := ScanLength(stashes);
    assert forall j :: 0 <= j < |stashes| ==> (stashes + tail)[j] == stashes[j];
    assert IsSpoilsTarget((stashes + tail)[k]);
    assert ScanLength(stashes + tail) == k;
    assert Scanned(stashes + tail) == Scanned(stashes);
  }
}

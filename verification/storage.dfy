/** The in-memory repository (`MemStorage`): two insertion-ordered maps from
    id to record, the optional preferences singleton, and one id counter per
    entity kind. Every operation is a function from the state before the
    call to the state after it, paired with the call's return value. */
module Storage {
  import opened Wrappers
  import opened Schema
  import opened OrderedMap

  datatype MemStorage = MemStorage(
    clothingItems: seq<Entry<int, ClothingItem>>,
    outfits: seq<Entry<int, Outfit>>,
    preferences: Option<Preferences>,
    currentItemId: int,
    currentOutfitId: int,
    currentPrefId: int)

  /** The keys of `es` increase strictly in insertion order and all lie in
      [1, counter): a key is handed out by the counter exactly once. */
  predicate SortedIdsBelow<V>(es: seq<Entry<int, V>>, counter: int)
  {
    && (forall i, j | 0 <= i < j < |es| :: es[i].key < es[j].key)
    && (forall i | 0 <= i < |es| :: 1 <= es[i].key < counter)
  }

  /** The invariant every reachable repository state satisfies. */
  predicate Valid(s: MemStorage)
  {
    && s.currentItemId >= 1
    && s.currentOutfitId >= 1
    && s.currentPrefId == 1
    && SortedIdsBelow(s.clothingItems, s.currentItemId)
    && (forall i | 0 <= i < |s.clothingItems| :: s.clothingItems[i].value.id == s.clothingItems[i].key)
    && SortedIdsBelow(s.outfits, s.currentOutfitId)
    && (forall i | 0 <= i < |s.outfits| :: s.outfits[i].value.id == s.outfits[i].key)
    && (s.preferences.Some? ==> s.preferences.value.id == s.currentPrefId)
  }

  lemma ValidDistinct(s: MemStorage)
    requires Valid(s)
    ensures DistinctKeys(s.clothingItems) && DistinctKeys(s.outfits)
  {
  }

  /** `new MemStorage()`. */
  function Init(): (s: MemStorage)
    ensures Valid(s)
    ensures GetClothingItems(s) == [] && GetOutfits(s) == [] && GetPreferences(s).None?
    ensures s.currentItemId == 1 && s.currentOutfitId == 1 && s.currentPrefId == 1
  {
    MemStorage([], [], None, 1, 1, 1)
  }

  /** `getClothingItems()`: the stored items in insertion order. In a valid
      state the listing holds exactly the stored items, each once, in
      increasing id order (which is creation order). */
  function GetClothingItems(s: MemStorage): (r: seq<ClothingItem>)
    ensures |r| == |s.clothingItems|
    ensures Valid(s) ==> forall x: ClothingItem :: x in r <==> GetClothingItem(s, x.id) == Some(x)
    ensures Valid(s) ==> forall i, j | 0 <= i < j < |r| :: r[i].id < r[j].id
  {
    StoredItemValues(s);
    Values(s.clothingItems)
  }

  lemma StoredItemValues(s: MemStorage)
    ensures Valid(s) ==> forall x: ClothingItem ::
      x in Values(s.clothingItems) <==> GetClothingItem(s, x.id) == Some(x)
  {
    if Valid(s) {
      ValidDistinct(s);
      var es := s.clothingItems;
      forall x: ClothingItem
        ensures x in Values(es) <==> GetClothingItem(s, x.id) == Some(x)
      {
        if x in Values(es) {
          var i :| 0 <= i < |es| && es[i].value == x;
          assert es[i].key == x.id;
        }
        if GetClothingItem(s, x.id) == Some(x) {
          var i :| 0 <= i < |es| && es[i] == Entry(x.id, x);
          assert Values(es)[i] == x;
        }
      }
    }
  }

  /** `getClothingItem(id)`. */
  function GetClothingItem(s: MemStorage, id: int): (r: Option<ClothingItem>)
    ensures r.None? <==> forall i | 0 <= i < |s.clothingItems| :: s.clothingItems[i].key != id
    ensures Valid(s) && r.Some? ==> r.value.id == id && 1 <= id < s.currentItemId
  {
    Get(s.clothingItems, id)
  }

  /** `createClothingItem(item)`: store `item` under the current counter
      value and advance the counter. */
  function CreateClothingItem(s: MemStorage, item: InsertClothingItem): (r: (MemStorage, ClothingItem))
    ensures r.1.id == s.currentItemId && ItemFields(r.1) == item
    ensures r.0.currentItemId == s.currentItemId + 1
    ensures r.0 == s.(clothingItems := r.0.clothingItems, currentItemId := r.0.currentItemId)
    ensures GetClothingItem(r.0, r.1.id) == Some(r.1)
    ensures forall id | id != r.1.id :: GetClothingItem(r.0, id) == GetClothingItem(s, id)
  {
    var id := s.currentItemId;
    var newItem := WithItemId(item, id);
    (s.(clothingItems := Set(s.clothingItems, id, newItem), currentItemId := id + 1), newItem)
  }

  /** In a valid state the id handed out is not yet taken, the new item is
      listed last, and the invariant is kept. */
  lemma CreateClothingItemValid(s: MemStorage, item: InsertClothingItem)
    requires Valid(s)
    ensures var (t, c) := CreateClothingItem(s, item);
      && GetClothingItem(s, c.id).None?
      && t.clothingItems == s.clothingItems + [Entry(c.id, c)]
      && GetClothingItems(t) == GetClothingItems(s) + [c]
      && Valid(t)
  {
    var (t, c) := CreateClothingItem(s, item);
    assert GetClothingItem(s, c.id).None?;
    CreatedItemValid(s, item);
    assert GetClothingItems(t) == Values(s.clothingItems + [Entry(c.id, c)]);
  }

  lemma CreatedItemValid(s: MemStorage, item: InsertClothingItem)
    requires Valid(s)
    ensures Valid(CreateClothingItem(s, item).0)
  {
    var (t, c) := CreateClothingItem(s, item);
    assert Keys(t.clothingItems) == Keys(s.clothingItems) + [c.id];
  }

  /** `deleteClothingItem(id)`: drop that key; the counter is untouched. */
  function DeleteClothingItem(s: MemStorage, id: int): (t: MemStorage)
    ensures t == s.(clothingItems := t.clothingItems)
    ensures GetClothingItem(s, id).None? ==> t == s
    ensures forall e | e in t.clothingItems :: e in s.clothingItems
    ensures forall e | e in s.clothingItems && e.key != id :: e in t.clothingItems
  {
    s.(clothingItems := Delete(s.clothingItems, id))
  }

  /** In a valid state delete removes exactly the key `id`, leaves every
      other item as it was, and keeps the invariant. */
  lemma DeleteClothingItemValid(s: MemStorage, id: int)
    requires Valid(s)
    ensures var t := DeleteClothingItem(s, id);
      && Valid(t)
      && GetClothingItem(t, id).None?
      && (forall other | other != id :: GetClothingItem(t, other) == GetClothingItem(s, other))
      && (forall x | x in GetClothingItems(s) :: x in GetClothingItems(t) <==> x.id != id)
  {
    var t := DeleteClothingItem(s, id);
    DeleteKeepsInvariant(s, id);
    ValidDistinct(s);
  }

  lemma DeleteKeepsInvariant(s: MemStorage, id: int)
    requires Valid(s)
    ensures Valid(DeleteClothingItem(s, id))
  {
    var t := DeleteClothingItem(s, id);
    DeleteKeepsSortedIdsBelow(s.clothingItems, id, s.currentItemId);
    forall i | 0 <= i < |t.clothingItems| ensures t.clothingItems[i].value.id == t.clothingItems[i].key {
      var e := t.clothingItems[i];
      assert e in s.clothingItems;
    }
  }

  /** Deleting one entry keeps the others in their relative order. */
  lemma DeleteKeepsSortedIdsBelow<V>(es: seq<Entry<int, V>>, id: int, counter: int)
    requires SortedIdsBelow(es, counter)
    ensures SortedIdsBelow(Delete(es, id), counter)
  {
    var k := IndexOf(Keys(es), id);
    if k >= 0 {
      assert Delete(es, id) == es[..k] + es[k + 1..];
      RemoveAtKeepsSortedIdsBelow(es, k, counter);
    }
  }

  lemma RemoveAtKeepsSortedIdsBelow<V>(es: seq<Entry<int, V>>, k: int, counter: int)
    requires SortedIdsBelow(es, counter)
    requires 0 <= k < |es|
    ensures SortedIdsBelow(es[..k] + es[k + 1..], counter)
  {
    var r := es[..k] + es[k + 1..];
    forall a, b | 0 <= a < b < |r| ensures r[a].key < r[b].key {
      var a' := if a < k then a else a + 1;
      var b' := if b < k then b else b + 1;
      assert r[a] == es[a'];
      assert r[b] == es[b'];
    }
    forall a | 0 <= a < |r| ensures 1 <= r[a].key < counter {
      var a' := if a < k then a else a + 1;
      assert r[a] == es[a'];
    }
  }

  /** `getOutfits()`: the stored outfits in insertion order. In a valid
      state the listing holds exactly the stored outfits, each once, in
      increasing id order. */
  function GetOutfits(s: MemStorage): (r: seq<Outfit>)
    ensures |r| == |s.outfits|
    ensures Valid(s) ==> forall o: Outfit :: o in r <==> Get(s.outfits, o.id) == Some(o)
    ensures Valid(s) ==> forall i, j | 0 <= i < j < |r| :: r[i].id < r[j].id
  {
    StoredOutfitValues(s);
    Values(s.outfits)
  }

  lemma StoredOutfitValues(s: MemStorage)
    ensures Valid(s) ==> forall o: Outfit ::
      o in Values(s.outfits) <==> Get(s.outfits, o.id) == Some(o)
  {
    if Valid(s) {
      ValidDistinct(s);
      var es := s.outfits;
      forall o: Outfit
        ensures o in Values(es) <==> Get(es, o.id) == Some(o)
      {
        if o in Values(es) {
          var i :| 0 <= i < |es| && es[i].value == o;
          assert es[i].key == o.id;
        }
        if Get(es, o.id) == Some(o) {
          var i :| 0 <= i < |es| && es[i] == Entry(o.id, o);
          assert Values(es)[i] == o;
        }
      }
    }
  }

  /** `createOutfit(outfit)`, with the clock reading `now` as a parameter:
      store the outfit under its own counter, stamped with `now`. */
  function CreateOutfit(s: MemStorage, o: InsertOutfit, now: Timestamp): (r: (MemStorage, Outfit))
    ensures r.1.id == s.currentOutfitId && r.1.createdAt == now && OutfitFields(r.1) == o
    ensures r.0.currentOutfitId == s.currentOutfitId + 1
    ensures r.0 == s.(outfits := r.0.outfits, currentOutfitId := r.0.currentOutfitId)
    ensures Get(r.0.outfits, r.1.id) == Some(r.1)
    ensures forall id | id != r.1.id :: Get(r.0.outfits, id) == Get(s.outfits, id)
  {
    var id := s.currentOutfitId;
    var newOutfit := WithOutfitId(o, id, now);
    (s.(outfits := Set(s.outfits, id, newOutfit), currentOutfitId := id + 1), newOutfit)
  }

  /** In a valid state the outfit id handed out is not yet taken, the new
      outfit is listed last, and the invariant is kept. */
  lemma CreateOutfitValid(s: MemStorage, o: InsertOutfit, now: Timestamp)
    requires Valid(s)
    ensures var (t, r) := CreateOutfit(s, o, now);
      && Get(s.outfits, r.id).None?
      && t.outfits == s.outfits + [Entry(r.id, r)]
      && GetOutfits(t) == GetOutfits(s) + [r]
      && Valid(t)
  {
    var (t, r) := CreateOutfit(s, o, now);
    assert Get(s.outfits, r.id).None?;
    CreatedOutfitValid(s, o, now);
    assert GetOutfits(t) == Values(s.outfits + [Entry(r.id, r)]);
  }

  lemma CreatedOutfitValid(s: MemStorage, o: InsertOutfit, now: Timestamp)
    requires Valid(s)
    ensures Valid(CreateOutfit(s, o, now).0)
  {
    var (t, r) := CreateOutfit(s, o, now);
    assert Keys(t.outfits) == Keys(s.outfits) + [r.id];
  }

  /** `getPreferences()`: undefined until the first update. */
  function GetPreferences(s: MemStorage): (r: Option<Preferences>)
    ensures Valid(s) && r.Some? ==> r.value.id == 1
  {
    s.preferences
  }

  /** `updatePreferences(prefs)`: replace the singleton wholesale, always
      under the same id. */
  function UpdatePreferences(s: MemStorage, p: InsertPreferences): (r: (MemStorage, Preferences))
    ensures GetPreferences(r.0) == Some(r.1)
    ensures r.1.id == s.currentPrefId && PreferencesFields(r.1) == p
    ensures r.0 == s.(preferences := Some(r.1))
    ensures Valid(s) ==> Valid(r.0) && r.1.id == 1
  {
    var prefs := WithPreferencesId(p, s.currentPrefId);
    (s.(preferences := Some(prefs)), prefs)
  }

  /** Updating twice with the same input leaves the state of updating once. */
  lemma UpdatePreferencesIdempotent(s: MemStorage, p: InsertPreferences)
    ensures UpdatePreferences(UpdatePreferences(s, p).0, p) == UpdatePreferences(s, p)
  {
  }

  /** The mutating calls the repository accepts. */
  datatype Op =
    | AddItem(item: InsertClothingItem)
    | RemoveItem(id: int)
    | AddOutfit(outfit: InsertOutfit, now: Timestamp)
    | SetPreferences(prefs: InsertPreferences)

  function Step(s: MemStorage, op: Op): MemStorage
  {
    match op
    case AddItem(item) => CreateClothingItem(s, item).0
    case RemoveItem(id) => DeleteClothingItem(s, id)
    case AddOutfit(o, now) => CreateOutfit(s, o, now).0
    case SetPreferences(p) => UpdatePreferences(s, p).0
  }

  lemma StepPreservesValid(s: MemStorage, op: Op)
    requires Valid(s)
    ensures Valid(Step(s, op))
  {
    match op
    case AddItem(item) => CreateClothingItemValid(s, item);
    case RemoveItem(id) => DeleteClothingItemValid(s, id);
    case AddOutfit(o, now) => CreateOutfitValid(s, o, now);
    case SetPreferences(p) =>
  }

  /** The state after applying `ops` in order, starting from `s`. */
  function Run(s: MemStorage, ops: seq<Op>): MemStorage
    decreases |ops|
  {
    if |ops| == 0 then s else Run(Step(s, ops[0]), ops[1..])
  }

  /** Every state reachable from a valid one is valid; in particular every
      state reachable from `Init()`. */
  lemma {:induction false} RunPreservesValid(s: MemStorage, ops: seq<Op>)
    requires Valid(s)
    ensures Valid(Run(s, ops))
    decreases |ops|
  {
    if |ops| > 0 {
      StepPreservesValid(s, ops[0]);
      RunPreservesValid(Step(s, ops[0]), ops[1..]);
    }
  }

  /** No operation moves a counter backwards, and the preferences id never
      changes. */
  lemma {:induction false} CountersNeverDecrease(s: MemStorage, ops: seq<Op>)
    ensures Run(s, ops).currentItemId >= s.currentItemId
    ensures Run(s, ops).currentOutfitId >= s.currentOutfitId
    ensures Run(s, ops).currentPrefId == s.currentPrefId
    decreases |ops|
  {
    if |ops| > 0 {
      CountersNeverDecrease(Step(s, ops[0]), ops[1..]);
    }
  }

  /** Ids are never reused: whatever happens after an item is created
      (deleting it included), a later creation gets a strictly larger id. */
  lemma IdsNeverReused(s: MemStorage, item: InsertClothingItem, ops: seq<Op>, later: InsertClothingItem)
    ensures var (s1, c) := CreateClothingItem(s, item);
      CreateClothingItem(Run(s1, ops), later).1.id > c.id
  {
    CountersNeverDecrease(CreateClothingItem(s, item).0, ops);
  }

  /** Outfit ids likewise are never reused. */
  lemma OutfitIdsNeverReused(s: MemStorage, o: InsertOutfit, now: Timestamp, ops: seq<Op>, later: InsertOutfit, now': Timestamp)
    ensures var (s1, c) := CreateOutfit(s, o, now);
      CreateOutfit(Run(s1, ops), later, now').1.id > c.id
  {
    CountersNeverDecrease(CreateOutfit(s, o, now).0, ops);
  }

  /** The preferences are undefined exactly until the first update. */
  lemma {:induction false} PreferencesUndefinedUntilUpdate(s: MemStorage, ops: seq<Op>)
    ensures GetPreferences(Run(s, ops)).None? <==>
      GetPreferences(s).None? && forall i | 0 <= i < |ops| :: !ops[i].SetPreferences?
    decreases |ops|
  {
    if |ops| > 0 {
      var tail := ops[1..];
      PreferencesUndefinedUntilUpdate(Step(s, ops[0]), tail);
      StepPreferences(s, ops[0]);
      assert forall i | 1 <= i < |ops| :: ops[i] == tail[i - 1];
    }
  }

  /** Only setting preferences defines them; nothing else touches them. */
  lemma StepPreferences(s: MemStorage, op: Op)
    ensures GetPreferences(Step(s, op)).None? <==> GetPreferences(s).None? && !op.SetPreferences?
  {
  }

  /** Creating an item and then listing includes it with its assigned id;
      deleting it afterwards removes it from the listing again. */
  lemma CreateThenListThenDelete(s: MemStorage, item: InsertClothingItem)
    requires Valid(s)
    ensures var (s1, c) := CreateClothingItem(s, item);
      && c.id == s.currentItemId
      && c in GetClothingItems(s1)
      && (forall x | x in GetClothingItems(DeleteClothingItem(s1, c.id)) :: x.id != c.id)
      && GetClothingItems(DeleteClothingItem(s1, c.id)) == GetClothingItems(s)
  {
    var (s1, c) := CreateClothingItem(s, item);
    CreateClothingItemValid(s, item);
    var s2 := DeleteClothingItem(s1, c.id);
    DeleteClothingItemValid(s1, c.id);
    assert IndexOf(Keys(s1.clothingItems), c.id) == |s.clothingItems|;
    assert s2.clothingItems == s.clothingItems;
  }
}

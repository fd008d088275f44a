/** The home page: the wardrobe items shown for an outfit suggestion, and
    the payload sent when the suggestion is saved. */
module Home {
  import opened Wrappers
  import opened Schema
  import Weather
  import History
  import Storage

  /** A suggestion as the server returns it: clothing-item ids plus the
      model's reasoning text. */
  datatype Suggestion = Suggestion(items: seq<int>, reasoning: string)

  /** `items.filter((item) => suggestion.items.includes(item.id))`. */
  function SuggestedItems(items: seq<ClothingItem>, ids: seq<int>): (r: seq<ClothingItem>)
    ensures forall x: ClothingItem :: x in r <==> x in items && x.id in ids
    ensures forall x: ClothingItem :: multiset(r)[x] == if x.id in ids then multiset(items)[x] else 0
  {
    if |items| == 0 then []
    else
      var tail := items[1..];
      var rest := SuggestedItems(tail, ids);
      assert items == [items[0]] + tail;
      if items[0].id in ids then [items[0]] + rest else rest
  }

  /** Each wardrobe item marked with whether the filter keeps it. */
  function Marks(items: seq<ClothingItem>, ids: seq<int>): (os: seq<Option<ClothingItem>>)
    ensures |os| == |items|
    ensures forall p | 0 <= p < |items| :: os[p] == if items[p].id in ids then Some(items[p]) else None
  {
    seq(|items|, p requires 0 <= p < |items| => if items[p].id in ids then Some(items[p]) else None)
  }

  /** The filter keeps the marked items, in wardrobe order. */
  lemma {:induction false} SuggestedItemsArePresentMarks(items: seq<ClothingItem>, ids: seq<int>)
    ensures SuggestedItems(items, ids) == History.Present(Marks(items, ids))
  {
    if |items| > 0 {
      var os := Marks(items, ids);
      assert os[1..] == Marks(items[1..], ids);
      SuggestedItemsArePresentMarks(items[1..], ids);
      History.PresentCons(os);
      if items[0].id in ids {
        assert History.Present(os) == [items[0]] + History.Present(os[1..]);
      } else {
        assert History.Present(os) == History.Present(os[1..]);
      }
    }
  }

  /** The shown items form a subsequence of the wardrobe: the k-th shown item
      is the wardrobe item at position idx[k], the positions increase, and
      every wardrobe position whose id was suggested is among them. */
  lemma SuggestedItemsInWardrobeOrder(items: seq<ClothingItem>, ids: seq<int>) returns (idx: seq<int>)
    ensures var r := SuggestedItems(items, ids);
      && |idx| == |r|
      && History.StrictlyIncreasing(idx)
      && (forall k | 0 <= k < |idx| :: 0 <= idx[k] < |items| && items[idx[k]] == r[k])
      && (forall p | 0 <= p < |items| && items[p].id in ids :: p in idx)
  {
    var os := Marks(items, ids);
    SuggestedItemsArePresentMarks(items, ids);
    idx := History.PresentPositions(os);
    MarkedPositions(items, ids, SuggestedItems(items, ids), idx);
  }

  /** Positions of the marked items are positions in the wardrobe itself. */
  lemma MarkedPositions(items: seq<ClothingItem>, ids: seq<int>, r: seq<ClothingItem>, idx: seq<int>)
    requires History.KeptAt(Marks(items, ids), r, idx)
    ensures forall k | 0 <= k < |idx| :: 0 <= idx[k] < |items| && items[idx[k]] == r[k]
    ensures forall p | 0 <= p < |items| && items[p].id in ids :: p in idx
  {
    var os := Marks(items, ids);
    forall k | 0 <= k < |idx| ensures 0 <= idx[k] < |items| && items[idx[k]] == r[k] {
      assert os[idx[k]] == Some(r[k]);
    }
    forall p | 0 <= p < |items| && items[p].id in ids ensures p in idx {
      assert os[p].Some?;
    }
  }

  /** Only which ids were suggested matters, not how often or in what order. */
  lemma {:induction false} SuggestedItemsDependOnIdSet(items: seq<ClothingItem>, ids1: seq<int>, ids2: seq<int>)
    requires forall i | 0 <= i < |items| :: items[i].id in ids1 <==> items[i].id in ids2
    ensures SuggestedItems(items, ids1) == SuggestedItems(items, ids2)
  {
    if |items| > 0 {
      assert forall i | 1 <= i < |items| :: items[1..][i - 1] == items[i];
      SuggestedItemsDependOnIdSet(items[1..], ids1, ids2);
    }
  }

  /** Suggested ids absent from the wardrobe contribute nothing. */
  lemma AbsentIdsContributeNothing(items: seq<ClothingItem>, ids: seq<int>, extra: seq<int>)
    requires forall i | 0 <= i < |items| :: items[i].id !in extra
    ensures SuggestedItems(items, ids + extra) == SuggestedItems(items, ids)
  {
    SuggestedItemsDependOnIdSet(items, ids + extra, ids);
  }

  /** Repeating a suggested id does not duplicate any item. */
  lemma RepeatedIdsDoNotDuplicate(items: seq<ClothingItem>, ids: seq<int>, id: int)
    requires id in ids
    ensures SuggestedItems(items, ids + [id]) == SuggestedItems(items, ids)
  {
    SuggestedItemsDependOnIdSet(items, ids + [id], ids);
  }

  /** When wardrobe ids are distinct, the home page and the history page show
      the same items for the same ids (in possibly different orders). */
  lemma SuggestionAndHistoryShowSameItems(items: seq<ClothingItem>, ids: seq<int>)
    requires forall i, j | 0 <= i < j < |items| :: items[i].id != items[j].id
    ensures forall x: ClothingItem :: x in SuggestedItems(items, ids) <==> x in History.ItemsFor(items, ids)
  {
    forall x: ClothingItem | x in SuggestedItems(items, ids)
      ensures x in History.ItemsFor(items, ids)
    {
      var k :| 0 <= k < |ids| && ids[k] == x.id;
      var os := History.FindEach(ids, items);
      History.PresentMembers(os);
      var y := History.Find(items, x.id).value;
      var p :| 0 <= p < |items| && items[p] == x;
      var q :| 0 <= q < |items| && items[q] == y;
      assert p == q;
      assert os[k] == Some(x);
    }
  }

  /** The body of the save request: the suggestion's ids unchanged, with the
      page's current weather and occasion. */
  function SavePayload(s: Suggestion, weather: Weather.AppWeather, occasion: string): (p: InsertOutfit)
    ensures p.items == s.items && p.occasion == occasion
    ensures Weather.Parse(p.weather) == Some(weather)
  {
    Weather.ParseName(weather);
    InsertOutfit(s.items, occasion, Weather.Name(weather))
  }

  /** Saving a suggestion stores an outfit that carries its ids, weather and
      occasion, stamped with the save time and listed last. */
  lemma SavedOutfitRecordsSuggestion(st: Storage.MemStorage, s: Suggestion, weather: Weather.AppWeather, occasion: string, now: Timestamp)
    requires Storage.Valid(st)
    ensures var (t, o) := Storage.CreateOutfit(st, SavePayload(s, weather, occasion), now);
      && o.items == s.items
      && Weather.Parse(o.weather) == Some(weather)
      && o.occasion == occasion
      && o.createdAt == now
      && Storage.GetOutfits(t) == Storage.GetOutfits(st) + [o]
  {
    Storage.CreateOutfitValid(st, SavePayload(s, weather, occasion), now);
  }
}

/** The history page's resolution of an outfit's clothing-item ids against
    the wardrobe list: each id is looked up with `find`, and ids without a
    match are dropped. The result follows the order of the ids. */
module History {
  import opened Wrappers
  import opened Schema

  /** `items.find((item) => item.id === id)`: the first item with that id. */
  function Find(items: seq<ClothingItem>, id: int): (r: Option<ClothingItem>)
    ensures r.None? <==> forall i | 0 <= i < |items| :: items[i].id != id
    ensures r.Some? ==> r.value.id == id && r.value in items
    ensures forall i | 0 <= i < |items| && items[i].id == id ::
      (forall j | 0 <= j < i :: items[j].id != id) ==> r == Some(items[i])
  {
    if |items| == 0 then None
    else if items[0].id == id then Some(items[0])
    else
      var tail := items[1..];
      assert forall i | 1 <= i < |items| :: items[i] == tail[i - 1];
      Find(tail, id)
  }

  /** The `.map(...)` step: one lookup per id, in id order. */
  function FindEach(ids: seq<int>, items: seq<ClothingItem>): (r: seq<Option<ClothingItem>>)
    ensures |r| == |ids|
    ensures forall k | 0 <= k < |ids| :: r[k] == Find(items, ids[k])
  {
    seq(|ids|, k requires 0 <= k < |ids| => Find(items, ids[k]))
  }

  /** The `.filter((item) => item !== undefined)` step. */
  function Present(os: seq<Option<ClothingItem>>): (r: seq<ClothingItem>)
    ensures |r| <= |os|
    ensures (forall k | 0 <= k < |os| :: os[k].Some?) ==>
      |r| == |os| && forall k | 0 <= k < |os| :: r[k] == os[k].value
  {
    if |os| == 0 then []
    else
      var rest := Present(os[1..]);
      assert forall k | 1 <= k < |os| :: os[k] == os[1..][k - 1];
      match os[0]
      case Some(x) => [x] + rest
      case None => rest
  }

  /** The items shown for ids `ids` against the wardrobe `items`. */
  function ItemsFor(items: seq<ClothingItem>, ids: seq<int>): (r: seq<ClothingItem>)
    ensures |r| <= |ids|
    ensures forall x | x in r :: x.id in ids && x in items
    ensures (forall k | 0 <= k < |ids| :: Find(items, ids[k]).Some?) ==>
      |r| == |ids| && forall k | 0 <= k < |ids| :: r[k] == Find(items, ids[k]).value
  {
    var os := FindEach(ids, items);
    PresentMembers(os);
    var r := Present(os);
    assert forall x | x in r :: x.id in ids && x in items by {
      forall x | x in r ensures x.id in ids && x in items {
        var k :| 0 <= k < |os| && os[k] == Some(x);
        assert x.id == ids[k];
      }
    }
    r
  }

  /** `getItemsForOutfit(outfit)`. */
  function GetItemsForOutfit(items: seq<ClothingItem>, outfit: Outfit): (r: seq<ClothingItem>)
    ensures |r| <= |outfit.items|
    ensures forall x | x in r :: x.id in outfit.items && x in items
    ensures (forall k | 0 <= k < |outfit.items| :: Find(items, outfit.items[k]).Some?) ==>
      |r| == |outfit.items| && forall k | 0 <= k < |outfit.items| :: r[k] == Find(items, outfit.items[k]).value
  {
    ItemsFor(items, outfit.items)
  }

  predicate StrictlyIncreasing(idx: seq<int>)
  {
    forall a, b | 0 <= a < b < |idx| :: idx[a] < idx[b]
  }

  /** `r` lists the defined values of `os` at the strictly increasing
      positions `idx`, and every defined position is among them. */
  predicate KeptAt(os: seq<Option<ClothingItem>>, r: seq<ClothingItem>, idx: seq<int>)
  {
    && |idx| == |r|
    && StrictlyIncreasing(idx)
    && (forall k | 0 <= k < |idx| :: 0 <= idx[k] < |os| && os[idx[k]] == Some(r[k]))
    && (forall p | 0 <= p < |os| && os[p].Some? :: p in idx)
  }

  /** The positions `Present` keeps are exactly the defined ones, and the
      kept values appear in the order of those positions. */
  lemma {:induction false} PresentPositions(os: seq<Option<ClothingItem>>) returns (idx: seq<int>)
    ensures KeptAt(os, Present(os), idx)
  {
    if |os| == 0 {
      idx := [];
    } else {
      var tail := PresentPositions(os[1..]);
      var rest := Present(os[1..]);
      var shifted := ShiftPositions(os, rest, tail);
      PresentCons(os);
      if os[0].Some? {
        idx := PrependZero(os, rest, shifted);
      } else {
        idx := KeepShifted(os, rest, shifted);
      }
    }
  }

  /** The positions of the tail `os[1..]`, moved up by one. */
  lemma ShiftPositions(os: seq<Option<ClothingItem>>, rest: seq<ClothingItem>, tail: seq<int>)
    returns (shifted: seq<int>)
    requires |os| > 0
    requires KeptAt(os[1..], rest, tail)
    ensures |shifted| == |rest|
    ensures StrictlyIncreasing(shifted)
    ensures forall k | 0 <= k < |shifted| :: 1 <= shifted[k] < |os| && os[shifted[k]] == Some(rest[k])
    ensures forall p | 1 <= p < |os| && os[p].Some? :: p in shifted
  {
    shifted := Shift(tail);
    forall k | 0 <= k < |shifted| ensures 1 <= shifted[k] < |os| && os[shifted[k]] == Some(rest[k]) {
      assert shifted[k] == tail[k] + 1;
      assert os[1..][tail[k]] == os[tail[k] + 1];
    }
    forall p | 1 <= p < |os| && os[p].Some? ensures p in shifted {
      assert os[1..][p - 1] == os[p];
      var k :| 0 <= k < |tail| && tail[k] == p - 1;
      assert shifted[k] == p;
    }
  }

  /** When `os[0]` is undefined the shifted tail positions are all. */
  lemma KeepShifted(os: seq<Option<ClothingItem>>, rest: seq<ClothingItem>, shifted: seq<int>)
    returns (idx: seq<int>)
    requires |os| > 0 && os[0].None?
    requires |shifted| == |rest|
    requires StrictlyIncreasing(shifted)
    requires forall k | 0 <= k < |shifted| :: 1 <= shifted[k] < |os| && os[shifted[k]] == Some(rest[k])
    requires forall p | 1 <= p < |os| && os[p].Some? :: p in shifted
    ensures KeptAt(os, rest, idx)
  {
    idx := shifted;
  }

  /** Position 0 in front of the shifted tail positions, when `os[0]` is
      defined. */
  lemma PrependZero(os: seq<Option<ClothingItem>>, rest: seq<ClothingItem>, shifted: seq<int>)
    returns (idx: seq<int>)
    requires |os| > 0 && os[0].Some?
    requires |shifted| == |rest|
    requires StrictlyIncreasing(shifted)
    requires forall k | 0 <= k < |shifted| :: 1 <= shifted[k] < |os| && os[shifted[k]] == Some(rest[k])
    requires forall p | 1 <= p < |os| && os[p].Some? :: p in shifted
    ensures KeptAt(os, [os[0].value] + rest, idx)
  {
    idx := [0] + shifted;
    var r := [os[0].value] + rest;
    forall k | 0 <= k < |idx| ensures 0 <= idx[k] < |os| && os[idx[k]] == Some(r[k]) {
      if k > 0 {
        assert idx[k] == shifted[k - 1];
        assert r[k] == rest[k - 1];
      }
    }
    forall p | 0 <= p < |os| && os[p].Some? ensures p in idx {
      if p > 0 {
        var k :| 0 <= k < |shifted| && shifted[k] == p;
        assert idx[k + 1] == p;
      }
    }
    forall a, b | 0 <= a < b < |idx| ensures idx[a] < idx[b] {
      if a > 0 { assert shifted[a - 1] < shifted[b - 1]; }
    }
  }

  /** Every position moved up by one. */
  lemma Shift(tail: seq<int>) returns (shifted: seq<int>)
    requires StrictlyIncreasing(tail)
    ensures |shifted| == |tail|
    ensures forall k | 0 <= k < |tail| :: shifted[k] == tail[k] + 1
    ensures StrictlyIncreasing(shifted)
  {
    shifted := seq(|tail|, k requires 0 <= k < |tail| => tail[k] + 1);
  }

  /** `Present` keeps exactly the defined values. */
  lemma PresentMembers(os: seq<Option<ClothingItem>>)
    ensures forall x | x in Present(os) :: exists k | 0 <= k < |os| :: os[k] == Some(x)
    ensures forall k | 0 <= k < |os| && os[k].Some? :: os[k].value in Present(os)
  {
    var r := Present(os);
    var idx := PresentPositions(os);
    forall x | x in r ensures exists k | 0 <= k < |os| :: os[k] == Some(x) {
      var j :| 0 <= j < |r| && r[j] == x;
      assert os[idx[j]] == Some(x);
    }
    forall k | 0 <= k < |os| && os[k].Some? ensures os[k].value in r {
      var j :| 0 <= j < |idx| && idx[j] == k;
      assert r[j] == os[k].value;
    }
  }

  /** Results follow the order of the ids, not wardrobe order: the k-th
      shown item is the match of the idx[k]-th id, the positions idx increase,
      and every id left out has no match in the wardrobe. */
  lemma ItemsForOrder(items: seq<ClothingItem>, ids: seq<int>) returns (idx: seq<int>)
    ensures var r := ItemsFor(items, ids);
      && |idx| == |r|
      && StrictlyIncreasing(idx)
      && (forall k | 0 <= k < |idx| :: 0 <= idx[k] < |ids| && Find(items, ids[idx[k]]) == Some(r[k]))
      && (forall p | 0 <= p < |ids| && p !in idx :: Find(items, ids[p]).None?)
  {
    idx := PresentPositions(FindEach(ids, items));
  }

  /** `Present` distributes over concatenation. */
  lemma {:induction false} PresentAppend(a: seq<Option<ClothingItem>>, b: seq<Option<ClothingItem>>)
    ensures Present(a + b) == Present(a) + Present(b)
  {
    if |a| > 0 {
      var head := if a[0].Some? then [a[0].value] else [];
      assert (a + b)[1..] == a[1..] + b;
      calc {
        Present(a + b);
        { PresentCons(a + b); }
        head + Present(a[1..] + b);
        { PresentAppend(a[1..], b); }
        head + (Present(a[1..]) + Present(b));
        (head + Present(a[1..])) + Present(b);
        { PresentCons(a); }
        Present(a) + Present(b);
      }
    } else {
      assert a + b == b;
    }
  }

  /** `Present` unfolded once. */
  lemma PresentCons(os: seq<Option<ClothingItem>>)
    requires |os| > 0
    ensures Present(os) == (if os[0].Some? then [os[0].value] else []) + Present(os[1..])
    ensures os[0].None? ==> Present(os) == Present(os[1..])
  {
    if os[0].None? {
      assert [] + Present(os[1..]) == Present(os[1..]);
    }
  }

  /** Resolution works id by id: resolving `a + b` is resolving `a`, then `b`. */
  lemma ItemsForAppend(items: seq<ClothingItem>, a: seq<int>, b: seq<int>)
    ensures ItemsFor(items, a + b) == ItemsFor(items, a) + ItemsFor(items, b)
  {
    assert FindEach(a + b, items) == FindEach(a, items) + FindEach(b, items);
    PresentAppend(FindEach(a, items), FindEach(b, items));
  }

  /** One id resolves to its first match, or to nothing. */
  lemma ItemsForSingle(items: seq<ClothingItem>, id: int)
    ensures Find(items, id).Some? ==> ItemsFor(items, [id]) == [Find(items, id).value]
    ensures Find(items, id).None? ==> ItemsFor(items, [id]) == []
  {
    assert FindEach([id], items) == [Find(items, id)];
    assert FindEach([id], items)[1..] == [];
  }

  /** An id without a match is silently dropped; nothing else changes. */
  lemma UnmatchedIdDropped(items: seq<ClothingItem>, a: seq<int>, id: int, b: seq<int>)
    requires forall i | 0 <= i < |items| :: items[i].id != id
    ensures ItemsFor(items, a + [id] + b) == ItemsFor(items, a) + ItemsFor(items, b)
  {
    ItemsForAppend(items, a + [id], b);
    ItemsForAppend(items, a, [id]);
    ItemsForSingle(items, id);
  }

  /** A repeated id yields its matching item repeated. */
  lemma RepeatedIdRepeated(items: seq<ClothingItem>, a: seq<int>, id: int, b: seq<int>, x: ClothingItem)
    requires Find(items, id) == Some(x)
    ensures ItemsFor(items, a + [id, id] + b) == ItemsFor(items, a) + [x, x] + ItemsFor(items, b)
  {
    ItemsForSingle(items, id);
    ItemsForAppend(items, [id], [id]);
    assert [id] + [id] == [id, id];
    assert ItemsFor(items, [id, id]) == [x, x];
    ItemsForAppend(items, a, [id, id]);
    ItemsForAppend(items, a + [id, id], b);
  }
}

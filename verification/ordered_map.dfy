/** A JavaScript `Map`: a finite map from keys to values that remembers the
    order in which keys were first inserted. `set` on a present key replaces
    its value in place, `set` on a new key appends, `delete` removes the one
    entry for a key and does nothing when the key is absent, and `values()`
    iterates in insertion order. */
module OrderedMap {
  import opened Wrappers

  datatype Entry<K, V> = Entry(key: K, value: V)

  function Keys<K, V>(es: seq<Entry<K, V>>): (ks: seq<K>)
    ensures |ks| == |es|
    ensures forall i | 0 <= i < |es| :: ks[i] == es[i].key
  {
    seq(|es|, i requires 0 <= i < |es| => es[i].key)
  }

  /** `Array.from(m.values())`. */
  function Values<K, V>(es: seq<Entry<K, V>>): (vs: seq<V>)
    ensures |vs| == |es|
    ensures forall i | 0 <= i < |es| :: vs[i] == es[i].value
  {
    seq(|es|, i requires 0 <= i < |es| => es[i].value)
  }

  /** A JavaScript `Map` never holds two entries for one key. */
  predicate DistinctKeys<K(==), V>(es: seq<Entry<K, V>>)
  {
    forall i, j | 0 <= i < j < |es| :: es[i].key != es[j].key
  }

  /** The position of the first occurrence of `k` in `ks`, or -1. */
  function IndexOf<K(==)>(ks: seq<K>, k: K): (r: int)
    ensures -1 <= r < |ks|
    ensures r >= 0 ==> ks[r] == k && forall j | 0 <= j < r :: ks[j] != k
    ensures r == -1 <==> forall j | 0 <= j < |ks| :: ks[j] != k
  {
    if |ks| == 0 then -1
    else if ks[0] == k then 0
    else
      var i := IndexOf(ks[1..], k);
      if i == -1 then -1 else i + 1
  }

  /** `m.get(k)`. */
  function Get<K(==), V>(es: seq<Entry<K, V>>, k: K): (r: Option<V>)
    ensures r.None? <==> forall i | 0 <= i < |es| :: es[i].key != k
    ensures r.Some? ==> Entry(k, r.value) in es
    ensures DistinctKeys(es) ==> forall i | 0 <= i < |es| && es[i].key == k :: r == Some(es[i].value)
  {
    var i := IndexOf(Keys(es), k);
    if i < 0 then None else Some(es[i].value)
  }

  /** `m.set(k, v)`. */
  function Set<K(==,!new), V>(es: seq<Entry<K, V>>, k: K, v: V): (r: seq<Entry<K, V>>)
    ensures Get(r, k) == Some(v)
    ensures forall k' | k' != k :: Get(r, k') == Get(es, k')
    ensures Get(es, k).None? ==> Keys(r) == Keys(es) + [k] && Values(r) == Values(es) + [v]
    ensures Get(es, k).Some? ==> Keys(r) == Keys(es)
    ensures DistinctKeys(es) ==> DistinctKeys(r)
  {
    var i := IndexOf(Keys(es), k);
    if i < 0 then
      var r := es + [Entry(k, v)];
      assert Keys(r) == Keys(es) + [k];
      IndexOfAppend(Keys(es), k);
      r
    else
      var r := es[i := Entry(k, v)];
      assert Keys(r) == Keys(es);
      r
  }

  /** `m.delete(k)`. */
  function Delete<K(==,!new), V>(es: seq<Entry<K, V>>, k: K): (r: seq<Entry<K, V>>)
    ensures Get(es, k).None? ==> r == es
    ensures forall e | e in r :: e in es
    ensures forall e | e in es && e.key != k :: e in r
    ensures DistinctKeys(es) ==> DistinctKeys(r) && Get(r, k).None?
    ensures DistinctKeys(es) ==> forall k' | k' != k :: Get(r, k') == Get(es, k')
    ensures Get(es, k).Some? ==> |r| == |es| - 1
    ensures Get(es, k).Some? ==> forall a, b | 0 <= a < b < |r| :: InOrder(r[a], r[b], es)
  {
    var i := IndexOf(Keys(es), k);
    if i < 0 then es
    else
      RemoveAt(es, i);
      es[..i] + es[i + 1..]
  }

  /** Removing the entry at position `i` keeps every other entry, in order. */
  lemma RemoveAt<K(!new), V>(es: seq<Entry<K, V>>, i: int)
    requires 0 <= i < |es|
    ensures var r := es[..i] + es[i + 1..];
      && (forall e | e in r :: e in es)
      && (forall e | e in es && e.key != es[i].key :: e in r)
      && (DistinctKeys(es) ==> DistinctKeys(r) && Get(r, es[i].key).None?)
      && (DistinctKeys(es) ==> forall k' | k' != es[i].key :: Get(r, k') == Get(es, k'))
      && |r| == |es| - 1
      && (forall a, b | 0 <= a < b < |r| :: InOrder(r[a], r[b], es))
  {
    var r := es[..i] + es[i + 1..];
    RemoveAtEntries(es, i);
    RemoveAtKeepsOrder(es, i, r);
    if DistinctKeys(es) {
      forall a, b | 0 <= a < b < |r| ensures r[a].key != r[b].key {
        assert r[a] == es[if a < i then a else a + 1];
        assert r[b] == es[if b < i then b else b + 1];
      }
      forall k' | k' != es[i].key ensures Get(r, k') == Get(es, k') {
        SameEntriesSameGet(es, r, k');
      }
    }
  }

  /** `x` occurs in `es` before `y`. */
  ghost predicate InOrder<T>(x: T, y: T, es: seq<T>)
  {
    exists a', b' | 0 <= a' < b' < |es| :: es[a'] == x && es[b'] == y
  }

  /** The entries left after removing position `i` keep their relative order. */
  lemma RemoveAtKeepsOrder<K, V>(es: seq<Entry<K, V>>, i: int, r: seq<Entry<K, V>>)
    requires 0 <= i < |es| && r == es[..i] + es[i + 1..]
    ensures forall a, b | 0 <= a < b < |r| :: InOrder(r[a], r[b], es)
  {
    RemoveAtEntries(es, i);
    forall a, b | 0 <= a < b < |r| ensures InOrder(r[a], r[b], es) {
      var a' := if a < i then a else a + 1;
      var b' := if b < i then b else b + 1;
      assert r[a] == es[a'] && r[b] == es[b'];
    }
  }

  /** Two duplicate-free entry lists that agree on the entries with key `k`
      agree on the lookup of `k`. */
  lemma SameEntriesSameGet<K(!new), V>(es: seq<Entry<K, V>>, r: seq<Entry<K, V>>, k: K)
    requires DistinctKeys(es) && DistinctKeys(r)
    requires forall e | e in es && e.key == k :: e in r
    requires forall e | e in r && e.key == k :: e in es
    ensures Get(r, k) == Get(es, k)
  {
    if Get(es, k).Some? {
      var e := Entry(k, Get(es, k).value);
      var j :| 0 <= j < |r| && r[j] == e;
      assert Get(r, k) == Some(r[j].value);
    }
  }

  lemma RemoveAtEntries<K, V>(es: seq<Entry<K, V>>, i: int)
    requires 0 <= i < |es|
    ensures var r := es[..i] + es[i + 1..];
      && (forall j | 0 <= j < |r| :: r[j] == es[if j < i then j else j + 1])
      && (forall e | e in r :: e in es)
      && (forall e | e in es && e.key != es[i].key :: e in r)
  {
    var r := es[..i] + es[i + 1..];
    forall j | 0 <= j < |r| ensures r[j] == es[if j < i then j else j + 1] {
    }
    forall e | e in es && e.key != es[i].key ensures e in r {
      var j :| 0 <= j < |es| && es[j] == e;
      if j < i { assert r[j] == e; } else { assert r[j - 1] == e; }
    }
  }

  /** Appending a different key does not move the first occurrence of `k'`. */
  lemma IndexOfAppend<K>(ks: seq<K>, k: K)
    ensures forall k' | k' != k :: IndexOf(ks + [k], k') == IndexOf(ks, k')
    ensures IndexOf(ks, k) == -1 ==> IndexOf(ks + [k], k) == |ks|
  {
    forall k' | k' != k ensures IndexOf(ks + [k], k') == IndexOf(ks, k') {
      var a := IndexOf(ks + [k], k');
      var b := IndexOf(ks, k');
      if b >= 0 { assert (ks + [k])[b] == k'; }
      if a >= 0 { assert a < |ks|; assert ks[a] == k'; }
    }
    if IndexOf(ks, k) == -1 {
      assert (ks + [k])[|ks|] == k;
    }
  }
}

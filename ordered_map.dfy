/**
 * Python's `dict` with integer keys (frame indices, object ids): a finite
 * map that remembers the order in which its keys were first inserted.
 * Assigning to an existing key keeps its position, deleting a key drops it
 * from the order, and iteration follows the order.
 */
module OrderedMaps {
  import opened Common

  datatype OrderedMap<V> = OrderedMap(keys: seq<int>, vals: map<int, V>)
  {
    /** The order lists every key of the map exactly once. */
    ghost predicate Valid()
    {
      && (forall i, j :: 0 <= i < j < |keys| ==> keys[i] != keys[j])
      && (forall k :: k in vals <==> k in keys)
    }
  }

  function Empty<V>(): (m: OrderedMap<V>)
    ensures m.Valid() && m.vals == map[]
  {
    OrderedMap([], map[])
  }

  /** `d.get(k)` */
  function Get<V>(m: OrderedMap<V>, k: int): (r: Option<V>)
    ensures r.Some? <==> k in m.vals
    ensures r.Some? ==> r.value == m.vals[k]
  {
    if k in m.vals then Some(m.vals[k]) else None
  }

  /** `d[k] = v`: a new key goes to the end of the order, an existing key keeps its place. */
  function Put<V>(m: OrderedMap<V>, k: int, v: V): (r: OrderedMap<V>)
    requires m.Valid()
    ensures r.Valid()
    ensures r.vals == m.vals[k := v]
    ensures k in m.vals ==> r.keys == m.keys
    ensures k !in m.vals ==> r.keys == m.keys + [k]
  {
    if k in m.vals then OrderedMap(m.keys, m.vals[k := v])
    else OrderedMap(m.keys + [k], m.vals[k := v])
  }

  /** `s` with every occurrence of `k` removed, the rest in order. */
  function Drop(s: seq<int>, k: int): (r: seq<int>)
    ensures forall x :: x in r <==> x in s && x != k
    ensures |r| <= |s|
  {
    if s == [] then []
    else if s[0] == k then Drop(s[1..], k)
    else [s[0]] + Drop(s[1..], k)
  }

  /** Dropping a key keeps the remaining keys distinct. */
  lemma {:induction false} DropKeepsDistinct(s: seq<int>, k: int)
    requires forall i, j :: 0 <= i < j < |s| ==> s[i] != s[j]
    ensures forall i, j :: 0 <= i < j < |Drop(s, k)| ==> Drop(s, k)[i] != Drop(s, k)[j]
  {
    if s != [] {
      DropKeepsDistinct(s[1..], k);
      if s[0] != k {
        var d := Drop(s[1..], k);
        assert Drop(s, k) == [s[0]] + d;
        assert s[0] !in s[1..];
        assert s[0] !in d;
      }
    }
  }

  /** Dropping a key that does not occur changes nothing. */
  lemma {:induction false} DropAbsent(s: seq<int>, k: int)
    requires k !in s
    ensures Drop(s, k) == s
  {
    if s != [] {
      DropAbsent(s[1..], k);
    }
  }

  /** `del d[k]` (or `d.pop(k, None)`): the key leaves the map and the order; the others keep theirs. */
  function Remove<V>(m: OrderedMap<V>, k: int): (r: OrderedMap<V>)
    requires m.Valid()
    ensures r.Valid()
    ensures r.vals == m.vals - {k}
    ensures r.keys == Drop(m.keys, k)
  {
    DropKeepsDistinct(m.keys, k);
    OrderedMap(Drop(m.keys, k), m.vals - {k})
  }

  /** Inserting a new key and removing it again gives back the original dictionary. */
  lemma PutRemoveRoundTrip<V>(m: OrderedMap<V>, k: int, v: V)
    requires m.Valid() && k !in m.vals
    ensures Remove(Put(m, k, v), k) == m
  {
    DropAbsent(m.keys, k);
    DropAppend(m.keys, k);
    assert m.vals[k := v] - {k} == m.vals;
  }

  /** Dropping `k` from a sequence that ends with it, and has it nowhere else, removes that last element. */
  lemma {:induction false} DropAppend(s: seq<int>, k: int)
    requires k !in s
    ensures Drop(s + [k], k) == s
  {
    if s == [] {
      assert Drop([k], k) == Drop([], k);
    } else {
      assert (s + [k])[1..] == s[1..] + [k];
      DropAppend(s[1..], k);
    }
  }

  /** `d.clear()`: no keys and no values. */
  function Clear<V>(m: OrderedMap<V>): (r: OrderedMap<V>)
    ensures r.Valid() && r.vals == map[] && r.keys == []
  {
    Empty()
  }
}

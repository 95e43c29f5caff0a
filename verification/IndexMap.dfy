/** The append-only index map of one thread: a slot vector and a hash table of slot indices searched by key. */
module IndexMap {
  import opened Options

  predicate Unique<K(==)>(keys: seq<K>) {
    forall i, j :: 0 <= i < j < |keys| ==> keys[i] != keys[j]
  }

  /** The index of a key, and the keys afterwards; a new key gets the next index. */
  function IndexOf<K(==)>(keys: seq<K>, k: K): (i: nat)
    ensures i <= |keys|
    ensures i < |keys| ==> keys[i] == k
    ensures i == |keys| <==> k !in keys
  {
    if keys == [] then 0
    else if keys[0] == k then 0
    else
      var i := IndexOf(keys[1..], k);
      assert keys == [keys[0]] + keys[1..];
      i + 1
  }

  function Interned<K(==)>(keys: seq<K>, k: K): (r: seq<K>)
    ensures keys <= r && |r| <= |keys| + 1
    ensures IndexOf(keys, k) < |r| && r[IndexOf(keys, k)] == k
  {
    if k in keys then keys else keys + [k]
  }

  /** Interning keeps the keys distinct, keeps every issued index, and is idempotent. */
  lemma InternedOnce<K>(keys: seq<K>, k: K, l: K)
    requires Unique(keys)
    ensures Unique(Interned(keys, k))
    ensures Interned(Interned(keys, k), k) == Interned(keys, k)
    ensures IndexOf(Interned(keys, k), k) == IndexOf(keys, k)
    ensures l in keys ==> IndexOf(Interned(keys, k), l) == IndexOf(keys, l)
    ensures IndexOf(Interned(keys, k), k) == IndexOf(Interned(keys, k), l) && l in Interned(keys, k) ==> k == l
  {
    var r := Interned(keys, k);
    IndexUnique(r, IndexOf(keys, k));
    if l in keys {
      assert r[IndexOf(keys, l)] == l;
      IndexUnique(r, IndexOf(keys, l));
    }
  }

  /** Among distinct keys the index of a key is its position. */
  lemma {:induction false} IndexUnique<K>(keys: seq<K>, i: nat)
    requires Unique(keys) && i < |keys|
    ensures IndexOf(keys, keys[i]) == i
  {
    if i > 0 {
      assert keys[i] == keys[1..][i - 1] && keys[0] != keys[i];
      forall a, b | 0 <= a < b < |keys[1..]| ensures keys[1..][a] != keys[1..][b] {
        assert keys[1..][a] == keys[a + 1] && keys[1..][b] == keys[b + 1];
      }
      IndexUnique(keys[1..], i - 1);
    }
  }

  class Map<K(==), V> {
    var table: set<nat>
    var slots: seq<(K, V)>

    ghost function Keys(): seq<K>
      reads this
    {
      seq(|slots|, i requires 0 <= i < |slots| reads this => slots[i].0)
    }

    ghost predicate Valid()
      reads this
    {
      && (forall i :: i in table <==> 0 <= i < |slots|)
      && Unique(Keys())
    }

    constructor ()
      ensures Valid() && Keys() == []
    {
      table, slots := {}, [];
    }

    method Find(k: K) returns (found: Option<nat>)
      requires Valid()
      ensures found.Some? <==> k in Keys()
      ensures found.Some? ==> found.value < |slots| && slots[found.value].0 == k && found.value == IndexOf(Keys(), k)
    {
      if i :| i in table && slots[i].0 == k {
        assert Keys()[i] == k;
        IndexUnique(Keys(), i);
        return Some(i);
      }
      assert forall i :: 0 <= i < |slots| ==> i in table && Keys()[i] == slots[i].0;
      found := None;
    }

    /** `entry(key).or_insert_with(..)`: a present key keeps its value. */
    method OrInsert(k: K, v: V) returns (index: nat)
      requires Valid()
      modifies this
      ensures Valid() && Keys() == Interned(old(Keys()), k) && index == IndexOf(old(Keys()), k)
      ensures slots == if k in old(Keys()) then old(slots) else old(slots) + [(k, v)]
    {
      var found := Find(k);
      if found.Some? {
        return found.value;
      }
      index := Append(k, v);
    }

    /** `insert`: a present key gets the new value and the old one is returned. */
    method Insert(k: K, v: V) returns (index: nat, prev: Option<V>)
      requires Valid()
      modifies this
      ensures Valid() && Keys() == Interned(old(Keys()), k) && index == IndexOf(old(Keys()), k)
      ensures prev == if index < |old(slots)| then Some(old(slots)[index].1) else None
      ensures index < |slots| && slots[index] == (k, v)
      ensures forall i :: 0 <= i < |old(slots)| && i != index ==> slots[i] == old(slots)[i]
    {
      var found := Find(k);
      if found.Some? {
        index := found.value;
        prev := Some(slots[index].1);
        slots := slots[index := (k, v)];
        assert Keys() == old(Keys());
      } else {
        prev := None;
        index := Append(k, v);
      }
    }

    /** `insert_by_ref` of a vacant entry. */
    method Append(k: K, v: V) returns (index: nat)
      requires Valid() && k !in Keys()
      modifies this
      ensures Valid() && index == |old(slots)| && slots == old(slots) + [(k, v)] && Keys() == old(Keys()) + [k]
    {
      index := |slots|;
      slots := slots + [(k, v)];
      table := table + {index};
      assert Keys() == old(Keys()) + [k];
    }
  }
}

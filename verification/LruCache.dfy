/** The generic cache of common/include/ag_cache.h: a list of nodes, most recently used first, and a map from
    each key to its node. */
module LruCache {
  import opened Text

  const DEFAULT_CAPACITY := 128

  // ----- the sequence of entries that a cache stands for -----------------------------------------------

  type Entries<K, V> = seq<(K, V)>

  predicate HasKey<K(==), V>(s: Entries<K, V>, k: K) {
    exists i :: 0 <= i < |s| && s[i].0 == k
  }

  /** The entries without the first one of key `k`. */
  function Without<K(==), V>(s: Entries<K, V>, k: K): Entries<K, V> {
    if |s| == 0 then [] else if s[0].0 == k then s[1..] else [s[0]] + Without(s[1..], k)
  }

  function ValueOf<K(==), V>(s: Entries<K, V>, k: K): V
    requires HasKey(s, k)
  {
    if s[0].0 == k then s[0].1 else ValueOf(s[1..], k)
  }

  function Truncated<T>(s: seq<T>, n: nat): seq<T> {
    if |s| <= n then s else s[..n]
  }

  function Inserted<K(==), V>(s: Entries<K, V>, capacity: nat, k: K, v: V): Entries<K, V> {
    Truncated([(k, v)] + Without(s, k), capacity)
  }

  function Promoted<K(==), V>(s: Entries<K, V>, k: K): Entries<K, V> {
    if HasKey(s, k) then [(k, ValueOf(s, k))] + Without(s, k) else s
  }

  function Demoted<K(==), V>(s: Entries<K, V>, k: K): Entries<K, V>
    requires HasKey(s, k)
  {
    Without(s, k) + [(k, ValueOf(s, k))]
  }

  // ----- nodes ----------------------------------------------------------------------------------------

  class Node<K, V> {
    const key: K
    var value: V

    constructor (key: K, value: V)
      ensures this.key == key && this.value == value
    {
      this.key, this.value := key, value;
    }
  }

  ghost function Pairs<K, V>(list: seq<Node<K, V>>): (r: Entries<K, V>)
    reads list
    ensures |r| == |list|
  {
    if |list| == 0 then [] else [(list[0].key, list[0].value)] + Pairs(list[1..])
  }

  /** A list without its first occurrence of a node. */
  function Removed<T(==)>(list: seq<T>, n: T): seq<T> {
    if |list| == 0 then [] else if list[0] == n then list[1..] else [list[0]] + Removed(list[1..], n)
  }

  /** The map sends the key of each node in the list to that node, and holds nothing else. */
  ghost predicate Linked<K, V>(list: seq<Node<K, V>>, mapped: map<K, Node<K, V>>) {
    if |list| == 0 then mapped == map[]
    else
      && list[0].key in mapped && mapped[list[0].key] == list[0]
      && Linked(list[1..], mapped - {list[0].key})
  }

  lemma {:induction false} LinkedNode<K, V>(list: seq<Node<K, V>>, mapped: map<K, Node<K, V>>, n: Node<K, V>)
    requires Linked(list, mapped)
    ensures n in list <==> n.key in mapped && mapped[n.key] == n
  {
    if |list| > 0 {
      LinkedNode(list[1..], mapped - {list[0].key}, n);
    }
  }

  lemma {:induction false} LinkedKey<K, V>(list: seq<Node<K, V>>, mapped: map<K, Node<K, V>>, k: K)
    requires Linked(list, mapped)
    ensures |mapped| == |list|
    ensures k in mapped ==> mapped[k] in list && mapped[k].key == k
  {
    if |list| > 0 {
      LinkedKey(list[1..], mapped - {list[0].key}, k);
    }
  }

  lemma {:induction false} PairsKeys<K, V>(list: seq<Node<K, V>>, i: nat)
    requires i < |list|
    ensures Pairs(list)[i] == (list[i].key, list[i].value)
  {
    if i > 0 {
      PairsKeys(list[1..], i - 1);
    }
  }

  /** Finding a node through the map is finding the entry of its key. */
  lemma {:induction false} NodeIsEntry<K, V>(list: seq<Node<K, V>>, n: Node<K, V>)
    requires n in list && forall m :: m in list && m.key == n.key ==> m == n
    ensures HasKey(Pairs(list), n.key) && ValueOf(Pairs(list), n.key) == n.value
    ensures Without(Pairs(list), n.key) == Pairs(Removed(list, n))
  {
    var rest := list[1..];
    assert Pairs(list)[1..] == Pairs(rest);
    assert Pairs(list)[0].0 == list[0].key;
    if list[0] != n {
      assert n in rest;
      NodeIsEntry(rest, n);
      var i :| 0 <= i < |rest| && Pairs(rest)[i].0 == n.key;
      assert Pairs(list)[i + 1].0 == n.key;
    }
  }

  // ----- what the list operations keep -------------------------------------------------------------------

  lemma NodesAndKeys<K, V>(list: seq<Node<K, V>>, mapped: map<K, Node<K, V>>, n: Node<K, V>)
    requires Linked(list, mapped) && n in list
    ensures HasKey(Pairs(list), n.key) && ValueOf(Pairs(list), n.key) == n.value
    ensures Without(Pairs(list), n.key) == Pairs(Removed(list, n))
  {
    forall m | m in list && m.key == n.key
      ensures m == n
    {
      LinkedNode(list, mapped, m);
      LinkedNode(list, mapped, n);
    }
    NodeIsEntry(list, n);
  }

  lemma AbsentKey<K, V>(list: seq<Node<K, V>>, mapped: map<K, Node<K, V>>, k: K)
    requires Linked(list, mapped) && k !in mapped
    ensures !HasKey(Pairs(list), k) && Without(Pairs(list), k) == Pairs(list)
  {
    forall i | 0 <= i < |list|
      ensures Pairs(list)[i].0 != k
    {
      PairsKeys(list, i);
      LinkedNode(list, mapped, list[i]);
    }
    NothingToRemove(Pairs(list), k);
  }

  lemma {:induction false} NothingToRemove<K, V>(s: Entries<K, V>, k: K)
    requires !HasKey(s, k)
    ensures Without(s, k) == s
  {
    if |s| > 0 {
      assert s[0].0 != k;
      var rest := s[1..];
      assert forall i :: 0 <= i < |rest| ==> rest[i] == s[i + 1];
      NothingToRemove(rest, k);
    }
  }

  lemma {:induction false} LinkedRemoved<K, V>(list: seq<Node<K, V>>, mapped: map<K, Node<K, V>>, n: Node<K, V>)
    requires Linked(list, mapped) && n in list
    ensures n.key in mapped && mapped[n.key] == n && |Removed(list, n)| == |list| - 1
    ensures Linked(Removed(list, n), mapped - {n.key}) && n !in Removed(list, n)
    ensures forall m :: m in Removed(list, n) ==> m in list
  {
    LinkedNode(list, mapped, n);
    if list[0] != n {
      var smaller := mapped - {list[0].key};
      LinkedRemoved(list[1..], smaller, n);
      assert smaller - {n.key} == (mapped - {n.key}) - {list[0].key};
    }
    LinkedNode(Removed(list, n), mapped - {n.key}, n);
  }

  lemma LinkedFront<K, V>(list: seq<Node<K, V>>, mapped: map<K, Node<K, V>>, n: Node<K, V>)
    requires Linked(list, mapped - {n.key}) && n.key in mapped && mapped[n.key] == n
    ensures Linked([n] + list, mapped)
  {
    assert ([n] + list)[1..] == list;
  }

  lemma {:induction false} LinkedBack<K, V>(list: seq<Node<K, V>>, mapped: map<K, Node<K, V>>, n: Node<K, V>)
    requires Linked(list, mapped - {n.key}) && n.key in mapped && mapped[n.key] == n
    ensures Linked(list + [n], mapped)
  {
    if |list| == 0 {
      assert mapped - {n.key} == map[];
      assert [n][1..] == [];
      assert list + [n] == [n];
    } else {
      var smaller := mapped - {list[0].key};
      assert (mapped - {n.key}) - {list[0].key} == smaller - {n.key};
      LinkedBack(list[1..], smaller, n);
      assert (list + [n])[1..] == list[1..] + [n];
    }
  }

  lemma {:induction false} RemovedLast<K, V>(list: seq<Node<K, V>>, mapped: map<K, Node<K, V>>)
    requires |list| > 0 && Linked(list, mapped)
    ensures Removed(list, list[|list| - 1]) == list[..|list| - 1]
  {
    var rest, smaller := list[1..], mapped - {list[0].key};
    if |rest| > 0 {
      RemovedLast(rest, smaller);
      LinkedNode(rest, smaller, list[0]);
      assert list[..|list| - 1] == [list[0]] + rest[..|rest| - 1];
    }
  }

  lemma {:induction false} PairsPrefix<K, V>(list: seq<Node<K, V>>, n: nat)
    requires n <= |list|
    ensures Pairs(list[..n]) == Pairs(list)[..n]
  {
    if n > 0 {
      PairsPrefix(list[1..], n - 1);
      assert list[..n][1..] == list[1..][..n - 1];
    }
  }

  lemma {:induction false} PairsSnoc<K, V>(list: seq<Node<K, V>>, n: Node<K, V>)
    ensures Pairs(list + [n]) == Pairs(list) + [(n.key, n.value)]
  {
    if |list| > 0 {
      PairsSnoc(list[1..], n);
      assert (list + [n])[1..] == list[1..] + [n];
    }
  }

  class LruCache<K(==), V> {
    var maxSize: nat
    var keyValues: seq<Node<K, V>>
    var mapped: map<K, Node<K, V>>

    ghost predicate Valid()
      reads this
    {
      0 < maxSize && |keyValues| <= maxSize && Linked(keyValues, mapped)
    }

    /** The entries, most recently used first. */
    ghost function Contents(): Entries<K, V>
      reads this, keyValues
    {
      Pairs(keyValues)
    }

    constructor (size: nat)
      ensures Valid() && Contents() == [] && maxSize == if size == 0 then 128 else size
    {
      maxSize, keyValues, mapped := if size == 0 then DEFAULT_CAPACITY else size, [], map[];
    }

    method MoveToFront(n: Node<K, V>)
      requires Valid() && n in keyValues
      modifies `keyValues
      ensures Valid() && |keyValues| > 0 && keyValues[0] == n && n !in keyValues[1..]
      ensures forall m :: m in keyValues ==> m in old(keyValues)
      ensures Contents() == Promoted(old(Contents()), n.key)
    {
      NodesAndKeys(keyValues, mapped, n);
      LinkedRemoved(keyValues, mapped, n);
      LinkedFront(Removed(keyValues, n), mapped, n);
      ghost var rest := Removed(keyValues, n);
      keyValues := [n] + Removed(keyValues, n);
      assert keyValues[1..] == rest;
    }

    method PopBack()
      requires Valid() && |keyValues| > 0
      modifies `keyValues, `mapped
      ensures Valid() && Contents() == old(Contents())[..old(|keyValues|) - 1]
      ensures keyValues == old(keyValues)[..old(|keyValues|) - 1] && mapped.Keys <= old(mapped.Keys)
      ensures forall n :: n in keyValues ==> n in old(keyValues)
    {
      var back := keyValues[|keyValues| - 1];
      LinkedRemoved(keyValues, mapped, back);
      RemovedLast(keyValues, mapped);
      PairsPrefix(keyValues, |keyValues| - 1);
      mapped := mapped - {back.key};
      keyValues := keyValues[..|keyValues| - 1];
    }

    method PushFront(k: K, v: V)
      requires Valid() && k !in mapped && |keyValues| < maxSize
      modifies `keyValues, `mapped
      ensures Valid() && |keyValues| > 0 && fresh(keyValues[0]) && keyValues[1..] == old(keyValues)
      ensures forall n :: n in keyValues ==> n in old(keyValues) || fresh(n)
      ensures Contents() == [(k, v)] + old(Contents())
    {
      var n := new Node(k, v);
      ghost var rest := keyValues;
      assert mapped[k := n] - {k} == mapped;
      LinkedFront(keyValues, mapped[k := n], n);
      keyValues := [n] + keyValues;
      assert keyValues[1..] == rest;
      mapped := mapped[k := n];
    }

    method Insert(k: K, v: V) returns (isNew: bool)
      requires Valid()
      modifies this, keyValues
      ensures Valid() && maxSize == old(maxSize)
      ensures forall n :: n in keyValues ==> n in old(keyValues) || fresh(n)
      ensures isNew <==> !HasKey(old(Contents()), k)
      ensures Contents() == Inserted(old(Contents()), maxSize, k, v)
    {
      isNew := k !in mapped;
      if !isNew {
        Update(k, v);
      } else {
        AbsentKey(keyValues, mapped, k);
        if |keyValues| == maxSize {
          PopBack();
        }
        PushFront(k, v);
      }
    }

    method Update(k: K, v: V)
      requires Valid() && k in mapped
      modifies `keyValues, keyValues
      ensures Valid() && (forall n :: n in keyValues ==> n in old(keyValues))
      ensures HasKey(old(Contents()), k)
      ensures Contents() == [(k, v)] + Without(old(Contents()), k)
    {
      LinkedKey(keyValues, mapped, k);
      var n := mapped[k];
      NodesAndKeys(keyValues, mapped, n);
      MoveToFront(n);
      ghost var rest := keyValues[1..];
      assert Contents()[1..] == Pairs(rest);
      ghost var kept := Pairs(rest);
      n.value := v;
      assert Pairs(rest) == kept;
    }

    /** The accessor of the source: the node, or nothing. */
    method Get(k: K) returns (acc: Option<Node<K, V>>)
      requires Valid()
      modifies `keyValues
      ensures Valid() && Contents() == Promoted(old(Contents()), k)
      ensures acc.Some? <==> HasKey(old(Contents()), k)
      ensures acc.Some? ==>
                acc.value in keyValues && acc.value.key == k && acc.value.value == ValueOf(old(Contents()), k)
    {
      if k in mapped {
        LinkedKey(keyValues, mapped, k);
        NodesAndKeys(keyValues, mapped, mapped[k]);
        MoveToFront(mapped[k]);
        acc := Some(mapped[k]);
      } else {
        AbsentKey(keyValues, mapped, k);
        acc := None;
      }
    }

    method MakeLru(acc: Node<K, V>)
      requires Valid() && acc in keyValues
      modifies `keyValues
      ensures Valid() && HasKey(old(Contents()), acc.key) && Contents() == Demoted(old(Contents()), acc.key)
    {
      NodesAndKeys(keyValues, mapped, acc);
      LinkedRemoved(keyValues, mapped, acc);
      LinkedBack(Removed(keyValues, acc), mapped, acc);
      PairsSnoc(Removed(keyValues, acc), acc);
      keyValues := Removed(keyValues, acc) + [acc];
    }

    method Erase(k: K)
      requires Valid()
      modifies `keyValues, `mapped
      ensures Valid() && Contents() == Without(old(Contents()), k)
    {
      if k in mapped {
        var n := mapped[k];
        LinkedKey(keyValues, mapped, k);
        NodesAndKeys(keyValues, mapped, n);
        LinkedRemoved(keyValues, mapped, n);
        keyValues := Removed(keyValues, n);
        mapped := mapped - {k};
      } else {
        AbsentKey(keyValues, mapped, k);
      }
    }

    method Clear()
      requires Valid()
      modifies `keyValues, `mapped
      ensures Valid() && Contents() == []
    {
      keyValues, mapped := [], map[];
    }

    method Size() returns (n: nat)
      requires Valid()
      ensures n == |Contents()|
    {
      n := |mapped|;
      if k :| k in mapped {
        LinkedKey(keyValues, mapped, k);
      }
    }

    method SetCapacity(size: nat)
      requires Valid()
      modifies this
      ensures Valid() && maxSize == if size == 0 then 128 else size
      ensures Contents() == Truncated(old(Contents()), maxSize)
    {
      var newSize := if size == 0 then DEFAULT_CAPACITY else size;
      var n := Size();
      if newSize < n {
        var diff := n - newSize;
        for i := 0 to diff
          invariant Valid() && maxSize == old(maxSize) && |keyValues| == n - i
          invariant Contents() == old(Contents())[..n - i]
        {
          PopBack();
        }
      }
      maxSize := newSize;
    }
  }
}

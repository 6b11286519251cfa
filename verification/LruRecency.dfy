/** Runs of the cache of common/include/ag_cache.h at one capacity: which keys it holds, in which order and with
    which values, said without the list operations. */
module LruRecency {
  import opened Text
  import opened LruCache

  datatype Op<K, V> = Put(key: K, value: V) | Lookup(key: K)

  /** The entries after a run of operations on an empty cache. */
  ghost function After<K, V>(capacity: nat, ops: seq<Op<K, V>>): Entries<K, V> {
    if |ops| == 0 then []
    else
      var s, op := After(capacity, ops[..|ops| - 1]), ops[|ops| - 1];
      if op.Put? then Inserted(s, capacity, op.key, op.value) else Promoted(s, op.key)
  }

  /** The time of the last insertion or successful lookup of `k`, or -1. */
  ghost function LastTouch<K, V>(capacity: nat, ops: seq<Op<K, V>>, k: K): (r: int)
    ensures -1 <= r < |ops|
  {
    if |ops| == 0 then -1
    else
      var before, op := ops[..|ops| - 1], ops[|ops| - 1];
      if op.key == k && (op.Put? || HasKey(After(capacity, before), k)) then |ops| - 1
      else LastTouch(capacity, before, k)
  }

  /** The value inserted last for `k`. */
  ghost function LastPut<K, V>(ops: seq<Op<K, V>>, k: K): Option<V> {
    if |ops| == 0 then None
    else
      var op := ops[|ops| - 1];
      if op.Put? && op.key == k then Some(op.value) else LastPut(ops[..|ops| - 1], k)
  }

  /** `s` holds the `capacity` keys of latest time, latest first, each with its value. */
  ghost predicate MostRecent<K(!new), V>(s: Entries<K, V>, capacity: nat, time: K -> int, value: K -> Option<V>) {
    |s| <= capacity && Ordered(s, time) && Valued(s, time, value) && Complete(s, capacity, time)
  }

  ghost predicate Ordered<K, V>(s: Entries<K, V>, time: K -> int) {
    forall i, j :: 0 <= i < j < |s| ==> time(s[i].0) > time(s[j].0)
  }

  ghost predicate Valued<K, V>(s: Entries<K, V>, time: K -> int, value: K -> Option<V>) {
    forall i :: 0 <= i < |s| ==> time(s[i].0) >= 0 && value(s[i].0) == Some(s[i].1)
  }

  /** A key that has a time but is not held is earlier than all that are held, and no room is left. */
  ghost predicate Complete<K(!new), V>(s: Entries<K, V>, capacity: nat, time: K -> int) {
    forall k :: !HasKey(s, k) && time(k) >= 0 ==> Full(s, capacity, time, time(k))
  }

  /** No room is left, and every entry is later than `t`. */
  ghost predicate Full<K, V>(s: Entries<K, V>, capacity: nat, time: K -> int, t: int) {
    |s| == capacity && forall i :: 0 <= i < |s| ==> time(s[i].0) > t
  }

  lemma {:induction false} WithoutAt<K, V>(s: Entries<K, V>, k: K, p: nat)
    requires p < |s| && s[p].0 == k && forall i :: 0 <= i < p ==> s[i].0 != k
    ensures Without(s, k) == s[..p] + s[p + 1..] && HasKey(s, k) && ValueOf(s, k) == s[p].1
  {
    if p > 0 {
      var rest := s[1..];
      WithoutAt(rest, k, p - 1);
      assert s[..p] == [s[0]] + rest[..p - 1];
      assert s[p + 1..] == rest[p..];
    }
  }

  /** The one entry of a key in a list ordered by time. */
  lemma PositionOf<K, V>(s: Entries<K, V>, time: K -> int, k: K) returns (p: nat)
    requires Ordered(s, time) && HasKey(s, k)
    ensures p < |s| && s[p].0 == k && Lacks(s[..p] + s[p + 1..], k)
    ensures Without(s, k) == s[..p] + s[p + 1..] && ValueOf(s, k) == s[p].1
  {
    p :| 0 <= p < |s| && s[p].0 == k;
    forall i | 0 <= i < |s| && i != p
      ensures s[i].0 != k
    {
      assert i < p ==> time(s[i].0) > time(s[p].0);
      assert p < i ==> time(s[p].0) > time(s[i].0);
    }
    WithoutAt(s, k, p);
    LacksAround(s, k, p);
  }

  ghost predicate Lacks<K, V>(s: Entries<K, V>, k: K) {
    forall i :: 0 <= i < |s| ==> s[i].0 != k
  }

  lemma LacksAround<K, V>(s: Entries<K, V>, k: K, p: nat)
    requires p < |s| && forall i :: 0 <= i < |s| && i != p ==> s[i].0 != k
    ensures Lacks(s[..p] + s[p + 1..], k)
  {
  }

  /** Only `k` moves, to the time `now`. */
  ghost predicate Advances<K(!new)>(time: K -> int, later: K -> int, k: K, now: int) {
    now >= 0 && later(k) == now && forall q :: time(q) < now && (q != k ==> later(q) == time(q))
  }

  ghost predicate Assigns<K(!new), V>(value: K -> Option<V>, later: K -> Option<V>, k: K, v: V) {
    later(k) == Some(v) && forall q :: q != k ==> later(q) == value(q)
  }

  /** Taking out the entry at `p`. */
  lemma RemovedEntry<K, V>(s: Entries<K, V>, time: K -> int, value: K -> Option<V>, p: nat)
    requires Ordered(s, time) && Valued(s, time, value) && p < |s|
    ensures Ordered(s[..p] + s[p + 1..], time) && Valued(s[..p] + s[p + 1..], time, value)
  {
    var rest := s[..p] + s[p + 1..];
    assert forall i :: 0 <= i < |rest| ==> rest[i] == s[if i < p then i else i + 1];
  }

  lemma FrontEntry<K(!new), V>(rest: Entries<K, V>, time: K -> int, value: K -> Option<V>,
                               k: K, v: V, now: int, time': K -> int, value': K -> Option<V>)
    requires Ordered(rest, time) && Valued(rest, time, value) && Lacks(rest, k)
    requires Advances(time, time', k, now) && Assigns(value, value', k, v)
    ensures Ordered([(k, v)] + rest, time') && Valued([(k, v)] + rest, time', value')
  {
    var s := [(k, v)] + rest;
    assert forall i :: 0 < i < |s| ==> s[i] == rest[i - 1];
  }

  /** Moving the entry at `p` to the front keeps the same keys. */
  lemma MovedIsComplete<K(!new), V>(s: Entries<K, V>, capacity: nat, time: K -> int, k: K, v: V, p: nat,
                                    now: int, time': K -> int)
    requires Complete(s, capacity, time) && p < |s| && s[p].0 == k
    requires (forall q :: time(q) < now && (q != k ==> time'(q) == time(q))) && time'(k) == now
    ensures Complete([(k, v)] + (s[..p] + s[p + 1..]), capacity, time')
  {
    var moved := [(k, v)] + (s[..p] + s[p + 1..]);
    forall q | !HasKey(moved, q) && time'(q) >= 0
      ensures Full(moved, capacity, time', time'(q))
    {
      MovedKeys(s, k, v, p, q);
      assert moved[0].0 == k;
      assert Full(s, capacity, time, time(q));
      assert forall i :: 0 < i < |moved| ==> moved[i] == s[if i <= p then i - 1 else i];
    }
  }

  lemma MovedKeys<K, V>(s: Entries<K, V>, k: K, v: V, p: nat, q: K)
    requires p < |s| && s[p].0 == k
    ensures HasKey(s, q) ==> HasKey([(k, v)] + (s[..p] + s[p + 1..]), q)
  {
    var moved := [(k, v)] + (s[..p] + s[p + 1..]);
    if i :| 0 <= i < |s| && s[i].0 == q {
      assert moved[if i < p then i + 1 else if i == p then 0 else i].0 == q;
    }
  }

  /** A new entry at the front pushes out the last one when the list is full. */
  lemma PushedKeys<K, V>(s: Entries<K, V>, capacity: nat, k: K, v: V, q: K)
    requires |s| <= capacity && capacity > 0
    ensures HasKey(s, q) ==>
              HasKey(Truncated([(k, v)] + s, capacity), q) || (|s| == capacity && s[capacity - 1].0 == q)
  {
    var pushed := Truncated([(k, v)] + s, capacity);
    if i :| 0 <= i < |s| && s[i].0 == q {
      assert i + 1 < |pushed| ==> pushed[i + 1].0 == q;
    }
  }

  lemma PushedIsComplete<K(!new), V>(s: Entries<K, V>, capacity: nat, time: K -> int, k: K, v: V,
                                     now: int, time': K -> int)
    requires |s| <= capacity && capacity > 0 && Ordered(s, time) && Complete(s, capacity, time) && !HasKey(s, k)
    requires (forall q :: time(q) < now && (q != k ==> time'(q) == time(q))) && time'(k) == now
    ensures Complete(Truncated([(k, v)] + s, capacity), capacity, time')
  {
    var pushed := Truncated([(k, v)] + s, capacity);
    assert |pushed| == if |s| == capacity then capacity else |s| + 1;
    assert pushed[0].0 == k && forall i :: 0 < i < |pushed| ==> pushed[i] == s[i - 1];
    forall q | !HasKey(pushed, q) && time'(q) >= 0
      ensures Full(pushed, capacity, time', time'(q))
    {
      PushedKeys(s, capacity, k, v, q);
      if !HasKey(s, q) {
        assert Full(s, capacity, time, time(q));
      }
    }
  }

  lemma TruncatedKeeps<K, V>(s: Entries<K, V>, time: K -> int, value: K -> Option<V>, n: nat)
    requires Ordered(s, time) && Valued(s, time, value)
    ensures Ordered(Truncated(s, n), time) && Valued(Truncated(s, n), time, value)
  {
  }

  // ----- whole runs ---------------------------------------------------------------------------------------

  /** A touch of `k`, with the value `v` it leaves, keeps the most recent keys. */
  lemma TouchStep<K(!new), V>(s: Entries<K, V>, capacity: nat, time: K -> int, value: K -> Option<V>,
                              k: K, v: V, now: int, time': K -> int, value': K -> Option<V>)
    requires MostRecent(s, capacity, time, value) && capacity > 0
    requires Advances(time, time', k, now) && Assigns(value, value', k, v)
    ensures MostRecent(Inserted(s, capacity, k, v), capacity, time', value')
  {
    if HasKey(s, k) {
      var p := PositionOf(s, time, k);
      RemovedEntry(s, time, value, p);
      FrontEntry(s[..p] + s[p + 1..], time, value, k, v, now, time', value');
      MovedIsComplete(s, capacity, time, k, v, p, now, time');
    } else {
      NothingToRemove(s, k);
      FrontEntry(s, time, value, k, v, now, time', value');
      TruncatedKeeps([(k, v)] + s, time', value', capacity);
      PushedIsComplete(s, capacity, time, k, v, now, time');
    }
  }

  /** A successful lookup is an insertion of the value that is already there. */
  lemma PromotedIsInserted<K(!new), V>(s: Entries<K, V>, capacity: nat, time: K -> int, value: K -> Option<V>, k: K)
    requires MostRecent(s, capacity, time, value) && HasKey(s, k)
    ensures Promoted(s, k) == Inserted(s, capacity, k, ValueOf(s, k)) && value(k) == Some(ValueOf(s, k))
  {
    var p := PositionOf(s, time, k);
    assert s[p].0 == k;
  }

  ghost function TouchTimes<K(!new), V>(capacity: nat, ops: seq<Op<K, V>>): K -> int {
    k => LastTouch(capacity, ops, k)
  }

  ghost function PutValues<K(!new), V>(ops: seq<Op<K, V>>): K -> Option<V> {
    k => LastPut(ops, k)
  }

  /** After every run, the cache holds exactly the `capacity` most recently touched keys, most recent first, each
      with the value inserted for it last. */
  lemma {:induction false} CacheHoldsMostRecent<K(!new), V>(capacity: nat, ops: seq<Op<K, V>>)
    requires capacity > 0
    ensures MostRecent(After(capacity, ops), capacity, TouchTimes(capacity, ops), PutValues(ops))
  {
    if |ops| > 0 {
      var before, op := ops[..|ops| - 1], ops[|ops| - 1];
      CacheHoldsMostRecent(capacity, before);
      var s := After(capacity, before);
      var time, value := TouchTimes(capacity, before), PutValues(before);
      var time', value' := TouchTimes(capacity, ops), PutValues(ops);
      if op.Put? {
        TouchStep(s, capacity, time, value, op.key, op.value, |ops| - 1, time', value');
      } else if HasKey(s, op.key) {
        PromotedIsInserted(s, capacity, time, value, op.key);
        TouchStep(s, capacity, time, value, op.key, ValueOf(s, op.key), |ops| - 1, time', value');
      } else {
        SameTimes(s, capacity, time, value, time', value');
      }
    }
  }

  lemma SameTimes<K(!new), V>(s: Entries<K, V>, capacity: nat, time: K -> int, value: K -> Option<V>,
                              time': K -> int, value': K -> Option<V>)
    requires MostRecent(s, capacity, time, value) && forall k :: time'(k) == time(k) && value'(k) == value(k)
    ensures MostRecent(s, capacity, time', value')
  {
    forall q | !HasKey(s, q) && time'(q) >= 0
      ensures Full(s, capacity, time', time'(q))
    {
      assert Full(s, capacity, time, time(q));
    }
  }

  // ----- when a lookup succeeds ---------------------------------------------------------------------------

  ghost function Keys<K, V>(s: Entries<K, V>): set<K> {
    set i | 0 <= i < |s| :: s[i].0
  }

  lemma {:induction false} AsManyKeys<K, V>(s: Entries<K, V>, time: K -> int)
    requires Ordered(s, time)
    ensures |Keys(s)| == |s|
  {
    if |s| > 0 {
      var rest, k := s[..|s| - 1], s[|s| - 1].0;
      AsManyKeys(rest, time);
      assert Keys(s) == Keys(rest) + {k};
      assert forall i :: 0 <= i < |rest| ==> time(rest[i].0) > time(k);
    }
  }

  lemma Fewer<K>(a: set<K>, b: set<K>)
    requires a <= b
    ensures |a| <= |b|
  {
    assert b == a + (b - a);
  }

  /** The keys touched after the last touch of `k`. */
  ghost function TouchedSince<K, V>(capacity: nat, ops: seq<Op<K, V>>, k: K): set<K> {
    set i | 0 <= i < |ops| && LastTouch(capacity, ops, ops[i].key) > LastTouch(capacity, ops, k) :: ops[i].key
  }

  lemma {:induction false} TouchedKeyOccurs<K, V>(capacity: nat, ops: seq<Op<K, V>>, k: K)
    requires LastTouch(capacity, ops, k) >= 0
    ensures ops[LastTouch(capacity, ops, k)].key == k
  {
    var before, op := ops[..|ops| - 1], ops[|ops| - 1];
    if !(op.key == k && (op.Put? || HasKey(After(capacity, before), k))) {
      TouchedKeyOccurs(capacity, before, k);
    }
  }

  lemma InTouchedSince<K, V>(capacity: nat, ops: seq<Op<K, V>>, k: K, q: K)
    ensures q in TouchedSince(capacity, ops, k) <==> LastTouch(capacity, ops, q) > LastTouch(capacity, ops, k)
  {
    if LastTouch(capacity, ops, q) > LastTouch(capacity, ops, k) {
      TouchedKeyOccurs(capacity, ops, q);
    }
  }

  lemma LaterIsBefore<K, V>(s: Entries<K, V>, time: K -> int, i: nat, j: nat)
    requires Ordered(s, time) && i < |s| && j < |s|
    ensures time(s[i].0) > time(s[j].0) <==> i < j
  {
  }

  /** The entries before position `p` are the keys touched since the one there. */
  lemma SinceIsBefore<K(!new), V>(capacity: nat, ops: seq<Op<K, V>>, p: nat)
    requires capacity > 0 && p < |After(capacity, ops)|
    ensures TouchedSince(capacity, ops, After(capacity, ops)[p].0) <= Keys(After(capacity, ops)[..p])
  {
    CacheHoldsMostRecent(capacity, ops);
    var s, time := After(capacity, ops), TouchTimes(capacity, ops);
    var k := s[p].0;
    forall q | q in TouchedSince(capacity, ops, k)
      ensures q in Keys(s[..p])
    {
      InTouchedSince(capacity, ops, k, q);
      assert time(q) > time(k) >= 0;
      if !HasKey(s, q) {
        assert Full(s, capacity, time, time(q));
      } else {
        var i :| 0 <= i < |s| && s[i].0 == q;
        LaterIsBefore(s, time, i, p);
        assert s[..p][i].0 == q;
      }
    }
  }

  /** A key is held exactly when fewer than `capacity` others were touched since it was. */
  lemma HeldIffRecent<K(!new), V>(capacity: nat, ops: seq<Op<K, V>>, k: K)
    requires capacity > 0
    ensures HasKey(After(capacity, ops), k) <==>
            LastTouch(capacity, ops, k) >= 0 && |TouchedSince(capacity, ops, k)| < capacity
  {
    CacheHoldsMostRecent(capacity, ops);
    var s, time := After(capacity, ops), TouchTimes(capacity, ops);
    if p :| 0 <= p < |s| && s[p].0 == k {
      SinceIsBefore(capacity, ops, p);
      AsManyKeys(s[..p], time);
      Fewer(TouchedSince(capacity, ops, k), Keys(s[..p]));
      assert time(k) >= 0;
    } else if time(k) >= 0 {
      assert Full(s, capacity, time, time(k));
      forall q | q in Keys(s)
        ensures q in TouchedSince(capacity, ops, k)
      {
        InTouchedSince(capacity, ops, k, q);
        assert time(q) > time(k);
      }
      AsManyKeys(s, time);
      Fewer(Keys(s), TouchedSince(capacity, ops, k));
    }
  }
}

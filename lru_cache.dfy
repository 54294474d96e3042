/** The LRU cache with per-entry expiry (lru_cache.h).

    The cache keeps a recency list of keys, most recently used first, and a map from each
    key to its value, its absolute expiry time and (in the source) its position in the list.
    Here the position is implicit: the list holds each key once, so the key itself locates
    it. Clock readings are explicit `now` arguments. */
module LruCache {
  import opened Wrappers

  /** A cached value with its absolute expiry time. */
  datatype Entry<V> = Entry(value: V, expireTime: int)

  /** The cache's contents as a value: the recency list and the entry map. */
  datatype State<K, V> = State(order: seq<K>, entries: map<K, Entry<V>>)

  /** An entry is past its expiry only when the clock is strictly beyond it. */
  predicate IsExpired<V>(e: Entry<V>, now: int) {
    now > e.expireTime
  }

  /** No key occurs twice in s. */
  predicate Distinct<K(==)>(s: seq<K>) {
    forall i, j :: 0 <= i < j < |s| ==> s[i] != s[j]
  }

  /** The elements of s that are not in d, in their order in s. */
  function Without<K(==)>(s: seq<K>, d: set<K>): (r: seq<K>)
    ensures forall x :: x in r ==> x in s && x !in d
    ensures forall x :: x in s && x !in d ==> x in r
    ensures |r| <= |s|
  {
    if s == [] then []
    else if s[0] in d then Without(s[1..], d)
    else [s[0]] + Without(s[1..], d)
  }

  /** r can be obtained from s by deleting elements, keeping the order of the rest. */
  predicate IsSubsequence<K(==)>(r: seq<K>, s: seq<K>)
    decreases |s|
  {
    if r == [] then true
    else if s == [] then false
    else (r[0] == s[0] && IsSubsequence(r[1..], s[1..])) || IsSubsequence(r, s[1..])
  }

  /** The cache invariant: the list is duplicate-free, holds exactly the keys of the map,
      and the map never holds more entries than the capacity. */
  ghost predicate Inv<K, V>(s: State<K, V>, capacity: nat) {
    Agree(s) && |s.entries| <= capacity
  }

  /** The list is duplicate-free and holds exactly the keys of the map. */
  ghost predicate Agree<K, V>(s: State<K, V>) {
    Distinct(s.order) &&
    |s.order| == |s.entries| &&
    (forall k :: k in s.order ==> k in s.entries) &&
    (forall k :: k in s.entries ==> k in s.order)
  }

  /** The keys whose entries are past their expiry at time now. */
  function ExpiredKeys<K(==), V>(s: State<K, V>, now: int): set<K> {
    set k | k in s.entries && IsExpired(s.entries[k], now)
  }

  // ---------------------------------------------------------------------------
  // The operations on State values; the class below is proved against them.

  /** put: drop the key's old list position, push the key at the front with its new entry,
      then, if the map outgrew the capacity, pop the back of the list and its map entry. */
  function AfterPut<K(==), V>(s: State<K, V>, capacity: nat, key: K, value: V, expireTime: int): State<K, V> {
    var p := Pushed(s, key, Entry(value, expireTime));
    if |p.entries| > capacity then PopBack(p) else p
  }

  /** The key moved (or added) to the front of the list, with its new entry. */
  function Pushed<K(==), V>(s: State<K, V>, key: K, e: Entry<V>): State<K, V> {
    State([key] + Without(s.order, {key}), s.entries[key := e])
  }

  /** The back of the list removed from list and map. */
  function PopBack<K(==), V>(p: State<K, V>): State<K, V>
    requires p.order != []
  {
    var last := p.order[|p.order| - 1];
    State(p.order[..|p.order| - 1], p.entries - {last})
  }

  /** The answer of get. */
  function GetResult<K(==), V>(s: State<K, V>, key: K, now: int): Option<V> {
    if key !in s.entries then None
    else if IsExpired(s.entries[key], now) then None
    else Some(s.entries[key].value)
  }

  /** The state after get: unchanged on a miss, the entry dropped when expired, the key
      moved to the front when live. */
  function AfterGet<K(==), V>(s: State<K, V>, key: K, now: int): State<K, V> {
    if key !in s.entries then s
    else if IsExpired(s.entries[key], now) then State(Without(s.order, {key}), s.entries - {key})
    else State([key] + Without(s.order, {key}), s.entries)
  }

  /** erase: drop the key from list and map when it is there. */
  function AfterErase<K(==), V>(s: State<K, V>, key: K): State<K, V> {
    if key in s.entries then State(Without(s.order, {key}), s.entries - {key}) else s
  }

  /** cleanup_expired: drop every expired entry. */
  function AfterCleanup<K(==), V>(s: State<K, V>, now: int): State<K, V> {
    var gone := ExpiredKeys(s, now);
    State(Without(s.order, gone), Restrict(s.entries, gone))
  }

  /** The map without the keys in gone. */
  function Restrict<K(==), V>(m: map<K, V>, gone: set<K>): map<K, V> {
    map k | k in m && k !in gone :: m[k]
  }

  // ---------------------------------------------------------------------------
  // Facts about Distinct and Without.

  /** A new element in front of a duplicate-free list keeps it duplicate-free. */
  lemma DistinctCons<K>(x: K, r: seq<K>)
    requires Distinct(r) && x !in r
    ensures Distinct([x] + r)
  {
    var o := [x] + r;
    assert forall i :: 0 < i < |o| ==> o[i] == r[i - 1];
    forall i, j | 0 <= i < j < |o| ensures o[i] != o[j] {
      if i == 0 {
        assert r[j - 1] in r;
      }
    }
  }

  /** Dropping the last element of a duplicate-free list leaves a duplicate-free list
      that no longer holds it. */
  lemma DistinctFront<K>(s: seq<K>)
    requires Distinct(s) && s != []
    ensures var f := s[..|s| - 1]; Distinct(f) && s[|s| - 1] !in f && s == f + [s[|s| - 1]]
  {
    var f := s[..|s| - 1];
    assert forall i :: 0 <= i < |f| ==> f[i] == s[i];
    assert s == f + [s[|s| - 1]];
  }

  lemma {:induction false} WithoutDistinct<K>(s: seq<K>, d: set<K>)
    requires Distinct(s)
    ensures Distinct(Without(s, d))
  {
    if s != [] {
      assert Distinct(s[1..]) by {
        forall i, j | 0 <= i < j < |s[1..]| ensures s[1..][i] != s[1..][j] {
          assert s[1..][i] == s[i + 1] && s[1..][j] == s[j + 1];
        }
      }
      WithoutDistinct(s[1..], d);
      if s[0] !in d {
        var r := Without(s[1..], d);
        assert s[0] !in r by { assert s[0] !in s[1..]; }
        forall i, j | 0 <= i < j < |[s[0]] + r| ensures ([s[0]] + r)[i] != ([s[0]] + r)[j] {
          if i == 0 { assert ([s[0]] + r)[j] in r; }
          else { assert ([s[0]] + r)[i] == r[i - 1] && ([s[0]] + r)[j] == r[j - 1]; }
        }
      }
    }
  }

  lemma {:induction false} WithoutAbsent<K>(s: seq<K>, d: set<K>)
    requires forall x :: x in s ==> x !in d
    ensures Without(s, d) == s
  {
    if s != [] {
      assert s[0] in s;
      assert forall x :: x in s[1..] ==> x in s;
      WithoutAbsent(s[1..], d);
      assert [s[0]] + s[1..] == s;
    }
  }

  /** Removing a key that a duplicate-free list holds shortens it by exactly one. */
  lemma {:induction false} WithoutOne<K>(s: seq<K>, k: K)
    requires Distinct(s) && k in s
    ensures |Without(s, {k})| == |s| - 1
  {
    if s[0] == k {
      assert forall x :: x in s[1..] ==> x !in {k} by {
        forall x | x in s[1..] ensures x != k {
          var i :| 0 <= i < |s[1..]| && s[1..][i] == x;
          assert s[i + 1] == x;
        }
      }
      WithoutAbsent(s[1..], {k});
    } else {
      assert k in s[1..] by { var i :| 0 <= i < |s| && s[i] == k; assert i > 0 && s[1..][i - 1] == k; }
      assert Distinct(s[1..]) by {
        forall i, j | 0 <= i < j < |s[1..]| ensures s[1..][i] != s[1..][j] {
          assert s[1..][i] == s[i + 1] && s[1..][j] == s[j + 1];
        }
      }
      WithoutOne(s[1..], k);
    }
  }

  lemma {:induction false} WithoutWithout<K>(s: seq<K>, a: set<K>, b: set<K>)
    ensures Without(Without(s, a), b) == Without(s, a + b)
  {
    if s != [] {
      WithoutWithout(s[1..], a, b);
      if s[0] !in a {
        assert Without(s, a) == [s[0]] + Without(s[1..], a);
        assert ([s[0]] + Without(s[1..], a))[1..] == Without(s[1..], a);
      }
    }
  }

  /** Without keeps the order of what it keeps. */
  lemma {:induction false} WithoutIsSubsequence<K>(s: seq<K>, d: set<K>)
    ensures IsSubsequence(Without(s, d), s)
    decreases |s|
  {
    if s != [] {
      WithoutIsSubsequence(s[1..], d);
      var r := Without(s, d);
      if s[0] !in d {
        assert r[0] == s[0] && r[1..] == Without(s[1..], d);
      } else if r != [] {
        assert r == Without(s[1..], d);
      }
    }
  }

  // ---------------------------------------------------------------------------
  // Properties of the operations.

  /** The list and the map after put's first two steps agree. */
  lemma PushedAgree<K, V>(s: State<K, V>, key: K, e: Entry<V>)
    requires Agree(s)
    ensures var p := Pushed(s, key, e);
      Agree(p) && p.order[0] == key &&
      |p.entries| == if key in s.entries then |s.entries| else |s.entries| + 1
  {
    var rest := Without(s.order, {key});
    WithoutDistinct(s.order, {key});
    if key in s.entries {
      WithoutOne(s.order, key);
    } else {
      assert forall x :: x in s.order ==> x !in {key};
      WithoutAbsent(s.order, {key});
    }
    DistinctCons(key, rest);
  }

  /** Popping the back of the list and its map entry keeps list and map in agreement. */
  lemma PopBackAgree<K, V>(p: State<K, V>)
    requires Agree(p) && p.order != []
    ensures Agree(PopBack(p)) && |PopBack(p).entries| == |p.entries| - 1
  {
    var last := p.order[|p.order| - 1];
    var q := PopBack(p);
    DistinctFront(p.order);
    assert last in p.entries;
    assert q.entries.Keys == p.entries.Keys - {last};
    forall k | k in q.order ensures k in q.entries {
      assert k in p.order;
    }
    forall k | k in q.entries ensures k in q.order {
      assert k in p.order;
    }
  }

  lemma PutKeepsInv<K, V>(s: State<K, V>, capacity: nat, key: K, value: V, expireTime: int)
    requires Inv(s, capacity)
    ensures Inv(AfterPut(s, capacity, key, value, expireTime), capacity)
  {
    var p := Pushed(s, key, Entry(value, expireTime));
    PushedAgree(s, key, Entry(value, expireTime));
    if |p.entries| > capacity {
      PopBackAgree(p);
    }
  }

  /** After put with a positive capacity, the key is at the front of the list, maps to the
      new value and expiry, and occurs once. With capacity 0 the new key is itself the
      back of the list and is evicted at once. */
  lemma PutAtFront<K, V>(s: State<K, V>, capacity: nat, key: K, value: V, expireTime: int)
    requires Inv(s, capacity)
    ensures var t := AfterPut(s, capacity, key, value, expireTime);
      if capacity > 0 then
        |t.order| > 0 && t.order[0] == key && key in t.entries && t.entries[key] == Entry(value, expireTime) &&
        (forall i :: 0 < i < |t.order| ==> t.order[i] != key)
      else t.order == [] && t.entries == map[]
  {
    var p := Pushed(s, key, Entry(value, expireTime));
    PushedAgree(s, key, Entry(value, expireTime));
    PutKeepsInv(s, capacity, key, value, expireTime);
    var t := AfterPut(s, capacity, key, value, expireTime);
    if |p.entries| > capacity {
      PopBackAgree(p);
      if capacity > 0 {
        assert |p.order| >= 2;
        assert t.order[0] == p.order[0];
        assert p.order[|p.order| - 1] != key by { assert p.order[0] == key; }
      } else {
        assert |t.entries| == 0;
      }
    }
  }

  /** put leaves every other surviving entry with its old value and expiry. */
  lemma PutKeepsOthers<K, V>(s: State<K, V>, capacity: nat, key: K, value: V, expireTime: int)
    requires Inv(s, capacity)
    ensures var t := AfterPut(s, capacity, key, value, expireTime);
      forall k :: k in t.entries && k != key ==> k in s.entries && t.entries[k] == s.entries[k]
  {
  }

  /** Unless the key was new and the cache already full, put evicts nothing. */
  lemma PutWithoutOverflow<K, V>(s: State<K, V>, capacity: nat, key: K, value: V, expireTime: int)
    requires Inv(s, capacity)
    requires key in s.entries || |s.entries| < capacity
    ensures AfterPut(s, capacity, key, value, expireTime).entries.Keys == s.entries.Keys + {key}
  {
    PushedAgree(s, key, Entry(value, expireTime));
  }

  /** When the key is new and the cache full, put evicts exactly the back of the old list,
      whether or not that entry has expired. */
  lemma PutEvictsBack<K, V>(s: State<K, V>, capacity: nat, key: K, value: V, expireTime: int)
    requires Inv(s, capacity)
    requires key !in s.entries && |s.entries| == capacity > 0
    ensures AfterPut(s, capacity, key, value, expireTime).entries.Keys == s.entries.Keys + {key} - {s.order[|s.order| - 1]}
  {
    var e := Entry(value, expireTime);
    PushedAgree(s, key, e);
    var p := Pushed(s, key, e);
    assert forall x :: x in s.order ==> x !in {key};
    WithoutAbsent(s.order, {key});
    assert p.order[|p.order| - 1] == s.order[|s.order| - 1];
  }

  /** Dropping a present key from both list and map keeps the invariant. */
  lemma RemoveKeepsInv<K, V>(s: State<K, V>, capacity: nat, key: K)
    requires Inv(s, capacity) && key in s.entries
    ensures Inv(State(Without(s.order, {key}), s.entries - {key}), capacity)
  {
    WithoutDistinct(s.order, {key});
    WithoutOne(s.order, key);
    assert (s.entries - {key}).Keys == s.entries.Keys - {key};
  }

  /** Moving a present key to the front of the list keeps the invariant. */
  lemma PromoteKeepsInv<K, V>(s: State<K, V>, capacity: nat, key: K)
    requires Inv(s, capacity) && key in s.entries
    ensures Inv(State([key] + Without(s.order, {key}), s.entries), capacity)
  {
    WithoutDistinct(s.order, {key});
    WithoutOne(s.order, key);
    DistinctCons(key, Without(s.order, {key}));
  }

  lemma GetKeepsInv<K, V>(s: State<K, V>, capacity: nat, key: K, now: int)
    requires Inv(s, capacity)
    ensures Inv(AfterGet(s, key, now), capacity)
  {
    if key in s.entries {
      if IsExpired(s.entries[key], now) {
        RemoveKeepsInv(s, capacity, key);
      } else {
        PromoteKeepsInv(s, capacity, key);
      }
    }
  }

  /** get: an absent key is a miss and changes nothing; an expired key (clock strictly past
      its expiry) is a miss and leaves list and map; a live key (including one whose expiry
      is exactly now) is a hit with its stored value, moves to the front, and the other
      keys keep their relative order. The map's entries are never altered otherwise. */
  lemma GetCases<K, V>(s: State<K, V>, capacity: nat, key: K, now: int)
    requires Inv(s, capacity)
    ensures var t := AfterGet(s, key, now); var r := GetResult(s, key, now);
      (key !in s.entries ==> r == None && t == s) &&
      (key in s.entries && now > s.entries[key].expireTime ==>
         r == None && key !in t.order && key !in t.entries &&
         t.order == Without(s.order, {key}) && t.entries.Keys == s.entries.Keys - {key}) &&
      (key in s.entries && now <= s.entries[key].expireTime ==>
         r == Some(s.entries[key].value) && t.entries == s.entries &&
         |t.order| == |s.order| && t.order[0] == key && Without(t.order, {key}) == Without(s.order, {key})) &&
      (forall k :: k in t.entries ==> k in s.entries && t.entries[k] == s.entries[k])
  {
    var t := AfterGet(s, key, now);
    if key in s.entries {
      WithoutOne(s.order, key);
      var rest := Without(s.order, {key});
      if IsExpired(s.entries[key], now) {
        assert (s.entries - {key}).Keys == s.entries.Keys - {key};
      } else {
        assert Without(t.order, {key}) == Without(rest, {key}) by {
          assert t.order == [key] + rest;
          assert t.order[1..] == rest;
        }
        WithoutWithout(s.order, {key}, {key});
        assert {key} + {key} == {key};
      }
    }
  }

  lemma EraseKeepsInv<K, V>(s: State<K, V>, capacity: nat, key: K)
    requires Inv(s, capacity)
    ensures Inv(AfterErase(s, key), capacity)
  {
    if key in s.entries {
      RemoveKeepsInv(s, capacity, key);
    }
  }

  /** erase removes the key if present and leaves every other entry, and the order of the
      other keys, as it was; for an absent key it changes nothing. */
  lemma EraseOnlyKey<K, V>(s: State<K, V>, capacity: nat, key: K)
    requires Inv(s, capacity)
    ensures var t := AfterErase(s, key);
      key !in t.entries && key !in t.order &&
      t.order == Without(s.order, {key}) &&
      (forall k :: k != key ==> (k in t.entries <==> k in s.entries)) &&
      (forall k :: k in t.entries ==> t.entries[k] == s.entries[k]) &&
      (key !in s.entries ==> t == s)
  {
    if key !in s.entries {
      assert forall x :: x in s.order ==> x !in {key};
      WithoutAbsent(s.order, {key});
    }
  }

  lemma CleanupKeepsInv<K, V>(s: State<K, V>, capacity: nat, now: int)
    requires Inv(s, capacity)
    ensures Inv(AfterCleanup(s, now), capacity)
  {
    var gone := ExpiredKeys(s, now);
    var t := AfterCleanup(s, now);
    WithoutDistinct(s.order, gone);
    DistinctCard(t.order);
    assert (set k | k in t.order) == t.entries.Keys;
    assert t.entries.Keys <= s.entries.Keys;
  }

  /** The number of elements of a duplicate-free sequence is the size of its element set. */
  lemma {:induction false} DistinctCard<K>(s: seq<K>)
    requires Distinct(s)
    ensures |set k | k in s| == |s|
  {
    if s != [] {
      var tail := s[1..];
      assert Distinct(tail) by {
        forall i, j | 0 <= i < j < |tail| ensures tail[i] != tail[j] {
          assert tail[i] == s[i + 1] && tail[j] == s[j + 1];
        }
      }
      DistinctCard(tail);
      assert s[0] !in tail;
      assert (set k | k in s) == (set k | k in tail) + {s[0]};
    }
  }

  /** cleanup_expired keeps exactly the entries that are not past their expiry, each with
      its value and expiry, and the surviving keys stay in their old recency order. */
  lemma CleanupExact<K, V>(s: State<K, V>, capacity: nat, now: int)
    requires Inv(s, capacity)
    ensures var t := AfterCleanup(s, now);
      (forall k :: k in t.entries <==> k in s.entries && now <= s.entries[k].expireTime) &&
      (forall k :: k in t.entries ==> t.entries[k] == s.entries[k]) &&
      (forall k :: k in t.order <==> k in t.entries) &&
      IsSubsequence(t.order, s.order)
  {
    WithoutIsSubsequence(s.order, ExpiredKeys(s, now));
  }

  lemma RestrictStep<K, V>(m: map<K, V>, gone: set<K>, k: K)
    ensures Restrict(m, gone) - {k} == Restrict(m, gone + {k})
  {
  }

  /** cleanup_expired's loop: visit the map's keys in an unspecified order, as an
      unordered map iterates, dropping each expired key from list and map. */
  method Sweep<K(==), V>(s: State<K, V>, now: int) returns (t: State<K, V>)
    ensures t == AfterCleanup(s, now)
  {
    var o, m := s.order, s.entries;
    var pending := m.Keys;
    ghost var gone: set<K> := {};
    WithoutAbsent(o, gone);
    assert Restrict(m, gone) == m;
    while pending != {}
      invariant pending <= s.entries.Keys
      invariant forall k :: k in gone <==> k in s.entries && k !in pending && IsExpired(s.entries[k], now)
      invariant m == Restrict(s.entries, gone)
      invariant o == Without(s.order, gone)
      decreases |pending|
    {
      var k :| k in pending;
      if now > m[k].expireTime {
        WithoutWithout(s.order, gone, {k});
        RestrictStep(s.entries, gone, k);
        o := Without(o, {k});
        m := m - {k};
        gone := gone + {k};
      }
      pending := pending - {k};
    }
    assert gone == ExpiredKeys(s, now);
    t := State(o, m);
  }

  // ---------------------------------------------------------------------------

  /** The cache object. */
  class Cache<K(==), V> {
    const capacity: nat
    /** The recency list, most recently used first. */
    var order: seq<K>
    var entries: map<K, Entry<V>>

    ghost predicate Valid()
      reads this
    {
      Inv(State(order, entries), capacity)
    }

    /** The cleanup interval and the sweeping thread are not modelled. */
    constructor (capacity: nat)
      ensures Valid() && this.capacity == capacity && order == [] && entries == map[]
    {
      this.capacity := capacity;
      order := [];
      entries := map[];
    }

    method Put(key: K, value: V, ttl: int, now: int)
      requires Valid()
      modifies this
      ensures Valid()
      ensures State(order, entries) == AfterPut(State(old(order), old(entries)), capacity, key, value, now + ttl)
    {
      var s0 := State(order, entries);
      // erase the key's old list position, push it at the front, store its entry
      var s := Pushed(s0, key, Entry(value, now + ttl));
      PushedAgree(s0, key, Entry(value, now + ttl));
      // over capacity: drop the back of the list and its entry
      if |s.entries| > capacity {
        PopBackAgree(s);
        s := PopBack(s);
      }
      order, entries := s.order, s.entries;
    }

    method Get(key: K, now: int) returns (r: Option<V>)
      requires Valid()
      modifies this
      ensures Valid()
      ensures r == GetResult(State(old(order), old(entries)), key, now)
      ensures State(order, entries) == AfterGet(State(old(order), old(entries)), key, now)
    {
      GetKeepsInv(State(order, entries), capacity, key, now);
      if key !in entries {
        return None;
      }
      if now > entries[key].expireTime {
        order := Without(order, {key});
        entries := entries - {key};
        return None;
      }
      order := [key] + Without(order, {key});
      r := Some(entries[key].value);
    }

    method Erase(key: K)
      requires Valid()
      modifies this
      ensures Valid()
      ensures State(order, entries) == AfterErase(State(old(order), old(entries)), key)
    {
      EraseKeepsInv(State(order, entries), capacity, key);
      if key in entries {
        order := Without(order, {key});
        entries := entries - {key};
      }
    }

    method CleanupExpired(now: int)
      requires Valid()
      modifies this
      ensures Valid()
      ensures State(order, entries) == AfterCleanup(State(old(order), old(entries)), now)
    {
      CleanupKeepsInv(State(order, entries), capacity, now);
      var s := Sweep(State(order, entries), now);
      order, entries := s.order, s.entries;
    }
  }
}

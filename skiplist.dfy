/** The SkipList class of skiplist.h with int keys and string values: the node arena and
    its links, the list level, the element count and the LRU cache that search_element
    fills. Every method is proved against the view of level 0 (Entries) and the reference
    operations of the Entries module; the invariant Valid ties the cache to the index. */
module SkipListIndex {
  import opened Wrappers
  import opened Entries
  import opened SkipLinks
  import opened LinkSurgery
  import opened IndexSteps
  import opened LruCache
  import opened Codec
  import Persistence

  /** The cache capacity the class gives its LRUCache (skiplist.h:116, 125). */
  const CacheCapacity: nat := 100
  /** The time to live, in seconds, of an entry that search_element caches (skiplist.h:250). */
  const SearchTtl: int := 5

  /** The number of leading true coins: how often rand() % 2 came up 1 in a row. */
  function Heads(flips: seq<bool>): nat {
    if flips == [] || !flips[0] then 0 else 1 + Heads(flips[1..])
  }

  lemma {:induction false} HeadsBound(flips: seq<bool>)
    ensures Heads(flips) <= |flips|
    ensures forall j :: 0 <= j < Heads(flips) ==> flips[j]
    ensures Heads(flips) < |flips| ==> !flips[Heads(flips)]
  {
    if flips != [] && flips[0] {
      HeadsBound(flips[1..]);
      assert forall j :: 0 < j < Heads(flips) ==> flips[j] == flips[1..][j - 1];
    }
  }

  /** The cache holds only pairs of the index: every cached key is in the index with the
      cached value. */
  ghost predicate CacheAgrees(e: seq<Pair>, m: map<int32, Entry<string>>) {
    forall k :: k in m ==> Lookup(e, k) == Some(m[k].value)
  }

  /** Inserting a pair never contradicts the cache: a cached key is present, so its value
      stays. */
  lemma CacheAfterInsert(e: seq<Pair>, m: map<int32, Entry<string>>, key: int32, value: string)
    requires Sorted(e) && CacheAgrees(e, m)
    ensures CacheAgrees(InsertEntry(e, key, value), m)
  {
    forall k | k in m ensures Lookup(InsertEntry(e, key, value), k) == Some(m[k].value) {
      InsertLookup(e, key, value, k);
      LookupHasKey(e, k);
    }
  }

  /** Removing a key from the index and from the cache keeps them in agreement. */
  lemma CacheAfterRemove(e: seq<Pair>, m: map<int32, Entry<string>>, m': map<int32, Entry<string>>, key: int32)
    requires Sorted(e) && CacheAgrees(e, m)
    requires key !in m' && forall k :: k in m' ==> k in m && m'[k] == m[k]
    ensures CacheAgrees(RemoveEntry(e, key), m')
  {
    forall k | k in m' ensures Lookup(RemoveEntry(e, key), k) == Some(m'[k].value) {
      RemoveLookup(e, key, k);
    }
  }

  /** A get keeps the cache in agreement with the index, and a hit answers with the
      index's value. */
  lemma CacheAfterGet(e: seq<Pair>, s: State<int32, string>, key: int32, now: int)
    requires Inv(s, CacheCapacity) && CacheAgrees(e, s.entries)
    ensures CacheAgrees(e, AfterGet(s, key, now).entries)
    ensures GetResult(s, key, now).Some? ==> Lookup(e, key) == GetResult(s, key, now)
  {
    GetCases(s, CacheCapacity, key, now);
  }

  /** Putting the index's own value for a key keeps the cache in agreement. */
  lemma CacheAfterPut(e: seq<Pair>, s: State<int32, string>, key: int32, v: string, expireTime: int)
    requires Inv(s, CacheCapacity) && CacheAgrees(e, s.entries) && Lookup(e, key) == Some(v)
    ensures CacheAgrees(e, AfterPut(s, CacheCapacity, key, v, expireTime).entries)
  {
    PutAtFront(s, CacheCapacity, key, v, expireTime);
    PutKeepsOthers(s, CacheCapacity, key, v, expireTime);
  }

  /** get_random_level (skiplist.h:162-172): count the coin flips that come up 1 before
      the first 0, capped at maxLevel. The flips stand for rand() % 2; past their end they
      count as 0. */
  method RandomLevel(maxLevel: nat, flips: seq<bool>) returns (k: nat)
    ensures k <= maxLevel
    ensures k == if Heads(flips) < maxLevel then Heads(flips) else maxLevel
  {
    k := 0;
    while k < |flips| && flips[k]
      invariant k <= |flips| && Heads(flips) == k + Heads(flips[k..])
    {
      assert flips[k..][1..] == flips[k + 1..];
      k := k + 1;
    }
    assert k == |flips| ==> flips[k..] == [];
    k := if k < maxLevel then k else maxLevel;
  }

  /** insert_element with its call of get_random_level, next to the cache's entry map m:
      the pairs become the reference insertion, a new node has one slot more than the
      level drawn from the flips, and the cache still agrees with the index. */
  method InsertPair(st: IndexState, ghost levels: seq<seq<nat>>, maxLevel: nat, ghost m: map<int32, Entry<string>>,
                    key: int32, value: string, flips: seq<bool>)
    returns (present: bool, st': IndexState, ghost levels': seq<seq<nat>>)
    requires Shape(st, levels, maxLevel) && CacheAgrees(Pairs(st, levels), m)
    ensures Shape(st', levels', maxLevel) && CacheAgrees(Pairs(st', levels'), m)
    ensures present <==> HasKey(Pairs(st, levels), key)
    ensures Pairs(st', levels') == InsertEntry(Pairs(st, levels), key, value)
    ensures present ==> st' == st && levels' == levels
    ensures !present ==> st'.count == st.count + 1 && |st'.forward| == |st.forward| + 1 &&
                         |st'.forward[|st.forward|]| == (if Heads(flips) < maxLevel then Heads(flips) else maxLevel) + 1 &&
                         st'.level == if st.level < |st'.forward[|st.forward|]| - 1 then |st'.forward[|st.forward|]| - 1 else st.level
    ensures !present ==> forall i :: 0 <= i <= maxLevel ==>
      (|st.forward| in levels'[i] <==> i < |st'.forward[|st.forward|]|)
    ensures !present ==> st'.keys == st.keys + [key] && st'.values == st.values + [value]
  {
    PairsSorted(st, levels, maxLevel);
    CacheAfterInsert(Pairs(st, levels), m, key, value);
    var rl := RandomLevel(maxLevel, flips);
    present, st', levels' := InsertStep(st, levels, maxLevel, key, value, rl);
  }

  /** load_file's loop (skiplist.h:342-353), with coins[i] the coin flips of the insertion
      that line i may cause: the pairs end up as the loop over the lines says, with the key
      and value strings carried from line to line, and the cache still agrees. */
  method LoadLines(st: IndexState, ghost levels: seq<seq<nat>>, maxLevel: nat, ghost m: map<int32, Entry<string>>,
                   lines: seq<string>, coins: seq<seq<bool>>)
    returns (aborted: Option<nat>, st': IndexState, ghost levels': seq<seq<nat>>)
    requires Shape(st, levels, maxLevel) && CacheAgrees(Pairs(st, levels), m)
    ensures Shape(st', levels', maxLevel) && CacheAgrees(Pairs(st', levels'), m)
    ensures Persistence.Outcome(Pairs(st', levels'), aborted) == Persistence.Load(Pairs(st, levels), lines)
  {
    ghost var target := Persistence.Load(Pairs(st, levels), lines);
    PairsSorted(st, levels, maxLevel);
    CacheAfterLoad(Pairs(st, levels), m, "", "", lines, 0);
    st', levels' := st, levels;
    var kb, vb := "", "";
    var i := 0;
    while i < |lines|
      invariant i <= |lines|
      invariant Shape(st', levels', maxLevel)
      invariant Persistence.LoadFrom(Pairs(st', levels'), kb, vb, lines, i) == target
    {
      var flips := if i < |coins| then coins[i] else [];
      var stop;
      stop, kb, vb, st', levels' := LoadLine(st', levels', maxLevel, kb, vb, lines, i, flips, target);
      if stop {
        return Some(i), st', levels';
      }
      i := i + 1;
    }
    aborted := None;
  }

  /** One pass of load_file's loop on line i, where the load from line i on was to give
      target: the line is split into the carried key and value strings, an empty one passes
      the line over, a key text std::stoi rejects stops the load, and otherwise the pair is
      inserted; the load from the next line on still gives target. */
  method LoadLine(st: IndexState, ghost levels: seq<seq<nat>>, maxLevel: nat, kb: string, vb: string,
                  lines: seq<string>, i: nat, flips: seq<bool>, ghost target: Persistence.Outcome)
    returns (stop: bool, kb': string, vb': string, st': IndexState, ghost levels': seq<seq<nat>>)
    requires i < |lines| && Shape(st, levels, maxLevel)
    requires Persistence.LoadFrom(Pairs(st, levels), kb, vb, lines, i) == target
    ensures Shape(st', levels', maxLevel)
    ensures stop ==> Persistence.Outcome(Pairs(st', levels'), Some(i)) == target
    ensures !stop ==> Persistence.LoadFrom(Pairs(st', levels'), kb', vb', lines, i + 1) == target
  {
    var r := GetKeyValueFromString(lines[i], kb, vb);
    stop, kb', vb', st', levels' := false, r.0, r.1, st, levels;
    if r.0 == [] || r.1 == [] {
      Persistence.LoadFromSkip(Pairs(st, levels), kb, vb, lines, i, r.0, r.1);
      return;
    }
    var k := Stoi(r.0);
    if k.None? {
      Persistence.LoadFromBad(Pairs(st, levels), kb, vb, lines, i, r.0, r.1);
      stop := true;
      return;
    }
    Persistence.LoadFromItem(Pairs(st, levels), kb, vb, lines, i, r.0, r.1, k.value);
    var rl := RandomLevel(maxLevel, flips);
    var present;
    present, st', levels' := InsertStep(st, levels, maxLevel, k.value, r.1, rl);
  }

  /** A load only inserts, and an insertion never changes a present key, so whatever the
      lines say the cache still agrees with the index afterwards. */
  lemma {:induction false} CacheAfterLoad(e: seq<Pair>, m: map<int32, Entry<string>>, kb: string, vb: string,
                                          lines: seq<string>, i: nat)
    requires Sorted(e) && CacheAgrees(e, m)
    ensures CacheAgrees(Persistence.LoadFrom(e, kb, vb, lines, i).entries, m)
    decreases |lines| - i
  {
    if i < |lines| {
      var r := GetKeyValueFromString(lines[i], kb, vb);
      if r.0 == [] || r.1 == [] {
        CacheAfterLoad(e, m, r.0, r.1, lines, i + 1);
      } else if Stoi(r.0).Some? {
        var k := Stoi(r.0).value;
        CacheAfterInsert(e, m, k, r.1);
        InsertSorted(e, k, r.1);
        CacheAfterLoad(InsertEntry(e, k, r.1), m, r.0, r.1, lines, i + 1);
      }
    }
  }

  /** dump_file's walk along level 0 from the header, one line per node. */
  method WalkLevelZero(keys: seq<int32>, values: seq<string>, fwd: seq<seq<Link>>, ghost l: seq<nat>)
    returns (lines: seq<string>)
    requires Chain(fwd, 0, l) && InBounds(keys, l) && |values| == |keys|
    ensures lines == Persistence.DumpLines(View(keys, values, l))
  {
    ghost var e := View(keys, values, l);
    lines := [];
    var node := fwd[0][0];
    ghost var j: nat := 0;
    while node != Null
      invariant j <= |l| && node == Succ(l, j)
      invariant lines == Persistence.DumpLines(e[..j])
      decreases |l| - j
    {
      var x := node.node;
      ChainAt(fwd, 0, l, j);
      assert e[j] == Pair(keys[x], values[x]);
      assert e[..j + 1][..j] == e[..j];
      lines := lines + [FormatLine(keys[x], values[x])];
      node := fwd[x][0];
      j := j + 1;
    }
    assert e[..j] == e;
  }

  class SkipList {
    /** _max_level: node levels run from 0 to maxLevel. */
    const maxLevel: nat
    /** The node arena with _header at index 0, _skip_list_level and _element_count. */
    var state: IndexState
    /** The chain of node indices that each level spells out. */
    ghost var levels: seq<seq<nat>>
    /** _cache. */
    const cache: Cache<int32, string>

    ghost predicate Valid()
      reads this, cache
    {
      Shape(state, levels, maxLevel) &&
      cache.Valid() && cache.capacity == CacheCapacity &&
      CacheAgrees(Entries(), cache.entries)
    }

    /** The index's pairs in level-0 order. */
    ghost function Entries(): seq<Pair>
      reads this
    {
      Pairs(state, levels)
    }

    /** The pairs are in strictly ascending key order. */
    lemma EntriesSorted()
      requires Valid()
      ensures Sorted(Entries())
    {
      PairsSorted(state, levels, maxLevel);
    }

    /** SkipList(max_level) (skiplist.h:120-130): only the header, with max_level + 1 null
        pointers, level 0, no elements and an empty cache of capacity 100. */
    constructor (maxLevel: nat)
      ensures Valid() && Entries() == [] && this.maxLevel == maxLevel && state.level == 0
      ensures fresh(cache) && cache.order == []
    {
      this.maxLevel := maxLevel;
      state := IndexState([0], [""], [seq(maxLevel + 1, _ => Null)], 0, 0);
      levels := seq(maxLevel + 1, _ => []);
      cache := new Cache(CacheCapacity);
    }

    /** insert_element (skiplist.h:174-219). A present key returns 1 and changes nothing;
        a new key returns 0 and is linked in on levels 0..RandomLevel(flips), raising the
        list level when needed. The pairs become the reference insertion in both cases. */
    method Insert(key: int32, value: string, flips: seq<bool>) returns (r: int)
      requires Valid()
      modifies this
      ensures Valid()
      ensures r == if HasKey(old(Entries()), key) then 1 else 0
      ensures Entries() == InsertEntry(old(Entries()), key, value)
      ensures r == 1 ==> state == old(state)
      ensures r == 0 ==> state.count == old(state.count) + 1 && |state.forward| == old(|state.forward|) + 1
      ensures r == 0 ==> var rl := if Heads(flips) < maxLevel then Heads(flips) else maxLevel;
        |state.forward[old(|state.forward|)]| == rl + 1 &&
        state.level == (if old(state.level) < rl then rl else old(state.level)) &&
        forall i :: 0 <= i <= maxLevel ==> (old(|state.forward|) in levels[i] <==> i <= rl)
      ensures r == 0 ==> state.keys == old(state.keys) + [key] && state.values == old(state.values) + [value]
    {
      var present, st', ls' := InsertPair(state, levels, maxLevel, cache.entries, key, value, flips);
      state, levels := st', ls';
      r := if present then 1 else 0;
    }

    /** search_element (skiplist.h:221-256) at clock time now: a live cache entry answers
        at once; otherwise the index is searched and a found pair is put in the cache with
        a time to live of 5. The answer is whether the index holds the key. */
    method Search(key: int32, now: int) returns (found: bool)
      requires Valid()
      modifies cache
      ensures Valid()
      ensures found <==> HasKey(Entries(), key)
      ensures var s := State(old(cache.order), old(cache.entries));
              var g := AfterGet(s, key, now);
              State(cache.order, cache.entries) ==
                match Lookup(Entries(), key)
                case None => g
                case Some(v) => if GetResult(s, key, now).Some? then g else AfterPut(g, CacheCapacity, key, v, now + SearchTtl)
    {
      ghost var e := Entries();
      LookupHasKey(e, key);
      CacheAfterGet(e, State(cache.order, cache.entries), key, now);
      var hit := cache.Get(key, now);
      if hit.Some? {
        return true;
      }
      var v := SearchStep(state, levels, maxLevel, key);
      if v.Some? {
        CacheAfterPut(e, State(cache.order, cache.entries), key, v.value, now + SearchTtl);
        cache.Put(key, v.value, SearchTtl, now);
        found := true;
      } else {
        found := false;
      }
    }

    /** delete_element (skiplist.h:258-298). A present key is unlinked from every level it
        is on, the list level drops to the highest non-empty level, the count goes down and
        the key leaves the cache; an absent key changes nothing. */
    method Delete(key: int32)
      requires Valid()
      modifies this, cache
      ensures Valid()
      ensures Entries() == RemoveEntry(old(Entries()), key)
      ensures key !in cache.entries
      ensures var s := State(old(cache.order), old(cache.entries));
              State(cache.order, cache.entries) == if HasKey(old(Entries()), key) then AfterErase(s, key) else s
      ensures HasKey(old(Entries()), key) ==> state.count == old(state.count) - 1 && state.level <= old(state.level)
      ensures !HasKey(old(Entries()), key) ==> state == old(state)
    {
      ghost var e := Entries();
      EntriesSorted();
      LookupHasKey(e, key);
      var present, st', ls' := DeleteStep(state, levels, maxLevel, key);
      state, levels := st', ls';
      if present {
        ghost var s := State(cache.order, cache.entries);
        EraseOnlyKey(s, CacheCapacity, key);
        CacheAfterRemove(e, s.entries, AfterErase(s, key).entries, key);
        cache.Erase(key);
      }
    }

    /** size (skiplist.h:359-363): the element count, which is the number of pairs. */
    method Size() returns (r: nat)
      requires Valid()
      ensures r == |Entries()|
    {
      PairsSorted(state, levels, maxLevel);
      r := state.count;
    }

    /** dump_file (skiplist.h:317-334): walk level 0 from the header and write one line per
        node. The file is the returned sequence of lines. */
    method Dump() returns (lines: seq<string>)
      requires Valid()
      ensures lines == Persistence.DumpLines(Entries())
    {
      lines := WalkLevelZero(state.keys, state.values, state.forward, levels[0]);
    }

    /** load_file (skiplist.h:336-357) over the lines of the file, with coins[i] as the
        coin flips of the insertion that line i may cause. A key text that std::stoi
        rejects ends the load at that line (the exception leaves load_file); the lines
        before it stay loaded. */
    method Load(lines: seq<string>, coins: seq<seq<bool>>) returns (aborted: Option<nat>)
      requires Valid()
      modifies this
      ensures Valid()
      ensures Persistence.Outcome(Entries(), aborted) == Persistence.Load(old(Entries()), lines)
    {
      var st';
      ghost var ls';
      aborted, st', ls' := LoadLines(state, levels, maxLevel, cache.entries, lines, coins);
      state, levels := st', ls';
    }
  }
}

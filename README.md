# Skip list key-value index with an LRU/TTL read cache

This project models an in-memory key-value index. The index is a skip list: each node
holds a key, a value and a tower of forward pointers. A header node sits on every level,
and a level counter says how high the list currently reaches. New nodes get a random
height. Insert refuses keys that are already present. Delete unlinks the node from every
level it is on and lowers the list level while the top level is empty.

Reads go through a least-recently-used cache with per-entry expiry. The cache holds a
recency list of keys plus a map from each key to its value and its absolute expiry time.
A search asks the cache first. On a miss it walks the skip list and puts the pair it finds
into the cache with a time to live of 5 seconds. Delete also erases the key from the cache.

The index can be saved as one `key:value` line per pair, in level-0 order, and replayed
from such lines.

The model carries the source's integer and text conventions:
- Keys are `int32`; values are strings (`seq<char>`).
- The source's `rand() % 2` coin flips are a `seq<bool>` parameter.
- Clock readings are an explicit `now: int` (seconds).
- The file is a sequence of lines.

Modules, following the program's structure:

- `Codec` covers `is_valid_string`, `get_key_value_from_string`, the text of a dumped
  line and `std::stoi` (leading white space, sign, longest digit run, range check).
- `Entries` is the abstract view of the index: its pairs in ascending key order, with
  reference definitions of lookup, insertion (which keeps an existing pair) and removal.
- `SkipLinks` models the node arena (index 0 is the header). `forward` is a sequence of
  pointer rows. A ghost chain per level lists the nodes that level spells out. `Core` is
  the structural invariant: every level is a chain with strictly increasing keys, a node
  is on exactly the levels its tower reaches, and every tower has at most
  `max_level + 1` slots.
- `LinkSurgery` holds the loops of the source as methods:
  - the descent that records `update[]`;
  - the raise of the list level;
  - the splice of a new node;
  - the unlink of a deleted node;
  - the shrink of the list level.
- `IndexSteps` assembles each whole operation on the index state. It proves that the
  view then changes exactly as the reference operation says and that `Core` is preserved.
- `LruCache` models the cache as a class over a recency `seq` and an entry `map`. It is
  proved against functions on a `State` value. The invariant: the list is duplicate-free,
  holds exactly the keys of the map, and the map never exceeds the capacity.
- `Persistence` models the dump and the replay loop, with a line-by-line reference for
  that loop.
- `SkipListIndex` is the `SkipList` class with its `LruCache.Cache`. Its invariant `Valid`
  includes the binding between the two: every cached key is in the index with the cached
  value. So a cache hit always answers the way the index would.

`load_file` keeps its key and value strings from one line to the next, and an unusable
line leaves them as they were. The model keeps that behaviour (`Persistence.LoadFrom`).
`Persistence.LoadIsLineByLine` proves that the leftover strings never change the result.

Nothing here has been executed; every row of the "## Model" table below states a proved contract.

## Model

| member | source | states |
|---|---|---|
| Codec.FindFirst | skiplist.h:370-371 | the index found is the first occurrence of the character, or the length when the character is absent (`npos`) |
| Codec.ValidIffDelimiter | skiplist.h:374-382 | `is_valid_string` accepts a line exactly when it contains the delimiter `:` |
| Codec.GetKeyValueFromString | skiplist.h:365-372 | on an invalid line the key and value strings keep what they held; on a valid line key + `:` + value is the line and the key holds no delimiter |
| Codec.SplitUnique | skiplist.h:368-371 | a line built as k + `:` + v with no delimiter in k is valid and splits back into exactly k and v |
| Codec.NatToStringValue | skiplist.h:326 | the decimal digits written for a natural number have that number as their value |
| Codec.IntToStringShape | skiplist.h:326 | the written key text is non-empty, starts with a minus sign or a digit, and holds no delimiter |
| Codec.SkipSpace | skiplist.h:351 | `std::stoi` skips exactly the leading white space: everything skipped is white space and the stop is not |
| Codec.DigitRun | skiplist.h:351 | the digit run read is maximal: every character in it is a digit and the next one is not |
| Codec.StoiIntToString | skiplist.h:326-351 | `std::stoi` reads back exactly the int whose text `operator<<` wrote, for every int |
| Codec.StoiSignDigits | skiplist.h:351 | `std::stoi` of an optional minus sign and digits is their value, with the sign, or fails outside the int range |
| Codec.StoiMinusDigits | skiplist.h:351 | `std::stoi` of "-" followed by digits is the negated value, or fails out of range |
| Codec.StoiPlainDigits | skiplist.h:351 | `std::stoi` of digits alone is their value, or fails out of range |
| Codec.WholeRun | skiplist.h:351 | a digit run that reaches the end of the text is read whole |
| Codec.StoiNeedsDigit | skiplist.h:351 | `std::stoi` succeeds only on text that holds a digit (`std::invalid_argument` otherwise) |
| Codec.DigitsToEnd | skiplist.h:351 | a run of digits up to the end of the text ends at the text's end |
| Codec.LineRoundTrip | skiplist.h:326-351 | a dumped line is valid, splits into a non-empty key text and the written value, and the key text converts back to the key |
| Entries.LookupHasKey | skiplist.h:245-255 | lookup finds a value exactly when the pairs hold the key |
| Entries.LookupAt | skiplist.h:245-247 | in ascending pairs, lookup of the key at position c gives the value at position c |
| Entries.InsertMembers | skiplist.h:209-216 | insertion adds the new pair and no other |
| Entries.InsertSorted | skiplist.h:209-214 | insertion into ascending pairs keeps them ascending |
| Entries.SortedCons | skiplist.h:212-213 | a pair below every key of ascending pairs can go in front of them |
| Entries.InsertAbove | skiplist.h:212-213 | a bound below every key and below the new key stays below every key after insertion |
| Entries.InsertLookup | skiplist.h:191-216 | after insertion, the new key maps to the new value only if it was absent; every other lookup is unchanged |
| Entries.InsertPresent | skiplist.h:191-197 | inserting a present key leaves the pairs unchanged, so the old value is kept |
| Entries.InsertBeforeFound | skiplist.h:191-197 | insertion walks past smaller keys and stops, unchanged, at the pair holding the key |
| Entries.InsertAt | skiplist.h:209-214 | a new key goes in exactly at the position that splits the smaller keys from the larger ones |
| Entries.InsertLength | skiplist.h:191-216 | insertion adds one pair for a new key and none for a present key |
| Entries.InsertLengthNew | skiplist.h:216 | inserting an absent key adds exactly one pair |
| Entries.RemoveSorted | skiplist.h:278-283 | removal keeps the pairs ascending and adds no pair |
| Entries.RemoveLookup | skiplist.h:276-294 | after removal the key is absent and every other lookup is unchanged |
| Entries.RemoveAt | skiplist.h:278-283 | removing the key at position c of ascending pairs drops exactly that position |
| Entries.RemoveFirst | skiplist.h:278-283 | removal drops the first pair holding the key and nothing else |
| Entries.RemoveAbsent | skiplist.h:275-297 | removing an absent key leaves the pairs unchanged |
| SkipLinks.Cut | skiplist.h:184-187 | where a search stops on a level is within the level |
| SkipLinks.ChainAt | skiplist.h:184-187 | a node on a level's chain is an arena node whose pointer at that level is the next node of the chain, or null at its end |
| SkipLinks.ChainNext | skiplist.h:184-189 | following the pointer in front of position c reaches position c |
| SkipLinks.IncreasingDistinct | skiplist.h:184-187 | a chain with increasing keys visits no node twice |
| SkipLinks.ChainFrame | skiplist.h:209-283 | rewriting one pointer slot at another level leaves a chain intact |
| SkipLinks.ChainAppend | skiplist.h:209 | creating a new node row leaves every chain intact |
| SkipLinks.SpliceChain | skiplist.h:212-213 | the two pointer assignments of the splice put the node into the chain at position c and change nothing else at that level |
| SkipLinks.UnlinkChain | skiplist.h:282 | the unlinking assignment takes the node at position c out of the chain |
| SkipLinks.CutAtExit | skiplist.h:184-187 | the descent stops on a level where every key it passed is below the search key and the next is not |
| SkipLinks.CutUnique | skiplist.h:184-187 | a separating position on an increasing chain is the cut, so the stop is unique |
| SkipLinks.TowerDown | skiplist.h:182-189 | a node on level i is on level i - 1 too, so the descent can continue one level down |
| SkipLinks.DescendStep | skiplist.h:182-189 | one level down, the search resumes from the node it reached and all keys it skips are below the key |
| SkipLinks.CutFound | skiplist.h:243-245 | the key is in the index exactly when the node at the level-0 cut carries it |
| SkipLinks.CutLandsOn | skiplist.h:278-283 | a node holding the key, if it is on a level, is the node at that level's cut |
| SkipLinks.CutSeparates | skiplist.h:184-187 | on an increasing chain the cut separates the smaller keys from the rest |
| SkipLinks.InsMembers | skiplist.h:212-213 | a chain after a splice holds its old nodes plus the new one |
| SkipLinks.DelMembers | skiplist.h:282 | a chain after an unlink holds its old nodes minus the removed one |
| SkipLinks.IncreasingIns | skiplist.h:209-214 | splicing a node with a new key at the key's cut keeps the chain's keys increasing |
| SkipLinks.IncreasingDel | skiplist.h:278-283 | unlinking a node keeps a chain's keys increasing |
| SkipLinks.IncreasingAppend | skiplist.h:209 | a new node row leaves every chain's keys increasing |
| SkipLinks.ViewSorted | skiplist.h:317-334 | the pairs along an increasing chain are in ascending key order |
| SkipLinks.ViewCut | skiplist.h:184-187 | in the pairs on a level, those before the cut are below the key and the rest are not |
| SkipLinks.ViewIns | skiplist.h:209-214 | splicing the new node at position c puts its pair at position c of the view |
| SkipLinks.ViewDel | skiplist.h:278-283 | unlinking position c takes position c out of the view |
| SkipLinks.ViewAppend | skiplist.h:209 | a node that is not on a chain does not change that chain's view |
| LinkSurgery.Descend | skiplist.h:182-189 | `update[i]` is the node in front of the key's cut on every level up to the list level, null above it, and the final successor is the node at the level-0 cut |
| LinkSurgery.WalkLevel | skiplist.h:184-187 | walking right on one level ends at the cut, on the node in front of it |
| LinkSurgery.RaiseLevels | skiplist.h:199-205 | levels above the old list level, up to the new node's level, get the header as their `update` entry; the other entries are unchanged |
| LinkSurgery.Splice | skiplist.h:209-214 | on levels 0..rl the new node is spliced in at each cut; higher levels are unchanged; every level remains a chain |
| LinkSurgery.Unlink | skiplist.h:278-283 | on every level the node reaches, it is taken out at its cut; other levels are unchanged; every level remains a chain |
| LinkSurgery.ShrinkLevel | skiplist.h:285-288 | the list level drops, never rises, to one where every level above is empty and the level itself is 0 or non-empty |
| IndexSteps.Cuts | skiplist.h:182-189 | the cut of the key on every level, each within its level |
| IndexSteps.CutsSeparate | skiplist.h:182-189 | on every level the cut separates the smaller keys from the rest |
| IndexSteps.AbsentKey | skiplist.h:191-192 | a key the view lacks is on no node of level 0 |
| IndexSteps.NodeHeight | skiplist.h:278-283 | a node on level 0 has a tower of at most list level + 1 slots and is on exactly the levels its tower reaches |
| IndexSteps.InsertKeepsCore | skiplist.h:199-214 | after a new key's splice, the structural invariant holds with the new node |
| IndexSteps.LevelWithinBase | skiplist.h:209-214 | every node on a level is on level 0 |
| IndexSteps.InsertLevel | skiplist.h:209-214 | each level after the splice has increasing keys and holds its old nodes, plus the new node exactly when the level is at most rl |
| IndexSteps.LevelKeysDiffer | skiplist.h:191-192 | before a new key's insertion, no node on any level holds that key and the new node is on none |
| IndexSteps.SpliceLevel | skiplist.h:209-214 | a level spliced at the cut, or left alone when above rl, has increasing keys and the right members |
| IndexSteps.InsertHeights | skiplist.h:209-214 | after the splice every tower has at most max level + 1 slots and every node is on exactly the levels its tower reaches |
| IndexSteps.InsertKeepsTop | skiplist.h:199-207 | the list level after insertion is the larger of the old level and the new node's level |
| IndexSteps.InsertView | skiplist.h:209-214 | the view after a new key's splice is the reference insertion |
| IndexSteps.DeleteKeepsCore | skiplist.h:278-283 | after the unlink the structural invariant holds and the node is on no level |
| IndexSteps.DeleteTowers | skiplist.h:278-283 | after the unlink the tower bounds and the tower condition still hold |
| IndexSteps.DeleteLevel | skiplist.h:278-283 | each level after the unlink has increasing keys and loses exactly the deleted node |
| IndexSteps.DeleteView | skiplist.h:278-283 | the view after unlinking the key's node is the reference removal |
| IndexSteps.Located | skiplist.h:243-247 | the successor after the descent carries the key exactly when the index holds the key, and then its value is the stored value |
| IndexSteps.RowAppended | skiplist.h:209 | a new node row keeps every level's chain, and the new node is at the arena's end |
| IndexSteps.UpdateAtCuts | skiplist.h:199-212 | after the descent and the raise, `update[i]` is the node in front of the cut on every level up to rl |
| IndexSteps.AddNode | skiplist.h:209-216 | creating and splicing a new node keeps the structure, sets the list level to the larger of the two, adds one level-0 node and makes the view the reference insertion; on each level 0..rl the new node is put in at that level's cut, the levels above are unchanged, and the new node is on exactly levels 0..rl |
| IndexSteps.SplicedNode | skiplist.h:209-216 | after the splice the structure holds with the new key, the list level is the larger of the two, and the view is the reference insertion |
| IndexSteps.NewNodeLevels | skiplist.h:209-214 | after the splice the new node is on exactly the levels 0..rl |
| IndexSteps.DetachNode | skiplist.h:278-283 | unlinking the key's node keeps the structure, empties the levels above the list level, removes one level-0 node and makes the view the reference removal |
| IndexSteps.DetachReady | skiplist.h:266-283 | before the unlink, the node holding the key is on exactly the levels its tower reaches, and `update[i]` is in front of it on each of those levels |
| IndexSteps.DetachedNode | skiplist.h:278-283 | after the unlink the structure holds without the node and the view is the reference removal |
| IndexSteps.PairsSorted | skiplist.h:359-363 | the index's pairs are in ascending key order and the element count is their number |
| IndexSteps.InsertStep | skiplist.h:174-219 | present is whether the key was there; the pairs become the reference insertion; a present key changes nothing; a new key gets a node with rl + 1 slots, the count goes up by one, the list level becomes the larger of the old level and rl, the node is put in at the cut of every level 0..rl and is on exactly those levels |
| IndexSteps.SearchStep | skiplist.h:233-255 | the walk through the index finds the reference lookup's value |
| IndexSteps.DeleteStep | skiplist.h:258-298 | present is whether the key was there; the pairs become the reference removal; a present key lowers the count by one and never raises the list level; an absent key changes nothing |
| SkipListIndex.HeadsBound | skiplist.h:165-169 | the count of leading heads is at most the number of flips; all flips before it are heads and the next one is tails |
| SkipListIndex.RandomLevel | skiplist.h:162-172 | the level is at most max level and equals the number of leading heads capped at max level |
| SkipListIndex.CacheAfterInsert | skiplist.h:174-219 | inserting a pair never breaks the cache's agreement with the index |
| SkipListIndex.CacheAfterRemove | skiplist.h:278-294 | removing a key from the index and the cache keeps them in agreement |
| SkipListIndex.CacheAfterGet | skiplist.h:227-231 | a cache get keeps the cache in agreement with the index, and a hit answers with the index's value |
| SkipListIndex.CacheAfterPut | skiplist.h:245-251 | caching the index's own value for a key keeps the cache in agreement |
| SkipListIndex.InsertPair | skiplist.h:162-219 | insertion with its random level: the pairs become the reference insertion; a new node holds the key and the value, its tower is the capped level + 1, it is on exactly the levels its tower reaches, the list level becomes the larger one, and the cache still agrees |
| SkipListIndex.LoadLines | skiplist.h:336-357 | replaying the lines makes the index's pairs and the abort line exactly what the model of `load_file` gives, and the cache still agrees |
| SkipListIndex.LoadLine | skiplist.h:344-352 | one pass of the load loop: a stop is the outcome, and otherwise the load from the next line gives the same result |
| SkipListIndex.CacheAfterLoad | skiplist.h:344-353 | replaying lines never breaks the cache's agreement with the index |
| SkipListIndex.WalkLevelZero | skiplist.h:322-329 | walking level 0 writes exactly the dump lines of the index's pairs |
| SkipListIndex.SkipList.EntriesSorted | skiplist.h:317-334 | the index's pairs are in strictly ascending key order |
| SkipListIndex.SkipList.constructor | skiplist.h:120-130 | a new list has no pairs, list level 0 and an empty cache of capacity 100 |
| SkipListIndex.SkipList.Insert | skiplist.h:174-219 | returns 1 when the key is present and 0 otherwise; the pairs become the reference insertion; a present key changes nothing; a new key raises the count by one and gets a new node holding the key and the value, with a tower of the drawn level + 1 slots, on exactly levels 0 to the drawn level; the list level becomes the larger of the old level and the drawn one |
| SkipListIndex.SkipList.Search | skiplist.h:221-256 | the answer is whether the index holds the key; the cache becomes the get, plus a put with time to live 5 of the index's value on a miss that the index answers |
| SkipListIndex.SkipList.Delete | skiplist.h:258-298 | the pairs become the reference removal; the key leaves the cache and the cache is erased of it; the count drops by one when the key was present; an absent key changes nothing in the index |
| SkipListIndex.SkipList.Size | skiplist.h:359-363 | the size is the number of pairs |
| SkipListIndex.SkipList.Dump | skiplist.h:317-334 | the lines written are the dump lines of the pairs in level-0 order |
| SkipListIndex.SkipList.Load | skiplist.h:336-357 | the pairs after loading and the line at which loading stopped are what the model of `load_file` gives |
| LruCache.Without | lru_cache.h:45-48 | the list without the given keys holds exactly the elements not in the set and is no longer |
| LruCache.DistinctCons | lru_cache.h:50 | a new key pushed at the front of a duplicate-free list without it keeps it duplicate-free |
| LruCache.DistinctFront | lru_cache.h:53-58 | a duplicate-free list is its front plus its back element, which is not in the front |
| LruCache.WithoutDistinct | lru_cache.h:105-116 | removing keys keeps the list duplicate-free |
| LruCache.WithoutAbsent | lru_cache.h:86-97 | removing keys that are not in the list changes nothing |
| LruCache.WithoutOne | lru_cache.h:91-96 | removing a key held once shortens the list by one |
| LruCache.WithoutWithout | lru_cache.h:105-116 | removing keys one after another is removing them all at once |
| LruCache.WithoutIsSubsequence | lru_cache.h:105-116 | removing keys keeps the others in their old order |
| LruCache.PushedAgree | lru_cache.h:40-51 | moving or adding a key to the front with its entry keeps list and map in agreement |
| LruCache.PopBackAgree | lru_cache.h:53-58 | popping the back of list and map keeps them in agreement and shrinks the map by one |
| LruCache.PutKeepsInv | lru_cache.h:37-59 | put keeps the cache invariant, including the capacity bound |
| LruCache.PutAtFront | lru_cache.h:40-51 | with a positive capacity the key ends up once, at the front, with the new value and expiry; with capacity 0 the cache ends up empty |
| LruCache.PutKeepsOthers | lru_cache.h:37-59 | put leaves every other surviving entry with its old value and expiry |
| LruCache.PutWithoutOverflow | lru_cache.h:53-58 | with room, or for a present key, put evicts nothing |
| LruCache.PutEvictsBack | lru_cache.h:53-58 | a new key into a full cache evicts exactly the least recently used key |
| LruCache.RemoveKeepsInv | lru_cache.h:71-75 | dropping a key from list and map keeps the invariant |
| LruCache.PromoteKeepsInv | lru_cache.h:78-80 | moving a present key to the front keeps the invariant |
| LruCache.GetKeepsInv | lru_cache.h:61-84 | get keeps the cache invariant |
| LruCache.GetCases | lru_cache.h:61-84 | a miss answers nothing and changes nothing; an expired entry answers nothing and is dropped; a live entry answers its value and moves to the front; no entry changes |
| LruCache.EraseKeepsInv | lru_cache.h:86-97 | erase keeps the cache invariant |
| LruCache.EraseOnlyKey | lru_cache.h:86-97 | erase removes exactly the key from list and map and leaves everything else; an absent key changes nothing |
| LruCache.CleanupKeepsInv | lru_cache.h:99-117 | cleanup keeps the cache invariant |
| LruCache.DistinctCard | lru_cache.h:126-129 | a duplicate-free list has as many distinct keys as elements |
| LruCache.CleanupExact | lru_cache.h:99-117 | after cleanup exactly the live entries remain, unchanged, and the list holds exactly them in their old order |
| LruCache.RestrictStep | lru_cache.h:105-116 | dropping one more key from a restricted map is restricting it by one more key |
| LruCache.Sweep | lru_cache.h:99-117 | one pass over the map, in any order, leaves exactly the state cleanup describes |
| LruCache.Cache.constructor | lru_cache.h:15-26 | a new cache is empty, has the given capacity and satisfies the invariant |
| LruCache.Cache.Put | lru_cache.h:37-59 | put keeps the invariant, and the new state is the key at the front with its value and expiry now + ttl, after evicting the back if over capacity |
| LruCache.Cache.Get | lru_cache.h:61-84 | get keeps the invariant; its answer and new state are those of the get state function |
| LruCache.Cache.Erase | lru_cache.h:86-97 | erase keeps the invariant and removes the key from list and map |
| LruCache.Cache.CleanupExpired | lru_cache.h:99-117 | cleanup keeps the invariant and drops exactly the expired entries |
| Persistence.DumpLines | skiplist.h:322-329 | there is one dump line per pair |
| Persistence.DumpLinesAt | skiplist.h:326 | dump line i is the key, the delimiter and the value of pair i |
| Persistence.LoadFromSkip | skiplist.h:346-350 | a line that leaves the key or the value string empty is passed over with those strings carried on |
| Persistence.LoadFromBad | skiplist.h:351 | a key text that `std::stoi` rejects ends the load at that line with the pairs loaded so far |
| Persistence.LoadFromItem | skiplist.h:351 | a line with a convertible key and a non-empty value inserts its pair and the load continues |
| Persistence.ApplyItem | skiplist.h:351 | in the line-by-line reference, a pair line inserts its pair |
| Persistence.LoadIsLineByLine | skiplist.h:342-372 | the strings left over from earlier lines never change the result: loading equals the line-by-line reference |
| Persistence.LoadFromAgrees | skiplist.h:342-372 | from any line, with leftover strings that are empty or name a key already present, the load equals the reference |
| Persistence.ClassifyDumped | skiplist.h:326-351 | a dumped line with a non-empty value reads back as its own pair |
| Persistence.DumpThenLoad | skiplist.h:317-357 | dumping sorted pairs with non-empty values and loading them into an empty index gives back exactly those pairs, without abort |
| Persistence.ReplayPrefix | skiplist.h:344-353 | replaying the dump from line i onto the first i pairs rebuilds all pairs |
| Persistence.ReplayStep | skiplist.h:344-353 | replaying dump line i adds pair i to the pairs before it |
| Persistence.AppendLargest | skiplist.h:209-214 | pair i of sorted pairs, inserted into the pairs before it, extends them by one at the end |
| Persistence.LoadKeepsPresent | skiplist.h:344-353 | loading never overwrites: a key already in the index keeps its value whatever the lines say |
| Persistence.EmptyValueIsDropped | skiplist.h:347-350 | for any key, the pair with that key and an empty value is lost by dump then load into an empty index |
| Persistence.Kept | skiplist.h:347-350 | the kept pairs are pairs of the list, each with a non-empty value |
| Persistence.ClassifyDumpedEmpty | skiplist.h:326-350 | a dumped line with an empty value is passed over by the load |
| Persistence.DumpThenLoadKept | skiplist.h:317-357 | dumping sorted pairs and loading them into an empty index gives back exactly the pairs with a non-empty value, in order, without abort |
| Persistence.ReplayKept | skiplist.h:344-353 | replaying the dump from line i onto the kept pairs before i gives the kept pairs of the whole list |
| Persistence.KeptStep | skiplist.h:344-353 | dump line i adds pair i to the kept pairs before it when its value is non-empty, and is passed over otherwise |
| Persistence.KeptSnoc | skiplist.h:347-350 | the kept pairs of one more pair are the kept pairs before it plus that pair when its value is non-empty |
| Persistence.KeptBelow | skiplist.h:209-214 | pair i of a sorted list, inserted into the kept pairs before it, goes at their end |
| Persistence.ApplySkip | skiplist.h:347-350 | in the line-by-line reference, a line that is passed over changes nothing |
| Persistence.KeptAll | skiplist.h:347-350 | with no empty value every pair is kept |

## Left out

- Locking: the `std::mutex` in the skip list and the cache, and the `std::atomic` running flag. The model is sequential.
- The cache's background cleanup thread and its 10-second interval (lru_cache.h:15-26, 28-35). `CleanupExpired` is modelled as an operation that anyone may call at any time.
- The cache and skip-list destructors, `clear`, `create_node`, `new`/`delete`. Memory is not modelled. Deleted nodes stay in the arena and are simply unreachable.
- `display_list` and the `LOG` calls: console output only.
- File I/O (skiplist.h:317-357). The `ofstream`/`ifstream`, the `store/dumpFile` path, `getline` and flushing are replaced by a sequence of lines. A value holding a newline would split into two lines on disk; the model does not split it.
- `rand()` is replaced by a sequence of coin flips per insertion, and `std::chrono::steady_clock::now()` by an explicit `now` in seconds.
- SkipListIndex.SkipList.Search: the source copies the found value into a local that it never returns. The model returns only the boolean.
- `std::stoi` exceptions: `std::invalid_argument` and `std::out_of_range` leave `load_file` with the pairs loaded so far. The model stops and returns the line number.
- Overflow is not modelled: `_element_count` is an unbounded `nat`, and `now + ttl` is an unbounded `int` rather than a `steady_clock` time point.
- The source leaves the header node's int key uninitialised (its string value is empty); the model stores 0 there. Neither is ever read.
- The skip list's fields are bundled into one `IndexState` value that the class reassigns. Operations update it in place as a value, not through node pointers, so aliasing between nodes is not modelled.
- The `std::list` iterators stored in the cache map are implicit: the list holds each key once, so the key itself locates its position.
- `std::unordered_map` order: cleanup visits the map keys in an unspecified order, modelled by picking any remaining key.
- The skip list's key and value types are fixed as `int` (as `int32`) and `std::string`. Those are the only instantiation that `load_file` supports (it calls `std::stoi`). The cache is generic.
- main.cpp and stress-test/test_stress.cpp are drivers and benchmarks. They are not part of this model.

# Hash tables, trails and the mountain manager, in Dafny

This project models the core of a Python assignment. The assignment has two
hash tables, a trail algebra and a list-based mountain manager. Each Python
file becomes a Dafny module in a file of its own, except
infinite_hash_table.py, which becomes two: the pure `Trie` and the class
module `InfiniteHashing`. The inner table the double-key table imports is
modelled in a module of its own:

- `trie.dfy` (module `Trie`) is the pure model of the infinite hash table.
  A node at `level` has 27 slots. Each slot is vacant, holds one
  `(key, value)` pair, or owns a child node one level deeper. The module
  defines:
  - the hash of a key at a level;
  - the map a node stores (`Contents`) and the placement invariant (`Valid`);
  - `Get`, `Set`, `Delete` and collapse;
  - `get_location` as written (`Locate`) and as intended (`Path`).
  Every property of the table is proved here.
- `infinite_hash_table.dfy` (module `InfiniteHashing`) is the class
  `InfiniteHashTable`. Its array of cells is updated in place. Child tables
  are separate objects owned through a `Repr` footprint. Every method is
  proved to change the table's ghost `Model` exactly as the matching `Trie`
  function does.
- `double_key_table.dfy` (module `DoubleKey`) is the class `DoubleKeyTable`:
  - an outer array of inner tables, indexed by the polynomial hash of the
    first key;
  - the inner table of a key stores values under the second key.
  The module also holds:
  - the hash, as a function and as the source's loop;
  - the linear probe, with its stepping and stopping rules;
  - keys, values, membership, get, set, delete and length, all stated
    against the map the inner tables store.
- `linear_probe_table.dfy` (module `LinearProbing`) is the inner table the
  double-key table delegates to. It gives only the finite-map behaviour the
  double-key table relies on.
- `trail.dfy` (module `Trails`) has the immutable trail datatypes, their
  edit operations, and the three stack-driven walks:
  - `follow_path`;
  - `collect_all_mountains`;
  - `length_k_paths`.
  Each walk is proved equal to a recursive specification. The specifications
  are related to the routes through the trail.
- `mountain_manager.dfy` (module `Mountains`) is the manager's list of
  mountains and its operations. `group_by_difficulty` is proved to return
  one group per difficulty, by strictly ascending difficulty. The groups
  together are a permutation of the list.
- `errors.dfy` (module `Errors`) has the error kinds and the `Result` and
  `Outcome` types. The model returns these where Python raises:
  - `KeyError`, `ValueError`, `TypeError`, `AttributeError` and
    `ZeroDivisionError`;
  - `FullError` for the assignment's own `FullError`.

### Behaviour the model keeps as the code has it

- **Counter.** An infinite-hash-table node's `count` counts only the
  occupied slots of the node itself. An empty slot taking a pair raises it
  and a pair leaving its slot lowers it (infinite_hash_table.py:82-84,
  117-120). A collision and an insertion into a child table leave it alone
  (infinite_hash_table.py:88-94). `len()` therefore misses nested keys
  (`Trie.LenMissesNestedKeys`).
- **Collapse.** After deleting through a child table, the code collapses the
  child when the child's counter is 1, and unpacks the child's slot 0 whatever
  that slot holds (infinite_hash_table.py:124-127). When slot 0 is empty or a
  table, this raises `TypeError` after the deletion has happened
  (`Trie.CollapseReadsSlotZero`).
- **Empty inner tables.** The double-key table replaces an inner table left
  empty by a deletion with a fresh one. The fresh table is sized by
  `TABLE_SIZES`, not by the internal sizes given to the constructor
  (double_key_table.py:263-264). `_linear_probe` does the same before an
  insertion into an empty inner table (double_key_table.py:107-109). The
  table's `count` stays 0 (double_key_table.py:57).
- **Delegation.** `__getitem__`, `__setitem__`, `__delitem__` and
  `__contains__` of the double-key table go straight to the inner table
  (double_key_table.py:216-264). They do not use `_linear_probe`, and the
  model keeps that.

## Model

| member | source | states |
|---|---|---|
| Trie.Hash | infinite_hash_table.py:29-35 | the slot is below 27, and it is the sentinel slot 26 exactly when the key has no character at the node's level |
| Trie.EmptyNode | infinite_hash_table.py:24-27 | a fresh node has 27 vacant slots, the given level and counter 0 |
| Trie.EmptyNodeValid | infinite_hash_table.py:24-27 | a fresh node satisfies the placement invariant and stores the empty map |
| Trie.ContentsAt | infinite_hash_table.py:52-64 | a key is stored in a node exactly when it is stored in the entry of its own slot, with the same value |
| Trie.WriteSlot | infinite_hash_table.py:79-94 | writing an entry whose keys all hash to slot `i` keeps the invariant, changes only the keys of slot `i`, and gives them the entry's values |
| Trie.Collision | infinite_hash_table.py:88-92 | two distinct lower-case keys that agree up to the level and share a slot both have a character at that level, so the collision can descend |
| Trie.AgreeingKeysEqual | infinite_hash_table.py:88-92 | two lower-case keys shorter than the level that agree on every earlier slot are equal |
| Trie.Get | infinite_hash_table.py:52-64 | lookup returns the stored value when the key is stored and `KeyError` otherwise |
| Trie.SetSlot | infinite_hash_table.py:82-87 | writing a pair or child into the key's slot keeps the invariant, maps the key to the value, keeps every other key, and raises the counter only when the slot was vacant |
| Trie.Set | infinite_hash_table.py:79-94 | after setting, the node is valid, stores the old map updated at the key, and its counter grows by one only if the key's slot was vacant |
| Trie.Split | infinite_hash_table.py:88-92 | a collision replaces the pair by a child table, stores the old map updated at the key, and leaves the counter unchanged |
| Trie.Pairs | infinite_hash_table.py:89-91 | a fresh table one level deeper holding the old pair and then the new one is valid and stores exactly those two keys |
| Trie.SplitSlot | infinite_hash_table.py:88-92 | setting a key whose slot holds another key's pair puts, in that slot, the child table holding both pairs |
| Trie.SetBelow | infinite_hash_table.py:93-94 | setting a key whose slot owns a child puts, in that slot, the child with the key set |
| Trie.DeleteSlot | infinite_hash_table.py:117-127 | replacing the key's slot by an entry holding the slot's keys minus the key keeps the invariant, removes exactly that key, and adjusts the counter by the slot change |
| Trie.SoleContents | infinite_hash_table.py:125-127 | a valid node with counter 1 whose slot 0 holds a pair stores exactly that pair |
| Trie.Delete | infinite_hash_table.py:111-127 | `KeyError` exactly when the key is not stored, with the node unchanged; a pair of the key in the node's own slot is removed with `Pass`, the slot left vacant and the counter lowered; through a child table the key is removed, the slot then holds the child's slot-0 pair when the child's deletion passed and left counter 1 over a pair, and the child otherwise; `TypeError` only through a child, exactly when the child's deletion raised it or left counter 1 over a slot 0 that is not a pair; no other slot changes |
| Trie.Collapse | infinite_hash_table.py:124-127 | a child whose counter is not 1 is left in place with `Pass`; a child with counter 1 over a slot-0 pair is replaced by that pair with `Pass`; `TypeError`, with nothing changed, exactly when the child's counter is 1 and its slot 0 is not a pair; the stored map and the counter are always kept |
| Trie.Path | infinite_hash_table.py:169-186 | the intended location fails only with `KeyError` |
| Trie.PathSpec | infinite_hash_table.py:169-186 | the intended location exists exactly when the key is stored, and its `d`-th index is the key's hash at level `level + d` |
| Trie.Locate | infinite_hash_table.py:169-186 | the location found starts with the key's slot at this level, and every index is a slot number |
| Trie.FollowLoop | infinite_hash_table.py:181-184 | the loop only extends the location it was given, with slot numbers, and extends it at least once unless the entry is already the key's pair |
| Trie.FollowStep | infinite_hash_table.py:181-184 | one turn of the loop through a child table appends the child's own location, or fails with the child's error |
| Trie.LocateAbsent | infinite_hash_table.py:169-179 | locating a key that is not stored gives `KeyError` |
| Trie.LocateShallow | infinite_hash_table.py:169-186 | for a key at depth one or two, the location as written is the intended path |
| Trie.LocateDeepIsWrong | infinite_hash_table.py:181-184 | for a key at depth three, the location as written differs from the intended path |
| Trie.LenMissesNestedKeys | infinite_hash_table.py:88-94 | inserting a new key into an occupied slot leaves the counter unchanged although the stored map gains a key |
| Trie.CollapseReadsSlotZero | infinite_hash_table.py:124-127 | a child left with counter 1 whose slot 0 is vacant makes deletion fail with `TypeError` after the key has been removed |
| InfiniteHashing.InfiniteHashTable.constructor | infinite_hash_table.py:24-27 | a new table at the given level models the empty node |
| InfiniteHashing.InfiniteHashTable.Len | infinite_hash_table.py:129-133 | the length is the number of occupied slots of this table's own array |
| InfiniteHashing.InfiniteHashTable.Get | infinite_hash_table.py:52-64 | the result is the model's lookup of the key |
| InfiniteHashing.InfiniteHashTable.Contains | infinite_hash_table.py:197-202 | true exactly when the key is stored in the model |
| InfiniteHashing.InfiniteHashTable.Set | infinite_hash_table.py:79-94 | the table stays valid and its model becomes the model's `Set`; only fresh objects join the footprint |
| InfiniteHashing.InfiniteHashTable.Put | infinite_hash_table.py:82-87 | an empty slot, or the key's own pair, takes the new pair in place |
| InfiniteHashing.InfiniteHashTable.Split | infinite_hash_table.py:88-92 | a collision builds the child table and the model becomes the model's `Set` |
| InfiniteHashing.InfiniteHashTable.NewPair | infinite_hash_table.py:89-91 | the fresh child one level deeper models the two-pair node `Pairs` |
| InfiniteHashing.InfiniteHashTable.Attach | infinite_hash_table.py:92 | the child takes the key's slot and the model's slot is rewritten to it |
| InfiniteHashing.InfiniteHashTable.Descend | infinite_hash_table.py:93-94 | setting through a child table makes the model the model's `Set` |
| InfiniteHashing.InfiniteHashTable.Delete | infinite_hash_table.py:111-127 | the new model and the outcome are the model's `Delete` |
| InfiniteHashing.InfiniteHashTable.Remove | infinite_hash_table.py:117-120 | the key's pair is cleared and the counter drops, as the model's slot deletion |
| InfiniteHashing.InfiniteHashTable.DeleteBelow | infinite_hash_table.py:123-127 | deleting through a child, then collapsing, matches the model's `Delete` |
| InfiniteHashing.InfiniteHashTable.Collapse | infinite_hash_table.py:125-127 | the collapse matches the model's `Collapse`, including the `TypeError` case |
| InfiniteHashing.InfiniteHashTable.GetLocation | infinite_hash_table.py:169-186 | the location is the model's `Locate` |
| InfiniteHashing.InfiniteHashTable.PathTo | infinite_hash_table.py:169-186 | the corrected `get_location`: the location found table by table is the model's intended `Path` |
| InfiniteHashing.InfiniteHashTable.Follow | infinite_hash_table.py:182-184 | one turn of the loop: the child's location is the model's `Locate`, and the loop continues from the entry it names |
| InfiniteHashing.Walk | infinite_hash_table.py:181-184 | the loop's result is the model's `FollowLoop` from the entry |
| LinearProbing.LookupFinds | double_key_table.py:216-219 | a lookup succeeds exactly when some slot holds the key |
| LinearProbing.LookupAfterWrite | double_key_table.py:244-247 | writing a key into its own slot, or into an empty slot when absent, changes the lookup of that key only |
| LinearProbing.LookupAfterClear | double_key_table.py:259-262 | clearing a key's slot removes exactly that key |
| LinearProbing.OccupiedZero | double_key_table.py:107 | no slot is occupied exactly when every slot is empty |
| LinearProbing.KeysAreStored | double_key_table.py:160-162 | the key list and the value list have one entry per occupied slot, and the keys listed are exactly those a lookup finds |
| LinearProbing.LinearProbeTable.constructor | double_key_table.py:56 | a new inner table has as many empty slots as the first size given |
| LinearProbing.LinearProbeTable.IsEmpty | double_key_table.py:107 | empty exactly when no slot is occupied |
| LinearProbing.LinearProbeTable.Find | double_key_table.py:216-219 | the slot returned holds the key; when none is returned, no slot holds it |
| LinearProbing.LinearProbeTable.Contains | double_key_table.py:219 | membership is success of the lookup |
| LinearProbing.LinearProbeTable.Get | double_key_table.py:234 | the result is the lookup |
| LinearProbing.LinearProbeTable.Set | double_key_table.py:247 | on success only the key's lookup changes and the length grows for a new key; `FullError` exactly when the key is absent and every slot is taken, and then nothing changes |
| LinearProbing.LinearProbeTable.Delete | double_key_table.py:262 | an absent key gives `KeyError` and nothing changes; otherwise exactly that key is removed and the length drops by one |
| DoubleKey.HashState | double_key_table.py:65-70 | the accumulator after each character is below the capacity |
| DoubleKey.PolyHash | double_key_table.py:59-71 | the hash is an index below the capacity, 0 for the empty key, and `ZeroDivisionError` exactly when the capacity is 1 and the key is not empty |
| DoubleKey.PolynomialHash | double_key_table.py:65-71 | the loop computes `PolyHash` |
| DoubleKey.Hash1AsWritten | double_key_table.py:69-70 | the hash as written succeeds exactly for the empty key |
| DoubleKey.Hash1AsWrittenFails | double_key_table.py:69-70 | every non-empty key makes the written hash fail with `TypeError`, while the intended hash is defined |
| DoubleKey.Step | double_key_table.py:122 | each probe step names a slot of the inner table |
| DoubleKey.ProbeFrom | double_key_table.py:113-127 | a slot the probing loop returns holds the second key, or is empty when inserting; it fails only with `KeyError` for lookups and `FullError` for insertions |
| DoubleKey.InnerProbe | double_key_table.py:111-127 | the probe of an inner table from the second key's hash returns a slot holding the key or, when inserting, an empty one; it fails with `ZeroDivisionError` exactly when the inner capacity is 1 and the key is not empty, and otherwise only with the loop's error |
| DoubleKey.ProbeOutcome | double_key_table.py:111-127 | a probe returns the key's slot or, when inserting, the first empty slot, after passing only slots of other keys; otherwise `KeyError` at an empty slot or after a full round, and `FullError` after a full round when inserting |
| DoubleKey.FullRoundVisitsAll | double_key_table.py:113-127 | a full round of probing has looked at every slot |
| DoubleKey.EmptyStoresNothing | double_key_table.py:263-264 | an inner table with no occupied slot stores no key |
| DoubleKey.AllValuesCount | double_key_table.py:195-204 | all values together are as many as the stored pairs |
| DoubleKey.StoredAfterUpdate | double_key_table.py:244-264 | changing one key in the inner table of `key1` changes exactly the pairs whose first key hashes like `key1` with that second key |
| DoubleKey.DoubleKeyTable.constructor | double_key_table.py:45-57 | the outer size list is the given one or the default; the outer array has its first size; every inner table is empty with the first internal size |
| DoubleKey.DoubleKeyTable.TableSize | double_key_table.py:288-292 | the current capacity is the outer array's length, at least 1 |
| DoubleKey.DoubleKeyTable.Hash1 | double_key_table.py:59-71 | the first-key hash is `PolyHash` at the outer capacity |
| DoubleKey.DoubleKeyTable.Hash2 | double_key_table.py:73-85 | the second-key hash is `PolyHash` at the inner table's capacity |
| DoubleKey.DoubleKeyTable.ReplaceEmpty | double_key_table.py:107-109 | the inner table at the index is replaced by a fresh empty one sized by the outer size list; other slots are unchanged |
| DoubleKey.DoubleKeyTable.ReplaceIfEmpty | double_key_table.py:263-264 | an empty inner table is replaced by a fresh one and a non-empty one is kept; no lookup changes |
| DoubleKey.DoubleKeyTable.ProbeInner | double_key_table.py:111-127 | the probe loop returns the probe's outcome, and a slot it returns holds the key or is empty for an insertion |
| DoubleKey.DoubleKeyTable.LinearProbe | double_key_table.py:104-127 | the outer index is the first-key hash; an insertion first replaces an empty inner table; the inner index is that table's probe outcome |
| DoubleKey.DoubleKeyTable.TopLevelKeys | double_key_table.py:157-158 | exactly the outer indices whose inner table is not empty, in ascending order |
| DoubleKey.DoubleKeyTable.KeysFor | double_key_table.py:159-162 | when the first-key hash succeeds, the keys of the inner table of `key1` in slot order, which are exactly the second keys stored under it; otherwise the hash's error |
| DoubleKey.DoubleKeyTable.AllValues | double_key_table.py:195-199 | the values of every inner table, in outer-slot order |
| DoubleKey.DoubleKeyTable.ValuesFor | double_key_table.py:200-204 | the values of the inner table of `key1`, or the hash's error |
| DoubleKey.DoubleKeyTable.Contains | double_key_table.py:216-219 | membership is success of the stored-value lookup, or the hash's error |
| DoubleKey.DoubleKeyTable.Get | double_key_table.py:231-234 | the result is the value stored under the pair, `KeyError`, or the hash's error |
| DoubleKey.DoubleKeyTable.Set | double_key_table.py:244-247 | `ZeroDivisionError` exactly when the first-key hash fails; otherwise `FullError` exactly when the pair is absent and every slot of its inner table is taken; on success exactly the pairs sharing the inner slot and the second key now give the value; on failure nothing changes |
| DoubleKey.DoubleKeyTable.Delete | double_key_table.py:259-264 | fails exactly when the pair is not stored, with its error and no change; otherwise exactly those pairs are removed, and an emptied inner table is replaced by a fresh one |
| DoubleKey.DoubleKeyTable.DeleteInner | double_key_table.py:262 | the inner deletion fails with `KeyError` exactly when the key is absent; otherwise only that inner table changes, losing exactly that key |
| DoubleKey.DoubleKeyTable.Len | double_key_table.py:298-301 | the length is the number of stored pairs, which is the number of values |
| Trails.TrailSplit.RemoveBranch | trail.py:28-30 | removing a branch leaves the path that follows it |
| Trails.TrailSeries.RemoveMountain | trail.py:45-47 | removing the mountain leaves the trail that follows it |
| Trails.TrailSeries.AddMountainBefore | trail.py:49-51 | removing the new mountain gives back the series, and the mountain list gains the mountain in front |
| Trails.TrailSeries.AddEmptyBranchBefore | trail.py:53-55 | the result is a split whose top and bottom paths are empty, and removing that branch gives back the series |
| Trails.TrailSeries.AddMountainAfter | trail.py:57-59 | the series keeps its mountain and is followed by a series of the new mountain, and removing that mountain gives back the old rest |
| Trails.TrailSeries.AddEmptyBranchAfter | trail.py:61-63 | the series keeps its mountain and is followed by a split whose top and bottom paths are empty, and removing that branch gives back the old rest |
| Trails.Trail.AddMountainBefore | trail.py:73-75 | removing the new mountain gives back the trail, and the mountain list gains the mountain in front |
| Trails.Trail.AddEmptyBranchBefore | trail.py:77-79 | the result is a split whose top and bottom paths are empty, and removing that branch gives back the trail |
| Trails.Trail.FollowPath | trail.py:81-97 | the stack loop adds the mountains of the recursive walk that follows the selector |
| Trails.Trail.CollectAllMountains | trail.py:99-116 | the stack loop lists the mountains of the recursive walk, bottom path before top path |
| Trails.Trail.LengthKPaths | trail.py:118-143 | the stack loop collects the lists of the recursive `k`-path walk, in the same order |
| Trails.FollowedIsRoute | trail.py:81-97 | following a path adds, after the earlier mountains, exactly the mountains of one route |
| Trails.KPathsHaveLengthK | trail.py:133-136 | every collected list has exactly `k` mountains |
| Trails.KPathsPastK | trail.py:133-138 | once `k` mountains have been passed, nothing more is collected |
| Trails.NonPositiveKYieldsNothing | trail.py:118-143 | `k` at most 0 collects no list |
| Trails.KPathsAreRoutePrefixes | trail.py:118-143 | every collected list is a prefix of some route |
| Trails.RoutesGiveKPaths | trail.py:118-143 | the first `k` mountains of every route at least `k` long are collected |
| Trails.RoutesAreCollected | trail.py:99-116 | every route's mountains are among the collected mountains, as a sub-multiset |
| Mountains.FirstIndex | mountain_manager.py:35 | the first position holding the value, as `list.index` |
| Mountains.WithDifficulty | mountain_manager.py:38-49 | only mountains of the difficulty are kept, in list order |
| Mountains.WithDifficultyCount | mountain_manager.py:38-49 | every mountain of the difficulty is kept as often as the list has it, and no other |
| Mountains.Difficulties | mountain_manager.py:58-60 | every mountain's difficulty is in the set |
| Mountains.DistinctDifficulties | mountain_manager.py:56-60 | the difficulties occurring in the list, each once |
| Mountains.Merge | mountain_manager.py:62 | merging two ascending lists gives an ascending permutation of both |
| Mountains.Mergesort | mountain_manager.py:62 | sorting gives an ascending permutation |
| Mountains.SortDistinct | mountain_manager.py:62 | sorting distinct values gives the same values, strictly ascending |
| Mountains.GroupsFor | mountain_manager.py:64-67 | one group per listed difficulty, each the mountains of that difficulty |
| Mountains.GroupsArePermutation | mountain_manager.py:64-67 | the groups for distinct difficulties covering the list together form a permutation of the list |
| Mountains.GroupingProperties | mountain_manager.py:64-67 | the groups for a strictly ascending list of exactly the list's difficulties are grouped by difficulty |
| Mountains.SortedGroupingProperties | mountain_manager.py:56-69 | the groups for the sorted distinct difficulties are grouped by difficulty |
| Mountains.MountainManager.constructor | mountain_manager.py:7-8 | a new manager holds no mountain |
| Mountains.MountainManager.AddMountain | mountain_manager.py:10-16 | the mountain is appended |
| Mountains.MountainManager.RemoveMountain | mountain_manager.py:18-26 | the first occurrence is removed; an absent mountain gives `ValueError` and no change |
| Mountains.MountainManager.EditMountain | mountain_manager.py:28-36 | the first occurrence of the old mountain is replaced; an absent one gives `ValueError` and no change |
| Mountains.MountainManager.MountainsWithDifficulty | mountain_manager.py:38-49 | the loop returns the mountains of the difficulty in list order |
| Mountains.MountainManager.GroupByDifficulty | mountain_manager.py:51-69 | one non-empty group per difficulty, by strictly ascending difficulty, each the mountains of that difficulty in list order, together a permutation of the list |
| Mountains.MountainManager.CollectDifficulties | mountain_manager.py:56-60 | the first loop lists each difficulty once, in order of first appearance |
| Mountains.MountainManager.GroupsByList | mountain_manager.py:64-67 | the second loop builds one group per listed difficulty |

## Left out

- Trie.Set: requires lower-case keys ('a' to 'z') that agree with the node's path. With other characters, two distinct keys can share every slot, and the source then recurses without end. For example `"a"` and `"{"` (97 and 123 are both 19 modulo 26) are both exhausted at level 1. Such keys are not covered.
- InfiniteHashing.InfiniteHashTable.Set: the same lower-case precondition as `Trie.Set`, for the same reason.
- `InfiniteHashTable.__str__`, `DoubleKeyTable.__str__`: string rendering only.
- `iter_keys` and `iter_values` of the double-key table are Python generators. `keys` and `values` build the same lists and are modelled.
- `_rehash` of the double-key table is never called by the operations modelled, so `sizeIndex` stays 0 and resizing is not modelled.
- `data_structures/hash_table.py`, which defines `LinearProbeTable` and `FullError` (imported at double_key_table.py:4), is not part of this model:
  - `LinearProbing.LinearProbeTable` gives the inner table the finite-map behaviour the double-key table relies on: one pair per key, lookups, and counts.
  - LinearProbing.LinearProbeTable.Set: places a new key in the first empty slot rather than at its own hash position, and never grows; only the map it stores is modelled.
- mountain_organiser.py, mountain.py, the `Stack` and `ArrayR` classes and the mergesort module are not part of this model:
  - the stacks become Dafny sequences and the arrays Dafny arrays;
  - `mergesort` becomes the `Mergesort` function;
  - a mountain is a record of name, difficulty and length.
- Trails.Trail.FollowPath: the walker personality is a selector function, given the mountains added so far and the two paths. Its `add_mountain` is the list of mountains the method returns. Personalities' other state is not modelled.
- DoubleKey.DoubleKeyTable.constructor: requires every size list given to be non-empty with a first size of at least 1. The source fails on an empty list (`IndexError` at `sizes[0]`) and on a first size of 0 (the array class rejects it); the model does not cover those error paths, because a constructor returns no error.
- Python's `str(key)` conversion in the double-key hashes: keys are strings in the model.

## Findings

| source | as written | input that shows it | evidently intended | confidence | as-written member | corrected member |
|---|---|---|---|---|---|---|
| double_key_table.py:69-70 | `self.table_size` names the method, so `% self.table_size` raises `TypeError` | any non-empty first key, e.g. `table["a", "b"] = 1` | `self.table_size()`, the current capacity | high, not executed | DoubleKey.Hash1AsWritten | DoubleKey.PolyHash |
| infinite_hash_table.py:181-184 | after a child's full location is appended, the loop looks up the last index in the child's own array, not in the table that index belongs to | a key three tables deep: with `"aab"` and `"aac"` in the root, `get_location("aab")` raises `AttributeError` instead of returning `[19, 19, 20]` | the location is the key's slot at each level down to its pair | high, not executed | Trie.Locate | Trie.Path |

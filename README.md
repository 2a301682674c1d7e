# LRU cache in Dafny

This project models `LRUCache.java`, a fixed-capacity least-recently-used cache
over `int` keys and `int` values, and proves what its operations do. The
source combines two structures:

- a `HashMap` from each cached key to its node;
- a doubly-linked list of those nodes between two sentinel nodes, `head` and
  `tail`.

The node just after `head` is the most recently used. The node just before
`tail` is the one evicted when a new key arrives at full capacity. `put`
either updates a cached key or inserts a new one. `get` answers the value and
promotes the key by calling `put` with the same value, or answers `-1` on a miss.

The model has three modules:

- `Seqs` (`seqs.dfy`): sequence helpers. They cover duplicates (`Distinct`,
  together with its pairwise form), `IndexOf`, `Remove`, `Reverse`, and lemmas
  about them.
- `LruSpec` (`lru_spec.dfy`): the abstract cache. `Cache(capacity, keys,
  contents)` holds the keys from most to least recently used and the
  key-to-value bindings. `Put`, `Evict` and `Get` follow the branches of the
  Java methods. `Inv` is the combined invariant. The lemmas state what each
  branch promises, and they also check the concrete capacity-1 and
  capacity-2 scenarios.
- `LruCache` (`lru_cache.dfy`): the source's own data structure on the heap.
  - `Node` has constant `key`/`val` fields and mutable `prev`/`next` fields.
  - `LRUCache` has sentinels `head` and `tail`, and `index: map<int, Node>`
    stands in for the `HashMap`.
  - A ghost sequence `nodes` lists the real nodes from `head` to `tail`, and a
    ghost `Repr` is the cache's footprint.
  - `Valid()` says the list is correctly doubly-linked, the index matches it,
    and the abstract state `Abstract()` keeps `LruSpec.Inv`.
  - `Put`, `Get`, `Replace`, `Insert`, `InsertWithRoom` and `Evict` are
    proved to move `Abstract()` exactly as the matching `LruSpec` function
    does.
  - The list primitives `AddFirst`, `Delete` and `Relink` are proved against
    the ghost node sequence: what it becomes, with the list still well-linked
    and the index untouched.
  - `DeleteLast` is proved against the ghost node sequence as well, and its
    keys and answer are tied to `LruSpec.EvictLast`.

`put` is one Java method with three branches. In the model each branch is its
own method, called from `LRUCache.Put` in the source's statement order:

- `Replace`, built on `Relink` (`delete` then `addFirst`), then the map update;
- `Evict` (`deleteLast` then `map.remove`);
- `InsertWithRoom` (`map.put` then `addFirst`).

As in the source, `Put` allocates a fresh node on every call, including
updates, and `Get` calls `Put`.

A `get` hit makes its key the most recently used. In a full cache the key then
survives the next `capacity - 1` insertions of new keys, and the insertion
after those evicts it: the protection lasts `capacity - 1` insertions, not
`capacity`. `LruSpec.GetThenFill` and `LruSpec.GetThenOverfill` prove the two
halves.

## Model

| member | source | states |
|---|---|---|
| LruSpec.Empty | LRUCache.java:40-47 | A new cache has no keys and no bindings, and with capacity at least 1 it satisfies the combined invariant. |
| LruSpec.Put | LRUCache.java:55-76 | After `put(key, val)` the capacity is unchanged, `key` is first in the recency order, and `key` is bound to `val`. |
| LruSpec.EvictLast | LRUCache.java:117-122 | The list part of `deleteLast`: on an empty order it answers -1 and changes nothing; otherwise the remaining order followed by the answered key is the old order, so exactly the last key is cut off and answered. |
| LruSpec.Evict | LRUCache.java:66-71 | The eviction step keeps the capacity and cuts exactly the last (least recently used) key off the recency order. |
| LruSpec.EvictPreservesInv | LRUCache.java:66-71 | Evicting from a full cache that satisfies the invariant keeps the invariant, unbinds the least recently used key, and leaves exactly `capacity - 1` bindings. |
| LruSpec.EvictThenPut | LRUCache.java:65-75 | `put` of a new key into a full cache gives the same result as evicting first and then doing `put` into a cache that has room and lacks the key. |
| LruSpec.Get | LRUCache.java:81-89 | `get` answers -1 for an unbound key and the bound value otherwise. |
| LruSpec.SizeIsLength | LRUCache.java:66 | Under the invariant, the map's size (the quantity `put` compares with the capacity) is the length of the recency list. |
| LruSpec.PutExisting | LRUCache.java:57-64 | `put` on a cached key keeps the size and the key set, binds the key to the new value, and moves the key to the front. Every other key keeps its value and its relative order. |
| LruSpec.PutNewWithRoom | LRUCache.java:65-75 | `put` of a new key below capacity evicts nothing: the size grows by one, the new order is the key followed by the old order, and every old binding is kept. |
| LruSpec.PutNewWhenFull | LRUCache.java:66-74 | `put` of a new key into a full cache removes the least recently used key from both the order and the bindings. The new key comes first, followed by the rest of the old order, the size stays at the capacity, and every other binding is kept. |
| LruSpec.PutExistingPreservesInv | LRUCache.java:57-64 | The update branch of `put` keeps the combined invariant. |
| LruSpec.PutNewPreservesInv | LRUCache.java:72-74 | Inserting a new key into a cache with room keeps the combined invariant. |
| LruSpec.PutPreservesInv | LRUCache.java:55-76 | Every `put` keeps the combined invariant: keys are distinct, the bound keys are exactly the listed keys, and there are at most `capacity` of them. |
| LruSpec.PutTwiceThenGet | LRUCache.java:55-89 | After `put(k, v1)` and then `put(k, v2)`, the second `put` changes no size and `get(k)` answers `v2`. |
| LruSpec.GetMiss | LRUCache.java:81-84 | `get` of an unbound key answers -1 and leaves the state exactly as it was. |
| LruSpec.GetHit | LRUCache.java:85-88 | `get` of a cached key answers its value, leaves every binding unchanged, moves the key to the front, and keeps the size and the relative order of the other keys. |
| LruSpec.GetPreservesInv | LRUCache.java:81-89 | `get` keeps the combined invariant. |
| LruSpec.GetRepeated | LRUCache.java:85-88 | A second `get` of the same key answers what the first answered and leaves the state as the first left it. |
| LruSpec.GetPromotesPastEviction | LRUCache.java:81-89 | In a full cache with capacity at least 2, `get(key)` followed by `put` of a new key keeps `key` bound to its value. The eviction instead removes the key that was least recently used before the `get`. |
| LruSpec.FullPutShifts | LRUCache.java:66-74 | In a full cache, `put` of a new key moves a key at position `p` (short of the last) to position `p + 1` with its value kept. The cache stays full and the invariant holds, and the only key that can join the bindings is the new one. |
| LruSpec.Survives | LRUCache.java:55-76 | From a full cache whose most recent key is `key`, up to `capacity - 1` puts of distinct new keys keep the cache full and the invariant. After `i` of them `key` is at position `i` with its value kept, and every bound key is an old one or one of the new ones. |
| LruSpec.GetThenFill | LRUCache.java:81-89 | In a full cache, `get(key)` followed by puts of up to `capacity - 1` distinct new keys leaves `key` bound to its value. |
| LruSpec.GetThenOverfill | LRUCache.java:81-89 | In a full cache, `get(key)` followed by puts of exactly `capacity` distinct new keys evicts `key`. |
| LruSpec.FillStep | LRUCache.java:65-75 | Inserting a new key below capacity keeps the invariant, adds it to the front of the order, and adds exactly its binding. |
| LruSpec.FillInOrder | LRUCache.java:55-76 | Putting at most `capacity` distinct keys into an empty cache evicts nothing: the order is the reverse of the insertion order, and each key is bound to its value. |
| LruSpec.FullPutEvictsOldest | LRUCache.java:66-74 | In a full cache filled in order `ks`, `put` of a new key evicts `ks[0]` and keeps every other binding. |
| LruSpec.OverfillEvictsFirst | LRUCache.java:55-76 | Putting `capacity + 1` distinct keys into an empty cache evicts exactly the first key. Every later key stays bound to its value. |
| LruSpec.ScenarioCapacityTwoFill | LRUCache.java:55-89 | With capacity 2, `put(1,1)` and `put(2,2)` give order [2, 1], and `get(1)` then answers 1 and gives order [1, 2]. |
| LruSpec.ScenarioCapacityTwoEvict | LRUCache.java:66-74 | With capacity 2, `put(3,3)` evicts key 2, and then `put(4,4)` evicts key 1. |
| LruSpec.ScenarioCapacityTwo | LRUCache.java:55-89 | With capacity 2: put(1,1), put(2,2), get(1) = 1, put(3,3), get(2) misses, put(4,4), get(1) misses, get(3) = 3, get(4) = 4. |
| LruSpec.ScenarioCapacityOne | LRUCache.java:55-89 | With capacity 1: put(1,1), then put(2,2) evicts key 1, get(1) misses and get(2) = 2. |
| LruCache.Node.constructor | LRUCache.java:24-27 | A new node holds the given key and value and has no neighbours. |
| LruCache.ReplaceRefines | LRUCache.java:57-64 | Cutting the key's old node out of the list, putting the new node in front, and re-pointing the index represents `LruSpec.Put` of a cached key. |
| LruCache.EvictedRefines | LRUCache.java:66-71 | Dropping the last node and its key from a full cache's list and index represents `LruSpec.Evict`. |
| LruCache.InsertRefines | LRUCache.java:72-74 | Indexing a new node and putting it in front, with room to spare, represents `LruSpec.Put` of a new key. |
| LruCache.LRUCache.constructor | LRUCache.java:40-47 | The new cache is valid with an empty index, `head.next == tail` and `tail.prev == head`, and it represents `LruSpec.Empty(capacity)`. |
| LruCache.LRUCache.AddFirst | LRUCache.java:94-102 | The node becomes the first real node right after `head`, followed by the old nodes in their old order. The list stays well-linked and the index is untouched. |
| LruCache.LRUCache.Delete | LRUCache.java:107-112 | Exactly the given node is unlinked, the others keep their order, the list stays well-linked, and the answer is the node's key. |
| LruCache.LRUCache.DeleteLast | LRUCache.java:117-122 | The keys left in the list and the answer are `LruSpec.EvictLast` of the old keys: on an empty list it answers -1 and changes nothing, and otherwise it unlinks the last real node (`tail.prev`), leaving the other nodes in order, and answers its key. |
| LruCache.LRUCache.Evict | LRUCache.java:66-71 | On a full cache, `deleteLast` followed by `map.remove` keeps the cache valid and moves its abstract state by `LruSpec.Evict`. |
| LruCache.LRUCache.Relink | LRUCache.java:59-62 | `delete` of the key's old node, then `addFirst` of the new node, gives the new node followed by the other nodes in their old order. |
| LruCache.LRUCache.Replace | LRUCache.java:57-64 | The update branch of `put` keeps the cache valid and moves its abstract state by `LruSpec.Put`. |
| LruCache.LRUCache.InsertWithRoom | LRUCache.java:72-74 | `map.put` then `addFirst` of a new key below capacity keeps the cache valid and moves its abstract state by `LruSpec.Put`. |
| LruCache.LRUCache.Insert | LRUCache.java:65-75 | The inserting branch of `put`, with eviction first when full, keeps the cache valid and moves its abstract state by `LruSpec.Put`. |
| LruCache.LRUCache.Put | LRUCache.java:55-76 | `put` keeps the cache valid, adds only newly allocated objects to its footprint, and moves its abstract state by `LruSpec.Put`. |
| LruCache.LRUCache.Get | LRUCache.java:81-89 | `get` keeps the cache valid and answers, and moves its abstract state, exactly as `LruSpec.Get` does. On a miss it answers -1 and touches nothing. |

## Left out

- `java.util.HashMap` internals (hashing, buckets and resizing) are left out. The map is a Dafny `map`, and only `containsKey`, `get`, `put`, `remove` and `size` are modelled.
- Garbage collection is left out. A node that `put` unlinks stays in `Repr`, because a doubly-linked list cannot observe when an object is reclaimed. Node identity is never visible to callers.
- LruCache.LRUCache.constructor: requires `capacity >= 1`. The Java constructor does not check this. With capacity 0 the eviction branch calls `deleteLast` on an empty list, and the cache then grows without bound. That behaviour is not modelled.
- The `-1` miss answer of `get` cannot be told apart from a stored value of `-1`. `Get` answers a plain `int`, as the source does, and the miss case is stated as "answers -1 and the state is unchanged".
- Concurrency is left out: the class is unsynchronised single-threaded code.
- The package declaration and the comments are not modelled, because they carry no behaviour.
- LruCache.LRUCache.Evict: requires a full cache. In the source, `deleteLast` could answer -1 on an empty list and `map.remove(-1)` would then run. `LruSpec.Evict` models that path, but under the invariant it is unreachable, because a full cache with capacity at least 1 is never empty.
- Integer width is not modelled: Java `int` keys and values are Dafny `int`. No arithmetic is done on them, so wrap-around never arises.

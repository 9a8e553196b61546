# LRU cache with TTL expiry, and a doubly linked list

This project models the cache engine of the LRU-BE service (`service/LRU.go`)
and its stand-alone doubly linked list (`service/dll.go`) in Dafny, and proves
properties of both.

**`Lru` (lru.dfy).** An `LruCache` holds a map `cache` from key to entry
(`key`, `value`, absolute `expiration`) and a recency list `list` of keys, with
the front as the most recently used. The `container/list` element that a key maps
to is represented by the key itself. The entry of the i-th element is
`cache[list[i]]`. The class invariant `Valid()` states three things:
- the map and the list hold the same keys;
- every entry stores the key it is filed under;
- no key appears twice in the list, and the list never holds more than
  `MaxLen(capacity)` entries.

Each method (`Get`, `Set`, `Delete`, `Evict`, `CleanupPass`, `GetAll`) is
proved equal to a value-level function on a `State` (`GetSpec`, `SetSpec`,
`DeleteSpec`, `EvictSpec`, `SweepSpec`, `Live`). The properties are proved
about those functions. `CleanupPass` and `SweepSpec` are the sweep pass as
intended, which deletes every expired entry at the back. The pass as the code
writes it stops after one deletion (see Findings); `SweepAsWritten` models
that pass.

Time is an integer clock `now`, in seconds. A TTL of 0 or less gives the far-future expiry
9999-12-31T23:59:59Z, which is `NoExpiry` = 253402300799 seconds since the Unix
epoch. Values are a type parameter.

Capacity is not enforced exactly, and the model follows the code here:
- `Set` calls `evict` when the list holds `capacity` or more entries;
- `evict` removes the back entry only when the list holds more than `capacity`.

So the cache settles at `MaxLen(capacity)` entries (capacity + 1 for
capacity ≥ 0, and 1 for a negative capacity). The doc comment on `evict`
(`service/LRU.go:97`) says it removes the least recently used entry, but it
does so only conditionally. A description of the cache as never exceeding its
capacity disagrees with the code, and the model keeps the code's behaviour.

`Get` and `GetAll` treat an entry as live iff `now < expiration`. The sweep
removes an entry iff `now > expiration`. So at `now == expiration` the sweep
keeps an entry that `Get` deletes.

**`LinkedList` (dll.dfy).** `Dll` is a head/tail doubly linked list of heap
`Node` objects. A ghost sequence `Nodes` lists the nodes from head to tail.
`Valid()` ties every `prev`/`next` link and `head`/`tail` to that sequence.
`PushFront`, `Remove`, `MoveToFront` and `RemoveLast` are specified by what they
do to `Nodes`.

## Model

| member | source | states |
|---|---|---|
| Lru.Without | service/LRU.go:92 | Removing a key's element keeps exactly the other keys; on a list of distinct keys it shortens the list by one iff the key was present. |
| Lru.WithoutAt | service/LRU.go:92 | On distinct keys, removing the key at position i cuts out exactly that position, so the others keep their order. |
| Lru.ToFront | service/LRU.go:43 | Moving a key's element to the front makes it the first key and keeps the same keys, each once, with the same length. |
| Lru.ToFrontKeepsOrder | service/LRU.go:43 | Moving the key at position i to the front gives `[k] + s[..i] + s[i+1..]`: the other keys keep their order. |
| Lru.DeleteSpec | service/LRU.go:89-95 | `delete` of a present key removes it from map and list (one shorter, the list becoming `list[..i] + list[i+1..]` for the key at position i, so the others keep their order) and keeps every other entry; an absent key is a no-op. |
| Lru.DropBack | service/LRU.go:100-104 | Removing the back element and its entry leaves the list minus its last key and the map minus that key, still consistent. |
| Lru.EvictSpec | service/LRU.go:98-107 | `evict` removes the back entry only when the list is longer than the capacity (and non-empty); otherwise nothing changes. |
| Lru.GetSpec | service/LRU.go:39-51 | Absent key: not found, state unchanged. Live hit (`now < expiration`): the value, map unchanged, key moved to the front. Expired hit: not found, key removed from map and list. |
| Lru.GetHitKeepsOrder | service/LRU.go:42-46 | A live hit on the key at position i yields the list `[key] + list[..i] + list[i+1..]`: the other keys keep their relative order. |
| Lru.SetSpec | service/LRU.go:54-80 | The key ends at the front with the given value and expiry `now + ttl` or `NoExpiry`; other entries are kept unchanged; an existing key keeps the key set and size; the size bound `MaxLen(capacity)` is preserved. |
| Lru.SetExistingKey | service/LRU.go:63-67 | `Set` of the existing key at position i replaces its value and expiry and yields the list `[key] + list[..i] + list[i+1..]`: the key moves to the front and the others keep their order. |
| Lru.SetNewKey | service/LRU.go:68-78 | `Set` of a new key with the list at most `capacity` long adds the entry and pushes the key at the front, evicting nothing. |
| Lru.SetNewKeyEvicting | service/LRU.go:68-78 | `Set` of a new key with the list longer than `capacity` removes exactly the back entry, then pushes the new key at the front. |
| Lru.SetThenGet | service/LRU.go:57-62 | `Get` right after `Set` returns the stored value until its expiry and not-found (with deletion) from then on. |
| Lru.CapacityTwoKeepsThree | service/LRU.go:69-70 | With capacity 2, three `Set`s of new keys keep all three entries, since `evict` at length 2 removes nothing. |
| Lru.CapacityTwoFourthKeyEvictsOldest | service/LRU.go:98-104 | With capacity 2 and three entries, a fourth new key evicts the least recently used one; the size stays 3. |
| Lru.GetMovesBackToFront | service/LRU.go:42-46 | `Get` of the back key of a two-entry list finds it and makes it the front. |
| Lru.GetProtectsFromEviction | service/LRU.go:42-46 | With capacity 1, `Get a` on `[b, a]` and then `Set c` evict `b` rather than `a`. |
| Lru.SweepSpec | service/LRU.go:115-122 | One sweep pass leaves a prefix of the list and keeps the remaining entries unchanged (the intended loop that walks on after each deletion). |
| Lru.SweepRemovesOnlyExpired | service/LRU.go:117-118 | Every entry the sweep removes had `now > expiration`. |
| Lru.SweepStopsAtUnexpired | service/LRU.go:117-120 | After the sweep, the new back entry has `now <= expiration`. |
| Lru.SweepIdempotent | service/LRU.go:115-122 | A second sweep at the same `now` removes nothing. |
| Lru.ExpiryBoundary | service/LRU.go:45 | At `now == expiration` of the back entry, the sweep keeps the state unchanged while `Get` of that key reports not-found and deletes it. |
| Lru.SweepAsWritten | service/LRU.go:115-121 | The sweep loop as written: it removes at most the back entry, and leaves a prefix of the list. |
| Lru.SweepAsWrittenLeavesExpired | service/LRU.go:115-121 | With two expired entries, the sweep as written leaves one, while the intended sweep empties the list. |
| Lru.EntriesExactlyCache | service/LRU.go:130-132 | The walk from front to back visits every cached entry and nothing else: each entry in the map appears, and each visited item is the map's entry for its own key. |
| Lru.GetAllExactlyLive | service/LRU.go:130-138 | An item is in the `GetAll` snapshot iff its key is cached with exactly that entry and `now < expiration`. |
| Lru.Live | service/LRU.go:133-138 | The snapshot is no longer than the entry list. |
| Lru.LiveAppend | service/LRU.go:130-139 | Filtering live entries distributes over concatenation, so the snapshot keeps front-to-back order. |
| Lru.LiveMembers | service/LRU.go:133-137 | An item is in the snapshot iff it comes from an entry with `now < expiration`. |
| Lru.LruCache.constructor | service/LRU.go:27-36 | A new cache is empty, valid, with the given capacity. |
| Lru.LruCache.Get | service/LRU.go:39-51 | In-place `Get` returns the value and new state given by `GetSpec`, and keeps `Valid()`. |
| Lru.LruCache.Set | service/LRU.go:54-80 | In-place `Set` produces the state given by `SetSpec` (including the bound `MaxLen(capacity)`, which is capacity + 1 for capacity ≥ 0), and keeps `Valid()`. |
| Lru.LruCache.Delete | service/LRU.go:83-95 | In-place `Delete` produces the state given by `DeleteSpec`. |
| Lru.LruCache.Evict | service/LRU.go:98-107 | In-place `evict` produces the state given by `EvictSpec`. |
| Lru.LruCache.CleanupPass | service/LRU.go:114-122 | The corrected sweep loop: walking from the back, it deletes entries while they have expired and produces `SweepSpec` of the old state. The code as written stops after one deletion (`Lru.SweepAsWritten`, see Findings). |
| Lru.LruCache.GetAll | service/LRU.go:127-142 | Returns exactly the live entries in front-to-back order, and modifies nothing. |
| LinkedList.IndexOf | service/dll.go:51-62 | The first position of a node in the list. |
| LinkedList.Excise | service/dll.go:51-62 | Cutting a node out of a list of distinct nodes keeps the others, each once, and shortens the list by one. |
| LinkedList.ExciseFront | service/dll.go:32-34 | Moving the head to the front gives back the same sequence. |
| LinkedList.ExciseBack | service/dll.go:64-70 | Cutting out the tail drops the last node. |
| LinkedList.MoveToFrontPermutes | service/dll.go:35-36 | Moving a node to the front keeps the same nodes, each once. |
| LinkedList.Node.constructor | service/dll.go:7-13 | A new node has the given key, value and expiry and no links. |
| LinkedList.Dll.constructor | service/dll.go:27-29 | `NewDll` is an empty, well-formed list with no head and no tail. |
| LinkedList.Dll.PushFront | service/dll.go:39-49 | The sequence becomes `[n] + old`; `n.prev` is nil and `n.next` the old head; on an empty list head and tail are `n`, otherwise the tail is unchanged. |
| LinkedList.Dll.Remove | service/dll.go:51-62 | The sequence loses `n`, others in order; `n`'s own links are untouched; head/tail move only when `n` was first/last. |
| LinkedList.Dll.MoveToFront | service/dll.go:31-37 | The sequence becomes `[n] + (old minus n)`; when `n` is already the head nothing changes. |
| LinkedList.Dll.RemoveLast | service/dll.go:64-71 | On an empty list: nil and no change; otherwise the old tail is returned and the sequence loses its last node. |

## Left out

- Locking with `sync.Mutex` and the background goroutine with its endless `time.Sleep` loop are left out. Each operation is atomic, and one pass of the outer loop's body is modelled twice: `SweepAsWritten` is the pass as written, and `CleanupPass` is the corrected pass (see Findings). The unlocked read in `GetAll` is a data race that a sequential model cannot express.
- `time.Now`, `time.Date` and `time.Duration` become an integer clock `now` in seconds, passed as a parameter. Sub-second precision is not modelled.
- `Lru.LruCache.GetAll` uses one `now` for every element, while the code reads the clock once per element.
- Lru.SetSpec: does not model `int64` overflow of `ttl * time.Second`, because the clock is an unbounded integer.
- `container/list` internals are not part of this model. The list is the sequence of its keys, and an element is reached through the map.
- The in-place update of a shared `*CacheEntry` (`entry.value`, `entry.expiration`) becomes a map update. Aliasing of that pointer is not modelled.
- `Delete` and `delete` are one method, because they differ only in locking.
- The capacity passed to `NewLRUCache` is not checked by the code. The model accepts any integer, and the bound is `MaxLen(capacity)`.
- The `DoublyLinkedList` interface (`service/dll.go:15-20`) is not modelled separately. `Dll` is its only implementation, and the model states its methods directly.
- Dll's `Node` key, value and expiry are constants, because no `Dll` method writes them.
- The HTTP handlers, routes, CORS setup and request/response DTOs are left out. They are glue with no cache logic.
- `interface{}` values and type assertions become a type parameter `V`.

## Findings

| source | as written | input that shows it | evidently intended | confidence | as-written member | corrected member |
|---|---|---|---|---|---|---|
| service/LRU.go:115-121 | The sweep deletes the back element (`c.delete`, which calls `list.Remove`) and then steps with `element.Prev()`. `container/list` clears a removed element's links, so `Prev()` is nil and the pass ends after one removal. | Two entries `a`, `b` (list `[a, b]`), both with `expiration < now`: one pass leaves `[a]`. | Every expired entry at the back is removed, up to the first entry that has not expired. | high; not executed | Lru.SweepAsWritten (shown by Lru.SweepAsWrittenLeavesExpired) | Lru.LruCache.CleanupPass (specified by Lru.SweepSpec, with Lru.SweepRemovesOnlyExpired and Lru.SweepStopsAtUnexpired) |

# kaicache in Dafny

This project models kaicache, a small group-cache style distributed cache written
in Go. It covers the deterministic, single-threaded logic of five parts:

- **LRU store** (`lru.dfy`, module `LRU`). This is a byte-bounded table of
  key/value entries ordered by recency.
  - The Go doubly-linked list becomes a sequence `ll`. Its element 0 is the most
    recently used entry and its last element is the oldest.
  - The `map[string]*list.Element` becomes a map from key to value.
  - The invariant `Valid` says:
    - keys in the list are distinct;
    - list and map hold the same key/value pairs;
    - `nbytes` is the sum of `len(key) + value.Len()` over the list.
  - The eviction loop of `Add` is the recursive function `Evict`. It terminates
    on the list length.
  - The `OnEvicted` callback is a flag saying whether a hook is installed. Each
    operation returns the entries the hook would be called with, in call order.
- **Consistent-hash ring** (`consistenthash.dfy`, module `ConsistentHash`).
  - The ring is a sorted sequence of virtual-node positions plus a map from
    position to real node name.
  - The hash function is a parameter of type `Bytes -> nat`.
  - `sort.Ints` is a functional insertion sort (`sorting.dfy`). It is specified
    by sortedness and multiset equality.
  - `sort.Search` is a binary search, `Search`.
- **ByteView** (`byteview.go` → `byteview.dfy`, module `ByteViews`). This is the
  immutable byte view stored as the LRU value.
- **Groups** (`kaicache.dfy`, module `KaiCache`).
  - Covers the name → group registry, `Group.Get`, `load`, `getLocally` and
    `populateCache`.
  - The registry is passed in and returned explicitly rather than being a
    global.
  - A `Reply` carries the group after the call (its cache may have changed), the
    value or error, and the number of getter calls made.
- **HTTP pool** (`http.dfy`, module `Http`).
  - `NewHTTPPool`, `Set` and `PickPeer`.
  - The request-path split and status mapping of `ServeHTTP`.
  - The request URL and status check of `httpGetter.Get`. The transport is a
    parameter.

Go strings and byte slices are both modelled as `Bytes = seq<uint8>`
(`bytestrings.dfy`). The default ring hash is a bitwise CRC-32 (IEEE polynomial
0xEDB88320, `crc32.dfy`), and `strconv.Itoa` is a decimal rendering (`Itoa`).
Nothing proved about the ring depends on which hash is used.

The cache type behind `Group.mainCache` lives in a file that is not part of this
model. It is taken to be an LRU cache whose `maxBytes` is the group's
`cacheBytes`, with no eviction hook.

## Model

| member | source | states |
|---|---|---|
| LRU.New | lru/lru.go:28-35 | the new cache is empty and valid, with the given bound and hook |
| LRU.Get | lru/lru.go:38-45 | a hit returns the stored value and moves that entry to the front, leaving the rest of the list in order and the map and charge unchanged; a miss returns nothing and changes nothing |
| LRU.RemoveOldest | lru/lru.go:48-59 | on a non-empty list the back entry leaves both list and map, its `len(key)+Len(value)` is subtracted, and it is reported to the hook if one is installed; on an empty list nothing happens; the invariant is kept |
| LRU.Put | lru/lru.go:62-74 | an existing key gets the new value and moves to the front, and the charge changes by `value.Len() - old.Len()` only; a new key goes to the front and is charged `len(key)+value.Len()`; the invariant is kept |
| LRU.Evict | lru/lru.go:75-79 | the loop keeps the invariant and drops entries from the back only; afterwards `nbytes <= maxBytes` unless the bound is 0; it drops nothing when the bound is 0 or already met, and stops as soon as the charge fits; the hook sees the victims oldest first |
| LRU.Add | lru/lru.go:62-80 | `Put` followed by the eviction loop: the kept list is a prefix of the updated list; the bound holds when non-zero, and a zero bound or a charge within the bound evicts nothing; entries go only while the charge exceeds the bound, so keeping one more would break it; the hook sees the victims oldest first; the key survives exactly when its own entry fits the bound, and then it holds the new value at the front |
| LRU.AddThenGet | lru/lru.go:38-45 | a `Get` right after an `Add` whose entry fits returns the value added |
| LRU.OversizedAddEmpties | lru/lru.go:75-79 | an entry larger than the bound empties the cache, itself included; the hook sees every old entry oldest first and then the new one |
| LRU.EvictionOrderExample | lru/lru.go:40-79 | with room for three equal entries, adding A, B, C, reading A and then adding D evicts exactly B and leaves D, A, C |
| LRU.AddFreshFits | lru/lru.go:69-74 | a new key that fits goes to the front and raises the charge by exactly `len(key)+value.Len()`, with no eviction |
| LRU.AddFreshEvictsOne | lru/lru.go:69-79 | a new key that overshoots the bound by at most the oldest entry's size evicts exactly that oldest entry |
| LRU.EvictExactlyOne | lru/lru.go:77-79 | when removing the back entry is enough to fit, the loop runs exactly once |
| LRU.FitsNoEviction | lru/lru.go:77-79 | an `Add` whose charge stays within the bound evicts nothing |
| ByteViews.ByteView.Len | byteview.go:8-10 | the number of bytes held; it is the value charge the LRU contracts use |
| ByteViews.CloneBytes | byteview.go:21-25 | the copy has the same length and the same bytes as the original |
| ByteViews.ByteView.ByteSlice | byteview.go:12-15 | the returned bytes are the view's bytes, with `Len()` of them |
| ByteViews.ByteView.String | byteview.go:17-19 | the returned string is exactly the view's bytes |
| Sorting.Insert | consistenthash/consistenthash.go:50 | inserting into a sorted sequence keeps it sorted and adds exactly the element (multiset) |
| Sorting.Sort | consistenthash/consistenthash.go:50 | the result is sorted and a permutation of the input |
| Sorting.SortedUnique | consistenthash/consistenthash.go:50 | two sorted sequences with the same elements are equal, so the sort result does not depend on the algorithm |
| ConsistentHash.New | consistenthash/consistenthash.go:28-38 | an empty valid ring with the given replica count, whose hash is the supplied function or else CRC-32 |
| ConsistentHash.VirtualNodes | consistenthash/consistenthash.go:42-48 | exactly `replicas × len(names)` virtual nodes, each naming one of the given names |
| ConsistentHash.VirtualNodesComplete | consistenthash/consistenthash.go:42-48 | for every name and every `i` below the replica count, the pair (`hash(Itoa(i) + name)`, name) is among the virtual nodes |
| ConsistentHash.Add | consistenthash/consistenthash.go:41-51 | hash and replicas unchanged; the positions are sorted and are the old ones plus one per virtual node (multiset); every node name is an old one or an added one; the ring invariant is kept |
| ConsistentHash.AddKeepsOld | consistenthash/consistenthash.go:44-48 | a position already on the ring that no new virtual node hashes to keeps its old name |
| ConsistentHash.AddLaterNameWins | consistenthash/consistenthash.go:46-47 | on a position collision, the name written last in loop order is the one kept |
| ConsistentHash.Search | consistenthash/consistenthash.go:59-62 | the binary search returns the least index whose position is at least the hash, or the length when there is none |
| ConsistentHash.Get | consistenthash/consistenthash.go:54-65 | "" on an empty ring; otherwise the node of the first position at or after `hash(key)`, wrapping to index 0, which is always a name in the ring |
| ConsistentHash.GetReturnsAddedName | consistenthash/consistenthash.go:28-65 | on a ring built by `New` and `Add` with at least one replica and one name, every lookup returns one of the added names |
| KaiCache.NewGroup | kaicache.go:28-41 | a missing getter panics; otherwise the group is registered under its name with an empty cache of the given bound, replacing any earlier one, and no other name changes |
| KaiCache.NewGroupKeepsValid | kaicache.go:28-41 | after a registration every group is still stored under its own name, and its cache is valid, has a non-negative bound and no eviction hook |
| KaiCache.GetGroup | kaicache.go:43-48 | the group registered under the name, or nil when there is none |
| KaiCache.GetGroupAfterNewGroup | kaicache.go:28-48 | `GetGroup` finds what `NewGroup` registered, and other names are unaffected |
| KaiCache.PopulateCache | kaicache.go:78-80 | the cache becomes what the LRU add makes of it: the entry goes to the front, older entries go only from the back and only while the bound is exceeded; the value is cached under the key exactly when it fits the bound, and the bound is kept |
| KaiCache.GetLocally | kaicache.go:67-76 | the getter is called once; its error is returned unchanged and the cache is left alone; otherwise the getter's bytes are returned, and the cache becomes what the LRU add of that value makes of it (new entry at the front, older entries dropped from the back only while the bound is exceeded) |
| KaiCache.Load | kaicache.go:63-65 | loading is exactly the local load, with no peer step |
| KaiCache.Get | kaicache.go:50-61 | an empty key is an error with no getter call and no change; a cached key returns the cached value with no getter call and moves to the front, the other entries keeping their order and the charge and bound unchanged; any other key is loaded |
| KaiCache.LoadThenHit | kaicache.go:50-80 | a successful load that fits is followed by a hit that returns the same bytes without calling the getter |
| KaiCache.FailedLoadIsNotCached | kaicache.go:67-71 | a getter error leaves the group unchanged, so the next lookup calls the getter again |
| KaiCache.ScoresExample | test/main.go:12-28 | in the demo's "scores" group, Tom loads "630", which leaves one 6-byte entry in the cache, and then hits; an unknown name gets the "not exists" error and changes nothing; the empty key is refused |
| Http.NewHTTPPool | http.go:38-43 | the pool records `self` and base path "/_kaicache/", with no ring and no clients |
| Http.Set | http.go:83-92 | the ring is rebuilt with 50 replicas and the CRC-32 hash; its positions are exactly the CRC-32 hashes of the given peers' virtual nodes (as a multiset), and each position belongs to the peer whose virtual node wrote it last in loop order; there is one client per given peer, with `baseURL = peer + basePath` |
| Http.PickPeer | http.go:94-103 | a client comes back exactly when the ring answer is non-empty and not `self`, and it is that peer's client |
| Http.PickPeerAfterSet | http.go:83-103 | after `Set`, a picked client belongs to one of the given peers other than `self` |
| Http.PickPeerAloneIsLocal | http.go:83-103 | a pool whose only peer is itself never picks a remote peer |
| Http.IndexOf | http.go:53 | the first occurrence of the separator, or none when it does not occur |
| Http.SplitFirst | http.go:53-57 | a string with a "/" splits into the part before the first "/" and everything after it; without a "/" there is one part |
| Http.ParsePath | http.go:48-60 | a path outside the base path panics; a remainder without "/" is a bad request; otherwise the path is base path + group + "/" + key, with no "/" in the group |
| Http.PathRoundTrip | http.go:48-60 | a path built as base path + group + "/" + key parses back to that group and key, whatever bytes the key holds |
| Http.Serve | http.go:46-76 | panic off the base path, 400 without a "/", 404 for an unknown group, 500 when the lookup fails, and otherwise 200 with the value's bytes; the looked-up group's cache change is kept |
| Http.FetchPathRoundTrip | http.go:46-60 | the URL a peer's client requests, less the peer's address and read as the undecoded request path, splits into the escaped group name and the escaped key, when the escaped group name holds no "/" |
| Http.Fetch | http.go:106-127 | the request goes to `baseURL + escape(group) + "/" + escape(key)`; a transport error is returned unchanged; any status but 200 is an error; otherwise the body read is returned, or the read's error |

## Left out

- Locks (`sync.Mutex`, `sync.RWMutex`) are not modelled. Every operation is a single-threaded state transition.
- Logging (`log.Println`, `HTTPPool.Log`) is not modelled.
- The network is not modelled: `http.Get`, `io.ReadAll`, closing the body, `http.ListenAndServe`, and response headers.
  - `Fetch` takes the transport's answer as a parameter.
  - `Serve` returns a status and body instead of writing them.
- Serve: error responses (400, 404, 500) carry an empty body here. The message text that `http.Error` writes is not modelled.
- `url.QueryEscape` is a parameter of `Fetch`, not an implementation. The server's percent-decoding of the request path is not modelled either.
- Http.FetchPathRoundTrip: the Go server splits `r.URL.Path`, which net/http has already percent-decoded, and the lemma splits the undecoded path. Decoding is not modelled, so the lemma does not show a round trip through it. Under net/url's rules, which were not executed: `url.QueryEscape` writes a space as "+", which path decoding keeps, so key "a b" would be looked up as "a+b"; and it writes "/" as "%2F", which decoding turns back into "/", so group name "a/b" would split as group "a" with key "b/" + key.
- Http.Fetch: a failed body read is returned as the transport's error. Go wraps it as "reading response body: %v" (http.go:122-125), and that message text is not modelled.
- In Go, `NewGroup` returns a `*Group` that the registry also holds, so both share one cache. The model has no pointers: a group is a value, and every lookup returns the group after the call, which the caller stores back (as `Serve` does for the registry).
- The internals of `crc32.ChecksumIEEE` and `strconv.Itoa` are concrete functions, but no property depends on them. Ring properties hold for any hash function.
- LRU.Add: `nbytes` and `maxBytes` are unbounded integers. The `int64` overflow of the Go fields is not modelled.
- LRU.Evict: requires `maxBytes >= 0`. With a negative bound and an empty list the Go loop at lru/lru.go:77-79 never exits.
- KaiCache.NewGroup: requires `cacheBytes >= 0` for the same reason.
- Http.PickPeer: requires that `Set` has run. Before it the Go code dereferences a nil ring.
- The ring hash returns a `nat` rather than a `uint32`, so its 32-bit range is not modelled.
- ByteViews.ByteView.ByteSlice: the copy is modelled by value semantics. The fact that mutating the returned slice cannot affect the view holds because sequences are immutable, so no contract states it.
- `ByteView.Len` is `len(b)` by definition and has no separate contract.
- `GetterFunc.Get` is plain function application: the getter is a function value.
- `ConsistentHash.Get` cannot change the ring, because it returns only a name. Two lookups with no `Add` in between agree because `Get` is a function.
- `singleflight` holds only type declarations, and no group code calls it. It is not modelled.
- Peer fetching inside `load` and `RegisterPeers` do not exist in this revision of `kaicache.go`. `test/main.go` calls `RegisterPeers`, but the definition is not part of this model.
- The `PeerPicker` and `PeerGetter` interfaces of `http.go:22` are declared in a file that is not part of this model.
- Statistical claims about how evenly keys spread over peers are not modelled.

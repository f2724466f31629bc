/** kaicache.go: the named cache namespace (`Group`) and the process-wide registry.

    The `cache` type behind `mainCache` lives in a file that is not part of this model;
    it is taken to be an LRU cache whose byte bound is the group's `cacheBytes` and
    which has no eviction hook. The registry is passed in and returned explicitly
    instead of being a package-level variable, and a `Group` is a value: an operation
    that changes its cache returns the changed group. */
module KaiCache {
  import opened ByteStrings
  import opened ByteViews
  import opened Wrappers
  import LRU

  /** Errors a lookup can end with. `KeyRequired` is the "key is required" error;
      a getter may return any error, which is passed on unchanged. */
  datatype Error = KeyRequired | ServerReturned(status: int) | Message(text: Bytes)

  /** The data source called on a miss (`Getter`, usually a `GetterFunc`). */
  type Getter = Bytes -> Result<Bytes, Error>

  datatype Group = Group(name: Bytes, getter: Getter, mainCache: LRU.Cache)

  /** The name-to-group table. */
  type Registry = map<Bytes, Group>

  /** A group's cache keeps the LRU invariant, has a usable bound and no hook. */
  predicate GroupValid(g: Group) {
    LRU.Valid(g.mainCache) && g.mainCache.maxBytes >= 0 && !g.mainCache.onEvicted
  }

  /** Every registered group is stored under its own name and is valid. */
  predicate RegistryValid(reg: Registry) {
    forall n | n in reg :: reg[n].name == n && GroupValid(reg[n])
  }

  /** What a lookup leaves behind: the group (its cache possibly changed), the
      value or error returned, and how many times the getter was called. */
  datatype Reply = Reply(group: Group, value: Result<ByteView, Error>, loads: nat)

  // ---------------------------------------------------------------- registry

  /** `NewGroup`: a missing getter is a panic (`None`); otherwise a group with an
      empty cache is registered under `name`, replacing any earlier one.
      The bound must be non-negative, or the first insertion never finishes. */
  function NewGroup(reg: Registry, name: Bytes, cacheBytes: int, getter: Option<Getter>): (r: Option<Registry>)
    requires cacheBytes >= 0
    ensures r.None? <==> getter.None?
    ensures r.Some? ==>
      && r.value.Keys == reg.Keys + {name}
      && r.value[name].name == name
      && r.value[name].getter == getter.value
      && r.value[name].mainCache.maxBytes == cacheBytes
      && |r.value[name].mainCache.ll| == 0 && r.value[name].mainCache.nbytes == 0
      && GroupValid(r.value[name])
      && (forall n | n in reg && n != name :: r.value[n] == reg[n])
  {
    if getter.None? then None
    else Some(reg[name := Group(name, getter.value, LRU.New(cacheBytes, false))])
  }

  /** Registering a group keeps every registered group valid and under its own name. */
  lemma {:induction false} NewGroupKeepsValid(reg: Registry, name: Bytes, cacheBytes: int, getter: Getter)
    requires cacheBytes >= 0 && RegistryValid(reg)
    ensures RegistryValid(NewGroup(reg, name, cacheBytes, Some(getter)).value)
  {
    var reg' := NewGroup(reg, name, cacheBytes, Some(getter)).value;
    forall n | n in reg'
      ensures reg'[n].name == n && GroupValid(reg'[n])
    {
      if n != name {
        assert reg'[n] == reg[n];
      }
    }
  }

  /** `GetGroup`: the group registered under `name`, or nil. */
  function GetGroup(reg: Registry, name: Bytes): (r: Option<Group>)
    ensures r.Some? <==> name in reg
    ensures r.Some? ==> r.value == reg[name]
  {
    if name in reg then Some(reg[name]) else None
  }

  // ---------------------------------------------------------------- lookup

  /** `populateCache`: add the loaded value to the group's cache. */
  function PopulateCache(g: Group, key: Bytes, value: ByteView): (r: Group)
    requires GroupValid(g)
    ensures GroupValid(r) && r.name == g.name && r.getter == g.getter
    ensures key in r.mainCache.cache <==> g.mainCache.maxBytes == 0 || |key| + value.Len() <= g.mainCache.maxBytes
    ensures key in r.mainCache.cache ==> r.mainCache.cache[key] == value
    ensures g.mainCache.maxBytes != 0 ==> r.mainCache.nbytes <= g.mainCache.maxBytes
    ensures LRU.Evicted(LRU.Put(g.mainCache, key, value), (r.mainCache, []))
  {
    g.(mainCache := LRU.Add(g.mainCache, key, value).0)
  }

  /** `getLocally`: call the getter once; pass its error on untouched, or wrap a
      copy of its bytes, cache it and return it. */
  function GetLocally(g: Group, key: Bytes): (r: Reply)
    requires GroupValid(g)
    ensures GroupValid(r.group) && r.group.name == g.name && r.group.getter == g.getter
    ensures r.loads == 1
    ensures g.getter(key).Failure? ==> r.value == Failure(g.getter(key).error) && r.group == g
    ensures g.getter(key).Success? ==>
      && r.value == Success(ByteView(g.getter(key).value))
      && (key in r.group.mainCache.cache <==>
            g.mainCache.maxBytes == 0 || |key| + |g.getter(key).value| <= g.mainCache.maxBytes)
      && (key in r.group.mainCache.cache ==> r.group.mainCache.cache[key] == r.value.value)
      && LRU.Evicted(LRU.Put(g.mainCache, key, ByteView(g.getter(key).value)), (r.group.mainCache, []))
  {
    match g.getter(key)
    case Failure(err) => Reply(g, Failure(err), 1)
    case Success(bytes) =>
      var value := ByteView(CloneBytes(bytes));
      Reply(PopulateCache(g, key, value), Success(value), 1)
  }

  /** `load`: in this revision there is no peer step, only `getLocally`. */
  function Load(g: Group, key: Bytes): (r: Reply)
    requires GroupValid(g)
    ensures r == GetLocally(g, key)
  {
    GetLocally(g, key)
  }

  /** `Group.Get`: an empty key is an error; a cached key is answered without the
      getter; anything else goes through `load`. */
  function Get(g: Group, key: Bytes): (r: Reply)
    requires GroupValid(g)
    ensures GroupValid(r.group) && r.group.name == g.name && r.group.getter == g.getter
    ensures key == [] ==> r == Reply(g, Failure(KeyRequired), 0)
    ensures key != [] && key in g.mainCache.cache ==>
      && r.value == Success(g.mainCache.cache[key])
      && r.loads == 0
      && r.group.mainCache.cache == g.mainCache.cache
      && r.group.mainCache.ll[0].key == key
      && r.group.mainCache.ll == [LRU.Entry(key, g.mainCache.cache[key])] + LRU.Without(g.mainCache.ll, key)
      && r.group.mainCache.maxBytes == g.mainCache.maxBytes
      && r.group.mainCache.nbytes == g.mainCache.nbytes
    ensures key != [] && key !in g.mainCache.cache ==> r == GetLocally(g, key)
  {
    if key == [] then Reply(g, Failure(KeyRequired), 0)
    else
      var (c, hit) := LRU.Get(g.mainCache, key);
      if hit.Some? then Reply(g.(mainCache := c), Success(hit.value), 0)
      else Load(g, key)
  }

  // ---------------------------------------------------------------- lemmas

  /** `GetGroup` finds what `NewGroup` registered, and other names are unaffected. */
  lemma {:induction false} GetGroupAfterNewGroup(reg: Registry, name: Bytes, cacheBytes: int, getter: Getter, other: Bytes)
    requires cacheBytes >= 0
    ensures var reg' := NewGroup(reg, name, cacheBytes, Some(getter)).value;
      && GetGroup(reg', name) == Some(Group(name, getter, LRU.New(cacheBytes, false)))
      && (other != name ==> GetGroup(reg', other) == GetGroup(reg, other))
  {
  }

  /** A miss that loads successfully is followed by a hit on the same key that
      returns the same bytes without calling the getter again, provided the entry
      fits the cache bound. */
  lemma {:induction false} LoadThenHit(g: Group, key: Bytes)
    requires GroupValid(g)
    requires key != [] && key !in g.mainCache.cache
    requires g.getter(key).Success?
    requires g.mainCache.maxBytes == 0 || |key| + |g.getter(key).value| <= g.mainCache.maxBytes
    ensures var r1 := Get(g, key);
      var r2 := Get(r1.group, key);
      && r1.value == Success(ByteView(g.getter(key).value)) && r1.loads == 1
      && r2.value == r1.value && r2.loads == 0
  {
  }

  /** A getter error is returned as is and leaves the cache alone, so the next
      lookup of that key calls the getter again. */
  lemma {:induction false} FailedLoadIsNotCached(g: Group, key: Bytes)
    requires GroupValid(g)
    requires key != [] && key !in g.mainCache.cache
    requires g.getter(key).Failure?
    ensures var r1 := Get(g, key);
      && r1.value == Failure(g.getter(key).error)
      && r1.group == g
      && Get(r1.group, key).loads == 1
  {
  }

  // ---------------------------------------------------------------- the "scores" group

  // The demo program's names and scores, spelled as bytes.
  const Tom: Bytes := [84, 111, 109]             // "Tom"
  const Jack: Bytes := [74, 97, 99, 107]         // "Jack"
  const Sam: Bytes := [83, 97, 109]              // "Sam"
  const Scores: Bytes := [115, 99, 111, 114, 101, 115]  // "scores"
  const NotExists: Bytes := [32, 110, 111, 116, 32, 101, 120, 105, 115, 116, 115]  // " not exists"

  /** The slow database of the demo program: three students' scores, and a
      "<key> not exists" error for anyone else. */
  function ScoresDB(key: Bytes): (r: Result<Bytes, Error>)
    ensures r.Failure? <==> key != Tom && key != Jack && key != Sam
    ensures r.Failure? ==> r.error == Message(key + NotExists)
  {
    if key == Tom then Success([54, 51, 48])             // "630"
    else if key == Jack then Success([53, 56, 57])       // "589"
    else if key == Sam then Success([53, 54, 55])        // "567"
    else Failure(Message(key + NotExists))
  }

  /** The demo program's "scores" group (bound 2 << 10 bytes): the first lookup of
      Tom loads "630" from the database, the second is a hit; an unknown name is
      reported with the database's error and nothing is cached for it; the empty
      key is refused before the getter is consulted. */
  lemma {:induction false} ScoresExample(unknown: Bytes, reg: Registry, g: Group, r1: Reply, r2: Reply, r3: Reply)
    requires unknown != [] && unknown != Tom && unknown != Jack && unknown != Sam
    requires reg == NewGroup(map[], Scores, 2048, Some(ScoresDB)).value
    requires g == GetGroup(reg, Scores).value
    requires r1 == Get(g, Tom)
    requires r2 == Get(r1.group, Tom)
    requires r3 == Get(r2.group, unknown)
    ensures r1.value == Success(ByteView([54, 51, 48])) && r1.loads == 1
    ensures r1.group.mainCache.ll == [LRU.Entry(Tom, ByteView([54, 51, 48]))]
    ensures r1.group.mainCache.nbytes == 6
    ensures r2.value == r1.value && r2.loads == 0
    ensures r3.value == Failure(Message(unknown + NotExists)) && r3.loads == 1
    ensures r3.group == r2.group
    ensures Get(g, []) == Reply(g, Failure(KeyRequired), 0)
  {
    LoadThenHit(g, Tom);
    assert unknown !in r2.group.mainCache.cache;
  }
}

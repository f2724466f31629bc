/** http.go: the HTTP peer pool, in its deterministic parts. Locks, logging, the
    listening loop and the network transfer itself are not modelled: the server
    side is a function from a request path to a status and body, and the client
    side takes the transport's answer as a parameter. */
module Http {
  import opened ByteStrings
  import opened ByteViews
  import opened Wrappers
  import opened KaiCache
  import ConsistentHash
  import Crc32

  /** `defaultBasePath`. */
  const DefaultBasePath: Bytes := Ascii("/_kaicache/")

  /** `defalutReplicas`. */
  const DefaultReplicas: int := 50

  /** A client for one remote peer: requests go to `baseURL + group + "/" + key`. */
  datatype HttpGetter = HttpGetter(baseURL: Bytes)

  /** `HTTPPool`. `peers` is the consistent-hash ring, nil (`None`) until `Set` runs. */
  datatype Pool = Pool(
    self: Bytes,
    basePath: Bytes,
    peers: Option<ConsistentHash.Ring>,
    httpGetters: map<Bytes, HttpGetter>)

  /** A pool after `Set`: the ring is there and valid, every name it can return has
      a client, and every client points at its peer's base path. */
  predicate PoolValid(p: Pool) {
    && p.peers.Some?
    && ConsistentHash.Valid(p.peers.value)
    && (forall h | h in p.peers.value.hashMap :: p.peers.value.hashMap[h] in p.httpGetters)
    && (forall peer | peer in p.httpGetters :: p.httpGetters[peer].baseURL == peer + p.basePath)
  }

  // ---------------------------------------------------------------- pool set-up

  /** `NewHTTPPool`: records `self` and the default base path; no peers yet. */
  function NewHTTPPool(self: Bytes): (p: Pool)
    ensures p.self == self && p.basePath == DefaultBasePath
    ensures p.peers.None? && |p.httpGetters| == 0
  {
    Pool(self, DefaultBasePath, None, map[])
  }

  /** `Set(peers...)`: throws away the old ring and clients and builds new ones
      holding exactly the given peers. */
  function Set(p: Pool, peers: seq<Bytes>): (r: Pool)
    ensures r.self == p.self && r.basePath == p.basePath
    ensures PoolValid(r)
    ensures r.peers.value.replicas == DefaultReplicas
    ensures r.peers.value.hash == Crc32.ChecksumIEEE
    ensures |r.peers.value.keys| == DefaultReplicas * |peers|
    ensures multiset(r.peers.value.keys) ==
      multiset(ConsistentHash.Hashes(ConsistentHash.VirtualNodes(Crc32.ChecksumIEEE, DefaultReplicas, peers)))
    ensures forall h | h in r.peers.value.hashMap :: r.peers.value.hashMap[h] in peers
    ensures r.httpGetters.Keys == set peer | peer in peers
    ensures forall peer | peer in peers :: r.httpGetters[peer] == HttpGetter(peer + p.basePath)
    ensures var vs := ConsistentHash.VirtualNodes(Crc32.ChecksumIEEE, DefaultReplicas, peers);
      forall j | 0 <= j < |vs| && (forall j' | j < j' < |vs| :: vs[j'].0 != vs[j].0) ::
        vs[j].0 in r.peers.value.hashMap && r.peers.value.hashMap[vs[j].0] == vs[j].1
  {
    var ring := ConsistentHash.Add(ConsistentHash.New(DefaultReplicas, None), peers);
    var vs := ConsistentHash.VirtualNodes(Crc32.ChecksumIEEE, DefaultReplicas, peers);
    forall j | 0 <= j < |vs| && (forall j' | j < j' < |vs| :: vs[j'].0 != vs[j].0)
      ensures vs[j].0 in ring.hashMap && ring.hashMap[vs[j].0] == vs[j].1
    {
      ConsistentHash.AddLaterNameWins(ConsistentHash.New(DefaultReplicas, None), peers, j);
    }
    var getters := map peer | peer in peers :: HttpGetter(peer + p.basePath);
    Pool(p.self, p.basePath, Some(ring), getters)
  }

  /** `PickPeer`: the ring's answer for `key`, unless the ring is empty or the answer
      is this node itself. Requires `Set` to have run (before it, Go dereferences nil). */
  function PickPeer(p: Pool, key: Bytes): (r: Option<HttpGetter>)
    requires PoolValid(p)
    ensures var peer := ConsistentHash.Get(p.peers.value, key);
      && (r.Some? <==> peer != [] && peer != p.self)
      && (r.Some? ==> peer in p.httpGetters && r.value == p.httpGetters[peer])
    ensures r.Some? ==> exists peer | peer in p.httpGetters && peer != p.self :: r.value.baseURL == peer + p.basePath
  {
    var peer := ConsistentHash.Get(p.peers.value, key);
    if peer != [] && peer != p.self then
      assert peer in p.peers.value.hashMap.Values;
      Some(p.httpGetters[peer])
    else None
  }

  // ---------------------------------------------------------------- server side

  /** Where the first `sep` in `s` is, if anywhere. */
  function IndexOf(s: Bytes, sep: uint8): (r: Option<nat>)
    ensures r.None? <==> sep !in s
    ensures r.Some? ==> r.value < |s| && s[r.value] == sep && sep !in s[..r.value]
  {
    if |s| == 0 then None
    else if s[0] == sep then Some(0)
    else
      var t := IndexOf(s[1..], sep);
      if t.None? then None
      else
        assert s[..t.value + 1] == [s[0]] + s[1..][..t.value];
        Some(t.value + 1)
  }

  /** `strings.SplitN(s, "/", 2)` when it yields two parts: the text before the first
      "/" and everything after it; `None` when `s` has no "/" (one part). */
  function SplitFirst(s: Bytes): (r: Option<(Bytes, Bytes)>)
    ensures r.None? <==> Slash !in s
    ensures r.Some? ==> s == r.value.0 + [Slash] + r.value.1 && Slash !in r.value.0
  {
    match IndexOf(s, Slash)
    case None => None
    case Some(i) =>
      assert s == s[..i] + [Slash] + s[i + 1..];
      Some((s[..i], s[i + 1..]))
  }

  /** How `ServeHTTP` reads a request path. */
  datatype Route =
    | WrongPrefix                       // not under the base path: the handler panics
    | BadRequest                        // no "/" after the base path: 400
    | Lookup(group: Bytes, key: Bytes)  // group name and key

  /** The path split of `ServeHTTP`: the part after the base path, cut at its first "/". */
  function ParsePath(basePath: Bytes, path: Bytes): (r: Route)
    ensures r == WrongPrefix <==> !(basePath <= path)
    ensures r == BadRequest <==> basePath <= path && Slash !in path[|basePath|..]
    ensures r.Lookup? ==> path == basePath + r.group + [Slash] + r.key && Slash !in r.group
  {
    if !(basePath <= path) then WrongPrefix
    else
      match SplitFirst(path[|basePath|..])
      case None => BadRequest
      case Some((group, key)) =>
        assert path == basePath + path[|basePath|..];
        Lookup(group, key)
  }

  /** What the handler writes back. */
  datatype Response =
    | Panic                              // the handler panicked
    | Status(code: int, body: Bytes)     // status code and body

  const StatusOK: int := 200
  const StatusBadRequest: int := 400
  const StatusNotFound: int := 404
  const StatusInternalServerError: int := 500

  /** `ServeHTTP`: route the path, find the group, look the key up in it and answer
      with the value's bytes. The registry comes back because the lookup may change
      the group's cache. Error bodies are left empty here. */
  function Serve(reg: Registry, p: Pool, path: Bytes): (r: (Registry, Response))
    requires RegistryValid(reg)
    ensures RegistryValid(r.0) && r.0.Keys == reg.Keys
    ensures !(p.basePath <= path) ==> r == (reg, Panic)
    ensures ParsePath(p.basePath, path) == BadRequest ==> r == (reg, Status(StatusBadRequest, []))
    ensures ParsePath(p.basePath, path).Lookup? && ParsePath(p.basePath, path).group !in reg ==>
      r == (reg, Status(StatusNotFound, []))
    ensures ParsePath(p.basePath, path).Lookup? && ParsePath(p.basePath, path).group in reg ==>
      var route := ParsePath(p.basePath, path);
      var reply := KaiCache.Get(reg[route.group], route.key);
      && r.0 == reg[route.group := reply.group]
      && (reply.value.Failure? ==> r.1 == Status(StatusInternalServerError, []))
      && (reply.value.Success? ==> r.1 == Status(StatusOK, reply.value.value.b))
  {
    match ParsePath(p.basePath, path)
    case WrongPrefix => (reg, Panic)
    case BadRequest => (reg, Status(StatusBadRequest, []))
    case Lookup(name, key) =>
      match GetGroup(reg, name)
      case None => (reg, Status(StatusNotFound, []))
      case Some(group) =>
        var reply := KaiCache.Get(group, key);
        var reg' := reg[name := reply.group];
        if reply.value.Failure? then (reg', Status(StatusInternalServerError, []))
        else (reg', Status(StatusOK, reply.value.value.ByteSlice()))
  }

  // ---------------------------------------------------------------- client side

  /** The request URL of `httpGetter.Get`, with `escape` standing for `url.QueryEscape`. */
  function RequestURL(h: HttpGetter, group: Bytes, key: Bytes, escape: Bytes -> Bytes): Bytes {
    h.baseURL + escape(group) + [Slash] + escape(key)
  }

  /** The transport's answer to one GET: no response at all, or a status with the
      body as read (reading can fail too). */
  datatype Exchange =
    | NoResponse(err: Error)
    | Received(status: int, body: Result<Bytes, Error>)

  /** `httpGetter.Get`: any status but 200 is an error; otherwise the body bytes. */
  function Fetch(h: HttpGetter, group: Bytes, key: Bytes, escape: Bytes -> Bytes,
                 transport: Bytes -> Exchange): (r: Result<Bytes, Error>)
    ensures var x := transport(RequestURL(h, group, key, escape));
      && (r.Success? <==> x.Received? && x.status == StatusOK && x.body.Success?)
      && (r.Success? ==> r.value == x.body.value)
      && (x.NoResponse? ==> r == Failure(x.err))
      && (x.Received? && x.status != StatusOK ==> r == Failure(ServerReturned(x.status)))
      && (x.Received? && x.status == StatusOK ==> r == x.body)
  {
    match transport(RequestURL(h, group, key, escape))
    case NoResponse(err) => Failure(err)
    case Received(status, body) =>
      if status != StatusOK then Failure(ServerReturned(status))
      else body
  }

  // ---------------------------------------------------------------- lemmas

  /** The server splits a path of the shape the client builds back into the group
      name and key it was built from, provided the group name holds no "/"; the key
      may hold any bytes, "/" included. */
  lemma {:induction false} PathRoundTrip(basePath: Bytes, group: Bytes, key: Bytes)
    requires Slash !in group
    ensures ParsePath(basePath, basePath + group + [Slash] + key) == Lookup(group, key)
  {
    var path := basePath + group + [Slash] + key;
    assert path[..|basePath|] == basePath;
    assert path[|basePath|..] == group + [Slash] + key;
    var route := ParsePath(basePath, path);
    SplitUnique(group, key, route.group, route.key);
  }

  /** The client's URL against the server's split, before any decoding: for a client
      built by `Set` for `peer`, the request URL with the peer's address taken off,
      read as the undecoded request path, splits into the escaped group name and the
      escaped key, provided the escaped group name holds no "/". */
  lemma {:induction false} FetchPathRoundTrip(peer: Bytes, basePath: Bytes, group: Bytes, key: Bytes,
                                              escape: Bytes -> Bytes)
    requires Slash !in escape(group)
    ensures var url := RequestURL(HttpGetter(peer + basePath), group, key, escape);
      |peer| <= |url| && ParsePath(basePath, url[|peer|..]) == Lookup(escape(group), escape(key))
  {
    var path := basePath + escape(group) + [Slash] + escape(key);
    var url := RequestURL(HttpGetter(peer + basePath), group, key, escape);
    assert url == peer + path;
    assert url[|peer|..] == path;
    PathRoundTrip(basePath, escape(group), escape(key));
  }

  /** A byte string with one "/" marked cannot be cut at a different first "/". */
  lemma {:induction false} SplitUnique(a: Bytes, b: Bytes, a': Bytes, b': Bytes)
    requires Slash !in a && Slash !in a'
    requires a + [Slash] + b == a' + [Slash] + b'
    ensures a == a' && b == b'
  {
    var s := a + [Slash] + b;
    assert s[|a|] == Slash && s[|a'|] == Slash;
    assert forall i | 0 <= i < |a| :: s[i] == a[i];
    assert forall i | 0 <= i < |a'| :: s[i] == a'[i];
    assert |a| == |a'|;
    assert a == s[..|a|];
    assert b == s[|a| + 1..];
  }

  /** A pool whose peer list is only itself never sends a request anywhere. */
  lemma {:induction false} PickPeerAloneIsLocal(p: Pool, key: Bytes)
    ensures PickPeer(Set(p, [p.self]), key).None?
  {
    var q := Set(p, [p.self]);
    var peer := ConsistentHash.Get(q.peers.value, key);
    if |q.peers.value.keys| > 0 {
      var h :| h in q.peers.value.hashMap && q.peers.value.hashMap[h] == peer;
    }
  }

  /** After `Set`, a picked client belongs to one of the given peers, not to this node,
      and points at that peer's base path. */
  lemma {:induction false} PickPeerAfterSet(p: Pool, peers: seq<Bytes>, key: Bytes)
    ensures var r := PickPeer(Set(p, peers), key);
      r.Some? ==> exists peer | peer in peers && peer != p.self :: r.value == HttpGetter(peer + p.basePath)
  {
    var q := Set(p, peers);
    var peer := ConsistentHash.Get(q.peers.value, key);
    if PickPeer(q, key).Some? {
      var h :| h in q.peers.value.hashMap && q.peers.value.hashMap[h] == peer;
      assert peer in peers;
    }
  }
}

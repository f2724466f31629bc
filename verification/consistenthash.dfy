/** consistenthash/consistenthash.go: a ring of virtual nodes, sorted by hash, each
    mapped back to the real node (peer name) it stands for. The Go type is
    `consistenthash.Map`; it is called `Ring` here to keep it apart from Dafny's `map`. */
module ConsistentHash {
  import opened ByteStrings
  import opened Sorting
  import opened Wrappers
  import Crc32

  /** The injected hash of a byte string; `uint32` results widened to integers. */
  type Hash = Bytes -> nat

  datatype Ring = Ring(hash: Hash, replicas: int, keys: seq<nat>, hashMap: map<nat, Bytes>)

  /** `keys` is ascending, and every ring position is a key of `hashMap` and vice versa. */
  predicate Valid(m: Ring) {
    && Sorted(m.keys)
    && (forall i | 0 <= i < |m.keys| :: m.keys[i] in m.hashMap)
    && (forall h | h in m.hashMap :: h in m.keys)
  }

  /** How many times the `for i := 0; i < replicas; i++` loop runs. */
  function Count(replicas: int): nat {
    if replicas < 0 then 0 else replicas
  }

  /** One real node's virtual nodes `(hash(Itoa(i) + name), name)`, in loop order. */
  function NodesOf(hash: Hash, replicas: int, name: Bytes): seq<(nat, Bytes)> {
    seq(Count(replicas), i requires 0 <= i < Count(replicas) => (hash(Itoa(i) + name), name))
  }

  /** All virtual nodes of `names`, in the order the nested Go loops produce them:
      every replica of the first name, then every replica of the next, and so on. */
  function VirtualNodes(hash: Hash, replicas: int, names: seq<Bytes>): (vs: seq<(nat, Bytes)>)
    ensures |vs| == Count(replicas) * |names|
    ensures forall j | 0 <= j < |vs| :: vs[j].1 in names
  {
    if |names| == 0 then []
    else
      var head := NodesOf(hash, replicas, names[0]);
      var tail := VirtualNodes(hash, replicas, names[1..]);
      assert forall j | 0 <= j < |tail| :: tail[j].1 in names by {
        forall j | 0 <= j < |tail| ensures tail[j].1 in names {
          assert tail[j].1 in names[1..];
        }
      }
      assert |head + tail| == Count(replicas) * |names| by {
        assert Count(replicas) * |names| == Count(replicas) + Count(replicas) * (|names| - 1);
      }
      head + tail
  }

  /** Replica `i` of `names[n]` is among the virtual nodes. */
  lemma {:induction false} VirtualNodesComplete(hash: Hash, replicas: int, names: seq<Bytes>, n: int, i: int)
    requires 0 <= n < |names| && 0 <= i < Count(replicas)
    ensures (hash(Itoa(i) + names[n]), names[n]) in VirtualNodes(hash, replicas, names)
    decreases n
  {
    var head := NodesOf(hash, replicas, names[0]);
    var tail := VirtualNodes(hash, replicas, names[1..]);
    assert VirtualNodes(hash, replicas, names) == head + tail;
    if n == 0 {
      assert head[i] == (hash(Itoa(i) + names[0]), names[0]);
    } else {
      VirtualNodesComplete(hash, replicas, names[1..], n - 1, i);
      assert names[1..][n - 1] == names[n];
    }
  }

  /** The ring positions of a run of virtual nodes. */
  function Hashes(vs: seq<(nat, Bytes)>): seq<nat> {
    seq(|vs|, j requires 0 <= j < |vs| => vs[j].0)
  }

  /** The assignments `hashMap[hash] = name`, performed in order. */
  function Assign(hm: map<nat, Bytes>, vs: seq<(nat, Bytes)>): (r: map<nat, Bytes>)
    ensures forall h :: h in r <==> h in hm || h in Hashes(vs)
    decreases |vs|
  {
    if |vs| == 0 then hm
    else
      assert Hashes(vs) == [vs[0].0] + Hashes(vs[1..]);
      Assign(hm[vs[0].0 := vs[0].1], vs[1..])
  }

  /** A position written more than once ends with the last name written to it. */
  lemma {:induction false} AssignLastWins(hm: map<nat, Bytes>, vs: seq<(nat, Bytes)>, j: int)
    requires 0 <= j < |vs|
    requires forall j' | j < j' < |vs| :: vs[j'].0 != vs[j].0
    ensures vs[j].0 in Assign(hm, vs) && Assign(hm, vs)[vs[j].0] == vs[j].1
    decreases |vs|
  {
    var hm' := hm[vs[0].0 := vs[0].1];
    if j == 0 {
      AssignUntouched(hm', vs[1..], vs[0].0);
    } else {
      assert forall j' | j - 1 < j' < |vs[1..]| :: vs[1..][j'].0 != vs[1..][j - 1].0 by {
        forall j' | j - 1 < j' < |vs[1..]| ensures vs[1..][j'].0 != vs[1..][j - 1].0 {
          assert vs[1..][j'] == vs[j' + 1];
        }
      }
      AssignLastWins(hm', vs[1..], j - 1);
    }
  }

  /** A position never written keeps its old name. */
  lemma {:induction false} AssignUntouched(hm: map<nat, Bytes>, vs: seq<(nat, Bytes)>, h: nat)
    requires h in hm
    requires forall j | 0 <= j < |vs| :: vs[j].0 != h
    ensures h in Assign(hm, vs) && Assign(hm, vs)[h] == hm[h]
    decreases |vs|
  {
    if |vs| > 0 {
      assert forall j | 0 <= j < |vs[1..]| :: vs[1..][j].0 != h by {
        forall j | 0 <= j < |vs[1..]| ensures vs[1..][j].0 != h {
          assert vs[1..][j] == vs[j + 1];
        }
      }
      AssignUntouched(hm[vs[0].0 := vs[0].1], vs[1..], h);
    }
  }

  /** Every name in the result was in the map before or was written by `vs`. */
  lemma {:induction false} AssignValues(hm: map<nat, Bytes>, vs: seq<(nat, Bytes)>, h: nat)
    requires h in Assign(hm, vs)
    ensures Assign(hm, vs)[h] in hm.Values || exists j | 0 <= j < |vs| :: Assign(hm, vs)[h] == vs[j].1
    decreases |vs|
  {
    if |vs| > 0 {
      var hm' := hm[vs[0].0 := vs[0].1];
      var v := Assign(hm, vs)[h];
      AssignValues(hm', vs[1..], h);
      if v in hm'.Values {
        var h' :| h' in hm' && hm'[h'] == v;
        if h' != vs[0].0 {
          assert hm[h'] == v;
        } else {
          assert v == vs[0].1;
        }
      } else {
        var j :| 0 <= j < |vs[1..]| && v == vs[1..][j].1;
        assert v == vs[j + 1].1;
      }
    }
  }

  // ---------------------------------------------------------------- operations

  /** `New`: an empty ring; a missing hash function means the CRC-32 default. */
  function New(replicas: int, fn: Option<Hash>): (m: Ring)
    ensures Valid(m)
    ensures m.replicas == replicas && |m.keys| == 0 && |m.hashMap| == 0
    ensures fn.Some? ==> m.hash == fn.value
    ensures fn.None? ==> m.hash == Crc32.ChecksumIEEE
  {
    Ring(if fn.Some? then fn.value else Crc32.ChecksumIEEE, replicas, [], map[])
  }

  /** `Add(names...)`: `replicas` virtual nodes per name are appended, earlier
      positions are kept, and the positions are sorted again. */
  function Add(m: Ring, names: seq<Bytes>): (r: Ring)
    ensures r.hash == m.hash && r.replicas == m.replicas
    ensures Sorted(r.keys)
    ensures |r.keys| == |m.keys| + Count(m.replicas) * |names|
    ensures multiset(r.keys) == multiset(m.keys) + multiset(Hashes(VirtualNodes(m.hash, m.replicas, names)))
    ensures forall h | h in r.hashMap :: r.hashMap[h] in m.hashMap.Values || r.hashMap[h] in names
    ensures Valid(m) ==> Valid(r)
  {
    var vs := VirtualNodes(m.hash, m.replicas, names);
    var r := m.(keys := Sort(m.keys + Hashes(vs)), hashMap := Assign(m.hashMap, vs));
    assert multiset(m.keys + Hashes(vs)) == multiset(m.keys) + multiset(Hashes(vs));
    AddNames(m, names, r.hashMap);
    AddValid(m, vs, r);
    r
  }

  lemma {:induction false} AddNames(m: Ring, names: seq<Bytes>, hm: map<nat, Bytes>)
    requires hm == Assign(m.hashMap, VirtualNodes(m.hash, m.replicas, names))
    ensures forall h | h in hm :: hm[h] in m.hashMap.Values || hm[h] in names
  {
    var vs := VirtualNodes(m.hash, m.replicas, names);
    forall h | h in hm
      ensures hm[h] in m.hashMap.Values || hm[h] in names
    {
      AssignValues(m.hashMap, vs, h);
    }
  }

  lemma {:induction false} AddValid(m: Ring, vs: seq<(nat, Bytes)>, r: Ring)
    requires Sorted(r.keys)
    requires multiset(r.keys) == multiset(m.keys) + multiset(Hashes(vs))
    requires forall h :: h in r.hashMap <==> h in m.hashMap || h in Hashes(vs)
    ensures Valid(m) ==> Valid(r)
  {
    if Valid(m) {
      forall i | 0 <= i < |r.keys|
        ensures r.keys[i] in r.hashMap
      {
        assert r.keys[i] in multiset(r.keys);
        if r.keys[i] in multiset(m.keys) {
          assert r.keys[i] in m.keys;
        } else {
          assert r.keys[i] in Hashes(vs);
        }
      }
      forall h | h in r.hashMap
        ensures h in r.keys
      {
        if h in m.hashMap {
          assert h in multiset(m.keys);
        } else {
          assert h in multiset(Hashes(vs));
        }
        assert h in multiset(r.keys);
      }
    }
  }

  /** After `Add`, a position that was already on the ring and that no new virtual
      node hashes to keeps its old name: only the new hashes are written. */
  lemma {:induction false} AddKeepsOld(m: Ring, names: seq<Bytes>, h: nat)
    requires h in m.hashMap
    requires h !in Hashes(VirtualNodes(m.hash, m.replicas, names))
    ensures h in Add(m, names).hashMap && Add(m, names).hashMap[h] == m.hashMap[h]
  {
    var vs := VirtualNodes(m.hash, m.replicas, names);
    forall j | 0 <= j < |vs|
      ensures vs[j].0 != h
    {
      assert Hashes(vs)[j] == vs[j].0;
    }
    AssignUntouched(m.hashMap, vs, h);
  }

  /** After `Add`, a position written by the added names holds the name that wrote it
      last in loop order: on a hash collision the later name wins. */
  lemma {:induction false} AddLaterNameWins(m: Ring, names: seq<Bytes>, j: int)
    requires var vs := VirtualNodes(m.hash, m.replicas, names);
      0 <= j < |vs| && forall j' | j < j' < |vs| :: vs[j'].0 != vs[j].0
    ensures var vs := VirtualNodes(m.hash, m.replicas, names);
      vs[j].0 in Add(m, names).hashMap && Add(m, names).hashMap[vs[j].0] == vs[j].1
  {
    AssignLastWins(m.hashMap, VirtualNodes(m.hash, m.replicas, names), j);
  }

  /** Index `j` is the closest virtual node clockwise from `h`: the least index whose
      position is at least `h`, or index 0 when `h` is past every position. */
  predicate IsSuccessor(keys: seq<nat>, h: nat, j: int) {
    && 0 <= j < |keys|
    && ((keys[j] >= h && forall i | 0 <= i < j :: keys[i] < h)
        || (j == 0 && forall i | 0 <= i < |keys| :: keys[i] < h))
  }

  /** `sort.Search(len(keys), func(i) bool { return keys[i] >= h })` on the window [lo, hi). */
  function Search(keys: seq<nat>, h: nat, lo: nat, hi: nat): (idx: nat)
    requires Sorted(keys) && lo <= hi <= |keys|
    requires forall i | 0 <= i < lo :: keys[i] < h
    requires forall i | hi <= i < |keys| :: keys[i] >= h
    ensures lo <= idx <= hi
    ensures forall i | 0 <= i < idx :: keys[i] < h
    ensures forall i | idx <= i < |keys| :: keys[i] >= h
    decreases hi - lo
  {
    if lo < hi then
      var mid := (lo + hi) / 2;
      if keys[mid] < h then Search(keys, h, mid + 1, hi) else Search(keys, h, lo, mid)
    else lo
  }

  /** `Get`: "" on an empty ring; otherwise the real node of the first virtual node
      at or after `hash(key)`, wrapping around to the first one. */
  function Get(m: Ring, key: Bytes): (r: Bytes)
    requires Valid(m)
    ensures |m.keys| == 0 ==> r == []
    ensures |m.keys| > 0 ==>
      exists j | IsSuccessor(m.keys, m.hash(key), j) :: m.keys[j] in m.hashMap && r == m.hashMap[m.keys[j]]
    ensures |m.keys| > 0 ==> r in m.hashMap.Values
  {
    if |m.keys| == 0 then []
    else
      var h := m.hash(key);
      var idx := Search(m.keys, h, 0, |m.keys|);
      var j := idx % |m.keys|;
      WrapIsSuccessor(m.keys, h, idx);
      assert m.keys[j] in m.hashMap;
      m.hashMap[m.keys[j]]
  }

  /** The index `sort.Search` finds, taken modulo the ring size, is the successor. */
  lemma {:induction false} WrapIsSuccessor(keys: seq<nat>, h: nat, idx: nat)
    requires |keys| > 0 && idx <= |keys|
    requires forall i | 0 <= i < idx :: keys[i] < h
    requires forall i | idx <= i < |keys| :: keys[i] >= h
    ensures IsSuccessor(keys, h, idx % |keys|)
  {
    if idx == |keys| {
      assert idx % |keys| == 0;
    } else {
      assert idx % |keys| == idx;
    }
  }

  // ---------------------------------------------------------------- lemmas

  /** On a ring built by `New` and one `Add` with at least one replica, every lookup
      lands on one of the added names. */
  lemma {:induction false} GetReturnsAddedName(replicas: int, fn: Option<Hash>, names: seq<Bytes>, key: Bytes)
    requires replicas > 0 && |names| > 0
    ensures var m := Add(New(replicas, fn), names);
      Valid(m) && Get(m, key) in names
  {
    var m0 := New(replicas, fn);
    var m := Add(m0, names);
    assert |m.keys| > 0;
    var r := Get(m, key);
    var h :| h in m.hashMap && m.hashMap[h] == r;
  }
}

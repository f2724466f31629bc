/** lru/lru.go: a byte-bounded, recency-ordered key/value table.

    The Go list `ll` is the sequence `ll` here, front first: `ll[0]` is the most
    recently used entry and `ll[|ll| - 1]` the least recently used one (`ll.Back()`).
    The Go map from key to list element becomes a map from key to the value that
    element holds. The optional eviction hook is external code: the model records
    whether one is installed and returns the (key, value) pairs it is called with,
    in call order. */
module LRU {
  import opened ByteStrings
  import opened ByteViews
  import opened Wrappers

  datatype Entry = Entry(key: Bytes, value: ByteView)

  datatype Cache = Cache(
    maxBytes: int,
    nbytes: int,
    ll: seq<Entry>,
    cache: map<Bytes, ByteView>,
    onEvicted: bool)

  /** Bytes charged for one entry: `len(key) + value.Len()`. */
  function EntrySize(e: Entry): nat {
    |e.key| + e.value.Len()
  }

  /** Bytes charged for a run of entries. */
  function Size(ll: seq<Entry>): nat {
    if |ll| == 0 then 0 else EntrySize(ll[0]) + Size(ll[1..])
  }

  /** No key occurs twice in the list. */
  predicate DistinctKeys(ll: seq<Entry>) {
    forall i, j | 0 <= i < |ll| && 0 <= j < |ll| && i != j :: ll[i].key != ll[j].key
  }

  /** Every list entry is in the map with its value. */
  predicate ListInMap(ll: seq<Entry>, m: map<Bytes, ByteView>) {
    forall i | 0 <= i < |ll| :: ll[i].key in m && m[ll[i].key] == ll[i].value
  }

  /** Every map key has an entry in the list. */
  predicate MapInList(ll: seq<Entry>, m: map<Bytes, ByteView>) {
    forall k | k in m :: exists i | 0 <= i < |ll| :: ll[i].key == k
  }

  /** The representation invariant: list and map are in one-to-one correspondence
      and `nbytes` is the total charge of the entries. */
  predicate Valid(c: Cache) {
    && DistinctKeys(c.ll)
    && ListInMap(c.ll, c.cache)
    && MapInList(c.ll, c.cache)
    && c.nbytes == Size(c.ll)
  }

  /** The list with the entry for `key` taken out, everything else in order. */
  function Without(ll: seq<Entry>, key: Bytes): seq<Entry> {
    if |ll| == 0 then []
    else (if ll[0].key == key then [] else [ll[0]]) + Without(ll[1..], key)
  }

  /** Entries listed from the back of `ll` to its front. */
  function Reverse(ll: seq<Entry>): seq<Entry> {
    if |ll| == 0 then [] else [ll[|ll| - 1]] + Reverse(ll[..|ll| - 1])
  }

  // ---------------------------------------------------------------- lemmas on Size

  lemma {:induction false} SizeAppend(a: seq<Entry>, b: seq<Entry>)
    ensures Size(a + b) == Size(a) + Size(b)
    decreases |a|
  {
    if |a| == 0 {
      assert a + b == b;
    } else {
      assert (a + b)[1..] == a[1..] + b;
      SizeAppend(a[1..], b);
    }
  }

  lemma {:induction false} SizeOne(e: Entry)
    ensures Size([e]) == EntrySize(e)
  {
    assert [e][1..] == [];
  }

  /** Taking entry `i` out of the list lowers the charge by exactly that entry's size. */
  lemma {:induction false} SizeSplit(ll: seq<Entry>, i: int)
    requires 0 <= i < |ll|
    ensures Size(ll) == Size(ll[..i]) + EntrySize(ll[i]) + Size(ll[i + 1..])
  {
    assert ll == ll[..i] + ([ll[i]] + ll[i + 1..]);
    SizeAppend(ll[..i], [ll[i]] + ll[i + 1..]);
    SizeAppend([ll[i]], ll[i + 1..]);
    SizeOne(ll[i]);
  }

  lemma {:induction false} WithoutAbsent(ll: seq<Entry>, key: Bytes)
    requires forall i | 0 <= i < |ll| :: ll[i].key != key
    ensures Without(ll, key) == ll
    decreases |ll|
  {
    if |ll| > 0 {
      WithoutAbsent(ll[1..], key);
      assert [ll[0]] + ll[1..] == ll;
    }
  }

  /** With distinct keys, `Without` cuts out exactly position `i` of the key's entry. */
  lemma {:induction false} WithoutAt(ll: seq<Entry>, key: Bytes, i: int)
    requires DistinctKeys(ll)
    requires 0 <= i < |ll| && ll[i].key == key
    ensures Without(ll, key) == ll[..i] + ll[i + 1..]
    decreases i
  {
    if i == 0 {
      WithoutAbsent(ll[1..], key);
    } else {
      assert DistinctKeys(ll[1..]);
      WithoutAt(ll[1..], key, i - 1);
      assert ll[1..][..i - 1] == ll[1..i];
      assert ll[1..][i..] == ll[i + 1..];
      assert [ll[0]] + ll[1..i] == ll[..i];
    }
  }

  /** Where each entry lands when position `i` moves to the front. */
  lemma {:induction false} PromoteIndices(ll: seq<Entry>, i: int, e: Entry, ll': seq<Entry>)
    requires 0 <= i < |ll|
    requires ll' == [e] + ll[..i] + ll[i + 1..]
    ensures |ll'| == |ll| && ll'[0] == e
    ensures forall j | 1 <= j <= i :: ll'[j] == ll[j - 1]
    ensures forall j | i < j < |ll'| :: ll'[j] == ll[j]
  {
  }

  lemma {:induction false} PromoteDistinct(ll: seq<Entry>, i: int, e: Entry, ll': seq<Entry>)
    requires DistinctKeys(ll)
    requires 0 <= i < |ll| && e.key == ll[i].key
    requires |ll'| == |ll| && ll'[0] == e
    requires forall j | 1 <= j <= i :: ll'[j] == ll[j - 1]
    requires forall j | i < j < |ll'| :: ll'[j] == ll[j]
    ensures DistinctKeys(ll')
  {
  }

  lemma {:induction false} PromoteSize(ll: seq<Entry>, i: int, e: Entry, ll': seq<Entry>)
    requires 0 <= i < |ll|
    requires ll' == [e] + ll[..i] + ll[i + 1..]
    ensures Size(ll') == Size(ll) - EntrySize(ll[i]) + EntrySize(e)
  {
    SizeSplit(ll, i);
    assert ll' == [e] + (ll[..i] + ll[i + 1..]);
    SizeAppend([e], ll[..i] + ll[i + 1..]);
    SizeAppend(ll[..i], ll[i + 1..]);
    SizeOne(e);
  }

  /** Moving position `i` to the front (with a possibly new value) keeps the keys distinct
      and the charge accounting, and the rest of the list keeps its order. */
  lemma {:induction false} PromoteList(ll: seq<Entry>, i: int, e: Entry, ll': seq<Entry>)
    requires DistinctKeys(ll)
    requires 0 <= i < |ll| && e.key == ll[i].key
    requires ll' == [e] + ll[..i] + ll[i + 1..]
    ensures DistinctKeys(ll')
    ensures forall j | 1 <= j <= i :: ll'[j] == ll[j - 1]
    ensures forall j | i < j < |ll'| :: ll'[j] == ll[j]
    ensures Size(ll') == Size(ll) - EntrySize(ll[i]) + EntrySize(e)
    ensures ll' == [e] + Without(ll, e.key)
  {
    PromoteIndices(ll, i, e, ll');
    PromoteDistinct(ll, i, e, ll');
    PromoteSize(ll, i, e, ll');
    WithoutAt(ll, e.key, i);
    assert ll[..i] + ll[i + 1..] == Without(ll, e.key);
  }

  lemma {:induction false} PromoteListInMap(ll: seq<Entry>, i: int, e: Entry, ll': seq<Entry>, m: map<Bytes, ByteView>)
    requires ListInMap(ll, m)
    requires 0 <= i < |ll| && e.key == ll[i].key
    requires |ll'| == |ll| && ll'[0] == e
    requires forall j | 1 <= j <= i :: ll'[j] == ll[j - 1]
    requires forall j | i < j < |ll'| :: ll'[j] == ll[j]
    requires DistinctKeys(ll')
    ensures ListInMap(ll', m[e.key := e.value])
  {
    forall j | 0 <= j < |ll'|
      ensures ll'[j].key in m[e.key := e.value] && m[e.key := e.value][ll'[j].key] == ll'[j].value
    {
      if j > 0 {
        assert ll'[j].key != ll'[0].key;
        if j <= i {
          assert ll'[j] == ll[j - 1];
        } else {
          assert ll'[j] == ll[j];
        }
      }
    }
  }

  lemma {:induction false} PromoteMapInList(ll: seq<Entry>, i: int, e: Entry, ll': seq<Entry>, m: map<Bytes, ByteView>)
    requires MapInList(ll, m)
    requires 0 <= i < |ll| && e.key == ll[i].key
    requires |ll'| == |ll| && ll'[0] == e
    requires forall j | 1 <= j <= i :: ll'[j] == ll[j - 1]
    requires forall j | i < j < |ll'| :: ll'[j] == ll[j]
    ensures MapInList(ll', m[e.key := e.value])
  {
    var m' := m[e.key := e.value];
    forall k | k in m'
      ensures exists j | 0 <= j < |ll'| :: ll'[j].key == k
    {
      if k == e.key {
        assert ll'[0].key == k;
      } else {
        var j :| 0 <= j < |ll| && ll[j].key == k;
        if j < i {
          assert ll'[j + 1].key == k;
        } else {
          assert ll'[j].key == k;
        }
      }
    }
  }

  /** The key's entry, new value `e`, placed at the front with the rest of the list in order. */
  lemma {:induction false} PromoteValid(c: Cache, i: int, e: Entry, c': Cache)
    requires Valid(c)
    requires 0 <= i < |c.ll| && e.key == c.ll[i].key
    requires c'.ll == [e] + c.ll[..i] + c.ll[i + 1..]
    requires c'.cache == c.cache[e.key := e.value]
    requires c'.nbytes == c.nbytes - EntrySize(c.ll[i]) + EntrySize(e)
    ensures Valid(c')
    ensures c'.ll == [e] + Without(c.ll, e.key)
  {
    PromoteList(c.ll, i, e, c'.ll);
    PromoteListInMap(c.ll, i, e, c'.ll, c.cache);
    PromoteMapInList(c.ll, i, e, c'.ll, c.cache);
  }

  lemma {:induction false} PushList(ll: seq<Entry>, e: Entry, ll': seq<Entry>)
    requires DistinctKeys(ll)
    requires forall j | 0 <= j < |ll| :: ll[j].key != e.key
    requires ll' == [e] + ll
    ensures DistinctKeys(ll')
    ensures Size(ll') == Size(ll) + EntrySize(e)
    ensures ll' == [e] + Without(ll, e.key)
  {
    assert forall j | 1 <= j < |ll'| :: ll'[j] == ll[j - 1];
    SizeAppend([e], ll);
    SizeOne(e);
    WithoutAbsent(ll, e.key);
  }

  lemma {:induction false} PushMaps(ll: seq<Entry>, e: Entry, ll': seq<Entry>, m: map<Bytes, ByteView>)
    requires ListInMap(ll, m) && MapInList(ll, m) && e.key !in m
    requires ll' == [e] + ll
    ensures ListInMap(ll', m[e.key := e.value])
    ensures MapInList(ll', m[e.key := e.value])
  {
    var m' := m[e.key := e.value];
    forall j | 0 <= j < |ll'|
      ensures ll'[j].key in m' && m'[ll'[j].key] == ll'[j].value
    {
      if j > 0 {
        assert ll'[j] == ll[j - 1];
      }
    }
    forall k | k in m'
      ensures exists j | 0 <= j < |ll'| :: ll'[j].key == k
    {
      if k == e.key {
        assert ll'[0].key == k;
      } else {
        var j :| 0 <= j < |ll| && ll[j].key == k;
        assert ll'[j + 1].key == k;
      }
    }
  }

  /** A fresh key pushed on the front keeps the invariant. */
  lemma {:induction false} PushValid(c: Cache, e: Entry, c': Cache)
    requires Valid(c) && e.key !in c.cache
    requires c'.ll == [e] + c.ll
    requires c'.cache == c.cache[e.key := e.value]
    requires c'.nbytes == c.nbytes + EntrySize(e)
    ensures Valid(c')
    ensures c'.ll == [e] + Without(c.ll, e.key)
  {
    PushList(c.ll, e, c'.ll);
    PushMaps(c.ll, e, c'.ll, c.cache);
  }

  /** One turn of the eviction loop, seen on the lists: the back entry goes first. */
  lemma {:induction false} EvictStepList(ll: seq<Entry>, ll1: seq<Entry>, ll2: seq<Entry>)
    requires |ll| > 0 && ll1 == ll[..|ll| - 1]
    requires |ll2| <= |ll1| && ll2 == ll1[..|ll2|]
    ensures ll2 == ll[..|ll2|]
    ensures Reverse(ll[|ll2|..]) == [ll[|ll| - 1]] + Reverse(ll1[|ll2|..])
    ensures |ll2| < |ll1| ==> ll1[..|ll2| + 1] == ll[..|ll2| + 1]
    ensures |ll2| == |ll1| ==> ll[..|ll2| + 1] == ll
  {
    var t := ll[|ll2|..];
    assert t == ll1[|ll2|..] + [ll[|ll| - 1]];
    assert t[|t| - 1] == ll[|ll| - 1];
    assert t[..|t| - 1] == ll1[|ll2|..];
    assert Reverse(t) == [t[|t| - 1]] + Reverse(t[..|t| - 1]);
  }

  // ---------------------------------------------------------------- operations

  /** The empty cache that `New` returns. */
  function New(maxBytes: int, onEvicted: bool): (c: Cache)
    ensures Valid(c)
    ensures c.maxBytes == maxBytes && c.onEvicted == onEvicted
    ensures c.nbytes == 0 && |c.ll| == 0 && |c.cache| == 0
  {
    Cache(maxBytes, 0, [], map[], onEvicted)
  }

  /** Position of `key` in a list that holds it. */
  function IndexOf(ll: seq<Entry>, key: Bytes): (i: nat)
    requires exists j | 0 <= j < |ll| :: ll[j].key == key
    ensures i < |ll| && ll[i].key == key
  {
    if ll[0].key == key then 0
    else
      assert exists j | 0 <= j < |ll[1..]| :: ll[1..][j].key == key by {
        var j :| 0 <= j < |ll| && ll[j].key == key;
        assert ll[1..][j - 1].key == key;
      }
      1 + IndexOf(ll[1..], key)
  }

  /** `Get`: a hit returns the stored value and moves its entry to the front; a miss changes nothing. */
  function Get(c: Cache, key: Bytes): (r: (Cache, Option<ByteView>))
    requires Valid(c)
    ensures Valid(r.0)
    ensures key in c.cache ==>
      && r.1 == Some(c.cache[key])
      && r.0.ll == [Entry(key, c.cache[key])] + Without(c.ll, key)
      && r.0.cache == c.cache
      && r.0.nbytes == c.nbytes
      && r.0.maxBytes == c.maxBytes && r.0.onEvicted == c.onEvicted
    ensures key !in c.cache ==> r.1 == None && r.0 == c
  {
    if key in c.cache then
      var i := IndexOf(c.ll, key);
      var e := c.ll[i];
      var c' := c.(ll := [e] + c.ll[..i] + c.ll[i + 1..]);
      PromoteValid(c, i, e, c');
      (c', Some(e.value))
    else
      (c, None)
  }

  /** `RemoveOldest`: drops the back entry from list and map, uncharges it and
      reports it to the hook when one is installed; a no-op on an empty list. */
  function RemoveOldest(c: Cache): (r: (Cache, seq<Entry>))
    ensures |c.ll| == 0 ==> r == (c, [])
    ensures |c.ll| > 0 ==>
      var last := c.ll[|c.ll| - 1];
      && r.0.ll == c.ll[..|c.ll| - 1]
      && last.key !in r.0.cache
      && r.0.cache.Keys == c.cache.Keys - {last.key}
      && r.0.nbytes == c.nbytes - EntrySize(last)
      && r.1 == (if c.onEvicted then [last] else [])
    ensures r.0.maxBytes == c.maxBytes && r.0.onEvicted == c.onEvicted
    ensures Valid(c) ==> Valid(r.0)
  {
    if |c.ll| == 0 then (c, [])
    else
      var last := c.ll[|c.ll| - 1];
      var c' := c.(ll := c.ll[..|c.ll| - 1],
                   cache := c.cache - {last.key},
                   nbytes := c.nbytes - EntrySize(last));
      RemoveOldestValid(c, c');
      (c', if c.onEvicted then [last] else [])
  }

  /** Dropping the back entry from list, map and charge keeps the invariant. */
  lemma {:induction false} RemoveOldestValid(c: Cache, c': Cache)
    requires |c.ll| > 0
    requires c'.ll == c.ll[..|c.ll| - 1]
    requires c'.cache == c.cache - {c.ll[|c.ll| - 1].key}
    requires c'.nbytes == c.nbytes - EntrySize(c.ll[|c.ll| - 1])
    ensures Valid(c) ==> Valid(c')
  {
    if Valid(c) {
      var n := |c.ll|;
      forall k | k in c'.cache
        ensures exists j | 0 <= j < |c'.ll| :: c'.ll[j].key == k
      {
        var j :| 0 <= j < n && c.ll[j].key == k;
        assert j != n - 1;
        assert c'.ll[j].key == k;
      }
      SizeSplit(c.ll, n - 1);
      assert c.ll[n..] == [];
    }
  }

  /** `Put`: the first half of `Add` (before the eviction loop). An existing key
      gets its new value, moves to the front and is recharged by the change in
      value length only; a new key goes to the front and is charged in full. */
  function Put(c: Cache, key: Bytes, value: ByteView): (r: Cache)
    requires Valid(c)
    ensures Valid(r)
    ensures r.ll == [Entry(key, value)] + Without(c.ll, key)
    ensures r.cache == c.cache[key := value]
    ensures key in c.cache ==> r.nbytes == c.nbytes + value.Len() - c.cache[key].Len()
    ensures key !in c.cache ==> r.nbytes == c.nbytes + |key| + value.Len()
    ensures r.maxBytes == c.maxBytes && r.onEvicted == c.onEvicted
  {
    var e := Entry(key, value);
    if key in c.cache then
      var i := IndexOf(c.ll, key);
      var r := c.(ll := [e] + c.ll[..i] + c.ll[i + 1..],
                  cache := c.cache[key := value],
                  nbytes := c.nbytes + value.Len() - c.ll[i].value.Len());
      PromoteValid(c, i, e, r);
      r
    else
      var r := c.(ll := [e] + c.ll,
                  cache := c.cache[key := value],
                  nbytes := c.nbytes + |key| + value.Len());
      PushValid(c, e, r);
      r
  }

  /** What the eviction loop promises about a run that starts from `c` and ends with
      the cache `r.0` after calling the hook with `r.1`: the invariant holds; only
      entries at the back are gone; the bound holds unless it is 0; nothing goes
      when the bound is 0 or already met; the loop stops as soon as the charge fits
      (keeping one more entry would exceed the bound); the hook sees the victims
      oldest first. */
  predicate Evicted(c: Cache, r: (Cache, seq<Entry>)) {
    && Valid(r.0)
    && |r.0.ll| <= |c.ll| && r.0.ll == c.ll[..|r.0.ll|]
    && r.0.maxBytes == c.maxBytes && r.0.onEvicted == c.onEvicted
    && (c.maxBytes != 0 ==> r.0.nbytes <= c.maxBytes)
    && (c.maxBytes == 0 || c.nbytes <= c.maxBytes ==> r == (c, []))
    && (|r.0.ll| < |c.ll| ==> c.maxBytes < Size(c.ll[..|r.0.ll| + 1]))
    && r.1 == (if c.onEvicted then Reverse(c.ll[|r.0.ll|..]) else [])
  }

  /** The loop `for maxBytes != 0 && maxBytes < nbytes { RemoveOldest() }`.
      It needs `maxBytes >= 0`: with a negative bound and an empty list the Go loop
      never exits. */
  function Evict(c: Cache): (r: (Cache, seq<Entry>))
    requires Valid(c) && c.maxBytes >= 0
    ensures Evicted(c, r)
    decreases |c.ll|
  {
    if c.maxBytes != 0 && c.maxBytes < c.nbytes then
      assert |c.ll| > 0;
      var p := RemoveOldest(c);
      var q := Evict(p.0);
      EvictStep(c, p, q);
      (q.0, p.1 + q.1)
    else
      assert c.ll[|c.ll|..] == [];
      (c, [])
  }

  /** One turn of the eviction loop followed by the rest of it: if the rest keeps the
      loop's promises for the shortened cache, the whole keeps them for `c`. */
  lemma {:induction false} EvictStep(c: Cache, p: (Cache, seq<Entry>), q: (Cache, seq<Entry>))
    requires |c.ll| > 0 && c.maxBytes > 0 && c.maxBytes < c.nbytes == Size(c.ll)
    requires p.0.ll == c.ll[..|c.ll| - 1]
    requires p.0.maxBytes == c.maxBytes && p.0.onEvicted == c.onEvicted
    requires p.1 == (if c.onEvicted then [c.ll[|c.ll| - 1]] else [])
    requires Evicted(p.0, q)
    ensures Evicted(c, (q.0, p.1 + q.1))
  {
    EvictStepList(c.ll, p.0.ll, q.0.ll);
  }

  /** `Add`: `Put` followed by the eviction loop. */
  function Add(c: Cache, key: Bytes, value: ByteView): (r: (Cache, seq<Entry>))
    requires Valid(c) && c.maxBytes >= 0
    ensures Valid(r.0)
    ensures r.0.maxBytes == c.maxBytes && r.0.onEvicted == c.onEvicted
    ensures var full := [Entry(key, value)] + Without(c.ll, key);
      |r.0.ll| <= |full| && r.0.ll == full[..|r.0.ll|]
    ensures c.maxBytes != 0 ==> r.0.nbytes <= c.maxBytes
    ensures c.maxBytes == 0 ==> r.0.ll == [Entry(key, value)] + Without(c.ll, key) && r.1 == []
    ensures key in r.0.cache <==> c.maxBytes == 0 || |key| + value.Len() <= c.maxBytes
    ensures key in r.0.cache ==> r.0.cache[key] == value && r.0.ll[0] == Entry(key, value)
    ensures Evicted(Put(c, key, value), r)
  {
    var p := Put(c, key, value);
    var r := Evict(p);
    AddKeepsFitting(p, r.0, Entry(key, value));
    r
  }

  lemma {:induction false} AddKeepsFitting(p: Cache, q: Cache, e: Entry)
    requires Valid(p) && Valid(q) && p.maxBytes >= 0
    requires |p.ll| > 0 && p.ll[0] == e
    requires |q.ll| <= |p.ll| && q.ll == p.ll[..|q.ll|]
    requires q.maxBytes == p.maxBytes
    requires p.maxBytes != 0 ==> q.nbytes <= p.maxBytes
    requires p.maxBytes == 0 ==> q == p
    requires |q.ll| < |p.ll| ==> p.maxBytes < Size(p.ll[..|q.ll| + 1])
    ensures e.key in q.cache <==> p.maxBytes == 0 || EntrySize(e) <= p.maxBytes
    ensures e.key in q.cache ==> q.cache[e.key] == e.value && q.ll[0] == e
  {
    if |q.ll| == 0 {
      if p.maxBytes != 0 {
        assert p.ll[..1] == [e];
        SizeOne(e);
      }
      assert e.key !in q.cache;
    } else {
      assert q.ll[0] == e;
      SizeSplit(q.ll, 0);
    }
  }

  // ---------------------------------------------------------------- properties

  /** Right after `Add`, `Get` of the same key returns the value added, provided the
      entry fits the bound (or there is none). */
  lemma {:induction false} AddThenGet(c: Cache, key: Bytes, value: ByteView)
    requires Valid(c) && c.maxBytes >= 0
    requires c.maxBytes == 0 || |key| + value.Len() <= c.maxBytes
    ensures Get(Add(c, key, value).0, key).1 == Some(value)
  {
  }

  /** An entry larger than the whole bound pushes out everything, itself included;
      with a hook installed, the hook sees every old entry oldest first and then the
      new one. */
  lemma {:induction false} OversizedAddEmpties(c: Cache, key: Bytes, value: ByteView)
    requires Valid(c) && c.maxBytes > 0
    requires |key| + value.Len() > c.maxBytes
    ensures Add(c, key, value).0.ll == []
    ensures c.onEvicted ==>
      Add(c, key, value).1 == Reverse([Entry(key, value)] + Without(c.ll, key))
  {
    var p := Put(c, key, value);
    assert Add(c, key, value) == Evict(p);
    assert p.ll[0..] == p.ll;
  }

  /** Eviction follows recency, not insertion order. Take four distinct keys of one
      length, all holding the same value, and room for exactly three entries: add A,
      B, C, read A, then add D. The one entry pushed out is B, the least recently
      used; A survives because it was read. */
  lemma {:induction false} EvictionOrderExample(ka: Bytes, kb: Bytes, kc: Bytes, kd: Bytes, v: ByteView,
                             c1: Cache, c2: Cache, c3: Cache, c4: Cache, r: (Cache, seq<Entry>))
    requires |ka| == |kb| == |kc| == |kd| && |ka| + v.Len() > 0
    requires ka != kb && ka != kc && ka != kd && kb != kc && kb != kd && kc != kd
    requires c1 == Add(New(3 * (|ka| + v.Len()), true), ka, v).0
    requires c2 == Add(c1, kb, v).0
    requires c3 == Add(c2, kc, v).0
    requires c4 == Get(c3, ka).0
    requires r == Add(c4, kd, v)
    ensures r.1 == [Entry(kb, v)]
    ensures r.0.ll == [Entry(kd, v), Entry(ka, v), Entry(kc, v)]
  {
    FillThree(ka, kb, kc, v, c1, c2, c3);
    ReadOldestOfThree(c3, Entry(kc, v), Entry(kb, v), Entry(ka, v), ka, c4);
    EvictLastOfThree(c4, Entry(ka, v), Entry(kc, v), Entry(kb, v), kd, v, r);
  }

  /** A hooked cache holding exactly `x`, `y`, `z` (newest first) and charged up to
      its bound. */
  predicate FullOfThree(c: Cache, x: Entry, y: Entry, z: Entry) {
    && Valid(c) && c.ll == [x, y, z] && c.onEvicted
    && c.nbytes == c.maxBytes == EntrySize(x) + EntrySize(y) + EntrySize(z)
  }

  /** A hooked cache bounded by `max` holding exactly `ll` (newest first), charged `n`. */
  predicate Holding(c: Cache, ll: seq<Entry>, n: int, max: int) {
    Valid(c) && c.ll == ll && c.nbytes == n && c.maxBytes == max && c.onEvicted
  }

  /** First part of `EvictionOrderExample`: three fresh adds fill the cache exactly. */
  lemma {:induction false} FillThree(ka: Bytes, kb: Bytes, kc: Bytes, v: ByteView, c1: Cache, c2: Cache, c3: Cache)
    requires |ka| == |kb| == |kc| && |ka| + v.Len() > 0
    requires ka != kb && ka != kc && kb != kc
    requires c1 == Add(New(3 * (|ka| + v.Len()), true), ka, v).0
    requires c2 == Add(c1, kb, v).0
    requires c3 == Add(c2, kc, v).0
    ensures FullOfThree(c3, Entry(kc, v), Entry(kb, v), Entry(ka, v))
  {
    var s := |ka| + v.Len();
    FillFirst(ka, v, 3 * s, c1);
    FillSecond(c1, Entry(ka, v), kb, v, 3 * s, c2);
    FillLast(c2, Entry(kb, v), Entry(ka, v), kc, v, c3);
  }

  /** `FillThree`, first add: an empty cache takes one entry. */
  lemma {:induction false} FillFirst(key: Bytes, value: ByteView, max: int, c': Cache)
    requires |key| + value.Len() <= max
    requires c' == Add(New(max, true), key, value).0
    ensures Holding(c', [Entry(key, value)], |key| + value.Len(), max)
  {
    FreshStep(New(max, true), key, value, c');
  }

  /** `FillThree`, second add: a cache of one entry takes another with a new key. */
  lemma {:induction false} FillSecond(c: Cache, x: Entry, key: Bytes, value: ByteView, max: int, c': Cache)
    requires Holding(c, [x], EntrySize(x), max) && x.key != key
    requires EntrySize(x) + |key| + value.Len() <= max
    requires c' == Add(c, key, value).0
    ensures Holding(c', [Entry(key, value), x], EntrySize(x) + |key| + value.Len(), max)
  {
    FreshStep(c, key, value, c');
  }

  /** `FillThree`, last add: a new key taking exactly the room that is left. */
  lemma {:induction false} FillLast(c: Cache, x: Entry, y: Entry, key: Bytes, value: ByteView, c': Cache)
    requires Holding(c, [x, y], EntrySize(x) + EntrySize(y), c.maxBytes)
    requires x.key != key && y.key != key
    requires c.maxBytes == EntrySize(x) + EntrySize(y) + |key| + value.Len()
    requires c' == Add(c, key, value).0
    ensures FullOfThree(c', Entry(key, value), x, y)
  {
    assert forall i | 0 <= i < |c.ll| :: c.ll[i].key != key;
    FreshStep(c, key, value, c');
    ThreeFull(c', Entry(key, value), x, y);
  }

  /** The shape `FillLast` ends in, stated over plain facts about the cache. */
  lemma {:induction false} ThreeFull(c: Cache, x: Entry, y: Entry, z: Entry)
    requires Valid(c) && c.ll == [x] + [y, z] && c.onEvicted
    requires c.nbytes == c.maxBytes == EntrySize(y) + EntrySize(z) + EntrySize(x)
    ensures FullOfThree(c, x, y, z)
  {
    assert [x] + [y, z] == [x, y, z];
  }

  /** A step of `EvictionOrderExample`: adding a fresh key that fits. */
  lemma {:induction false} FreshStep(c: Cache, key: Bytes, value: ByteView, c': Cache)
    requires Valid(c) && c.maxBytes >= 0
    requires forall i | 0 <= i < |c.ll| :: c.ll[i].key != key
    requires c.nbytes + |key| + value.Len() <= c.maxBytes
    requires c' == Add(c, key, value).0
    ensures Valid(c') && c'.ll == [Entry(key, value)] + c.ll
    ensures c'.nbytes == c.nbytes + |key| + value.Len()
    ensures c'.maxBytes == c.maxBytes && c'.onEvicted == c.onEvicted
  {
    AddFreshFits(c, key, value);
  }

  /** A step of `EvictionOrderExample`: reading the oldest of three entries. */
  lemma {:induction false} ReadOldestOfThree(c: Cache, x: Entry, y: Entry, z: Entry, key: Bytes, c': Cache)
    requires FullOfThree(c, x, y, z) && z.key == key
    requires c' == Get(c, key).0
    ensures FullOfThree(c', z, x, y)
  {
    WithoutAt(c.ll, key, 2);
  }

  /** The last step of `EvictionOrderExample`: a full cache of three entries takes a
      fresh one of the same size by dropping its oldest. */
  lemma {:induction false} EvictLastOfThree(c: Cache, x: Entry, y: Entry, z: Entry, key: Bytes, value: ByteView,
                                            r: (Cache, seq<Entry>))
    requires FullOfThree(c, x, y, z)
    requires EntrySize(x) == EntrySize(y) == EntrySize(z) == |key| + value.Len() > 0
    requires x.key != key && y.key != key && z.key != key
    requires r == Add(c, key, value)
    ensures r.1 == [z] && r.0.ll == [Entry(key, value), x, y]
  {
    OtherThanThree(c, x, y, z, key);
    AddFreshEvictsOne(c, key, value);
  }

  /** A key none of three entries holds, seen on the list that holds them. */
  lemma {:induction false} OtherThanThree(c: Cache, x: Entry, y: Entry, z: Entry, key: Bytes)
    requires c.ll == [x, y, z]
    requires x.key != key && y.key != key && z.key != key
    ensures |c.ll| == 3 && c.ll[2] == z && c.ll[..2] == [x, y]
    ensures forall i | 0 <= i < |c.ll| :: c.ll[i].key != key
  {
  }

  /** `Put` of a key the list does not hold: it goes on the front, charged in full. */
  lemma {:induction false} PutFresh(c: Cache, key: Bytes, value: ByteView)
    requires Valid(c)
    requires forall i | 0 <= i < |c.ll| :: c.ll[i].key != key
    ensures key !in c.cache
    ensures Put(c, key, value).ll == [Entry(key, value)] + c.ll
    ensures Put(c, key, value).nbytes == c.nbytes + |key| + value.Len()
  {
    WithoutAbsent(c.ll, key);
  }

  /** Adding a new key whose charge still fits: it goes to the front and nothing is evicted. */
  lemma {:induction false} AddFreshFits(c: Cache, key: Bytes, value: ByteView)
    requires Valid(c) && c.maxBytes >= 0
    requires forall i | 0 <= i < |c.ll| :: c.ll[i].key != key
    requires c.nbytes + |key| + value.Len() <= c.maxBytes
    ensures var r := Add(c, key, value);
      && r.1 == []
      && r.0.ll == [Entry(key, value)] + c.ll
      && r.0.nbytes == c.nbytes + |key| + value.Len()
      && r.0.maxBytes == c.maxBytes && r.0.onEvicted == c.onEvicted
      && Valid(r.0)
  {
    PutFresh(c, key, value);
  }

  /** Adding a new key that overshoots the bound by no more than the oldest entry's
      charge: exactly that oldest entry is evicted. */
  lemma {:induction false} AddFreshEvictsOne(c: Cache, key: Bytes, value: ByteView)
    requires Valid(c) && c.maxBytes > 0 && |c.ll| > 0
    requires forall i | 0 <= i < |c.ll| :: c.ll[i].key != key
    requires c.maxBytes < c.nbytes + |key| + value.Len()
    requires c.nbytes + |key| + value.Len() - EntrySize(c.ll[|c.ll| - 1]) <= c.maxBytes
    ensures var r := Add(c, key, value);
      && r.1 == (if c.onEvicted then [c.ll[|c.ll| - 1]] else [])
      && r.0.ll == [Entry(key, value)] + c.ll[..|c.ll| - 1]
  {
    PutFresh(c, key, value);
    PushDropLast(Entry(key, value), c.ll);
    EvictExactlyOne(Put(c, key, value));
  }

  /** Pushing `e` on the front and then dropping the back entry, seen on sequences. */
  lemma {:induction false} PushDropLast(e: Entry, ll: seq<Entry>)
    requires |ll| > 0
    ensures ([e] + ll)[|ll|] == ll[|ll| - 1]
    ensures ([e] + ll)[..|ll|] == [e] + ll[..|ll| - 1]
  {
  }

  /** When dropping the oldest entry is enough to fit, the loop runs exactly once. */
  lemma {:induction false} EvictExactlyOne(p: Cache)
    requires Valid(p) && p.maxBytes > 0 && |p.ll| > 0
    requires p.maxBytes < p.nbytes
    requires p.nbytes - EntrySize(p.ll[|p.ll| - 1]) <= p.maxBytes
    ensures Evict(p) == RemoveOldest(p)
  {
    var (q, f) := RemoveOldest(p);
    assert Evict(q) == (q, []);
    assert f + [] == f;
  }

  /** An `Add` that leaves the charge within the bound evicts nothing. */
  lemma {:induction false} FitsNoEviction(c: Cache, key: Bytes, value: ByteView)
    requires Valid(c) && c.maxBytes >= 0
    requires Put(c, key, value).nbytes <= c.maxBytes
    ensures Add(c, key, value) == (Put(c, key, value), [])
  {
  }
}

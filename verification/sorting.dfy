/** `sort.Ints`: ascending order of a sequence of integers, as a functional insertion sort. */
module Sorting {

  predicate Sorted(s: seq<nat>) {
    forall i, j | 0 <= i < j < |s| :: s[i] <= s[j]
  }

  /** `x` placed into an ascending sequence so that it stays ascending. */
  function Insert(x: nat, s: seq<nat>): (r: seq<nat>)
    requires Sorted(s)
    ensures Sorted(r)
    ensures multiset(r) == multiset(s) + multiset{x}
    ensures |r| == |s| + 1
  {
    if |s| == 0 then [x]
    else if x <= s[0] then [x] + s
    else
      var t := Insert(x, s[1..]);
      InsertStep(x, s, t);
      [s[0]] + t
  }

  /** `x` goes after the head `s[0]`: putting the head back in front of the sorted
      insertion into the tail gives a sorted sequence with the right elements. */
  lemma {:induction false} InsertStep(x: nat, s: seq<nat>, t: seq<nat>)
    requires Sorted(s) && |s| > 0 && s[0] < x
    requires Sorted(t) && multiset(t) == multiset(s[1..]) + multiset{x}
    ensures Sorted([s[0]] + t)
    ensures multiset([s[0]] + t) == multiset(s) + multiset{x}
  {
    assert s == [s[0]] + s[1..];
    assert LowerBound(s[0], s[1..] + [x]) by {
      forall k | 0 <= k < |s[1..] + [x]|
        ensures s[0] <= (s[1..] + [x])[k]
      {
        if k < |s| - 1 {
          assert (s[1..] + [x])[k] == s[k + 1];
        }
      }
    }
    assert multiset(s[1..] + [x]) == multiset(s[1..]) + multiset{x};
    LowerBoundByMultiset(s[0], t, s[1..] + [x]);
    forall i, j | 0 <= i < j < |[s[0]] + t|
      ensures ([s[0]] + t)[i] <= ([s[0]] + t)[j]
    {
      if i > 0 {
        assert ([s[0]] + t)[i] == t[i - 1];
      }
      assert ([s[0]] + t)[j] == t[j - 1];
    }
  }

  /** Every element of `s` is at least `b`. */
  predicate LowerBound(b: nat, s: seq<nat>) {
    forall k | 0 <= k < |s| :: b <= s[k]
  }

  /** A lower bound is a property of the elements alone, not of their order. */
  lemma {:induction false} LowerBoundByMultiset(b: nat, t: seq<nat>, u: seq<nat>)
    requires multiset(t) == multiset(u) && LowerBound(b, u)
    ensures LowerBound(b, t)
  {
    forall k | 0 <= k < |t|
      ensures b <= t[k]
    {
      assert t[k] in multiset(u);
      var j :| 0 <= j < |u| && u[j] == t[k];
    }
  }

  /** An ascending permutation of `s`. */
  function Sort(s: seq<nat>): (r: seq<nat>)
    ensures Sorted(r)
    ensures multiset(r) == multiset(s)
    ensures |r| == |s|
  {
    if |s| == 0 then []
    else
      assert s == [s[0]] + s[1..];
      Insert(s[0], Sort(s[1..]))
  }

  /** Two ascending sequences with the same elements are the same sequence, so every
      correct sort gives the result `Sort` does. */
  lemma {:induction false} SortedUnique(a: seq<nat>, b: seq<nat>)
    requires Sorted(a) && Sorted(b) && multiset(a) == multiset(b)
    ensures a == b
    decreases |a|
  {
    assert |a| == |multiset(a)| == |multiset(b)| == |b|;
    if |a| > 0 {
      SameHead(a, b);
      calc {
        multiset(a[1..]);
        { assert a == [a[0]] + a[1..]; }
        multiset(a) - multiset{a[0]};
        { assert b == [b[0]] + b[1..]; }
        multiset(b[1..]);
      }
      SortedUnique(a[1..], b[1..]);
    }
  }

  lemma {:induction false} SameHead(a: seq<nat>, b: seq<nat>)
    requires Sorted(a) && Sorted(b) && multiset(a) == multiset(b)
    requires |a| > 0 && |b| > 0
    ensures a[0] == b[0]
  {
    assert a[0] in multiset(b);
    assert b[0] in multiset(a);
    var i :| 0 <= i < |b| && b[i] == a[0];
    var j :| 0 <= j < |a| && a[j] == b[0];
    assert i == 0 || b[0] <= b[i];
    assert j == 0 || a[0] <= a[j];
  }
}

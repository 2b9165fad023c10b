/**
 * Ordering vocabulary and a functional insertion sort over any total order.
 * Both `sort.Slice` (with the ranking comparator) and `sort.Strings` in the
 * source are modelled by `Sort`; since a total order admits exactly one
 * sorted arrangement of a multiset, the instability of `sort.Slice` cannot
 * show in its result (`SortedUnique`).
 */
module Sorting {

  /** `leq` is a total order: antisymmetric, transitive and total (hence reflexive). */
  ghost predicate TotalOrder<T(!new)>(leq: (T, T) -> bool) {
    && (forall a, b :: leq(a, b) && leq(b, a) ==> a == b)
    && (forall a, b, c :: leq(a, b) && leq(b, c) ==> leq(a, c))
    && (forall a, b :: leq(a, b) || leq(b, a))
  }

  /** Every earlier element is `leq` every later one. */
  predicate SortedBy<T>(s: seq<T>, leq: (T, T) -> bool) {
    forall i, j :: 0 <= i < j < |s| ==> leq(s[i], s[j])
  }

  /** No element occurs twice. */
  predicate NoDup<T(==)>(s: seq<T>) {
    forall i, j :: 0 <= i < j < |s| ==> s[i] != s[j]
  }

  /** The set of elements of a sequence. */
  function Elements<T>(s: seq<T>): set<T> {
    set x | x in s
  }

  /** `order` lists every element of `keys` exactly once: one possible iteration order of a Go map. */
  ghost predicate Enumerates<T(!new)>(order: seq<T>, keys: set<T>) {
    && NoDup(order)
    && (forall k :: k in order <==> k in keys)
  }

  /** Inserts `x` in front of the first element it is `leq` to. */
  function Insert<T(==,!new)>(x: T, s: seq<T>, leq: (T, T) -> bool): (r: seq<T>)
    requires TotalOrder(leq)
    requires SortedBy(s, leq)
    ensures |r| == |s| + 1
    ensures multiset(r) == multiset(s) + multiset{x}
    ensures SortedBy(r, leq)
  {
    if |s| == 0 then [x]
    else if leq(x, s[0]) then
      assert forall j :: 0 <= j < |s| ==> leq(x, s[j]);
      [x] + s
    else
      var tail := Insert(x, s[1..], leq);
      InsertStep(x, s, tail, leq);
      [s[0]] + tail
  }

  /** Putting the head back in front of the tail with `x` inserted keeps the order and the contents. */
  lemma InsertStep<T(!new)>(x: T, s: seq<T>, tail: seq<T>, leq: (T, T) -> bool)
    requires TotalOrder(leq)
    requires SortedBy(s, leq) && |s| > 0 && !leq(x, s[0])
    requires multiset(tail) == multiset(s[1..]) + multiset{x}
    requires SortedBy(tail, leq)
    ensures multiset([s[0]] + tail) == multiset(s) + multiset{x}
    ensures SortedBy([s[0]] + tail, leq)
  {
    assert s == [s[0]] + s[1..];
    forall k | 0 <= k < |tail|
      ensures leq(s[0], tail[k])
    {
      assert tail[k] in multiset(tail);
      if tail[k] != x {
        assert tail[k] in multiset(s[1..]);
        var j :| 0 <= j < |s[1..]| && s[1..][j] == tail[k];
        assert s[j + 1] == tail[k];
      }
    }
    var r := [s[0]] + tail;
    forall i, j | 0 <= i < j < |r|
      ensures leq(r[i], r[j])
    {
      if i > 0 {
        assert r[i] == tail[i - 1] && r[j] == tail[j - 1];
      } else {
        assert r[j] == tail[j - 1];
      }
    }
  }

  /** Insertion sort: a sorted permutation of `s`. */
  function Sort<T(==,!new)>(s: seq<T>, leq: (T, T) -> bool): (r: seq<T>)
    requires TotalOrder(leq)
    ensures |r| == |s|
    ensures multiset(r) == multiset(s)
    ensures SortedBy(r, leq)
  {
    if |s| == 0 then []
    else
      assert s == s[..|s| - 1] + [s[|s| - 1]];
      Insert(s[|s| - 1], Sort(s[..|s| - 1], leq), leq)
  }

  /** A total order admits exactly one sorted arrangement of a multiset. */
  lemma {:induction false} SortedUnique<T(!new)>(a: seq<T>, b: seq<T>, leq: (T, T) -> bool)
    requires TotalOrder(leq)
    requires SortedBy(a, leq) && SortedBy(b, leq)
    requires multiset(a) == multiset(b)
    ensures a == b
    decreases |a|
  {
    assert |a| == |multiset(a)| == |multiset(b)| == |b|;
    if |a| > 0 {
      SortedHeads(a, b, leq);
      DropHead(a, b);
      SortedUnique(a[1..], b[1..], leq);
      assert a == [a[0]] + a[1..] && b == [b[0]] + b[1..];
    }
  }

  /** Two sorted arrangements of one multiset start with the same element. */
  lemma SortedHeads<T(!new)>(a: seq<T>, b: seq<T>, leq: (T, T) -> bool)
    requires TotalOrder(leq)
    requires SortedBy(a, leq) && SortedBy(b, leq)
    requires multiset(a) == multiset(b) && |a| > 0 && |b| > 0
    ensures a[0] == b[0]
  {
    assert a[0] in multiset(b);
    var j :| 0 <= j < |b| && b[j] == a[0];
    assert leq(b[0], a[0]);
    assert b[0] in multiset(a);
    var i :| 0 <= i < |a| && a[i] == b[0];
    assert leq(a[0], b[0]);
  }

  /** Removing an equal head from two permutations leaves permutations. */
  lemma DropHead<T>(a: seq<T>, b: seq<T>)
    requires multiset(a) == multiset(b) && |a| > 0 && |b| > 0 && a[0] == b[0]
    ensures multiset(a[1..]) == multiset(b[1..])
  {
    assert a == [a[0]] + a[1..];
    assert b == [b[0]] + b[1..];
    assert multiset(a) == multiset{a[0]} + multiset(a[1..]);
    assert multiset(b) == multiset{b[0]} + multiset(b[1..]);
    forall y
      ensures multiset(a[1..])[y] == multiset(b[1..])[y]
    {
      assert multiset(a)[y] == multiset(b)[y];
    }
  }

  /** In a duplicate-free sequence every element occurs once. */
  lemma {:induction false} NoDupCount<T>(s: seq<T>, x: T)
    requires NoDup(s)
    ensures multiset(s)[x] == if x in s then 1 else 0
  {
    if |s| > 0 {
      var t := s[..|s| - 1];
      assert s == t + [s[|s| - 1]];
      assert NoDup(t);
      NoDupCount(t, x);
      assert s[|s| - 1] !in t;
    }
  }

  /** Two enumerations of the same set are permutations of each other. */
  lemma EnumerationsPermute<T(!new)>(o1: seq<T>, o2: seq<T>, keys: set<T>)
    requires Enumerates(o1, keys) && Enumerates(o2, keys)
    ensures multiset(o1) == multiset(o2)
  {
    forall x
      ensures multiset(o1)[x] == multiset(o2)[x]
    {
      NoDupCount(o1, x);
      NoDupCount(o2, x);
    }
  }

  /** A permutation of a duplicate-free sequence is duplicate-free. */
  lemma PermutationKeepsNoDup<T>(s: seq<T>, t: seq<T>)
    requires NoDup(s)
    requires multiset(s) == multiset(t)
    ensures NoDup(t)
  {
    forall i, j | 0 <= i < j < |t|
      ensures t[i] != t[j]
    {
      NoDupCount(s, t[i]);
      assert t == t[..j] + [t[j]] + t[j + 1..];
      assert t[i] in multiset(t[..j]);
    }
  }

  /** Disjoint sets: the size of the union is the sum of the sizes. */
  lemma {:induction false} DisjointUnionCard<T>(a: set<T>, b: set<T>)
    requires a !! b
    ensures |a + b| == |a| + |b|
  {
    if a != {} {
      var x :| x in a;
      DisjointUnionCard(a - {x}, b);
      assert a + b == (a - {x} + b) + {x};
    }
  }
}

/**
 * The JavaScript array and Set idioms the core is written with, as functions on
 * sequences: `filter`, `[...new Set(xs)]` (deduplication keeping first
 * occurrences) and `sort` with a comparator.
 */
module Seqs {

  /** No element occurs twice. */
  predicate NoDup<T(==)>(s: seq<T>) {
    forall i, j :: 0 <= i < j < |s| ==> s[i] != s[j]
  }

  /** `s.filter(p)`: the elements of `s` satisfying `p`, in their original order. */
  function Filter<T(!new)>(s: seq<T>, p: T -> bool): (r: seq<T>)
    ensures |r| <= |s|
    ensures forall x :: x in r <==> x in s && p(x)
  {
    if s == [] then []
    else
      var init := Filter(s[..|s| - 1], p);
      assert s == s[..|s| - 1] + [s[|s| - 1]];
      if p(s[|s| - 1]) then init + [s[|s| - 1]] else init
  }

  /** Filtering a list extended by one element extends the filtered list when that element passes. */
  lemma FilterSnoc<T(!new)>(s: seq<T>, x: T, p: T -> bool)
    ensures Filter(s + [x], p) == if p(x) then Filter(s, p) + [x] else Filter(s, p)
  {
    assert (s + [x])[..|s|] == s;
  }

  /** Filtering keeps exactly the copies of the elements that pass. */
  lemma {:induction false} FilterCount<T(!new)>(s: seq<T>, p: T -> bool)
    ensures forall x :: multiset(Filter(s, p))[x] == if p(x) then multiset(s)[x] else 0
  {
    if s != [] {
      var init := s[..|s| - 1];
      assert s == init + [s[|s| - 1]];
      FilterCount(init, p);
    }
  }

  /** Filtering commutes with permutation: reordering the input permutes the output. */
  lemma FilterPermutation<T(!new)>(xs: seq<T>, ys: seq<T>, p: T -> bool)
    requires multiset(xs) == multiset(ys)
    ensures multiset(Filter(xs, p)) == multiset(Filter(ys, p))
    ensures |Filter(xs, p)| == |Filter(ys, p)|
  {
    FilterCount(xs, p);
    FilterCount(ys, p);
    assert forall x :: multiset(Filter(xs, p))[x] == multiset(Filter(ys, p))[x];
    assert |multiset(Filter(xs, p))| == |Filter(xs, p)|;
  }

  /** Two filters with complementary predicates split the input between them. */
  lemma FilterPartition<T(!new)>(s: seq<T>, p: T -> bool, q: T -> bool)
    requires forall x :: x in s ==> (q(x) <==> !p(x))
    ensures multiset(Filter(s, p)) + multiset(Filter(s, q)) == multiset(s)
  {
    FilterCount(s, p);
    FilterCount(s, q);
    forall x
      ensures (multiset(Filter(s, p)) + multiset(Filter(s, q)))[x] == multiset(s)[x]
    {
      if x !in s {
        assert multiset(s)[x] == 0;
      }
    }
  }

  /** Two predicates that agree on the elements of `s` filter it identically. */
  lemma {:induction false} FilterCongruence<T(!new)>(s: seq<T>, p: T -> bool, q: T -> bool)
    requires forall x :: x in s ==> p(x) == q(x)
    ensures Filter(s, p) == Filter(s, q)
  {
    if s != [] {
      assert s == s[..|s| - 1] + [s[|s| - 1]];
      FilterCongruence(s[..|s| - 1], p, q);
    }
  }

  /** The position of the first occurrence of `x` in `s`. */
  function IndexOf<T(==)>(s: seq<T>, x: T): (i: nat)
    requires x in s
    ensures i < |s| && s[i] == x && x !in s[..i]
  {
    if s[0] == x then 0
    else
      assert s == [s[0]] + s[1..];
      1 + IndexOf(s[1..], x)
  }

  /** Every element of `r` occurs in `s`, and `r` lists them in the order they have in `s`. */
  predicate OrderedAsIn<T(==)>(r: seq<T>, s: seq<T>) {
    (forall x :: x in r ==> x in s) &&
    forall i, j :: 0 <= i < j < |r| ==> r[i] in s && r[j] in s && IndexOf(s, r[i]) < IndexOf(s, r[j])
  }

  lemma OrderedAsInNoDup<T>(r: seq<T>, s: seq<T>)
    requires OrderedAsIn(r, s)
    ensures NoDup(r)
  {}

  /** A filter of a list without duplicates keeps the list's order and has no duplicates. */
  lemma {:induction false} FilterOrderedAsIn<T(!new)>(s: seq<T>, p: T -> bool)
    requires NoDup(s)
    ensures OrderedAsIn(Filter(s, p), s)
    ensures NoDup(Filter(s, p))
  {
    if s != [] {
      var init := s[..|s| - 1];
      var last := s[|s| - 1];
      assert s == init + [last];
      FilterOrderedAsIn(init, p);
      var r := Filter(s, p);
      var r0 := Filter(init, p);
      assert last !in init;
      forall x | x in init
        ensures x in s && IndexOf(s, x) == IndexOf(init, x)
      {
        IndexOfPrefix(init, [last], x);
      }
      forall i, j | 0 <= i < j < |r|
        ensures r[i] in s && r[j] in s && IndexOf(s, r[i]) < IndexOf(s, r[j])
      {
        if j < |r0| {
          assert r[i] == r0[i] && r[j] == r0[j];
        } else {
          assert r[j] == last && r[i] == r0[i] && r[i] in init;
          assert IndexOf(s, last) == |init|;
        }
      }
      OrderedAsInNoDup(r, s);
    }
  }

  /** The first occurrence is the only index holding `x` with no `x` before it. */
  lemma {:induction false} IndexOfUnique<T>(s: seq<T>, x: T, i: nat)
    requires i < |s| && s[i] == x && x !in s[..i]
    ensures IndexOf(s, x) == i
  {
    if s[0] != x {
      assert s[1..][..i - 1] == s[1..i];
      IndexOfUnique(s[1..], x, i - 1);
    }
  }

  lemma IndexOfPrefix<T>(a: seq<T>, b: seq<T>, x: T)
    requires x in a
    ensures x in a + b && IndexOf(a + b, x) == IndexOf(a, x)
  {
    var i := IndexOf(a, x);
    assert (a + b)[..i] == a[..i];
    IndexOfUnique(a + b, x, i);
  }

  /** `[...new Set(s)]`: the distinct elements of `s`, each at its first occurrence. */
  function Dedup<T(==,!new)>(s: seq<T>): (r: seq<T>)
    ensures NoDup(r)
    ensures |r| <= |s|
    ensures forall x :: x in r <==> x in s
  {
    if s == [] then []
    else
      var init := Dedup(s[..|s| - 1]);
      var last := s[|s| - 1];
      assert s == s[..|s| - 1] + [last];
      if last in init then init else init + [last]
  }

  /**
   * `Dedup` keeps first occurrences: its elements are listed in the order in which
   * they first occur in `s`, as a `Set` iterates in insertion order.
   */
  lemma {:induction false} DedupOrderedAsIn<T(!new)>(s: seq<T>)
    ensures OrderedAsIn(Dedup(s), s)
  {
    if s != [] {
      var init := s[..|s| - 1];
      var last := s[|s| - 1];
      assert s == init + [last];
      DedupOrderedAsIn(init);
      var r0 := Dedup(init);
      var r := Dedup(s);
      forall x | x in init
        ensures x in s && IndexOf(s, x) == IndexOf(init, x)
      {
        IndexOfPrefix(init, [last], x);
      }
      if last !in init {
        assert r == r0 + [last];
        assert s[..|init|] == init;
        IndexOfUnique(s, last, |init|);
        forall i, j | 0 <= i < j < |r|
          ensures r[i] in s && r[j] in s && IndexOf(s, r[i]) < IndexOf(s, r[j])
        {
          if j < |r0| {
            assert r[i] == r0[i] && r[j] == r0[j];
          } else {
            assert r[j] == last && r[i] == r0[i] && r[i] in init;
          }
        }
      }
    }
  }

  /** When every distinct element lies in `s`, every element does. */
  lemma DedupAllIn<T(!new)>(xs: seq<T>, s: set<T>)
    requires forall n :: 0 <= n < |Dedup(xs)| ==> Dedup(xs)[n] in s
    ensures forall x :: x in xs ==> x in s
  {
    forall x | x in xs ensures x in s {
      var r := Dedup(xs);
      var n :| 0 <= n < |r| && r[n] == x;
    }
  }

  /** In a strictly sorted list, an element less than another comes first. */
  lemma SortedIndexOf<T(!new)>(s: seq<T>, less: (T, T) -> bool, x: T, y: T)
    requires StrictTotalOrder(less) && StrictlySorted(s, less)
    requires x in s && y in s && less(x, y)
    ensures IndexOf(s, x) < IndexOf(s, y)
  {
    var i, j := IndexOf(s, x), IndexOf(s, y);
    assert s[i] == x && s[j] == y;
  }

  /** A strict total order, as `Array.prototype.sort` requires of a consistent comparator. */
  ghost predicate StrictTotalOrder<T(!new)>(less: (T, T) -> bool) {
    (forall x :: !less(x, x)) &&
    (forall x, y, z :: less(x, y) && less(y, z) ==> less(x, z)) &&
    (forall x, y :: x != y ==> less(x, y) || less(y, x))
  }

  predicate StrictlySorted<T>(s: seq<T>, less: (T, T) -> bool) {
    forall i, j :: 0 <= i < j < |s| ==> less(s[i], s[j])
  }

  lemma StrictlySortedNoDup<T(!new)>(s: seq<T>, less: (T, T) -> bool)
    requires StrictTotalOrder(less) && StrictlySorted(s, less)
    ensures NoDup(s)
  {}

  /** Inserts `x` before the first element it is less than. */
  function Insert<T(==)>(x: T, s: seq<T>, less: (T, T) -> bool): (r: seq<T>)
    ensures multiset(r) == multiset(s) + multiset{x}
  {
    if s == [] then [x]
    else if less(x, s[0]) then [x] + s
    else
      assert s == [s[0]] + s[1..];
      [s[0]] + Insert(x, s[1..], less)
  }

  lemma {:induction false} InsertSorted<T(!new)>(x: T, s: seq<T>, less: (T, T) -> bool)
    requires StrictTotalOrder(less) && StrictlySorted(s, less) && x !in s
    ensures StrictlySorted(Insert(x, s, less), less)
  {
    if s == [] {
    } else if less(x, s[0]) {
      forall j | 0 <= j < |s| ensures less(x, s[j]) {
        if j > 0 { assert less(s[0], s[j]); }
      }
      assert Insert(x, s, less) == [x] + s;
    } else {
      assert s == [s[0]] + s[1..];
      var rest := Insert(x, s[1..], less);
      InsertSorted(x, s[1..], less);
      assert less(s[0], x);
      forall y | y in rest ensures less(s[0], y) {
        assert y in multiset(rest);
        if y != x {
          var k :| 0 <= k < |s[1..]| && s[1..][k] == y;
          assert s[k + 1] == y;
        }
      }
      assert Insert(x, s, less) == [s[0]] + rest;
    }
  }

  /** Sorting (insertion sort): a permutation of `s`, strictly ordered when `s` has no duplicates. */
  function Sort<T(==)>(s: seq<T>, less: (T, T) -> bool): (r: seq<T>)
    ensures multiset(r) == multiset(s)
    ensures |r| == |s|
  {
    if s == [] then []
    else
      assert s == [s[0]] + s[1..];
      var rest := Sort(s[1..], less);
      assert |multiset(rest)| == |rest|;
      Insert(s[0], rest, less)
  }

  lemma {:induction false} SortSorted<T(!new)>(s: seq<T>, less: (T, T) -> bool)
    requires StrictTotalOrder(less) && NoDup(s)
    ensures StrictlySorted(Sort(s, less), less)
  {
    if s != [] {
      assert s == [s[0]] + s[1..];
      var rest := Sort(s[1..], less);
      SortSorted(s[1..], less);
      assert multiset(rest)[s[0]] == 0;
      InsertSorted(s[0], rest, less);
    }
  }
}

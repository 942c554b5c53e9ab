/** Sorting a list, and what survives it: its elements, and every property of its pairs. */
module Sorting {

  ghost predicate Total<T(!new)>(leq: (T, T) -> bool) {
    forall x, y :: leq(x, y) || leq(y, x)
  }

  ghost predicate Transitive<T(!new)>(leq: (T, T) -> bool) {
    forall x, y, z :: leq(x, y) && leq(y, z) ==> leq(x, z)
  }

  ghost predicate Symmetric<T(!new)>(rel: (T, T) -> bool) {
    forall x, y :: rel(x, y) == rel(y, x)
  }

  predicate SortedBy<T>(leq: (T, T) -> bool, xs: seq<T>) {
    forall i :: 0 < i < |xs| ==> leq(xs[i - 1], xs[i])
  }

  /** Every two positions of the list are related. */
  predicate AllPairs<T>(rel: (T, T) -> bool, xs: seq<T>) {
    forall i, j :: 0 <= i < j < |xs| ==> rel(xs[i], xs[j])
  }

  function InsertBy<T>(leq: (T, T) -> bool, x: T, ys: seq<T>): seq<T> {
    if ys != [] && !leq(x, ys[0]) then [ys[0]] + InsertBy(leq, x, ys[1..]) else [x] + ys
  }

  /** What the standard library's sort returns, up to the order of equal elements. */
  function SortBy<T>(leq: (T, T) -> bool, xs: seq<T>): seq<T> {
    if xs == [] then [] else InsertBy(leq, xs[0], SortBy(leq, xs[1..]))
  }

  lemma {:induction false} InsertMembers<T>(leq: (T, T) -> bool, x: T, ys: seq<T>)
    ensures |InsertBy(leq, x, ys)| == |ys| + 1
    ensures forall y :: y in InsertBy(leq, x, ys) <==> y == x || y in ys
  {
    if ys != [] && !leq(x, ys[0]) {
      InsertMembers(leq, x, ys[1..]);
      assert ys == [ys[0]] + ys[1..];
    }
  }

  lemma {:induction false} SortMembers<T>(leq: (T, T) -> bool, xs: seq<T>)
    ensures |SortBy(leq, xs)| == |xs|
    ensures forall x :: x in SortBy(leq, xs) <==> x in xs
  {
    if xs != [] {
      SortMembers(leq, xs[1..]);
      InsertMembers(leq, xs[0], SortBy(leq, xs[1..]));
      assert xs == [xs[0]] + xs[1..];
    }
  }

  lemma {:induction false} InsertSorted<T(!new)>(leq: (T, T) -> bool, x: T, ys: seq<T>)
    requires Total(leq) && SortedBy(leq, ys)
    ensures SortedBy(leq, InsertBy(leq, x, ys))
    ensures ys != [] && !leq(x, ys[0]) ==> InsertBy(leq, x, ys)[0] == ys[0]
  {
    if ys != [] && !leq(x, ys[0]) {
      InsertSorted(leq, x, ys[1..]);
      var t := InsertBy(leq, x, ys[1..]);
      assert leq(ys[0], x);
      assert t[0] == x || (ys[1..] != [] && t[0] == ys[1]);
    }
  }

  lemma {:induction false} SortSorts<T(!new)>(leq: (T, T) -> bool, xs: seq<T>)
    requires Total(leq)
    ensures SortedBy(leq, SortBy(leq, xs))
  {
    if xs != [] {
      SortSorts(leq, xs[1..]);
      InsertSorted(leq, xs[0], SortBy(leq, xs[1..]));
    }
  }

  /** A sorted list is ordered between any two positions, not only neighbours. */
  lemma {:induction false} SortedPairs<T(!new)>(leq: (T, T) -> bool, xs: seq<T>, i: nat, j: nat)
    requires Transitive(leq) && SortedBy(leq, xs) && i < j < |xs|
    ensures leq(xs[i], xs[j])
    decreases j
  {
    if i < j - 1 {
      SortedPairs(leq, xs, i, j - 1);
      assert leq(xs[j - 1], xs[j]);
    }
  }

  lemma ConsPairs<T>(rel: (T, T) -> bool, x: T, ys: seq<T>)
    ensures AllPairs(rel, [x] + ys) <==> AllPairs(rel, ys) && forall k :: 0 <= k < |ys| ==> rel(x, ys[k])
  {
    var xs := [x] + ys;
    if AllPairs(rel, xs) {
      forall i, j | 0 <= i < j < |ys|
        ensures rel(ys[i], ys[j])
      {
        assert rel(xs[i + 1], xs[j + 1]);
      }
      forall k | 0 <= k < |ys|
        ensures rel(x, ys[k])
      {
        assert rel(xs[0], xs[k + 1]);
      }
    }
  }

  lemma Related<T>(rel: (T, T) -> bool, x: T, ys: seq<T>)
    ensures (forall k :: 0 <= k < |ys| ==> rel(x, ys[k])) <==> forall y :: y in ys ==> rel(x, y)
  {
    if forall y :: y in ys ==> rel(x, y) {
      forall k | 0 <= k < |ys|
        ensures rel(x, ys[k])
      {
        assert ys[k] in ys;
      }
    }
  }

  /** A symmetric property of pairs does not depend on where an element is inserted. */
  lemma {:induction false} InsertPairs<T(!new)>(leq: (T, T) -> bool, rel: (T, T) -> bool, x: T, ys: seq<T>)
    requires Symmetric(rel)
    ensures AllPairs(rel, InsertBy(leq, x, ys)) <==> AllPairs(rel, [x] + ys)
  {
    if ys != [] && !leq(x, ys[0]) {
      var (y, rest) := (ys[0], ys[1..]);
      assert ys == [y] + rest;
      InsertPairs(leq, rel, x, rest);
      InsertMembers(leq, x, rest);
      ConsPairs(rel, x, ys);
      ConsPairs(rel, y, rest);
      ConsPairs(rel, x, rest);
      ConsPairs(rel, y, InsertBy(leq, x, rest));
      Related(rel, x, ys);
      Related(rel, x, rest);
      Related(rel, y, rest);
      Related(rel, y, InsertBy(leq, x, rest));
      assert rel(x, y) == rel(y, x);
    }
  }

  lemma {:induction false} SortPairs<T(!new)>(leq: (T, T) -> bool, rel: (T, T) -> bool, xs: seq<T>)
    requires Symmetric(rel)
    ensures AllPairs(rel, SortBy(leq, xs)) <==> AllPairs(rel, xs)
  {
    if xs != [] {
      var (x, rest) := (xs[0], xs[1..]);
      assert xs == [x] + rest;
      var sorted := SortBy(leq, rest);
      SortPairs(leq, rel, rest);
      SortMembers(leq, rest);
      InsertPairs(leq, rel, x, sorted);
      ConsPairs(rel, x, sorted);
      ConsPairs(rel, x, rest);
      Related(rel, x, sorted);
      Related(rel, x, rest);
    }
  }

  /** Looking at neighbours after a sort finds exactly the duplicates. */
  lemma NeighboursDistinct<T(!new)>(leq: (T, T) -> bool, differ: (T, T) -> bool, xs: seq<T>, sorted: seq<T>)
    requires Total(leq) && Transitive(leq) && (forall x, y :: leq(x, y) && leq(y, x) ==> x == y)
    requires (forall x, y :: differ(x, y) <==> x != y) && sorted == SortBy(leq, xs)
    ensures (forall i :: 0 < i < |sorted| ==> sorted[i - 1] != sorted[i]) <==> AllPairs(differ, xs)
  {
    SortSorts(leq, xs);
    SortPairs(leq, differ, xs);
    if forall i :: 0 < i < |sorted| ==> sorted[i - 1] != sorted[i] {
      forall i, j | 0 <= i < j < |sorted|
        ensures differ(sorted[i], sorted[j])
      {
        ApartFromLater(leq, sorted, i, j);
      }
    }
    if AllPairs(differ, sorted) {
      forall i | 0 < i < |sorted|
        ensures sorted[i - 1] != sorted[i]
      {
        assert differ(sorted[i - 1], sorted[i]);
      }
    }
  }

  lemma ApartFromLater<T(!new)>(leq: (T, T) -> bool, s: seq<T>, i: nat, j: nat)
    requires Transitive(leq) && (forall x, y :: leq(x, y) && leq(y, x) ==> x == y) && SortedBy(leq, s)
    requires i < j < |s| && s[j - 1] != s[j]
    ensures s[i] != s[j]
  {
    var k := j - 1;
    assert leq(s[k], s[j]);
    if i < k {
      SortedPairs(leq, s, i, k);
    }
  }

  // ----- in place -----

  /** `t` is `s` rearranged: the same elements as often, and the same pairs related. */
  ghost predicate Rearranged<T(!new)>(rel: (T, T) -> bool, s: seq<T>, t: seq<T>) {
    multiset(s) == multiset(t) && (AllPairs(rel, s) <==> AllPairs(rel, t))
  }

  lemma RearrangedMembers<T(!new)>(rel: (T, T) -> bool, s: seq<T>, t: seq<T>)
    requires Rearranged(rel, s, t)
    ensures |s| == |t| && forall x :: x in s <==> x in t
  {
    assert |multiset(s)| == |s| && |multiset(t)| == |t|;
    forall x
      ensures x in s <==> x in t
    {
      assert x in multiset(s) <==> x in multiset(t);
    }
  }

  /** `t` is `s` with the elements at `i` and `j` exchanged. */
  ghost predicate Swapped<T>(s: seq<T>, t: seq<T>, i: nat, j: nat) {
    && |s| == |t| && j < |s| && i < |s|
    && t[i] == s[j] && t[j] == s[i]
    && forall k :: 0 <= k < |s| && k != i && k != j ==> t[k] == s[k]
  }

  lemma SwapPairs<T(!new)>(rel: (T, T) -> bool, s: seq<T>, t: seq<T>, i: nat, j: nat)
    requires Symmetric(rel) && Swapped(s, t, i, j) && AllPairs(rel, s)
    ensures AllPairs(rel, t)
  {
    forall a, b | 0 <= a < b < |t|
      ensures rel(t[a], t[b])
    {
      var a' := if a == i then j else if a == j then i else a;
      var b' := if b == i then j else if b == j then i else b;
      assert t[a] == s[a'] && t[b] == s[b'];
      if a' < b' {
        assert rel(s[a'], s[b']);
      } else {
        assert rel(s[b'], s[a']);
      }
    }
  }

  lemma SwapMultiset<T>(s: seq<T>, t: seq<T>, i: nat, j: nat)
    requires Swapped(s, t, i, j)
    ensures multiset(s) == multiset(t)
  {
    assert t == s[i := s[j]][j := s[i]];
  }

  lemma SwapRearranges<T(!new)>(rel: (T, T) -> bool, s: seq<T>, t: seq<T>, i: nat, j: nat)
    requires Symmetric(rel) && Swapped(s, t, i, j)
    ensures Rearranged(rel, s, t)
  {
    if AllPairs(rel, s) {
      SwapPairs(rel, s, t, i, j);
    }
    if AllPairs(rel, t) {
      SwapPairs(rel, t, s, i, j);
    }
    SwapMultiset(s, t, i, j);
  }

  /** The first `n` elements are sorted, but for the pair that ends at `except`. */
  predicate SortedBut<T>(leq: (T, T) -> bool, xs: seq<T>, n: nat, except: nat) {
    forall k :: 0 < k < n && k < |xs| && k != except ==> leq(xs[k - 1], xs[k])
  }

  /** Element `i` of `was` has moved down to `j`; the pair that ends there is the one still to look at. */
  ghost predicate Sifting<T(!new)>(leq: (T, T) -> bool, rel: (T, T) -> bool, was: seq<T>, s: seq<T>, i: nat, j: nat) {
    && j <= i < |s| && SortedBut(leq, s, i + 1, j) && Rearranged(rel, was, s)
    && (0 < j < i ==> leq(s[j - 1], s[j + 1]))
  }

  lemma SiftStart<T(!new)>(leq: (T, T) -> bool, rel: (T, T) -> bool, was: seq<T>, i: nat)
    requires 0 < i < |was| && SortedBut(leq, was, i, 0)
    ensures Sifting(leq, rel, was, was, i, i)
  {
  }

  lemma SiftNext<T(!new)>(leq: (T, T) -> bool, rel: (T, T) -> bool, was: seq<T>, s: seq<T>, t: seq<T>, i: nat, j: nat, k: nat)
    requires Total(leq) && Symmetric(rel) && Sifting(leq, rel, was, s, i, j)
    requires j == k + 1 && !leq(s[k], s[j]) && t == s[k := s[j]][j := s[k]]
    ensures Sifting(leq, rel, was, t, i, k)
  {
    assert leq(s[j], s[k]);
    SwapRearranges(rel, s, t, k, j);
    forall p | 0 < p < i + 1 && p < |t| && p != k
      ensures leq(t[p - 1], t[p])
    {
      if p != j && p != j + 1 {
        assert leq(s[p - 1], s[p]);
      }
    }
    if k > 0 {
      assert leq(s[k - 1], s[k]);
    }
  }

  lemma SiftDone<T(!new)>(leq: (T, T) -> bool, rel: (T, T) -> bool, was: seq<T>, s: seq<T>, i: nat, j: nat)
    requires Sifting(leq, rel, was, s, i, j) && (j == 0 || leq(s[j - 1], s[j]))
    ensures SortedBut(leq, s, i + 1, 0)
  {
  }

  /** The inner loop of an insertion sort: element `i` moves down into the sorted front. */
  method SiftDown<T(!new)>(a: array<T>, i: nat, leq: (T, T) -> bool, ghost rel: (T, T) -> bool)
    requires Total(leq) && Symmetric(rel)
    requires 0 < i < a.Length && SortedBut(leq, a[..], i, 0)
    modifies a
    ensures SortedBut(leq, a[..], i + 1, 0) && Rearranged(rel, old(a[..]), a[..])
  {
    ghost var was := a[..];
    SiftStart(leq, rel, was, i);
    var j := i;
    while j > 0 && !leq(a[j - 1], a[j])
      invariant Sifting(leq, rel, was, a[..], i, j)
    {
      ghost var (s, k) := (a[..], j - 1);
      a[j - 1], a[j] := a[j], a[j - 1];
      SiftNext(leq, rel, was, s, a[..], i, j, k);
      j := j - 1;
    }
    SiftDone(leq, rel, was, a[..], i, j);
  }

  /** The insertion sort of the Go implementation, which moves only what is out of order. */
  method InsertionSort<T(!new)>(a: array<T>, leq: (T, T) -> bool, ghost rel: (T, T) -> bool)
    requires Total(leq) && Symmetric(rel)
    modifies a
    ensures SortedBy(leq, a[..]) && Rearranged(rel, old(a[..]), a[..])
  {
    var i := 1;
    while i < a.Length
      invariant 1 <= i && (i <= a.Length || a.Length == 0)
      invariant SortedBut(leq, a[..], i, 0)
      invariant Rearranged(rel, old(a[..]), a[..])
    {
      SiftDown(a, i, leq, rel);
      i := i + 1;
    }
  }
}

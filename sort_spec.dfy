/** Order, permutation and counting facts about integer sequences, shared by
    the array sorts of both visualizers. */
module SortSpec {

  /** s is in ascending order */
  ghost predicate Sorted(s: seq<int>) {
    forall a, b :: 0 <= a < b < |s| ==> s[a] <= s[b]
  }

  /** v is v0 with the range lo..hi sorted: that range of v is in order and
      a permutation of v0's, and everything outside it is v0's. */
  ghost predicate SortsRange(v0: seq<int>, v: seq<int>, lo: int, hi: int) {
    0 <= lo <= hi + 1 <= |v0| == |v| &&
    Sorted(v[lo..hi + 1]) && multiset(v[lo..hi + 1]) == multiset(v0[lo..hi + 1]) &&
    v[..lo] == v0[..lo] && v[hi + 1..] == v0[hi + 1..]
  }

  /** Sequences that agree below n agree on every range below n. */
  lemma PrefixSlice(a: seq<int>, b: seq<int>, n: int, lo: int, hi: int)
    requires 0 <= lo <= hi <= n <= |a| && n <= |b| && a[..n] == b[..n]
    ensures a[lo..hi] == b[lo..hi] && a[..hi] == b[..hi]
  {
    assert a[lo..hi] == a[..n][lo..hi] && b[lo..hi] == b[..n][lo..hi];
    assert a[..hi] == a[..n][..hi] && b[..hi] == b[..n][..hi];
  }

  /** Sequences that agree from n on agree on every range from n on. */
  lemma SuffixSlice(a: seq<int>, b: seq<int>, n: int, lo: int, hi: int)
    requires 0 <= n <= lo <= hi <= |a| == |b| && a[n..] == b[n..]
    ensures a[lo..hi] == b[lo..hi] && a[lo..] == b[lo..]
  {
    forall k | lo <= k < |a| ensures a[k] == b[k] {
      assert a[k] == a[n..][k - n] && b[k] == b[n..][k - n];
    }
    assert a[lo..hi] == b[lo..hi];
    assert a[lo..] == b[lo..];
  }

  /** Sorting the whole range of v0 sorts v0. */
  lemma SortsWhole(v0: seq<int>, v: seq<int>)
    requires SortsRange(v0, v, 0, |v0| - 1)
    ensures Sorted(v) && multiset(v) == multiset(v0)
  {
    assert v[0..|v|] == v && v0[0..|v0|] == v0;
  }

  /** Every pair at distance gap inside s[..hi] is in order (gap = 1: adjacent pairs). */
  ghost predicate GapSorted(s: seq<int>, gap: int, hi: int)
    requires 0 <= gap && hi <= |s|
  {
    forall k, l :: 0 <= k && l == k + gap && l < hi ==> s[k] <= s[l]
  }

  /** Every position that has an index beyond i holds a value no larger than
      what follows it: the positions after i hold the largest values, in order. */
  ghost predicate SortedBeyond(s: seq<int>, i: int) {
    forall a, b :: 0 <= a < b < |s| && i < b ==> s[a] <= s[b]
  }

  /** Every position before i is in its final place: s[..i] holds the
      smallest values, in order. */
  ghost predicate SortedBelow(s: seq<int>, i: int) {
    forall a, b :: 0 <= a < b < |s| && a < i ==> s[a] <= s[b]
  }

  /** s with the entries at i and j exchanged */
  function Swapped(s: seq<int>, i: int, j: int): seq<int>
    requires 0 <= i < |s| && 0 <= j < |s|
  {
    s[i := s[j]][j := s[i]]
  }

  /** Number of entries of s smaller than x */
  function Below(x: int, s: seq<int>): nat {
    if s == [] then 0 else (if s[0] < x then 1 else 0) + Below(x, s[1..])
  }

  /** Number of pairs a < b with s[a] > s[b] */
  function Inversions(s: seq<int>): nat {
    if s == [] then 0 else Below(s[0], s[1..]) + Inversions(s[1..])
  }

  /** 0 + 1 + ... + (n - 1): the comparisons of n - 1 shrinking passes */
  function Tri(n: nat): nat {
    if n == 0 then 0 else Tri(n - 1) + (n - 1)
  }

  lemma {:induction false} TriClosedForm(n: nat)
    ensures 2 * Tri(n) == n * (n - 1)
  {
    if n > 0 {
      TriClosedForm(n - 1);
      assert n * (n - 1) == (n - 1) * (n - 2) + 2 * (n - 1);
    }
  }

  /** Two sorted parts of at least one element each, merged with one
      comparison per element but the last, stay within n(n-1)/2. */
  lemma {:induction false} TriMergeBound(a: nat, b: nat)
    requires a >= 1 && b >= 1
    ensures Tri(a) + Tri(b) + (a + b - 1) <= Tri(a + b)
  {
    if b > 1 {
      TriMergeBound(a, b - 1);
    }
  }

  lemma {:induction false} SortedFromChain(s: seq<int>)
    requires GapSorted(s, 1, |s|)
    ensures Sorted(s)
  {
    if |s| > 1 {
      var t := s[..|s| - 1];
      assert GapSorted(t, 1, |t|) by {
        forall k, l | 0 <= k && l == k + 1 && l < |t| ensures t[k] <= t[l] {
          assert t[k] == s[k] && t[l] == s[l];
        }
      }
      SortedFromChain(t);
      forall a, b | 0 <= a < b < |s| ensures s[a] <= s[b] {
        if b < |s| - 1 {
          assert s[a] == t[a] && s[b] == t[b];
        } else if a < |s| - 2 {
          assert s[a] == t[a] && s[|s| - 2] == t[|s| - 2];
        }
      }
    }
  }

  lemma {:induction false} BelowBound(x: int, s: seq<int>)
    ensures Below(x, s) <= |s|
    ensures (forall k :: 0 <= k < |s| ==> x <= s[k]) ==> Below(x, s) == 0
  {
    if s != [] {
      BelowBound(x, s[1..]);
      if forall k :: 0 <= k < |s| ==> x <= s[k] {
        assert forall k :: 0 <= k < |s[1..]| ==> s[1..][k] == s[k + 1];
      }
    }
  }

  /** Below(x, _) depends only on the multiset, here: on an adjacent swap. */
  lemma {:induction false} BelowSwap(x: int, s: seq<int>, j: int)
    requires 0 <= j && j + 1 < |s|
    ensures Below(x, Swapped(s, j, j + 1)) == Below(x, s)
  {
    var t := Swapped(s, j, j + 1);
    if j == 0 {
      assert t[1..][1..] == s[2..] && s[1..][1..] == s[2..];
    } else {
      assert t[1..] == Swapped(s[1..], j - 1, j);
      BelowSwap(x, s[1..], j - 1);
    }
  }

  /** Exchanging an adjacent out-of-order pair removes exactly one inversion. */
  lemma {:induction false} SwapRemovesInversion(s: seq<int>, j: int)
    requires 0 <= j && j + 1 < |s| && s[j] > s[j + 1]
    ensures Inversions(Swapped(s, j, j + 1)) + 1 == Inversions(s)
  {
    var t := Swapped(s, j, j + 1);
    if j == 0 {
      assert t[1..][1..] == s[2..] && s[1..][1..] == s[2..];
      assert t[1..] == [s[0]] + s[2..] && s[1..] == [s[1]] + s[2..];
    } else {
      assert t[1..] == Swapped(s[1..], j - 1, j);
      SwapRemovesInversion(s[1..], j - 1);
      BelowSwap(s[0], s[1..], j - 1);
    }
  }

  lemma {:induction false} SortedHasNoInversions(s: seq<int>)
    requires Sorted(s)
    ensures Inversions(s) == 0
  {
    if s != [] {
      BelowBound(s[0], s[1..]);
      SortedHasNoInversions(s[1..]);
    }
  }

  /** Bubble sort on [5, 3, 8, 1] compares 6 times and swaps 4 times. */
  lemma BubbleExample()
    ensures Tri(4) == 6 && Inversions([5, 3, 8, 1]) == 4
  {
    assert [5, 3, 8, 1][1..] == [3, 8, 1] && [3, 8, 1][1..] == [8, 1] && [8, 1][1..] == [1];
  }

  /** A sequence of n values has at most n(n-1)/2 inversions. */
  lemma {:induction false} InversionsBound(s: seq<int>)
    ensures Inversions(s) <= Tri(|s|)
  {
    if s != [] {
      BelowBound(s[0], s[1..]);
      InversionsBound(s[1..]);
    }
  }

  /** Exchanging two entries inside s[lo..hi] permutes that segment and
      leaves the rest alone. */
  lemma SwappedPermutes(s: seq<int>, i: int, j: int, lo: int, hi: int)
    requires 0 <= lo <= i < hi <= |s| && lo <= j < hi
    ensures multiset(Swapped(s, i, j)[lo..hi]) == multiset(s[lo..hi])
    ensures Swapped(s, i, j)[..lo] == s[..lo] && Swapped(s, i, j)[hi..] == s[hi..]
  {
    assert Swapped(s, i, j)[lo..hi] == Swapped(s[lo..hi], i - lo, j - lo);
  }

  /** One compare-and-swap of the adjacent entries j and j + 1: exchanged
      exactly when they are out of order. */
  function BubbleStepOf(s: seq<int>, j: int): (t: seq<int>)
    requires 0 <= j && j + 1 < |s|
    ensures |t| == |s| && t[j] <= t[j + 1] && multiset(t) == multiset(s)
    ensures forall k :: 0 <= k < |s| && k != j && k != j + 1 ==> t[k] == s[k]
    ensures s[j] <= s[j + 1] ==> t == s
  {
    if s[j] > s[j + 1] then Swapped(s, j, j + 1) else s
  }

  /** State of a bubble pass over the window s[..m] that has reached j: the
      entries beyond the window are the largest, in order, s[j] is the
      largest of s[..j + 1], and s is a permutation of the pass's input v0. */
  ghost predicate PassInv(s: seq<int>, v0: seq<int>, j: int, m: int) {
    |s| == |v0| && 0 <= j < m <= |s| && SortedBeyond(s, m - 1) &&
    (forall k :: 0 <= k < j ==> s[k] <= s[j]) && multiset(s) == multiset(v0)
  }

  /** A compare-and-swap step keeps the pass state and removes exactly the
      one inversion it exchanges. */
  lemma PassStep(s: seq<int>, v0: seq<int>, j: int, m: int)
    requires PassInv(s, v0, j, m) && j + 1 < m
    ensures PassInv(BubbleStepOf(s, j), v0, j + 1, m)
    ensures Inversions(BubbleStepOf(s, j)) + (if s[j] > s[j + 1] then 1 else 0) == Inversions(s)
  {
    if s[j] > s[j + 1] {
      SwapRemovesInversion(s, j);
    }
  }

  /** One bubble pass over v0[..m] gave v with dc comparisons and dm
      exchanges: the largest entry of v0[..m] has joined the sorted tail,
      v is a permutation of v0, the pass compared m - 1 pairs and each
      exchange removed one inversion. */
  ghost predicate Bubbled(v0: seq<int>, v: seq<int>, m: int, dc: int, dm: int) {
    |v| == |v0| && 1 <= m <= |v| && SortedBeyond(v, m - 2) && multiset(v) == multiset(v0) &&
    dc == m - 1 && dm + Inversions(v) == Inversions(v0)
  }

  /** The pass that ends with the window's maximum at m - 1 extends the
      sorted suffix by one position. */
  lemma PassDone(s: seq<int>, v0: seq<int>, m: int, dc: int, dm: int)
    requires PassInv(s, v0, m - 1, m) && dc == m - 1 && dm + Inversions(s) == Inversions(v0)
    ensures Bubbled(v0, s, m, dc, dm)
  {
  }

  ghost predicate SelectInv(s: seq<int>, v0: seq<int>, i: int) {
    |s| == |v0| && SortedBelow(s, i) && multiset(s) == multiset(v0)
  }

  /** Exchanging the minimum of s[i..] into position i extends the sorted,
      settled prefix by one position. */
  lemma SelectStep(s: seq<int>, v0: seq<int>, i: int, min: int)
    requires 0 <= i <= min < |s| && SelectInv(s, v0, i)
    requires forall k :: i <= k < |s| ==> s[min] <= s[k]
    ensures SelectInv(Swapped(s, i, min), v0, i + 1)
  {
  }

  /** A strict upper bound on every entry survives a permutation. */
  lemma BoundedStrictlyAbove(a: seq<int>, b: seq<int>, x: int)
    requires multiset(a) == multiset(b)
    requires forall k :: 0 <= k < |a| ==> a[k] < x
    ensures forall k :: 0 <= k < |b| ==> b[k] < x
  {
    forall k | 0 <= k < |b| ensures b[k] < x {
      assert b[k] in multiset(a);
      var t :| 0 <= t < |a| && a[t] == b[k];
    }
  }

  /** A lower bound on every entry survives a permutation. */
  lemma BoundedFromBelow(a: seq<int>, b: seq<int>, x: int)
    requires multiset(a) == multiset(b)
    requires forall k :: 0 <= k < |a| ==> x <= a[k]
    ensures forall k :: 0 <= k < |b| ==> x <= b[k]
  {
    forall k | 0 <= k < |b| ensures x <= b[k] {
      assert b[k] in multiset(a);
      var t :| 0 <= t < |a| && a[t] == b[k];
    }
  }

  /** Permuting the prefix s[..i] in front of a sorted suffix of the largest
      values keeps it so. */
  lemma SortedBeyondPrefixPerm(t: seq<int>, u: seq<int>, i: int)
    requires 0 <= i <= |t| == |u| && SortedBeyond(t, i - 1)
    requires u[i..] == t[i..] && multiset(u[..i]) == multiset(t[..i])
    ensures SortedBeyond(u, i - 1)
  {
    forall a, b | 0 <= a < b < |u| && i - 1 < b ensures u[a] <= u[b] {
      assert u[b] == u[i..][b - i] == t[i..][b - i] == t[b];
      if a >= i {
        assert u[a] == u[i..][a - i] == t[i..][a - i] == t[a];
      } else {
        assert u[a] == u[..i][a];
        assert u[a] in multiset(t[..i]);
        var a' :| 0 <= a' < i && t[..i][a'] == u[a];
      }
    }
  }

  /** A permutation of the prefix s[..i] that keeps s[i..] permutes s. */
  lemma PrefixPermKeepsMultiset(t: seq<int>, u: seq<int>, i: int)
    requires 0 <= i <= |t| == |u| && u[i..] == t[i..] && multiset(u[..i]) == multiset(t[..i])
    ensures multiset(u) == multiset(t)
  {
    assert t == t[..i] + t[i..] && u == u[..i] + u[i..];
  }

  /** A pivot compared with the a + b others, then the a below and the b
      above it sorted with at most a(a-1)/2 and b(b-1)/2 comparisons, stays
      within the n(n-1)/2 of n = a + b + 1 entries. */
  lemma {:induction false} TriPivotBound(a: nat, b: nat)
    ensures Tri(a) + Tri(b) + (a + b) <= Tri(a + b + 1)
  {
    if b > 0 {
      TriPivotBound(a, b - 1);
    }
  }
}

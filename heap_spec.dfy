/** Max-heap order on the prefix s[..n] of a sequence laid out as an
    implicit binary tree: the children of node k are 2k+1 and 2k+2. */
module HeapSpec {
  import opened SortSpec

  /** Node k is no smaller than each of its children that lie below n. */
  ghost predicate NodeOrdered(s: seq<int>, n: int, k: int)
    requires 0 <= k && n <= |s|
  {
    (2 * k + 1 < n ==> s[2 * k + 1] <= s[k]) && (2 * k + 2 < n ==> s[2 * k + 2] <= s[k])
  }

  /** Every node from lo to n - 1 is in heap order: the subtrees rooted at
      lo, lo + 1, ... are max-heaps. */
  ghost predicate HeapFrom(s: seq<int>, n: int, lo: int)
    requires n <= |s|
  {
    forall k :: 0 <= lo <= k < n ==> NodeOrdered(s, n, k)
  }

  /** The children of node i that lie below n are at most x. */
  ghost predicate ChildrenAtMost(s: seq<int>, n: int, i: int, x: int)
    requires 0 <= i && n <= |s|
  {
    (2 * i + 1 < n ==> s[2 * i + 1] <= x) && (2 * i + 2 < n ==> s[2 * i + 2] <= x)
  }

  /** Nodes at n/2 and beyond have no children below n, so they are heaps. */
  lemma LeavesAreHeaps(s: seq<int>, n: int)
    requires 0 <= n <= |s|
    ensures HeapFrom(s, n, n / 2)
  {
  }

  lemma {:induction false} RootDominates(s: seq<int>, n: int, k: int)
    requires n <= |s| && HeapFrom(s, n, 0) && 0 <= k < n
    ensures s[k] <= s[0]
    decreases k
  {
    if k > 0 {
      var p := (k - 1) / 2;
      assert NodeOrdered(s, n, p);
      assert k == 2 * p + 1 || k == 2 * p + 2;
      RootDominates(s, n, p);
    }
  }

  /** The root of a max-heap holds its maximum. */
  lemma HeapRootIsMax(s: seq<int>, n: int)
    requires 0 < n <= |s| && HeapFrom(s, n, 0)
    ensures forall k :: 0 <= k < n ==> s[k] <= s[0]
  {
    forall k | 0 <= k < n ensures s[k] <= s[0] {
      RootDominates(s, n, k);
    }
  }

  /** The state heapify(n, i) expects: every node from lo to n - 1 except i
      is in heap order, and when i's parent is one of those nodes, i's
      children are no larger than that parent. */
  ghost predicate HeapExcept(s: seq<int>, n: int, i: int, lo: int) {
    0 <= lo <= i < n <= |s| &&
    (forall k :: lo <= k < n && k != i ==> NodeOrdered(s, n, k)) &&
    (0 < i && lo <= (i - 1) / 2 ==> ChildrenAtMost(s, n, i, s[(i - 1) / 2]))
  }

  /** A node already no smaller than its children completes the heap. */
  lemma HeapifyStop(s: seq<int>, n: int, i: int, lo: int)
    requires HeapExcept(s, n, i, lo) && NodeOrdered(s, n, i)
    ensures HeapFrom(s, n, lo)
  {
  }

  /** Exchanging node i with its larger child c, when that child is larger
      than i, orders node i and leaves only c to repair. */
  lemma {:induction false} HeapifyStep(s: seq<int>, n: int, i: int, lo: int, c: int)
    requires HeapExcept(s, n, i, lo)
    requires (c == 2 * i + 1 || c == 2 * i + 2) && c < n && s[c] > s[i]
    requires ChildrenAtMost(s, n, i, s[c])
    ensures HeapExcept(Swapped(s, i, c), n, c, lo)
    ensures multiset(Swapped(s, i, c)[..n]) == multiset(s[..n])
    ensures Swapped(s, i, c)[n..] == s[n..]
  {
    var t := Swapped(s, i, c);
    SwappedPermutesPrefix(s, i, c, n);
    forall k | lo <= k < n && k != c ensures NodeOrdered(t, n, k) {
      if k == i {
        assert t[k] == s[c];
        assert 2 * k + 1 != c ==> t[2 * k + 1] == s[2 * k + 1];
        assert 2 * k + 2 < n && 2 * k + 2 != c ==> t[2 * k + 2] == s[2 * k + 2];
        assert t[c] == s[i];
        assert NodeOrdered(t, n, k);
      } else if 0 < i && k == (i - 1) / 2 {
        assert 2 * k + 1 == i || 2 * k + 2 == i;
        assert NodeOrdered(s, n, k) && ChildrenAtMost(s, n, i, s[k]);
        assert t[k] == s[k] && t[i] == s[c];
        assert 2 * k + 1 != i ==> t[2 * k + 1] == s[2 * k + 1];
        assert 2 * k + 2 != i && 2 * k + 2 < n ==> t[2 * k + 2] == s[2 * k + 2];
        assert NodeOrdered(t, n, k);
      } else {
        assert t[k] == s[k];
        assert NodeOrdered(s, n, k);
        assert 2 * k + 1 != i && 2 * k + 2 != i && 2 * k + 1 != c && 2 * k + 2 != c;
      }
    }
    assert NodeOrdered(s, n, c);
  }

  /** Exchanging two entries below n permutes s[..n] and keeps s[n..]. */
  lemma SwappedPermutesPrefix(s: seq<int>, i: int, j: int, n: int)
    requires 0 <= i < n <= |s| && 0 <= j < n
    ensures multiset(Swapped(s, i, j)[..n]) == multiset(s[..n])
    ensures Swapped(s, i, j)[n..] == s[n..]
  {
    assert Swapped(s, i, j)[..n] == Swapped(s[..n], i, j);
  }

  /** Before heapify(n, i) in the bottom-up build, every node above i is
      already a heap. */
  lemma BuildStep(s: seq<int>, n: int, i: int)
    requires 0 <= i < n <= |s| && HeapFrom(s, n, i + 1)
    ensures HeapExcept(s, n, i, i)
  {
  }

  /** Moving the root of the heap s[..i + 1] to position i, in front of the
      sorted largest values, extends that sorted suffix and leaves a heap of
      size i that only its root breaks. */
  lemma ExtractMax(s: seq<int>, i: int)
    requires 0 < i < |s| && HeapFrom(s, i + 1, 0) && SortedBeyond(s, i)
    ensures HeapExcept(Swapped(s, 0, i), i, 0, 0)
    ensures SortedBeyond(Swapped(s, 0, i), i - 1)
    ensures multiset(Swapped(s, 0, i)) == multiset(s)
  {
    HeapRootIsMax(s, i + 1);
    var t := Swapped(s, 0, i);
    forall k | 0 < k < i ensures NodeOrdered(t, i, k) {
      assert NodeOrdered(s, i + 1, k);
    }
  }

  /** v is v0 with a node sifted down the heap s[..n]: the nodes from lo on
      are max-heap ordered, v[..n] is a permutation of v0[..n], the rest is
      v0's, and of the dc comparisons and dm moves, each move follows at
      least one comparison and each level costs at most two. */
  ghost predicate Sifted(v0: seq<int>, v: seq<int>, n: int, lo: int, dc: int, dm: int) {
    0 <= n <= |v0| == |v| && HeapFrom(v, n, lo) &&
    multiset(v[..n]) == multiset(v0[..n]) && v[n..] == v0[n..] &&
    dm <= dc <= 2 * (dm + 1)
  }

  /** One level of the sift (one or two comparisons, then the exchange of
      node i with its child c) followed by the sift below c is a sift from
      i. */
  lemma SiftCombine(v0: seq<int>, v1: seq<int>, v: seq<int>, n: int, i: int, c: int, lo: int,
                    dc1: int, dc: int, dm: int)
    requires 0 <= i < n <= |v0| && 0 <= c < n && v1 == Swapped(v0, i, c)
    requires Sifted(v1, v, n, lo, dc, dm) && 1 <= dc1 <= 2
    ensures Sifted(v0, v, n, lo, dc1 + dc, dm + 1)
  {
    SwappedPermutesPrefix(v0, i, c, n);
  }
}

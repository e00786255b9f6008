/** The instrumented sorting engine of DSAVisualizer: seven in-place sorts
    over a fixed row of bars, each counting its comparisons and moves and
    tagging the bars it touches. Repaints and display delays are no-ops. */
module Engine {
  import opened SortSpec
  import opened MergeSpec
  import opened HeapSpec
  import opened InsertSpec
  import opened PartitionSpec
  import opened Bars
  import opened RunSpec

  class DsaVisualizer {
    /** Number of bars; fixed for the life of the visualizer. */
    const N: nat
    const bars: array<Bar>
    var comparisons: nat
    var moves: nat

    ghost predicate Valid() {
      bars.Length == N && N >= 1
    }

    /** The values of the bars, position by position. */
    ghost function Vals(): seq<int>
      reads bars
    {
      Values(bars[..])
    }

    /** Bars below i are tagged GREEN. */
    ghost predicate GreenBelow(i: int)
      reads bars
    {
      forall k :: 0 <= k < i && k < bars.Length ==> bars[k].color == Green
    }

    /** Bars from i on are tagged GREEN. */
    ghost predicate GreenFrom(i: int)
      reads bars
    {
      forall k :: 0 <= k && i <= k < bars.Length ==> bars[k].color == Green
    }

    /** Positions l..i-1 of the bars hold the values tv written over the
        snapshot b; the rest are the snapshot's. */
    ghost predicate WrittenBack(b: seq<Bar>, tv: seq<int>, l: int, i: int)
      reads bars
    {
      |b| == bars.Length && 0 <= l <= i && i - l <= |tv| &&
      forall t :: 0 <= t < bars.Length ==> bars[t] == if l <= t < i then b[t].(value := tv[t - l]) else b[t]
    }

    ghost predicate AllGreen()
      reads bars
    {
      forall k :: 0 <= k < bars.Length ==> bars[k].color == Green
    }

    /** A visualizer over the given starting values, all tagged BLUE. */
    constructor (values: seq<int>)
      requires |values| >= 1
      ensures Valid() && fresh(bars) && N == |values|
      ensures Vals() == values
      ensures forall k :: 0 <= k < N ==> bars[k].color == Blue
      ensures comparisons == 0 && moves == 0
    {
      N := |values|;
      bars := new Bar[|values|](k requires 0 <= k < |values| => Bar(values[k], Blue));
      comparisons, moves := 0, 0;
    }

    /* ---------------- primitives ---------------- */

    /** Exchanges bars i and j (value and tag) and counts one move. */
    method Swap(i: int, j: int)
      requires Valid() && 0 <= i < N && 0 <= j < N
      modifies bars, this`moves
      ensures bars[i] == old(bars[j]) && bars[j] == old(bars[i])
      ensures forall k :: 0 <= k < N && k != i && k != j ==> bars[k] == old(bars[k])
      ensures Vals() == Swapped(old(Vals()), i, j)
      ensures moves == old(moves) + 1
    {
      var temp := bars[i];
      bars[i] := bars[j];
      bars[j] := temp;
      moves := moves + 1;
    }

    /** Tags bars i and j RED; bar j keeps an ORANGE tag. Indices outside
        the row are ignored. */
    method HighlightCompare(i: int, j: int)
      requires Valid()
      modifies bars
      ensures 0 <= i < N ==> bars[i] == old(bars[i]).(color := Red)
      ensures 0 <= j < N && j != i ==>
                bars[j] == if old(bars[j].color) != Orange then old(bars[j]).(color := Red) else old(bars[j])
      ensures forall k :: 0 <= k < N && k != i && k != j ==> bars[k] == old(bars[k])
      ensures Vals() == old(Vals())
    {
      if 0 <= i < bars.Length {
        bars[i] := bars[i].(color := Red);
      }
      if 0 <= j < bars.Length && bars[j].color != Orange {
        bars[j] := bars[j].(color := Red);
      }
      assert Vals() == old(Vals());
    }

    /** Tags bars i and j BLUE, except one tagged ORANGE. Indices outside
        the row are ignored. */
    method ResetColor(i: int, j: int)
      requires Valid()
      modifies bars
      ensures forall k :: 0 <= k < N && (k == i || k == j) ==>
                bars[k] == if old(bars[k].color) != Orange then old(bars[k]).(color := Blue) else old(bars[k])
      ensures forall k :: 0 <= k < N && k != i && k != j ==> bars[k] == old(bars[k])
      ensures Vals() == old(Vals())
    {
      if 0 <= i < bars.Length && bars[i].color != Orange {
        bars[i] := bars[i].(color := Blue);
      }
      if 0 <= j < bars.Length && bars[j].color != Orange {
        bars[j] := bars[j].(color := Blue);
      }
      assert Vals() == old(Vals());
    }

    /** Zeroes both counters and tags every bar BLUE. */
    method ResetStats()
      requires Valid()
      modifies this`comparisons, this`moves, bars
      ensures comparisons == 0 && moves == 0
      ensures forall k :: 0 <= k < N ==> bars[k] == old(bars[k]).(color := Blue)
      ensures Vals() == old(Vals())
    {
      comparisons, moves := 0, 0;
      for k := 0 to N
        invariant comparisons == 0 && moves == 0
        invariant forall t :: 0 <= t < k ==> bars[t] == old(bars[t]).(color := Blue)
        invariant forall t :: k <= t < N ==> bars[t] == old(bars[t])
      {
        bars[k] := bars[k].(color := Blue);
      }
      assert Vals() == old(Vals());
    }

    /** Tags bar k with c, leaving every value where it was. */
    method Tag(k: int, c: Color)
      requires Valid() && 0 <= k < N
      modifies bars
      ensures bars[k] == old(bars[k]).(color := c)
      ensures forall t :: 0 <= t < N && t != k ==> bars[t] == old(bars[t])
      ensures Vals() == old(Vals())
    {
      ValuesUpdate(bars[..], k, bars[k].(color := c));
      bars[k] := bars[k].(color := c);
    }

    /** Tags every bar GREEN, leaving every value where it was. */
    method TagAllGreen()
      requires Valid()
      modifies bars
      ensures AllGreen() && Vals() == old(Vals())
    {
      for k := 0 to N
        invariant Vals() == old(Vals())
        invariant forall t :: 0 <= t < k ==> bars[t].color == Green
      {
        Tag(k, Green);
      }
    }

    /* ---------------- bubble sort ---------------- */

    /** State of pass i of bubble sort at j, with hi = N - i: the maximum of
        bars[..j + 1] is at j, bars[hi..] are sorted and GREEN, and the
        counters grew by j comparisons and one move per inversion removed
        since the counts c and m. */
    ghost predicate Passing(v0: seq<int>, j: int, hi: int, c: int, m: int)
      reads this, bars
    {
      Valid() && PassInv(Vals(), v0, j, hi) && GreenFrom(hi) &&
      comparisons == c + j && moves + Inversions(Vals()) == m + Inversions(v0)
    }

    /** One step of a bubble pass: bars j and j + 1 are compared and
        swapped when out of order. */
    method CompareAdjacent(j: int, ghost v0: seq<int>, ghost hi: int, ghost c: int, ghost m: int)
      requires Passing(v0, j, hi, c, m) && j + 1 < hi
      modifies this`comparisons, this`moves, bars
      ensures Vals() == BubbleStepOf(old(Vals()), j)
      ensures Passing(v0, j + 1, hi, c, m)
    {
      PassStep(Vals(), v0, j, hi);
      HighlightCompare(j, j + 1);
      comparisons := comparisons + 1;
      if bars[j].value > bars[j + 1].value {
        Swap(j, j + 1);
      }
      ResetColor(j, j + 1);
    }

    /** Pass i of bubble sort: carries the maximum of bars[..N - i] to
        position N - i - 1. */
    method BubblePass(i: int)
      requires Valid() && 0 <= i < N
      requires SortedBeyond(Vals(), N - 1 - i) && GreenFrom(N - i)
      modifies this`comparisons, this`moves, bars
      ensures Bubbled(old(Vals()), Vals(), N - i, comparisons - old(comparisons), moves - old(moves))
      ensures GreenFrom(N - i)
    {
      ghost var v0 := Vals();
      var j := 0;
      while j < N - i - 1
        invariant 0 <= j <= N - i - 1
        invariant Passing(v0, j, N - i, old(comparisons), old(moves))
      {
        CompareAdjacent(j, v0, N - i, old(comparisons), old(moves));
        j := j + 1;
      }
      PassDone(Vals(), v0, N - i, comparisons - old(comparisons), moves - old(moves));
    }

    /** Bubble sort: N passes of adjacent compare-and-swap over a shrinking
        window; the bar each pass settles is tagged GREEN. It compares
        exactly N(N-1)/2 times and swaps once per inversion of its input. */
    method BubbleSort()
      requires Valid()
      modifies this`comparisons, this`moves, bars
      ensures Sorted(Vals()) && multiset(Vals()) == old(multiset(Vals()))
      ensures comparisons == old(comparisons) + Tri(N)
      ensures moves == old(moves) + Inversions(old(Vals()))
      ensures AllGreen()
    {
      ghost var v0 := Vals();
      var i := 0;
      while i < N
        invariant 0 <= i <= N
        invariant SortedBeyond(Vals(), N - 1 - i)
        invariant multiset(Vals()) == multiset(v0)
        invariant comparisons + Tri(N - i) == old(comparisons) + Tri(N)
        invariant moves + Inversions(Vals()) == old(moves) + Inversions(v0)
        invariant GreenFrom(N - i)
      {
        BubblePass(i);
        Tag(N - i - 1, Green);
        i := i + 1;
      }
      SortedHasNoInversions(Vals());
    }

    /* ---------------- selection sort ---------------- */

    /** The scan of selection sort's pass i: the position of the first
        minimum of bars[i..], compared against each later bar once. */
    method SelectionScan(i: int) returns (min: int)
      requires Valid() && 0 <= i < N - 1
      modifies this`comparisons, bars
      ensures i <= min < N && forall k :: i <= k < N ==> Vals()[min] <= Vals()[k]
      ensures forall k :: i <= k < min ==> Vals()[k] > Vals()[min]
      ensures Vals() == old(Vals())
      ensures comparisons == old(comparisons) + (N - 1 - i)
      ensures forall k :: 0 <= k < i ==> bars[k] == old(bars[k])
    {
      ghost var v0 := Vals();
      min := i;
      for j := i + 1 to N
        invariant i <= min < j
        invariant Vals() == v0
        invariant forall k :: i <= k < j ==> v0[min] <= v0[k]
        invariant forall k :: i <= k < min ==> v0[k] > v0[min]
        invariant comparisons == old(comparisons) + (j - i - 1)
        invariant forall k :: 0 <= k < i ==> bars[k] == old(bars[k])
      {
        HighlightCompare(min, j);
        comparisons := comparisons + 1;
        if bars[j].value < bars[min].value {
          min := j;
        }
        ResetColor(min, j);
      }
    }

    /** Pass i of selection sort: the minimum of bars[i..] is swapped into
        position i, which is tagged GREEN. */
    method SelectionPass(i: int, ghost v0: seq<int>)
      requires Valid() && 0 <= i < N - 1 && SelectInv(Vals(), v0, i) && GreenBelow(i)
      modifies this`comparisons, this`moves, bars
      ensures SelectInv(Vals(), v0, i + 1) && GreenBelow(i + 1)
      ensures comparisons == old(comparisons) + (N - 1 - i) && moves == old(moves) + 1
    {
      var min := SelectionScan(i);
      SelectStep(Vals(), v0, i, min);
      Swap(i, min);
      Tag(i, Green);
    }

    /** Selection sort: N - 1 passes, each swapping the minimum of the
        unsorted rest into place, even when it is already there. It compares
        exactly N(N-1)/2 times and swaps exactly N - 1 times. */
    method SelectionSort()
      requires Valid()
      modifies this`comparisons, this`moves, bars
      ensures Sorted(Vals()) && multiset(Vals()) == old(multiset(Vals()))
      ensures comparisons == old(comparisons) + Tri(N)
      ensures moves == old(moves) + (N - 1)
      ensures AllGreen()
    {
      ghost var v0 := Vals();
      for i := 0 to N - 1
        invariant SelectInv(Vals(), v0, i) && GreenBelow(i)
        invariant comparisons + Tri(N - i) == old(comparisons) + Tri(N)
        invariant moves == old(moves) + i
      {
        SelectionPass(i, v0);
      }
      Tag(N - 1, Green);
    }

    /* ---------------- insertion and shell sort ---------------- */

    /** One shift of insertion or shell sort: bar from is copied over bar
        to, counting one comparison and one move. */
    method Shift(from: int, to: int)
      requires Valid() && 0 <= from < N && 0 <= to < N && from != to
      modifies this`comparisons, this`moves, bars
      ensures Vals() == old(Vals())[to := old(Vals())[from]]
      ensures comparisons == old(comparisons) + 1 && moves == old(moves) + 1
      ensures forall k :: 0 <= k < N && k != from && k != to ==> bars[k] == old(bars[k])
    {
      HighlightCompare(from, to);
      comparisons := comparisons + 1;
      ValuesUpdate(bars[..], to, bars[from]);
      bars[to] := bars[from];
      moves := moves + 1;
      ResetColor(from, to);
    }

    /** State of the insertion of key into the gap-sorted chain below
        position i, with the hole at h: the row with the key dropped into
        the hole is w, a permutation of v0, and since the counts c and m the
        comparisons and moves grew together, one each per shift. */
    ghost predicate HoleState(gap: int, i: int, h: int, key: int, w: seq<int>, v0: seq<int>, c: int, m: int)
      reads this, bars
    {
      Valid() && |w| == N && HoleInv(gap, i, h, key, w, v0, Vals(), comparisons - c, moves - m)
    }

    /** One shift of the key's insertion: the larger bar at h - gap moves up
        into the hole at h, which moves down one gap. */
    method ShiftHole(gap: int, i: int, h: int, key: int, ghost w: seq<int>, ghost v0: seq<int>, ghost c: int, ghost m: int)
      returns (ghost w2: seq<int>)
      requires HoleState(gap, i, h, key, w, v0, c, m) && gap <= h && bars[h - gap].value > key
      modifies this`comparisons, this`moves, bars
      ensures HoleState(gap, i, h - gap, key, w2, v0, c, m)
      ensures w[h - gap] > key && w2 == Swapped(w, h - gap, h) && moves == old(moves) + 1
    {
      ghost var v, dc, dm := Vals(), comparisons - c, moves - m;
      Shift(h - gap, h);
      w2 := Swapped(w, h - gap, h);
      HoleStep(gap, i, h, key, w, v0, v, dc, dm, Vals(), w2);
    }

    /** One shift of insertion sort, which also pays for one inversion. */
    method ShiftAdjacent(i: int, h: int, key: int, ghost w: seq<int>, ghost v0: seq<int>, ghost c: int, ghost m: int)
      returns (ghost w2: seq<int>)
      requires HoleState(1, i, h, key, w, v0, c, m) && InversionsPaid(v0, w, moves - m)
      requires 1 <= h && bars[h - 1].value > key
      modifies this`comparisons, this`moves, bars
      ensures HoleState(1, i, h - 1, key, w2, v0, c, m) && InversionsPaid(v0, w2, moves - m)
    {
      ghost var dm := moves - m;
      w2 := ShiftHole(1, i, h, key, w, v0, c, m);
      ShiftPays(v0, w, dm, h);
    }

    /** End of the key's insertion: once the bar below the hole is no
        larger than the key, or there is none, the key is stored in the
        hole and the chain through i is gap-sorted. */
    method DropKey(gap: int, i: int, h: int, key: Bar, ghost w: seq<int>, ghost v0: seq<int>, ghost c: int, ghost m: int)
      requires HoleState(gap, i, h, key.value, w, v0, c, m) && (h < gap || bars[h - gap].value <= key.value)
      modifies bars
      ensures Vals() == w && KeyInserted(gap, i, v0, Vals(), comparisons - c, moves - m)
      ensures bars[h] == key && forall k :: 0 <= k < N && k != h ==> bars[k] == old(bars[k])
    {
      ghost var v := Vals();
      ValuesUpdate(bars[..], h, key);
      bars[h] := key;
      HoleDone(gap, i, h, key.value, w, v0, v, comparisons - c, moves - m, Vals());
    }

    /** Pass i of insertion sort: bar i is inserted into the sorted
        bars[..i], one shift per larger bar it passes. */
    method InsertKey(i: int)
      requires Valid() && 1 <= i < N && GapSorted(Vals(), 1, i)
      modifies this`comparisons, this`moves, bars
      ensures KeyInserted(1, i, old(Vals()), Vals(), comparisons - old(comparisons), moves - old(moves))
      ensures InversionsPaid(old(Vals()), Vals(), moves - old(moves))
    {
      ghost var v0, c0, m0 := Vals(), comparisons, moves;
      var key := bars[i];
      var j := i - 1;
      ghost var w := Vals();
      HoleStart(1, i, w);
      while j >= 0 && bars[j].value > key.value
        invariant -1 <= j < i
        invariant HoleState(1, i, j + 1, key.value, w, v0, c0, m0) && InversionsPaid(v0, w, moves - m0)
      {
        w := ShiftAdjacent(i, j + 1, key.value, w, v0, c0, m0);
        j := j - 1;
      }
      DropKey(1, i, j + 1, key, w, v0, c0, m0);
      assert KeyInserted(1, i, v0, Vals(), comparisons - c0, moves - m0);
    }

    /** Insertion sort. The comparison that ends each shift loop is not
        counted, so comparisons and moves both grow by the number of shifts,
        which is the number of inversions of the input. */
    method InsertionSort()
      requires Valid()
      modifies this`comparisons, this`moves, bars
      ensures Sorted(Vals()) && multiset(Vals()) == old(multiset(Vals()))
      ensures comparisons == old(comparisons) + Inversions(old(Vals()))
      ensures moves == old(moves) + Inversions(old(Vals()))
    {
      ghost var v0 := Vals();
      for i := 1 to N
        invariant GapSorted(Vals(), 1, i) && multiset(Vals()) == multiset(v0)
        invariant moves + Inversions(Vals()) == old(moves) + Inversions(v0)
        invariant comparisons - old(comparisons) == moves - old(moves)
      {
        InsertKey(i);
      }
      SortedFromChain(Vals());
      SortedHasNoInversions(Vals());
    }

    /** Gap insertion of bar i into its chain bars[i - gap], bars[i - 2 gap], ... */
    method GapInsert(gap: int, i: int)
      requires Valid() && 1 <= gap <= i < N && GapSorted(Vals(), gap, i)
      modifies this`comparisons, this`moves, bars
      ensures KeyInserted(gap, i, old(Vals()), Vals(), comparisons - old(comparisons), moves - old(moves))
    {
      ghost var v0, c0, m0 := Vals(), comparisons, moves;
      var temp := bars[i];
      var j := i;
      ghost var w := Vals();
      HoleStart(gap, i, w);
      assert HoleState(gap, i, j, temp.value, w, v0, c0, m0);
      while j >= gap && bars[j - gap].value > temp.value
        invariant 0 <= j <= i
        invariant HoleState(gap, i, j, temp.value, w, v0, c0, m0)
      {
        w := ShiftHole(gap, i, j, temp.value, w, v0, c0, m0);
        j := j - gap;
      }
      DropKey(gap, i, j, temp, w, v0, c0, m0);
    }

    /** Shell sort with gaps N/2, N/4, ..., 1; the last pass is an insertion
        sort. Comparisons and moves grow together, one each per shift. */
    method ShellSort()
      requires Valid()
      modifies this`comparisons, this`moves, bars
      ensures Sorted(Vals()) && multiset(Vals()) == old(multiset(Vals()))
      ensures comparisons - old(comparisons) == moves - old(moves)
      ensures AllGreen()
    {
      ghost var v0 := Vals();
      var gap := N / 2;
      while gap > 0
        invariant 0 <= gap <= N
        invariant gap == 0 ==> Sorted(Vals())
        invariant multiset(Vals()) == multiset(v0)
        invariant comparisons - old(comparisons) == moves - old(moves)
      {
        for i := gap to N
          invariant GapSorted(Vals(), gap, i) && multiset(Vals()) == multiset(v0)
          invariant comparisons - old(comparisons) == moves - old(moves)
        {
          GapInsert(gap, i);
        }
        if gap == 1 {
          SortedFromChain(Vals());
        }
        gap := gap / 2;
      }
      TagAllGreen();
    }

    /* ---------------- merge sort ---------------- */

    /** State of the first merge loop of merge(l, m, r) at heads i and j:
        the values are still v0; the buffer holds the k entries out taken
        so far, which with the c comparisons made so far are a prefix of the
        merge of the runs a0 and b0v; bars outside l-1..r are the snapshot
        b0's. */
    ghost predicate MergingHeads(l: int, m: int, r: int, temp: array<int>, i: int, j: int, k: int, v0: seq<int>,
                                 a0: seq<int>, b0v: seq<int>, out: seq<int>, c: int, b0: seq<Bar>)
      reads bars, temp
    {
      Valid() && 0 <= l <= i <= m + 1 <= j <= r + 1 <= N && temp.Length == r + 1 - l && Vals() == v0 &&
      k == (i - l) + (j - m - 1) == |out| && (forall t :: 0 <= t < k ==> temp[t] == out[t]) && KeptOutside(b0, bars[..], l - 1, r) &&
      MergeState(a0, b0v, v0[i..m + 1], v0[j..r + 1], out, c)
    }

    /** One round of the first merge loop: the heads i and j are highlighted
        and compared, the smaller one (the left one on a tie) goes to
        temp[k], and the two bars just behind the new heads are reset. Only
        tags change in the row, and only inside l - 1..r. */
    method PickHead(l: int, r: int, temp: array<int>, i: int, j: int, k: int) returns (i2: int, j2: int)
      requires Valid() && 0 <= l <= i < j <= r < N && 0 <= k < temp.Length
      modifies this`comparisons, bars, temp
      ensures comparisons == old(comparisons) + 1 && Vals() == old(Vals())
      ensures if Vals()[i] <= Vals()[j] then i2 == i + 1 && j2 == j && temp[k] == Vals()[i]
              else i2 == i && j2 == j + 1 && temp[k] == Vals()[j]
      ensures forall t :: 0 <= t < temp.Length && t != k ==> temp[t] == old(temp[t])
      ensures forall t :: 0 <= t < N && (t < l - 1 || r < t) ==> bars[t] == old(bars[t])
    {
      HighlightCompare(i, j);
      comparisons := comparisons + 1;
      if bars[i].value <= bars[j].value {
        temp[k] := bars[i].value;
        i2, j2 := i + 1, j;
      } else {
        temp[k] := bars[j].value;
        i2, j2 := i, j + 1;
      }
      ResetColor(i2 - 1, j2 - 1);
    }

    /** PickHead as a step of the merge: the head taken extends the merged
        output, and the merge state is kept. */
    method TakeHead(l: int, m: int, r: int, temp: array<int>, i: int, j: int, k: int, ghost v0: seq<int>,
                    ghost a0: seq<int>, ghost b0v: seq<int>, ghost out: seq<int>, ghost c0: int, ghost b0: seq<Bar>)
      returns (i2: int, j2: int, k2: int, ghost out2: seq<int>)
      requires MergingHeads(l, m, r, temp, i, j, k, v0, a0, b0v, out, comparisons - c0, b0) && i <= m && j <= r
      modifies this`comparisons, bars, temp
      ensures MergingHeads(l, m, r, temp, i2, j2, k2, v0, a0, b0v, out2, comparisons - c0, b0)
      ensures if v0[i] <= v0[j] then i2 == i + 1 && j2 == j else i2 == i && j2 == j + 1
    {
      ghost var c := comparisons - c0;
      i2, j2 := PickHead(l, r, temp, i, j, k);
      k2 := k + 1;
      if v0[i] <= v0[j] {
        out2 := out + [v0[i]];
        MergeTakeLeftAt(a0, b0v, v0, i, m, j, r, out, c, out2, comparisons - c0);
      } else {
        out2 := out + [v0[j]];
        MergeTakeRightAt(a0, b0v, v0, i, m, j, r, out, c, out2, comparisons - c0);
      }
    }

    /** The first merge loop: while both runs bars[l..m] and bars[m+1..r]
        last, the smaller head (the left one on a tie) goes to the buffer,
        one comparison each. It stops at heads i and j, one run used up,
        having written the entries out. */
    method MergeHeads(l: int, m: int, r: int, temp: array<int>) returns (i: int, j: int, k: int, ghost out: seq<int>)
      requires Valid() && 0 <= l <= m <= r < N && temp.Length == r + 1 - l
      modifies this`comparisons, bars, temp
      ensures i > m || j > r
      ensures MergingHeads(l, m, r, temp, i, j, k, old(Vals()), old(Vals()[l..m + 1]), old(Vals()[m + 1..r + 1]),
                           out, comparisons - old(comparisons), old(bars[..]))
    {
      ghost var v0, b0 := Vals(), bars[..];
      ghost var a0, b0v := v0[l..m + 1], v0[m + 1..r + 1];
      ghost var c0 := comparisons;
      out := [];
      i, j, k := l, m + 1, 0;
      MergeStart(a0, b0v);
      while i <= m && j <= r
        invariant MergingHeads(l, m, r, temp, i, j, k, v0, a0, b0v, out, comparisons - c0, b0)
        decreases (m + 1 - i) + (r + 1 - j)
      {
        i, j, k, out := TakeHead(l, m, r, temp, i, j, k, v0, a0, b0v, out, c0, b0);
      }
    }

    /** The loops of merge(l, m, r) that fill the buffer: the runs
        bars[l..m] and bars[m+1..r] merged, one comparison per head taken
        while both runs last, then the rest of the other run copied. Only
        tags change in the row. */
    method MergeIntoBuffer(l: int, m: int, r: int) returns (temp: array<int>)
      requires Valid() && 0 <= l <= m <= r < N
      modifies this`comparisons, bars
      ensures fresh(temp) && temp.Length == r + 1 - l
      ensures temp[..] == Merged(old(Vals()[l..m + 1]), old(Vals()[m + 1..r + 1]))
      ensures comparisons ==
                old(comparisons) + MergeComparisons(old(Vals()[l..m + 1]), old(Vals()[m + 1..r + 1]))
      ensures Vals() == old(Vals()) && KeptOutside(old(bars[..]), bars[..], l - 1, r)
    {
      temp := new int[r - l + 1];
      var i, j, k;
      ghost var out;
      i, j, k, out := MergeHeads(l, m, r, temp);
      ghost var a, b := old(Vals())[i..m + 1], old(Vals())[j..r + 1];
      assert temp[..k] == out;
      MergeDone(old(Vals()[l..m + 1]), old(Vals()[m + 1..r + 1]), a, b, out, comparisons - old(comparisons));
      k := CopyRun(temp, k, i, m + 1);
      assert temp[..k] == out + a;
      k := CopyRun(temp, k, j, r + 1);
    }

    /** A drain loop of merge: the values of bars[lo..hi - 1] copied into
        the buffer from position k on; returns the next free position. */
    method CopyRun(temp: array<int>, k: int, lo: int, hi: int) returns (t: int)
      requires Valid() && 0 <= lo <= hi <= N && 0 <= k && k + (hi - lo) <= temp.Length
      modifies temp
      ensures t == k + (hi - lo)
      ensures temp[..] == old(temp[..k]) + Vals()[lo..hi] + old(temp[t..])
    {
      var i := lo;
      t := k;
      while i < hi
        invariant lo <= i <= hi && t == k + (i - lo)
        invariant forall p :: 0 <= p < temp.Length && !(k <= p < t) ==> temp[p] == old(temp[p])
        invariant forall p :: k <= p < t ==> temp[p] == Vals()[lo + (p - k)]
      {
        temp[t] := bars[i].value;
        i, t := i + 1, t + 1;
      }
      assert temp[..] == old(temp[..k]) + Vals()[lo..hi] + old(temp[t..]);
    }

    /** The write-back of merge(l, m, r): bars[l..r] take the buffered
        values, keeping their tags. */
    method WriteBack(l: int, r: int, temp: array<int>)
      requires Valid() && 0 <= l <= r < N && temp.Length == r + 1 - l
      modifies bars
      ensures Vals()[l..r + 1] == temp[..]
      ensures Vals()[..l] == old(Vals()[..l]) && Vals()[r + 1..] == old(Vals()[r + 1..])
      ensures forall t :: l <= t <= r ==> bars[t].color == old(bars[t].color)
      ensures KeptOutside(old(bars[..]), bars[..], l, r)
    {
      ghost var b1 := bars[..];
      var i := l;
      while i <= r
        invariant l <= i <= r + 1
        invariant WrittenBack(b1, temp[..], l, i)
      {
        bars[i] := bars[i].(value := temp[i - l]);
        i := i + 1;
      }
      WriteBackValues(b1, bars[..], temp[..], l, r);
    }

    /** Merges the sorted runs bars[l..m] and bars[m+1..r] through a
        temporary buffer, then writes the values back. Ties take the left
        run; only the values of bars[l..r] change, moves are not counted. */
    method Merge(l: int, m: int, r: int)
      requires Valid() && 0 <= l <= m <= r < N
      modifies this`comparisons, bars
      ensures MergedRun(old(Vals()), Vals(), old(comparisons), comparisons, old(bars[..]), bars[..], l, m, r)
    {
      var temp := MergeIntoBuffer(l, m, r);
      WriteBack(l, r, temp);
      assert KeptOutside(old(bars[..]), bars[..], l - 1, r);
    }

    /** Top-down merge sort of bars[l..r] with midpoint (l + r) / 2. It
        compares at most n(n-1)/2 times for n bars and counts no moves. */
    method MergeSort(l: int, r: int)
      requires Valid() && 0 <= l <= r + 1 <= N
      modifies this`comparisons, bars
      ensures SortedRun(old(Vals()), Vals(), old(comparisons), comparisons, old(bars[..]), bars[..], l, r, l - 1)
      decreases r - l
    {
      if l < r {
        ghost var v0, c0, b0 := Vals(), comparisons, bars[..];
        var m := (l + r) / 2;
        MergeSort(l, m);
        ghost var v1, c1, b1 := Vals(), comparisons, bars[..];
        MergeSort(m + 1, r);
        ghost var v2, c2, b2 := Vals(), comparisons, bars[..];
        Merge(l, m, r);
        MergeSortCombine(v0, v1, v2, Vals(), c0, c1, c2, comparisons, b0, b1, b2, bars[..], l, m, r);
      } else {
        SortedRunShort(Vals(), comparisons, bars[..], l, r, l - 1);
      }
    }

    /* ---------------- quick sort ---------------- */

    /** State of the partition scan of bars[low..high] at j: PartitionInv
        holds of the values, bars outside low..high are the snapshot b0's,
        and since the counts c0 and m0 the scan has made one comparison per
        scanned bar and one move per bar sent to the lower side. */
    ghost predicate Partitioning(v0: seq<int>, b0: seq<Bar>, low: int, high: int, i: int, j: int, pivot: int,
                                 c0: int, m0: int)
      reads this, bars
    {
      Valid() && PartitionInv(Vals(), v0, low, high, i, j, pivot) && KeptOutside(b0, bars[..], low, high) &&
      comparisons == c0 + (j - low) && moves == m0 + (i + 1 - low)
    }

    /** One scan step of the partition: bar j is compared with the pivot and,
        if smaller, swapped to the end of the lower side. */
    method ComparePivot(i: int, j: int, high: int, pivot: int) returns (next: int)
      requires Valid() && -1 <= i < j < high < N
      modifies this`comparisons, this`moves, bars
      ensures Vals() == if old(Vals()[j]) < pivot then Swapped(old(Vals()), i + 1, j) else old(Vals())
      ensures next == if old(Vals()[j]) < pivot then i + 1 else i
      ensures comparisons == old(comparisons) + 1 && moves == old(moves) + (next - i)
      ensures forall k :: 0 <= k < N && k != i + 1 && k != j && k != high ==> bars[k] == old(bars[k])
    {
      HighlightCompare(j, high);
      comparisons := comparisons + 1;
      next := i;
      if bars[j].value < pivot {
        next := i + 1;
        Swap(next, j);
      }
      ResetColor(j, high);
    }

    /** ComparePivot keeps the partition scan's state and advances it by one
        bar. */
    method ScanStep(i: int, j: int, high: int, pivot: int,
                    ghost low: int, ghost v0: seq<int>, ghost b0: seq<Bar>, ghost c0: int, ghost m0: int)
      returns (next: int)
      requires Partitioning(v0, b0, low, high, i, j, pivot, c0, m0) && j < high
      modifies this`comparisons, this`moves, bars
      ensures Partitioning(v0, b0, low, high, next, j + 1, pivot, c0, m0)
    {
      ghost var s := Vals();
      next := ComparePivot(i, j, high, pivot);
      PartitionStep(s, v0, low, high, i, j, pivot);
    }

    /** End of the partition: the pivot is exchanged into position i + 1,
        just above the lower side, and tagged BLUE. */
    method PlacePivot(low: int, high: int, i: int, pivot: int,
                      ghost v0: seq<int>, ghost b0: seq<Bar>, ghost c0: int, ghost m0: int)
      returns (p: int)
      requires Partitioning(v0, b0, low, high, i, high, pivot, c0, m0)
      modifies this`moves, bars
      ensures Partitioned(v0, Vals(), low, high, p) && KeptOutside(b0, bars[..], low, high)
      ensures comparisons == c0 + (high - low) && moves == m0 + (p - low) + 1
      ensures bars[p].color == Blue
    {
      PartitionDone(Vals(), v0, low, high, i, pivot);
      Swap(i + 1, high);
      Tag(i + 1, Blue);
      p := i + 1;
    }

    /** Lomuto partition of bars[low..high] around the last bar, which is
        tagged ORANGE while the scan runs and BLUE once it is placed. */
    method Partition(low: int, high: int) returns (p: int)
      requires Valid() && 0 <= low <= high < N
      modifies this`comparisons, this`moves, bars
      ensures PartitionedRun(old(Vals()), Vals(), old(comparisons), comparisons, old(moves), moves,
                             old(bars[..]), bars[..], low, high, p)
      ensures bars[p].color == Blue
    {
      ghost var v0, b0, c0, m0 := Vals(), bars[..], comparisons, moves;
      var pivot := bars[high].value;
      Tag(high, Orange);
      var i := low - 1;
      PartitionStart(v0, low, high);
      assert Vals() == v0;
      assert Partitioning(v0, b0, low, high, i, low, pivot, c0, m0);
      for j := low to high
        invariant Partitioning(v0, b0, low, high, i, j, pivot, c0, m0)
      {
        i := ScanStep(i, j, high, pivot, low, v0, b0, c0, m0);
      }
      p := PlacePivot(low, high, i, pivot, v0, b0, c0, m0);
      assert KeptOutside(b0, bars[..], low, high);
    }

    /** Quick sort of bars[low..high]; it compares at most n(n-1)/2 times for
        n bars. */
    method QuickSort(low: int, high: int)
      requires Valid() && 0 <= low <= high + 1 <= N
      modifies this`comparisons, this`moves, bars
      ensures SortedRun(old(Vals()), Vals(), old(comparisons), comparisons, old(bars[..]), bars[..], low, high, low)
      decreases high + 1 - low, 1
    {
      if low < high {
        var p := Partition(low, high);
        SortSides(low, p, high, old(Vals()), old(comparisons), old(moves), old(bars[..]));
      } else {
        SortedRunShort(Vals(), comparisons, bars[..], low, high, low);
      }
    }

    /** The two recursive calls of quick sort, after the partition took the
        values v0, counts c0 and m0 and bars b0 to the current ones with the
        pivot at p. */
    method SortSides(low: int, p: int, high: int,
                     ghost v0: seq<int>, ghost c0: int, ghost m0: int, ghost b0: seq<Bar>)
      requires Valid()
      requires PartitionedRun(v0, Vals(), c0, comparisons, m0, moves, b0, bars[..], low, high, p)
      requires high < N
      modifies this`comparisons, this`moves, bars
      ensures SortedRun(v0, Vals(), c0, comparisons, b0, bars[..], low, high, low)
      decreases high + 1 - low, 0
    {
      ghost var v1, c1, m1, b1 := Vals(), comparisons, moves, bars[..];
      QuickSort(low, p - 1);
      ghost var v2, c2, b2 := Vals(), comparisons, bars[..];
      QuickSort(p + 1, high);
      QuickSortCombine(v0, v1, v2, Vals(), c0, c1, c2, comparisons, m0, m1, b0, b1, b2, bars[..], low, p, high);
    }

    /* ---------------- heap sort ---------------- */

    /** One child test of heapify: when c lies inside the heap bars[..n],
        it is compared with the current largest and becomes the largest if
        strictly larger. Only bars from i on are retagged. */
    method CompareChild(c: int, n: int, largest: int, ghost i: int) returns (next: int)
      requires Valid() && 0 <= i <= largest < n <= N && i <= c
      modifies this`comparisons, bars
      ensures Vals() == old(Vals())
      ensures c < n ==> next == (if Vals()[c] > Vals()[largest] then c else largest)
      ensures c < n ==> comparisons == old(comparisons) + 1
      ensures n <= c ==> next == largest && comparisons == old(comparisons)
      ensures KeptOutside(old(bars[..]), bars[..], i, n - 1)
    {
      next := largest;
      if c < n {
        HighlightCompare(c, largest);
        comparisons := comparisons + 1;
        if bars[c].value > bars[largest].value {
          next := c;
        }
        ResetColor(c, next);
      }
    }

    /** The first half of heapify(n, i): the largest of node i and its
        children below n, one comparison per child. A child replaces the
        current largest only when strictly larger, so ties keep node i, then
        the left child. Only tags change, and only inside i..n - 1. */
    method LargestOf(n: int, i: int) returns (largest: int)
      requires Valid() && 0 <= i < n <= N
      modifies this`comparisons, bars
      ensures Vals() == old(Vals())
      ensures largest == i || ((largest == 2 * i + 1 || largest == 2 * i + 2) && largest < n && Vals()[largest] > Vals()[i])
      ensures ChildrenAtMost(Vals(), n, i, Vals()[largest])
      ensures largest == 2 * i + 2 && 2 * i + 1 < n ==> Vals()[2 * i + 2] > Vals()[2 * i + 1]
      ensures comparisons == old(comparisons) + (if 2 * i + 1 < n then 1 else 0) + (if 2 * i + 2 < n then 1 else 0)
      ensures KeptOutside(old(bars[..]), bars[..], i, n - 1)
    {
      ghost var b0 := bars[..];
      largest := i;
      var l := 2 * i + 1;
      var r := 2 * i + 2;
      largest := CompareChild(l, n, largest, i);
      ghost var b1 := bars[..];
      largest := CompareChild(r, n, largest, i);
      KeptOutsideTrans(b0, b1, bars[..], i, n - 1, i, n - 1, i, n - 1);
    }

    /** Sifts bar i down the max-heap bars[..n]: the larger child, when
        larger than i, is swapped up and the sift continues below it. Only
        bars i..n-1 are touched; each swap follows at least one comparison
        and each level costs at most two. */
    method Heapify(n: int, i: int, ghost lo: int)
      requires Valid() && n <= N && HeapExcept(Vals(), n, i, lo)
      modifies this`comparisons, this`moves, bars
      ensures Sifted(old(Vals()), Vals(), n, lo, comparisons - old(comparisons), moves - old(moves))
      ensures KeptOutside(old(bars[..]), bars[..], i, n - 1)
      decreases n - i
    {
      ghost var v0, b0, c0, m0 := Vals(), bars[..], comparisons, moves;
      var largest := LargestOf(n, i);
      if largest != i {
        ghost var b2 := bars[..];
        Swap(i, largest);
        HeapifyStep(v0, n, i, lo, largest);
        ghost var v3, b3, c3, m3 := Vals(), bars[..], comparisons, moves;
        assert KeptOutside(b2, b3, i, n - 1);
        Heapify(n, largest, lo);
        SiftCombine(v0, v3, Vals(), n, i, largest, lo, c3 - c0, comparisons - c3, moves - m3);
        KeptOutsideTrans(b0, b2, b3, i, n - 1, i, n - 1, i, n - 1);
        KeptOutsideTrans(b0, b3, bars[..], i, n - 1, i, n - 1, largest, n - 1);
      } else {
        HeapifyStop(v0, n, i, lo);
      }
    }

    /** State of the heap build before heapify(N, i): the subtrees rooted
        above i are max-heaps, the values are a permutation of v0, and no
        more moves than comparisons were made since the counts c0 and m0. */
    ghost predicate Building(i: int, v0: seq<int>, c0: int, m0: int)
      reads this, bars
    {
      Valid() && -1 <= i < N && HeapFrom(Vals(), N, i + 1) && multiset(Vals()) == multiset(v0) &&
      moves - m0 <= comparisons - c0
    }

    /** One step of the heap build: bar i is sifted down. */
    method SiftNode(i: int, ghost v0: seq<int>, ghost c0: int, ghost m0: int)
      requires Building(i, v0, c0, m0) && i >= 0
      modifies this`comparisons, this`moves, bars
      ensures Building(i - 1, v0, c0, m0)
    {
      BuildStep(Vals(), N, i);
      ghost var t := Vals();
      Heapify(N, i, i);
      assert t[..N] == t && Vals()[..N] == Vals();
    }

    /** State of the extraction phase before extracting into position i:
        bars[..i + 1] is a max-heap, the bars after i hold the largest
        values in order and are GREEN, the values are a permutation of v0,
        and the moves exceed the comparisons by at most one per extraction
        since the counts c0 and m0. */
    ghost predicate Extracting(i: int, v0: seq<int>, c0: int, m0: int)
      reads this, bars
    {
      Valid() && 0 <= i < N && HeapFrom(Vals(), i + 1, 0) && SortedBeyond(Vals(), i) &&
      multiset(Vals()) == multiset(v0) && GreenFrom(i + 1) &&
      moves - m0 <= comparisons - c0 + (N - 1 - i)
    }

    /** One extraction: the root, the largest of bars[..i + 1], is swapped
        to position i and tagged GREEN, and the new root is sifted down the
        heap bars[..i]. */
    method ExtractRoot(i: int, ghost v0: seq<int>, ghost c0: int, ghost m0: int)
      requires Extracting(i, v0, c0, m0) && i > 0
      modifies this`comparisons, this`moves, bars
      ensures Extracting(i - 1, v0, c0, m0)
    {
      ExtractMax(Vals(), i);
      Swap(0, i);
      Tag(i, Green);
      ghost var t, b1 := Vals(), bars[..];
      Heapify(i, 0, 0);
      SortedBeyondPrefixPerm(t, Vals(), i);
      PrefixPermKeepsMultiset(t, Vals(), i);
      assert forall k :: i <= k < N ==> bars[k] == b1[k];
    }

    /** Heap sort: bottom-up max-heap build, then N - 1 extractions of the
        root to the end of the shrinking heap, each tagged GREEN. */
    method HeapSort()
      requires Valid()
      modifies this`comparisons, this`moves, bars
      ensures Sorted(Vals()) && multiset(Vals()) == old(multiset(Vals()))
      ensures moves - old(moves) <= comparisons - old(comparisons) + (N - 1)
      ensures AllGreen()
    {
      ghost var v0, c0, m0 := Vals(), comparisons, moves;
      var n := bars.Length;
      LeavesAreHeaps(Vals(), n);
      var i := n / 2 - 1;
      assert Building(i, v0, c0, m0);
      while i >= 0
        invariant Building(i, v0, c0, m0)
      {
        SiftNode(i, v0, c0, m0);
        i := i - 1;
      }
      i := n - 1;
      assert Extracting(i, v0, c0, m0);
      while i > 0
        invariant Extracting(i, v0, c0, m0)
      {
        ExtractRoot(i, v0, c0, m0);
        i := i - 1;
      }
      Tag(0, Green);
    }

    /* ---------------- dispatch ---------------- */

    /** Runs algorithm a over the bars: it ends with the values sorted and
        the counters grown as the algorithm promises. */
    method RunSort(a: Algorithm)
      requires Valid()
      modifies this`comparisons, this`moves, bars
      ensures Promised(a, old(Vals()), Vals(), comparisons - old(comparisons), moves - old(moves))
    {
      match a {
        case Bubble => BubbleSort();
        case Selection => SelectionSort();
        case Insertion => InsertionSort();
        case Merge =>
          MergeSort(0, N - 1);
          SortsWhole(old(Vals()), Vals());
        case Quick =>
          QuickSort(0, N - 1);
          SortsWhole(old(Vals()), Vals());
        case Heap => HeapSort();
        case Shell => ShellSort();
      }
    }

    /** Runs the algorithm the menu label names, from zeroed counters, then
        tags every bar GREEN. An unknown label sorts nothing. */
    method StartSort(name: string)
      requires Valid()
      modifies this`comparisons, this`moves, bars
      ensures AllGreen()
      ensures ParseAlgorithm(name).None? ==> Vals() == old(Vals()) && comparisons == 0 && moves == 0
      ensures forall a :: ParseAlgorithm(name) == Some(a) ==> Promised(a, old(Vals()), Vals(), comparisons, moves)
    {
      ResetStats();
      match ParseAlgorithm(name) {
        case Some(a) => RunSort(a);
        case None =>
      }
      TagAllGreen();
    }
  }
}

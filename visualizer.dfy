/** The stand-alone bubble sort panel: a row of ints sorted in place by
    exchanging adjacent entries that are out of order. Repaints and display
    delays are no-ops. */
module Panel {
  import opened SortSpec

  class Visualizer {
    const data: array<int>

    /** A panel over the given starting values. */
    constructor (values: seq<int>)
      ensures fresh(data) && data[..] == values
    {
      data := new int[|values|](k requires 0 <= k < |values| => values[k]);
    }

    /** One step of a pass: data[j] and data[j + 1] are exchanged exactly
        when they are out of order. */
    method CompareAdjacent(j: int, ghost v0: seq<int>, ghost hi: int)
      requires PassInv(data[..], v0, j, hi) && j + 1 < hi
      modifies data
      ensures data[..] == BubbleStepOf(old(data[..]), j)
      ensures PassInv(data[..], v0, j + 1, hi)
    {
      PassStep(data[..], v0, j, hi);
      if data[j] > data[j + 1] {
        var temp := data[j];
        data[j] := data[j + 1];
        data[j + 1] := temp;
      }
    }

    /** Pass i: carries the maximum of data[..N - i] to position N - i - 1,
        so the last i + 1 positions hold the largest values in order. */
    method BubblePass(i: int)
      requires 0 <= i < data.Length && SortedBeyond(data[..], data.Length - 1 - i)
      modifies data
      ensures SortedBeyond(data[..], data.Length - 2 - i)
      ensures multiset(data[..]) == old(multiset(data[..]))
    {
      ghost var v0 := data[..];
      var j := 0;
      while j < data.Length - i - 1
        invariant 0 <= j <= data.Length - i - 1
        invariant PassInv(data[..], v0, j, data.Length - i)
      {
        CompareAdjacent(j, v0, data.Length - i);
        j := j + 1;
      }
    }

    /** Bubble sort: data ends sorted ascending, a permutation of its
        starting values. */
    method BubbleSort()
      modifies data
      ensures Sorted(data[..]) && multiset(data[..]) == old(multiset(data[..]))
    {
      for i := 0 to data.Length
        invariant SortedBeyond(data[..], data.Length - 1 - i)
        invariant multiset(data[..]) == old(multiset(data[..]))
      {
        BubblePass(i);
      }
    }
  }
}

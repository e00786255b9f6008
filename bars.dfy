/** The records the visualizer sorts, the algorithm menu, and the
    closed-form operation count it displays. */
module Bars {
  import opened SortSpec

  datatype Option<T> = None | Some(value: T)

  /** Display tag of a bar: BLUE default, RED being compared, ORANGE the
      quick-sort pivot, GREEN in its final place. */
  datatype Color = Blue | Red | Orange | Green

  /** One bar: the sorted value and its display tag. */
  datatype Bar = Bar(value: int, color: Color)

  /** The values of a row of bars, position by position. */
  function Values(s: seq<Bar>): seq<int> {
    seq(|s|, k requires 0 <= k < |s| => s[k].value)
  }

  /** Storing a bar at k changes the values at k only. */
  lemma ValuesUpdate(s: seq<Bar>, k: int, b: Bar)
    requires 0 <= k < |s|
    ensures Values(s[k := b]) == Values(s)[k := b.value]
  {
  }

  /** Writing the values tv into positions l..r of b1 gives b2: the values
      of b2 there are tv and elsewhere those of b1. */
  lemma WriteBackValues(b1: seq<Bar>, b2: seq<Bar>, tv: seq<int>, l: int, r: int)
    requires 0 <= l <= r + 1 <= |b1| == |b2| && |tv| == r + 1 - l
    requires forall t :: 0 <= t < |b2| ==> b2[t] == if l <= t <= r then b1[t].(value := tv[t - l]) else b1[t]
    ensures Values(b2)[l..r + 1] == tv
    ensures Values(b2)[..l] == Values(b1)[..l] && Values(b2)[r + 1..] == Values(b1)[r + 1..]
  {
  }

  /** The row c is the row b outside positions lo..hi. */
  ghost predicate KeptOutside(b: seq<Bar>, c: seq<Bar>, lo: int, hi: int) {
    |b| == |c| && forall k :: 0 <= k < |b| && (k < lo || hi < k) ==> c[k] == b[k]
  }

  /** Two changes inside lo..hi make one change inside lo..hi. */
  lemma KeptOutsideTrans(a: seq<Bar>, b: seq<Bar>, c: seq<Bar>, lo: int, hi: int, lo1: int, hi1: int, lo2: int, hi2: int)
    requires KeptOutside(a, b, lo1, hi1) && KeptOutside(b, c, lo2, hi2)
    requires lo <= lo1 && hi1 <= hi && lo <= lo2 && hi2 <= hi
    ensures KeptOutside(a, c, lo, hi)
  {
  }

  /** The seven entries of the algorithm menu. */
  datatype Algorithm = Bubble | Selection | Insertion | Merge | Quick | Heap | Shell

  /** The menu label of each algorithm, as the dispatch compares it. */
  function Name(a: Algorithm): string {
    match a
    case Bubble => "Bubble Sort"
    case Selection => "Selection Sort"
    case Insertion => "Insertion Sort"
    case Merge => "Merge Sort"
    case Quick => "Quick Sort"
    case Heap => "Heap Sort"
    case Shell => "Shell Sort"
  }

  /** The algorithm a label selects, if any. */
  function ParseAlgorithm(name: string): (r: Option<Algorithm>)
    ensures forall a :: r == Some(a) <==> Name(a) == name
  {
    if name == "Bubble Sort" then Some(Bubble)
    else if name == "Selection Sort" then Some(Selection)
    else if name == "Insertion Sort" then Some(Insertion)
    else if name == "Merge Sort" then Some(Merge)
    else if name == "Quick Sort" then Some(Quick)
    else if name == "Heap Sort" then Some(Heap)
    else if name == "Shell Sort" then Some(Shell)
    else None
  }

  /** The integer part of the displayed "pattern equation" for n bars: an
      exact count for bubble and selection sort only (the other entries are
      floating-point estimates or text). */
  function PatternEquation(a: Algorithm, n: nat): (r: Option<int>)
    ensures r.Some? <==> a == Bubble || a == Selection
    ensures r.Some? ==> r.value == Tri(n)
  {
    TriClosedForm(n);
    match a
    case Bubble | Selection => Some(n * (n - 1) / 2)
    case _ => None
  }

  /** What each algorithm promises for a run over the values v0 that ends
      with the values v after c comparisons and m moves: v is v0 sorted,
      and the counters are exact (bubble, selection, insertion), bounded by
      n(n-1)/2 (merge, quick) or tied to each other (heap, shell). */
  ghost predicate Promised(a: Algorithm, v0: seq<int>, v: seq<int>, c: int, m: int) {
    Sorted(v) && multiset(v) == multiset(v0) &&
    match a
    case Bubble => c == Tri(|v0|) && m == Inversions(v0)
    case Selection => c == Tri(|v0|) && m == |v0| - 1
    case Insertion => c == m == Inversions(v0)
    case Merge => c <= Tri(|v0|) && m == 0
    case Quick => c <= Tri(|v0|)
    case Heap => m <= c + (|v0| - 1)
    case Shell => c == m
  }

  /** For the two algorithms with an exact pattern equation, the count it
      displays is the number of comparisons the run makes; the run makes
      one comparison per unordered pair of bars. */
  lemma PatternEquationCounts(a: Algorithm, v0: seq<int>, v: seq<int>, c: int, m: int)
    requires Promised(a, v0, v, c, m) && PatternEquation(a, |v0|).Some?
    ensures c == PatternEquation(a, |v0|).value
    ensures 2 * c == |v0| * (|v0| - 1)
  {
    TriClosedForm(|v0|);
  }
}

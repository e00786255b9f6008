# Sorting visualizers: the counting sort engine and the bubble-sort panel

The repository holds two Swing programs that animate sorting. This project
models the parts of them that move data.

- `DSAVisualizer` keeps a row of `N` bars. Each bar has an integer value and a
  colour tag. The program offers seven in-place sorts: bubble, selection,
  insertion, merge, quick, heap and shell. Each sort counts its `comparisons`
  and `moves` and retags the bars it works on:
  - `highlightCompare` tags the compared bars RED;
  - `resetColor` tags them BLUE again, except an ORANGE quick-sort pivot;
  - bubble, selection and heap sort tag each bar GREEN as it settles;
  - shell sort tags every bar GREEN itself when it finishes;
  - insertion, merge and quick sort leave the GREEN tagging to `startSort`;
  - selection sort, merge, partition and heapify can leave a compared bar RED,
    because they reset a different pair than the one they highlighted.

  `startSort` zeroes the counters, runs the algorithm named by the menu label
  and then tags every bar GREEN. `evaluatePatternEquation`
  shows a closed-form operation count for the chosen algorithm.
- `Visualizer` is a panel over an `int[]` that it sorts with plain bubble
  sort.

The Dafny model is split into these modules:

- `Engine` has the class `DsaVisualizer`. Its fields are `bars`, an
  `array<Bar>`, and the counters `comparisons` and `moves`. Each Java method
  is a Dafny method over that state, and each loop keeps its own loop.
- `Panel` has the class `Visualizer` over `data: array<int>`.
- `Bars` defines the `Bar` record, the algorithm menu, the pattern equation
  and `Promised`. `Promised` says what each algorithm guarantees about the
  final row and the counters.
- `SortSpec`, `InsertSpec`, `MergeSpec`, `PartitionSpec`, `HeapSpec` and
  `RunSpec` hold the specification functions and the lemmas about them:
  - sortedness, permutation, inversion counts and `Tri(n) = n(n-1)/2`;
  - gap insertion;
  - the merge of two runs, with the comparisons it makes;
  - the Lomuto partition;
  - max-heap order;
  - the combined outcome of the recursive sorts.

Every sort is proved to leave the row sorted and a permutation of its input.
The counters are proved as follows:

- bubble sort makes exactly `Tri(N)` comparisons and one swap per inversion
  of the input;
- selection sort makes `Tri(N)` comparisons and exactly `N - 1` swaps;
- insertion sort makes one comparison and one move per inversion;
- merge sort makes at most `Tri(n)` comparisons and no moves;
- quick sort makes at most `Tri(n)` comparisons;
- heap sort's moves never exceed its comparisons plus `N - 1`;
- shell sort's comparisons and moves are equal.

Three behaviours of the code are easy to overlook:

- **Unknown label.** `startSort` falls through its `switch` on an unknown label. It sorts nothing and still tags every bar GREEN.
- **Merge moves.** `merge` writes values back without incrementing `moves`, so merge sort always reports zero moves.
- **Bubble-sort moves.** Bubble sort swaps once per inversion. On `[5,3,8,1]` it makes 6 comparisons, which is Tri(4), and 4 moves, one for each of the four inversions.

## Model

| member | source | states |
|---|---|---|
| Engine.DsaVisualizer.constructor | DSAVisualizer.java:81-98 | the row holds the given values, all tagged BLUE, with both counters zero |
| Engine.DsaVisualizer.Swap | DSAVisualizer.java:299-306 | exchanges bars i and j (value and tag), leaves the rest alone and counts one move |
| Engine.DsaVisualizer.HighlightCompare | DSAVisualizer.java:308-312 | tags i RED and j RED unless it is ORANGE; ignores out-of-range indices; no value changes |
| Engine.DsaVisualizer.ResetColor | DSAVisualizer.java:314-318 | tags i and j BLUE unless ORANGE; ignores out-of-range indices; no value changes |
| Engine.DsaVisualizer.ResetStats | DSAVisualizer.java:100-103 | both counters become 0 and every bar is BLUE with its value kept |
| Engine.DsaVisualizer.Tag | DSAVisualizer.java:138 | retags one bar; values are unchanged |
| Engine.DsaVisualizer.TagAllGreen | DSAVisualizer.java:121 | every bar is GREEN and the values are unchanged |
| Engine.DsaVisualizer.CompareAdjacent | DSAVisualizer.java:133-136 | the row becomes BubbleStepOf(row, j); the pass invariant advances with one comparison and one move per inversion removed |
| Engine.DsaVisualizer.BubblePass | DSAVisualizer.java:132-137 | the pass moves the window maximum into the sorted tail and permutes the row; it makes N-i-1 comparisons and its moves plus the remaining inversions equal the starting inversions |
| Engine.DsaVisualizer.BubbleSort | DSAVisualizer.java:129-141 | the row ends sorted and permuted; comparisons grow by exactly Tri(N), moves by exactly Inversions(input); all bars GREEN |
| Engine.DsaVisualizer.SelectionScan | DSAVisualizer.java:146-152 | returns the position of the first minimum of bars[i..] (strict `<`) after N-1-i comparisons; no value changes |
| Engine.DsaVisualizer.SelectionPass | DSAVisualizer.java:145-155 | extends the settled sorted prefix by one, with N-1-i comparisons and one move |
| Engine.DsaVisualizer.SelectionSort | DSAVisualizer.java:143-158 | sorted and permuted; exactly Tri(N) comparisons and N-1 moves; all bars GREEN |
| Engine.DsaVisualizer.Shift | DSAVisualizer.java:166-172 | copies bar `from` over bar `to`, with one comparison and one move |
| Engine.DsaVisualizer.ShiftHole | DSAVisualizer.java:165-174 | a shift moves the hole down one gap and keeps the insertion state |
| Engine.DsaVisualizer.ShiftAdjacent | DSAVisualizer.java:165-174 | a gap-1 shift also removes exactly one inversion |
| Engine.DsaVisualizer.DropKey | DSAVisualizer.java:175 | storing the key in the hole makes bars[..i+1] gap-sorted and a permutation of its old contents, bars after i or off the gap chain through i unchanged, with equal comparison and move counts |
| Engine.DsaVisualizer.InsertKey | DSAVisualizer.java:163-175 | inserts bar i into the sorted prefix: bars[..i+1] sorted and a permutation of its old contents, bars after i unchanged, comparisons equal to moves, and moves plus remaining inversions constant |
| Engine.DsaVisualizer.InsertionSort | DSAVisualizer.java:160-178 | sorted and permuted; comparisons and moves each grow by exactly Inversions(input) |
| Engine.DsaVisualizer.GapInsert | DSAVisualizer.java:279-291 | inserts bar i into its gap chain: bars[..i+1] gap-sorted and a permutation of its old contents, bars after i and bars off the chain i, i-gap, ... unchanged, comparisons equal to moves |
| Engine.DsaVisualizer.ShellSort | DSAVisualizer.java:275-297 | sorted and permuted; comparisons grow exactly as much as moves; all bars GREEN |
| Engine.DsaVisualizer.PickHead | DSAVisualizer.java:193-201 | takes the smaller head, or the left one on a tie, into temp[k] with one comparison; values unchanged |
| Engine.DsaVisualizer.TakeHead | DSAVisualizer.java:193-201 | the head taken extends a prefix of Merged(left run, right run) |
| Engine.DsaVisualizer.MergeHeads | DSAVisualizer.java:192-201 | the first loop stops with one run used up, having written a prefix of the merge and counted its comparisons |
| Engine.DsaVisualizer.CopyRun | DSAVisualizer.java:202-203 | copies the values of bars[lo..hi) into the buffer from k on and changes nothing else |
| Engine.DsaVisualizer.MergeIntoBuffer | DSAVisualizer.java:191-203 | the buffer equals Merged of the two runs; comparisons grow by MergeComparisons of them |
| Engine.DsaVisualizer.WriteBack | DSAVisualizer.java:205-209 | bars[l..r] take the buffer values and keep their tags; the other bars are untouched |
| Engine.DsaVisualizer.Merge | DSAVisualizer.java:189-211 | bars[l..r] hold the merge of the two runs; the rest is unchanged; no move is counted |
| Engine.DsaVisualizer.MergeSort | DSAVisualizer.java:180-187 | bars[l..r] end sorted and permuted, everything else kept, with at most Tri(r+1-l) comparisons |
| Engine.DsaVisualizer.ComparePivot | DSAVisualizer.java:227-230 | a bar below the pivot is swapped to the end of the lower side with one move; one comparison either way |
| Engine.DsaVisualizer.ScanStep | DSAVisualizer.java:226-231 | keeps the partition invariant and advances the scan by one bar |
| Engine.DsaVisualizer.PlacePivot | DSAVisualizer.java:232-233 | puts the pivot between the sides and retags it BLUE |
| Engine.DsaVisualizer.Partition | DSAVisualizer.java:221-237 | partitions low..high around the old last bar, which lands at p; high-low comparisons and p-low+1 moves |
| Engine.DsaVisualizer.QuickSort | DSAVisualizer.java:213-219 | bars[low..high] end sorted and permuted, the rest kept, with at most Tri(n) comparisons |
| Engine.DsaVisualizer.SortSides | DSAVisualizer.java:216-217 | the two recursive calls after the partition sort the whole range |
| Engine.DsaVisualizer.CompareChild | DSAVisualizer.java:257-268 | a child inside the heap is compared once and becomes the largest if strictly larger |
| Engine.DsaVisualizer.LargestOf | DSAVisualizer.java:253-268 | returns i or a strictly larger child that dominates both children; the right child wins only when strictly larger than the left; one comparison per child inside the heap |
| Engine.DsaVisualizer.Heapify | DSAVisualizer.java:252-273 | restores max-heap order on bars[..n] by permuting it; bars from n on are kept; moves <= comparisons <= 2(moves+1) |
| Engine.DsaVisualizer.SiftNode | DSAVisualizer.java:242 | one build step extends the heap-ordered suffix of nodes by one |
| Engine.DsaVisualizer.ExtractRoot | DSAVisualizer.java:243-247 | moves the heap maximum in front of the sorted tail, tags it GREEN and repairs the smaller heap |
| Engine.DsaVisualizer.HeapSort | DSAVisualizer.java:239-250 | sorted and permuted; moves <= comparisons + N - 1; all bars GREEN |
| Engine.DsaVisualizer.RunSort | DSAVisualizer.java:111-119 | each menu entry runs its sort, with the guarantees of Promised |
| Engine.DsaVisualizer.StartSort | DSAVisualizer.java:105-126 | counters start from zero; a known label gives Promised for its algorithm; an unknown one changes no value; all bars end GREEN |
| Bars.ValuesUpdate | DSAVisualizer.java:168 | storing a bar changes the value sequence at that position only |
| Bars.WriteBackValues | DSAVisualizer.java:205-209 | writing values into l..r gives exactly those values there and keeps the rest |
| Bars.KeptOutsideTrans | DSAVisualizer.java:271 | two changes confined to a range compose into one change confined to it |
| Bars.ParseAlgorithm | DSAVisualizer.java:111-119 | a label selects algorithm a exactly when it is a's menu name |
| Bars.PatternEquation | DSAVisualizer.java:381-386 | an integer count exists exactly for bubble and selection sort, and it equals Tri(n) |
| Bars.PatternEquationCounts | DSAVisualizer.java:383-386 | for bubble and selection, the displayed count equals the comparisons the run makes, n(n-1)/2 |
| SortSpec.PrefixSlice | DSAVisualizer.java:216-217 | sequences equal below n agree on every slice below n |
| SortSpec.SuffixSlice | DSAVisualizer.java:216-217 | sequences equal from n on agree on every slice from n on |
| SortSpec.SortsWhole | DSAVisualizer.java:115-116 | sorting the full range 0..N-1 sorts and permutes the row |
| SortSpec.TriClosedForm | DSAVisualizer.java:385 | 2 Tri(n) = n(n-1): the displayed closed form is the sum of the shrinking passes |
| SortSpec.TriMergeBound | DSAVisualizer.java:180-187 | two halves sorted within Tri each, plus at most n-1 merge comparisons, stay within Tri(n) |
| SortSpec.SortedFromChain | DSAVisualizer.java:277-293 | a row in order on every adjacent pair is sorted (the gap-1 pass finishes shell and insertion sort) |
| SortSpec.BelowBound | DSAVisualizer.java:135 | the count of smaller later entries is at most their number and zero below a lower bound |
| SortSpec.BelowSwap | DSAVisualizer.java:135 | an adjacent swap does not change how many entries lie below x |
| SortSpec.SwapRemovesInversion | DSAVisualizer.java:135 | swapping an adjacent out-of-order pair removes exactly one inversion |
| SortSpec.SortedHasNoInversions | DSAVisualizer.java:129-141 | a sorted row has no inversions |
| SortSpec.BubbleExample | DSAVisualizer.java:129-141 | on [5,3,8,1] bubble sort's counts are Tri(4) = 6 comparisons and Inversions = 4 moves |
| SortSpec.InversionsBound | DSAVisualizer.java:129-141 | a row of n values has at most Tri(n) inversions, so the swap count never exceeds the comparison count |
| SortSpec.SwappedPermutes | DSAVisualizer.java:299-306 | a swap inside lo..hi permutes that segment and keeps everything outside it |
| SortSpec.BubbleStepOf | DSAVisualizer.java:135 | after the step the pair is in order, the row is permuted, other positions are unchanged, and an ordered pair is left alone |
| SortSpec.PassStep | DSAVisualizer.java:132-137 | a compare-and-swap keeps the pass invariant and removes exactly the inversion it fixes |
| SortSpec.PassDone | DSAVisualizer.java:131-139 | a finished pass extends the sorted tail by one position |
| SortSpec.SelectStep | DSAVisualizer.java:153 | swapping the minimum of the rest into i extends the sorted settled prefix |
| SortSpec.BoundedStrictlyAbove | DSAVisualizer.java:229 | a strict upper bound on every entry survives a permutation (the lower side of a partition stays below the pivot) |
| SortSpec.BoundedFromBelow | DSAVisualizer.java:196 | a lower bound on every entry survives a permutation |
| SortSpec.SortedBeyondPrefixPerm | DSAVisualizer.java:246 | permuting the heap prefix keeps the sorted tail of largest values |
| SortSpec.PrefixPermKeepsMultiset | DSAVisualizer.java:246 | permuting a prefix and keeping the rest permutes the row |
| SortSpec.TriPivotBound | DSAVisualizer.java:213-219 | a partition's n-1 comparisons plus Tri of both sides stay within Tri(n) |
| InsertSpec.GapInsertStart | DSAVisualizer.java:279-280 | taking bar i as the key of a gap-sorted prefix starts the insertion invariant |
| InsertSpec.GapInsertShift | DSAVisualizer.java:281-290 | shifting a larger entry up one gap keeps the invariant with the hole one gap lower |
| InsertSpec.GapInsertDone | DSAVisualizer.java:291 | dropping the key when the entry below is not larger leaves the chain gap-sorted |
| InsertSpec.HoleStep | DSAVisualizer.java:281-290 | a shift on the row keeps the hole relation, the permutation, the hole on the gap chain, the entries after i and off the chain, and equal counters |
| InsertSpec.HoleStart | DSAVisualizer.java:279-280 | the hole state holds at the start of an insertion |
| InsertSpec.ShiftPays | DSAVisualizer.java:168-169 | an adjacent shift pays for exactly one inversion |
| InsertSpec.HoleDone | DSAVisualizer.java:175 | storing the key makes the row the virtual row w: gap-sorted through i, a permutation of the old prefix, the rest kept |
| InsertSpec.OffChainKept | DSAVisualizer.java:279-291 | a gap-2 insertion at position 2 of [5,0,1] may not give [0,1,5], which moved position 1, off the chain 2, 0 |
| InsertSpec.SuffixKeptPermutesPrefix | DSAVisualizer.java:162-176 | a permutation of the row that keeps everything after i permutes bars[..i+1] |
| MergeSpec.MergedPermutes | DSAVisualizer.java:189-211 | the merge has length a+b and is a permutation of the two runs |
| MergeSpec.ConsPermutes | DSAVisualizer.java:196-197 | taking a head keeps the permutation of what is left |
| MergeSpec.SortedCons | DSAVisualizer.java:196 | a head no larger than a sorted rest gives a sorted sequence |
| MergeSpec.MergedSorted | DSAVisualizer.java:189-211 | merging two sorted runs gives a sorted run |
| MergeSpec.MergeComparisonsBound | DSAVisualizer.java:193-201 | a merge compares at least min(a,b) times and at most a+b-1 times |
| MergeSpec.MergedOrderedRuns | DSAVisualizer.java:196 | runs already in order merge into their concatenation with exactly one comparison per left entry (the tie rule keeps stability) |
| MergeSpec.MergeStart | DSAVisualizer.java:192 | the merge state holds before the first loop |
| MergeSpec.MergeTakeLeft | DSAVisualizer.java:196 | taking the left head on <= keeps the merge state, with one comparison while both runs last |
| MergeSpec.MergeTakeRight | DSAVisualizer.java:197 | taking the strictly smaller right head keeps the merge state |
| MergeSpec.MergeTakeLeftAt | DSAVisualizer.java:196 | MergeTakeLeft on the runs of the row |
| MergeSpec.MergeTakeRightAt | DSAVisualizer.java:197 | MergeTakeRight on the runs of the row |
| MergeSpec.MergeDone | DSAVisualizer.java:202-203 | once a run is used up, the rest of the merge is the other run, copied without comparisons |
| MergeSpec.MergeSortCount | DSAVisualizer.java:180-187 | the counts of both recursive calls plus the merge stay within Tri(n) |
| MergeSpec.MergeSortStep | DSAVisualizer.java:180-187 | sorting both halves, then merging, sorts and permutes l..r and keeps the rest |
| PartitionSpec.PartitionStart | DSAVisualizer.java:222-224 | the partition invariant holds with empty sides |
| PartitionSpec.PartitionStep | DSAVisualizer.java:226-231 | scanning one entry keeps the partition invariant, on both branches |
| PartitionSpec.PartitionSwapSides | DSAVisualizer.java:229 | the swap grows the lower side and shifts the upper side up by one |
| PartitionSpec.PartitionSwapFrame | DSAVisualizer.java:229 | the swap permutes the range and keeps the rest |
| PartitionSpec.PartitionDone | DSAVisualizer.java:232-236 | the final swap places the pivot between the two sides |
| PartitionSpec.SortedAroundPivot | DSAVisualizer.java:213-219 | a sorted low side, the pivot and a sorted high side make a sorted run |
| PartitionSpec.QuickSortCount | DSAVisualizer.java:213-219 | partition plus both recursive calls stay within Tri(n) comparisons |
| PartitionSpec.PivotStays | DSAVisualizer.java:216-217 | each recursive call leaves the pivot and the other side alone |
| PartitionSpec.SidesSorted | DSAVisualizer.java:216-217 | both sides sorted in place make the range sorted and permuted |
| PartitionSpec.QuickSortStep | DSAVisualizer.java:213-219 | partition, then sorting both sides, sorts and permutes low..high and keeps the rest |
| HeapSpec.LeavesAreHeaps | DSAVisualizer.java:242 | nodes from n/2 on have no children, so the build starts at n/2 - 1 |
| HeapSpec.RootDominates | DSAVisualizer.java:243-246 | in a max-heap each node is at most the root |
| HeapSpec.HeapRootIsMax | DSAVisualizer.java:244 | the root of a max-heap holds its maximum |
| HeapSpec.HeapifyStop | DSAVisualizer.java:269 | a node no smaller than its children completes the heap |
| HeapSpec.HeapifyStep | DSAVisualizer.java:269-271 | swapping with the larger child orders node i and leaves only the child to repair |
| HeapSpec.SwappedPermutesPrefix | DSAVisualizer.java:270 | a swap below n permutes s[..n] and keeps s[n..] |
| HeapSpec.BuildStep | DSAVisualizer.java:242 | before heapify(n, i) in the build, every node above i is a heap |
| HeapSpec.ExtractMax | DSAVisualizer.java:244-246 | moving the root behind the heap extends the sorted tail and breaks only the new root |
| HeapSpec.SiftCombine | DSAVisualizer.java:269-272 | one level of the sift plus the recursive sift is a sift, with moves <= comparisons <= 2(moves+1) |
| RunSpec.SortedRunShort | DSAVisualizer.java:181 | a range of at most one entry is sorted with no work |
| RunSpec.MergeSortCombine | DSAVisualizer.java:180-187 | the outcomes of both recursive calls and the merge combine into a sorted run of l..r |
| RunSpec.QuickSortCombine | DSAVisualizer.java:213-219 | the partition and both recursive calls combine into a sorted run of low..high |
| Panel.Visualizer.constructor | Visualizer.java:7-19 | the panel holds the given starting values |
| Panel.Visualizer.CompareAdjacent | Visualizer.java:25-29 | the array becomes BubbleStepOf(array, j) and the pass invariant advances |
| Panel.Visualizer.BubblePass | Visualizer.java:24-32 | the pass extends the sorted tail of largest values and permutes the array |
| Panel.Visualizer.BubbleSort | Visualizer.java:21-35 | the array ends sorted ascending and a permutation of its start |

## Left out

- The Swing interface is not modelled: frames, panels, buttons, the combo box, painting, colours on screen, and `main`.
- Threads, `repaint`, `Thread.sleep` and the `InterruptedException` handlers are left out, and every sort runs to the end. Nothing in the program interrupts the sorting thread. If something did, most sorts would stop at once. Merge sort and quick sort catch the exception inside `merge` and `partition`, so they would abandon only the current merge or partition and then continue.
- Random data generation (`generateBars`, `generateData`) is left out. Both constructors take the starting values as a parameter.
- The resetting of `bars` from `originalBars` is left out for the same reason.
- The `Visualizer` constructor also starts its sort on a new thread. The model leaves the call of `BubbleSort` to the client.
- The row lengths are fixed in Java at `N = 30` and 50 entries. The model allows any length, at least 1 for the engine.
- The floating-point branches of `evaluatePatternEquation` (insertion, merge, quick, heap, shell) are left out, as are the returned text and `showTimeStats` with its `currentTimeMillis` timing.
- `comparisons` and `moves` are Java `long` counters. The model uses unbounded naturals, which is exact for any realistic row.
- Bars are modelled as values, not shared objects. Java's insertion and shell sort copy a reference during a shift, so two slots alias one `Bar` until one is overwritten.
  - The model copies the value and the tag instead. The values of the row after each insertion are the same as in Java.
  - The tags can differ. Java's `highlightCompare` at the first shift turns the key object itself RED, and the key keeps that tag when `bars[j] = key` stores it. After two or more shifts, a shifted bar can also stay RED through the alias.
  - For example, one shift over [B, K] leaves K RED in Java and BLUE in the model.
  - Insertion and shell sort run only from `startSort`, whose final GREEN tagging hides this difference.
- The retagging inside a merge reaches bar `l - 1` (`resetColor(i - 1, j - 1)`). The merge and merge-sort frames therefore run from `l - 1` to `r`.
- Engine.DsaVisualizer.MergeSort: its comparison count is stated as a bound, at most n(n-1)/2, rather than an exact count.
- Engine.DsaVisualizer.QuickSort: its comparisons are bounded by n(n-1)/2. Its moves are not stated beyond what each partition counts.
- Engine.DsaVisualizer.HeapSort: its counters are related only by moves <= comparisons + N - 1, not given exactly.
- Engine.DsaVisualizer.ShellSort: its counters are proved equal to each other, not given as a function of the input.
- Engine.DsaVisualizer.StartSort: an unknown label falls through the `switch` and sorts nothing, as the code does. All bars are still tagged GREEN.
- Merge sort never increments `moves`. `Promised` states that its move count stays zero.
- Insertion and shell sort do not count the comparison that ends each shift loop. The model counts exactly what the code counts, so for these two sorts comparisons equal moves.

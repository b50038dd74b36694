# TBT-Segmentation in Dafny

A model of the monitoring core of TBT-Segmentation. The tool scores a
recorded trace against a Temporal Behaviour Tree (TBT) whose leaves are
Signal Temporal Logic (STL) formulas, and splits the trace into the segments
the tree's leaves explain. The model covers:

- **The memo table** (`MemoTable`). A class of triangular cells indexed by
  (formula or node index, lower, upper), with its hit and write counters.
- **STL robustness** (`Stl`, `StlEval`).
  - The formula datatype and its index counter.
  - `get_atomics` and `pretty_print`.
  - A pure semantics `Rob` for all eleven operators.
  - The table-caching evaluator `Evaluate`, proved to return `Rob` exactly,
    or, in lazy mode, a value of the same sign.
- **TBT trees** (`TbtTree`, `NextNodes`).
  - The node datatype and its counter.
  - The Kleene unrolling and `kleene_inf`.
  - The leaf queries `get_first_leaf`, `get_leaf`, `get_leaf_formula` and
    `get_atomics`.
  - The next-leaf map built by `Tbt::new`.
- **TBT robustness** (`TbtEval`). A pure semantics `TRob`, and the
  table-caching evaluator `TEvaluate`, proved equal to it in exact
  (non-lazy) mode.
- **Segmentation** (`TbtSegmentation`, `SegReport`).
  - `get_segmentation` as a function `SegOf` on the table's cells, with the
    method that computes it.
  - Each entry's value related to the node's robustness.
  - `print_segmentation`'s robustness and `get_tau_dif`.
- **The CSV helpers** (`CsvReader`).
  - The record selection of `read_csv_file`.
  - The streak analysis of `get_best_number_skipped`.
- **The helper scripts** (`InferParameters`, `ShipLandingPlot`).
  - `build_call`'s log parser and argument lists.
  - `show_plot`'s slice arithmetic.
  - `compute_best_position`.
  - `live_replay`'s step counter.
- **The maneuver constants** (`ManeuverConstants`).

### Values and parameters

- **Robustness values.** They live in `Ext = NegInf | Fin(real) | PosInf`.
  `stl.rs` and `behaviortree.rs` only take minima, maxima and negations of
  them and compare them with 0, so this domain is exact for those files. NaN
  is excluded.
- **Traces and atomic propositions.**
  - A trace is its length and a map from signal name to samples.
  - An atomic proposition's closure is an index `fn` into a parameter
    `ap: (nat, seq<Ext>) -> Ext`.
  - The f32 text parser, the "is the event count whole" test and the
    trigonometric functions are parameters of the operations that use them.
- **Counters.** The global counters (`gfc`, `gnc`) are small classes
  (`FormulaCounter`, `NodeCounter`).
- **Memo tables.** The tables are `MemoTable.Table` objects whose cells are
  a field the methods reassign.
- **Cache invariant.** Each table keeps the invariant that every filled
  cell holds the semantic value of the formula or node owning its index. A
  ghost map from index to owner carries it, because Kleene unrolling
  clones subtrees together with their indices.

## Model

| member | source | states |
|---|---|---|
| MemoTable.Table.constructor | src/table.rs:29-54 | every cell of the new table is empty; the table has n index rows, each with the triangular (lower, upper) layout for trace length L; total_entries is n * L(L+1)/2; both counters start at 0 |
| MemoTable.RowCellsAll | src/table.rs:30-45 | the rows of lengths L, L-1, ..., 1 hold L(L+1)/2 cells together |
| MemoTable.RowCellsClosed | src/table.rs:30-45 | the first k rows hold k*L - k(k-1)/2 cells |
| MemoTable.Table.Lookup | src/table.rs:57-80 | returns the stored cell, None when an index is out of range or the cell is empty; the hit counter grows by one exactly on a hit |
| MemoTable.Table.LookupSegmentationTree | src/table.rs:82-96 | is the lookup of the node's own index, for every node kind |
| MemoTable.SetCell | src/table.rs:98-112 | the written cell holds the value and every other cell is unchanged; the shape is kept |
| MemoTable.Table.Set | src/table.rs:98-112 | the cells become SetCell of the old ones; total_set_calls grows by one; the bounds the source panics on are its precondition |
| MemoTable.Table.Progress | src/table.rs:114-116 | the pair (total_set_calls, total_entries) |
| Stl.FormulaCounter.constructor | src/stl.rs:9-19 | a fresh counter starts at 0 |
| Stl.FormulaCounter.Gfc | src/stl.rs:11-15 | returns the current count and advances it by one |
| Stl.FormulaCounter.Reset | src/stl.rs:17-19 | sets the count back to 0 |
| Stl.FormulaCounter.NumberFormulas | src/stl.rs:39-41 | get_number_formulas: the number of formula indices handed out since the last reset |
| Stl.MkAtomic | src/stl.rs:42-44 | builds an Atomic carrying the next formula index and advances the counter |
| Stl.MkConjunction | src/stl.rs:45-47 | builds a Conjunction of the two children with the next index |
| Stl.MkDisjunction | src/stl.rs:48-50 | builds a Disjunction of the two children with the next index |
| Stl.MkNeg | src/stl.rs:51-53 | builds a Neg of the child with the next index |
| Stl.MkNext | src/stl.rs:54-56 | builds a Next of the child with the next index |
| Stl.MkEventually | src/stl.rs:57-59 | builds an Eventually of the child with the next index |
| Stl.MkGlobally | src/stl.rs:60-62 | builds a Globally of the child with the next index |
| Stl.MkUntil | src/stl.rs:63-65 | builds an Until of the two children with the next index |
| Stl.MkEventuallyInterval | src/stl.rs:66-68 | builds an EventuallyInterval with its bounds and the next index |
| Stl.MkGloballyInterval | src/stl.rs:69-71 | builds a GloballyInterval with its bounds and the next index |
| Stl.MkUntilInterval | src/stl.rs:72-80 | builds an UntilInterval with its bounds and the next index |
| Stl.GetAtomics | src/stl.rs:85-105 | every formula returned is an Atomic |
| Stl.GetAtomicsIsAtomicPreOrder | src/stl.rs:85-105 | get_atomics is exactly the Atomic subformulas in left-to-right pre-order |
| Stl.FilterAtomicAppend | src/stl.rs:92-97 | filtering the atomics distributes over concatenation, so a binary node lists its left child's atomics before its right child's |
| Stl.PrettyPrint | src/stl.rs:107-146 | pretty_print: `AP(i)`, infix `and`, `or` and `U` in parentheses, the prefixes `!`, `X`, `F` and `G`, and `[a,b]` after the bounded operators |
| Stl.PrettyPrintBalanced | src/stl.rs:107-146 | the printed formula has as many '(' as ')' and as many '[' as ']', for every formula (equal counts, not the nesting order) |
| Stl.InfixStep | src/stl.rs:117-131 | the binary cases (and, or, U) print balanced text when their children do |
| Stl.PrefixStep | src/stl.rs:109-146 | the atomic, unary and interval cases print balanced text when their children do |
| Stl.IntervalHeadBalanced | src/stl.rs:132-140 | the interval operators' heads with their bound lists are balanced |
| Stl.BoundsBalanced | src/stl.rs:132-140 | the printed bound pair is balanced |
| Stl.UntilOpBalanced | src/stl.rs:138-140 | the printed bounded Until operator is balanced |
| Stl.Rob | src/stl.rs:199-311 | the STL semantics on [lower, upper]: the atomic's value at lower (-inf on an empty window), min and max for and/or, negation, Next on [lower + 1, upper], the folds MaxRob, MinRob and UntilRob over the window, and the bounded operators with their interval clipped to upper |
| Stl.MaxRobIsMax | src/stl.rs:230-239 | the Eventually fold is an upper bound of the child's value at every start, attained at one of them, and -inf on an empty range |
| Stl.MinRobIsMin | src/stl.rs:240-249 | the Globally fold is a lower bound of its initial value and of the child's value at every start, and attained by one of them |
| Stl.MinRobFromInit | src/stl.rs:250-264 | the running minimum of Until's left side, started from any value, is the minimum of that value and the fold from +inf |
| Stl.MaxRobMono | src/stl.rs:230-239 | widening the range of the Eventually fold never lowers it |
| Stl.MinRobMono | src/stl.rs:240-249 | widening the range of the Globally fold never raises it |
| Stl.UntilRobMono | src/stl.rs:250-264 | widening the range of the Until fold never lowers it |
| Stl.EmptyWindow | src/stl.rs:200-264 | on an empty window Globally is +inf, and Eventually, Until and Atomic are -inf |
| Stl.GloballyIntervalIsClippedMin | src/stl.rs:278-294 | GloballyInterval(a, b) is -inf when a exceeds the clipped bound min(upper, b), and otherwise the minimum of the child over offsets a..min(upper, b) |
| Stl.EventuallyIntervalIsClippedMax | src/stl.rs:265-277 | EventuallyInterval(a, b) is the maximum of the child over the offsets a..min(upper, b) |
| ExtReal.Min | src/stl.rs:208-214 | the minimum is one of its arguments and below both (Conjunction) |
| ExtReal.Max | src/stl.rs:215-221 | the maximum is one of its arguments and above both (Disjunction) |
| ExtReal.Negate | src/stl.rs:222-225 | negation swaps the positive and the negative values (Neg) |
| ExtReal.AgreeMin | src/stl.rs:208-214 | in lazy mode, minima of sign-equivalent values stay sign-equivalent |
| ExtReal.AgreeMax | src/stl.rs:215-221 | in lazy mode, maxima of sign-equivalent values stay sign-equivalent |
| ExtReal.AgreeNegate | src/stl.rs:222-225 | negations of sign-equivalent values stay sign-equivalent |
| StlEval.EvaluateFnc | src/stl.rs:150-167 | the atomic's function applied to the named signals' samples at lower, where a sample past the end reads as -inf |
| StlEval.SetConsistent | src/stl.rs:312-316 | writing a formula's semantic value keeps every filled cell semantic and only adds cells |
| StlEval.EmptyConsistent | src/table.rs:29-54 | an empty table satisfies the cache invariant |
| StlEval.Evaluate | src/stl.rs:169-318 | the result equals Rob (exact mode) or has Rob's sign (lazy mode); after the call the table holds the result at (index, lower, upper) when lower <= upper; the cache invariant is kept and no filled cell is lost |
| StlEval.Compute | src/stl.rs:199-311 | the uncached evaluation agrees with Rob for each of the eleven operators |
| StlEval.EvalPair | src/stl.rs:208-221 | both operands of a conjunction or disjunction agree with Rob on the same window |
| StlEval.ComputeInterval | src/stl.rs:265-310 | the bounded Eventually, Globally and Until agree with Rob, with the interval's upper end clipped to the window |
| StlEval.EvalMax | src/stl.rs:230-239 | the Eventually loop agrees with the maximum over the starts; lazy mode may stop once the value is positive |
| StlEval.EvalMin | src/stl.rs:240-249 | the Globally loop agrees with the minimum over the starts; lazy mode may stop once the value is negative |
| StlEval.EvalUntil | src/stl.rs:250-264 | the Until loop agrees with the maximum over i of min(right at i, the minimum of left before i) |
| StlEval.EvalUntilLeft | src/stl.rs:253-257 | the inner loop's running minimum of the right value and the left values before i agrees with MinRob |
| TbtTree.NodeCounter.constructor | src/behaviortree.rs:11-19 | a fresh node counter starts at 0 |
| TbtTree.NodeCounter.Gnc | src/behaviortree.rs:11-15 | returns the current count and advances it by one |
| TbtTree.NodeCounter.Reset | src/behaviortree.rs:17-19 | sets the count back to 0 |
| TbtTree.MkLeaf | src/behaviortree.rs:164-167 | builds a Leaf with the next node index |
| TbtTree.MkFallback | src/behaviortree.rs:168-171 | builds a Fallback over the children with the next node index |
| TbtTree.MkParallel | src/behaviortree.rs:172-175 | builds a Parallel(m) over the children with the next node index |
| TbtTree.MkSequence | src/behaviortree.rs:176-179 | builds a Sequence of the two children with the next node index |
| TbtTree.MkTimeout | src/behaviortree.rs:180-183 | builds a Timeout(t) of the child with the next node index |
| TbtTree.MkKleene | src/behaviortree.rs:184-192 | builds the chain of n+1 Kleene nodes with counts n, ..., 0 and takes n+1 indices |
| TbtTree.KleeneChainLinks | src/behaviortree.rs:184-192 | following the next link k times from Kleene(n) reaches Kleene(n-k), and nothing past count 0 |
| TbtTree.KleeneChainShape | src/behaviortree.rs:184-192 | each chain node has the child, its count, and a next node exactly when the count is positive |
| TbtTree.KleeneChainWellFormed | src/behaviortree.rs:184-192 | the chain is a well-formed tree when the child is |
| TbtTree.MkKleeneInf | src/behaviortree.rs:194-208 | builds Parallel(1) over max(1, L) Kleene chains with counts n, ..., 1 in that order |
| TbtTree.WellFormed | src/behaviortree.rs:427-494 | the trees the evaluator handles without panicking: Parallel(m) has 1 <= m <= its children (`v_vec[m - 1]`), Timeout(t) has t >= 1 (`lower + t - 1`), Kleene(n > 0) has a next node (`unwrap`) |
| TbtTree.FirstLeaves | src/behaviortree.rs:82-96 | get_first_leaf: a leaf's own index; the first leaves of all children of a Fallback or Parallel, in order; those of a Sequence's left child and of a Timeout's or Kleene's child |
| TbtTree.GetLeaf | src/behaviortree.rs:129-162 | get_leaf: the leaf with the index, searching the children left to right and stopping at the first hit |
| TbtTree.GetLeafFormula | src/behaviortree.rs:287-317 | get_leaf_formula: the same search, returning the leaf's formula |
| TbtTree.TbtGetAtomics | src/behaviortree.rs:319-336 | get_atomics: the leaves' formulas' atomics, children left to right |
| TbtTree.FirstLeavesAreLeaves | src/behaviortree.rs:82-96 | every index get_first_leaf returns belongs to a leaf of the tree |
| TbtTree.LeavesAreLeaves | src/behaviortree.rs:82-96 | the leaves listed in left-to-right order are all Leaf nodes |
| TbtTree.GetLeafIsFirst | src/behaviortree.rs:129-162 | get_leaf returns the first leaf, in left-to-right order, carrying the index |
| TbtTree.FirstWithIndexSpec | src/behaviortree.rs:129-162 | the first match is a leaf with the index, and no earlier leaf has it; None when no leaf has it |
| TbtTree.GetLeafSpec | src/behaviortree.rs:129-162 | get_leaf answers None exactly when no leaf has the index, and otherwise a leaf with that index |
| TbtTree.GetLeafFormulaOfLeaf | src/behaviortree.rs:287-317 | get_leaf_formula is the formula of the leaf get_leaf finds, None when there is none |
| TbtTree.TbtGetAtomicsOfLeaves | src/behaviortree.rs:319-336 | the tree's atomics are its leaves' atomics in left-to-right order, all of them Atomic |
| TbtTree.AtomicsOfLeavesAppend | src/behaviortree.rs:319-336 | collecting atomics distributes over the leaf list |
| NextNodes.InitNextNodesMap | src/behaviortree.rs:41-80 | the walk of the tree with the stack of open Sequences adds exactly IntendedNext for the node under the nearest enclosing left frame, and leaves the stack as it found it. This is the corrected walk, which pops every frame it pushes; the as-written walk is NextNodes.AsWrittenNext (see Findings) |
| NextNodes.IntendedNext | src/behaviortree.rs:33-80 | the intended next-leaf map: a leaf in the left part of a Sequence maps to the right part's first leaves, a leaf elsewhere inherits its context, and none means no entry |
| NextNodes.AsWrittenNext | src/behaviortree.rs:41-80 | init_next_nodes_map as written: push a frame per Timeout, Kleene and Sequence, pop only around Sequence children, record StackNext at each leaf |
| NextNodes.AsWrittenChildren | src/behaviortree.rs:58-65 | the as-written loop over Fallback and Parallel children: push (parent, k), walk child k, pop once |
| NextNodes.InitChildren | src/behaviortree.rs:58-65 | the walk over Fallback and Parallel children adds the union of their maps |
| NextNodes.NewTbt | src/behaviortree.rs:33-39 | the TBT's next-leaf map maps each leaf in the left part of a Sequence, taking its nearest such ancestor, to that Sequence's right child's first leaves |
| NextNodes.IntendedNextKeysAreLeaves | src/behaviortree.rs:66-78 | only the tree's leaves are keys of the next-leaf map |
| NextNodes.StackNextPushOther | src/behaviortree.rs:54-57 | pushing a frame that is not a Sequence's left frame does not change the next leaves |
| NextNodes.MissingPopMapsRightLeaf | src/behaviortree.rs:47-57 | as written, in Sequence(Timeout(a), b), leaf b is mapped to its own first leaves; the intended map has only a -> [b] |
| TbtEval.ChildrenMaxIsMax | src/behaviortree.rs:380-410 | the inner Fallback fold is at least every child's value at one start, attained by one child, -inf without children |
| TbtEval.FallbackIsMax | src/behaviortree.rs:380-410 | a Fallback's robustness is at least every child's value at every start in [lower, upper], is attained by one of them, and is -inf on an empty window |
| TbtEval.ChildRobsAt | src/behaviortree.rs:411-429 | the k-th child value of a Parallel is that child's robustness |
| TbtEval.ParallelIsMth | src/behaviortree.rs:411-429 | a Parallel(m) value v has at least m children with value >= v and at least |children| - m + 1 with value <= v: the m-th largest |
| TbtEval.SeqIsMaxSplit | src/behaviortree.rs:430-469 | a Sequence's robustness is at least min(left[lower, i], right[i+1, upper]) at every split i, attained at one of them, and -inf on an empty window |
| TbtEval.SeqRobMonoSecond | src/behaviortree.rs:430-469 | the split maximum never drops when every right-part value grows |
| TbtEval.KleeneAtLeastChild | src/behaviortree.rs:484-543 | a Kleene chain scores at least its child on any window |
| TbtEval.KleeneMono | src/behaviortree.rs:484-543 | allowing one more repetition never lowers a Kleene chain's robustness |
| TbtEval.TSetConsistent | src/behaviortree.rs:546-548 | storing a node's robustness keeps the tree table semantic |
| TbtEval.TEvaluate | src/behaviortree.rs:342-551 | exact-mode evaluate returns TRob; after it the tree table holds the result for a non-empty window; both tables stay semantic |
| TbtEval.TRob | src/behaviortree.rs:342-551 | the tree semantics: a leaf is its formula's Rob; Fallback the maximum over starts and children; Parallel(m) the m-th largest child value; Sequence the best split of min(left, right); Timeout(t) its child on [lower, min(upper, lower + t - 1)]; Kleene(n) the best split into child and Kleene(n - 1), its child at n = 0, +inf on an empty window |
| TbtEval.TimeoutEnd | src/behaviortree.rs:477 | the Timeout's window end is the smaller of upper and lower + t - 1 |
| TbtEval.TCompute | src/behaviortree.rs:374-545 | per node kind: a leaf is its formula's Rob; Timeout(t) is its child's value on [lower, min(upper, lower+t-1)]; Kleene(0) is its child's value for a non-empty window; a Kleene on an empty window is +inf |
| TbtEval.EvalFallback | src/behaviortree.rs:380-410 | the Fallback loops compute the maximum over starts and children |
| TbtEval.EvalChildren | src/behaviortree.rs:411-429 | the Parallel loop computes every child's robustness in order |
| TbtEval.EvalSequence | src/behaviortree.rs:430-469 | the Sequence loop computes the maximum over splits of min(left, right) |
| TbtEval.SeqSplit | src/behaviortree.rs:439-461 | one split point: min of the left child on [lower, i] and the right child on [i + 1, upper] |
| Sorting.SortDesc | src/behaviortree.rs:418-425 | the sort keeps the length and is a permutation |
| Sorting.SortDescSorted | src/behaviortree.rs:418-425 | the sort is in descending order |
| Sorting.SortCounts | src/behaviortree.rs:418-425 | sorting keeps how many values are at least, and at most, any bound |
| Sorting.MthLargest | src/behaviortree.rs:418-429 | the m-th entry after sorting has at least m values >= it and at least |s| - m + 1 values <= it |
| Sorting.SortedCounts | src/behaviortree.rs:418-429 | in a descending sequence position m - 1 has at least m entries at or above it and |s| - m + 1 at or below it |
| Sorting.MthLargestMono | src/behaviortree.rs:418-429 | raising every value at its position never lowers the m-th largest |
| TbtSegmentation.SegOf | src/behaviortree.rs:556-806 | a segmentation starts with (node, lower, upper, value) |
| TbtSegmentation.GetSegmentation | src/behaviortree.rs:556-806 | the exact-mode extractor returns SegOf of the tree table, None where the source panics on a missing cell. It uses the corrected Kleene(0) guard lower <= upper, i.e. SegOf(..., false); the as-written guard is SegOf(..., true) (see Findings) |
| TbtSegmentation.FallbackScan | src/behaviortree.rs:577-610 | the Fallback search loop is the scan FbRows: the first strictly best (start, child) pair |
| TbtSegmentation.ParallelPairs | src/behaviortree.rs:611-625 | the Parallel loop pairs each child's cell value (-inf when missing) with its position |
| TbtSegmentation.ParallelSegs | src/behaviortree.rs:626-641 | the Parallel branch concatenates the segmentations of the m best children in sorted order |
| TbtSegmentation.SequenceScan | src/behaviortree.rs:642-690 | the Sequence search loop is the scan SeqScan: the first strictly best split |
| TbtSegmentation.SequenceSeg | src/behaviortree.rs:642-701 | the Sequence branch is its head, the left part on [lower, change], then the right part on [change+1, upper] |
| TbtSegmentation.SeqSeg | src/behaviortree.rs:642-701 | a Sequence's segmentation starts with its own entry on [lower, upper]; then come the left part's segmentation on [lower, change] and the right part's on [change + 1, upper] |
| TbtSegmentation.SegWithin | src/behaviortree.rs:556-806 | no entry with a non-empty window leaves the window asked for |
| TbtSegmentation.SequenceSplits | src/behaviortree.rs:642-701 | for a Sequence over a non-empty window, the second entry is the left part on [lower, c] and a later entry is the right part on [c+1, upper], for one c in [lower, upper] |
| TbtSegmentation.CellIsRob | src/behaviortree.rs:546-548 | a filled cell holds its node's robustness |
| TbtSegmentation.FbRowsValue | src/behaviortree.rs:577-610 | the Fallback scan's value is the Fallback's robustness |
| TbtSegmentation.SeqScanLe | src/behaviortree.rs:642-690 | the Sequence scan's value is at most the semantic maximum over the splits |
| TbtSegmentation.SeqScanFilled | src/behaviortree.rs:642-690 | with the right parts' cells filled, the scan's value is the maximum over the splits whose right window is not empty |
| TbtSegmentation.LeafHeadValue | src/behaviortree.rs:566-576 | a leaf's entry carries its robustness |
| TbtSegmentation.FallbackHeadValue | src/behaviortree.rs:577-610 | a Fallback's entry carries its robustness |
| TbtSegmentation.ParallelHeadValue | src/behaviortree.rs:611-641 | a Parallel's entry is at most its robustness, and equal to it when every child's cell is filled |
| TbtSegmentation.SequenceHeadValue | src/behaviortree.rs:642-701 | a Sequence's entry is at most its robustness, and equal to the maximum over the splits with a non-empty right part when those cells are filled |
| TbtSegmentation.TimeoutHeadValue | src/behaviortree.rs:702-721 | a Timeout's entry carries its robustness when the clipped window [lower, min(upper, lower+t-1)] is not empty, and is -inf otherwise |
| TbtSegmentation.KleeneHeadValue | src/behaviortree.rs:722-804 | with the guard lower <= upper, a Kleene that is not unrolled (count 0, or an empty window) carries its robustness |
| TbtSegmentation.KleeneSingleSampleDropped | src/behaviortree.rs:787 | as written, a Kleene(0) over [l, l] reports +inf and stops, although its robustness is its child's |
| TbtSegmentation.KleeneSingleSampleExample | src/behaviortree.rs:787 | a leaf that is always -inf: as written, its Kleene(0) on [3, 3] reports a different value than its robustness |
| TbtSegmentation.KleeneSingleSampleKept | src/behaviortree.rs:527 | with the guard lower <= upper, a Kleene(0) over [l, l] reports its child's value and continues with the child's segmentation |
| SegReport.SegRobustness | src/behaviortree.rs:1216-1245 | the reported robustness is at most every printed entry's value and +inf when nothing is printed; outside lazy mode it is the value of a printed entry; in lazy mode it is -inf exactly when some printed value is negative |
| SegReport.SegMin | src/behaviortree.rs:1216-1239 | the loop's running minimum over the printed entries, replaced only by a strictly smaller value, +inf at the start |
| SegReport.SegMinLower | src/behaviortree.rs:1216-1239 | the reported minimum is at most every printed entry's value (only the leaves when only_leaves is set) |
| SegReport.SegMinAttained | src/behaviortree.rs:1216-1239 | the minimum is +inf when nothing is printed, and otherwise the value of a printed entry |
| SegReport.SegMinNegative | src/behaviortree.rs:1216-1245 | the minimum is negative exactly when some printed entry's value is negative |
| SegReport.PrintSegmentation | src/behaviortree.rs:1216-1246 | the loop computes SegRobustness |
| SegReport.TauDifMin | src/behaviortree.rs:808-849 | the distance is None exactly when no entry is of the same node, and otherwise the smallest |lower - l| + |upper - u| over such entries, attained by one of them |
| SegReport.Dif | src/behaviortree.rs:817-832 | the distance to an entry of the same node kind and index is |lower - l| + |upper - u|; None for any other entry |
| SegReport.MinOpt | src/behaviortree.rs:833-844 | the smaller of two optional distances, a missing one being ignored |
| SegReport.TauDifOf | src/behaviortree.rs:808-849 | get_tau_dif: the fold of MinOpt over the distances to all entries |
| SegReport.GetTauDif | src/behaviortree.rs:808-849 | the nested loop folds the distances of all entries of all segmentations in order |
| CsvReader.ReadCsvColumn | src/csv_reader.rs:31-58 | the selection loop returns ReadColumn: the present values at stride positions that parse, in order |
| CsvReader.ReadColumn | src/csv_reader.rs:32-56 | read_csv_file's trace: the present values at positions 0, k, 2k, ... (stride 1 for k = 0) among the records having the column, keeping those that parse |
| CsvReader.ReadColumnAll | src/csv_reader.rs:32-56 | with 0 (or 1) skipped entries every present record that parses is kept, in order |
| CsvReader.ReadColumnStrided | src/csv_reader.rs:32-56 | when the selected values parse, the trace holds the present records at positions 0, k, 2k, ... and has ceil(present / k) entries |
| CsvReader.PickedAt | src/csv_reader.rs:32-56 | the i-th selected record is the one at position i*k among the present records |
| CsvReader.PickedLength | src/csv_reader.rs:32-56 | the last present record lies Phase(n - 1, k) after the last selected multiple of k |
| CsvReader.PickedIndex | src/csv_reader.rs:32-56 | the i-th selected record is the present record at i*k |
| CsvReader.PickedCount | src/csv_reader.rs:32-56 | k*(n-1) < present <= k*n for n selected records |
| CsvReader.PickedOne | src/csv_reader.rs:32-36 | a stride of 1 keeps every present record |
| CsvReader.ParsedAll | src/csv_reader.rs:44-52 | when every selected text parses, none is dropped |
| CsvReader.Phase | src/csv_reader.rs:41-55 | the counter stays below the stride |
| CsvReader.ScanAtomic | src/csv_reader.rs:77-107 | the per-atomic loop finds the shortest closed positive and negative runs, with the range the source records |
| CsvReader.ShortestNone | src/csv_reader.rs:85-103 | a side's streak stays usize::MAX exactly when no run of it is closed |
| CsvReader.ShortestLower | src/csv_reader.rs:85-103 | no closed run is shorter than the streak |
| CsvReader.ShortestAttained | src/csv_reader.rs:85-103 | the streak is the length of the first shortest closed run, with the positive range taken at that run's end (on both sides, as written at line 100) |
| CsvReader.Shortest | src/csv_reader.rs:85-103 | the first strictly shortest closed run of the side before sample i, with the positive range up to its closing sample; a run has length at least 1 |
| CsvReader.TrailStep | src/csv_reader.rs:81-103 | a sample on the side extends the current run by one, any other sample resets it to 0 |
| CsvReader.GlobalStreaks | src/csv_reader.rs:68-116 | the outer loop keeps the first strictly shortest streak over the atomics, per side |
| CsvReader.GlobalSpec | src/csv_reader.rs:108-115 | the global streak is usize::MAX exactly when every atomic's is, and otherwise an atomic's streak that no other beats |
| CsvReader.SkipDown | src/csv_reader.rs:121-132 | the count goes down from its start to the first whole event count, or 0, and never below 0 |
| CsvReader.SkipDownExact | src/csv_reader.rs:121-132 | with exact arithmetic the choice is the largest divisor of 200 not above the start |
| CsvReader.GetBestNumberSkipped | src/csv_reader.rs:61-135 | 0 when either side never closed a run; otherwise the SkipDown choice from min(pos, neg) - 1; together with the global streaks' ranges |
| InferParameters.BuildCall | scripts/infer_parameters_visualization.py:10-72 | returns BuildCallSpec: None on a non-matching `lower:` line, else one call per block with the greedy value |
| InferParameters.BuildCallSpec | scripts/infer_parameters_visualization.py:10-72 | what build_call returns: no calls without a header, None on a malformed `lower:` line, otherwise Calls over the blocks read after the header, with the behaviour and the last greedy value |
| InferParameters.Collect | scripts/infer_parameters_visualization.py:21-35 | the blocks after the header: a `lower:` line adds its pair to the open block or aborts when it does not parse; any other line closes a non-empty block |
| InferParameters.MatchLower | scripts/infer_parameters_visualization.py:22-27 | the pattern `lower:(\s+)(\d+)(\s+)upper:(\s+)(\d+)(.*)` at the start of the line, each `+` group taking its whole run, read as (N, M) |
| InferParameters.LastParen | scripts/infer_parameters_visualization.py:37-41 | the `(\d+)` group of the greedy pattern: the rightmost `(digits)` of the line |
| InferParameters.Behavior | scripts/infer_parameters_visualization.py:45-55 | the first of Lateral, 45Deg, Oblique and Straight contained in the file name, None otherwise |
| InferParameters.ScanLog | scripts/infer_parameters_visualization.py:12-46 | the line loop yields the blocks Collect reads after the header and the GreedyLast value from before it, or None on a non-matching `lower:` line |
| InferParameters.MakeCalls | scripts/infer_parameters_visualization.py:57-71 | one call per recorded block, in block order |
| InferParameters.MakeCall | scripts/infer_parameters_visualization.py:59-70 | the loop body builds the argument list Call of block i |
| InferParameters.SegmentStrings | scripts/infer_parameters_visualization.py:64-67 | the `segment_str` loop yields the upper bounds of all segments but the last, in order |
| InferParameters.HeaderFromSpec | scripts/infer_parameters_visualization.py:17-20 | finds the first header line at or after the start, or None when there is none |
| InferParameters.HeaderAt | scripts/infer_parameters_visualization.py:12-20 | after the skipped first line, a line up to the first header is a header exactly when it is the first header |
| InferParameters.LowerLineRoundTrip | scripts/infer_parameters_visualization.py:22-28 | a printed `lower: N upper: M` line, with any blanks, is a lower line and parses back to (N, M) |
| InferParameters.BoundsRoundTrip | scripts/infer_parameters_visualization.py:23-27 | the text after `lower:` yields N and what the upper part yields |
| InferParameters.UpperRoundTrip | scripts/infer_parameters_visualization.py:23-27 | `upper: M` followed by a non-digit parses back to M |
| InferParameters.NumberThen | scripts/infer_parameters_visualization.py:26-27 | the digit run of a printed number followed by a non-digit is the whole number, and int() of it is the number |
| InferParameters.CollectNone | scripts/infer_parameters_visualization.py:21-31 | the collection aborts exactly when some line after the header starts with `lower:` but does not match the pattern |
| InferParameters.CollectFlatten | scripts/infer_parameters_visualization.py:21-35 | the closed blocks followed by the open block are all the parsed pairs, in order |
| InferParameters.CollectNonEmpty | scripts/infer_parameters_visualization.py:32-35 | only non-empty blocks are recorded |
| InferParameters.CollectClosed | scripts/infer_parameters_visualization.py:32-35 | any non-lower line closes the current block |
| InferParameters.GreedyLastSpec | scripts/infer_parameters_visualization.py:36-41 | the skipped value is 0 without a greedy line before the header, and otherwise comes from the last such line |
| InferParameters.GreedyLastNone | scripts/infer_parameters_visualization.py:36-41 | without a greedy line carrying `(N)` the skipped value is 0 |
| InferParameters.GreedyLastSome | scripts/infer_parameters_visualization.py:36-41 | with one, the value is that of the last such line |
| InferParameters.LastParenSpec | scripts/infer_parameters_visualization.py:38-41 | the greedy regex takes the last `(digits)` group on the line |
| InferParameters.LastParenNone | scripts/infer_parameters_visualization.py:38-41 | no match exactly when no `(digits)` occurs on the line |
| InferParameters.LastParenSome | scripts/infer_parameters_visualization.py:38-41 | a match yields the digits of the rightmost `(digits)` |
| InferParameters.Boundaries | scripts/infer_parameters_visualization.py:64-69 | the -s arguments are the upper bounds of all but the last segment, in order |
| InferParameters.CallShape | scripts/infer_parameters_visualization.py:63-70 | each call has the script, -l directory, -b behaviour, -s boundaries, and ends -p out -e skipped plot |
| InferParameters.OutPaths | scripts/infer_parameters_visualization.py:59-61 | block 0 writes to filename[:-4] + "_best", block i to filename[:-4] + "_a" + i |
| InferParameters.DirnameSimple | scripts/infer_parameters_visualization.py:62 | the directory of a path with a last slash is the text before it |
| InferParameters.DirnameBare | scripts/infer_parameters_visualization.py:62 | a path without a slash has an empty directory |
| ShipLandingPlot.Stride | scripts/visualize_ship_landing.py:38 | the stride is at least 1: exactly 1 for a skipped value of 0, and the skipped value otherwise |
| ShipLandingPlot.PySlice | scripts/visualize_ship_landing.py:43-49 | Python slicing clamps both bounds to the length, and element i is a[b+i] |
| ShipLandingPlot.ShowPlotPieces | scripts/visualize_ship_landing.py:37-49 | one piece per boundary, [start*k, s*k) with the next start s+1, and a trailing piece from the unscaled last start |
| ShipLandingPlot.PiecesOrdered | scripts/visualize_ship_landing.py:40-46 | for increasing boundaries, each piece is a proper range and starts k after the previous one's end |
| ShipLandingPlot.IntendedTailAfter | scripts/visualize_ship_landing.py:47-49 | a trailing piece starting at the scaled start lies after every piece |
| ShipLandingPlot.AsWrittenTailOverlaps | scripts/visualize_ship_landing.py:47-49 | as written, with k >= 2 the trailing piece starts inside the last drawn piece |
| ShipLandingPlot.TailsAgreeUnthinned | scripts/visualize_ship_landing.py:38-49 | without thinning the as-written and the scaled tails coincide |
| ShipLandingPlot.TailOverlapExample | scripts/visualize_ship_landing.py:47-49 | boundary [10] with 5 skipped: the piece is [0, 50), and the tail starts at 11 where 55 was meant |
| ShipLandingPlot.BestPlacementTotal | scripts/visualize_ship_landing.py:111-123 | the exit branch is unreachable: anything other than Lateral, 45Deg and Straight gets the oblique placement |
| ShipLandingPlot.BestPlacement | scripts/visualize_ship_landing.py:107-123 | compute_best_position's (angle, distance behind, height above): Lateral (90, 20, 20), 45Deg (135, 30, 20), Straight (180, 20, 20), and (135, 30, 20) for anything else, since the `elif "Oblique"` test is always true |
| ShipLandingPlot.PlacementMatchesConstants | scripts/visualize_ship_landing.py:108-120 | each behaviour's angle, distance and height match the monitor's maneuver constants |
| ShipLandingPlot.ComputeBestPosition | scripts/visualize_ship_landing.py:124-136 | one position per heading sample: the ship's position moved by the placement distance along the angle plus the heading, and 20 above the ship |
| ShipLandingPlot.Trunc | scripts/visualize_ship_landing.py:78 | int() truncates toward zero |
| ShipLandingPlot.NumberEvents | scripts/visualize_ship_landing.py:78 | the replay step Trunc(sample_time / frequency_logs * speed_up); None exactly on a zero frequency, where Python raises |
| ShipLandingPlot.ReplayFromShape | scripts/visualize_ship_landing.py:80-102 | the n-th drawn prefix is min(n*events, len(uas)); the loop ends after the first step past len(ship) |
| ShipLandingPlot.ReplayMonotone | scripts/visualize_ship_landing.py:80-102 | the drawn prefixes never shrink and never exceed the UAS track |
| ShipLandingPlot.ReplayFrom | scripts/visualize_ship_landing.py:80-102 | the prefix lengths live_replay draws from step cur on: min(cur, len(uas)), then from cur + events while cur has not passed the ship's trace |
| ShipLandingPlot.LiveReplay | scripts/visualize_ship_landing.py:80-102 | the while-loop draws exactly the steps ReplayFrom(0) lists |
| ManeuverConstants.UniformHeights | src/tree/shipdeck_landing/atomics/constants.rs:12-76 | every maneuver approaches 20 above the ship and touches down from 20 above the deck |
| ManeuverConstants.Deg45LikeOblique | src/tree/shipdeck_landing/atomics/constants.rs:12-58 | the 45-degree and the oblique maneuver share angle 135 and distance 30, and the oblique offset leaves 90 |
| ManeuverConstants.Deg45Value | src/tree/shipdeck_landing/atomics/constants.rs:11-20 | the 45-degree maneuver: height above the ship 20, distance 30, angle 135, height above touchdown 20 |
| ManeuverConstants.LateralValue | src/tree/shipdeck_landing/atomics/constants.rs:29-38 | the lateral maneuver: height above the ship 20, distance 20, angle 90, height above touchdown 20 |
| ManeuverConstants.ObliqueValue | src/tree/shipdeck_landing/atomics/constants.rs:49-59 | the oblique maneuver: height above the ship 20, distance 30, angle 135, oblique angle 45, height above touchdown 20 |
| ManeuverConstants.StraightValue | src/tree/shipdeck_landing/atomics/constants.rs:68-77 | the straight maneuver: height above the ship 20, distance 20, angle 180, height above touchdown 20 |
| Decimal.ParsePrinted | src/stl.rs:109-116 | reading a printed index back gives the index |

## Left out

- Lazy TBT evaluation is not modelled: the `depth_manager_tree` resume state
  and the lazy `continue`/early-exit paths in `evaluate` and
  `get_segmentation`. They depend on the history of earlier calls. The STL
  evaluator's lazy mode is modelled.
- `get_segmentation_under_restriction` and `get_alternative_segmentation`
  are not modelled.
- The geometric atomic propositions and the maneuver builders are not part
  of this model. An atomic proposition is the parameter `ap`.
- `TbtNode::pretty_print`, the text `print_segmentation` prints, `progress()`
  in behaviortree.rs, and every `println!`/`print` are not modelled. They are
  output only.
- File reading, the `csv` crate's header lookup and `str::parse::<f32>` are
  not modelled. A record is "column missing" or "column text", and the parser
  is the parameter `parse`.
- The `fract() == 0.0` test in `get_best_number_skipped` is the parameter
  `whole`, because f32 rounding decides it. `SkipDownExact` states what exact
  arithmetic would give.
- `neg_interval_values` is never read, so it is not kept.
- CsvReader.ShortestAttained: the negative streak's range is modelled as
  written (it copies `pos_interval_values`, src/csv_reader.rs:100).
- f32 values are reals without rounding. Integer indices are unbounded, so
  `usize` overflow and underflow are not modelled. `upper_index -
  lower_index` at src/table.rs:65 underflows when lower > upper (a panic in
  debug builds); the model's lookup answers None there. `lower + t - 1` at
  src/behaviortree.rs:477 and 703-708 underflows for t = 0 at lower = 0.
- TbtTree.WellFormed: excludes Timeout(0), and TbtEval.TimeoutEnd requires
  t >= 1. `TbtNode::timeout` accepts t = 0, and the source then evaluates
  the child on the empty window [lower, lower - 1]; at lower = 0 that end
  underflows. The model does not cover this case.
- NaN is outside the value domain; the source panics on it in `partial_cmp`.
- `regex` classes: `\s` and `str.strip` follow Python's Unicode white space
  (InferParameters.IsSpace lists it). `\d` is modelled as the ASCII digits
  only; Python's `\d` also matches other Unicode decimal digits.
- `subprocess.run`, matplotlib, pandas and numpy are not modelled. The
  Python entry points and argparse are not modelled either; segment
  boundaries are naturals.
- `read_csv` in visualize_ship_landing.py (z negation and the ship shift) is
  not modelled. `radians`, `cos` and `sin` are parameters of
  ComputeBestPosition.
- ShipLandingPlot.LiveReplay: requires a positive step. With a step of 0 or
  less the source loops until interrupted. `NumberEvents` gives the step
  and `Trunc` the truncation.
- MemoTable.Table.Set: the out-of-range panic is a precondition, not an
  error result.
- Sorting.SortDesc: the Rust sort is stable. The model's insertion sort is
  stable too, but stability is not stated, because only the sorted values and
  positions are used.
- The segmentation's Sequence scan reads the empty right window
  [upper + 1, upper] as -inf. `evaluate` computes that window's real value
  instead (for example +inf for a Globally). The scan and `evaluate` can
  therefore choose different splits. TbtSegmentation.SequenceHeadValue
  states the exact relation, and the model keeps the source's behaviour.
- The code, not the prose description, is followed where they differ: the
  Kleene(0) guard at src/behaviortree.rs:787 and the missing pop at
  src/behaviortree.rs:54-57 are modelled as written and as corrected (see
  Findings).

## Findings

| source | as written | input that shows it | evidently intended | confidence | as-written member | corrected member |
|---|---|---|---|---|---|---|
| src/behaviortree.rs:54-57 | `init_next_nodes_map` pushes a frame for Timeout and Kleene nodes and never pops it, so the enclosing Sequence pops the wrong frame | `Sequence(Timeout(5, a), b)`: the map gets b -> [b] besides a -> [b] | push and pop every frame, so only a -> [b] | not executed | NextNodes.MissingPopMapsRightLeaf | NextNodes.NewTbt |
| src/behaviortree.rs:787 | the Kleene(0) branch of `get_segmentation` requires `lower < upper` | a Kleene(0) over the one-sample window [3, 3] whose leaf is -inf: the segmentation reports +inf and omits the child | `lower <= upper`, as `evaluate` has it at line 527 | not executed | TbtSegmentation.KleeneSingleSampleExample | TbtSegmentation.KleeneSingleSampleKept |
| scripts/visualize_ship_landing.py:47-49 | the trailing slice starts at the unscaled `segment_start` | segments [10], 5 skipped: the last piece is [0, 50) and the tail starts at 11 | start the tail at `segment_start * number_of_skipped` (55) | not executed | ShipLandingPlot.TailOverlapExample | ShipLandingPlot.IntendedTailAfter |

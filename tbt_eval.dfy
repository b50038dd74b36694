/** Robustness of temporal behaviour trees (`TbtNode::evaluate` in
    src/behaviortree.rs, exact mode): the semantics TRob, what it means for each
    node kind, and the table-caching evaluator proved to compute it. */
module TbtEval {
  import opened Wrappers
  import opened ExtReal
  import opened Stl
  import opened TbtTree
  import opened MemoTable
  import opened StlEval
  import opened Sorting

  /*************************
   * Semantics
   *************************/

  /** The key the Parallel sort orders plain values by. */
  function Id(x: Ext): Ext
  {
    x
  }

  /** The last index a Timeout(d) lets its child see: min(upper, lower + d - 1). */
  function TimeoutEnd(lower: nat, upper: nat, d: nat): (e: nat)
    requires d >= 1
    ensures e <= upper && e < lower + d
    ensures e == upper || e == lower + d - 1
  {
    Clip(upper, lower + d - 1)
  }

  /** The two parts a Sequence splits its window between: its children, or a
      Kleene node's child and its `next` node. */
  predicate HasParts(t: TbtNode)
  {
    t.Sequence? || (t.Kleene? && t.next.Some?)
  }

  function First(t: TbtNode): TbtNode
    requires HasParts(t)
  {
    if t.Sequence? then t.left else t.child
  }

  function Second(t: TbtNode): TbtNode
    requires HasParts(t)
  {
    if t.Sequence? then t.right else t.next.value
  }

  lemma ChildWellFormed(t: TbtNode, k: nat)
    requires WellFormed(t) && (t.Fallback? || t.Parallel?) && k < |t.children|
    ensures WellFormed(t.children[k])
  {
    assert WellFormedAll(t.children);
  }

  /** The robustness of tree t on the window [lower, upper]. */
  function TRob(t: TbtNode, tr: Trace, ap: Ap, lower: nat, upper: nat): Ext
    requires WellFormed(t)
    decreases t, 3, 0
  {
    match t
    case Leaf(_, f, _) => Rob(f, tr, ap, lower, upper)
    case Fallback(_, cs) => FallbackRob(t, tr, ap, lower, upper, upper)
    case Parallel(_, m, cs) => SortDesc(ChildRobs(t, |cs|, tr, ap, lower, upper), Id)[m - 1]
    case Sequence(_, _, _) => SeqRob(t, tr, ap, lower, lower, upper, upper)
    case Timeout(_, d, c) => TRob(c, tr, ap, lower, TimeoutEnd(lower, upper, d))
    case Kleene(_, n, _, c) =>
      if lower <= upper && n > 0 then SeqRob(t, tr, ap, lower, lower, upper, upper)
      else if n == 0 && lower <= upper then TRob(c, tr, ap, lower, upper)
      else PosInf
  }

  /** The maximum over the first k children of Fallback or Parallel t on [i, upper]. */
  function ChildrenMax(t: TbtNode, k: nat, tr: Trace, ap: Ap, i: nat, upper: nat): Ext
    requires WellFormed(t) && (t.Fallback? || t.Parallel?) && k <= |t.children|
    decreases t, 1, k
  {
    if k == 0 then NegInf
    else
      ChildWellFormed(t, k - 1);
      Max(ChildrenMax(t, k - 1, tr, ap, i, upper), TRob(t.children[k - 1], tr, ap, i, upper))
  }

  /** The maximum over i = from, ..., to of ChildrenMax(t, all, i, upper). */
  function FallbackRob(t: TbtNode, tr: Trace, ap: Ap, from: nat, to: int, upper: nat): Ext
    requires WellFormed(t) && t.Fallback?
    decreases t, 2, to - from + 1
  {
    if to < from then NegInf
    else Max(FallbackRob(t, tr, ap, from, to - 1, upper), ChildrenMax(t, |t.children|, tr, ap, to, upper))
  }

  /** The values of the first k children of t on [lower, upper], in order. */
  function ChildRobs(t: TbtNode, k: nat, tr: Trace, ap: Ap, lower: nat, upper: nat): (r: seq<Ext>)
    requires WellFormed(t) && (t.Fallback? || t.Parallel?) && k <= |t.children|
    ensures |r| == k
    decreases t, 1, k
  {
    if k == 0 then []
    else
      ChildWellFormed(t, k - 1);
      ChildRobs(t, k - 1, tr, ap, lower, upper) + [TRob(t.children[k - 1], tr, ap, lower, upper)]
  }

  /** The maximum over split points i = from, ..., to of
      min(First(t)[start, i], Second(t)[i + 1, upper]). */
  function SeqRob(t: TbtNode, tr: Trace, ap: Ap, start: nat, from: nat, to: int, upper: nat): Ext
    requires WellFormed(t) && HasParts(t)
    decreases t, 1, to - from + 1
  {
    if to < from then NegInf
    else Max(SeqRob(t, tr, ap, start, from, to - 1, upper),
             Min(TRob(First(t), tr, ap, start, to), TRob(Second(t), tr, ap, to + 1, upper)))
  }

  /*************************
   * What the semantics means
   *************************/

  lemma {:induction false} ChildrenMaxIsMax(t: TbtNode, k: nat, tr: Trace, ap: Ap, i: nat, upper: nat)
    requires WellFormed(t) && (t.Fallback? || t.Parallel?) && k <= |t.children|
    ensures forall j :: 0 <= j < k ==> WellFormed(t.children[j]) && Le(TRob(t.children[j], tr, ap, i, upper), ChildrenMax(t, k, tr, ap, i, upper))
    ensures k == 0 ==> ChildrenMax(t, k, tr, ap, i, upper) == NegInf
    ensures k > 0 ==> exists j :: 0 <= j < k && WellFormed(t.children[j]) && ChildrenMax(t, k, tr, ap, i, upper) == TRob(t.children[j], tr, ap, i, upper)
    decreases k
  {
    if k > 0 {
      ChildrenMaxIsMax(t, k - 1, tr, ap, i, upper);
      ChildWellFormed(t, k - 1);
      var m := ChildrenMax(t, k - 1, tr, ap, i, upper);
      var v := ChildrenMax(t, k, tr, ap, i, upper);
      forall j | 0 <= j < k
        ensures WellFormed(t.children[j]) && Le(TRob(t.children[j], tr, ap, i, upper), v)
      {
        ChildWellFormed(t, j);
        if j < k - 1 {
          LeTrans(TRob(t.children[j], tr, ap, i, upper), m, v);
        }
      }
      if v == m && k > 1 {
        var j :| 0 <= j < k - 1 && WellFormed(t.children[j]) && m == TRob(t.children[j], tr, ap, i, upper);
        assert 0 <= j < k;
      } else {
        assert v == TRob(t.children[k - 1], tr, ap, i, upper);
      }
    }
  }

  /** Fallback is the best child at the best start: an upper bound of
      child[i, upper] for every i in [from, to] and every child, reached by one
      of them, and -inf when there is no (i, child) pair at all. */
  lemma {:induction false} FallbackIsMax(t: TbtNode, tr: Trace, ap: Ap, from: nat, to: int, upper: nat)
    requires WellFormed(t) && t.Fallback?
    ensures forall i, j :: from <= i <= to && 0 <= j < |t.children| ==>
              WellFormed(t.children[j]) && Le(TRob(t.children[j], tr, ap, i, upper), FallbackRob(t, tr, ap, from, to, upper))
    ensures (to < from || |t.children| == 0) ==> FallbackRob(t, tr, ap, from, to, upper) == NegInf
    ensures from <= to && |t.children| > 0 ==>
              exists i, j :: from <= i <= to && 0 <= j < |t.children| && WellFormed(t.children[j]) &&
                FallbackRob(t, tr, ap, from, to, upper) == TRob(t.children[j], tr, ap, i, upper)
    decreases if to < from then 0 else to - from + 1
  {
    if from <= to {
      FallbackIsMax(t, tr, ap, from, to - 1, upper);
      var n := |t.children|;
      ChildrenMaxIsMax(t, n, tr, ap, to, upper);
      var m := FallbackRob(t, tr, ap, from, to - 1, upper);
      var c := ChildrenMax(t, n, tr, ap, to, upper);
      var v := FallbackRob(t, tr, ap, from, to, upper);
      forall i, j | from <= i <= to && 0 <= j < n
        ensures WellFormed(t.children[j]) && Le(TRob(t.children[j], tr, ap, i, upper), v)
      {
        ChildWellFormed(t, j);
        if i < to {
          LeTrans(TRob(t.children[j], tr, ap, i, upper), m, v);
        } else {
          LeTrans(TRob(t.children[j], tr, ap, i, upper), c, v);
        }
      }
      if n > 0 {
        if v == c {
          var j :| 0 <= j < n && WellFormed(t.children[j]) && c == TRob(t.children[j], tr, ap, to, upper);
          assert from <= to <= to;
        } else {
          var i, j :| from <= i <= to - 1 && 0 <= j < n && WellFormed(t.children[j]) && m == TRob(t.children[j], tr, ap, i, upper);
          assert from <= i <= to;
        }
      }
    }
  }

  lemma {:induction false} ChildRobsAt(t: TbtNode, k: nat, tr: Trace, ap: Ap, lower: nat, upper: nat)
    requires WellFormed(t) && (t.Fallback? || t.Parallel?) && k <= |t.children|
    ensures forall j :: 0 <= j < k ==> WellFormed(t.children[j]) && ChildRobs(t, k, tr, ap, lower, upper)[j] == TRob(t.children[j], tr, ap, lower, upper)
    decreases k
  {
    if k > 0 {
      ChildRobsAt(t, k - 1, tr, ap, lower, upper);
      forall j | 0 <= j < k
        ensures WellFormed(t.children[j])
      {
        ChildWellFormed(t, j);
      }
    }
  }

  /** How many children of t reach at least (at most) v on [lower, upper]. */
  function ChildrenAtLeast(t: TbtNode, tr: Trace, ap: Ap, lower: nat, upper: nat, v: Ext): nat
    requires WellFormed(t) && (t.Fallback? || t.Parallel?)
  {
    CountAtLeast(ChildRobs(t, |t.children|, tr, ap, lower, upper), Id, v)
  }

  function ChildrenAtMost(t: TbtNode, tr: Trace, ap: Ap, lower: nat, upper: nat, v: Ext): nat
    requires WellFormed(t) && (t.Fallback? || t.Parallel?)
  {
    CountAtMost(ChildRobs(t, |t.children|, tr, ap, lower, upper), Id, v)
  }

  /** Parallel(m) is the m-th largest child value: at least m children reach
      it and at least |children| - m + 1 stay at or below it. */
  lemma ParallelIsMth(t: TbtNode, tr: Trace, ap: Ap, lower: nat, upper: nat)
    requires WellFormed(t) && t.Parallel?
    ensures var v := TRob(t, tr, ap, lower, upper);
            ChildrenAtLeast(t, tr, ap, lower, upper, v) >= t.m &&
            ChildrenAtMost(t, tr, ap, lower, upper, v) >= |t.children| - t.m + 1
  {
    MthLargest(ChildRobs(t, |t.children|, tr, ap, lower, upper), Id, t.m);
  }

  /** Sequence (and Kleene with a next node) is the best split: an upper bound
      of min(left[lower, i], right[i + 1, upper]) for every i in [from, to],
      reached at one of them, and -inf on an empty range. */
  lemma {:induction false} SeqIsMaxSplit(t: TbtNode, tr: Trace, ap: Ap, start: nat, from: nat, to: int, upper: nat)
    requires WellFormed(t) && HasParts(t)
    ensures WellFormed(First(t)) && WellFormed(Second(t))
    ensures forall i :: from <= i <= to ==>
              Le(Min(TRob(First(t), tr, ap, start, i), TRob(Second(t), tr, ap, i + 1, upper)), SeqRob(t, tr, ap, start, from, to, upper))
    ensures to < from ==> SeqRob(t, tr, ap, start, from, to, upper) == NegInf
    ensures from <= to ==>
              exists i :: from <= i <= to &&
                SeqRob(t, tr, ap, start, from, to, upper) == Min(TRob(First(t), tr, ap, start, i), TRob(Second(t), tr, ap, i + 1, upper))
    decreases if to < from then 0 else to - from + 1
  {
    if from <= to {
      SeqIsMaxSplit(t, tr, ap, start, from, to - 1, upper);
      var m := SeqRob(t, tr, ap, start, from, to - 1, upper);
      var v := SeqRob(t, tr, ap, start, from, to, upper);
      forall i | from <= i <= to
        ensures Le(Min(TRob(First(t), tr, ap, start, i), TRob(Second(t), tr, ap, i + 1, upper)), v)
      {
        if i < to {
          LeTrans(Min(TRob(First(t), tr, ap, start, i), TRob(Second(t), tr, ap, i + 1, upper)), m, v);
        }
      }
      if v == m && from <= to - 1 {
        var i :| from <= i <= to - 1 && m == Min(TRob(First(t), tr, ap, start, i), TRob(Second(t), tr, ap, i + 1, upper));
        assert from <= i <= to;
      } else {
        assert v == Min(TRob(First(t), tr, ap, start, to), TRob(Second(t), tr, ap, to + 1, upper));
      }
    }
  }

  /** Raising the second part pointwise can only raise the best split. */
  lemma {:induction false} SeqRobMonoSecond(t: TbtNode, t': TbtNode, tr: Trace, ap: Ap, start: nat, from: nat, to: int, upper: nat)
    requires WellFormed(t) && HasParts(t) && WellFormed(t') && HasParts(t')
    requires WellFormed(First(t)) && WellFormed(Second(t)) && WellFormed(Second(t'))
    requires First(t) == First(t')
    requires forall j :: from + 1 <= j <= to + 1 ==> Le(TRob(Second(t), tr, ap, j, upper), TRob(Second(t'), tr, ap, j, upper))
    ensures Le(SeqRob(t, tr, ap, start, from, to, upper), SeqRob(t', tr, ap, start, from, to, upper))
    decreases if to < from then 0 else to - from + 1
  {
    if from <= to {
      SeqRobMonoSecond(t, t', tr, ap, start, from, to - 1, upper);
      var a := TRob(First(t), tr, ap, start, to);
      var b := TRob(Second(t), tr, ap, to + 1, upper);
      var b' := TRob(Second(t'), tr, ap, to + 1, upper);
      assert Le(Min(a, b), Min(a, b')) by {
        if Le(a, b) {
          LeTrans(a, b, b');
        }
      }
    }
  }

  /** A Kleene(n) on a non-empty window is at least its child on the whole
      window (one repetition): take the split at upper, where the rest of the
      chain sees an empty window and gives +inf. */
  lemma KleeneAtLeastChild(start: nat, n: nat, c: TbtNode, tr: Trace, ap: Ap, lower: nat, upper: nat)
    requires WellFormed(c) && lower <= upper
    ensures WellFormed(KleeneChain(start, n, c))
    ensures Le(TRob(c, tr, ap, lower, upper), TRob(KleeneChain(start, n, c), tr, ap, lower, upper))
  {
    KleeneChainWellFormed(start, n, c);
    var k := KleeneChain(start, n, c);
    if n > 0 {
      KleeneChainWellFormed(start + 1, n - 1, c);
      SeqIsMaxSplit(k, tr, ap, lower, lower, upper, upper);
      assert TRob(Second(k), tr, ap, upper + 1, upper) == PosInf;
      assert Min(TRob(First(k), tr, ap, lower, upper), PosInf) == TRob(c, tr, ap, lower, upper);
    }
  }

  /** More repetitions never lower the robustness: Kleene(n + 1) is at least
      Kleene(n) on every window (the node indices play no part). */
  lemma {:induction false} KleeneMono(s: nat, s': nat, n: nat, c: TbtNode, tr: Trace, ap: Ap, lower: nat, upper: nat)
    requires WellFormed(c)
    ensures WellFormed(KleeneChain(s, n, c)) && WellFormed(KleeneChain(s', n + 1, c))
    ensures Le(TRob(KleeneChain(s, n, c), tr, ap, lower, upper), TRob(KleeneChain(s', n + 1, c), tr, ap, lower, upper))
    decreases n
  {
    KleeneChainWellFormed(s, n, c);
    KleeneChainWellFormed(s', n + 1, c);
    var k := KleeneChain(s, n, c);
    var k' := KleeneChain(s', n + 1, c);
    if lower <= upper {
      if n == 0 {
        KleeneAtLeastChild(s', n + 1, c, tr, ap, lower, upper);
      } else {
        KleeneChainWellFormed(s + 1, n - 1, c);
        KleeneChainWellFormed(s' + 1, n, c);
        forall j | lower + 1 <= j <= upper + 1
          ensures Le(TRob(Second(k), tr, ap, j, upper), TRob(Second(k'), tr, ap, j, upper))
        {
          KleeneMono(s + 1, s' + 1, n - 1, c, tr, ap, j, upper);
        }
        SeqRobMonoSecond(k, k', tr, ap, lower, lower, upper, upper);
      }
    }
  }

  /*************************
   * The caching evaluator
   *************************/

  /** Which subtree owns each index of the tree table. */
  type NodeDict = map<nat, TbtNode>

  /** Every node of t fits a tree table with nn first indices and owns its index
      in ndict; every leaf formula fits a formula table with fn first indices,
      reads only signals of tr and owns its indices in fdict. */
  predicate Prepared(t: TbtNode, nn: nat, fn: nat, tr: Trace, ndict: NodeDict, fdict: Dict)
    decreases t
  {
    t.idx < nn && t.idx in ndict && ndict[t.idx] == t &&
    match t
    case Leaf(_, f, _) => IdxBelow(f, fn) && NamesIn(f, tr) && Indexed(f, fdict)
    case Fallback(_, cs) => forall k :: 0 <= k < |cs| ==> Prepared(cs[k], nn, fn, tr, ndict, fdict)
    case Parallel(_, _, cs) => forall k :: 0 <= k < |cs| ==> Prepared(cs[k], nn, fn, tr, ndict, fdict)
    case Sequence(_, l, r) => Prepared(l, nn, fn, tr, ndict, fdict) && Prepared(r, nn, fn, tr, ndict, fdict)
    case Timeout(_, _, c) => Prepared(c, nn, fn, tr, ndict, fdict)
    case Kleene(_, _, nx, c) => Prepared(c, nn, fn, tr, ndict, fdict) && (nx.Some? ==> Prepared(nx.value, nn, fn, tr, ndict, fdict))
  }

  /** Every filled cell of the tree table holds the robustness of the subtree
      owning its index on that window. */
  ghost predicate TConsistent(cells: Cells, ndict: NodeDict, tr: Trace, ap: Ap)
  {
    forall i: nat, l: nat, u: nat :: CellOf(cells, i, l, u).Some? ==>
      i in ndict && WellFormed(ndict[i]) && CellOf(cells, i, l, u).value == TRob(ndict[i], tr, ap, l, u)
  }

  /** What every evaluation step needs: two distinct, well-shaped tables with room
      for every index and, when the window is not empty, for its upper bound. */
  predicate TReady(t: TbtNode, nt: Table, ft: Table, tr: Trace, lower: nat, upper: nat, ndict: NodeDict, fdict: Dict)
    reads nt, ft
  {
    nt != ft && nt.Valid() && ft.Valid() && WellFormed(t) &&
    Prepared(t, nt.amountFirstIdx, ft.amountFirstIdx, tr, ndict, fdict) &&
    (lower <= upper ==> upper < nt.traceLength && upper < ft.traceLength)
  }

  /** Both tables hold only semantic values. */
  ghost predicate BothConsistent(nt: Table, ft: Table, tr: Trace, ap: Ap, ndict: NodeDict, fdict: Dict)
    reads nt, ft
  {
    TConsistent(nt.cells, ndict, tr, ap) && Consistent(ft.cells, fdict, tr, ap, false)
  }

  lemma TSetConsistent(cells: Cells, ndict: NodeDict, tr: Trace, ap: Ap, i: nat, l: nat, u: nat, v: Ext)
    requires TConsistent(cells, ndict, tr, ap)
    requires i < |cells| && l < |cells[i]| && l <= u && u - l < |cells[i][l]|
    requires i in ndict && WellFormed(ndict[i]) && v == TRob(ndict[i], tr, ap, l, u)
    ensures TConsistent(SetCell(cells, i, l, u, v), ndict, tr, ap)
  {
    var c' := SetCell(cells, i, l, u, v);
    forall i': nat, l': nat, u': nat | CellOf(c', i', l', u').Some?
      ensures i' in ndict && WellFormed(ndict[i']) && CellOf(c', i', l', u').value == TRob(ndict[i'], tr, ap, l', u')
    {
      if (i', l', u') != (i, l, u) {
        assert CellOf(c', i', l', u') == CellOf(cells, i', l', u');
      }
    }
  }

  lemma PreparedChild(t: TbtNode, k: nat, nn: nat, fn: nat, tr: Trace, ndict: NodeDict, fdict: Dict)
    requires Prepared(t, nn, fn, tr, ndict, fdict) && WellFormed(t) && (t.Fallback? || t.Parallel?) && k < |t.children|
    ensures Prepared(t.children[k], nn, fn, tr, ndict, fdict) && WellFormed(t.children[k])
  {
    ChildWellFormed(t, k);
  }

  /** TbtNode::evaluate in exact mode: look the window up in the tree table,
      else compute it from the children (leaves through the STL evaluator and
      the formula table) and cache it when the window is not empty. */
  method TEvaluate(t: TbtNode, nt: Table, ft: Table, tr: Trace, ap: Ap, lower: nat, upper: nat,
                   ghost ndict: NodeDict, ghost fdict: Dict)
    returns (v: Ext)
    requires TReady(t, nt, ft, tr, lower, upper, ndict, fdict)
    requires BothConsistent(nt, ft, tr, ap, ndict, fdict)
    modifies nt`cells, nt`totalLookups, nt`totalSetCalls, ft`cells, ft`totalLookups, ft`totalSetCalls
    ensures nt.Valid() && ft.Valid() && BothConsistent(nt, ft, tr, ap, ndict, fdict)
    ensures v == TRob(t, tr, ap, lower, upper)
    ensures lower <= upper ==> nt.Cell(t.idx, lower, upper) == Some(v)
    decreases t, 2
  {
    var res: Option<Ext> := None;
    if lower <= upper {
      res := nt.LookupSegmentationTree(t, lower, upper);
    }
    if res.Some? {
      v := res.value;
      return;
    }
    v := TCompute(t, nt, ft, tr, ap, lower, upper, ndict, fdict);
    if lower <= upper {
      TSetConsistent(nt.cells, ndict, tr, ap, t.idx, lower, upper, v);
      nt.Set(t.idx, lower, upper, v);
    }
  }

  /** The uncached part of TbtNode::evaluate. */
  method TCompute(t: TbtNode, nt: Table, ft: Table, tr: Trace, ap: Ap, lower: nat, upper: nat,
                  ghost ndict: NodeDict, ghost fdict: Dict)
    returns (v: Ext)
    requires TReady(t, nt, ft, tr, lower, upper, ndict, fdict)
    requires BothConsistent(nt, ft, tr, ap, ndict, fdict)
    modifies nt`cells, nt`totalLookups, nt`totalSetCalls, ft`cells, ft`totalLookups, ft`totalSetCalls
    ensures nt.Valid() && ft.Valid() && BothConsistent(nt, ft, tr, ap, ndict, fdict)
    ensures v == TRob(t, tr, ap, lower, upper)
    decreases t, 1
  {
    match t {
      case Leaf(_, f, _) =>
        v := Evaluate(f, ft, tr, ap, lower, upper, false, fdict);
      case Fallback(_, _) =>
        v := EvalFallback(t, nt, ft, tr, ap, lower, upper, ndict, fdict);
      case Parallel(_, m, _) =>
        var vals := EvalChildren(t, nt, ft, tr, ap, lower, upper, ndict, fdict);
        v := SortDesc(vals, Id)[m - 1];
      case Sequence(_, _, _) =>
        v := EvalSequence(t, nt, ft, tr, ap, lower, upper, ndict, fdict);
      case Timeout(_, d, c) =>
        v := TEvaluate(c, nt, ft, tr, ap, lower, TimeoutEnd(lower, upper, d), ndict, fdict);
      case Kleene(_, n, _, c) =>
        if lower <= upper && n > 0 {
          v := EvalSequence(t, nt, ft, tr, ap, lower, upper, ndict, fdict);
        } else if n == 0 && lower <= upper {
          v := TEvaluate(c, nt, ft, tr, ap, lower, upper, ndict, fdict);
        } else {
          v := PosInf;
        }
    }
  }

  /** The loops of Fallback: for i = lower, ..., upper and every child in turn,
      v := max(child[i, upper], v). */
  method EvalFallback(t: TbtNode, nt: Table, ft: Table, tr: Trace, ap: Ap, lower: nat, upper: nat,
                      ghost ndict: NodeDict, ghost fdict: Dict)
    returns (v: Ext)
    requires t.Fallback? && TReady(t, nt, ft, tr, lower, upper, ndict, fdict)
    requires BothConsistent(nt, ft, tr, ap, ndict, fdict)
    modifies nt`cells, nt`totalLookups, nt`totalSetCalls, ft`cells, ft`totalLookups, ft`totalSetCalls
    ensures nt.Valid() && ft.Valid() && BothConsistent(nt, ft, tr, ap, ndict, fdict)
    ensures v == FallbackRob(t, tr, ap, lower, upper, upper)
    decreases t, 0
  {
    var cs := t.children;
    v := NegInf;
    var i := lower;
    while i <= upper
      invariant lower <= i && (i <= upper + 1 || i == lower)
      invariant nt.Valid() && ft.Valid() && BothConsistent(nt, ft, tr, ap, ndict, fdict)
      invariant v == FallbackRob(t, tr, ap, lower, i - 1, upper)
      decreases upper + 1 - i
    {
      ghost var before := v;
      MaxNegInf(v);
      for k := 0 to |cs|
        invariant nt.Valid() && ft.Valid() && BothConsistent(nt, ft, tr, ap, ndict, fdict)
        invariant v == Max(before, ChildrenMax(t, k, tr, ap, i, upper))
      {
        PreparedChild(t, k, nt.amountFirstIdx, ft.amountFirstIdx, tr, ndict, fdict);
        var x := TEvaluate(cs[k], nt, ft, tr, ap, i, upper, ndict, fdict);
        MaxShuffle(x, before, ChildrenMax(t, k, tr, ap, i, upper));
        v := Max(x, v);
      }
      i := i + 1;
    }
  }

  /** The loop of Parallel: every child's value on [lower, upper], in order. */
  method EvalChildren(t: TbtNode, nt: Table, ft: Table, tr: Trace, ap: Ap, lower: nat, upper: nat,
                      ghost ndict: NodeDict, ghost fdict: Dict)
    returns (vals: seq<Ext>)
    requires (t.Fallback? || t.Parallel?) && TReady(t, nt, ft, tr, lower, upper, ndict, fdict)
    requires BothConsistent(nt, ft, tr, ap, ndict, fdict)
    modifies nt`cells, nt`totalLookups, nt`totalSetCalls, ft`cells, ft`totalLookups, ft`totalSetCalls
    ensures nt.Valid() && ft.Valid() && BothConsistent(nt, ft, tr, ap, ndict, fdict)
    ensures vals == ChildRobs(t, |t.children|, tr, ap, lower, upper)
    decreases t, 0
  {
    var cs := t.children;
    vals := [];
    for k := 0 to |cs|
      invariant nt.Valid() && ft.Valid() && BothConsistent(nt, ft, tr, ap, ndict, fdict)
      invariant vals == ChildRobs(t, k, tr, ap, lower, upper)
    {
      PreparedChild(t, k, nt.amountFirstIdx, ft.amountFirstIdx, tr, ndict, fdict);
      var x := TEvaluate(cs[k], nt, ft, tr, ap, lower, upper, ndict, fdict);
      vals := vals + [x];
    }
  }

  /** The loop of Sequence (and of Kleene with n > 0): for i = lower, ..., upper,
      v := max(v, min(first[lower, i], second[i + 1, upper])). */
  method EvalSequence(t: TbtNode, nt: Table, ft: Table, tr: Trace, ap: Ap, lower: nat, upper: nat,
                      ghost ndict: NodeDict, ghost fdict: Dict)
    returns (v: Ext)
    requires HasParts(t) && TReady(t, nt, ft, tr, lower, upper, ndict, fdict)
    requires BothConsistent(nt, ft, tr, ap, ndict, fdict)
    modifies nt`cells, nt`totalLookups, nt`totalSetCalls, ft`cells, ft`totalLookups, ft`totalSetCalls
    ensures nt.Valid() && ft.Valid() && BothConsistent(nt, ft, tr, ap, ndict, fdict)
    ensures v == SeqRob(t, tr, ap, lower, lower, upper, upper)
    decreases t, 0, 1
  {
    v := NegInf;
    var i := lower;
    while i <= upper
      invariant lower <= i && (i <= upper + 1 || i == lower)
      invariant nt.Valid() && ft.Valid() && BothConsistent(nt, ft, tr, ap, ndict, fdict)
      invariant v == SeqRob(t, tr, ap, lower, lower, i - 1, upper)
      decreases upper + 1 - i
    {
      var m := SeqSplit(t, nt, ft, tr, ap, lower, i, upper, ndict, fdict);
      v := Max(v, m);
      i := i + 1;
    }
  }

  /** One split point of the Sequence loop: the first child on [lower, i],
      the second on [i + 1, upper]. */
  method SeqSplit(t: TbtNode, nt: Table, ft: Table, tr: Trace, ap: Ap, lower: nat, i: nat, upper: nat,
                  ghost ndict: NodeDict, ghost fdict: Dict)
    returns (m: Ext)
    requires HasParts(t) && TReady(t, nt, ft, tr, lower, upper, ndict, fdict)
    requires lower <= i <= upper
    requires BothConsistent(nt, ft, tr, ap, ndict, fdict)
    modifies nt`cells, nt`totalLookups, nt`totalSetCalls, ft`cells, ft`totalLookups, ft`totalSetCalls
    ensures nt.Valid() && ft.Valid() && BothConsistent(nt, ft, tr, ap, ndict, fdict)
    ensures m == Min(TRob(First(t), tr, ap, lower, i), TRob(Second(t), tr, ap, i + 1, upper))
    decreases t, 0, 0
  {
    var t1 := TEvaluate(First(t), nt, ft, tr, ap, lower, i, ndict, fdict);
    var t2 := TEvaluate(Second(t), nt, ft, tr, ap, i + 1, upper, ndict, fdict);
    m := Min(t1, t2);
  }
}

/** Reading a segmentation back from the tree table (`get_segmentation` in
    src/behaviortree.rs, exact mode), the robustness `print_segmentation`
    reports for it and the distance `get_tau_dif` measures between one node's
    window and a list of segmentations. */
module TbtSegmentation {
  import opened Wrappers
  import opened ExtReal
  import opened Stl
  import opened TbtTree
  import opened MemoTable
  import opened StlEval
  import opened Sorting
  import opened TbtEval

  /** One line of a segmentation: a node, its window and its value. */
  datatype Entry = Entry(node: TbtNode, lower: nat, upper: nat, value: Ext)

  /*************************
   * The Fallback scan
   *************************/

  /** The state of the Fallback loop: best value, where it starts, and which
      child gave it (None until some child beats the value so far). */
  datatype FbState = FbState(v: Ext, begin: nat, st: Option<nat>)

  /** The scan over the first k children at start i; None when a lookup misses
      (the source panics there in exact mode). */
  function FbRow(t: TbtNode, cells: Cells, s: FbState, i: nat, k: nat, upper: nat): (r: Option<FbState>)
    requires (t.Fallback? || t.Parallel?) && k <= |t.children|
    requires s.st.Some? ==> s.st.value < |t.children|
    ensures r.Some? ==> (r.value.st.Some? ==> r.value.st.value < |t.children|)
    ensures r.Some? ==> r.value.begin == s.begin || r.value.begin == i
    ensures r.Some? && r.value.st.Some? ==> r.value.begin == i || (s.st.Some? && r.value.begin == s.begin)
    decreases k
  {
    if k == 0 then Some(s)
    else
      match FbRow(t, cells, s, i, k - 1, upper)
      case None => None
      case Some(s') =>
        (match CellOf(cells, t.children[k - 1].idx, i, upper)
         case None => None
         case Some(x) => if Lt(s'.v, x) then Some(FbState(x, i, Some(k - 1))) else Some(s'))
  }

  /** The scan over starts i = lower, ..., to. */
  function FbRows(t: TbtNode, cells: Cells, lower: nat, to: int, upper: nat): (r: Option<FbState>)
    requires t.Fallback?
    ensures r.Some? ==> (r.value.st.Some? ==> r.value.st.value < |t.children|)
    ensures r.Some? ==> r.value.begin == lower || lower <= r.value.begin <= to
    ensures r.Some? && r.value.st.Some? ==> lower <= r.value.begin <= to
    decreases if to < lower then 0 else to - lower + 1
  {
    if to < lower then Some(FbState(NegInf, lower, None))
    else
      match FbRows(t, cells, lower, to - 1, upper)
      case None => None
      case Some(s) => FbRow(t, cells, s, to, |t.children|, upper)
  }

  /*************************
   * The Sequence scan
   *************************/

  /** The state of the Sequence loop: best value and the last index of the first part. */
  datatype SeqState = SeqState(v: Ext, change: nat)

  /** The second part's value for split point u: -inf when its window
      [u + 1, upper] is empty or not in the table. */
  function SecondVal(t: TbtNode, cells: Cells, u: nat, upper: nat): Ext
    requires HasParts(t)
  {
    if u + 1 > upper then NegInf
    else (match CellOf(cells, Second(t).idx, u + 1, upper)
          case None => NegInf
          case Some(x) => x)
  }

  /** The scan over split points u = lower, ..., to: the first part's value on
      [lower, u] must be in the table; a later split replaces the best one only
      when strictly better. */
  function SeqScan(t: TbtNode, cells: Cells, lower: nat, to: int, upper: nat): (r: Option<SeqState>)
    requires HasParts(t)
    ensures r.Some? ==> r.value.change == upper || lower <= r.value.change <= to
    decreases if to < lower then 0 else to - lower + 1
  {
    if to < lower then Some(SeqState(NegInf, upper))
    else
      match SeqScan(t, cells, lower, to - 1, upper)
      case None => None
      case Some(s) =>
        (match CellOf(cells, First(t).idx, lower, to)
         case None => None
         case Some(t1) =>
           var t2 := SecondVal(t, cells, to, upper);
           if Lt(t1, t2) then (if Lt(s.v, t1) then Some(SeqState(t1, to)) else Some(s))
           else if Lt(s.v, t2) then Some(SeqState(t2, to))
           else Some(s))
  }

  /*************************
   * Parallel
   *************************/

  /** A child's value paired with its position. */
  function PairKey(p: (Ext, nat)): Ext
  {
    p.0
  }

  /** The (value, position) pairs of the first k children on [lower, upper],
      -inf for a missing value. */
  function ParPairs(t: TbtNode, cells: Cells, k: nat, lower: nat, upper: nat): (r: seq<(Ext, nat)>)
    requires t.Parallel? && k <= |t.children|
    ensures |r| == k && forall j :: 0 <= j < k ==> r[j].1 == j
  {
    if k == 0 then []
    else
      var x := match CellOf(cells, t.children[k - 1].idx, lower, upper)
               case None => NegInf
               case Some(x) => x;
      ParPairs(t, cells, k - 1, lower, upper) + [(x, k - 1)]
  }

  /** Sorting keeps every position in range. */
  lemma SortedPositions(ps: seq<(Ext, nat)>, n: nat)
    requires forall j :: 0 <= j < |ps| ==> ps[j].1 < n
    ensures forall j :: 0 <= j < |SortDesc(ps, PairKey)| ==> SortDesc(ps, PairKey)[j].1 < n
  {
    var r := SortDesc(ps, PairKey);
    forall j | 0 <= j < |r|
      ensures r[j].1 < n
    {
      assert r[j] in multiset(r);
      assert r[j] in multiset(ps);
    }
  }

  /*************************
   * The segmentation
   *************************/

  /** TbtNode::get_segmentation on the table `cells`; None where the source
      panics. A leaf not found in the table is evaluated, which in exact mode
      gives Rob. `strictKleene` chooses the Kleene(0) guard: `lower < upper` as
      written, `lower <= upper` as `evaluate` has it. */
  function SegOf(t: TbtNode, cells: Cells, tr: Trace, ap: Ap, lower: nat, upper: nat, strictKleene: bool): (r: Option<seq<Entry>>)
    requires WellFormed(t)
    ensures r.Some? ==> |r.value| >= 1 && r.value[0].node == t && r.value[0].lower == lower && r.value[0].upper == upper
    decreases t, 1, 0
  {
    match t
    case Leaf(i, f, _) =>
      var v := if lower > upper then Rob(f, tr, ap, lower, upper)
               else (match CellOf(cells, i, lower, upper)
                     case Some(x) => x
                     case None => Rob(f, tr, ap, lower, upper));
      Some([Entry(t, lower, upper, v)])
    case Fallback(_, cs) =>
      (match FbRows(t, cells, lower, upper, upper)
       case None => None
       case Some(s) =>
         if s.st.None? then None
         else
           ChildWellFormed(t, s.st.value);
           (match SegOf(cs[s.st.value], cells, tr, ap, s.begin, upper, strictKleene)
            case None => None
            case Some(rest) => Some([Entry(t, lower, upper, s.v)] + rest)))
    case Parallel(_, m, cs) =>
      var sorted := SortDesc(ParPairs(t, cells, |cs|, lower, upper), PairKey);
      SortedPositions(ParPairs(t, cells, |cs|, lower, upper), |cs|);
      (match ParSegs(t, cells, tr, ap, sorted, m, lower, upper, strictKleene)
       case None => None
       case Some(rest) => Some([Entry(t, lower, upper, sorted[m - 1].0)] + rest))
    case Sequence(_, _, _) => SeqSeg(t, cells, tr, ap, lower, upper, strictKleene)
    case Timeout(_, d, c) =>
      var e := TimeoutEnd(lower, upper, d);
      if lower > e then
        (match SegOf(c, cells, tr, ap, lower, e, strictKleene)
         case None => None
         case Some(rest) => Some([Entry(t, lower, upper, NegInf)] + rest))
      else
        (match CellOf(cells, c.idx, lower, e)
         case None => None
         case Some(v) =>
           (match SegOf(c, cells, tr, ap, lower, e, strictKleene)
            case None => None
            case Some(rest) => Some([Entry(t, lower, upper, v)] + rest)))
    case Kleene(_, n, _, c) =>
      if lower <= upper && n > 0 then SeqSeg(t, cells, tr, ap, lower, upper, strictKleene)
      else if n == 0 && (if strictKleene then lower < upper else lower <= upper) then
        (match CellOf(cells, c.idx, lower, upper)
         case None => None
         case Some(v) =>
           (match SegOf(c, cells, tr, ap, lower, upper, strictKleene)
            case None => None
            case Some(rest) => Some([Entry(t, lower, upper, v)] + rest)))
      else Some([Entry(t, lower, upper, PosInf)])
  }

  /** The segmentations of the first j children in sorted order, concatenated. */
  function ParSegs(t: TbtNode, cells: Cells, tr: Trace, ap: Ap, sorted: seq<(Ext, nat)>, j: nat, lower: nat, upper: nat,
                   strictKleene: bool): Option<seq<Entry>>
    requires WellFormed(t) && t.Parallel? && j <= |sorted|
    requires forall p :: 0 <= p < |sorted| ==> sorted[p].1 < |t.children|
    decreases t, 0, j
  {
    if j == 0 then Some([])
    else
      match ParSegs(t, cells, tr, ap, sorted, j - 1, lower, upper, strictKleene)
      case None => None
      case Some(front) =>
        ChildWellFormed(t, sorted[j - 1].1);
        (match SegOf(t.children[sorted[j - 1].1], cells, tr, ap, lower, upper, strictKleene)
         case None => None
         case Some(s) => Some(front + s))
  }

  /** The Sequence branch (also Kleene with n > 0 on a non-empty window): the
      head entry, then the first part on [lower, change], then the second part
      on [change + 1, upper]. */
  function SeqSeg(t: TbtNode, cells: Cells, tr: Trace, ap: Ap, lower: nat, upper: nat, strictKleene: bool): (r: Option<seq<Entry>>)
    requires WellFormed(t) && HasParts(t)
    ensures r.Some? ==> |r.value| >= 1 && r.value[0] == Entry(t, lower, upper, r.value[0].value)
    decreases t, 0, 0
  {
    match SeqScan(t, cells, lower, upper, upper)
    case None => None
    case Some(s) =>
      (match SegOf(First(t), cells, tr, ap, lower, s.change, strictKleene)
      case None => None
      case Some(ls) =>
        (match SegOf(Second(t), cells, tr, ap, s.change + 1, upper, strictKleene)
         case None => None
         case Some(rs) => Some([Entry(t, lower, upper, s.v)] + ls + rs)))
  }

  /*************************
   * A failed lookup stays failed
   *************************/

  lemma {:induction false} FbRowNone(t: TbtNode, cells: Cells, s: FbState, i: nat, k: nat, k': nat, upper: nat)
    requires (t.Fallback? || t.Parallel?) && k <= k' <= |t.children|
    requires s.st.Some? ==> s.st.value < |t.children|
    requires FbRow(t, cells, s, i, k, upper).None?
    ensures FbRow(t, cells, s, i, k', upper).None?
    decreases k' - k
  {
    if k' > k {
      FbRowNone(t, cells, s, i, k, k' - 1, upper);
    }
  }

  lemma {:induction false} FbRowsNone(t: TbtNode, cells: Cells, lower: nat, to: int, to': int, upper: nat)
    requires t.Fallback? && to <= to'
    requires FbRows(t, cells, lower, to, upper).None?
    ensures FbRows(t, cells, lower, to', upper).None?
    decreases to' - to
  {
    if to' > to {
      FbRowsNone(t, cells, lower, to, to' - 1, upper);
    }
  }

  lemma {:induction false} SeqScanNone(t: TbtNode, cells: Cells, lower: nat, to: int, to': int, upper: nat)
    requires HasParts(t) && to <= to'
    requires SeqScan(t, cells, lower, to, upper).None?
    ensures SeqScan(t, cells, lower, to', upper).None?
    decreases to' - to
  {
    if to' > to {
      SeqScanNone(t, cells, lower, to, to' - 1, upper);
    }
  }

  lemma {:induction false} ParSegsNone(t: TbtNode, cells: Cells, tr: Trace, ap: Ap, sorted: seq<(Ext, nat)>, j: nat, j': nat,
                                       lower: nat, upper: nat, strictKleene: bool)
    requires WellFormed(t) && t.Parallel? && j <= j' <= |sorted|
    requires forall p :: 0 <= p < |sorted| ==> sorted[p].1 < |t.children|
    requires ParSegs(t, cells, tr, ap, sorted, j, lower, upper, strictKleene).None?
    ensures ParSegs(t, cells, tr, ap, sorted, j', lower, upper, strictKleene).None?
    decreases j' - j
  {
    if j' > j {
      ParSegsNone(t, cells, tr, ap, sorted, j, j' - 1, lower, upper, strictKleene);
    }
  }

  /*************************
   * The extractor
   *************************/

  /** TbtNode::get_segmentation in exact mode, with the Kleene(0) guard
      `lower <= upper` (see KleeneSingleSampleDropped): None where the source
      panics. It only reads the tree table; leaves missing from it are
      evaluated through the formula table. */
  method GetSegmentation(t: TbtNode, nt: Table, ft: Table, tr: Trace, ap: Ap, lower: nat, upper: nat,
                         ghost ndict: NodeDict, ghost fdict: Dict)
    returns (r: Option<seq<Entry>>)
    requires TReady(t, nt, ft, tr, lower, upper, ndict, fdict)
    requires Consistent(ft.cells, fdict, tr, ap, false)
    modifies nt`totalLookups, ft`cells, ft`totalLookups, ft`totalSetCalls
    ensures ft.Valid() && Consistent(ft.cells, fdict, tr, ap, false)
    ensures r == SegOf(t, nt.cells, tr, ap, lower, upper, false)
    decreases t, 1
  {
    match t {
      case Leaf(i, f, _) =>
        var v: Ext;
        if lower > upper {
          v := Evaluate(f, ft, tr, ap, lower, upper, false, fdict);
        } else {
          var c := nt.Lookup(i, lower, upper);
          if c.Some? {
            v := c.value;
          } else {
            v := Evaluate(f, ft, tr, ap, lower, upper, false, fdict);
          }
        }
        r := Some([Entry(t, lower, upper, v)]);
      case Fallback(_, cs) =>
        var s := FallbackScan(t, nt, lower, upper);
        if s.None? || s.value.st.None? {
          r := None;
        } else {
          PreparedChild(t, s.value.st.value, nt.amountFirstIdx, ft.amountFirstIdx, tr, ndict, fdict);
          var rest := GetSegmentation(cs[s.value.st.value], nt, ft, tr, ap, s.value.begin, upper, ndict, fdict);
          r := if rest.None? then None else Some([Entry(t, lower, upper, s.value.v)] + rest.value);
        }
      case Parallel(_, m, cs) =>
        var pairs := ParallelPairs(t, nt, lower, upper);
        var sorted := SortDesc(pairs, PairKey);
        SortedPositions(pairs, |cs|);
        var rest := ParallelSegs(t, nt, ft, tr, ap, sorted, lower, upper, ndict, fdict);
        r := if rest.None? then None else Some([Entry(t, lower, upper, sorted[m - 1].0)] + rest.value);
      case Sequence(_, _, _) =>
        r := SequenceSeg(t, nt, ft, tr, ap, lower, upper, ndict, fdict);
      case Timeout(_, d, c) =>
        var e := TimeoutEnd(lower, upper, d);
        var v := NegInf;
        if lower <= e {
          var x := nt.LookupSegmentationTree(c, lower, e);
          if x.None? {
            return None;
          }
          v := x.value;
        }
        var rest := GetSegmentation(c, nt, ft, tr, ap, lower, e, ndict, fdict);
        r := if rest.None? then None else Some([Entry(t, lower, upper, v)] + rest.value);
      case Kleene(_, n, _, c) =>
        if lower <= upper && n > 0 {
          r := SequenceSeg(t, nt, ft, tr, ap, lower, upper, ndict, fdict);
        } else if n == 0 && lower <= upper {
          var x := nt.LookupSegmentationTree(c, lower, upper);
          if x.None? {
            return None;
          }
          var rest := GetSegmentation(c, nt, ft, tr, ap, lower, upper, ndict, fdict);
          r := if rest.None? then None else Some([Entry(t, lower, upper, x.value)] + rest.value);
        } else {
          r := Some([Entry(t, lower, upper, PosInf)]);
        }
    }
  }

  /** The Fallback loops: for i = lower, ..., upper and every child in turn,
      keep the first strictly larger value, its start i and the child. */
  method FallbackScan(t: TbtNode, nt: Table, lower: nat, upper: nat) returns (r: Option<FbState>)
    requires t.Fallback?
    modifies nt`totalLookups
    ensures r == FbRows(t, nt.cells, lower, upper, upper)
  {
    var s := FbState(NegInf, lower, None);
    var i := lower;
    while i <= upper
      invariant lower <= i && (i <= upper + 1 || i == lower)
      invariant FbRows(t, nt.cells, lower, i - 1, upper) == Some(s)
      decreases upper + 1 - i
    {
      ghost var s0 := s;
      for k := 0 to |t.children|
        invariant FbRow(t, nt.cells, s0, i, k, upper) == Some(s)
      {
        var x := nt.LookupSegmentationTree(t.children[k], i, upper);
        if x.None? {
          FbRowNone(t, nt.cells, s0, i, k + 1, |t.children|, upper);
          FbRowsNone(t, nt.cells, lower, i, upper, upper);
          return None;
        }
        if Lt(s.v, x.value) {
          s := FbState(x.value, i, Some(k));
        }
      }
      i := i + 1;
    }
    r := Some(s);
  }

  /** The Parallel loop: each child's value on [lower, upper] with its
      position, -inf when it is not in the table. */
  method ParallelPairs(t: TbtNode, nt: Table, lower: nat, upper: nat) returns (pairs: seq<(Ext, nat)>)
    requires t.Parallel?
    modifies nt`totalLookups
    ensures pairs == ParPairs(t, nt.cells, |t.children|, lower, upper)
  {
    pairs := [];
    for k := 0 to |t.children|
      invariant pairs == ParPairs(t, nt.cells, k, lower, upper)
    {
      var x := nt.LookupSegmentationTree(t.children[k], lower, upper);
      var v := if x.Some? then x.value else NegInf;
      pairs := pairs + [(v, k)];
    }
  }

  /** The segmentations of the m best children, in sorted order. */
  method ParallelSegs(t: TbtNode, nt: Table, ft: Table, tr: Trace, ap: Ap, sorted: seq<(Ext, nat)>, lower: nat, upper: nat,
                      ghost ndict: NodeDict, ghost fdict: Dict)
    returns (r: Option<seq<Entry>>)
    requires t.Parallel? && TReady(t, nt, ft, tr, lower, upper, ndict, fdict)
    requires Consistent(ft.cells, fdict, tr, ap, false)
    requires t.m <= |sorted| && forall p :: 0 <= p < |sorted| ==> sorted[p].1 < |t.children|
    modifies nt`totalLookups, ft`cells, ft`totalLookups, ft`totalSetCalls
    ensures ft.Valid() && Consistent(ft.cells, fdict, tr, ap, false)
    ensures r == ParSegs(t, nt.cells, tr, ap, sorted, t.m, lower, upper, false)
    decreases t, 0
  {
    var acc: seq<Entry> := [];
    for j := 0 to t.m
      invariant TReady(t, nt, ft, tr, lower, upper, ndict, fdict)
      invariant Consistent(ft.cells, fdict, tr, ap, false)
      invariant ParSegs(t, nt.cells, tr, ap, sorted, j, lower, upper, false) == Some(acc)
    {
      PreparedChild(t, sorted[j].1, nt.amountFirstIdx, ft.amountFirstIdx, tr, ndict, fdict);
      var s := GetSegmentation(t.children[sorted[j].1], nt, ft, tr, ap, lower, upper, ndict, fdict);
      if s.None? {
        ParSegsNone(t, nt.cells, tr, ap, sorted, j + 1, t.m, lower, upper, false);
        return None;
      }
      acc := acc + s.value;
    }
    r := Some(acc);
  }

  /** The Sequence loop: for u = lower, ..., upper compare the first part on
      [lower, u] with the second on [u + 1, upper] (-inf when that window is
      empty or missing) and keep the first strictly better split. */
  method SequenceScan(t: TbtNode, nt: Table, lower: nat, upper: nat) returns (r: Option<SeqState>)
    requires HasParts(t)
    modifies nt`totalLookups
    ensures r == SeqScan(t, nt.cells, lower, upper, upper)
  {
    var s := SeqState(NegInf, upper);
    var u := lower;
    while u <= upper
      invariant lower <= u && (u <= upper + 1 || u == lower)
      invariant SeqScan(t, nt.cells, lower, u - 1, upper) == Some(s)
      decreases upper + 1 - u
    {
      var c1 := nt.LookupSegmentationTree(First(t), lower, u);
      if c1.None? {
        SeqScanNone(t, nt.cells, lower, u, upper, upper);
        return None;
      }
      var t1 := c1.value;
      var t2 := NegInf;
      if u + 1 <= upper {
        var c2 := nt.LookupSegmentationTree(Second(t), u + 1, upper);
        if c2.Some? {
          t2 := c2.value;
        }
      }
      if Lt(t1, t2) {
        if Lt(s.v, t1) {
          s := SeqState(t1, u);
        }
      } else if Lt(s.v, t2) {
        s := SeqState(t2, u);
      }
      u := u + 1;
    }
    r := Some(s);
  }

  /** The Sequence branch: the scan, then both parts' segmentations. */
  method SequenceSeg(t: TbtNode, nt: Table, ft: Table, tr: Trace, ap: Ap, lower: nat, upper: nat,
                     ghost ndict: NodeDict, ghost fdict: Dict)
    returns (r: Option<seq<Entry>>)
    requires HasParts(t) && TReady(t, nt, ft, tr, lower, upper, ndict, fdict)
    requires Consistent(ft.cells, fdict, tr, ap, false)
    modifies nt`totalLookups, ft`cells, ft`totalLookups, ft`totalSetCalls
    ensures ft.Valid() && Consistent(ft.cells, fdict, tr, ap, false)
    ensures r == SeqSeg(t, nt.cells, tr, ap, lower, upper, false)
    decreases t, 0
  {
    var s := SequenceScan(t, nt, lower, upper);
    if s.None? {
      return None;
    }
    var ls := GetSegmentation(First(t), nt, ft, tr, ap, lower, s.value.change, ndict, fdict);
    if ls.None? {
      return None;
    }
    var rs := GetSegmentation(Second(t), nt, ft, tr, ap, s.value.change + 1, upper, ndict, fdict);
    if rs.None? {
      return None;
    }
    r := Some([Entry(t, lower, upper, s.value.v)] + ls.value + rs.value);
  }

  /*************************
   * Where the entries lie
   *************************/

  /** Every entry over a non-empty window lies inside [lower, upper]. */
  predicate Within(s: seq<Entry>, lower: nat, upper: nat)
  {
    forall k :: 0 <= k < |s| && s[k].lower <= s[k].upper ==> lower <= s[k].lower && s[k].upper <= upper
  }

  lemma WithinWiden(s: seq<Entry>, l: nat, u: nat, l': nat, u': nat)
    requires Within(s, l, u) && ((l' <= l && u <= u') || l > u)
    ensures Within(s, l', u')
  {
  }

  lemma WithinAppend(a: seq<Entry>, b: seq<Entry>, lower: nat, upper: nat)
    requires Within(a, lower, upper) && Within(b, lower, upper)
    ensures Within(a + b, lower, upper)
  {
    forall k | 0 <= k < |a + b| && (a + b)[k].lower <= (a + b)[k].upper
      ensures lower <= (a + b)[k].lower && (a + b)[k].upper <= upper
    {
      if k >= |a| {
        assert (a + b)[k] == b[k - |a|];
      }
    }
  }

  /** No segment leaves the window it was asked for: the children of a node
      only ever look at sub-windows of its own (or at empty windows). */
  lemma {:induction false} SegWithin(t: TbtNode, cells: Cells, tr: Trace, ap: Ap, lower: nat, upper: nat, strictKleene: bool)
    requires WellFormed(t)
    ensures SegOf(t, cells, tr, ap, lower, upper, strictKleene).Some? ==>
            Within(SegOf(t, cells, tr, ap, lower, upper, strictKleene).value, lower, upper)
    decreases t, 1
  {
    var r := SegOf(t, cells, tr, ap, lower, upper, strictKleene);
    if r.Some? {
      var head := [Entry(t, lower, upper, r.value[0].value)];
      match t {
        case Leaf(_, _, _) =>
        case Fallback(_, cs) =>
          var s := FbRows(t, cells, lower, upper, upper).value;
          ChildWellFormed(t, s.st.value);
          SegWithin(cs[s.st.value], cells, tr, ap, s.begin, upper, strictKleene);
          var rest := SegOf(cs[s.st.value], cells, tr, ap, s.begin, upper, strictKleene).value;
          WithinWiden(rest, s.begin, upper, lower, upper);
          WithinAppend(head, rest, lower, upper);
          assert r.value == head + rest;
        case Parallel(_, m, cs) =>
          var sorted := SortDesc(ParPairs(t, cells, |cs|, lower, upper), PairKey);
          SortedPositions(ParPairs(t, cells, |cs|, lower, upper), |cs|);
          ParSegsWithin(t, cells, tr, ap, sorted, m, lower, upper, strictKleene);
          WithinAppend(head, ParSegs(t, cells, tr, ap, sorted, m, lower, upper, strictKleene).value, lower, upper);
        case Sequence(_, _, _) =>
          SeqSegWithin(t, cells, tr, ap, lower, upper, strictKleene);
        case Timeout(_, d, c) =>
          var e := TimeoutEnd(lower, upper, d);
          SegWithin(c, cells, tr, ap, lower, e, strictKleene);
          var rest := SegOf(c, cells, tr, ap, lower, e, strictKleene).value;
          WithinWiden(rest, lower, e, lower, upper);
          WithinAppend(head, rest, lower, upper);
          assert r.value == head + rest;
        case Kleene(_, n, _, c) =>
          if lower <= upper && n > 0 {
            SeqSegWithin(t, cells, tr, ap, lower, upper, strictKleene);
          } else if n == 0 && (if strictKleene then lower < upper else lower <= upper) {
            SegWithin(c, cells, tr, ap, lower, upper, strictKleene);
            var rest := SegOf(c, cells, tr, ap, lower, upper, strictKleene).value;
            WithinAppend(head, rest, lower, upper);
            assert r.value == head + rest;
          }
      }
    }
  }

  lemma {:induction false} ParSegsWithin(t: TbtNode, cells: Cells, tr: Trace, ap: Ap, sorted: seq<(Ext, nat)>, j: nat,
                                         lower: nat, upper: nat, strictKleene: bool)
    requires WellFormed(t) && t.Parallel? && j <= |sorted|
    requires forall p :: 0 <= p < |sorted| ==> sorted[p].1 < |t.children|
    ensures ParSegs(t, cells, tr, ap, sorted, j, lower, upper, strictKleene).Some? ==>
            Within(ParSegs(t, cells, tr, ap, sorted, j, lower, upper, strictKleene).value, lower, upper)
    decreases t, 0, j
  {
    if j > 0 && ParSegs(t, cells, tr, ap, sorted, j, lower, upper, strictKleene).Some? {
      ParSegsWithin(t, cells, tr, ap, sorted, j - 1, lower, upper, strictKleene);
      ChildWellFormed(t, sorted[j - 1].1);
      SegWithin(t.children[sorted[j - 1].1], cells, tr, ap, lower, upper, strictKleene);
      WithinAppend(ParSegs(t, cells, tr, ap, sorted, j - 1, lower, upper, strictKleene).value,
                   SegOf(t.children[sorted[j - 1].1], cells, tr, ap, lower, upper, strictKleene).value, lower, upper);
    }
  }

  lemma {:induction false} SeqSegWithin(t: TbtNode, cells: Cells, tr: Trace, ap: Ap, lower: nat, upper: nat, strictKleene: bool)
    requires WellFormed(t) && HasParts(t)
    ensures SeqSeg(t, cells, tr, ap, lower, upper, strictKleene).Some? ==>
            Within(SeqSeg(t, cells, tr, ap, lower, upper, strictKleene).value, lower, upper)
    decreases t, 0, 0
  {
    var r := SeqSeg(t, cells, tr, ap, lower, upper, strictKleene);
    if r.Some? {
      var s := SeqScan(t, cells, lower, upper, upper).value;
      SegWithin(First(t), cells, tr, ap, lower, s.change, strictKleene);
      SegWithin(Second(t), cells, tr, ap, s.change + 1, upper, strictKleene);
      var ls := SegOf(First(t), cells, tr, ap, lower, s.change, strictKleene).value;
      var rs := SegOf(Second(t), cells, tr, ap, s.change + 1, upper, strictKleene).value;
      var head := [Entry(t, lower, upper, s.v)];
      WithinWiden(ls, lower, s.change, lower, upper);
      WithinWiden(rs, s.change + 1, upper, lower, upper);
      WithinAppend(head, ls, lower, upper);
      WithinAppend(head + ls, rs, lower, upper);
      assert r.value == head + ls + rs;
    }
  }

  /** A Sequence (or Kleene with n > 0) over a non-empty window hands
      [lower, c] to its first part and [c + 1, upper] to its second, for one
      c in [lower, upper]: the two windows split the node's own. */
  lemma SequenceSplits(t: TbtNode, cells: Cells, tr: Trace, ap: Ap, lower: nat, upper: nat, strictKleene: bool)
    requires WellFormed(t) && HasParts(t) && lower <= upper
    requires SeqSeg(t, cells, tr, ap, lower, upper, strictKleene).Some?
    ensures var s := SeqSeg(t, cells, tr, ap, lower, upper, strictKleene).value;
            |s| > 2 && s[1].node == First(t) && s[1].lower == lower && lower <= s[1].upper <= upper &&
            exists k :: 1 < k < |s| && s[k].node == Second(t) && s[k].lower == s[1].upper + 1 && s[k].upper == upper
  {
    var sc := SeqScan(t, cells, lower, upper, upper).value;
    var ls := SegOf(First(t), cells, tr, ap, lower, sc.change, strictKleene).value;
    var rs := SegOf(Second(t), cells, tr, ap, sc.change + 1, upper, strictKleene).value;
    var s := SeqSeg(t, cells, tr, ap, lower, upper, strictKleene).value;
    assert s == [Entry(t, lower, upper, sc.v)] + ls + rs;
    assert s[1] == ls[0];
    assert s[1 + |ls|] == rs[0];
  }

  /*************************
   * The values the entries carry
   *************************/

  /** Node c owns its index in ndict. */
  predicate Owns(c: TbtNode, ndict: NodeDict)
  {
    c.idx in ndict && ndict[c.idx] == c
  }

  /** A filled cell of a node holds the node's robustness. */
  lemma CellIsRob(cells: Cells, ndict: NodeDict, tr: Trace, ap: Ap, c: TbtNode, l: nat, u: nat)
    requires TConsistent(cells, ndict, tr, ap) && Owns(c, ndict) && CellOf(cells, c.idx, l, u).Some?
    ensures WellFormed(c) && CellOf(cells, c.idx, l, u).value == TRob(c, tr, ap, l, u)
  {
  }

  /** The Fallback scan at start i is the maximum of its starting value and the
      children's values on [i, upper]. */
  lemma {:induction false} FbRowValue(t: TbtNode, cells: Cells, tr: Trace, ap: Ap, ndict: NodeDict, s: FbState, i: nat, k: nat, upper: nat)
    requires WellFormed(t) && t.Fallback? && k <= |t.children|
    requires s.st.Some? ==> s.st.value < |t.children|
    requires TConsistent(cells, ndict, tr, ap) && forall j :: 0 <= j < |t.children| ==> Owns(t.children[j], ndict)
    requires FbRow(t, cells, s, i, k, upper).Some?
    ensures FbRow(t, cells, s, i, k, upper).value.v == Max(s.v, ChildrenMax(t, k, tr, ap, i, upper))
    decreases k
  {
    if k == 0 {
      MaxNegInf(s.v);
    } else {
      FbRowValue(t, cells, tr, ap, ndict, s, i, k - 1, upper);
      var c := t.children[k - 1];
      CellIsRob(cells, ndict, tr, ap, c, i, upper);
      MaxAssoc(s.v, ChildrenMax(t, k - 1, tr, ap, i, upper), TRob(c, tr, ap, i, upper));
    }
  }

  /** The whole Fallback scan finds the Fallback's robustness. */
  lemma {:induction false} FbRowsValue(t: TbtNode, cells: Cells, tr: Trace, ap: Ap, ndict: NodeDict, lower: nat, to: int, upper: nat)
    requires WellFormed(t) && t.Fallback?
    requires TConsistent(cells, ndict, tr, ap) && forall j :: 0 <= j < |t.children| ==> Owns(t.children[j], ndict)
    requires FbRows(t, cells, lower, to, upper).Some?
    ensures FbRows(t, cells, lower, to, upper).value.v == FallbackRob(t, tr, ap, lower, to, upper)
    decreases if to < lower then 0 else to - lower + 1
  {
    if to >= lower {
      FbRowsValue(t, cells, tr, ap, ndict, lower, to - 1, upper);
      FbRowValue(t, cells, tr, ap, ndict, FbRows(t, cells, lower, to - 1, upper).value, to, |t.children|, upper);
    }
  }

  /** The Parallel values are at most the children's robustness... */
  lemma {:induction false} ParPairsValue(t: TbtNode, cells: Cells, tr: Trace, ap: Ap, ndict: NodeDict, k: nat, lower: nat, upper: nat)
    requires WellFormed(t) && t.Parallel? && k <= |t.children|
    requires TConsistent(cells, ndict, tr, ap) && forall j :: 0 <= j < |t.children| ==> Owns(t.children[j], ndict)
    ensures forall j :: 0 <= j < k ==> Le(ParPairs(t, cells, k, lower, upper)[j].0, ChildRobs(t, k, tr, ap, lower, upper)[j])
    decreases k
  {
    if k > 0 {
      ParPairsValue(t, cells, tr, ap, ndict, k - 1, lower, upper);
      var c := t.children[k - 1];
      ChildWellFormed(t, k - 1);
      var ps := ParPairs(t, cells, k, lower, upper);
      var rs := ChildRobs(t, k, tr, ap, lower, upper);
      assert ps[..k - 1] == ParPairs(t, cells, k - 1, lower, upper);
      assert rs[..k - 1] == ChildRobs(t, k - 1, tr, ap, lower, upper);
      assert rs[k - 1] == TRob(c, tr, ap, lower, upper);
      if CellOf(cells, c.idx, lower, upper).Some? {
        CellIsRob(cells, ndict, tr, ap, c, lower, upper);
      }
      forall j | 0 <= j < k
        ensures Le(ps[j].0, rs[j])
      {
        if j < k - 1 {
          assert ps[j] == ps[..k - 1][j] && rs[j] == rs[..k - 1][j];
        }
      }
    }
  }

  /** ... and equal to it when every cell is filled. */
  lemma {:induction false} ParPairsFilled(t: TbtNode, cells: Cells, tr: Trace, ap: Ap, ndict: NodeDict, k: nat, lower: nat, upper: nat)
    requires WellFormed(t) && t.Parallel? && k <= |t.children|
    requires TConsistent(cells, ndict, tr, ap) && forall j :: 0 <= j < |t.children| ==> Owns(t.children[j], ndict)
    requires forall j :: 0 <= j < |t.children| ==> CellOf(cells, t.children[j].idx, lower, upper).Some?
    ensures forall j :: 0 <= j < k ==> ParPairs(t, cells, k, lower, upper)[j].0 == ChildRobs(t, k, tr, ap, lower, upper)[j]
    decreases k
  {
    if k > 0 {
      ParPairsFilled(t, cells, tr, ap, ndict, k - 1, lower, upper);
      var c := t.children[k - 1];
      ChildWellFormed(t, k - 1);
      CellIsRob(cells, ndict, tr, ap, c, lower, upper);
      var ps := ParPairs(t, cells, k, lower, upper);
      var rs := ChildRobs(t, k, tr, ap, lower, upper);
      assert ps[..k - 1] == ParPairs(t, cells, k - 1, lower, upper);
      assert rs[..k - 1] == ChildRobs(t, k - 1, tr, ap, lower, upper);
      assert rs[k - 1] == TRob(c, tr, ap, lower, upper);
      forall j | 0 <= j < k
        ensures ps[j].0 == rs[j]
      {
        if j < k - 1 {
          assert ps[j] == ps[..k - 1][j] && rs[j] == rs[..k - 1][j];
        }
      }
    }
  }

  /** One step of the Sequence scan takes the maximum with min(t1, t2). */
  lemma SeqStep(v: Ext, t1: Ext, t2: Ext)
    ensures (if Lt(t1, t2) then (if Lt(v, t1) then t1 else v) else if Lt(v, t2) then t2 else v) == Max(v, Min(t1, t2))
  {
    LeTotal(t1, t2);
    LeTotal(v, t1);
    LeTotal(v, t2);
  }

  /** The scan up to split point `to` folds min(first, second) at `to` into
      the scan up to `to - 1`. */
  lemma SeqScanStep(t: TbtNode, cells: Cells, lower: nat, to: nat, upper: nat)
    requires HasParts(t) && lower <= to && SeqScan(t, cells, lower, to, upper).Some?
    ensures SeqScan(t, cells, lower, to - 1, upper).Some? && CellOf(cells, First(t).idx, lower, to).Some?
    ensures SeqScan(t, cells, lower, to, upper).value.v ==
            Max(SeqScan(t, cells, lower, to - 1, upper).value.v,
                Min(CellOf(cells, First(t).idx, lower, to).value, SecondVal(t, cells, to, upper)))
  {
    SeqStep(SeqScan(t, cells, lower, to - 1, upper).value.v, CellOf(cells, First(t).idx, lower, to).value, SecondVal(t, cells, to, upper));
  }

  /** Filled cells give the true split values: the first part's always, the
      second part's where its window is not empty and its cell is filled. */
  lemma SplitValue(t: TbtNode, cells: Cells, tr: Trace, ap: Ap, ndict: NodeDict, lower: nat, u: nat, upper: nat)
    requires WellFormed(t) && HasParts(t)
    requires TConsistent(cells, ndict, tr, ap) && Owns(First(t), ndict) && Owns(Second(t), ndict)
    requires CellOf(cells, First(t).idx, lower, u).Some?
    ensures WellFormed(First(t)) && WellFormed(Second(t))
    ensures Le(Min(CellOf(cells, First(t).idx, lower, u).value, SecondVal(t, cells, u, upper)),
               Min(TRob(First(t), tr, ap, lower, u), TRob(Second(t), tr, ap, u + 1, upper)))
    ensures u + 1 <= upper && CellOf(cells, Second(t).idx, u + 1, upper).Some? ==>
            Min(CellOf(cells, First(t).idx, lower, u).value, SecondVal(t, cells, u, upper)) ==
            Min(TRob(First(t), tr, ap, lower, u), TRob(Second(t), tr, ap, u + 1, upper))
  {
    CellIsRob(cells, ndict, tr, ap, First(t), lower, u);
    if u + 1 <= upper && CellOf(cells, Second(t).idx, u + 1, upper).Some? {
      CellIsRob(cells, ndict, tr, ap, Second(t), u + 1, upper);
    }
    var r1 := TRob(First(t), tr, ap, lower, u);
    MaxMinMono(r1, r1, SecondVal(t, cells, u, upper), TRob(Second(t), tr, ap, u + 1, upper));
  }

  /** The Sequence scan's value is at most the semantic maximum over the same
      splits. */
  lemma {:induction false} SeqScanLe(t: TbtNode, cells: Cells, tr: Trace, ap: Ap, ndict: NodeDict, lower: nat, to: int, upper: nat)
    requires WellFormed(t) && HasParts(t)
    requires TConsistent(cells, ndict, tr, ap) && Owns(First(t), ndict) && Owns(Second(t), ndict)
    requires SeqScan(t, cells, lower, to, upper).Some?
    ensures Le(SeqScan(t, cells, lower, to, upper).value.v, SeqRob(t, tr, ap, lower, lower, to, upper))
    decreases if to < lower then 0 else to - lower + 1
  {
    if to >= lower {
      SeqScanStep(t, cells, lower, to, upper);
      SeqScanLe(t, cells, tr, ap, ndict, lower, to - 1, upper);
      SplitValue(t, cells, tr, ap, ndict, lower, to, upper);
      MaxMinMono(SeqScan(t, cells, lower, to - 1, upper).value.v, SeqRob(t, tr, ap, lower, lower, to - 1, upper),
                 Min(CellOf(cells, First(t).idx, lower, to).value, SecondVal(t, cells, to, upper)),
                 Min(TRob(First(t), tr, ap, lower, to), TRob(Second(t), tr, ap, to + 1, upper)));
    }
  }

  /** Every second-part lookup of the scan over [lower, to] with a non-empty
      window finds its cell. */
  predicate SecondsFilled(t: TbtNode, cells: Cells, lower: nat, to: int, upper: nat)
    requires HasParts(t)
  {
    forall w: nat :: lower < w <= to + 1 && w <= upper ==> CellOf(cells, Second(t).idx, w, upper).Some?
  }

  /** With the second parts filled, the Sequence scan's value is the semantic
      maximum over the splits whose second window is not empty: the split that
      gives the whole window to the first part is never chosen. */
  lemma {:induction false} SeqScanFilled(t: TbtNode, cells: Cells, tr: Trace, ap: Ap, ndict: NodeDict, lower: nat, to: int, upper: nat)
    requires WellFormed(t) && HasParts(t)
    requires TConsistent(cells, ndict, tr, ap) && Owns(First(t), ndict) && Owns(Second(t), ndict)
    requires SeqScan(t, cells, lower, to, upper).Some? && SecondsFilled(t, cells, lower, to, upper)
    ensures SeqScan(t, cells, lower, to, upper).value.v == SeqRob(t, tr, ap, lower, lower, if to < upper then to else upper - 1, upper)
    decreases if to < lower then 0 else to - lower + 1
  {
    if to >= lower {
      SeqScanStep(t, cells, lower, to, upper);
      assert SecondsFilled(t, cells, lower, to - 1, upper);
      SeqScanFilled(t, cells, tr, ap, ndict, lower, to - 1, upper);
      if to + 1 > upper {
        MaxNegInf(SeqScan(t, cells, lower, to - 1, upper).value.v);
      } else {
        assert CellOf(cells, Second(t).idx, to + 1, upper).Some?;
        SplitValue(t, cells, tr, ap, ndict, lower, to, upper);
      }
    }
  }

  /** A leaf's entry carries its robustness. */
  lemma LeafHeadValue(t: TbtNode, cells: Cells, tr: Trace, ap: Ap, lower: nat, upper: nat, ndict: NodeDict)
    requires t.Leaf? && Owns(t, ndict) && TConsistent(cells, ndict, tr, ap)
    ensures SegOf(t, cells, tr, ap, lower, upper, false).value[0].value == TRob(t, tr, ap, lower, upper)
  {
    if lower <= upper && CellOf(cells, t.idx, lower, upper).Some? {
      CellIsRob(cells, ndict, tr, ap, t, lower, upper);
    }
  }

  /** A Fallback's entry carries its robustness. */
  lemma FallbackHeadValue(t: TbtNode, cells: Cells, tr: Trace, ap: Ap, lower: nat, upper: nat,
                          nn: nat, fn: nat, ndict: NodeDict, fdict: Dict)
    requires t.Fallback? && WellFormed(t) && Prepared(t, nn, fn, tr, ndict, fdict) && TConsistent(cells, ndict, tr, ap)
    requires SegOf(t, cells, tr, ap, lower, upper, false).Some?
    ensures SegOf(t, cells, tr, ap, lower, upper, false).value[0].value == TRob(t, tr, ap, lower, upper)
  {
    ChildrenOwned(t, nn, fn, tr, ndict, fdict);
    FbRowsValue(t, cells, tr, ap, ndict, lower, upper, upper);
  }

  /** The m-th largest of the pairs' values against the m-th largest of the
      values: at most it when every pair's value is at most the value at the
      same position, equal to it when they are all equal. */
  lemma PairsMth(pairs: seq<(Ext, nat)>, robs: seq<Ext>, m: nat)
    requires 1 <= m <= |pairs| && |pairs| == |robs|
    requires forall j :: 0 <= j < |pairs| ==> Le(pairs[j].0, robs[j])
    ensures Le(MthKey(pairs, PairKey, m), MthKey(robs, Id, m))
    ensures (forall j :: 0 <= j < |pairs| ==> pairs[j].0 == robs[j]) ==> MthKey(pairs, PairKey, m) == MthKey(robs, Id, m)
  {
    MthLargestMono(pairs, PairKey, robs, Id, m);
    if forall j :: 0 <= j < |pairs| ==> pairs[j].0 == robs[j] {
      MthLargestMono(robs, Id, pairs, PairKey, m);
      LeAntisym(MthKey(pairs, PairKey, m), MthKey(robs, Id, m));
    }
  }

  /** The head of a Parallel's segmentation is the m-th largest pair value. */
  lemma ParallelHead(t: TbtNode, cells: Cells, tr: Trace, ap: Ap, lower: nat, upper: nat)
    requires t.Parallel? && WellFormed(t) && SegOf(t, cells, tr, ap, lower, upper, false).Some?
    ensures SegOf(t, cells, tr, ap, lower, upper, false).value[0].value == MthKey(ParPairs(t, cells, |t.children|, lower, upper), PairKey, t.m)
  {
  }

  lemma ParallelIsSorted(t: TbtNode, tr: Trace, ap: Ap, lower: nat, upper: nat)
    requires t.Parallel? && WellFormed(t)
    ensures TRob(t, tr, ap, lower, upper) == MthKey(ChildRobs(t, |t.children|, tr, ap, lower, upper), Id, t.m)
  {
  }

  /** The Parallel head against the children's robustness, given how the
      pair values relate to it. */
  lemma ParallelHeadFromPairs(t: TbtNode, cells: Cells, tr: Trace, ap: Ap, lower: nat, upper: nat, filled: bool)
    requires t.Parallel? && WellFormed(t) && SegOf(t, cells, tr, ap, lower, upper, false).Some?
    requires forall j :: 0 <= j < |t.children| ==>
               Le(ParPairs(t, cells, |t.children|, lower, upper)[j].0, ChildRobs(t, |t.children|, tr, ap, lower, upper)[j])
    requires filled ==> forall j :: 0 <= j < |t.children| ==>
               ParPairs(t, cells, |t.children|, lower, upper)[j].0 == ChildRobs(t, |t.children|, tr, ap, lower, upper)[j]
    ensures Le(SegOf(t, cells, tr, ap, lower, upper, false).value[0].value, TRob(t, tr, ap, lower, upper))
    ensures filled ==> SegOf(t, cells, tr, ap, lower, upper, false).value[0].value == TRob(t, tr, ap, lower, upper)
  {
    PairsMth(ParPairs(t, cells, |t.children|, lower, upper), ChildRobs(t, |t.children|, tr, ap, lower, upper), t.m);
    ParallelHead(t, cells, tr, ap, lower, upper);
    ParallelIsSorted(t, tr, ap, lower, upper);
  }

  /** A Parallel's entry is at most its robustness (a missing child counts as
      -inf), and equal to it when every child's cell is filled. */
  lemma ParallelHeadValue(t: TbtNode, cells: Cells, tr: Trace, ap: Ap, lower: nat, upper: nat,
                          nn: nat, fn: nat, ndict: NodeDict, fdict: Dict)
    requires t.Parallel? && WellFormed(t) && Prepared(t, nn, fn, tr, ndict, fdict) && TConsistent(cells, ndict, tr, ap)
    requires SegOf(t, cells, tr, ap, lower, upper, false).Some?
    ensures Le(SegOf(t, cells, tr, ap, lower, upper, false).value[0].value, TRob(t, tr, ap, lower, upper))
    ensures (forall k :: 0 <= k < |t.children| ==> CellOf(cells, t.children[k].idx, lower, upper).Some?) ==>
            SegOf(t, cells, tr, ap, lower, upper, false).value[0].value == TRob(t, tr, ap, lower, upper)
  {
    var filled := forall k :: 0 <= k < |t.children| ==> CellOf(cells, t.children[k].idx, lower, upper).Some?;
    ChildrenOwned(t, nn, fn, tr, ndict, fdict);
    ParPairsValue(t, cells, tr, ap, ndict, |t.children|, lower, upper);
    if filled {
      ParPairsFilled(t, cells, tr, ap, ndict, |t.children|, lower, upper);
    }
    ParallelHeadFromPairs(t, cells, tr, ap, lower, upper, filled);
  }

  /** The children of a prepared Fallback or Parallel own their indices. */
  lemma ChildrenOwned(t: TbtNode, nn: nat, fn: nat, tr: Trace, ndict: NodeDict, fdict: Dict)
    requires (t.Fallback? || t.Parallel?) && Prepared(t, nn, fn, tr, ndict, fdict)
    ensures forall j :: 0 <= j < |t.children| ==> Owns(t.children[j], ndict)
  {
    forall j | 0 <= j < |t.children|
      ensures Owns(t.children[j], ndict)
    {
      assert Prepared(t.children[j], nn, fn, tr, ndict, fdict);
    }
  }

  /** The Sequence entry (also Kleene with n > 0 on a non-empty window) is at
      most the maximum over all splits; with the second parts filled it is the
      maximum over the splits that leave the second part a non-empty window. */
  lemma SequenceHeadValue(t: TbtNode, cells: Cells, tr: Trace, ap: Ap, lower: nat, upper: nat,
                          nn: nat, fn: nat, ndict: NodeDict, fdict: Dict)
    requires HasParts(t) && WellFormed(t) && Prepared(t, nn, fn, tr, ndict, fdict) && TConsistent(cells, ndict, tr, ap)
    requires SeqSeg(t, cells, tr, ap, lower, upper, false).Some?
    ensures Le(SeqSeg(t, cells, tr, ap, lower, upper, false).value[0].value, SeqRob(t, tr, ap, lower, lower, upper, upper))
    ensures SecondsFilled(t, cells, lower, upper, upper) ==>
            SeqSeg(t, cells, tr, ap, lower, upper, false).value[0].value == SeqRob(t, tr, ap, lower, lower, upper - 1, upper)
  {
    assert Owns(First(t), ndict) && Owns(Second(t), ndict);
    SeqScanLe(t, cells, tr, ap, ndict, lower, upper, upper);
    if SecondsFilled(t, cells, lower, upper, upper) {
      SeqScanFilled(t, cells, tr, ap, ndict, lower, upper, upper);
    }
  }

  /** A Timeout's entry carries its robustness when its child's window is not
      empty; otherwise it is -inf. */
  lemma TimeoutHeadValue(t: TbtNode, cells: Cells, tr: Trace, ap: Ap, lower: nat, upper: nat,
                         nn: nat, fn: nat, ndict: NodeDict, fdict: Dict)
    requires t.Timeout? && WellFormed(t) && Prepared(t, nn, fn, tr, ndict, fdict) && TConsistent(cells, ndict, tr, ap)
    requires SegOf(t, cells, tr, ap, lower, upper, false).Some?
    ensures lower <= TimeoutEnd(lower, upper, t.t) ==>
            SegOf(t, cells, tr, ap, lower, upper, false).value[0].value == TRob(t, tr, ap, lower, upper)
    ensures lower > TimeoutEnd(lower, upper, t.t) ==> SegOf(t, cells, tr, ap, lower, upper, false).value[0].value == NegInf
  {
    var e := TimeoutEnd(lower, upper, t.t);
    if lower <= e {
      CellIsRob(cells, ndict, tr, ap, t.child, lower, e);
    }
  }

  /** A Kleene that is not unrolled (n = 0, or an empty window) carries its
      robustness. */
  lemma KleeneHeadValue(t: TbtNode, cells: Cells, tr: Trace, ap: Ap, lower: nat, upper: nat,
                        nn: nat, fn: nat, ndict: NodeDict, fdict: Dict)
    requires t.Kleene? && !(lower <= upper && t.n > 0)
    requires WellFormed(t) && Prepared(t, nn, fn, tr, ndict, fdict) && TConsistent(cells, ndict, tr, ap)
    requires SegOf(t, cells, tr, ap, lower, upper, false).Some?
    ensures SegOf(t, cells, tr, ap, lower, upper, false).value[0].value == TRob(t, tr, ap, lower, upper)
  {
    if t.n == 0 && lower <= upper {
      CellIsRob(cells, ndict, tr, ap, t.child, lower, upper);
    }
  }

  /*************************
   * Kleene(0) on one sample
   *************************/

  /** As written, a Kleene(0) over a one-sample window [l, l] reports +inf and
      does not descend into its child, although its robustness there is the
      child's. */
  lemma KleeneSingleSampleDropped(i: nat, c: TbtNode, cells: Cells, tr: Trace, ap: Ap, l: nat)
    requires WellFormed(c)
    ensures var k := Kleene(i, 0, None, c);
            WellFormed(k) &&
            SegOf(k, cells, tr, ap, l, l, true) == Some([Entry(k, l, l, PosInf)]) &&
            TRob(k, tr, ap, l, l) == TRob(c, tr, ap, l, l)
  {
  }

  /** A concrete case: a leaf whose proposition is always -inf. Its Kleene(0)
      has robustness -inf on [3, 3], and the as-written segmentation reports
      +inf for it. */
  lemma KleeneSingleSampleExample(cells: Cells, tr: Trace)
    ensures var c := Leaf(1, Atomic(0, [], 0), "a");
            var k := Kleene(2, 0, None, c);
            var ap: Ap := (fn: nat, xs: seq<Ext>) => NegInf;
            SegOf(k, cells, tr, ap, 3, 3, true).Some? &&
            SegOf(k, cells, tr, ap, 3, 3, true).value[0].value != TRob(k, tr, ap, 3, 3)
  {
    var c := Leaf(1, Atomic(0, [], 0), "a");
    var ap: Ap := (fn: nat, xs: seq<Ext>) => NegInf;
    KleeneSingleSampleDropped(2, c, cells, tr, ap, 3);
    assert TRob(c, tr, ap, 3, 3) == ap(0, Samples(tr, [], 3));
  }

  /** With the guard `lower <= upper`, a Kleene(0) over [l, l] whose child's
      cell is filled reports the child's value and continues with the child's
      segmentation on the same window. */
  lemma KleeneSingleSampleKept(i: nat, c: TbtNode, cells: Cells, tr: Trace, ap: Ap, l: nat)
    requires WellFormed(c) && CellOf(cells, c.idx, l, l).Some?
    requires SegOf(c, cells, tr, ap, l, l, false).Some?
    ensures var k := Kleene(i, 0, None, c);
            WellFormed(k) && SegOf(k, cells, tr, ap, l, l, false).Some? &&
            var r := SegOf(k, cells, tr, ap, l, l, false).value;
            |r| >= 2 && r[0] == Entry(k, l, l, CellOf(cells, c.idx, l, l).value) &&
            r[1].node == c && r[1].lower == l && r[1].upper == l
  {
  }
}

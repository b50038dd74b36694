/** Two consumers of a segmentation (src/behaviortree.rs): print_segmentation,
    which reports the smallest robustness among the printed entries, and
    get_tau_dif, which measures how far a node's window lies from the nearest
    window the same node got in earlier segmentations. */
module SegReport {
  import opened Wrappers
  import opened ExtReal
  import opened TbtTree
  import opened TbtSegmentation

  /*************************
   * print_segmentation
   *************************/

  /** Whether an entry is printed: every entry, or only the leaves. */
  predicate Counted(e: Entry, onlyLeaves: bool)
  {
    !onlyLeaves || e.node.Leaf?
  }

  /** The smallest value among the printed entries of s, +inf when none is
      printed; each entry replaces the minimum only when strictly smaller. */
  function SegMin(s: seq<Entry>, onlyLeaves: bool): Ext
  {
    if |s| == 0 then PosInf
    else
      var m := SegMin(s[..|s| - 1], onlyLeaves);
      var e := s[|s| - 1];
      if Counted(e, onlyLeaves) && Lt(e.value, m) then e.value else m
  }

  /** The robustness print_segmentation returns: -inf in lazy mode when the
      minimum is negative, the minimum otherwise. It is a lower bound of every
      printed value, +inf when nothing is printed, and outside lazy mode the
      value of a printed entry; in lazy mode it is -inf exactly when some
      printed value is negative. */
  function SegRobustness(s: seq<Entry>, onlyLeaves: bool, lazy: bool): (r: Ext)
    ensures lazy && IsNeg(SegMin(s, onlyLeaves)) ==> r == NegInf
    ensures !(lazy && IsNeg(SegMin(s, onlyLeaves))) ==> r == SegMin(s, onlyLeaves)
    ensures forall k :: 0 <= k < |s| && Counted(s[k], onlyLeaves) ==> Le(r, s[k].value)
    ensures (forall k :: 0 <= k < |s| ==> !Counted(s[k], onlyLeaves)) ==> r == PosInf
    ensures !lazy && r != PosInf ==> exists k :: 0 <= k < |s| && Counted(s[k], onlyLeaves) && r == s[k].value
    ensures lazy ==> (r == NegInf <==> exists k :: 0 <= k < |s| && Counted(s[k], onlyLeaves) && IsNeg(s[k].value))
  {
    SegMinLower(s, onlyLeaves);
    SegMinAttained(s, onlyLeaves);
    SegMinNegative(s, onlyLeaves);
    var m := SegMin(s, onlyLeaves);
    if lazy && IsNeg(m) then NegInf else m
  }

  /** The minimum is negative exactly when some printed value is. */
  lemma SegMinNegative(s: seq<Entry>, onlyLeaves: bool)
    ensures IsNeg(SegMin(s, onlyLeaves)) <==> exists k :: 0 <= k < |s| && Counted(s[k], onlyLeaves) && IsNeg(s[k].value)
  {
    var m := SegMin(s, onlyLeaves);
    SegMinLower(s, onlyLeaves);
    SegMinAttained(s, onlyLeaves);
    if k :| 0 <= k < |s| && Counted(s[k], onlyLeaves) && IsNeg(s[k].value) {
      NegDown(s[k].value, m);
    }
  }

  /** SegMin is a lower bound of every printed value. */
  lemma {:induction false} SegMinLower(s: seq<Entry>, onlyLeaves: bool)
    ensures forall k :: 0 <= k < |s| && Counted(s[k], onlyLeaves) ==> Le(SegMin(s, onlyLeaves), s[k].value)
  {
    if |s| > 0 {
      var p := s[..|s| - 1];
      SegMinLower(p, onlyLeaves);
      var m := SegMin(p, onlyLeaves);
      var e := s[|s| - 1];
      forall k | 0 <= k < |s| && Counted(s[k], onlyLeaves)
        ensures Le(SegMin(s, onlyLeaves), s[k].value)
      {
        if k < |s| - 1 {
          assert s[k] == p[k];
          if Counted(e, onlyLeaves) && Lt(e.value, m) {
            LeTrans(e.value, m, s[k].value);
          }
        } else if !(Counted(e, onlyLeaves) && Lt(e.value, m)) {
          LeTotal(e.value, m);
        }
      }
    }
  }

  /** SegMin is +inf when nothing is printed and otherwise the value of a
      printed entry. */
  lemma {:induction false} SegMinAttained(s: seq<Entry>, onlyLeaves: bool)
    ensures (forall k :: 0 <= k < |s| ==> !Counted(s[k], onlyLeaves)) ==> SegMin(s, onlyLeaves) == PosInf
    ensures SegMin(s, onlyLeaves) != PosInf ==>
            exists k :: 0 <= k < |s| && Counted(s[k], onlyLeaves) && SegMin(s, onlyLeaves) == s[k].value
  {
    if |s| > 0 {
      var p := s[..|s| - 1];
      SegMinAttained(p, onlyLeaves);
      if forall k :: 0 <= k < |s| ==> !Counted(s[k], onlyLeaves) {
        assert forall k :: 0 <= k < |p| ==> p[k] == s[k];
      }
      if SegMin(s, onlyLeaves) != PosInf && SegMin(s, onlyLeaves) == SegMin(p, onlyLeaves) {
        var k :| 0 <= k < |p| && Counted(p[k], onlyLeaves) && SegMin(p, onlyLeaves) == p[k].value;
        assert s[k] == p[k];
      }
    }
  }

  /** The loop of print_segmentation; building the printed text is left out. */
  method PrintSegmentation(s: seq<Entry>, onlyLeaves: bool, lazy: bool) returns (robustness: Ext)
    ensures robustness == SegRobustness(s, onlyLeaves, lazy)
  {
    robustness := PosInf;
    for k := 0 to |s|
      invariant robustness == SegMin(s[..k], onlyLeaves)
    {
      assert s[..k + 1][..k] == s[..k];
      if !Counted(s[k], onlyLeaves) {
        continue;
      }
      if Lt(s[k].value, robustness) {
        robustness := s[k].value;
      }
    }
    assert s[..|s|] == s;
    if lazy && IsNeg(robustness) {
      robustness := NegInf;
    }
  }

  /*************************
   * get_tau_dif
   *************************/

  /** Two nodes of the same kind (the pairs of the source's match). */
  predicate SameKind(a: TbtNode, b: TbtNode)
  {
    (a.Leaf? && b.Leaf?) || (a.Fallback? && b.Fallback?) || (a.Parallel? && b.Parallel?) ||
    (a.Sequence? && b.Sequence?) || (a.Timeout? && b.Timeout?) || (a.Kleene? && b.Kleene?)
  }

  function AbsDif(a: nat, b: nat): nat
  {
    if a > b then a - b else b - a
  }

  /** The distance of [lower, upper] to an entry of the same node: the sum of
      the distances of the bounds; None for an entry of another node. */
  function Dif(node: TbtNode, lower: nat, upper: nat, e: Entry): Option<nat>
  {
    if SameKind(node, e.node) && node.idx == e.node.idx
    then Some(AbsDif(lower, e.lower) + AbsDif(upper, e.upper))
    else None
  }

  /** The smaller of two optional distances, None only when both are. */
  function MinOpt(a: Option<nat>, b: Option<nat>): Option<nat>
  {
    match (a, b)
    case (None, None) => None
    case (None, Some(w)) => Some(w)
    case (Some(v), None) => Some(v)
    case (Some(v), Some(w)) => if v < w then Some(v) else Some(w)
  }

  /** The entries of all segmentations, one after the other. */
  function Flatten(segs: seq<seq<Entry>>): seq<Entry>
  {
    if |segs| == 0 then [] else Flatten(segs[..|segs| - 1]) + segs[|segs| - 1]
  }

  /** The distances of the entries folded with MinOpt, in order. */
  function TauDifOf(node: TbtNode, lower: nat, upper: nat, s: seq<Entry>): Option<nat>
  {
    if |s| == 0 then None
    else MinOpt(TauDifOf(node, lower, upper, s[..|s| - 1]), Dif(node, lower, upper, s[|s| - 1]))
  }

  /** get_tau_dif yields None exactly when no entry belongs to the node, and
      otherwise the smallest distance to one that does. */
  lemma {:induction false} TauDifMin(node: TbtNode, lower: nat, upper: nat, s: seq<Entry>)
    ensures TauDifOf(node, lower, upper, s).None? <==> forall k :: 0 <= k < |s| ==> Dif(node, lower, upper, s[k]).None?
    ensures TauDifOf(node, lower, upper, s).Some? ==>
            (exists k :: 0 <= k < |s| && Dif(node, lower, upper, s[k]) == TauDifOf(node, lower, upper, s)) &&
            forall k :: 0 <= k < |s| && Dif(node, lower, upper, s[k]).Some? ==>
              TauDifOf(node, lower, upper, s).value <= Dif(node, lower, upper, s[k]).value
  {
    if |s| > 0 {
      var p := s[..|s| - 1];
      TauDifMin(node, lower, upper, p);
      assert forall k :: 0 <= k < |p| ==> p[k] == s[k];
      var f := TauDifOf(node, lower, upper, p);
      var d := Dif(node, lower, upper, s[|s| - 1]);
      if TauDifOf(node, lower, upper, s).Some? {
        if TauDifOf(node, lower, upper, s) == d {
          assert Dif(node, lower, upper, s[|s| - 1]) == TauDifOf(node, lower, upper, s);
        } else {
          var k :| 0 <= k < |p| && Dif(node, lower, upper, p[k]) == f;
          assert Dif(node, lower, upper, s[k]) == TauDifOf(node, lower, upper, s);
        }
      }
    }
  }

  lemma {:induction false} TauDifAppend(node: TbtNode, lower: nat, upper: nat, a: seq<Entry>, b: seq<Entry>)
    ensures TauDifOf(node, lower, upper, a + b) == (if |b| == 0 then TauDifOf(node, lower, upper, a)
            else MinOpt(TauDifOf(node, lower, upper, a + b[..|b| - 1]), Dif(node, lower, upper, b[|b| - 1])))
  {
    if |b| > 0 {
      assert (a + b)[..|a + b| - 1] == a + b[..|b| - 1];
    } else {
      assert a + b == a;
    }
  }

  /** TbtNode::get_tau_dif: the nested loop over the segmentations and their
      entries. */
  method GetTauDif(node: TbtNode, lower: nat, upper: nat, segs: seq<seq<Entry>>) returns (found: Option<nat>)
    ensures found == TauDifOf(node, lower, upper, Flatten(segs))
  {
    found := None;
    for i := 0 to |segs|
      invariant found == TauDifOf(node, lower, upper, Flatten(segs[..i]))
    {
      var seg := segs[i];
      assert segs[..i + 1][..i] == segs[..i];
      assert seg[..0] == [] && Flatten(segs[..i]) + seg[..0] == Flatten(segs[..i]);
      for k := 0 to |seg|
        invariant found == TauDifOf(node, lower, upper, Flatten(segs[..i]) + seg[..k])
      {
        TauDifAppend(node, lower, upper, Flatten(segs[..i]), seg[..k + 1]);
        assert seg[..k + 1][..k] == seg[..k];
        var res := Dif(node, lower, upper, seg[k]);
        found := MinOpt(found, res);
      }
      assert seg[..|seg|] == seg;
    }
    assert segs[..|segs|] == segs;
  }
}

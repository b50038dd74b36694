/** Temporal behaviour trees (src/behaviortree.rs): the node datatype, the
    node counter and constructors, the Kleene unrolling, and the structural
    queries `get_first_leaf`, `init_next_nodes_map`, `get_leaf`,
    `get_leaf_formula` and `get_atomics`. */
module TbtTree {
  import opened Wrappers
  import opened Stl

  datatype TbtNode =
    | Leaf(idx: nat, formula: Formula, name: string)
    | Fallback(idx: nat, children: seq<TbtNode>)
    | Parallel(idx: nat, m: nat, children: seq<TbtNode>)
    | Sequence(idx: nat, left: TbtNode, right: TbtNode)
    | Timeout(idx: nat, t: nat, child: TbtNode)
    | Kleene(idx: nat, n: nat, next: Option<TbtNode>, child: TbtNode)

  /** The shapes the evaluator can handle without panicking: `v_vec[m - 1]` needs
      1 <= m <= number of children, `lower + t - 1` needs t >= 1 at lower 0, and a
      Kleene with n > 0 unwraps its `next` node. */
  predicate WellFormed(t: TbtNode)
    decreases t
  {
    match t
    case Leaf(_, _, _) => true
    case Fallback(_, cs) => WellFormedAll(cs)
    case Parallel(_, m, cs) => 1 <= m <= |cs| && WellFormedAll(cs)
    case Sequence(_, l, r) => WellFormed(l) && WellFormed(r)
    case Timeout(_, d, c) => d >= 1 && WellFormed(c)
    case Kleene(_, n, nx, c) =>
      (n > 0 ==> nx.Some?) && WellFormed(c) && (nx.Some? ==> WellFormed(nx.value))
  }

  predicate WellFormedAll(cs: seq<TbtNode>)
    decreases cs
  {
    forall k :: 0 <= k < |cs| ==> WellFormed(cs[k])
  }

  /*************************
   * The node counter and the constructors
   *************************/

  /** The global NODECOUNT: `gnc` hands out 0, 1, 2, ... */
  class NodeCounter {
    var count: nat

    constructor ()
      ensures count == 0
    {
      count := 0;
    }

    /** gnc */
    method Gnc() returns (i: nat)
      modifies this
      ensures i == old(count) && count == old(count) + 1
    {
      count := count + 1;
      i := count - 1;
    }

    /** tbt_node_reset_count */
    method Reset()
      modifies this
      ensures count == 0
    {
      count := 0;
    }
  }

  method MkLeaf(c: NodeCounter, formula: Formula, name: string) returns (t: TbtNode)
    modifies c
    ensures t == Leaf(old(c.count), formula, name) && c.count == old(c.count) + 1
  {
    var i := c.Gnc();
    t := Leaf(i, formula, name);
  }

  method MkFallback(c: NodeCounter, cs: seq<TbtNode>) returns (t: TbtNode)
    modifies c
    ensures t == Fallback(old(c.count), cs) && c.count == old(c.count) + 1
  {
    var i := c.Gnc();
    t := Fallback(i, cs);
  }

  method MkParallel(c: NodeCounter, m: nat, cs: seq<TbtNode>) returns (t: TbtNode)
    modifies c
    ensures t == Parallel(old(c.count), m, cs) && c.count == old(c.count) + 1
  {
    var i := c.Gnc();
    t := Parallel(i, m, cs);
  }

  method MkSequence(c: NodeCounter, l: TbtNode, r: TbtNode) returns (t: TbtNode)
    modifies c
    ensures t == Sequence(old(c.count), l, r) && c.count == old(c.count) + 1
  {
    var i := c.Gnc();
    t := Sequence(i, l, r);
  }

  method MkTimeout(c: NodeCounter, d: nat, child: TbtNode) returns (t: TbtNode)
    modifies c
    ensures t == Timeout(old(c.count), d, child) && c.count == old(c.count) + 1
  {
    var i := c.Gnc();
    t := Timeout(i, d, child);
  }

  /** The chain `kleene(n, child)` builds when the counter stands at `start`:
      counts n, n-1, ..., 0 with indices start, start+1, ..., start+n. */
  function KleeneChain(start: nat, n: nat, child: TbtNode): TbtNode
    decreases n
  {
    Kleene(start, n, if n > 0 then Some(KleeneChain(start + 1, n - 1, child)) else None, child)
  }

  /** The node reached by following `next` k times (None when the chain ends). */
  function Follow(t: TbtNode, k: nat): Option<TbtNode>
    decreases k
  {
    if k == 0 then Some(t)
    else if t.Kleene? && t.next.Some? then Follow(t.next.value, k - 1)
    else None
  }

  /** The k-th node of the chain is Kleene(start + k, n - k, ...) with `next`
      present exactly when n - k > 0, and the chain has no (n+1)-th node. */
  lemma {:induction false} KleeneChainLinks(start: nat, n: nat, child: TbtNode, k: nat)
    ensures k <= n ==> Follow(KleeneChain(start, n, child), k) == Some(KleeneChain(start + k, n - k, child))
    ensures k > n ==> Follow(KleeneChain(start, n, child), k) == None
    decreases k
  {
    if k > 0 {
      if n > 0 {
        KleeneChainLinks(start + 1, n - 1, child, k - 1);
      }
    }
  }

  lemma KleeneChainShape(start: nat, n: nat, child: TbtNode)
    ensures var k := KleeneChain(start, n, child);
            k.Kleene? && k.idx == start && k.n == n && k.child == child && (k.next.Some? <==> n > 0) &&
            (WellFormed(child) ==> WellFormed(k))
  {
    if WellFormed(child) {
      KleeneChainWellFormed(start, n, child);
    }
  }

  lemma {:induction false} KleeneChainWellFormed(start: nat, n: nat, child: TbtNode)
    requires WellFormed(child)
    ensures WellFormed(KleeneChain(start, n, child))
    decreases n
  {
    if n > 0 {
      KleeneChainWellFormed(start + 1, n - 1, child);
    }
  }

  /** TbtNode::kleene */
  method MkKleene(c: NodeCounter, n: nat, child: TbtNode) returns (t: TbtNode)
    modifies c
    ensures t == KleeneChain(old(c.count), n, child)
    ensures c.count == old(c.count) + n + 1
    decreases n
  {
    var index := c.Gnc();
    var next: Option<TbtNode> := None;
    if n > 0 {
      var rest := MkKleene(c, n - 1, child);
      next := Some(rest);
    }
    t := Kleene(index, n, next, child);
  }

  /** TbtNode::kleene_inf: a Parallel with m = 1 over the first max(1, L) nodes
      of the chain kleene(max(1, L), child), with counts max(1, L), ..., 1. */
  method MkKleeneInf(c: NodeCounter, child: TbtNode, traceLength: nat) returns (t: TbtNode)
    modifies c
    ensures var n := if traceLength < 1 then 1 else traceLength;
            t.Parallel? && t.idx == old(c.count) + n + 1 && t.m == 1 && |t.children| == n &&
            (forall k :: 0 <= k < n ==> t.children[k] == KleeneChain(old(c.count) + k, n - k, child)) &&
            c.count == old(c.count) + n + 2
  {
    var n := if traceLength < 1 then 1 else traceLength;
    ghost var start := c.count;
    var formulas: seq<TbtNode> := [];
    var kleene := MkKleene(c, n, child);
    formulas := formulas + [kleene];
    while kleene.Kleene? && kleene.next.Some?
      invariant 1 <= |formulas| <= n
      invariant kleene == KleeneChain(start + |formulas| - 1, n - |formulas| + 1, child)
      invariant forall k :: 0 <= k < |formulas| ==> formulas[k] == KleeneChain(start + k, n - k, child)
      invariant |formulas| == n || kleene.n > 1
      decreases n - |formulas|
    {
      if kleene.n == 1 {
        break;
      }
      kleene := kleene.next.value;
      formulas := formulas + [kleene];
    }
    assert n == |formulas|;
    t := MkParallel(c, 1, formulas);
  }

  /*************************
   * Leaves
   *************************/

  /** All leaves in left-to-right order (Kleene: its child only, as every
      traversal below does). */
  function Leaves(t: TbtNode): seq<TbtNode>
    decreases t
  {
    match t
    case Leaf(_, _, _) => [t]
    case Fallback(_, cs) => LeavesAll(cs)
    case Parallel(_, _, cs) => LeavesAll(cs)
    case Sequence(_, l, r) => Leaves(l) + Leaves(r)
    case Timeout(_, _, c) => Leaves(c)
    case Kleene(_, _, _, c) => Leaves(c)
  }

  function LeavesAll(cs: seq<TbtNode>): seq<TbtNode>
    decreases cs
  {
    if |cs| == 0 then [] else Leaves(cs[0]) + LeavesAll(cs[1..])
  }

  function LeafIndices(ls: seq<TbtNode>): seq<nat>
  {
    seq(|ls|, k requires 0 <= k < |ls| => ls[k].idx)
  }

  /** Tbt::get_first_leaf */
  function FirstLeaves(t: TbtNode): seq<nat>
    decreases t
  {
    match t
    case Leaf(i, _, _) => [i]
    case Fallback(_, cs) => FirstLeavesAll(cs)
    case Parallel(_, _, cs) => FirstLeavesAll(cs)
    case Sequence(_, l, _) => FirstLeaves(l)
    case Timeout(_, _, c) => FirstLeaves(c)
    case Kleene(_, _, _, c) => FirstLeaves(c)
  }

  function FirstLeavesAll(cs: seq<TbtNode>): seq<nat>
    decreases cs
  {
    if |cs| == 0 then [] else FirstLeaves(cs[0]) + FirstLeavesAll(cs[1..])
  }

  lemma LeavesAllMember(cs: seq<TbtNode>, k: nat, x: TbtNode)
    requires k < |cs| && x in Leaves(cs[k])
    ensures x in LeavesAll(cs)
    decreases cs
  {
    if k > 0 {
      LeavesAllMember(cs[1..], k - 1, x);
    }
  }

  /** Every index get_first_leaf reports is the index of a leaf of the tree, and
      the first leaf of a tree whose first-child path ends in a Leaf is that leaf. */
  lemma {:induction false} FirstLeavesAreLeaves(t: TbtNode)
    ensures forall x :: x in FirstLeaves(t) ==> exists l :: l in Leaves(t) && l.Leaf? && l.idx == x
    decreases t, 1
  {
    match t
    case Leaf(_, _, _) =>
    case Fallback(_, cs) => FirstLeavesAllAreLeaves(cs);
    case Parallel(_, _, cs) => FirstLeavesAllAreLeaves(cs);
    case Sequence(_, l, r) => FirstLeavesAreLeaves(l);
      forall x | x in FirstLeaves(t)
        ensures exists y :: y in Leaves(t) && y.Leaf? && y.idx == x
      {
        assert FirstLeaves(t) == FirstLeaves(l);
        assert x in FirstLeaves(l);
        var y :| y in Leaves(l) && y.Leaf? && y.idx == x;
        assert Leaves(t) == Leaves(l) + Leaves(r);
        assert y in Leaves(t);
      }
    case Timeout(_, _, c) => FirstLeavesAreLeaves(c);
    case Kleene(_, _, _, c) => FirstLeavesAreLeaves(c);
  }

  lemma {:induction false} FirstLeavesAllAreLeaves(cs: seq<TbtNode>)
    ensures forall x :: x in FirstLeavesAll(cs) ==> exists l :: l in LeavesAll(cs) && l.Leaf? && l.idx == x
    decreases cs, 0
  {
    if |cs| > 0 {
      FirstLeavesAreLeaves(cs[0]);
      FirstLeavesAllAreLeaves(cs[1..]);
      forall x | x in FirstLeavesAll(cs)
        ensures exists y :: y in LeavesAll(cs) && y.Leaf? && y.idx == x
      {
        assert FirstLeavesAll(cs) == FirstLeaves(cs[0]) + FirstLeavesAll(cs[1..]);
        if x in FirstLeaves(cs[0]) {
          var y :| y in Leaves(cs[0]) && y.Leaf? && y.idx == x;
          assert y in LeavesAll(cs);
        } else {
          var y :| y in LeavesAll(cs[1..]) && y.Leaf? && y.idx == x;
          assert y in LeavesAll(cs);
        }
      }
    }
  }

  lemma {:induction false} LeavesAreLeaves(t: TbtNode)
    ensures forall k :: 0 <= k < |Leaves(t)| ==> Leaves(t)[k].Leaf?
    decreases t, 1
  {
    match t
    case Leaf(_, _, _) =>
    case Fallback(_, cs) => LeavesAllAreLeaves(cs);
    case Parallel(_, _, cs) => LeavesAllAreLeaves(cs);
    case Sequence(_, l, r) => LeavesAreLeaves(l); LeavesAreLeaves(r);
    case Timeout(_, _, c) => LeavesAreLeaves(c);
    case Kleene(_, _, _, c) => LeavesAreLeaves(c);
  }

  lemma {:induction false} LeavesAllAreLeaves(cs: seq<TbtNode>)
    ensures forall k :: 0 <= k < |LeavesAll(cs)| ==> LeavesAll(cs)[k].Leaf?
    decreases cs, 0
  {
    if |cs| > 0 {
      LeavesAreLeaves(cs[0]);
      LeavesAllAreLeaves(cs[1..]);
    }
  }

  /*************************
   * get_leaf and get_leaf_formula
   *************************/

  /** TbtNode::get_leaf: the first leaf (left to right) with the given index. */
  function GetLeaf(t: TbtNode, i: nat): (r: Option<TbtNode>)
    decreases t
  {
    match t
    case Leaf(j, _, _) => if i == j then Some(t) else None
    case Fallback(_, cs) => GetLeafAll(cs, i)
    case Parallel(_, _, cs) => GetLeafAll(cs, i)
    case Sequence(_, l, r) => if GetLeaf(l, i).Some? then GetLeaf(l, i) else GetLeaf(r, i)
    case Timeout(_, _, c) => GetLeaf(c, i)
    case Kleene(_, _, _, c) => GetLeaf(c, i)
  }

  /** The loop over the children with its early return. */
  function GetLeafAll(cs: seq<TbtNode>, i: nat): Option<TbtNode>
    decreases cs
  {
    if |cs| == 0 then None
    else if GetLeaf(cs[0], i).Some? then GetLeaf(cs[0], i)
    else GetLeafAll(cs[1..], i)
  }

  /** The first leaf of a list, counting from the front. */
  function FirstWithIndex(ls: seq<TbtNode>, i: nat): Option<TbtNode>
  {
    if |ls| == 0 then None
    else if ls[0].Leaf? && ls[0].idx == i then Some(ls[0])
    else FirstWithIndex(ls[1..], i)
  }

  lemma {:induction false} FirstWithIndexAppend(a: seq<TbtNode>, b: seq<TbtNode>, i: nat)
    ensures FirstWithIndex(a + b, i) == if FirstWithIndex(a, i).Some? then FirstWithIndex(a, i) else FirstWithIndex(b, i)
    decreases |a|
  {
    if |a| == 0 {
      assert a + b == b;
    } else {
      assert (a + b)[1..] == a[1..] + b;
      FirstWithIndexAppend(a[1..], b, i);
    }
  }

  /** get_leaf returns the first leaf carrying the index in the left-to-right
      order of the leaves, and None exactly when no leaf carries it. */
  lemma {:induction false} GetLeafIsFirst(t: TbtNode, i: nat)
    ensures GetLeaf(t, i) == FirstWithIndex(Leaves(t), i)
    decreases t, 1
  {
    match t
    case Leaf(_, _, _) =>
      assert FirstWithIndex([t][1..], i) == None;
    case Fallback(_, cs) => GetLeafAllIsFirst(cs, i);
    case Parallel(_, _, cs) => GetLeafAllIsFirst(cs, i);
    case Sequence(_, l, r) =>
      GetLeafIsFirst(l, i);
      GetLeafIsFirst(r, i);
      FirstWithIndexAppend(Leaves(l), Leaves(r), i);
    case Timeout(_, _, c) => GetLeafIsFirst(c, i);
    case Kleene(_, _, _, c) => GetLeafIsFirst(c, i);
  }

  lemma {:induction false} GetLeafAllIsFirst(cs: seq<TbtNode>, i: nat)
    ensures GetLeafAll(cs, i) == FirstWithIndex(LeavesAll(cs), i)
    decreases cs, 0
  {
    if |cs| > 0 {
      GetLeafIsFirst(cs[0], i);
      GetLeafAllIsFirst(cs[1..], i);
      FirstWithIndexAppend(Leaves(cs[0]), LeavesAll(cs[1..]), i);
    }
  }

  lemma {:induction false} FirstWithIndexSpec(ls: seq<TbtNode>, i: nat)
    ensures var r := FirstWithIndex(ls, i);
            (r.Some? ==> r.value in ls && r.value.Leaf? && r.value.idx == i) &&
            (r.None? <==> forall k :: 0 <= k < |ls| ==> !(ls[k].Leaf? && ls[k].idx == i))
    decreases |ls|
  {
    if |ls| > 0 {
      FirstWithIndexSpec(ls[1..], i);
      if !(ls[0].Leaf? && ls[0].idx == i) && FirstWithIndex(ls[1..], i).None? {
        forall k | 0 <= k < |ls|
          ensures !(ls[k].Leaf? && ls[k].idx == i)
        {
          if k > 0 {
            assert ls[k] == ls[1..][k - 1];
          }
        }
      }
    }
  }

  /** What get_leaf promises: a found node is a leaf of the tree with the
      requested index, and nothing is found exactly when no leaf has it. */
  lemma GetLeafSpec(t: TbtNode, i: nat)
    ensures var r := GetLeaf(t, i);
            (r.Some? ==> r.value in Leaves(t) && r.value.Leaf? && r.value.idx == i) &&
            (r.None? <==> forall k :: 0 <= k < |Leaves(t)| ==> Leaves(t)[k].idx != i)
  {
    GetLeafIsFirst(t, i);
    FirstWithIndexSpec(Leaves(t), i);
    LeavesAreLeaves(t);
  }

  /** TbtNode::get_leaf_formula */
  function GetLeafFormula(t: TbtNode, i: nat): Option<Formula>
    decreases t
  {
    match t
    case Leaf(j, f, _) => if i == j then Some(f) else None
    case Fallback(_, cs) => GetLeafFormulaAll(cs, i)
    case Parallel(_, _, cs) => GetLeafFormulaAll(cs, i)
    case Sequence(_, l, r) => if GetLeafFormula(l, i).Some? then GetLeafFormula(l, i) else GetLeafFormula(r, i)
    case Timeout(_, _, c) => GetLeafFormula(c, i)
    case Kleene(_, _, _, c) => GetLeafFormula(c, i)
  }

  function GetLeafFormulaAll(cs: seq<TbtNode>, i: nat): Option<Formula>
    decreases cs
  {
    if |cs| == 0 then None
    else if GetLeafFormula(cs[0], i).Some? then GetLeafFormula(cs[0], i)
    else GetLeafFormulaAll(cs[1..], i)
  }

  /** get_leaf_formula is the formula of the leaf get_leaf finds. */
  lemma {:induction false} GetLeafFormulaOfLeaf(t: TbtNode, i: nat)
    ensures GetLeaf(t, i).Some? ==> GetLeaf(t, i).value.Leaf? && GetLeafFormula(t, i) == Some(GetLeaf(t, i).value.formula)
    ensures GetLeaf(t, i).None? ==> GetLeafFormula(t, i) == None
    decreases t, 1
  {
    match t
    case Leaf(_, _, _) =>
    case Fallback(_, cs) => GetLeafFormulaAllOfLeaf(cs, i);
    case Parallel(_, _, cs) => GetLeafFormulaAllOfLeaf(cs, i);
    case Sequence(_, l, r) => GetLeafFormulaOfLeaf(l, i); GetLeafFormulaOfLeaf(r, i);
    case Timeout(_, _, c) => GetLeafFormulaOfLeaf(c, i);
    case Kleene(_, _, _, c) => GetLeafFormulaOfLeaf(c, i);
  }

  lemma {:induction false} GetLeafFormulaAllOfLeaf(cs: seq<TbtNode>, i: nat)
    ensures GetLeafAll(cs, i).Some? ==> GetLeafAll(cs, i).value.Leaf? && GetLeafFormulaAll(cs, i) == Some(GetLeafAll(cs, i).value.formula)
    ensures GetLeafAll(cs, i).None? ==> GetLeafFormulaAll(cs, i) == None
    decreases cs, 0
  {
    if |cs| > 0 {
      GetLeafFormulaOfLeaf(cs[0], i);
      GetLeafFormulaAllOfLeaf(cs[1..], i);
    }
  }

  /*************************
   * get_atomics
   *************************/

  /** TbtNode::get_atomics */
  function TbtGetAtomics(t: TbtNode): (r: seq<Formula>)
    decreases t
  {
    match t
    case Leaf(_, f, _) => GetAtomics(f)
    case Fallback(_, cs) => TbtGetAtomicsAll(cs)
    case Parallel(_, _, cs) => TbtGetAtomicsAll(cs)
    case Sequence(_, l, r) => TbtGetAtomics(l) + TbtGetAtomics(r)
    case Timeout(_, _, c) => TbtGetAtomics(c)
    case Kleene(_, _, _, c) => TbtGetAtomics(c)
  }

  function TbtGetAtomicsAll(cs: seq<TbtNode>): seq<Formula>
    decreases cs
  {
    if |cs| == 0 then [] else TbtGetAtomics(cs[0]) + TbtGetAtomicsAll(cs[1..])
  }

  /** The atomic propositions of the leaves' formulas, leaf by leaf. */
  function AtomicsOfLeaves(ls: seq<TbtNode>): seq<Formula>
  {
    if |ls| == 0 then []
    else (if ls[0].Leaf? then GetAtomics(ls[0].formula) else []) + AtomicsOfLeaves(ls[1..])
  }

  lemma {:induction false} AtomicsOfLeavesAppend(a: seq<TbtNode>, b: seq<TbtNode>)
    ensures AtomicsOfLeaves(a + b) == AtomicsOfLeaves(a) + AtomicsOfLeaves(b)
    decreases |a|
  {
    if |a| == 0 {
      assert a + b == b;
    } else {
      var h := if a[0].Leaf? then GetAtomics(a[0].formula) else [];
      calc {
        AtomicsOfLeaves(a + b);
        { assert (a + b)[0] == a[0]; assert (a + b)[1..] == a[1..] + b; }
        h + AtomicsOfLeaves(a[1..] + b);
        { AtomicsOfLeavesAppend(a[1..], b); }
        h + (AtomicsOfLeaves(a[1..]) + AtomicsOfLeaves(b));
        (h + AtomicsOfLeaves(a[1..])) + AtomicsOfLeaves(b);
      }
    }
  }

  /** The tree's atomics are its leaves' atomics in leaf order, each of them an
      Atomic formula. */
  lemma {:induction false} TbtGetAtomicsOfLeaves(t: TbtNode)
    ensures TbtGetAtomics(t) == AtomicsOfLeaves(Leaves(t))
    ensures forall k :: 0 <= k < |TbtGetAtomics(t)| ==> TbtGetAtomics(t)[k].Atomic?
    decreases t, 1
  {
    match t
    case Leaf(_, f, _) =>
      assert [t][1..] == [];
    case Fallback(_, cs) => TbtGetAtomicsAllOfLeaves(cs);
    case Parallel(_, _, cs) => TbtGetAtomicsAllOfLeaves(cs);
    case Sequence(_, l, r) =>
      TbtGetAtomicsOfLeaves(l);
      TbtGetAtomicsOfLeaves(r);
      AtomicsOfLeavesAppend(Leaves(l), Leaves(r));
    case Timeout(_, _, c) => TbtGetAtomicsOfLeaves(c);
    case Kleene(_, _, _, c) => TbtGetAtomicsOfLeaves(c);
  }

  lemma {:induction false} TbtGetAtomicsAllOfLeaves(cs: seq<TbtNode>)
    ensures TbtGetAtomicsAll(cs) == AtomicsOfLeaves(LeavesAll(cs))
    ensures forall k :: 0 <= k < |TbtGetAtomicsAll(cs)| ==> TbtGetAtomicsAll(cs)[k].Atomic?
    decreases cs, 0
  {
    if |cs| > 0 {
      TbtGetAtomicsOfLeaves(cs[0]);
      TbtGetAtomicsAllOfLeaves(cs[1..]);
      AtomicsOfLeavesAppend(Leaves(cs[0]), LeavesAll(cs[1..]));
    }
  }
}

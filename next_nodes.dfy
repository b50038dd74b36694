/** The next-leaf map of a behaviour tree (`Tbt::new` and
    `Tbt::init_next_nodes_map` in src/behaviortree.rs): every leaf that lies in
    the left subtree of a Sequence is mapped to the first leaves of that
    Sequence's right child, the nearest such Sequence winning. */
module NextNodes {
  import opened Wrappers
  import opened Stl
  import opened TbtTree

  /** An entry of the traversal stack: a parent and the position of the child
      being visited (0 = left, 1 = right for a Sequence). */
  type Frame = (TbtNode, nat)

  type NextMap = map<nat, seq<nat>>

  /** What the leaf case finds by popping a copy of the stack: the first leaves
      of the right child of the topmost Sequence entered through its left child. */
  function StackNext(stack: seq<Frame>): Option<seq<nat>>
  {
    if |stack| == 0 then None
    else if stack[|stack| - 1].0.Sequence? && stack[|stack| - 1].1 == 0 then
      Some(FirstLeaves(stack[|stack| - 1].0.right))
    else StackNext(stack[..|stack| - 1])
  }

  /** The intended map, given the answer `ctx` inherited from the ancestors. */
  function IntendedNext(t: TbtNode, ctx: Option<seq<nat>>): NextMap
    decreases t
  {
    match t
    case Leaf(i, _, _) => if ctx.Some? then map[i := ctx.value] else map[]
    case Fallback(_, cs) => IntendedNextAll(cs, ctx)
    case Parallel(_, _, cs) => IntendedNextAll(cs, ctx)
    case Sequence(_, l, r) => IntendedNext(l, Some(FirstLeaves(r))) + IntendedNext(r, ctx)
    case Timeout(_, _, c) => IntendedNext(c, ctx)
    case Kleene(_, _, _, c) => IntendedNext(c, ctx)
  }

  /** Children in order; a later insertion overrides an earlier one. */
  function IntendedNextAll(cs: seq<TbtNode>, ctx: Option<seq<nat>>): NextMap
    decreases cs
  {
    if |cs| == 0 then map[] else IntendedNextAll(cs[..|cs| - 1], ctx) + IntendedNext(cs[|cs| - 1], ctx)
  }

  /** Only leaves are keys, and a leaf is a key exactly when some Sequence above
      it (or the inherited context) gives it a successor. Without any Sequence
      and without context the map is empty. */
  lemma {:induction false} IntendedNextKeysAreLeaves(t: TbtNode, ctx: Option<seq<nat>>)
    ensures forall i :: i in IntendedNext(t, ctx) ==> i in LeafIndices(Leaves(t))
    decreases t, 1
  {
    match t
    case Leaf(_, _, _) =>
      assert LeafIndices(Leaves(t)) == [t.idx];
    case Fallback(_, cs) => IntendedNextAllKeysAreLeaves(cs, ctx);
    case Parallel(_, _, cs) => IntendedNextAllKeysAreLeaves(cs, ctx);
    case Sequence(_, l, r) =>
      IntendedNextKeysAreLeaves(l, Some(FirstLeaves(r)));
      IntendedNextKeysAreLeaves(r, ctx);
      LeafIndicesAppend(Leaves(l), Leaves(r));
    case Timeout(_, _, c) => IntendedNextKeysAreLeaves(c, ctx);
    case Kleene(_, _, _, c) => IntendedNextKeysAreLeaves(c, ctx);
  }

  lemma {:induction false} IntendedNextAllKeysAreLeaves(cs: seq<TbtNode>, ctx: Option<seq<nat>>)
    ensures forall i :: i in IntendedNextAll(cs, ctx) ==> i in LeafIndices(LeavesAll(cs))
    decreases cs, 0
  {
    if |cs| > 0 {
      var init := cs[..|cs| - 1];
      var last := cs[|cs| - 1];
      IntendedNextAllKeysAreLeaves(init, ctx);
      IntendedNextKeysAreLeaves(last, ctx);
      LeavesAllSnoc(cs);
      LeafIndicesAppend(LeavesAll(init), Leaves(last));
    }
  }

  lemma LeafIndicesAppend(a: seq<TbtNode>, b: seq<TbtNode>)
    ensures LeafIndices(a + b) == LeafIndices(a) + LeafIndices(b)
  {
  }

  lemma {:induction false} LeavesAllSnoc(cs: seq<TbtNode>)
    requires |cs| > 0
    ensures LeavesAll(cs) == LeavesAll(cs[..|cs| - 1]) + Leaves(cs[|cs| - 1])
    decreases |cs|
  {
    if |cs| == 1 {
      assert cs[1..] == [];
      assert cs[..0] == [];
    } else {
      var tail := cs[1..];
      LeavesAllSnoc(tail);
      assert tail[..|tail| - 1] == cs[..|cs| - 1][1..];
      assert tail[|tail| - 1] == cs[|cs| - 1];
      assert cs[..|cs| - 1][0] == cs[0];
    }
  }

  lemma StackNextPushOther(stack: seq<Frame>, p: TbtNode, k: nat)
    requires !(p.Sequence? && k == 0)
    ensures StackNext(stack + [(p, k)]) == StackNext(stack)
  {
    assert (stack + [(p, k)])[..|stack|] == stack;
  }

  /** Tbt::init_next_nodes_map, with every push matched by a pop: the stack is
      given back unchanged and the map gains exactly the intended entries. */
  method InitNextNodesMap(t: TbtNode, stack: seq<Frame>, m: NextMap) returns (stack': seq<Frame>, m': NextMap)
    ensures stack' == stack
    ensures m' == m + IntendedNext(t, StackNext(stack))
    decreases t
  {
    match t {
      case Fallback(_, cs) =>
        stack', m' := InitChildren(t, cs, stack, m);
      case Parallel(_, _, cs) =>
        stack', m' := InitChildren(t, cs, stack, m);
      case Timeout(_, _, c) =>
        StackNextPushOther(stack, t, 0);
        stack', m' := InitNextNodesMap(c, stack + [(t, 0)], m);
        stack' := stack'[..|stack'| - 1];
      case Kleene(_, _, _, c) =>
        StackNextPushOther(stack, t, 0);
        stack', m' := InitNextNodesMap(c, stack + [(t, 0)], m);
        stack' := stack'[..|stack'| - 1];
      case Sequence(_, l, r) =>
        assert StackNext(stack + [(t, 0)]) == Some(FirstLeaves(r));
        stack', m' := InitNextNodesMap(l, stack + [(t, 0)], m);
        stack' := stack'[..|stack'| - 1];
        assert stack' == stack;
        StackNextPushOther(stack, t, 1);
        stack', m' := InitNextNodesMap(r, stack' + [(t, 1)], m');
        stack' := stack'[..|stack'| - 1];
        assert stack' == stack;
      case Leaf(i, _, _) =>
        stack' := stack;
        m' := m;
        var copy := stack;
        while |copy| > 0
          invariant StackNext(copy) == StackNext(stack)
          invariant m' == m
          decreases |copy|
        {
          var (parent, lastIdx) := copy[|copy| - 1];
          copy := copy[..|copy| - 1];
          if parent.Sequence? && lastIdx == 0 {
            m' := m'[i := FirstLeaves(parent.right)];
            break;
          }
        }
        assert m' == m + IntendedNext(t, StackNext(stack));
    }
  }

  /** The loop over the children of a Fallback or Parallel node p. */
  method InitChildren(p: TbtNode, cs: seq<TbtNode>, stack: seq<Frame>, m: NextMap) returns (stack': seq<Frame>, m': NextMap)
    requires (p.Fallback? || p.Parallel?) && cs == p.children
    ensures stack' == stack
    ensures m' == m + IntendedNextAll(cs, StackNext(stack))
    decreases p, 0
  {
    ghost var ctx := StackNext(stack);
    stack' := stack;
    m' := m;
    var k := 0;
    while k < |cs|
      invariant 0 <= k <= |cs|
      invariant stack' == stack
      invariant m' == m + IntendedNextAll(cs[..k], ctx)
    {
      StackNextPushOther(stack, p, k);
      stack', m' := InitNextNodesMap(cs[k], stack' + [(p, k)], m');
      stack' := stack'[..|stack'| - 1];
      assert IntendedNextAll(cs[..k + 1], ctx) == IntendedNextAll(cs[..k], ctx) + IntendedNext(cs[k], ctx) by {
        assert cs[..k + 1][..k] == cs[..k];
        assert cs[..k + 1][k] == cs[k];
      }
      MapAddAssoc(m, IntendedNextAll(cs[..k], ctx), IntendedNext(cs[k], ctx));
      k := k + 1;
    }
    assert cs[..|cs|] == cs;
  }

  lemma MapAddAssoc(a: NextMap, b: NextMap, c: NextMap)
    ensures (a + b) + c == a + (b + c)
  {
  }

  datatype Tbt = Tbt(nextNodes: NextMap, tree: TbtNode)

  /** Tbt::new */
  method NewTbt(tree: TbtNode) returns (r: Tbt)
    ensures r.tree == tree && r.nextNodes == IntendedNext(tree, None)
  {
    var stack, m := InitNextNodesMap(tree, [], map[]);
    assert map[] + IntendedNext(tree, None) == IntendedNext(tree, None);
    r := Tbt(m, tree);
  }

  /*************************
   * The traversal as written: Kleene and Timeout push without popping
   *************************/

  /** Vec::pop, ignoring the popped value. */
  function Pop(s: seq<Frame>): seq<Frame>
  {
    if |s| == 0 then s else s[..|s| - 1]
  }

  /** init_next_nodes_map exactly as written: the returned pair is the stack
      and the map after the call. */
  function AsWrittenNext(t: TbtNode, stack: seq<Frame>, m: NextMap): (seq<Frame>, NextMap)
    decreases t, 1
  {
    match t
    case Fallback(_, cs) => AsWrittenChildren(t, 0, stack, m)
    case Parallel(_, _, cs) => AsWrittenChildren(t, 0, stack, m)
    case Timeout(_, _, c) => AsWrittenNext(c, stack + [(t, 0)], m)
    case Kleene(_, _, _, c) => AsWrittenNext(c, stack + [(t, 0)], m)
    case Sequence(_, l, r) =>
      var (s1, m1) := AsWrittenNext(l, stack + [(t, 0)], m);
      var (s2, m2) := AsWrittenNext(r, Pop(s1) + [(t, 1)], m1);
      (Pop(s2), m2)
    case Leaf(i, _, _) =>
      (stack, if StackNext(stack).Some? then m[i := StackNext(stack).value] else m)
  }

  function AsWrittenChildren(p: TbtNode, k: nat, stack: seq<Frame>, m: NextMap): (seq<Frame>, NextMap)
    requires p.Fallback? || p.Parallel?
    decreases p, 0, |p.children| - k
  {
    if k >= |p.children| then (stack, m)
    else
      var (s1, m1) := AsWrittenNext(p.children[k], stack + [(p, k)], m);
      AsWrittenChildren(p, k + 1, Pop(s1), m1)
  }

  /** The smallest tree that shows the missing pop: in Sequence(Timeout(a), b)
      the frame of the Timeout is still on the stack when the Sequence pops, so
      the Sequence's own left frame survives and the right leaf b is mapped to
      its own first leaves, [b]. The intended map has only a |-> [b]. */
  lemma MissingPopMapsRightLeaf()
    ensures var f := Atomic(0, [], 0);
            var a := Leaf(1, f, "a");
            var b := Leaf(2, f, "b");
            var tree := Sequence(0, Timeout(3, 5, a), b);
            AsWrittenNext(tree, [], map[]).1 == map[1 := [2], 2 := [2]] &&
            IntendedNext(tree, None) == map[1 := [2]]
  {
    var f := Atomic(0, [], 0);
    var a := Leaf(1, f, "a");
    var b := Leaf(2, f, "b");
    var tmo := Timeout(3, 5, a);
    var tree := Sequence(0, tmo, b);
    var s0: seq<Frame> := [(tree, 0), (tmo, 0)];
    assert StackNext(s0) == Some([2]) by {
      assert s0[..1] == [(tree, 0)];
    }
    assert AsWrittenNext(a, s0, map[]) == (s0, map[1 := [2]]);
    assert [(tree, 0)] + [(tmo, 0)] == s0;
    assert AsWrittenNext(tmo, [(tree, 0)], map[]) == (s0, map[1 := [2]]);
    var empty: seq<Frame> := [];
    assert empty + [(tree, 0)] == [(tree, 0)];
    var s1: seq<Frame> := [(tree, 0), (tree, 1)];
    assert Pop(s0) + [(tree, 1)] == s1;
    assert StackNext(s1) == Some([2]) by {
      assert s1[..1] == [(tree, 0)];
    }
    assert AsWrittenNext(b, s1, map[1 := [2]]) == (s1, map[1 := [2], 2 := [2]]);
    assert AsWrittenNext(tree, [], map[]) == (Pop(s1), map[1 := [2], 2 := [2]]);
    assert IntendedNext(tree, None) == map[1 := [2]] + map[];
  }
}

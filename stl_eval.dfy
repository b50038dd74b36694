/** The table-caching STL evaluator (`Stl::evaluate` and `Stl::evaluate_fnc` in
    src/stl.rs), proved against the robustness semantics Rob of module Stl:
    in exact mode it returns Rob, in lazy mode a value with the same verdict,
    and every value it caches obeys the same promise. */
module StlEval {
  import opened Wrappers
  import opened ExtReal
  import opened Stl
  import opened MemoTable

  /** Which subformula owns each table index. */
  type Dict = map<nat, Formula>

  /** Every subformula of phi owns its own index in dict. */
  predicate Indexed(phi: Formula, dict: Dict)
  {
    phi.idx in dict && dict[phi.idx] == phi &&
    match phi
    case Atomic(_, _, _) => true
    case Conjunction(_, l, r) => Indexed(l, dict) && Indexed(r, dict)
    case Disjunction(_, l, r) => Indexed(l, dict) && Indexed(r, dict)
    case Until(_, l, r) => Indexed(l, dict) && Indexed(r, dict)
    case UntilInterval(_, _, _, l, r) => Indexed(l, dict) && Indexed(r, dict)
    case Neg(_, c) => Indexed(c, dict)
    case Next(_, c) => Indexed(c, dict)
    case Eventually(_, c) => Indexed(c, dict)
    case Globally(_, c) => Indexed(c, dict)
    case EventuallyInterval(_, _, _, c) => Indexed(c, dict)
    case GloballyInterval(_, _, _, c) => Indexed(c, dict)
  }

  /** Every index of phi fits a table with n first indices. */
  predicate IdxBelow(phi: Formula, n: nat)
  {
    phi.idx < n &&
    match phi
    case Atomic(_, _, _) => true
    case Conjunction(_, l, r) => IdxBelow(l, n) && IdxBelow(r, n)
    case Disjunction(_, l, r) => IdxBelow(l, n) && IdxBelow(r, n)
    case Until(_, l, r) => IdxBelow(l, n) && IdxBelow(r, n)
    case UntilInterval(_, _, _, l, r) => IdxBelow(l, n) && IdxBelow(r, n)
    case Neg(_, c) => IdxBelow(c, n)
    case Next(_, c) => IdxBelow(c, n)
    case Eventually(_, c) => IdxBelow(c, n)
    case Globally(_, c) => IdxBelow(c, n)
    case EventuallyInterval(_, _, _, c) => IdxBelow(c, n)
    case GloballyInterval(_, _, _, c) => IdxBelow(c, n)
  }

  /** Every filled cell holds a value that agrees with the robustness of the
      subformula owning its index on that window. */
  ghost predicate Consistent(cells: Cells, dict: Dict, tr: Trace, ap: Ap, lazy: bool)
  {
    forall i: nat, l: nat, u: nat :: CellOf(cells, i, l, u).Some? ==>
      i in dict && Agree(lazy, CellOf(cells, i, l, u).value, Rob(dict[i], tr, ap, l, u))
  }

  /** Filled cells stay filled. */
  ghost predicate Grows(before: Cells, after: Cells)
  {
    forall i: nat, l: nat, u: nat :: CellOf(before, i, l, u).Some? ==> CellOf(after, i, l, u).Some?
  }

  /** An empty table is consistent with any formula. */
  lemma EmptyConsistent(cells: Cells, dict: Dict, tr: Trace, ap: Ap, lazy: bool)
    requires forall i: nat, l: nat, u: nat :: CellOf(cells, i, l, u) == None
    ensures Consistent(cells, dict, tr, ap, lazy)
  {
  }

  /** Writing a value that agrees with the owner's robustness keeps the table consistent. */
  lemma SetConsistent(cells: Cells, dict: Dict, tr: Trace, ap: Ap, lazy: bool, i: nat, l: nat, u: nat, v: Ext)
    requires Consistent(cells, dict, tr, ap, lazy)
    requires i < |cells| && l < |cells[i]| && l <= u && u - l < |cells[i][l]|
    requires i in dict && Agree(lazy, v, Rob(dict[i], tr, ap, l, u))
    ensures Consistent(SetCell(cells, i, l, u, v), dict, tr, ap, lazy)
    ensures Grows(cells, SetCell(cells, i, l, u, v))
  {
    var c' := SetCell(cells, i, l, u, v);
    forall i': nat, l': nat, u': nat | CellOf(c', i', l', u').Some?
      ensures i' in dict && Agree(lazy, CellOf(c', i', l', u').value, Rob(dict[i'], tr, ap, l', u'))
    {
      if (i', l', u') != (i, l, u) {
        assert CellOf(c', i', l', u') == CellOf(cells, i', l', u');
      }
    }
  }

  /** Stl::evaluate_fnc: the samples of the named signals at `lower` (-inf past
      the end of a signal), handed to the proposition's function. */
  method EvaluateFnc(names: seq<string>, tr: Trace, lower: nat, fn: nat, ap: Ap) returns (v: Ext)
    requires forall k :: 0 <= k < |names| ==> names[k] in tr.signals
    ensures v == ap(fn, Samples(tr, names, lower))
  {
    var values: seq<Ext> := [];
    for k := 0 to |names|
      invariant |values| == k
      invariant forall j :: 0 <= j < k ==> values[j] == Sample(tr, names[j], lower)
    {
      var s := tr.signals[names[k]];
      var x := if lower < |s| then s[lower] else NegInf;
      values := values + [x];
    }
    assert values == Samples(tr, names, lower);
    v := ap(fn, values);
  }

  /** What every evaluation step needs of the table: the right shape, room for
      every index of phi and, when the window is not empty, for its upper bound;
      an owner for every index; and every signal phi reads. */
  predicate Ready(phi: Formula, table: Table, tr: Trace, lower: nat, upper: nat, dict: Dict)
    reads table
  {
    table.Valid() && IdxBelow(phi, table.amountFirstIdx) &&
    (lower <= upper ==> upper < table.traceLength) &&
    NamesIn(phi, tr) && Indexed(phi, dict)
  }

  /** Stl::evaluate: look the window up, else compute it from the children and
      cache it (only for a non-empty window). */
  method Evaluate(phi: Formula, table: Table, tr: Trace, ap: Ap, lower: nat, upper: nat, lazy: bool, ghost dict: Dict)
    returns (v: Ext)
    requires Ready(phi, table, tr, lower, upper, dict)
    requires Consistent(table.cells, dict, tr, ap, lazy)
    modifies table`cells, table`totalLookups, table`totalSetCalls
    ensures table.Valid() && Consistent(table.cells, dict, tr, ap, lazy)
    ensures Grows(old(table.cells), table.cells)
    ensures Agree(lazy, v, Rob(phi, tr, ap, lower, upper))
    ensures lower <= upper ==> table.Cell(phi.idx, lower, upper) == Some(v)
    decreases Size(phi), 2
  {
    var res: Option<Ext> := None;
    if lower <= upper {
      res := table.Lookup(phi.idx, lower, upper);
    }
    if res.Some? {
      v := res.value;
      return;
    }
    v := Compute(phi, table, tr, ap, lower, upper, lazy, dict);
    if lower <= upper {
      SetConsistent(table.cells, dict, tr, ap, lazy, phi.idx, lower, upper, v);
      table.Set(phi.idx, lower, upper, v);
    }
  }

  /** The uncached part of Stl::evaluate: the value of phi from its children. */
  method Compute(phi: Formula, table: Table, tr: Trace, ap: Ap, lower: nat, upper: nat, lazy: bool, ghost dict: Dict)
    returns (v: Ext)
    requires Ready(phi, table, tr, lower, upper, dict)
    requires Consistent(table.cells, dict, tr, ap, lazy)
    modifies table`cells, table`totalLookups, table`totalSetCalls
    ensures table.Valid() && Consistent(table.cells, dict, tr, ap, lazy)
    ensures Grows(old(table.cells), table.cells)
    ensures Agree(lazy, v, Rob(phi, tr, ap, lower, upper))
    decreases Size(phi), 1
  {
    match phi {
    case Atomic(_, names, fn) =>
      if lower <= upper {
        v := EvaluateFnc(names, tr, lower, fn, ap);
      } else {
        v := NegInf;
      }
    case Conjunction(_, l, r) =>
      var a, b := EvalPair(l, r, table, tr, ap, lower, upper, lazy, dict);
      AgreeMin(lazy, a, Rob(l, tr, ap, lower, upper), b, Rob(r, tr, ap, lower, upper));
      v := Min(a, b);
    case Disjunction(_, l, r) =>
      var a, b := EvalPair(l, r, table, tr, ap, lower, upper, lazy, dict);
      AgreeMax(lazy, a, Rob(l, tr, ap, lower, upper), b, Rob(r, tr, ap, lower, upper));
      v := Max(a, b);
    case Neg(_, c) =>
      var a := Evaluate(c, table, tr, ap, lower, upper, lazy, dict);
      AgreeNegate(lazy, a, Rob(c, tr, ap, lower, upper));
      v := Negate(a);
    case Next(_, c) =>
      v := Evaluate(c, table, tr, ap, lower + 1, upper, lazy, dict);
    case Eventually(_, c) =>
      v := EvalMax(c, table, tr, ap, lower, upper, upper, lazy, dict);
    case Globally(_, c) =>
      v := EvalMin(c, table, tr, ap, lower, upper, upper, lazy, dict);
    case Until(_, l, r) =>
      v := EvalUntil(l, r, table, tr, ap, lower, lower, upper, upper, lazy, dict);
    case EventuallyInterval(_, _, _, _) =>
      v := ComputeInterval(phi, table, tr, ap, lower, upper, lazy, dict);
    case GloballyInterval(_, _, _, _) =>
      v := ComputeInterval(phi, table, tr, ap, lower, upper, lazy, dict);
    case UntilInterval(_, _, _, _, _) =>
      v := ComputeInterval(phi, table, tr, ap, lower, upper, lazy, dict);
    }
  }

  /** Compute for the operators with a bound interval [a, b], whose upper end
      is clipped to the window (`get_upper_bound`). */
  method ComputeInterval(phi: Formula, table: Table, tr: Trace, ap: Ap, lower: nat, upper: nat, lazy: bool, ghost dict: Dict)
    returns (v: Ext)
    requires phi.EventuallyInterval? || phi.GloballyInterval? || phi.UntilInterval?
    requires Ready(phi, table, tr, lower, upper, dict)
    requires Consistent(table.cells, dict, tr, ap, lazy)
    modifies table`cells, table`totalLookups, table`totalSetCalls
    ensures table.Valid() && Consistent(table.cells, dict, tr, ap, lazy)
    ensures Grows(old(table.cells), table.cells)
    ensures Agree(lazy, v, Rob(phi, tr, ap, lower, upper))
    decreases Size(phi), 0
  {
    match phi {
    case EventuallyInterval(_, a, b, c) =>
      var u := Clip(upper, b);
      v := EvalMax(c, table, tr, ap, lower + a, lower + u, upper, lazy, dict);
    case GloballyInterval(_, a, b, c) =>
      var u := Clip(upper, b);
      if a > u {
        v := NegInf;
      } else {
        v := EvalMin(c, table, tr, ap, lower + a, lower + u, upper, lazy, dict);
      }
    case UntilInterval(_, a, b, l, r) =>
      var u := Clip(upper, b);
      v := EvalUntil(l, r, table, tr, ap, lower + a, lower + a, lower + u, upper, lazy, dict);
    }
  }

  /** The two operands of a conjunction or disjunction, left first. */
  method EvalPair(l: Formula, r: Formula, table: Table, tr: Trace, ap: Ap, lower: nat, upper: nat, lazy: bool, ghost dict: Dict)
    returns (a: Ext, b: Ext)
    requires Ready(l, table, tr, lower, upper, dict) && Ready(r, table, tr, lower, upper, dict)
    requires Consistent(table.cells, dict, tr, ap, lazy)
    modifies table`cells, table`totalLookups, table`totalSetCalls
    ensures table.Valid() && Consistent(table.cells, dict, tr, ap, lazy)
    ensures Grows(old(table.cells), table.cells)
    ensures Agree(lazy, a, Rob(l, tr, ap, lower, upper)) && Agree(lazy, b, Rob(r, tr, ap, lower, upper))
    decreases Size(l) + Size(r), 3
  {
    a := Evaluate(l, table, tr, ap, lower, upper, lazy, dict);
    b := Evaluate(r, table, tr, ap, lower, upper, lazy, dict);
  }

  /** The loop of Eventually and EventuallyInterval: the running maximum of
      c[i, upper] for i = from, ..., last, stopped in lazy mode once it is positive. */
  method EvalMax(c: Formula, table: Table, tr: Trace, ap: Ap, from: nat, last: nat, upper: nat, lazy: bool, ghost dict: Dict)
    returns (v: Ext)
    requires Ready(c, table, tr, from, upper, dict)
    requires Consistent(table.cells, dict, tr, ap, lazy)
    modifies table`cells, table`totalLookups, table`totalSetCalls
    ensures table.Valid() && Consistent(table.cells, dict, tr, ap, lazy)
    ensures Grows(old(table.cells), table.cells)
    ensures Agree(lazy, v, MaxRob(c, tr, ap, from, last, upper))
    decreases Size(c), 3
  {
    v := NegInf;
    var i := from;
    while i <= last
      invariant from <= i && (i <= last + 1 || i == from)
      invariant table.Valid() && Consistent(table.cells, dict, tr, ap, lazy)
      invariant Grows(old(table.cells), table.cells)
      invariant Agree(lazy, v, MaxRob(c, tr, ap, from, i - 1, upper))
      decreases last + 1 - i
    {
      var x := Evaluate(c, table, tr, ap, i, upper, lazy, dict);
      AgreeMax(lazy, v, MaxRob(c, tr, ap, from, i - 1, upper), x, Rob(c, tr, ap, i, upper));
      v := Max(v, x);
      if lazy && IsPos(v) {
        MaxRobMono(c, tr, ap, from, i, last, upper);
        PosUp(MaxRob(c, tr, ap, from, i, upper), MaxRob(c, tr, ap, from, last, upper));
        return;
      }
      i := i + 1;
    }
  }

  /** The loop of Globally and GloballyInterval: the running minimum of
      c[i, upper] for i = from, ..., last, started at +inf and stopped in lazy
      mode once it is negative. */
  method EvalMin(c: Formula, table: Table, tr: Trace, ap: Ap, from: nat, last: nat, upper: nat, lazy: bool, ghost dict: Dict)
    returns (v: Ext)
    requires Ready(c, table, tr, from, upper, dict)
    requires Consistent(table.cells, dict, tr, ap, lazy)
    modifies table`cells, table`totalLookups, table`totalSetCalls
    ensures table.Valid() && Consistent(table.cells, dict, tr, ap, lazy)
    ensures Grows(old(table.cells), table.cells)
    ensures Agree(lazy, v, MinRob(c, tr, ap, PosInf, from, last, upper))
    decreases Size(c), 3
  {
    v := PosInf;
    var i := from;
    while i <= last
      invariant from <= i && (i <= last + 1 || i == from)
      invariant table.Valid() && Consistent(table.cells, dict, tr, ap, lazy)
      invariant Grows(old(table.cells), table.cells)
      invariant Agree(lazy, v, MinRob(c, tr, ap, PosInf, from, i - 1, upper))
      decreases last + 1 - i
    {
      var x := Evaluate(c, table, tr, ap, i, upper, lazy, dict);
      AgreeMin(lazy, v, MinRob(c, tr, ap, PosInf, from, i - 1, upper), x, Rob(c, tr, ap, i, upper));
      v := Min(v, x);
      if lazy && IsNeg(v) {
        MinRobMono(c, tr, ap, PosInf, from, i, last, upper);
        NegDown(MinRob(c, tr, ap, PosInf, from, i, upper), MinRob(c, tr, ap, PosInf, from, last, upper));
        return;
      }
      i := i + 1;
    }
  }

  /** The loops of Until and UntilInterval: over i = from, ..., last the running
      maximum of min(r[i, upper], l[j, upper] for j = start, ..., i - 1),
      stopped in lazy mode once it is positive. */
  method EvalUntil(l: Formula, r: Formula, table: Table, tr: Trace, ap: Ap, start: nat, from: nat, last: nat, upper: nat,
                   lazy: bool, ghost dict: Dict)
    returns (v: Ext)
    requires start <= from
    requires Ready(l, table, tr, start, upper, dict) && Ready(r, table, tr, start, upper, dict)
    requires Consistent(table.cells, dict, tr, ap, lazy)
    modifies table`cells, table`totalLookups, table`totalSetCalls
    ensures table.Valid() && Consistent(table.cells, dict, tr, ap, lazy)
    ensures Grows(old(table.cells), table.cells)
    ensures Agree(lazy, v, UntilRob(l, r, tr, ap, start, from, last, upper))
    decreases Size(l) + Size(r), 3
  {
    v := NegInf;
    var i := from;
    while i <= last
      invariant from <= i && (i <= last + 1 || i == from)
      invariant table.Valid() && Consistent(table.cells, dict, tr, ap, lazy)
      invariant Grows(old(table.cells), table.cells)
      invariant Agree(lazy, v, UntilRob(l, r, tr, ap, start, from, i - 1, upper))
      decreases last + 1 - i
    {
      var m := Evaluate(r, table, tr, ap, i, upper, lazy, dict);
      m := EvalUntilLeft(l, table, tr, ap, m, Rob(r, tr, ap, i, upper), start, i, upper, lazy, dict);
      AgreeMax(lazy, v, UntilRob(l, r, tr, ap, start, from, i - 1, upper),
               m, MinRob(l, tr, ap, Rob(r, tr, ap, i, upper), start, i - 1, upper));
      v := Max(v, m);
      if lazy && IsPos(v) {
        UntilRobMono(l, r, tr, ap, start, from, i, last, upper);
        PosUp(UntilRob(l, r, tr, ap, start, from, i, upper), UntilRob(l, r, tr, ap, start, from, last, upper));
        return;
      }
      i := i + 1;
    }
  }

  /** The inner loop of Until and UntilInterval: the running minimum of m and
      l[j, upper] for j = start, ..., i - 1, without a lazy exit. */
  method EvalUntilLeft(l: Formula, table: Table, tr: Trace, ap: Ap, m0: Ext, ghost init: Ext, start: nat, i: nat, upper: nat,
                       lazy: bool, ghost dict: Dict)
    returns (m: Ext)
    requires Agree(lazy, m0, init)
    requires Ready(l, table, tr, start, upper, dict)
    requires Consistent(table.cells, dict, tr, ap, lazy)
    modifies table`cells, table`totalLookups, table`totalSetCalls
    ensures table.Valid() && Consistent(table.cells, dict, tr, ap, lazy)
    ensures Grows(old(table.cells), table.cells)
    ensures Agree(lazy, m, MinRob(l, tr, ap, init, start, i - 1, upper))
    decreases Size(l), 3
  {
    m := m0;
    var j := start;
    while j < i
      invariant start <= j && (j <= i || j == start)
      invariant table.Valid() && Consistent(table.cells, dict, tr, ap, lazy)
      invariant Grows(old(table.cells), table.cells)
      invariant Agree(lazy, m, MinRob(l, tr, ap, init, start, j - 1, upper))
      decreases i - j
    {
      var x := Evaluate(l, table, tr, ap, j, upper, lazy, dict);
      AgreeMin(lazy, m, MinRob(l, tr, ap, init, start, j - 1, upper), x, Rob(l, tr, ap, j, upper));
      m := Min(m, x);
      j := j + 1;
    }
  }
}

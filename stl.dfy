/** Signal Temporal Logic formulas over a discrete trace (src/stl.rs): the syntax,
    the subformula counter, `get_atomics`, `pretty_print`, and the robustness
    semantics that the table-caching evaluator of module StlEval computes. */
module Stl {
  import opened ExtReal
  import opened Decimal

  /** Each node carries the subformula index under which its results are cached.
      An atomic proposition names the signals it reads and, in `fn`, which
      (opaque) function it applies to their samples. */
  datatype Formula =
    | Atomic(idx: nat, names: seq<string>, fn: nat)
    | Conjunction(idx: nat, left: Formula, right: Formula)
    | Disjunction(idx: nat, left: Formula, right: Formula)
    | Neg(idx: nat, child: Formula)
    | Next(idx: nat, child: Formula)
    | Eventually(idx: nat, child: Formula)
    | Globally(idx: nat, child: Formula)
    | Until(idx: nat, left: Formula, right: Formula)
    | EventuallyInterval(idx: nat, lo: nat, hi: nat, child: Formula)
    | GloballyInterval(idx: nat, lo: nat, hi: nat, child: Formula)
    | UntilInterval(idx: nat, lo: nat, hi: nat, left: Formula, right: Formula)

  /** A trace: its length and one sample vector per signal name. */
  datatype Trace = Trace(length: nat, signals: map<string, seq<Ext>>)

  /** The meaning of the atomic propositions: `fn` applied to the sample vector. */
  type Ap = (nat, seq<Ext>) -> Ext

  /*************************
   * The subformula counter
   *************************/

  /** The global FORMULACOUNT: `gfc` hands out 0, 1, 2, ... */
  class FormulaCounter {
    var count: nat

    constructor ()
      ensures count == 0
    {
      count := 0;
    }

    /** gfc */
    method Gfc() returns (i: nat)
      modifies this
      ensures i == old(count) && count == old(count) + 1
    {
      count := count + 1;
      i := count - 1;
    }

    /** stl_reset_count */
    method Reset()
      modifies this
      ensures count == 0
    {
      count := 0;
    }

    /** Stl::get_number_formulas */
    function NumberFormulas(): nat
      reads this
    {
      count
    }
  }

  // The constructors Stl::atomic, Stl::conjunction, ...: each takes the next index.

  method MkAtomic(c: FormulaCounter, names: seq<string>, fn: nat) returns (f: Formula)
    modifies c
    ensures f == Atomic(old(c.count), names, fn) && c.count == old(c.count) + 1
  {
    var i := c.Gfc();
    f := Atomic(i, names, fn);
  }

  method MkConjunction(c: FormulaCounter, l: Formula, r: Formula) returns (f: Formula)
    modifies c
    ensures f == Conjunction(old(c.count), l, r) && c.count == old(c.count) + 1
  {
    var i := c.Gfc();
    f := Conjunction(i, l, r);
  }

  method MkDisjunction(c: FormulaCounter, l: Formula, r: Formula) returns (f: Formula)
    modifies c
    ensures f == Disjunction(old(c.count), l, r) && c.count == old(c.count) + 1
  {
    var i := c.Gfc();
    f := Disjunction(i, l, r);
  }

  method MkNeg(c: FormulaCounter, child: Formula) returns (f: Formula)
    modifies c
    ensures f == Neg(old(c.count), child) && c.count == old(c.count) + 1
  {
    var i := c.Gfc();
    f := Neg(i, child);
  }

  method MkNext(c: FormulaCounter, child: Formula) returns (f: Formula)
    modifies c
    ensures f == Next(old(c.count), child) && c.count == old(c.count) + 1
  {
    var i := c.Gfc();
    f := Next(i, child);
  }

  method MkEventually(c: FormulaCounter, child: Formula) returns (f: Formula)
    modifies c
    ensures f == Eventually(old(c.count), child) && c.count == old(c.count) + 1
  {
    var i := c.Gfc();
    f := Eventually(i, child);
  }

  method MkGlobally(c: FormulaCounter, child: Formula) returns (f: Formula)
    modifies c
    ensures f == Globally(old(c.count), child) && c.count == old(c.count) + 1
  {
    var i := c.Gfc();
    f := Globally(i, child);
  }

  method MkUntil(c: FormulaCounter, l: Formula, r: Formula) returns (f: Formula)
    modifies c
    ensures f == Until(old(c.count), l, r) && c.count == old(c.count) + 1
  {
    var i := c.Gfc();
    f := Until(i, l, r);
  }

  method MkEventuallyInterval(c: FormulaCounter, lo: nat, hi: nat, child: Formula) returns (f: Formula)
    modifies c
    ensures f == EventuallyInterval(old(c.count), lo, hi, child) && c.count == old(c.count) + 1
  {
    var i := c.Gfc();
    f := EventuallyInterval(i, lo, hi, child);
  }

  method MkGloballyInterval(c: FormulaCounter, lo: nat, hi: nat, child: Formula) returns (f: Formula)
    modifies c
    ensures f == GloballyInterval(old(c.count), lo, hi, child) && c.count == old(c.count) + 1
  {
    var i := c.Gfc();
    f := GloballyInterval(i, lo, hi, child);
  }

  method MkUntilInterval(c: FormulaCounter, lo: nat, hi: nat, l: Formula, r: Formula) returns (f: Formula)
    modifies c
    ensures f == UntilInterval(old(c.count), lo, hi, l, r) && c.count == old(c.count) + 1
  {
    var i := c.Gfc();
    f := UntilInterval(i, lo, hi, l, r);
  }

  /*************************
   * Structure
   *************************/

  function Size(phi: Formula): (n: nat)
    ensures n >= 1
  {
    match phi
    case Atomic(_, _, _) => 1
    case Conjunction(_, l, r) => 1 + Size(l) + Size(r)
    case Disjunction(_, l, r) => 1 + Size(l) + Size(r)
    case Until(_, l, r) => 1 + Size(l) + Size(r)
    case UntilInterval(_, _, _, l, r) => 1 + Size(l) + Size(r)
    case Neg(_, c) => 1 + Size(c)
    case Next(_, c) => 1 + Size(c)
    case Eventually(_, c) => 1 + Size(c)
    case Globally(_, c) => 1 + Size(c)
    case EventuallyInterval(_, _, _, c) => 1 + Size(c)
    case GloballyInterval(_, _, _, c) => 1 + Size(c)
  }

  predicate IsBinary(phi: Formula)
  {
    phi.Conjunction? || phi.Disjunction? || phi.Until? || phi.UntilInterval?
  }

  /** Every subformula, parent before children, left before right. */
  function PreOrder(phi: Formula): seq<Formula>
  {
    if phi.Atomic? then [phi]
    else if IsBinary(phi) then [phi] + (PreOrder(phi.left) + PreOrder(phi.right))
    else [phi] + PreOrder(phi.child)
  }

  function FilterAtomic(s: seq<Formula>): seq<Formula>
  {
    if |s| == 0 then []
    else (if s[0].Atomic? then [s[0]] else []) + FilterAtomic(s[1..])
  }

  lemma {:induction false} FilterAtomicAppend(a: seq<Formula>, b: seq<Formula>)
    ensures FilterAtomic(a + b) == FilterAtomic(a) + FilterAtomic(b)
    decreases |a|
  {
    if |a| == 0 {
      assert a + b == b;
    } else {
      var h := if a[0].Atomic? then [a[0]] else [];
      calc {
        FilterAtomic(a + b);
        { assert (a + b)[0] == a[0]; assert (a + b)[1..] == a[1..] + b; }
        h + FilterAtomic(a[1..] + b);
        { FilterAtomicAppend(a[1..], b); }
        h + (FilterAtomic(a[1..]) + FilterAtomic(b));
        (h + FilterAtomic(a[1..])) + FilterAtomic(b);
      }
    }
  }

  /** Stl::get_atomics: the atomic propositions, left to right. */
  function GetAtomics(phi: Formula): (r: seq<Formula>)
    ensures forall k :: 0 <= k < |r| ==> r[k].Atomic?
  {
    match phi
    case Atomic(_, _, _) => [phi]
    case Conjunction(_, l, r) => GetAtomics(l) + GetAtomics(r)
    case Disjunction(_, l, r) => GetAtomics(l) + GetAtomics(r)
    case Until(_, l, r) => GetAtomics(l) + GetAtomics(r)
    case UntilInterval(_, _, _, l, r) => GetAtomics(l) + GetAtomics(r)
    case Neg(_, c) => GetAtomics(c)
    case Next(_, c) => GetAtomics(c)
    case Eventually(_, c) => GetAtomics(c)
    case Globally(_, c) => GetAtomics(c)
    case EventuallyInterval(_, _, _, c) => GetAtomics(c)
    case GloballyInterval(_, _, _, c) => GetAtomics(c)
  }

  /** A non-atomic head is dropped by the filter. */
  lemma FilterAtomicSkip(x: Formula, s: seq<Formula>)
    requires !x.Atomic?
    ensures FilterAtomic([x] + s) == FilterAtomic(s)
  {
    assert ([x] + s)[0] == x;
    assert ([x] + s)[1..] == s;
  }

  /** The binary step: the head is dropped, the children's lists follow each other. */
  lemma BinaryAtomics(phi: Formula)
    requires IsBinary(phi)
    requires GetAtomics(phi.left) == FilterAtomic(PreOrder(phi.left))
    requires GetAtomics(phi.right) == FilterAtomic(PreOrder(phi.right))
    ensures GetAtomics(phi) == FilterAtomic(PreOrder(phi))
  {
    var pl, pr := PreOrder(phi.left), PreOrder(phi.right);
    calc {
      FilterAtomic(PreOrder(phi));
      FilterAtomic([phi] + (pl + pr));
      { FilterAtomicSkip(phi, pl + pr); }
      FilterAtomic(pl + pr);
      { FilterAtomicAppend(pl, pr); }
      FilterAtomic(pl) + FilterAtomic(pr);
      GetAtomics(phi.left) + GetAtomics(phi.right);
    }
  }

  /** The unary step: the head is dropped. */
  lemma UnaryAtomics(phi: Formula)
    requires !phi.Atomic? && !IsBinary(phi)
    requires GetAtomics(phi.child) == FilterAtomic(PreOrder(phi.child))
    ensures GetAtomics(phi) == FilterAtomic(PreOrder(phi))
  {
    FilterAtomicSkip(phi, PreOrder(phi.child));
  }

  /** get_atomics lists exactly the atomic subformulas, in pre-order. */
  lemma {:induction false} GetAtomicsIsAtomicPreOrder(phi: Formula)
    ensures GetAtomics(phi) == FilterAtomic(PreOrder(phi))
  {
    if phi.Atomic? {
      assert FilterAtomic([phi]) == [phi] + FilterAtomic([phi][1..]);
    } else if IsBinary(phi) {
      GetAtomicsIsAtomicPreOrder(phi.left);
      GetAtomicsIsAtomicPreOrder(phi.right);
      BinaryAtomics(phi);
    } else {
      GetAtomicsIsAtomicPreOrder(phi.child);
      UnaryAtomics(phi);
    }
  }

  /*************************
   * pretty_print
   *************************/

  function PrettyPrint(phi: Formula): string
  {
    match phi
    case Atomic(i, _, _) => "AP(" + NatToString(i) + ")"
    case Conjunction(_, l, r) => "(" + PrettyPrint(l) + " and " + PrettyPrint(r) + ")"
    case Disjunction(_, l, r) => "(" + PrettyPrint(l) + " or " + PrettyPrint(r) + ")"
    case Neg(_, c) => "!(" + PrettyPrint(c) + ")"
    case Next(_, c) => "X(" + PrettyPrint(c) + ")"
    case Eventually(_, c) => "F(" + PrettyPrint(c) + ")"
    case Globally(_, c) => "G(" + PrettyPrint(c) + ")"
    case Until(_, l, r) => "(" + PrettyPrint(l) + " U " + PrettyPrint(r) + ")"
    case EventuallyInterval(_, a, b, c) => "F" + Bounds(a, b) + "(" + PrettyPrint(c) + ")"
    case GloballyInterval(_, a, b, c) => "G" + Bounds(a, b) + "(" + PrettyPrint(c) + ")"
    case UntilInterval(_, a, b, l, r) => "(" + PrettyPrint(l) + UntilOp(a, b) + PrettyPrint(r) + ")"
  }

  /** The infix " U[a,b] " of a bounded Until. */
  function UntilOp(a: nat, b: nat): string
  {
    " U" + Bounds(a, b) + " "
  }

  /** The bounds "[a,b]" of an interval operator. */
  function Bounds(a: nat, b: nat): string
  {
    "[" + NatToString(a) + "," + NatToString(b) + "]"
  }

  /** As many opening as closing parentheses, and as many opening as closing
      brackets; only the counts, not the nesting order. */
  predicate Balanced(s: string)
  {
    multiset(s)['('] == multiset(s)[')'] && multiset(s)['['] == multiset(s)[']']
  }

  lemma BalancedNat(n: nat)
    ensures Balanced(NatToString(n))
  {
    var s := NatToString(n);
    assert '(' !in s && ')' !in s && '[' !in s && ']' !in s by {
      assert forall k :: 0 <= k < |s| ==> IsDigit(s[k]);
    }
  }

  /** A balanced body inside a prefix operator whose own text is balanced. */
  lemma WrapBalanced(pre: string, body: string)
    requires Balanced(pre + ")") && Balanced(body)
    ensures Balanced(pre + body + ")")
  {
    assert multiset(pre + body + ")") == multiset(pre + ")") + multiset(body);
  }

  /** Two balanced operands of a parenthesised infix operator whose symbol is balanced. */
  lemma InfixBalanced(l: string, op: string, r: string)
    requires Balanced(l) && Balanced(op) && Balanced(r)
    ensures Balanced("(" + l + op + r + ")")
  {
    assert multiset("(" + l + op + r + ")") == multiset("(") + multiset(l) + multiset(op) + multiset(r) + multiset(")");
  }

  lemma BoundsBalanced(a: nat, b: nat)
    ensures Balanced(Bounds(a, b))
  {
    BalancedNat(a);
    BalancedNat(b);
    assert multiset(Bounds(a, b))
        == multiset("[") + multiset(NatToString(a)) + multiset(",") + multiset(NatToString(b)) + multiset("]");
  }

  lemma UntilOpBalanced(a: nat, b: nat)
    ensures Balanced(UntilOp(a, b))
  {
    BoundsBalanced(a, b);
    assert multiset(" U" + Bounds(a, b) + " ") == multiset(" U") + multiset(Bounds(a, b)) + multiset(" ");
  }

  /** "F[a,b](" or "G[a,b](" is balanced once closed. */
  lemma IntervalHeadBalanced(op: string, a: nat, b: nat)
    requires op == "F" || op == "G"
    ensures Balanced(op + Bounds(a, b) + "(" + ")")
  {
    BoundsBalanced(a, b);
    HeadBalanced(op, Bounds(a, b));
  }

  lemma HeadBalanced(op: string, t: string)
    requires op == "F" || op == "G"
    requires Balanced(t)
    ensures Balanced(op + t + "(" + ")")
  {
    assert Balanced(op) by {
      assert multiset(op) == multiset{op[0]};
    }
    BalancedAppend(op, t);
    assert op + t + "(" + ")" == (op + t) + "()";
    assert multiset((op + t) + "()") == multiset(op + t) + multiset{'(', ')'};
  }

  lemma BalancedAppend(x: string, y: string)
    requires Balanced(x) && Balanced(y)
    ensures Balanced(x + y)
  {
    assert multiset(x + y) == multiset(x) + multiset(y);
  }

  /** The printed form of every formula has equal counts of opening and
      closing parentheses, and of opening and closing brackets. */
  lemma {:induction false} PrettyPrintBalanced(phi: Formula)
    ensures Balanced(PrettyPrint(phi))
  {
    if phi.Atomic? {
      AtomTextBalanced();
      BalancedNat(phi.idx);
      WrapBalanced("AP(", NatToString(phi.idx));
    } else if IsBinary(phi) {
      PrettyPrintBalanced(phi.left);
      PrettyPrintBalanced(phi.right);
      InfixStep(phi);
    } else {
      PrettyPrintBalanced(phi.child);
      PrefixStep(phi);
    }
  }

  lemma InfixStep(phi: Formula)
    requires IsBinary(phi) && Balanced(PrettyPrint(phi.left)) && Balanced(PrettyPrint(phi.right))
    ensures Balanced(PrettyPrint(phi))
  {
    match phi
    case Conjunction(_, l, r) =>
      AndTextBalanced();
      InfixBalanced(PrettyPrint(l), " and ", PrettyPrint(r));
    case Disjunction(_, l, r) =>
      OrTextBalanced();
      InfixBalanced(PrettyPrint(l), " or ", PrettyPrint(r));
    case Until(_, l, r) =>
      UntilTextBalanced();
      InfixBalanced(PrettyPrint(l), " U ", PrettyPrint(r));
    case UntilInterval(_, a, b, l, r) =>
      UntilOpBalanced(a, b);
      InfixBalanced(PrettyPrint(l), UntilOp(a, b), PrettyPrint(r));
  }

  lemma PrefixStep(phi: Formula)
    requires !phi.Atomic? && !IsBinary(phi) && Balanced(PrettyPrint(phi.child))
    ensures Balanced(PrettyPrint(phi))
  {
    match phi
    case Neg(_, c) =>
      NegTextBalanced();
      WrapBalanced("!(", PrettyPrint(c));
    case Next(_, c) =>
      NextTextBalanced();
      WrapBalanced("X(", PrettyPrint(c));
    case Eventually(_, c) =>
      EventuallyTextBalanced();
      WrapBalanced("F(", PrettyPrint(c));
    case Globally(_, c) =>
      GloballyTextBalanced();
      WrapBalanced("G(", PrettyPrint(c));
    case EventuallyInterval(_, a, b, c) =>
      IntervalHeadBalanced("F", a, b);
      WrapBalanced("F" + Bounds(a, b) + "(", PrettyPrint(c));
    case GloballyInterval(_, a, b, c) =>
      IntervalHeadBalanced("G", a, b);
      WrapBalanced("G" + Bounds(a, b) + "(", PrettyPrint(c));
  }

  /** The fixed text of each operator is balanced. */
  lemma AtomTextBalanced()
    ensures Balanced("AP(" + ")")
  {
    assert multiset("AP(" + ")") == multiset{'A', 'P', '(', ')'};
  }

  lemma AndTextBalanced()
    ensures Balanced(" and ")
  {
    assert multiset(" and ") == multiset{' ', 'a', 'n', 'd', ' '};
  }

  lemma OrTextBalanced()
    ensures Balanced(" or ")
  {
    assert multiset(" or ") == multiset{' ', 'o', 'r', ' '};
  }

  lemma UntilTextBalanced()
    ensures Balanced(" U ")
  {
    assert multiset(" U ") == multiset{' ', 'U', ' '};
  }

  lemma NegTextBalanced()
    ensures Balanced("!(" + ")")
  {
    assert multiset("!(" + ")") == multiset{'!', '(', ')'};
  }

  lemma NextTextBalanced()
    ensures Balanced("X(" + ")")
  {
    assert multiset("X(" + ")") == multiset{'X', '(', ')'};
  }

  lemma EventuallyTextBalanced()
    ensures Balanced("F(" + ")")
  {
    assert multiset("F(" + ")") == multiset{'F', '(', ')'};
  }

  lemma GloballyTextBalanced()
    ensures Balanced("G(" + ")")
  {
    assert multiset("G(" + ")") == multiset{'G', '(', ')'};
  }

  /*************************
   * Robustness semantics
   *************************/

  /** The sample of signal `name` at index i; a sample beyond the vector reads
      as -inf (`evaluate_fnc`). A name missing from the trace makes the source
      panic; callers of the evaluator exclude it with NamesIn. */
  function Sample(tr: Trace, name: string, i: nat): Ext
  {
    if name in tr.signals && i < |tr.signals[name]| then tr.signals[name][i] else NegInf
  }

  function Samples(tr: Trace, names: seq<string>, i: nat): seq<Ext>
  {
    seq(|names|, k requires 0 <= k < |names| => Sample(tr, names[k], i))
  }

  /** Every signal an atomic proposition of phi reads is in the trace. */
  predicate NamesIn(phi: Formula, tr: Trace)
  {
    match phi
    case Atomic(_, names, _) => forall k :: 0 <= k < |names| ==> names[k] in tr.signals
    case Conjunction(_, l, r) => NamesIn(l, tr) && NamesIn(r, tr)
    case Disjunction(_, l, r) => NamesIn(l, tr) && NamesIn(r, tr)
    case Until(_, l, r) => NamesIn(l, tr) && NamesIn(r, tr)
    case UntilInterval(_, _, _, l, r) => NamesIn(l, tr) && NamesIn(r, tr)
    case Neg(_, c) => NamesIn(c, tr)
    case Next(_, c) => NamesIn(c, tr)
    case Eventually(_, c) => NamesIn(c, tr)
    case Globally(_, c) => NamesIn(c, tr)
    case EventuallyInterval(_, _, _, c) => NamesIn(c, tr)
    case GloballyInterval(_, _, _, c) => NamesIn(c, tr)
  }

  /** usize::min(upper, u): an interval bound clipped to the evaluation window. */
  function Clip(upper: nat, u: nat): nat
  {
    if upper <= u then upper else u
  }

  /** The robustness of phi on the window [lower, upper]. */
  function Rob(phi: Formula, tr: Trace, ap: Ap, lower: nat, upper: nat): Ext
    decreases Size(phi), 1
  {
    match phi
    case Atomic(_, names, fn) =>
      if lower <= upper then ap(fn, Samples(tr, names, lower)) else NegInf
    case Conjunction(_, l, r) => Min(Rob(l, tr, ap, lower, upper), Rob(r, tr, ap, lower, upper))
    case Disjunction(_, l, r) => Max(Rob(l, tr, ap, lower, upper), Rob(r, tr, ap, lower, upper))
    case Neg(_, c) => Negate(Rob(c, tr, ap, lower, upper))
    case Next(_, c) => Rob(c, tr, ap, lower + 1, upper)
    case Eventually(_, c) => MaxRob(c, tr, ap, lower, upper, upper)
    case Globally(_, c) => MinRob(c, tr, ap, PosInf, lower, upper, upper)
    case Until(_, l, r) => UntilRob(l, r, tr, ap, lower, lower, upper, upper)
    case EventuallyInterval(_, a, b, c) => MaxRob(c, tr, ap, lower + a, lower + Clip(upper, b), upper)
    case GloballyInterval(_, a, b, c) =>
      if a > Clip(upper, b) then NegInf
      else MinRob(c, tr, ap, PosInf, lower + a, lower + Clip(upper, b), upper)
    case UntilInterval(_, a, b, l, r) =>
      UntilRob(l, r, tr, ap, lower + a, lower + a, lower + Clip(upper, b), upper)
  }

  /** The running maximum of c[i, upper] for i = from, ..., to (-inf if empty). */
  function MaxRob(c: Formula, tr: Trace, ap: Ap, from: nat, to: int, upper: nat): Ext
    decreases Size(c), 2, to - from + 1
  {
    if to < from then NegInf
    else Max(MaxRob(c, tr, ap, from, to - 1, upper), Rob(c, tr, ap, to, upper))
  }

  /** The running minimum of init and c[i, upper] for i = from, ..., to. */
  function MinRob(c: Formula, tr: Trace, ap: Ap, init: Ext, from: nat, to: int, upper: nat): Ext
    decreases Size(c), 2, to - from + 1
  {
    if to < from then init
    else Min(MinRob(c, tr, ap, init, from, to - 1, upper), Rob(c, tr, ap, to, upper))
  }

  /** The running maximum over i = from, ..., to of
      min(r[i, upper], l[j, upper] for j = start, ..., i - 1). */
  function UntilRob(l: Formula, r: Formula, tr: Trace, ap: Ap, start: nat, from: nat, to: int, upper: nat): Ext
    decreases Size(l) + Size(r), 3, to - from + 1
  {
    if to < from then NegInf
    else Max(UntilRob(l, r, tr, ap, start, from, to - 1, upper),
             MinRob(l, tr, ap, Rob(r, tr, ap, to, upper), start, to - 1, upper))
  }

  /*************************
   * What the semantics means
   *************************/

  /** MaxRob is the maximum of its range: an upper bound of every element, attained
      by one of them, and -inf on an empty range. */
  lemma {:induction false} MaxRobIsMax(c: Formula, tr: Trace, ap: Ap, from: nat, to: int, upper: nat)
    ensures forall i :: from <= i <= to ==> Le(Rob(c, tr, ap, i, upper), MaxRob(c, tr, ap, from, to, upper))
    ensures to < from ==> MaxRob(c, tr, ap, from, to, upper) == NegInf
    ensures from <= to ==> (exists i :: from <= i <= to && MaxRob(c, tr, ap, from, to, upper) == Rob(c, tr, ap, i, upper))
    decreases if to < from then 0 else to - from + 1
  {
    if from <= to {
      MaxRobIsMax(c, tr, ap, from, to - 1, upper);
      var m := MaxRob(c, tr, ap, from, to - 1, upper);
      forall i | from <= i <= to
        ensures Le(Rob(c, tr, ap, i, upper), MaxRob(c, tr, ap, from, to, upper))
      {
        if i < to {
          LeTrans(Rob(c, tr, ap, i, upper), m, MaxRob(c, tr, ap, from, to, upper));
        }
      }
      if MaxRob(c, tr, ap, from, to, upper) == m && from <= to - 1 {
        var i :| from <= i <= to - 1 && m == Rob(c, tr, ap, i, upper);
        assert from <= i <= to;
      } else {
        assert MaxRob(c, tr, ap, from, to, upper) == Rob(c, tr, ap, to, upper);
      }
    }
  }

  /** MinRob is the minimum of init and its range. */
  lemma {:induction false} MinRobIsMin(c: Formula, tr: Trace, ap: Ap, init: Ext, from: nat, to: int, upper: nat)
    ensures Le(MinRob(c, tr, ap, init, from, to, upper), init)
    ensures forall i :: from <= i <= to ==> Le(MinRob(c, tr, ap, init, from, to, upper), Rob(c, tr, ap, i, upper))
    ensures MinRob(c, tr, ap, init, from, to, upper) == init ||
            (exists i :: from <= i <= to && MinRob(c, tr, ap, init, from, to, upper) == Rob(c, tr, ap, i, upper))
    decreases if to < from then 0 else to - from + 1
  {
    if from <= to {
      MinRobIsMin(c, tr, ap, init, from, to - 1, upper);
      var m := MinRob(c, tr, ap, init, from, to - 1, upper);
      var v := MinRob(c, tr, ap, init, from, to, upper);
      LeTrans(v, m, init);
      forall i | from <= i <= to
        ensures Le(v, Rob(c, tr, ap, i, upper))
      {
        if i < to {
          LeTrans(v, m, Rob(c, tr, ap, i, upper));
        }
      }
      if v == m && m != init {
        var i :| from <= i <= to - 1 && m == Rob(c, tr, ap, i, upper);
        assert from <= i <= to;
      } else if v != m {
        assert v == Rob(c, tr, ap, to, upper);
        assert from <= to <= to;
        assert exists i :: from <= i <= to && v == Rob(c, tr, ap, i, upper);
      } else {
        assert v == init;
      }
    }
  }

  /** Extending the range can only raise the running maximum. */
  lemma {:induction false} MaxRobMono(c: Formula, tr: Trace, ap: Ap, from: nat, to: int, to': int, upper: nat)
    requires to <= to'
    ensures Le(MaxRob(c, tr, ap, from, to, upper), MaxRob(c, tr, ap, from, to', upper))
    decreases to' - to
  {
    if to < to' {
      MaxRobMono(c, tr, ap, from, to, to' - 1, upper);
      if from <= to' {
        LeTrans(MaxRob(c, tr, ap, from, to, upper), MaxRob(c, tr, ap, from, to' - 1, upper), MaxRob(c, tr, ap, from, to', upper));
      }
    }
  }

  /** Extending the range can only lower the running minimum. */
  lemma {:induction false} MinRobMono(c: Formula, tr: Trace, ap: Ap, init: Ext, from: nat, to: int, to': int, upper: nat)
    requires to <= to'
    ensures Le(MinRob(c, tr, ap, init, from, to', upper), MinRob(c, tr, ap, init, from, to, upper))
    decreases to' - to
  {
    if to < to' {
      MinRobMono(c, tr, ap, init, from, to, to' - 1, upper);
      if from <= to' {
        LeTrans(MinRob(c, tr, ap, init, from, to', upper), MinRob(c, tr, ap, init, from, to' - 1, upper), MinRob(c, tr, ap, init, from, to, upper));
      }
    }
  }

  /** Extending the range can only raise the Until maximum. */
  lemma {:induction false} UntilRobMono(l: Formula, r: Formula, tr: Trace, ap: Ap, start: nat, from: nat, to: int, to': int, upper: nat)
    requires to <= to'
    ensures Le(UntilRob(l, r, tr, ap, start, from, to, upper), UntilRob(l, r, tr, ap, start, from, to', upper))
    decreases to' - to
  {
    if to < to' {
      UntilRobMono(l, r, tr, ap, start, from, to, to' - 1, upper);
      if from <= to' {
        LeTrans(UntilRob(l, r, tr, ap, start, from, to, upper), UntilRob(l, r, tr, ap, start, from, to' - 1, upper), UntilRob(l, r, tr, ap, start, from, to', upper));
      }
    }
  }

  /** The inner running minimum of Until, started at r[i, upper], is
      min(r[i, upper], the minimum of l over [start, i - 1]). */
  lemma {:induction false} MinRobFromInit(c: Formula, tr: Trace, ap: Ap, init: Ext, from: nat, to: int, upper: nat)
    ensures MinRob(c, tr, ap, init, from, to, upper) == Min(init, MinRob(c, tr, ap, PosInf, from, to, upper))
    decreases if to < from then 0 else to - from + 1
  {
    if from <= to {
      MinRobFromInit(c, tr, ap, init, from, to - 1, upper);
    }
  }

  /** Globally on an empty window is +inf, Eventually and Until are -inf. */
  lemma EmptyWindow(phi: Formula, tr: Trace, ap: Ap, lower: nat, upper: nat)
    requires lower > upper
    ensures phi.Globally? ==> Rob(phi, tr, ap, lower, upper) == PosInf
    ensures phi.Eventually? || phi.Until? || phi.Atomic? ==> Rob(phi, tr, ap, lower, upper) == NegInf
  {
  }

  /** GloballyInterval clips its bound to upper and is -inf when the lower bound
      exceeds the clipped one; otherwise it is the minimum of child[j, upper]
      over the absolute indices j in [lower + a, lower + min(upper, b)]. */
  lemma GloballyIntervalIsClippedMin(idx: nat, a: nat, b: nat, c: Formula, tr: Trace, ap: Ap, lower: nat, upper: nat)
    ensures var v := Rob(GloballyInterval(idx, a, b, c), tr, ap, lower, upper);
            var u := if upper <= b then upper else b;
            (a > u ==> v == NegInf) &&
            (a <= u ==> (forall j :: lower + a <= j <= lower + u ==> Le(v, Rob(c, tr, ap, j, upper))) &&
                        (exists j :: lower + a <= j <= lower + u && v == Rob(c, tr, ap, j, upper)))
  {
    var u := Clip(upper, b);
    if a <= u {
      MinRobIsMin(c, tr, ap, PosInf, lower + a, lower + u, upper);
    }
  }

  /** EventuallyInterval is the maximum of child[j, upper] over the absolute
      indices j in [lower + a, lower + min(upper, b)], -inf when that is empty. */
  lemma EventuallyIntervalIsClippedMax(idx: nat, a: nat, b: nat, c: Formula, tr: Trace, ap: Ap, lower: nat, upper: nat)
    ensures var v := Rob(EventuallyInterval(idx, a, b, c), tr, ap, lower, upper);
            var u := if upper <= b then upper else b;
            (a > u ==> v == NegInf) &&
            (forall j :: lower + a <= j <= lower + u ==> Le(Rob(c, tr, ap, j, upper), v)) &&
            (a <= u ==> exists j :: lower + a <= j <= lower + u && v == Rob(c, tr, ap, j, upper))
  {
    MaxRobIsMax(c, tr, ap, lower + a, lower + Clip(upper, b), upper);
  }
}

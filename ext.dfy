/** Robustness values: the extended reals without NaN.
    The evaluator only takes minima, maxima and negations of values and compares
    them with 0, so an f32 without NaN is modelled exactly by this domain. */
module ExtReal {

  datatype Ext = NegInf | Fin(r: real) | PosInf

  const Zero: Ext := Fin(0.0)

  /** a <= b in the extended order */
  predicate Le(a: Ext, b: Ext)
  {
    match (a, b)
    case (NegInf, _) => true
    case (_, PosInf) => true
    case (Fin(x), Fin(y)) => x <= y
    case _ => false
  }

  predicate Lt(a: Ext, b: Ext)
  {
    Le(a, b) && a != b
  }

  /** v > 0.0 */
  predicate IsPos(a: Ext)
  {
    Lt(Zero, a)
  }

  /** v < 0.0 */
  predicate IsNeg(a: Ext)
  {
    Lt(a, Zero)
  }

  /** f32::min */
  function Min(a: Ext, b: Ext): (r: Ext)
    ensures r == a || r == b
    ensures Le(r, a) && Le(r, b)
  {
    if Le(a, b) then a else b
  }

  /** f32::max */
  function Max(a: Ext, b: Ext): (r: Ext)
    ensures r == a || r == b
    ensures Le(a, r) && Le(b, r)
  {
    if Le(a, b) then b else a
  }

  /** -1.0 * v */
  function Negate(a: Ext): (r: Ext)
    ensures IsPos(r) <==> IsNeg(a)
    ensures IsNeg(r) <==> IsPos(a)
  {
    match a
    case NegInf => PosInf
    case PosInf => NegInf
    case Fin(x) => Fin(-x)
  }

  lemma LeTotal(a: Ext, b: Ext)
    ensures Le(a, b) || Le(b, a)
  {
  }

  lemma LeTrans(a: Ext, b: Ext, c: Ext)
    requires Le(a, b) && Le(b, c)
    ensures Le(a, c)
  {
  }

  lemma LeAntisym(a: Ext, b: Ext)
    requires Le(a, b) && Le(b, a)
    ensures a == b
  {
  }

  /** Two values give the same verdict: both satisfy, both violate, or both are 0. */
  predicate SignEq(a: Ext, b: Ext)
  {
    (IsPos(a) <==> IsPos(b)) && (IsNeg(a) <==> IsNeg(b))
  }

  /** What a computed value promises about the semantic value: equality in exact
      mode, the same verdict in lazy mode. */
  predicate Agree(lazy: bool, computed: Ext, exact: Ext)
  {
    if lazy then SignEq(computed, exact) else computed == exact
  }

  lemma AgreeMin(lazy: bool, a: Ext, a': Ext, b: Ext, b': Ext)
    requires Agree(lazy, a, a') && Agree(lazy, b, b')
    ensures Agree(lazy, Min(a, b), Min(a', b'))
  {
  }

  lemma AgreeMax(lazy: bool, a: Ext, a': Ext, b: Ext, b': Ext)
    requires Agree(lazy, a, a') && Agree(lazy, b, b')
    ensures Agree(lazy, Max(a, b), Max(a', b'))
  {
  }

  lemma AgreeNegate(lazy: bool, a: Ext, a': Ext)
    requires Agree(lazy, a, a')
    ensures Agree(lazy, Negate(a), Negate(a'))
  {
  }

  /** Two positive values (or two negative values) have the same verdict. */
  lemma SignEqOfPos(a: Ext, b: Ext)
    requires (IsPos(a) && IsPos(b)) || (IsNeg(a) && IsNeg(b))
    ensures SignEq(a, b)
  {
  }

  /** A value at least a positive one is positive. */
  lemma PosUp(a: Ext, b: Ext)
    requires IsPos(a) && Le(a, b)
    ensures IsPos(b)
  {
  }

  /** A value at most a negative one is negative. */
  lemma NegDown(a: Ext, b: Ext)
    requires IsNeg(a) && Le(b, a)
    ensures IsNeg(b)
  {
  }

  lemma MaxNegInf(a: Ext)
    ensures Max(a, NegInf) == a
  {
  }

  /** Folding x into max(a, c) from the left is folding it into c. */
  lemma MaxShuffle(x: Ext, a: Ext, c: Ext)
    ensures Max(x, Max(a, c)) == Max(a, Max(c, x))
  {
    LeTotal(x, a);
    LeTotal(x, c);
    LeTotal(a, c);
  }

  lemma MaxAssoc(a: Ext, b: Ext, c: Ext)
    ensures Max(Max(a, b), c) == Max(a, Max(b, c))
  {
    LeTotal(a, b);
    LeTotal(b, c);
    LeTotal(a, c);
  }

  /** Max and Min are monotone in both arguments. */
  lemma MaxMinMono(a: Ext, a': Ext, b: Ext, b': Ext)
    requires Le(a, a') && Le(b, b')
    ensures Le(Max(a, b), Max(a', b')) && Le(Min(a, b), Min(a', b'))
  {
    LeTotal(a, b);
    LeTotal(a', b');
  }
}

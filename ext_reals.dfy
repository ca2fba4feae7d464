/** Extended reals: the bounds of an interval are exact reals or one of the
    two signed infinities (NEG_INFINITY and POS_INFINITY of the library).
    The library's floating-point bounds and their outward rounding are not
    modelled: every bound here is exact. */
module ExtReals {

  datatype Bound = NegInf | Fin(v: real) | PosInf

  /** The order of the extended real line. */
  predicate Le(a: Bound, b: Bound) {
    match (a, b)
    case (NegInf, _) => true
    case (_, PosInf) => true
    case (Fin(x), Fin(y)) => x <= y
    case _ => false
  }

  predicate Lt(a: Bound, b: Bound) {
    Le(a, b) && a != b
  }

  function Min(a: Bound, b: Bound): (r: Bound)
    ensures Le(r, a) && Le(r, b) && (r == a || r == b)
  {
    if Le(a, b) then a else b
  }

  function Max(a: Bound, b: Bound): (r: Bound)
    ensures Le(a, r) && Le(b, r) && (r == a || r == b)
  {
    if Le(a, b) then b else a
  }

  /** Negation mirrors the line: it reverses the order. */
  function Neg(a: Bound): (r: Bound) {
    match a
    case NegInf => PosInf
    case PosInf => NegInf
    case Fin(x) => Fin(-x)
  }

  /** Sum of two lower bounds: -oo absorbs (a lower bound is never +oo). */
  function AddLower(a: Bound, b: Bound): (r: Bound) {
    if a == NegInf || b == NegInf then NegInf
    else if a == PosInf || b == PosInf then PosInf
    else Fin(a.v + b.v)
  }

  /** Sum of two upper bounds: +oo absorbs (an upper bound is never -oo). */
  function AddUpper(a: Bound, b: Bound): (r: Bound) {
    if a == PosInf || b == PosInf then PosInf
    else if a == NegInf || b == NegInf then NegInf
    else Fin(a.v + b.v)
  }

  lemma {:induction false} LeTotal(a: Bound, b: Bound)
    ensures Le(a, b) || Le(b, a)
  {
  }

  lemma {:induction false} LeTrans(a: Bound, b: Bound, c: Bound)
    requires Le(a, b) && Le(b, c)
    ensures Le(a, c)
  {
  }
}

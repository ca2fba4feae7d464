/** The Interval class of the library on exact bounds: construction, the
    set operations its documentation exercises (intersection, complement,
    difference), the forward arithmetic used there (z=x+y) and ratio
    bisection. Each operation is specified by what it does to the set of
    reals the interval denotes (Contains). */
module Intervals {
  import opened ExtReals

  /** The empty set, or the closed range [lo,hi] of the extended line. */
  datatype Itv = EmptySet | Range(lo: Bound, hi: Bound)

  /** A range is proper when lo <= hi, lo is not +oo and hi is not -oo. */
  predicate Proper(i: Itv) {
    i.Range? ==> i.lo != PosInf && i.hi != NegInf && Le(i.lo, i.hi)
  }

  type Interval = i: Itv | Proper(i) witness EmptySet

  /** x belongs to the set the interval denotes. */
  predicate Contains(i: Interval, x: real) {
    i.Range? && Le(i.lo, Fin(x)) && Le(Fin(x), i.hi)
  }

  /** x lies strictly inside the interval. */
  predicate Interior(i: Interval, x: real) {
    i.Range? && Lt(i.lo, Fin(x)) && Lt(Fin(x), i.hi)
  }

  /** is_degenerated(): a single point [a,a]. */
  predicate IsDegenerate(i: Interval) {
    i.Range? && i.lo == i.hi
  }

  /** A point of a non-empty interval. */
  function Witness(i: Interval): (x: real)
    requires i.Range?
    ensures Contains(i, x)
  {
    if i.lo.Fin? then i.lo.v else if i.hi.Fin? then i.hi.v else 0.0
  }

  // ----------------------------------------------------------------------
  // Constructors

  /** Interval(): the whole line (-oo,+oo). */
  function AllReals(): (r: Interval)
    ensures r.Range? && !IsDegenerate(r)
    ensures forall x :: Contains(r, x)
  {
    Range(NegInf, PosInf)
  }

  /** Interval(a): the degenerate interval [a,a]. */
  function Point(a: real): (r: Interval)
    ensures IsDegenerate(r)
    ensures forall x :: Contains(r, x) <==> x == a
  {
    Range(Fin(a), Fin(a))
  }

  /** Interval(lo,hi), either bound possibly infinite: the reals between
      the two bounds; an ill-ordered pair or an infinite point gives the
      empty set. */
  function Make(lo: Bound, hi: Bound): (r: Interval)
    ensures forall x :: Contains(r, x) <==> Le(lo, Fin(x)) && Le(Fin(x), hi)
    ensures r.Range? ==> r.lo == lo && r.hi == hi
  {
    if lo != PosInf && hi != NegInf && Le(lo, hi) then Range(lo, hi) else EmptySet
  }

  /** Interval::empty_set(). */
  function EmptyInterval(): (r: Interval)
    ensures forall x :: !Contains(r, x)
  {
    EmptySet
  }

  // ----------------------------------------------------------------------
  // Intersection and forward arithmetic

  /** x &= y: the intersection. */
  function Meet(a: Interval, b: Interval): (r: Interval)
    ensures forall x :: Contains(r, x) <==> Contains(a, x) && Contains(b, x)
  {
    if a.EmptySet? || b.EmptySet? then EmptySet
    else Make(Max(a.lo, b.lo), Min(a.hi, b.hi))
  }

  /** -x: the image under negation. */
  function Negate(a: Interval): (r: Interval)
    ensures r.EmptySet? <==> a.EmptySet?
    ensures forall x :: Contains(r, x) <==> Contains(a, -x)
  {
    if a.EmptySet? then EmptySet else Range(Neg(a.hi), Neg(a.lo))
  }

  /** A real between the summed bounds of two non-empty intervals is the sum
      of a point of each: start from any point w of b and, when v-w falls
      outside a, move to the bound of a it passes. */
  lemma {:induction false} SumSplit(a: Interval, b: Interval, v: real) returns (x: real, y: real)
    requires a.Range? && b.Range?
    requires Le(AddLower(a.lo, b.lo), Fin(v)) && Le(Fin(v), AddUpper(a.hi, b.hi))
    ensures Contains(a, x) && Contains(b, y) && v == x + y
  {
    var w := Witness(b);
    if Contains(a, v - w) {
      x, y := v - w, w;
    } else if a.lo.Fin? && v - w < a.lo.v {
      x := a.lo.v;
      y := v - x;
    } else {
      x := a.hi.v;
      y := v - x;
    }
  }

  /** x+y: contains every sum of a point of x and a point of y (and
      nothing else, by AddExact). */
  function Add(a: Interval, b: Interval): (r: Interval)
    ensures r.EmptySet? <==> a.EmptySet? || b.EmptySet?
    ensures forall x, y :: Contains(a, x) && Contains(b, y) ==> Contains(r, x + y)
  {
    if a.EmptySet? || b.EmptySet? then EmptySet
    else Range(AddLower(a.lo, b.lo), AddUpper(a.hi, b.hi))
  }

  /** A point of x+y is the sum of a point of x and a point of y. */
  lemma {:induction false} AddPoint(a: Interval, b: Interval, v: real) returns (x: real, y: real)
    requires Contains(Add(a, b), v)
    ensures Contains(a, x) && Contains(b, y) && v == x + y
  {
    x, y := SumSplit(a, b, v);
  }

  /** v is in x+y iff it is the sum of a point of x and a point of y. */
  lemma {:induction false} AddExact(a: Interval, b: Interval, v: real)
    ensures Contains(Add(a, b), v) <==> exists x, y :: Contains(a, x) && Contains(b, y) && v == x + y
  {
    if Contains(Add(a, b), v) {
      var x, y := AddPoint(a, b, v);
    }
    if exists x, y :: Contains(a, x) && Contains(b, y) && v == x + y {
      var x, y :| Contains(a, x) && Contains(b, y) && v == x + y;
      assert Contains(Add(a, b), x + y);
    }
  }

  /** x-y: contains every difference of a point of x and a point of y (and
      nothing else, by SubExact). */
  function Sub(a: Interval, b: Interval): (r: Interval)
    ensures r.EmptySet? <==> a.EmptySet? || b.EmptySet?
    ensures forall x, y :: Contains(a, x) && Contains(b, y) ==> Contains(r, x - y)
  {
    var nb := Negate(b);
    assert forall y :: Contains(b, y) ==> Contains(nb, -y);
    Add(a, nb)
  }

  /** A point of x-y is the difference of a point of x and a point of y. */
  lemma {:induction false} SubPoint(a: Interval, b: Interval, v: real) returns (x: real, y: real)
    requires Contains(Sub(a, b), v)
    ensures Contains(a, x) && Contains(b, y) && v == x - y
  {
    var y';
    x, y' := AddPoint(a, Negate(b), v);
    y := -y';
  }

  /** v is in x-y iff it is the difference of a point of x and a point of y. */
  lemma {:induction false} SubExact(a: Interval, b: Interval, v: real)
    ensures Contains(Sub(a, b), v) <==> exists x, y :: Contains(a, x) && Contains(b, y) && v == x - y
  {
    if Contains(Sub(a, b), v) {
      var x, y := SubPoint(a, b, v);
    }
    if exists x, y :: Contains(a, x) && Contains(b, y) && v == x - y {
      var x, y :| Contains(a, x) && Contains(b, y) && v == x - y;
      assert Contains(Sub(a, b), x - y);
    }
  }

  /** diam(): hi-lo, +oo for an unbounded interval and 0 for the empty set
      (the library's convention). */
  function Diam(i: Interval): (r: Bound)
    ensures Le(Fin(0.0), r)
    ensures forall x, y :: Contains(i, x) && Contains(i, y) ==> Le(Fin(x - y), r)
    ensures i.Range? ==> (r == PosInf <==> i.lo == NegInf || i.hi == PosInf)
    ensures i.Range? && r.Fin? ==> i.lo.Fin? && Contains(i, i.lo.v + r.v)
  {
    match i
    case EmptySet => Fin(0.0)
    case Range(Fin(l), Fin(h)) => Fin(h - l)
    case _ => PosInf
  }

  // ----------------------------------------------------------------------
  // Complement and difference

  /** A count and up to two pieces, as complementary and diff return them:
      the second piece is meaningful only when the count is 2. */
  datatype Parts = Parts(count: nat, first: Interval, second: Interval)

  /** At most two pieces; the first 'count' are non-empty, the others are
      empty; two pieces come in increasing order. */
  predicate WellShaped(p: Parts) {
    && p.count <= 2
    && (p.count >= 1 <==> p.first.Range?)
    && (p.count == 2 <==> p.second.Range?)
    && (p.count == 2 ==> Le(p.first.hi, p.second.lo))
  }

  predicate InParts(p: Parts, x: real) {
    Contains(p.first, x) || Contains(p.second, x)
  }

  /** complementary(c1,c2): the closure of the complement. The empty set and
      a single point have the whole line as complement (the library's
      default compactness); (-oo,+oo) has none. */
  function Complementary(x: Interval): (r: Parts)
    ensures WellShaped(r)
    ensures forall v :: !Contains(x, v) ==> InParts(r, v)
    ensures forall v :: InParts(r, v) ==> !Interior(x, v)
  {
    if x.EmptySet? || x.lo == x.hi then Parts(1, AllReals(), EmptySet)
    else if x.lo != NegInf then
      if x.hi != PosInf then Parts(2, Range(NegInf, x.lo), Range(x.hi, PosInf))
      else Parts(1, Range(NegInf, x.lo), EmptySet)
    else if x.hi != PosInf then Parts(1, Range(x.hi, PosInf), EmptySet)
    else Parts(0, EmptySet, EmptySet)
  }

  /** A piece worth returning: non-empty and more than a point. */
  predicate Keep(a: Interval) {
    a.Range? && a.lo != a.hi
  }

  /** Drops empty and single-point pieces and moves a lone survivor first. */
  function Compact(a: Interval, b: Interval): (r: Parts)
    ensures forall v :: InParts(r, v) ==> (Keep(a) && Contains(a, v)) || (Keep(b) && Contains(b, v))
    ensures forall v :: (Keep(a) && Contains(a, v)) || (Keep(b) && Contains(b, v)) ==> InParts(r, v)
    ensures r.count <= 2 && (r.count >= 1 <==> r.first.Range?) && (r.count == 2 <==> r.second.Range?)
    ensures r.count == 2 ==> r.first == a && r.second == b
  {
    var a' := if Keep(a) then a else EmptySet;
    var b' := if Keep(b) then b else EmptySet;
    if a'.Range? then Parts(if b'.Range? then 2 else 1, a', b')
    else Parts(if b'.Range? then 1 else 0, b', EmptySet)
  }

  /** diff(y,c1,c2): the closure of x minus y, with single-point pieces of a
      wider interval dropped (the library's default compactness). */
  function Diff(x: Interval, y: Interval): (r: Parts)
  {
    if x.EmptySet? then Parts(0, EmptySet, EmptySet)
    else if Meet(x, y).EmptySet? then Parts(1, x, EmptySet)
    else if IsDegenerate(y) then
      (if IsDegenerate(x) then Parts(0, EmptySet, EmptySet) else Parts(1, x, EmptySet))
    else
      var c := Complementary(y);
      Compact(Meet(c.first, x), Meet(c.second, x))
  }

  /** An interval holding two distinct points is worth keeping. */
  lemma {:induction false} TwoPointsKeep(a: Interval, u: real, v: real)
    requires Contains(a, u) && Contains(a, v) && u != v
    ensures Keep(a)
  {
  }

  /** Intervals are convex. */
  lemma {:induction false} Convex(a: Interval, u: real, m: real, v: real)
    requires Contains(a, u) && Contains(a, v) && u <= m <= v
    ensures Contains(a, m)
  {
  }

  /** A point v of x outside y, in a complement piece p of y, survives in
      p & x with room to spare: the bound of y that p ends at is in x too,
      because x also meets y (at w). */
  lemma {:induction false} PieceKept(x: Interval, y: Interval, p: Interval, v: real, w: real)
    requires Contains(x, v) && !Contains(y, v) && Contains(x, w) && Contains(y, w)
    requires (y.Range? && y.lo.Fin? && p == Range(NegInf, y.lo))
          || (y.Range? && y.hi.Fin? && p == Range(y.hi, PosInf))
    requires Contains(p, v)
    ensures Keep(Meet(p, x)) && Contains(Meet(p, x), v)
  {
    if y.lo.Fin? && p == Range(NegInf, y.lo) {
      var e := y.lo.v;
      Convex(x, v, e, w);
      TwoPointsKeep(Meet(p, x), v, e);
    } else {
      var e := y.hi.v;
      Convex(x, w, e, v);
      TwoPointsKeep(Meet(p, x), v, e);
    }
  }

  /** The pieces of diff are at most two, present in order. */
  lemma {:induction false} DiffShape(x: Interval, y: Interval)
    ensures WellShaped(Diff(x, y))
  {
    if !(x.EmptySet? || Meet(x, y).EmptySet? || IsDegenerate(y)) {
      var c := Complementary(y);
      var a, b := Meet(c.first, x), Meet(c.second, x);
      var r := Diff(x, y);
      assert r == Compact(a, b);
      if r.count == 2 {
        assert Le(a.hi, c.first.hi) && Le(c.first.hi, c.second.lo) && Le(c.second.lo, b.lo);
        LeTrans(a.hi, c.first.hi, c.second.lo);
        LeTrans(a.hi, c.second.lo, b.lo);
      }
    }
  }

  /** The pieces of diff lie in x and never reach into the interior of y. */
  lemma {:induction false} DiffWithin(x: Interval, y: Interval)
    ensures forall v :: InParts(Diff(x, y), v) ==> Contains(x, v) && !Interior(y, v)
  {
    if !(x.EmptySet? || Meet(x, y).EmptySet? || IsDegenerate(y)) {
      var c := Complementary(y);
      assert Diff(x, y) == Compact(Meet(c.first, x), Meet(c.second, x));
    }
  }

  /** The pieces of diff cover every point of x outside y. */
  lemma {:induction false} DiffCovers(x: Interval, y: Interval)
    ensures forall v :: Contains(x, v) && !Contains(y, v) ==> InParts(Diff(x, y), v)
  {
    if !(x.EmptySet? || Meet(x, y).EmptySet? || IsDegenerate(y)) {
      var c := Complementary(y);
      var r := Diff(x, y);
      assert r == Compact(Meet(c.first, x), Meet(c.second, x));
      var w := Witness(Meet(x, y));
      forall v | Contains(x, v) && !Contains(y, v)
        ensures InParts(r, v)
      {
        assert InParts(c, v);
        if Contains(c.first, v) {
          PieceKept(x, y, c.first, v, w);
        } else {
          PieceKept(x, y, c.second, v, w);
        }
      }
    }
  }

  /** diff returns the closure of the set difference: at most two ordered
      pieces, inside x, covering every point of x outside y, and never
      reaching into the interior of y. */
  lemma {:induction false} DiffIsDifference(x: Interval, y: Interval)
    ensures WellShaped(Diff(x, y))
    ensures forall v :: InParts(Diff(x, y), v) ==> Contains(x, v)
    ensures forall v :: InParts(Diff(x, y), v) ==> !Interior(y, v)
    ensures forall v :: Contains(x, v) && !Contains(y, v) ==> InParts(Diff(x, y), v)
  {
    DiffShape(x, y);
    DiffWithin(x, y);
    DiffCovers(x, y);
  }

  /** The two pieces of diff share no interior point. */
  lemma {:induction false} DiffPiecesApart(x: Interval, y: Interval, v: real)
    requires Diff(x, y).count == 2
    ensures !(Interior(Diff(x, y).first, v) && Interior(Diff(x, y).second, v))
  {
    DiffIsDifference(x, y);
  }


  // ----------------------------------------------------------------------
  // Bisection

  /** DBL_MAX, the split point the library uses beside an infinite bound. */
  const MaxDouble: real := 1.7976931348623157e308

  /** The point where bisect(ratio) splits: lo+ratio*(hi-lo) for a bounded
      interval, 0 for the whole line, -DBL_MAX (resp. +DBL_MAX) when only the
      lower (resp. upper) bound is infinite -- clamped to the finite bound
      when that lies beyond DBL_MAX, which no double does. */
  function SplitPoint(i: Interval, ratio: real): (p: real)
    requires i.Range? && 0.0 < ratio < 1.0
    ensures Contains(i, p)
    ensures i.lo.Fin? && i.hi.Fin? ==> p == i.lo.v + ratio * (i.hi.v - i.lo.v)
  {
    match (i.lo, i.hi)
    case (Fin(l), Fin(h)) =>
      MulNonneg(ratio, h - l);
      MulNonneg(1.0 - ratio, h - l);
      l + ratio * (h - l)
    case (NegInf, Fin(h)) => if h < -MaxDouble then h else -MaxDouble
    case (Fin(l), PosInf) => if l > MaxDouble then l else MaxDouble
    case _ => 0.0
  }

  lemma MulNonneg(a: real, b: real)
    requires 0.0 <= a && 0.0 <= b
    ensures 0.0 <= a * b
  {
  }

  /** bisect(ratio): [lo,p] and [p,hi] for the split point p. */
  function Bisect(i: Interval, ratio: real): (r: (Interval, Interval))
    requires i.Range? && 0.0 < ratio < 1.0
    ensures r.0.Range? && r.1.Range?
    ensures r.0.lo == i.lo && r.1.hi == i.hi && r.0.hi == r.1.lo == Fin(SplitPoint(i, ratio))
    ensures forall v :: Contains(i, v) <==> Contains(r.0, v) || Contains(r.1, v)
    ensures forall v :: !(Interior(r.0, v) && Interior(r.1, v))
  {
    var p := SplitPoint(i, ratio);
    (Range(i.lo, Fin(p)), Range(Fin(p), i.hi))
  }
}

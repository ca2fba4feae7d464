/** Extended interval division on exact bounds: div2, which returns the
    quotient x/y as up to two intervals when y contains 0, and the
    intersecting form div2_inter documented in doc-arithmetic. The
    quotient of a point p of x by a non-zero point q of y always lands in
    what div2 returns (Div2Sound), and every point v div2 returns has
    p = v*q for some p of x and q of y, save the limit 0 of an unbounded
    divisor (Div2Tight). */
module IntervalDivision {
  import opened ExtReals
  import opened Intervals

  /** a/d for an endpoint d of the divisor that may be infinite (then the
      quotient of the finite a tends to 0). */
  function Quo(a: real, d: Bound): (r: real)
    requires d != Fin(0.0)
  {
    if d.Fin? then a / d.v else 0.0
  }

  lemma {:induction false} DivMonoNum(p: real, p': real, q: real)
    requires q > 0.0 && p <= p'
    ensures p / q <= p' / q
  {
  }

  lemma {:induction false} DivMonoDen(a: real, q: real, q': real)
    requires 0.0 < q <= q'
    ensures a >= 0.0 ==> a / q' <= a / q
    ensures a <= 0.0 ==> a / q <= a / q'
  {
  }

  /** Lower bound of the ordinary quotient x/y for y in (0,+oo): a/d when
      the numerator is non-negative, a/c otherwise (-oo for an unbounded a). */
  function PosLo(x: Interval, y: Interval): (r: Bound)
    requires x.Range? && y.Range? && Lt(Fin(0.0), y.lo)
  {
    if Le(Fin(0.0), x.lo) then Fin(Quo(x.lo.v, y.hi))
    else if x.lo.Fin? then Fin(x.lo.v / y.lo.v)
    else NegInf
  }

  /** Upper bound of the ordinary quotient x/y for y in (0,+oo): b/d when
      the numerator is non-positive, b/c otherwise (+oo for an unbounded b). */
  function PosHi(x: Interval, y: Interval): (r: Bound)
    requires x.Range? && y.Range? && Lt(Fin(0.0), y.lo)
  {
    if Le(x.hi, Fin(0.0)) then Fin(Quo(x.hi.v, y.hi))
    else if x.hi.Fin? then Fin(x.hi.v / y.lo.v)
    else PosInf
  }

  /** Ordinary quotient x/y of two non-empty intervals when y lies in (0,+oo). */
  function DivPositive(x: Interval, y: Interval): (r: Interval)
    requires x.Range? && y.Range? && Lt(Fin(0.0), y.lo)
  {
    Make(PosLo(x, y), PosHi(x, y))
  }

  lemma {:induction false} PosLoSound(x: Interval, y: Interval, p: real, q: real)
    requires x.Range? && y.Range? && Lt(Fin(0.0), y.lo)
    requires Contains(x, p) && Contains(y, q)
    ensures Le(PosLo(x, y), Fin(p / q))
  {
    var c := y.lo.v;
    assert 0.0 < c <= q;
    if Le(Fin(0.0), x.lo) {
      var a := x.lo.v;
      DivMonoNum(a, p, q);
      if y.hi.Fin? {
        DivMonoDen(a, q, y.hi.v);
      } else {
        DivMonoNum(0.0, a, q);
      }
    } else if x.lo.Fin? {
      var a := x.lo.v;
      DivMonoNum(a, p, q);
      DivMonoDen(a, c, q);
    }
  }

  lemma {:induction false} PosHiSound(x: Interval, y: Interval, p: real, q: real)
    requires x.Range? && y.Range? && Lt(Fin(0.0), y.lo)
    requires Contains(x, p) && Contains(y, q)
    ensures Le(Fin(p / q), PosHi(x, y))
  {
    var c := y.lo.v;
    assert 0.0 < c <= q;
    if Le(x.hi, Fin(0.0)) {
      var b := x.hi.v;
      DivMonoNum(p, b, q);
      if y.hi.Fin? {
        DivMonoDen(b, q, y.hi.v);
      } else {
        DivMonoNum(b, 0.0, q);
      }
    } else if x.hi.Fin? {
      var b := x.hi.v;
      DivMonoNum(p, b, q);
      DivMonoDen(b, c, q);
    }
  }

  lemma {:induction false} DivPositiveSound(x: Interval, y: Interval, p: real, q: real)
    requires x.Range? && y.Range? && Lt(Fin(0.0), y.lo)
    requires Contains(x, p) && Contains(y, q)
    ensures Contains(DivPositive(x, y), p / q)
  {
    PosLoSound(x, y, p, q);
    PosHiSound(x, y, p, q);
  }

  /** One piece, counted only when it is non-empty. */
  function One(i: Interval): (r: Parts)
    ensures WellShaped(r) && r.first == i && r.second.EmptySet?
  {
    if i.Range? then Parts(1, i, EmptySet) else Parts(0, EmptySet, EmptySet)
  }

  /** A divisor that contains 0 and is not [0,0]. */
  predicate StraddlesZero(y: Interval) {
    y.Range? && Le(y.lo, Fin(0.0)) && Le(Fin(0.0), y.hi) && !(y.lo == Fin(0.0) && y.hi == Fin(0.0))
  }

  /** b/[c,d] for b < 0 and 0 in [c,d]: (-oo,b/d] for the positive part of
      the divisor, [b/c,+oo) for its negative part. */
  function NegativeOverZero(b: real, y: Interval): (r: Parts)
    requires b < 0.0 && StraddlesZero(y)
    ensures WellShaped(r)
  {
    if y.lo == Fin(0.0) then Parts(1, Range(NegInf, Fin(Quo(b, y.hi))), EmptySet)
    else if y.hi == Fin(0.0) then Parts(1, Range(Fin(Quo(b, y.lo)), PosInf), EmptySet)
    else
      assert Quo(b, y.hi) <= 0.0 <= Quo(b, y.lo);
      Parts(2, Range(NegInf, Fin(Quo(b, y.hi))), Range(Fin(Quo(b, y.lo)), PosInf))
  }

  /** a/[c,d] for a > 0 and 0 in [c,d]: (-oo,a/c] for the negative part of
      the divisor, [a/d,+oo) for its positive part. */
  function PositiveOverZero(a: real, y: Interval): (r: Parts)
    requires a > 0.0 && StraddlesZero(y)
    ensures WellShaped(r)
  {
    if y.lo == Fin(0.0) then Parts(1, Range(Fin(Quo(a, y.hi)), PosInf), EmptySet)
    else if y.hi == Fin(0.0) then Parts(1, Range(NegInf, Fin(Quo(a, y.lo))), EmptySet)
    else
      assert Quo(a, y.lo) <= 0.0 <= Quo(a, y.hi);
      Parts(2, Range(NegInf, Fin(Quo(a, y.lo))), Range(Fin(Quo(a, y.hi)), PosInf))
  }

  /** div2(x,y,out1,out2): the quotient of x by y. A divisor in (0,+oo) or
      (-oo,0) gives the ordinary quotient; [0,0] or an empty operand gives
      nothing; a numerator containing 0 over a divisor containing 0 gives
      [0,0] for x=[0,0] and the whole line otherwise; a numerator of one sign
      over a divisor with 0 at an end gives one unbounded piece, and over a
      divisor with 0 inside gives two, (-oo,u] and [l,+oo). */
  function Div2(x: Interval, y: Interval): (r: Parts)
    ensures WellShaped(r)
  {
    if x.EmptySet? || y.EmptySet? then Parts(0, EmptySet, EmptySet)
    else if y.lo == Fin(0.0) && y.hi == Fin(0.0) then Parts(0, EmptySet, EmptySet)
    else if Lt(Fin(0.0), y.lo) then One(DivPositive(x, y))
    else if Lt(y.hi, Fin(0.0)) then One(DivPositive(Negate(x), Negate(y)))
    else if x.lo == Fin(0.0) && x.hi == Fin(0.0) then Parts(1, Point(0.0), EmptySet)
    else if Le(x.lo, Fin(0.0)) && Le(Fin(0.0), x.hi) then Parts(1, AllReals(), EmptySet)
    else if Lt(x.hi, Fin(0.0)) then NegativeOverZero(x.hi.v, y)
    else PositiveOverZero(x.lo.v, y)
  }

  /** p/q <= b/d for p <= b < 0 and 0 < q <= d. */
  lemma {:induction false} NegOverPos(p: real, b: real, q: real, d: real)
    requires p <= b < 0.0 && 0.0 < q <= d
    ensures p / q <= b / d
  {
    DivMonoNum(p, b, q);
    DivMonoDen(b, q, d);
  }

  /** b/c <= p/q for p <= b < 0 and c <= q < 0. */
  lemma {:induction false} NegOverNeg(p: real, b: real, q: real, c: real)
    requires p <= b < 0.0 && c <= q < 0.0
    ensures b / c <= p / q
  {
    DivMonoNum(-b, -p, -q);
    DivMonoDen(-b, -q, -c);
    assert p / q == (-p) / (-q);
    assert b / c == (-b) / (-c);
  }

  /** a/d <= p/q for 0 < a <= p and 0 < q <= d. */
  lemma {:induction false} PosOverPos(p: real, a: real, q: real, d: real)
    requires 0.0 < a <= p && 0.0 < q <= d
    ensures a / d <= p / q
  {
    DivMonoNum(a, p, q);
    DivMonoDen(a, q, d);
  }

  /** p/q <= a/c for 0 < a <= p and c <= q < 0. */
  lemma {:induction false} PosOverNeg(p: real, a: real, q: real, c: real)
    requires 0.0 < a <= p && c <= q < 0.0
    ensures p / q <= a / c
  {
    DivMonoNum(a, p, -q);
    DivMonoDen(a, -q, -c);
    assert p / q == -(p / (-q));
    assert a / c == -(a / (-c));
  }

  lemma {:induction false} NegatedQuotient(p: real, q: real)
    requires q != 0.0
    ensures (-p) / (-q) == p / q
  {
  }

  /** The sign of a quotient of two non-zero reals. */
  lemma {:induction false} QuotientSign(p: real, q: real)
    requires p != 0.0 && q != 0.0
    ensures (p > 0.0) == (q > 0.0) ==> p / q > 0.0
    ensures (p > 0.0) != (q > 0.0) ==> p / q < 0.0
  {
  }

  lemma {:induction false} NegativeOverZeroSound(b: real, y: Interval, p: real, q: real)
    requires b < 0.0 && StraddlesZero(y)
    requires p <= b && Contains(y, q) && q != 0.0
    ensures InParts(NegativeOverZero(b, y), p / q)
  {
    var r := NegativeOverZero(b, y);
    var v := p / q;
    if q > 0.0 {
      assert y.lo != PosInf;
      if y.hi.Fin? { NegOverPos(p, b, q, y.hi.v); } else { QuotientSign(p, q); }
      assert v <= Quo(b, y.hi);
      assert y.lo != Fin(0.0) ==> y.hi != Fin(0.0);
      assert Contains(r.first, v);
    } else {
      if y.lo.Fin? { NegOverNeg(p, b, q, y.lo.v); } else { QuotientSign(p, q); }
      assert Quo(b, y.lo) <= v;
      assert Contains(if y.hi == Fin(0.0) then r.first else r.second, v);
    }
  }

  lemma {:induction false} PositiveOverZeroSound(a: real, y: Interval, p: real, q: real)
    requires a > 0.0 && StraddlesZero(y)
    requires a <= p && Contains(y, q) && q != 0.0
    ensures InParts(PositiveOverZero(a, y), p / q)
  {
    var r := PositiveOverZero(a, y);
    var v := p / q;
    if q > 0.0 {
      if y.hi.Fin? { PosOverPos(p, a, q, y.hi.v); } else { QuotientSign(p, q); }
      assert Quo(a, y.hi) <= v;
      assert Contains(if y.lo == Fin(0.0) then r.first else r.second, v);
    } else {
      if y.lo.Fin? { PosOverNeg(p, a, q, y.lo.v); } else { QuotientSign(p, q); }
      assert v <= Quo(a, y.lo);
      assert Contains(r.first, v);
    }
  }

  /** A divisor in (-oo,0): x/y is computed as (-x)/(-y). */
  lemma {:induction false} DivNegativeSound(x: Interval, y: Interval, p: real, q: real)
    requires x.Range? && y.Range? && Lt(y.hi, Fin(0.0))
    requires Contains(x, p) && Contains(y, q)
    ensures Contains(DivPositive(Negate(x), Negate(y)), p / q)
  {
    DivPositiveSound(Negate(x), Negate(y), -p, -q);
    NegatedQuotient(p, q);
  }

  /** A quotient by a divisor point of one strict sign is in div2. */
  lemma {:induction false} SignedSound(x: Interval, y: Interval, p: real, q: real)
    requires Contains(x, p) && Contains(y, q) && q != 0.0
    requires Lt(Fin(0.0), y.lo) || Lt(y.hi, Fin(0.0))
    ensures InParts(Div2(x, y), p / q)
  {
    if Lt(Fin(0.0), y.lo) {
      assert Div2(x, y) == One(DivPositive(x, y));
      DivPositiveSound(x, y, p, q);
    } else {
      assert Div2(x, y) == One(DivPositive(Negate(x), Negate(y)));
      DivNegativeSound(x, y, p, q);
    }
  }

  /** A quotient by a non-zero point of a divisor around 0 is in div2. */
  lemma {:induction false} StraddleSound(x: Interval, y: Interval, p: real, q: real)
    requires Contains(x, p) && Contains(y, q) && q != 0.0
    requires !Lt(Fin(0.0), y.lo) && !Lt(y.hi, Fin(0.0))
    ensures InParts(Div2(x, y), p / q)
  {
    assert x.Range? && y.Range? && !(y.lo == Fin(0.0) && y.hi == Fin(0.0));
    if x.lo == Fin(0.0) && x.hi == Fin(0.0) {
      assert Div2(x, y) == Parts(1, Point(0.0), EmptySet);
      assert p == 0.0;
    } else if Le(x.lo, Fin(0.0)) && Le(Fin(0.0), x.hi) {
      assert Div2(x, y) == Parts(1, AllReals(), EmptySet);
    } else if Lt(x.hi, Fin(0.0)) {
      assert StraddlesZero(y) && Div2(x, y) == NegativeOverZero(x.hi.v, y);
      NegativeOverZeroSound(x.hi.v, y, p, q);
    } else {
      assert StraddlesZero(y) && Div2(x, y) == PositiveOverZero(x.lo.v, y);
      PositiveOverZeroSound(x.lo.v, y, p, q);
    }
  }

  /** Every quotient p/q of a point of x by a non-zero point of y is in
      div2(x,y). */
  lemma {:induction false} Div2Sound(x: Interval, y: Interval, p: real, q: real)
    requires Contains(x, p) && Contains(y, q) && q != 0.0
    ensures InParts(Div2(x, y), p / q)
  {
    if Lt(Fin(0.0), y.lo) || Lt(y.hi, Fin(0.0)) {
      SignedSound(x, y, p, q);
    } else {
      StraddleSound(x, y, p, q);
    }
  }


  // ----------------------------------------------------------------------
  // Tightness: div2 returns nothing but quotients

  /** v is a quotient of x by y in the sense of the constraint p = v*q: some
      p of x and q of y satisfy it (so 0/0 allows every v). */
  ghost predicate IsQuotient(x: Interval, y: Interval, v: real) {
    exists p, q :: Contains(x, p) && Contains(y, q) && p == v * q
  }

  /** A divisor with an infinite bound: p/q then tends to 0 without
      reaching it. */
  predicate Unbounded(y: Interval) {
    y.Range? && (y.lo == NegInf || y.hi == PosInf)
  }

  /** p of x and q of y witness v as a quotient: p = v*q. */
  predicate QuotientBy(x: Interval, y: Interval, v: real, p: real, q: real) {
    Contains(x, p) && Contains(y, q) && p == v * q
  }

  /** Scaling both sides of an inequality by v keeps it for v > 0 and turns
      it round for v < 0. */
  lemma {:induction false} Scale(v: real, s: real, t: real)
    requires v != 0.0
    ensures v > 0.0 ==> (v * s <= v * t <==> s <= t) && (v * s < v * t <==> s < t)
    ensures v < 0.0 ==> (v * s <= v * t <==> t <= s) && (v * s < v * t <==> t < s)
  {
    assert v * t - v * s == v * (t - s);
  }

  /** w/c undone: (w/c)*c is w, and w/c has the sign of w times that of c. */
  lemma {:induction false} Undivide(w: real, c: real)
    requires c != 0.0
    ensures (w / c) * c == w
    ensures w != 0.0 ==> w / c != 0.0
    ensures (w > 0.0) == (c > 0.0) && w != 0.0 ==> w / c > 0.0
    ensures (w > 0.0) != (c > 0.0) && w != 0.0 ==> w / c < 0.0
  {
    if w != 0.0 {
      QuotientSign(w, c);
    }
  }

  /** For a finite end e of the divisor, a v on the same side of 0 as s/e
      and at least as far from 0 makes s/v lie between 0 and e: the step
      shared by every tightness case. */
  lemma {:induction false} EndpointHit(s: real, e: real, v: real)
    requires s != 0.0 && e != 0.0
    requires (s / e > 0.0 && s / e <= v) || (s / e < 0.0 && v <= s / e)
    ensures v != 0.0
    ensures e > 0.0 ==> 0.0 < s / v <= e
    ensures e < 0.0 ==> e <= s / v < 0.0
  {
    Undivide(s, e);
    Undivide(s, v);
    var q := s / v;
    assert v * q == s;
    Scale(e, v, s / e);
    Scale(v, q, e);
    QuotientSign(s, v);
  }

  /** The case v*c < a, v > 0 of DivPositiveTight, for c = y.lo and
      a = x.lo: a/v is above c, and below y.hi because v >= a/y.hi. */
  lemma {:induction false} BelowHit(x: Interval, y: Interval, v: real)
    requires x.Range? && y.Range? && Lt(Fin(0.0), y.lo)
    requires Le(PosLo(x, y), Fin(v)) && x.lo.Fin? && v * y.lo.v < x.lo.v && v > 0.0
    ensures Contains(y, x.lo.v / v)
  {
    var a, c := x.lo.v, y.lo.v;
    Scale(v, 0.0, c);
    assert a > 0.0;
    Undivide(a, v);
    Scale(v, c, a / v);
    assert c < a / v;
    if y.hi.Fin? {
      Undivide(a, y.hi.v);
      assert PosLo(x, y) == Fin(a / y.hi.v);
      EndpointHit(a, y.hi.v, v);
    }
  }

  /** The case v*c < a, v <= 0 of DivPositiveTight: only the limit 0 of an
      unbounded y. */
  lemma {:induction false} BelowLimit(x: Interval, y: Interval, v: real)
    requires x.Range? && y.Range? && Lt(Fin(0.0), y.lo)
    requires Le(PosLo(x, y), Fin(v)) && x.lo.Fin? && v * y.lo.v < x.lo.v && v <= 0.0
    ensures v == 0.0 && y.hi == PosInf
  {
    var a, c := x.lo.v, y.lo.v;
    Undivide(a, c);
    Scale(c, a / c, v);
    if y.hi.Fin? {
      Undivide(a, y.hi.v);
    }
  }

  /** The case b < v*c, v < 0 of DivPositiveTight, for c = y.lo and
      b = x.hi: b/v is above c, and below y.hi because v <= b/y.hi. */
  lemma {:induction false} AboveHit(x: Interval, y: Interval, v: real)
    requires x.Range? && y.Range? && Lt(Fin(0.0), y.lo)
    requires Le(Fin(v), PosHi(x, y)) && x.hi.Fin? && x.hi.v < v * y.lo.v && v < 0.0
    ensures Contains(y, x.hi.v / v)
  {
    var b, c := x.hi.v, y.lo.v;
    Scale(v, 0.0, c);
    assert b < 0.0;
    Undivide(b, v);
    Scale(v, b / v, c);
    assert c < b / v;
    if y.hi.Fin? {
      Undivide(b, y.hi.v);
      assert PosHi(x, y) == Fin(b / y.hi.v);
      EndpointHit(b, y.hi.v, v);
    }
  }

  /** The case b < v*c, v >= 0 of DivPositiveTight: only the limit 0 of an
      unbounded y. */
  lemma {:induction false} AboveLimit(x: Interval, y: Interval, v: real)
    requires x.Range? && y.Range? && Lt(Fin(0.0), y.lo)
    requires Le(Fin(v), PosHi(x, y)) && x.hi.Fin? && x.hi.v < v * y.lo.v && v >= 0.0
    ensures v == 0.0 && y.hi == PosInf
  {
    var b, c := x.hi.v, y.lo.v;
    Undivide(b, c);
    Scale(c, v, b / c);
    if y.hi.Fin? {
      Undivide(b, y.hi.v);
    }
  }

  /** The case v*c < a of DivPositiveTight, for c = y.lo and a = x.lo: a
      and a/v witness v, unless v is the limit 0. */
  lemma {:induction false} DivPositiveBelow(x: Interval, y: Interval, v: real) returns (p: real, q: real)
    requires x.Range? && y.Range? && Lt(Fin(0.0), y.lo)
    requires Le(PosLo(x, y), Fin(v)) && x.lo.Fin? && v * y.lo.v < x.lo.v
    ensures QuotientBy(x, y, v, p, q) || (v == 0.0 && y.hi == PosInf)
  {
    p, q := 0.0, 0.0;
    if v > 0.0 {
      BelowHit(x, y, v);
      Undivide(x.lo.v, v);
      p, q := x.lo.v, x.lo.v / v;
    } else {
      BelowLimit(x, y, v);
    }
  }

  /** The case b < v*c of DivPositiveTight, for c = y.lo and b = x.hi: b
      and b/v witness v, unless v is the limit 0. */
  lemma {:induction false} DivPositiveAbove(x: Interval, y: Interval, v: real) returns (p: real, q: real)
    requires x.Range? && y.Range? && Lt(Fin(0.0), y.lo)
    requires Le(Fin(v), PosHi(x, y)) && x.hi.Fin? && x.hi.v < v * y.lo.v
    ensures QuotientBy(x, y, v, p, q) || (v == 0.0 && y.hi == PosInf)
  {
    p, q := 0.0, 0.0;
    if v < 0.0 {
      AboveHit(x, y, v);
      Undivide(x.hi.v, v);
      p, q := x.hi.v, x.hi.v / v;
    } else {
      AboveLimit(x, y, v);
    }
  }

  /** When v times the lower bound of y misses x, a point of y further up
      gives the quotient, or v is the limit 0. */
  lemma {:induction false} DivPositiveOff(x: Interval, y: Interval, v: real) returns (p: real, q: real)
    requires x.Range? && y.Range? && Lt(Fin(0.0), y.lo)
    requires Contains(DivPositive(x, y), v) && !Contains(x, v * y.lo.v)
    ensures QuotientBy(x, y, v, p, q) || (v == 0.0 && y.hi == PosInf)
  {
    assert Le(PosLo(x, y), Fin(v)) && Le(Fin(v), PosHi(x, y));
    if x.lo.Fin? && v * y.lo.v < x.lo.v {
      p, q := DivPositiveBelow(x, y, v);
    } else {
      p, q := DivPositiveAbove(x, y, v);
    }
  }

  /** Every point v of the ordinary quotient for y in (0,+oo) is a quotient,
      or 0 reached as the limit over an unbounded y: v*c is in x for
      c = y.lo, or it lies beyond one bound of x and that bound divided by v
      is in y. */
  lemma {:induction false} DivPositiveTight(x: Interval, y: Interval, v: real) returns (p: real, q: real)
    requires x.Range? && y.Range? && Lt(Fin(0.0), y.lo)
    requires Contains(DivPositive(x, y), v)
    ensures QuotientBy(x, y, v, p, q) || (v == 0.0 && y.hi == PosInf)
  {
    if Contains(x, v * y.lo.v) {
      p, q := v * y.lo.v, y.lo.v;
    } else {
      p, q := DivPositiveOff(x, y, v);
    }
  }

  /** 0 is a point of b/y, for b < 0 and y straddling 0, only when y is
      unbounded on the side that tends to it. */
  lemma {:induction false} NegativeOverZeroLimit(b: real, y: Interval)
    requires b < 0.0 && StraddlesZero(y) && InParts(NegativeOverZero(b, y), 0.0)
    ensures Unbounded(y)
  {
    if y.lo.Fin? && y.lo.v != 0.0 {
      Undivide(b, y.lo.v);
    }
    if y.hi.Fin? && y.hi.v != 0.0 {
      Undivide(b, y.hi.v);
    }
  }

  /** A non-zero point v of b/y, for b < 0 and y straddling 0, has b/v in y:
      on the positive part of y when v < 0, on the negative part when v > 0. */
  lemma {:induction false} NegativeOverZeroHit(b: real, y: Interval, v: real)
    requires b < 0.0 && StraddlesZero(y) && InParts(NegativeOverZero(b, y), v) && v != 0.0
    ensures Contains(y, b / v)
  {
    QuotientSign(b, v);
    if v < 0.0 {
      if y.lo.Fin? && y.lo.v != 0.0 {
        Undivide(b, y.lo.v);
      }
      assert y.hi != Fin(0.0) && Le(Fin(v), Fin(Quo(b, y.hi)));
      if y.hi.Fin? {
        Undivide(b, y.hi.v);
        EndpointHit(b, y.hi.v, v);
      }
    } else {
      if y.hi.Fin? && y.hi.v != 0.0 {
        Undivide(b, y.hi.v);
      }
      assert y.lo != Fin(0.0) && Le(Fin(Quo(b, y.lo)), Fin(v));
      if y.lo.Fin? {
        Undivide(b, y.lo.v);
        EndpointHit(b, y.lo.v, v);
      }
    }
  }

  /** A point v of b/y for b < 0 and y straddling 0: b and b/v witness it,
      unless v is 0, which only an unbounded y reaches. */
  lemma {:induction false} NegativeOverZeroTight(x: Interval, b: real, y: Interval, v: real) returns (p: real, q: real)
    requires b < 0.0 && StraddlesZero(y) && Contains(x, b)
    requires InParts(NegativeOverZero(b, y), v)
    ensures QuotientBy(x, y, v, p, q) || (v == 0.0 && Unbounded(y))
  {
    p, q := 0.0, 0.0;
    if v == 0.0 {
      NegativeOverZeroLimit(b, y);
    } else {
      NegativeOverZeroHit(b, y, v);
      Undivide(b, v);
      p, q := b, b / v;
    }
  }

  /** 0 is a point of a/y, for a > 0 and y straddling 0, only when y is
      unbounded on the side that tends to it. */
  lemma {:induction false} PositiveOverZeroLimit(a: real, y: Interval)
    requires a > 0.0 && StraddlesZero(y) && InParts(PositiveOverZero(a, y), 0.0)
    ensures Unbounded(y)
  {
    if y.lo.Fin? && y.lo.v != 0.0 {
      Undivide(a, y.lo.v);
    }
    if y.hi.Fin? && y.hi.v != 0.0 {
      Undivide(a, y.hi.v);
    }
  }

  /** A non-zero point v of a/y, for a > 0 and y straddling 0, has a/v in y:
      on the negative part of y when v < 0, on the positive part when v > 0. */
  lemma {:induction false} PositiveOverZeroHit(a: real, y: Interval, v: real)
    requires a > 0.0 && StraddlesZero(y) && InParts(PositiveOverZero(a, y), v) && v != 0.0
    ensures Contains(y, a / v)
  {
    QuotientSign(a, v);
    if v < 0.0 {
      if y.hi.Fin? && y.hi.v != 0.0 {
        Undivide(a, y.hi.v);
      }
      assert y.lo != Fin(0.0) && Le(Fin(v), Fin(Quo(a, y.lo)));
      if y.lo.Fin? {
        Undivide(a, y.lo.v);
        EndpointHit(a, y.lo.v, v);
      }
    } else {
      if y.lo.Fin? && y.lo.v != 0.0 {
        Undivide(a, y.lo.v);
      }
      assert y.hi != Fin(0.0) && Le(Fin(Quo(a, y.hi)), Fin(v));
      if y.hi.Fin? {
        Undivide(a, y.hi.v);
        EndpointHit(a, y.hi.v, v);
      }
    }
  }

  /** A point v of a/y for a > 0 and y straddling 0: a and a/v witness it,
      unless v is 0, which only an unbounded y reaches. */
  lemma {:induction false} PositiveOverZeroTight(x: Interval, a: real, y: Interval, v: real) returns (p: real, q: real)
    requires a > 0.0 && StraddlesZero(y) && Contains(x, a)
    requires InParts(PositiveOverZero(a, y), v)
    ensures QuotientBy(x, y, v, p, q) || (v == 0.0 && Unbounded(y))
  {
    p, q := 0.0, 0.0;
    if v == 0.0 {
      PositiveOverZeroLimit(a, y);
    } else {
      PositiveOverZeroHit(a, y, v);
      Undivide(a, v);
      p, q := a, a / v;
    }
  }

  lemma {:induction false} MulNeg(v: real, q: real)
    ensures v * -q == -(v * q)
  {
  }

  /** A divisor in (-oo,0): div2 computes (-x)/(-y), and witnesses of that
      quotient, negated, witness x/y. */
  lemma {:induction false} NegatedWitness(x: Interval, y: Interval, v: real, p: real, q: real)
    requires y.Range?
    requires QuotientBy(Negate(x), Negate(y), v, p, q) || (v == 0.0 && Negate(y).hi == PosInf)
    ensures QuotientBy(x, y, v, -p, -q) || (v == 0.0 && Unbounded(y))
  {
    if QuotientBy(Negate(x), Negate(y), v, p, q) {
      MulNeg(v, q);
      assert QuotientBy(x, y, v, -p, -q);
    } else {
      assert y.lo == NegInf;
    }
  }

  /** The witnesses for a divisor in (-oo,0). */
  lemma {:induction false} DivNegativeTight(x: Interval, y: Interval, v: real) returns (p: real, q: real)
    requires x.Range? && y.Range? && Lt(y.hi, Fin(0.0))
    requires Contains(DivPositive(Negate(x), Negate(y)), v)
    ensures QuotientBy(x, y, v, p, q) || (v == 0.0 && Unbounded(y))
  {
    var p', q' := DivPositiveTight(Negate(x), Negate(y), v);
    NegatedWitness(x, y, v, p', q');
    p, q := -p', -q';
  }

  /** A point of div2 by a divisor of one strict sign is a quotient. */
  lemma {:induction false} SignedWitness(x: Interval, y: Interval, v: real) returns (p: real, q: real)
    requires x.Range? && y.Range? && (Lt(Fin(0.0), y.lo) || Lt(y.hi, Fin(0.0)))
    requires InParts(Div2(x, y), v)
    ensures QuotientBy(x, y, v, p, q) || (v == 0.0 && Unbounded(y))
  {
    if Lt(Fin(0.0), y.lo) {
      assert Div2(x, y) == One(DivPositive(x, y));
      p, q := DivPositiveTight(x, y, v);
    } else {
      assert Div2(x, y) == One(DivPositive(Negate(x), Negate(y)));
      p, q := DivNegativeTight(x, y, v);
    }
  }

  /** A point of div2 by a divisor around 0 is a quotient, or the limit 0. */
  lemma {:induction false} StraddleWitness(x: Interval, y: Interval, v: real) returns (p: real, q: real)
    requires x.Range? && y.Range? && !(y.lo == Fin(0.0) && y.hi == Fin(0.0))
    requires !Lt(Fin(0.0), y.lo) && !Lt(y.hi, Fin(0.0))
    requires InParts(Div2(x, y), v)
    ensures QuotientBy(x, y, v, p, q) || (v == 0.0 && Unbounded(y))
  {
    if x.lo == Fin(0.0) && x.hi == Fin(0.0) {
      assert Div2(x, y) == Parts(1, Point(0.0), EmptySet);
      p, q := 0.0, Witness(y);
      assert v == 0.0;
    } else if Le(x.lo, Fin(0.0)) && Le(Fin(0.0), x.hi) {
      assert Div2(x, y) == Parts(1, AllReals(), EmptySet);
      p, q := 0.0, 0.0;
    } else if Lt(x.hi, Fin(0.0)) {
      assert StraddlesZero(y) && Div2(x, y) == NegativeOverZero(x.hi.v, y);
      p, q := NegativeOverZeroTight(x, x.hi.v, y, v);
    } else {
      assert StraddlesZero(y) && Div2(x, y) == PositiveOverZero(x.lo.v, y);
      p, q := PositiveOverZeroTight(x, x.lo.v, y, v);
    }
  }

  /** The witnesses of Div2Tight, case by case as div2 computes. */
  lemma {:induction false} Div2Witness(x: Interval, y: Interval, v: real) returns (p: real, q: real)
    requires InParts(Div2(x, y), v)
    ensures QuotientBy(x, y, v, p, q) || (v == 0.0 && Unbounded(y))
  {
    assert x.Range? && y.Range? && !(y.lo == Fin(0.0) && y.hi == Fin(0.0));
    if Lt(Fin(0.0), y.lo) || Lt(y.hi, Fin(0.0)) {
      p, q := SignedWitness(x, y, v);
    } else {
      p, q := StraddleWitness(x, y, v);
    }
  }


  /** div2 is tight: every point v it returns satisfies p = v*q for some p
      of x and q of y, except 0 when it is only the limit of p/q over an
      unbounded y. With Div2Sound, div2(x,y) lies between the set of
      quotients and its closure. */
  lemma {:induction false} Div2Tight(x: Interval, y: Interval, v: real)
    requires InParts(Div2(x, y), v)
    ensures IsQuotient(x, y, v) || (v == 0.0 && Unbounded(y))
  {
    var p, q := Div2Witness(x, y, v);
  }

  /** intv.div2_inter(x,y,out2): intersects intv with the quotient x/y. The
      left part is written back into intv (here: left), the right part into
      out2 (here: right); a lone surviving part always goes left; the
      result says whether intv is non-empty afterwards. */
  method Div2Inter(intv: Interval, x: Interval, y: Interval) returns (left: Interval, right: Interval, nonEmpty: bool)
    ensures forall v :: Contains(left, v) || Contains(right, v) <==> Contains(intv, v) && InParts(Div2(x, y), v)
    ensures nonEmpty <==> left.Range?
    ensures left.EmptySet? ==> right.EmptySet?
    ensures left.Range? && right.Range? ==> Le(left.hi, right.lo)
    ensures forall p, q :: Contains(x, p) && Contains(y, q) && q != 0.0 && Contains(intv, p / q) ==>
              Contains(left, p / q) || Contains(right, p / q)
  {
    var d := Div2(x, y);
    var out1 := Meet(d.first, intv);
    var out2 := Meet(d.second, intv);
    if out1.EmptySet? {
      left, right := out2, EmptySet;
    } else {
      left, right := out1, out2;
      if out2.Range? {
        assert Le(out1.hi, d.first.hi) && Le(d.first.hi, d.second.lo) && Le(d.second.lo, out2.lo);
        LeTrans(out1.hi, d.first.hi, d.second.lo);
        LeTrans(out1.hi, d.second.lo, out2.lo);
      }
    }
    nonEmpty := left.Range?;
    forall p, q | Contains(x, p) && Contains(y, q) && q != 0.0 && Contains(intv, p / q)
      ensures Contains(left, p / q) || Contains(right, p / q)
    {
      Div2Sound(x, y, p, q);
    }
  }
}

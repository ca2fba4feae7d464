/** IntervalVector, the box of the library, on exact bounds: construction,
    intersection, the maximal diameter, the box difference and complement
    (which return a count and that many boxes), and the bisection of one
    component with a ratio. */
module Boxes {
  import opened ExtReals
  import opened Intervals

  /** An n-dimensional box: one interval per component. */
  type Box = seq<Interval>

  predicate InBox(b: Box, p: seq<real>) {
    |p| == |b| && forall i :: 0 <= i < |b| ==> Contains(b[i], p[i])
  }

  /** p lies strictly inside every component. */
  predicate InInterior(b: Box, p: seq<real>) {
    |p| == |b| && forall i :: 0 <= i < |b| ==> Interior(b[i], p[i])
  }

  /** is_empty(): a box with an empty component has no point. */
  predicate IsEmptyBox(b: Box) {
    exists i :: 0 <= i < |b| && b[i].EmptySet?
  }

  /** A point of a box without empty component. */
  function BoxWitness(b: Box): (p: seq<real>)
    requires !IsEmptyBox(b)
    ensures InBox(b, p)
  {
    seq(|b|, i requires 0 <= i < |b| => Witness(b[i]))
  }

  lemma {:induction false} EmptyBoxIffNoPoint(b: Box)
    ensures IsEmptyBox(b) <==> forall p :: !InBox(b, p)
  {
    if !IsEmptyBox(b) {
      assert InBox(b, BoxWitness(b));
    }
  }

  // ----------------------------------------------------------------------
  // Constructors

  /** IntervalVector(n): n components, all (-oo,+oo). */
  function Universe(n: nat): (r: Box)
    requires n >= 1
    ensures |r| == n && !IsEmptyBox(r)
    ensures forall p :: |p| == n ==> InBox(r, p)
  {
    seq(n, _ => AllReals())
  }

  /** IntervalVector(n,I): n copies of I. */
  function Filled(n: nat, x: Interval): (r: Box)
    requires n >= 1
    ensures |r| == n
    ensures forall i :: 0 <= i < n ==> r[i] == x
    ensures IsEmptyBox(r) <==> x.EmptySet?
  {
    var r := seq(n, _ => x);
    assert r[0] == x;
    r
  }

  /** IntervalVector::empty(n): n empty components. */
  function EmptyBox(n: nat): (r: Box)
    requires n >= 1
    ensures |r| == n && IsEmptyBox(r)
    ensures forall i :: 0 <= i < n ==> r[i].EmptySet?
    ensures forall p :: !InBox(r, p)
  {
    var r := seq(n, _ => EmptySet);
    assert r[0].EmptySet?;
    r
  }

  /** IntervalVector(n,bounds): component i is [bounds[i].0,bounds[i].1]
      (empty when the bounds are in the wrong order). */
  function FromBounds(bounds: seq<(real, real)>): (r: Box)
    requires |bounds| >= 1
    ensures |r| == |bounds|
    ensures forall i, v :: 0 <= i < |r| ==> (Contains(r[i], v) <==> bounds[i].0 <= v <= bounds[i].1)
  {
    seq(|bounds|, i requires 0 <= i < |bounds| => Make(Fin(bounds[i].0), Fin(bounds[i].1)))
  }

  /** IntervalVector(x) for a vector x: the box holding just the point x. */
  function FromPoint(x: seq<real>): (r: Box)
    requires |x| >= 1
    ensures |r| == |x| && !IsEmptyBox(r)
    ensures forall p :: InBox(r, p) <==> p == x
  {
    var r := seq(|x|, i requires 0 <= i < |x| => Point(x[i]));
    forall p | InBox(r, p)
      ensures p == x
    {
      assert forall i :: 0 <= i < |x| ==> p[i] == x[i];
    }
    r
  }

  // ----------------------------------------------------------------------
  // Intersection and diameter

  /** x&y: component-wise intersection; the whole box is set empty as soon
      as one component is. */
  function MeetBox(a: Box, b: Box): (r: Box)
    requires |a| == |b| >= 1
    ensures |r| == |a|
    ensures forall p :: InBox(r, p) <==> InBox(a, p) && InBox(b, p)
    ensures IsEmptyBox(r) ==> forall i :: 0 <= i < |r| ==> r[i].EmptySet?
    ensures !IsEmptyBox(r) ==> forall i :: 0 <= i < |r| ==> r[i] == Meet(a[i], b[i])
  {
    if exists i :: 0 <= i < |a| && Meet(a[i], b[i]).EmptySet? then
      var r := EmptyBox(|a|);
      forall p | InBox(a, p)
        ensures !InBox(b, p)
      {
        var i :| 0 <= i < |a| && Meet(a[i], b[i]).EmptySet?;
        assert Contains(a[i], p[i]);
      }
      r
    else
      seq(|a|, i requires 0 <= i < |a| => Meet(a[i], b[i]))
  }

  /** The largest component diameter of b[..k]. */
  function MaxDiamUpTo(b: Box, k: nat): (r: Bound)
    requires k <= |b|
    ensures Le(Fin(0.0), r)
    ensures forall i :: 0 <= i < k ==> Le(Diam(b[i]), r)
    ensures k > 0 ==> exists i :: 0 <= i < k && r == Diam(b[i])
  {
    if k == 0 then Fin(0.0)
    else
      var m := MaxDiamUpTo(b, k - 1);
      var r := Max(m, Diam(b[k - 1]));
      assert forall i :: 0 <= i < k - 1 ==> Le(Diam(b[i]), m) && Le(m, r);
      r
  }

  /** max_diam(): the largest component diameter; 0 for an empty box, whose
      components are all empty. */
  function MaxDiam(b: Box): (r: Bound)
    ensures Le(Fin(0.0), r)
    ensures !IsEmptyBox(b) ==> forall i :: 0 <= i < |b| ==> Le(Diam(b[i]), r)
    ensures !IsEmptyBox(b) && |b| > 0 ==> exists i :: 0 <= i < |b| && r == Diam(b[i])
    ensures IsEmptyBox(b) ==> r == Fin(0.0)
  {
    if IsEmptyBox(b) then Fin(0.0) else MaxDiamUpTo(b, |b|)
  }

  // ----------------------------------------------------------------------
  // Bisection

  /** bisect(i,ratio): two copies of x whose component i is split at
      lo+ratio*(hi-lo) (see Intervals.SplitPoint for unbounded components). */
  function BisectAt(x: Box, i: nat, ratio: real): (r: (Box, Box))
    requires i < |x| && x[i].Range? && 0.0 < ratio < 1.0
    ensures |r.0| == |x| && |r.1| == |x|
    ensures forall j :: 0 <= j < |x| && j != i ==> r.0[j] == x[j] && r.1[j] == x[j]
    ensures r.0[i] == Bisect(x[i], ratio).0 && r.1[i] == Bisect(x[i], ratio).1
  {
    var halves := Bisect(x[i], ratio);
    (x[i := halves.0], x[i := halves.1])
  }

  /** The two halves cover exactly x and share no interior point. */
  lemma {:induction false} BisectAtPartition(x: Box, i: nat, ratio: real)
    requires i < |x| && x[i].Range? && 0.0 < ratio < 1.0
    ensures forall p :: InBox(x, p) <==> InBox(BisectAt(x, i, ratio).0, p) || InBox(BisectAt(x, i, ratio).1, p)
    ensures forall p :: !(InInterior(BisectAt(x, i, ratio).0, p) && InInterior(BisectAt(x, i, ratio).1, p))
  {
    var r := BisectAt(x, i, ratio);
    var halves := Bisect(x[i], ratio);
    assert r.0[i] == halves.0 && r.1[i] == halves.1;
    forall p | InBox(x, p)
      ensures InBox(r.0, p) || InBox(r.1, p)
    {
      assert Contains(x[i], p[i]);
      if Contains(halves.0, p[i]) {
        assert forall j :: 0 <= j < |x| ==> Contains(r.0[j], p[j]);
      } else {
        assert forall j :: 0 <= j < |x| ==> Contains(r.1[j], p[j]);
      }
    }
    forall p | InBox(r.0, p) || InBox(r.1, p)
      ensures InBox(x, p)
    {
      assert Contains(r.0[i], p[i]) || Contains(r.1[i], p[i]);
      assert forall j :: 0 <= j < |x| && j != i ==> Contains(x[j], p[j]);
    }
    forall p | InInterior(r.0, p)
      ensures !InInterior(r.1, p)
    {
      assert Interior(halves.0, p[i]);
    }
  }

  // ----------------------------------------------------------------------
  // Difference and complement

  /** diff's early answer with compactness: when x&y is a single point in a
      component where x is not, x itself is returned. */
  predicate FlatOverlap(x: Box, z: Box)
    requires |x| == |z|
  {
    exists i :: 0 <= i < |x| && IsDegenerate(z[i]) && !IsDegenerate(x[i])
  }

  /** x with component k replaced by c and the components before k by
      those of z. */
  function Splice(x: Box, z: Box, k: nat, c: Interval): (r: Box)
    requires |x| == |z| && k < |x|
    ensures |r| == |x| && r[k] == c
    ensures forall i :: 0 <= i < k ==> r[i] == z[i]
    ensures forall i :: k < i < |x| ==> r[i] == x[i]
  {
    z[..k] + [c] + x[k + 1..]
  }

  /** The boxes diff contributes for component k: one per piece of
      x[k]\y[k], spliced between z[..k] and x[k+1..] for z = x&y. */
  function PiecesAt(x: Box, y: Box, z: Box, k: nat): (r: seq<Box>)
    requires |x| == |y| == |z| && k < |x|
  {
    var d := Diff(x[k], y[k]);
    (if d.count >= 1 then [Splice(x, z, k, d.first)] else [])
      + (if d.count >= 2 then [Splice(x, z, k, d.second)] else [])
  }

  /** The boxes of components k, k+1, ..., in that order. */
  function PiecesFrom(x: Box, y: Box, z: Box, k: nat): (r: seq<Box>)
    requires |x| == |y| == |z| && k <= |x|
    decreases |x| - k
  {
    if k == |x| then [] else PiecesAt(x, y, z, k) + PiecesFrom(x, y, z, k + 1)
  }

  /** x.diff(y,result): the count is the length of the result. An empty x
      gives none; x disjoint from y, or overlapping it in a flat slice, gives
      x itself; otherwise each component contributes up to two boxes. */
  function BoxDiff(x: Box, y: Box): (r: seq<Box>)
    requires |x| == |y| >= 1
  {
    var z := MeetBox(x, y);
    if IsEmptyBox(z) then (if IsEmptyBox(x) then [] else [x])
    else if FlatOverlap(x, z) then [x]
    else PiecesFrom(x, y, z, 0)
  }

  /** x.complementary(result): the difference of (-oo,+oo)^n and x. */
  function BoxComplementary(x: Box): (r: seq<Box>)
    requires |x| >= 1
  {
    BoxDiff(Universe(|x|), x)
  }

  predicate InSome(boxes: seq<Box>, p: seq<real>) {
    exists j :: 0 <= j < |boxes| && InBox(boxes[j], p)
  }

  /** A box diff may return: non-empty, inside x, and outside the interior
      of y. */
  ghost predicate GoodPiece(x: Box, y: Box, b: Box) {
    |b| == |x| && !IsEmptyBox(b) && forall p :: InBox(b, p) ==> InBox(x, p) && !InInterior(y, p)
  }

  /** z is x&y computed component by component, and not empty. */
  predicate Overlap(x: Box, y: Box, z: Box) {
    |x| == |y| == |z| && !IsEmptyBox(z) && forall i :: 0 <= i < |z| ==> z[i] == Meet(x[i], y[i])
  }

  lemma {:induction false} SpliceGood(x: Box, y: Box, z: Box, k: nat, c: Interval)
    requires Overlap(x, y, z) && k < |x| && c.Range?
    requires forall v :: Contains(c, v) ==> Contains(x[k], v) && !Interior(y[k], v)
    ensures GoodPiece(x, y, Splice(x, z, k, c))
  {
    var b := Splice(x, z, k, c);
    forall p | InBox(b, p)
      ensures InBox(x, p) && !InInterior(y, p)
    {
      assert Contains(c, p[k]);
      forall i | 0 <= i < |x|
        ensures Contains(x[i], p[i])
      {
        if i < k {
          assert Contains(z[i], p[i]);
        } else if i > k {
          assert b[i] == x[i];
        }
      }
    }
    forall i | 0 <= i < |x|
      ensures b[i].Range?
    {
      if i < k {
        assert !z[i].EmptySet?;
      } else if i > k {
        assert Contains(x[i], Witness(z[i]));
      }
    }
  }

  lemma {:induction false} PiecesAtGood(x: Box, y: Box, z: Box, k: nat)
    requires Overlap(x, y, z) && k < |x|
    ensures |PiecesAt(x, y, z, k)| <= 2
    ensures forall b :: b in PiecesAt(x, y, z, k) ==> GoodPiece(x, y, b)
  {
    var d := Diff(x[k], y[k]);
    DiffIsDifference(x[k], y[k]);
    if d.count >= 1 {
      SpliceGood(x, y, z, k, d.first);
    }
    if d.count >= 2 {
      SpliceGood(x, y, z, k, d.second);
    }
  }

  lemma {:induction false} PiecesFromGood(x: Box, y: Box, z: Box, k: nat)
    requires Overlap(x, y, z) && k <= |x|
    ensures |PiecesFrom(x, y, z, k)| <= 2 * (|x| - k)
    ensures forall b :: b in PiecesFrom(x, y, z, k) ==> GoodPiece(x, y, b)
    decreases |x| - k
  {
    if k < |x| {
      PiecesAtGood(x, y, z, k);
      PiecesFromGood(x, y, z, k + 1);
      assert PiecesFrom(x, y, z, k) == PiecesAt(x, y, z, k) + PiecesFrom(x, y, z, k + 1);
    }
  }

  /** A point of x lying in y before component k but not at k is in a box
      of component k. */
  lemma {:induction false} PiecesAtCover(x: Box, y: Box, z: Box, k: nat, p: seq<real>)
    requires Overlap(x, y, z) && InBox(x, p) && k < |x|
    requires forall i :: 0 <= i < k ==> Contains(y[i], p[i])
    requires !Contains(y[k], p[k])
    ensures InSome(PiecesAt(x, y, z, k), p)
  {
    var d := Diff(x[k], y[k]);
    DiffIsDifference(x[k], y[k]);
    assert InParts(d, p[k]);
    var c := if Contains(d.first, p[k]) then d.first else d.second;
    var b := Splice(x, z, k, c);
    forall i | 0 <= i < |x|
      ensures Contains(b[i], p[i])
    {
      if i < k {
        assert Contains(Meet(x[i], y[i]), p[i]);
      }
    }
    assert InBox(b, p);
    var a := PiecesAt(x, y, z, k);
    if c == d.first {
      assert a[0] == b;
    } else {
      assert a[1] == b;
    }
  }

  /** The first component where p leaves y. */
  function FirstOutside(y: Box, p: seq<real>, k: nat): (r: nat)
    requires |p| == |y| && k <= |y|
    requires exists i :: k <= i < |y| && !Contains(y[i], p[i])
    ensures k <= r < |y| && !Contains(y[r], p[r])
    ensures forall i :: k <= i < r ==> Contains(y[i], p[i])
    decreases |y| - k
  {
    if !Contains(y[k], p[k]) then k
    else
      var i :| k <= i < |y| && !Contains(y[i], p[i]);
      assert k + 1 <= i;
      FirstOutside(y, p, k + 1)
  }

  /** A box of component k is among those of components j, j+1, ... for
      j <= k. */
  lemma {:induction false} PiecesFromIncludes(x: Box, y: Box, z: Box, j: nat, k: nat, b: Box)
    requires |x| == |y| == |z| && j <= k < |x|
    requires b in PiecesAt(x, y, z, k)
    ensures b in PiecesFrom(x, y, z, j)
    decreases k - j
  {
    var here, rest := PiecesAt(x, y, z, j), PiecesFrom(x, y, z, j + 1);
    assert PiecesFrom(x, y, z, j) == here + rest;
    if j < k {
      PiecesFromIncludes(x, y, z, j + 1, k, b);
      assert b in rest;
    }
  }

  /** A box of the list holding p puts p in the list. */
  lemma {:induction false} InSomeMember(boxes: seq<Box>, b: Box, p: seq<real>)
    requires b in boxes && InBox(b, p)
    ensures InSome(boxes, p)
  {
    var i :| 0 <= i < |boxes| && boxes[i] == b;
    assert InBox(boxes[i], p);
  }

  /** A point of x strictly inside y would make x&y wider than a point
      around it, so a flat x&y under a wide x leaves no such point. */
  lemma {:induction false} FlatOverlapNoInterior(a: Interval, b: Interval)
    requires IsDegenerate(Meet(a, b)) && !IsDegenerate(a)
    ensures forall v :: Contains(a, v) ==> !Interior(b, v)
  {
  }

  /** When x&y is empty, no point of x is inside y. */
  lemma {:induction false} DisjointNoInterior(x: Box, y: Box)
    requires |x| == |y| >= 1 && IsEmptyBox(MeetBox(x, y))
    ensures forall p :: InBox(x, p) ==> !InInterior(y, p)
  {
    var z := MeetBox(x, y);
    forall p | InBox(x, p)
      ensures !InInterior(y, p)
    {
      assert !InBox(z, p);
      assert forall i :: 0 <= i < |y| && Interior(y[i], p[i]) ==> Contains(y[i], p[i]);
    }
  }

  /** When x&y is flat in a component where x is not, x is not empty and
      no point of x is inside y. */
  lemma {:induction false} FlatNoInterior(x: Box, y: Box)
    requires |x| == |y| >= 1 && !IsEmptyBox(MeetBox(x, y)) && FlatOverlap(x, MeetBox(x, y))
    ensures !IsEmptyBox(x)
    ensures forall p :: InBox(x, p) ==> !InInterior(y, p)
  {
    var z := MeetBox(x, y);
    var i :| 0 <= i < |x| && IsDegenerate(z[i]) && !IsDegenerate(x[i]);
    FlatOverlapNoInterior(x[i], y[i]);
    forall p | InBox(x, p)
      ensures !InInterior(y, p)
    {
      assert Contains(x[i], p[i]);
    }
    forall k | 0 <= k < |x|
      ensures x[k].Range?
    {
      assert Contains(x[k], Witness(z[k]));
    }
  }

  /** The answer [x] of the two early cases meets the contract of diff. */
  lemma {:induction false} WholeBoxDiff(x: Box, y: Box, r: seq<Box>)
    requires |x| == |y| >= 1 && r == [x] && !IsEmptyBox(x)
    requires forall p :: InBox(x, p) ==> !InInterior(y, p)
    ensures |r| <= 2 * |x|
    ensures forall j :: 0 <= j < |r| ==> GoodPiece(x, y, r[j])
    ensures forall p :: InBox(x, p) && !InBox(y, p) ==> InSome(r, p)
  {
    assert r[0] == x;
    forall p | InBox(x, p) && !InBox(y, p)
      ensures InSome(r, p)
    {
      assert InBox(r[0], p);
    }
  }

  /** The per-component pieces meet the contract of diff. */
  lemma {:induction false} PiecesBoxDiff(x: Box, y: Box, z: Box)
    requires Overlap(x, y, z)
    ensures |PiecesFrom(x, y, z, 0)| <= 2 * |x|
    ensures forall j :: 0 <= j < |PiecesFrom(x, y, z, 0)| ==> GoodPiece(x, y, PiecesFrom(x, y, z, 0)[j])
    ensures forall p :: InBox(x, p) && !InBox(y, p) ==> InSome(PiecesFrom(x, y, z, 0), p)
  {
    var r := PiecesFrom(x, y, z, 0);
    PiecesFromGood(x, y, z, 0);
    forall j | 0 <= j < |r|
      ensures GoodPiece(x, y, r[j])
    {
      assert r[j] in r;
    }
    forall p | InBox(x, p) && !InBox(y, p)
      ensures InSome(r, p)
    {
      var k := FirstOutside(y, p, 0);
      PiecesAtCover(x, y, z, k, p);
      var a := PiecesAt(x, y, z, k);
      var i :| 0 <= i < |a| && InBox(a[i], p);
      assert a[i] in a;
      PiecesFromIncludes(x, y, z, 0, k, a[i]);
      InSomeMember(r, a[i], p);
    }
  }

  /** No point lies strictly inside both boxes. */
  ghost predicate Apart(u: Box, w: Box) {
    forall p :: !(InInterior(u, p) && InInterior(w, p))
  }

  /** No point lies strictly inside two boxes of the list. */
  ghost predicate PairwiseApart(boxes: seq<Box>) {
    forall j, k :: 0 <= j < k < |boxes| ==> Apart(boxes[j], boxes[k])
  }

  /** Strictly inside a part of b is strictly inside b. */
  lemma {:induction false} InteriorOfMeet(a: Interval, b: Interval, v: real)
    requires Interior(Meet(a, b), v)
    ensures Interior(b, v)
  {
    var m := Meet(a, b);
    assert m == Make(Max(a.lo, b.lo), Min(a.hi, b.hi));
    assert Le(b.lo, m.lo) && Le(m.hi, b.hi);
  }

  /** The two boxes of one component share no interior point: the pieces
      of x[k]\y[k] come in increasing order. */
  lemma {:induction false} PiecesAtApart(x: Box, y: Box, z: Box, k: nat)
    requires |x| == |y| == |z| && k < |x|
    ensures PairwiseApart(PiecesAt(x, y, z, k))
  {
    var d := Diff(x[k], y[k]);
    if d.count >= 2 {
      var u, w := Splice(x, z, k, d.first), Splice(x, z, k, d.second);
      assert PiecesAt(x, y, z, k) == [u, w];
      forall p | InInterior(u, p)
        ensures !InInterior(w, p)
      {
        DiffPiecesApart(x[k], y[k], p[k]);
      }
    }
  }

  /** Every box of component j agrees with z before j. */
  lemma {:induction false} PiecesAtPrefix(x: Box, y: Box, z: Box, j: nat)
    requires |x| == |y| == |z| && j < |x|
    ensures forall b :: b in PiecesAt(x, y, z, j) ==> |b| == |x| && forall i :: 0 <= i < j ==> b[i] == z[i]
  {
  }

  /** Every box of components j, j+1, ... agrees with z before j. */
  lemma {:induction false} PiecesFromPrefix(x: Box, y: Box, z: Box, j: nat)
    requires |x| == |y| == |z| && j <= |x|
    ensures forall b :: b in PiecesFrom(x, y, z, j) ==> |b| == |x| && forall i :: 0 <= i < j ==> b[i] == z[i]
    decreases |x| - j
  {
    if j < |x| {
      var here, rest := PiecesAt(x, y, z, j), PiecesFrom(x, y, z, j + 1);
      PiecesAtPrefix(x, y, z, j);
      PiecesFromPrefix(x, y, z, j + 1);
      assert PiecesFrom(x, y, z, j) == here + rest;
      forall b | b in here + rest
        ensures |b| == |x| && forall i :: 0 <= i < j ==> b[i] == z[i]
      {
        if b in rest {
          assert forall i :: 0 <= i < j + 1 ==> b[i] == z[i];
        }
      }
    }
  }

  /** A box of component k is outside the interior of y at k; a box of a
      later component is z[k], inside y, at k. */
  lemma {:induction false} PiecesCrossApart(x: Box, y: Box, z: Box, k: nat)
    requires Overlap(x, y, z) && k < |x|
    ensures forall u, w :: u in PiecesAt(x, y, z, k) && w in PiecesFrom(x, y, z, k + 1) ==> Apart(u, w)
  {
    var d := Diff(x[k], y[k]);
    DiffIsDifference(x[k], y[k]);
    PiecesFromPrefix(x, y, z, k + 1);
    forall u, w | u in PiecesAt(x, y, z, k) && w in PiecesFrom(x, y, z, k + 1)
      ensures Apart(u, w)
    {
      assert u[k] == d.first || u[k] == d.second;
      assert w[k] == Meet(x[k], y[k]);
      forall p | InInterior(u, p)
        ensures !InInterior(w, p)
      {
        assert Interior(u[k], p[k]);
        if Interior(w[k], p[k]) {
          InteriorOfMeet(x[k], y[k], p[k]);
        }
      }
    }
  }

  /** Two lists of boxes apart within themselves and from each other make
      one. */
  lemma {:induction false} ConcatApart(a: seq<Box>, b: seq<Box>)
    requires PairwiseApart(a) && PairwiseApart(b)
    requires forall u, w :: u in a && w in b ==> Apart(u, w)
    ensures PairwiseApart(a + b)
  {
    var c := a + b;
    forall j, k | 0 <= j < k < |c|
      ensures Apart(c[j], c[k])
    {
      if k < |a| {
        assert c[j] == a[j] && c[k] == a[k];
      } else if j >= |a| {
        assert c[j] == b[j - |a|] && c[k] == b[k - |a|];
      } else {
        assert c[j] == a[j] && c[k] == b[k - |a|];
        assert c[j] in a && c[k] in b;
      }
    }
  }

  /** Adding the boxes of component k in front of those of later
      components keeps them apart. */
  lemma {:induction false} PiecesFromApartStep(x: Box, y: Box, z: Box, k: nat)
    requires Overlap(x, y, z) && k < |x|
    requires PairwiseApart(PiecesFrom(x, y, z, k + 1))
    ensures PairwiseApart(PiecesFrom(x, y, z, k))
  {
    var here, rest := PiecesAt(x, y, z, k), PiecesFrom(x, y, z, k + 1);
    PiecesAtApart(x, y, z, k);
    PiecesCrossApart(x, y, z, k);
    ConcatApart(here, rest);
    assert PiecesFrom(x, y, z, k) == here + rest;
  }

  /** The boxes of components 0, 1, ... share no interior point: adding
      the components one by one from the last keeps them apart. */
  lemma {:induction false} PiecesFromApart(x: Box, y: Box, z: Box)
    requires Overlap(x, y, z)
    ensures PairwiseApart(PiecesFrom(x, y, z, 0))
  {
    var k := |x|;
    assert PiecesFrom(x, y, z, k) == [];
    while k > 0
      invariant 0 <= k <= |x|
      invariant PairwiseApart(PiecesFrom(x, y, z, k))
    {
      PiecesFromApartStep(x, y, z, k - 1);
      k := k - 1;
    }
  }

  /** The boxes diff returns share no interior point. */
  lemma {:induction false} BoxDiffApart(x: Box, y: Box)
    requires |x| == |y| >= 1
    ensures PairwiseApart(BoxDiff(x, y))
  {
    var z := MeetBox(x, y);
    if !IsEmptyBox(z) && !FlatOverlap(x, z) {
      assert Overlap(x, y, z);
      PiecesFromApart(x, y, z);
    }
  }

  /** diff returns at most 2n boxes, each non-empty, inside x and outside
      the interior of y, no two sharing an interior point, and together they
      cover every point of x not in y. */
  lemma {:induction false} BoxDiffIsDifference(x: Box, y: Box)
    requires |x| == |y| >= 1
    ensures |BoxDiff(x, y)| <= 2 * |x|
    ensures forall j :: 0 <= j < |BoxDiff(x, y)| ==> GoodPiece(x, y, BoxDiff(x, y)[j])
    ensures forall p :: InBox(x, p) && !InBox(y, p) ==> InSome(BoxDiff(x, y), p)
    ensures forall j, k, p :: 0 <= j < k < |BoxDiff(x, y)| ==>
              !(InInterior(BoxDiff(x, y)[j], p) && InInterior(BoxDiff(x, y)[k], p))
  {
    BoxDiffApart(x, y);
    var z := MeetBox(x, y);
    var r := BoxDiff(x, y);
    if IsEmptyBox(z) {
      if !IsEmptyBox(x) {
        DisjointNoInterior(x, y);
        assert r == [x];
        WholeBoxDiff(x, y, r);
      } else {
        EmptyBoxIffNoPoint(x);
        assert r == [];
      }
    } else if FlatOverlap(x, z) {
      FlatNoInterior(x, y);
      assert r == [x];
      WholeBoxDiff(x, y, r);
    } else {
      assert Overlap(x, y, z);
      PiecesBoxDiff(x, y, z);
      assert r == PiecesFrom(x, y, z, 0);
    }
  }

  /** complementary returns at most 2n boxes, each non-empty and outside
      the interior of x, no two sharing an interior point, covering every
      point not in x. */
  lemma {:induction false} BoxComplementaryIsComplement(x: Box)
    requires |x| >= 1
    ensures |BoxComplementary(x)| <= 2 * |x|
    ensures forall j :: 0 <= j < |BoxComplementary(x)| ==> !IsEmptyBox(BoxComplementary(x)[j])
    ensures forall j, p :: 0 <= j < |BoxComplementary(x)| && InBox(BoxComplementary(x)[j], p) ==> !InInterior(x, p)
    ensures forall p :: |p| == |x| && !InBox(x, p) ==> InSome(BoxComplementary(x), p)
    ensures forall j, k, p :: 0 <= j < k < |BoxComplementary(x)| ==>
              !(InInterior(BoxComplementary(x)[j], p) && InInterior(BoxComplementary(x)[k], p))
  {
    BoxDiffIsDifference(Universe(|x|), x);
  }
}

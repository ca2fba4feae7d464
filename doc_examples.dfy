/** The worked examples of doc-arithmetic, evaluated on the model. */
module DocExamples {
  import opened ExtReals
  import opened Intervals
  import opened IntervalDivision
  import opened Boxes

  /** Interval(), Interval(2), Interval(1,2), Interval(1,POS_INFINITY),
      Interval(NEG_INFINITY,-1) and empty_set(). */
  lemma {:induction false} IntervalConstructors()
    ensures AllReals() == Range(NegInf, PosInf)
    ensures Point(2.0) == Range(Fin(2.0), Fin(2.0))
    ensures Make(Fin(1.0), Fin(2.0)) == Range(Fin(1.0), Fin(2.0))
    ensures Make(Fin(1.0), PosInf) == Range(Fin(1.0), PosInf)
    ensures Make(NegInf, Fin(-1.0)) == Range(NegInf, Fin(-1.0))
    ensures EmptyInterval() == EmptySet
  {
  }

  /** [2,3]/[-1,2] is (-oo,-2] and [1,+oo); met with [-10,10] it leaves
      [-10,-2] on the left and [1,10] on the right. */
  lemma {:induction false} Div2InterExample()
    ensures Div2(Range(Fin(2.0), Fin(3.0)), Range(Fin(-1.0), Fin(2.0))) ==
              Parts(2, Range(NegInf, Fin(-2.0)), Range(Fin(1.0), PosInf))
    ensures Meet(Range(NegInf, Fin(-2.0)), Range(Fin(-10.0), Fin(10.0))) == Range(Fin(-10.0), Fin(-2.0))
    ensures Meet(Range(Fin(1.0), PosInf), Range(Fin(-10.0), Fin(10.0))) == Range(Fin(1.0), Fin(10.0))
  {
  }

  /** The complement of [0,1] is (-oo,0] and [1,+oo). */
  lemma {:induction false} ComplementaryExample()
    ensures Complementary(Range(Fin(0.0), Fin(1.0))) ==
              Parts(2, Range(NegInf, Fin(0.0)), Range(Fin(1.0), PosInf))
  {
  }

  /** [0,3] \ [1,2] is [0,1] and [2,3]. */
  lemma {:induction false} DiffExample()
    ensures Diff(Range(Fin(0.0), Fin(3.0)), Range(Fin(1.0), Fin(2.0))) ==
              Parts(2, Range(Fin(0.0), Fin(1.0)), Range(Fin(2.0), Fin(3.0)))
  {
  }

  /** print_compl of empty(3) prints (-oo,+oo)^3; of (-oo,+oo)^3, nothing. */
  lemma {:induction false} BoxComplementaryExamples()
    ensures BoxComplementary(EmptyBox(3)) == [Universe(3)]
    ensures BoxComplementary(Universe(3)) == []
  {
    assert !IsEmptyBox(Universe(3));
    assert IsEmptyBox(MeetBox(Universe(3), EmptyBox(3)));
    var z := MeetBox(Universe(3), Universe(3));
    assert z == Universe(3);
    assert Diff(AllReals(), AllReals()).count == 0;
  }

  /** print_compl(x): the loop over the n boxes x.complementary returns,
      emitting each one in order; the lines emitted are the complement,
      no two of them sharing an interior point. */
  method ListComplement(x: Box) returns (lines: seq<Box>)
    requires |x| >= 1
    ensures lines == BoxComplementary(x)
    ensures |lines| <= 2 * |x|
    ensures forall j, p :: 0 <= j < |lines| && InBox(lines[j], p) ==> !InInterior(x, p)
    ensures forall p :: |p| == |x| && !InBox(x, p) ==> InSome(lines, p)
    ensures forall j, k, p :: 0 <= j < k < |lines| ==> !(InInterior(lines[j], p) && InInterior(lines[k], p))
  {
    var result := BoxComplementary(x);
    BoxComplementaryIsComplement(x);
    var n := |result|;
    lines := [];
    var i := 0;
    while i < n
      invariant 0 <= i <= n
      invariant lines == result[..i]
    {
      lines := lines + [result[i]];
      i := i + 1;
    }
    assert result[..n] == result;
  }

  /** [0,3]^2 \ [1,2]^2: the two slabs of component 0 outside [1,2] over
      [0,3], then the two pieces of component 1 over [1,2]. */
  lemma {:induction false} BoxDiffExample()
    ensures BoxDiff(Filled(2, Range(Fin(0.0), Fin(3.0))), Filled(2, Range(Fin(1.0), Fin(2.0)))) ==
              [ [Range(Fin(0.0), Fin(1.0)), Range(Fin(0.0), Fin(3.0))],
                [Range(Fin(2.0), Fin(3.0)), Range(Fin(0.0), Fin(3.0))],
                [Range(Fin(1.0), Fin(2.0)), Range(Fin(0.0), Fin(1.0))],
                [Range(Fin(1.0), Fin(2.0)), Range(Fin(2.0), Fin(3.0))] ]
  {
    var a := Range(Fin(0.0), Fin(3.0));
    var b := Range(Fin(1.0), Fin(2.0));
    var x := Filled(2, a);
    var y := Filled(2, b);
    assert x == [a, a] && y == [b, b];
    var z := MeetBox(x, y);
    assert Meet(a, b) == b;
    assert z == y;
    assert !FlatOverlap(x, z);
    DiffExample();
    var lo, hi := Range(Fin(0.0), Fin(1.0)), Range(Fin(2.0), Fin(3.0));
    assert Splice(x, z, 0, lo) == [lo, a];
    assert Splice(x, z, 0, hi) == [hi, a];
    assert Splice(x, z, 1, lo) == [b, lo];
    assert Splice(x, z, 1, hi) == [b, hi];
    assert PiecesAt(x, y, z, 0) == [[lo, a], [hi, a]];
    assert PiecesAt(x, y, z, 1) == [[b, lo], [b, hi]];
    assert PiecesFrom(x, y, z, 2) == [];
    assert PiecesFrom(x, y, z, 1) == [[b, lo], [b, hi]];
    assert PiecesFrom(x, y, z, 0) == [[lo, a], [hi, a]] + [[b, lo], [b, hi]];
  }

  /** bisect(1,0.4) on [0,1]^3 splits component 1 at 0.4. */
  lemma {:induction false} BisectExample()
    ensures BisectAt(Filled(3, Range(Fin(0.0), Fin(1.0))), 1, 0.4) ==
              ([Range(Fin(0.0), Fin(1.0)), Range(Fin(0.0), Fin(0.4)), Range(Fin(0.0), Fin(1.0))],
               [Range(Fin(0.0), Fin(1.0)), Range(Fin(0.4), Fin(1.0)), Range(Fin(0.0), Fin(1.0))])
  {
    var u := Range(Fin(0.0), Fin(1.0));
    var x := Filled(3, u);
    assert x == [u, u, u];
    assert SplitPoint(u, 0.4) == 0.4;
    var h := Bisect(u, 0.4);
    assert h == (Range(Fin(0.0), Fin(0.4)), Range(Fin(0.4), Fin(1.0)));
    var r := BisectAt(x, 1, 0.4);
    assert r.0 == [u, h.0, u];
    assert r.1 == [u, h.1, u];
  }
}

/** bwd_add(z,x,y): the backward projection of z = x+y onto x and y. Both
    arguments are narrowed to the values that can take part in a sum lying
    in z; once either becomes empty both are set empty. The result is
    whether they are still non-empty. */
module BackwardArithmetic {
  import opened Intervals

  /** x &= z-y; if x is empty, y is emptied too; otherwise y &= z-x with the
      narrowed x, and if that is empty x is emptied too. */
  method BwdAdd(z: Interval, x: Interval, y: Interval) returns (x': Interval, y': Interval, nonEmpty: bool)
    ensures forall a :: Contains(x', a) ==> Contains(x, a)
    ensures forall b :: Contains(y', b) ==> Contains(y, b)
    ensures forall a, b :: Contains(x, a) && Contains(y, b) && Contains(z, a + b) ==> Contains(x', a) && Contains(y', b)
    ensures forall a :: Contains(x', a) ==> exists b :: Contains(y, b) && Contains(z, a + b)
    ensures forall b :: Contains(y', b) ==> exists a :: Contains(x', a) && Contains(z, a + b)
    ensures x'.EmptySet? <==> y'.EmptySet?
    ensures nonEmpty <==> x'.Range?
    ensures z.EmptySet? || x.EmptySet? || y.EmptySet? ==> x'.EmptySet? && y'.EmptySet?
  {
    x' := Meet(x, Sub(z, y));
    LeftConsistent(z, x, y);
    if x'.EmptySet? {
      y' := EmptySet;
      return x', y', false;
    }
    y' := Meet(y, Sub(z, x'));
    RightConsistent(z, x', y);
    if y'.EmptySet? {
      x' := EmptySet;
      return x', y', false;
    }
    nonEmpty := true;
    forall a, b | Contains(x, a) && Contains(y, b) && Contains(z, a + b)
      ensures Contains(x', a) && Contains(y', b)
    {
      assert (a + b) - b == a;
      assert Contains(x', a);
      assert (a + b) - a == b;
    }
  }

  /** For a point a of z-y, some b of y puts a+b in z. */
  lemma {:induction false} Partner(z: Interval, y: Interval, a: real) returns (b: real)
    requires Contains(Sub(z, y), a)
    ensures Contains(y, b) && Contains(z, a + b)
  {
    var c;
    c, b := SubPoint(z, y, a);
    assert a + b == c;
  }

  /** Every point left in x &= z-y has a partner in y whose sum with it is
      in z. */
  lemma {:induction false} LeftConsistent(z: Interval, x: Interval, y: Interval)
    ensures forall a :: Contains(Meet(x, Sub(z, y)), a) ==> exists b :: Contains(y, b) && Contains(z, a + b)
  {
    forall a | Contains(Meet(x, Sub(z, y)), a)
      ensures exists b :: Contains(y, b) && Contains(z, a + b)
    {
      var b := Partner(z, y, a);
    }
  }

  /** Every point left in y &= z-x has a partner in x whose sum with it is
      in z. */
  lemma {:induction false} RightConsistent(z: Interval, x: Interval, y: Interval)
    ensures forall b :: Contains(Meet(y, Sub(z, x)), b) ==> exists a :: Contains(x, a) && Contains(z, a + b)
  {
    forall b | Contains(Meet(y, Sub(z, x)), b)
      ensures exists a :: Contains(x, a) && Contains(z, a + b)
    {
      var a := Partner(z, x, b);
      assert b + a == a + b;
    }
  }
}

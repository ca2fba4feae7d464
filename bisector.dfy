/** Bsc, the base class of bisectors: its precision vector, the default
    split ratio, the property hook, and the box-level bisect that wraps the
    cell-level split. The cell-level split is virtual in the library; here
    it is a function the caller supplies. */
module Bisectors {
  import opened Wrappers
  import opened Boxes

  /** Properties attached to a cell, by property identifier. */
  type BoxProperties = map<nat, seq<real>>

  /** A search node: its box and its properties. */
  datatype Cell = Cell(box: Box, props: BoxProperties)

  /** Cell(box): a cell over box, with no property yet. */
  function NewCell(box: Box): (c: Cell)
    ensures c.box == box && |c.props| == 0
  {
    Cell(box, map[])
  }

  /** The check the scalar constructor makes: a precision may be 0. */
  predicate ScalarPrecisionOk(prec: real) {
    prec >= 0.0
  }

  /** The check the vector constructor makes: every entry, 0 included, is
      rejected unless it is positive. */
  predicate VectorPrecisionOk(prec: seq<real>) {
    forall i :: 0 <= i < |prec| ==> prec[i] > 0.0
  }

  const PrecisionError: string := "precision must be a nonnegative number"

  /** The two constructors disagree exactly on a zero precision: [p] passes
      the vector check iff p passes the scalar one and is not 0. */
  lemma {:induction false} PrecisionChecksDisagreeOnZero(p: real)
    ensures VectorPrecisionOk([p]) <==> ScalarPrecisionOk(p) && p != 0.0
  {
    assert [p][0] == p;
  }

  class Bsc {
    /** _prec: the precision below which a component is not bisected, one
        entry per component, or a single entry for all of them. */
    var prec: seq<real>

    /** Bsc(double prec): the precision vector [prec]; ibex_error unless
        prec >= 0. */
    constructor Scalar(p: real)
      requires ScalarPrecisionOk(p)
      ensures prec == [p]
    {
      prec := [p];
    }

    /** Bsc(const Vector& prec): the vector as given; ibex_error if an entry
        is <= 0. */
    constructor FromVector(p: seq<real>)
      requires VectorPrecisionOk(p)
      ensures prec == p
    {
      prec := p;
    }

    /** The scalar constructor with its error path: fails iff prec < 0. */
    static method NewScalar(p: real) returns (r: Result<Bsc, string>)
      ensures r.Success? <==> p >= 0.0
      ensures r.Success? ==> fresh(r.value) && r.value.prec == [p]
      ensures r.Failure? ==> r.error == PrecisionError
    {
      if p < 0.0 {
        return Failure(PrecisionError);
      }
      var b := new Bsc.Scalar(p);
      return Success(b);
    }

    /** The loop of the vector constructor: looks at every entry and reports
        whether none of them is <= 0. */
    static method CheckPrecisions(p: seq<real>) returns (ok: bool)
      ensures ok <==> forall i :: 0 <= i < |p| ==> p[i] > 0.0
    {
      ok := true;
      var i := 0;
      while i < |p|
        invariant 0 <= i <= |p|
        invariant ok <==> forall j :: 0 <= j < i ==> p[j] > 0.0
      {
        if p[i] <= 0.0 {
          ok := false;
        }
        i := i + 1;
      }
    }

    /** The vector constructor with its error path: fails iff some entry is
        <= 0. */
    static method NewVector(p: seq<real>) returns (r: Result<Bsc, string>)
      ensures r.Success? <==> VectorPrecisionOk(p)
      ensures r.Success? ==> fresh(r.value) && r.value.prec == p
      ensures r.Failure? ==> r.error == PrecisionError
    {
      var ok := CheckPrecisions(p);
      if !ok {
        return Failure(PrecisionError);
      }
      var b := new Bsc.FromVector(p);
      return Success(b);
    }

    /** default_ratio(): the split ratio 0.45, strictly inside (0,1) as a
        ratio bisection needs. */
    static function DefaultRatio(): (r: real)
      ensures 0.0 < r < 1.0 && r == 0.45
    {
      0.45
    }

    /** add_property(init_box, map): adds nothing; the map comes back as it
        was. */
    method AddProperty(initBox: Box, props: BoxProperties) returns (props': BoxProperties)
      ensures props' == props
    {
      props' := props;
    }

    /** bisect(box): splits a fresh cell over box with the cell-level split
        and returns the boxes of its two children, first then second; the
        children's properties are dropped. */
    method Bisect(split: Cell -> (Cell, Cell), box: Box) returns (boxes: (Box, Box))
      ensures boxes.0 == split(NewCell(box)).0.box
      ensures boxes.1 == split(NewCell(box)).1.box
    {
      var cell := NewCell(box);
      var children := split(cell);
      boxes := (children.0.box, children.1.box);
    }
  }
}

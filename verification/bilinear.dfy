/**
  The four-point transformation of transformations/BilinearTransform.java:
  x' = a·x + b·y + c·x·y + d and y' = e·x + f·y + g·x·y + h, fitted to exactly
  four id-point pairs by solving an 8×9 system.
*/
module BilinearTransform {
  import opened Base
  import opened Matrices
  import opened Points
  import opened LinearEquationSystem

  /** The coefficients A .. H of the Java class. */
  datatype Params = Params(a: real, b: real, c: real, d: real, e: real, f: real, g: real, h: real)

  datatype FitError =
    | FromPointsExpected          // "4 from-points expected!"
    | ToPointsExpected            // "4 to-points expected!"
    | Unsolvable(cause: SolveError)
    | SomethingWentWrong          // the solver returned a vector of the wrong length

  /** transform(p) */
  function Apply(t: Params, p: Point): Point
  {
    Point(t.a * p.x + t.b * p.y + t.c * p.x * p.y + t.d,
          t.e * p.x + t.f * p.y + t.g * p.x * p.y + t.h)
  }

  /** The unknowns in solver order. */
  function AsVector(t: Params): (v: seq<real>)
    ensures |v| == 8
  {
    [t.a, t.b, t.c, t.d, t.e, t.f, t.g, t.h]
  }

  /** The x-equation of an id-point pair: columns [x, y, x·y, 1 | 0, 0, 0, 0]. */
  function XRow(p: Point, q: Point): seq<real>
  {
    [p.x, p.y, p.x * p.y, 1.0, 0.0, 0.0, 0.0, 0.0, q.x]
  }

  /** The y-equation of an id-point pair: columns [0, 0, 0, 0 | x, y, x·y, 1]. */
  function YRow(p: Point, q: Point): seq<real>
  {
    [0.0, 0.0, 0.0, 0.0, p.x, p.y, p.x * p.y, 1.0, q.y]
  }

  /** Two equations per id-point pair, in the order of the pairs. */
  function System(from: seq<Point>, to: seq<Point>): (m: Matrix)
    requires |from| == 4 && |to| == 4
    ensures IsAugmented(m) && |m| == 8
    ensures forall i :: 0 <= i < 4 ==> m[2 * i] == XRow(from[i], to[i]) && m[2 * i + 1] == YRow(from[i], to[i])
  {
    [XRow(from[0], to[0]), YRow(from[0], to[0]),
     XRow(from[1], to[1]), YRow(from[1], to[1]),
     XRow(from[2], to[2]), YRow(from[2], to[2]),
     XRow(from[3], to[3]), YRow(from[3], to[3])]
  }

  /** t maps every source point onto its target. */
  predicate FitsAll(t: Params, from: seq<Point>, to: seq<Point>)
    requires |from| == |to|
  {
    forall i :: 0 <= i < |from| ==> Apply(t, from[i]) == to[i]
  }

  /** The coefficients read from the solver's outcome, with the length check of the Java code. */
  function FromSolution(r: Result<seq<real>, SolveError>): (t: Result<Params, FitError>)
    ensures t.Success? <==> r.Success? && |r.value| == 8
    ensures t.Success? ==> AsVector(t.value) == r.value
    ensures r.Failure? ==> t == Failure(Unsolvable(r.error))
  {
    match r
    case Failure(e) => Failure(Unsolvable(e))
    case Success(x) =>
      if |x| != 8 then Failure(SomethingWentWrong)
      else Success(Params(x[0], x[1], x[2], x[3], x[4], x[5], x[6], x[7]))
  }

  /** calcTransformMatrix(): validation, then the solver with its default tolerance. */
  function Fit(from: seq<Point>, to: seq<Point>): (r: Result<Params, FitError>)
    ensures |from| != 4 ==> r == Failure(FromPointsExpected)
    ensures |from| == 4 && |to| != 4 ==> r == Failure(ToPointsExpected)
  {
    if |from| != 4 then Failure(FromPointsExpected)
    else if |to| != 4 then Failure(ToPointsExpected)
    else FromSolution(SolveSystem(Create(System(from, to))))
  }

  // ---------------------------------------------------------------------------
  // Properties
  // ---------------------------------------------------------------------------

  /**
    Bilinearity: along any horizontal line the map is affine in x, and along
    any vertical line it is affine in y.
  */
  lemma ApplyBilinear(t: Params, x: real, y: real)
    ensures Apply(t, Point(x, y)).x == Apply(t, Point(0.0, y)).x + x * (Apply(t, Point(1.0, y)).x - Apply(t, Point(0.0, y)).x)
    ensures Apply(t, Point(x, y)).y == Apply(t, Point(0.0, y)).y + x * (Apply(t, Point(1.0, y)).y - Apply(t, Point(0.0, y)).y)
    ensures Apply(t, Point(x, y)).x == Apply(t, Point(x, 0.0)).x + y * (Apply(t, Point(x, 1.0)).x - Apply(t, Point(x, 0.0)).x)
    ensures Apply(t, Point(x, y)).y == Apply(t, Point(x, 0.0)).y + y * (Apply(t, Point(x, 1.0)).y - Apply(t, Point(x, 0.0)).y)
  {
    ApplyAlongX(t, x, y);
    ApplyAlongY(t, x, y);
  }

  lemma ApplyAlongX(t: Params, x: real, y: real)
    ensures Apply(t, Point(x, y)).x == Apply(t, Point(0.0, y)).x + x * (Apply(t, Point(1.0, y)).x - Apply(t, Point(0.0, y)).x)
    ensures Apply(t, Point(x, y)).y == Apply(t, Point(0.0, y)).y + x * (Apply(t, Point(1.0, y)).y - Apply(t, Point(0.0, y)).y)
  {
    AlongX(t.a, t.b, t.c, t.d, x, y);
    AlongX(t.e, t.f, t.g, t.h, x, y);
  }

  lemma ApplyAlongY(t: Params, x: real, y: real)
    ensures Apply(t, Point(x, y)).x == Apply(t, Point(x, 0.0)).x + y * (Apply(t, Point(x, 1.0)).x - Apply(t, Point(x, 0.0)).x)
    ensures Apply(t, Point(x, y)).y == Apply(t, Point(x, 0.0)).y + y * (Apply(t, Point(x, 1.0)).y - Apply(t, Point(x, 0.0)).y)
  {
    AlongY(t.a, t.b, t.c, t.d, x, y);
    AlongY(t.e, t.f, t.g, t.h, x, y);
  }

  lemma AlongX(a: real, b: real, c: real, d: real, x: real, y: real)
    ensures a * x + b * y + c * x * y + d
         == (a * 0.0 + b * y + c * 0.0 * y + d)
          + x * ((a * 1.0 + b * y + c * 1.0 * y + d) - (a * 0.0 + b * y + c * 0.0 * y + d))
  {
    assert c * 0.0 * y == 0.0;
    assert c * 1.0 * y == c * y;
    assert x * (a + c * y) == a * x + c * x * y;
  }

  lemma AlongY(a: real, b: real, c: real, d: real, x: real, y: real)
    ensures a * x + b * y + c * x * y + d
         == (a * x + b * 0.0 + c * x * 0.0 + d)
          + y * ((a * x + b * 1.0 + c * x * 1.0 + d) - (a * x + b * 0.0 + c * x * 0.0 + d))
  {
    assert c * x * 0.0 == 0.0;
    assert c * x * 1.0 == c * x;
    assert y * (b + c * x) == b * y + c * x * y;
  }

  lemma Dot8(row: seq<real>, v: seq<real>)
    requires |row| == 9 && |v| == 8
    ensures Dot(row, v, 8) == row[0] * v[0] + row[1] * v[1] + row[2] * v[2] + row[3] * v[3]
                            + row[4] * v[4] + row[5] * v[5] + row[6] * v[6] + row[7] * v[7]
  {
    assert Dot(row, v, 1) == row[0] * v[0];
    assert Dot(row, v, 2) == Dot(row, v, 1) + row[1] * v[1];
    assert Dot(row, v, 3) == Dot(row, v, 2) + row[2] * v[2];
    assert Dot(row, v, 4) == Dot(row, v, 3) + row[3] * v[3];
    assert Dot(row, v, 5) == Dot(row, v, 4) + row[4] * v[4];
    assert Dot(row, v, 6) == Dot(row, v, 5) + row[5] * v[5];
    assert Dot(row, v, 7) == Dot(row, v, 6) + row[6] * v[6];
  }

  /** The two equations of one pair hold exactly when the transform maps that pair's point onto its target. */
  lemma PairMeaning(p: Point, q: Point, t: Params)
    ensures RowHolds(XRow(p, q), AsVector(t)) && RowHolds(YRow(p, q), AsVector(t)) <==> Apply(t, p) == q
  {
    Dot8(XRow(p, q), AsVector(t));
    Dot8(YRow(p, q), AsVector(t));
  }

  /** The 8×9 system holds for a coefficient vector exactly when it maps all four id-points onto their targets. */
  lemma SystemMeaning(from: seq<Point>, to: seq<Point>, t: Params)
    requires |from| == 4 && |to| == 4
    ensures Solves(System(from, to), AsVector(t)) <==> FitsAll(t, from, to)
  {
    var m := System(from, to);
    var v := AsVector(t);
    forall i | 0 <= i < 4
      ensures RowHolds(m[2 * i], v) && RowHolds(m[2 * i + 1], v) <==> Apply(t, from[i]) == to[i]
    {
      PairMeaning(from[i], to[i], t);
    }
    if FitsAll(t, from, to) {
      forall r | 0 <= r < 8
        ensures RowHolds(m[r], v)
      {
        assert r == 2 * (r / 2) || r == 2 * (r / 2) + 1;
      }
    }
  }

  /** A successful fit returns the solver's solution of the 8×9 system. */
  lemma FitSolvesSystem(from: seq<Point>, to: seq<Point>)
    requires Fit(from, to).Success?
    ensures |from| == 4 && |to| == 4
    ensures GaussJordan(System(from, to), DefaultEps) == Success(AsVector(Fit(from, to).value))
  {
  }

  /** A fitted transform maps all four id-points exactly onto their targets, and it is the only such transform. */
  lemma FitExact(from: seq<Point>, to: seq<Point>)
    requires Fit(from, to).Success?
    ensures |from| == 4 && |to| == 4
    ensures FitsAll(Fit(from, to).value, from, to)
    ensures forall t :: FitsAll(t, from, to) ==> t == Fit(from, to).value
  {
    var t := Fit(from, to).value;
    FitSolvesSystem(from, to);
    SolutionSolves(System(from, to), DefaultEps);
    SystemMeaning(from, to, t);
    forall t' | FitsAll(t', from, to)
      ensures t' == t
    {
      SystemMeaning(from, to, t');
      SolutionIsUnique(System(from, to), DefaultEps, AsVector(t'));
    }
  }

  /** The solver always returns eight values here, so the "Something went wrong" branch is dead. */
  lemma FitNeverSomethingWentWrong(from: seq<Point>, to: seq<Point>)
    ensures Fit(from, to) != Failure(SomethingWentWrong)
  {
  }

  /** Two coincident source points give two pairs of equal coefficient rows: the fit fails. */
  lemma CoincidentPointsFail(from: seq<Point>, to: seq<Point>, i: nat, k: nat)
    requires |from| == 4 && |to| == 4 && i < 4 && k < 4 && i != k && from[i] == from[k]
    ensures Fit(from, to).Failure? && Fit(from, to).error.Unsolvable?
  {
    var m := System(from, to);
    assert m[2 * i] == XRow(from[i], to[i]) && m[2 * k] == XRow(from[k], to[k]);
    RepeatedRowsFail(m, 2 * i, 2 * k, DefaultEps);
  }
}

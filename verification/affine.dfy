/**
  The estimator of transformations/AffineTransform.java: x' = a·x + b·y + c and
  y' = d·x + e·y + f, fitted to N >= 3 id-point pairs. Three pairs go through a
  6×7 system and the solver; more pairs go through a closed form on
  centroid-reduced coordinates, in general-affine mode or, with the mode flag
  set, in Helmert (similarity) mode.

  The N > 3 path is modelled as the Java loop is written: the sums are
  accumulated point by point and, inside the same loop, the divisor is tested
  and the coefficients recomputed after every point. `FitNCorrected` is the
  evidently intended "accumulate everything, then divide once".
*/
module AffineTransform {
  import opened Base
  import opened Matrices
  import opened Points
  import opened LinearEquationSystem

  /** The divisor tolerance of the N > 3 path: the class's own eps field, fixed when the fit runs. */
  const AffineEps: real := 0.000001

  /** The coefficients A .. F of the Java class. */
  datatype Params = Params(a: real, b: real, c: real, d: real, e: real, f: real)

  /** The coefficients a fresh object holds before any fit (Java's zero-initialised fields). */
  const ZeroParams: Params := Params(0.0, 0.0, 0.0, 0.0, 0.0, 0.0)

  datatype FitError =
    | IdPointsExpected            // "Id-points expected!"
    | CountMismatch               // "Numbers of from-points and to-points must be equal!"
    | Unsolvable(cause: SolveError)
    | NumericalError              // "Numerical error!": the Helmert divisor fell below eps
    | SmallDivisor(divisor: real) // "Numerical error! " + divisor: the general-affine divisor fell below eps

  /** transform(p) */
  function Apply(t: Params, p: Point): Point
  {
    Point(t.a * p.x + t.b * p.y + t.c, t.d * p.x + t.e * p.y + t.f)
  }

  /** t maps every source point onto its target. */
  predicate FitsAll(t: Params, from: seq<Point>, to: seq<Point>)
    requires |from| == |to|
  {
    forall i :: 0 <= i < |from| ==> Apply(t, from[i]) == to[i]
  }

  /** The linear part is a rotation combined with a uniform scale: A = E and B = -D. */
  predicate Conformal(t: Params)
  {
    t.a == t.e && t.b == -t.d
  }

  // ---------------------------------------------------------------------------
  // Exactly three id-points: calcTransformMatrix3
  // ---------------------------------------------------------------------------

  /** The unknowns in solver order. */
  function AsVector(t: Params): (v: seq<real>)
    ensures |v| == 6
  {
    [t.a, t.b, t.c, t.d, t.e, t.f]
  }

  /** The x-equation of an id-point pair: columns [x, y, 1 | 0, 0, 0]. */
  function XRow(p: Point, q: Point): seq<real>
  {
    [p.x, p.y, 1.0, 0.0, 0.0, 0.0, q.x]
  }

  /** The y-equation of an id-point pair: columns [0, 0, 0 | x, y, 1]. */
  function YRow(p: Point, q: Point): seq<real>
  {
    [0.0, 0.0, 0.0, p.x, p.y, 1.0, q.y]
  }

  /** Two equations per id-point pair, in the order of the pairs. */
  function System3(from: seq<Point>, to: seq<Point>): (m: Matrix)
    requires |from| == 3 && |to| == 3
    ensures IsAugmented(m) && |m| == 6
    ensures forall i :: 0 <= i < 3 ==> m[2 * i] == XRow(from[i], to[i]) && m[2 * i + 1] == YRow(from[i], to[i])
  {
    [XRow(from[0], to[0]), YRow(from[0], to[0]),
     XRow(from[1], to[1]), YRow(from[1], to[1]),
     XRow(from[2], to[2]), YRow(from[2], to[2])]
  }

  /** The coefficients read from the solver's outcome; a solver failure propagates. */
  function FromSolution(r: Result<seq<real>, SolveError>): (t: Result<Params, FitError>)
    requires r.Success? ==> |r.value| == 6
    ensures t.Success? <==> r.Success?
    ensures t.Success? ==> AsVector(t.value) == r.value
    ensures r.Failure? ==> t == Failure(Unsolvable(r.error))
  {
    match r
    case Failure(e) => Failure(Unsolvable(e))
    case Success(x) => Success(Params(x[0], x[1], x[2], x[3], x[4], x[5]))
  }

  /** calcTransformMatrix3(): the 6×7 system, solved with the solver's default tolerance. */
  function Fit3(from: seq<Point>, to: seq<Point>): Result<Params, FitError>
    requires |from| == 3 && |to| == 3
  {
    FromSolution(SolveSystem(Create(System3(from, to))))
  }

  // ---------------------------------------------------------------------------
  // More than three id-points: calcTransformMatrixN
  // ---------------------------------------------------------------------------

  /** The seven accumulators sum[0] .. sum[6]; their meaning depends on the mode. */
  datatype Sums = Sums(s0: real, s1: real, s2: real, s3: real, s4: real, s5: real, s6: real)

  const ZeroSums: Sums := Sums(0.0, 0.0, 0.0, 0.0, 0.0, 0.0, 0.0)

  /** Point i relative to the centroid of its list. */
  function Reduced(ps: seq<Point>, i: nat): (r: Point)
    requires i < |ps|
    ensures r.x + Centroid(ps).x == ps[i].x && r.y + Centroid(ps).y == ps[i].y
  {
    Point(ps[i].x - Centroid(ps).x, ps[i].y - Centroid(ps).y)
  }

  /** One point's contribution to the sums, with p and q the reduced source and target points. */
  function Accumulate(s: Sums, helmert: bool, p: Point, q: Point): Sums
  {
    if helmert then
      Sums(s.s0 + p.x * q.y, s.s1 + p.y * q.x, s.s2 + p.y * p.y, s.s3 + p.x * p.x,
           s.s4 + p.x * q.x, s.s5 + p.y * q.y, s.s6)
    else
      Sums(s.s0 + p.y * p.y, s.s1 + p.x * p.x, s.s2 + p.x * p.y, s.s3 + p.x * q.x,
           s.s4 + p.y * q.y, s.s5 + p.x * q.y, s.s6 + p.y * q.x)
  }

  /** The sums over the first n id-points (the textbook accumulation, without any test in between). */
  function MomentSums(from: seq<Point>, to: seq<Point>, helmert: bool, n: nat): Sums
    requires 0 < |from| == |to| && n <= |from|
  {
    if n == 0 then ZeroSums
    else Accumulate(MomentSums(from, to, helmert, n - 1), helmert, Reduced(from, n - 1), Reduced(to, n - 1))
  }

  /** The quantity the N > 3 path tests against eps. */
  function Divisor(s: Sums, helmert: bool): real
  {
    if helmert then s.s2 + s.s3 else s.s0 * s.s1 - s.s2 * s.s2
  }

  /** Σ(dx·dy' - dy·dx') = o·(Σdy² + Σdx²): the rotation part of the Helmert sums. */
  predicate DifferenceInvariant(s: Sums, o: real)
  {
    s.s0 - s.s1 == o * (s.s2 + s.s3)
  }

  /** Σ(dx·dx' + dy·dy') = a·(Σdy² + Σdx²): the scale part of the Helmert sums. */
  predicate SumInvariant(s: Sums, a: real)
  {
    s.s4 + s.s5 == a * (s.s2 + s.s3)
  }

  /** The Helmert sums of data that a similarity fits exactly: Σ(dx·dy' - dy·dx') = o·D and Σ(dx·dx' + dy·dy') = a·D. */
  predicate SimilaritySums(s: Sums, t: Params)
  {
    DifferenceInvariant(s, t.d) && SumInvariant(s, t.a)
  }

  /**
    Helmert mode: scale-rotation a, o from the sums, A = E = a, B = -D = -o, and
    the translation that carries the source centroid onto the target centroid.
    a and o solve the similarity normal equations a·(Σdx² + Σdy²) = Σdx·dx' + Σdy·dy'
    and o·(Σdx² + Σdy²) = Σdx·dy' - Σdy·dx'.
  */
  function HelmertFromSums(s: Sums, spOld: Point, spNew: Point): (r: Params)
    requires s.s2 + s.s3 != 0.0
    ensures Conformal(r) && SimilaritySums(s, r)
    ensures Apply(r, spOld) == spNew
  {
    var divisor := s.s2 + s.s3;
    var o := (s.s0 - s.s1) / divisor;
    var a := (s.s4 + s.s5) / divisor;
    assert s.s0 - s.s1 == o * divisor;
    assert s.s4 + s.s5 == a * divisor;
    TranslationFits(a, -o, spOld.x, spOld.y, spNew.x);
    TranslationFits(o, a, spOld.x, spOld.y, spNew.y);
    Params(a, -o, spNew.x - a * spOld.x + o * spOld.y,
           o, a, spNew.y - o * spOld.x - a * spOld.y)
  }

  /**
    General-affine mode: the linear part solves the least-squares normal
    equations of the centroid-reduced points, and the translation carries the
    source centroid onto the target centroid.
  */
  function AffineFromSums(s: Sums, spOld: Point, spNew: Point): (r: Params)
    requires s.s0 * s.s1 - s.s2 * s.s2 != 0.0
    ensures SolvesNormal(s, r)
    ensures Apply(r, spOld) == spNew
  {
    var (a, b) := Cramer(s.s0, s.s1, s.s2, s.s3, s.s6);
    var (d, e) := Cramer(s.s0, s.s1, s.s2, s.s5, s.s4);
    TranslationFits(a, b, spOld.x, spOld.y, spNew.x);
    TranslationFits(d, e, spOld.x, spOld.y, spNew.y);
    Params(a, b, spNew.x - a * spOld.x - b * spOld.y,
           d, e, spNew.y - d * spOld.x - e * spOld.y)
  }

  /**
    The Java formulas for one row of the linear part, (s0·r1 - s2·r2)/divisor and
    -(s2·r1 - s1·r2)/divisor: the solution of [s1 s2; s2 s0]·(u, v) = (r1, r2).
  */
  function Cramer(s0: real, s1: real, s2: real, r1: real, r2: real): (uv: (real, real))
    requires s0 * s1 - s2 * s2 != 0.0
    ensures SolvesRow(s0, s1, s2, r1, r2, uv.0, uv.1)
  {
    var divisor := s0 * s1 - s2 * s2;
    var u := (s0 * r1 - s2 * r2) / divisor;
    var v := -(s2 * r1 - s1 * r2) / divisor;
    NormalEquations(s0, s1, s2, r1, r2, divisor, u, v);
    (u, v)
  }

  lemma TranslationFits(a: real, b: real, x: real, y: real, target: real)
    ensures a * x + b * y + (target - a * x - b * y) == target
    ensures a * x + (-b) * y + (target - a * x + b * y) == target
  {
  }

  /** Cramer's rule for the 2×2 normal equations [s1 s2; s2 s0]·(u, v) = (r1, r2). */
  lemma NormalEquations(s0: real, s1: real, s2: real, r1: real, r2: real, divisor: real, u: real, v: real)
    requires divisor == s0 * s1 - s2 * s2 && divisor != 0.0
    requires u == (s0 * r1 - s2 * r2) / divisor && v == -(s2 * r1 - s1 * r2) / divisor
    ensures s1 * u + s2 * v == r1 && s2 * u + s0 * v == r2
  {
    assert u * divisor == s0 * r1 - s2 * r2;
    assert v * divisor == s1 * r2 - s2 * r1;
    assert (s1 * u + s2 * v) * divisor == s1 * (u * divisor) + s2 * (v * divisor);
    assert (s2 * u + s0 * v) * divisor == s2 * (u * divisor) + s0 * (v * divisor);
    assert (s1 * u + s2 * v) * divisor == r1 * divisor;
    assert (s2 * u + s0 * v) * divisor == r2 * divisor;
    CancelFactor(s1 * u + s2 * v, r1, divisor);
    CancelFactor(s2 * u + s0 * v, r2, divisor);
  }

  lemma CancelFactor(u: real, v: real, k: real)
    requires u * k == v * k && k != 0.0
    ensures u == v
  {
    assert (u - v) * k == 0.0;
  }

  /**
    The exception the divisor test throws: the Helmert message is plain, the
    general-affine message carries the divisor, and either way it is below eps.
  */
  predicate DivisorFailure(e: FitError, helmert: bool, eps: real)
  {
    if helmert then e == NumericalError else e.SmallDivisor? && Abs(e.divisor) < eps
  }

  /**
    The coefficients from a set of sums and the two centroids: the divisor test
    and the closed-form solution, as in the body of the Java loop.
  */
  function Coefficients(s: Sums, helmert: bool, spOld: Point, spNew: Point, eps: real): (r: Result<Params, FitError>)
    requires eps > 0.0
    ensures r.Failure? <==> Abs(Divisor(s, helmert)) < eps
    ensures r.Failure? && helmert ==> r.error == NumericalError
    ensures r.Failure? && !helmert ==> r.error == SmallDivisor(Divisor(s, helmert))
    ensures r.Success? ==> Apply(r.value, spOld) == spNew
    ensures r.Success? && helmert ==> Conformal(r.value)
  {
    if Abs(Divisor(s, helmert)) < eps then
      (if helmert then Failure(NumericalError) else Failure(SmallDivisor(Divisor(s, helmert))))
    else if helmert then Success(HelmertFromSums(s, spOld, spNew))
    else Success(AffineFromSums(s, spOld, spNew))
  }

  /** The loop state: the running sums and the coefficients last assigned. */
  datatype LoopState = LoopState(sums: Sums, params: Params)

  /**
    The accumulation loop after its first n iterations: each iteration adds one
    point to the sums, tests the divisor and overwrites the coefficients.
  */
  function Loop(from: seq<Point>, to: seq<Point>, helmert: bool, eps: real, n: nat): (r: Result<LoopState, FitError>)
    requires 0 < |from| == |to| && n <= |from| && eps > 0.0
    ensures r.Success? ==> r.value.sums == MomentSums(from, to, helmert, n)
    ensures r.Success? && n > 0 ==>
              Coefficients(MomentSums(from, to, helmert, n), helmert, Centroid(from), Centroid(to), eps)
                == Success(r.value.params)
    ensures r.Failure? ==> DivisorFailure(r.error, helmert, eps)
  {
    if n == 0 then Success(LoopState(ZeroSums, ZeroParams))
    else
      match Loop(from, to, helmert, eps, n - 1)
      case Failure(e) => Failure(e)
      case Success(st) =>
        var s := Accumulate(st.sums, helmert, Reduced(from, n - 1), Reduced(to, n - 1));
        match Coefficients(s, helmert, Centroid(from), Centroid(to), eps)
        case Failure(e) => Failure(e)
        case Success(p) => Success(LoopState(s, p))
  }

  /** calcTransformMatrixN() as written, for N > 3. */
  function FitN(from: seq<Point>, to: seq<Point>, helmert: bool, eps: real): (r: Result<Params, FitError>)
    requires 3 < |from| == |to| && eps > 0.0
    ensures r.Success? ==> Apply(r.value, Centroid(from)) == Centroid(to)
    ensures r.Success? && helmert ==> Conformal(r.value)
    ensures r.Failure? ==> DivisorFailure(r.error, helmert, eps)
  {
    match Loop(from, to, helmert, eps, |from|)
    case Failure(e) => Failure(e)
    case Success(st) => Success(st.params)
  }

  /** The evidently intended N > 3 fit: all sums first, then one divisor test and one solution. */
  function FitNCorrected(from: seq<Point>, to: seq<Point>, helmert: bool, eps: real): (r: Result<Params, FitError>)
    requires 3 < |from| == |to| && eps > 0.0
    ensures r.Success? ==> Apply(r.value, Centroid(from)) == Centroid(to)
    ensures r.Success? && helmert ==> Conformal(r.value)
  {
    Coefficients(MomentSums(from, to, helmert, |from|), helmert, Centroid(from), Centroid(to), eps)
  }

  // ---------------------------------------------------------------------------
  // The constructor
  // ---------------------------------------------------------------------------

  /** start(): validation, then the three-point system or the N > 3 closed form. */
  function Fit(from: seq<Point>, to: seq<Point>, helmert: bool): (r: Result<Params, FitError>)
    ensures |from| < 3 ==> r == Failure(IdPointsExpected)
    ensures |from| >= 3 && |from| != |to| ==> r == Failure(CountMismatch)
    ensures |from| == 3 == |to| ==> r == Fit3(from, to)
    ensures 3 < |from| == |to| ==> r == FitN(from, to, helmert, AffineEps)
  {
    if |from| < 3 then Failure(IdPointsExpected)
    else if |from| != |to| then Failure(CountMismatch)
    else if |from| == 3 then Fit3(from, to)
    else FitN(from, to, helmert, AffineEps)
  }

  /** The same constructor with the corrected N > 3 path. */
  function FitCorrected(from: seq<Point>, to: seq<Point>, helmert: bool): (r: Result<Params, FitError>)
    ensures |from| < 3 ==> r == Failure(IdPointsExpected)
    ensures |from| >= 3 && |from| != |to| ==> r == Failure(CountMismatch)
    ensures |from| == 3 == |to| ==> r == Fit3(from, to)
    ensures 3 < |from| == |to| ==> r == FitNCorrected(from, to, helmert, AffineEps)
  {
    if |from| < 3 then Failure(IdPointsExpected)
    else if |from| != |to| then Failure(CountMismatch)
    else if |from| == 3 then Fit3(from, to)
    else FitNCorrected(from, to, helmert, AffineEps)
  }

  // ---------------------------------------------------------------------------
  // transform
  // ---------------------------------------------------------------------------

  /** An affine map preserves affine combinations: the image of a point on a line is the same combination of the images. */
  lemma ApplyPreservesCombinations(t: Params, p: Point, q: Point, s: real)
    ensures Apply(t, Point(p.x + s * (q.x - p.x), p.y + s * (q.y - p.y)))
         == Point(Apply(t, p).x + s * (Apply(t, q).x - Apply(t, p).x),
                  Apply(t, p).y + s * (Apply(t, q).y - Apply(t, p).y))
  {
    CombinationX(t, p, q, s);
    CombinationY(t, p, q, s);
  }

  lemma CombinationX(t: Params, p: Point, q: Point, s: real)
    ensures Apply(t, Point(p.x + s * (q.x - p.x), p.y + s * (q.y - p.y))).x
         == Apply(t, p).x + s * (Apply(t, q).x - Apply(t, p).x)
  {
    CombinationTerm(t.a, t.b, t.c, p.x, p.y, q.x, q.y, s);
  }

  lemma CombinationY(t: Params, p: Point, q: Point, s: real)
    ensures Apply(t, Point(p.x + s * (q.x - p.x), p.y + s * (q.y - p.y))).y
         == Apply(t, p).y + s * (Apply(t, q).y - Apply(t, p).y)
  {
    CombinationTerm(t.d, t.e, t.f, p.x, p.y, q.x, q.y, s);
  }

  lemma CombinationTerm(a: real, b: real, c: real, px: real, py: real, qx: real, qy: real, s: real)
    ensures a * (px + s * (qx - px)) + b * (py + s * (qy - py)) + c
         == (a * px + b * py + c) + s * ((a * qx + b * qy + c) - (a * px + b * py + c))
  {
    assert a * (s * (qx - px)) == s * (a * qx - a * px);
    assert b * (s * (qy - py)) == s * (b * qy - b * py);
  }

  // ---------------------------------------------------------------------------
  // Three id-points
  // ---------------------------------------------------------------------------

  lemma Dot6(row: seq<real>, v: seq<real>)
    requires |row| == 7 && |v| == 6
    ensures Dot(row, v, 6) == row[0] * v[0] + row[1] * v[1] + row[2] * v[2] + row[3] * v[3] + row[4] * v[4] + row[5] * v[5]
  {
    assert Dot(row, v, 1) == row[0] * v[0];
    assert Dot(row, v, 2) == Dot(row, v, 1) + row[1] * v[1];
    assert Dot(row, v, 3) == Dot(row, v, 2) + row[2] * v[2];
    assert Dot(row, v, 4) == Dot(row, v, 3) + row[3] * v[3];
    assert Dot(row, v, 5) == Dot(row, v, 4) + row[4] * v[4];
  }

  /** The two equations of one pair hold exactly when the transform maps that pair's point onto its target. */
  lemma PairMeaning(p: Point, q: Point, t: Params)
    ensures RowHolds(XRow(p, q), AsVector(t)) && RowHolds(YRow(p, q), AsVector(t)) <==> Apply(t, p) == q
  {
    Dot6(XRow(p, q), AsVector(t));
    Dot6(YRow(p, q), AsVector(t));
  }

  /** The 6×7 system holds for a coefficient vector exactly when it maps the three id-points onto their targets. */
  lemma System3Meaning(from: seq<Point>, to: seq<Point>, t: Params)
    requires |from| == 3 && |to| == 3
    ensures Solves(System3(from, to), AsVector(t)) <==> FitsAll(t, from, to)
  {
    var m := System3(from, to);
    var v := AsVector(t);
    forall i | 0 <= i < 3
      ensures RowHolds(m[2 * i], v) && RowHolds(m[2 * i + 1], v) <==> Apply(t, from[i]) == to[i]
    {
      PairMeaning(from[i], to[i], t);
    }
    if FitsAll(t, from, to) {
      forall r | 0 <= r < 6
        ensures RowHolds(m[r], v)
      {
        assert r == 2 * (r / 2) || r == 2 * (r / 2) + 1;
      }
    }
  }

  /** A successful three-point fit is the solver's solution of the 6×7 system. */
  lemma Fit3SolvesSystem(from: seq<Point>, to: seq<Point>)
    requires |from| == 3 && |to| == 3 && Fit3(from, to).Success?
    ensures GaussJordan(System3(from, to), DefaultEps) == Success(AsVector(Fit3(from, to).value))
  {
  }

  /** With three id-points the fit is exact, and no other coefficients are. */
  lemma Fit3Exact(from: seq<Point>, to: seq<Point>)
    requires |from| == 3 && |to| == 3 && Fit3(from, to).Success?
    ensures FitsAll(Fit3(from, to).value, from, to)
    ensures forall t :: FitsAll(t, from, to) ==> t == Fit3(from, to).value
  {
    var t := Fit3(from, to).value;
    Fit3SolvesSystem(from, to);
    SolutionSolves(System3(from, to), DefaultEps);
    System3Meaning(from, to, t);
    forall t' | FitsAll(t', from, to)
      ensures t' == t
    {
      System3Meaning(from, to, t');
      SolutionIsUnique(System3(from, to), DefaultEps, AsVector(t'));
    }
  }

  /** p, q and r lie on one line (coincident points included). */
  predicate Collinear(p: Point, q: Point, r: Point)
  {
    (q.x - p.x) * (r.y - p.y) == (q.y - p.y) * (r.x - p.x)
  }

  lemma CollinearWeights(p: Point, q: Point, r: Point)
    requires Collinear(p, q, r)
    ensures (q.x - r.x) * p.y + (r.x - p.x) * q.y + (p.x - q.x) * r.y == 0.0
    ensures (q.y - r.y) * p.x + (r.y - p.y) * q.x + (p.y - q.y) * r.x == 0.0
  {
    assert (q.x - r.x) * p.y + (r.x - p.x) * q.y + (p.x - q.x) * r.y
        == (q.y - p.y) * (r.x - p.x) - (q.x - p.x) * (r.y - p.y);
    assert (q.y - r.y) * p.x + (r.y - p.y) * q.x + (p.y - q.y) * r.x
        == (q.x - p.x) * (r.y - p.y) - (q.y - p.y) * (r.x - p.x);
  }

  lemma CyclicWeights(u: real, v: real, w: real)
    ensures (v - w) * u + (w - u) * v + (u - v) * w == 0.0
  {
  }

  /**
    Weights l on the x-equations (rows 0, 2, 4) that sum to zero and annihilate
    both coordinate columns make the rows of the 6×7 system dependent.
  */
  lemma XRowsDependent(from: seq<Point>, to: seq<Point>, l0: real, l1: real, l2: real)
    requires |from| == 3 && |to| == 3 && (l0 != 0.0 || l1 != 0.0)
    requires l0 + l1 + l2 == 0.0
    requires l0 * from[0].x + l1 * from[1].x + l2 * from[2].x == 0.0
    requires l0 * from[0].y + l1 * from[1].y + l2 * from[2].y == 0.0
    ensures DependentWith(System3(from, to), [l0, 0.0, l1, 0.0, l2, 0.0])
  {
    var m := System3(from, to);
    var lam := [l0, 0.0, l1, 0.0, l2, 0.0];
    assert m[0] == XRow(from[0], to[0]) && m[2] == XRow(from[1], to[1]) && m[4] == XRow(from[2], to[2]);
    assert !IsZero(lam) by {
      if l0 != 0.0 { assert lam[0] != 0.0; } else { assert lam[2] != 0.0; }
    }
    forall c | 0 <= c < 6
      ensures Combination(m, lam, c, 6) == 0.0
    {
      CombinationOfThree(m, lam, 0, 2, 4, c);
      assert Combination(m, lam, c, 6) == l0 * m[0][c] + l1 * m[2][c] + l2 * m[4][c];
    }
  }

  /**
    Three collinear source points make the x-equations linearly dependent: the
    three-point fit fails whatever the targets.
  */
  lemma CollinearFails(from: seq<Point>, to: seq<Point>)
    requires |from| == 3 && |to| == 3 && Collinear(from[0], from[1], from[2])
    ensures Fit3(from, to).Failure? && Fit3(from, to).error.Unsolvable?
  {
    var m := System3(from, to);
    var p, q, r := from[0], from[1], from[2];
    CollinearWeights(p, q, r);
    if p == q {
      assert m[0] == XRow(p, to[0]) && m[2] == XRow(q, to[1]);
      RepeatedRowsFail(m, 0, 2, DefaultEps);
    } else if p.x != q.x || q.x != r.x {
      CyclicWeights(p.x, q.x, r.x);
      XRowsDependent(from, to, q.x - r.x, r.x - p.x, p.x - q.x);
      GaussJordanDependentFails(m, DefaultEps);
    } else {
      CyclicWeights(p.y, q.y, r.y);
      XRowsDependent(from, to, q.y - r.y, r.y - p.y, p.y - q.y);
      GaussJordanDependentFails(m, DefaultEps);
    }
  }

  // ---------------------------------------------------------------------------
  // The N > 3 loop as written
  // ---------------------------------------------------------------------------

  /** Every prefix of 1 .. n points passes the divisor test. */
  predicate PrefixesPass(from: seq<Point>, to: seq<Point>, helmert: bool, eps: real, n: nat)
    requires 0 < |from| == |to| && n <= |from|
  {
    forall k :: 1 <= k <= n ==> Abs(Divisor(MomentSums(from, to, helmert, k), helmert)) >= eps
  }

  /** Once an iteration throws, the loop's outcome is that exception, whatever follows. */
  lemma {:induction false} LoopFailurePersists(from: seq<Point>, to: seq<Point>, helmert: bool, eps: real, k: nat, n: nat)
    requires 0 < |from| == |to| && k <= n <= |from| && eps > 0.0
    requires Loop(from, to, helmert, eps, k).Failure?
    ensures Loop(from, to, helmert, eps, n) == Loop(from, to, helmert, eps, k)
    decreases n
  {
    if n > k {
      LoopFailurePersists(from, to, helmert, eps, k, n - 1);
    }
  }

  /** The loop survives n points exactly when the divisor test passed after each of them. */
  lemma {:induction false} LoopSucceedsIff(from: seq<Point>, to: seq<Point>, helmert: bool, eps: real, n: nat)
    requires 0 < |from| == |to| && n <= |from| && eps > 0.0
    ensures Loop(from, to, helmert, eps, n).Success? <==> PrefixesPass(from, to, helmert, eps, n)
  {
    if n > 0 {
      LoopSucceedsIff(from, to, helmert, eps, n - 1);
      var prev := Loop(from, to, helmert, eps, n - 1);
      if prev.Success? {
        assert Accumulate(prev.value.sums, helmert, Reduced(from, n - 1), Reduced(to, n - 1))
            == MomentSums(from, to, helmert, n);
      }
      if PrefixesPass(from, to, helmert, eps, n) {
        assert PrefixesPass(from, to, helmert, eps, n - 1);
      }
    }
  }

  /** The product of the first point's sums cancels: dy²·dx² - (dx·dy)² = 0. */
  lemma FirstAffineDivisorVanishes(p: Point, q: Point)
    ensures Divisor(Accumulate(ZeroSums, false, p, q), false) == 0.0
  {
    assert (0.0 + p.y * p.y) * (0.0 + p.x * p.x) == (0.0 + p.x * p.y) * (0.0 + p.x * p.y);
  }

  /**
    As written, general-affine mode tests the divisor after the first point,
    where over the reals it is exactly zero: every fit with more than three
    id-points fails. In doubles that value is rounding noise instead, so the
    outcome there depends on whether the noise reaches eps.
  */
  lemma GeneralAffineNAlwaysFails(from: seq<Point>, to: seq<Point>, eps: real)
    requires 3 < |from| == |to| && eps > 0.0
    ensures FitN(from, to, false, eps) == Failure(SmallDivisor(0.0))
  {
    FirstAffineDivisorVanishes(Reduced(from, 0), Reduced(to, 0));
    assert MomentSums(from, to, false, 1) == Accumulate(ZeroSums, false, Reduced(from, 0), Reduced(to, 0));
    assert Loop(from, to, false, eps, 1) == Failure(SmallDivisor(0.0));
    LoopFailurePersists(from, to, false, eps, 1, |from|);
  }

  /** The same through the constructor: over the reals, more than three id-points in general-affine mode never fit. */
  lemma GeneralAffineFitFails(from: seq<Point>, to: seq<Point>)
    requires 3 < |from| == |to|
    ensures Fit(from, to, false) == Failure(SmallDivisor(0.0))
  {
    GeneralAffineNAlwaysFails(from, to, AffineEps);
  }

  // ---------------------------------------------------------------------------
  // Data that an affine map fits exactly
  // ---------------------------------------------------------------------------

  /** Σx' over the first n targets is the first row of t applied to the source sums (with n times C). */
  predicate ImageSumsX(t: Params, from: seq<Point>, to: seq<Point>, n: nat)
    requires |from| == |to| && n <= |from|
  {
    SumX(to, n) == t.a * SumX(from, n) + t.b * SumY(from, n) + (n as real) * t.c
  }

  /** Σy' over the first n targets is the second row of t applied to the source sums (with n times F). */
  predicate ImageSumsY(t: Params, from: seq<Point>, to: seq<Point>, n: nat)
    requires |from| == |to| && n <= |from|
  {
    SumY(to, n) == t.d * SumX(from, n) + t.e * SumY(from, n) + (n as real) * t.f
  }

  /** The sums of the first n target points are t applied to the source sums. */
  predicate ImageSums(t: Params, from: seq<Point>, to: seq<Point>, n: nat)
    requires |from| == |to| && n <= |from|
  {
    ImageSumsX(t, from, to, n) && ImageSumsY(t, from, to, n)
  }

  lemma {:induction false} SumsOfImage(t: Params, from: seq<Point>, to: seq<Point>, n: nat)
    requires |from| == |to| && n <= |from| && FitsAll(t, from, to)
    ensures ImageSums(t, from, to, n)
  {
    if n > 0 {
      SumsOfImage(t, from, to, n - 1);
      assert to[n - 1] == Apply(t, from[n - 1]);
      ImageSumsStepX(t, from, to, n);
      ImageSumsStepY(t, from, to, n);
    }
  }

  lemma ImageSumsStepX(t: Params, from: seq<Point>, to: seq<Point>, n: nat)
    requires |from| == |to| && 0 < n <= |from| && ImageSumsX(t, from, to, n - 1)
    requires to[n - 1].x == t.a * from[n - 1].x + t.b * from[n - 1].y + t.c
    ensures ImageSumsX(t, from, to, n)
  {
    AddOneTerm(t.a, t.b, t.c, SumX(from, n - 1), SumY(from, n - 1), (n - 1) as real, from[n - 1].x, from[n - 1].y,
               SumX(to, n - 1), to[n - 1].x, SumX(from, n), SumY(from, n), n as real);
  }

  lemma ImageSumsStepY(t: Params, from: seq<Point>, to: seq<Point>, n: nat)
    requires |from| == |to| && 0 < n <= |from| && ImageSumsY(t, from, to, n - 1)
    requires to[n - 1].y == t.d * from[n - 1].x + t.e * from[n - 1].y + t.f
    ensures ImageSumsY(t, from, to, n)
  {
    AddOneTerm(t.d, t.e, t.f, SumX(from, n - 1), SumY(from, n - 1), (n - 1) as real, from[n - 1].x, from[n - 1].y,
               SumY(to, n - 1), to[n - 1].y, SumX(from, n), SumY(from, n), n as real);
  }

  lemma AddOneTerm(a: real, b: real, c: real, sx: real, sy: real, k: real, x: real, y: real, total: real, u: real,
                   sx': real, sy': real, k': real)
    requires total == a * sx + b * sy + k * c && u == a * x + b * y + c
    requires sx' == sx + x && sy' == sy + y && k' == k + 1.0
    ensures total + u == a * sx' + b * sy' + k' * c
  {
  }

  /** An affine map carries the centroid of the source points onto the centroid of their images. */
  lemma CentroidOfImage(t: Params, from: seq<Point>, to: seq<Point>)
    requires 0 < |from| == |to| && FitsAll(t, from, to)
    ensures Centroid(to) == Apply(t, Centroid(from))
  {
    SumsOfImage(t, from, to, |from|);
    CentroidX(t, from, to);
    CentroidY(t, from, to);
  }

  lemma CentroidX(t: Params, from: seq<Point>, to: seq<Point>)
    requires 0 < |from| == |to| && ImageSumsX(t, from, to, |from|)
    ensures Centroid(to).x == t.a * Centroid(from).x + t.b * Centroid(from).y + t.c
  {
    var c, c' := Centroid(from), Centroid(to);
    CentroidLine(t.a, t.b, t.c, c.x, c.y, c'.x, SumX(from, |from|), SumY(from, |from|), SumX(to, |from|), |from| as real);
  }

  lemma CentroidY(t: Params, from: seq<Point>, to: seq<Point>)
    requires 0 < |from| == |to| && ImageSumsY(t, from, to, |from|)
    ensures Centroid(to).y == t.d * Centroid(from).x + t.e * Centroid(from).y + t.f
  {
    var c, c' := Centroid(from), Centroid(to);
    CentroidLine(t.d, t.e, t.f, c.x, c.y, c'.y, SumX(from, |from|), SumY(from, |from|), SumY(to, |from|), |from| as real);
  }

  lemma CentroidLine(a: real, b: real, c: real, cx: real, cy: real, target: real,
                     sx: real, sy: real, st: real, n: real)
    requires n > 0.0 && cx * n == sx && cy * n == sy && target * n == st && st == a * sx + b * sy + n * c
    ensures target == a * cx + b * cy + c
  {
    assert (a * cx + b * cy + c) * n == a * (cx * n) + b * (cy * n) + n * c;
    CancelFactor(target, a * cx + b * cy + c, n);
  }

  /** q is the image of p under the linear part of t. */
  predicate LinearImage(t: Params, p: Point, q: Point)
  {
    q == Point(t.a * p.x + t.b * p.y, t.d * p.x + t.e * p.y)
  }

  /** Reduced to the centroids, an exactly fitted target is the linear part applied to the reduced source. */
  lemma ReducedImage(t: Params, from: seq<Point>, to: seq<Point>, i: nat)
    requires 0 < |from| == |to| && i < |from| && FitsAll(t, from, to)
    ensures LinearImage(t, Reduced(from, i), Reduced(to, i))
  {
    CentroidOfImage(t, from, to);
    assert to[i] == Apply(t, from[i]);
    var c := Centroid(from);
    LinearDifference(t.a, t.b, t.c, from[i].x, from[i].y, c.x, c.y);
    LinearDifference(t.d, t.e, t.f, from[i].x, from[i].y, c.x, c.y);
  }

  lemma LinearDifference(a: real, b: real, c: real, x: real, y: real, cx: real, cy: real)
    ensures (a * x + b * y + c) - (a * cx + b * cy + c) == a * (x - cx) + b * (y - cy)
  {
  }

  /** (u, v) solves the 2×2 normal equations [s1 s2; s2 s0]·(u, v) = (r1, r2). */
  predicate SolvesRow(s0: real, s1: real, s2: real, r1: real, r2: real, u: real, v: real)
  {
    s1 * u + s2 * v == r1 && s2 * u + s0 * v == r2
  }

  /** (A, B) solves the normal equations of the x-coordinates: [Σdx² Σdxdy; Σdxdy Σdy²]·(A, B) = (Σdx·dx', Σdy·dx'). */
  predicate FirstRowSolves(s: Sums, t: Params)
  {
    SolvesRow(s.s0, s.s1, s.s2, s.s3, s.s6, t.a, t.b)
  }

  /** (D, E) solves the normal equations of the y-coordinates: [Σdx² Σdxdy; Σdxdy Σdy²]·(D, E) = (Σdx·dy', Σdy·dy'). */
  predicate SecondRowSolves(s: Sums, t: Params)
  {
    SolvesRow(s.s0, s.s1, s.s2, s.s5, s.s4, t.d, t.e)
  }

  /** The linear part of t solves the general-affine normal equations built from the sums s. */
  predicate SolvesNormal(s: Sums, t: Params)
  {
    FirstRowSolves(s, t) && SecondRowSolves(s, t)
  }

  /** The general-affine sums of exactly fitted data satisfy the normal equations with the true linear part. */
  lemma {:induction false} AffineSumsRelations(t: Params, from: seq<Point>, to: seq<Point>, n: nat)
    requires 0 < |from| == |to| && n <= |from| && FitsAll(t, from, to)
    ensures SolvesNormal(MomentSums(from, to, false, n), t)
  {
    if n > 0 {
      AffineSumsRelations(t, from, to, n - 1);
      ReducedImage(t, from, to, n - 1);
      NormalSumsStep(MomentSums(from, to, false, n - 1), t, Reduced(from, n - 1), Reduced(to, n - 1));
    }
  }

  lemma NormalSumsStep(s: Sums, t: Params, p: Point, q: Point)
    requires SolvesNormal(s, t) && LinearImage(t, p, q)
    ensures SolvesNormal(Accumulate(s, false, p, q), t)
  {
    FirstRowStep(s, t, p, q);
    SecondRowStep(s, t, p, q);
  }

  lemma FirstRowStep(s: Sums, t: Params, p: Point, q: Point)
    requires FirstRowSolves(s, t) && q.x == t.a * p.x + t.b * p.y
    ensures FirstRowSolves(Accumulate(s, false, p, q), t)
  {
    NormalRowStep(s.s0, s.s1, s.s2, s.s3, s.s6, t.a, t.b, p.x, p.y, q.x);
  }

  lemma SecondRowStep(s: Sums, t: Params, p: Point, q: Point)
    requires SecondRowSolves(s, t) && q.y == t.d * p.x + t.e * p.y
    ensures SecondRowSolves(Accumulate(s, false, p, q), t)
  {
    NormalRowStep(s.s0, s.s1, s.s2, s.s5, s.s4, t.d, t.e, p.x, p.y, q.y);
  }

  /** Adding one point (x, y) with image w = u·x + v·y keeps one row of the normal equations. */
  lemma NormalRowStep(s0: real, s1: real, s2: real, r1: real, r2: real, u: real, v: real, x: real, y: real, w: real)
    requires SolvesRow(s0, s1, s2, r1, r2, u, v) && w == u * x + v * y
    ensures SolvesRow(s0 + y * y, s1 + x * x, s2 + x * y, r1 + x * w, r2 + y * w, u, v)
  {
  }

  /** The normal equations have one solution when their determinant is non-zero. */
  lemma NormalUnique(s0: real, s1: real, s2: real, u: real, v: real, u': real, v': real)
    requires s0 * s1 - s2 * s2 != 0.0
    requires s1 * u + s2 * v == s1 * u' + s2 * v' && s2 * u + s0 * v == s2 * u' + s0 * v'
    ensures u == u' && v == v'
  {
    var du, dv := u - u', v - v';
    assert s1 * du + s2 * dv == 0.0 && s2 * du + s0 * dv == 0.0;
    assert du * (s0 * s1 - s2 * s2) == s0 * (s1 * du + s2 * dv) - s2 * (s2 * du + s0 * dv);
    assert dv * (s0 * s1 - s2 * s2) == s1 * (s2 * du + s0 * dv) - s2 * (s1 * du + s2 * dv);
    CancelFactor(du, 0.0, s0 * s1 - s2 * s2);
    CancelFactor(dv, 0.0, s0 * s1 - s2 * s2);
  }

  /** Two solutions of the same non-degenerate normal equations share their linear part. */
  lemma NormalSolutionUnique(s: Sums, r: Params, t: Params)
    requires Divisor(s, false) != 0.0 && SolvesNormal(s, r) && SolvesNormal(s, t)
    ensures r.a == t.a && r.b == t.b && r.d == t.d && r.e == t.e
  {
    NormalUnique(s.s0, s.s1, s.s2, r.a, r.b, t.a, t.b);
    NormalUnique(s.s0, s.s1, s.s2, r.d, r.e, t.d, t.e);
  }

  /** The linear part and the image of one point determine the whole affine map. */
  lemma SameLinearPartSameMap(r: Params, t: Params, p: Point)
    requires r.a == t.a && r.b == t.b && r.d == t.d && r.e == t.e && Apply(r, p) == Apply(t, p)
    ensures r == t
  {
  }

  /** The successful corrected general-affine fit solves the normal equations of all the sums. */
  lemma CorrectedAffine(from: seq<Point>, to: seq<Point>, eps: real) returns (r: Params)
    requires 3 < |from| == |to| && eps > 0.0
    requires Abs(Divisor(MomentSums(from, to, false, |from|), false)) >= eps
    ensures FitNCorrected(from, to, false, eps) == Success(r)
    ensures Divisor(MomentSums(from, to, false, |from|), false) != 0.0
    ensures SolvesNormal(MomentSums(from, to, false, |from|), r)
    ensures Apply(r, Centroid(from)) == Centroid(to)
  {
    r := AffineCoefficients(MomentSums(from, to, false, |from|), Centroid(from), Centroid(to), eps);
  }

  /** A general-affine divisor that passes the test yields the closed-form solution. */
  lemma AffineCoefficients(s: Sums, spOld: Point, spNew: Point, eps: real) returns (r: Params)
    requires eps > 0.0 && Abs(Divisor(s, false)) >= eps
    ensures Coefficients(s, false, spOld, spNew, eps) == Success(r)
    ensures Divisor(s, false) != 0.0
    ensures SolvesNormal(s, r) && Apply(r, spOld) == spNew
  {
    r := AffineFromSums(s, spOld, spNew);
  }

  /**
    The corrected general-affine fit recovers any affine map from data it fits
    exactly, as long as the point cloud passes the divisor test.
  */
  lemma CorrectedRecoversAffine(t: Params, from: seq<Point>, to: seq<Point>, eps: real)
    requires 3 < |from| == |to| && eps > 0.0 && FitsAll(t, from, to)
    requires Abs(Divisor(MomentSums(from, to, false, |from|), false)) >= eps
    ensures FitNCorrected(from, to, false, eps) == Success(t)
  {
    var s := MomentSums(from, to, false, |from|);
    var r := CorrectedAffine(from, to, eps);
    AffineSumsRelations(t, from, to, |from|);
    NormalSolutionUnique(s, r, t);
    CentroidOfImage(t, from, to);
    SameLinearPartSameMap(r, t, Centroid(from));
  }

  // ---------------------------------------------------------------------------
  // standardDeviation(), kept squared
  // ---------------------------------------------------------------------------

  /** The squared residual of pair i: |to[i] - t(from[i])|². */
  function SquaredResidual(t: Params, p: Point, q: Point): (r: real)
    ensures r >= 0.0
  {
    var u := Apply(t, p);
    (q.x - u.x) * (q.x - u.x) + (q.y - u.y) * (q.y - u.y)
  }

  /** The sum of the squared residuals of the first n pairs, accumulated front to back. */
  function ResidualSum(t: Params, from: seq<Point>, to: seq<Point>, n: nat): (r: real)
    requires |from| == |to| && n <= |from|
    ensures r >= 0.0
  {
    if n == 0 then 0.0 else ResidualSum(t, from, to, n - 1) + SquaredResidual(t, from[n - 1], to[n - 1])
  }

  /** The redundancy the Java divides by: 2N - 4 in Helmert mode, 2N - 6 in general-affine mode. */
  function Redundancy(n: nat, helmert: bool): (r: int)
    ensures n > 3 ==> r >= 2
  {
    if helmert then 2 * n - 4 else 2 * n - 6
  }

  /**
    The square of standardDeviation(): zero for N <= 3, otherwise the residual
    sum divided by the redundancy (the square root is left out).
  */
  function Variance(t: Params, from: seq<Point>, to: seq<Point>, helmert: bool): (v: real)
    requires |from| == |to|
    ensures |from| <= 3 ==> v == 0.0
    ensures |from| > 3 ==> v * (Redundancy(|from|, helmert) as real) == ResidualSum(t, from, to, |from|)
    ensures v >= 0.0
  {
    if |from| <= 3 then 0.0
    else ResidualSum(t, from, to, |from|) / (Redundancy(|from|, helmert) as real)
  }

  /** The residual of a pair that t maps exactly is zero. */
  lemma ExactResidualZero(t: Params, p: Point, q: Point)
    requires Apply(t, p) == q
    ensures SquaredResidual(t, p, q) == 0.0
  {
  }

  /** The residual sum of the first n pairs vanishes exactly when each of their squared residuals does. */
  lemma {:induction false} ResidualSumZero(t: Params, from: seq<Point>, to: seq<Point>, n: nat)
    requires |from| == |to| && n <= |from|
    ensures ResidualSum(t, from, to, n) == 0.0 <==>
              forall i :: 0 <= i < n ==> SquaredResidual(t, from[i], to[i]) == 0.0
  {
    if n > 0 {
      ResidualSumZero(t, from, to, n - 1);
    }
  }

  /**
    With more than three pairs, the standard deviation is zero exactly when
    every pair's squared residual is zero; in particular it is zero when t
    fits all pairs.
  */
  lemma VarianceZeroIffResidualsZero(t: Params, from: seq<Point>, to: seq<Point>, helmert: bool)
    requires 3 < |from| == |to|
    ensures Variance(t, from, to, helmert) == 0.0 <==>
              forall i :: 0 <= i < |from| ==> SquaredResidual(t, from[i], to[i]) == 0.0
    ensures FitsAll(t, from, to) ==> Variance(t, from, to, helmert) == 0.0
  {
    ResidualSumZero(t, from, to, |from|);
    var v := Variance(t, from, to, helmert);
    if v == 0.0 {
      assert ResidualSum(t, from, to, |from|) == 0.0;
    }
    if FitsAll(t, from, to) {
      forall i | 0 <= i < |from|
        ensures SquaredResidual(t, from[i], to[i]) == 0.0
      {
        ExactResidualZero(t, from[i], to[i]);
      }
    }
  }
}

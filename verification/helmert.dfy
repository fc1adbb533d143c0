/**
  transformations/HelmertTransform.java: the affine estimator run in Helmert
  (similarity) mode, x' = a·x - o·y + C, y' = o·x + a·y + F. The class only
  sets the mode flag; everything else is the affine estimator's.
*/
module HelmertTransform {
  import opened Base
  import opened Matrices
  import opened Points
  import opened LinearEquationSystem
  import opened AffineTransform

  /**
    The constructor: the affine fit with the Helmert flag set. The point-count
    checks are the affine ones; three pairs go through the general 6×7 system
    whatever the flag; more pairs give a conformal map that carries the source
    centroid onto the target centroid.
  */
  function Fit(from: seq<Point>, to: seq<Point>): (r: Result<Params, FitError>)
    ensures |from| < 3 ==> r == Failure(IdPointsExpected)
    ensures |from| >= 3 && |from| != |to| ==> r == Failure(CountMismatch)
    ensures |from| == 3 == |to| ==> r == AffineTransform.Fit(from, to, false)
    ensures 3 < |from| == |to| && r.Success? ==>
              Conformal(r.value) && Apply(r.value, Centroid(from)) == Centroid(to)
  {
    AffineTransform.Fit(from, to, true)
  }

  // ---------------------------------------------------------------------------
  // The running divisor Σdx² + Σdy² never decreases
  // ---------------------------------------------------------------------------

  /** The spread of the first reduced source point: its squared distance from the centroid. */
  function FirstSpread(from: seq<Point>): (d: real)
    requires 0 < |from|
    ensures d >= 0.0
  {
    var p := Reduced(from, 0);
    SquareNonNegative(p.x);
    SquareNonNegative(p.y);
    p.x * p.x + p.y * p.y
  }

  /** Adding a point never decreases the Helmert divisor. */
  lemma DivisorStep(s: Sums, p: Point, q: Point)
    ensures Divisor(Accumulate(s, true, p, q), true) >= Divisor(s, true)
  {
    SquareNonNegative(p.x);
    SquareNonNegative(p.y);
  }

  /** After k >= 1 points the Helmert divisor is at least the first point's spread. */
  lemma {:induction false} DivisorAtLeastFirst(from: seq<Point>, to: seq<Point>, k: nat)
    requires 0 < |from| == |to| && 1 <= k <= |from|
    ensures Divisor(MomentSums(from, to, true, k), true) >= FirstSpread(from)
  {
    if k == 1 {
      var p := Reduced(from, 0);
      assert MomentSums(from, to, true, 1) == Accumulate(ZeroSums, true, p, Reduced(to, 0));
    } else {
      DivisorAtLeastFirst(from, to, k - 1);
      DivisorStep(MomentSums(from, to, true, k - 1), Reduced(from, k - 1), Reduced(to, k - 1));
    }
  }

  /** The divisor after the first point is exactly the first point's spread. */
  lemma FirstDivisor(from: seq<Point>, to: seq<Point>)
    requires 0 < |from| == |to|
    ensures Divisor(MomentSums(from, to, true, 1), true) == FirstSpread(from)
  {
    assert MomentSums(from, to, true, 1) == Accumulate(ZeroSums, true, Reduced(from, 0), Reduced(to, 0));
  }

  /**
    As written, Helmert mode fails exactly when the first id-point lies within
    sqrt(eps) of the source centroid: the running divisor never decreases, so
    the test after the first point is the only one that can fail.
  */
  lemma FailsIffFirstPointClose(from: seq<Point>, to: seq<Point>, eps: real)
    requires 3 < |from| == |to| && eps > 0.0
    ensures FitN(from, to, true, eps).Failure? <==> FirstSpread(from) < eps
  {
    LoopSucceedsIff(from, to, true, eps, |from|);
    FirstDivisor(from, to);
    if FirstSpread(from) >= eps {
      forall k | 1 <= k <= |from|
        ensures Abs(Divisor(MomentSums(from, to, true, k), true)) >= eps
      {
        DivisorAtLeastFirst(from, to, k);
      }
    } else {
      assert Abs(Divisor(MomentSums(from, to, true, 1), true)) < eps;
    }
  }

  // ---------------------------------------------------------------------------
  // The coefficients of a successful fit
  // ---------------------------------------------------------------------------

  /**
    The full-sum Helmert solution: a·(Σdx² + Σdy²) = Σ(dx·dx' + dy·dy') and
    o·(Σdx² + Σdy²) = Σ(dx·dy' - dy·dx'), with A = E = a and B = -D = -o.
  */
  lemma CorrectedHelmert(from: seq<Point>, to: seq<Point>, eps: real) returns (r: Params)
    requires 3 < |from| == |to| && eps > 0.0
    requires Abs(Divisor(MomentSums(from, to, true, |from|), true)) >= eps
    ensures FitNCorrected(from, to, true, eps) == Success(r)
    ensures Divisor(MomentSums(from, to, true, |from|), true) != 0.0
    ensures SimilaritySums(MomentSums(from, to, true, |from|), r)
    ensures Conformal(r) && Apply(r, Centroid(from)) == Centroid(to)
  {
    var s := MomentSums(from, to, true, |from|);
    assert Divisor(s, true) != 0.0;
    r := HelmertFromSums(s, Centroid(from), Centroid(to));
  }

  /**
    When the loop survives all points, the coefficients it leaves are those of
    the full sums: the values of earlier iterations are overwritten.
  */
  lemma FinalEqualsFullSums(from: seq<Point>, to: seq<Point>, eps: real)
    requires 3 < |from| == |to| && eps > 0.0 && FitN(from, to, true, eps).Success?
    ensures Abs(Divisor(MomentSums(from, to, true, |from|), true)) >= eps
    ensures FitN(from, to, true, eps) == FitNCorrected(from, to, true, eps)
  {
    var st := Loop(from, to, true, eps, |from|);
    assert st.Success?;
  }

  lemma SimilarityStep(s: Sums, t: Params, p: Point, q: Point)
    requires Conformal(t) && SimilaritySums(s, t)
    requires LinearImage(t, p, q)
    ensures SimilaritySums(Accumulate(s, true, p, q), t)
  {
    RotationTerms(p.x, p.y, t.a, t.b, t.d, t.e, q.x, q.y);
    DifferenceSums(s, t.d, p, q);
    PlusSums(s, t.a, p, q);
  }

  lemma RotationTerms(x: real, y: real, a: real, b: real, d: real, e: real, u: real, v: real)
    requires a == e && b == -d
    requires u == a * x + b * y && v == d * x + e * y
    ensures x * v - y * u == d * (y * y + x * x)
    ensures x * u + y * v == a * (y * y + x * x)
  {
  }

  lemma DifferenceSums(s: Sums, o: real, p: Point, q: Point)
    requires DifferenceInvariant(s, o) && p.x * q.y - p.y * q.x == o * (p.y * p.y + p.x * p.x)
    ensures DifferenceInvariant(Accumulate(s, true, p, q), o)
  {
    DifferenceStep(s.s0, s.s1, s.s2, s.s3, o, p.x, p.y, q.x, q.y);
  }

  lemma PlusSums(s: Sums, a: real, p: Point, q: Point)
    requires SumInvariant(s, a) && p.x * q.x + p.y * q.y == a * (p.y * p.y + p.x * p.x)
    ensures SumInvariant(Accumulate(s, true, p, q), a)
  {
    PlusStep(s.s4, s.s5, s.s2, s.s3, a, p.x, p.y, q.x, q.y);
  }

  lemma DifferenceStep(s0: real, s1: real, s2: real, s3: real, o: real, x: real, y: real, u: real, v: real)
    requires s0 - s1 == o * (s2 + s3) && x * v - y * u == o * (y * y + x * x)
    ensures (s0 + x * v) - (s1 + y * u) == o * ((s2 + y * y) + (s3 + x * x))
  {
    ScaledDifference(o, s0, s1, s2, s3, x * v, y * u, y * y, x * x);
  }

  lemma PlusStep(s4: real, s5: real, s2: real, s3: real, a: real, x: real, y: real, u: real, v: real)
    requires s4 + s5 == a * (s2 + s3) && x * u + y * v == a * (y * y + x * x)
    ensures (s4 + x * u) + (s5 + y * v) == a * ((s2 + y * y) + (s3 + x * x))
  {
    ScaledPlus(a, s4, s5, s2, s3, x * u, y * v, y * y, x * x);
  }

  lemma ScaledDifference(k: real, s0: real, s1: real, s2: real, s3: real, p0: real, p1: real, p2: real, p3: real)
    requires s0 - s1 == k * (s2 + s3) && p0 - p1 == k * (p2 + p3)
    ensures (s0 + p0) - (s1 + p1) == k * ((s2 + p2) + (s3 + p3))
  {
  }

  lemma ScaledPlus(k: real, s4: real, s5: real, s2: real, s3: real, p4: real, p5: real, p2: real, p3: real)
    requires s4 + s5 == k * (s2 + s3) && p4 + p5 == k * (p2 + p3)
    ensures (s4 + p4) + (s5 + p5) == k * ((s2 + p2) + (s3 + p3))
  {
  }

  lemma {:induction false} SimilaritySumsHold(t: Params, from: seq<Point>, to: seq<Point>, n: nat)
    requires 0 < |from| == |to| && n <= |from| && Conformal(t) && FitsAll(t, from, to)
    ensures SimilaritySums(MomentSums(from, to, true, n), t)
  {
    if n > 0 {
      SimilaritySumsHold(t, from, to, n - 1);
      ReducedImage(t, from, to, n - 1);
      SimilarityStep(MomentSums(from, to, true, n - 1), t, Reduced(from, n - 1), Reduced(to, n - 1));
    }
  }

  /** Two similarities that satisfy the same non-degenerate Helmert sums share their linear part. */
  lemma SimilarityUnique(s: Sums, r: Params, t: Params)
    requires Divisor(s, true) != 0.0 && SimilaritySums(s, r) && SimilaritySums(s, t)
    requires Conformal(r) && Conformal(t)
    ensures r.a == t.a && r.b == t.b && r.d == t.d && r.e == t.e
  {
    CancelFactor(r.a, t.a, s.s2 + s.s3);
    CancelFactor(r.d, t.d, s.s2 + s.s3);
  }

  /**
    The full-sum Helmert solution recovers any similarity from data it fits
    exactly, as long as the point cloud passes the divisor test.
  */
  lemma CorrectedRecoversSimilarity(t: Params, from: seq<Point>, to: seq<Point>, eps: real)
    requires 3 < |from| == |to| && eps > 0.0 && Conformal(t) && FitsAll(t, from, to)
    requires Abs(Divisor(MomentSums(from, to, true, |from|), true)) >= eps
    ensures FitNCorrected(from, to, true, eps) == Success(t)
  {
    var s := MomentSums(from, to, true, |from|);
    var r := CorrectedHelmert(from, to, eps);
    SimilaritySumsHold(t, from, to, |from|);
    SimilarityUnique(s, r, t);
    CentroidOfImage(t, from, to);
    SameLinearPartSameMap(r, t, Centroid(from));
  }

  /**
    Helmert mode as written recovers a similarity from more than three exactly
    fitted id-points whenever the first id-point is not too close to the
    source centroid.
  */
  lemma RecoversSimilarity(t: Params, from: seq<Point>, to: seq<Point>)
    requires 3 < |from| == |to| && Conformal(t) && FitsAll(t, from, to)
    requires FirstSpread(from) >= AffineEps
    ensures Fit(from, to) == Success(t)
  {
    FailsIffFirstPointClose(from, to, AffineEps);
    FinalEqualsFullSums(from, to, AffineEps);
    CorrectedRecoversSimilarity(t, from, to, AffineEps);
  }

  // ---------------------------------------------------------------------------
  // Two concrete cases
  // ---------------------------------------------------------------------------

  /** Five id-points around the origin, the first one on the centroid, mapped onto themselves. */
  const CrossPoints: seq<Point> :=
    [Point(0.0, 0.0), Point(1.0, 0.0), Point(-1.0, 0.0), Point(0.0, 1.0), Point(0.0, -1.0)]

  const Identity: Params := Params(1.0, 0.0, 0.0, 0.0, 1.0, 0.0)

  lemma IdentityFitsAll(ps: seq<Point>)
    ensures FitsAll(Identity, ps, ps)
  {
    forall i | 0 <= i < |ps|
      ensures Apply(Identity, ps[i]) == ps[i]
    {
      var p := ps[i];
      assert 1.0 * p.x + 0.0 * p.y + 0.0 == p.x;
      assert 0.0 * p.x + 1.0 * p.y + 0.0 == p.y;
    }
  }

  lemma CrossCentroid()
    ensures Centroid(CrossPoints) == Point(0.0, 0.0)
  {
    var ps := CrossPoints;
    assert SumX(ps, 5) == 0.0 && SumY(ps, 5) == 0.0;
  }

  lemma CrossReduced(i: nat)
    requires i < 5
    ensures Reduced(CrossPoints, i) == CrossPoints[i]
  {
    CrossCentroid();
  }

  /** The Helmert sums of the cross mapped onto itself: Σdx² = Σdy² = 2. */
  lemma CrossSums()
    ensures MomentSums(CrossPoints, CrossPoints, true, 5) == Sums(0.0, 0.0, 2.0, 2.0, 2.0, 2.0, 0.0)
  {
    var ps := CrossPoints;
    CrossReduced(0);
    CrossReduced(1);
    CrossReduced(2);
    CrossReduced(3);
    CrossReduced(4);
    assert MomentSums(ps, ps, true, 1) == ZeroSums;
    assert MomentSums(ps, ps, true, 2) == Sums(0.0, 0.0, 0.0, 1.0, 1.0, 0.0, 0.0);
    assert MomentSums(ps, ps, true, 3) == Sums(0.0, 0.0, 0.0, 2.0, 2.0, 0.0, 0.0);
    assert MomentSums(ps, ps, true, 4) == Sums(0.0, 0.0, 1.0, 2.0, 2.0, 1.0, 0.0);
  }

  /** The cross passes the divisor test of the full sums: Σdx² + Σdy² = 4. */
  lemma CrossDivisor()
    ensures Abs(Divisor(MomentSums(CrossPoints, CrossPoints, true, |CrossPoints|), true)) >= AffineEps
  {
    CrossSums();
    assert |CrossPoints| == 5;
  }

  /**
    As written, the identity on a well-spread cross of five points cannot be
    fitted in Helmert mode, because the first point sits on the centroid.
  */
  lemma CrossFailsAsWritten()
    ensures Fit(CrossPoints, CrossPoints) == Failure(NumericalError)
  {
    var ps := CrossPoints;
    CrossReduced(0);
    assert FirstSpread(ps) == 0.0;
    FailsIffFirstPointClose(ps, ps, AffineEps);
  }

  /** The full-sum solution recovers the identity from the same cross. */
  lemma CrossCorrectedSucceeds()
    ensures FitNCorrected(CrossPoints, CrossPoints, true, AffineEps) == Success(Identity)
  {
    CrossDivisor();
    IdentityFitsAll(CrossPoints);
    RecoversIdentity(CrossPoints);
  }

  lemma RecoversIdentity(ps: seq<Point>)
    requires 3 < |ps| && FitsAll(Identity, ps, ps)
    requires Abs(Divisor(MomentSums(ps, ps, true, |ps|), true)) >= AffineEps
    ensures FitNCorrected(ps, ps, true, AffineEps) == Success(Identity)
  {
    CorrectedRecoversSimilarity(Identity, ps, ps, AffineEps);
  }

  /** Three id-points whose target is the source stretched by 2 along x. */
  const StretchFrom: seq<Point> := [Point(1.0, 0.0), Point(0.0, 1.0), Point(0.0, 0.0)]
  const StretchTo: seq<Point> := [Point(2.0, 0.0), Point(0.0, 1.0), Point(0.0, 0.0)]
  const Stretch: Params := Params(2.0, 0.0, 0.0, 0.0, 1.0, 0.0)

  const StretchM1: Matrix :=
    [[1.0, 0.0, 1.0, 0.0, 0.0, 0.0, 2.0],
     [0.0, 0.0, 0.0, 1.0, 0.0, 1.0, 0.0],
     [0.0, 1.0, 1.0, 0.0, 0.0, 0.0, 0.0],
     [0.0, 0.0, 0.0, 0.0, 1.0, 1.0, 1.0],
     [0.0, 0.0, 1.0, 0.0, 0.0, 0.0, 0.0],
     [0.0, 0.0, 0.0, 0.0, 0.0, 1.0, 0.0]]

  const StretchM2: Matrix :=
    [[1.0, 0.0, 1.0, 0.0, 0.0, 0.0, 2.0],
     [0.0, 1.0, 1.0, 0.0, 0.0, 0.0, 0.0],
     [0.0, 0.0, 0.0, 1.0, 0.0, 1.0, 0.0],
     [0.0, 0.0, 0.0, 0.0, 1.0, 1.0, 1.0],
     [0.0, 0.0, 1.0, 0.0, 0.0, 0.0, 0.0],
     [0.0, 0.0, 0.0, 0.0, 0.0, 1.0, 0.0]]

  const StretchM3: Matrix :=
    [[1.0, 0.0, 0.0, 0.0, 0.0, 0.0, 2.0],
     [0.0, 1.0, 0.0, 0.0, 0.0, 0.0, 0.0],
     [0.0, 0.0, 1.0, 0.0, 0.0, 0.0, 0.0],
     [0.0, 0.0, 0.0, 0.0, 1.0, 1.0, 1.0],
     [0.0, 0.0, 0.0, 1.0, 0.0, 1.0, 0.0],
     [0.0, 0.0, 0.0, 0.0, 0.0, 1.0, 0.0]]

  const StretchM4: Matrix :=
    [[1.0, 0.0, 0.0, 0.0, 0.0, 0.0, 2.0],
     [0.0, 1.0, 0.0, 0.0, 0.0, 0.0, 0.0],
     [0.0, 0.0, 1.0, 0.0, 0.0, 0.0, 0.0],
     [0.0, 0.0, 0.0, 1.0, 0.0, 1.0, 0.0],
     [0.0, 0.0, 0.0, 0.0, 1.0, 1.0, 1.0],
     [0.0, 0.0, 0.0, 0.0, 0.0, 1.0, 0.0]]

  const StretchM5: Matrix :=
    [[1.0, 0.0, 0.0, 0.0, 0.0, 0.0, 2.0],
     [0.0, 1.0, 0.0, 0.0, 0.0, 0.0, 0.0],
     [0.0, 0.0, 1.0, 0.0, 0.0, 0.0, 0.0],
     [0.0, 0.0, 0.0, 1.0, 0.0, 1.0, 0.0],
     [0.0, 0.0, 0.0, 0.0, 1.0, 1.0, 1.0],
     [0.0, 0.0, 0.0, 0.0, 0.0, 1.0, 0.0]]

  const StretchM6: Matrix :=
    [[1.0, 0.0, 0.0, 0.0, 0.0, 0.0, 2.0],
     [0.0, 1.0, 0.0, 0.0, 0.0, 0.0, 0.0],
     [0.0, 0.0, 1.0, 0.0, 0.0, 0.0, 0.0],
     [0.0, 0.0, 0.0, 1.0, 0.0, 0.0, 0.0],
     [0.0, 0.0, 0.0, 0.0, 1.0, 0.0, 1.0],
     [0.0, 0.0, 0.0, 0.0, 0.0, 1.0, 0.0]]

  lemma StretchColumn0()
    ensures AfterColumns(System3(StretchFrom, StretchTo), 1, DefaultEps) == Success(StretchM1)
  {
    var m := System3(StretchFrom, StretchTo);
    assert m == [[1.0, 0.0, 1.0, 0.0, 0.0, 0.0, 2.0],
                 [0.0, 0.0, 0.0, 1.0, 0.0, 1.0, 0.0],
                 [0.0, 1.0, 1.0, 0.0, 0.0, 0.0, 0.0],
                 [0.0, 0.0, 0.0, 0.0, 1.0, 1.0, 1.0],
                 [0.0, 0.0, 1.0, 0.0, 0.0, 0.0, 0.0],
                 [0.0, 0.0, 0.0, 0.0, 0.0, 1.0, 0.0]];
    assert PivotRow(m, 0, DefaultEps) == Some(0);
    var sw := SwapRows(m, 0, 0);
    assert sw == m;
    ScaledUnitRow(sw[0], 0);
    var nr := NormalizeRow(sw, 0);
    assert nr == sw;
    EliminatedZeroRow(nr[1], nr[0], 0);
    EliminatedZeroRow(nr[2], nr[0], 0);
    EliminatedZeroRow(nr[3], nr[0], 0);
    EliminatedZeroRow(nr[4], nr[0], 0);
    EliminatedZeroRow(nr[5], nr[0], 0);
    assert EliminateColumn(nr, 0) == StretchM1;
  }

  /** The stretch system after the row swap of column 2, before its elimination. */
  const StretchS2: Matrix :=
    [[1.0, 0.0, 1.0, 0.0, 0.0, 0.0, 2.0],
     [0.0, 1.0, 1.0, 0.0, 0.0, 0.0, 0.0],
     [0.0, 0.0, 1.0, 0.0, 0.0, 0.0, 0.0],
     [0.0, 0.0, 0.0, 0.0, 1.0, 1.0, 1.0],
     [0.0, 0.0, 0.0, 1.0, 0.0, 1.0, 0.0],
     [0.0, 0.0, 0.0, 0.0, 0.0, 1.0, 0.0]]

  lemma StretchPivot1()
    ensures IsAugmented(StretchM1) && PivotRow(StretchM1, 1, DefaultEps) == Some(2)
  {
    assert PivotSearch(StretchM1, 1, 2, DefaultEps) == Some(2);
    assert PivotSearch(StretchM1, 1, 1, DefaultEps) == Some(2);
  }

  lemma StretchSwap1()
    ensures IsAugmented(StretchM1) && SwapRows(StretchM1, 1, 2) == StretchM2
  {
  }

  lemma StretchColumn1()
    ensures IsAugmented(StretchM1) && PivotRow(StretchM1, 1, DefaultEps) == Some(2)
    ensures Step(StretchM1, 1, 2) == StretchM2
  {
    StretchPivot1();
    StretchSwap1();
    var sw := StretchM2;
    ScaledUnitRow(sw[1], 1);
    assert NormalizeRow(sw, 1) == sw;
    EliminatedZeroRow(sw[0], sw[1], 1);
    EliminatedZeroRow(sw[2], sw[1], 1);
    EliminatedZeroRow(sw[3], sw[1], 1);
    EliminatedZeroRow(sw[4], sw[1], 1);
    EliminatedZeroRow(sw[5], sw[1], 1);
    assert EliminateColumn(sw, 1) == StretchM2;
  }

  lemma StretchPivot2()
    ensures IsAugmented(StretchM2) && PivotRow(StretchM2, 2, DefaultEps) == Some(4)
  {
    assert PivotSearch(StretchM2, 2, 4, DefaultEps) == Some(4);
    assert PivotSearch(StretchM2, 2, 3, DefaultEps) == Some(4);
    assert PivotSearch(StretchM2, 2, 2, DefaultEps) == Some(4);
  }

  lemma StretchSwap2()
    ensures IsAugmented(StretchM2) && SwapRows(StretchM2, 2, 4) == StretchS2
  {
  }

  lemma StretchEliminate2()
    ensures IsAugmented(StretchS2) && EliminateColumn(StretchS2, 2) == StretchM3
  {
    var sw := StretchS2;
    assert EliminatedRow(sw[0], sw[2], 2) == StretchM3[0];
    assert EliminatedRow(sw[1], sw[2], 2) == StretchM3[1];
    EliminatedZeroRow(sw[3], sw[2], 2);
    EliminatedZeroRow(sw[4], sw[2], 2);
    EliminatedZeroRow(sw[5], sw[2], 2);
  }

  lemma StretchColumn2()
    ensures IsAugmented(StretchM2) && PivotRow(StretchM2, 2, DefaultEps) == Some(4)
    ensures Step(StretchM2, 2, 4) == StretchM3
  {
    StretchPivot2();
    StretchSwap2();
    ScaledUnitRow(StretchS2[2], 2);
    assert NormalizeRow(StretchS2, 2) == StretchS2;
    StretchEliminate2();
  }

  lemma StretchPivot3()
    ensures IsAugmented(StretchM3) && PivotRow(StretchM3, 3, DefaultEps) == Some(4)
  {
    assert PivotSearch(StretchM3, 3, 4, DefaultEps) == Some(4);
    assert PivotSearch(StretchM3, 3, 3, DefaultEps) == Some(4);
  }

  lemma StretchSwap3()
    ensures IsAugmented(StretchM3) && SwapRows(StretchM3, 3, 4) == StretchM4
  {
  }

  lemma StretchColumn3()
    ensures IsAugmented(StretchM3) && PivotRow(StretchM3, 3, DefaultEps) == Some(4)
    ensures Step(StretchM3, 3, 4) == StretchM4
  {
    StretchPivot3();
    StretchSwap3();
    var sw := StretchM4;
    ScaledUnitRow(sw[3], 3);
    assert NormalizeRow(sw, 3) == sw;
    EliminatedZeroRow(sw[0], sw[3], 3);
    EliminatedZeroRow(sw[1], sw[3], 3);
    EliminatedZeroRow(sw[2], sw[3], 3);
    EliminatedZeroRow(sw[4], sw[3], 3);
    EliminatedZeroRow(sw[5], sw[3], 3);
    assert EliminateColumn(sw, 3) == StretchM4;
  }

  lemma StretchColumn4()
    ensures IsAugmented(StretchM4) && PivotRow(StretchM4, 4, DefaultEps) == Some(4)
    ensures Step(StretchM4, 4, 4) == StretchM5
  {
    var m := StretchM4;
    var sw := SwapRows(m, 4, 4);
    assert sw == m;
    ScaledUnitRow(sw[4], 4);
    var nr := NormalizeRow(sw, 4);
    assert nr == sw;
    EliminatedZeroRow(nr[0], nr[4], 4);
    EliminatedZeroRow(nr[1], nr[4], 4);
    EliminatedZeroRow(nr[2], nr[4], 4);
    EliminatedZeroRow(nr[3], nr[4], 4);
    EliminatedZeroRow(nr[5], nr[4], 4);
    assert EliminateColumn(nr, 4) == StretchM5;
  }

  lemma StretchColumn5()
    ensures IsAugmented(StretchM5) && PivotRow(StretchM5, 5, DefaultEps) == Some(5)
    ensures Step(StretchM5, 5, 5) == StretchM6
  {
    var m := StretchM5;
    var sw := SwapRows(m, 5, 5);
    assert sw == m;
    ScaledUnitRow(sw[5], 5);
    var nr := NormalizeRow(sw, 5);
    assert nr == sw;
    EliminatedZeroRow(nr[0], nr[5], 5);
    EliminatedZeroRow(nr[1], nr[5], 5);
    EliminatedZeroRow(nr[2], nr[5], 5);
    assert EliminatedRow(nr[3], nr[5], 5) == StretchM6[3];
    assert EliminatedRow(nr[4], nr[5], 5) == StretchM6[4];
    assert EliminateColumn(nr, 5) == StretchM6;
  }

  /**
    With three id-points the Helmert flag is ignored: the 6×7 system returns
    the stretch, which is not a similarity (A = 2 but E = 1).
  */
  lemma ThreePointsNotConformal()
    ensures Fit(StretchFrom, StretchTo) == Success(Stretch)
    ensures !Conformal(Stretch)
  {
    StretchSolution();
  }

  /** The elimination of the stretch system ends in the solution (2, 0, 0, 0, 1, 0). */
  lemma StretchSolution()
    ensures GaussJordan(System3(StretchFrom, StretchTo), DefaultEps) == Success([2.0, 0.0, 0.0, 0.0, 1.0, 0.0])
  {
    StretchAfterAll();
    StretchRhs();
  }

  lemma StretchRhs()
    ensures IsAugmented(StretchM6) && Rhs(StretchM6) == [2.0, 0.0, 0.0, 0.0, 1.0, 0.0]
  {
    var x := Rhs(StretchM6);
    assert x[0] == 2.0 && x[1] == 0.0 && x[2] == 0.0;
    assert x[3] == 0.0 && x[4] == 1.0 && x[5] == 0.0;
  }

  /** Columns 0 .. 2 of the stretch system. */
  lemma StretchAfterThree()
    ensures AfterColumns(System3(StretchFrom, StretchTo), 3, DefaultEps) == Success(StretchM3)
  {
    var m := System3(StretchFrom, StretchTo);
    StretchColumn0();
    StretchColumn1();
    AfterColumnsStep(m, 1, DefaultEps, StretchM1, 2);
    StretchColumn2();
    AfterColumnsStep(m, 2, DefaultEps, StretchM2, 4);
  }

  /** Columns 3 .. 5 of the stretch system. */
  lemma StretchAfterAll()
    ensures AfterColumns(System3(StretchFrom, StretchTo), 6, DefaultEps) == Success(StretchM6)
  {
    var m := System3(StretchFrom, StretchTo);
    StretchAfterThree();
    StretchColumn3();
    AfterColumnsStep(m, 3, DefaultEps, StretchM3, 4);
    StretchColumn4();
    AfterColumnsStep(m, 4, DefaultEps, StretchM4, 4);
    StretchColumn5();
    AfterColumnsStep(m, 5, DefaultEps, StretchM5, 5);
  }
}

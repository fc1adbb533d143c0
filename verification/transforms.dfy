/**
  The common view of a fitted transformation (main/Transform.java): the two
  id-point lists it was fitted to and the coefficients of one of the concrete
  estimators. The constructors are those of the four estimator classes.
*/
module Transforms {
  import opened Base
  import opened Points
  import ST = ScaleAndTranslateTransform
  import AT = AffineTransform
  import HT = HelmertTransform
  import BT = BilinearTransform

  /** The coefficients of one of the concrete transformations; the affine one keeps its mode flag. */
  datatype Coefficients =
    | ScaleAndTranslate(st: ST.Params)
    | Affine(affine: AT.Params, helmert: bool)
    | Bilinear(bilinear: BT.Params)

  /** A fitted transformation with its id-points. */
  datatype Transform = Transform(from: seq<Point>, to: seq<Point>, coefficients: Coefficients)

  /** The exception a constructor throws, tagged with the estimator that threw it. */
  datatype FitError =
    | ScaleAndTranslateFailed(st: ST.FitError)
    | AffineFailed(affine: AT.FitError)
    | BilinearFailed(bilinear: BT.FitError)

  /** transform(p), dispatched on the concrete transformation. */
  function Apply(t: Transform, p: Point): Point
  {
    match t.coefficients
    case ScaleAndTranslate(c) => ST.Apply(c, p)
    case Affine(c, _) => AT.Apply(c, p)
    case Bilinear(c) => BT.Apply(c, p)
  }

  /** Every source id-point is mapped exactly onto its target id-point. */
  predicate ExactOnIdPoints(t: Transform)
  {
    |t.from| == |t.to| && forall i :: 0 <= i < |t.from| ==> Apply(t, t.from[i]) == t.to[i]
  }

  function NewScaleAndTranslate(from: seq<Point>, to: seq<Point>): (r: Result<Transform, FitError>)
    ensures r.Success? <==> ST.Fit(from, to).Success?
    ensures r.Success? ==> r.value == Transform(from, to, ScaleAndTranslate(ST.Fit(from, to).value))
    ensures r.Failure? ==> r.error == ScaleAndTranslateFailed(ST.Fit(from, to).error)
  {
    match ST.Fit(from, to)
    case Success(c) => Success(Transform(from, to, ScaleAndTranslate(c)))
    case Failure(e) => Failure(ScaleAndTranslateFailed(e))
  }

  /**
    The affine and Helmert constructors use the corrected N > 3 path, which
    tests the divisor of the full sums only; with three pairs it is the
    6×7 system, as in the original.
  */
  function NewAffine(from: seq<Point>, to: seq<Point>): (r: Result<Transform, FitError>)
    ensures r.Success? <==> AT.FitCorrected(from, to, false).Success?
    ensures r.Success? ==> r.value == Transform(from, to, Affine(AT.FitCorrected(from, to, false).value, false))
    ensures r.Failure? ==> r.error == AffineFailed(AT.FitCorrected(from, to, false).error)
  {
    match AT.FitCorrected(from, to, false)
    case Success(c) => Success(Transform(from, to, Affine(c, false)))
    case Failure(e) => Failure(AffineFailed(e))
  }

  function NewHelmert(from: seq<Point>, to: seq<Point>): (r: Result<Transform, FitError>)
    ensures r.Success? <==> AT.FitCorrected(from, to, true).Success?
    ensures r.Success? ==> r.value == Transform(from, to, Affine(AT.FitCorrected(from, to, true).value, true))
    ensures r.Failure? ==> r.error == AffineFailed(AT.FitCorrected(from, to, true).error)
  {
    match AT.FitCorrected(from, to, true)
    case Success(c) => Success(Transform(from, to, Affine(c, true)))
    case Failure(e) => Failure(AffineFailed(e))
  }

  /**
    The affine and Helmert constructors as the original writes them: with more
    than three pairs they run the accumulation loop that tests the divisor after
    every point.
  */
  function NewAffineAsWritten(from: seq<Point>, to: seq<Point>): (r: Result<Transform, FitError>)
    ensures r.Success? <==> AT.Fit(from, to, false).Success?
    ensures r.Success? ==> r.value == Transform(from, to, Affine(AT.Fit(from, to, false).value, false))
    ensures r.Failure? ==> r.error == AffineFailed(AT.Fit(from, to, false).error)
  {
    match AT.Fit(from, to, false)
    case Success(c) => Success(Transform(from, to, Affine(c, false)))
    case Failure(e) => Failure(AffineFailed(e))
  }

  function NewHelmertAsWritten(from: seq<Point>, to: seq<Point>): (r: Result<Transform, FitError>)
    ensures r.Success? <==> HT.Fit(from, to).Success?
    ensures r.Success? ==> r.value == Transform(from, to, Affine(HT.Fit(from, to).value, true))
    ensures r.Failure? ==> r.error == AffineFailed(HT.Fit(from, to).error)
  {
    match HT.Fit(from, to)
    case Success(c) => Success(Transform(from, to, Affine(c, true)))
    case Failure(e) => Failure(AffineFailed(e))
  }

  function NewBilinear(from: seq<Point>, to: seq<Point>): (r: Result<Transform, FitError>)
    ensures r.Success? <==> BT.Fit(from, to).Success?
    ensures r.Success? ==> r.value == Transform(from, to, Bilinear(BT.Fit(from, to).value))
    ensures r.Failure? ==> r.error == BilinearFailed(BT.Fit(from, to).error)
  {
    match BT.Fit(from, to)
    case Success(c) => Success(Transform(from, to, Bilinear(c)))
    case Failure(e) => Failure(BilinearFailed(e))
  }

  // At the minimal id-point count every constructor that succeeds yields a
  // transformation that is exact on its own id-points: two pairs for
  // scale-and-translate, three for affine and Helmert, four for bilinear.

  lemma ScaleAndTranslateExact(from: seq<Point>, to: seq<Point>)
    requires NewScaleAndTranslate(from, to).Success?
    ensures ExactOnIdPoints(NewScaleAndTranslate(from, to).value)
  {
    ST.FitExact(from, to);
    var t := NewScaleAndTranslate(from, to).value;
    forall i | 0 <= i < |t.from|
      ensures Apply(t, t.from[i]) == t.to[i]
    {
      assert i == 0 || i == 1;
    }
  }

  lemma AffineExactAtThree(from: seq<Point>, to: seq<Point>)
    requires |from| == 3 && NewAffine(from, to).Success?
    ensures ExactOnIdPoints(NewAffine(from, to).value)
  {
    assert |to| == 3;
    AT.Fit3Exact(from, to);
  }

  lemma HelmertExactAtThree(from: seq<Point>, to: seq<Point>)
    requires |from| == 3 && NewHelmert(from, to).Success?
    ensures ExactOnIdPoints(NewHelmert(from, to).value)
  {
    assert |to| == 3;
    AT.Fit3Exact(from, to);
  }

  /**
    With more than three pairs, an affine map that fits every pair is what the
    affine constructor returns, as long as the full sums pass the divisor test;
    the result is then exact on its id-points.
  */
  lemma AffineRecoveredBeyondThree(t: AT.Params, from: seq<Point>, to: seq<Point>)
    requires 3 < |from| == |to| && AT.FitsAll(t, from, to)
    requires Abs(AT.Divisor(AT.MomentSums(from, to, false, |from|), false)) >= AT.AffineEps
    ensures NewAffine(from, to) == Success(Transform(from, to, Affine(t, false)))
    ensures ExactOnIdPoints(NewAffine(from, to).value)
  {
    AT.CorrectedRecoversAffine(t, from, to, AT.AffineEps);
  }

  /** The same for a similarity and the Helmert constructor. */
  lemma SimilarityRecoveredBeyondThree(t: AT.Params, from: seq<Point>, to: seq<Point>)
    requires 3 < |from| == |to| && AT.Conformal(t) && AT.FitsAll(t, from, to)
    requires Abs(AT.Divisor(AT.MomentSums(from, to, true, |from|), true)) >= AT.AffineEps
    ensures NewHelmert(from, to) == Success(Transform(from, to, Affine(t, true)))
    ensures ExactOnIdPoints(NewHelmert(from, to).value)
  {
    HT.CorrectedRecoversSimilarity(t, from, to, AT.AffineEps);
  }

  /** Up to three pairs, and on every count mismatch, the corrected constructors are the original ones. */
  lemma AsWrittenAgreesUpToThree(from: seq<Point>, to: seq<Point>)
    requires |from| <= 3 || |from| != |to|
    ensures NewAffineAsWritten(from, to) == NewAffine(from, to)
    ensures NewHelmertAsWritten(from, to) == NewHelmert(from, to)
  {
  }

  /** Beyond three pairs the original affine constructor always throws "Numerical error! " with the divisor 0 (over the reals). */
  lemma AffineAsWrittenFailsBeyondThree(from: seq<Point>, to: seq<Point>)
    requires 3 < |from| == |to|
    ensures NewAffineAsWritten(from, to) == Failure(AffineFailed(AT.SmallDivisor(0.0)))
  {
    AT.GeneralAffineFitFails(from, to);
  }

  /** Beyond three pairs the original Helmert constructor throws exactly when the first point sits too close to the centroid. */
  lemma HelmertAsWrittenFailsIffFirstPointClose(from: seq<Point>, to: seq<Point>)
    requires 3 < |from| == |to|
    ensures NewHelmertAsWritten(from, to).Failure? <==> HT.FirstSpread(from) < AT.AffineEps
  {
    HT.FailsIffFirstPointClose(from, to, AT.AffineEps);
  }

  /** Once the first point is clear of the centroid, the original Helmert constructor recovers a fitting similarity too. */
  lemma SimilarityRecoveredAsWritten(t: AT.Params, from: seq<Point>, to: seq<Point>)
    requires 3 < |from| == |to| && AT.Conformal(t) && AT.FitsAll(t, from, to)
    requires HT.FirstSpread(from) >= AT.AffineEps
    ensures NewHelmertAsWritten(from, to) == Success(Transform(from, to, Affine(t, true)))
  {
    HT.RecoversSimilarity(t, from, to);
  }

  lemma BilinearExact(from: seq<Point>, to: seq<Point>)
    requires NewBilinear(from, to).Success?
    ensures ExactOnIdPoints(NewBilinear(from, to).value)
  {
    BT.FitExact(from, to);
  }

  /** Every constructor that succeeds pairs up equally many source and target id-points. */
  lemma ConstructedAreBalanced(from: seq<Point>, to: seq<Point>)
    ensures NewScaleAndTranslate(from, to).Success? ==> |from| == |to| == 2
    ensures NewAffine(from, to).Success? ==> 3 <= |from| == |to|
    ensures NewHelmert(from, to).Success? ==> 3 <= |from| == |to|
    ensures NewBilinear(from, to).Success? ==> |from| == |to| == 4
  {
  }
}

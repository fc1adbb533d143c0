/**
  main/ResidualMismatches.java: for every id-point pair, the transformed
  source point u = t(from[i]), the residual (vx, vy) = to[i] - u and its
  length delta. The lines the Java prints are modelled as a sequence of
  records; delta is kept squared.
*/
module ResidualMismatches {
  import opened Base
  import opened Points
  import opened Transforms
  import AT = AffineTransform

  /** One printed line: the source point, its image, the residual and the squared residual length. */
  datatype Residual = Residual(source: Point, mapped: Point, vx: real, vy: real, deltaSquared: real)

  /** One iteration of the loop, for pair i. */
  function ResidualAt(t: Transform, i: nat): (r: Residual)
    requires i < |t.from| && i < |t.to|
    ensures r.source == t.from[i] && r.mapped == Apply(t, t.from[i])
    ensures r.mapped.x + r.vx == t.to[i].x && r.mapped.y + r.vy == t.to[i].y
    ensures r.deltaSquared == r.vx * r.vx + r.vy * r.vy && r.deltaSquared >= 0.0
  {
    var u := Apply(t, t.from[i]);
    var vx := t.to[i].x - u.x;
    var vy := t.to[i].y - u.y;
    SquareNonNegative(vx);
    SquareNonNegative(vy);
    Residual(t.from[i], u, vx, vy, vx * vx + vy * vy)
  }

  /** The records of the first n pairs, in loop order. */
  function ResidualsUpTo(t: Transform, n: nat): (rs: seq<Residual>)
    requires n <= |t.from| && n <= |t.to|
    ensures |rs| == n
    ensures forall i :: 0 <= i < n ==> rs[i] == ResidualAt(t, i)
  {
    if n == 0 then [] else ResidualsUpTo(t, n - 1) + [ResidualAt(t, n - 1)]
  }

  /**
    The loop of toString(): one record per source id-point, in order. The Java
    reads to[i] for every i < from.length, so the target list must be at
    least as long.
  */
  function Residuals(t: Transform): (rs: seq<Residual>)
    requires |t.from| <= |t.to|
    ensures |rs| == |t.from|
    ensures forall i :: 0 <= i < |rs| ==> rs[i] == ResidualAt(t, i)
  {
    ResidualsUpTo(t, |t.from|)
  }

  /** Every residual vanishes exactly when the transformation is exact on its id-points. */
  lemma ZeroResidualsIffExact(t: Transform)
    requires |t.from| == |t.to|
    ensures (forall i :: 0 <= i < |t.from| ==> Residuals(t)[i].vx == 0.0 && Residuals(t)[i].vy == 0.0)
            <==> ExactOnIdPoints(t)
  {
    var rs := Residuals(t);
    if forall i :: 0 <= i < |t.from| ==> rs[i].vx == 0.0 && rs[i].vy == 0.0 {
      forall i | 0 <= i < |t.from|
        ensures Apply(t, t.from[i]) == t.to[i]
      {
        assert rs[i] == ResidualAt(t, i);
      }
    }
    if ExactOnIdPoints(t) {
      forall i | 0 <= i < |t.from|
        ensures rs[i].vx == 0.0 && rs[i].vy == 0.0
      {
        assert rs[i] == ResidualAt(t, i);
      }
    }
  }

  /** On a transformation that is exact on its id-points, every delta is zero. */
  lemma ExactHasZeroDeltas(t: Transform)
    requires ExactOnIdPoints(t)
    ensures forall i :: 0 <= i < |t.from| ==> Residuals(t)[i].deltaSquared == 0.0
  {
    ZeroResidualsIffExact(t);
    forall i | 0 <= i < |t.from|
      ensures Residuals(t)[i].deltaSquared == 0.0
    {
      var r := Residuals(t)[i];
      assert r.vx == 0.0 && r.vy == 0.0;
      assert r.deltaSquared == 0.0 * 0.0 + 0.0 * 0.0;
    }
  }

  /**
    For every transformation built at its minimal id-point count, every
    residual record is (0, 0) with delta zero.
  */
  lemma MinimalCountResidualsVanish(from: seq<Point>, to: seq<Point>, t: Transform)
    requires NewScaleAndTranslate(from, to) == Success(t) || NewBilinear(from, to) == Success(t) ||
             (|from| == 3 && (NewAffine(from, to) == Success(t) || NewHelmert(from, to) == Success(t)))
    ensures |t.from| == |t.to|
    ensures forall i :: 0 <= i < |t.from| ==>
              Residuals(t)[i].vx == 0.0 && Residuals(t)[i].vy == 0.0 && Residuals(t)[i].deltaSquared == 0.0
  {
    if NewScaleAndTranslate(from, to) == Success(t) {
      ScaleAndTranslateExact(from, to);
    } else if NewBilinear(from, to) == Success(t) {
      BilinearExact(from, to);
    } else if NewAffine(from, to) == Success(t) {
      AffineExactAtThree(from, to);
    } else {
      HelmertExactAtThree(from, to);
    }
    ZeroResidualsIffExact(t);
    ExactHasZeroDeltas(t);
  }

  /** Σ deltaSquared over the first n records. */
  function DeltaSum(rs: seq<Residual>, n: nat): real
    requires n <= |rs|
  {
    if n == 0 then 0.0 else DeltaSum(rs, n - 1) + rs[n - 1].deltaSquared
  }

  /**
    For an affine or Helmert transformation, the squared deltas add up to the
    residual sum that standardDeviation() divides by its redundancy.
  */
  lemma {:induction false} DeltaSumIsResidualSum(t: Transform, n: nat)
    requires t.coefficients.Affine? && |t.from| == |t.to| && n <= |t.from|
    ensures DeltaSum(Residuals(t), n) == AT.ResidualSum(t.coefficients.affine, t.from, t.to, n)
  {
    if n > 0 {
      DeltaSumIsResidualSum(t, n - 1);
      var rs := Residuals(t);
      assert rs[n - 1] == ResidualAt(t, n - 1);
      DeltaIsSquaredResidual(t, n - 1);
    }
  }

  /** One record's delta is the squared residual of its pair under the affine coefficients. */
  lemma DeltaIsSquaredResidual(t: Transform, i: nat)
    requires t.coefficients.Affine? && i < |t.from| && i < |t.to|
    ensures ResidualAt(t, i).deltaSquared == AT.SquaredResidual(t.coefficients.affine, t.from[i], t.to[i])
  {
    var c := t.coefficients.affine;
    assert Apply(t, t.from[i]) == AT.Apply(c, t.from[i]);
  }

  /** With more than three pairs, the squared standard deviation is the delta sum over the redundancy. */
  lemma VarianceFromResiduals(t: Transform)
    requires t.coefficients.Affine? && 3 < |t.from| == |t.to|
    ensures AT.Variance(t.coefficients.affine, t.from, t.to, t.coefficients.helmert)
              * (AT.Redundancy(|t.from|, t.coefficients.helmert) as real)
            == DeltaSum(Residuals(t), |t.from|)
  {
    DeltaSumIsResidualSum(t, |t.from|);
  }
}

/**
  Points of the plane (main/Point.java) and the running sums over id-point
  lists that the fits accumulate.
*/
module Points {

  datatype Point = Point(x: real, y: real)

  /** Σ x over the first n points, accumulated front to back as the loops do. */
  function SumX(ps: seq<Point>, n: nat): real
    requires n <= |ps|
  {
    if n == 0 then 0.0 else SumX(ps, n - 1) + ps[n - 1].x
  }

  /** Σ y over the first n points. */
  function SumY(ps: seq<Point>, n: nat): real
    requires n <= |ps|
  {
    if n == 0 then 0.0 else SumY(ps, n - 1) + ps[n - 1].y
  }

  /** The centre point: the arithmetic mean of the points. */
  function Centroid(ps: seq<Point>): (c: Point)
    requires |ps| > 0
    ensures c.x * (|ps| as real) == SumX(ps, |ps|)
    ensures c.y * (|ps| as real) == SumY(ps, |ps|)
  {
    Point(SumX(ps, |ps|) / (|ps| as real), SumY(ps, |ps|) / (|ps| as real))
  }
}

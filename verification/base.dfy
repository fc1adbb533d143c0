/** Failure-carrying result types, the absolute value used by every tolerance test, and the sign of a square. */
module Base {

  /** A value that may be absent. */
  datatype Option<+T> = None | Some(value: T)

  /** The outcome of an operation that can fail: a value or an error. */
  datatype Result<+T, +E> = Success(value: T) | Failure(error: E)

  /** Java's Math.abs on an idealised double. */
  function Abs(x: real): real
  {
    if x < 0.0 then -x else x
  }

  /** A square is never negative. */
  lemma SquareNonNegative(z: real)
    ensures z * z >= 0.0
  {
    if z > 0.0 {
      assert z * z > 0.0;
    } else if z < 0.0 {
      var w := -z;
      assert w * w > 0.0;
      assert z * z == w * w;
    }
  }
}

/**
  Augmented matrices [A | b] over the reals, the three row operations of
  Gauss-Jordan elimination (swap, normalise, eliminate) and the facts each
  operation preserves: the solution set of A·x = b, the identity columns
  already produced, and linear dependence of the rows of A.
*/
module Matrices {

  type Matrix = seq<seq<real>>

  /** dim equations over dim unknowns: every row has dim coefficients and one right-hand side. */
  predicate IsAugmented(m: Matrix)
  {
    forall i :: 0 <= i < |m| ==> |m[i]| == |m| + 1
  }

  /** Σ_{k < n} row[k]·x[k]. */
  function Dot(row: seq<real>, x: seq<real>, n: nat): real
    requires n <= |row| && n <= |x|
  {
    if n == 0 then 0.0 else Dot(row, x, n - 1) + row[n - 1] * x[n - 1]
  }

  /** The equation stored in `row` (coefficients, then right-hand side) holds for x. */
  predicate RowHolds(row: seq<real>, x: seq<real>)
    requires |row| == |x| + 1
  {
    Dot(row, x, |x|) == row[|x|]
  }

  /** x solves the system A·x = b represented by m = [A | b]. */
  predicate Solves(m: Matrix, x: seq<real>)
    requires IsAugmented(m)
  {
    |x| == |m| && forall i :: 0 <= i < |m| ==> RowHolds(m[i], x)
  }

  predicate IsZero(v: seq<real>)
  {
    forall k :: 0 <= k < |v| ==> v[k] == 0.0
  }

  function VecAdd(x: seq<real>, z: seq<real>): (r: seq<real>)
    requires |x| == |z|
    ensures |r| == |x|
    ensures forall k :: 0 <= k < |r| ==> r[k] == x[k] + z[k]
  {
    seq(|x|, k requires 0 <= k < |x| => x[k] + z[k])
  }

  /** A·z = 0 for the coefficient block A of m. */
  predicate InKernel(m: Matrix, z: seq<real>)
    requires IsAugmented(m)
  {
    |z| == |m| && forall i :: 0 <= i < |m| ==> Dot(m[i], z, |m|) == 0.0
  }

  /** The coefficient block has a non-trivial kernel. */
  ghost predicate Singular(m: Matrix)
    requires IsAugmented(m)
  {
    exists z :: InKernel(m, z) && !IsZero(z)
  }

  /** Σ_{i < n} lam[i]·m[i][c]: entry c of the combination of the rows with weights lam. */
  function Combination(m: Matrix, lam: seq<real>, c: nat, n: nat): real
    requires IsAugmented(m) && |lam| == |m| && n <= |m| && c <= |m|
  {
    if n == 0 then 0.0 else Combination(m, lam, c, n - 1) + lam[n - 1] * m[n - 1][c]
  }

  /** The non-zero weights lam combine the rows of the coefficient block to the zero row. */
  predicate DependentWith(m: Matrix, lam: seq<real>)
    requires IsAugmented(m)
  {
    |lam| == |m| && !IsZero(lam) && forall c :: 0 <= c < |m| ==> Combination(m, lam, c, |m|) == 0.0
  }

  /** The rows of the coefficient block are linearly dependent. */
  ghost predicate RowsDependent(m: Matrix)
    requires IsAugmented(m)
  {
    exists lam :: DependentWith(m, lam)
  }

  /** Column c of the coefficient block is the c-th unit vector. */
  predicate UnitColumn(m: Matrix, c: nat)
    requires IsAugmented(m) && c < |m|
  {
    forall i :: 0 <= i < |m| ==> m[i][c] == if i == c then 1.0 else 0.0
  }

  /** Columns 0 .. j-1 of the coefficient block are identity columns. */
  predicate IdentityUpTo(m: Matrix, j: nat)
    requires IsAugmented(m) && j <= |m|
  {
    forall c :: 0 <= c < j ==> UnitColumn(m, c)
  }

  /** The right-hand-side column. */
  function Rhs(m: Matrix): (x: seq<real>)
    requires IsAugmented(m)
    ensures |x| == |m|
    ensures forall i :: 0 <= i < |m| ==> x[i] == m[i][|m|]
  {
    seq(|m|, i requires 0 <= i < |m| => m[i][|m|])
  }

  // ---------------------------------------------------------------------------
  // Row operations
  // ---------------------------------------------------------------------------

  /** Exchanges rows i and j whole, right-hand side included; no other row moves. */
  function SwapRows(m: Matrix, i: nat, j: nat): (r: Matrix)
    requires i < |m| && j < |m|
    ensures |r| == |m| && r[i] == m[j] && r[j] == m[i]
    ensures forall k :: 0 <= k < |m| && k != i && k != j ==> r[k] == m[k]
    ensures IsAugmented(m) ==> IsAugmented(r)
  {
    m[i := m[j]][j := m[i]]
  }

  /** The row multiplied entry by entry with 1 / row[j], so that its entry j becomes 1. */
  function ScaledRow(row: seq<real>, j: nat): (r: seq<real>)
    requires j < |row| && row[j] != 0.0
    ensures |r| == |row| && r[j] == 1.0
    ensures forall k :: 0 <= k < |row| ==> r[k] * row[j] == row[k]
  {
    seq(|row|, k requires 0 <= k < |row| => row[k] * (1.0 / row[j]))
  }

  /** Row j divided by its pivot; every other row unchanged. */
  function NormalizeRow(m: Matrix, j: nat): (r: Matrix)
    requires IsAugmented(m) && j < |m| && m[j][j] != 0.0
    ensures IsAugmented(r) && |r| == |m| && r[j][j] == 1.0
  {
    m[j := ScaledRow(m[j], j)]
  }

  /** What normalising leaves behind: row j times the old pivot is the old row, the other rows are untouched. */
  lemma NormalizeRowContents(m: Matrix, j: nat)
    requires IsAugmented(m) && j < |m| && m[j][j] != 0.0
    ensures forall k :: 0 <= k < |m[j]| ==> NormalizeRow(m, j)[j][k] * m[j][j] == m[j][k]
    ensures forall i :: 0 <= i < |m| && i != j ==> NormalizeRow(m, j)[i] == m[i]
  {
  }

  /** rowI minus rowI[j] times rowJ; when rowJ[j] is 1 this clears entry j of rowI. */
  function EliminatedRow(rowI: seq<real>, rowJ: seq<real>, j: nat): (r: seq<real>)
    requires j < |rowI| == |rowJ|
    ensures |r| == |rowI|
    ensures rowJ[j] == 1.0 ==> r[j] == 0.0
  {
    seq(|rowI|, k requires 0 <= k < |rowI| => rowI[k] + (-rowI[j]) * rowJ[k])
  }

  /** Clears column j from every row except row j. */
  function EliminateColumn(m: Matrix, j: nat): (r: Matrix)
    requires IsAugmented(m) && j < |m|
    ensures IsAugmented(r) && |r| == |m| && r[j] == m[j]
    ensures m[j][j] == 1.0 ==> UnitColumn(r, j)
  {
    seq(|m|, i requires 0 <= i < |m| => if i == j then m[j] else EliminatedRow(m[i], m[j], j))
  }

  /** A row whose entry j is already 1 is left as it is by normalisation. */
  lemma ScaledUnitRow(row: seq<real>, j: nat)
    requires j < |row| && row[j] == 1.0
    ensures ScaledRow(row, j) == row
  {
  }

  /** A row whose entry j is already 0 is left as it is by elimination. */
  lemma EliminatedZeroRow(rowI: seq<real>, rowJ: seq<real>, j: nat)
    requires j < |rowI| == |rowJ| && rowI[j] == 0.0
    ensures EliminatedRow(rowI, rowJ, j) == rowI
  {
  }

  // ---------------------------------------------------------------------------
  // Dot products
  // ---------------------------------------------------------------------------

  /** A row that is s times another has s times its dot product. */
  lemma {:induction false} DotOfScaled(r: seq<real>, a: seq<real>, x: seq<real>, s: real, n: nat)
    requires n <= |r| && n <= |a| && n <= |x|
    requires forall k :: 0 <= k < n ==> r[k] == a[k] * s
    ensures Dot(r, x, n) == Dot(a, x, n) * s
  {
    if n > 0 {
      DotOfScaled(r, a, x, s, n - 1);
      RegroupScaled(Dot(r, x, n), Dot(r, x, n - 1), Dot(a, x, n), Dot(a, x, n - 1), r[n - 1], a[n - 1], x[n - 1], s);
    }
  }

  lemma RegroupScaled(dn: real, d: real, an: real, a: real, e: real, u: real, y: real, s: real)
    requires d == a * s && dn == d + e * y && e == u * s && an == a + u * y
    ensures dn == an * s
  {
  }

  lemma DotScaled(row: seq<real>, x: seq<real>, j: nat, n: nat)
    requires j < |row| && row[j] != 0.0 && n <= |row| && n <= |x|
    ensures Dot(ScaledRow(row, j), x, n) == Dot(row, x, n) * (1.0 / row[j])
  {
    DotOfScaled(ScaledRow(row, j), row, x, 1.0 / row[j], n);
  }

  /** A row that is a + c·b entry-wise has dot product Dot(a) + c·Dot(b). */
  lemma {:induction false} DotOfCombined(r: seq<real>, a: seq<real>, b: seq<real>, x: seq<real>, c: real, n: nat)
    requires n <= |r| && n <= |a| && n <= |b| && n <= |x|
    requires forall k :: 0 <= k < n ==> r[k] == a[k] + c * b[k]
    ensures Dot(r, x, n) == Dot(a, x, n) + c * Dot(b, x, n)
  {
    if n > 0 {
      DotOfCombined(r, a, b, x, c, n - 1);
      RegroupEliminated(Dot(r, x, n), Dot(r, x, n - 1), Dot(a, x, n), Dot(a, x, n - 1),
                        Dot(b, x, n), Dot(b, x, n - 1), c, r[n - 1], a[n - 1], b[n - 1], x[n - 1]);
    }
  }

  lemma RegroupEliminated(dn: real, d: real, an: real, a: real, bn: real, b: real,
                          c: real, e: real, u: real, w: real, y: real)
    requires d == a + c * b && dn == d + e * y && e == u + c * w
    requires an == a + u * y && bn == b + w * y
    ensures dn == an + c * bn
  {
  }

  lemma DotEliminated(rowI: seq<real>, rowJ: seq<real>, x: seq<real>, j: nat, n: nat)
    requires j < |rowI| == |rowJ| && n <= |rowI| && n <= |x|
    ensures Dot(EliminatedRow(rowI, rowJ, j), x, n) == Dot(rowI, x, n) + (-rowI[j]) * Dot(rowJ, x, n)
  {
    DotOfCombined(EliminatedRow(rowI, rowJ, j), rowI, rowJ, x, -rowI[j], n);
  }

  lemma {:induction false} DotAdd(row: seq<real>, x: seq<real>, z: seq<real>, n: nat)
    requires |x| == |z| && n <= |row| && n <= |x|
    ensures Dot(row, VecAdd(x, z), n) == Dot(row, x, n) + Dot(row, z, n)
  {
    if n > 0 {
      DotAdd(row, x, z, n - 1);
    }
  }

  /** Against the i-th unit row, the dot product picks out x[i]. */
  lemma {:induction false} DotUnit(row: seq<real>, x: seq<real>, i: nat, n: nat)
    requires n <= |row| && n <= |x|
    requires forall k :: 0 <= k < n ==> row[k] == if k == i then 1.0 else 0.0
    ensures Dot(row, x, n) == if i < n then x[i] else 0.0
  {
    if n > 0 {
      DotUnit(row, x, i, n - 1);
    }
  }

  // ---------------------------------------------------------------------------
  // Row operations keep the solution set
  // ---------------------------------------------------------------------------

  lemma SwapKeepsSolutions(m: Matrix, i: nat, j: nat, x: seq<real>)
    requires IsAugmented(m) && i < |m| && j < |m|
    ensures Solves(m, x) <==> Solves(SwapRows(m, i, j), x)
  {
    var s := SwapRows(m, i, j);
    if Solves(m, x) {
      forall k | 0 <= k < |s|
        ensures RowHolds(s[k], x)
      {
        assert RowHolds(m[k], x) && RowHolds(m[i], x) && RowHolds(m[j], x);
      }
    }
    if Solves(s, x) {
      forall k | 0 <= k < |m|
        ensures RowHolds(m[k], x)
      {
        assert RowHolds(s[k], x) && RowHolds(s[i], x) && RowHolds(s[j], x);
      }
    }
  }

  lemma NormalizeKeepsSolutions(m: Matrix, j: nat, x: seq<real>)
    requires IsAugmented(m) && j < |m| && m[j][j] != 0.0
    ensures Solves(m, x) <==> Solves(NormalizeRow(m, j), x)
  {
    if |x| == |m| {
      var p := m[j][j];
      var s := 1.0 / p;
      var row := ScaledRow(m[j], j);
      DotScaled(m[j], x, j, |x|);
      assert s * p == 1.0;
      assert row[|x|] == m[j][|x|] * s;
      assert RowHolds(m[j], x) <==> RowHolds(row, x) by {
        var a := Dot(m[j], x, |x|);
        var b := m[j][|x|];
        assert Dot(row, x, |x|) == a * s;
        if a * s == b * s {
          assert a == (a * s) * p == (b * s) * p == b;
        }
      }
      var r := NormalizeRow(m, j);
      if Solves(m, x) {
        forall k | 0 <= k < |r|
          ensures RowHolds(r[k], x)
        {
          assert RowHolds(m[k], x);
        }
      }
      if Solves(r, x) {
        forall k | 0 <= k < |m|
          ensures RowHolds(m[k], x)
        {
          assert RowHolds(r[k], x);
        }
      }
    }
  }

  lemma EliminateKeepsSolutions(m: Matrix, j: nat, x: seq<real>)
    requires IsAugmented(m) && j < |m|
    ensures Solves(m, x) <==> Solves(EliminateColumn(m, j), x)
  {
    var e := EliminateColumn(m, j);
    if |x| == |m| {
      forall i | 0 <= i < |m| && i != j && RowHolds(m[j], x)
        ensures RowHolds(m[i], x) <==> RowHolds(e[i], x)
      {
        DotEliminated(m[i], m[j], x, j, |x|);
      }
      if Solves(m, x) {
        forall i | 0 <= i < |e|
          ensures RowHolds(e[i], x)
        {
          assert RowHolds(m[i], x) && RowHolds(m[j], x);
        }
      }
      if Solves(e, x) {
        assert RowHolds(e[j], x);
        forall i | 0 <= i < |m|
          ensures RowHolds(m[i], x)
        {
          assert RowHolds(e[i], x);
        }
      }
    }
  }

  /** Over a coefficient block that is the identity, the only solution is the right-hand side. */
  lemma IdentitySolutions(s: Matrix, x: seq<real>)
    requires IsAugmented(s) && IdentityUpTo(s, |s|)
    ensures Solves(s, x) <==> x == Rhs(s)
  {
    if |x| == |s| {
      forall i | 0 <= i < |s|
        ensures Dot(s[i], x, |s|) == x[i]
      {
        forall k | 0 <= k < |s|
          ensures s[i][k] == if k == i then 1.0 else 0.0
        {
          assert UnitColumn(s, k);
        }
        DotUnit(s[i], x, i, |s|);
      }
      if Solves(s, x) {
        forall i | 0 <= i < |s|
          ensures x[i] == Rhs(s)[i]
        {
          assert RowHolds(s[i], x);
        }
      }
      if x == Rhs(s) {
        forall i | 0 <= i < |s|
          ensures RowHolds(s[i], x)
        {
        }
      }
    }
  }

  // ---------------------------------------------------------------------------
  // Row operations keep the identity columns built so far
  // ---------------------------------------------------------------------------

  lemma SwapKeepsIdentity(m: Matrix, j: nat, p: nat)
    requires IsAugmented(m) && j <= p < |m| && IdentityUpTo(m, j)
    ensures IdentityUpTo(SwapRows(m, j, p), j)
  {
    var s := SwapRows(m, j, p);
    forall c | 0 <= c < j
      ensures UnitColumn(s, c)
    {
      assert UnitColumn(m, c);
    }
  }

  lemma NormalizeKeepsIdentity(m: Matrix, j: nat)
    requires IsAugmented(m) && j < |m| && m[j][j] != 0.0 && IdentityUpTo(m, j)
    ensures IdentityUpTo(NormalizeRow(m, j), j)
  {
    var r := NormalizeRow(m, j);
    forall c | 0 <= c < j
      ensures UnitColumn(r, c)
    {
      assert UnitColumn(m, c);
      assert r[j][c] == m[j][c] * (1.0 / m[j][j]);
    }
  }

  lemma EliminateKeepsIdentity(m: Matrix, j: nat)
    requires IsAugmented(m) && j < |m| && m[j][j] == 1.0 && IdentityUpTo(m, j)
    ensures IdentityUpTo(EliminateColumn(m, j), j + 1)
  {
    var e := EliminateColumn(m, j);
    forall c | 0 <= c < j
      ensures UnitColumn(e, c)
    {
      assert UnitColumn(m, c);
      forall i | 0 <= i < |m| && i != j
        ensures e[i][c] == m[i][c]
      {
        assert e[i][c] == m[i][c] + (-m[i][j]) * m[j][c];
      }
    }
  }

  // ---------------------------------------------------------------------------
  // Row operations keep linear dependence of the rows
  // ---------------------------------------------------------------------------

  lemma {:induction false} CombinationOfZero(m: Matrix, lam: seq<real>, c: nat, n: nat)
    requires IsAugmented(m) && |lam| == |m| && n <= |m| && c <= |m|
    ensures IsZero(lam) ==> Combination(m, lam, c, n) == 0.0
  {
    if n > 0 {
      CombinationOfZero(m, lam, c, n - 1);
    }
  }

  /** Replacing row i and its weight changes the combination by exactly that row's term. */
  lemma {:induction false} CombinationUpdate(m: Matrix, lam: seq<real>, i: nat, row: seq<real>, v: real, c: nat, n: nat)
    requires IsAugmented(m) && |lam| == |m| && i < |m| && |row| == |m| + 1 && n <= |m| && c <= |m|
    ensures IsAugmented(m[i := row])
    ensures Combination(m[i := row], lam[i := v], c, n)
         == Combination(m, lam, c, n) + (if i < n then v * row[c] - lam[i] * m[i][c] else 0.0)
  {
    if n > 0 {
      CombinationUpdate(m, lam, i, row, v, c, n - 1);
    }
  }

  /** Against an identity column, the combination picks out the weight of that row. */
  lemma {:induction false} CombinationUnit(s: Matrix, lam: seq<real>, c: nat, n: nat)
    requires IsAugmented(s) && |lam| == |s| && n <= |s| && c < |s| && UnitColumn(s, c)
    ensures Combination(s, lam, c, n) == if c < n then lam[c] else 0.0
  {
    if n > 0 {
      CombinationUnit(s, lam, c, n - 1);
    }
  }

  /** Entry c of the combination after clearing column j, stated entry-wise for any such e. */
  lemma {:induction false} CombinationEliminate(m: Matrix, e: Matrix, lam: seq<real>, j: nat, c: nat, n: nat)
    requires IsAugmented(m) && IsAugmented(e) && |e| == |m| && |lam| == |m|
    requires j < |m| && n <= |m| && c <= |m| && lam[j] == 0.0
    requires forall i :: 0 <= i < |m| && i != j ==> e[i][c] == m[i][c] + (-m[i][j]) * m[j][c]
    ensures Combination(e, lam, c, n) == Combination(m, lam, c, n) - Combination(m, lam, j, n) * m[j][c]
  {
    if n == 0 {
      ZeroTimes(m[j][c]);
    } else {
      CombinationEliminate(m, e, lam, j, c, n - 1);
      var i := n - 1;
      RegroupCombination(Combination(e, lam, c, n), Combination(e, lam, c, i), e[i][c],
                         Combination(m, lam, c, n), Combination(m, lam, c, i),
                         Combination(m, lam, j, n), Combination(m, lam, j, i),
                         lam[i], m[i][c], m[i][j], m[j][c]);
    }
  }

  lemma RegroupCombination(en: real, ce: real, eic: real, cn: real, cc: real, jn: real, cj: real,
                           l: real, u: real, v: real, w: real)
    requires en == ce + l * eic && ce == cc - cj * w
    requires cn == cc + l * u && jn == cj + l * v
    requires eic == u + (-v) * w || l == 0.0
    ensures en == cn - jn * w
  {
  }

  lemma ZeroTimes(a: real)
    ensures 0.0 * a == 0.0
  {
  }

  lemma SwapKeepsDependence(m: Matrix, i: nat, j: nat, lam: seq<real>)
    requires IsAugmented(m) && i < |m| && j < |m| && DependentWith(m, lam)
    ensures DependentWith(SwapRows(m, i, j), lam[i := lam[j]][j := lam[i]])
  {
    var m1 := m[i := m[j]];
    var lam1 := lam[i := lam[j]];
    var lam2 := lam1[j := lam[i]];
    forall c | 0 <= c < |m|
      ensures Combination(SwapRows(m, i, j), lam2, c, |m|) == 0.0
    {
      CombinationUpdate(m, lam, i, m[j], lam[j], c, |m|);
      CombinationUpdate(m1, lam1, j, m[i], lam[i], c, |m|);
    }
    var k :| 0 <= k < |lam| && lam[k] != 0.0;
    if k == i {
      assert lam2[j] != 0.0;
    } else if k == j {
      assert lam2[i] != 0.0;
    } else {
      assert lam2[k] != 0.0;
    }
  }

  lemma NormalizeKeepsDependence(m: Matrix, j: nat, lam: seq<real>)
    requires IsAugmented(m) && j < |m| && m[j][j] != 0.0 && DependentWith(m, lam)
    ensures DependentWith(NormalizeRow(m, j), lam[j := lam[j] * m[j][j]])
  {
    var lam1 := lam[j := lam[j] * m[j][j]];
    forall c | 0 <= c < |m|
      ensures Combination(NormalizeRow(m, j), lam1, c, |m|) == 0.0
    {
      CombinationUpdate(m, lam, j, ScaledRow(m[j], j), lam[j] * m[j][j], c, |m|);
      ScaleCancels(lam[j], m[j][j], ScaledRow(m[j], j)[c], m[j][c]);
    }
    var k :| 0 <= k < |lam| && lam[k] != 0.0;
    if k == j {
      NonZeroProduct(lam[j], m[j][j]);
    }
    assert lam1[k] != 0.0;
  }

  lemma ScaleCancels(a: real, p: real, r: real, mc: real)
    requires r * p == mc
    ensures (a * p) * r == a * mc
  {
  }

  lemma NonZeroProduct(a: real, b: real)
    requires a != 0.0 && b != 0.0
    ensures a * b != 0.0
  {
  }

  lemma EliminateKeepsDependence(m: Matrix, j: nat, lam: seq<real>)
    requires IsAugmented(m) && j < |m| && m[j][j] == 1.0 && DependentWith(m, lam)
    ensures DependentWith(EliminateColumn(m, j), lam[j := 0.0])
  {
    var e, lam0 := EliminateColumn(m, j), lam[j := 0.0];
    forall c | 0 <= c < |m|
      ensures Combination(e, lam0, c, |m|) == 0.0
    {
      EliminatedCombinationZero(m, j, lam, c);
    }
    DroppedWeightNonZero(m, j, lam);
  }

  /** Outside row j, column c of the eliminated matrix is m[i][c] - m[i][j]·m[j][c]. */
  lemma EliminatedEntries(m: Matrix, j: nat, c: nat)
    requires IsAugmented(m) && j < |m| && c <= |m|
    ensures forall i :: 0 <= i < |m| && i != j ==>
              EliminateColumn(m, j)[i][c] == m[i][c] + (-m[i][j]) * m[j][c]
  {
    var e := EliminateColumn(m, j);
    forall i | 0 <= i < |m| && i != j
      ensures e[i][c] == m[i][c] + (-m[i][j]) * m[j][c]
    {
      assert e[i] == EliminatedRow(m[i], m[j], j);
    }
  }

  lemma EliminatedCombinationZero(m: Matrix, j: nat, lam: seq<real>, c: nat)
    requires IsAugmented(m) && j < |m| && m[j][j] == 1.0 && DependentWith(m, lam) && c < |m|
    ensures Combination(EliminateColumn(m, j), lam[j := 0.0], c, |m|) == 0.0
  {
    var e := EliminateColumn(m, j);
    var lam0 := lam[j := 0.0];
    EliminatedEntries(m, j, c);
    CombinationEliminate(m, e, lam0, j, c, |m|);
    AddWeight(m, lam, j, c);
    AddWeight(m, lam, j, j);
    EliminationCancels(Combination(e, lam0, c, |m|), Combination(m, lam0, c, |m|), Combination(m, lam0, j, |m|),
                       Combination(m, lam, c, |m|), Combination(m, lam, j, |m|), lam[j], m[j][c], m[j][j]);
  }

  /**
    The weights with row j dropped are not all zero: either lam is non-zero off
    row j, or column j of the combination with them is -lam[j] != 0.
  */
  lemma DroppedWeightNonZero(m: Matrix, j: nat, lam: seq<real>)
    requires IsAugmented(m) && j < |m| && m[j][j] == 1.0 && DependentWith(m, lam)
    ensures !IsZero(lam[j := 0.0])
  {
    var lam0 := lam[j := 0.0];
    var k :| 0 <= k < |lam| && lam[k] != 0.0;
    if k != j {
      assert lam0[k] != 0.0;
    } else {
      AddWeight(m, lam, j, j);
      assert Combination(m, lam0, j, |m|) == -lam[j];
      CombinationOfZero(m, lam0, j, |m|);
    }
  }

  lemma EliminationCancels(en: real, cc: real, cj: real, zc: real, zj: real, l: real, w: real, one: real)
    requires en == cc - cj * w && zc == cc + l * w && zj == cj + l * one
    requires zc == 0.0 && zj == 0.0 && one == 1.0
    ensures en == 0.0
  {
  }

  /** A coefficient block that is the identity has independent rows. */
  lemma IdentityIsIndependent(s: Matrix, lam: seq<real>)
    requires IsAugmented(s) && IdentityUpTo(s, |s|)
    ensures !DependentWith(s, lam)
  {
    if DependentWith(s, lam) {
      forall c | 0 <= c < |s|
        ensures lam[c] == 0.0
      {
        CombinationUnit(s, lam, c, |s|);
      }
      assert IsZero(lam);
    }
  }

  /** A combination whose weights vanish outside row p is that row's term. */
  lemma {:induction false} CombinationOfOne(m: Matrix, lam: seq<real>, p: nat, c: nat, n: nat)
    requires IsAugmented(m) && |lam| == |m| && n <= |m| && c <= |m| && p < |m|
    requires forall i :: 0 <= i < |m| && i != p ==> lam[i] == 0.0
    ensures Combination(m, lam, c, n) == if p < n then lam[p] * m[p][c] else 0.0
  {
    if n > 0 {
      CombinationOfOne(m, lam, p, c, n - 1);
      if n - 1 != p {
        ZeroTimes(m[n - 1][c]);
      }
    }
  }

  /** The combination is the one with the weight of row r dropped, plus row r's term. */
  lemma AddWeight(m: Matrix, lam: seq<real>, r: nat, c: nat)
    requires IsAugmented(m) && |lam| == |m| && c <= |m| && r < |m|
    ensures Combination(m, lam, c, |m|) == Combination(m, lam[r := 0.0], c, |m|) + lam[r] * m[r][c]
  {
    var lam0 := lam[r := 0.0];
    assert lam0[r := lam[r]] == lam;
    assert m[r := m[r]] == m;
    CombinationUpdate(m, lam0, r, m[r], lam[r], c, |m|);
    ZeroTimes(m[r][c]);
  }

  /** A combination whose weights vanish outside rows p and q is the sum of those two terms. */
  lemma CombinationOfTwo(m: Matrix, lam: seq<real>, p: nat, q: nat, c: nat)
    requires IsAugmented(m) && |lam| == |m| && c <= |m|
    requires p < |m| && q < |m| && p != q
    requires forall i :: 0 <= i < |m| && i != p && i != q ==> lam[i] == 0.0
    ensures Combination(m, lam, c, |m|) == lam[p] * m[p][c] + lam[q] * m[q][c]
  {
    var lam0 := lam[q := 0.0];
    assert lam0[p] == lam[p];
    AddWeight(m, lam, q, c);
    CombinationOfOne(m, lam0, p, c, |m|);
  }

  /** A combination whose weights vanish outside rows p, q and r is the sum of those three terms. */
  lemma CombinationOfThree(m: Matrix, lam: seq<real>, p: nat, q: nat, r: nat, c: nat)
    requires IsAugmented(m) && |lam| == |m| && c <= |m|
    requires p < |m| && q < |m| && r < |m| && p != q && q != r && p != r
    requires forall i :: 0 <= i < |m| && i != p && i != q && i != r ==> lam[i] == 0.0
    ensures Combination(m, lam, c, |m|) == lam[p] * m[p][c] + lam[q] * m[q][c] + lam[r] * m[r][c]
  {
    var lam0 := lam[r := 0.0];
    assert lam0[p] == lam[p] && lam0[q] == lam[q];
    AddWeight(m, lam, r, c);
    CombinationOfTwo(m, lam0, p, q, c);
  }
}

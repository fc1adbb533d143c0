/**
  The solver of main/LinearEquationSystem.java: Gauss-Jordan elimination on a
  dim × (dim + 1) augmented matrix [A | b], with the pivot of column j taken as
  the FIRST row at or below j whose entry exceeds the tolerance in magnitude.

  `AfterColumns` is the functional reference (the matrix after the outer loop
  has handled columns 0 .. j-1); `Solve` is the imperative algorithm, written
  over a fresh two-dimensional array as the Java code mutates its own matrix,
  and proved to compute exactly what the reference computes.
*/
module LinearEquationSystem {
  import opened Base
  import opened Matrices

  /** The tolerance a new system starts with. */
  const DefaultEps: real := 0.000001

  /** "Could not find a unique solution...": no usable pivot in the given column. */
  datatype SolveError = NoUniqueSolution(column: nat)

  /** A system as the Java object holds it: the augmented matrix and the pivot tolerance. */
  datatype EquationSystem = EquationSystem(m: Matrix, eps: real)

  /** The constructor keeps the matrix and starts from the default tolerance. */
  function Create(m: Matrix): (s: EquationSystem)
    ensures s.m == m && s.eps == DefaultEps
  {
    EquationSystem(m, DefaultEps)
  }

  /** setEps replaces the tolerance and nothing else. */
  function SetEps(s: EquationSystem, eps: real): (r: EquationSystem)
    ensures r.m == s.m && r.eps == eps
  {
    s.(eps := eps)
  }

  // ---------------------------------------------------------------------------
  // Functional reference
  // ---------------------------------------------------------------------------

  /** Scans rows i, i+1, ... for the first entry of column j above eps in magnitude. */
  function PivotSearch(m: Matrix, j: nat, i: nat, eps: real): (r: Option<nat>)
    requires IsAugmented(m) && j <= i <= |m| && j < |m|
    requires forall k :: j <= k < i ==> Abs(m[k][j]) <= eps
    ensures r.Some? ==> j <= r.value < |m| && Abs(m[r.value][j]) > eps
    ensures r.Some? ==> forall k :: j <= k < r.value ==> Abs(m[k][j]) <= eps
    ensures r.None? ==> forall k :: j <= k < |m| ==> Abs(m[k][j]) <= eps
    decreases |m| - i
  {
    if i == |m| then None
    else if Abs(m[i][j]) > eps then Some(i)
    else PivotSearch(m, j, i + 1, eps)
  }

  /**
    The pivot row of column j: the first row at or below j whose entry exceeds
    eps in magnitude (not the row of largest magnitude), or None when no row does.
  */
  function PivotRow(m: Matrix, j: nat, eps: real): (r: Option<nat>)
    requires IsAugmented(m) && j < |m|
    ensures r.Some? ==> j <= r.value < |m| && Abs(m[r.value][j]) > eps
    ensures r.Some? ==> forall k :: j <= k < r.value ==> Abs(m[k][j]) <= eps
    ensures r.None? ==> forall k :: j <= k < |m| ==> Abs(m[k][j]) <= eps
  {
    PivotSearch(m, j, j, eps)
  }

  /** One pass of the outer loop for column j with pivot row p: swap, normalise, eliminate. */
  function Step(m: Matrix, j: nat, p: nat): (r: Matrix)
    requires IsAugmented(m) && j <= p < |m| && m[p][j] != 0.0
    ensures IsAugmented(r) && |r| == |m|
  {
    EliminateColumn(NormalizeRow(SwapRows(m, j, p), j), j)
  }

  lemma StepKeepsIdentity(m: Matrix, j: nat, p: nat)
    requires IsAugmented(m) && j <= p < |m| && m[p][j] != 0.0 && IdentityUpTo(m, j)
    ensures IdentityUpTo(Step(m, j, p), j + 1)
  {
    var sw := SwapRows(m, j, p);
    SwapKeepsIdentity(m, j, p);
    NormalizeKeepsIdentity(sw, j);
    EliminateKeepsIdentity(NormalizeRow(sw, j), j);
  }

  /**
    The matrix once the outer loop has handled columns 0 .. j-1, or the failure
    of the first column that had no pivot. Columns 0 .. j-1 of the result are
    identity columns: the invariant of the elimination loop.
  */
  function AfterColumns(m: Matrix, j: nat, eps: real): (r: Result<Matrix, SolveError>)
    requires IsAugmented(m) && j <= |m| && eps >= 0.0
    ensures r.Success? ==> IsAugmented(r.value) && |r.value| == |m| && IdentityUpTo(r.value, j)
    ensures r.Failure? ==> r.error.column < j
    decreases j
  {
    if j == 0 then Success(m)
    else
      match AfterColumns(m, j - 1, eps)
      case Failure(e) => Failure(e)
      case Success(s) =>
        match PivotRow(s, j - 1, eps)
        case None => Failure(NoUniqueSolution(j - 1))
        case Some(p) =>
          StepKeepsIdentity(s, j - 1, p);
          Success(Step(s, j - 1, p))
  }

  /** The solution vector read from the right-hand-side column, or the failure. */
  function GaussJordan(m: Matrix, eps: real): (r: Result<seq<real>, SolveError>)
    requires IsAugmented(m) && eps >= 0.0
    ensures r.Success? ==> |r.value| == |m|
  {
    match AfterColumns(m, |m|, eps)
    case Failure(e) => Failure(e)
    case Success(s) => Success(Rhs(s))
  }

  /** The elimination reached column j with the matrix intact and found no pivot there. */
  predicate StuckAt(m: Matrix, j: nat, eps: real)
    requires IsAugmented(m) && eps >= 0.0
  {
    j < |m| && AfterColumns(m, j, eps).Success? && PivotRow(AfterColumns(m, j, eps).value, j, eps).None?
  }

  // ---------------------------------------------------------------------------
  // What one step preserves
  // ---------------------------------------------------------------------------

  lemma StepKeepsSolutions(m: Matrix, j: nat, p: nat, x: seq<real>)
    requires IsAugmented(m) && j <= p < |m| && m[p][j] != 0.0
    ensures Solves(m, x) <==> Solves(Step(m, j, p), x)
  {
    var sw := SwapRows(m, j, p);
    SwapKeepsSolutions(m, j, p, x);
    NormalizeKeepsSolutions(sw, j, x);
    EliminateKeepsSolutions(NormalizeRow(sw, j), j, x);
  }

  lemma StepKeepsDependence(m: Matrix, j: nat, p: nat, lam: seq<real>)
    requires IsAugmented(m) && j <= p < |m| && m[p][j] != 0.0 && DependentWith(m, lam)
    ensures RowsDependent(Step(m, j, p))
  {
    var sw := SwapRows(m, j, p);
    var lam1 := lam[j := lam[p]][p := lam[j]];
    SwapKeepsDependence(m, j, p, lam);
    var lam2 := lam1[j := lam1[j] * sw[j][j]];
    NormalizeKeepsDependence(sw, j, lam1);
    var nr := NormalizeRow(sw, j);
    EliminateKeepsDependence(nr, j, lam2);
    assert DependentWith(Step(m, j, p), lam2[j := 0.0]);
  }

  // ---------------------------------------------------------------------------
  // Correctness of the reference
  // ---------------------------------------------------------------------------

  /** Every prefix of the elimination has the same solution set as the original system. */
  lemma {:induction false} AfterColumnsKeepsSolutions(m: Matrix, j: nat, eps: real, x: seq<real>)
    requires IsAugmented(m) && j <= |m| && eps >= 0.0
    ensures AfterColumns(m, j, eps).Success? ==> (Solves(m, x) <==> Solves(AfterColumns(m, j, eps).value, x))
  {
    if j > 0 {
      AfterColumnsKeepsSolutions(m, j - 1, eps, x);
      var prev := AfterColumns(m, j - 1, eps);
      if prev.Success? {
        var piv := PivotRow(prev.value, j - 1, eps);
        if piv.Some? {
          StepKeepsSolutions(prev.value, j - 1, piv.value, x);
        }
      }
    }
  }

  /** Linearly dependent rows stay dependent through every prefix of the elimination. */
  lemma {:induction false} AfterColumnsKeepsDependence(m: Matrix, j: nat, eps: real)
    requires IsAugmented(m) && j <= |m| && eps >= 0.0 && RowsDependent(m)
    ensures AfterColumns(m, j, eps).Success? ==> RowsDependent(AfterColumns(m, j, eps).value)
  {
    if j > 0 {
      AfterColumnsKeepsDependence(m, j - 1, eps);
      var prev := AfterColumns(m, j - 1, eps);
      if prev.Success? {
        var piv := PivotRow(prev.value, j - 1, eps);
        if piv.Some? {
          var lam :| DependentWith(prev.value, lam);
          StepKeepsDependence(prev.value, j - 1, piv.value, lam);
        }
      }
    }
  }

  /** A returned vector solves A·x = b, and it is the only vector that does. */
  lemma GaussJordanSolves(m: Matrix, eps: real)
    requires IsAugmented(m) && eps >= 0.0
    ensures GaussJordan(m, eps).Success? ==> Solves(m, GaussJordan(m, eps).value)
    ensures GaussJordan(m, eps).Success? ==>
              forall y :: Solves(m, y) ==> y == GaussJordan(m, eps).value
  {
    var fin := AfterColumns(m, |m|, eps);
    if fin.Success? {
      var s := fin.value;
      AfterColumnsKeepsSolutions(m, |m|, eps, Rhs(s));
      IdentitySolutions(s, Rhs(s));
      forall y | Solves(m, y)
        ensures y == Rhs(s)
      {
        AfterColumnsKeepsSolutions(m, |m|, eps, y);
        IdentitySolutions(s, y);
      }
    }
  }

  /** The returned vector solves the system. */
  lemma SolutionSolves(m: Matrix, eps: real)
    requires IsAugmented(m) && eps >= 0.0 && GaussJordan(m, eps).Success?
    ensures Solves(m, GaussJordan(m, eps).value)
  {
    GaussJordanSolves(m, eps);
  }

  /** Any solution of the system is the one solve returned. */
  lemma SolutionIsUnique(m: Matrix, eps: real, y: seq<real>)
    requires IsAugmented(m) && eps >= 0.0 && GaussJordan(m, eps).Success? && Solves(m, y)
    ensures y == GaussJordan(m, eps).value
  {
    GaussJordanSolves(m, eps);
  }

  /** A coefficient block with a non-trivial kernel is never solved: solve fails. */
  lemma GaussJordanSingularFails(m: Matrix, eps: real)
    requires IsAugmented(m) && eps >= 0.0 && Singular(m)
    ensures GaussJordan(m, eps).Failure?
  {
    if GaussJordan(m, eps).Success? {
      var x := GaussJordan(m, eps).value;
      var z :| InKernel(m, z) && !IsZero(z);
      GaussJordanSolves(m, eps);
      var y := VecAdd(x, z);
      forall i | 0 <= i < |m|
        ensures RowHolds(m[i], y)
      {
        DotAdd(m[i], x, z, |m|);
        assert RowHolds(m[i], x);
      }
      assert Solves(m, y);
    }
  }

  /** Linearly dependent equations make solve fail, whatever their right-hand sides. */
  lemma GaussJordanDependentFails(m: Matrix, eps: real)
    requires IsAugmented(m) && eps >= 0.0 && RowsDependent(m)
    ensures GaussJordan(m, eps).Failure?
  {
    var fin := AfterColumns(m, |m|, eps);
    AfterColumnsKeepsDependence(m, |m|, eps);
    if fin.Success? {
      var lam :| DependentWith(fin.value, lam);
      IdentityIsIndependent(fin.value, lam);
    }
  }

  /** Once a column has failed, the failure is the final outcome. */
  lemma {:induction false} FailurePersists(m: Matrix, j: nat, n: nat, eps: real)
    requires IsAugmented(m) && j <= n <= |m| && eps >= 0.0 && AfterColumns(m, j, eps).Failure?
    ensures AfterColumns(m, n, eps) == AfterColumns(m, j, eps)
    decreases n - j
  {
    if j < n {
      FailurePersists(m, j, n - 1, eps);
    }
  }

  /** Solve fails exactly when, at some column j it reaches, no row i >= j has |m[i][j]| > eps. */
  lemma {:induction false} GaussJordanFailsIffStuck(m: Matrix, eps: real)
    requires IsAugmented(m) && eps >= 0.0
    ensures GaussJordan(m, eps).Failure? ==> StuckAt(m, GaussJordan(m, eps).error.column, eps)
    ensures (exists j: nat :: StuckAt(m, j, eps)) ==> GaussJordan(m, eps).Failure?
  {
    FailedColumnIsStuck(m, |m|, eps);
    if exists j: nat :: StuckAt(m, j, eps) {
      var j: nat :| StuckAt(m, j, eps);
      assert AfterColumns(m, j + 1, eps).Failure?;
      FailurePersists(m, j + 1, |m|, eps);
    }
  }

  lemma {:induction false} FailedColumnIsStuck(m: Matrix, n: nat, eps: real)
    requires IsAugmented(m) && n <= |m| && eps >= 0.0
    ensures AfterColumns(m, n, eps).Failure? ==> StuckAt(m, AfterColumns(m, n, eps).error.column, eps)
  {
    if n > 0 {
      FailedColumnIsStuck(m, n - 1, eps);
    }
  }

  /** Two equations with the same coefficients (whatever their right-hand sides) make solve fail. */
  lemma RepeatedRowsFail(m: Matrix, p: nat, q: nat, eps: real)
    requires IsAugmented(m) && eps >= 0.0 && p < |m| && q < |m| && p != q
    requires forall c :: 0 <= c < |m| ==> m[p][c] == m[q][c]
    ensures GaussJordan(m, eps).Failure?
  {
    var lam := seq(|m|, i requires 0 <= i < |m| => if i == p then 1.0 else if i == q then -1.0 else 0.0);
    forall c | 0 <= c < |m|
      ensures Combination(m, lam, c, |m|) == 0.0
    {
      CombinationOfTwo(m, lam, p, q, c);
    }
    assert lam[p] != 0.0;
    assert DependentWith(m, lam);
    GaussJordanDependentFails(m, eps);
  }

  // ---------------------------------------------------------------------------
  // The system object
  // ---------------------------------------------------------------------------

  /**
    solve() on a system object: elimination with the object's own tolerance, so
    whatever setEps stored last is the tolerance the next solve uses.
  */
  function SolveSystem(s: EquationSystem): (r: Result<seq<real>, SolveError>)
    requires IsAugmented(s.m) && s.eps >= 0.0
    ensures r.Success? ==> |r.value| == |s.m| && Solves(s.m, r.value)
    ensures r.Success? ==> forall y :: Solves(s.m, y) ==> y == r.value
    ensures r.Failure? ==> StuckAt(s.m, r.error.column, s.eps)
    ensures (exists j: nat :: StuckAt(s.m, j, s.eps)) ==> r.Failure?
  {
    GaussJordanSolves(s.m, s.eps);
    GaussJordanFailsIffStuck(s.m, s.eps);
    GaussJordan(s.m, s.eps)
  }

  /** The one-equation system 0.5·x = 1, whose only coefficient lies between the two tolerances below. */
  const HalfSystem: Matrix := [[0.5, 1.0]]

  /**
    setEps takes effect: with the default tolerance 0.5·x = 1 is solved, after
    setEps(1) the same system has no pivot above the tolerance and solve fails.
  */
  lemma SetEpsTakesEffect()
    ensures SolveSystem(Create(HalfSystem)) == Success([2.0])
    ensures SolveSystem(SetEps(Create(HalfSystem), 1.0)) == Failure(NoUniqueSolution(0))
  {
    var m := HalfSystem;
    assert IsAugmented(m);
    assert PivotSearch(m, 0, 0, DefaultEps) == Some(0);
    assert PivotSearch(m, 0, 1, 1.0) == None;
    assert PivotSearch(m, 0, 0, 1.0) == None;
    assert SwapRows(m, 0, 0) == m;
    assert ScaledRow(m[0], 0) == [1.0, 2.0];
    assert NormalizeRow(m, 0) == [[1.0, 2.0]];
    assert EliminateColumn([[1.0, 2.0]], 0) == [[1.0, 2.0]];
    assert AfterColumns(m, 1, DefaultEps) == Success([[1.0, 2.0]]);
    assert Rhs([[1.0, 2.0]]) == [2.0];
    assert AfterColumns(m, 1, 1.0) == Failure(NoUniqueSolution(0));
  }

  // ---------------------------------------------------------------------------
  // The imperative solver
  // ---------------------------------------------------------------------------

  /** The array holds the matrix cur entry for entry. */
  ghost predicate Mirrors(a: array2<real>, cur: Matrix)
    reads a
  {
    IsAugmented(cur) && a.Length0 == |cur| && a.Length1 == |cur| + 1 &&
    forall r, c :: 0 <= r < |cur| && 0 <= c <= |cur| ==> a[r, c] == cur[r][c]
  }

  /** The copy of the input matrix the algorithm works on. */
  method CopyMatrix(m: Matrix) returns (a: array2<real>)
    requires IsAugmented(m)
    ensures fresh(a) && Mirrors(a, m)
  {
    var dim := |m|;
    a := new real[dim, dim + 1];
    for i := 0 to dim
      invariant forall r, c :: 0 <= r < i && 0 <= c <= dim ==> a[r, c] == m[r][c]
    {
      for k := 0 to dim + 1
        invariant forall r, c :: 0 <= r < i && 0 <= c <= dim ==> a[r, c] == m[r][c]
        invariant forall c :: 0 <= c < k ==> a[i, c] == m[i][c]
      {
        a[i, k] := m[i][k];
      }
    }
  }

  /** The pivot search loop: the first row at or below j with an entry above eps, or dim. */
  method FindPivot(a: array2<real>, ghost cur: Matrix, j: nat, eps: real) returns (p: nat)
    requires Mirrors(a, cur) && j < |cur|
    ensures j <= p <= |cur|
    ensures p == |cur| ==> PivotRow(cur, j, eps).None?
    ensures p < |cur| ==> PivotRow(cur, j, eps) == Some(p)
  {
    var dim := a.Length0;
    p := j;
    while p < dim && Abs(a[p, j]) <= eps
      invariant j <= p <= dim
      invariant forall k :: j <= k < p ==> Abs(cur[k][j]) <= eps
    {
      p := p + 1;
    }
  }

  /** Exchanges rows j and p entry by entry, the right-hand side included. */
  method SwapInPlace(a: array2<real>, ghost cur: Matrix, j: nat, p: nat)
    requires Mirrors(a, cur) && j <= p < |cur|
    modifies a
    ensures Mirrors(a, SwapRows(cur, j, p))
  {
    var dim := a.Length0;
    ghost var sw := SwapRows(cur, j, p);
    var xx: real;
    for k := 0 to dim
      invariant forall r, c :: 0 <= r < dim && 0 <= c <= dim ==>
                  a[r, c] == if (r == j || r == p) && c < k then sw[r][c] else cur[r][c]
    {
      xx := a[j, k];
      a[j, k] := a[p, k];
      a[p, k] := xx;
    }
    xx := a[j, dim];
    a[j, dim] := a[p, dim];
    a[p, dim] := xx;
  }

  /** Multiplies row j by the reciprocal of its diagonal entry. */
  method NormalizeInPlace(a: array2<real>, ghost cur: Matrix, j: nat)
    requires Mirrors(a, cur) && j < |cur| && cur[j][j] != 0.0
    modifies a
    ensures Mirrors(a, NormalizeRow(cur, j))
  {
    var dim := a.Length0;
    ghost var nr := NormalizeRow(cur, j);
    var yy := 1.0 / a[j, j];
    for k := 0 to dim
      invariant yy == 1.0 / cur[j][j]
      invariant forall r, c :: 0 <= r < dim && 0 <= c <= dim ==>
                  a[r, c] == if r == j && c < k then nr[r][c] else cur[r][c]
    {
      a[j, k] := a[j, k] * yy;
    }
    a[j, dim] := a[j, dim] * yy;
  }

  /** Subtracts multiples of row j from every other row, clearing column j there. */
  method EliminateInPlace(a: array2<real>, ghost cur: Matrix, j: nat)
    requires Mirrors(a, cur) && j < |cur|
    modifies a
    ensures Mirrors(a, EliminateColumn(cur, j))
  {
    var dim := a.Length0;
    ghost var el := EliminateColumn(cur, j);
    for i := 0 to dim
      invariant forall r, c :: 0 <= r < dim && 0 <= c <= dim ==>
                  a[r, c] == if r < i then el[r][c] else cur[r][c]
    {
      if i != j {
        var yy := -a[i, j];
        for k := 0 to dim
          invariant yy == -cur[i][j]
          invariant forall r, c :: 0 <= r < dim && 0 <= c <= dim ==>
                      a[r, c] == if r < i || (r == i && c < k) then el[r][c] else cur[r][c]
        {
          a[i, k] := a[i, k] + yy * a[j, k];
        }
        a[i, dim] := a[i, dim] + yy * a[j, dim];
      }
    }
  }

  /** The last column of the array: the solution once every column is an identity column. */
  method ReadSolution(a: array2<real>, ghost cur: Matrix) returns (x: seq<real>)
    requires Mirrors(a, cur)
    ensures x == Rhs(cur)
  {
    var dim := a.Length0;
    x := [];
    for i := 0 to dim
      invariant x == Rhs(cur)[..i]
    {
      x := x + [a[i, dim]];
    }
  }

  /** One pass of the outer loop on the array: swap rows j and p, normalise row j, clear column j. */
  method StepInPlace(a: array2<real>, ghost cur: Matrix, j: nat, p: nat)
    requires Mirrors(a, cur) && j <= p < |cur| && cur[p][j] != 0.0
    modifies a
    ensures Mirrors(a, Step(cur, j, p))
  {
    SwapInPlace(a, cur, j, p);
    NormalizeInPlace(a, SwapRows(cur, j, p), j);
    EliminateInPlace(a, NormalizeRow(SwapRows(cur, j, p), j), j);
  }

  /** A column with a pivot extends the elimination by one step. */
  lemma AfterColumnsStep(m: Matrix, j: nat, eps: real, cur: Matrix, p: nat)
    requires IsAugmented(m) && j < |m| && eps >= 0.0 && AfterColumns(m, j, eps) == Success(cur)
    requires PivotRow(cur, j, eps) == Some(p)
    ensures cur[p][j] != 0.0
    ensures AfterColumns(m, j + 1, eps) == Success(Step(cur, j, p))
  {
  }

  /** A column without a pivot decides the outcome of the whole elimination. */
  lemma AfterColumnsStuck(m: Matrix, j: nat, eps: real, cur: Matrix)
    requires IsAugmented(m) && j < |m| && eps >= 0.0 && AfterColumns(m, j, eps) == Success(cur)
    requires PivotRow(cur, j, eps).None?
    ensures GaussJordan(m, eps) == Failure(NoUniqueSolution(j))
    ensures StuckAt(m, j, eps)
  {
    StuckColumnFails(m, j, eps, cur);
    FailurePersists(m, j + 1, |m|, eps);
  }

  lemma StuckColumnFails(m: Matrix, j: nat, eps: real, cur: Matrix)
    requires IsAugmented(m) && j < |m| && eps >= 0.0 && AfterColumns(m, j, eps) == Success(cur)
    requires PivotRow(cur, j, eps).None?
    ensures AfterColumns(m, j + 1, eps) == Failure(NoUniqueSolution(j))
  {
  }

  /**
    solve(): works on its own copy of the matrix, in place, column by column;
    the result is the reference's, so a returned vector is the unique solution
    and a failure names a column where no pivot was found.
  */
  method Solve(m: Matrix, eps: real) returns (r: Result<seq<real>, SolveError>)
    requires IsAugmented(m) && eps >= 0.0
    ensures r == GaussJordan(m, eps)
    ensures r.Success? ==> |r.value| == |m| && Solves(m, r.value)
    ensures r.Success? ==> forall y :: Solves(m, y) ==> y == r.value
    ensures r.Failure? ==> StuckAt(m, r.error.column, eps)
  {
    r := SolveInPlace(m, eps);
    GaussJordanSolves(m, eps);
    GaussJordanFailsIffStuck(m, eps);
  }

  /** The loops of solve() over the copied array: they compute exactly the reference result. */
  method SolveInPlace(m: Matrix, eps: real) returns (r: Result<seq<real>, SolveError>)
    requires IsAugmented(m) && eps >= 0.0
    ensures r == GaussJordan(m, eps)
  {
    var dim := |m|;
    var a := CopyMatrix(m);
    ghost var cur := m;
    for j := 0 to dim
      invariant IsAugmented(cur) && |cur| == dim
      invariant AfterColumns(m, j, eps) == Success(cur)
      invariant Mirrors(a, cur)
    {
      var found := ColumnStep(a, m, cur, j, eps);
      if !found {
        r := Failure(NoUniqueSolution(j));
        return;
      }
      cur := AfterColumns(m, j + 1, eps).value;
    }
    var x := ReadSolution(a, cur);
    r := Success(x);
  }

  /**
    One pass of the outer loop on the array: either the column has a pivot and
    the array advances to the reference's next matrix, or the whole elimination fails there.
  */
  method ColumnStep(a: array2<real>, ghost m: Matrix, ghost cur: Matrix, j: nat, eps: real) returns (found: bool)
    requires IsAugmented(m) && j < |m| && eps >= 0.0 && AfterColumns(m, j, eps) == Success(cur)
    requires Mirrors(a, cur)
    modifies a
    ensures found ==> AfterColumns(m, j + 1, eps).Success? && Mirrors(a, AfterColumns(m, j + 1, eps).value)
    ensures !found ==> GaussJordan(m, eps) == Failure(NoUniqueSolution(j))
  {
    var p := FindPivot(a, cur, j, eps);
    if p == a.Length0 {
      AfterColumnsStuck(m, j, eps, cur);
      return false;
    }
    AfterColumnsStep(m, j, eps, cur, p);
    StepInPlace(a, cur, j, p);
    return true;
  }

}

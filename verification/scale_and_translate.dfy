/**
  The two-point transformation of
  transformations/ScaleAndTranslateTransform.java: independent scaling of the
  two axes plus a translation, x' = a·x + b and y' = c·y + d, fitted to exactly
  two id-point pairs by solving a 4×5 system.
*/
module ScaleAndTranslateTransform {
  import opened Base
  import opened Matrices
  import opened Points
  import opened LinearEquationSystem

  /** The coefficients A, B, C, D of the Java class. */
  datatype Params = Params(a: real, b: real, c: real, d: real)

  datatype FitError =
    | FromPointsExpected          // "2 from-points expected!"
    | ToPointsExpected            // "2 to-points expected!"
    | Unsolvable(cause: SolveError)
    | SomethingWentWrong          // the solver returned a vector of the wrong length

  /** transform(p) */
  function Apply(t: Params, p: Point): Point
  {
    Point(t.a * p.x + t.b, t.c * p.y + t.d)
  }

  /** The unknowns in solver order. */
  function AsVector(t: Params): (v: seq<real>)
    ensures |v| == 4
  {
    [t.a, t.b, t.c, t.d]
  }

  /** One x-equation and one y-equation per id-point pair; unknowns A, B, C, D. */
  function System(from: seq<Point>, to: seq<Point>): (m: Matrix)
    requires |from| == 2 && |to| == 2
    ensures IsAugmented(m) && |m| == 4
  {
    [[from[0].x, 1.0, 0.0, 0.0, to[0].x],
     [0.0, 0.0, from[0].y, 1.0, to[0].y],
     [from[1].x, 1.0, 0.0, 0.0, to[1].x],
     [0.0, 0.0, from[1].y, 1.0, to[1].y]]
  }

  /** The coefficients read from the solver's outcome, with the length check of the Java code. */
  function FromSolution(r: Result<seq<real>, SolveError>): (t: Result<Params, FitError>)
    ensures t.Success? <==> r.Success? && |r.value| == 4
    ensures t.Success? ==> AsVector(t.value) == r.value
    ensures r.Failure? ==> t == Failure(Unsolvable(r.error))
  {
    match r
    case Failure(e) => Failure(Unsolvable(e))
    case Success(x) =>
      if |x| != 4 then Failure(SomethingWentWrong)
      else Success(Params(x[0], x[1], x[2], x[3]))
  }

  /** calcTransformMatrix(): validation, then the solver with its default tolerance. */
  function Fit(from: seq<Point>, to: seq<Point>): (r: Result<Params, FitError>)
    ensures |from| != 2 ==> r == Failure(FromPointsExpected)
    ensures |from| == 2 && |to| != 2 ==> r == Failure(ToPointsExpected)
  {
    if |from| != 2 then Failure(FromPointsExpected)
    else if |to| != 2 then Failure(ToPointsExpected)
    else FromSolution(SolveSystem(Create(System(from, to))))
  }

  // ---------------------------------------------------------------------------
  // Properties
  // ---------------------------------------------------------------------------

  /** The output x depends on the input x only, the output y on the input y only. */
  lemma ApplySeparable(t: Params, p: Point, q: Point)
    ensures p.x == q.x ==> Apply(t, p).x == Apply(t, q).x
    ensures p.y == q.y ==> Apply(t, p).y == Apply(t, q).y
  {
  }

  /** The 4×5 system holds for a coefficient vector exactly when it maps both id-points onto their targets. */
  lemma SystemMeaning(from: seq<Point>, to: seq<Point>, t: Params)
    requires |from| == 2 && |to| == 2
    ensures Solves(System(from, to), AsVector(t))
        <==> Apply(t, from[0]) == to[0] && Apply(t, from[1]) == to[1]
  {
    var m := System(from, to);
    var v := AsVector(t);
    assert Solves(m, v) <==> RowHolds(m[0], v) && RowHolds(m[1], v) && RowHolds(m[2], v) && RowHolds(m[3], v);
    Dot4(m[0], v);
    Dot4(m[1], v);
    Dot4(m[2], v);
    Dot4(m[3], v);
  }

  lemma Dot4(row: seq<real>, v: seq<real>)
    requires |row| == 5 && |v| == 4
    ensures Dot(row, v, 4) == row[0] * v[0] + row[1] * v[1] + row[2] * v[2] + row[3] * v[3]
  {
    assert Dot(row, v, 1) == row[0] * v[0];
    assert Dot(row, v, 2) == Dot(row, v, 1) + row[1] * v[1];
    assert Dot(row, v, 3) == Dot(row, v, 2) + row[2] * v[2];
  }

  /** A fitted transform maps both id-points exactly onto their targets, and it is the only such transform. */
  lemma FitExact(from: seq<Point>, to: seq<Point>)
    requires Fit(from, to).Success?
    ensures |from| == 2 && |to| == 2
    ensures Apply(Fit(from, to).value, from[0]) == to[0]
    ensures Apply(Fit(from, to).value, from[1]) == to[1]
    ensures forall t :: Apply(t, from[0]) == to[0] && Apply(t, from[1]) == to[1] ==> t == Fit(from, to).value
  {
    var t := Fit(from, to).value;
    FitSolvesSystem(from, to);
    SolutionSolves(System(from, to), DefaultEps);
    SystemMeaning(from, to, t);
    forall t' | Apply(t', from[0]) == to[0] && Apply(t', from[1]) == to[1]
      ensures t' == t
    {
      SystemMeaning(from, to, t');
      SolutionIsUnique(System(from, to), DefaultEps, AsVector(t'));
    }
  }

  /** A successful fit returns the solver's solution of the 4×5 system. */
  lemma FitSolvesSystem(from: seq<Point>, to: seq<Point>)
    requires Fit(from, to).Success?
    ensures |from| == 2 && |to| == 2
    ensures GaussJordan(System(from, to), DefaultEps) == Success(AsVector(Fit(from, to).value))
  {
  }

  /** The solver always returns four values here, so the "Something went wrong" branch is dead. */
  lemma FitNeverSomethingWentWrong(from: seq<Point>, to: seq<Point>)
    ensures Fit(from, to) != Failure(SomethingWentWrong)
  {
  }

  /** Two id-points sharing an x or a y coordinate give two equal coefficient rows: the fit fails. */
  lemma DegenerateFails(from: seq<Point>, to: seq<Point>)
    requires |from| == 2 && |to| == 2
    requires from[0].x == from[1].x || from[0].y == from[1].y
    ensures Fit(from, to).Failure? && Fit(from, to).error.Unsolvable?
  {
    var m := System(from, to);
    if from[0].x == from[1].x {
      RepeatedRowsFail(m, 0, 2, DefaultEps);
    } else {
      RepeatedRowsFail(m, 1, 3, DefaultEps);
    }
  }

  // ---------------------------------------------------------------------------
  // The first demonstration case, elimination traced column by column
  // ---------------------------------------------------------------------------

  const DemoFrom: seq<Point> := [Point(0.0, 0.0), Point(200.0, 200.0)]
  const DemoTo: seq<Point> := [Point(3526000.0, 5730000.0), Point(3528000.0, 5732000.0)]

  const DemoM1: Matrix := [[1.0, 0.005, 0.0, 0.0, 17640.0], [0.0, 0.0, 0.0, 1.0, 5730000.0],
                           [0.0, 1.0, 0.0, 0.0, 3526000.0], [0.0, 0.0, 200.0, 1.0, 5732000.0]]
  const DemoM2: Matrix := [[1.0, 0.0, 0.0, 0.0, 10.0], [0.0, 1.0, 0.0, 0.0, 3526000.0],
                           [0.0, 0.0, 0.0, 1.0, 5730000.0], [0.0, 0.0, 200.0, 1.0, 5732000.0]]
  const DemoM3: Matrix := [[1.0, 0.0, 0.0, 0.0, 10.0], [0.0, 1.0, 0.0, 0.0, 3526000.0],
                           [0.0, 0.0, 1.0, 0.005, 28660.0], [0.0, 0.0, 0.0, 1.0, 5730000.0]]
  const DemoM4: Matrix := [[1.0, 0.0, 0.0, 0.0, 10.0], [0.0, 1.0, 0.0, 0.0, 3526000.0],
                           [0.0, 0.0, 1.0, 0.0, 10.0], [0.0, 0.0, 0.0, 1.0, 5730000.0]]

  /** Column 0: rows 0 and 1 have no usable entry, row 2 becomes the pivot. */
  lemma DemoColumn0()
    ensures AfterColumns(System(DemoFrom, DemoTo), 1, DefaultEps) == Success(DemoM1)
  {
    var m0 := System(DemoFrom, DemoTo);
    assert m0 == [[0.0, 1.0, 0.0, 0.0, 3526000.0], [0.0, 0.0, 0.0, 1.0, 5730000.0],
                  [200.0, 1.0, 0.0, 0.0, 3528000.0], [0.0, 0.0, 200.0, 1.0, 5732000.0]];
    assert PivotSearch(m0, 0, 2, DefaultEps) == Some(2);
    assert PivotSearch(m0, 0, 1, DefaultEps) == Some(2);
    assert PivotRow(m0, 0, DefaultEps) == Some(2);
    var sw := SwapRows(m0, 0, 2);
    assert sw == [[200.0, 1.0, 0.0, 0.0, 3528000.0], [0.0, 0.0, 0.0, 1.0, 5730000.0],
                  [0.0, 1.0, 0.0, 0.0, 3526000.0], [0.0, 0.0, 200.0, 1.0, 5732000.0]];
    assert ScaledRow(sw[0], 0) == DemoM1[0];
    var nr := NormalizeRow(sw, 0);
    assert nr == sw[0 := DemoM1[0]];
    assert EliminatedRow(nr[1], nr[0], 0) == DemoM1[1];
    assert EliminatedRow(nr[2], nr[0], 0) == DemoM1[2];
    assert EliminatedRow(nr[3], nr[0], 0) == DemoM1[3];
    assert EliminateColumn(nr, 0) == DemoM1;
  }

  /** Column 1: row 1 has no usable entry, row 2 becomes the pivot. */
  lemma DemoPivot1()
    ensures IsAugmented(DemoM1) && PivotRow(DemoM1, 1, DefaultEps) == Some(2)
  {
    assert PivotSearch(DemoM1, 1, 2, DefaultEps) == Some(2);
  }

  lemma DemoColumn1()
    ensures IsAugmented(DemoM1) && PivotRow(DemoM1, 1, DefaultEps) == Some(2)
    ensures Step(DemoM1, 1, 2) == DemoM2
  {
    DemoPivot1();
    var sw := SwapRows(DemoM1, 1, 2);
    assert sw == [[1.0, 0.005, 0.0, 0.0, 17640.0], [0.0, 1.0, 0.0, 0.0, 3526000.0],
                  [0.0, 0.0, 0.0, 1.0, 5730000.0], [0.0, 0.0, 200.0, 1.0, 5732000.0]];
    ScaledUnitRow(sw[1], 1);
    assert NormalizeRow(sw, 1) == sw;
    assert EliminatedRow(sw[0], sw[1], 1) == DemoM2[0];
    EliminatedZeroRow(sw[2], sw[1], 1);
    EliminatedZeroRow(sw[3], sw[1], 1);
    assert EliminateColumn(sw, 1) == DemoM2;
  }

  /** Column 2: row 2 has no usable entry, row 3 becomes the pivot. */
  lemma DemoColumn2()
    ensures IsAugmented(DemoM2) && PivotRow(DemoM2, 2, DefaultEps) == Some(3)
    ensures Step(DemoM2, 2, 3) == DemoM3
  {
    var m := DemoM2;
    assert PivotSearch(m, 2, 3, DefaultEps) == Some(3);
    var sw := SwapRows(m, 2, 3);
    assert sw == [[1.0, 0.0, 0.0, 0.0, 10.0], [0.0, 1.0, 0.0, 0.0, 3526000.0],
                  [0.0, 0.0, 200.0, 1.0, 5732000.0], [0.0, 0.0, 0.0, 1.0, 5730000.0]];
    assert ScaledRow(sw[2], 2) == DemoM3[2];
    var nr := NormalizeRow(sw, 2);
    assert nr == sw[2 := DemoM3[2]];
    assert EliminatedRow(nr[0], nr[2], 2) == DemoM3[0];
    assert EliminatedRow(nr[1], nr[2], 2) == DemoM3[1];
    assert EliminatedRow(nr[3], nr[2], 2) == DemoM3[3];
    assert EliminateColumn(nr, 2) == DemoM3;
  }

  /** Column 3: row 3 is its own pivot. */
  lemma DemoColumn3()
    ensures IsAugmented(DemoM3) && PivotRow(DemoM3, 3, DefaultEps) == Some(3)
    ensures Step(DemoM3, 3, 3) == DemoM4
  {
    var m := DemoM3;
    var sw := SwapRows(m, 3, 3);
    assert sw == m;
    assert ScaledRow(sw[3], 3) == sw[3];
    var nr := NormalizeRow(sw, 3);
    assert nr == sw;
    assert EliminatedRow(nr[0], nr[3], 3) == DemoM4[0];
    assert EliminatedRow(nr[1], nr[3], 3) == DemoM4[1];
    assert EliminatedRow(nr[2], nr[3], 3) == DemoM4[2];
    assert EliminateColumn(nr, 3) == DemoM4;
  }

  /**
    The first demonstration: the two id-points (0,0) and (200,200) mapped to
    (3526000,5730000) and (3528000,5732000) give scale 10 on both axes and the
    translation (3526000, 5730000); (100,100) is then mapped to (3527000, 5731000).
  */
  lemma DemoFit()
    ensures Fit(DemoFrom, DemoTo) == Success(Params(10.0, 3526000.0, 10.0, 5730000.0))
    ensures Apply(Params(10.0, 3526000.0, 10.0, 5730000.0), Point(100.0, 100.0)) == Point(3527000.0, 5731000.0)
  {
    DemoSolution();
  }

  /** The elimination of the demonstration system ends in the solution (10, 3526000, 10, 5730000). */
  lemma DemoSolution()
    ensures GaussJordan(System(DemoFrom, DemoTo), DefaultEps) == Success([10.0, 3526000.0, 10.0, 5730000.0])
  {
    DemoAfterAll();
    DemoRhs();
  }

  lemma DemoRhs()
    ensures IsAugmented(DemoM4) && Rhs(DemoM4) == [10.0, 3526000.0, 10.0, 5730000.0]
  {
    var x := Rhs(DemoM4);
    assert x[0] == 10.0 && x[1] == 3526000.0 && x[2] == 10.0 && x[3] == 5730000.0;
  }

  lemma DemoAfterAll()
    ensures AfterColumns(System(DemoFrom, DemoTo), 4, DefaultEps) == Success(DemoM4)
  {
    var m := System(DemoFrom, DemoTo);
    DemoColumn0();
    DemoColumn1();
    AfterColumnsStep(m, 1, DefaultEps, DemoM1, 2);
    DemoColumn2();
    AfterColumnsStep(m, 2, DefaultEps, DemoM2, 3);
    DemoColumn3();
    AfterColumnsStep(m, 3, DefaultEps, DemoM3, 3);
  }
}

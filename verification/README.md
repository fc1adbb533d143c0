# coordtransf estimation engine in Dafny

This project models the estimation engine of the `coordtransf` Java library. The
library fits a 2D coordinate transformation to pairs of *id-points*: points
known in a source system (`from`) and in a target system (`to`). The fitted
transformation is then applied to other points. Java `double` is idealised as
Dafny `real` throughout.

The model covers:

- **The linear solver** (`main/LinearEquationSystem.java`), in `matrices.dfy`
  and `linear_equation_system.dfy`. This is Gauss-Jordan elimination on an
  augmented `dim × (dim+1)` matrix. The pivot of column j is the *first* row at
  or below j whose entry exceeds `eps` in magnitude. The solver fails when
  there is no such row.
  - `AfterColumns` / `GaussJordan` are the functional reference.
  - `Solve` is the imperative algorithm over a fresh `array2<real>`. It is
    proved to return exactly what the reference returns.
  - The reference is proved correct: a returned vector solves `A·x = b` and is
    its only solution. A singular system, or one with linearly dependent rows,
    always fails. Failure happens exactly at a column where no pivot exists.
- **Scale and translate** (`scale_and_translate.dfy`): two pairs, a 4×5 system,
  `x' = a·x + b`, `y' = c·y + d`. The first demonstration case of the
  console driver is traced through the elimination.
- **Bilinear** (`bilinear.dfy`): four pairs, an 8×9 system,
  `x' = a·x + b·y + c·x·y + d`, `y' = e·x + f·y + g·x·y + h`.
- **Affine** (`affine.dfy`): `x' = a·x + b·y + c`, `y' = d·x + e·y + f`.
  - Three pairs are fitted through a 6×7 system.
  - More pairs are fitted through a closed form on centroid-reduced
    coordinates. This path is modelled as the Java loop is written: the sums
    are accumulated point by point, and after every point the divisor is
    tested and the coefficients are recomputed.
  - The squared standard deviation is also modelled here.
- **Helmert** (`helmert.dfy`): the affine estimator with its similarity flag
  set, `x' = a·x - o·y + c`, `y' = o·x + a·y + f`.
- **The common transformation view** (`transforms.dfy`): the four
  constructors and `transform` dispatched on the concrete estimator. The
  affine and Helmert constructors `NewAffine` and `NewHelmert` use the
  corrected N > 3 path described under "Findings". The constructors as
  written are `NewAffineAsWritten` and `NewHelmertAsWritten`, over
  `AffineTransform.Fit` and `HelmertTransform.Fit`, with lemmas stating how
  they fail and where they agree with the corrected ones.
- **Residual mismatches** (`residuals.dfy`): the per-id-point records
  (`u`, `vx`, `vy`, squared `delta`) that `ResidualMismatches.toString` prints.

Coefficients are immutable values, so `transform` and the residual computation
cannot change a fitted transformation. Every exception of the Java code is a
`Failure` of a `Result`, with one error constructor per message. A message
that prints a value carries it: the general-affine "Numerical error! " keeps
its divisor.

## Model

| member | source | states |
|---|---|---|
| Points.Centroid | transformations/AffineTransform.java:104-115 | the centroid times N is the coordinate sum of the list, so it is the arithmetic mean of the points |
| Matrices.SwapRows | main/LinearEquationSystem.java:55-58 | rows i and j trade places, including the right-hand side; every other row is unchanged |
| Matrices.ScaledRow | main/LinearEquationSystem.java:62-65 | after dividing by the pivot, the pivot entry is 1 and each entry times the old pivot gives back the original entry |
| Matrices.NormalizeRow | main/LinearEquationSystem.java:62-65 | the normalised matrix keeps its shape and has 1 on the diagonal at row j |
| Matrices.NormalizeRowContents | main/LinearEquationSystem.java:62-65 | row j times the old pivot gives back the old row; every other row is unchanged |
| Matrices.EliminatedRow | main/LinearEquationSystem.java:68-75 | subtracting m[i][j] times a normalised pivot row clears column j of row i |
| Matrices.EliminateColumn | main/LinearEquationSystem.java:68-75 | the pivot row is untouched and, once the pivot is 1, column j becomes a unit column |
| Matrices.Rhs | main/LinearEquationSystem.java:78-81 | the result has one entry per row, and entry i is the last column of row i |
| Matrices.DotScaled | main/LinearEquationSystem.java:62-65 | a row divided by its pivot has its dot product with any vector divided by the same pivot |
| Matrices.DotEliminated | main/LinearEquationSystem.java:68-75 | the dot product of an eliminated row is the original row's minus m[i][j] times the pivot row's |
| Matrices.SwapKeepsSolutions | main/LinearEquationSystem.java:55-58 | a vector solves the swapped system if and only if it solves the original |
| Matrices.NormalizeKeepsSolutions | main/LinearEquationSystem.java:62-65 | a vector solves the normalised system if and only if it solves the original |
| Matrices.EliminateKeepsSolutions | main/LinearEquationSystem.java:68-75 | a vector solves the eliminated system if and only if it solves the original |
| Matrices.IdentitySolutions | main/LinearEquationSystem.java:78-81 | once the coefficient block is the identity, a vector solves the system if and only if it is the right-hand-side column |
| Matrices.SwapKeepsIdentity | main/LinearEquationSystem.java:55-58 | swapping row j with a row below it keeps the identity columns 0..j-1 |
| Matrices.NormalizeKeepsIdentity | main/LinearEquationSystem.java:62-65 | normalising row j keeps the identity columns 0..j-1 |
| Matrices.EliminateKeepsIdentity | main/LinearEquationSystem.java:68-75 | eliminating with a unit pivot extends the identity columns to 0..j |
| Matrices.SwapKeepsDependence | main/LinearEquationSystem.java:55-58 | a vanishing row combination stays vanishing when its two weights are swapped along with the rows |
| Matrices.NormalizeKeepsDependence | main/LinearEquationSystem.java:62-65 | a vanishing row combination survives normalisation, with row j's weight scaled by the old pivot |
| Matrices.EliminateKeepsDependence | main/LinearEquationSystem.java:68-75 | a vanishing row combination survives elimination, with a non-zero weight vector that drops the pivot row |
| Matrices.IdentityIsIndependent | main/LinearEquationSystem.java:78-81 | the rows of an identity coefficient block have no vanishing non-trivial combination |
| LinearEquationSystem.Create | main/LinearEquationSystem.java:11-22 | a new solver holds the given matrix and the default tolerance 0.000001 |
| LinearEquationSystem.SetEps | main/LinearEquationSystem.java:84-86 | the tolerance is replaced and the matrix kept |
| LinearEquationSystem.SolveSystem | main/LinearEquationSystem.java:34-81 | solve on a system object uses that object's tolerance: a returned vector is the unique solution, a failure names a column without a pivot, and any such column makes it fail |
| LinearEquationSystem.SetEpsTakesEffect | main/LinearEquationSystem.java:84-86 | the tolerance setEps stores is the one the next solve uses: 0.5·x = 1 solves to 2 with the default tolerance and fails at column 0 after setEps(1) |
| LinearEquationSystem.PivotSearch | main/LinearEquationSystem.java:45-50 | the row found is the first one from i on whose entry exceeds eps in magnitude; none is found only if every remaining entry is within eps |
| LinearEquationSystem.PivotRow | main/LinearEquationSystem.java:44-50 | the pivot is the first row at or below j whose entry exceeds eps, not the largest one; no pivot means every entry from row j down is within eps |
| LinearEquationSystem.Step | main/LinearEquationSystem.java:55-75 | one outer-loop body (swap, normalise, eliminate) keeps the matrix augmented; what it preserves is proved in StepKeepsIdentity, StepKeepsSolutions and StepKeepsDependence |
| LinearEquationSystem.StepKeepsIdentity | main/LinearEquationSystem.java:62-75 | one column step turns identity columns 0..j-1 into identity columns 0..j (the loop invariant) |
| LinearEquationSystem.StepKeepsSolutions | main/LinearEquationSystem.java:55-75 | one column step (swap, normalise, eliminate) keeps the solution set |
| LinearEquationSystem.StepKeepsDependence | main/LinearEquationSystem.java:55-75 | one column step keeps the rows linearly dependent |
| LinearEquationSystem.AfterColumns | main/LinearEquationSystem.java:42-76 | after the first j columns the matrix keeps its shape and columns 0..j-1 are identity columns; a failure names a column below j |
| LinearEquationSystem.AfterColumnsKeepsSolutions | main/LinearEquationSystem.java:42-76 | the matrix after any number of column steps has the same solutions as the input |
| LinearEquationSystem.AfterColumnsKeepsDependence | main/LinearEquationSystem.java:42-76 | column steps never make dependent rows independent |
| LinearEquationSystem.GaussJordan | main/LinearEquationSystem.java:34-81 | the reference result of solve, one entry per unknown on success; its meaning (unique solution, failure exactly at a column without a pivot) is proved in GaussJordanSolves and GaussJordanFailsIffStuck |
| LinearEquationSystem.GaussJordanSolves | main/LinearEquationSystem.java:34-81 | a returned vector solves A·x = b, and every solution equals it |
| LinearEquationSystem.SolutionSolves | main/LinearEquationSystem.java:34-81 | a returned vector solves the original system |
| LinearEquationSystem.SolutionIsUnique | main/LinearEquationSystem.java:34-81 | any vector solving the system is the returned one |
| LinearEquationSystem.GaussJordanSingularFails | main/LinearEquationSystem.java:44-52 | with eps >= 0, a system whose coefficient block has a non-zero kernel vector always fails |
| LinearEquationSystem.GaussJordanDependentFails | main/LinearEquationSystem.java:44-52 | with eps >= 0, a system with linearly dependent coefficient rows always fails |
| LinearEquationSystem.FailurePersists | main/LinearEquationSystem.java:51-52 | once a column has no pivot, later columns change nothing: the failure is final |
| LinearEquationSystem.GaussJordanFailsIffStuck | main/LinearEquationSystem.java:44-52 | the solver fails if and only if some column j, reached intact, has no row i >= j with an entry above eps |
| LinearEquationSystem.FailedColumnIsStuck | main/LinearEquationSystem.java:44-52 | the column a failure names is one where the pivot search found nothing |
| LinearEquationSystem.RepeatedRowsFail | main/LinearEquationSystem.java:44-52 | two equal coefficient rows make the solver fail |
| LinearEquationSystem.FindPivot | main/LinearEquationSystem.java:44-50 | the scan over the array returns the reference pivot row, or dim when there is none |
| LinearEquationSystem.SwapInPlace | main/LinearEquationSystem.java:55-58 | the array afterwards holds the matrix with rows j and p swapped |
| LinearEquationSystem.NormalizeInPlace | main/LinearEquationSystem.java:62-65 | the array afterwards holds the matrix with row j divided by its pivot |
| LinearEquationSystem.EliminateInPlace | main/LinearEquationSystem.java:68-75 | the array afterwards holds the matrix with column j eliminated from every other row |
| LinearEquationSystem.StepInPlace | main/LinearEquationSystem.java:55-75 | one pass of the outer loop body leaves the array holding the reference column step |
| LinearEquationSystem.ReadSolution | main/LinearEquationSystem.java:78-81 | the vector read from the array is its last column |
| LinearEquationSystem.AfterColumnsStuck | main/LinearEquationSystem.java:51-52 | when column j has no pivot, the whole solve fails naming column j |
| LinearEquationSystem.Solve | main/LinearEquationSystem.java:34-82 | the in-place algorithm returns the reference result; on success it is the unique solution of length dim; on failure the named column has no pivot |
| LinearEquationSystem.SolveInPlace | main/LinearEquationSystem.java:38-81 | the outer column loop over the copied array, with its early exit on a missing pivot, computes exactly the reference elimination result |
| LinearEquationSystem.ColumnStep | main/LinearEquationSystem.java:44-75 | a column with a pivot advances the array to the reference matrix after one more column; a column without one makes the whole elimination fail there |
| ScaleAndTranslateTransform.FromSolution | transformations/ScaleAndTranslateTransform.java:57-67 | a four-entry solution becomes the coefficients in order; a solver failure propagates |
| ScaleAndTranslateTransform.Fit | transformations/ScaleAndTranslateTransform.java:41-48 | the fit fails unless there are exactly two source points, and then unless there are exactly two target points |
| ScaleAndTranslateTransform.System | transformations/ScaleAndTranslateTransform.java:50-55 | the 4×5 matrix is augmented with four unknowns A, B, C, D; what its rows say is proved in SystemMeaning |
| ScaleAndTranslateTransform.Apply | transformations/ScaleAndTranslateTransform.java:69-75 | definition of transform; its separability is proved in ApplySeparable |
| ScaleAndTranslateTransform.ApplySeparable | transformations/ScaleAndTranslateTransform.java:69-75 | the output x depends on the input x only, the output y on the input y only |
| ScaleAndTranslateTransform.SystemMeaning | transformations/ScaleAndTranslateTransform.java:50-55 | a coefficient vector solves the 4×5 system if and only if it maps both id-points onto their targets |
| ScaleAndTranslateTransform.FitSolvesSystem | transformations/ScaleAndTranslateTransform.java:57-58 | a successful fit is the solver's solution of the 4×5 system |
| ScaleAndTranslateTransform.FitExact | transformations/ScaleAndTranslateTransform.java:50-75 | a successful fit maps both id-points exactly onto their targets and is the only transform that does |
| ScaleAndTranslateTransform.FitNeverSomethingWentWrong | transformations/ScaleAndTranslateTransform.java:58-61 | the solution always has four entries, so the "Something went wrong" failure never occurs |
| ScaleAndTranslateTransform.DegenerateFails | transformations/ScaleAndTranslateTransform.java:50-58 | two id-points sharing an x or a y coordinate make the fit fail in the solver |
| ScaleAndTranslateTransform.DemoSolution | main/DemoApp.java:30-38 | the 4×5 system of the first demonstration case solves to (10, 3526000, 10, 5730000) |
| ScaleAndTranslateTransform.DemoFit | main/DemoApp.java:28-43 | the first demonstration fits scale 10 on both axes and translation (3526000, 5730000), and maps (100, 100) to (3527000, 5731000) |
| BilinearTransform.System | transformations/BilinearTransform.java:50-59 | pair i contributes row 2i [x, y, xy, 1, 0, 0, 0, 0 \| x'] and row 2i+1 [0, 0, 0, 0, x, y, xy, 1 \| y'] |
| BilinearTransform.FromSolution | transformations/BilinearTransform.java:61-74 | an eight-entry solution becomes the coefficients in order; a solver failure propagates |
| BilinearTransform.Fit | transformations/BilinearTransform.java:41-48 | the fit fails unless there are exactly four source points, and then unless there are exactly four target points |
| BilinearTransform.Apply | transformations/BilinearTransform.java:77-83 | definition of transform; that it is affine along each axis is proved in ApplyBilinear |
| BilinearTransform.ApplyBilinear | transformations/BilinearTransform.java:77-83 | with y fixed the map is affine in x, and with x fixed it is affine in y |
| BilinearTransform.PairMeaning | transformations/BilinearTransform.java:50-59 | the two rows of a pair hold for a coefficient vector if and only if the transform maps the source point onto the target point |
| BilinearTransform.SystemMeaning | transformations/BilinearTransform.java:50-59 | a coefficient vector solves the 8×9 system if and only if it maps all four id-points onto their targets |
| BilinearTransform.FitSolvesSystem | transformations/BilinearTransform.java:61-62 | a successful fit is the solver's solution of the 8×9 system |
| BilinearTransform.FitExact | transformations/BilinearTransform.java:50-83 | a successful fit maps all four id-points exactly onto their targets and is the only bilinear map that does |
| BilinearTransform.FitNeverSomethingWentWrong | transformations/BilinearTransform.java:61-65 | the solution always has eight entries, so the "Something went wrong" failure never occurs |
| BilinearTransform.CoincidentPointsFail | transformations/BilinearTransform.java:50-62 | two coincident source points give repeated rows, so the fit fails in the solver |
| AffineTransform.System3 | transformations/AffineTransform.java:77-83 | pair i contributes row 2i [x, y, 1, 0, 0, 0 \| x'] and row 2i+1 [0, 0, 0, x, y, 1 \| y'] |
| AffineTransform.FromSolution | transformations/AffineTransform.java:85-93 | a six-entry solution becomes the coefficients A..F in order; a solver failure propagates |
| AffineTransform.Fit3 | transformations/AffineTransform.java:75-94 | definition: the solver's outcome on the 6×7 system read as coefficients; its meaning is proved in Fit3SolvesSystem and Fit3Exact |
| AffineTransform.Apply | transformations/AffineTransform.java:184-190 | definition of transform; that it preserves affine combinations is proved in ApplyPreservesCombinations |
| AffineTransform.PairMeaning | transformations/AffineTransform.java:77-83 | the two rows of a pair hold for a coefficient vector if and only if the transform maps the source point onto the target point |
| AffineTransform.System3Meaning | transformations/AffineTransform.java:77-83 | a coefficient vector solves the 6×7 system if and only if it maps all three id-points onto their targets |
| AffineTransform.Fit3SolvesSystem | transformations/AffineTransform.java:85-93 | a successful three-point fit is the solver's solution of the 6×7 system |
| AffineTransform.Fit3Exact | transformations/AffineTransform.java:75-94 | a successful three-point fit maps all three id-points onto their targets and is the only affine map that does |
| AffineTransform.XRowsDependent | transformations/AffineTransform.java:77-83 | weights that cancel the source coordinates and sum to zero also cancel the x-rows of the 6×7 system |
| AffineTransform.CollinearFails | transformations/AffineTransform.java:75-94 | three collinear source points make the three-point fit fail in the solver |
| AffineTransform.ApplyPreservesCombinations | transformations/AffineTransform.java:184-190 | transform maps a point on the line through p and q to the same combination of their images |
| AffineTransform.Reduced | transformations/AffineTransform.java:121-125 | the reduced point plus the centroid is the original point |
| AffineTransform.Accumulate | transformations/AffineTransform.java:127-143 | definition: one point's contribution to the seven sums, in each mode; used by Loop and MomentSums |
| AffineTransform.MomentSums | transformations/AffineTransform.java:121-143 | definition: the sums over the first n points without any test in between; Loop proves the as-written accumulation equals them |
| AffineTransform.Divisor | transformations/AffineTransform.java:145-167 | definition: Σdx² + Σdy² in Helmert mode and sum0·sum1 - sum2² otherwise; Coefficients proves the fit fails exactly when it is below eps in magnitude |
| AffineTransform.HelmertFromSums | transformations/AffineTransform.java:146-163 | the Helmert coefficients are conformal (A = E, B = -D), satisfy the two defining sum equations for o and a, and carry the source centroid onto the target centroid |
| AffineTransform.AffineFromSums | transformations/AffineTransform.java:165-180 | the general-affine coefficients solve both normal-equation systems and carry the source centroid onto the target centroid |
| AffineTransform.Cramer | transformations/AffineTransform.java:172-175 | the divided-determinant formulas solve the 2×2 normal equations |
| AffineTransform.Coefficients | transformations/AffineTransform.java:145-180 | the coefficients fail exactly when the divisor is below eps in magnitude, with the plain "Numerical error!" in Helmert mode and the message carrying the divisor in general-affine mode; on success they carry the centroid across, and are conformal in Helmert mode |
| AffineTransform.Loop | transformations/AffineTransform.java:121-181 | after n iterations the sums are those of the first n points and the coefficients are those computed from them; a failure is the divisor exception of the mode, with a divisor below eps |
| AffineTransform.LoopSucceedsIff | transformations/AffineTransform.java:121-181 | the loop runs through n points if and only if every prefix of the points passes the divisor test |
| AffineTransform.LoopFailurePersists | transformations/AffineTransform.java:121-169 | once an iteration throws, the loop's outcome is that exception with its divisor, whatever the later points |
| AffineTransform.FitN | transformations/AffineTransform.java:96-182 | a successful N > 3 fit carries the source centroid onto the target centroid and is conformal in Helmert mode; any failure is the divisor exception of the mode, with a divisor below eps |
| AffineTransform.Fit | transformations/AffineTransform.java:57-73 | fewer than three source points, or unequal counts, fail with their own errors; three pairs go to the 6×7 system, more to the closed form |
| AffineTransform.FirstAffineDivisorVanishes | transformations/AffineTransform.java:135-169 | after the first point the general-affine divisor dy²·dx² - (dx·dy)² is exactly zero |
| AffineTransform.GeneralAffineNAlwaysFails | transformations/AffineTransform.java:121-169 | as written and over the reals, every general-affine fit with N > 3 throws "Numerical error! " with the divisor 0 |
| AffineTransform.GeneralAffineFitFails | transformations/AffineTransform.java:57-73 | as written and over the reals, the affine constructor throws "Numerical error! " with the divisor 0 on every input with more than three pairs |
| AffineTransform.SumsOfImage | transformations/AffineTransform.java:104-111 | the target sums of an exactly fitted list are the transform applied to the source sums |
| AffineTransform.CentroidOfImage | transformations/AffineTransform.java:104-115 | an affine map that fits every pair carries the source centroid onto the target centroid |
| AffineTransform.ReducedImage | transformations/AffineTransform.java:121-125 | the reduced target point is the linear part of the map applied to the reduced source point |
| AffineTransform.AffineSumsRelations | transformations/AffineTransform.java:135-143 | the general-affine sums of any exactly fitting map satisfy its normal equations |
| AffineTransform.NormalSolutionUnique | transformations/AffineTransform.java:165-175 | with a non-zero divisor the normal equations fix the linear part uniquely |
| AffineTransform.FitCorrected | transformations/AffineTransform.java:57-73 | the corrected constructor validates and dispatches as the original does, with the corrected N > 3 path |
| AffineTransform.FitNCorrected | transformations/AffineTransform.java:121-181 | the corrected N > 3 fit carries the source centroid onto the target centroid and is conformal in Helmert mode |
| AffineTransform.AffineCoefficients | transformations/AffineTransform.java:165-180 | a general-affine divisor that passes the test yields coefficients solving the normal equations and carrying the centroid across |
| AffineTransform.CorrectedAffine | transformations/AffineTransform.java:165-180 | when the full sums pass the divisor test, the corrected general-affine fit succeeds and solves the normal equations of the full sums |
| AffineTransform.CorrectedRecoversAffine | transformations/AffineTransform.java:121-181 | the corrected general-affine fit returns exactly the affine map of data it fits, whenever the full sums pass the divisor test |
| AffineTransform.SquaredResidual | transformations/AffineTransform.java:209-213 | the squared residual of a pair is never negative |
| AffineTransform.ExactResidualZero | transformations/AffineTransform.java:209-213 | a pair the transform maps exactly has zero residual |
| AffineTransform.ResidualSum | transformations/AffineTransform.java:208-214 | the residual sum is never negative |
| AffineTransform.ResidualSumZero | transformations/AffineTransform.java:208-214 | the residual sum is zero if and only if every squared residual is zero |
| AffineTransform.Redundancy | transformations/AffineTransform.java:217-223 | for every N > 3, where standardDeviation divides by it, the redundancy (2N - 4 or 2N - 6) is at least 2, so the division is defined in both modes |
| AffineTransform.Variance | transformations/AffineTransform.java:202-226 | the squared standard deviation is 0 for N <= 3; otherwise it times 2N-4 (Helmert) or 2N-6 (affine) is the residual sum; it is never negative |
| AffineTransform.VarianceZeroIffResidualsZero | transformations/AffineTransform.java:202-226 | for N > 3 the standard deviation is zero if and only if every pair is fitted exactly, in particular for an exact fit |
| HelmertTransform.Fit | transformations/HelmertTransform.java:31-34 | Helmert mode validates counts as the affine fit does, solves three pairs through the general 6×7 system, and gives a conformal, centroid-preserving map for more pairs |
| HelmertTransform.ThreePointsNotConformal | transformations/AffineTransform.java:69-70 | with three pairs the flag is ignored: a stretch by 2 along x is returned, which is not conformal |
| HelmertTransform.FirstSpread | transformations/AffineTransform.java:122-131 | the first point's squared distance from the centroid is never negative |
| HelmertTransform.DivisorStep | transformations/AffineTransform.java:127-147 | adding a point never decreases the Helmert divisor Σdx² + Σdy² |
| HelmertTransform.DivisorAtLeastFirst | transformations/AffineTransform.java:121-147 | after any number of points the Helmert divisor is at least the first point's spread |
| HelmertTransform.FirstDivisor | transformations/AffineTransform.java:121-147 | after the first point the Helmert divisor is exactly that point's spread |
| HelmertTransform.FailsIffFirstPointClose | transformations/AffineTransform.java:121-150 | a Helmert fit with N > 3 fails if and only if the first point lies within squared distance eps of the centroid |
| HelmertTransform.FinalEqualsFullSums | transformations/AffineTransform.java:146-153 | when the Helmert fit succeeds, its coefficients are those of the full sums; earlier iterations are overwritten |
| HelmertTransform.SimilarityStep | transformations/AffineTransform.java:127-134 | adding a pair mapped by a similarity keeps the sums' defining equations for o and a |
| HelmertTransform.SimilaritySumsHold | transformations/AffineTransform.java:121-134 | the Helmert sums of data a similarity fits exactly satisfy its equations for o and a |
| HelmertTransform.SimilarityUnique | transformations/AffineTransform.java:146-159 | with a non-zero divisor the sums fix the linear part of a similarity uniquely |
| HelmertTransform.CorrectedHelmert | transformations/AffineTransform.java:146-163 | when the full sums pass the divisor test, the corrected Helmert fit succeeds with a conformal, centroid-preserving map satisfying the sum equations |
| HelmertTransform.CorrectedRecoversSimilarity | transformations/AffineTransform.java:121-163 | the corrected Helmert fit returns exactly the similarity of data it fits, whenever the full sums pass the divisor test |
| HelmertTransform.RecoversSimilarity | transformations/AffineTransform.java:121-163 | as written, the Helmert fit recovers any similarity it fits exactly once the first point is far enough from the centroid |
| HelmertTransform.CrossFailsAsWritten | transformations/AffineTransform.java:121-150 | as written, the identity on a five-point cross whose first point is the centroid cannot be fitted |
| HelmertTransform.CrossCorrectedSucceeds | transformations/AffineTransform.java:121-163 | the corrected Helmert fit recovers the identity from the same cross |
| HelmertTransform.RecoversIdentity | transformations/AffineTransform.java:121-163 | the corrected Helmert fit returns the identity for any point list mapped onto itself whose full sums pass the divisor test |
| Transforms.NewScaleAndTranslate | transformations/ScaleAndTranslateTransform.java:33-39 | construction succeeds exactly when the two-point fit does, keeping the id-points and the fitted coefficients |
| Transforms.NewAffine | transformations/AffineTransform.java:43-48 | the corrected affine constructor succeeds exactly when the corrected general-affine fit does, keeping the id-points and the fitted coefficients |
| Transforms.NewHelmert | transformations/HelmertTransform.java:31-34 | the corrected Helmert constructor succeeds exactly when the corrected Helmert-mode fit does, keeping the id-points, the coefficients and the mode |
| Transforms.NewAffineAsWritten | transformations/AffineTransform.java:43-48 | the affine constructor as written succeeds exactly when the general-affine fit with the per-point divisor test does, keeping the id-points and the coefficients |
| Transforms.NewHelmertAsWritten | transformations/HelmertTransform.java:31-34 | the Helmert constructor as written succeeds exactly when the Helmert-mode fit with the per-point divisor test does, keeping the id-points, the coefficients and the mode |
| Transforms.NewBilinear | transformations/BilinearTransform.java:33-39 | construction succeeds exactly when the four-point fit does, keeping the id-points and the fitted coefficients |
| Transforms.Apply | main/Transform.java:20-26 | definition of transform, dispatched on the concrete coefficients; the constructors' exactness lemmas below state what it does on the id-points |
| Transforms.ScaleAndTranslateExact | transformations/ScaleAndTranslateTransform.java:50-75 | a constructed scale-and-translate transformation maps every id-point onto its target |
| Transforms.AffineExactAtThree | transformations/AffineTransform.java:75-94 | a constructed affine transformation with three pairs maps every id-point onto its target |
| Transforms.HelmertExactAtThree | transformations/AffineTransform.java:69-70 | a constructed Helmert transformation with three pairs maps every id-point onto its target |
| Transforms.AffineRecoveredBeyondThree | transformations/AffineTransform.java:121-181 | with more than three pairs, the corrected affine constructor returns any affine map that fits every pair, when the full sums pass the divisor test, and the result is exact on its id-points |
| Transforms.SimilarityRecoveredBeyondThree | transformations/AffineTransform.java:121-163 | with more than three pairs, the corrected Helmert constructor returns any similarity that fits every pair, when the full sums pass the divisor test, and the result is exact on its id-points |
| Transforms.AsWrittenAgreesUpToThree | transformations/AffineTransform.java:57-73 | with at most three pairs, or unequal counts, the corrected and the original constructors give the same result |
| Transforms.AffineAsWrittenFailsBeyondThree | transformations/AffineTransform.java:121-169 | over the reals, the affine constructor as written throws "Numerical error! " followed by the divisor 0 for every input with more than three pairs |
| Transforms.HelmertAsWrittenFailsIffFirstPointClose | transformations/AffineTransform.java:121-150 | with more than three pairs, the Helmert constructor as written fails exactly when the first point's squared distance from the centroid is below eps |
| Transforms.SimilarityRecoveredAsWritten | transformations/AffineTransform.java:121-163 | the Helmert constructor as written returns any similarity that fits every pair, once the first point is clear of the centroid |
| Transforms.BilinearExact | transformations/BilinearTransform.java:50-83 | a constructed bilinear transformation maps every id-point onto its target |
| Transforms.ConstructedAreBalanced | transformations/AffineTransform.java:62-67 | every constructed transformation has as many source as target points, in the number its estimator accepts |
| ResidualMismatches.ResidualAt | main/ResidualMismatches.java:28-31 | a record holds the source point, its image u, the residual with u + v = to[i], and delta² = vx² + vy² >= 0 |
| ResidualMismatches.ResidualsUpTo | main/ResidualMismatches.java:26-32 | the first n records are one per index, in loop order |
| ResidualMismatches.Residuals | main/ResidualMismatches.java:26-32 | there is exactly one record per source id-point, in order |
| ResidualMismatches.ZeroResidualsIffExact | main/ResidualMismatches.java:28-30 | every residual is (0, 0) if and only if the transformation maps every id-point onto its target |
| ResidualMismatches.ExactHasZeroDeltas | main/ResidualMismatches.java:31 | on an exact transformation every delta is zero |
| ResidualMismatches.MinimalCountResidualsVanish | main/ResidualMismatches.java:28-31 | every transformation built at its minimal point count has residual (0, 0) and delta 0 at every id-point |
| ResidualMismatches.DeltaIsSquaredResidual | main/ResidualMismatches.java:28-31 | a record's squared delta is the squared residual standardDeviation sums for that pair |
| ResidualMismatches.DeltaSumIsResidualSum | transformations/AffineTransform.java:208-214 | the squared deltas of the records add up to the residual sum of standardDeviation |
| ResidualMismatches.VarianceFromResiduals | transformations/AffineTransform.java:202-226 | for N > 3 the squared standard deviation times its redundancy is the sum of the printed squared deltas |

## Left out

- Transforms.NewAffine: with more than three pairs it runs the corrected fit `AffineTransform.FitCorrected`, which tests the divisor of the full sums only. The constructor as written is `Transforms.NewAffineAsWritten`, over `AffineTransform.Fit`; over the reals it throws for every such input (see "Findings").
- Transforms.NewHelmert: with more than three pairs it runs the corrected Helmert-mode fit. The constructor as written is `Transforms.NewHelmertAsWritten`, over `HelmertTransform.Fit`; it also fails whenever the first point lies within eps of the centroid.
- Floating point: every `double` is a `real`. Rounding, overflow, infinities and NaN are not modelled.
- Square roots are not modelled. `delta` is kept as `delta²` and `standardDeviation` as its square.
- AffineTransform.Variance: states the square of `standardDeviation`, because `Math.sqrt` has no counterpart over the reals here.
- ResidualMismatches.ResidualAt: records `delta²` rather than `delta`, for the same reason.
- Java `null` arguments: id-point lists are sequences and always present.
- Every `toString` method is left out. They only format strings and use `atan`, `atan2` and π. The only part kept is the residual arithmetic of `ResidualMismatches.toString`, returned as records instead of text.
- The `_o` and `_a` control fields of the affine class are left out. They are read only by `toString`.
- `solve` mutates the caller's array in place. The model copies the matrix into a fresh array, so aliasing is not modelled.
- LinearEquationSystem.Solve: requires `eps >= 0`. With a negative tolerance Java would divide by a zero pivot and produce infinities, which reals cannot express. Every caller in the repository leaves the tolerance at its default 0.000001.
- LinearEquationSystem.SolveSystem: requires `eps >= 0`, for the same reason. Every fit reaches it through `Create`, so with the default 0.000001.
- LinearEquationSystem.GaussJordan: requires `eps >= 0`, for the same reason.
- LinearEquationSystem.AfterColumns: requires `eps >= 0`, for the same reason.
- AffineTransform.FitN: requires `eps > 0`. The estimator's `setEps` can only run after the constructor has already fitted, so the fit always uses the default 0.000001. The estimator is modelled as the pure fit, so `setEps` on it is not a separate operation.
- The N == 3 early return in `calcTransformMatrixN` (transformations/AffineTransform.java:100-102) is unreachable. `start` sends three pairs to the 6×7 system.
- `main/DemoApp.java` is a console driver. Only its first demonstration case is kept, as a concrete fit.
- `main/Point.java` and `main/Transform.java` have no behaviour of their own. They become the `Point` and `Transform` datatypes.

## Findings

| source | as written | input that shows it | evidently intended | confidence | as-written member | corrected member |
|---|---|---|---|---|---|---|
| transformations/AffineTransform.java:121-169 | in general-affine mode the divisor `sum0·sum1 - sum2²` is tested inside the accumulation loop, after every point | any N > 3 pairs: over the reals the divisor after the first point is `dy²·dx² - (dx·dy)² = 0`, so the fit always throws "Numerical error! " with the divisor 0; in doubles that value is rounding noise, so the fit fails unless the noise reaches eps in magnitude | accumulate all N points, then test the divisor and solve once | high over the reals, rounding-dependent in doubles; not executed | AffineTransform.GeneralAffineNAlwaysFails | AffineTransform.CorrectedRecoversAffine |
| transformations/AffineTransform.java:121-150 | in Helmert mode the divisor `Σdx² + Σdy²` is tested after every point, so it is tested after the first point alone | the five points (0,0), (1,0), (-1,0), (0,1), (0,-1) mapped onto themselves: the first point is the centroid, so the divisor is 0 after one point and the fit fails | test the divisor of the full sums only; the identity is then recovered | high; not executed | HelmertTransform.CrossFailsAsWritten | HelmertTransform.CrossCorrectedSucceeds |

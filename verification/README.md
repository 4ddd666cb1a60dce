# Simplex and Fourier–Motzkin: a Dafny model

This project models two small linear-programming programs in Dafny and proves
properties of the model.

- **Simplex-Algorithm**: a two-phase revised simplex solver for
  `max cᵀx  s.t.  A x = b, x ≥ 0`. The model covers its dense
  linear-algebra helpers (`lin_alg.c`) and its pivot logic
  (`simplex_algorithm.c`, with the result codes of `simplex_algorithm.h`).
  - Basis and non-basis masks are vectors of 0/1 entries.
  - Sub-matrices are selected by those masks.
  - Every pivot rebuilds the tableaux for the current basis.
- **FM-Elimination**: a Fourier–Motzkin feasibility checker for `A x ≤ b`
  (`fm.c`).
  - Each elimination step divides every row by the C integer `abs` of its
    leading coefficient, i.e. its magnitude truncated to a whole number. A
    row whose divisor is 0 is left as it is.
  - It counts the positive, zero and negative leading coefficients.
  - It emits one row for every positive/negative pair and copies every row
    whose leading coefficient is zero.
  - Once every variable is eliminated, the program reports the system empty
    when some remaining right-hand side is negative. In that case the row of
    the certificate matrix `C` for the first such right-hand side is
    reported. Otherwise a solution is rebuilt backwards.
  - With exact division by the magnitude, that report is right both ways:
    the system is infeasible exactly when it says so. With the truncated
    divisor the program uses, it is not (see Findings).

Files:

| file | module | contents |
|---|---|---|
| `wrappers.dfy` | `Wrappers` | `Option`, `Result` |
| `lin_alg.dfy` | `LinAlg` | matrices, mask selection, rank of `R`, back substitution, the two solvers' guards |
| `simplex.dfy` | `Simplex` | entering/leaving rules, basis swap, phase II, auxiliary LP, phase I, result codes |
| `fm.dfy` | `FourierMotzkin` | the FM system with its counters, normalisation, counting, elimination, reduction, back-solve, feasibility |
| `fm_proofs.dfy` | `FourierMotzkinProofs` | solution preservation, soundness and completeness of one step and of the whole decision, the two FM findings |

Modelling conventions:

- Doubles are Dafny `real`s, so arithmetic is exact.
- The tolerance `ZERO_TOL` is `0.001`. Every proof uses only `ZERO_TOL > 0`.
- The C error paths are `Result.Err`. In `lin_alg.c` these are the calls
  to `runtime_error`. In `fm.c` it is the "too many inequalities" exit.
- The C `int` arithmetic that matters is written out as 32-bit wrap-around
  (`FourierMotzkin.Int32Wrap`).
- The QR factorisation and the tableaux builder are not part of this model.
  - `QR_decomp` becomes the pair `Q, R` passed to the solvers, under the
    shape assumption `LinAlg.QRShape`.
  - `build_tableaux` becomes a function parameter `build(P, basis)`.
  - A built tableaux that is inconsistent with its basis ends the run in a
    `PivotFault` outcome.
- The phase-II pivot loop takes a `fuel` bound. Running out of it is its own
  outcome (`PivotOutOfFuel` / `OutOfFuel`).
- FM normalisation is a parameter.
  - `TruncatedAbs` models the source: it divides by the C integer `abs` of
    the coefficient, i.e. its magnitude truncated to an integer.
  - `ExactAbs` divides by the exact magnitude.
  - The correctness theorems are proved for `ExactAbs`. See Findings.

## Model

| member | source | states |
|---|---|---|
| `LinAlg.IsZero` | Simplex-Algorithm/src/lin_alg.c:117-122 | a value counts as zero exactly when it lies strictly inside `(-ZERO_TOL, ZERO_TOL)` |
| `LinAlg.IsSmallerZeroVect` | Simplex-Algorithm/src/lin_alg.c:192-199 | the optimality test holds exactly when no component exceeds `ZERO_TOL` |
| `LinAlg.NonzeroIndices` | Simplex-Algorithm/src/lin_alg.c:207-213 | the index table of a mask is strictly increasing and has one entry per nonzero; a position is listed iff the mask is nonzero there |
| `LinAlg.IndexTable` | Simplex-Algorithm/src/lin_alg.c:207-213 | the loop that scans the mask builds exactly that index table |
| `LinAlg.SubindVector` | Simplex-Algorithm/src/lin_alg.c:201-224 | fails iff vector and mask differ in length; otherwise the k-th entry is the entry of `v` at the k-th nonzero position of the mask |
| `LinAlg.SelectByIndices` | Simplex-Algorithm/src/lin_alg.c:215-221 | selecting by mask equals reading `v` through the index table |
| `LinAlg.SubindMatrix` | Simplex-Algorithm/src/lin_alg.c:226-251 | fails iff the column count differs from the mask length; otherwise the rows are kept and each is restricted to the masked columns, in order |
| `LinAlg.SwapZeroNonzero` | Simplex-Algorithm/src/lin_alg.c:352-358 | the complement is a 0/1 vector that is nonzero exactly where the input is zero |
| `LinAlg.ComplementCounts` | Simplex-Algorithm/src/lin_alg.c:352-358 | a mask and its complement together select every position once: their nonzero counts add up to the length |
| `LinAlg.ComplementInvolution` | Simplex-Algorithm/src/lin_alg.c:352-358 | complementing a 0/1 mask twice gives the mask back |
| `LinAlg.ComplementIndices` | Simplex-Algorithm/src/lin_alg.c:352-358 | every position is in exactly one of the index tables of the basis and non-basis masks |
| `LinAlg.RankR` | Simplex-Algorithm/src/lin_alg.c:140-147 | the rank of `R` is at most its column count and equals it iff no diagonal entry counts as zero |
| `LinAlg.FullRankIff` | Simplex-Algorithm/src/lin_alg.c:140-147 | for every prefix of the diagonal, the count of non-zero diagonal entries is full iff none of them is zero |
| `LinAlg.Transpose` | Simplex-Algorithm/src/lin_alg.c:253-262 | the transpose swaps the dimensions and its row `j` is column `j` of the input |
| `LinAlg.TransposeInvolution` | Simplex-Algorithm/src/lin_alg.c:253-262 | transposing twice gives the matrix back |
| `LinAlg.InnerProduct` | Simplex-Algorithm/src/lin_alg.c:155-164 | fails iff the lengths differ; otherwise it is the dot product `a·b` |
| `LinAlg.DotSymmetric` | Simplex-Algorithm/src/lin_alg.c:155-164 | the dot product does not depend on argument order |
| `LinAlg.MultMatrix` | Simplex-Algorithm/src/lin_alg.c:264-278 | fails iff the inner dimensions differ; otherwise the product has `A`'s rows and `B`'s columns, and entry `(i, j)` is row `i` of `A` dotted with column `j` of `B` |
| `LinAlg.TransposeOfProduct` | Simplex-Algorithm/src/lin_alg.c:253-278 | `(AB)ᵀ = BᵀAᵀ`, relating the product to the transpose entry by entry |
| `LinAlg.MultVector` | Simplex-Algorithm/src/lin_alg.c:313-326 | fails iff the column count differs from the vector length; otherwise component `i` is row `i` dotted with `v` |
| `LinAlg.ColGuardAsWritten` | Simplex-Algorithm/src/lin_alg.c:173-174 | the column guard as written admits every `col ≤ cols`, including one past the last column |
| `LinAlg.ColGuardAdmitsPastEnd` | Simplex-Algorithm/src/lin_alg.c:184-185 | on a 1×1 matrix the guard as written admits column 1, which the corrected guard rejects |
| `LinAlg.ColGuard` | Simplex-Algorithm/src/lin_alg.c:173-174 | the corrected guard admits only existing columns and is stricter than the guard as written |
| `LinAlg.CopyCol` | Simplex-Algorithm/src/lin_alg.c:170-179 | succeeds iff the size matches the rows and the column exists; the result is that column |
| `LinAlg.ReplaceCol` | Simplex-Algorithm/src/lin_alg.c:181-190 | succeeds iff the length matches and the column exists; that column becomes `v` and every other entry is unchanged |
| `LinAlg.CopyAfterReplace` | Simplex-Algorithm/src/lin_alg.c:170-190 | copying back a column just replaced yields the vector written |
| `LinAlg.ReplaceWithOwnColumn` | Simplex-Algorithm/src/lin_alg.c:170-190 | replacing a column by its own copy leaves the matrix unchanged |
| `LinAlg.SolveSystemQR` | Simplex-Algorithm/src/lin_alg.c:53-85 | shape mismatches fail; otherwise it fails only on a zero diagonal entry, and it succeeds both when there is none and whenever some vector solves every row (a zero pivot with a zero residual gives `x_i = 0`); the result satisfies every back-substitution row equation against `Qᵀb` |
| `LinAlg.BackSubstituteRow` | Simplex-Algorithm/src/lin_alg.c:68-81 | one row: the result solves the row equation, and the row fails exactly when the residual is non-zero and the pivot is inside the tolerance band |
| `LinAlg.SolvesUnique` | Simplex-Algorithm/src/lin_alg.c:72-80 | a row equation fixes its coordinate, so any full solution is the one back-substitution rebuilds |
| `LinAlg.RowTailAgree` | Simplex-Algorithm/src/lin_alg.c:69-71 | the subtracted tail reads only the later coordinates |
| `LinAlg.SolveStep` | Simplex-Algorithm/src/lin_alg.c:67-82 | one back-substitution step solves row `i` and keeps every row below it solved |
| `LinAlg.BackSubstitutionSolves` | Simplex-Algorithm/src/lin_alg.c:67-82 | for square upper-triangular `R`, the row-by-row equations give `R x = Qᵀb` |
| `LinAlg.SolveSystem` | Simplex-Algorithm/src/lin_alg.c:33-51 | succeeds iff `A` is square, `b` fits and no diagonal entry of `R` is zero; the result then solves the triangular system |
| `LinAlg.InverseMatrix` | Simplex-Algorithm/src/lin_alg.c:3-31 | succeeds iff `A` is square and `R` has full rank; column `c` of the result solves `R x = Qᵀe_c` |
| `Simplex.FirstPositive` | Simplex-Algorithm/src/simplex_algorithm.c:16-24 | returns the first index from `from` on with a positive reduced cost, or none when there is no such index |
| `Simplex.ChooseAlphaBland` | Simplex-Algorithm/src/simplex_algorithm.c:16-24 | Bland's rule succeeds iff some reduced cost is positive, and then picks the first one |
| `Simplex.LargestScan` | Simplex-Algorithm/src/simplex_algorithm.c:26-40 | the scan keeps the first largest entry seen so far, starting from `-1` |
| `Simplex.ChooseAlphaLCR` | Simplex-Algorithm/src/simplex_algorithm.c:26-40 | the largest-coefficient rule succeeds iff some reduced cost is positive, and then picks a largest one, the first among ties |
| `Simplex.ChooseAlpha` | Simplex-Algorithm/src/simplex_algorithm.c:3-14 | dispatches on the rule: `LCR` picks a largest positive entry, the first among ties, and any other value picks the first positive one |
| `Simplex.NotOptimalHasEntering` | Simplex-Algorithm/src/simplex_algorithm.c:74-76 | when the optimality test fails, an entering variable exists under either rule |
| `Simplex.BetaScan` | Simplex-Algorithm/src/simplex_algorithm.c:42-61 | the ratio scan finds an eligible row iff one exists below `n`, with the largest ratio and the first among ties |
| `Simplex.ChooseBeta` | Simplex-Algorithm/src/simplex_algorithm.c:42-61 | returns `-1` iff no entry of column `alpha` is below `-ZERO_TOL`; otherwise an eligible row with the largest `p_i / q_i`, the first among ties |
| `Simplex.SwapBasis` | Simplex-Algorithm/src/simplex_algorithm.c:63-66 | the leaving column leaves the basis, the entering one joins it, and nothing else changes |
| `Simplex.SwapKeepsBasisSize` | Simplex-Algorithm/src/simplex_algorithm.c:63-66 | on a consistent tableaux an exchange keeps the number of basic columns |
| `Simplex.SolveFromBasis` | Simplex-Algorithm/src/simplex_algorithm.c:68-90 | a bounded end is at a basis whose reduced costs pass the optimality test, and returns that tableaux's solution; an unbounded end is at a basis that fails the optimality test, names the column `choose_alpha` picks there, and `choose_beta` returns `-1` for it (no entry below `-ZERO_TOL`); the basis size never changes |
| `Simplex.SolveFromBasisStep` | Simplex-Algorithm/src/simplex_algorithm.c:74-89 | the converse exits: a consistent tableaux that passes the optimality test with a solution of `retSize` entries ends `Bounded` with that solution; a failed ratio test for the rule's entering column ends `UnboundedAt` that column; a non-optimal tableaux with no fuel left ends out of fuel; an inconsistent tableaux or a size mismatch faults |
| `Simplex.SolveFromBasisPivot` | Simplex-Algorithm/src/simplex_algorithm.c:74-85 | when the ratio test finds a leaving row, the loop continues from the exchanged basis |
| `Simplex.SolveFromBasisNoFault` | Simplex-Algorithm/src/simplex_algorithm.c:71-89 | when every basis of the right length yields a consistent tableaux with a solution of `retSize` entries, the loop never faults: it ends bounded, unbounded or out of fuel |
| `Simplex.InitialBasisLP` | Simplex-Algorithm/src/simplex_algorithm.c:93-118 | the auxiliary LP is `[A I]` with the same `b` and objective `0` on the original columns and `-1` on the artificial ones |
| `Simplex.StartBasis` | Simplex-Algorithm/src/simplex_algorithm.c:124-127 | the starting basis of phase I is exactly the artificial columns |
| `Simplex.StartBasisCount` | Simplex-Algorithm/src/simplex_algorithm.c:124-127 | the starting basis has one basic column per constraint |
| `Simplex.AuxiliaryBasisIsIdentity` | Simplex-Algorithm/src/simplex_algorithm.c:93-127 | in the auxiliary LP the starting basis selects the identity and its complement selects the original `A` |
| `Simplex.PhaseOneRun` | Simplex-Algorithm/src/simplex_algorithm.c:122-131 | phase I runs phase II on the auxiliary LP from the artificial basis; a bounded end passes the optimality test there and has one entry per auxiliary column, and every finished run keeps one basic column per constraint |
| `Simplex.PhaseOneObjective` | Simplex-Algorithm/src/simplex_algorithm.c:135-139 | for `x ≥ 0` the auxiliary objective is never positive, and it is negative iff some artificial variable is positive |
| `Simplex.FindInitialBasis` | Simplex-Algorithm/src/simplex_algorithm.c:120-148 | phase I reports infeasible iff its run ends bounded with a negative auxiliary objective; otherwise it hands back the first `retSize` solution entries, or zeros after an unbounded run; faults and fuel exhaustion pass through |
| `Simplex.Code` | Simplex-Algorithm/include/simplex_algorithm.h:8-11 | the four reportable verdicts map one-to-one to the codes 0, 1, 2 and 3 |
| `Simplex.ResultCodes` | Simplex-Algorithm/include/simplex_algorithm.h:8-14 | the four result codes are distinct, the two pivot rules differ, and a reported `WRONG_FORM` code means exactly more rows than columns |
| `Simplex.SimplexSolveLP` | Simplex-Algorithm/src/simplex_algorithm.c:150-176 | wrong form iff there are more rows than columns; infeasible iff phase I says so; after a feasible phase I, solvable iff phase II from its basis ends bounded (returning that run's `x` and basis, which passes the optimality test), unbounded iff it ends unbounded, and faults or fuel exhaustion of either phase pass through |
| `FourierMotzkin.SignOf` | FM-Elimination/fm.c:265-271 | the classification of a coefficient as positive, zero or negative follows its sign exactly |
| `FourierMotzkin.CountTypesUpTo` | FM-Elimination/fm.c:265-272 | after scanning `k` rows, each counter grew by the number of leading coefficients of its sign among those rows, and nothing else changed |
| `FourierMotzkin.CountTypes` | FM-Elimination/fm.c:258-273 | the counters grow by the number of positive, zero and negative leading coefficients; the system is untouched, and a system with no variables is returned as is |
| `FourierMotzkinProofs.SignsPartition` | FM-Elimination/fm.c:265-271 | every row is counted in exactly one class |
| `FourierMotzkinProofs.FreshCountsDescribeRows` | FM-Elimination/fm.c:258-273 | starting from zero counters, counting makes them describe the rows, and together they count every row |
| `FourierMotzkin.TruncAbs` | FM-Elimination/fm.c:287 | the C integer `abs` of a double gives the magnitude truncated to a whole number |
| `FourierMotzkin.Divisor` | FM-Elimination/fm.c:286-287 | the divisor is non-negative; exact normalisation divides by the exact magnitude, which is zero only for zero; truncated normalisation divides by the truncated magnitude |
| `FourierMotzkin.ScaleBy` | FM-Elimination/fm.c:288-292 | a row divided by a nonzero `t` is `t` times smaller entrywise, and a zero divisor leaves the row as it is |
| `FourierMotzkin.Normalize` | FM-Elimination/fm.c:277-295 | each row of `A`, `b` and `C` is divided by the divisor of its leading coefficient: the magnitude truncated to an integer as the source does, or the exact magnitude under the corrected normalisation; a row whose divisor is 0 is unchanged; shape and counters are kept |
| `FourierMotzkin.ExactNormalized` | FM-Elimination/fm.c:277-295 | after exact normalisation every leading coefficient is `-1`, `0` or `1` |
| `FourierMotzkinProofs.NormalizeKeepsSolutions` | FM-Elimination/fm.c:277-295 | normalisation with either divisor keeps exactly the same solutions |
| `FourierMotzkin.Load` | FM-Elimination/fm.c:299-321 | loading sets `C` to the identity, normalises and counts; the loaded system has consistent counters, and is normalised when exact division is used |
| `FourierMotzkinProofs.LoadKeepsSolutions` | FM-Elimination/fm.c:299-321 | the loaded system has exactly the solutions of `A x ≤ b` |
| `FourierMotzkin.Copy` | FM-Elimination/fm.c:163-171 | the copied row has the next system's shape and keeps the right-hand side and certificate row |
| `FourierMotzkinProofs.CopyMeaning` | FM-Elimination/fm.c:163-171 | a row with leading coefficient zero holds at `[v] + y`, for any `v`, exactly when its copy holds at `y` |
| `FourierMotzkin.Combine` | FM-Elimination/fm.c:152-161 | a pair row adds the two rows without their leading entries, and also adds their right-hand sides and certificate rows |
| `FourierMotzkin.FromRows` | FM-Elimination/fm.c:137-146 | the new system holds the emitted rows in order, with matching `b` and `C` |
| `FourierMotzkin.EmitStep` | FM-Elimination/fm.c:149-174 | iteration `(i, j)` appends at most one row, and exactly one when `(i, j)` is a (positive, negative) pair or when `i = j` and row `i` has leading coefficient zero |
| `FourierMotzkinProofs.EmitStepOrigin` | FM-Elimination/fm.c:152-171 | what iteration `(i, j)` appends is a pair sum or the copy of a zero row |
| `FourierMotzkin.EmitRow` | FM-Elimination/fm.c:150-172 | the first `jn` inner iterations append at most `jn` rows |
| `FourierMotzkin.EmitRowCount` | FM-Elimination/fm.c:150-172 | row `i` emits one sum per negative row among the first `jn` when it is positive, and its copy when it is zero and among them |
| `FourierMotzkin.EmitRowFits` | FM-Elimination/fm.c:150-172 | every row the inner loop emits has the shape of the next system |
| `FourierMotzkin.EmitAll` | FM-Elimination/fm.c:149-174 | the first `cnt` outer iterations append at most `cnt·m` rows |
| `FourierMotzkin.EmitAllFits` | FM-Elimination/fm.c:149-174 | every emitted row has the shape of the next system |
| `FourierMotzkin.EmitAllCount` | FM-Elimination/fm.c:149-174 | after the first `cnt` outer iterations the emission holds `pos·neg + zero` rows for the rows scanned so far |
| `FourierMotzkinProofs.EmitAllPrefix` | FM-Elimination/fm.c:149-174 | the output of later outer iterations extends that of earlier ones, so rows once written are never moved |
| `FourierMotzkinProofs.EmitStepAt` | FM-Elimination/fm.c:149-174 | the rows produced for pair `(i, j)` sit at the offset the running row counter gives them |
| `FourierMotzkinProofs.PairEmitted` | FM-Elimination/fm.c:152-161 | every positive/negative pair contributes its combined row |
| `FourierMotzkinProofs.ZeroRowEmitted` | FM-Elimination/fm.c:163-171 | every row with leading coefficient zero is copied |
| `FourierMotzkinProofs.EmitAllOrigin` | FM-Elimination/fm.c:149-174 | every emitted row is either a pair sum or a copy of a zero row; nothing else is produced |
| `FourierMotzkin.RowCountAsWritten` | FM-Elimination/fm.c:132 | the count the C `int` arithmetic produces is a 32-bit value that agrees with the exact `nPos·nNeg + nZero` only modulo 2³² |
| `FourierMotzkin.GuardAdmitsAsWritten` | FM-Elimination/fm.c:132-136 | the guard as written admits every system whose true row count is within `0 .. MAX_ROWS` (it also admits some larger ones, see Findings) |
| `FourierMotzkin.Int32Wrap` | FM-Elimination/fm.c:132 | the result is a 32-bit signed value congruent to the input modulo 2³² |
| `FourierMotzkin.Eliminate` | FM-Elimination/fm.c:125-178 | fails iff the exact row count exceeds `MAX_ROWS`; otherwise the result has one variable fewer, exactly that many rows, consistent counters, and is normalised under exact division |
| `FourierMotzkinProofs.EliminatedSolutions` | FM-Elimination/fm.c:149-176 | a point solves the eliminated system iff it satisfies every emitted row |
| `FourierMotzkinProofs.EliminateSound` | FM-Elimination/fm.c:125-178 | dropping the first coordinate of a solution of a normalised system solves the eliminated system |
| `FourierMotzkinProofs.EliminateComplete` | FM-Elimination/fm.c:95-117 | every solution of the eliminated system extends, by the value `find_solution` picks, to a solution of the system before elimination |
| `FourierMotzkinProofs.ResidualBound` | FM-Elimination/fm.c:84-93 | the residual `b_l` minus the rest of the row at `y` is what is left for the first variable: row `l` holds at `[v] + y` iff `a_l1 · v` is at most it |
| `FourierMotzkinProofs.ValueBelowUpperBound` | FM-Elimination/fm.c:96-117 | the picked value respects every row with a positive leading coefficient, once the bounds are ordered |
| `FourierMotzkinProofs.ValueAboveLowerBound` | FM-Elimination/fm.c:96-117 | the picked value respects every row with a negative leading coefficient, once the bounds are ordered |
| `FourierMotzkinProofs.BoundsOrdered` | FM-Elimination/fm.c:96-111 | when all emitted rows hold, the largest lower bound is at most the smallest upper bound |
| `FourierMotzkin.LowerBound` | FM-Elimination/fm.c:96-111 | none iff no row has a negative leading coefficient; otherwise the largest lower bound those rows impose, attained by one of them |
| `FourierMotzkin.UpperBound` | FM-Elimination/fm.c:96-111 | none iff no row has a positive leading coefficient; otherwise the smallest upper bound those rows impose, attained by one of them |
| `FourierMotzkin.Midpoint` | FM-Elimination/fm.c:112-117 | the chosen value is the midpoint of the two bounds, or one bound ±0.5 when only one exists, or 0.5 when neither does; it lies within the bounds that exist |
| `FourierMotzkin.ChooseValue` | FM-Elimination/fm.c:96-117 | the value picked for the first variable lies between the largest lower and the smallest upper bound when both exist and are ordered, and on the right side of the one that exists otherwise |
| `FourierMotzkin.Reduce` | FM-Elimination/fm.c:234-238 | a successful reduction is a chain of `k+1` systems, each the elimination of the previous one, with one variable fewer per step |
| `FourierMotzkin.FirstNegative` | FM-Elimination/fm.c:241-250 | finds the first negative right-hand side, or none iff all are non-negative |
| `FourierMotzkin.SolveFrom` | FM-Elimination/fm.c:67-121 | back-solving from level `k` yields one value per variable still present at that level |
| `FourierMotzkin.FindSolution` | FM-Elimination/fm.c:67-121 | the rebuilt point has one coordinate per variable of the original system |
| `FourierMotzkin.CheckFeasibility` | FM-Elimination/fm.c:220-254 | fails iff some elimination step exceeds the row limit; otherwise reports empty iff some final right-hand side is negative, and the certificate is the `C` row of the first negative one, with one entry per original row; otherwise the solution is the back-solved point, of full length |
| `FourierMotzkinProofs.ChainSound` | FM-Elimination/fm.c:234-238 | the tail of a solution solves every system of the reduction chain |
| `FourierMotzkinProofs.ChainComplete` | FM-Elimination/fm.c:67-121 | when every final right-hand side is non-negative, back-solving from any level solves that level's system |
| `FourierMotzkinProofs.SolutionLeavesNonnegativeRhs` | FM-Elimination/fm.c:241-250 | a feasible system never leaves a negative final right-hand side |
| `FourierMotzkinProofs.FeasibilityCorrect` | FM-Elimination/fm.c:220-254 | with exact normalisation a reported solution satisfies every constraint, and a report of emptiness means no point does |
| `FourierMotzkinProofs.InputFeasibilityDecided` | FM-Elimination/fm.c:220-321 | for a loaded system `A x ≤ b` with exact normalisation, a solution is reported iff the system is feasible, and the reported point satisfies `A x ≤ b` |
| `FourierMotzkinProofs.TruncatedAbsReportsFeasibleSystemEmpty` | FM-Elimination/fm.c:287 | the system `0.5x ≤ 2, −x ≤ −3` is satisfied by `x = 3.5`, yet with truncated normalisation it is reported empty |
| `FourierMotzkinProofs.WrappedRowCountPassesGuard` | FM-Elimination/fm.c:132-136 | with 65537 positive and 65537 negative rows the 32-bit count wraps to 131073 and passes the row guard as written, although the true count exceeds `MAX_ROWS`; the corrected `Eliminate` rejects every system with those counters |
| `FourierMotzkinProofs.GuardAsWrittenAgreesWhenSmall` | FM-Elimination/fm.c:132-136 | whenever the true count is within `MAX_ROWS`, the C computation gives the true count and the guard admits it, so the corrected guard changes nothing else |

## Left out

- Reading LP files, printing (verbose mode, solutions, certificates, the LP itself), `main` and memory management (`free_*`, `calloc`): these are I/O and allocation, with no logic to model.
- `QR_decomp` (Gram–Schmidt factorisation) is not part of this model: `Q` and `R` are inputs, and the solvers are proved correct relative to them (`R x = Qᵀb`).
- `build_tableaux` / `set_tableaux` are not part of this model: the tableaux for a basis is a function parameter, and `PivotFault` covers a tableaux inconsistent with its basis, a case the C code would treat as undefined behaviour.
- Floating point: doubles are exact reals, so rounding and the cases where it changes a comparison are not modelled.
- `rank`, `norm`, `add_vector`, `sub_vector`, `copy_to_vector` and the printing helpers of `lin_alg.c`: `copy_to_vector` appears only as the `retSize` length check of the pivot loop.
- Simplex.SolveFromBasis: the pivot loop has a `fuel` bound that the source does not have, and the contract is relative to the `build` parameter; it does not claim optimality of the LP, only that the optimality test passed at the returned basis. `PivotFault` stands for a `build` result the C code would misuse; it is excluded only under the hypothesis of `SolveFromBasisNoFault`.
- Simplex.SimplexSolveLP: relative to `build` and to `fuel` like the pivot loop; it does not claim the returned `x` is an optimal solution of the LP.
- Simplex.FindInitialBasis: the phase-I result is passed on as solution values (not a 0/1 basis indicator), as the source does; the model does not claim it is a feasible basis.
- FourierMotzkin.Eliminate: the certificate rows `C` are carried along, but that they form a Farkas certificate (`yᵀA = 0`, `yᵀb < 0`, `y ≥ 0`) is not proved.
- FourierMotzkin.CheckFeasibility: the certificate reported is the `C` row of the first negative right-hand side; its Farkas meaning is not proved (see `Eliminate`).
- FourierMotzkinProofs.FeasibilityCorrect: proved for exact normalisation only; with the truncated divisor of the source the decision is wrong (see Findings).
- FourierMotzkin.Normalize: the C conversion `(int)` of a double beyond the `int` range is undefined behaviour and is not modelled; `TruncAbs` truncates at any magnitude.

## Findings

| source | as written | input that shows it | evidently intended | confidence | as-written member | corrected member |
|---|---|---|---|---|---|---|
| Simplex-Algorithm/src/lin_alg.c:173-174 | `copy_col` and `replace_col` reject only `size_c < col`, so `col == size_c` passes | a 1×1 matrix with `col = 1` | only `col < size_c` is a column | high (not executed) | `LinAlg.ColGuardAsWritten`, `LinAlg.ColGuardAdmitsPastEnd` | `LinAlg.ColGuard`, `LinAlg.CopyCol`, `LinAlg.ReplaceCol` |
| FM-Elimination/fm.c:287 | rows are divided by the C integer `abs` of the leading coefficient, which truncates it to a whole number | `0.5x ≤ 2, −x ≤ −3`, feasible at `x = 3.5`, is reported empty with certificate `[1, 1]` | divide by the exact magnitude (`fabs`), so leading coefficients become ±1 | high (not executed) | `FourierMotzkinProofs.TruncatedAbsReportsFeasibleSystemEmpty` | `FourierMotzkinProofs.InputFeasibilityDecided`, `FourierMotzkinProofs.FeasibilityCorrect` |
| FM-Elimination/fm.c:132-136 | the new row count `n_pos * n_neg + n_zero` is an `int` product, which wraps (signed overflow) before the `MAX_ROWS` guard | 65537 positive, 65537 negative and no zero leading coefficients: the count wraps to 131073 | compare the exact count with `MAX_ROWS` | medium (not executed) | `FourierMotzkinProofs.WrappedRowCountPassesGuard` | `FourierMotzkin.Eliminate`, `FourierMotzkinProofs.GuardAsWrittenAgreesWhenSmall` |

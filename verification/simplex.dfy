/** The control logic of the two-phase revised simplex method: the two
    entering-variable rules, the ratio test, the basis exchange, the phase-II
    pivot loop, the phase-I auxiliary problem and feasibility decision, and
    the mapping to result codes.

    The tableaux itself (basis inverse, reduced costs, basic solution) is
    computed by a builder this model does not define: every operation that
    needs one takes it as a function `build(P, basis)`. */
module Simplex {
  import opened Wrappers
  import opened LinAlg

  /* Result codes and pivot-rule identifiers. */
  const SOLVABLE: int := 0
  const INFEASIBLE: int := 1
  const UNBOUNDED: int := 2
  const WRONG_FORM: int := 3

  const BLAND: int := 0
  const LCR: int := 1

  /** `max c^t x  s.t.  A x = b, x >= 0`. */
  datatype LP = LP(A: Matrix, b: Vector, c: Vector)
  {
    predicate Valid() {
      A.Valid() && |b| == A.rows && |c| == A.cols
    }
  }

  /** The fields of a tableaux the pivot logic reads: reduced costs `r`,
      basic coordinates `p`, `Q = -A_B^-1 A_N`, the full basic solution `x`,
      and the tables converting basic / non-basic positions to columns. */
  datatype Tableaux = Tableaux(r: Vector, p: Vector, Q: Matrix, x: Vector,
                               indicesB: seq<nat>, indicesN: seq<nat>)

  /** The shape a tableaux built for `basis` has: its index tables list the
      basic and the non-basic columns in ascending order, `r` has one entry
      per non-basic column and `p` one per basic column. */
  predicate Consistent(T: Tableaux, basis: Vector) {
    && T.Q.Valid()
    && T.indicesB == NonzeroIndices(basis)
    && T.indicesN == NonzeroIndices(SwapZeroNonzero(basis))
    && |T.r| == T.Q.cols == |T.indicesN|
    && |T.p| == T.Q.rows == |T.indicesB|
  }

  /* ---------------------------------------------------------------------- */
  /* Entering variable                                                      */
  /* ---------------------------------------------------------------------- */

  /** First position at or after `from` with a strictly positive entry. */
  function FirstPositive(r: Vector, from: nat): (a: Option<nat>)
    requires from <= |r|
    ensures a.Some? ==> from <= a.value < |r| && r[a.value] > 0.0
    ensures a.Some? ==> forall k :: from <= k < a.value ==> r[k] <= 0.0
    ensures a.None? ==> forall k :: from <= k < |r| ==> r[k] <= 0.0
    decreases |r| - from
  {
    if from == |r| then None
    else if r[from] > 0.0 then Some(from)
    else FirstPositive(r, from + 1)
  }

  /** `choose_alpha_BLAND`: the smallest index with a positive reduced cost
      (compared with 0, not with the tolerance); none is a runtime error. */
  function ChooseAlphaBland(r: Vector): (res: Result<nat>)
    ensures res.Ok? <==> exists k :: 0 <= k < |r| && r[k] > 0.0
    ensures res.Ok? ==> res.value < |r| && r[res.value] > 0.0
    ensures res.Ok? ==> forall k :: 0 <= k < res.value ==> r[k] <= 0.0
  {
    match FirstPositive(r, 0)
    case Some(a) => Ok(a)
    case None => Err("choose_alpha_SC: no valid alpha could be found")
  }

  /** The scan of the largest-coefficient rule over `r[..n]`: the running
      best index (unset at first) and the running largest value, which starts
      at -1 and is replaced only by a strictly larger entry. */
  function LargestScan(r: Vector, n: nat): (best: (Option<nat>, real))
    requires n <= |r|
    ensures best.1 >= -1.0
    ensures forall k :: 0 <= k < n ==> r[k] <= best.1
    ensures best.0.None? ==> best.1 == -1.0
    ensures best.0.Some? ==> best.0.value < n && r[best.0.value] == best.1
    ensures best.0.Some? ==> forall k :: 0 <= k < best.0.value ==> r[k] < best.1
  {
    if n == 0 then (None, -1.0)
    else
      var prev := LargestScan(r, n - 1);
      if r[n - 1] > prev.1 then (Some(n - 1), r[n - 1]) else prev
  }

  /** `choose_alpha_LCR`: the first index attaining the largest reduced
      cost, provided that cost is positive; otherwise a runtime error. */
  function ChooseAlphaLCR(r: Vector): (res: Result<nat>)
    ensures res.Ok? <==> exists k :: 0 <= k < |r| && r[k] > 0.0
    ensures res.Ok? ==> res.value < |r| && r[res.value] > 0.0
    ensures res.Ok? ==> forall k :: 0 <= k < |r| ==> r[k] <= r[res.value]
    ensures res.Ok? ==> forall k :: 0 <= k < res.value ==> r[k] < r[res.value]
  {
    var best := LargestScan(r, |r|);
    if best.1 > 0.0 then Ok(best.0.value)
    else Err("choose_alpha_SC: no valid alpha could be found")
  }

  /** `choose_alpha`: the largest-coefficient rule for `LCR`, Bland's rule
      for every other identifier. */
  function ChooseAlpha(r: Vector, rule: int): (res: Result<nat>)
    ensures res.Ok? <==> exists k :: 0 <= k < |r| && r[k] > 0.0
    ensures res.Ok? ==> res.value < |r| && r[res.value] > 0.0
    ensures rule != LCR && res.Ok? ==> forall k :: 0 <= k < res.value ==> r[k] <= 0.0
    ensures rule == LCR && res.Ok? ==> forall k :: 0 <= k < |r| ==> r[k] <= r[res.value]
    ensures rule == LCR && res.Ok? ==> forall k :: 0 <= k < res.value ==> r[k] < r[res.value]
  {
    if rule == BLAND then ChooseAlphaBland(r)
    else if rule == LCR then ChooseAlphaLCR(r)
    else ChooseAlphaBland(r)
  }

  /* ---------------------------------------------------------------------- */
  /* Leaving variable                                                       */
  /* ---------------------------------------------------------------------- */

  /** A row takes part in the ratio test when its entry in column `alpha`
      is below minus the tolerance. */
  predicate Eligible(Q: Matrix, alpha: nat, i: nat)
    requires Q.Valid() && alpha < Q.cols && i < Q.rows
  {
    Q.entries[i][alpha] < -ZERO_TOL
  }

  function Ratio(Q: Matrix, p: Vector, alpha: nat, i: nat): real
    requires Q.Valid() && alpha < Q.cols && i < Q.rows && |p| == Q.rows
    requires Eligible(Q, alpha, i)
  {
    p[i] / Q.entries[i][alpha]
  }

  /** The ratio test over rows `0..n-1`: the first eligible row with the
      largest ratio, if any row is eligible. */
  function BetaScan(Q: Matrix, p: Vector, alpha: nat, n: nat): (best: Option<nat>)
    requires Q.Valid() && alpha < Q.cols && |p| == Q.rows && n <= Q.rows
    ensures best.None? <==> forall i :: 0 <= i < n ==> !Eligible(Q, alpha, i)
    ensures best.Some? ==> best.value < n && Eligible(Q, alpha, best.value)
    ensures best.Some? ==> forall i :: 0 <= i < n && Eligible(Q, alpha, i) ==>
                             Ratio(Q, p, alpha, i) <= Ratio(Q, p, alpha, best.value)
    ensures best.Some? ==> forall i :: 0 <= i < best.value && Eligible(Q, alpha, i) ==>
                             Ratio(Q, p, alpha, i) < Ratio(Q, p, alpha, best.value)
  {
    if n == 0 then None
    else
      var prev := BetaScan(Q, p, alpha, n - 1);
      if Eligible(Q, alpha, n - 1)
         && (prev.None? || Ratio(Q, p, alpha, n - 1) > Ratio(Q, p, alpha, prev.value))
      then Some(n - 1)
      else prev
  }

  /** `choose_beta`: -1 exactly when no row is eligible (the LP is
      unbounded along `alpha`), otherwise the first row maximising
      `p[i] / Q[i][alpha]`. */
  function ChooseBeta(Q: Matrix, p: Vector, alpha: nat): (beta: int)
    requires Q.Valid() && alpha < Q.cols && |p| == Q.rows
    ensures beta == -1 <==> forall i :: 0 <= i < Q.rows ==> !Eligible(Q, alpha, i)
    ensures beta != -1 ==> 0 <= beta < Q.rows && Eligible(Q, alpha, beta)
    ensures beta != -1 ==> forall i :: 0 <= i < Q.rows && Eligible(Q, alpha, i) ==>
                             Ratio(Q, p, alpha, i) <= Ratio(Q, p, alpha, beta)
    ensures beta != -1 ==> forall i :: 0 <= i < beta && Eligible(Q, alpha, i) ==>
                             Ratio(Q, p, alpha, i) < Ratio(Q, p, alpha, beta)
  {
    match BetaScan(Q, p, alpha, Q.rows)
    case Some(i) => i
    case None => -1
  }

  /* ---------------------------------------------------------------------- */
  /* Basis exchange                                                         */
  /* ---------------------------------------------------------------------- */

  /** `swap_basis`: the entering column (through `indicesN`) becomes basic,
      then the leaving column (through `indicesB`) becomes non-basic. */
  function SwapBasis(B: Vector, T: Tableaux, alpha: nat, beta: nat): (B': Vector)
    requires alpha < |T.indicesN| && beta < |T.indicesB|
    requires T.indicesN[alpha] < |B| && T.indicesB[beta] < |B|
    ensures |B'| == |B|
    ensures B'[T.indicesB[beta]] == 0.0
    ensures T.indicesN[alpha] != T.indicesB[beta] ==> B'[T.indicesN[alpha]] == 1.0
    ensures forall k :: 0 <= k < |B| && k != T.indicesN[alpha] && k != T.indicesB[beta] ==> B'[k] == B[k]
  {
    B[T.indicesN[alpha] := 1.0][T.indicesB[beta] := 0.0]
  }

  /** Count of non-zero entries after overwriting one entry. */
  lemma {:induction false} CountAfterUpdate(s: Vector, i: nat, v: real)
    requires i < |s|
    ensures CountNonzero(s[i := v]) + (if s[i] != 0.0 then 1 else 0)
            == CountNonzero(s) + (if v != 0.0 then 1 else 0)
  {
    var n := |s| - 1;
    assert s[i := v][..n] == if i < n then s[..n][i := v] else s[..n];
    if i < n {
      CountAfterUpdate(s[..n], i, v);
    }
  }

  /** An exchange through a consistent tableaux keeps the size of the basis:
      the entering column was non-basic and the leaving one basic. */
  lemma SwapKeepsBasisSize(B: Vector, T: Tableaux, alpha: nat, beta: nat)
    requires Consistent(T, B) && alpha < |T.indicesN| && beta < |T.indicesB|
    ensures T.indicesN[alpha] < |B| && T.indicesB[beta] < |B|
    ensures CountNonzero(SwapBasis(B, T, alpha, beta)) == CountNonzero(B)
  {
    var w := SwapZeroNonzero(B);
    var e, l := T.indicesN[alpha], T.indicesB[beta];
    assert e < |w| && w[e] != 0.0;
    assert B[e] == 0.0 && B[l] != 0.0;
    var B1 := B[e := 1.0];
    CountAfterUpdate(B, e, 1.0);
    CountAfterUpdate(B1, l, 0.0);
  }

  /* ---------------------------------------------------------------------- */
  /* Phase II                                                               */
  /* ---------------------------------------------------------------------- */

  /** How the pivot loop ends. `Bounded` and `UnboundedAt` carry the basis the
      loop stopped at; `OutOfFuel` stands for a run longer than the bound
      given to the model (the source has no iteration cap). */
  datatype PhaseTwo =
    | Bounded(x: Vector, basis: Vector)
    | UnboundedAt(basis: Vector, alpha: nat)
    | PivotFault(msg: string)
    | PivotOutOfFuel

  /** `simplex_solve_LP_basis`: rebuild the tableaux for the current basis;
      stop when no reduced cost exceeds the tolerance (returning `x`, copied
      into a vector of `retSize` entries), or when the ratio test finds no
      leaving row; otherwise exchange and repeat. */
  function SolveFromBasis(build: Vector -> Tableaux, basis: Vector, rule: int, retSize: nat, fuel: nat)
    : (res: PhaseTwo)
    ensures res.Bounded? ==> IsSmallerZeroVect(build(res.basis).r) && res.x == build(res.basis).x
    ensures res.Bounded? ==> |res.x| == retSize
    ensures res.UnboundedAt? ==>
              var T := build(res.basis);
              Consistent(T, res.basis) && res.alpha < |T.r| && T.r[res.alpha] > 0.0
              && forall i :: 0 <= i < T.Q.rows ==> T.Q.entries[i][res.alpha] >= -ZERO_TOL
    ensures res.UnboundedAt? ==> !IsSmallerZeroVect(build(res.basis).r)
                                 && ChooseAlpha(build(res.basis).r, rule).Ok?
                                 && ChooseAlpha(build(res.basis).r, rule).value == res.alpha
                                 && ChooseBeta(build(res.basis).Q, build(res.basis).p, res.alpha) == -1
    ensures res.Bounded? ==> CountNonzero(res.basis) == CountNonzero(basis)
    ensures res.UnboundedAt? ==> CountNonzero(res.basis) == CountNonzero(basis)
    decreases fuel
  {
    var T := build(basis);
    if !Consistent(T, basis) then PivotFault("tableaux inconsistent with basis")
    else if IsSmallerZeroVect(T.r) then
      if |T.x| != retSize then PivotFault("copy_to_vector: vectors of unequal size")
      else Bounded(T.x, basis)
    else if fuel == 0 then PivotOutOfFuel
    else
      var alpha := ChooseAlpha(T.r, rule);
      assert alpha.Ok?;
      var beta := ChooseBeta(T.Q, T.p, alpha.value);
      if beta == -1 then
        assert forall i :: 0 <= i < T.Q.rows ==> T.Q.entries[i][alpha.value] >= -ZERO_TOL by {
          forall i | 0 <= i < T.Q.rows
            ensures T.Q.entries[i][alpha.value] >= -ZERO_TOL
          {
            assert !Eligible(T.Q, alpha.value, i);
          }
        }
        UnboundedAt(basis, alpha.value)
      else
        SwapKeepsBasisSize(basis, T, alpha.value, beta);
        SolveFromBasis(build, SwapBasis(basis, T, alpha.value, beta), rule, retSize, fuel - 1)
  }

  /** One turn of the pivot loop, read both ways: each exit of the loop is
      taken exactly when the tableaux for the current basis calls for it,
      and otherwise the loop continues from the exchanged basis. */
  lemma SolveFromBasisStep(build: Vector -> Tableaux, basis: Vector, rule: int, retSize: nat, fuel: nat)
    ensures var T := build(basis);
            var res := SolveFromBasis(build, basis, rule, retSize, fuel);
            && (!Consistent(T, basis) ==> res.PivotFault?)
            && (Consistent(T, basis) && IsSmallerZeroVect(T.r) && |T.x| == retSize ==> res == Bounded(T.x, basis))
            && (Consistent(T, basis) && IsSmallerZeroVect(T.r) && |T.x| != retSize ==> res.PivotFault?)
            && (Consistent(T, basis) && !IsSmallerZeroVect(T.r) && fuel == 0 ==> res == PivotOutOfFuel)
            && (Consistent(T, basis) && !IsSmallerZeroVect(T.r) && fuel > 0
                && ChooseAlpha(T.r, rule).Ok? && ChooseBeta(T.Q, T.p, ChooseAlpha(T.r, rule).value) == -1
                ==> res == UnboundedAt(basis, ChooseAlpha(T.r, rule).value))
  {
  }

  /** An exchange step continues the loop from the exchanged basis with one
      unit of fuel less. */
  lemma SolveFromBasisPivot(build: Vector -> Tableaux, basis: Vector, rule: int, retSize: nat, fuel: nat,
                            alpha: nat, beta: nat)
    requires Consistent(build(basis), basis) && !IsSmallerZeroVect(build(basis).r) && fuel > 0
    requires ChooseAlpha(build(basis).r, rule) == Ok(alpha)
    requires ChooseBeta(build(basis).Q, build(basis).p, alpha) == beta as int
    ensures alpha < |build(basis).indicesN| && beta < |build(basis).indicesB|
    ensures build(basis).indicesN[alpha] < |basis| && build(basis).indicesB[beta] < |basis|
    ensures SolveFromBasis(build, basis, rule, retSize, fuel)
            == SolveFromBasis(build, SwapBasis(basis, build(basis), alpha, beta), rule, retSize, fuel - 1)
  {
  }

  /** When every basis of the right length yields a consistent tableaux whose
      solution has `retSize` entries, the loop never faults: it ends bounded,
      unbounded, or out of fuel. */
  lemma {:induction false} SolveFromBasisNoFault(build: Vector -> Tableaux, basis: Vector, rule: int,
                                                 retSize: nat, fuel: nat)
    requires forall B {:trigger build(B)} :: |B| == |basis| ==> Consistent(build(B), B) && |build(B).x| == retSize
    ensures !SolveFromBasis(build, basis, rule, retSize, fuel).PivotFault?
    decreases fuel
  {
    var T := build(basis);
    if !IsSmallerZeroVect(T.r) && fuel > 0 {
      var alpha := ChooseAlpha(T.r, rule);
      var beta := ChooseBeta(T.Q, T.p, alpha.value);
      if beta != -1 {
        SwapKeepsBasisSize(basis, T, alpha.value, beta);
        SolveFromBasisNoFault(build, SwapBasis(basis, T, alpha.value, beta), rule, retSize, fuel - 1);
      }
    }
  }

  /** The optimality test is what makes an entering variable exist. */
  lemma NotOptimalHasEntering(r: Vector, rule: int)
    requires !IsSmallerZeroVect(r)
    ensures ChooseAlpha(r, rule).Ok?
  {
  }

  /* ---------------------------------------------------------------------- */
  /* Phase I                                                                */
  /* ---------------------------------------------------------------------- */

  /** `initial_basis_LP`: `A' = (A | I_m)`, `c' = (0, ..., 0, -1, ..., -1)`,
      `b` unchanged. */
  function InitialBasisLP(P: LP): (I: LP)
    requires P.Valid()
    ensures I.Valid()
    ensures I.A.rows == P.A.rows && I.A.cols == P.A.cols + P.A.rows
    ensures forall i, j :: 0 <= i < P.A.rows && 0 <= j < P.A.cols ==> I.A.entries[i][j] == P.A.entries[i][j]
    ensures forall i, j :: 0 <= i < P.A.rows && P.A.cols <= j < I.A.cols ==>
              I.A.entries[i][j] == if j - P.A.cols == i then 1.0 else 0.0
    ensures |I.c| == |P.c| + P.A.rows
    ensures forall j :: 0 <= j < P.A.cols ==> I.c[j] == 0.0
    ensures forall j :: P.A.cols <= j < |I.c| ==> I.c[j] == -1.0
    ensures I.b == P.b
  {
    var m, n := P.A.rows, P.A.cols;
    var A' := Matrix(m, n + m, seq(m, i requires 0 <= i < m => P.A.entries[i] + Unit(m, i)));
    var c' := seq(|P.c| + m, j => if j < n then 0.0 else -1.0);
    LP(A', P.b, c')
  }

  /** The phase-I starting basis: ones exactly at the artificial columns
      `n .. n+m-1`. */
  function StartBasis(n: nat, m: nat): (B: Vector)
    ensures |B| == n + m
    ensures forall j :: 0 <= j < n + m ==> (B[j] == 1.0 <==> n <= j) && (B[j] == 0.0 <==> j < n)
  {
    seq(n + m, j => if j < n then 0.0 else 1.0)
  }

  /** `Select` distributes over concatenation. */
  lemma {:induction false} SelectAppend(u: Vector, mu: Vector, w: Vector, mw: Vector)
    requires |u| == |mu| && |w| == |mw|
    ensures Select(u + w, mu + mw) == Select(u, mu) + Select(w, mw)
    decreases |w|
  {
    if |w| > 0 {
      var k := |w| - 1;
      assert (u + w)[..|u + w| - 1] == u + w[..k];
      assert (mu + mw)[..|mu + mw| - 1] == mu + mw[..k];
      SelectAppend(u, mu, w[..k], mw[..k]);
    } else {
      assert u + w == u && mu + mw == mu;
    }
  }

  lemma {:induction false} SelectAllZero(u: Vector, mu: Vector)
    requires |u| == |mu| && forall i :: 0 <= i < |mu| ==> mu[i] == 0.0
    ensures Select(u, mu) == []
  {
    if |u| > 0 {
      SelectAllZero(u[..|u| - 1], mu[..|mu| - 1]);
    }
  }

  lemma {:induction false} SelectAllOne(w: Vector, mw: Vector)
    requires |w| == |mw| && forall i :: 0 <= i < |mw| ==> mw[i] == 1.0
    ensures Select(w, mw) == w
  {
    if |w| > 0 {
      SelectAllOne(w[..|w| - 1], mw[..|mw| - 1]);
    }
  }

  /** The starting basis picks out exactly the appended identity block, and
      its complement picks out the original matrix: the all-artificial basis
      is the one phase I starts from, with `A_B = I_m`. */
  lemma AuxiliaryBasisIsIdentity(P: LP)
    requires P.Valid()
    ensures var I := InitialBasisLP(P);
            var B := StartBasis(P.A.cols, P.A.rows);
            && SubindMatrix(I.A, B) == Ok(Identity(P.A.rows))
            && SubindMatrix(I.A, SwapZeroNonzero(B)) == Ok(P.A)
  {
    var I := InitialBasisLP(P);
    var m, n := P.A.rows, P.A.cols;
    var B := StartBasis(n, m);
    var N := SwapZeroNonzero(B);
    forall i | 0 <= i < m
      ensures Select(I.A.entries[i], B) == Unit(m, i)
      ensures Select(I.A.entries[i], N) == P.A.entries[i]
    {
      AuxiliaryRow(P.A.entries[i], Unit(m, i), I.A.entries[i], B, N);
    }
    StartBasisCount(n, m);
    ComplementCounts(B);
    var S := SubindMatrix(I.A, B).value;
    assert S.entries == Identity(m).entries;
    var T := SubindMatrix(I.A, N).value;
    assert T.entries == P.A.entries;
  }

  /** One row of the auxiliary matrix: the starting basis selects its
      identity part, the complement its original part. */
  lemma AuxiliaryRow(a: Vector, e: Vector, row: Vector, B: Vector, N: Vector)
    requires row == a + e
    requires B == StartBasis(|a|, |e|) && N == SwapZeroNonzero(B)
    ensures Select(row, B) == e
    ensures Select(row, N) == a
  {
    var zn, om := StartBasisParts(|a|, |e|, B);
    SelectAppend(a, zn, e, om);
    SelectAllZero(a, zn);
    SelectAllOne(e, om);
    var on, zm := ComplementParts(|a|, |e|, B, N);
    SelectAppend(a, on, e, zm);
    SelectAllOne(a, on);
    SelectAllZero(e, zm);
  }

  /** The starting basis: `n` zeros for the original columns, then `m` ones
      for the auxiliary ones. */
  lemma StartBasisParts(n: nat, m: nat, B: Vector) returns (zn: Vector, om: Vector)
    requires B == StartBasis(n, m)
    ensures B == zn + om && |zn| == n && |om| == m
    ensures forall j :: 0 <= j < n ==> zn[j] == 0.0
    ensures forall j :: 0 <= j < m ==> om[j] == 1.0
  {
    zn, om := B[..n], B[n..];
    assert B == zn + om;
  }

  /** Its complement: ones for the original columns, zeros for the rest. */
  lemma ComplementParts(n: nat, m: nat, B: Vector, N: Vector) returns (on: Vector, zm: Vector)
    requires B == StartBasis(n, m) && N == SwapZeroNonzero(B)
    ensures N == on + zm && |on| == n && |zm| == m
    ensures forall j :: 0 <= j < n ==> on[j] == 1.0
    ensures forall j :: 0 <= j < m ==> zm[j] == 0.0
  {
    on, zm := N[..n], N[n..];
    assert N == on + zm;
  }

  lemma {:induction false} StartBasisCount(n: nat, m: nat)
    ensures CountNonzero(StartBasis(n, m)) == m
    decreases m
  {
    if m > 0 {
      assert StartBasis(n, m)[..n + m - 1] == StartBasis(n, m - 1);
      StartBasisCount(n, m - 1);
    } else {
      SelectAllZeroCount(StartBasis(n, 0));
    }
  }

  lemma {:induction false} SelectAllZeroCount(mu: Vector)
    requires forall i :: 0 <= i < |mu| ==> mu[i] == 0.0
    ensures CountNonzero(mu) == 0
  {
    if |mu| > 0 {
      SelectAllZeroCount(mu[..|mu| - 1]);
    }
  }

  /** The phase-I objective on a non-negative point: it is never positive,
      and it is negative exactly when some artificial variable is positive. */
  lemma PhaseOneObjective(P: LP, x: Vector)
    requires P.Valid()
    requires |x| == P.A.cols + P.A.rows
    requires forall j :: 0 <= j < |x| ==> x[j] >= 0.0
    ensures Dot(InitialBasisLP(P).c, x) <= 0.0
    ensures Dot(InitialBasisLP(P).c, x) < 0.0 <==> exists j :: P.A.cols <= j < |x| && x[j] > 0.0
  {
    var c := InitialBasisLP(P).c;
    PhaseOnePrefix(c, x, P.A.cols, |x|);
    assert c[..|x|] == c && x[..|x|] == x;
  }

  lemma {:induction false} PhaseOnePrefix(c: Vector, x: Vector, n: nat, k: nat)
    requires |c| == |x| && k <= |x|
    requires forall j :: 0 <= j < |c| ==> c[j] == (if j < n then 0.0 else -1.0)
    requires forall j :: 0 <= j < |x| ==> x[j] >= 0.0
    ensures Dot(c[..k], x[..k]) <= 0.0
    ensures Dot(c[..k], x[..k]) < 0.0 <==> exists j :: n <= j < k && x[j] > 0.0
  {
    if k > 0 {
      assert c[..k][..k - 1] == c[..k - 1] && x[..k][..k - 1] == x[..k - 1];
      PhaseOnePrefix(c, x, n, k - 1);
    }
    if k == |x| {
      assert c[..k] == c && x[..k] == x;
    }
  }

  /** How phase I ends. */
  datatype PhaseOne =
    | Feasible(basis: Vector)
    | NoFeasibleBasis
    | PhaseOneFault(msg: string)
    | PhaseOneOutOfFuel

  /** The phase-II run on the auxiliary LP from the all-artificial basis. */
  function PhaseOneRun(P: LP, rule: int, build: (LP, Vector) -> Tableaux, fuel: nat): (run: PhaseTwo)
    requires P.Valid()
    ensures run.Bounded? ==> |run.x| == P.A.cols + P.A.rows
    ensures run.Bounded? ==> var T := build(InitialBasisLP(P), run.basis);
                             IsSmallerZeroVect(T.r) && run.x == T.x
    ensures run.Bounded? || run.UnboundedAt? ==> CountNonzero(run.basis) == P.A.rows
  {
    StartBasisCount(P.A.cols, P.A.rows);
    var I := InitialBasisLP(P);
    SolveFromBasis(B => build(I, B), StartBasis(P.A.cols, P.A.rows), rule, |I.c|, fuel)
  }

  /** `find_initial_basis`: runs phase I; infeasible exactly when the
      auxiliary optimum `c'^t sol` is negative (no tolerance); otherwise the
      first `retSize` entries of the phase-I solution values (not a 0/1
      indicator) are handed back. The return code of the phase-I run is not
      inspected, so an unbounded run leaves `sol` at zero. */
  function FindInitialBasis(P: LP, rule: int, retSize: nat, build: (LP, Vector) -> Tableaux, fuel: nat)
    : (res: PhaseOne)
    requires P.Valid()
    requires retSize <= P.A.cols + P.A.rows
    ensures res.NoFeasibleBasis? <==>
              var run := PhaseOneRun(P, rule, build, fuel);
              run.Bounded? && Dot(InitialBasisLP(P).c, run.x) < 0.0
    ensures res.Feasible? ==> |res.basis| == retSize
    ensures res.Feasible? && PhaseOneRun(P, rule, build, fuel).Bounded? ==>
              res.basis == PhaseOneRun(P, rule, build, fuel).x[..retSize]
    ensures res.Feasible? && !PhaseOneRun(P, rule, build, fuel).Bounded? ==> res.basis == Zeros(retSize)
    ensures PhaseOneRun(P, rule, build, fuel).PivotFault? <==> res.PhaseOneFault?
    ensures PhaseOneRun(P, rule, build, fuel).PivotOutOfFuel? <==> res.PhaseOneOutOfFuel?
  {
    var I := InitialBasisLP(P);
    var run := PhaseOneRun(P, rule, build, fuel);
    match run
    case PivotFault(msg) => PhaseOneFault(msg)
    case PivotOutOfFuel => PhaseOneOutOfFuel
    case UnboundedAt(_, _) =>
      var sol := Zeros(|I.c|);
      ZeroObjective(I.c);
      Feasible(sol[..retSize])
    case Bounded(x, _) =>
      if Dot(I.c, x) < 0.0 then NoFeasibleBasis else Feasible(x[..retSize])
  }

  lemma {:induction false} ZeroObjective(c: Vector)
    ensures Dot(c, Zeros(|c|)) == 0.0
  {
    if |c| > 0 {
      assert Zeros(|c|)[..|c| - 1] == Zeros(|c| - 1);
      ZeroObjective(c[..|c| - 1]);
    }
  }

  /* ---------------------------------------------------------------------- */
  /* The two-phase solver                                                   */
  /* ---------------------------------------------------------------------- */

  /** What the solver reports. `Solvable` carries the optimal basis the
      pivot loop stopped at, besides the solution. */
  datatype Verdict =
    | Solvable(x: Vector, basis: Vector)
    | Infeasible
    | Unbounded
    | WrongForm
    | Fault(msg: string)
    | OutOfFuel
  {
    predicate Reportable() {
      Solvable? || Infeasible? || Unbounded? || WrongForm?
    }
  }

  /** The integer code the source returns for each reportable verdict. */
  function Code(v: Verdict): (code: int)
    requires v.Reportable()
    ensures v.Solvable? <==> code == SOLVABLE
    ensures v.Infeasible? <==> code == INFEASIBLE
    ensures v.Unbounded? <==> code == UNBOUNDED
    ensures v.WrongForm? <==> code == WRONG_FORM
  {
    match v
    case Solvable(_, _) => SOLVABLE
    case Infeasible => INFEASIBLE
    case Unbounded => UNBOUNDED
    case WrongForm => WRONG_FORM
  }

  /** `simplex_solve_LP`: too many rows is rejected before any phase runs;
      then phase I, then phase II from the basis phase I hands back. */
  function SimplexSolveLP(P: LP, rule: int, retSize: nat, build: (LP, Vector) -> Tableaux, fuel: nat)
    : (v: Verdict)
    requires P.Valid()
    requires retSize <= P.A.cols + P.A.rows
    ensures v.WrongForm? <==> P.A.rows > P.A.cols
    ensures v.Infeasible? <==>
              P.A.rows <= P.A.cols && FindInitialBasis(P, rule, retSize, build, fuel).NoFeasibleBasis?
    ensures v.Solvable? ==>
              IsSmallerZeroVect(build(P, v.basis).r) && v.x == build(P, v.basis).x && |v.x| == retSize
    ensures v.Solvable? || v.Unbounded? ==>
              P.A.rows <= P.A.cols && FindInitialBasis(P, rule, retSize, build, fuel).Feasible?
    ensures P.A.rows <= P.A.cols && FindInitialBasis(P, rule, retSize, build, fuel).Feasible? ==>
              var run := SolveFromBasis(B => build(P, B), FindInitialBasis(P, rule, retSize, build, fuel).basis,
                                        rule, retSize, fuel);
              && (v.Solvable? <==> run.Bounded?)
              && (v.Unbounded? <==> run.UnboundedAt?)
              && (v.Solvable? ==> v.x == run.x && v.basis == run.basis)
              && (v.OutOfFuel? <==> run.PivotOutOfFuel?)
              && (v.Fault? <==> run.PivotFault?)
    ensures P.A.rows <= P.A.cols && FindInitialBasis(P, rule, retSize, build, fuel).PhaseOneFault? ==> v.Fault?
    ensures P.A.rows <= P.A.cols && FindInitialBasis(P, rule, retSize, build, fuel).PhaseOneOutOfFuel? ==> v.OutOfFuel?
  {
    if P.A.rows > P.A.cols then WrongForm
    else
      match FindInitialBasis(P, rule, retSize, build, fuel)
      case NoFeasibleBasis => Infeasible
      case PhaseOneFault(msg) => Fault(msg)
      case PhaseOneOutOfFuel => OutOfFuel
      case Feasible(start) =>
        match SolveFromBasis(B => build(P, B), start, rule, retSize, fuel)
        case Bounded(x, basis) => Solvable(x, basis)
        case UnboundedAt(_, _) => Unbounded
        case PivotFault(msg) => Fault(msg)
        case PivotOutOfFuel => OutOfFuel
  }

  /** The four result codes are pairwise distinct, and code 3 is returned
      exactly for systems with more rows than columns. */
  lemma ResultCodes(P: LP, rule: int, retSize: nat, build: (LP, Vector) -> Tableaux, fuel: nat)
    requires P.Valid() && retSize <= P.A.cols + P.A.rows
    ensures |{SOLVABLE, INFEASIBLE, UNBOUNDED, WRONG_FORM}| == 4
    ensures BLAND != LCR
    ensures var v := SimplexSolveLP(P, rule, retSize, build, fuel);
            v.Reportable() ==> (Code(v) == WRONG_FORM <==> P.A.rows > P.A.cols)
  {
  }
}

/** What Fourier-Motzkin elimination promises: every step keeps exactly the
    projections of the solutions, so the reduced system decides feasibility,
    back-substitution produces a solution, and a negative right-hand side
    at the end means there is none. All of it holds for exact normalisation;
    `TruncatedAbsReportsFeasibleSystemEmpty` shows the divisor the program
    computes breaks it. */
module FourierMotzkinProofs {
  import opened Wrappers
  import opened LinAlg
  import opened FourierMotzkin

  /* ---------------------------------------------------------------------- */
  /* Counting                                                               */
  /* ---------------------------------------------------------------------- */

  /** Every row is counted exactly once. */
  lemma {:induction false} SignsPartition(col: Vector)
    ensures CountSign(col, Pos) + CountSign(col, Zero) + CountSign(col, Neg) == |col|
  {
    if |col| > 0 {
      SignsPartition(col[..|col| - 1]);
    }
  }

  /** Counting from fresh counters gives counters that describe the rows and
      add up to the number of rows. */
  lemma FreshCountsDescribeRows(P: LP)
    requires P.Valid() && P.n > 0 && P.nPos == 0 && P.nZero == 0 && P.nNeg == 0
    ensures CountsOk(CountTypes(P))
    ensures CountTypes(P).nPos + CountTypes(P).nZero + CountTypes(P).nNeg == |P.A|
  {
    SignsPartition(Leading(P));
  }

  /* ---------------------------------------------------------------------- */
  /* Normalisation keeps the solutions                                      */
  /* ---------------------------------------------------------------------- */

  /** Dividing a row by a positive divisor keeps the inequality's solutions. */
  lemma NormalizedRowEquivalent(P: LP, norm: Normalization, x: Vector, i: nat)
    requires P.Valid() && |x| == P.n && i < |P.A|
    ensures Dot(Normalize(P, norm).A[i], x) <= Normalize(P, norm).b[i] <==> Dot(P.A[i], x) <= P.b[i]
  {
    var Q := Normalize(P, norm);
    if P.n > 0 {
      var t := RowDivisor(P, i, norm);
      if t != 0.0 {
        RowScaledEquivalent(P, Q, i, t, x);
      }
    }
  }

  /** Row `i` of `Q`, row `i` of `P` scaled by `t > 0`, holds where row `i`
      of `P` does. */
  lemma RowScaledEquivalent(P: LP, Q: LP, i: nat, t: real, x: Vector)
    requires P.Valid() && Q.Valid() && Q.n == P.n && Q.origM == P.origM && i < |P.A| && i < |Q.A|
    requires |x| == P.n && t > 0.0 && RowScaled(P, Q, i, t)
    ensures Dot(Q.A[i], x) <= Q.b[i] <==> Dot(P.A[i], x) <= P.b[i]
  {
    ScaledRowEquivalent(P.A[i], P.b[i], Q.A[i], Q.b[i], t, x);
  }

  /** The inequality `qa . x <= qb` is `a . x <= rhs` divided by `t > 0`. */
  lemma ScaledRowEquivalent(a: Vector, rhs: real, qa: Vector, qb: real, t: real, x: Vector)
    requires |a| == |x| && t > 0.0 && qb * t == rhs && ScaledVec(qa, a, t)
    ensures Dot(qa, x) <= qb <==> Dot(a, x) <= rhs
  {
    ScaledIsQuotient(a, qa, t);
    DotDiv(a, x, t);
    MulDiv(qb, t);
    DivideKeepsOrder(Dot(a, x), rhs, t);
  }

  lemma ScaledIsQuotient(a: Vector, qa: Vector, t: real)
    requires t != 0.0 && ScaledVec(qa, a, t)
    ensures qa == VecDiv(a, t)
  {
    forall j | 0 <= j < |a| ensures qa[j] == VecDiv(a, t)[j] {
      var q := qa[j];
      assert VecDiv(a, t)[j] == a[j] / t;
      assert a[j] == q * t;
      MulDiv(q, t);
    }
  }

  lemma MulDiv(q: real, t: real)
    requires t != 0.0
    ensures q * t / t == q
  {
  }

  lemma DivideKeepsOrder(u: real, w: real, t: real)
    requires t > 0.0
    ensures u / t <= w / t <==> u <= w
  {
    assert u == (u / t) * t && w == (w / t) * t;
  }

  /** Normalisation, with either divisor, keeps the solution set. */
  lemma NormalizeKeepsSolutions(P: LP, norm: Normalization, x: Vector)
    requires P.Valid() && |x| == P.n
    ensures Satisfies(Normalize(P, norm), x) <==> Satisfies(P, x)
  {
    forall i | 0 <= i < |P.A|
      ensures Dot(Normalize(P, norm).A[i], x) <= Normalize(P, norm).b[i] <==> Dot(P.A[i], x) <= P.b[i]
    {
      NormalizedRowEquivalent(P, norm, x, i);
    }
  }

  /** The system built from an input keeps its solutions. */
  lemma LoadKeepsSolutions(n: nat, A: seq<Vector>, b: Vector, norm: Normalization, x: Vector)
    requires |b| == |A| && (forall i :: 0 <= i < |A| ==> |A[i]| == n) && |x| == n
    ensures Satisfies(Load(n, A, b, norm), x) <==> forall i :: 0 <= i < |A| ==> Dot(A[i], x) <= b[i]
  {
    var raw := LP(n, A, b, Identity(|A|).entries, |A|, 0, 0, 0);
    NormalizeKeepsSolutions(raw, norm, x);
  }

  /* ---------------------------------------------------------------------- */
  /* Where the emitted rows come from                                       */
  /* ---------------------------------------------------------------------- */

  lemma {:induction false} EmitRowPrefix(P: LP, i: nat, j1: nat, j2: nat)
    requires P.Valid() && P.n > 0 && i < |P.A| && j1 <= j2 <= |P.A|
    decreases j2
    ensures EmitRow(P, i, j1) <= EmitRow(P, i, j2)
  {
    if j1 < j2 {
      EmitRowPrefix(P, i, j1, j2 - 1);
      PrefixOfConcat(EmitRow(P, i, j1), EmitRow(P, i, j2 - 1), EmitStep(P, i, j2 - 1), EmitRow(P, i, j2));
    }
  }

  lemma {:induction false} EmitAllPrefix(P: LP, c1: nat, c2: nat)
    requires P.Valid() && P.n > 0 && c1 <= c2 <= |P.A|
    decreases c2
    ensures EmitAll(P, c1) <= EmitAll(P, c2)
  {
    if c1 < c2 {
      EmitAllPrefix(P, c1, c2 - 1);
      PrefixOfConcat(EmitAll(P, c1), EmitAll(P, c2 - 1), EmitRow(P, c2 - 1, |P.A|), EmitAll(P, c2));
    }
  }

  /** A prefix of `s` stays a prefix of `s + t`. */
  lemma PrefixOfConcat<T>(a: seq<T>, s: seq<T>, t: seq<T>, whole: seq<T>)
    requires a <= s && whole == s + t
    ensures a <= whole
  {
    assert whole[..|a|] == s[..|a|];
  }

  /** Entry `k` of `a + b` is read from `a` or from `b`. */
  lemma IndexOfConcat<T>(whole: seq<T>, a: seq<T>, b: seq<T>, k: nat)
    requires whole == a + b && k < |whole|
    ensures k < |a| ==> whole[k] == a[k]
    ensures k >= |a| ==> whole[k] == b[k - |a|]
  {
  }

  /** One outer iteration appends the rows of its `i`. */
  lemma EmitAllStep(P: LP, cnt: nat)
    requires P.Valid() && P.n > 0 && 0 < cnt <= |P.A|
    ensures EmitAll(P, cnt) == EmitAll(P, cnt - 1) + EmitRow(P, cnt - 1, |P.A|)
  {
  }

  /** Where iteration `(i, j)` writes: after everything the earlier outer
      iterations and the earlier inner iterations of row `i` wrote. */
  function Offset(P: LP, i: nat, j: nat): nat
    requires P.Valid() && P.n > 0 && i < |P.A| && j < |P.A|
  {
    |EmitAll(P, i)| + |EmitRow(P, i, j)|
  }

  /** The rows iteration `(i, j)` emits sit at `Offset(P, i, j)` of the
      output, so the output lists the pairs in the loops' lexicographic
      order. */
  lemma EmitStepAt(P: LP, i: nat, j: nat)
    requires P.Valid() && P.n > 0 && i < |P.A| && j < |P.A|
    ensures Offset(P, i, j) + |EmitStep(P, i, j)| <= |EmitAll(P, |P.A|)|
    ensures EmitAll(P, |P.A|)[Offset(P, i, j)..Offset(P, i, j) + |EmitStep(P, i, j)|] == EmitStep(P, i, j)
  {
    var m := |P.A|;
    var mid := OuterIterationInPlace(P, i);
    var rowMid := InnerIterationInPlace(P, i, j);
    SliceOfConcat(EmitAll(P, m), mid, EmitAll(P, i), EmitRow(P, i, m),
                  rowMid, EmitRow(P, i, j), EmitStep(P, i, j), Offset(P, i, j));
  }

  /** The rows of outer iteration `i` follow those of the earlier ones. */
  lemma OuterIterationInPlace(P: LP, i: nat) returns (mid: seq<Row>)
    requires P.Valid() && P.n > 0 && i < |P.A|
    ensures mid <= EmitAll(P, |P.A|) && mid == EmitAll(P, i) + EmitRow(P, i, |P.A|)
  {
    EmitAllPrefix(P, i + 1, |P.A|);
    EmitAllStep(P, i + 1);
    mid := EmitAll(P, i + 1);
  }

  /** The rows of inner iteration `j` follow those of the earlier ones. */
  lemma InnerIterationInPlace(P: LP, i: nat, j: nat) returns (rowMid: seq<Row>)
    requires P.Valid() && P.n > 0 && i < |P.A| && j < |P.A|
    ensures rowMid <= EmitRow(P, i, |P.A|) && rowMid == EmitRow(P, i, j) + EmitStep(P, i, j)
  {
    EmitRowPrefix(P, i, j + 1, |P.A|);
    EmitRowStep(P, i, j + 1);
    rowMid := EmitRow(P, i, j + 1);
  }

  /** One inner iteration appends the rows of its `(i, j)`. */
  lemma EmitRowStep(P: LP, i: nat, jn: nat)
    requires P.Valid() && P.n > 0 && i < |P.A| && 0 < jn <= |P.A|
    ensures EmitRow(P, i, jn) == EmitRow(P, i, jn - 1) + EmitStep(P, i, jn - 1)
  {
  }

  /** If `all` starts with `mid == pre + row` and `row` starts with
      `rowMid == rowPre + step`, then `step` sits in `all` right after
      `pre + rowPre`. */
  lemma SliceOfConcat<T>(all: seq<T>, mid: seq<T>, pre: seq<T>, row: seq<T>,
                         rowMid: seq<T>, rowPre: seq<T>, step: seq<T>, off: nat)
    requires mid <= all && mid == pre + row
    requires rowMid <= row && rowMid == rowPre + step
    requires off == |pre| + |rowPre|
    ensures off + |step| <= |all|
    ensures all[off..off + |step|] == step
  {
    forall k | 0 <= k < |step| ensures all[off + k] == step[k] {
      assert all[off + k] == mid[off + k] == (pre + row)[off + k];
      assert row[|rowPre| + k] == rowMid[|rowPre| + k] == (rowPre + step)[|rowPre| + k];
    }
  }

  /** Every (positive, negative) pair contributes its sum. */
  lemma PairEmitted(P: LP, i: nat, j: nat)
    requires P.Valid() && P.n > 0 && i < |P.A| && j < |P.A| && IsPair(P, i, j)
    ensures Combine(P, i, j) in EmitAll(P, |P.A|)
  {
    EmitStepAt(P, i, j);
    var off := Offset(P, i, j);
    assert EmitAll(P, |P.A|)[off] == EmitStep(P, i, j)[0];
  }

  /** Every row with a zero leading coefficient is carried over. */
  lemma ZeroRowEmitted(P: LP, i: nat)
    requires P.Valid() && P.n > 0 && i < |P.A| && P.A[i][0] == 0.0
    ensures Copy(P, i) in EmitAll(P, |P.A|)
  {
    EmitStepAt(P, i, i);
    var off := Offset(P, i, i);
    assert EmitStep(P, i, i) == [Copy(P, i)];
    assert EmitAll(P, |P.A|)[off] == EmitStep(P, i, i)[0];
  }

  /** `r` is the sum of a (positive, negative) pair of rows of `P`. */
  predicate PairSum(P: LP, r: Row)
    requires P.Valid() && P.n > 0
  {
    exists i, j :: 0 <= i < |P.A| && 0 <= j < |P.A| && IsPair(P, i, j) && r == Combine(P, i, j)
  }

  /** `r` is the copy of a row of `P` with a zero leading coefficient. */
  predicate ZeroCopy(P: LP, r: Row)
    requires P.Valid() && P.n > 0
  {
    exists i :: 0 <= i < |P.A| && P.A[i][0] == 0.0 && r == Copy(P, i)
  }

  /** Nothing else is emitted: every row of the output is a pair sum or a
      zero-row copy. */
  lemma {:induction false} EmitAllOrigin(P: LP, cnt: nat, k: nat)
    requires P.Valid() && P.n > 0 && cnt <= |P.A| && k < |EmitAll(P, cnt)|
    ensures PairSum(P, EmitAll(P, cnt)[k]) || ZeroCopy(P, EmitAll(P, cnt)[k])
  {
    if cnt > 0 {
      var i := cnt - 1;
      var pre, row := EmitAll(P, i), EmitRow(P, i, |P.A|);
      EmitAllStep(P, cnt);
      IndexOfConcat(EmitAll(P, cnt), pre, row, k);
      if k < |pre| {
        EmitAllOrigin(P, i, k);
      } else {
        EmitRowOrigin(P, i, |P.A|, k - |pre|);
      }
    }
  }

  /** What outer iteration `i` emits is a pair sum or a zero-row copy. */
  lemma {:induction false} EmitRowOrigin(P: LP, i: nat, jn: nat, k: nat)
    requires P.Valid() && P.n > 0 && i < |P.A| && jn <= |P.A| && k < |EmitRow(P, i, jn)|
    ensures PairSum(P, EmitRow(P, i, jn)[k]) || ZeroCopy(P, EmitRow(P, i, jn)[k])
  {
    if jn > 0 {
      var pre, step := EmitRow(P, i, jn - 1), EmitStep(P, i, jn - 1);
      if k < |pre| {
        assert EmitRow(P, i, jn)[k] == pre[k];
        EmitRowOrigin(P, i, jn - 1, k);
      } else {
        assert EmitRow(P, i, jn)[k] == step[k - |pre|];
        EmitStepOrigin(P, i, jn - 1, k - |pre|);
      }
    }
  }

  /** What iteration `(i, j)` emits is a pair sum or a zero-row copy. */
  lemma EmitStepOrigin(P: LP, i: nat, j: nat, k: nat)
    requires P.Valid() && P.n > 0 && i < |P.A| && j < |P.A| && k < |EmitStep(P, i, j)|
    ensures PairSum(P, EmitStep(P, i, j)[k]) || ZeroCopy(P, EmitStep(P, i, j)[k])
  {
    var r := EmitStep(P, i, j)[k];
    if IsPair(P, i, j) {
      assert r == Combine(P, i, j);
      assert PairSum(P, r);
    } else {
      assert P.A[i][0] == 0.0 && r == Copy(P, i);
      assert ZeroCopy(P, r);
    }
  }

  /* ---------------------------------------------------------------------- */
  /* One step: soundness and completeness                                   */
  /* ---------------------------------------------------------------------- */

  /** `y` satisfies the emitted row `r`. */
  predicate Holds(r: Row, y: Vector) {
    |r.a| == |y| && Dot(r.a, y) <= r.rhs
  }

  /** The next system holds exactly the emitted rows, normalised. */
  lemma EliminatedSolutions(P: LP, norm: Normalization, y: Vector)
    requires P.Valid() && P.n > 0 && CountsOk(P) && Eliminate(P, norm).Ok? && |y| == P.n - 1
    ensures Satisfies(Eliminate(P, norm).value, y) <==>
            forall r :: r in EmitAll(P, |P.A|) ==> Holds(r, y)
  {
    var rows := EmitAll(P, |P.A|);
    EmitAllFits(P, |P.A|);
    var F := FromRows(P.n - 1, P.origM, rows);
    NormalizeKeepsSolutions(F, norm, y);
    FromRowsSolutions(P.n - 1, P.origM, rows, y);
  }

  /** A solution of the system built from `rows` is a point where every
      row holds, and conversely. */
  lemma FromRowsSolutions(n: nat, origM: nat, rows: seq<Row>, y: Vector)
    requires forall k :: 0 <= k < |rows| ==> |rows[k].a| == n && |rows[k].cert| == origM
    requires |y| == n
    ensures Satisfies(FromRows(n, origM, rows), y) <==> forall r :: r in rows ==> Holds(r, y)
  {
    var F := FromRows(n, origM, rows);
    if Satisfies(F, y) {
      forall r | r in rows ensures Holds(r, y) {
        var k :| 0 <= k < |rows| && rows[k] == r;
        assert Dot(F.A[k], y) <= F.b[k];
      }
    }
    if forall r :: r in rows ==> Holds(r, y) {
      forall k | 0 <= k < |F.A| ensures Dot(F.A[k], y) <= F.b[k] {
        assert Holds(rows[k], y);
      }
    }
  }

  /** The sum of a (positive, negative) pair holds at the projection of a
      solution, because the first variable cancels. */
  lemma CombineHolds(P: LP, x: Vector, i: nat, j: nat)
    requires P.Valid() && P.n > 0 && Normalized(P) && |x| == P.n && Satisfies(P, x)
    requires i < |P.A| && j < |P.A| && IsPair(P, i, j)
    ensures Holds(Combine(P, i, j), x[1..])
  {
    DotFront(P.A[i], x);
    DotFront(P.A[j], x);
    DotAdd(P.A[i][1..], P.A[j][1..], x[1..]);
    assert Dot(P.A[i], x) <= P.b[i] && Dot(P.A[j], x) <= P.b[j];
  }

  /** A carried-over row holds at the projection of a solution. */
  lemma CopyHolds(P: LP, x: Vector, i: nat)
    requires P.Valid() && P.n > 0 && |x| == P.n && Satisfies(P, x)
    requires i < |P.A| && P.A[i][0] == 0.0
    ensures Holds(Copy(P, i), x[1..])
  {
    DotFront(P.A[i], x);
    assert Dot(P.A[i], x) <= P.b[i];
  }

  /** A row with leading coefficient zero holds at `[v] + y`, whatever `v`
      is, exactly when its copy holds at `y`. */
  lemma CopyMeaning(P: LP, i: nat, v: real, y: Vector)
    requires P.Valid() && P.n > 0 && i < |P.A| && P.A[i][0] == 0.0 && |y| == P.n - 1
    ensures Holds(Copy(P, i), y) <==> Dot(P.A[i], [v] + y) <= P.b[i]
  {
    DotCons(P.A[i], v, y);
  }

  /** Row `l` holds at `[v] + y` exactly when `a v` stays within the
      residual that the rest of the point leaves, `a` being the row's
      leading coefficient. */
  lemma ResidualBound(Q: LP, y: Vector, l: nat, v: real)
    requires Q.Valid() && Q.n == |y| + 1 && l < |Q.A|
    ensures Dot(Q.A[l], [v] + y) <= Q.b[l] <==> Q.A[l][0] * v <= Residual(Q, y, l)
  {
    var av, rest := Q.A[l][0] * v, Dot(Q.A[l][1..], y);
    DotCons(Q.A[l], v, y);
    MoveAcross(av, rest, Q.b[l]);
  }

  lemma MoveAcross(av: real, rest: real, rhs: real)
    ensures av + rest <= rhs <==> av <= rhs - rest
  {
  }

  /** Soundness of one step: dropping the first variable of a solution gives
      a solution of the next system. */
  lemma EliminateSound(P: LP, x: Vector)
    requires P.Valid() && P.n > 0 && CountsOk(P) && Normalized(P)
    requires Eliminate(P, ExactAbs).Ok? && |x| == P.n && Satisfies(P, x)
    ensures Satisfies(Eliminate(P, ExactAbs).value, x[1..])
  {
    var rows := EmitAll(P, |P.A|);
    forall r | r in rows ensures Holds(r, x[1..]) {
      var k :| 0 <= k < |rows| && rows[k] == r;
      EmitAllOrigin(P, |P.A|, k);
      if PairSum(P, r) {
        var i, j :| 0 <= i < |P.A| && 0 <= j < |P.A| && IsPair(P, i, j) && r == Combine(P, i, j);
        CombineHolds(P, x, i, j);
      } else {
        var i :| 0 <= i < |P.A| && P.A[i][0] == 0.0 && r == Copy(P, i);
        CopyHolds(P, x, i);
      }
    }
    EliminatedSolutions(P, ExactAbs, x[1..]);
  }

  /** Whenever both bounds exist, the lower one does not exceed the upper
      one, once `y` satisfies every pair sum. */
  lemma BoundsOrdered(P: LP, y: Vector)
    requires P.Valid() && P.n > 0 && Normalized(P) && |y| == P.n - 1
    requires forall r :: r in EmitAll(P, |P.A|) ==> Holds(r, y)
    ensures var lo := LowerBound(P, y, |P.A|); var hi := UpperBound(P, y, |P.A|);
            lo.Some? && hi.Some? ==> lo.value <= hi.value
  {
    var lo := LowerBound(P, y, |P.A|);
    var hi := UpperBound(P, y, |P.A|);
    if lo.Some? && hi.Some? {
      var j := LowerAttained(P, y);
      var i := UpperAttained(P, y);
      PairEmitted(P, i, j);
      PairResiduals(P, y, i, j);
    }
  }

  /** A row of `P` whose bound is the lower bound. */
  lemma LowerAttained(P: LP, y: Vector) returns (j: nat)
    requires P.Valid() && P.n > 0 && |y| == P.n - 1 && LowerBound(P, y, |P.A|).Some?
    ensures j < |P.A| && P.A[j][0] < 0.0 && -Residual(P, y, j) == LowerBound(P, y, |P.A|).value
  {
    j :| 0 <= j < |P.A| && P.A[j][0] < 0.0 && -Residual(P, y, j) == LowerBound(P, y, |P.A|).value;
  }

  /** A row of `P` whose bound is the upper bound. */
  lemma UpperAttained(P: LP, y: Vector) returns (i: nat)
    requires P.Valid() && P.n > 0 && |y| == P.n - 1 && UpperBound(P, y, |P.A|).Some?
    ensures i < |P.A| && P.A[i][0] > 0.0 && Residual(P, y, i) == UpperBound(P, y, |P.A|).value
  {
    i :| 0 <= i < |P.A| && P.A[i][0] > 0.0 && Residual(P, y, i) == UpperBound(P, y, |P.A|).value;
  }

  /** The sum of rows `i` and `j` holding at `y` is the statement that the
      lower bound from `j` lies below the upper bound from `i`. */
  lemma PairResiduals(P: LP, y: Vector, i: nat, j: nat)
    requires P.Valid() && P.n > 0 && |y| == P.n - 1 && i < |P.A| && j < |P.A|
    requires Holds(Combine(P, i, j), y)
    ensures -Residual(P, y, j) <= Residual(P, y, i)
  {
    DotAdd(P.A[i][1..], P.A[j][1..], y);
  }

  /** Completeness of one step: a solution of the next system extends, by
      the value back-substitution picks, to a solution of `P`. */
  lemma EliminateComplete(P: LP, y: Vector)
    requires P.Valid() && P.n > 0 && CountsOk(P) && Normalized(P)
    requires Eliminate(P, ExactAbs).Ok? && |y| == P.n - 1
    requires Satisfies(Eliminate(P, ExactAbs).value, y)
    ensures Satisfies(P, [ChooseValue(P, y)] + y)
  {
    EliminatedSolutions(P, ExactAbs, y);
    BoundsOrdered(P, y);
    forall l | 0 <= l < |P.A| ensures Dot(P.A[l], [ChooseValue(P, y)] + y) <= P.b[l] {
      ExtensionRowHolds(P, y, l);
    }
  }

  /** Row `l` of `P` holds at the extension of `y`. */
  lemma ExtensionRowHolds(P: LP, y: Vector, l: nat)
    requires P.Valid() && P.n > 0 && Normalized(P) && |y| == P.n - 1 && l < |P.A|
    requires forall r :: r in EmitAll(P, |P.A|) ==> Holds(r, y)
    requires var lo := LowerBound(P, y, |P.A|); var hi := UpperBound(P, y, |P.A|);
             lo.Some? && hi.Some? ==> lo.value <= hi.value
    ensures Dot(P.A[l], [ChooseValue(P, y)] + y) <= P.b[l]
  {
    var v := ChooseValue(P, y);
    if P.A[l][0] == 0.0 {
      ZeroRowEmitted(P, l);
      RowExtends(P, y, l, v);
    } else if P.A[l][0] == 1.0 {
      ValueBelowUpperBound(P, y, l);
      RowExtends(P, y, l, v);
    } else {
      assert P.A[l][0] == -1.0;
      ValueAboveLowerBound(P, y, l);
      RowExtends(P, y, l, v);
    }
  }

  /** Row `l` holds at `[v] + y` when `v` respects the bound the row puts on
      the first variable (none for a zero row, whose copy holds at `y`). */
  lemma RowExtends(P: LP, y: Vector, l: nat, v: real)
    requires P.Valid() && P.n > 0 && |y| == P.n - 1 && l < |P.A|
    requires P.A[l][0] == 0.0 ==> Holds(Copy(P, l), y)
    requires P.A[l][0] == 1.0 ==> v <= Residual(P, y, l)
    requires P.A[l][0] == -1.0 ==> -Residual(P, y, l) <= v
    requires P.A[l][0] in {-1.0, 0.0, 1.0}
    ensures Dot(P.A[l], [v] + y) <= P.b[l]
  {
    DotCons(P.A[l], v, y);
  }

  /** The picked value respects every row with a positive leading
      coefficient. */
  lemma ValueBelowUpperBound(P: LP, y: Vector, l: nat)
    requires P.Valid() && P.n > 0 && |y| == P.n - 1 && l < |P.A| && P.A[l][0] > 0.0
    requires var lo := LowerBound(P, y, |P.A|); var hi := UpperBound(P, y, |P.A|);
             lo.Some? && hi.Some? ==> lo.value <= hi.value
    ensures ChooseValue(P, y) <= Residual(P, y, l)
  {
    var hi := UpperBound(P, y, |P.A|);
    assert hi.Some? && hi.value <= Residual(P, y, l);
  }

  /** The picked value respects every row with a negative leading
      coefficient. */
  lemma ValueAboveLowerBound(P: LP, y: Vector, l: nat)
    requires P.Valid() && P.n > 0 && |y| == P.n - 1 && l < |P.A| && P.A[l][0] < 0.0
    requires var lo := LowerBound(P, y, |P.A|); var hi := UpperBound(P, y, |P.A|);
             lo.Some? && hi.Some? ==> lo.value <= hi.value
    ensures -Residual(P, y, l) <= ChooseValue(P, y)
  {
    var lo := LowerBound(P, y, |P.A|);
    assert lo.Some? && -Residual(P, y, l) <= lo.value;
  }

  /* ---------------------------------------------------------------------- */
  /* The whole reduction                                                    */
  /* ---------------------------------------------------------------------- */

  /** Projections of a solution of `P` solve every later system. */
  lemma {:induction false} ChainSound(P: LP, red: seq<LP>, x: Vector, t: nat)
    requires P.Valid() && CountsOk(P) && Normalized(P) && |x| == P.n
    requires Reduce(P, ExactAbs, P.n) == Ok(red) && Satisfies(P, x) && t <= P.n
    ensures red[t].Valid() && red[t].n == |x[t..]| && Satisfies(red[t], x[t..])
  {
    if t > 0 {
      ChainSound(P, red, x, t - 1);
      ChainLink(P, ExactAbs, red, t - 1);
      DropFirst(x, t - 1);
      EliminateSound(red[t - 1], x[t - 1..]);
    }
  }

  /** Consecutive systems of a successful reduction. */
  lemma ChainLink(P: LP, norm: Normalization, red: seq<LP>, t: nat)
    requires P.Valid() && CountsOk(P) && Reduce(P, norm, P.n) == Ok(red) && t < P.n
    ensures red[t].Valid() && red[t].n == P.n - t && red[t].n > 0 && CountsOk(red[t])
    ensures Eliminate(red[t], norm) == Ok(red[t + 1])
    ensures norm == ExactAbs && Normalized(P) ==> Normalized(red[t])
  {
  }

  lemma DropFirst(x: Vector, t: nat)
    requires t < |x|
    ensures x[t..][1..] == x[t + 1..]
  {
  }

  /** When the last system has no negative right-hand side, the values
      back-substitution picks solve every system from `red[k]` on. */
  lemma {:induction false} ChainComplete(P: LP, red: seq<LP>, k: nat)
    requires P.Valid() && CountsOk(P) && Normalized(P)
    requires Reduce(P, ExactAbs, P.n) == Ok(red) && k <= P.n
    requires forall i :: 0 <= i < |red[P.n].b| ==> red[P.n].b[i] >= 0.0
    decreases P.n - k
    ensures red[k].Valid() && |SolveFrom(red, k)| == red[k].n && Satisfies(red[k], SolveFrom(red, k))
  {
    if k == P.n {
      forall i | 0 <= i < |red[k].A| ensures Dot(red[k].A[i], SolveFrom(red, k)) <= red[k].b[i] {
        assert |red[k].A[i]| == 0;
      }
    } else {
      ChainComplete(P, red, k + 1);
      ChainLink(P, ExactAbs, red, k);
      EliminateComplete(red[k], SolveFrom(red, k + 1));
    }
  }

  /** The decision is right: a reported point solves the system, and a
      reported certificate comes with a system that has no solution. */
  lemma FeasibilityCorrect(P: LP)
    requires P.Valid() && CountsOk(P) && Normalized(P)
    ensures var res := CheckFeasibility(P, ExactAbs);
      res.Ok? && res.value.Solution? ==> Satisfies(P, res.value.x)
    ensures var res := CheckFeasibility(P, ExactAbs);
      res.Ok? && res.value.Empty? ==> forall x :: |x| == P.n ==> !Satisfies(P, x)
  {
    var res := CheckFeasibility(P, ExactAbs);
    if res.Ok? {
      var red := Reduce(P, ExactAbs, P.n).value;
      var last := red[P.n];
      if res.value.Solution? {
        assert forall i :: 0 <= i < |last.b| ==> last.b[i] >= 0.0;
        ChainComplete(P, red, 0);
      } else {
        forall x | |x| == P.n ensures !Satisfies(P, x) {
          SolutionLeavesNonnegativeRhs(P, red, x);
        }
      }
    }
  }

  /** A solution of `P` forces every right-hand side of the last system to be
      non-negative, its rows reading `0 <= b[i]`. */
  lemma SolutionLeavesNonnegativeRhs(P: LP, red: seq<LP>, x: Vector)
    requires P.Valid() && CountsOk(P) && Normalized(P) && |x| == P.n
    requires Reduce(P, ExactAbs, P.n) == Ok(red)
    ensures Satisfies(P, x) ==> forall i :: 0 <= i < |red[P.n].b| ==> red[P.n].b[i] >= 0.0
  {
    if Satisfies(P, x) {
      ChainSound(P, red, x, P.n);
      forall i | 0 <= i < |red[P.n].b| ensures red[P.n].b[i] >= 0.0 {
        assert |red[P.n].A[i]| == 0;
        assert Dot(red[P.n].A[i], x[P.n..]) <= red[P.n].b[i];
      }
    }
  }

  /** The same decision for a system as it is read: `Solution` exactly when
      the inequalities `A x <= b` have a solution. */
  lemma InputFeasibilityDecided(n: nat, A: seq<Vector>, b: Vector)
    requires |b| == |A| && forall i :: 0 <= i < |A| ==> |A[i]| == n
    ensures var res := CheckFeasibility(Load(n, A, b, ExactAbs), ExactAbs);
      res.Ok? ==> (res.value.Solution? <==> exists x :: |x| == n && forall i :: 0 <= i < |A| ==> Dot(A[i], x) <= b[i])
    ensures var res := CheckFeasibility(Load(n, A, b, ExactAbs), ExactAbs);
      res.Ok? && res.value.Solution? ==> forall i :: 0 <= i < |A| ==> Dot(A[i], res.value.x) <= b[i]
  {
    var P := Load(n, A, b, ExactAbs);
    var res := CheckFeasibility(P, ExactAbs);
    FeasibilityCorrect(P);
    if res.Ok? {
      if res.value.Solution? {
        LoadKeepsSolutions(n, A, b, ExactAbs, res.value.x);
      } else {
        forall x | |x| == n ensures !forall i :: 0 <= i < |A| ==> Dot(A[i], x) <= b[i] {
          LoadKeepsSolutions(n, A, b, ExactAbs, x);
        }
      }
    }
  }

  /* ---------------------------------------------------------------------- */
  /* The divisor as written                                                 */
  /* ---------------------------------------------------------------------- */

  /** The system `0.5 x <= 2`, `-x <= -3`: `x = 3.5` solves it. */
  function HalfRows(): seq<Vector> { [[0.5], [-1.0]] }
  function HalfRhs(): Vector { [2.0, -3.0] }

  /** With the truncated divisor the first row keeps its coefficient `0.5`
      (its divisor is `0`); the second is divided by `1`. */
  lemma TruncatedLoadOfHalfRows()
    ensures Load(1, HalfRows(), HalfRhs(), TruncatedAbs)
            == LP(1, HalfRows(), HalfRhs(), [[1.0, 0.0], [0.0, 1.0]], 2, 1, 0, 1)
  {
    IdentityOfTwo();
    var raw := LP(1, HalfRows(), HalfRhs(), [[1.0, 0.0], [0.0, 1.0]], 2, 0, 0, 0);
    TruncatedNormalizeOfHalfRows();
    assert Normalize(raw, TruncatedAbs) == raw;
    CountTypesOfHalfRows();
  }

  lemma IdentityOfTwo()
    ensures Identity(2).entries == [[1.0, 0.0], [0.0, 1.0]]
  {
    assert Unit(2, 0) == [1.0, 0.0] && Unit(2, 1) == [0.0, 1.0];
  }

  lemma ScaleByOne(v: Vector)
    ensures ScaleBy(v, 1.0) == v
  {
    assert VecDiv(v, 1.0) == v;
  }

  lemma TruncatedNormalizeOfHalfRows()
    ensures var raw := LP(1, HalfRows(), HalfRhs(), [[1.0, 0.0], [0.0, 1.0]], 2, 0, 0, 0);
      Normalize(raw, TruncatedAbs) == raw
  {
    var raw := LP(1, HalfRows(), HalfRhs(), [[1.0, 0.0], [0.0, 1.0]], 2, 0, 0, 0);
    assert RowDivisor(raw, 0, TruncatedAbs) == 0.0;
    assert RowDivisor(raw, 1, TruncatedAbs) == 1.0;
    ScaleByOne(raw.A[1]);
    ScaleByOne(raw.C[1]);
    var N := Normalize(raw, TruncatedAbs);
    assert N.A == raw.A;
    assert N.b == raw.b;
    assert N.C == raw.C;
  }

  lemma CountTypesOfHalfRows()
    ensures var raw := LP(1, HalfRows(), HalfRhs(), [[1.0, 0.0], [0.0, 1.0]], 2, 0, 0, 0);
      CountTypes(raw) == raw.(nPos := 1, nNeg := 1)
  {
    var raw := LP(1, HalfRows(), HalfRhs(), [[1.0, 0.0], [0.0, 1.0]], 2, 0, 0, 0);
    assert Leading(raw) == [0.5, -1.0];
    assert [0.5, -1.0][..1] == [0.5];
  }

  /** Eliminating the only variable adds the two rows: `0 <= -1`, certified
      by `[1, 1]`. */
  lemma TruncatedEliminationOfHalfRows()
    ensures var P := LP(1, HalfRows(), HalfRhs(), [[1.0, 0.0], [0.0, 1.0]], 2, 1, 0, 1);
      P.Valid() && CountsOk(P)
      && Eliminate(P, TruncatedAbs) == Ok(LP(0, [[]], [-1.0], [[1.0, 1.0]], 2, 0, 0, 0))
  {
    var P := LP(1, HalfRows(), HalfRhs(), [[1.0, 0.0], [0.0, 1.0]], 2, 1, 0, 1);
    assert Leading(P) == [0.5, -1.0];
    assert [0.5, -1.0][..1] == [0.5];
    var c := Combine(P, 0, 1);
    assert c == Row([], -1.0, [1.0, 1.0]);
    assert EmitStep(P, 0, 0) == [] && EmitStep(P, 0, 1) == [c];
    assert EmitStep(P, 1, 0) == [] && EmitStep(P, 1, 1) == [];
    assert EmitRow(P, 0, 2) == [c];
    assert EmitRow(P, 1, 2) == [];
    assert EmitAll(P, 2) == [c];
    var F := FromRows(0, 2, [c]);
    assert F == LP(0, [[]], [-1.0], [[1.0, 1.0]], 2, 0, 0, 0);
  }

  /** `0.5 x <= 2` and `-x <= -3` hold at `x = 3.5`, yet with the truncated
      divisor the pair sum reads `0 <= -1` and the check reports the system
      empty. */
  lemma TruncatedAbsReportsFeasibleSystemEmpty()
    ensures forall i :: 0 <= i < 2 ==> Dot(HalfRows()[i], [3.5]) <= HalfRhs()[i]
    ensures CheckFeasibility(Load(1, HalfRows(), HalfRhs(), TruncatedAbs), TruncatedAbs)
            == Ok(Empty([1.0, 1.0]))
  {
    HalfRowsSolvedAt();
    TruncatedLoadOfHalfRows();
    TruncatedCheckOfHalfRows();
  }

  lemma TruncatedCheckOfHalfRows()
    ensures var P := LP(1, HalfRows(), HalfRhs(), [[1.0, 0.0], [0.0, 1.0]], 2, 1, 0, 1);
      P.Valid() && CountsOk(P) && CheckFeasibility(P, TruncatedAbs) == Ok(Empty([1.0, 1.0]))
  {
    var P := LP(1, HalfRows(), HalfRhs(), [[1.0, 0.0], [0.0, 1.0]], 2, 1, 0, 1);
    var Q := LP(0, [[]], [-1.0], [[1.0, 1.0]], 2, 0, 0, 0);
    TruncatedReductionOfHalfRows();
    assert ([P] + [Q])[1] == Q;
    assert FirstNegative(Q.b, 0) == Some(0);
  }

  lemma TruncatedReductionOfHalfRows()
    ensures var P := LP(1, HalfRows(), HalfRhs(), [[1.0, 0.0], [0.0, 1.0]], 2, 1, 0, 1);
      P.Valid() && CountsOk(P)
      && Reduce(P, TruncatedAbs, 1) == Ok([P] + [LP(0, [[]], [-1.0], [[1.0, 1.0]], 2, 0, 0, 0)])
  {
    TruncatedEliminationOfHalfRows();
    var P := LP(1, HalfRows(), HalfRhs(), [[1.0, 0.0], [0.0, 1.0]], 2, 1, 0, 1);
    assert Reduce(P, TruncatedAbs, 0) == Ok([P]);
  }

  lemma HalfRowsSolvedAt()
    ensures forall i :: 0 <= i < 2 ==> Dot(HalfRows()[i], [3.5]) <= HalfRhs()[i]
  {
    assert Dot(HalfRows()[0], [3.5]) == 1.75;
    assert Dot(HalfRows()[1], [3.5]) == -3.5;
  }

  /* ---------------------------------------------------------------------- */
  /* The size guard in `int` arithmetic                                     */
  /* ---------------------------------------------------------------------- */

  /** With 65537 rows of each sign the product 65537 * 65537 wraps to 131073,
      which the guard admits, although the elimination emits 4295098369
      rows. */
  lemma WrappedRowCountPassesGuard()
    ensures RowCountAsWritten(65537, 65537, 0) == 131073
    ensures GuardAdmitsAsWritten(65537, 65537, 0)
    ensures 65537 * 65537 + 0 > MAX_ROWS
    ensures forall P: LP, norm: Normalization ::
              P.Valid() && P.n > 0 && CountsOk(P) && P.nPos == 65537 && P.nNeg == 65537 && P.nZero == 0
              ==> Eliminate(P, norm).Err?
  {
    assert 65537 * 65537 == 0x1_0000_0000 + 131073;
  }

  /** Below the bound the wrapped count is the true count, so the guard and
      the unbounded one in `Eliminate` agree there. */
  lemma GuardAsWrittenAgreesWhenSmall(nPos: nat, nNeg: nat, nZero: nat)
    requires nPos * nNeg + nZero <= MAX_ROWS
    ensures RowCountAsWritten(nPos, nNeg, nZero) == nPos * nNeg + nZero
    ensures GuardAdmitsAsWritten(nPos, nNeg, nZero)
  {
    WrapSmall(nPos * nNeg);
    WrapSmall(nPos * nNeg + nZero);
  }

  lemma WrapSmall(v: int)
    requires 0 <= v < 0x8000_0000
    ensures Int32Wrap(v) == v
  {
  }
}

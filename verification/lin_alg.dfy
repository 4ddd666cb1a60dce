/** The dense linear-algebra kernel of the simplex solver: vectors, matrices,
    bitmask sub-indexing, tolerance tests, transposition, products, column
    access, rank counting on R and back-substitution against a QR
    factorisation. Every `double` is a `real`, so arithmetic is exact. */
module LinAlg {
  import opened Wrappers

  /** The single threshold under which a value counts as zero. */
  const ZERO_TOL: real := 0.001

  type Vector = seq<real>

  /** A `rows x cols` matrix stored row by row; the sizes are kept apart from
      the entries so that a matrix with no rows still has a column count. */
  datatype Matrix = Matrix(rows: nat, cols: nat, entries: seq<seq<real>>)
  {
    predicate Valid() {
      |entries| == rows && forall i :: 0 <= i < rows ==> |entries[i]| == cols
    }
  }

  /* ---------------------------------------------------------------------- */
  /* Reference definitions                                                  */
  /* ---------------------------------------------------------------------- */

  /** Sum of `u[i] * v[i]`, accumulated from the first index upwards. */
  function Dot(u: Vector, v: Vector): real
    requires |u| == |v|
  {
    if |u| == 0 then 0.0 else Dot(u[..|u| - 1], v[..|v| - 1]) + u[|u| - 1] * v[|v| - 1]
  }

  /** Sum of `row[j] * x[j]` for `lo <= j < |x|`. */
  function RowTail(row: Vector, x: Vector, lo: nat): real
    requires |row| == |x|
    decreases |x| - lo
  {
    if lo >= |x| then 0.0 else row[lo] * x[lo] + RowTail(row, x, lo + 1)
  }

  /** Column `j` of `M`. */
  function Column(M: Matrix, j: nat): (col: Vector)
    requires M.Valid() && j < M.cols
    ensures |col| == M.rows
  {
    seq(M.rows, i requires 0 <= i < M.rows => M.entries[i][j])
  }

  function Zeros(n: nat): (z: Vector)
    ensures |z| == n && forall i :: 0 <= i < n ==> z[i] == 0.0
  {
    seq(n, _ => 0.0)
  }

  function ZeroMatrix(r: nat, c: nat): (M: Matrix)
    ensures M.Valid() && M.rows == r && M.cols == c
    ensures forall i, j :: 0 <= i < r && 0 <= j < c ==> M.entries[i][j] == 0.0
  {
    Matrix(r, c, seq(r, _ => Zeros(c)))
  }

  /** The standard basis vector `e_k` of length `n`. */
  function Unit(n: nat, k: nat): (e: Vector)
    requires k < n
    ensures |e| == n && e[k] == 1.0
    ensures forall i :: 0 <= i < n && i != k ==> e[i] == 0.0
  {
    seq(n, i => if i == k then 1.0 else 0.0)
  }

  function Identity(n: nat): (I: Matrix)
    ensures I.Valid() && I.rows == n && I.cols == n
  {
    Matrix(n, n, seq(n, i requires 0 <= i < n => Unit(n, i)))
  }

  /** Number of entries of a mask that are not zero. */
  function CountNonzero(mask: Vector): nat
  {
    if |mask| == 0 then 0
    else CountNonzero(mask[..|mask| - 1]) + (if mask[|mask| - 1] != 0.0 then 1 else 0)
  }

  /** The entries of `v` at the positions where `mask` is not zero, in order. */
  function Select(v: Vector, mask: Vector): (s: Vector)
    requires |v| == |mask|
    ensures |s| == CountNonzero(mask)
  {
    if |v| == 0 then []
    else Select(v[..|v| - 1], mask[..|mask| - 1]) + (if mask[|mask| - 1] != 0.0 then [v[|v| - 1]] else [])
  }

  predicate StrictlyIncreasing(s: seq<nat>) {
    forall k, l :: 0 <= k < l < |s| ==> s[k] < s[l]
  }

  /** The index table the source builds before sub-indexing: the positions of
      the non-zero mask entries, ascending. */
  function NonzeroIndices(mask: Vector): (idx: seq<nat>)
    ensures |idx| == CountNonzero(mask)
    ensures StrictlyIncreasing(idx)
    ensures forall k :: 0 <= k < |idx| ==> idx[k] < |mask| && mask[idx[k]] != 0.0
    ensures forall i :: 0 <= i < |mask| ==> (i in idx <==> mask[i] != 0.0)
  {
    if |mask| == 0 then []
    else
      var pre := mask[..|mask| - 1];
      var rest := NonzeroIndices(pre);
      var idx := rest + (if mask[|mask| - 1] != 0.0 then [|mask| - 1] else []);
      NonzeroIndicesStep(mask, pre, mask[|mask| - 1], rest, idx);
      idx
  }

  /** Appending one mask entry appends its position when it is not zero. */
  lemma NonzeroIndicesStep(mask: Vector, pre: Vector, last: real, rest: seq<nat>, idx: seq<nat>)
    requires mask == pre + [last]
    requires |rest| == CountNonzero(pre) && StrictlyIncreasing(rest)
    requires forall k :: 0 <= k < |rest| ==> rest[k] < |pre| && pre[rest[k]] != 0.0
    requires forall i :: 0 <= i < |pre| ==> (i in rest <==> pre[i] != 0.0)
    requires idx == rest + (if last != 0.0 then [|pre|] else [])
    ensures |idx| == CountNonzero(mask) && StrictlyIncreasing(idx)
    ensures forall k :: 0 <= k < |idx| ==> idx[k] < |mask| && mask[idx[k]] != 0.0
    ensures forall i :: 0 <= i < |mask| ==> (i in idx <==> mask[i] != 0.0)
  {
    assert mask[..|mask| - 1] == pre;
    assert CountNonzero(mask) == CountNonzero(pre) + (if last != 0.0 then 1 else 0);
    forall k, l | 0 <= k < l < |idx| ensures idx[k] < idx[l] {
      if l < |rest| {
        assert idx[k] == rest[k] && idx[l] == rest[l];
      } else {
        assert idx[k] == rest[k] && rest[k] < |pre| && idx[l] == |pre|;
      }
    }
    forall k | 0 <= k < |idx| ensures idx[k] < |mask| && mask[idx[k]] != 0.0 {
      if k < |rest| {
        assert idx[k] == rest[k] && mask[rest[k]] == pre[rest[k]];
      }
    }
    forall i | 0 <= i < |mask| ensures i in idx <==> mask[i] != 0.0 {
      if i < |pre| {
        assert mask[i] == pre[i];
        assert i in idx <==> i in rest;
      }
    }
  }

  /* ---------------------------------------------------------------------- */
  /* Tolerance predicates                                                   */
  /* ---------------------------------------------------------------------- */

  /** `is_zero`: the value lies strictly inside the tolerance band. */
  function IsZero(l: real): (z: bool)
    ensures z <==> -ZERO_TOL < l < ZERO_TOL
  {
    if l >= 0.0 then l < ZERO_TOL else -l < ZERO_TOL
  }

  /** `is_smaller_zero_vect`: no entry exceeds the tolerance (the optimality
      test on reduced costs). */
  function IsSmallerZeroVect(v: Vector): (ok: bool)
    ensures ok <==> forall i :: 0 <= i < |v| ==> v[i] <= ZERO_TOL
  {
    if |v| == 0 then true
    else if v[0] > ZERO_TOL then false
    else IsSmallerZeroVect(v[1..])
  }

  /* ---------------------------------------------------------------------- */
  /* Sub-indexing and masks                                                 */
  /* ---------------------------------------------------------------------- */

  /** `subind_vector`: first builds the index table, then copies the entries
      it names. A mask of another length is a runtime error. */
  method SubindVector(v: Vector, mask: Vector) returns (res: Result<Vector>)
    ensures res.Err? <==> |v| != |mask|
    ensures res.Ok? ==> res.value == Select(v, mask)
    ensures res.Ok? ==> |res.value| == CountNonzero(mask)
    ensures res.Ok? ==> forall k :: 0 <= k < |res.value| ==> res.value[k] == v[NonzeroIndices(mask)[k]]
  {
    if |v| != |mask| {
      return Err("subind_vector: bitmask should be of same size as vector");
    }
    var indices := IndexTable(mask);
    var out: Vector := [];
    var j := 0;
    while j < |indices|
      invariant 0 <= j <= |indices|
      invariant |out| == j
      invariant forall k :: 0 <= k < j ==> out[k] == v[indices[k]]
    {
      out := out + [v[indices[j]]];
      j := j + 1;
    }
    SelectByIndices(v, mask);
    assert out == Select(v, mask);
    return Ok(out);
  }

  /** The first loop of `subind_vector`: the positions of the non-zero mask
      entries, collected in ascending order. */
  method IndexTable(mask: Vector) returns (indices: seq<nat>)
    ensures indices == NonzeroIndices(mask)
  {
    indices := [];
    var i := 0;
    while i < |mask|
      invariant 0 <= i <= |mask|
      invariant indices == NonzeroIndices(mask[..i])
    {
      NonzeroIndicesSnoc(mask, i);
      if mask[i] != 0.0 {
        indices := indices + [i];
      }
      i := i + 1;
    }
    assert mask[..|mask|] == mask;
  }

  /** Extending the mask by entry `i` appends `i` when that entry is nonzero. */
  lemma NonzeroIndicesSnoc(mask: Vector, i: nat)
    requires i < |mask|
    ensures NonzeroIndices(mask[..i + 1]) == NonzeroIndices(mask[..i]) + (if mask[i] != 0.0 then [i] else [])
  {
    assert mask[..i + 1][..i] == mask[..i];
  }

  /** `Select` reads exactly the entries named by the index table. */
  lemma {:induction false} SelectByIndices(v: Vector, mask: Vector)
    requires |v| == |mask|
    ensures forall k :: 0 <= k < CountNonzero(mask) ==> Select(v, mask)[k] == v[NonzeroIndices(mask)[k]]
  {
    if |v| > 0 {
      var n := |v| - 1;
      var pv, pm := v[..n], mask[..n];
      SelectByIndices(pv, pm);
      var s, sp := Select(v, mask), Select(pv, pm);
      var idx, ip := NonzeroIndices(mask), NonzeroIndices(pm);
      assert s == sp + (if mask[n] != 0.0 then [v[n]] else []);
      assert idx == ip + (if mask[n] != 0.0 then [n] else []);
      forall k | 0 <= k < |s|
        ensures s[k] == v[idx[k]]
      {
        if k < |sp| {
          assert s[k] == sp[k] && idx[k] == ip[k];
          assert ip[k] < n;
        }
      }
    }
  }

  /** `subind_matrix`: keeps every row and exactly the columns whose mask
      entry is non-zero. A mask whose length is not the column count is a
      runtime error. */
  function SubindMatrix(M: Matrix, mask: Vector): (res: Result<Matrix>)
    requires M.Valid()
    ensures res.Err? <==> M.cols != |mask|
    ensures res.Ok? ==> res.value.Valid() && res.value.rows == M.rows
    ensures res.Ok? ==> res.value.cols == CountNonzero(mask)
    ensures res.Ok? ==> forall i :: 0 <= i < M.rows ==> res.value.entries[i] == Select(M.entries[i], mask)
  {
    if M.cols != |mask| then
      Err("subind_matrix: bitmask should have an entry for each column of matrix")
    else
      var idx := NonzeroIndices(mask);
      var sub := Matrix(M.rows, |idx|,
                        seq(M.rows, i requires 0 <= i < M.rows =>
                              seq(|idx|, j requires 0 <= j < |idx| => M.entries[i][idx[j]])));
      assert forall i :: 0 <= i < M.rows ==> sub.entries[i] == Select(M.entries[i], mask) by {
        forall i | 0 <= i < M.rows
          ensures sub.entries[i] == Select(M.entries[i], mask)
        {
          SelectByIndices(M.entries[i], mask);
        }
      }
      Ok(sub)
  }

  /** `swap_zero_nonzero`: one where the input is zero, zero elsewhere. */
  function SwapZeroNonzero(v: Vector): (w: Vector)
    ensures |w| == |v|
    ensures forall i :: 0 <= i < |v| ==> (w[i] != 0.0 <==> v[i] == 0.0)
    ensures forall i :: 0 <= i < |v| ==> w[i] == 0.0 || w[i] == 1.0
  {
    seq(|v|, i requires 0 <= i < |v| => if v[i] == 0.0 then 1.0 else 0.0)
  }

  /* ---------------------------------------------------------------------- */
  /* Rank of R                                                              */
  /* ---------------------------------------------------------------------- */

  /** Number of `i < k` with `R[i][i]` outside the tolerance band. */
  function DiagRank(R: Matrix, k: nat): nat
    requires R.Valid() && k <= R.cols <= R.rows
  {
    if k == 0 then 0 else DiagRank(R, k - 1) + (if IsZero(R.entries[k - 1][k - 1]) then 0 else 1)
  }

  /** `rank_R`: counts the diagonal entries of R that are not zero. */
  method RankR(R: Matrix) returns (r: nat)
    requires R.Valid() && R.cols <= R.rows
    ensures r == DiagRank(R, R.cols)
    ensures r <= R.cols
    ensures r == R.cols <==> forall i :: 0 <= i < R.cols ==> !IsZero(R.entries[i][i])
  {
    r := 0;
    var i := 0;
    while i < R.cols
      invariant 0 <= i <= R.cols
      invariant r == DiagRank(R, i)
    {
      if !IsZero(R.entries[i][i]) {
        r := r + 1;
      }
      i := i + 1;
    }
    FullRankIff(R, R.cols);
  }

  lemma {:induction false} FullRankIff(R: Matrix, k: nat)
    requires R.Valid() && k <= R.cols <= R.rows
    ensures DiagRank(R, k) <= k
    ensures DiagRank(R, k) == k <==> forall i :: 0 <= i < k ==> !IsZero(R.entries[i][i])
  {
    if k > 0 {
      FullRankIff(R, k - 1);
    }
  }

  /* ---------------------------------------------------------------------- */
  /* Transpose and products                                                 */
  /* ---------------------------------------------------------------------- */

  /** `trans_matrix`. */
  function Transpose(M: Matrix): (T: Matrix)
    requires M.Valid()
    ensures T.Valid() && T.rows == M.cols && T.cols == M.rows
    ensures forall j :: 0 <= j < M.cols ==> T.entries[j] == Column(M, j)
  {
    Matrix(M.cols, M.rows, seq(M.cols, j requires 0 <= j < M.cols => Column(M, j)))
  }

  /** `inner_product`: vectors of different sizes are a runtime error. */
  function InnerProduct(a: Vector, b: Vector): (res: Result<real>)
    ensures res.Err? <==> |a| != |b|
    ensures res.Ok? ==> res.value == Dot(a, b)
  {
    if |a| != |b| then Err("inner_product: vertices are of unequal size")
    else Ok(Dot(a, b))
  }

  /** `mult_matrix`: the inner dimensions must agree. */
  function MultMatrix(A: Matrix, B: Matrix): (res: Result<Matrix>)
    requires A.Valid() && B.Valid()
    ensures res.Err? <==> A.cols != B.rows
    ensures res.Ok? ==> res.value.Valid() && res.value.rows == A.rows && res.value.cols == B.cols
    ensures res.Ok? ==> forall i, j :: 0 <= i < A.rows && 0 <= j < B.cols ==>
                          res.value.entries[i][j] == Dot(A.entries[i], Column(B, j))
  {
    if A.cols != B.rows then Err("mult_matrix: matrices of incompatible sizes")
    else Ok(Matrix(A.rows, B.cols,
                   seq(A.rows, i requires 0 <= i < A.rows =>
                         seq(B.cols, j requires 0 <= j < B.cols => Dot(A.entries[i], Column(B, j))))))
  }

  /** `mult_vector`: accumulates `M[i][j] * v[j]` into each result entry. */
  method MultVector(M: Matrix, v: Vector) returns (res: Result<Vector>)
    requires M.Valid()
    ensures res.Err? <==> M.cols != |v|
    ensures res.Ok? ==> |res.value| == M.rows
    ensures res.Ok? ==> forall i :: 0 <= i < M.rows ==> res.value[i] == Dot(M.entries[i], v)
  {
    if M.cols != |v| {
      return Err("mult_vector: vertex and matrix size incompatible");
    }
    var out := Zeros(M.rows);
    var i := 0;
    while i < M.rows
      invariant 0 <= i <= M.rows
      invariant |out| == M.rows
      invariant forall k :: 0 <= k < i ==> out[k] == Dot(M.entries[k], v)
    {
      var row := M.entries[i];
      var j := 0;
      out := out[i := 0.0];
      while j < |v|
        invariant 0 <= j <= |v|
        invariant |out| == M.rows
        invariant forall k :: 0 <= k < i ==> out[k] == Dot(M.entries[k], v)
        invariant out[i] == Dot(row[..j], v[..j])
      {
        assert row[..j + 1][..j] == row[..j] && v[..j + 1][..j] == v[..j];
        out := out[i := out[i] + row[j] * v[j]];
        j := j + 1;
      }
      assert row[..j] == row && v[..j] == v;
      i := i + 1;
    }
    return Ok(out);
  }

  /* ---------------------------------------------------------------------- */
  /* Columns                                                                */
  /* ---------------------------------------------------------------------- */

  /** The column guard as the source writes it: it only refuses `col` when
      `col` exceeds the column count, so `col == cols` passes. */
  function ColGuardAsWritten(M: Matrix, col: nat): (admits: bool)
    ensures admits <==> col <= M.cols
  {
    !(M.cols < col)
  }

  /** The guard the column operations evidently intend: `col` must name a
      column. */
  function ColGuard(M: Matrix, col: nat): (admits: bool)
    ensures admits ==> col < M.cols
    ensures admits ==> ColGuardAsWritten(M, col)
  {
    col < M.cols
  }

  /** `copy_col` into a vector of `size` entries. */
  function CopyCol(M: Matrix, size: nat, col: nat): (res: Result<Vector>)
    requires M.Valid()
    ensures res.Ok? <==> size == M.rows && col < M.cols
    ensures res.Ok? ==> |res.value| == M.rows
    ensures res.Ok? ==> forall i :: 0 <= i < M.rows ==> res.value[i] == M.entries[i][col]
  {
    if size != M.rows then Err("copy_col: vertex and matrix size incompatible")
    else if !ColGuard(M, col) then Err("copy_col: col index too high")
    else Ok(Column(M, col))
  }

  /** `replace_col`: overwrites column `col` with `v`. */
  function ReplaceCol(M: Matrix, v: Vector, col: nat): (res: Result<Matrix>)
    requires M.Valid()
    ensures res.Ok? <==> |v| == M.rows && col < M.cols
    ensures res.Ok? ==> res.value.Valid() && res.value.rows == M.rows && res.value.cols == M.cols
    ensures res.Ok? ==> forall i :: 0 <= i < M.rows ==> res.value.entries[i][col] == v[i]
    ensures res.Ok? ==> forall i, j :: 0 <= i < M.rows && 0 <= j < M.cols && j != col ==>
                          res.value.entries[i][j] == M.entries[i][j]
  {
    if |v| != M.rows then Err("replace_col: vertex and matrix size incompatible")
    else if !ColGuard(M, col) then Err("replace_col: col index too high")
    else Ok(Matrix(M.rows, M.cols,
                   seq(M.rows, i requires 0 <= i < M.rows => M.entries[i][col := v[i]])))
  }

  /* ---------------------------------------------------------------------- */
  /* Back-substitution                                                      */
  /* ---------------------------------------------------------------------- */

  /** What back-substitution promises of row `i`: the row equation holds
      exactly, a zero residual gives a zero coordinate, and a non-zero
      residual was divided by a diagonal entry outside the tolerance band. */
  predicate RowSolved(R: Matrix, x: Vector, qtb: Vector, i: nat)
    requires R.Valid() && R.cols <= R.rows && |x| == R.cols && |qtb| >= R.cols && i < R.cols
  {
    RowEquation(R.entries[i], x, qtb[i], i)
  }

  /** Row `i` of back-substitution, for the row vector `row` and the entry
      `q` of `Q^t b`. */
  predicate RowEquation(row: Vector, x: Vector, q: real, i: nat)
    requires |row| == |x| && i < |x|
  {
    Solves(row[i], x[i], RowTail(row, x, i + 1), q)
  }

  /** `a * xi + tail == q`, where `xi` is zero exactly when the remainder
      `q - tail` is, and a non-zero remainder needs a pivot `a` outside the
      tolerance band. */
  predicate Solves(a: real, xi: real, tail: real, q: real) {
    && a * xi + tail == q
    && (q - tail == 0.0 ==> xi == 0.0)
    && (q - tail != 0.0 ==> !IsZero(a))
  }

  /** `Q^t b`, the right-hand side of `R x = Q^t b`. */
  function QtB(Q: Matrix, b: Vector): (qtb: Vector)
    requires Q.Valid() && Q.rows == |b|
    ensures |qtb| == Q.cols
  {
    seq(Q.cols, j requires 0 <= j < Q.cols => Dot(Column(Q, j), b))
  }

  /** `solve_system_QR`: solves `R x = Q^t b` from the last row to the first. */
  method SolveSystemQR(Q: Matrix, R: Matrix, b: Vector) returns (res: Result<Vector>)
    requires Q.Valid() && R.Valid() && R.cols <= R.rows
    ensures (Q.cols != R.rows || Q.rows != |b|) ==> res.Err?
    ensures res.Err? ==> Q.cols != R.rows || Q.rows != |b|
                         || exists i :: 0 <= i < R.cols && IsZero(R.entries[i][i])
    ensures (Q.cols == R.rows && Q.rows == |b| && forall i :: 0 <= i < R.cols ==> !IsZero(R.entries[i][i]))
            ==> res.Ok?
    ensures (Q.cols == R.rows && Q.rows == |b| && HasRowSolution(R, QtB(Q, b))) ==> res.Ok?
    ensures res.Ok? ==> Q.cols == R.rows && Q.rows == |b| && |res.value| == R.cols
    ensures res.Ok? ==> forall i :: 0 <= i < R.cols ==> RowSolved(R, res.value, QtB(Q, b), i)
  {
    if Q.cols != R.rows {
      return Err("solve_system_QR: Q, R dimension mismatch");
    }
    var Qt := Transpose(Q);
    var prod := MultVector(Qt, b);
    if prod.Err? {
      return Err(prod.error);
    }
    var qtb := prod.value;
    assert qtb == QtB(Q, b);
    var n := R.cols;
    var x := Zeros(n);
    // When some vector solves every row, back-substitution rebuilds it
    // coordinate by coordinate, so no pivot test can fail.
    ghost var solvable := HasRowSolution(R, qtb);
    ghost var w: Vector := Zeros(n);
    if solvable {
      w :| |w| == n && forall k :: 0 <= k < n ==> RowSolved(R, w, qtb, k);
    }
    var i := n;
    while i > 0
      invariant 0 <= i <= n
      invariant |x| == n && |w| == n
      invariant forall k :: i <= k < n ==> RowSolved(R, x, qtb, k)
      invariant solvable ==> forall k :: i <= k < n ==> x[k] == w[k]
    {
      i := i - 1;
      var step := BackSubstituteRow(R.entries[i], x, qtb[i], i);
      if solvable {
        assert RowSolved(R, w, qtb, i);
        WitnessPins(R.entries[i], x, w, qtb[i], i);
      }
      if step.Err? {
        return Err(step.error);
      }
      var xi := step.value;
      if solvable {
        SolvesUnique(R.entries[i][i], xi, w[i], RowTail(R.entries[i], x, i + 1), qtb[i]);
      }
      SolveStep(R, x, qtb, i, xi, x[i := xi]);
      x := x[i := xi];
    }
    return Ok(x);
  }

  /** One row of back-substitution: subtracts the known later terms from `q`,
      then sets `x_i` to zero when nothing is left, fails when something is
      left but the pivot is inside the tolerance band, and divides otherwise. */
  method BackSubstituteRow(row: Vector, x: Vector, q: real, i: nat) returns (res: Result<real>)
    requires |row| == |x| && i < |x|
    ensures res.Ok? ==> Solves(row[i], res.value, RowTail(row, x, i + 1), q)
    ensures res.Err? <==> q - RowTail(row, x, i + 1) != 0.0 && IsZero(row[i])
  {
    var val := q;
    var j := |x|;
    while j > i + 1
      invariant i + 1 <= j <= |x|
      invariant val == q - RowTail(row, x, j)
    {
      j := j - 1;
      val := val - x[j] * row[j];
    }
    if val == 0.0 {
      return Ok(0.0);
    }
    if IsZero(row[i]) {
      return Err("solve_system_QR: system has no solution");
    }
    var xi := val / row[i];
    assert row[i] * xi == val;
    return Ok(xi);
  }

  /** Some vector satisfies the back-substitution contract of every row. */
  ghost predicate HasRowSolution(R: Matrix, qtb: Vector)
    requires R.Valid() && R.cols <= R.rows && |qtb| >= R.cols
  {
    exists w: Vector :: |w| == R.cols && forall k :: 0 <= k < R.cols ==> RowSolved(R, w, qtb, k)
  }

  /** A full solution `w` solves row `i` against the tail of any `x` that
      agrees with it on the later coordinates. */
  lemma WitnessPins(row: Vector, x: Vector, w: Vector, q: real, i: nat)
    requires |row| == |x| == |w| && i < |x|
    requires RowEquation(row, w, q, i)
    requires forall k :: i < k < |x| ==> x[k] == w[k]
    ensures Solves(row[i], w[i], RowTail(row, x, i + 1), q)
  {
    RowTailAgree(row, x, w, i + 1);
  }

  /** A row equation fixes its coordinate: zero when the remainder is zero,
      the quotient by the (non-zero) pivot otherwise. */
  lemma SolvesUnique(a: real, y: real, z: real, tail: real, q: real)
    requires Solves(a, y, tail, q) && Solves(a, z, tail, q)
    ensures y == z
  {
    if q - tail != 0.0 {
      assert a != 0.0 && a * y == a * z;
      assert y == (a * y) / a && z == (a * z) / a;
    }
  }

  /** The tail sum reads only the coordinates from `lo` on. */
  lemma {:induction false} RowTailAgree(row: Vector, x: Vector, w: Vector, lo: nat)
    requires |row| == |x| == |w|
    requires forall k :: lo <= k < |x| ==> x[k] == w[k]
    ensures RowTail(row, x, lo) == RowTail(row, w, lo)
    decreases |x| - lo
  {
    if lo < |x| {
      RowTailAgree(row, x, w, lo + 1);
    }
  }

  /** Fixing coordinate `i` so that row `i` is solved keeps every later row
      solved. */
  lemma SolveStep(R: Matrix, x: Vector, qtb: Vector, i: nat, xi: real, x': Vector)
    requires R.Valid() && R.cols <= R.rows && |x| == R.cols && |qtb| >= R.cols && i < R.cols
    requires x' == x[i := xi]
    requires forall k :: i < k < R.cols ==> RowSolved(R, x, qtb, k)
    requires Solves(R.entries[i][i], xi, RowTail(R.entries[i], x, i + 1), qtb[i])
    ensures forall k :: i <= k < R.cols ==> RowSolved(R, x', qtb, k)
  {
    forall k | i <= k < R.cols
      ensures RowSolved(R, x', qtb, k)
    {
      if k == i {
        SolveStepNew(R, x, qtb, i, xi);
      } else {
        SolveStepKept(R, x, qtb, i, xi, k);
      }
    }
  }

  lemma SolveStepNew(R: Matrix, x: Vector, qtb: Vector, i: nat, xi: real)
    requires R.Valid() && R.cols <= R.rows && |x| == R.cols && |qtb| >= R.cols && i < R.cols
    requires Solves(R.entries[i][i], xi, RowTail(R.entries[i], x, i + 1), qtb[i])
    ensures RowSolved(R, x[i := xi], qtb, i)
  {
    RowEquationNew(R.entries[i], x, qtb[i], i, xi);
  }

  lemma SolveStepKept(R: Matrix, x: Vector, qtb: Vector, i: nat, xi: real, k: nat)
    requires R.Valid() && R.cols <= R.rows && |x| == R.cols && |qtb| >= R.cols && i < k < R.cols
    requires RowSolved(R, x, qtb, k)
    ensures RowSolved(R, x[i := xi], qtb, k)
  {
    RowEquationKept(R.entries[k], x, qtb[k], i, xi, k);
  }

  /** Row `i` holds once `x[i]` is set to a value that solves it: the tail
      sum reads only later coordinates. */
  lemma RowEquationNew(row: Vector, x: Vector, q: real, i: nat, xi: real)
    requires |row| == |x| && i < |x|
    requires Solves(row[i], xi, RowTail(row, x, i + 1), q)
    ensures RowEquation(row, x[i := xi], q, i)
  {
    var y := x[i := xi];
    RowTailFrame(row, x, i, xi, i + 1);
    assert y[i] == xi;
  }

  /** A later row that already holds keeps holding when `x[i]` changes. */
  lemma RowEquationKept(row: Vector, x: Vector, q: real, i: nat, xi: real, k: nat)
    requires |row| == |x| && i < k < |x|
    requires RowEquation(row, x, q, k)
    ensures RowEquation(row, x[i := xi], q, k)
  {
    RowTailFrame(row, x, i, xi, k + 1);
    assert x[i := xi][k] == x[k];
  }

  /** Changing a coordinate below `lo` does not change the tail sum. */
  lemma {:induction false} RowTailFrame(row: Vector, x: Vector, i: nat, v: real, lo: nat)
    requires |row| == |x| && i < |x| && i < lo
    ensures RowTail(row, x[i := v], lo) == RowTail(row, x, lo)
    decreases |x| - lo
  {
    if lo < |x| {
      RowTailFrame(row, x, i, v, lo + 1);
    }
  }

  /* ---------------------------------------------------------------------- */
  /* Direct solve and inverse, given the QR factors                         */
  /* ---------------------------------------------------------------------- */

  /** The shapes in which the source allocates the factors of `A`. */
  predicate QRShape(A: Matrix, Q: Matrix, R: Matrix) {
    && A.Valid() && Q.Valid() && R.Valid()
    && Q.rows == A.rows && Q.cols == A.cols
    && R.rows == A.cols && R.cols == A.cols
  }

  /** `solve_system`: square `A`, matching `b`, full rank of R; the factors
      `Q`, `R` stand for what the Gram-Schmidt step produced for `A`. */
  method SolveSystem(A: Matrix, b: Vector, Q: Matrix, R: Matrix) returns (res: Result<Vector>)
    requires QRShape(A, Q, R)
    ensures res.Ok? <==> A.rows == A.cols && A.rows == |b|
                         && forall i :: 0 <= i < A.cols ==> !IsZero(R.entries[i][i])
    ensures res.Ok? ==> |res.value| == A.cols
                        && forall i :: 0 <= i < A.cols ==> RowSolved(R, res.value, QtB(Q, b), i)
  {
    if A.rows != A.cols {
      return Err("solve_system: matrix should be square");
    }
    if A.rows != |b| {
      return Err("solve_system: incompatible sizes");
    }
    var rank := RankR(R);
    if rank < A.cols {
      return Err("solve_system: matrix should be of full rank");
    }
    res := SolveSystemQR(Q, R, b);
  }

  /** `inverse_matrix`: solves `A x = e_i` for every `i` and stores the
      solutions as the columns of the result. */
  method InverseMatrix(A: Matrix, Q: Matrix, R: Matrix) returns (res: Result<Matrix>)
    requires QRShape(A, Q, R)
    ensures res.Ok? <==> A.rows == A.cols && forall i :: 0 <= i < A.cols ==> !IsZero(R.entries[i][i])
    ensures res.Ok? ==> res.value.Valid() && res.value.rows == A.rows && res.value.cols == A.cols
    ensures res.Ok? ==> forall c :: 0 <= c < A.cols ==>
              forall i :: 0 <= i < A.cols ==> RowSolved(R, Column(res.value, c), QtB(Q, Unit(A.cols, c)), i)
  {
    if A.rows != A.cols {
      return Err("inverse_matrix: matrix should be square");
    }
    var rank := RankR(R);
    if rank < A.cols {
      return Err("inverse_matrix: matrix singular");
    }
    var n := A.cols;
    var inv := ZeroMatrix(n, n);
    var c := 0;
    while c < n
      invariant 0 <= c <= n
      invariant inv.Valid() && inv.rows == n && inv.cols == n
      invariant forall d :: 0 <= d < c ==>
                  forall i :: 0 <= i < n ==> RowSolved(R, Column(inv, d), QtB(Q, Unit(n, d)), i)
    {
      var e := Unit(n, c);
      var sol := SolveSystemQR(Q, R, e);
      assert sol.Ok?;
      var next := ReplaceCol(inv, sol.value, c);
      assert next.Ok?;
      forall d | 0 <= d < c
        ensures Column(next.value, d) == Column(inv, d)
      {
      }
      assert Column(next.value, c) == sol.value;
      inv := next.value;
      c := c + 1;
    }
    return Ok(inv);
  }

  /* ---------------------------------------------------------------------- */
  /* Properties                                                             */
  /* ---------------------------------------------------------------------- */

  lemma {:induction false} DotSymmetric(u: Vector, v: Vector)
    requires |u| == |v|
    ensures Dot(u, v) == Dot(v, u)
  {
    if |u| > 0 {
      DotSymmetric(u[..|u| - 1], v[..|v| - 1]);
    }
  }

  /** A mask and its complement split the index range: every position is
      non-zero in exactly one of them, so their counts add up to the size. */
  lemma {:induction false} ComplementCounts(mask: Vector)
    ensures CountNonzero(mask) + CountNonzero(SwapZeroNonzero(mask)) == |mask|
  {
    if |mask| > 0 {
      var n := |mask| - 1;
      ComplementCounts(mask[..n]);
      assert SwapZeroNonzero(mask)[..n] == SwapZeroNonzero(mask[..n]);
    }
  }

  /** On 0/1 masks the complement is an involution. */
  lemma ComplementInvolution(mask: Vector)
    requires forall i :: 0 <= i < |mask| ==> mask[i] == 0.0 || mask[i] == 1.0
    ensures SwapZeroNonzero(SwapZeroNonzero(mask)) == mask
  {
  }

  /** The index tables of a mask and of its complement are disjoint and
      together name every position. */
  lemma ComplementIndices(mask: Vector)
    ensures forall i :: 0 <= i < |mask| ==>
              (i in NonzeroIndices(mask) <==> i !in NonzeroIndices(SwapZeroNonzero(mask)))
  {
    var w := SwapZeroNonzero(mask);
    assert forall i :: 0 <= i < |mask| ==> (i in NonzeroIndices(w) <==> w[i] != 0.0);
  }

  /** Transposing twice gives back the matrix. */
  lemma TransposeInvolution(M: Matrix)
    requires M.Valid()
    ensures Transpose(Transpose(M)) == M
  {
    var T2 := Transpose(Transpose(M));
    forall i | 0 <= i < M.rows
      ensures T2.entries[i] == M.entries[i]
    {
    }
  }

  /** `(A B)^t = B^t A^t`. */
  lemma TransposeOfProduct(A: Matrix, B: Matrix)
    requires A.Valid() && B.Valid() && A.cols == B.rows
    ensures MultMatrix(Transpose(B), Transpose(A)).Ok?
    ensures MultMatrix(Transpose(B), Transpose(A)).value == Transpose(MultMatrix(A, B).value)
  {
    var AB := MultMatrix(A, B).value;
    var BtAt := MultMatrix(Transpose(B), Transpose(A)).value;
    forall j | 0 <= j < B.cols
      ensures BtAt.entries[j] == Transpose(AB).entries[j]
    {
      forall i | 0 <= i < A.rows
        ensures BtAt.entries[j][i] == Transpose(AB).entries[j][i]
      {
        assert Column(Transpose(A), i) == A.entries[i];
        DotSymmetric(Column(B, j), A.entries[i]);
      }
    }
  }

  /** Replacing a column and reading it back returns the vector written. */
  lemma CopyAfterReplace(M: Matrix, v: Vector, col: nat)
    requires M.Valid() && |v| == M.rows && col < M.cols
    ensures CopyCol(ReplaceCol(M, v, col).value, M.rows, col) == Ok(v)
  {
    var N := ReplaceCol(M, v, col).value;
    assert Column(N, col) == v;
  }

  /** Writing back a column read from the matrix changes nothing. */
  lemma ReplaceWithOwnColumn(M: Matrix, col: nat)
    requires M.Valid() && col < M.cols
    ensures ReplaceCol(M, CopyCol(M, M.rows, col).value, col) == Ok(M)
  {
    var N := ReplaceCol(M, CopyCol(M, M.rows, col).value, col).value;
    forall i | 0 <= i < M.rows
      ensures N.entries[i] == M.entries[i]
    {
      assert N.entries[i] == M.entries[i][col := M.entries[i][col]];
    }
    assert N.entries == M.entries;
  }

  /** The source's column guard admits an index one past the last column. */
  lemma ColGuardAdmitsPastEnd()
    ensures ColGuardAsWritten(Matrix(1, 1, [[0.0]]), 1)
    ensures !ColGuard(Matrix(1, 1, [[0.0]]), 1)
  {
  }

  /** `Dot` of a row against `x` splits into the part before `k` and the
      tail sum from `k`. */
  lemma {:induction false} DotSplit(row: Vector, x: Vector, k: nat)
    requires |row| == |x| && k <= |x|
    ensures Dot(row[..k], x[..k]) + RowTail(row, x, k) == Dot(row, x)
    decreases |x| - k
  {
    if k < |x| {
      DotSplit(row, x, k + 1);
      DotSnoc(row, x, k);
    } else {
      assert row[..k] == row && x[..k] == x;
    }
  }

  /** The sum over the first `k + 1` entries adds entry `k` to the sum over
      the first `k`. */
  lemma DotSnoc(u: Vector, v: Vector, k: nat)
    requires |u| == |v| && k < |u|
    ensures Dot(u[..k + 1], v[..k + 1]) == Dot(u[..k], v[..k]) + u[k] * v[k]
  {
    assert u[..k + 1][..k] == u[..k] && v[..k + 1][..k] == v[..k];
  }

  /** A sum whose first `k` row entries are zero starts at `k`. */
  lemma {:induction false} DotZeroPrefix(row: Vector, x: Vector, k: nat)
    requires |row| == |x| && k <= |x|
    requires forall j :: 0 <= j < k ==> row[j] == 0.0
    ensures Dot(row[..k], x[..k]) == 0.0
  {
    if k > 0 {
      assert row[..k][..k - 1] == row[..k - 1] && x[..k][..k - 1] == x[..k - 1];
      DotZeroPrefix(row, x, k - 1);
    }
  }

  predicate UpperTriangular(R: Matrix)
    requires R.Valid()
  {
    forall i, j :: 0 <= j < i < R.rows && j < R.cols ==> R.entries[i][j] == 0.0
  }

  /** For an upper-triangular R the row-by-row contract of back-substitution
      is the whole system: `R x = Q^t b`. */
  lemma BackSubstitutionSolves(R: Matrix, x: Vector, qtb: Vector)
    requires R.Valid() && R.rows == R.cols && |x| == R.cols && |qtb| == R.cols
    requires UpperTriangular(R)
    requires forall i :: 0 <= i < R.cols ==> RowSolved(R, x, qtb, i)
    ensures forall i :: 0 <= i < R.rows ==> Dot(R.entries[i], x) == qtb[i]
  {
    forall i | 0 <= i < R.rows
      ensures Dot(R.entries[i], x) == qtb[i]
    {
      var row := R.entries[i];
      assert forall j :: 0 <= j < i ==> row[j] == 0.0;
      DotSplit(row, x, i);
      DotZeroPrefix(row, x, i);
      assert RowSolved(R, x, qtb, i);
    }
  }
}

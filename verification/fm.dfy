/** Fourier-Motzkin elimination for a system of inequalities `A x <= b`.
    Each step eliminates the first variable: rows whose leading coefficient
    is zero are copied, and every (positive, negative) pair of rows is added
    up. The matrix `C` records, for every current row, the multiples of the
    original rows it was built from, so that a row `0 <= b` with `b < 0` at
    the end names an infeasibility certificate. */
module FourierMotzkin {
  import opened Wrappers
  import opened LinAlg

  /** Rows beyond which an elimination step gives up. */
  const MAX_ROWS: int := 1000000

  /** A system of `|A|` inequalities in `n` variables. `C` has one row per
      inequality and `origM` columns, one per inequality of the system the
      elimination started from. The three counters hold how many rows have a
      positive, zero or negative coefficient on the first variable; the
      program keeps them as plain `int` fields. */
  datatype LP = LP(n: nat, A: seq<Vector>, b: Vector, C: seq<Vector>, origM: nat,
                   nPos: int, nZero: int, nNeg: int)
  {
    predicate Valid() {
      |b| == |A| && |C| == |A|
      && (forall i :: 0 <= i < |A| ==> |A[i]| == n)
      && (forall i :: 0 <= i < |C| ==> |C[i]| == origM)
    }
  }

  /** `x` satisfies every inequality of `P`. */
  predicate Satisfies(P: LP, x: Vector)
    requires P.Valid() && |x| == P.n
  {
    forall i :: 0 <= i < |P.A| ==> Dot(P.A[i], x) <= P.b[i]
  }

  /* ---------------------------------------------------------------------- */
  /* Counting leading signs                                                 */
  /* ---------------------------------------------------------------------- */

  datatype Sign = Pos | Zero | Neg

  /** The three tests of the source are exclusive on reals. */
  function SignOf(a: real): (s: Sign)
    ensures s == Pos <==> a > 0.0
    ensures s == Zero <==> a == 0.0
    ensures s == Neg <==> a < 0.0
  {
    if a > 0.0 then Pos else if a == 0.0 then Zero else Neg
  }

  /** The coefficients of the first variable, one per row. */
  function Leading(P: LP): (col: Vector)
    requires P.Valid() && P.n > 0
    ensures |col| == |P.A|
    ensures forall i :: 0 <= i < |P.A| ==> col[i] == P.A[i][0]
  {
    seq(|P.A|, i requires 0 <= i < |P.A| => P.A[i][0])
  }

  /** Number of entries of `col` whose sign is `s`. */
  function CountSign(col: Vector, s: Sign): nat
  {
    if |col| == 0 then 0
    else CountSign(col[..|col| - 1], s) + (if SignOf(col[|col| - 1]) == s then 1 else 0)
  }

  /** The counters describe the rows: what every elimination step relies on
      to size its output. Without variables the counters are not looked at. */
  predicate CountsOk(P: LP)
    requires P.Valid()
  {
    P.n > 0 ==>
      P.nPos == CountSign(Leading(P), Pos)
      && P.nZero == CountSign(Leading(P), Zero)
      && P.nNeg == CountSign(Leading(P), Neg)
  }

  /** The state of the counting loop after it has looked at rows `0..k-1`:
      each row bumps exactly one counter. */
  function CountTypesUpTo(P: LP, k: nat): (Q: LP)
    requires P.Valid() && P.n > 0 && k <= |P.A|
    ensures Q.n == P.n && Q.A == P.A && Q.b == P.b && Q.C == P.C && Q.origM == P.origM
    ensures Q.nPos == P.nPos + CountSign(Leading(P)[..k], Pos)
    ensures Q.nZero == P.nZero + CountSign(Leading(P)[..k], Zero)
    ensures Q.nNeg == P.nNeg + CountSign(Leading(P)[..k], Neg)
  {
    if k == 0 then P
    else
      var Q := CountTypesUpTo(P, k - 1);
      assert Leading(P)[..k][..k - 1] == Leading(P)[..k - 1];
      match SignOf(P.A[k - 1][0])
      case Pos => Q.(nPos := Q.nPos + 1)
      case Zero => Q.(nZero := Q.nZero + 1)
      case Neg => Q.(nNeg := Q.nNeg + 1)
  }

  /** Adds the sign counts of the first column to the counters; a system
      without variables is left alone. */
  function CountTypes(P: LP): (Q: LP)
    requires P.Valid()
    ensures Q.Valid() && Q.n == P.n && Q.A == P.A && Q.b == P.b && Q.C == P.C && Q.origM == P.origM
    ensures P.n == 0 ==> Q == P
    ensures P.n > 0 ==>
      Q.nPos == P.nPos + CountSign(Leading(P), Pos)
      && Q.nZero == P.nZero + CountSign(Leading(P), Zero)
      && Q.nNeg == P.nNeg + CountSign(Leading(P), Neg)
  {
    if P.n == 0 then P
    else
      assert Leading(P)[..|P.A|] == Leading(P);
      CountTypesUpTo(P, |P.A|)
  }

  /* ---------------------------------------------------------------------- */
  /* Normalisation                                                          */
  /* ---------------------------------------------------------------------- */

  /** How the divisor of a row is obtained from its leading coefficient:
      `TruncatedAbs` is what the program computes (the integer `abs` of the
      coefficient converted to `int`, truncating towards zero), `ExactAbs`
      the magnitude of the coefficient. */
  datatype Normalization = TruncatedAbs | ExactAbs

  /** `abs((int) a)` as a real. */
  function TruncAbs(a: real): (t: real)
    ensures t == t.Floor as real
    ensures 0.0 <= t && (a >= 0.0 ==> t <= a < t + 1.0) && (a < 0.0 ==> t <= -a < t + 1.0)
  {
    if a >= 0.0 then a.Floor as real else (-a).Floor as real
  }

  function Divisor(a: real, norm: Normalization): (t: real)
    ensures t >= 0.0
    ensures norm == ExactAbs ==> (t == a || t == -a) && (t == 0.0 <==> a == 0.0)
    ensures norm == TruncatedAbs ==> t == TruncAbs(a)
  {
    match norm
    case TruncatedAbs => TruncAbs(a)
    case ExactAbs => if a >= 0.0 then a else -a
  }

  /** `w` times `t` is `v`, entry by entry. */
  predicate ScaledVec(w: Vector, v: Vector, t: real) {
    |w| == |v| && forall j :: 0 <= j < |v| ==> w[j] * t == v[j]
  }

  /** `v` divided by `t`, or `v` itself when `t` is zero. */
  function ScaleBy(v: Vector, t: real): (w: Vector)
    ensures |w| == |v|
    ensures t != 0.0 ==> ScaledVec(w, v, t)
    ensures t == 0.0 ==> w == v
  {
    if t != 0.0 then VecDiv(v, t) else v
  }

  /** The divisor of row `i` of `P`. */
  function RowDivisor(P: LP, i: nat, norm: Normalization): real
    requires P.Valid() && P.n > 0 && i < |P.A|
  {
    Divisor(P.A[i][0], norm)
  }

  /** Row `i` of `Q` is row `i` of `P` (its `A`, `b` and `C` parts alike)
      divided by `t`, or row `i` of `P` itself when `t` is zero. */
  predicate RowScaled(P: LP, Q: LP, i: nat, t: real)
    requires P.Valid() && Q.Valid() && Q.n == P.n && Q.origM == P.origM && i < |P.A| && i < |Q.A|
  {
    (t == 0.0 ==> Q.A[i] == P.A[i] && Q.b[i] == P.b[i] && Q.C[i] == P.C[i])
    && (t != 0.0 ==> Q.b[i] * t == P.b[i] && ScaledVec(Q.A[i], P.A[i], t) && ScaledVec(Q.C[i], P.C[i], t))
  }

  /** Divides every row by the divisor of its leading coefficient, when that
      divisor is not zero. */
  function Normalize(P: LP, norm: Normalization): (Q: LP)
    requires P.Valid()
    ensures Q.Valid() && Q.n == P.n && |Q.A| == |P.A| && Q.origM == P.origM
    ensures Q.nPos == P.nPos && Q.nZero == P.nZero && Q.nNeg == P.nNeg
    ensures P.n == 0 ==> Q == P
    ensures P.n > 0 ==> forall i :: 0 <= i < |P.A| ==> RowScaled(P, Q, i, RowDivisor(P, i, norm))
  {
    if P.n == 0 then P
    else
      var m := |P.A|;
      var Q := P.(A := seq(m, i requires 0 <= i < m => ScaleBy(P.A[i], RowDivisor(P, i, norm))),
                  b := seq(m, i requires 0 <= i < m => var t := RowDivisor(P, i, norm); if t != 0.0 then P.b[i] / t else P.b[i]),
                  C := seq(m, i requires 0 <= i < m => ScaleBy(P.C[i], RowDivisor(P, i, norm))));
      assert Q.Valid();
      assert forall i :: 0 <= i < m ==> RowScaled(P, Q, i, RowDivisor(P, i, norm)) by {
        forall i | 0 <= i < m ensures RowScaled(P, Q, i, RowDivisor(P, i, norm)) {
          RowScaledBy(P, Q, i, RowDivisor(P, i, norm));
        }
      }
      Q
  }

  /** Dividing the three parts of row `i` by `t` scales the row by `t`. */
  lemma RowScaledBy(P: LP, Q: LP, i: nat, t: real)
    requires P.Valid() && Q.Valid() && Q.n == P.n && Q.origM == P.origM && i < |P.A| && i < |Q.A|
    requires Q.A[i] == ScaleBy(P.A[i], t) && Q.C[i] == ScaleBy(P.C[i], t)
    requires Q.b[i] == if t != 0.0 then P.b[i] / t else P.b[i]
    ensures RowScaled(P, Q, i, t)
  {
  }

  /** Every leading coefficient is `-1`, `0` or `1`. */
  predicate Normalized(P: LP)
    requires P.Valid()
  {
    P.n > 0 ==> forall i :: 0 <= i < |P.A| ==> P.A[i][0] in {-1.0, 0.0, 1.0}
  }

  /* ---------------------------------------------------------------------- */
  /* One elimination step                                                   */
  /* ---------------------------------------------------------------------- */

  /** An emitted inequality `a . y <= rhs` together with its row of `C`. */
  datatype Row = Row(a: Vector, rhs: real, cert: Vector)

  /** Rows `i` and `j` form a (positive, negative) pair. */
  predicate IsPair(P: LP, i: nat, j: nat)
    requires P.Valid() && P.n > 0 && i < |P.A| && j < |P.A|
  {
    P.A[i][0] > 0.0 && P.A[j][0] < 0.0
  }

  /** The sum of rows `i` and `j`, without the first variable. */
  function Combine(P: LP, i: nat, j: nat): (r: Row)
    requires P.Valid() && P.n > 0 && i < |P.A| && j < |P.A|
    ensures r.a == VecAdd(P.A[i][1..], P.A[j][1..]) && r.rhs == P.b[i] + P.b[j]
    ensures r.cert == VecAdd(P.C[i], P.C[j])
  {
    Row(seq(P.n - 1, k requires 0 <= k < P.n - 1 => P.A[i][k + 1] + P.A[j][k + 1]),
        P.b[i] + P.b[j],
        seq(P.origM, k requires 0 <= k < P.origM => P.C[i][k] + P.C[j][k]))
  }

  /** Row `i` without the first variable. */
  function Copy(P: LP, i: nat): (r: Row)
    requires P.Valid() && P.n > 0 && i < |P.A|
    ensures Fits(P, r) && r.rhs == P.b[i] && r.cert == P.C[i]
  {
    Row(P.A[i][1..], P.b[i], P.C[i])
  }

  /** A row whose shape fits the system one variable smaller than `P`. */
  predicate Fits(P: LP, r: Row) {
    |r.a| == P.n - 1 && |r.cert| == P.origM
  }

  /** What iteration `(i, j)` of the nested emission loop appends. */
  function EmitStep(P: LP, i: nat, j: nat): (rs: seq<Row>)
    requires P.Valid() && P.n > 0 && i < |P.A| && j < |P.A|
    ensures |rs| <= 1
    ensures |rs| == 1 <==> IsPair(P, i, j) || (P.A[i][0] == 0.0 && i == j)
  {
    (if IsPair(P, i, j) then [Combine(P, i, j)] else [])
    + (if P.A[i][0] == 0.0 && i == j then [Copy(P, i)] else [])
  }

  /** What iterations `(i, 0)` .. `(i, jn - 1)` append. */
  function EmitRow(P: LP, i: nat, jn: nat): (rs: seq<Row>)
    requires P.Valid() && P.n > 0 && i < |P.A| && jn <= |P.A|
    ensures |rs| <= jn
  {
    if jn == 0 then [] else EmitRow(P, i, jn - 1) + EmitStep(P, i, jn - 1)
  }

  /** What the outer iterations `0` .. `cnt - 1` append. */
  function EmitAll(P: LP, cnt: nat): (rs: seq<Row>)
    requires P.Valid() && P.n > 0 && cnt <= |P.A|
    ensures |rs| <= cnt * |P.A|
  {
    if cnt == 0 then [] else EmitAll(P, cnt - 1) + EmitRow(P, cnt - 1, |P.A|)
  }

  /** Every emitted row has the shape of the next system. */
  lemma {:induction false} EmitRowFits(P: LP, i: nat, jn: nat)
    requires P.Valid() && P.n > 0 && i < |P.A| && jn <= |P.A|
    ensures forall k :: 0 <= k < |EmitRow(P, i, jn)| ==> Fits(P, EmitRow(P, i, jn)[k])
  {
    if jn > 0 {
      EmitRowFits(P, i, jn - 1);
    }
  }

  lemma {:induction false} EmitAllFits(P: LP, cnt: nat)
    requires P.Valid() && P.n > 0 && cnt <= |P.A|
    ensures forall k :: 0 <= k < |EmitAll(P, cnt)| ==> Fits(P, EmitAll(P, cnt)[k])
  {
    if cnt > 0 {
      EmitAllFits(P, cnt - 1);
      EmitRowFits(P, cnt - 1, |P.A|);
    }
  }

  /** Row `i` emits one sum per negative row among the first `jn` when it is
      positive, and its copy when it is zero and among them. */
  lemma {:induction false} EmitRowCount(P: LP, i: nat, jn: nat)
    requires P.Valid() && P.n > 0 && i < |P.A| && jn <= |P.A|
    ensures |EmitRow(P, i, jn)| == (if P.A[i][0] > 0.0 then CountSign(Leading(P)[..jn], Neg) else 0)
                                   + (if P.A[i][0] == 0.0 && i < jn then 1 else 0)
  {
    if jn > 0 {
      EmitRowCount(P, i, jn - 1);
      CountSignSnoc(Leading(P), jn, Neg);
    }
  }

  /** The outer iterations `0` .. `cnt - 1` emit one row per negative row
      for each positive row among them, and one per zero row among them. */
  lemma {:induction false} EmitAllCount(P: LP, cnt: nat)
    requires P.Valid() && P.n > 0 && cnt <= |P.A|
    ensures |EmitAll(P, cnt)| == CountSign(Leading(P)[..cnt], Pos) * CountSign(Leading(P), Neg)
                                 + CountSign(Leading(P)[..cnt], Zero)
  {
    if cnt > 0 {
      var col := Leading(P);
      var s := SignOf(col[cnt - 1]);
      var pos, zero, neg := CountSign(col[..cnt - 1], Pos), CountSign(col[..cnt - 1], Zero), CountSign(col, Neg);
      EmitAllCount(P, cnt - 1);
      EmitRowLength(P, cnt - 1);
      CountSignSnoc(col, cnt, Pos);
      CountSignSnoc(col, cnt, Zero);
      CountArith(pos, neg, zero, s, CountSign(col[..cnt], Pos), CountSign(col[..cnt], Zero));
    }
  }

  /** Outer iteration `i` emits one row per negative row when row `i` is
      positive, and one row when it is zero. */
  lemma EmitRowLength(P: LP, i: nat)
    requires P.Valid() && P.n > 0 && i < |P.A|
    ensures |EmitRow(P, i, |P.A|)| == (if SignOf(Leading(P)[i]) == Pos then CountSign(Leading(P), Neg) else 0)
                                      + (if SignOf(Leading(P)[i]) == Zero then 1 else 0)
  {
    EmitRowCount(P, i, |P.A|);
    assert Leading(P)[..|P.A|] == Leading(P);
  }

  /** The arithmetic of one outer iteration: a positive row adds `neg` rows
      and one to the positive count, a zero row one row and one to the zero
      count. */
  lemma CountArith(pos: nat, neg: nat, zero: nat, s: Sign, pos': nat, zero': nat)
    requires pos' == pos + (if s == Pos then 1 else 0) && zero' == zero + (if s == Zero then 1 else 0)
    ensures pos' * neg + zero' == pos * neg + zero + ((if s == Pos then neg else 0) + (if s == Zero then 1 else 0))
  {
    if s == Pos {
      MulSucc(pos, neg);
    }
  }

  /** Counting one more entry of `col`. */
  lemma CountSignSnoc(col: Vector, k: nat, s: Sign)
    requires 0 < k <= |col|
    ensures CountSign(col[..k], s) == CountSign(col[..k - 1], s) + (if SignOf(col[k - 1]) == s then 1 else 0)
  {
    assert col[..k][..k - 1] == col[..k - 1];
  }

  lemma MulSucc(p: nat, n: nat)
    ensures (p + 1) * n == p * n + n
  {
  }

  /** The number of rows the next system gets, from the stored counters. */
  function RowCount(P: LP): int {
    P.nPos * P.nNeg + P.nZero
  }

  /** A value reduced into the range of a 32-bit two's-complement `int`, the
      way the counters' product and sum wrap on the usual platforms. */
  function Int32Wrap(v: int): (w: int)
    ensures -0x8000_0000 <= w < 0x8000_0000
    ensures (v - w) % 0x1_0000_0000 == 0
  {
    var r := v % 0x1_0000_0000;
    if r >= 0x8000_0000 then r - 0x1_0000_0000 else r
  }

  /** The row count as the source computes it, in `int` arithmetic: a
      32-bit value that agrees with the exact count only modulo `2^32`. */
  function RowCountAsWritten(nPos: int, nNeg: int, nZero: int): (m: int)
    ensures -0x8000_0000 <= m < 0x8000_0000
    ensures (nPos * nNeg + nZero - m) % 0x1_0000_0000 == 0
  {
    var w := Int32Wrap(nPos * nNeg);
    var m := Int32Wrap(w + nZero);
    CongruentSum(nPos * nNeg - w, w + nZero - m);
    m
  }

  /** Multiples of `2^32` add up to a multiple of `2^32`. */
  lemma CongruentSum(d1: int, d2: int)
    requires d1 % 0x1_0000_0000 == 0 && d2 % 0x1_0000_0000 == 0
    ensures (d1 + d2) % 0x1_0000_0000 == 0
  {
  }

  /** Whether the source's size guard lets elimination go ahead. */
  function GuardAdmitsAsWritten(nPos: int, nNeg: int, nZero: int): (ok: bool)
    ensures 0 <= nPos * nNeg + nZero <= MAX_ROWS ==> ok
  {
    var m := RowCountAsWritten(nPos, nNeg, nZero);
    SmallCountSurvives(nPos * nNeg + nZero, m);
    !(m < 0 || m > MAX_ROWS)
  }

  /** A 32-bit value congruent modulo `2^32` to a count within `MAX_ROWS`
      is that count. */
  lemma SmallCountSurvives(t: int, m: int)
    requires -0x8000_0000 <= m < 0x8000_0000 && (t - m) % 0x1_0000_0000 == 0
    ensures 0 <= t <= MAX_ROWS ==> t == m
  {
  }

  /** The system holding `rows`, with fresh counters. */
  function FromRows(n: nat, origM: nat, rows: seq<Row>): (Q: LP)
    requires forall k :: 0 <= k < |rows| ==> |rows[k].a| == n && |rows[k].cert| == origM
    ensures Q.Valid() && Q.n == n && Q.origM == origM && |Q.A| == |rows|
    ensures forall k :: 0 <= k < |rows| ==> Q.A[k] == rows[k].a && Q.b[k] == rows[k].rhs && Q.C[k] == rows[k].cert
  {
    LP(n,
       seq(|rows|, k requires 0 <= k < |rows| => rows[k].a),
       seq(|rows|, k requires 0 <= k < |rows| => rows[k].rhs),
       seq(|rows|, k requires 0 <= k < |rows| => rows[k].cert),
       origM, 0, 0, 0)
  }

  /** Eliminates the first variable of `P`: the emitted rows, normalised and
      counted. Fails when the counters announce more than `MAX_ROWS` rows. */
  function Eliminate(P: LP, norm: Normalization): (res: Result<LP>)
    requires P.Valid() && P.n > 0 && CountsOk(P)
    ensures res.Err? <==> RowCount(P) > MAX_ROWS
    ensures res.Ok? ==>
      var Q := res.value;
      Q.Valid() && Q.n == P.n - 1 && Q.origM == P.origM && |Q.A| == RowCount(P) && CountsOk(Q)
    ensures res.Ok? && norm == ExactAbs ==> Normalized(res.value)
  {
    var count := RowCount(P);
    if count < 0 || count > MAX_ROWS then Err("Too many inequalities: exiting...")
    else
      var rows := EmitAll(P, |P.A|);
      assert Leading(P)[..|P.A|] == Leading(P);
      EmitAllCount(P, |P.A|);
      EmitAllFits(P, |P.A|);
      var F := FromRows(P.n - 1, P.origM, rows);
      ExactNormalized(F);
      Ok(CountTypes(Normalize(F, norm)))
  }

  /** Exact normalisation leaves every leading coefficient in `{-1, 0, 1}`. */
  lemma ExactNormalized(P: LP)
    requires P.Valid()
    ensures Normalized(Normalize(P, ExactAbs))
  {
    var N := Normalize(P, ExactAbs);
    if N.n > 0 {
      forall i | 0 <= i < |N.A| ensures N.A[i][0] in {-1.0, 0.0, 1.0} {
        NormalizedLeading(P, i);
      }
    }
  }

  /** After exact normalisation the leading coefficient of a row is
      `-1`, `0` or `1`. */
  lemma NormalizedLeading(P: LP, i: nat)
    requires P.Valid() && P.n > 0 && i < |P.A|
    ensures Normalize(P, ExactAbs).A[i][0] in {-1.0, 0.0, 1.0}
  {
    var a := P.A[i][0];
    var t := RowDivisor(P, i, ExactAbs);
    if t != 0.0 {
      assert Normalize(P, ExactAbs).A[i] == VecDiv(P.A[i], t);
      DivideBySelf(a);
    }
  }

  lemma DivideBySelf(a: real)
    requires a != 0.0
    ensures a / a == 1.0 && a / -a == -1.0
  {
  }

  /* ---------------------------------------------------------------------- */
  /* The sequence of systems and the decision                               */
  /* ---------------------------------------------------------------------- */

  /** `red` is the sequence the elimination loop builds from `P`: each system
      is the elimination of the one before it. */
  predicate IsChain(P: LP, norm: Normalization, red: seq<LP>)
  {
    |red| >= 1 && red[0] == P
    && forall t :: 0 <= t < |red| - 1 ==>
         red[t].Valid() && red[t].n > 0 && CountsOk(red[t]) && Eliminate(red[t], norm) == Ok(red[t + 1])
  }

  /** The first `k` elimination steps; the first failing step ends the run. */
  function Reduce(P: LP, norm: Normalization, k: nat): (res: Result<seq<LP>>)
    requires P.Valid() && CountsOk(P) && k <= P.n
    ensures res.Ok? ==> |res.value| == k + 1 && IsChain(P, norm, res.value)
    ensures res.Ok? ==> forall t :: 0 <= t <= k ==>
      res.value[t].Valid() && CountsOk(res.value[t]) && res.value[t].n == P.n - t
      && res.value[t].origM == P.origM
    ensures res.Ok? && norm == ExactAbs && Normalized(P) ==> forall t :: 0 <= t <= k ==> Normalized(res.value[t])
  {
    if k == 0 then Ok([P])
    else
      match Reduce(P, norm, k - 1)
      case Err(e) => Err(e)
      case Ok(red) =>
        match Eliminate(red[k - 1], norm)
        case Err(e) => Err(e)
        case Ok(Q) => ExtendChain(P, norm, red, Q); Ok(red + [Q])
  }

  /** Appending the elimination of the last system keeps a chain a chain. */
  lemma ExtendChain(P: LP, norm: Normalization, red: seq<LP>, Q: LP)
    requires IsChain(P, norm, red)
    requires forall t :: 0 <= t < |red| ==>
      red[t].Valid() && CountsOk(red[t]) && red[t].n == P.n - t && red[t].origM == P.origM
    requires norm == ExactAbs && Normalized(P) ==> forall t :: 0 <= t < |red| ==> Normalized(red[t])
    requires red[|red| - 1].n > 0 && Eliminate(red[|red| - 1], norm) == Ok(Q)
    ensures IsChain(P, norm, red + [Q])
    ensures forall t :: 0 <= t <= |red| ==>
      (red + [Q])[t].Valid() && CountsOk((red + [Q])[t]) && (red + [Q])[t].n == P.n - t
      && (red + [Q])[t].origM == P.origM
    ensures norm == ExactAbs && Normalized(P) ==> forall t :: 0 <= t <= |red| ==> Normalized((red + [Q])[t])
  {
    var ext := red + [Q];
    forall t | 0 <= t < |ext| - 1
      ensures ext[t].Valid() && ext[t].n > 0 && CountsOk(ext[t]) && Eliminate(ext[t], norm) == Ok(ext[t + 1])
    {
      assert ext[t] == red[t];
      if t + 1 < |red| {
        assert ext[t + 1] == red[t + 1];
      }
    }
  }

  /** The first index whose entry is negative, from `from` on. */
  function FirstNegative(v: Vector, from: nat): (k: Option<nat>)
    decreases |v| - from
    ensures k.None? <==> forall i :: from <= i < |v| ==> v[i] >= 0.0
    ensures k.Some? ==> from <= k.value < |v| && v[k.value] < 0.0
                        && forall i :: from <= i < k.value ==> v[i] >= 0.0
  {
    if from >= |v| then None
    else if v[from] < 0.0 then Some(from)
    else FirstNegative(v, from + 1)
  }

  /** What the feasibility check reports: a row of `C` certifying that the
      system is empty, or a point. */
  datatype Answer = Empty(certificate: Vector) | Solution(x: Vector)

  /** `b - A[..][1..] . tail`: the right-hand sides once the variables after
      the first are fixed to `tail`. */
  function Residual(Q: LP, tail: Vector, l: nat): real
    requires Q.Valid() && Q.n == |tail| + 1 && l < |Q.A|
  {
    Q.b[l] - Dot(Q.A[l][1..], tail)
  }

  /** The largest `-Residual` over the rows `0..cnt-1` with a negative leading
      coefficient, as the scan keeps it: the first row that sets it, then
      every strictly larger value. */
  function LowerBound(Q: LP, tail: Vector, cnt: nat): (lo: Option<real>)
    requires Q.Valid() && Q.n == |tail| + 1 && cnt <= |Q.A|
    ensures lo.None? <==> forall l :: 0 <= l < cnt ==> Q.A[l][0] >= 0.0
    ensures lo.Some? ==> (forall l :: 0 <= l < cnt && Q.A[l][0] < 0.0 ==> -Residual(Q, tail, l) <= lo.value)
                         && exists l :: 0 <= l < cnt && Q.A[l][0] < 0.0 && -Residual(Q, tail, l) == lo.value
  {
    if cnt == 0 then None
    else
      var prev := LowerBound(Q, tail, cnt - 1);
      var l := cnt - 1;
      if Q.A[l][0] < 0.0 && (prev.None? || -Residual(Q, tail, l) > prev.value) then Some(-Residual(Q, tail, l))
      else prev
  }

  /** The smallest `Residual` over the rows `0..cnt-1` with a positive
      leading coefficient, kept the same way. */
  function UpperBound(Q: LP, tail: Vector, cnt: nat): (hi: Option<real>)
    requires Q.Valid() && Q.n == |tail| + 1 && cnt <= |Q.A|
    ensures hi.None? <==> forall l :: 0 <= l < cnt ==> Q.A[l][0] <= 0.0
    ensures hi.Some? ==> (forall l :: 0 <= l < cnt && Q.A[l][0] > 0.0 ==> hi.value <= Residual(Q, tail, l))
                         && exists l :: 0 <= l < cnt && Q.A[l][0] > 0.0 && Residual(Q, tail, l) == hi.value
  {
    if cnt == 0 then None
    else
      var prev := UpperBound(Q, tail, cnt - 1);
      var l := cnt - 1;
      if Q.A[l][0] > 0.0 && (prev.None? || Residual(Q, tail, l) < prev.value) then Some(Residual(Q, tail, l))
      else prev
  }

  /** The value picked between the bounds, with the source's fallbacks for
      a missing bound. */
  function Midpoint(lo: Option<real>, hi: Option<real>): (v: real)
    ensures lo.Some? && hi.Some? ==> v == (lo.value + hi.value) / 2.0
    ensures lo.Some? && hi.None? ==> v == lo.value + 0.5
    ensures lo.None? && hi.Some? ==> v == hi.value - 0.5
    ensures lo.None? && hi.None? ==> v == 0.5
    ensures lo.Some? && hi.Some? && lo.value <= hi.value ==> lo.value <= v <= hi.value
    ensures lo.Some? && hi.None? ==> lo.value <= v
    ensures lo.None? && hi.Some? ==> v <= hi.value
  {
    var mx := if hi.Some? then hi.value else (if lo.Some? then lo.value else 0.0) + 1.0;
    var mn := if lo.Some? then lo.value else mx - 1.0;
    (mx + mn) / 2.0
  }

  /** The value of the first variable of `Q` once the others are `tail`. */
  function ChooseValue(Q: LP, tail: Vector): (v: real)
    requires Q.Valid() && Q.n == |tail| + 1
    ensures var lo := LowerBound(Q, tail, |Q.A|); var hi := UpperBound(Q, tail, |Q.A|);
            && (lo.Some? && hi.Some? && lo.value <= hi.value ==> lo.value <= v <= hi.value)
            && (lo.Some? && hi.None? ==> lo.value <= v)
            && (lo.None? && hi.Some? ==> v <= hi.value)
  {
    Midpoint(LowerBound(Q, tail, |Q.A|), UpperBound(Q, tail, |Q.A|))
  }

  /** Back-substitution from `red[k]` to the last system: the values of
      the variables of `red[k]`. */
  function SolveFrom(red: seq<LP>, k: nat): (x: Vector)
    requires k < |red|
    requires forall t :: 0 <= t < |red| ==> red[t].Valid() && red[t].n == |red| - 1 - t
    decreases |red| - k
    ensures |x| == |red| - 1 - k
  {
    if k == |red| - 1 then []
    else
      var tail := SolveFrom(red, k + 1);
      [ChooseValue(red[k], tail)] + tail
  }

  /** The solution the program prints after a successful reduction. */
  function FindSolution(red: seq<LP>): (x: Vector)
    requires |red| >= 1
    requires forall t :: 0 <= t < |red| ==> red[t].Valid() && red[t].n == |red| - 1 - t
    ensures |x| == red[0].n
  {
    SolveFrom(red, 0)
  }

  /** Reduces `P` to a system without variables, then reports the certificate
      of the first row with a negative right-hand side, or else the point
      found by back-substitution. */
  function CheckFeasibility(P: LP, norm: Normalization): (res: Result<Answer>)
    requires P.Valid() && CountsOk(P)
    ensures res.Err? <==> Reduce(P, norm, P.n).Err?
    ensures res.Ok? && res.value.Solution? ==> |res.value.x| == P.n
    ensures res.Ok? && res.value.Empty? ==> |res.value.certificate| == P.origM
    ensures res.Ok? ==> var last := Reduce(P, norm, P.n).value[P.n];
      (res.value.Empty? <==> exists i :: 0 <= i < |last.b| && last.b[i] < 0.0)
    ensures res.Ok? && res.value.Empty? ==> var last := Reduce(P, norm, P.n).value[P.n];
      exists i :: 0 <= i < |last.b| && last.b[i] < 0.0
                  && (forall k :: 0 <= k < i ==> last.b[k] >= 0.0)
                  && res.value.certificate == last.C[i]
    ensures res.Ok? && res.value.Solution? ==> res.value.x == FindSolution(Reduce(P, norm, P.n).value)
  {
    match Reduce(P, norm, P.n)
    case Err(e) => Err(e)
    case Ok(red) =>
      var last := red[P.n];
      match FirstNegative(last.b, 0)
      case Some(i) => Ok(Empty(last.C[i]))
      case None => Ok(Solution(FindSolution(red)))
  }

  /** The system the program works on once an input `A x <= b` is read:
      `C` is the identity, the counters start at zero, then the rows are
      normalised and counted. */
  function Load(n: nat, A: seq<Vector>, b: Vector, norm: Normalization): (P: LP)
    requires |b| == |A| && forall i :: 0 <= i < |A| ==> |A[i]| == n
    ensures P.Valid() && P.n == n && |P.A| == |A| && P.origM == |A| && CountsOk(P)
    ensures norm == ExactAbs ==> Normalized(P)
  {
    var m := |A|;
    var raw := LP(n, A, b, Identity(m).entries, m, 0, 0, 0);
    var N := Normalize(raw, norm);
    assert norm == ExactAbs ==> Normalized(N) by {
      if norm == ExactAbs && n > 0 {
        forall i | 0 <= i < m ensures N.A[i][0] in {-1.0, 0.0, 1.0} {
          NormalizedLeading(raw, i);
        }
      }
    }
    CountTypes(N)
  }

  /* ---------------------------------------------------------------------- */
  /* Vector sums and quotients, and how Dot distributes over them         */
  /* ---------------------------------------------------------------------- */

  /** Entrywise sum. */
  function VecAdd(u: Vector, w: Vector): (s: Vector)
    requires |u| == |w|
    ensures |s| == |u|
  {
    seq(|u|, k requires 0 <= k < |u| => u[k] + w[k])
  }

  /** Entrywise division by `t`. */
  function VecDiv(u: Vector, t: real): (s: Vector)
    requires t != 0.0
    ensures |s| == |u|
  {
    seq(|u|, k requires 0 <= k < |u| => u[k] / t)
  }

  /** `Dot` also splits off its first term. */
  lemma {:induction false} DotFront(u: Vector, v: Vector)
    requires |u| == |v| && |u| > 0
    ensures Dot(u, v) == u[0] * v[0] + Dot(u[1..], v[1..])
  {
    var n := |u| - 1;
    if n > 0 {
      DotFront(u[..n], v[..n]);
      assert u[..n][1..] == u[1..][..n - 1] && v[..n][1..] == v[1..][..n - 1];
    }
  }

  /** The sum against `[h] + t` splits off the head. */
  lemma DotCons(u: Vector, h: real, t: Vector)
    requires |u| == |t| + 1
    ensures Dot(u, [h] + t) == u[0] * h + Dot(u[1..], t)
  {
    DotHead(u, [h] + t, h, t);
  }

  /** The sum against `w`, whose head is `h` and tail `t`. */
  lemma DotHead(u: Vector, w: Vector, h: real, t: Vector)
    requires |u| == |w| && |w| > 0 && w[0] == h && w[1..] == t
    ensures Dot(u, w) == u[0] * h + Dot(u[1..], t)
  {
    DotFront(u, w);
  }

  lemma {:induction false} DotAdd(u: Vector, w: Vector, v: Vector)
    requires |u| == |w| == |v|
    ensures Dot(VecAdd(u, w), v) == Dot(u, v) + Dot(w, v)
  {
    if |u| > 0 {
      var n := |u| - 1;
      assert VecAdd(u, w)[..n] == VecAdd(u[..n], w[..n]);
      DotAdd(u[..n], w[..n], v[..n]);
    }
  }

  lemma {:induction false} DotDiv(u: Vector, v: Vector, t: real)
    requires |u| == |v| && t != 0.0
    ensures Dot(VecDiv(u, t), v) == Dot(u, v) / t
  {
    if |u| > 0 {
      var n := |u| - 1;
      assert VecDiv(u, t)[..n] == VecDiv(u[..n], t);
      DotDiv(u[..n], v[..n], t);
    }
  }
}

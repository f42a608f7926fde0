/**
 * The balancer's matrices of exact fractions (components/tools/EquationBalancer.tsx:240-311):
 * a matrix is a list of rows, a row a list of normalized fractions. Its meaning is the
 * homogeneous linear system it stands for: a vector x of rationals solves the matrix when every
 * row r has Σ_j r[j]·x[j] = 0. The three row operations of Gauss-Jordan elimination are defined
 * here together with the proof that each keeps the set of solutions.
 */
module Matrix {
  import opened Fractions

  type Row = seq<NFrac>
  type Mat = seq<Row>

  /** Every row has cols entries. */
  predicate Rect(m: Mat, cols: nat)
  {
    forall k :: 0 <= k < |m| ==> |m[k]| == cols
  }

  /** `R[0]?.length ?? 0`: the number of columns, read from the first row. */
  function Width(m: Mat): nat
  {
    if |m| == 0 then 0 else |m[0]|
  }

  /** The rational values of a row of fractions. */
  function Vals(xs: seq<NFrac>): (v: seq<real>)
    ensures |v| == |xs| && forall k :: 0 <= k < |xs| ==> v[k] == Val(xs[k])
  {
    seq(|xs|, k requires 0 <= k < |xs| => Val(xs[k]))
  }

  function Reals(xs: seq<int>): (v: seq<real>)
    ensures |v| == |xs| && forall k :: 0 <= k < |xs| ==> v[k] == xs[k] as real
  {
    seq(|xs|, k requires 0 <= k < |xs| => xs[k] as real)
  }

  /** Σ_j a[j]·x[j] over real vectors. */
  ghost function DotR(a: seq<real>, x: seq<real>): real
    requires |a| == |x|
    decreases |a|
  {
    if |a| == 0 then 0.0
    else DotR(a[..|a| - 1], x[..|x| - 1]) + a[|a| - 1] * x[|x| - 1]
  }

  /** Σ_j row[j]·x[j]: the left-hand side of the equation the row stands for. */
  ghost function Dot(row: Row, x: seq<real>): real
    requires |row| == |x|
  {
    DotR(Vals(row), x)
  }

  /** x solves every equation of m. */
  ghost predicate Solves(m: Mat, x: seq<real>)
  {
    forall k :: 0 <= k < |m| ==> |m[k]| == |x| && Dot(m[k], x) == 0.0
  }

  /** The two systems have the same solutions among vectors of cols unknowns. */
  ghost predicate SameSolutions(a: Mat, b: Mat, cols: nat)
  {
    forall x: seq<real> :: |x| == cols ==> (Solves(a, x) <==> Solves(b, x))
  }

  /** b − f·c entrywise. */
  function SubR(b: seq<real>, f: real, c: seq<real>): (a: seq<real>)
    requires |b| == |c|
    ensures |a| == |b| && forall j :: 0 <= j < |b| ==> a[j] == b[j] - f * c[j]
  {
    seq(|b|, j requires 0 <= j < |b| => b[j] - f * c[j])
  }

  /** q·b entrywise. */
  function ScaleR(b: seq<real>, q: real): (a: seq<real>)
    ensures |a| == |b| && forall j :: 0 <= j < |b| ==> a[j] == q * b[j]
  {
    seq(|b|, j requires 0 <= j < |b| => q * b[j])
  }

  // ---------------------------------------------------------------------------
  // Linearity of the product

  /** (b − f·c)·x = b·x − f·(c·x) */
  lemma {:induction false} DotSub(b: seq<real>, f: real, c: seq<real>, x: seq<real>)
    requires |b| == |c| == |x|
    ensures DotR(SubR(b, f, c), x) == DotR(b, x) - f * DotR(c, x)
    decreases |b|
  {
    if |b| > 0 {
      var n := |b| - 1;
      SubRPrefix(b, f, c, n);
      DotSub(b[..n], f, c[..n], x[..n]);
      LinearStep(SubR(b, f, c)[n], b[n], c[n], f, x[n]);
      Distribute(f, DotR(c[..n], x[..n]), c[n] * x[n]);
    }
  }

  lemma {:induction false} RowDotOfSub(s: Row, row: Row, v: real, prow: Row, x: seq<real>)
    requires |row| == |prow| == |x| && Vals(s) == SubR(Vals(row), v, Vals(prow))
    ensures |s| == |x| && Dot(s, x) == Dot(row, x) - v * Dot(prow, x)
  {
    DotSub(Vals(row), v, Vals(prow), x);
  }

  lemma {:induction false} ZeroMultiple(u: real, v: real, w: real, d: real)
    requires w == 0.0 && d == u - v * w
    ensures d == u
  {
  }

  lemma {:induction false} SubRPrefix(b: seq<real>, f: real, c: seq<real>, n: nat)
    requires |b| == |c| && n <= |b|
    ensures SubR(b, f, c)[..n] == SubR(b[..n], f, c[..n])
  {
    var u := SubR(b, f, c)[..n];
    var v := SubR(b[..n], f, c[..n]);
    forall j | 0 <= j < n
      ensures u[j] == v[j]
    {
    }
  }

  lemma {:induction false} ScaleRPrefix(b: seq<real>, q: real, n: nat)
    requires n <= |b|
    ensures ScaleR(b, q)[..n] == ScaleR(b[..n], q)
  {
    var u := ScaleR(b, q)[..n];
    var v := ScaleR(b[..n], q);
    forall j | 0 <= j < n
      ensures u[j] == v[j]
    {
    }
  }

  lemma {:induction false} LinearStep(a: real, b: real, c: real, f: real, x: real)
    requires a == b - f * c
    ensures a * x == b * x - f * (c * x)
  {
  }

  lemma {:induction false} Distribute(f: real, u: real, v: real)
    ensures f * (u + v) == f * u + f * v
  {
  }

  /** (q·b)·x = q·(b·x) */
  lemma {:induction false} DotScaled(b: seq<real>, q: real, x: seq<real>)
    requires |b| == |x|
    ensures DotR(ScaleR(b, q), x) == q * DotR(b, x)
    decreases |b|
  {
    if |b| > 0 {
      var n := |b| - 1;
      ScaleRPrefix(b, q, n);
      DotScaled(b[..n], q, x[..n]);
      assert (q * b[n]) * x[n] == q * (b[n] * x[n]);
    }
  }

  /** a·(q·x) = q·(a·x) */
  lemma {:induction false} DotScaleVector(a: seq<real>, x: seq<real>, q: real)
    requires |a| == |x|
    ensures DotR(a, ScaleR(x, q)) == q * DotR(a, x)
    decreases |a|
  {
    if |a| > 0 {
      var n := |a| - 1;
      ScaleRPrefix(x, q, n);
      DotScaleVector(a[..n], x[..n], q);
      assert a[n] * (q * x[n]) == q * (a[n] * x[n]);
    }
  }

  /** Changing one unknown changes the product by that unknown's coefficient times the change. */
  lemma {:induction false} DotUpdate(a: seq<real>, x: seq<real>, p: nat, v: real)
    requires |a| == |x| && p < |x|
    ensures DotR(a, x[p := v]) == DotR(a, x) + a[p] * (v - x[p])
    decreases |a|
  {
    var n := |a| - 1;
    var y := x[p := v];
    if p < n {
      assert y[..n] == x[..n][p := v];
      DotUpdate(a[..n], x[..n], p, v);
    } else {
      assert y[..n] == x[..n];
    }
  }

  /** A vector whose only possibly non-zero entry is at p gives a[p]·x[p]. */
  lemma {:induction false} DotSingle(a: seq<real>, x: seq<real>, p: nat)
    requires |a| == |x| && p < |a|
    requires forall j :: 0 <= j < |a| && j != p ==> a[j] == 0.0
    ensures DotR(a, x) == a[p] * x[p]
    decreases |a|
  {
    var n := |a| - 1;
    if p < n {
      DotSingle(a[..n], x[..n], p);
    } else {
      DotZero(a[..n], x[..n]);
    }
  }

  lemma {:induction false} DotZero(a: seq<real>, x: seq<real>)
    requires |a| == |x|
    requires forall j :: 0 <= j < |a| ==> a[j] == 0.0
    ensures DotR(a, x) == 0.0
    decreases |a|
  {
    if |a| > 0 {
      DotZero(a[..|a| - 1], x[..|x| - 1]);
    }
  }

  // ---------------------------------------------------------------------------
  // Row operations

  /** `R[r][j] = R[r][j].div(pivot)` for every column j. */
  function ScaleRow(row: Row, p: NFrac): (r: Row)
    requires Val(p) != 0.0
    ensures |r| == |row|
    ensures forall j :: 0 <= j < |row| ==> Val(r[j]) == Val(row[j]) / Val(p)
  {
    seq(|row|, j requires 0 <= j < |row| => Div(row[j], p).value)
  }

  /** The values of a scaled row are those of the row times 1/pivot. */
  lemma {:induction false} ScaleRowVals(row: Row, p: NFrac)
    requires Val(p) != 0.0
    ensures Vals(ScaleRow(row, p)) == ScaleR(Vals(row), 1.0 / Val(p))
  {
    var s := ScaleRow(row, p);
    forall j | 0 <= j < |row|
      ensures Vals(s)[j] == ScaleR(Vals(row), 1.0 / Val(p))[j]
    {
      DivIsMul(Val(row[j]), Val(p), Val(s[j]));
    }
  }

  lemma {:induction false} DivIsMul(a: real, p: real, v: real)
    requires p != 0.0 && v == a / p
    ensures v == (1.0 / p) * a
  {
  }

  /** `a.sub(f.mul(b))`: one entry of a row less f times the pivot row. */
  function SubMul(a: NFrac, f: NFrac, b: NFrac): (r: NFrac)
    ensures Val(r) == Val(a) - Val(f) * Val(b)
  {
    var m := Mul(f, b);
    Sub(a, m)
  }

  /** `R[i2][j] = R[i2][j].sub(factor.mul(R[r][j]))` for every column j. */
  function SubRow(row: Row, f: NFrac, prow: Row): (r: Row)
    requires |prow| == |row|
    ensures |r| == |row|
    ensures forall j :: 0 <= j < |row| ==> Val(r[j]) == Val(row[j]) - Val(f) * Val(prow[j])
  {
    seq(|row|, j requires 0 <= j < |row| => SubMul(row[j], f, prow[j]))
  }

  /** A row whose entries are those of row less f times prow has the values SubR describes. */
  lemma {:induction false} SubtractedVals(s: Row, row: Row, f: NFrac, prow: Row)
    requires |row| == |prow| == |s|
    requires forall j :: 0 <= j < |row| ==> Val(s[j]) == Val(row[j]) - Val(f) * Val(prow[j])
    ensures Vals(s) == SubR(Vals(row), Val(f), Vals(prow))
  {
    var a := Vals(s);
    var b := SubR(Vals(row), Val(f), Vals(prow));
    forall j | 0 <= j < |row|
      ensures a[j] == b[j]
    {
    }
  }

  /** The exchange of rows i and j. */
  function Swap(m: Mat, i: nat, j: nat): (r: Mat)
    requires i < |m| && j < |m|
    ensures |r| == |m| && r[i] == m[j] && r[j] == m[i]
    ensures forall k :: 0 <= k < |m| && k != i && k != j ==> r[k] == m[k]
  {
    m[i := m[j]][j := m[i]]
  }

  /** Row r divided by its entry in column lead. */
  function ScaleAt(m: Mat, r: nat, lead: nat): (s: Mat)
    requires r < |m| && lead < |m[r]| && Val(m[r][lead]) != 0.0
    ensures |s| == |m| && forall k :: 0 <= k < |m| && k != r ==> s[k] == m[k]
  {
    m[r := ScaleRow(m[r], m[r][lead])]
  }

  /** Every other row with a non-zero entry in column lead loses that multiple of row r. */
  function EliminateAt(m: Mat, cols: nat, r: nat, lead: nat): (e: Mat)
    requires Rect(m, cols) && r < |m| && lead < cols
    ensures |e| == |m| && e[r] == m[r]
  {
    seq(|m|, k requires 0 <= k < |m| =>
      if k == r || IsZero(m[k][lead]) then m[k] else SubRow(m[k], m[k][lead], m[r]))
  }

  // ---------------------------------------------------------------------------
  // Each row operation keeps the solutions

  lemma {:induction false} SameSolutionsTrans(a: Mat, b: Mat, c: Mat, cols: nat)
    requires SameSolutions(a, b, cols) && SameSolutions(b, c, cols)
    ensures SameSolutions(a, c, cols)
  {
  }

  /** Exchanging two rows reorders the equations only. */
  lemma {:induction false} SwapKeepsSolutions(m: Mat, i: nat, j: nat, cols: nat)
    requires i < |m| && j < |m|
    ensures SameSolutions(m, Swap(m, i, j), cols)
  {
    var s := Swap(m, i, j);
    forall x: seq<real> | |x| == cols && Solves(s, x)
      ensures Solves(m, x)
    {
      forall k | 0 <= k < |m|
        ensures |m[k]| == |x| && Dot(m[k], x) == 0.0
      {
        if k == i {
          assert m[k] == s[j];
        } else if k == j {
          assert m[k] == s[i];
        } else {
          assert m[k] == s[k];
        }
      }
    }
    forall x: seq<real> | |x| == cols && Solves(m, x)
      ensures Solves(s, x)
    {
      forall k | 0 <= k < |s|
        ensures |s[k]| == |x| && Dot(s[k], x) == 0.0
      {
        if k == i {
          assert s[k] == m[j];
        } else if k == j {
          assert s[k] == m[i];
        } else {
          assert s[k] == m[k];
        }
      }
    }
  }

  /** Two systems whose equations are pairwise equivalent have the same solutions. */
  lemma {:induction false} RowwiseSame(a: Mat, b: Mat, cols: nat)
    requires |a| == |b| && Rect(a, cols) && Rect(b, cols)
    requires forall k, x :: 0 <= k < |a| && |x| == cols ==> (Dot(a[k], x) == 0.0 <==> Dot(b[k], x) == 0.0)
    ensures SameSolutions(a, b, cols)
  {
  }

  /** Dividing an equation by a non-zero number does not change its solutions. */
  lemma {:induction false} ScaleKeepsSolutions(m: Mat, cols: nat, r: nat, lead: nat)
    requires Rect(m, cols) && r < |m| && lead < cols && Val(m[r][lead]) != 0.0
    ensures SameSolutions(m, ScaleAt(m, r, lead), cols)
  {
    var s := ScaleAt(m, r, lead);
    forall k, x | 0 <= k < |m| && |x| == cols
      ensures Dot(m[k], x) == 0.0 <==> Dot(s[k], x) == 0.0
    {
      if k == r {
        ScaledRowDot(m[r], m[r][lead], x);
      }
    }
    RowwiseSame(m, s, cols);
  }

  lemma {:induction false} ScaledRowDot(row: Row, p: NFrac, x: seq<real>)
    requires Val(p) != 0.0 && |row| == |x|
    ensures Dot(ScaleRow(row, p), x) == 0.0 <==> Dot(row, x) == 0.0
  {
    ScaleRowVals(row, p);
    ScaledZeroIff(Vals(row), 1.0 / Val(p), x);
  }

  /** Scaling by a non-zero number keeps a product zero or non-zero. */
  lemma {:induction false} ScaledZeroIff(a: seq<real>, q: real, x: seq<real>)
    requires |a| == |x| && q != 0.0
    ensures DotR(ScaleR(a, q), x) == 0.0 <==> DotR(a, x) == 0.0
  {
    DotScaled(a, q, x);
    MulZeroIff(q, DotR(a, x));
  }

  lemma {:induction false} MulZeroIff(q: real, v: real)
    requires q != 0.0
    ensures q * v == 0.0 <==> v == 0.0
  {
  }

  /** Subtracting a multiple of one equation from the others does not change the solutions. */
  lemma {:induction false} EliminateKeepsSolutions(m: Mat, cols: nat, r: nat, lead: nat)
    requires Rect(m, cols) && r < |m| && lead < cols
    ensures SameSolutions(m, EliminateAt(m, cols, r, lead), cols)
  {
    var e := EliminateAt(m, cols, r, lead);
    forall x: seq<real> | |x| == cols && (Solves(m, x) || Solves(e, x))
      ensures Solves(m, x) && Solves(e, x)
    {
      assert m[r] == e[r];
      forall k | 0 <= k < |m|
        ensures |e[k]| == cols && Dot(e[k], x) == Dot(m[k], x)
      {
        EliminatedRowDot(m, cols, r, lead, k, x);
      }
    }
  }

  lemma {:induction false} SubRowDot(row: Row, f: NFrac, prow: Row, x: seq<real>)
    requires |row| == |prow| == |x|
    ensures Dot(SubRow(row, f, prow), x) == Dot(row, x) - Val(f) * Dot(prow, x)
  {
    SubtractedDot(SubRow(row, f, prow), row, f, prow, x);
  }

  lemma {:induction false} SubtractedDot(s: Row, row: Row, f: NFrac, prow: Row, x: seq<real>)
    requires |row| == |prow| == |x| && |s| == |row|
    requires forall j :: 0 <= j < |row| ==> Val(s[j]) == Val(row[j]) - Val(f) * Val(prow[j])
    ensures Dot(s, x) == Dot(row, x) - Val(f) * Dot(prow, x)
  {
    SubtractedVals(s, row, f, prow);
    RowDotOfSub(s, row, Val(f), prow, x);
  }

  /** Where the pivot equation holds, every eliminated equation has its old left-hand side. */
  lemma {:induction false} EliminatedRowDot(m: Mat, cols: nat, r: nat, lead: nat, k: nat, x: seq<real>)
    requires Rect(m, cols) && r < |m| && lead < cols && k < |m| && |x| == cols
    requires Dot(m[r], x) == 0.0
    ensures |EliminateAt(m, cols, r, lead)[k]| == cols
    ensures Dot(EliminateAt(m, cols, r, lead)[k], x) == Dot(m[k], x)
  {
    var f := m[k][lead];
    var row := EliminateAt(m, cols, r, lead)[k];
    if k != r && !IsZero(f) {
      assert row == SubRow(m[k], f, m[r]);
      SubRowDot(m[k], f, m[r], x);
      ZeroMultiple(Dot(m[k], x), Val(f), Dot(m[r], x), Dot(row, x));
    }
  }
}

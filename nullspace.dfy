/**
 * nullspaceVector (components/tools/EquationBalancer.tsx:313-359): one non-zero integer solution
 * of the homogeneous system A·x = 0.
 *
 * The matrix is reduced with rref; the last column that is not a pivot column is the free
 * variable and is set to 1, every other free variable to 0, and each pivot row then determines
 * its pivot variable by back substitution. The rational solution is scaled by the lcm of its
 * denominators, its sign is flipped when no entry is positive, and the integers are divided by
 * their gcd.
 */
module Nullspace {
  import opened Wrappers
  import opened NumberTheory
  import opened Fractions
  import opened Matrix
  import opened RowReduction

  datatype NullspaceError =
    | /** "Empty matrix." */ EmptyMatrix
    | /** "No free variable; equation may be overconstrained." */ NoFreeVariable

  /** Every solution with cols unknowns is zero. */
  ghost predicate OnlyTrivial(m: Mat, cols: nat)
  {
    forall y: seq<real> :: |y| == cols && Solves(m, y) ==> forall j :: 0 <= j < cols ==> y[j] == 0.0
  }

  /** g is a positive divisor of every entry. */
  predicate CommonDivisor(g: int, v: seq<int>)
  {
    g > 0 && forall k :: 0 <= k < |v| ==> Divides(g, v[k])
  }

  /** The entries have no common divisor other than 1. */
  ghost predicate Primitive(v: seq<int>)
  {
    forall g :: CommonDivisor(g, v) ==> g == 1
  }

  /** The numerators of a vector of fractions. */
  function Nums(xs: seq<NFrac>): (v: seq<int>)
    ensures |v| == |xs| && forall k :: 0 <= k < |xs| ==> v[k] == xs[k].n
  {
    seq(|xs|, k requires 0 <= k < |xs| => xs[k].n)
  }

  // ---------------------------------------------------------------------------
  // Free columns and pivot rows

  /** `for (c …) if (!piv.has(c)) freeCols.push(c)`: the non-pivot columns in increasing order. */
  method FreeColumns(piv: seq<nat>, cols: nat) returns (free: seq<nat>)
    ensures forall c: nat :: c in free <==> c < cols && c !in piv
    ensures forall i, j :: 0 <= i < j < |free| ==> free[i] < free[j]
  {
    free := [];
    var c := 0;
    while c < cols
      invariant c <= cols
      invariant forall c': nat :: c' in free <==> c' < c && c' !in piv
      invariant forall i, j :: 0 <= i < j < |free| ==> free[i] < free[j]
      invariant forall i :: 0 <= i < |free| ==> free[i] < c
    {
      if c !in piv {
        free := free + [c];
      }
      c := c + 1;
    }
  }

  /** The last of an increasing list of the non-pivot columns is the largest of them. */
  lemma {:induction false} LastFreeIsLargest(free: seq<nat>, piv: seq<nat>, cols: nat)
    requires |free| > 0
    requires forall c: nat :: c in free <==> c < cols && c !in piv
    requires forall i, j :: 0 <= i < j < |free| ==> free[i] < free[j]
    ensures free[|free| - 1] < cols && free[|free| - 1] !in piv
    ensures forall c: nat :: free[|free| - 1] < c < cols ==> c in piv
  {
    var last := free[|free| - 1];
    assert last in free;
    forall c: nat | last < c < cols
      ensures c in piv
    {
      if c !in piv {
        assert c in free;
        var i :| 0 <= i < |free| && free[i] == c;
        assert false;
      }
    }
  }

  /** The largest column below n that is not a pivot column, or -1 when every one of them is. */
  function LastFreeBelow(piv: seq<nat>, n: nat): (f: int)
    ensures f == -1 ==> forall c: nat :: c < n ==> c in piv
    ensures f != -1 ==> 0 <= f < n && f !in piv && forall c: nat :: f < c < n ==> c in piv
  {
    if n == 0 then -1
    else if n - 1 !in piv then n - 1
    else LastFreeBelow(piv, n - 1)
  }

  /**
   * v is the solution the back substitution picks for the pivot columns piv: with f the last
   * non-pivot column, v is positive at f and zero at every other non-pivot column.
   */
  predicate LastFreeChosen(piv: seq<nat>, v: seq<int>)
  {
    var f := LastFreeBelow(piv, |v|);
    f != -1 && v[f] > 0 && forall c :: 0 <= c < |v| && c !in piv && c != f ==> v[c] == 0
  }

  /**
   * v is the choice of nullspaceVector for A: for the reduced row echelon form R of A (which is
   * unique) and its pivot columns, the last free variable is positive and the others are 0.
   */
  ghost predicate PrefersLastFree(A: Mat, v: seq<int>)
  {
    exists R: Mat, piv: seq<nat> ::
      ReducedEchelon(R, |v|, piv) && SameSolutions(A, R, |v|) && LastFreeChosen(piv, v)
  }

  /** The last of the increasing non-pivot columns is the one LastFreeBelow finds. */
  lemma {:induction false} LastFreeIsLastBelow(free: seq<nat>, piv: seq<nat>, cols: nat)
    requires |free| > 0
    requires forall c: nat :: c in free <==> c < cols && c !in piv
    requires forall i, j :: 0 <= i < j < |free| ==> free[i] < free[j]
    ensures LastFreeBelow(piv, cols) == free[|free| - 1]
  {
    LastFreeIsLargest(free, piv, cols);
  }

  /** `row.findIndex((v) => v.eq(Frac.one()))`, searching from column j; -1 when there is none. */
  function FirstOneFrom(row: Row, j: nat): (p: int)
    decreases |row| - j
    ensures p == -1 || (j <= p < |row| && Val(row[p]) == 1.0)
    ensures forall c :: j <= c < |row| && (p == -1 || c < p) ==> Val(row[c]) != 1.0
  {
    if j >= |row| then -1
    else if Eq(row[j], One()) then j
    else FirstOneFrom(row, j + 1)
  }

  /** In reduced echelon form, the first entry equal to 1 of a row is its pivot; zero rows have none. */
  lemma {:induction false} PivotIsFirstOne(m: Mat, cols: nat, piv: seq<nat>, k: nat)
    requires ReducedEchelon(m, cols, piv) && k < |m|
    ensures FirstOneFrom(m[k], 0) == if k < |piv| then piv[k] else -1
  {
    if k < |piv| {
      assert Val(m[k][piv[k]]) == 1.0;
      assert forall c :: 0 <= c < piv[k] ==> Val(m[k][c]) == 0.0;
    } else {
      assert forall c :: 0 <= c < |m[k]| ==> Val(m[k][c]) == 0.0;
    }
  }

  // ---------------------------------------------------------------------------
  // Back substitution

  lemma {:induction false} PrefixStep(a: seq<real>, y: seq<real>, c: nat, s: real, t: real)
    requires |a| == |y| && c < |a| && s == DotR(a[..c], y[..c]) && t == a[c] * y[c]
    ensures s + t == DotR(a[..c + 1], y[..c + 1])
  {
    assert a[..c + 1][..c] == a[..c];
    assert y[..c + 1][..c] == y[..c];
  }

  lemma {:induction false} PrefixSkip(a: seq<real>, y: seq<real>, c: nat, s: real)
    requires |a| == |y| && c < |a| && s == DotR(a[..c], y[..c]) && (a[c] == 0.0 || y[c] == 0.0)
    ensures s == DotR(a[..c + 1], y[..c + 1])
  {
    PrefixStep(a, y, c, s, 0.0);
  }

  lemma {:induction false} ProductStep(a: seq<real>, y: seq<real>, c: nat, u: real, w: real, t: real)
    requires |a| == |y| && c < |a| && a[c] == u && y[c] == w && t == u * w
    ensures t == a[c] * y[c]
  {
  }

  lemma {:induction false} AddStep(a: seq<real>, y: seq<real>, c: nat, s: real, u: real, w: real, t: real, r: real)
    requires |a| == |y| && c < |a| && s == DotR(a[..c], y[..c])
    requires a[c] == u && y[c] == w && t == u * w && r == s + t
    ensures r == DotR(a[..c + 1], y[..c + 1])
  {
    PrefixStep(a, y, c, s, t);
  }

  /** Adding the fraction x·z for entry c extends the product by one term. */
  lemma {:induction false} AddProductStep(a: seq<real>, y: seq<real>, c: nat, sum: NFrac, x: NFrac, z: NFrac)
    requires |a| == |y| && c < |a| && Val(sum) == DotR(a[..c], y[..c])
    requires a[c] == Val(x) && y[c] == Val(z)
    ensures Val(Add(sum, Mul(x, z))) == DotR(a[..c + 1], y[..c + 1])
  {
    MulAddVal(sum, x, z);
    AddStep(a, y, c, Val(sum), Val(x), Val(z), Val(Mul(x, z)), Val(Add(sum, Mul(x, z))));
  }

  lemma {:induction false} MulAddVal(s: NFrac, x: NFrac, z: NFrac)
    ensures Val(Mul(x, z)) == Val(x) * Val(z)
    ensures Val(Add(s, Mul(x, z))) == Val(s) + Val(Mul(x, z))
  {
  }

  /** A pass of the loop below that adds row[c]·xs[c] keeps the sum equal to the product so far. */
  lemma {:induction false} SumStep(row: Row, xs: seq<NFrac>, p: nat, c: nat, sum: NFrac, a: seq<real>, y: seq<real>)
    requires |row| == |xs| && p < |row| && c < |row| && c != p
    requires a == Vals(row) && y == Vals(xs)[p := 0.0]
    requires Val(sum) == DotR(a[..c], y[..c])
    ensures Val(Add(sum, Mul(row[c], xs[c]))) == DotR(a[..c + 1], y[..c + 1])
  {
    AddProductStep(a, y, c, sum, row[c], xs[c]);
  }

  /** A pass that skips column c (the pivot, or a zero entry) keeps the sum equal to the product so far. */
  lemma {:induction false} SkipStep(row: Row, xs: seq<NFrac>, p: nat, c: nat, sum: NFrac, a: seq<real>, y: seq<real>)
    requires |row| == |xs| && p < |row| && c < |row| && (c == p || Val(row[c]) == 0.0)
    requires a == Vals(row) && y == Vals(xs)[p := 0.0]
    requires Val(sum) == DotR(a[..c], y[..c])
    ensures Val(sum) == DotR(a[..c + 1], y[..c + 1])
  {
    PrefixSkip(a, y, c, Val(sum));
  }

  /** The loop over c != p: Σ_{c ≠ p} row[c]·xs[c], skipping zero entries. */
  method SumOthers(row: Row, xs: seq<NFrac>, p: nat) returns (sum: NFrac)
    requires |row| == |xs| && p < |row|
    ensures Val(sum) == DotR(Vals(row), Vals(xs)[p := 0.0])
  {
    ghost var a := Vals(row);
    ghost var y := Vals(xs)[p := 0.0];
    sum := Zero();
    var c := 0;
    while c < |row|
      invariant c <= |row|
      invariant Val(sum) == DotR(a[..c], y[..c])
    {
      if c != p && !IsZero(row[c]) {
        SumStep(row, xs, p, c, sum, a, y);
        sum := Add(sum, Mul(row[c], xs[c]));
      } else {
        SkipStep(row, xs, p, c, sum, a, y);
      }
      c := c + 1;
    }
    assert a[..c] == a && y[..c] == y;
  }

  /** Setting the pivot variable to minus the sum of the other terms solves the row. */
  lemma {:induction false} BackSubstituted(a: seq<real>, y: seq<real>, p: nat, s: real)
    requires |a| == |y| && p < |a| && a[p] == 1.0 && s == DotR(a, y[p := 0.0])
    ensures DotR(a, y[p := -s]) == 0.0
  {
    DotUpdate(a, y[p := 0.0], p, -s);
    assert y[p := 0.0][p := -s] == y[p := -s];
  }

  /** A row with a zero coefficient at p does not see a change of unknown p. */
  lemma {:induction false} Unaffected(a: seq<real>, y: seq<real>, p: nat, v: real)
    requires |a| == |y| && p < |a| && a[p] == 0.0
    ensures DotR(a, y[p := v]) == DotR(a, y)
  {
    DotUpdate(a, y, p, v);
  }

  lemma {:induction false} ValsUpdate(xs: seq<NFrac>, p: nat, f: NFrac)
    requires p < |xs|
    ensures Vals(xs[p := f]) == Vals(xs)[p := Val(f)]
  {
  }

  /** A row of zeros is solved by every vector. */
  lemma {:induction false} ZeroRowSolved(row: Row, y: seq<real>)
    requires |row| == |y| && forall j :: 0 <= j < |row| ==> Val(row[j]) == 0.0
    ensures Dot(row, y) == 0.0
  {
    DotZero(Vals(row), y);
  }

  /** Pivot column piv[r] is the r-th unit vector, and it is not the free column. */
  lemma {:induction false} PivotColumn(R: Mat, cols: nat, piv: seq<nat>, r: nat, free: nat)
    requires ReducedEchelon(R, cols, piv) && r < |piv| && free !in piv
    ensures Rect(R, cols) && r < |R| && piv[r] < cols && piv[r] != free
    ensures Val(R[r][piv[r]]) == 1.0
    ensures forall k :: 0 <= k < |R| && k != r ==> Val(R[k][piv[r]]) == 0.0
  {
    assert piv[r] in piv;
  }

  /** The pivot row itself is solved once its pivot unknown takes minus the other terms. */
  lemma {:induction false} SolvedRow(row: Row, xs: seq<NFrac>, p: nat, sum: NFrac)
    requires |row| == |xs| && p < |row| && Val(row[p]) == 1.0
    requires Val(sum) == DotR(Vals(row), Vals(xs)[p := 0.0])
    ensures Dot(row, Vals(xs[p := Neg(sum)])) == 0.0
  {
    ValsUpdate(xs, p, Neg(sum));
    BackSubstituted(Vals(row), Vals(xs), p, Val(sum));
  }

  /** A solved row with a zero in column p stays solved whatever unknown p becomes. */
  lemma {:induction false} KeptRow(row: Row, xs: seq<NFrac>, p: nat, v: NFrac)
    requires |row| == |xs| && p < |row| && Val(row[p]) == 0.0 && Dot(row, Vals(xs)) == 0.0
    ensures Dot(row, Vals(xs[p := v])) == 0.0
  {
    ValsUpdate(xs, p, v);
    Unaffected(Vals(row), Vals(xs), p, Val(v));
  }

  /** Back substitution through pivot row r keeps rows 0..r solved and x[free] = 1. */
  lemma {:induction false} PivotRowStep(R: Mat, cols: nat, xs: seq<NFrac>, r: nat, p: nat, free: nat, sum: NFrac)
    requires Rect(R, cols) && |xs| == cols && r < |R| && p < cols && free < cols && p != free
    requires Val(R[r][p]) == 1.0 && forall k :: 0 <= k < r ==> Val(R[k][p]) == 0.0
    requires xs[free] == One()
    requires forall k :: 0 <= k < r ==> Dot(R[k], Vals(xs)) == 0.0
    requires Val(sum) == DotR(Vals(R[r]), Vals(xs)[p := 0.0])
    ensures xs[p := Neg(sum)][free] == One()
    ensures forall k :: 0 <= k <= r ==> Dot(R[k], Vals(xs[p := Neg(sum)])) == 0.0
  {
    SolvedRow(R[r], xs, p, sum);
    forall k | 0 <= k < r
      ensures Dot(R[k], Vals(xs[p := Neg(sum)])) == 0.0
    {
      KeptRow(R[k], xs, p, Neg(sum));
    }
  }

  /** A row after the pivot rows is zero, so it is solved whatever x is. */
  lemma {:induction false} ZeroRowStep(R: Mat, cols: nat, piv: seq<nat>, xs: seq<NFrac>, r: nat)
    requires ReducedEchelon(R, cols, piv) && |xs| == cols && |piv| <= r < |R|
    requires forall k :: 0 <= k < r ==> Dot(R[k], Vals(xs)) == 0.0
    ensures forall k :: 0 <= k <= r ==> Dot(R[k], Vals(xs)) == 0.0
  {
    assert |R[r]| == cols;
    ZeroRowSolved(R[r], Vals(xs));
  }

  /**
   * The back-substitution loop: with x[free] = 1 and the other free variables 0, each pivot row r
   * sets x[p] = −Σ_{j ≠ p} R[r][j]·x[j] for its pivot column p. The result solves every row.
   */
  method SolveReduced(R: Mat, cols: nat, piv: seq<nat>, free: nat) returns (xs: seq<NFrac>)
    requires ReducedEchelon(R, cols, piv) && free < cols && free !in piv
    ensures |xs| == cols && xs[free] == One()
    ensures forall c :: 0 <= c < cols && c !in piv && c != free ==> xs[c] == Zero()
    ensures Solves(R, Vals(xs))
  {
    var x := new NFrac[cols](_ => Zero());
    x[free] := One();
    var r := 0;
    while r < |R|
      invariant r <= |R| && x.Length == cols
      invariant x[free] == One()
      invariant forall c :: 0 <= c < cols && c !in piv && c != free ==> x[c] == Zero()
      invariant forall k :: 0 <= k < r ==> Dot(R[k], Vals(x[..])) == 0.0
    {
      var p := FirstOneFrom(R[r], 0);
      PivotIsFirstOne(R, cols, piv, r);
      if p != -1 {
        PivotColumn(R, cols, piv, r, free);
        assert p in piv;
        var sum := SumOthers(R[r], x[..], p);
        PivotRowStep(R, cols, x[..], r, p, free, sum);
        ghost var before := x[..];
        x[p] := Neg(sum);
        assert x[..] == before[p := Neg(sum)];
      } else {
        ZeroRowStep(R, cols, piv, x[..], r);
      }
      r := r + 1;
    }
    xs := x[..];
  }

  // ---------------------------------------------------------------------------
  // Scaling to integers

  /** The denominators of a vector of fractions. */
  function Dens(xs: seq<NFrac>): (ds: seq<int>)
    ensures |ds| == |xs| && forall k :: 0 <= k < |xs| ==> ds[k] == xs[k].d && ds[k] > 0
  {
    seq(|xs|, k requires 0 <= k < |xs| => xs[k].d)
  }

  /** `for (const xi of x) lcm = bigLcm(lcm, xi.d)` from lcm = 1. */
  function LcmOf(ds: seq<int>): (l: int)
    ensures (forall k :: 0 <= k < |ds| ==> ds[k] > 0) ==>
      l > 0 && forall k :: 0 <= k < |ds| ==> Divides(ds[k], l)
  {
    if |ds| == 0 then 1
    else
      var l0 := LcmOf(ds[..|ds| - 1]);
      var l := Lcm(l0, ds[|ds| - 1]);
      if forall k :: 0 <= k < |ds| ==> ds[k] > 0 then
        assert forall k :: 0 <= k < |ds| - 1 ==> ds[..|ds| - 1][k] == ds[k];
        forall k | 0 <= k < |ds| - 1
          ensures Divides(ds[k], l)
        {
          DividesTrans(ds[k], l0, l);
        }
        l
      else l
  }

  /** The lcm divides every positive common multiple. */
  lemma {:induction false} LcmOfLeast(ds: seq<int>, m: int)
    requires forall k :: 0 <= k < |ds| ==> ds[k] > 0
    requires m > 0 && forall k :: 0 <= k < |ds| ==> Divides(ds[k], m)
    ensures Divides(LcmOf(ds), m)
  {
    if |ds| > 0 {
      var init := ds[..|ds| - 1];
      assert forall k :: 0 <= k < |init| ==> init[k] == ds[k];
      LcmOfLeast(init, m);
      LcmLeast(LcmOf(init), ds[|ds| - 1], m);
    }
  }

  /** n·(L/d) as a real is L times n/d when d divides L. */
  lemma {:induction false} ScaledEntry(n: int, d: int, q: int, l: int)
    requires d > 0 && q * d == l
    ensures (n * q) as real == l as real * (n as real / d as real)
  {
    assert (n * q) as real * d as real == (n * q * d) as real;
    assert l as real * n as real == (n * q * d) as real;
  }

  /** One entry of lcm·x: n·(L/d) is L·(n/d) when d divides L. */
  lemma {:induction false} ScaledAt(x: NFrac, l: int)
    requires Divides(x.d, l)
    ensures (x.n * TDiv(l, x.d)) as real == l as real * Val(x)
  {
    assert Abs(x.d) == x.d && Divides(Abs(x.d), Abs(l)) by {
      DividesAbs(x.d, l);
    }
    ScaledEntry(x.n, x.d, TDiv(l, x.d), l);
  }

  /** lcm·x entry by entry. */
  lemma {:induction false} ScaledAll(xs: seq<NFrac>, l: int, ints: seq<int>)
    requires l == LcmOf(Dens(xs)) && |ints| == |xs|
    requires forall i :: 0 <= i < |xs| ==> ints[i] == xs[i].n * TDiv(l, xs[i].d)
    ensures Reals(ints) == ScaleR(Vals(xs), l as real)
  {
    var ds := Dens(xs);
    forall i | 0 <= i < |xs|
      ensures Reals(ints)[i] == ScaleR(Vals(xs), l as real)[i]
    {
      assert Divides(ds[i], l);
      ScaledIndex(xs, l, ints, i);
    }
  }

  lemma {:induction false} ScaledIndex(xs: seq<NFrac>, l: int, ints: seq<int>, i: nat)
    requires i < |xs| == |ints| && Divides(xs[i].d, l) && ints[i] == xs[i].n * TDiv(l, xs[i].d)
    ensures Reals(ints)[i] == ScaleR(Vals(xs), l as real)[i]
  {
    ScaledAt(xs[i], l);
  }

  /** The quotient L/G is a multiple of d when G divides n·(L/d) and L, and n, d are coprime. */
  lemma {:induction false} QuotientMultiple(n: int, d: int, q: int, l: int, g: int)
    requires d > 0 && q > 0 && l == d * q && Gcd(Abs(n), d) == 1
    requires Divides(g, n * q) && Divides(g, l)
    ensures l / g > 0 && Divides(d, l / g)
  {
    DividesAbs(g, n * q);
    AbsMul(n, q);
    assert Abs(q) == q;
    assert Divides(g, d * q);
    CoprimeCancel(g, Abs(n), d, q);
    DividesWitness(g, q);
    var w := q / g;
    assert l == g * (d * w);
    DividesByWitness(g, l, d * w);
    DividesByWitness(d, l / g, w);
  }

  /**
   * Scaled by the lcm of the denominators, a vector with an entry equal to 1 has integer entries
   * with no common divisor: every common divisor G divides the lcm, and lcm/G is again a common
   * multiple of the denominators, so the lcm divides lcm/G and G is 1.
   */
  lemma {:induction false} ScaledPrimitive(xs: seq<NFrac>, f: nat, ints: seq<int>, l: int)
    requires f < |xs| && xs[f] == One() && l == LcmOf(Dens(xs)) && |ints| == |xs|
    requires forall k :: 0 <= k < |xs| ==> ints[k] == xs[k].n * TDiv(l, xs[k].d)
    ensures Primitive(ints)
  {
    var ds := Dens(xs);
    forall g | CommonDivisor(g, ints)
      ensures g == 1
    {
      assert TDiv(l, 1) == l;
      assert Divides(g, ints[f]) && ints[f] == l;
      forall k | 0 <= k < |xs|
        ensures Divides(ds[k], l / g)
      {
        var q := TDiv(l, xs[k].d);
        assert Divides(ds[k], l);
        assert q * xs[k].d == l;
        PositiveFactor(q, xs[k].d, l);
        QuotientMultiple(xs[k].n, xs[k].d, q, l, g);
      }
      QuotientMultiple(1, 1, l, l, g);
      LcmOfLeast(ds, l / g);
      DividesLe(l, l / g);
      DividedLe(l, g);
    }
  }

  lemma {:induction false} PositiveFactor(q: int, d: int, l: int)
    requires d > 0 && l > 0 && q * d == l
    ensures q > 0 && l == d * q
  {
    if q <= 0 {
      MulNonneg(-q, d);
    }
  }

  lemma {:induction false} DividedLe(l: int, g: int)
    requires l > 0 && g > 0 && l <= l / g
    ensures g == 1
  {
    var q := l / g;
    assert q * g + l % g == l;
    if g > 1 {
      assert q * g >= q * 2 by {
        MulNonneg(q, g - 2);
        assert q * (g - 2) == q * g - q * 2;
      }
      assert false;
    }
  }

  /**
   * The lcm loop and `x.map((xi) => xi.n * (lcm / xi.d))`: the integer vector lcm·x. When some entry
   * is 1 it is positive there and primitive.
   */
  method ScaleToIntegers(xs: seq<NFrac>) returns (ints: seq<int>)
    ensures |ints| == |xs|
    ensures Reals(ints) == ScaleR(Vals(xs), LcmOf(Dens(xs)) as real)
    ensures forall f :: 0 <= f < |xs| && xs[f] == One() ==> ints[f] > 0 && Primitive(ints)
    ensures forall c :: 0 <= c < |xs| && xs[c] == Zero() ==> ints[c] == 0
  {
    ghost var ds := Dens(xs);
    var lcm := 1;
    var k := 0;
    while k < |xs|
      invariant k <= |xs|
      invariant lcm == LcmOf(ds[..k])
    {
      assert ds[..k + 1][..k] == ds[..k];
      lcm := Lcm(lcm, xs[k].d);
      k := k + 1;
    }
    assert ds[..k] == ds;
    ints := seq(|xs|, i requires 0 <= i < |xs| => xs[i].n * TDiv(lcm, xs[i].d));
    ScaledAll(xs, lcm, ints);
    forall f | 0 <= f < |xs| && xs[f] == One()
      ensures ints[f] > 0 && Primitive(ints)
    {
      assert TDiv(lcm, 1) == lcm;
      ScaledPrimitive(xs, f, ints, lcm);
    }
  }

  // ---------------------------------------------------------------------------
  // Sign and gcd

  /** `ints.every((v) => v <= 0n)` */
  predicate AllNonPositive(v: seq<int>)
  {
    forall k :: 0 <= k < |v| ==> v[k] <= 0
  }

  /** `reduce((acc, v) => bigGcd(acc, v), init)`: a positive start gives a positive common divisor. */
  function GcdFold(acc: int, vs: seq<int>): (g: int)
    ensures acc > 0 ==> g > 0 && Divides(g, acc) && CommonDivisor(g, vs)
    decreases |vs|
  {
    if |vs| == 0 then acc
    else
      var a1 := GcdOr1(acc, vs[0]);
      var g := GcdFold(a1, vs[1..]);
      GcdFoldStep(acc, vs, a1, g);
      g
  }

  lemma {:induction false} GcdFoldStep(acc: int, vs: seq<int>, a1: int, g: int)
    requires |vs| > 0 && a1 == GcdOr1(acc, vs[0])
    requires a1 > 0 ==> g > 0 && Divides(g, a1) && CommonDivisor(g, vs[1..])
    ensures acc > 0 ==> g > 0 && Divides(g, acc) && CommonDivisor(g, vs)
  {
    if acc > 0 {
      DividesTrans(g, a1, acc);
      DividesTrans(g, a1, vs[0]);
      forall k | 1 <= k < |vs|
        ensures Divides(g, vs[k])
      {
        assert vs[1..][k - 1] == vs[k];
      }
    }
  }

  /** Every common divisor of a non-zero start and the entries divides the fold: it is their gcd. */
  lemma {:induction false} GcdFoldGreatest(acc: int, vs: seq<int>, h: int)
    requires acc != 0 && Divides(h, acc) && CommonDivisor(h, vs)
    ensures Divides(h, GcdFold(acc, vs))
    decreases |vs|
  {
    if |vs| > 0 {
      var a1 := GcdOr1(acc, vs[0]);
      assert Divides(h, vs[0]);
      assert CommonDivisor(h, vs[1..]) by {
        forall k | 0 <= k < |vs| - 1
          ensures Divides(h, vs[1..][k])
        {
          assert vs[1..][k] == vs[k + 1];
        }
      }
      GcdFoldGreatest(a1, vs[1..], h);
    }
  }

  /** `ints.map((v) => v * (allNeg ? -1n : 1n))`: the vector negated when no entry is positive. */
  function Signed(v: seq<int>): (r: seq<int>)
    ensures |r| == |v|
    ensures AllNonPositive(v) ==> forall k :: 0 <= k < |v| ==> r[k] == -v[k]
    ensures !AllNonPositive(v) ==> r == v
  {
    var s := if AllNonPositive(v) then -1 else 1;
    seq(|v|, k requires 0 <= k < |v| => v[k] * s)
  }

  /** `map((v) => new Frac(v / g, 1n))`: each entry divided by g, as a fraction with denominator 1. */
  function Divided(v: seq<int>, g: int): (r: seq<NFrac>)
    requires g > 0
    ensures |r| == |v| && forall k :: 0 <= k < |v| ==> r[k] == Frac(TDiv(v[k], g), 1)
  {
    seq(|v|, k requires 0 <= k < |v| => FromIntIsPair(TDiv(v[k], g)); FromInt(TDiv(v[k], g)))
  }

  lemma {:induction false} FromIntIsPair(v: int)
    ensures FromInt(v) == Frac(v, 1)
  {
    assert Gcd(Abs(v), 1) == 1 by {
      assert Gcd(1, Abs(v) % 1) == Gcd(1, 0);
    }
    var f: NFrac := Frac(v, 1);
    SameValueSamePair(FromInt(v), f);
  }

  /**
   * The tail of nullspaceVector: flip the sign when no entry is positive, then divide by g, the
   * gcd folded from |ints[0]| (from 1 when ints[0] is 0) over the entries. g divides every entry;
   * when ints[0] is not 0 every common divisor divides g, so the quotients have no common divisor.
   */
  method ReduceVector(ints: seq<int>) returns (res: seq<NFrac>, g: int)
    ensures g > 0 && CommonDivisor(g, Signed(ints)) && res == Divided(Signed(ints), g)
    ensures |ints| > 0 && ints[0] != 0 ==> forall h :: CommonDivisor(h, Signed(ints)) ==> Divides(h, g)
  {
    var signed := Signed(ints);
    var init := Abs(if |signed| > 0 && signed[0] != 0 then signed[0] else 1);
    g := GcdFold(init, signed);
    if g == 0 {
      g := 1;
    }
    forall h | |ints| > 0 && ints[0] != 0 && CommonDivisor(h, signed)
      ensures Divides(h, g)
    {
      DividesAbs(h, signed[0]);
      GcdFoldGreatest(init, signed, h);
    }
    res := Divided(signed, g);
  }

  /** A primitive vector with a positive entry comes back unchanged. */
  lemma {:induction false} ReduceKeepsPrimitive(ints: seq<int>, f: nat, g: int)
    requires f < |ints| && ints[f] > 0 && Primitive(ints) && CommonDivisor(g, Signed(ints))
    ensures Signed(ints) == ints && g == 1
    ensures forall k :: 0 <= k < |ints| ==> Divided(ints, g)[k] == Frac(ints[k], 1)
  {
    forall k | 0 <= k < |ints|
      ensures Divided(ints, g)[k] == Frac(ints[k], 1)
    {
      assert TDiv(ints[k], 1) == ints[k];
    }
  }

  // ---------------------------------------------------------------------------
  // The whole computation

  /** A system whose every column is a pivot column of its reduced form has only the zero solution. */
  lemma {:induction false} AllPivotsOnlyTrivial(m: Mat, cols: nat, piv: seq<nat>)
    requires ReducedEchelon(m, cols, piv)
    requires forall c: nat :: c < cols ==> c in piv
    ensures OnlyTrivial(m, cols)
  {
    forall y: seq<real> | |y| == cols && Solves(m, y)
      ensures forall j :: 0 <= j < cols ==> y[j] == 0.0
    {
      forall j | 0 <= j < cols
        ensures y[j] == 0.0
      {
        assert j in piv;
        var k :| 0 <= k < |piv| && piv[k] == j;
        var a := Vals(m[k]);
        forall c | 0 <= c < |a| && c != j
          ensures a[c] == 0.0
        {
          assert c in piv;
          var k' :| 0 <= k' < |piv| && piv[k'] == c;
          assert Val(m[k][piv[k']]) == 0.0;
        }
        DotSingle(a, y, j);
      }
    }
  }

  lemma {:induction false} SolvesScaled(m: Mat, cols: nat, y: seq<real>, q: real)
    requires Rect(m, cols) && |y| == cols && Solves(m, y)
    ensures Solves(m, ScaleR(y, q))
  {
    forall k | 0 <= k < |m|
      ensures Dot(m[k], ScaleR(y, q)) == 0.0
    {
      DotScaleVector(Vals(m[k]), y, q);
    }
  }

  lemma {:induction false} ValsOfDivided(ints: seq<int>)
    ensures Vals(Divided(ints, 1)) == Reals(ints)
  {
    forall k | 0 <= k < |ints|
      ensures Vals(Divided(ints, 1))[k] == Reals(ints)[k]
    {
      assert TDiv(ints[k], 1) == ints[k];
    }
  }

  /**
   * Scaling a rational solution with x[free] = 1 to integers and dividing out the common
   * divisor gives a primitive integer solution whose free entry is positive.
   */
  lemma {:induction false} IntegerSolution(R: Mat, cols: nat, x: seq<NFrac>, free: nat, ints: seq<int>, out: seq<NFrac>, g: int)
    requires Rect(R, cols) && |x| == cols && Solves(R, Vals(x)) && free < cols && x[free] == One()
    requires |ints| == |x| && Reals(ints) == ScaleR(Vals(x), LcmOf(Dens(x)) as real)
    requires ints[free] > 0 && Primitive(ints)
    requires g > 0 && CommonDivisor(g, Signed(ints)) && out == Divided(Signed(ints), g)
    ensures |out| == cols && Solves(R, Vals(out))
    ensures forall k :: 0 <= k < |out| ==> out[k].d == 1
    ensures out[free].n > 0 && Primitive(Nums(out))
    ensures Nums(out) == ints
  {
    SolvesScaled(R, cols, Vals(x), LcmOf(Dens(x)) as real);
    ReduceKeepsPrimitive(ints, free, g);
    assert out == Divided(ints, 1);
    ValsOfDivided(ints);
    assert Nums(out) == ints;
  }

  /**
   * nullspaceVector(A): an error for an empty matrix or when every column is a pivot column (then
   * zero is the only solution); otherwise an integer solution of A·x = 0 with a positive entry and
   * no common divisor.
   */
  method NullspaceVector(A: Mat) returns (res: Result<seq<NFrac>, NullspaceError>)
    requires Rect(A, Width(A))
    ensures res == Err(EmptyMatrix) <==> |A| == 0
    ensures res == Err(NoFreeVariable) ==> OnlyTrivial(A, Width(A))
    ensures res.Ok? ==>
      |res.value| == Width(A) && Solves(A, Vals(res.value)) &&
      (forall k :: 0 <= k < |res.value| ==> res.value[k].d == 1) &&
      (exists k :: 0 <= k < |res.value| && res.value[k].n > 0) &&
      Primitive(Nums(res.value))
    ensures res.Ok? ==> PrefersLastFree(A, Nums(res.value))
  {
    if |A| == 0 {
      return Err(EmptyMatrix);
    }
    var nCols := |A[0]|;
    var R, pivotCols := RowReduction.Rref(A);
    var freeCols := FreeColumns(pivotCols, nCols);
    if |freeCols| == 0 {
      AllPivotsOnlyTrivial(R, nCols, pivotCols);
      return Err(NoFreeVariable);
    }
    LastFreeIsLargest(freeCols, pivotCols, nCols);
    LastFreeIsLastBelow(freeCols, pivotCols, nCols);
    var free := freeCols[|freeCols| - 1];
    var x := SolveReduced(R, nCols, pivotCols, free);
    var ints := ScaleToIntegers(x);
    var out, g := ReduceVector(ints);
    ChosenVector(A, R, nCols, pivotCols, free, x, ints, out, g);
    return Ok(out);
  }

  /** The vector the steps of nullspaceVector compute solves A and is the one it prefers. */
  lemma {:induction false} ChosenVector(A: Mat, R: Mat, cols: nat, piv: seq<nat>, free: nat, x: seq<NFrac>,
                                        ints: seq<int>, out: seq<NFrac>, g: int)
    requires Rect(A, cols) && ReducedEchelon(R, cols, piv) && SameSolutions(A, R, cols)
    requires free == LastFreeBelow(piv, cols)
    requires |x| == cols && x[free] == One() && Solves(R, Vals(x))
    requires forall c :: 0 <= c < cols && c !in piv && c != free ==> x[c] == Zero()
    requires |ints| == |x| && Reals(ints) == ScaleR(Vals(x), LcmOf(Dens(x)) as real)
    requires forall f :: 0 <= f < |x| && x[f] == One() ==> ints[f] > 0 && Primitive(ints)
    requires forall c :: 0 <= c < |x| && x[c] == Zero() ==> ints[c] == 0
    requires g > 0 && CommonDivisor(g, Signed(ints)) && out == Divided(Signed(ints), g)
    ensures |out| == cols && Solves(A, Vals(out))
    ensures (forall k :: 0 <= k < |out| ==> out[k].d == 1) && out[free].n > 0 && Primitive(Nums(out))
    ensures PrefersLastFree(A, Nums(out))
  {
    IntegerSolution(R, cols, x, free, ints, out, g);
    assert LastFreeChosen(piv, Nums(out));
  }
}

/**
 * rref (components/tools/EquationBalancer.tsx:265-311): Gauss-Jordan elimination of a matrix of
 * fractions to reduced row echelon form, recording the pivot columns. The working copy R is an
 * array of rows that the loop updates in place; each row is a value, and the source's entry-wise
 * assignments to a row are modelled as updates of that value.
 *
 * The loop walks the columns with `lead` and the rows with `r`. When column lead has no non-zero
 * entry at or below row r the column is skipped (the source's `lead++; r--; continue`). Otherwise
 * the first such row is swapped into place, divided by its pivot, and subtracted from every other
 * row with a non-zero entry in column lead.
 */
module RowReduction {
  import opened Fractions
  import opened Matrix

  // ---------------------------------------------------------------------------
  // The shape reached after each step

  /** The pivot columns are strictly increasing and all lie before column lead. */
  predicate PivotsBelow(piv: seq<nat>, lead: nat)
  {
    (forall k :: 0 <= k < |piv| ==> piv[k] < lead) &&
    (forall k, l :: 0 <= k < l < |piv| ==> piv[k] < piv[l])
  }

  /** Column piv[k] is the k-th unit vector: 1 in row k, 0 in every other row. */
  predicate UnitColumns(m: Mat, piv: seq<nat>)
  {
    forall k, i :: 0 <= k < |piv| && 0 <= i < |m| && piv[k] < |m[i]| ==>
      Val(m[i][piv[k]]) == if i == k then 1.0 else 0.0
  }

  /** Pivot row k is zero before its pivot column. */
  predicate LeadingZeros(m: Mat, piv: seq<nat>)
  {
    forall k, j :: 0 <= k < |piv| && k < |m| && 0 <= j < piv[k] && j < |m[k]| ==> Val(m[k][j]) == 0.0
  }

  /** Rows r and later are zero in the columns before lead. */
  predicate ZerosBelow(m: Mat, r: nat, lead: nat)
  {
    forall i, j :: r <= i < |m| && 0 <= j < lead && j < |m[i]| ==> Val(m[i][j]) == 0.0
  }

  /** The loop invariant: the first lead columns are in reduced echelon form with pivots piv. */
  predicate Echelon(m: Mat, cols: nat, piv: seq<nat>, lead: nat)
  {
    Rect(m, cols) && |piv| <= |m| && |piv| <= lead <= cols && PivotsBelow(piv, lead) &&
    UnitColumns(m, piv) && LeadingZeros(m, piv) && ZerosBelow(m, |piv|, lead)
  }

  /** Reduced row echelon form with pivot columns piv; the rows after the pivot rows are zero. */
  predicate ReducedEchelon(m: Mat, cols: nat, piv: seq<nat>)
  {
    Rect(m, cols) && |piv| <= |m| && |piv| <= cols && PivotsBelow(piv, cols) &&
    UnitColumns(m, piv) && LeadingZeros(m, piv) && ZerosBelow(m, |piv|, cols)
  }

  // ---------------------------------------------------------------------------
  // Each step keeps the shape

  /** A column with no non-zero entry at or below row |piv| joins the finished columns. */
  lemma {:induction false} SkipColumn(m: Mat, cols: nat, piv: seq<nat>, lead: nat)
    requires Echelon(m, cols, piv, lead) && lead < cols
    requires forall i :: |piv| <= i < |m| ==> Val(m[i][lead]) == 0.0
    ensures Echelon(m, cols, piv, lead + 1)
  {
  }

  /** Exchanging two rows at or below row |piv| keeps the shape. */
  lemma {:induction false} SwapKeeps(m: Mat, cols: nat, piv: seq<nat>, lead: nat, i: nat)
    requires Echelon(m, cols, piv, lead) && |piv| <= i < |m|
    ensures Echelon(Swap(m, i, |piv|), cols, piv, lead)
  {
    var r := |piv|;
    var s := Swap(m, i, r);
    forall k, i' | 0 <= k < |piv| && 0 <= i' < |s| && piv[k] < |s[i']|
      ensures Val(s[i'][piv[k]]) == if i' == k then 1.0 else 0.0
    {
      if i' == i {
        assert s[i'] == m[r];
      } else if i' == r {
        assert s[i'] == m[i];
      } else {
        assert s[i'] == m[i'];
      }
    }
    forall k, j | 0 <= k < |piv| && k < |s| && 0 <= j < piv[k] && j < |s[k]|
      ensures Val(s[k][j]) == 0.0
    {
      assert s[k] == m[k];
    }
    forall i', j | r <= i' < |s| && 0 <= j < lead && j < |s[i']|
      ensures Val(s[i'][j]) == 0.0
    {
      if i' == i {
        assert s[i'] == m[r];
      } else if i' == r {
        assert s[i'] == m[i];
      } else {
        assert s[i'] == m[i'];
      }
    }
  }

  lemma {:induction false} ZeroOver(a: real, p: real, v: real)
    requires p != 0.0 && v == a / p && a == 0.0
    ensures v == 0.0
  {
  }

  lemma {:induction false} SelfOver(p: real, v: real)
    requires p != 0.0 && v == p / p
    ensures v == 1.0
  {
  }

  /** A zero entry of a row stays zero when the row is divided by its pivot. */
  lemma {:induction false} ScaledZero(row: Row, p: NFrac, j: nat)
    requires Val(p) != 0.0 && j < |row| && Val(row[j]) == 0.0
    ensures Val(ScaleRow(row, p)[j]) == 0.0
  {
    ZeroOver(Val(row[j]), Val(p), Val(ScaleRow(row, p)[j]));
  }

  /** Dividing row |piv| by its entry in column lead keeps the shape and makes that entry 1. */
  lemma {:induction false} ScaleKeeps(m: Mat, cols: nat, piv: seq<nat>, lead: nat)
    requires Echelon(m, cols, piv, lead) && |piv| < |m| && lead < cols
    requires Val(m[|piv|][lead]) != 0.0
    ensures Echelon(ScaleAt(m, |piv|, lead), cols, piv, lead)
    ensures Val(ScaleAt(m, |piv|, lead)[|piv|][lead]) == 1.0
  {
    var r := |piv|;
    var s := ScaleAt(m, r, lead);
    var p := m[r][lead];
    assert s[r] == ScaleRow(m[r], p);
    SelfOver(Val(p), Val(s[r][lead]));
    forall k | 0 <= k < |piv|
      ensures Val(s[r][piv[k]]) == 0.0
    {
      ScaledZero(m[r], p, piv[k]);
    }
    forall j | 0 <= j < lead
      ensures Val(s[r][j]) == 0.0
    {
      ScaledZero(m[r], p, j);
    }
  }

  lemma {:induction false} SubZero(u: real, f: real, w: real, v: real)
    requires v == u - f * w && w == 0.0
    ensures v == u
  {
  }

  lemma {:induction false} SubSelf(u: real, w: real, v: real)
    requires v == u - u * w && w == 1.0
    ensures v == 0.0
  {
  }

  /** An entry of an eliminated row other than the pivot row. */
  lemma {:induction false} EliminatedEntry(m: Mat, cols: nat, r: nat, lead: nat, i: nat, j: nat)
    requires Rect(m, cols) && r < |m| && lead < cols && i < |m| && i != r && j < cols
    ensures Val(m[r][j]) == 0.0 ==> Val(EliminateAt(m, cols, r, lead)[i][j]) == Val(m[i][j])
    ensures j == lead && Val(m[r][lead]) == 1.0 ==> Val(EliminateAt(m, cols, r, lead)[i][j]) == 0.0
  {
    var f := m[i][lead];
    var e := EliminateAt(m, cols, r, lead);
    if !IsZero(f) {
      assert e[i] == SubRow(m[i], f, m[r]);
      SubRowEntry(m[i], f, m[r], j);
    }
  }

  /** Subtracting f times a row with a 0 (or, where f is the entry itself, a 1) in column j. */
  lemma {:induction false} SubRowEntry(row: Row, f: NFrac, prow: Row, j: nat)
    requires |prow| == |row| && j < |row|
    ensures Val(prow[j]) == 0.0 ==> Val(SubRow(row, f, prow)[j]) == Val(row[j])
    ensures f == row[j] && Val(prow[j]) == 1.0 ==> Val(SubRow(row, f, prow)[j]) == 0.0
  {
    var v := Val(SubRow(row, f, prow)[j]);
    if Val(prow[j]) == 0.0 {
      SubZero(Val(row[j]), Val(f), Val(prow[j]), v);
    }
    if f == row[j] && Val(prow[j]) == 1.0 {
      SubSelf(Val(f), Val(prow[j]), v);
    }
  }

  /** Clearing column lead around a unit pivot in row |piv| makes lead the next pivot column. */
  lemma {:induction false} EliminateKeeps(m: Mat, cols: nat, piv: seq<nat>, lead: nat)
    requires Echelon(m, cols, piv, lead) && |piv| < |m| && lead < cols
    requires Val(m[|piv|][lead]) == 1.0
    ensures Echelon(EliminateAt(m, cols, |piv|, lead), cols, piv + [lead], lead + 1)
  {
    var r := |piv|;
    var e := EliminateAt(m, cols, r, lead);
    var piv' := piv + [lead];
    forall i | 0 <= i < |e|
      ensures |e[i]| == cols
    {
    }
    forall k, i | 0 <= k < |piv'| && 0 <= i < |e| && piv'[k] < |e[i]|
      ensures Val(e[i][piv'[k]]) == if i == k then 1.0 else 0.0
    {
      if i != r {
        EliminatedEntry(m, cols, r, lead, i, piv'[k]);
      }
    }
    forall k, j | 0 <= k < |piv'| && k < |e| && 0 <= j < piv'[k] && j < |e[k]|
      ensures Val(e[k][j]) == 0.0
    {
      if k != r {
        EliminatedEntry(m, cols, r, lead, k, j);
      }
    }
    forall i, j | r + 1 <= i < |e| && 0 <= j < lead + 1 && j < |e[i]|
      ensures Val(e[i][j]) == 0.0
    {
      EliminatedEntry(m, cols, r, lead, i, j);
    }
  }

  /** When the loop stops, the whole matrix is in reduced row echelon form. */
  lemma {:induction false} Finished(m: Mat, cols: nat, piv: seq<nat>, lead: nat)
    requires Echelon(m, cols, piv, lead) && (|piv| == |m| || lead == cols)
    ensures ReducedEchelon(m, cols, piv)
  {
  }

  // ---------------------------------------------------------------------------
  // The imperative elimination

  /** The pivot search: the first row at or after r with a non-zero entry in column lead. */
  method FindPivot(R: array<Row>, r: nat, lead: nat, cols: nat) returns (i: nat)
    requires r <= R.Length && Rect(R[..], cols) && lead < cols
    ensures r <= i <= R.Length
    ensures i < R.Length ==> Val(R[i][lead]) != 0.0
    ensures forall k :: r <= k < i ==> Val(R[k][lead]) == 0.0
  {
    i := r;
    while i < R.Length && IsZero(R[i][lead])
      invariant r <= i <= R.Length
      invariant forall k :: r <= k < i ==> Val(R[k][lead]) == 0.0
    {
      i := i + 1;
    }
  }

  /** `for (j …) R[r][j] = R[r][j].div(pivot)` with the pivot read before the loop. */
  method NormalizeRow(R: array<Row>, r: nat, lead: nat, cols: nat)
    requires r < R.Length && Rect(R[..], cols) && lead < cols && Val(R[r][lead]) != 0.0
    modifies R
    ensures R[..] == ScaleAt(old(R[..]), r, lead)
  {
    var pivot := R[r][lead];
    var orig := R[r];
    ghost var before := R[..];
    var j := 0;
    while j < cols
      invariant 0 <= j <= cols
      invariant |R[r]| == cols
      invariant forall k :: 0 <= k < R.Length && k != r ==> R[k] == before[k]
      invariant forall c :: 0 <= c < j ==> R[r][c] == Div(orig[c], pivot).value
      invariant forall c :: j <= c < cols ==> R[r][c] == orig[c]
    {
      R[r] := R[r][j := Div(R[r][j], pivot).value];
      j := j + 1;
    }
    assert R[r] == ScaleRow(orig, pivot);
    assert R[..] == ScaleAt(before, r, lead);
  }

  /** `for (j …) R[i2][j] = R[i2][j].sub(factor.mul(R[r][j]))` */
  method ReduceRow(R: array<Row>, i2: nat, r: nat, factor: NFrac, cols: nat)
    requires i2 < R.Length && r < R.Length && i2 != r && Rect(R[..], cols)
    modifies R
    ensures R[..] == old(R[..])[i2 := SubRow(old(R[i2]), factor, old(R[r]))]
  {
    var orig := R[i2];
    ghost var before := R[..];
    var j := 0;
    while j < cols
      invariant 0 <= j <= cols
      invariant |R[i2]| == cols
      invariant forall k :: 0 <= k < R.Length && k != i2 ==> R[k] == before[k]
      invariant forall c :: 0 <= c < j ==> R[i2][c] == SubMul(orig[c], factor, R[r][c])
      invariant forall c :: j <= c < cols ==> R[i2][c] == orig[c]
    {
      R[i2] := R[i2][j := SubMul(R[i2][j], factor, R[r][j])];
      j := j + 1;
    }
    assert R[i2] == SubRow(orig, factor, before[r]);
    assert R[..] == before[i2 := SubRow(orig, factor, before[r])];
  }

  /** The loop over i2 clearing column lead in every row but r. */
  method EliminateColumn(R: array<Row>, cols: nat, r: nat, lead: nat)
    requires r < R.Length && Rect(R[..], cols) && lead < cols
    modifies R
    ensures R[..] == EliminateAt(old(R[..]), cols, r, lead)
  {
    ghost var before := R[..];
    var i2 := 0;
    while i2 < R.Length
      invariant 0 <= i2 <= R.Length
      invariant R[r] == before[r]
      invariant forall k :: 0 <= k < i2 ==> R[k] == EliminateAt(before, cols, r, lead)[k]
      invariant forall k :: i2 <= k < R.Length ==> R[k] == before[k]
    {
      if i2 != r && !IsZero(R[i2][lead]) {
        var factor := R[i2][lead];
        ReduceRow(R, i2, r, factor, cols);
      }
      i2 := i2 + 1;
    }
    assert R[..] == EliminateAt(before, cols, r, lead);
  }

  /**
   * rref(A): the reduced row echelon form of A, with its pivot columns. It has the same
   * solutions as A, and its rank is at most the number of rows and of columns.
   */
  method Rref(A: Mat) returns (R: Mat, pivotCols: seq<nat>)
    requires Rect(A, Width(A))
    ensures |R| == |A| && ReducedEchelon(R, Width(A), pivotCols)
    ensures SameSolutions(A, R, Width(A))
    ensures |pivotCols| <= |A| && |pivotCols| <= Width(A)
  {
    var nRows := |A|;
    var nCols := Width(A);
    var rows := new Row[nRows](k requires 0 <= k < nRows => A[k]);
    assert rows[..] == A;
    var lead := 0;
    var r := 0;
    pivotCols := [];
    while r < nRows && lead < nCols
      invariant rows.Length == nRows && r == |pivotCols|
      invariant Echelon(rows[..], nCols, pivotCols, lead)
      invariant SameSolutions(A, rows[..], nCols)
      decreases nCols - lead
    {
      var i := FindPivot(rows, r, lead, nCols);
      if i == nRows {
        SkipColumn(rows[..], nCols, pivotCols, lead);
        lead := lead + 1;
      } else {
        if i != r {
          ghost var m := rows[..];
          rows[i], rows[r] := rows[r], rows[i];
          assert rows[..] == Swap(m, i, r);
          SwapKeeps(m, nCols, pivotCols, lead, i);
          SwapKeepsSolutions(m, i, r, nCols);
          SameSolutionsTrans(A, m, rows[..], nCols);
        }
        ghost var m1 := rows[..];
        ScaleKeeps(m1, nCols, pivotCols, lead);
        ScaleKeepsSolutions(m1, nCols, r, lead);
        NormalizeRow(rows, r, lead, nCols);
        SameSolutionsTrans(A, m1, rows[..], nCols);
        ghost var m2 := rows[..];
        EliminateKeeps(m2, nCols, pivotCols, lead);
        EliminateKeepsSolutions(m2, nCols, r, lead);
        EliminateColumn(rows, nCols, r, lead);
        SameSolutionsTrans(A, m2, rows[..], nCols);
        pivotCols := pivotCols + [lead];
        r := r + 1;
        lead := lead + 1;
      }
    }
    R := rows[..];
    Finished(R, nCols, pivotCols, lead);
  }
}

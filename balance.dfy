/**
 * The balancer's driver (components/tools/EquationBalancer.tsx:240-262 and 362-387): the species
 * of both sides are parsed, the element rows and species columns of the signed count matrix are
 * filled in, a primitive integer vector of its null space is computed, and the equation is
 * written back with those coefficients.
 *
 * The meaning of the matrix is proved here: a vector solves it exactly when, for every element,
 * the atoms carried by the left side equal the atoms carried by the right side.
 */
module Balance {
  import opened Wrappers
  import opened Text
  import opened Counts
  import opened Formula
  import opened Equation
  import opened NumberTheory
  import opened Fractions
  import opened Matrix
  import opened Nullspace

  // ---------------------------------------------------------------------------
  // The default order of Array.prototype.sort: UTF-16 code units, shorter prefix first

  predicate Below(a: string, b: string)
    decreases |a|
  {
    if |a| == 0 then |b| > 0
    else |b| > 0 && (a[0] < b[0] || (a[0] == b[0] && Below(a[1..], b[1..])))
  }

  lemma {:induction false} BelowIrreflexive(a: string)
    ensures !Below(a, a)
    decreases |a|
  {
    if |a| > 0 {
      BelowIrreflexive(a[1..]);
    }
  }

  lemma {:induction false} BelowTransitive(a: string, b: string, c: string)
    requires Below(a, b) && Below(b, c)
    ensures Below(a, c)
    decreases |a|
  {
    if |a| > 0 && a[0] == b[0] && b[0] == c[0] {
      BelowTransitive(a[1..], b[1..], c[1..]);
    }
  }

  lemma {:induction false} BelowTotal(a: string, b: string)
    requires a != b
    ensures Below(a, b) || Below(b, a)
    decreases |a|
  {
    if |a| > 0 && |b| > 0 && a[0] == b[0] {
      assert a == [a[0]] + a[1..] && b == [b[0]] + b[1..];
      BelowTotal(a[1..], b[1..]);
    }
  }

  /** Strictly increasing in code-unit order, hence without duplicates. */
  ghost predicate Increasing(xs: seq<string>)
  {
    forall i, j :: 0 <= i < j < |xs| ==> Below(xs[i], xs[j])
  }

  /** Two increasing lists of the same strings are the same list: sorting a set has one outcome. */
  lemma {:induction false} IncreasingUnique(a: seq<string>, b: seq<string>)
    requires Increasing(a) && Increasing(b)
    requires forall e :: e in a <==> e in b
    ensures a == b
    decreases |a|
  {
    assert |a| > 0 ==> a[0] in b;
    assert |b| > 0 ==> b[0] in a;
    if |a| > 0 && |b| > 0 {
      if a[0] != b[0] {
        assert b[0] in a;
        var i :| 0 <= i < |a| && a[i] == b[0];
        assert a[0] in b;
        var j :| 0 <= j < |b| && b[j] == a[0];
        assert Below(a[0], b[0]) by {
          if i == 0 { assert false; }
        }
        assert Below(b[0], a[0]) by {
          if j == 0 { assert false; }
        }
        BelowTransitive(a[0], b[0], a[0]);
        BelowIrreflexive(a[0]);
        assert false;
      }
      forall e | e in a[1..]
        ensures e in b[1..]
      {
        var i :| 1 <= i < |a| && a[i] == e;
        BelowIrreflexive(e);
        assert e in b && e != b[0];
      }
      forall e | e in b[1..]
        ensures e in a[1..]
      {
        var j :| 1 <= j < |b| && b[j] == e;
        BelowIrreflexive(e);
        assert e in a && e != a[0];
      }
      IncreasingUnique(a[1..], b[1..]);
      assert a == [a[0]] + a[1..] && b == [b[0]] + b[1..];
    }
  }

  /** Places k in an increasing list unless it is already there. */
  function Insert(xs: seq<string>, k: string): (r: seq<string>)
    requires Increasing(xs)
    ensures Increasing(r)
    ensures forall e :: e in r <==> e in xs || e == k
  {
    if |xs| == 0 then [k]
    else if xs[0] == k then xs
    else if Below(k, xs[0]) then
      assert forall j :: 0 < j < |xs| ==> Below(k, xs[j]) by {
        forall j | 0 < j < |xs|
          ensures Below(k, xs[j])
        {
          BelowTransitive(k, xs[0], xs[j]);
        }
      }
      [k] + xs
    else
      var rest := Insert(xs[1..], k);
      BelowTotal(k, xs[0]);
      assert forall e :: e in rest ==> Below(xs[0], e) by {
        forall e | e in rest
          ensures Below(xs[0], e)
        {
          if e != k {
            var j :| 1 <= j < |xs| && xs[j] == e;
          }
        }
      }
      assert xs == [xs[0]] + xs[1..];
      [xs[0]] + rest
  }

  /** `Array.from(new Set(keys)).sort()`: the distinct keys in code-unit order. */
  function SortDistinct(keys: seq<string>): (r: seq<string>)
    ensures Increasing(r)
    ensures forall e :: e in r <==> e in keys
  {
    if |keys| == 0 then []
    else
      var n := |keys| - 1;
      assert keys == keys[..n] + [keys[n]];
      Insert(SortDistinct(keys[..n]), keys[n])
  }

  /** `counts.flatMap((c) => Object.keys(c))` */
  function AllKeys(counts: seq<Counts>): (ks: seq<string>)
    ensures forall e :: e in ks <==> exists c :: 0 <= c < |counts| && e in Keys(counts[c])
  {
    if |counts| == 0 then []
    else
      var n := |counts| - 1;
      var ks := AllKeys(counts[..n]) + Keys(counts[n]);
      assert forall c :: 0 <= c < n ==> counts[..n][c] == counts[c];
      ks
  }

  /** The rows of the matrix: every element symbol of every species, once, in code-unit order. */
  function Elements(counts: seq<Counts>): (els: seq<string>)
    ensures Increasing(els)
    ensures forall e :: e in els <==> exists c :: 0 <= c < |counts| && e in Keys(counts[c])
  {
    SortDistinct(AllKeys(counts))
  }

  // ---------------------------------------------------------------------------
  // Parsing the species

  /** Every species is a formula parseCompound accepts. */
  ghost predicate AllParse(species: seq<string>)
  {
    forall c :: 0 <= c < |species| ==> Parse(Balancer, species[c]).Ok?
  }

  /** The count maps of the species. */
  ghost function CountsOf(species: seq<string>): (cs: seq<Counts>)
    requires AllParse(species)
    ensures |cs| == |species|
  {
    seq(|species|, c requires 0 <= c < |species| => Parse(Balancer, species[c]).value)
  }

  /**
   * `species.map(parseCompound)`: the count maps of all species, or the error of the first
   * species that does not parse.
   */
  method ParseSpecies(species: seq<string>) returns (res: Result<seq<Counts>, ParseError>)
    ensures res.Ok? <==> AllParse(species)
    ensures res.Ok? ==> res.value == CountsOf(species)
    ensures res.Err? ==> exists c :: 0 <= c < |species| && Parse(Balancer, species[c]) == Err(res.error)
                                     && AllParse(species[..c])
  {
    var counts: seq<Counts> := [];
    var c := 0;
    while c < |species|
      invariant 0 <= c <= |species|
      invariant AllParse(species[..c])
      invariant counts == CountsOf(species[..c])
    {
      var r := ParseFormula(Balancer, species[c]);
      if r.Err? {
        return Err(r.error);
      }
      counts := counts + [r.value];
      assert species[..c + 1] == species[..c] + [species[c]];
      c := c + 1;
    }
    assert species[..c] == species;
    return Ok(counts);
  }

  // ---------------------------------------------------------------------------
  // The signed count matrix

  /** `counts[c][el] || 0`, positive for a reactant (c < leftCount) and negative for a product. */
  function SignedCount(counts: seq<Counts>, leftCount: nat, el: string, c: nat): int
    requires c < |counts|
  {
    if c < leftCount then Get(counts[c], el) else 0 - Get(counts[c], el)
  }

  /** `new Frac(sign * v, 1n)`: the cell of element el and species c. */
  function Cell(counts: seq<Counts>, leftCount: nat, el: string, c: nat): NFrac
    requires c < |counts|
  {
    FromInt(SignedCount(counts, leftCount, el, c))
  }

  /** The matrix buildMatrix returns for these count maps and element rows. */
  ghost predicate CountMatrix(A: Mat, counts: seq<Counts>, leftCount: nat, elements: seq<string>)
  {
    |A| == |elements| && Rect(A, |counts|) &&
    forall r, c :: 0 <= r < |A| && 0 <= c < |counts| ==> A[r][c] == Cell(counts, leftCount, elements[r], c)
  }

  /**
   * The element rows and the filling loop of buildMatrix: start from zeros and write
   * `new Frac(sign * v, 1n)` into every cell.
   */
  method FillMatrix(counts: seq<Counts>, leftCount: nat) returns (A: Mat, elements: seq<string>)
    ensures elements == Elements(counts)
    ensures CountMatrix(A, counts, leftCount, elements)
  {
    elements := Elements(counts);
    var cols := |counts|;
    var zeros: Row := seq(cols, _ => Zero());
    var rows: array<Row> := new Row[|elements|](_ => zeros);
    var r := 0;
    while r < |elements|
      invariant 0 <= r <= |elements|
      invariant forall k :: 0 <= k < rows.Length ==> |rows[k]| == cols
      invariant forall k, c :: 0 <= k < r && 0 <= c < cols ==> rows[k][c] == Cell(counts, leftCount, elements[k], c)
    {
      var row := rows[r];
      var c := 0;
      while c < cols
        invariant 0 <= c <= cols && |row| == cols
        invariant forall c' :: 0 <= c' < c ==> row[c'] == Cell(counts, leftCount, elements[r], c')
      {
        var v := Get(counts[c], elements[r]);
        var sign: int := if c < leftCount then 1 else -1;
        row := row[c := FromInt(sign * v)];
        c := c + 1;
      }
      rows[r] := row;
      r := r + 1;
    }
    A := rows[..];
  }

  // ---------------------------------------------------------------------------
  // What a solution of the matrix means

  /** The count of el in each species, as reals. */
  function CountVector(counts: seq<Counts>, el: string): (v: seq<real>)
    ensures |v| == |counts| && forall c :: 0 <= c < |counts| ==> v[c] == Get(counts[c], el) as real
  {
    seq(|counts|, c requires 0 <= c < |counts| => Get(counts[c], el) as real)
  }

  /** Σ_c x[c]·(count of el in species c): the atoms of el on a side with coefficients x. */
  ghost function Atoms(counts: seq<Counts>, x: seq<real>, el: string): real
    requires |counts| == |x|
  {
    DotR(CountVector(counts, el), x)
  }

  /** With coefficients x, each element has as many atoms on the left as on the right. */
  ghost predicate Conserved(counts: seq<Counts>, leftCount: nat, x: seq<real>)
    requires |counts| == |x| && leftCount <= |counts|
  {
    forall el :: Atoms(counts[..leftCount], x[..leftCount], el) == Atoms(counts[leftCount..], x[leftCount..], el)
  }

  /** (a ++ b)·(x ++ y) = a·x + b·y */
  lemma {:induction false} DotConcat(a: seq<real>, b: seq<real>, x: seq<real>, y: seq<real>)
    requires |a| == |x| && |b| == |y|
    ensures DotR(a + b, x + y) == DotR(a, x) + DotR(b, y)
    decreases |b|
  {
    if |b| > 0 {
      var n := |b| - 1;
      assert (a + b)[..|a| + n] == a + b[..n];
      assert (x + y)[..|x| + n] == x + y[..n];
      DotConcat(a, b[..n], x, y[..n]);
    } else {
      assert a + b == a && x + y == x;
    }
  }

  /** A row of the matrix, read as reals: the left counts, then the negated right counts. */
  lemma {:induction false} RowValues(A: Mat, counts: seq<Counts>, leftCount: nat, elements: seq<string>, r: nat)
    requires CountMatrix(A, counts, leftCount, elements) && leftCount <= |counts| && r < |A|
    ensures Vals(A[r]) == CountVector(counts[..leftCount], elements[r])
                          + ScaleR(CountVector(counts[leftCount..], elements[r]), -1.0)
  {
    var el := elements[r];
    var lhs := CountVector(counts[..leftCount], el);
    var rhs := ScaleR(CountVector(counts[leftCount..], el), -1.0);
    forall c | 0 <= c < |counts|
      ensures Vals(A[r])[c] == (lhs + rhs)[c]
    {
      assert A[r][c] == Cell(counts, leftCount, el, c);
      if c < leftCount {
        assert counts[..leftCount][c] == counts[c];
      } else {
        assert counts[leftCount..][c - leftCount] == counts[c];
      }
    }
  }

  /** Row r's equation is the left atoms of its element minus the right atoms. */
  lemma {:induction false} RowBalance(A: Mat, counts: seq<Counts>, leftCount: nat, elements: seq<string>, r: nat, x: seq<real>)
    requires CountMatrix(A, counts, leftCount, elements) && leftCount <= |counts| && r < |A|
    requires |x| == |counts|
    ensures Dot(A[r], x) == Atoms(counts[..leftCount], x[..leftCount], elements[r])
                            - Atoms(counts[leftCount..], x[leftCount..], elements[r])
  {
    var el := elements[r];
    var b := CountVector(counts[leftCount..], el);
    RowValues(A, counts, leftCount, elements, r);
    assert x == x[..leftCount] + x[leftCount..];
    DotConcat(CountVector(counts[..leftCount], el), ScaleR(b, -1.0), x[..leftCount], x[leftCount..]);
    DotScaled(b, -1.0, x[leftCount..]);
  }

  /** An element no species contains has no atoms on either side. */
  lemma {:induction false} AbsentElement(counts: seq<Counts>, x: seq<real>, el: string)
    requires |counts| == |x|
    requires forall c :: 0 <= c < |counts| ==> el !in Keys(counts[c])
    ensures Atoms(counts, x, el) == 0.0
  {
    DotZero(CountVector(counts, el), x);
  }

  /**
   * The meaning of buildMatrix: x solves the matrix exactly when every element is conserved,
   * including the elements that have no row because no species contains them.
   */
  lemma {:induction false} SolvesIffConserved(A: Mat, counts: seq<Counts>, leftCount: nat, x: seq<real>)
    requires CountMatrix(A, counts, leftCount, Elements(counts)) && leftCount <= |counts|
    requires |x| == |counts|
    ensures Solves(A, x) <==> Conserved(counts, leftCount, x)
  {
    var elements := Elements(counts);
    if Solves(A, x) {
      forall el
        ensures Atoms(counts[..leftCount], x[..leftCount], el) == Atoms(counts[leftCount..], x[leftCount..], el)
      {
        if el in elements {
          var r :| 0 <= r < |elements| && elements[r] == el;
          RowBalance(A, counts, leftCount, elements, r, x);
        } else {
          forall c | 0 <= c < leftCount
            ensures el !in Keys(counts[..leftCount][c])
          {
            assert counts[..leftCount][c] == counts[c];
          }
          forall c | 0 <= c < |counts| - leftCount
            ensures el !in Keys(counts[leftCount..][c])
          {
            assert counts[leftCount..][c] == counts[leftCount + c];
          }
          AbsentElement(counts[..leftCount], x[..leftCount], el);
          AbsentElement(counts[leftCount..], x[leftCount..], el);
        }
      }
    }
    if Conserved(counts, leftCount, x) {
      forall r | 0 <= r < |A|
        ensures |A[r]| == |x| && Dot(A[r], x) == 0.0
      {
        RowBalance(A, counts, leftCount, elements, r, x);
      }
    }
  }

  /** When zero is the only solution of the matrix, zero is the only conserving vector. */
  lemma {:induction false} NoSolutionMeansZero(A: Mat, counts: seq<Counts>, leftCount: nat)
    requires CountMatrix(A, counts, leftCount, Elements(counts)) && leftCount <= |counts|
    requires |A| > 0 && OnlyTrivial(A, Width(A))
    ensures OnlyZeroConserved(counts, leftCount)
  {
    forall x: seq<real> | |x| == |counts| && Conserved(counts, leftCount, x)
      ensures forall c :: 0 <= c < |x| ==> x[c] == 0.0
    {
      SolvesIffConserved(A, counts, leftCount, x);
    }
  }

  /** Fractions with denominator 1 have their numerators as values. */
  lemma {:induction false} IntegerVals(xs: seq<NFrac>)
    requires forall k :: 0 <= k < |xs| ==> xs[k].d == 1
    ensures Vals(xs) == Reals(Nums(xs))
  {
  }

  // ---------------------------------------------------------------------------
  // Writing the balanced equation

  /** `${coef === 1 ? "" : coef + " "}${s}` with `coef = Math.abs(k)`. */
  function Term(species: string, k: int): string
  {
    (if Abs(k) == 1 then "" else NatToString(Abs(k)) + " ") + species
  }

  /** The terms of one side, species by species. */
  function Terms(items: seq<string>, ks: seq<int>): (ts: seq<string>)
    requires |ks| == |items|
    ensures |ts| == |items| && forall i :: 0 <= i < |items| ==> ts[i] == Term(items[i], ks[i])
  {
    seq(|items|, i requires 0 <= i < |items| => Term(items[i], ks[i]))
  }

  /** fmtSide: the terms of one side joined by " + ". */
  function SideText(items: seq<string>, ks: seq<int>): string
    requires |ks| == |items|
  {
    JoinWith(Terms(items, ks), " + ")
  }

  /** `${lhs} → ${rhs}` */
  function Written(left: seq<string>, right: seq<string>, ks: seq<int>): string
    requires |ks| == |left| + |right|
  {
    SideText(left, ks[..|left|]) + [' ', RightArrow, ' '] + SideText(right, ks[|left|..])
  }

  // ---------------------------------------------------------------------------
  // balanceEquation

  /** The message balanceEquation throws, by the step that throws it. */
  datatype BalanceError =
    | Unsplittable(arrow: EquationError)
    | BadSpecies(formula: ParseError)
    | Unsolvable(system: NullspaceError)
    /** Only in the checked variant: the vector found puts some species on the wrong side. */
    | MixedSigns

  /** The two species lists, after the dash rewrite. */
  ghost function Sides(eq: string): Result<(seq<string>, seq<string>), EquationError>
  {
    SplitArrow(Sanitize(eq))
  }

  /** The equation splits and every species parses. */
  ghost predicate Parsed(eq: string)
  {
    Sides(eq).Ok? && AllParse(Sides(eq).value.0 + Sides(eq).value.1)
  }

  /**
   * ks balances the species: one integer per species, every element conserved, no common divisor
   * and at least one positive entry.
   */
  ghost predicate BalancedBy(left: seq<string>, right: seq<string>, ks: seq<int>)
  {
    AllParse(left + right) && |ks| == |left| + |right| &&
    Conserved(CountsOf(left + right), |left|, Reals(ks)) &&
    Primitive(ks) && exists c :: 0 <= c < |ks| && ks[c] > 0
  }

  /** out is the equation written with coefficients that balance it. */
  ghost predicate BalancedText(eq: string, out: string)
  {
    Parsed(eq) &&
    var (left, right) := Sides(eq).value;
    exists ks :: BalancedBy(left, right, ks) && out == Written(left, right, ks)
  }

  /**
   * ks is the vector nullspaceVector picks for the count matrix of the species: the last free
   * column of its reduced form positive, every other free column 0.
   */
  ghost predicate ChosenVector(left: seq<string>, right: seq<string>, ks: seq<int>)
    requires AllParse(left + right)
  {
    var counts := CountsOf(left + right);
    exists A: Mat :: CountMatrix(A, counts, |left|, Elements(counts)) && PrefersLastFree(A, ks)
  }

  /** out is the equation written with the coefficients nullspaceVector picks, and they balance it. */
  ghost predicate ChosenText(eq: string, out: string)
  {
    Parsed(eq) &&
    var (left, right) := Sides(eq).value;
    exists ks :: BalancedBy(left, right, ks) && ChosenVector(left, right, ks) && out == Written(left, right, ks)
  }

  /** Every coefficient vector that conserves all elements is zero. */
  ghost predicate OnlyZeroConserved(counts: seq<Counts>, leftCount: nat)
    requires leftCount <= |counts|
  {
    forall x: seq<real> :: |x| == |counts| && Conserved(counts, leftCount, x) ==>
      forall c :: 0 <= c < |x| ==> x[c] == 0.0
  }

  /** An integer null-space vector of the count matrix balances the species. */
  lemma {:induction false} VectorBalances(left: seq<string>, right: seq<string>, A: Mat, xs: seq<NFrac>)
    requires AllParse(left + right) && |A| > 0
    requires CountMatrix(A, CountsOf(left + right), |left|, Elements(CountsOf(left + right)))
    requires |xs| == Width(A) && Solves(A, Vals(xs))
    requires forall k :: 0 <= k < |xs| ==> xs[k].d == 1
    requires exists k :: 0 <= k < |xs| && xs[k].n > 0
    requires Primitive(Nums(xs))
    ensures BalancedBy(left, right, Nums(xs))
  {
    var counts := CountsOf(left + right);
    IntegerVals(xs);
    SolvesIffConserved(A, counts, |left|, Reals(Nums(xs)));
    var k :| 0 <= k < |xs| && xs[k].n > 0;
    assert Nums(xs)[k] > 0;
  }

  /**
   * The steps balanceEquation shares with its checked variant: rewrite spaced dashes, split at
   * the arrow, parse the species, build the matrix and take a null-space vector. On success it
   * answers the two species lists and the integer coefficients.
   */
  method BalancingVector(eq: string) returns (res: Result<(seq<string>, seq<string>, seq<int>), BalanceError>)
    ensures Sides(eq).Err? <==> res.Err? && res.error.Unsplittable?
    ensures Sides(eq).Err? ==> res.error == Unsplittable(Sides(eq).error)
    ensures res.Err? && res.error.BadSpecies? <==> Sides(eq).Ok? && !Parsed(eq)
    ensures res == Err(Unsolvable(EmptyMatrix)) <==>
      Parsed(eq) && Elements(CountsOf(Sides(eq).value.0 + Sides(eq).value.1)) == []
    ensures res == Err(Unsolvable(NoFreeVariable)) ==>
      Parsed(eq) && OnlyZeroConserved(CountsOf(Sides(eq).value.0 + Sides(eq).value.1), |Sides(eq).value.0|)
    ensures res.Err? ==> res.error != MixedSigns
    ensures res.Ok? ==> Parsed(eq) && Sides(eq) == Ok((res.value.0, res.value.1))
    ensures res.Ok? ==> BalancedBy(res.value.0, res.value.1, res.value.2)
    ensures res.Ok? ==> ChosenVector(res.value.0, res.value.1, res.value.2)
  {
    var sides := SplitArrow(Sanitize(eq));
    if sides.Err? {
      return Err(Unsplittable(sides.error));
    }
    var left, right := sides.value.0, sides.value.1;
    var parsed := ParseSpecies(left + right);
    if parsed.Err? {
      return Err(BadSpecies(parsed.error));
    }
    var counts := parsed.value;
    var A, elements := FillMatrix(counts, |left|);
    var coeffs := NullspaceVector(A);
    if coeffs.Err? {
      if coeffs.error == NoFreeVariable {
        NoSolutionMeansZero(A, counts, |left|);
      }
      return Err(Unsolvable(coeffs.error));
    }
    VectorBalances(left, right, A, coeffs.value);
    res := Ok((left, right, Nums(coeffs.value)));
    assert ChosenVector(left, right, Nums(coeffs.value)) by {
      assert CountMatrix(A, CountsOf(left + right), |left|, Elements(CountsOf(left + right)));
    }
  }

  /**
   * balanceEquation: the balancing vector, each species written with the absolute value of its
   * coefficient (1 left out).
   */
  method BalanceEquation(eq: string) returns (res: Result<string, BalanceError>)
    ensures Sides(eq).Err? <==> res.Err? && res.error.Unsplittable?
    ensures Sides(eq).Err? ==> res.error == Unsplittable(Sides(eq).error)
    ensures res.Err? && res.error.BadSpecies? <==> Sides(eq).Ok? && !Parsed(eq)
    ensures res == Err(Unsolvable(EmptyMatrix)) <==>
      Parsed(eq) && Elements(CountsOf(Sides(eq).value.0 + Sides(eq).value.1)) == []
    ensures res == Err(Unsolvable(NoFreeVariable)) ==>
      Parsed(eq) && OnlyZeroConserved(CountsOf(Sides(eq).value.0 + Sides(eq).value.1), |Sides(eq).value.0|)
    ensures res.Err? ==> res.error != MixedSigns
    ensures res.Ok? ==> BalancedText(eq, res.value)
    ensures res.Ok? ==> ChosenText(eq, res.value)
  {
    var v := BalancingVector(eq);
    if v.Err? {
      return Err(v.error);
    }
    var (left, right, ints) := v.value;
    res := Ok(Written(left, right, ints));
  }

  // ---------------------------------------------------------------------------
  // Mixed signs

  /** `Math.abs(k)` of every coefficient: the numbers the written equation shows. */
  function Printed(ks: seq<int>): (ps: seq<int>)
    ensures |ps| == |ks| && forall c :: 0 <= c < |ks| ==> ps[c] == Abs(ks[c])
  {
    seq(|ks|, c requires 0 <= c < |ks| => Abs(ks[c]) as int)
  }

  /** out is the equation written with coefficients whose printed values balance it. */
  ghost predicate TrulyBalancedText(eq: string, out: string)
  {
    Parsed(eq) &&
    var (left, right) := Sides(eq).value;
    exists ks :: BalancedBy(left, right, ks) && out == Written(left, right, ks) &&
      Conserved(CountsOf(left + right), |left|, Reals(Printed(ks)))
  }

  /** A conserving vector with a non-zero entry refutes OnlyZeroConserved. */
  lemma {:induction false} NonZeroConserved(counts: seq<Counts>, leftCount: nat, x: seq<real>, c: nat)
    requires leftCount <= |counts| && |x| == |counts| && c < |x|
    requires Conserved(counts, leftCount, x) && x[c] != 0.0
    ensures !OnlyZeroConserved(counts, leftCount)
  {
  }

  /** A vector with no negative entry prints as itself. */
  lemma {:induction false} PrintedNonNegative(ks: seq<int>)
    requires forall c :: 0 <= c < |ks| ==> ks[c] >= 0
    ensures Printed(ks) == ks
  {
  }

  /**
   * balanceEquation with the sign check it lacks: a vector with entries of both signs, which
   * would be printed as absolute values, is reported instead of written out.
   */
  method BalanceEquationChecked(eq: string) returns (res: Result<string, BalanceError>)
    ensures Sides(eq).Err? <==> res.Err? && res.error.Unsplittable?
    ensures Sides(eq).Err? ==> res.error == Unsplittable(Sides(eq).error)
    ensures res.Err? && res.error.BadSpecies? <==> Sides(eq).Ok? && !Parsed(eq)
    ensures res == Err(Unsolvable(EmptyMatrix)) <==>
      Parsed(eq) && Elements(CountsOf(Sides(eq).value.0 + Sides(eq).value.1)) == []
    ensures res == Err(Unsolvable(NoFreeVariable)) ==>
      Parsed(eq) && OnlyZeroConserved(CountsOf(Sides(eq).value.0 + Sides(eq).value.1), |Sides(eq).value.0|)
    ensures res == Err(MixedSigns) ==> Parsed(eq) && !OnlyZeroConserved(CountsOf(Sides(eq).value.0 + Sides(eq).value.1), |Sides(eq).value.0|)
    ensures res.Ok? ==> TrulyBalancedText(eq, res.value)
    ensures res.Ok? ==> ChosenText(eq, res.value)
  {
    var v := BalancingVector(eq);
    if v.Err? {
      return Err(v.error);
    }
    var (left, right, ints) := v.value;
    if exists c :: 0 <= c < |ints| && ints[c] < 0 {
      var c :| 0 <= c < |ints| && ints[c] < 0;
      NonZeroConserved(CountsOf(left + right), |left|, Reals(ints), c);
      return Err(MixedSigns);
    }
    PrintedNonNegative(ints);
    res := Ok(Written(left, right, ints));
  }
}

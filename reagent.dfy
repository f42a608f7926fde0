/**
 * The equation reader and the weight lookup shared by the limiting-reagent and yield tools
 * (components/tools/LimitingReagentTool.tsx:65-104, components/tools/YieldCalculator.tsx:71-111)
 * and the formula analysis of the stoichiometry tool (components/tools/StoichiometryTool.tsx:72-84,
 * 147-155). The three files hold the same code; it is modelled once.
 *
 * The atomic-weight table `AW` is a parameter: a map from symbol to weight holding the symbols
 * that have a numeric weight. Masses are sums of weight × count, taken over the reals.
 */
module Reagent {
  import opened Wrappers
  import opened Text
  import opened Counts
  import opened Formula
  import opened Equation
  import opened NumberTheory
  import Balance

  /** `{ coef, formula }`: a species with its leading coefficient. */
  datatype Species = Species(coef: nat, formula: string)

  /** What a regular-expression `.` matches throughout: no line terminator. */
  predicate NoLineBreak(t: string)
  {
    forall i :: 0 <= i < |t| ==> !IsLineTerminator(t[i])
  }

  /**
   * `chunk.match(/^(\d+)\s*(.*)$/)`: the greedy digit run, then the greedy white-space run, then
   * the rest, which `.*` must cover up to the end. The match fails when there is no leading digit
   * or when a line terminator is left for `.*`; backtracking cannot help, since a shorter digit
   * run leaves a digit where the white space would start. On a match the coefficient is the
   * digit run and the formula the trimmed rest; otherwise the coefficient is 1.
   */
  function ReadCoefficient(chunk: string): (sp: Species)
    ensures |sp.formula| <= |chunk|
  {
    var d := DigitRun(chunk, 0);
    var w := SpaceRun(chunk, d);
    var rest := chunk[d + w..];
    if d > 0 && NoLineBreak(rest) then
      assert chunk[..d] == chunk[0..d];
      TrimShorter(rest);
      Species(DigitsValue(chunk[..d]), Trim(rest))
    else Species(1, chunk)
  }

  lemma {:induction false} TrimShorter(s: string)
    ensures |Trim(s)| <= |s|
  {
    var a, b := TrimIsInfix(s);
  }

  /** parseSide: the trimmed non-empty chunks between plus signs, each with its coefficient. */
  function ParseSide(side: string): (sps: seq<Species>)
    ensures |sps| == |Chunks(side)|
  {
    var cs := Chunks(side);
    seq(|cs|, i requires 0 <= i < |cs| => ReadCoefficient(cs[i]))
  }

  /**
   * parseEquation: exactly two pieces around the arrows ->, =>, = or →, and at least one species
   * on each side ("Provide exactly one reaction arrow", "Both sides must have at least one
   * species.").
   */
  function ParseEquation(eq: string): (r: Result<(seq<Species>, seq<Species>), EquationError>)
    ensures r.Err? ==> (r.error == NotOneArrow <==> |ArrowParts(eq)| != 2)
    ensures r.Ok? ==> |r.value.0| >= 1 && |r.value.1| >= 1
  {
    var parts := ArrowParts(eq);
    if |parts| != 2 then Err(NotOneArrow)
    else
      var reactants := ParseSide(parts[0]);
      var products := ParseSide(parts[1]);
      if |reactants| == 0 || |products| == 0 then Err(EmptySide) else Ok((reactants, products))
  }

  /** Reading coefficients from a list of species. */
  function ReadAll(cs: seq<string>): (sps: seq<Species>)
    ensures |sps| == |cs| && forall i :: 0 <= i < |cs| ==> sps[i] == ReadCoefficient(cs[i])
  {
    seq(|cs|, i requires 0 <= i < |cs| => ReadCoefficient(cs[i]))
  }

  /**
   * The reagent tools accept exactly the equations the balancer's splitArrow accepts, fail with
   * the same error otherwise, and see the same species, read with their coefficients.
   */
  lemma {:induction false} SameSplitAsBalancer(eq: string)
    ensures ParseEquation(eq).Ok? <==> SplitArrow(eq).Ok?
    ensures ParseEquation(eq).Err? ==> ParseEquation(eq).error == SplitArrow(eq).error
    ensures ParseEquation(eq).Ok? ==>
      ParseEquation(eq).value.0 == ReadAll(SplitArrow(eq).value.0) &&
      ParseEquation(eq).value.1 == ReadAll(SplitArrow(eq).value.1)
  {
  }

  // ---------------------------------------------------------------------------
  // Reading a coefficient back

  /** The digit run at the start of a number's decimal text followed by a non-digit is all of it. */
  lemma {:induction false} DigitRunOfNumber(digits: string, tail: string)
    requires AllDigits(digits) && (tail == [] || !IsDigit(tail[0]))
    ensures DigitRun(digits + tail, 0) == |digits|
  {
    DigitRunFrom(digits + tail, 0, |digits|);
  }

  lemma {:induction false} DigitRunFrom(s: string, i: nat, e: nat)
    requires i <= e <= |s| && (forall j :: i <= j < e ==> IsDigit(s[j])) && (e == |s| || !IsDigit(s[e]))
    ensures DigitRun(s, i) == e - i
    decreases e - i
  {
    if i < e {
      DigitRunFrom(s, i + 1, e);
    }
  }

  /** Text that starts with neither a digit nor white space is read with coefficient 1. */
  lemma {:induction false} ReadUncounted(f: string)
    requires f != [] && !IsDigit(f[0])
    ensures ReadCoefficient(f) == Species(1, f)
  {
  }

  /** "k f" and "kf" are read back as coefficient k and formula f. */
  lemma {:induction false} ReadCounted(k: nat, sep: string, f: string)
    requires AllSpace(sep)
    requires f != [] && !IsDigit(f[0]) && !IsSpace(f[0]) && !IsSpace(f[|f| - 1]) && NoLineBreak(f)
    ensures ReadCoefficient(NatToString(k) + sep + f) == Species(k, f)
  {
    var n := NatToString(k);
    var chunk := n + sep + f;
    var d, e := |n|, |n| + |sep|;
    CountedPieces(n, sep, f, chunk);
    DigitRunOfNumber(n, sep + f);
    SpaceRunOf(chunk, d, e);
    TrimNoEnds(f);
    ReadCoefficientAt(chunk, d, e - d);
  }

  /** The digits, the white space and the species of a counted chunk, where each lies. */
  lemma {:induction false} CountedPieces(n: string, sep: string, f: string, chunk: string)
    requires chunk == n + sep + f && AllSpace(sep) && f != [] && !IsDigit(f[0]) && !IsSpace(f[0])
    ensures chunk == n + (sep + f) && !IsDigit((sep + f)[0])
    ensures |n| + |sep| < |chunk| && chunk[..|n|] == n && chunk[|n| + |sep|..] == f
    ensures (forall j :: |n| <= j < |n| + |sep| ==> IsSpace(chunk[j])) && !IsSpace(chunk[|n| + |sep|])
  {
    var tail := sep + f;
    assert tail[0] == (if |sep| > 0 then sep[0] else f[0]);
    assert chunk[..|n|] == n;
    assert chunk[|n| + |sep|..] == f;
    forall j | |n| <= j < |n| + |sep| ensures IsSpace(chunk[j]) {
      assert chunk[j] == sep[j - |n|];
    }
  }

  /** A chunk that starts with d digits and then w white space is read as number and trimmed rest. */
  lemma {:induction false} ReadCoefficientAt(chunk: string, d: nat, w: nat)
    requires 0 < d <= |chunk| && d == DigitRun(chunk, 0) && w == SpaceRun(chunk, d)
    requires NoLineBreak(chunk[d + w..])
    ensures ReadCoefficient(chunk) == Species(DigitsValue(chunk[..d]), Trim(chunk[d + w..]))
  {
  }

  lemma {:induction false} SpaceRunOf(s: string, i: nat, e: nat)
    requires i <= e < |s| && (forall j :: i <= j < e ==> IsSpace(s[j])) && !IsSpace(s[e])
    ensures SpaceRun(s, i) == e - i
    decreases e - i
  {
    if i < e {
      SpaceRunOf(s, i + 1, e);
    }
  }

  /** What the balancer's answer promises a reader: each species with the size of its coefficient. */
  function Coefficients(items: seq<string>, ks: seq<int>): (sps: seq<Species>)
    requires |ks| == |items|
    ensures |sps| == |items|
    ensures forall i :: 0 <= i < |items| ==> sps[i].coef == Abs(ks[i]) && sps[i].formula == items[i]
  {
    seq(|items|, i requires 0 <= i < |items| => Species(Abs(ks[i]), items[i]))
  }

  /** A species the coefficient reader cannot confuse with a count: it starts with no digit. */
  predicate Readable(items: seq<string>)
  {
    forall i :: 0 <= i < |items| ==> items[i] != [] && !IsDigit(items[i][0]) && NoLineBreak(items[i])
  }

  /** A balancer term is a species in the sense of the split, and reads back as |k| and the species. */
  lemma {:induction false} TermReadsBack(x: string, k: int)
    requires Bare(x) && ArrowFree(x) && x[0] != '0' && !IsDigit(x[0]) && NoLineBreak(x)
    ensures Bare(Balance.Term(x, k)) && ArrowFree(Balance.Term(x, k))
    ensures ReadCoefficient(Balance.Term(x, k)) == Species(Abs(k), x)
  {
    var t := Balance.Term(x, k);
    if Abs(k) == 1 {
      assert t == x;
      ReadUncounted(x);
    } else {
      var n := NatToString(Abs(k));
      assert t == n + " " + x;
      ReadCounted(Abs(k), " ", x);
      CountedSpecies(n, x);
    }
  }

  lemma {:induction false} CountedSpecies(n: string, x: string)
    requires |n| >= 1 && AllDigits(n) && Bare(x) && ArrowFree(x)
    ensures Bare(n + " " + x) && ArrowFree(n + " " + x)
  {
    var t := n + " " + x;
    forall i | 0 <= i < |t|
      ensures t[i] != '+' && t[i] != '=' && t[i] != RightArrow && t[i] != '>'
    {
      if i >= |n| + 1 {
        assert t[i] == x[i - |n| - 1];
      }
    }
  }

  lemma {:induction false} TermsReadBack(items: seq<string>, ks: seq<int>)
    requires |ks| == |items| && Equation.Species(items) && Readable(items)
    ensures Equation.Species(Balance.Terms(items, ks))
    ensures ReadAll(Balance.Terms(items, ks)) == Coefficients(items, ks)
  {
    var ts := Balance.Terms(items, ks);
    forall i | 0 <= i < |items|
      ensures Bare(ts[i]) && ArrowFree(ts[i]) && ReadCoefficient(ts[i]) == Species(Abs(ks[i]), items[i])
    {
      TermReadsBack(items[i], ks[i]);
    }
  }

  lemma {:induction false} WrittenAs(a: string, b: string)
    ensures a + [' ', RightArrow, ' '] + b == a + " " + [RightArrow] + " " + b
  {
  }

  /**
   * The reagent tools read the balancer's printed answer back as the same species with the
   * printed coefficients, whatever the coefficients are.
   */
  lemma {:induction false} ReadsBalancedEquation(left: seq<string>, right: seq<string>, ks: seq<int>)
    requires Equation.Species(left) && Equation.Species(right) && Readable(left) && Readable(right)
    requires |ks| == |left| + |right|
    ensures ParseEquation(Balance.Written(left, right, ks))
            == Ok((Coefficients(left, ks[..|left|]), Coefficients(right, ks[|left|..])))
  {
    var tl := Balance.Terms(left, ks[..|left|]);
    var tr := Balance.Terms(right, ks[|left|..]);
    TermsReadBack(left, ks[..|left|]);
    TermsReadBack(right, ks[|left|..]);
    WrittenAs(JoinWith(tl, " + "), JoinWith(tr, " + "));
    SplitArrowOfJoin(tl, [RightArrow], tr);
    SameSplitAsBalancer(Balance.Written(left, right, ks));
  }

  // ---------------------------------------------------------------------------
  // Weights

  /** `AW`: the symbols that have a numeric atomic weight, with that weight. */
  type Weights = map<string, real>

  /** The symbols of a count map, in entry order, that have no weight. */
  function Missing(c: Counts, aw: Weights): (ms: seq<string>)
  {
    if |c| == 0 then []
    else (if c[0].0 in aw then [] else [c[0].0]) + Missing(c[1..], aw)
  }

  /** Exactly the symbols of the map that have no weight are reported missing. */
  lemma {:induction false} MissingIff(c: Counts, aw: Weights)
    ensures forall s :: s in Missing(c, aw) <==> s in Keys(c) && s !in aw
  {
    if |c| > 0 {
      MissingIff(c[1..], aw);
      assert Keys(c) == [c[0].0] + Keys(c[1..]);
    }
  }

  /** The contribution of one entry: weight × count, or nothing for a symbol without a weight. */
  function EntryMass(e: (string, nat), aw: Weights): real
  {
    if e.0 in aw then aw[e.0] * e.1 as real else 0.0
  }

  /** Σ weight × count over the entries whose symbol has a weight. */
  function Mass(c: Counts, aw: Weights): real
  {
    if |c| == 0 then 0.0 else EntryMass(c[0], aw) + Mass(c[1..], aw)
  }

  lemma {:induction false} MissingSnoc(c: Counts, aw: Weights, i: nat)
    requires i < |c|
    ensures Missing(c[..i + 1], aw) == Missing(c[..i], aw) + (if c[i].0 in aw then [] else [c[i].0])
    decreases i
  {
    if i > 0 {
      var d := c[1..];
      PrefixTail(c, i);
      MissingSnoc(d, aw, i - 1);
    } else {
      assert c[..1][1..] == [];
    }
  }

  lemma {:induction false} MassSnoc(c: Counts, aw: Weights, i: nat)
    requires i < |c|
    ensures Mass(c[..i + 1], aw) == Mass(c[..i], aw) + EntryMass(c[i], aw)
    decreases i
  {
    if i > 0 {
      var d := c[1..];
      PrefixTail(c, i);
      MassSnoc(d, aw, i - 1);
    } else {
      assert c[..1][1..] == [];
    }
  }

  /** The prefixes of c through i, without their first entry, are prefixes of c[1..]. */
  lemma {:induction false} PrefixTail(c: Counts, i: nat)
    requires 0 < i < |c|
    ensures c[..i + 1][0] == c[0] && c[..i][0] == c[0] && c[1..][i - 1] == c[i]
    ensures c[..i + 1][1..] == c[1..][..i] && c[..i][1..] == c[1..][..i - 1]
  {
  }

  /**
   * The loop of molarMass / molarMassFromCounts over Object.entries(counts): a symbol with a weight
   * adds weight × count to the sum, one without is pushed onto `missing`.
   */
  method WeighCounts(c: Counts, aw: Weights) returns (mm: real, missing: seq<string>)
    ensures missing == Missing(c, aw)
    ensures mm == Mass(c, aw)
  {
    mm := 0.0;
    missing := [];
    var i := 0;
    while i < |c|
      invariant 0 <= i <= |c|
      invariant missing == Missing(c[..i], aw) && mm == Mass(c[..i], aw)
    {
      var (sym, n) := c[i];
      MissingSnoc(c, aw, i);
      MassSnoc(c, aw, i);
      if sym !in aw {
        missing := missing + [sym];
      } else {
        mm := mm + aw[sym] * n as real;
      }
      i := i + 1;
    }
    assert c[..i] == c;
  }

  /** Adding n atoms of k adds n times k's weight, whether k was present or appended. */
  lemma {:induction false} MassAdd(c: Counts, k: string, n: nat, aw: Weights)
    ensures Mass(Add(c, k, n), aw) == Mass(c, aw) + EntryMass((k, n), aw)
    decreases |c|
  {
    if |c| > 0 && c[0].0 != k {
      MassAdd(c[1..], k, n, aw);
      assert Add(c, k, n)[1..] == Add(c[1..], k, n);
    } else if |c| > 0 {
      assert Add(c, k, n)[1..] == c[1..];
      if k in aw {
        assert aw[k] * (c[0].1 + n) as real == aw[k] * c[0].1 as real + aw[k] * n as real;
      }
    }
  }

  /** x added to itself n times. */
  function Times(x: real, n: nat): (r: real)
    ensures r == n as real * x
  {
    if n == 0 then 0.0 else Times(x, n - 1) + x
  }

  lemma {:induction false} TimesAdd(x: real, y: real, n: nat)
    ensures Times(x + y, n) == Times(x, n) + Times(y, n)
  {
    if n > 0 {
      TimesAdd(x, y, n - 1);
    }
  }

  lemma {:induction false} ScaledEntry(k: string, n: nat, mult: nat, aw: Weights)
    ensures EntryMass((k, n * mult), aw) == Times(EntryMass((k, n), aw), mult)
  {
    if k in aw {
      assert (n * mult) as real == n as real * mult as real;
    }
  }

  /**
   * Closing a group multiplies its mass: the enclosing scope gains mult times the group's mass.
   * This is why a parenthesised group with multiplier m weighs m times its contents.
   */
  lemma {:induction false} MassMerge(top: Counts, group: Counts, mult: nat, aw: Weights)
    ensures Mass(Merge(top, group, mult), aw) == Mass(top, aw) + Times(Mass(group, aw), mult)
    ensures Mass(Merge(top, group, mult), aw) == Mass(top, aw) + mult as real * Mass(group, aw)
    decreases |group|
  {
    if |group| > 0 {
      var k, n := group[0].0, group[0].1;
      MassAdd(top, k, n * mult, aw);
      MassMerge(Add(top, k, n * mult), group[1..], mult, aw);
      ScaledEntry(k, n, mult, aw);
      TimesAdd(EntryMass((k, n), aw), Mass(group[1..], aw), mult);
    }
  }

  /**
   * molarMass of the limiting-reagent and yield tools: parse with the whitespace-stripping parser
   * (which throws on a bad formula), then weigh the counts.
   */
  method MolarMass(formula: string, aw: Weights) returns (r: Result<(real, seq<string>), ParseError>)
    ensures r.Err? <==> Parse(Strict, formula).Err?
    ensures r.Err? ==> r.error == Parse(Strict, formula).error
    ensures r.Ok? ==> r.value.0 == Mass(Parse(Strict, formula).value, aw)
                      && r.value.1 == Missing(Parse(Strict, formula).value, aw)
  {
    var counts := ParseFormula(Strict, formula);
    if counts.Err? {
      return Err(counts.error);
    }
    var mm, missing := WeighCounts(counts.value, aw);
    return Ok((mm, missing));
  }

  /**
   * The stoichiometry tool's analysis of its formula field: a formula the parser rejects gives
   * `counts: null`, no molar mass (NaN, here None) and no missing symbols instead of an exception.
   */
  method AnalyseFormula(formula: string, aw: Weights) returns (counts: Option<Counts>, mm: Option<real>, missing: seq<string>)
    ensures counts.None? <==> Parse(Strict, formula).Err?
    ensures counts.None? ==> mm.None? && missing == []
    ensures counts.Some? ==> counts.value == Parse(Strict, formula).value
                             && mm == Some(Mass(counts.value, aw)) && missing == Missing(counts.value, aw)
  {
    var c := ParseFormula(Strict, formula);
    if c.Err? {
      return None, None, [];
    }
    var m, ms := WeighCounts(c.value, aw);
    return Some(c.value), Some(m), ms;
  }
}

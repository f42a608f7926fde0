/**
 * A worked input for the balancer's sign handling: "O2 -> H2O + H2". Its only balancing vectors are
 * the multiples of (1, 2, -2): hydrogen can only be conserved with H2 on the left. balanceEquation
 * keeps such a mixed-sign vector and prints absolute values, so it answers "O2 → 2 H2O + 2 H2",
 * in which the right side has eight hydrogen atoms and the left none.
 */
module SignExample {
  import opened Wrappers
  import opened Text
  import opened Counts
  import opened Formula
  import opened FormulaRender
  import opened Equation
  import opened NumberTheory
  import opened Matrix
  import opened Nullspace
  import opened Balance

  const Input: string := "O2 -> H2O + H2"
  const Left: seq<string> := ["O2"]
  const Right: seq<string> := ["H2O", "H2"]
  const Tallies: seq<Counts> := [[("O", 2)], [("H", 2), ("O", 1)], [("H", 2)]]

  /** The three species joined as the input writes them. */
  lemma {:induction false} Joined()
    ensures JoinWith(Left, " + ") + " " + "->" + " " + JoinWith(Right, " + ") == Input
  {
    assert Right[1..] == ["H2"];
    assert JoinWith(Right, " + ") == "H2O" + " + " + "H2";
  }

  /** The input has no dash before white space, so the dash rewrite leaves it alone. */
  lemma {:induction false} InputUnchanged()
    ensures Sanitize("O2 -> H2O + H2") == "O2 -> H2O + H2"
  {
    SanitizeIdentity("O2 -> H2O + H2");
  }

  lemma {:induction false} BareSpecies()
    ensures Species(Left) && Species(Right)
  {
    assert Bare("O2") && ArrowFree("O2");
    assert Bare("H2O") && ArrowFree("H2O");
    assert Bare("H2") && ArrowFree("H2");
  }

  lemma {:induction false} InputSides()
    ensures Sides(Input) == Ok((Left, Right))
  {
    BareSpecies();
    Joined();
    SplitArrowOfJoin(Left, "->", Right);
    InputUnchanged();
  }

  /** An element symbol followed by one digit, not followed by another digit. */
  lemma {:induction false} CountedElement(s: string, i: nat, stack: seq<Counts>, n: nat)
    requires i + 1 < |s| && IsUpper(s[i]) && IsDigit(s[i + 1]) && (i + 2 == |s| || !IsDigit(s[i + 2]))
    requires |stack| > 0 && n == DigitValue(s[i + 1])
    ensures Step(Balancer, s, i, stack) == Ok((i + 2, stack[..|stack| - 1] + [Add(stack[|stack| - 1], [s[i]], n)]))
  {
    SymbolStep(Balancer, s, i, stack);
    assert SymbolLength(s, i) == 1;
    assert DigitRun(s, i + 1) == 1;
    assert s[i..i + 1] == [s[i]];
    assert s[i + 1..i + 2] == [s[i + 1]];
    assert DigitsValue([s[i + 1]]) == n by {
      assert [s[i + 1]][..0] == [];
    }
    assert Multiplier(s, i + 1) == n;
    StepIs(Step(Balancer, s, i, stack), i + 2, stack[..|stack| - 1] + [Add(stack[|stack| - 1], [s[i]], n)]);
  }

  /** A one-letter element symbol with no count after it. */
  lemma {:induction false} BareElement(s: string, i: nat, stack: seq<Counts>)
    requires i < |s| && IsUpper(s[i]) && (i + 1 == |s| || (!IsDigit(s[i + 1]) && !IsLower(s[i + 1])))
    requires |stack| > 0
    ensures Step(Balancer, s, i, stack) == Ok((i + 1, stack[..|stack| - 1] + [Add(stack[|stack| - 1], [s[i]], 1)]))
  {
    SymbolStep(Balancer, s, i, stack);
    assert SymbolLength(s, i) == 1;
    assert DigitRun(s, i + 1) == 0;
    assert s[i..i + 1] == [s[i]];
    StepIs(Step(Balancer, s, i, stack), i + 1, stack[..|stack| - 1] + [Add(stack[|stack| - 1], [s[i]], 1)]);
  }

  lemma {:induction false} ScanEnd(s: string, c: Counts)
    ensures Scan(Balancer, s, |s|, [c]) == Ok(c)
  {
  }

  /** The innermost scope of a one-scope stack replaced. */
  lemma {:induction false} OneScope(c: Counts, c': Counts)
    ensures [c][..0] + [c'] == [c'] && [c][0] == c
  {
  }

  /** A formula of one symbol letter and one digit. */
  lemma {:induction false} ParseOneCounted(s: string, c: Counts)
    requires |s| == 2 && IsUpper(s[0]) && IsDigit(s[1])
    requires c == Add([], [s[0]], DigitValue(s[1]))
    ensures Parse(Balancer, s) == Ok(c)
  {
    CountedElement(s, 0, [[]], DigitValue(s[1]));
    OneScope([], c);
    ScanPast(Balancer, s, 0, [[]], 2, [c]);
    ScanEnd(s, c);
  }

  lemma {:induction false} ParseO2()
    ensures Parse(Balancer, "O2") == Ok([("O", 2)])
  {
    assert Add([], "O", 2) == [("O", 2)];
    ParseOneCounted("O2", [("O", 2)]);
  }

  lemma {:induction false} ParseH2()
    ensures Parse(Balancer, "H2") == Ok([("H", 2)])
  {
    assert Add([], "H", 2) == [("H", 2)];
    ParseOneCounted("H2", [("H", 2)]);
  }

  lemma {:induction false} ParseH2O()
    ensures Parse(Balancer, "H2O") == Ok([("H", 2), ("O", 1)])
  {
    var s := "H2O";
    var h, ho := [("H", 2)], [("H", 2), ("O", 1)];
    assert Add([], "H", 2) == h;
    assert Add(h, "O", 1) == ho;
    CountedElement(s, 0, [[]], 2);
    OneScope([], h);
    ScanPast(Balancer, s, 0, [[]], 2, [h]);
    BareElement(s, 2, [h]);
    OneScope(h, ho);
    ScanPast(Balancer, s, 2, [h], 3, [ho]);
    ScanEnd(s, ho);
  }

  /** Three species with known count maps. */
  lemma {:induction false} CountsOfThree(sp: seq<string>, a: Counts, b: Counts, c: Counts)
    requires |sp| == 3
    requires Parse(Balancer, sp[0]) == Ok(a) && Parse(Balancer, sp[1]) == Ok(b) && Parse(Balancer, sp[2]) == Ok(c)
    ensures AllParse(sp) && CountsOf(sp) == [a, b, c]
  {
  }

  lemma {:induction false} InputSpecies()
    ensures Left + Right == ["O2", "H2O", "H2"]
  {
  }

  lemma {:induction false} InputParsed()
    ensures Parsed(Input)
    ensures AllParse(Left + Right) && CountsOf(Left + Right) == Tallies
  {
    InputSides();
    ParseO2();
    ParseH2O();
    ParseH2();
    InputSpecies();
    CountsOfThree(Left + Right, [("O", 2)], [("H", 2), ("O", 1)], [("H", 2)]);
  }

  lemma {:induction false} AtomsOfOne(cs: seq<Counts>, x: seq<real>, el: string)
    requires |cs| == 1 && |x| == 1
    ensures Atoms(cs, x, el) == Get(cs[0], el) as real * x[0]
  {
    var v := CountVector(cs, el);
    assert v[..0] == [] && x[..0] == [];
    assert DotR(v, x) == DotR(v[..0], x[..0]) + v[0] * x[0];
  }

  lemma {:induction false} AtomsOfTwo(cs: seq<Counts>, x: seq<real>, el: string)
    requires |cs| == 2 && |x| == 2
    ensures Atoms(cs, x, el) == Get(cs[0], el) as real * x[0] + Get(cs[1], el) as real * x[1]
  {
    var v := CountVector(cs, el);
    assert v[..1][..0] == [] && x[..1][..0] == [];
    assert DotR(v[..1], x[..1]) == DotR(v[..1][..0], x[..1][..0]) + v[0] * x[0];
    assert DotR(v, x) == DotR(v[..1], x[..1]) + v[1] * x[1];
  }

  /** The conservation equations of the input: O gives 2·x0 = x1, H gives 0 = 2·x1 + 2·x2. */
  lemma {:induction false} InputConserved(x: seq<real>)
    requires |x| == 3
    ensures Conserved(Tallies, 1, x) <==> x[1] == 2.0 * x[0] && x[2] == -x[1]
  {
    var l, r := Tallies[..1], Tallies[1..];
    assert l[0] == [("O", 2)] && r[0] == [("H", 2), ("O", 1)] && r[1] == [("H", 2)];
    assert x[1..][0] == x[1] && x[1..][1] == x[2];
    forall el
      ensures Atoms(l, x[..1], el) == (if el == "O" then 2.0 * x[0] else 0.0)
      ensures Atoms(r, x[1..], el) == (if el == "O" then x[1] else if el == "H" then 2.0 * x[1] + 2.0 * x[2] else 0.0)
    {
      AtomsOfOne(l, x[..1], el);
      AtomsOfTwo(r, x[1..], el);
    }
    if Conserved(Tallies, 1, x) {
      assert Atoms(l, x[..1], "O") == Atoms(r, x[1..], "O");
      assert Atoms(l, x[..1], "H") == Atoms(r, x[1..], "H");
    }
  }

  /** The primitive vectors with a positive entry on the line x1 = 2·x0, x2 = -x1. */
  lemma {:induction false} PrimitiveOnLine(ks: seq<int>)
    requires |ks| == 3 && ks[1] == 2 * ks[0] && ks[2] == -ks[1]
    requires Primitive(ks) && exists c :: 0 <= c < |ks| && ks[c] > 0
    ensures ks == [1, 2, -2] || ks == [-1, -2, 2]
  {
    var g := Abs(ks[0]);
    assert g > 0;
    assert CommonDivisor(g, ks) by {
      DividesByWitness(g, ks[0], if ks[0] < 0 then -1 else 1);
      DividesByWitness(g, ks[1], if ks[0] < 0 then -2 else 2);
      DividesByWitness(g, ks[2], if ks[0] < 0 then 2 else -2);
    }
    assert ks == [ks[0], ks[1], ks[2]];
  }

  /** Both primitive solutions with a positive entry. */
  lemma {:induction false} InputCoefficients(ks: seq<int>)
    requires BalancedBy(Left, Right, ks)
    ensures ks == [1, 2, -2] || ks == [-1, -2, 2]
  {
    InputParsed();
    InputConserved(Reals(ks));
    PrimitiveOnLine(ks);
  }

  lemma {:induction false} TextOfTerms()
    ensures Term("O2", 1) == "O2" && Term("O2", -1) == "O2"
    ensures Term("H2O", 2) == "2 H2O" && Term("H2O", -2) == "2 H2O"
    ensures Term("H2", 2) == "2 H2" && Term("H2", -2) == "2 H2"
  {
    assert NatToString(2) == "2";
  }

  lemma {:induction false} SideOfOne(a: string, k: int)
    ensures SideText([a], [k]) == Term(a, k)
  {
    assert Terms([a], [k]) == [Term(a, k)];
  }

  lemma {:induction false} SideOfTwo(a: string, b: string, k: int, m: int)
    ensures SideText([a, b], [k, m]) == Term(a, k) + " + " + Term(b, m)
  {
    var ts := Terms([a, b], [k, m]);
    assert ts == [Term(a, k), Term(b, m)];
    assert ts[1..] == [Term(b, m)];
    assert JoinWith(ts[1..], " + ") == Term(b, m);
  }

  /** What the written equation is for either solution. */
  lemma {:induction false} InputWritten(ks: seq<int>)
    requires ks == [1, 2, -2] || ks == [-1, -2, 2]
    ensures Written(Left, Right, ks) == "O2 " + [RightArrow] + " 2 H2O + 2 H2"
  {
    TextOfTerms();
    assert ks[..1] == [ks[0]] && ks[1..] == [ks[1], ks[2]];
    SideOfOne("O2", ks[0]);
    SideOfTwo("H2O", "H2", ks[1], ks[2]);
  }

  /**
   * Whatever balanceEquation answers for the input is "O2 → 2 H2O + 2 H2", and the coefficients it
   * shows do not conserve hydrogen.
   */
  lemma {:induction false} MixedSignsPrintUnbalanced(out: string)
    requires BalancedText(Input, out)
    ensures out == "O2 " + [RightArrow] + " 2 H2O + 2 H2"
    ensures !Conserved(Tallies, 1, [1.0, 2.0, 2.0])
  {
    InputSides();
    InputParsed();
    var ks :| BalancedBy(Left, Right, ks) && out == Written(Left, Right, ks);
    InputCoefficients(ks);
    InputWritten(ks);
    InputConserved([1.0, 2.0, 2.0]);
  }

  /**
   * And it does answer: the input splits, parses, has element rows and a non-zero balancing
   * vector, so none of balanceEquation's errors applies.
   */
  lemma {:induction false} InputIsAnswered()
    ensures Parsed(Input)
    ensures Elements(CountsOf(Sides(Input).value.0 + Sides(Input).value.1)) != []
    ensures !OnlyZeroConserved(CountsOf(Sides(Input).value.0 + Sides(Input).value.1), |Sides(Input).value.0|)
  {
    InputSides();
    InputParsed();
    assert "O" in Keys(Tallies[0]);
    assert "O" in Elements(Tallies);
    InputConserved([1.0, 2.0, -2.0]);
    NonZeroConserved(Tallies, 1, [1.0, 2.0, -2.0], 0);
  }

  /**
   * The answer itself: balanceEquation on the input succeeds, and its text is the unbalanced
   * "O2 → 2 H2O + 2 H2".
   */
  method AnswerForInput() returns (res: Result<string, BalanceError>)
    ensures res == Ok("O2 " + [RightArrow] + " 2 H2O + 2 H2")
  {
    res := BalanceEquation(Input);
    NoErrorApplies(res);
    MixedSignsPrintUnbalanced(res.value);
  }

  /** What balanceEquation promises about its errors rules each of them out for the input. */
  lemma {:induction false} NoErrorApplies(res: Result<string, BalanceError>)
    requires Sides(Input).Err? <==> res.Err? && res.error.Unsplittable?
    requires res.Err? && res.error.BadSpecies? <==> Sides(Input).Ok? && !Parsed(Input)
    requires res == Err(Unsolvable(EmptyMatrix)) <==>
      Parsed(Input) && Elements(CountsOf(Sides(Input).value.0 + Sides(Input).value.1)) == []
    requires res == Err(Unsolvable(NoFreeVariable)) ==>
      Parsed(Input) && OnlyZeroConserved(CountsOf(Sides(Input).value.0 + Sides(Input).value.1), |Sides(Input).value.0|)
    requires res.Err? ==> res.error != MixedSigns
    ensures res.Ok?
  {
    InputSides();
    InputIsAnswered();
    var cs := CountsOf(Sides(Input).value.0 + Sides(Input).value.1);
    assert Elements(cs) != [] && !OnlyZeroConserved(cs, |Sides(Input).value.0|);
    if res.Err? {
      match res.error
      case Unsolvable(EmptyMatrix) => assert false;
      case Unsolvable(NoFreeVariable) => assert false;
      case _ =>
    }
  }

  /** The checked variant refuses the input instead of printing it. */
  lemma {:induction false} CheckedRefusesInput(out: string)
    ensures !TrulyBalancedText(Input, out)
  {
    InputSides();
    InputParsed();
    if TrulyBalancedText(Input, out) {
      var ks :| BalancedBy(Left, Right, ks) && out == Written(Left, Right, ks) &&
        Conserved(Tallies, 1, Reals(Printed(ks)));
      InputCoefficients(ks);
      InputConserved(Reals(Printed(ks)));
      assert false;
    }
  }
}

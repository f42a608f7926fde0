/**
 * What the formula parsers promise, proved about the scanner of module Formula:
 * parenthesis balance, the placement of lowercase letters and digits, the relations between
 * the three copies, keys that stay distinct, and worked examples.
 */
module FormulaProperties {
  import opened Wrappers
  import opened Text
  import opened Counts
  import opened Formula

  /** How often c occurs in t. */
  function Occurrences(t: string, c: char): nat
  {
    multiset(t)[c]
  }

  lemma {:induction false} OccurrencesSplit(s: string, i: nat, j: nat, c: char)
    requires i <= j <= |s|
    ensures Occurrences(s[i..], c) == Occurrences(s[i..j], c) + Occurrences(s[j..], c)
  {
    assert s[i..] == s[i..j] + s[j..];
  }

  lemma {:induction false} NoOccurrence(t: string, c: char)
    requires forall j :: 0 <= j < |t| ==> t[j] != c
    ensures Occurrences(t, c) == 0
  {
  }

  /** Deleting white space keeps every other character, with its multiplicity. */
  lemma {:induction false} StripSpaceOccurrences(s: string, c: char)
    requires !IsSpace(c)
    ensures Occurrences(StripSpace(s), c) == Occurrences(s, c)
    decreases |s|
  {
    if |s| > 0 {
      StripSpaceOccurrences(s[1..], c);
      assert s == [s[0]] + s[1..];
      if !IsSpace(s[0]) {
        assert StripSpace(s) == [s[0]] + StripSpace(s[1..]);
      }
    }
  }

  // ---------------------------------------------------------------------------
  // Balance of parentheses

  /**
   * After its first character, a token holds only digits, except for the lowercase second
   * letter of an element symbol; only `)` and element symbols are longer than one character.
   */
  lemma {:induction false} StepTail(d: Dialect, s: string, i: nat, stack: seq<Counts>)
    requires i < |s| && Step(d, s, i, stack).Ok?
    ensures i + 1 < Step(d, s, i, stack).value.0 ==> s[i] == ')' || IsUpper(s[i])
    ensures forall j :: i < j < Step(d, s, i, stack).value.0 ==>
              IsDigit(s[j]) || (j == i + 1 && IsLower(s[j]) && IsUpper(s[i]))
  {
    var next := Step(d, s, i, stack).value.0;
    if s[i] == ')' {
      CloseNext(d, s, i, stack);
      DigitsAt(s, i + 1);
    } else if IsUpper(s[i]) {
      SymbolNext(d, s, i, stack);
      DigitsAt(s, i + SymbolLength(s, i));
    } else {
      OtherNext(d, s, i, stack);
    }
  }

  lemma {:induction false} CloseNext(d: Dialect, s: string, i: nat, stack: seq<Counts>)
    requires i < |s| && s[i] == ')' && Step(d, s, i, stack).Ok?
    ensures Step(d, s, i, stack).value.0 == i + 1 + DigitRun(s, i + 1)
  {
  }

  lemma {:induction false} SymbolNext(d: Dialect, s: string, i: nat, stack: seq<Counts>)
    requires i < |s| && IsUpper(s[i]) && Step(d, s, i, stack).Ok?
    ensures Step(d, s, i, stack).value.0 == i + SymbolLength(s, i) + DigitRun(s, i + SymbolLength(s, i))
  {
  }

  lemma {:induction false} OtherNext(d: Dialect, s: string, i: nat, stack: seq<Counts>)
    requires i < |s| && s[i] != ')' && !IsUpper(s[i]) && Step(d, s, i, stack).Ok?
    ensures Step(d, s, i, stack).value.0 == i + 1
    ensures s[i] == '(' || Skipped(d, s[i])
  {
  }

  lemma {:induction false} DigitsAt(s: string, j: nat)
    requires j <= |s|
    ensures forall k :: j <= k < j + DigitRun(s, j) ==> IsDigit(s[k])
  {
    var n := DigitRun(s, j);
    forall k | j <= k < j + n
      ensures IsDigit(s[k])
    {
      assert s[k] == s[j..j + n][k - j];
    }
  }

  /** `(` pushes a scope, `)` pops one, and every other token keeps the depth. */
  lemma {:induction false} StepDepth(d: Dialect, s: string, i: nat, stack: seq<Counts>)
    requires i < |s| && Step(d, s, i, stack).Ok?
    ensures |Step(d, s, i, stack).value.1| + (if s[i] == ')' then 1 else 0)
         == |stack| + (if s[i] == '(' then 1 else 0)
  {
  }

  /** The parentheses one token consumes change the depth of the stack by as much. */
  lemma {:induction false} StepBalance(d: Dialect, s: string, i: nat, stack: seq<Counts>)
    requires i < |s| && Step(d, s, i, stack).Ok?
    ensures
      var (next, stack') := Step(d, s, i, stack).value;
      |stack'| + Occurrences(s[i..next], ')') == |stack| + Occurrences(s[i..next], '(')
  {
    var next := Step(d, s, i, stack).value.0;
    var rest := s[i + 1..next];
    StepTail(d, s, i, stack);
    StepDepth(d, s, i, stack);
    assert s[i..next] == [s[i]] + rest;
    NoParens(rest);
    OccurrencesCons(s[i], rest, '(');
    OccurrencesCons(s[i], rest, ')');
  }

  lemma {:induction false} OccurrencesCons(c0: char, t: string, c: char)
    ensures Occurrences([c0] + t, c) == (if c0 == c then 1 else 0) + Occurrences(t, c)
  {
    assert multiset([c0] + t) == multiset{c0} + multiset(t);
  }

  lemma {:induction false} NoParens(t: string)
    requires forall j :: 0 <= j < |t| ==> IsDigit(t[j]) || IsLower(t[j])
    ensures Occurrences(t, '(') == 0 && Occurrences(t, ')') == 0
  {
    NoOccurrence(t, '(');
    NoOccurrence(t, ')');
  }

  lemma {:induction false} ScanBalance(d: Dialect, s: string, i: nat, stack: seq<Counts>)
    requires d != Lenient
    requires i <= |s| && Scan(d, s, i, stack).Ok?
    ensures |stack| + Occurrences(s[i..], '(') == 1 + Occurrences(s[i..], ')')
    decreases |s| - i
  {
    if i < |s| {
      var (next, stack') := Step(d, s, i, stack).value;
      StepBalance(d, s, i, stack);
      ScanBalance(d, s, next, stack');
      OccurrencesSplit(s, i, next, '(');
      OccurrencesSplit(s, i, next, ')');
    }
  }

  /**
   * parseCompound and the strict parseFormula return only when `(` and `)` occur equally
   * often; their order is not checked.
   */
  lemma {:induction false} ParsedFormulaIsBalanced(d: Dialect, formula: string)
    requires d != Lenient && Parse(d, formula).Ok?
    ensures Occurrences(formula, '(') == Occurrences(formula, ')')
  {
    var s := Input(d, formula);
    ScanBalance(d, s, 0, [[]]);
    assert s[0..] == s;
    if d != Balancer {
      StripSpaceOccurrences(formula, '(');
      StripSpaceOccurrences(formula, ')');
    }
  }

  // ---------------------------------------------------------------------------
  // Where lowercase letters and digits may stand

  /**
   * A character the scanner accepts where it stands: a parenthesis, an uppercase letter, a
   * character the dialect skips, a lowercase letter right after an uppercase one, or a digit
   * right after a digit, a letter or `)`.
   */
  predicate Placed(d: Dialect, s: string, j: nat)
    requires j < |s|
  {
    || s[j] == '(' || s[j] == ')' || IsUpper(s[j]) || Skipped(d, s[j])
    || (IsLower(s[j]) && j > 0 && IsUpper(s[j - 1]))
    || (IsDigit(s[j]) && j > 0 && (IsDigit(s[j - 1]) || IsLetter(s[j - 1]) || s[j - 1] == ')'))
  }

  lemma {:induction false} StepPlaced(d: Dialect, s: string, i: nat, stack: seq<Counts>)
    requires i < |s| && Step(d, s, i, stack).Ok?
    ensures forall j :: i <= j < Step(d, s, i, stack).value.0 ==> Placed(d, s, j)
  {
    StepTail(d, s, i, stack);
    if s[i] != ')' && !IsUpper(s[i]) {
      OtherNext(d, s, i, stack);
    }
  }

  lemma {:induction false} ScanPlaced(d: Dialect, s: string, i: nat, stack: seq<Counts>)
    requires i <= |s| && Scan(d, s, i, stack).Ok?
    ensures forall j :: i <= j < |s| ==> Placed(d, s, j)
    decreases |s| - i
  {
    if i < |s| {
      var (next, stack') := Step(d, s, i, stack).value;
      StepPlaced(d, s, i, stack);
      ScanPlaced(d, s, next, stack');
    }
  }

  /**
   * Every character of an accepted formula is placed: in particular a digit that does not
   * follow a symbol, a digit or `)` is an unexpected token, as in "2 H2" or "CuSO4·5H2O".
   */
  lemma {:induction false} ParsedFormulaIsPlaced(d: Dialect, formula: string)
    requires Parse(d, formula).Ok?
    ensures forall j :: 0 <= j < |Input(d, formula)| ==> Placed(d, Input(d, formula), j)
  {
    ScanPlaced(d, Input(d, formula), 0, [[]]);
  }

  lemma {:induction false} StripSpaceKeeps(s: string, c: char)
    requires !IsSpace(c) && c in s
    ensures c in StripSpace(s)
  {
    StripSpaceOccurrences(s, c);
    assert c in multiset(s);
  }

  /** The whitespace-stripping copies throw on `+`, which parseCompound skips. */
  lemma {:induction false} StrictRejectsPlus(formula: string)
    requires '+' in formula
    ensures Parse(Strict, formula).Err?
  {
    var s := Input(Strict, formula);
    StripSpaceKeeps(formula, '+');
    var j :| 0 <= j < |s| && s[j] == '+';
    assert !Placed(Strict, s, j);
    if Parse(Strict, formula).Ok? {
      ParsedFormulaIsPlaced(Strict, formula);
      assert false;
    }
  }

  // ---------------------------------------------------------------------------
  // The copies compared

  predicate NoPlus(s: string)
  {
    forall j :: 0 <= j < |s| ==> s[j] != '+'
  }

  lemma {:induction false} BalancerScanIsStrictScan(s: string, i: nat, stack: seq<Counts>)
    requires i <= |s| && NoSpace(s) && NoPlus(s)
    ensures Scan(Balancer, s, i, stack) == Scan(Strict, s, i, stack)
    decreases |s| - i
  {
    if i < |s| {
      assert Step(Balancer, s, i, stack) == Step(Strict, s, i, stack);
      match Step(Balancer, s, i, stack)
      case Err(_) =>
      case Ok((next, stack')) =>
        BalancerScanIsStrictScan(s, next, stack');
    }
  }

  /**
   * On a formula without `+`, the three whitespace-stripping copies compute exactly what
   * parseCompound computes on the formula with its white space deleted.
   */
  lemma {:induction false} StrictIsBalancerOnStrippedText(formula: string)
    requires NoPlus(formula)
    ensures Parse(Strict, formula) == Parse(Balancer, StripSpace(formula))
  {
    var s := StripSpace(formula);
    StripSpaceOccurrences(formula, '+');
    assert '+' !in multiset(formula);
    assert NoPlus(s) by {
      forall j | 0 <= j < |s|
        ensures s[j] != '+'
      {
        assert s[j] in multiset(s);
      }
    }
    BalancerScanIsStrictScan(s, 0, [[]]);
  }

  lemma {:induction false} LenientScanAgrees(s: string, i: nat, stack: seq<Counts>)
    requires i <= |s| && Scan(Strict, s, i, stack).Ok?
    ensures Scan(Lenient, s, i, stack) == Scan(Strict, s, i, stack)
    decreases |s| - i
  {
    if i < |s| {
      var (next, stack') := Step(Strict, s, i, stack).value;
      assert Step(Lenient, s, i, stack) == Step(Strict, s, i, stack);
      LenientScanAgrees(s, next, stack');
    }
  }

  /**
   * Whatever a strict copy accepts, the lenient counting loop of ReactionStoichiometryTool
   * reads the same way; the lenient loop differs only on input the strict copies reject.
   */
  lemma {:induction false} LenientExtendsStrict(formula: string)
    requires Parse(Strict, formula).Ok?
    ensures Parse(Lenient, formula) == Parse(Strict, formula)
  {
    LenientScanAgrees(Input(Strict, formula), 0, [[]]);
  }

  // ---------------------------------------------------------------------------
  // Keys stay distinct

  predicate AllDistinct(stack: seq<Counts>)
  {
    forall k :: 0 <= k < |stack| ==> Distinct(stack[k])
  }

  lemma {:induction false} StepKeepsDistinct(d: Dialect, s: string, i: nat, stack: seq<Counts>)
    requires i < |s| && Step(d, s, i, stack).Ok? && AllDistinct(stack)
    ensures AllDistinct(Step(d, s, i, stack).value.1)
  {
    if s[i] == '(' {
      assert Keys([]) == [];
      assert Step(d, s, i, stack).value.1 == stack + [[]];
    } else if s[i] == ')' {
      CloseStack(d, s, i, stack);
      if |stack| >= 2 {
        var rest := stack[..|stack| - 1];
        MergeKeepsDistinct(stack[|stack| - 2], stack[|stack| - 1], Multiplier(s, i + 1));
        ReplaceTop(rest, Merge(stack[|stack| - 2], stack[|stack| - 1], Multiplier(s, i + 1)));
      }
    } else if IsUpper(s[i]) {
      var e := SymbolLength(s, i);
      SymbolStack(d, s, i, stack);
      AddKeepsDistinct(stack[|stack| - 1], s[i..i + e], Multiplier(s, i + e));
      ReplaceTop(stack, Add(stack[|stack| - 1], s[i..i + e], Multiplier(s, i + e)));
    } else {
      OtherNext(d, s, i, stack);
      assert Step(d, s, i, stack).value.1 == stack;
    }
  }

  /** The stack after a `)`: the bottom scope popped, or the group merged into its enclosing scope. */
  lemma {:induction false} CloseStack(d: Dialect, s: string, i: nat, stack: seq<Counts>)
    requires i < |s| && s[i] == ')' && Step(d, s, i, stack).Ok?
    ensures |stack| >= 1
    ensures |stack| == 1 ==> Step(d, s, i, stack).value.1 == []
    ensures |stack| >= 2 ==>
              Step(d, s, i, stack).value.1
              == stack[..|stack| - 1][..|stack| - 2] + [Merge(stack[|stack| - 2], stack[|stack| - 1], Multiplier(s, i + 1))]
  {
  }

  lemma {:induction false} SymbolStack(d: Dialect, s: string, i: nat, stack: seq<Counts>)
    requires i < |s| && IsUpper(s[i]) && Step(d, s, i, stack).Ok?
    ensures |stack| >= 1
    ensures Step(d, s, i, stack).value.1
      == stack[..|stack| - 1] + [Add(stack[|stack| - 1], s[i..i + SymbolLength(s, i)], Multiplier(s, i + SymbolLength(s, i)))]
  {
  }

  /** Replacing the innermost scope by one with distinct keys keeps every scope's keys distinct. */
  lemma {:induction false} ReplaceTop(stack: seq<Counts>, top: Counts)
    requires |stack| >= 1 && AllDistinct(stack) && Distinct(top)
    ensures AllDistinct(stack[..|stack| - 1] + [top])
  {
    var r := stack[..|stack| - 1] + [top];
    forall k | 0 <= k < |r|
      ensures Distinct(r[k])
    {
      if k < |stack| - 1 {
        assert r[k] == stack[k];
      }
    }
  }

  lemma {:induction false} ScanKeepsDistinct(d: Dialect, s: string, i: nat, stack: seq<Counts>)
    requires i <= |s| && Scan(d, s, i, stack).Ok? && AllDistinct(stack)
    ensures Distinct(Scan(d, s, i, stack).value)
    decreases |s| - i
  {
    if i < |s| {
      var (next, stack') := Step(d, s, i, stack).value;
      StepKeepsDistinct(d, s, i, stack);
      ScanKeepsDistinct(d, s, next, stack');
    }
  }

  /** A parsed count map names each symbol once, like the JavaScript object it models. */
  lemma {:induction false} ParsedCountsAreDistinct(d: Dialect, formula: string)
    requires Parse(d, formula).Ok?
    ensures Distinct(Parse(d, formula).value)
  {
    assert Keys([]) == [];
    ScanKeepsDistinct(d, Input(d, formula), 0, [[]]);
  }
}

/**
 * The stack-of-count-maps formula parser and its copies.
 *
 *  - Balancer: parseCompound (components/tools/EquationBalancer.tsx:163-226). The input is
 *    scanned as given; white space, `+`, `.` and `·` are skipped.
 *  - Strict: parseFormula of LimitingReagentTool.tsx:18-63, YieldCalculator.tsx:18-69 and
 *    StoichiometryTool.tsx:26-70, three identical copies. White space is deleted first;
 *    `.` and `·` are skipped and `+` is an unexpected token.
 *  - Lenient: the atom-counting loop of molarMass in ReactionStoichiometryTool.tsx:36-79.
 *    White space is deleted first, every unrecognised character is skipped, and the result
 *    is the bottom scope, so atoms inside an unclosed group are dropped.
 *
 * A symbol is one uppercase ASCII letter and an optional lowercase one; its count is the
 * digit run after it (1 when there is none). `(` opens a scope; `)` reads its own digit run
 * as a multiplier, pops the scope and adds it, multiplied, into the enclosing one.
 *
 * JavaScript failures are errors of the model: a thrown Error ("Unexpected token",
 * "Mismatched parentheses") and the TypeError raised when the code reads or writes a count
 * map through `undefined`, which happens once a `)` has popped the bottom scope.
 */
module Formula {
  import opened Wrappers
  import opened Text
  import opened Counts

  datatype Dialect = Balancer | Strict | Lenient

  datatype ParseError =
    | UnexpectedToken(ch: char)
    | MismatchedParens
    /** A TypeError: a count map accessed through an undefined scope. */
    | UndefinedScope

  const MiddleDot: char := 0xB7 as char

  /** The text the scanner walks: the three whitespace-stripping copies delete all of `\s`. */
  function Input(d: Dialect, formula: string): (s: string)
    ensures d == Balancer ==> s == formula
    ensures d != Balancer ==> NoSpace(s)
  {
    if d == Balancer then formula else StripSpace(formula)
  }

  /** The characters a dialect steps over without effect. */
  predicate Skipped(d: Dialect, c: char)
  {
    match d
    case Balancer => c == MiddleDot || c == '.' || IsSpace(c) || c == '+'
    case Strict => c == MiddleDot || c == '.'
    case Lenient => true
  }

  /** The length of the element symbol at i: `/[A-Z][a-z]?/y`. */
  function SymbolLength(s: string, i: nat): (e: nat)
    requires i < |s| && IsUpper(s[i])
    ensures e == 1 || e == 2
    ensures i + e <= |s|
    ensures e == 2 <==> i + 1 < |s| && IsLower(s[i + 1])
  {
    if i + 1 < |s| && IsLower(s[i + 1]) then 2 else 1
  }

  /** `m ? parseInt(m[0], 10) : 1` for the sticky `/\d+/y` at j. */
  function Multiplier(s: string, j: nat): (m: nat)
    requires j <= |s|
    ensures DigitRun(s, j) == 0 ==> m == 1
  {
    var k := DigitRun(s, j);
    if k == 0 then 1 else DigitsValue(s[j..j + k])
  }

  /** The end of the scan: the three copies differ in how they read the final stack. */
  function Finish(d: Dialect, stack: seq<Counts>): (r: Result<Counts, ParseError>)
    ensures d != Lenient ==> (r.Ok? <==> |stack| == 1)
    ensures d == Lenient ==> (r.Ok? <==> |stack| >= 1)
    ensures r.Ok? ==> r.value == stack[0]
  {
    if d == Lenient then
      if |stack| == 0 then Err(UndefinedScope) else Ok(stack[0])
    else if |stack| != 1 then Err(MismatchedParens)
    else Ok(stack[0])
  }

  /**
   * One token of the scan at position i < |s|: the position after it and the new stack of open
   * scopes (innermost last), or the error the token raises.
   */
  function Step(d: Dialect, s: string, i: nat, stack: seq<Counts>): (r: Result<(nat, seq<Counts>), ParseError>)
    requires i < |s|
    ensures r.Ok? ==> i < r.value.0 <= |s|
  {
    if s[i] == '(' then
      Ok((i + 1, stack + [[]]))
    else if s[i] == ')' then
      var next := i + 1 + DigitRun(s, i + 1);
      if |stack| == 0 then
        Err(if d == Lenient then UndefinedScope else MismatchedParens)
      else
        var group := stack[|stack| - 1];
        var rest := stack[..|stack| - 1];
        if |rest| == 0 then
          if |group| > 0 then Err(UndefinedScope) else Ok((next, rest))
        else
          Ok((next, rest[..|rest| - 1] + [Merge(rest[|rest| - 1], group, Multiplier(s, i + 1))]))
    else if IsUpper(s[i]) then
      var e := SymbolLength(s, i);
      if |stack| == 0 then Err(UndefinedScope)
      else
        Ok((i + e + DigitRun(s, i + e),
            stack[..|stack| - 1] + [Add(stack[|stack| - 1], s[i..i + e], Multiplier(s, i + e))]))
    else if Skipped(d, s[i]) then
      Ok((i + 1, stack))
    else
      Err(UnexpectedToken(s[i]))
  }

  /** The parser from position i on, with the stack of open scopes. */
  function Scan(d: Dialect, s: string, i: nat, stack: seq<Counts>): Result<Counts, ParseError>
    requires i <= |s|
    decreases |s| - i, 1
  {
    if i == |s| then Finish(d, stack) else Continue(d, s, i, Step(d, s, i, stack))
  }

  /** The scan after the token at i: stop at an error, else go on from where the token ended. */
  function Continue(d: Dialect, s: string, i: nat, r: Result<(nat, seq<Counts>), ParseError>): Result<Counts, ParseError>
    requires i < |s| && (r.Ok? ==> i < r.value.0 <= |s|)
    decreases |s| - i, 0
  {
    match r
    case Err(e) => Err(e)
    case Ok((next, stack')) => Scan(d, s, next, stack')
  }

  /** The parser's result for a whole formula. */
  function Parse(d: Dialect, formula: string): Result<Counts, ParseError>
  {
    Scan(d, Input(d, formula), 0, [[]])
  }

  // ---------------------------------------------------------------------------
  // The imperative parser

  /** The sticky `/\d+/y` exec at j and parseInt of what it matched. */
  method ReadMultiplier(s: string, j: nat) returns (next: nat, mult: nat)
    requires j <= |s|
    ensures next == j + DigitRun(s, j) && next <= |s|
    ensures mult == Multiplier(s, j)
    ensures next > j ==> mult == DigitsValue(s[j..next])
  {
    next := j;
    var value := 0;
    while next < |s| && IsDigit(s[next])
      invariant j <= next <= |s|
      invariant AllDigits(s[j..next])
      invariant value == DigitsValue(s[j..next])
      invariant DigitRun(s, j) == (next - j) + DigitRun(s, next)
      decreases |s| - next
    {
      assert s[j..next + 1][..next - j] == s[j..next];
      value := value * 10 + DigitValue(s[next]);
      next := next + 1;
    }
    mult := if next == j then 1 else value;
  }

  /** The `for … of Object.entries(group)` loop adding a closed group into its scope. */
  method MergeInto(top: Counts, group: Counts, mult: nat) returns (r: Counts)
    ensures r == Merge(top, group, mult)
  {
    r := top;
    var idx := 0;
    while idx < |group|
      invariant 0 <= idx <= |group|
      invariant r == Merge(top, group[..idx], mult)
    {
      ProductIsNat(group[idx].1, mult);
      MergeSnoc(top, group[..idx], group[idx], mult);
      assert group[..idx + 1] == group[..idx] + [group[idx]];
      r := Add(r, group[idx].0, group[idx].1 * mult);
      idx := idx + 1;
    }
    assert group[..idx] == group;
  }

  lemma {:induction false} ProductIsNat(a: nat, b: nat)
    ensures a * b >= 0
  {
  }

  /** Merging one more entry adds it last. */
  lemma {:induction false} MergeSnoc(top: Counts, group: Counts, entry: (string, nat), mult: nat)
    ensures Merge(top, group + [entry], mult) == Add(Merge(top, group, mult), entry.0, entry.1 * mult)
    decreases |group|
  {
    if |group| > 0 {
      assert (group + [entry])[1..] == group[1..] + [entry];
      MergeSnoc(Add(top, group[0].0, group[0].1 * mult), group[1..], entry, mult);
    } else {
      assert (group + [entry])[1..] == [];
    }
  }

  /** The `)` branch: read the multiplier, pop the group and add it into the enclosing scope. */
  method CloseGroup(d: Dialect, s: string, i: nat, stack: seq<Counts>)
    returns (r: Result<(nat, seq<Counts>), ParseError>)
    requires i < |s| && s[i] == ')'
    ensures r == Step(d, s, i, stack)
  {
    var next, mult := ReadMultiplier(s, i + 1);
    if |stack| == 0 {
      return Err(if d == Lenient then UndefinedScope else MismatchedParens);
    }
    var group := stack[|stack| - 1];
    var rest := stack[..|stack| - 1];
    if |rest| == 0 {
      if |group| > 0 {
        return Err(UndefinedScope);
      }
      return Ok((next, rest));
    }
    var top := MergeInto(rest[|rest| - 1], group, mult);
    assert Step(d, s, i, stack).Ok? && Step(d, s, i, stack).value.0 == next;
    assert Step(d, s, i, stack).value.1 == rest[..|rest| - 1] + [top];
    return Ok((next, rest[..|rest| - 1] + [top]));
  }

  /** The element branch: read the symbol and its count and add them to the innermost scope. */
  method ReadElement(d: Dialect, s: string, i: nat, stack: seq<Counts>)
    returns (r: Result<(nat, seq<Counts>), ParseError>)
    requires i < |s| && IsUpper(s[i])
    ensures r == Step(d, s, i, stack)
  {
    var e := SymbolLength(s, i);
    var next, mult := ReadMultiplier(s, i + e);
    if |stack| == 0 {
      return Err(UndefinedScope);
    }
    var top := Add(stack[|stack| - 1], s[i..i + e], mult);
    return Ok((next, stack[..|stack| - 1] + [top]));
  }

  /** One pass of the scanning loop: the branch taken for the character at i. */
  method ScanToken(d: Dialect, s: string, i: nat, stack: seq<Counts>)
    returns (r: Result<(nat, seq<Counts>), ParseError>)
    requires i < |s|
    ensures r == Step(d, s, i, stack)
  {
    var ch := s[i];
    if ch == '(' {
      r := Ok((i + 1, stack + [[]]));
    } else if ch == ')' {
      r := CloseGroup(d, s, i, stack);
    } else if IsUpper(ch) {
      r := ReadElement(d, s, i, stack);
    } else if Skipped(d, ch) {
      r := Ok((i + 1, stack));
    } else {
      r := Err(UnexpectedToken(ch));
    }
  }

  /** parseCompound / parseFormula / the molarMass counting loop, by dialect. */
  method ParseFormula(d: Dialect, formula: string) returns (r: Result<Counts, ParseError>)
    ensures r == Parse(d, formula)
  {
    var s := Input(d, formula);
    var stack: seq<Counts> := [[]];
    var i := 0;
    while i < |s|
      invariant 0 <= i <= |s|
      invariant Scan(d, s, i, stack) == Parse(d, formula)
      decreases |s| - i
    {
      var step := ScanToken(d, s, i, stack);
      match step
      case Err(e) =>
        return Err(e);
      case Ok((next, stack')) =>
        i, stack := next, stack';
    }
    if d == Lenient {
      r := if |stack| == 0 then Err(UndefinedScope) else Ok(stack[0]);
    } else {
      r := if |stack| != 1 then Err(MismatchedParens) else Ok(stack[0]);
    }
  }
}

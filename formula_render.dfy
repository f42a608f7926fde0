/**
 * The formula scanner against an independent reference: a formula written out from its
 * structure (symbols with optional counts, parenthesised groups with optional multipliers)
 * is read back, by every copy of the parser, as the count map that structure denotes.
 */
module FormulaRender {
  import opened Wrappers
  import opened Text
  import opened Counts
  import opened Formula

  datatype Part =
    | Atom(symbol: string, count: Option<nat>)
    | Group(parts: seq<Part>, mult: Option<nat>)

  /** An element symbol as the scanner reads it: `[A-Z][a-z]?`. */
  predicate ValidSymbol(sym: string)
  {
    (|sym| == 1 && IsUpper(sym[0])) || (|sym| == 2 && IsUpper(sym[0]) && IsLower(sym[1]))
  }

  predicate ValidPart(p: Part)
    decreases p, 1
  {
    match p
    case Atom(sym, _) => ValidSymbol(sym)
    case Group(ps, _) => ValidParts(ps)
  }

  predicate ValidParts(ps: seq<Part>)
    decreases ps, 0
  {
    |ps| == 0 || (ValidPart(ps[0]) && ValidParts(ps[1..]))
  }

  /** A count or multiplier as written: the digits, or nothing for the default 1. */
  function CountText(c: Option<nat>): string
  {
    if c.Some? then NatToString(c.value) else ""
  }

  function CountOf(c: Option<nat>): nat
  {
    if c.Some? then c.value else 1
  }

  function RenderPart(p: Part): string
    decreases p, 1
  {
    match p
    case Atom(sym, c) => sym + CountText(c)
    case Group(ps, m) => "(" + RenderParts(ps) + ")" + CountText(m)
  }

  function RenderParts(ps: seq<Part>): string
    decreases ps, 0
  {
    if |ps| == 0 then "" else RenderPart(ps[0]) + RenderParts(ps[1..])
  }

  /** The count map a structure denotes, built in the order its symbols are written. */
  function TallyPart(top: Counts, p: Part): Counts
    decreases p, 1
  {
    match p
    case Atom(sym, c) => Add(top, sym, CountOf(c))
    case Group(ps, m) => Merge(top, TallyParts([], ps), CountOf(m))
  }

  function TallyParts(top: Counts, ps: seq<Part>): Counts
    decreases ps, 0
  {
    if |ps| == 0 then top else TallyParts(TallyPart(top, ps[0]), ps[1..])
  }

  /** How many atoms of symbol k a structure holds, multipliers applied. */
  function AtomCount(p: Part, k: string): nat
    decreases p, 1
  {
    match p
    case Atom(sym, c) => if sym == k then CountOf(c) else 0
    case Group(ps, m) => AtomCounts(ps, k) * CountOf(m)
  }

  function AtomCounts(ps: seq<Part>, k: string): nat
    decreases ps, 0
  {
    if |ps| == 0 then 0 else AtomCount(ps[0], k) + AtomCounts(ps[1..], k)
  }

  // ---------------------------------------------------------------------------
  // Reading the digits back

  lemma {:induction false} DigitRunIs(s: string, j: nat, k: nat)
    requires j + k <= |s| && AllDigits(s[j..j + k])
    requires j + k == |s| || !IsDigit(s[j + k])
    ensures DigitRun(s, j) == k
    decreases k
  {
    if k > 0 {
      assert IsDigit(s[j..j + k][0]);
      assert s[j + 1..j + k] == s[j..j + k][1..];
      DigitRunIs(s, j + 1, k - 1);
    }
  }

  /** A written count is read back as its value, or as 1 when it is omitted. */
  lemma {:induction false} CountReadBack(s: string, j: nat, c: Option<nat>)
    requires j + |CountText(c)| <= |s| && s[j..j + |CountText(c)|] == CountText(c)
    requires j + |CountText(c)| == |s| || !IsDigit(s[j + |CountText(c)|])
    ensures DigitRun(s, j) == |CountText(c)|
    ensures Multiplier(s, j) == CountOf(c)
  {
    DigitRunIs(s, j, |CountText(c)|);
  }

  // ---------------------------------------------------------------------------
  // Scanning a written structure

  /** The first character of a written part is `(` or an uppercase letter. */
  lemma {:induction false} RenderPartStart(p: Part)
    requires ValidPart(p)
    ensures |RenderPart(p)| > 0
    ensures RenderPart(p)[0] == '(' || IsUpper(RenderPart(p)[0])
  {
  }

  /** What may follow a written part without being read as part of it. */
  predicate Boundary(s: string, j: nat)
    requires j <= |s|
  {
    j == |s| || (!IsDigit(s[j]) && !IsLower(s[j]))
  }

  /** The text of written parts starts like the text of its first part. */
  lemma {:induction false} RenderPartsStart(ps: seq<Part>)
    requires ValidParts(ps)
    ensures |RenderParts(ps)| > 0 ==> RenderParts(ps)[0] == '(' || IsUpper(RenderParts(ps)[0])
  {
    if |ps| > 0 {
      RenderPartStart(ps[0]);
      assert RenderParts(ps) == RenderPart(ps[0]) + RenderParts(ps[1..]);
    }
  }

  /** Scanning past one token whose step is known. */
  lemma {:induction false} ScanPast(d: Dialect, s: string, i: nat, stack: seq<Counts>, next: nat, stack': seq<Counts>)
    requires i < |s| && Step(d, s, i, stack) == Ok((next, stack'))
    ensures next <= |s| && Scan(d, s, i, stack) == Scan(d, s, next, stack')
  {
  }

  /** A step result known part by part. */
  lemma {:induction false} StepIs(r: Result<(nat, seq<Counts>), ParseError>, next: nat, stack: seq<Counts>)
    requires r.Ok? && r.value.0 == next && r.value.1 == stack
    ensures r == Ok((next, stack))
  {
  }

  /** An element symbol with the innermost scope present. */
  lemma {:induction false} SymbolStep(d: Dialect, s: string, i: nat, stack: seq<Counts>)
    requires |stack| >= 1 && i < |s| && IsUpper(s[i])
    ensures Step(d, s, i, stack).Ok?
    ensures Step(d, s, i, stack).value.0 == i + SymbolLength(s, i) + DigitRun(s, i + SymbolLength(s, i))
    ensures Step(d, s, i, stack).value.1
         == stack[..|stack| - 1]
            + [Add(stack[|stack| - 1], s[i..i + SymbolLength(s, i)], Multiplier(s, i + SymbolLength(s, i)))]
  {
  }

  /** A `)` with an enclosing scope to merge into. */
  lemma {:induction false} CloseStepInto(d: Dialect, s: string, j: nat, stack: seq<Counts>)
    requires |stack| >= 2 && j < |s| && s[j] == ')'
    ensures Step(d, s, j, stack).Ok?
    ensures Step(d, s, j, stack).value.0 == j + 1 + DigitRun(s, j + 1)
    ensures Step(d, s, j, stack).value.1
         == stack[..|stack| - 2] + [Merge(stack[|stack| - 2], stack[|stack| - 1], Multiplier(s, j + 1))]
  {
    assert stack[..|stack| - 1][..|stack| - 2] == stack[..|stack| - 2];
  }

  /** A written symbol and count are read back as that symbol and count. */
  lemma {:induction false} AtomText(s: string, i: nat, sym: string, c: Option<nat>)
    requires ValidSymbol(sym)
    requires i + |sym + CountText(c)| <= |s| && s[i..i + |sym + CountText(c)|] == sym + CountText(c)
    requires Boundary(s, i + |sym + CountText(c)|)
    ensures i < |s| && IsUpper(s[i])
    ensures SymbolLength(s, i) == |sym| && s[i..i + |sym|] == sym
    ensures DigitRun(s, i + |sym|) == |CountText(c)| && Multiplier(s, i + |sym|) == CountOf(c)
  {
    var t := CountText(c);
    var r := sym + t;
    SliceConcat(s, i, sym, t);
    assert s[i] == s[i..i + |sym|][0];
    if |sym| == 1 {
      if |t| > 0 {
        assert s[i + 1] == s[i + 1..i + 1 + |t|][0] == t[0];
      }
    } else {
      assert s[i + 1] == s[i..i + |sym|][1] == sym[1];
    }
    CountReadBack(s, i + |sym|, c);
  }

  lemma {:induction false} AtomStep(d: Dialect, s: string, i: nat, sym: string, c: Option<nat>, prefix: seq<Counts>, top: Counts)
    requires ValidSymbol(sym)
    requires i + |sym + CountText(c)| <= |s| && s[i..i + |sym + CountText(c)|] == sym + CountText(c)
    requires Boundary(s, i + |sym + CountText(c)|)
    ensures Step(d, s, i, prefix + [top]).Ok?
    ensures Step(d, s, i, prefix + [top]).value.0 == i + |sym + CountText(c)|
    ensures Step(d, s, i, prefix + [top]).value.1 == prefix + [Add(top, sym, CountOf(c))]
  {
    AtomText(s, i, sym, c);
    var stack := prefix + [top];
    SymbolStep(d, s, i, stack);
    assert stack[..|stack| - 1] == prefix;
  }

  lemma {:induction false} CloseStep(d: Dialect, s: string, j: nat, m: Option<nat>, prefix: seq<Counts>, top: Counts, inner: Counts,
                  k: nat, t: Counts)
    requires j + 1 + |CountText(m)| <= |s| && s[j] == ')'
    requires s[j + 1..j + 1 + |CountText(m)|] == CountText(m)
    requires Boundary(s, j + 1 + |CountText(m)|)
    requires k == j + 1 + |CountText(m)| && t == Merge(top, inner, CountOf(m))
    ensures Step(d, s, j, prefix + [top] + [inner]).Ok?
    ensures Step(d, s, j, prefix + [top] + [inner]).value.0 == k
    ensures Step(d, s, j, prefix + [top] + [inner]).value.1 == prefix + [t]
  {
    CountReadBack(s, j + 1, m);
    TwoScopes(prefix, top, inner);
    CloseStepInto(d, s, j, prefix + [top] + [inner]);
  }

  lemma {:induction false} TwoScopes(prefix: seq<Counts>, top: Counts, inner: Counts)
    ensures var stack := prefix + [top] + [inner];
      |stack| >= 2 && stack[..|stack| - 2] == prefix && stack[|stack| - 2] == top && stack[|stack| - 1] == inner
  {
    var stack := prefix + [top] + [inner];
    assert stack[..|stack| - 2] == prefix;
  }

  /** A slice holding x + y holds x and then y. */
  lemma {:induction false} SliceConcat(s: string, i: nat, x: string, y: string)
    requires i + |x + y| <= |s| && s[i..i + |x + y|] == x + y
    ensures s[i..i + |x|] == x
    ensures s[i + |x|..i + |x| + |y|] == y
  {
    assert s[i..i + |x|] == s[i..i + |x + y|][..|x|];
    assert s[i + |x|..i + |x| + |y|] == s[i..i + |x + y|][|x|..];
  }

  /** The text t stands in s at i, followed by a character that cannot extend it. */
  predicate WrittenAt(s: string, i: nat, t: string)
  {
    i + |t| <= |s| && s[i..i + |t|] == t && Boundary(s, i + |t|)
  }

  /** The pieces of a slice holding `(`, inner, `)` and t. */
  lemma {:induction false} GroupText(s: string, i: nat, inner: string, t: string)
    requires WrittenAt(s, i, "(" + inner + ")" + t)
    ensures |"(" + inner + ")" + t| == 2 + |inner| + |t| && i + 2 + |inner| + |t| <= |s|
    ensures s[i] == '('
    ensures WrittenAt(s, i + 1, inner)
    ensures s[i + 1 + |inner|] == ')'
    ensures s[i + 2 + |inner|..i + 2 + |inner| + |t|] == t
    ensures Boundary(s, i + 2 + |inner| + |t|)
  {
    var open := "(" + inner;
    var closed := open + ")";
    SliceConcat(s, i, closed, t);
    SliceConcat(s, i, open, ")");
    SliceConcat(s, i, "(", inner);
    assert s[i..i + 1][0] == s[i];
    assert s[i + |open|..i + |open| + 1][0] == s[i + |open|];
  }

  lemma {:induction false} ScanAtom(d: Dialect, s: string, i: nat, sym: string, c: Option<nat>, prefix: seq<Counts>, top: Counts,
                 j: nat, t: Counts)
    requires ValidSymbol(sym)
    requires i + |sym + CountText(c)| <= |s| && s[i..i + |sym + CountText(c)|] == sym + CountText(c)
    requires Boundary(s, i + |sym + CountText(c)|)
    requires j == i + |sym + CountText(c)| && t == Add(top, sym, CountOf(c))
    ensures j <= |s| && Scan(d, s, i, prefix + [top]) == Scan(d, s, j, prefix + [t])
  {
    AtomStep(d, s, i, sym, c, prefix, top);
    StepIs(Step(d, s, i, prefix + [top]), j, prefix + [t]);
    ScanPast(d, s, i, prefix + [top], j, prefix + [t]);
  }

  lemma {:induction false} ScanOpen(d: Dialect, s: string, i: nat, stack: seq<Counts>)
    requires i < |s| && s[i] == '('
    ensures Scan(d, s, i, stack) == Scan(d, s, i + 1, stack + [[]])
  {
    ScanPast(d, s, i, stack, i + 1, stack + [[]]);
  }

  lemma {:induction false} ScanClose(d: Dialect, s: string, j: nat, m: Option<nat>, prefix: seq<Counts>, top: Counts, inner: Counts,
                  k: nat, t: Counts)
    requires j + 1 + |CountText(m)| <= |s| && s[j] == ')'
    requires s[j + 1..j + 1 + |CountText(m)|] == CountText(m)
    requires Boundary(s, j + 1 + |CountText(m)|)
    requires k == j + 1 + |CountText(m)| && t == Merge(top, inner, CountOf(m))
    ensures k <= |s| && Scan(d, s, j, prefix + [top] + [inner]) == Scan(d, s, k, prefix + [t])
  {
    CloseStep(d, s, j, m, prefix, top, inner, k, t);
    StepIs(Step(d, s, j, prefix + [top] + [inner]), k, prefix + [t]);
    ScanPast(d, s, j, prefix + [top] + [inner], k, prefix + [t]);
  }

  /*
   * The scan lemmas below take the position after the written text (j) and the tally it
   * produces (t) as parameters, so that the scans they relate have plain variables as
   * arguments.
   */

  lemma {:induction false} ScanGroup(d: Dialect, s: string, i: nat, ps: seq<Part>, m: Option<nat>,
                                     prefix: seq<Counts>, top: Counts, j: nat, t: Counts)
    requires ValidParts(ps) && WrittenAt(s, i, RenderPart(Group(ps, m)))
    requires j == i + |RenderPart(Group(ps, m))| && t == Merge(top, TallyParts([], ps), CountOf(m))
    ensures j <= |s| && Scan(d, s, i, prefix + [top]) == Scan(d, s, j, prefix + [t])
    decreases Group(ps, m), 2
  {
    var close := i + 1 + |RenderParts(ps)|;
    var inner := TallyParts([], ps);
    ScanGroupOpen(d, s, i, ps, m, prefix + [top]);
    ScanParts(d, s, i + 1, ps, prefix + [top], [], close, inner);
    ScanGroupClose(d, s, i, ps, m, prefix, top, inner, close, j, t);
  }

  /** The `(` of a written group opens a scope, and the group's parts are written after it. */
  lemma {:induction false} ScanGroupOpen(d: Dialect, s: string, i: nat, ps: seq<Part>, m: Option<nat>, stack: seq<Counts>)
    requires WrittenAt(s, i, RenderPart(Group(ps, m)))
    ensures i < |s| && WrittenAt(s, i + 1, RenderParts(ps))
    ensures Scan(d, s, i, stack) == Scan(d, s, i + 1, stack + [[]])
  {
    GroupRender(ps, m);
    GroupText(s, i, RenderParts(ps), CountText(m));
    ScanOpen(d, s, i, stack);
  }

  /** The `)` of a written group and its multiplier merge the group's scope into the enclosing one. */
  lemma {:induction false} ScanGroupClose(d: Dialect, s: string, i: nat, ps: seq<Part>, m: Option<nat>,
                       prefix: seq<Counts>, top: Counts, inner: Counts, close: nat, j: nat, t: Counts)
    requires WrittenAt(s, i, RenderPart(Group(ps, m)))
    requires close == i + 1 + |RenderParts(ps)|
    requires j == i + |RenderPart(Group(ps, m))| && t == Merge(top, inner, CountOf(m))
    ensures close <= j <= |s|
    ensures Scan(d, s, close, prefix + [top] + [inner]) == Scan(d, s, j, prefix + [t])
  {
    GroupRender(ps, m);
    GroupText(s, i, RenderParts(ps), CountText(m));
    ScanClose(d, s, close, m, prefix, top, inner, j, t);
  }

  lemma {:induction false} GroupRender(ps: seq<Part>, m: Option<nat>)
    ensures RenderPart(Group(ps, m)) == "(" + RenderParts(ps) + ")" + CountText(m)
  {
  }

  lemma {:induction false} ScanPart(d: Dialect, s: string, i: nat, p: Part, prefix: seq<Counts>, top: Counts,
                                    j: nat, t: Counts)
    requires ValidPart(p) && WrittenAt(s, i, RenderPart(p))
    requires j == i + |RenderPart(p)| && t == TallyPart(top, p)
    ensures j <= |s| && Scan(d, s, i, prefix + [top]) == Scan(d, s, j, prefix + [t])
    decreases p, 3
  {
    match p
    case Atom(sym, c) =>
      ScanAtom(d, s, i, sym, c, prefix, top, j, t);
    case Group(ps, m) =>
      ScanGroup(d, s, i, ps, m, prefix, top, j, t);
  }

  /**
   * Scanning a written sequence of parts, with `top` the innermost open scope, adds the
   * parts' tally into that scope and leaves the enclosing scopes alone.
   */
  lemma {:induction false} ScanParts(d: Dialect, s: string, i: nat, ps: seq<Part>, prefix: seq<Counts>, top: Counts,
                                     j: nat, t: Counts)
    requires ValidParts(ps) && WrittenAt(s, i, RenderParts(ps))
    requires j == i + |RenderParts(ps)| && t == TallyParts(top, ps)
    ensures j <= |s| && Scan(d, s, i, prefix + [top]) == Scan(d, s, j, prefix + [t])
    decreases ps, 1
  {
    if |ps| > 0 {
      ScanFirstThenRest(d, s, i, ps, prefix, top, j, t);
    } else {
      PartsNil(top, ps);
    }
  }

  lemma {:induction false} ScanFirstThenRest(d: Dialect, s: string, i: nat, ps: seq<Part>, prefix: seq<Counts>,
                                             top: Counts, j: nat, t: Counts)
    requires |ps| > 0 && ValidParts(ps) && WrittenAt(s, i, RenderParts(ps))
    requires j == i + |RenderParts(ps)| && t == TallyParts(top, ps)
    ensures j <= |s| && Scan(d, s, i, prefix + [top]) == Scan(d, s, j, prefix + [t])
    decreases ps, 0
  {
    var mid := i + |RenderPart(ps[0])|;
    var t1 := TallyPart(top, ps[0]);
    ConsTally(i, ps, top, j, t, mid, t1);
    ConsWritten(ps, s, i, mid);
    ScanParts(d, s, mid, ps[1..], prefix, t1, j, t);
    ScanPart(d, s, i, ps[0], prefix, top, mid, t1);
  }

  /** The lengths and tallies of a nonempty list are those of its first part, then of the rest. */
  lemma {:induction false} ConsTally(i: nat, ps: seq<Part>, top: Counts, j: nat, t: Counts, mid: nat, t1: Counts)
    requires |ps| > 0 && j == i + |RenderParts(ps)| && t == TallyParts(top, ps)
    requires mid == i + |RenderPart(ps[0])| && t1 == TallyPart(top, ps[0])
    ensures j == mid + |RenderParts(ps[1..])| && t == TallyParts(t1, ps[1..])
  {
  }

  /** The text of the rest of a valid list follows the first part's and starts a new token. */
  lemma {:induction false} RenderCons(ps: seq<Part>, b: string)
    requires |ps| > 0 && ValidParts(ps[1..]) && b == RenderParts(ps[1..])
    ensures RenderParts(ps) == RenderPart(ps[0]) + b
    ensures |b| > 0 ==> b[0] == '(' || IsUpper(b[0])
  {
    RenderPartsStart(ps[1..]);
  }

  /** A written valid nonempty list is its written first part followed by its written rest. */
  lemma {:induction false} ConsWritten(ps: seq<Part>, s: string, i: nat, mid: nat)
    requires |ps| > 0 && ValidParts(ps) && WrittenAt(s, i, RenderParts(ps))
    requires mid == i + |RenderPart(ps[0])|
    ensures ValidPart(ps[0]) && WrittenAt(s, i, RenderPart(ps[0]))
    ensures ValidParts(ps[1..]) && WrittenAt(s, mid, RenderParts(ps[1..]))
  {
    TailValid(ps);
    var b := RenderParts(ps[1..]);
    RenderCons(ps, b);
    SplitWritten(s, i, RenderParts(ps), RenderPart(ps[0]), b, mid);
  }

  lemma {:induction false} TailValid(ps: seq<Part>)
    requires |ps| > 0 && ValidParts(ps)
    ensures ValidPart(ps[0]) && ValidParts(ps[1..])
  {
  }

  /** Written text t = a + b is a written, then b written, when b cannot extend a. */
  lemma {:induction false} SplitWritten(s: string, i: nat, t: string, a: string, b: string, m: nat)
    requires WrittenAt(s, i, t) && t == a + b && m == i + |a|
    requires |b| > 0 ==> b[0] == '(' || IsUpper(b[0])
    ensures WrittenAt(s, i, a) && WrittenAt(s, m, b)
  {
    SliceConcat(s, i, a, b);
    if |b| > 0 {
      assert s[i + |a|] == s[i + |a|..i + |a| + |b|][0];
    }
  }

  lemma {:induction false} PartsNil(top: Counts, ps: seq<Part>)
    requires |ps| == 0
    ensures |RenderParts(ps)| == 0 && TallyParts(top, ps) == top
  {
  }

  lemma {:induction false} PartsCons(top: Counts, ps: seq<Part>)
    requires |ps| > 0 && ValidParts(ps)
    ensures ValidPart(ps[0]) && ValidParts(ps[1..])
    ensures |RenderParts(ps)| == |RenderPart(ps[0])| + |RenderParts(ps[1..])|
    ensures TallyParts(top, ps) == TallyParts(TallyPart(top, ps[0]), ps[1..])
  {
  }

  lemma {:induction false} RenderNoSpace(ps: seq<Part>)
    requires ValidParts(ps)
    ensures NoSpace(RenderParts(ps))
    decreases ps, 0
  {
    if |ps| > 0 {
      RenderNoSpace(ps[1..]);
      var a := RenderPart(ps[0]);
      match ps[0]
      case Atom(sym, c) =>
      case Group(ps', m) =>
        RenderNoSpace(ps');
      assert RenderParts(ps) == a + RenderParts(ps[1..]);
    }
  }

  /**
   * Every copy of the parser reads a written formula back as the count map of its
   * structure: symbol counts default to 1, a group's counts are multiplied by the number
   * after its `)`, and repeated symbols are summed.
   */
  lemma {:induction false} ParseRendered(d: Dialect, ps: seq<Part>)
    requires ValidParts(ps)
    ensures Parse(d, RenderParts(ps)) == Ok(TallyParts([], ps))
  {
    var s := RenderParts(ps);
    RenderNoSpace(ps);
    assert Input(d, s) == s;
    assert s[0..|s|] == s;
    var none: seq<Counts> := [];
    assert none + [[]] == [[]];
    assert WrittenAt(s, 0, s);
    ScanParts(d, s, 0, ps, none, [], |s|, TallyParts([], ps));
    assert none + [TallyParts([], ps)] == [TallyParts([], ps)];
  }

  // ---------------------------------------------------------------------------
  // The tally is the atom count

  lemma {:induction false} TallyDistinct(top: Counts, p: Part)
    requires Distinct(top)
    ensures Distinct(TallyPart(top, p))
    decreases p, 1
  {
    match p
    case Atom(sym, c) =>
      AddKeepsDistinct(top, sym, CountOf(c));
    case Group(ps, m) =>
      MergeKeepsDistinct(top, TallyParts([], ps), CountOf(m));
  }

  lemma {:induction false} TallyPartCount(top: Counts, p: Part, k: string)
    ensures Get(TallyPart(top, p), k) == Get(top, k) + AtomCount(p, k)
    decreases p, 1
  {
    match p
    case Atom(sym, c) =>
    case Group(ps, m) =>
      var g := TallyParts([], ps);
      assert Keys([]) == [];
      TallyPartsDistinct([], ps);
      MergeGet(top, g, CountOf(m), k);
      TallyPartsCount([], ps, k);
      GroupCount(Get(TallyPart(top, p), k), Get(top, k), Get(g, k), AtomCounts(ps, k), CountOf(m));
  }

  /** The arithmetic of a group: its atoms times its multiplier. */
  lemma {:induction false} GroupCount(total: nat, before: nat, inner: nat, atoms: nat, mult: nat)
    requires total == before + inner * mult && inner == 0 + atoms
    ensures total == before + atoms * mult
  {
  }

  lemma {:induction false} TallyPartsDistinct(top: Counts, ps: seq<Part>)
    requires Distinct(top)
    ensures Distinct(TallyParts(top, ps))
    decreases ps, 0
  {
    if |ps| > 0 {
      TallyDistinct(top, ps[0]);
      TallyPartsDistinct(TallyPart(top, ps[0]), ps[1..]);
    }
  }

  lemma {:induction false} TallyPartsCount(top: Counts, ps: seq<Part>, k: string)
    ensures Get(TallyParts(top, ps), k) == Get(top, k) + AtomCounts(ps, k)
    decreases ps, 0
  {
    if |ps| > 0 {
      TallyPartCount(top, ps[0], k);
      TallyPartsCount(TallyPart(top, ps[0]), ps[1..], k);
    }
  }

  /** The parsed count of every symbol is the number of its atoms in the written structure. */
  lemma {:induction false} ParseCountsAtoms(d: Dialect, ps: seq<Part>, k: string)
    requires ValidParts(ps)
    ensures Parse(d, RenderParts(ps)).Ok?
    ensures Get(Parse(d, RenderParts(ps)).value, k) == AtomCounts(ps, k)
  {
    ParseRendered(d, ps);
    TallyPartsCount([], ps, k);
  }
}

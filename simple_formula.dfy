/**
 * The molar-mass tool's own formula reader (components/tools/MolarMassTool.tsx:7-19): a global
 * regular expression `/([A-Z][a-z]?)(\d*)/g` is applied again and again from its lastIndex;
 * every match adds its digit run (1 when it is empty) to the count of its symbol, and the
 * result is null when nothing matched. Parentheses and every other character are stepped
 * over, so group multipliers are not applied.
 *
 * The map is a plain `{}`, but a key is always an uppercase letter with at most one lowercase
 * letter after it, so no key can meet a name of Object.prototype, and the association list of
 * the Counts module describes it.
 */
module SimpleFormula {
  import opened Wrappers
  import opened Text
  import opened Counts
  import opened Formula
  import opened FormulaRender

  /** What `\d*` matches. */
  type Digits = d: string | AllDigits(d)

  /** One result of exec: m[1], the symbol, and m[2], the digits after it. */
  datatype Match = Match(symbol: string, digits: Digits)

  /** `m[2] ? parseInt(m[2], 10) : 1` */
  function Count(m: Match): (n: nat)
    ensures m.digits == [] ==> n == 1
  {
    if m.digits == [] then 1 else DigitsValue(m.digits)
  }

  /** The first uppercase letter at or after i, or the end of s. */
  function NextUpper(s: string, i: nat): (p: nat)
    requires i <= |s|
    ensures i <= p <= |s|
    ensures p < |s| ==> IsUpper(s[p])
    decreases |s| - i
  {
    if i == |s| || IsUpper(s[i]) then i else NextUpper(s, i + 1)
  }

  /** No uppercase letter is stepped over. */
  lemma {:induction false} NextUpperFirst(s: string, i: nat)
    requires i <= |s|
    ensures forall j :: i <= j < NextUpper(s, i) ==> !IsUpper(s[j])
    decreases |s| - i
  {
    if i < |s| && !IsUpper(s[i]) {
      NextUpperFirst(s, i + 1);
    }
  }

  /**
   * m is what the pattern matches when it starts at p: an element symbol, then digits, each
   * part as long as the text allows.
   */
  predicate LongestAt(s: string, p: nat, m: Match)
  {
    var e := p + |m.symbol| + |m.digits|;
    e <= |s| &&
    s[p..p + |m.symbol|] == m.symbol && s[p + |m.symbol|..e] == m.digits &&
    ValidSymbol(m.symbol) && AllDigits(m.digits) &&
    (|m.symbol| == 1 ==> p + 1 == |s| || !IsLower(s[p + 1])) &&
    (e == |s| || !IsDigit(s[e]))
  }

  /**
   * `regex.exec(formula)` with the given lastIndex: the leftmost match at or after i and the
   * lastIndex after it, or null when no uppercase letter is left.
   */
  function Exec(s: string, i: nat): (r: Option<(Match, nat)>)
    requires i <= |s|
    ensures r.Some? ==> i < r.value.1 <= |s|
  {
    var p := NextUpper(s, i);
    if p == |s| then None else Some(MatchAt(s, p))
  }

  /** The match of the pattern at an uppercase letter, and the index after it. */
  function MatchAt(s: string, p: nat): (r: (Match, nat))
    requires p < |s| && IsUpper(s[p])
    ensures p < r.1 <= |s|
  {
    var e := SymbolLength(s, p);
    var k := DigitRun(s, p + e);
    (Match(s[p..p + e], s[p + e..p + e + k]), p + e + k)
  }

  /** The match at p, with its two lengths named. */
  lemma {:induction false} MatchAtParts(s: string, p: nat, n: nat, k: nat)
    requires p < |s| && IsUpper(s[p])
    requires n == SymbolLength(s, p) && k == DigitRun(s, p + n)
    ensures MatchAt(s, p) == (Match(s[p..p + n], s[p + n..p + n + k]), p + n + k)
  {
  }

  /** exec returns null exactly when no uppercase letter is left from lastIndex on. */
  lemma {:induction false} ExecNone(s: string, i: nat)
    requires i <= |s|
    ensures Exec(s, i).None? <==> forall j :: i <= j < |s| ==> !IsUpper(s[j])
  {
    NextUpperFirst(s, i);
  }

  /** exec answers the match at the first uppercase letter, each of its parts as long as possible. */
  lemma {:induction false} ExecLeftmostLongest(s: string, i: nat)
    requires i <= |s| && Exec(s, i).Some?
    ensures LongestAt(s, NextUpper(s, i), Exec(s, i).value.0)
    ensures Exec(s, i).value.1 == NextUpper(s, i) + |Exec(s, i).value.0.symbol| + |Exec(s, i).value.0.digits|
  {
  }

  /** The pattern leaves no choice: at a given start there is one longest match. */
  lemma {:induction false} LongestAtUnique(s: string, p: nat, m: Match, m': Match)
    requires LongestAt(s, p, m) && LongestAt(s, p, m')
    ensures m == m'
  {
    forall x | x in [m, m'] && |x.symbol| == 2
      ensures IsLower(s[p + 1])
    {
      assert s[p + 1] == s[p..p + 2][1];
    }
    var q := p + |m.symbol|;
    forall x, j | x in [m, m'] && |x.symbol| == |m.symbol| && q <= j < q + |x.digits|
      ensures IsDigit(s[j])
    {
      assert s[j] == s[q..q + |x.digits|][j - q];
    }
  }

  /** The matches exec returns, one after the other, from lastIndex i until it returns null. */
  function MatchesFrom(s: string, i: nat): (ms: seq<Match>)
    requires i <= |s|
    ensures |ms| == 0 <==> Exec(s, i).None?
    decreases |s| - i
  {
    match Exec(s, i)
    case None => []
    case Some((m, e)) => [m] + MatchesFrom(s, e)
  }

  /** `map[sym] = (map[sym] || 0) + count` for each match in turn. */
  function AddAll(c: Counts, ms: seq<Match>): Counts
    decreases |ms|
  {
    if |ms| == 0 then c else AddAll(Add(c, ms[0].symbol, Count(ms[0])), ms[1..])
  }

  /** parseFormula: the tally of all matches, or null when there was none. */
  function SimpleParse(formula: string): Option<Counts>
  {
    var ms := MatchesFrom(formula, 0);
    if |ms| == 0 then None else Some(AddAll([], ms))
  }

  /** parseFormula answers null exactly when the formula holds no uppercase letter. */
  lemma {:induction false} SimpleParseNone(formula: string)
    ensures SimpleParse(formula).None? <==> forall j :: 0 <= j < |formula| ==> !IsUpper(formula[j])
  {
    ExecNone(formula, 0);
  }

  /** One more exec: the match it returns comes first, then those from its lastIndex on. */
  lemma {:induction false} MatchesNext(s: string, i: nat)
    requires i <= |s|
    ensures Exec(s, i).None? ==> MatchesFrom(s, i) == []
    ensures Exec(s, i).Some? ==> MatchesFrom(s, i) == [Exec(s, i).value.0] + MatchesFrom(s, Exec(s, i).value.1)
  {
  }

  /** The exec loop of parseFormula. */
  method ParseSimpleFormula(formula: string) returns (r: Option<Counts>)
    ensures r == SimpleParse(formula)
  {
    var tally: Counts := [];
    var matched := false;
    var lastIndex := 0;
    var m := Exec(formula, lastIndex);
    while m.Some?
      invariant lastIndex <= |formula| && m == Exec(formula, lastIndex)
      invariant AddAll(tally, MatchesFrom(formula, lastIndex)) == AddAll([], MatchesFrom(formula, 0))
      invariant !matched ==> lastIndex == 0 && tally == []
      invariant matched ==> |MatchesFrom(formula, 0)| > 0
      decreases |formula| - lastIndex
    {
      MatchesNext(formula, lastIndex);
      matched := true;
      tally := Add(tally, m.value.0.symbol, Count(m.value.0));
      lastIndex := m.value.1;
      m := Exec(formula, lastIndex);
    }
    MatchesNext(formula, lastIndex);
    r := if matched then Some(tally) else None;
  }

  // ---------------------------------------------------------------------------
  // What the tally holds

  /** The sum of the counts of the matches with symbol k. */
  function Total(ms: seq<Match>, k: string): nat
  {
    if |ms| == 0 then 0 else (if ms[0].symbol == k then Count(ms[0]) else 0) + Total(ms[1..], k)
  }

  /**
   * Repeated symbols sum: each key's count is the sum of its matches' counts, and the keys are
   * those of c and the matched symbols.
   */
  lemma {:induction false} AddAllCounts(c: Counts, ms: seq<Match>, k: string)
    ensures Get(AddAll(c, ms), k) == Get(c, k) + Total(ms, k)
    ensures k in Keys(AddAll(c, ms)) <==> k in Keys(c) || exists j :: 0 <= j < |ms| && ms[j].symbol == k
    decreases |ms|
  {
    if |ms| > 0 {
      var c' := Add(c, ms[0].symbol, Count(ms[0]));
      AddAllCounts(c', ms[1..], k);
      AddKeys(c, ms[0].symbol, Count(ms[0]));
      if exists j :: 0 <= j < |ms[1..]| && ms[1..][j].symbol == k {
        var j :| 0 <= j < |ms[1..]| && ms[1..][j].symbol == k;
        assert ms[j + 1].symbol == k;
      }
      if exists j :: 0 <= j < |ms| && ms[j].symbol == k {
        var j :| 0 <= j < |ms| && ms[j].symbol == k;
        if j > 0 {
          assert ms[1..][j - 1].symbol == k;
        }
      }
    }
  }

  /** parseFormula's counts: every symbol it matched, with the sum of its matches' counts. */
  lemma {:induction false} SimpleParseCounts(formula: string, k: string)
    requires SimpleParse(formula).Some?
    ensures Get(SimpleParse(formula).value, k) == Total(MatchesFrom(formula, 0), k)
    ensures k in Keys(SimpleParse(formula).value) <==>
      exists j :: 0 <= j < |MatchesFrom(formula, 0)| && MatchesFrom(formula, 0)[j].symbol == k
  {
    AddAllCounts([], MatchesFrom(formula, 0), k);
  }

  // ---------------------------------------------------------------------------
  // Written formulas are read back

  /** A structure of element symbols and counts, without groups. */
  predicate Flat(ps: seq<Part>)
  {
    forall k :: 0 <= k < |ps| ==> ps[k].Atom?
  }

  /** The matches a flat structure should give: each symbol with its count as written. */
  function AsMatches(ps: seq<Part>): (ms: seq<Match>)
    requires Flat(ps)
    ensures |ms| == |ps|
  {
    if |ps| == 0 then [] else [Match(ps[0].symbol, CountText(ps[0].count))] + AsMatches(ps[1..])
  }

  lemma {:induction false} CountOfWritten(c: Option<nat>)
    ensures Count(Match("", CountText(c))) == CountOf(c)
  {
  }

  /** A flat structure denotes the tally of its written matches. */
  lemma {:induction false} TallyFlat(top: Counts, ps: seq<Part>)
    requires Flat(ps)
    ensures TallyParts(top, ps) == AddAll(top, AsMatches(ps))
    decreases |ps|
  {
    if |ps| > 0 {
      CountOfWritten(ps[0].count);
      assert AsMatches(ps)[1..] == AsMatches(ps[1..]);
      TallyFlat(Add(top, ps[0].symbol, CountOf(ps[0].count)), ps[1..]);
    }
  }

  /** exec over a written flat structure returns its symbols and counts in order. */
  lemma {:induction false} FlatMatches(s: string, i: nat, ps: seq<Part>, j: nat)
    requires Flat(ps) && ValidParts(ps) && WrittenAt(s, i, RenderParts(ps))
    requires j == i + |RenderParts(ps)|
    ensures j <= |s| && MatchesFrom(s, i) == AsMatches(ps) + MatchesFrom(s, j)
    decreases |ps|
  {
    if |ps| == 0 {
      assert AsMatches(ps) == [];
    } else {
      var m, mid := FirstAtom(s, i, ps, j);
      FlatMatches(s, mid, ps[1..], j);
      Combine(MatchesFrom(s, i), MatchesFrom(s, mid), MatchesFrom(s, j), AsMatches(ps[1..]), AsMatches(ps), m);
    }
  }

  lemma {:induction false} Combine(x: seq<Match>, y: seq<Match>, z: seq<Match>, a: seq<Match>, r: seq<Match>, m: Match)
    requires x == [m] + y && y == a + z && r == [m] + a
    ensures x == r + z
  {
  }

  /** exec at a written symbol and count returns exactly them. */
  lemma {:induction false} ExecAtAtom(s: string, i: nat, sym: string, c: Option<nat>, e: nat)
    requires ValidSymbol(sym) && WrittenAt(s, i, sym + CountText(c))
    requires e == i + |sym + CountText(c)|
    ensures Exec(s, i) == Some((Match(sym, CountText(c)), e))
  {
    var t := CountText(c);
    AtomText(s, i, sym, c);
    SliceConcat(s, i, sym, t);
    var n := SymbolLength(s, i);
    var k := DigitRun(s, i + n);
    assert n == |sym| && k == |t|;
    assert s[i..i + n] == sym && s[i + n..i + n + k] == t;
    MatchAtParts(s, i, n, k);
    assert MatchAt(s, i).0.symbol == sym;
    assert MatchAt(s, i).0.digits == t;
    assert MatchAt(s, i).1 == e;
    assert MatchAt(s, i) == (Match(sym, t), e);
    assert NextUpper(s, i) == i;
    assert Exec(s, i) == Some(MatchAt(s, i));
  }

  lemma {:induction false} MatchesAtAtom(s: string, i: nat, sym: string, c: Option<nat>, e: nat)
    requires ValidSymbol(sym) && WrittenAt(s, i, sym + CountText(c))
    requires e == i + |sym + CountText(c)|
    ensures e <= |s| && MatchesFrom(s, i) == [Match(sym, CountText(c))] + MatchesFrom(s, e)
  {
    ExecAtAtom(s, i, sym, c, e);
    MatchesNext(s, i);
  }

  /** The first written symbol and count are the first match; the rest is written after them. */
  lemma {:induction false} FirstAtom(s: string, i: nat, ps: seq<Part>, j: nat) returns (m: Match, mid: nat)
    requires |ps| > 0 && Flat(ps) && ValidParts(ps) && WrittenAt(s, i, RenderParts(ps))
    requires j == i + |RenderParts(ps)|
    ensures mid <= |s| && MatchesFrom(s, i) == [m] + MatchesFrom(s, mid)
    ensures AsMatches(ps) == [m] + AsMatches(ps[1..])
    ensures WrittenAt(s, mid, RenderParts(ps[1..])) && j == mid + |RenderParts(ps[1..])|
    ensures Flat(ps[1..]) && ValidParts(ps[1..])
  {
    var sym, c := ps[0].symbol, ps[0].count;
    mid := i + |RenderPart(ps[0])|;
    m := Match(sym, CountText(c));
    ConsWritten(ps, s, i, mid);
    PartsCons([], ps);
    assert RenderPart(ps[0]) == sym + CountText(c);
    MatchesAtAtom(s, i, sym, c, mid);
  }

  /**
   * The counts written out symbol by symbol are read back as the tally of the structure: the
   * same map the stack-based parsers give for it.
   */
  lemma {:induction false} FlatRoundTrip(ps: seq<Part>)
    requires Flat(ps) && ValidParts(ps) && |ps| > 0
    ensures SimpleParse(RenderParts(ps)) == Some(TallyParts([], ps))
  {
    var s := RenderParts(ps);
    assert s[0..|s|] == s;
    FlatMatches(s, 0, ps, |s|);
    MatchesNext(s, |s|);
    var ms := AsMatches(ps);
    assert MatchesFrom(s, 0) == ms + [] == ms;
    TallyFlat([], ps);
    assert SimpleParse(s) == Some(AddAll([], ms));
  }

  // ---------------------------------------------------------------------------
  // The lenient stack scanner agrees on text without parentheses

  lemma {:induction false} LenientScan(s: string, i: nat, c: Counts)
    requires i <= |s| && '(' !in s && ')' !in s
    ensures Scan(Lenient, s, i, [c]) == Ok(AddAll(c, MatchesFrom(s, i)))
    decreases |s| - i
  {
    if i < |s| {
      var next, c' := LenientStep(s, i, c);
      LenientScan(s, next, c');
    }
  }

  /** One token of the lenient scan against the matches: both move on to the same point. */
  lemma {:induction false} LenientStep(s: string, i: nat, c: Counts) returns (next: nat, c': Counts)
    requires i < |s| && s[i] != '(' && s[i] != ')'
    ensures i < next <= |s|
    ensures Scan(Lenient, s, i, [c]) == Scan(Lenient, s, next, [c'])
    ensures AddAll(c, MatchesFrom(s, i)) == AddAll(c', MatchesFrom(s, next))
  {
    if IsUpper(s[i]) {
      next, c' := UpperStep(s, i, c);
    } else {
      next, c' := SkipStep(s, i, c);
    }
  }

  lemma {:induction false} UpperStep(s: string, i: nat, c: Counts) returns (next: nat, c': Counts)
    requires i < |s| && IsUpper(s[i])
    ensures i < next <= |s|
    ensures Scan(Lenient, s, i, [c]) == Scan(Lenient, s, next, [c'])
    ensures AddAll(c, MatchesFrom(s, i)) == AddAll(c', MatchesFrom(s, next))
  {
    next, c' := UpperScan(s, i, c);
    UpperTally(s, i, c, next, c');
  }

  lemma {:induction false} SkipStep(s: string, i: nat, c: Counts) returns (next: nat, c': Counts)
    requires i < |s| && !IsUpper(s[i]) && s[i] != '(' && s[i] != ')'
    ensures i < next <= |s|
    ensures Scan(Lenient, s, i, [c]) == Scan(Lenient, s, next, [c'])
    ensures AddAll(c, MatchesFrom(s, i)) == AddAll(c', MatchesFrom(s, next))
  {
    next, c' := i + 1, c;
    SkipScan(s, i, c);
    SkipMatches(s, i);
  }

  /** exec looks for the next uppercase letter, so a character that is none can be left out. */
  lemma {:induction false} SkipMatches(s: string, i: nat)
    requires i < |s| && !IsUpper(s[i])
    ensures MatchesFrom(s, i) == MatchesFrom(s, i + 1)
  {
    assert NextUpper(s, i) == NextUpper(s, i + 1);
    assert Exec(s, i) == Exec(s, i + 1);
  }

  lemma {:induction false} UpperScan(s: string, i: nat, c: Counts) returns (next: nat, c': Counts)
    requires i < |s| && IsUpper(s[i])
    ensures next == i + SymbolLength(s, i) + DigitRun(s, i + SymbolLength(s, i))
    ensures c' == Add(c, s[i..i + SymbolLength(s, i)], Multiplier(s, i + SymbolLength(s, i)))
    ensures Scan(Lenient, s, i, [c]) == Scan(Lenient, s, next, [c'])
  {
    next := i + SymbolLength(s, i) + DigitRun(s, i + SymbolLength(s, i));
    c' := Add(c, s[i..i + SymbolLength(s, i)], Multiplier(s, i + SymbolLength(s, i)));
    SymbolStep(Lenient, s, i, [c]);
    assert [c][..0] + [c'] == [c'];
    StepIs(Step(Lenient, s, i, [c]), next, [c']);
    ScanPast(Lenient, s, i, [c], next, [c']);
  }

  lemma {:induction false} UpperTally(s: string, i: nat, c: Counts, next: nat, c': Counts)
    requires i < |s| && IsUpper(s[i])
    requires next == i + SymbolLength(s, i) + DigitRun(s, i + SymbolLength(s, i))
    requires c' == Add(c, s[i..i + SymbolLength(s, i)], Multiplier(s, i + SymbolLength(s, i)))
    ensures next <= |s|
    ensures AddAll(c, MatchesFrom(s, i)) == AddAll(c', MatchesFrom(s, next))
  {
    var m, n := ExecAtUpper(s, i);
    AddAllCons(c, m, MatchesFrom(s, i), MatchesFrom(s, next), s[i..i + SymbolLength(s, i)],
               Multiplier(s, i + SymbolLength(s, i)), c');
  }

  lemma {:induction false} SkipScan(s: string, i: nat, c: Counts)
    requires i < |s| && !IsUpper(s[i]) && s[i] != '(' && s[i] != ')'
    ensures Scan(Lenient, s, i, [c]) == Scan(Lenient, s, i + 1, [c])
  {
    ScanPast(Lenient, s, i, [c], i + 1, [c]);
  }

  /** At an uppercase letter, exec matches there: the symbol and the count the scanner reads. */
  lemma {:induction false} ExecAtUpper(s: string, i: nat) returns (m: Match, next: nat)
    requires i < |s| && IsUpper(s[i])
    ensures m.symbol == s[i..i + SymbolLength(s, i)] && Count(m) == Multiplier(s, i + SymbolLength(s, i))
    ensures next == i + SymbolLength(s, i) + DigitRun(s, i + SymbolLength(s, i))
    ensures MatchesFrom(s, i) == [m] + MatchesFrom(s, next)
  {
    assert NextUpper(s, i) == i;
    m, next := Exec(s, i).value.0, Exec(s, i).value.1;
    MatchesNext(s, i);
  }

  lemma {:induction false} AddAllCons(c: Counts, m: Match, all: seq<Match>, ms: seq<Match>, sym: string, k: nat,
                                      c': Counts)
    requires all == [m] + ms && m.symbol == sym && Count(m) == k && c' == Add(c, sym, k)
    ensures AddAll(c, all) == AddAll(c', ms)
  {
    assert all[0] == m && all[1..] == ms;
  }

  /**
   * Without parentheses, the lenient count of ReactionStoichiometryTool is this reader's tally
   * of the formula with white space deleted (the empty map where this reader gives null).
   */
  lemma {:induction false} LenientAgrees(formula: string)
    requires '(' !in formula && ')' !in formula
    ensures Parse(Lenient, formula) ==
      Ok(if SimpleParse(StripSpace(formula)).Some? then SimpleParse(StripSpace(formula)).value else [])
  {
    StripSpaceKeepsOut(formula, '(');
    StripSpaceKeepsOut(formula, ')');
    LenientScan(StripSpace(formula), 0, []);
  }

  // ---------------------------------------------------------------------------
  // A group is not multiplied

  const Phosphate: string := "Ba3(PO4)2"

  /** "Ba3": the symbol Ba with count 3; then "(" is stepped over. */
  lemma {:induction false} PhosphateBarium()
    ensures AddAll([], MatchesFrom(Phosphate, 0)) == AddAll([("Ba", 3)], MatchesFrom(Phosphate, 4))
  {
    PhosphateBa();
    PhosphateOpen();
  }

  lemma {:induction false} PhosphateBa()
    ensures AddAll([], MatchesFrom(Phosphate, 0)) == AddAll([("Ba", 3)], MatchesFrom(Phosphate, 3))
  {
    BariumToken();
    UpperTally(Phosphate, 0, [], 3, [("Ba", 3)]);
  }

  /** The token at 0 is the symbol Ba with the count 3. */
  lemma {:induction false} BariumToken()
    ensures IsUpper(Phosphate[0]) && SymbolLength(Phosphate, 0) == 2 && DigitRun(Phosphate, 2) == 1
    ensures Phosphate[0..2] == "Ba" && Multiplier(Phosphate, 2) == 3
  {
    var s := Phosphate;
    assert DigitRun(s, 3) == 0;
    assert s[2..3] == "3";
  }

  lemma {:induction false} PhosphateOpen()
    ensures MatchesFrom(Phosphate, 3) == MatchesFrom(Phosphate, 4)
  {
    SkipMatches(Phosphate, 3);
  }

  /** "P" with no digits after it: the default count 1. */
  lemma {:induction false} PhosphateP()
    ensures AddAll([("Ba", 3)], MatchesFrom(Phosphate, 4)) ==
      AddAll([("Ba", 3), ("P", 1)], MatchesFrom(Phosphate, 5))
  {
    var s := Phosphate;
    assert SymbolLength(s, 4) == 1 && DigitRun(s, 5) == 0 && s[4..5] == "P";
    UpperTally(s, 4, [("Ba", 3)], 5, [("Ba", 3), ("P", 1)]);
  }

  /** "O4": the symbol O with count 4. */
  lemma {:induction false} PhosphateO()
    ensures AddAll([("Ba", 3), ("P", 1)], MatchesFrom(Phosphate, 5)) ==
      AddAll([("Ba", 3), ("P", 1), ("O", 4)], MatchesFrom(Phosphate, 7))
  {
    var s := Phosphate;
    assert SymbolLength(s, 5) == 1 && DigitRun(s, 6) == 1 && s[5..6] == "O" && s[6..7] == "4";
    assert Multiplier(s, 6) == 4;
    UpperTally(s, 5, [("Ba", 3), ("P", 1)], 7, [("Ba", 3), ("P", 1), ("O", 4)]);
  }

  /** ")2" holds no uppercase letter, so exec finds nothing more. */
  lemma {:induction false} PhosphateEnd()
    ensures MatchesFrom(Phosphate, 7) == []
  {
    var s := Phosphate;
    assert !IsUpper(s[7]) && !IsUpper(s[8]);
    assert MatchesFrom(s, 7) == []; 
  }

  /** "Ba3(PO4)2" is read as Ba 3, P 1, O 4: the group's multiplier 2 is not applied. */
  lemma {:induction false} PhosphateIgnoresGroup()
    ensures SimpleParse(Phosphate) == Some([("Ba", 3), ("P", 1), ("O", 4)])
  {
    PhosphateBarium();
    PhosphateP();
    PhosphateO();
    PhosphateEnd();
    assert IsUpper(Phosphate[0]);
  }
}

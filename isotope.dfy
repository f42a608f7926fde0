/**
 * The query box of the isotope finder (components/tools/IsotopeFinder.tsx:17-56): `normalize`
 * and `parseQuery`, which read a query such as "C-14", "14C", "Carbon-14", "O 18", "U-235" or
 * "14" as an element symbol and a mass number.
 *
 * The element table is a parameter: `symbols` is the set of element symbols and `names` maps
 * each lower-cased element name to its symbol. Each of the five regular expressions the parser
 * tries is a function here, with a declarative description of the strings the expression
 * matches and lemmas that the function finds exactly the groups of such a match.
 */
module Isotope {
  import opened Wrappers
  import opened Text

  /** `{ symbol?: string; mass?: number }`: a missing key is None. */
  datatype Query = Query(symbol: Option<string>, mass: Option<nat>)

  predicate AllLetters(s: string)
  {
    forall i :: 0 <= i < |s| ==> IsLetter(s[i])
  }

  /** A character of the separator `\s*[- ]\s*`. */
  predicate IsSepChar(c: char)
  {
    IsSpace(c) || c == '-'
  }

  // ---------------------------------------------------------------------------
  // normalize

  /** normalize: `q.replace(/\s+/g, " ").trim()`. */
  function Normalize(q: string): string
  {
    Trim(CollapseSpace(q))
  }

  lemma {:induction false} SingleSpacedInfix(s: string, a: nat, b: nat)
    requires SingleSpaced(s) && a <= b <= |s|
    ensures SingleSpaced(s[a..b])
  {
    var t := s[a..b];
    forall i | 0 <= i < |t| && IsSpace(t[i])
      ensures t[i] == ' '
    {
      assert t[i] == s[a + i];
    }
    forall i, j | 0 <= i < |t| && 0 <= j < |t| && j == i + 1 && IsSpace(t[i])
      ensures !IsSpace(t[j])
    {
      assert t[i] == s[a + i] && t[j] == s[a + j];
    }
  }

  /** A normalized query has single plain spaces only. */
  lemma {:induction false} NormalizeSingleSpaced(q: string)
    ensures SingleSpaced(Normalize(q))
  {
    var c := CollapseSpace(q);
    CollapseSpaceSingle(q);
    var a, b := TrimIsInfix(c);
    SingleSpacedInfix(c, a, b);
  }

  /** A query with single plain spaces and none at its ends is already normal. */
  lemma {:induction false} NormalizeFixes(q: string)
    requires SingleSpaced(q) && (q == [] || (!IsSpace(q[0]) && !IsSpace(q[|q| - 1])))
    ensures Normalize(q) == q
  {
    CollapseSpaceFixes(q);
    TrimNoEnds(q);
  }

  lemma {:induction false} NormalizeIdempotent(q: string)
    ensures Normalize(Normalize(q)) == Normalize(q)
  {
    var n := Normalize(q);
    NormalizeSingleSpaced(q);
    assert n == Trim(CollapseSpace(q));
    assert n == [] || (!IsSpace(n[0]) && !IsSpace(n[|n| - 1]));
    NormalizeFixes(n);
  }

  /** Normalizing changes white space only: every other character stays, in order. */
  lemma {:induction false} NormalizeKeeps(q: string)
    ensures StripSpace(Normalize(q)) == StripSpace(q)
  {
    CollapseSpaceKeeps(q);
    TrimKeeps(CollapseSpace(q));
  }

  /** `if (!q) return {}` is taken exactly for the queries made of white space alone. */
  lemma {:induction false} NormalizeEmptyIff(q: string)
    ensures Normalize(q) == [] <==> AllSpace(q)
  {
    TrimEmptyIff(CollapseSpace(q));
    CollapseAllSpace(q);
  }

  // ---------------------------------------------------------------------------
  // Runs of one kind of character

  /** The length of the run of ASCII letters starting at i. */
  function LetterRun(s: string, i: nat): (k: nat)
    requires i <= |s|
    ensures i + k <= |s|
    ensures forall j :: i <= j < i + k ==> IsLetter(s[j])
    ensures i + k == |s| || !IsLetter(s[i + k])
    decreases |s| - i
  {
    if i < |s| && IsLetter(s[i]) then 1 + LetterRun(s, i + 1) else 0
  }

  /** The length of the run of white space and hyphens starting at i. */
  function SepRun(s: string, i: nat): (k: nat)
    requires i <= |s|
    ensures i + k <= |s|
    ensures forall j :: i <= j < i + k ==> IsSepChar(s[j])
    ensures i + k == |s| || !IsSepChar(s[i + k])
    decreases |s| - i
  {
    if i < |s| && IsSepChar(s[i]) then 1 + SepRun(s, i + 1) else 0
  }

  /** The length of the run of digits that ends s. */
  function DigitTail(s: string): (k: nat)
    ensures k <= |s|
    ensures forall j :: |s| - k <= j < |s| ==> IsDigit(s[j])
    ensures k == |s| || !IsDigit(s[|s| - k - 1])
  {
    if |s| > 0 && IsDigit(s[|s| - 1]) then 1 + DigitTail(s[..|s| - 1]) else 0
  }

  /** The length of the run of ASCII letters that ends s. */
  function LetterTail(s: string): (k: nat)
    ensures k <= |s|
    ensures forall j :: |s| - k <= j < |s| ==> IsLetter(s[j])
    ensures k == |s| || !IsLetter(s[|s| - k - 1])
  {
    if |s| > 0 && IsLetter(s[|s| - 1]) then 1 + LetterTail(s[..|s| - 1]) else 0
  }

  lemma {:induction false} DigitsOf(s: string, a: nat, b: nat)
    requires a <= b <= |s| && forall j :: a <= j < b ==> IsDigit(s[j])
    ensures AllDigits(s[a..b])
  {
    forall i | 0 <= i < b - a
      ensures IsDigit(s[a..b][i])
    {
      assert s[a..b][i] == s[a + i];
    }
  }

  // ---------------------------------------------------------------------------
  // The five expressions

  /** t is matched in full by `\s*[- ]\s*`. */
  predicate IsSeparator(t: string)
  {
    exists k :: 0 <= k < |t| && (t[k] == '-' || t[k] == ' ') && AllSpace(t[..k]) && AllSpace(t[k + 1..])
  }

  lemma {:induction false} SeparatorChars(t: string)
    requires IsSeparator(t)
    ensures |t| > 0 && forall i :: 0 <= i < |t| ==> IsSepChar(t[i])
  {
    var k :| 0 <= k < |t| && (t[k] == '-' || t[k] == ' ') && AllSpace(t[..k]) && AllSpace(t[k + 1..]);
    forall i | 0 <= i < |t|
      ensures IsSepChar(t[i])
    {
      if i < k {
        assert t[..k][i] == t[i];
      } else if i > k {
        assert t[k + 1..][i - k - 1] == t[i];
      }
    }
  }

  lemma {:induction false} SingleSeparator(c: char)
    requires c == '-' || c == ' '
    ensures IsSeparator([c])
  {
    assert [c][..0] == [] && [c][1..] == [];
  }

  /** Rule 1, `^([A-Za-z]+)\s*[- ]\s*(\d{1,3})$`, matches q as l + t + d with groups l and d. */
  predicate NameDashMassMatch(q: string, l: string, t: string, d: string)
  {
    q == l + t + d && |l| > 0 && AllLetters(l) && IsSeparator(t) && 1 <= |d| <= 3 && AllDigits(d)
  }

  /**
   * Rule 1: the letters and the value of the digits. The letter group is the longest letter
   * prefix and the digit group the longest digit suffix, since the separator holds neither.
   */
  function NameDashMass(q: string): (m: Option<(string, nat)>)
    ensures m.Some? ==> m.value.1 < 1000
  {
    var a := LetterRun(q, 0);
    var e := DigitTail(q);
    if 0 < a && 1 <= e <= 3 && a <= |q| - e && IsSeparator(q[a..|q| - e]) then
      DigitsOf(q, |q| - e, |q|);
      DigitsShort(q[|q| - e..]);
      Some((q[..a], DigitsValue(q[|q| - e..])))
    else None
  }

  lemma {:induction false} NameDashMassSound(q: string)
    requires NameDashMass(q).Some?
    ensures exists t, d :: NameDashMassMatch(q, NameDashMass(q).value.0, t, d) && NameDashMass(q).value.1 == DigitsValue(d)
  {
    var a := LetterRun(q, 0);
    var e := DigitTail(q);
    var l, t, d := q[..a], q[a..|q| - e], q[|q| - e..];
    assert q == l + t + d;
    DigitsOf(q, |q| - e, |q|);
    assert NameDashMassMatch(q, l, t, d);
  }

  lemma {:induction false} NameDashMassComplete(q: string, l: string, t: string, d: string)
    requires NameDashMassMatch(q, l, t, d)
    ensures NameDashMass(q) == Some((l, DigitsValue(d)))
  {
    NameDashMassLetters(q, l, t, d);
    NameDashMassDigits(q, l, t, d);
    assert q[..|l|] == l && q[|l|..|q| - |d|] == t && q[|q| - |d|..] == d;
  }

  /** In a rule 1 match the letter group is the whole leading letter run. */
  lemma {:induction false} NameDashMassLetters(q: string, l: string, t: string, d: string)
    requires NameDashMassMatch(q, l, t, d)
    ensures LetterRun(q, 0) == |l|
  {
    SeparatorChars(t);
    var a := |l|;
    assert q[a] == t[0];
    assert forall j :: 0 <= j < a ==> q[j] == l[j];
    LetterRunAtLeast(q, 0, a);
  }

  /** In a rule 1 match the digit group is the whole digit tail. */
  lemma {:induction false} NameDashMassDigits(q: string, l: string, t: string, d: string)
    requires NameDashMassMatch(q, l, t, d)
    ensures DigitTail(q) == |d|
  {
    SeparatorChars(t);
    var b := |l| + |t|;
    assert forall j :: b <= j < |q| ==> q[j] == d[j - b];
    assert q[b - 1] == t[|t| - 1];
    DigitTailAtLeast(q, |d|);
  }

  /** A letter run is at least as long as any run of letters it starts with. */
  lemma {:induction false} LetterRunAtLeast(q: string, k: nat, m: nat)
    requires k + m <= |q| && forall x :: k <= x < k + m ==> IsLetter(q[x])
    ensures LetterRun(q, k) >= m
    decreases m
  {
    if m > 0 {
      LetterRunAtLeast(q, k + 1, m - 1);
    }
  }

  /** A digit tail is at least as long as any run of digits that ends the string. */
  lemma {:induction false} DigitTailAtLeast(s: string, m: nat)
    requires m <= |s| && forall j :: |s| - m <= j < |s| ==> IsDigit(s[j])
    ensures DigitTail(s) >= m
    decreases m
  {
    if m > 0 {
      var p := s[..|s| - 1];
      assert forall j :: |p| - (m - 1) <= j < |p| ==> p[j] == s[j];
      DigitTailAtLeast(p, m - 1);
    }
  }

  /** Rule 2, `^(\d{1,3})\s*([A-Za-z]{1,2})$`, matches q as d + w + l with groups d and l. */
  predicate MassSymbolMatch(q: string, d: string, w: string, l: string)
  {
    q == d + w + l && 1 <= |d| <= 3 && AllDigits(d) && AllSpace(w) && 1 <= |l| <= 2 && AllLetters(l)
  }

  /** Rule 2: the value of the leading digits and the trailing letters. */
  function MassSymbol(q: string): (m: Option<(nat, string)>)
    ensures m.Some? ==> m.value.0 < 1000
  {
    var d := DigitRun(q, 0);
    var e := LetterTail(q);
    if 1 <= d <= 3 && 1 <= e <= 2 && d <= |q| - e && AllSpace(q[d..|q| - e]) then
      assert q[..d] == q[0..0 + d];
      DigitsShort(q[..d]);
      Some((DigitsValue(q[..d]), q[|q| - e..]))
    else None
  }

  lemma {:induction false} MassSymbolSound(q: string)
    requires MassSymbol(q).Some?
    ensures exists d, w :: MassSymbolMatch(q, d, w, MassSymbol(q).value.1) && MassSymbol(q).value.0 == DigitsValue(d)
  {
    var a := DigitRun(q, 0);
    var e := LetterTail(q);
    var d, w, l := q[..a], q[a..|q| - e], q[|q| - e..];
    assert d == q[0..0 + a];
    assert q == d + w + l;
    assert forall i :: 0 <= i < |l| ==> l[i] == q[|q| - e + i];
    assert MassSymbolMatch(q, d, w, l);
  }

  lemma {:induction false} MassSymbolComplete(q: string, d: string, w: string, l: string)
    requires MassSymbolMatch(q, d, w, l)
    ensures MassSymbol(q) == Some((DigitsValue(d), l))
  {
    MassSymbolRuns(q, d, w, l);
    assert q[..|d|] == d && q[|d|..|q| - |l|] == w && q[|q| - |l|..] == l;
  }

  /** In a rule 2 match the digit group is the whole leading digit run, the letters the whole tail. */
  lemma {:induction false} MassSymbolRuns(q: string, d: string, w: string, l: string)
    requires MassSymbolMatch(q, d, w, l)
    ensures DigitRun(q, 0) == |d| && LetterTail(q) == |l|
  {
    MassSymbolDigits(q, d, w, l);
    MassSymbolLetters(q, d, w, l);
  }

  lemma {:induction false} MassSymbolDigits(q: string, d: string, w: string, l: string)
    requires MassSymbolMatch(q, d, w, l)
    ensures DigitRun(q, 0) == |d|
  {
    var a := |d|;
    assert forall j :: 0 <= j < a ==> q[j] == d[j];
    assert q[a] == if |w| > 0 then w[0] else l[0];
    DigitRunAtLeast(q, 0, a);
  }

  lemma {:induction false} MassSymbolLetters(q: string, d: string, w: string, l: string)
    requires MassSymbolMatch(q, d, w, l)
    ensures LetterTail(q) == |l|
  {
    var b := |d| + |w|;
    assert forall j :: b <= j < |q| ==> q[j] == l[j - b];
    assert q[b - 1] == if |w| > 0 then w[|w| - 1] else d[|d| - 1];
    LetterTailAtLeast(q, |l|);
  }

  /** A letter tail is at least as long as any run of letters that ends the string. */
  lemma {:induction false} LetterTailAtLeast(s: string, m: nat)
    requires m <= |s| && forall j :: |s| - m <= j < |s| ==> IsLetter(s[j])
    ensures LetterTail(s) >= m
    decreases m
  {
    if m > 0 {
      var p := s[..|s| - 1];
      assert forall j :: |p| - (m - 1) <= j < |p| ==> p[j] == s[j];
      LetterTailAtLeast(p, m - 1);
    }
  }

  /** Rule 3, `^\d{1,3}$`. */
  predicate MassOnly(q: string)
  {
    1 <= |q| <= 3 && AllDigits(q)
  }

  /** Rule 4, `^[A-Za-z]+$`. */
  predicate LettersOnly(q: string)
  {
    |q| > 0 && AllLetters(q)
  }

  /** Rule 5, `([A-Za-z]{1,2})\s*[- ]\s*(\d{1,3})`, matches at i as l + t + d with groups l and d. */
  predicate SymbolDashMassMatch(q: string, i: nat, l: string, t: string, d: string)
  {
    i + |l| + |t| + |d| <= |q| && q[i..i + |l| + |t| + |d|] == l + t + d &&
    1 <= |l| <= 2 && AllLetters(l) && IsSeparator(t) && 1 <= |d| <= 3 && AllDigits(d)
  }

  /** The greedy `\d{1,3}` of a match ends where no further digit could be taken. */
  predicate DigitsGreedy(q: string, e: nat, d: string)
    requires e <= |q|
  {
    |d| == 3 || e == |q| || !IsDigit(q[e])
  }

  function Min3(n: nat): nat
  {
    if n < 3 then n else 3
  }

  lemma {:induction false} DigitsPrefix(q: string, k: nat, n: nat, m: nat)
    requires m <= n && k + n <= |q| && AllDigits(q[k..k + n])
    ensures AllDigits(q[k..k + m])
  {
    var a, b := q[k..k + m], q[k..k + n];
    forall x | 0 <= x < |a|
      ensures IsDigit(a[x])
    {
      assert a[x] == b[x];
    }
  }

  /**
   * Rule 5 at i, given the end j of the letter run at i and the end k of the run of white space
   * and hyphens after it. The letter group is the whole letter run, which must be one or two
   * letters long (after a longer run neither choice is followed by a separator); the separator is
   * the whole run after it; the digit group is the first three digits of the digit run at k, or
   * the whole run when it is shorter.
   */
  function AtRuns(q: string, i: nat, j: nat, k: nat): (m: Option<(string, nat)>)
    requires i <= j <= k <= |q|
    ensures m.Some? ==> m.value.1 < 1000
  {
    var n := DigitRun(q, k);
    if 1 <= j - i <= 2 && IsSeparator(q[j..k]) && n >= 1 then
      DigitsPrefix(q, k, n, Min3(n));
      DigitsShort(q[k..k + Min3(n)]);
      Some((q[i..j], DigitsValue(q[k..k + Min3(n)])))
    else None
  }

  /** Where the letter run at i ends. */
  function LetterEnd(q: string, i: nat): (j: nat)
    requires i <= |q|
    ensures i <= j <= |q|
  {
    i + LetterRun(q, i)
  }

  /** Where the run of white space and hyphens after the letter run at i ends. */
  function SepEnd(q: string, i: nat): (k: nat)
    requires i <= |q|
    ensures LetterEnd(q, i) <= k <= |q|
  {
    LetterEnd(q, i) + SepRun(q, LetterEnd(q, i))
  }

  /** Rule 5 tried at position i, the way the regular expression engine tries it. */
  function SymbolDashMassAt(q: string, i: nat): (m: Option<(string, nat)>)
    requires i <= |q|
    ensures m.Some? ==> m.value.1 < 1000
  {
    AtRuns(q, i, LetterEnd(q, i), SepEnd(q, i))
  }

  lemma {:induction false} LettersOf(s: string, a: nat, b: nat)
    requires a <= b <= |s| && forall j :: a <= j < b ==> IsLetter(s[j])
    ensures AllLetters(s[a..b])
  {
    forall x | 0 <= x < b - a
      ensures IsLetter(s[a..b][x])
    {
      assert s[a..b][x] == s[a + x];
    }
  }

  lemma {:induction false} Pieces(s: string, a: nat, b: nat, c: nat, e: nat)
    requires a <= b <= c <= e <= |s|
    ensures s[a..e] == s[a..b] + s[b..c] + s[c..e]
  {
  }

  /** Reading the positions of q that a match at i covers. */
  lemma {:induction false} MatchCovers(q: string, i: nat, l: string, t: string, d: string)
    requires i + |l| + |t| + |d| <= |q| && q[i..i + |l| + |t| + |d|] == l + t + d
    ensures forall x :: 0 <= x < |l| ==> q[i + x] == l[x]
    ensures forall x :: 0 <= x < |t| ==> q[i + |l| + x] == t[x]
    ensures forall x :: 0 <= x < |d| ==> q[i + |l| + |t| + x] == d[x]
    ensures q[i..i + |l|] == l && q[i + |l|..i + |l| + |t|] == t && q[i + |l| + |t|..i + |l| + |t| + |d|] == d
  {
    var u := q[i..i + |l| + |t| + |d|];
    forall x | 0 <= x < |l| ensures q[i + x] == l[x] {
      assert u[x] == q[i + x];
    }
    forall x | 0 <= x < |t| ensures q[i + |l| + x] == t[x] {
      assert u[|l| + x] == q[i + |l| + x];
    }
    forall x | 0 <= x < |d| ensures q[i + |l| + |t| + x] == d[x] {
      assert u[|l| + |t| + x] == q[i + |l| + |t| + x];
    }
  }

  /** Runs cut as the function cuts them are a match that takes the digits greedily. */
  lemma {:induction false} RunsMatch(q: string, i: nat, j: nat, k: nat, n: nat)
    requires i <= j <= k <= |q| && n == DigitRun(q, k)
    requires 1 <= j - i <= 2 && AllLetters(q[i..j]) && IsSeparator(q[j..k]) && n >= 1
    ensures SymbolDashMassMatch(q, i, q[i..j], q[j..k], q[k..k + Min3(n)])
    ensures DigitsGreedy(q, k + Min3(n), q[k..k + Min3(n)])
  {
    DigitsPrefix(q, k, n, Min3(n));
    DigitRunGreedy(q, k, n);
    SlicesMatch(q, i, j, k, k + Min3(n));
  }

  /** Three adjacent slices of the right kinds are a match of rule 5. */
  lemma {:induction false} SlicesMatch(q: string, i: nat, j: nat, k: nat, e: nat)
    requires i <= j <= k <= e <= |q|
    requires 1 <= j - i <= 2 && AllLetters(q[i..j]) && IsSeparator(q[j..k]) && 1 <= e - k <= 3 && AllDigits(q[k..e])
    ensures SymbolDashMassMatch(q, i, q[i..j], q[j..k], q[k..e])
  {
    Pieces(q, i, j, k, e);
  }

  /** The letter run at i, read as a slice. */
  lemma {:induction false} LetterRunLetters(q: string, i: nat, j: nat)
    requires i <= |q| && j == LetterEnd(q, i)
    ensures AllLetters(q[i..j])
  {
    LettersOf(q, i, j);
  }

  /** The first three digits of a digit run, or the whole run when it is shorter, are taken greedily. */
  lemma {:induction false} DigitRunGreedy(q: string, k: nat, n: nat)
    requires k <= |q| && n == DigitRun(q, k)
    ensures k + Min3(n) <= |q| && DigitsGreedy(q, k + Min3(n), q[k..k + Min3(n)])
  {
  }

  /** What rule 5 finds at i, read off the runs. */
  lemma {:induction false} AtRunsFound(q: string, i: nat, j: nat, k: nat, n: nat)
    requires i <= j <= k <= |q| && n == DigitRun(q, k)
    requires AtRuns(q, i, j, k).Some?
    ensures 1 <= j - i <= 2 && IsSeparator(q[j..k]) && n >= 1
    ensures AllDigits(q[k..k + Min3(n)])
    ensures AtRuns(q, i, j, k).value.0 == q[i..j]
    ensures AtRuns(q, i, j, k).value.1 == DigitsValue(q[k..k + Min3(n)])
  {
    DigitsPrefix(q, k, n, Min3(n));
  }

  /** Whatever rule 5 finds at i is the letter and digit groups of a match there. */
  lemma {:induction false} SymbolDashMassAtSound(q: string, i: nat) returns (t: string, d: string)
    requires i <= |q| && SymbolDashMassAt(q, i).Some?
    ensures SymbolDashMassMatch(q, i, SymbolDashMassAt(q, i).value.0, t, d)
    ensures DigitsGreedy(q, i + |SymbolDashMassAt(q, i).value.0| + |t| + |d|, d)
    ensures SymbolDashMassAt(q, i).value.1 == DigitsValue(d)
  {
    var j, k := LetterEnd(q, i), SepEnd(q, i);
    var n := DigitRun(q, k);
    AtRunsFound(q, i, j, k, n);
    LetterRunLetters(q, i, j);
    RunsMatch(q, i, j, k, n);
    t, d := q[j..k], q[k..k + Min3(n)];
  }

  /** The three groups of a match at i, as slices of q, the letters ending at j and the separator at k. */
  lemma {:induction false} MatchSlices(q: string, i: nat, l: string, t: string, d: string, j: nat, k: nat)
    requires i + |l| + |t| + |d| <= |q| && q[i..i + |l| + |t| + |d|] == l + t + d
    requires j == i + |l| && k == j + |t|
    ensures q[i..j] == l && q[j..k] == t && q[k..k + |d|] == d
  {
    MatchCovers(q, i, l, t, d);
  }

  /** The letter group of a match is the whole letter run at i. */
  lemma {:induction false} MatchLetterRun(q: string, i: nat, l: string, t: string, d: string, j: nat)
    requires SymbolDashMassMatch(q, i, l, t, d) && j == i + |l|
    ensures LetterRun(q, i) == j - i
  {
    SeparatorChars(t);
    MatchCovers(q, i, l, t, d);
    assert q[j] == t[0];
  }

  /** The separator of a match is the whole run of white space and hyphens after the letters. */
  lemma {:induction false} MatchSepRun(q: string, i: nat, l: string, t: string, d: string, j: nat, k: nat)
    requires SymbolDashMassMatch(q, i, l, t, d) && j == i + |l| && k == j + |t|
    ensures SepRun(q, j) == k - j
  {
    SeparatorChars(t);
    MatchCovers(q, i, l, t, d);
    assert q[k] == d[0];
  }

  /** The digit run after a match's separator holds its digit group. */
  lemma {:induction false} MatchDigitRun(q: string, i: nat, l: string, t: string, d: string, k: nat, n: nat)
    requires SymbolDashMassMatch(q, i, l, t, d) && k == i + |l| + |t| && n == DigitRun(q, k)
    ensures n >= |d|
    ensures DigitsGreedy(q, k + |d|, d) ==> Min3(n) == |d|
  {
    MatchCovers(q, i, l, t, d);
    DigitRunAtLeast(q, k, |d|);
    if DigitsGreedy(q, k + |d|, d) && |d| < 3 {
      DigitRunAtMost(q, k, |d|);
    }
  }

  /** A digit run stops at the first place that is not a digit. */
  lemma {:induction false} DigitRunAtMost(q: string, k: nat, m: nat)
    requires k + m <= |q| && (k + m == |q| || !IsDigit(q[k + m]))
    ensures DigitRun(q, k) <= m
    decreases m
  {
    if m > 0 && k < |q| && IsDigit(q[k]) {
      DigitRunAtMost(q, k + 1, m - 1);
    }
  }

  /** A digit run is at least as long as any run of digits it starts with. */
  lemma {:induction false} DigitRunAtLeast(q: string, k: nat, m: nat)
    requires k + m <= |q| && forall x :: k <= x < k + m ==> IsDigit(q[x])
    ensures DigitRun(q, k) >= m
    decreases m
  {
    if m > 0 {
      DigitRunAtLeast(q, k + 1, m - 1);
    }
  }

  /** Rule 5 at i finds the letter run and the first three digits of the digit run. */
  lemma {:induction false} AtRunsMatch(q: string, i: nat, j: nat, k: nat, n: nat)
    requires i <= j <= k <= |q| && n == DigitRun(q, k)
    requires 1 <= j - i <= 2 && IsSeparator(q[j..k]) && n >= 1
    ensures AtRuns(q, i, j, k).Some?
    ensures AllDigits(q[k..k + Min3(n)])
    ensures AtRuns(q, i, j, k).value.0 == q[i..j]
    ensures AtRuns(q, i, j, k).value.1 == DigitsValue(q[k..k + Min3(n)])
  {
    DigitsPrefix(q, k, n, Min3(n));
  }

  /** A match at i is what rule 5 finds there, the digits in full when they were taken greedily. */
  lemma {:induction false} SymbolDashMassAtComplete(q: string, i: nat, l: string, t: string, d: string)
    requires SymbolDashMassMatch(q, i, l, t, d)
    ensures SymbolDashMassAt(q, i).Some? && SymbolDashMassAt(q, i).value.0 == l
    ensures DigitsGreedy(q, i + |l| + |t| + |d|, d) ==> SymbolDashMassAt(q, i).value.1 == DigitsValue(d)
  {
    var j := i + |l|;
    var k := j + |t|;
    var n := DigitRun(q, k);
    MatchRuns(q, i, l, t, d, j, k, n);
    AtRunsMatch(q, i, j, k, n);
  }

  /** The runs at i that rule 5 reads, and the groups of a match at i within them. */
  lemma {:induction false} MatchRuns(q: string, i: nat, l: string, t: string, d: string, j: nat, k: nat, n: nat)
    requires SymbolDashMassMatch(q, i, l, t, d)
    requires j == i + |l| && k == j + |t| && k <= |q| && n == DigitRun(q, k)
    ensures j == LetterEnd(q, i) && k == SepEnd(q, i)
    ensures q[i..j] == l && IsSeparator(q[j..k]) && n >= |d|
    ensures DigitsGreedy(q, k + |d|, d) ==> Min3(n) == |d| && q[k..k + Min3(n)] == d
  {
    MatchLetterRun(q, i, l, t, d, j);
    MatchSepRun(q, i, l, t, d, j, k);
    MatchDigitRun(q, i, l, t, d, k, n);
    MatchSlices(q, i, l, t, d, j, k);
  }

  /** The first position from i at which rule 5 matches, or |q| when there is none. */
  function FirstMatch(q: string, i: nat): (p: nat)
    requires i <= |q|
    ensures i <= p <= |q|
    ensures p < |q| ==> SymbolDashMassAt(q, p).Some?
    ensures forall x :: i <= x < p ==> SymbolDashMassAt(q, x).None?
    decreases |q| - i
  {
    if i == |q| then i
    else if SymbolDashMassAt(q, i).Some? then i
    else
      var p := FirstMatch(q, i + 1);
      assert forall x :: i + 1 <= x < p ==> SymbolDashMassAt(q, x).None?;
      p
  }

  // ---------------------------------------------------------------------------
  // parseQuery

  /** `SYMBOL_SET.has(s) ? s : NAME_TO_SYMBOL.get(s.toLowerCase())` */
  function Lookup(symbols: set<string>, names: map<string, string>, s: string): (r: Option<string>)
    ensures r.Some? ==> r.value in symbols || r.value in names.Values
    ensures s in symbols ==> r == Some(s)
    ensures s !in symbols ==> (r.Some? <==> ToLower(s) in names)
    ensures s !in symbols && ToLower(s) in names ==> r == Some(names[ToLower(s)])
  {
    if s in symbols then Some(s)
    else if ToLower(s) in names then
      assert names[ToLower(s)] in names.Values;
      Some(names[ToLower(s)])
    else None
  }

  /**
   * parseQuery: the normalized query tried against the five expressions in turn; the first that
   * matches decides.
   */
  function ParseQuery(symbols: set<string>, names: map<string, string>, raw: string): (r: Query)
    ensures r.mass.Some? ==> r.mass.value < 1000
    ensures r.symbol.Some? ==> r.symbol.value in symbols || r.symbol.value in names.Values
  {
    ParseNormal(symbols, names, Normalize(raw))
  }

  /**
   * The cascade of parseQuery on the normalized query q: an empty query gives `{}`, otherwise
   * the expressions are tried in order.
   */
  function ParseNormal(symbols: set<string>, names: map<string, string>, q: string): (r: Query)
    ensures r.mass.Some? ==> r.mass.value < 1000
    ensures r.symbol.Some? ==> r.symbol.value in symbols || r.symbol.value in names.Values
  {
    if q == [] then Query(None, None) else Cascade(symbols, names, q, 0)
  }

  /**
   * Whether expression k of parseQuery matches q, the expressions numbered 0 to 4 in the
   * order the parser tries them.
   */
  predicate Matches(q: string, k: nat)
  {
    if k == 0 then NameDashMass(q).Some?
    else if k == 1 then MassSymbol(q).Some?
    else if k == 2 then MassOnly(q)
    else if k == 3 then LettersOnly(q)
    else FirstMatch(q, 0) < |q|
  }

  /** The record parseQuery returns when expression k is the one that decides. */
  function Answer(symbols: set<string>, names: map<string, string>, q: string, k: nat): (r: Query)
    requires Matches(q, k)
    ensures r.mass.Some? ==> r.mass.value < 1000
    ensures r.symbol.Some? ==> r.symbol.value in symbols || r.symbol.value in names.Values
  {
    if k == 0 then
      Query(Lookup(symbols, names, NameDashMass(q).value.0), Some(NameDashMass(q).value.1))
    else if k == 1 then
      var sym := MassSymbol(q).value.1;
      Query(if sym in symbols then Some(sym) else None, Some(MassSymbol(q).value.0))
    else if k == 2 then
      DigitsShort(q);
      Query(None, Some(DigitsValue(q)))
    else if k == 3 then
      Query(Lookup(symbols, names, q), None)
    else
      var p := FirstMatch(q, 0);
      Query(Lookup(symbols, names, SymbolDashMassAt(q, p).value.0), Some(SymbolDashMassAt(q, p).value.1))
  }

  /** The expressions from k on, tried in order: the first that matches decides, none gives `{}`. */
  function Cascade(symbols: set<string>, names: map<string, string>, q: string, k: nat): (r: Query)
    ensures r.mass.Some? ==> r.mass.value < 1000
    ensures r.symbol.Some? ==> r.symbol.value in symbols || r.symbol.value in names.Values
    decreases 5 - k
  {
    if k >= 5 then Query(None, None)
    else if Matches(q, k) then Answer(symbols, names, q, k)
    else Cascade(symbols, names, q, k + 1)
  }

  /** An expression that does not match passes the query on to the next. */
  lemma {:induction false} Skip(symbols: set<string>, names: map<string, string>, q: string, k: nat)
    requires k < 5 && !Matches(q, k)
    ensures Cascade(symbols, names, q, k) == Cascade(symbols, names, q, k + 1)
  {
  }

  /** An expression that matches decides. */
  lemma {:induction false} Take(symbols: set<string>, names: map<string, string>, q: string, k: nat)
    requires k < 5 && Matches(q, k)
    ensures Cascade(symbols, names, q, k) == Answer(symbols, names, q, k)
  {
  }

  /** From expression j on, the first expression that matches decides. */
  lemma {:induction false} FirstDecides(symbols: set<string>, names: map<string, string>, q: string, j: nat, k: nat)
    requires j <= k < 5 && Matches(q, k)
    requires forall m :: j <= m < k ==> !Matches(q, m)
    ensures Cascade(symbols, names, q, j) == Answer(symbols, names, q, k)
    decreases k - j
  {
    if j < k {
      Skip(symbols, names, q, j);
      FirstDecides(symbols, names, q, j + 1, k);
    } else {
      Take(symbols, names, q, k);
    }
  }

  /** On a query that is already normal, the first expression that matches decides. */
  lemma {:induction false} Decides(symbols: set<string>, names: map<string, string>, q: string, k: nat)
    requires Normalize(q) == q && q != []
    requires k < 5 && Matches(q, k)
    requires forall m :: 0 <= m < k ==> !Matches(q, m)
    ensures ParseQuery(symbols, names, q) == Answer(symbols, names, q, k)
  {
    FirstDecides(symbols, names, q, 0, k);
  }

  /** On a query that is already normal and matches no expression, the result is `{}`. */
  lemma {:induction false} NoneDecides(symbols: set<string>, names: map<string, string>, q: string)
    requires Normalize(q) == q && q != []
    requires forall m :: 0 <= m < 5 ==> !Matches(q, m)
    ensures ParseQuery(symbols, names, q) == Query(None, None)
  {
    Skip(symbols, names, q, 0);
    Skip(symbols, names, q, 1);
    Skip(symbols, names, q, 2);
    Skip(symbols, names, q, 3);
    Skip(symbols, names, q, 4);
  }

  // ---------------------------------------------------------------------------
  // What the parser makes of each shape of query

  lemma {:induction false} BlankQuery(symbols: set<string>, names: map<string, string>, raw: string)
    requires AllSpace(raw)
    ensures ParseQuery(symbols, names, raw) == Query(None, None)
  {
    NormalizeEmptyIff(raw);
  }

  /** A query without white space is its own normal form. */
  lemma {:induction false} NoSpaceNormal(q: string)
    requires forall i :: 0 <= i < |q| ==> !IsSpace(q[i])
    ensures Normalize(q) == q
  {
    NormalizeFixes(q);
  }

  /** A query whose only white space is one plain space inside it is its own normal form. */
  lemma {:induction false} InnerSpaceNormal(q: string, p: nat)
    requires 0 < p < |q| - 1 && q[p] == ' '
    requires forall i :: 0 <= i < |q| && i != p ==> !IsSpace(q[i])
    ensures Normalize(q) == q
  {
    NormalizeFixes(q);
  }

  lemma {:induction false} JoinedChars(l: string, c: char, d: string)
    ensures forall i :: 0 <= i < |l| ==> (l + [c] + d)[i] == l[i]
    ensures (l + [c] + d)[|l|] == c
    ensures forall i :: 0 <= i < |d| ==> (l + [c] + d)[|l| + 1 + i] == d[i]
  {
  }

  /** "C-14", "Carbon-14", "O 18": the letters looked up and the number as the mass. */
  lemma {:induction false} LettersDashNumber(symbols: set<string>, names: map<string, string>, l: string, c: char, n: nat)
    requires |l| > 0 && AllLetters(l) && (c == '-' || c == ' ') && n < 1000
    ensures ParseQuery(symbols, names, l + [c] + NatToString(n)) == Query(Lookup(symbols, names, l), Some(n))
  {
    var d := NatToString(n);
    var q := l + [c] + d;
    NatToStringShort(n);
    JoinedChars(l, c, d);
    forall i | 0 <= i < |q| && i != |l|
      ensures !IsSpace(q[i])
    {
      if i < |l| {
        assert IsLetter(l[i]);
      } else {
        assert IsDigit(d[i - |l| - 1]);
      }
    }
    if c == '-' {
      NoSpaceNormal(q);
    } else {
      InnerSpaceNormal(q, |l|);
    }
    SingleSeparator(c);
    assert NameDashMassMatch(q, l, [c], d);
    NameDashMassComplete(q, l, [c], d);
  }

  /** "14C": the number as the mass, and the letters only when they are a symbol. */
  lemma {:induction false} NumberLetters(symbols: set<string>, names: map<string, string>, n: nat, l: string)
    requires 1 <= |l| <= 2 && AllLetters(l) && n < 1000
    ensures ParseQuery(symbols, names, NatToString(n) + l) ==
      Query(if l in symbols then Some(l) else None, Some(n))
  {
    var d := NatToString(n);
    NatToStringShort(n);
    NumberLettersNormal(d, l);
    NumberLettersRules(d, l);
    Decides(symbols, names, d + l, 1);
  }

  /** Digits followed by one or two letters: rule 1 does not match and rule 2 does. */
  lemma {:induction false} NumberLettersRules(d: string, l: string)
    requires 1 <= |d| <= 3 && AllDigits(d) && 1 <= |l| <= 2 && AllLetters(l)
    ensures NameDashMass(d + l).None? && MassSymbol(d + l) == Some((DigitsValue(d), l))
  {
    var q := d + l;
    assert q == d + [] + l;
    assert MassSymbolMatch(q, d, [], l);
    MassSymbolComplete(q, d, [], l);
    assert q[0] == d[0];
    NameDashMassNeedsLetter(q);
  }

  /** Digits followed by letters are their own normal form. */
  lemma {:induction false} NumberLettersNormal(d: string, l: string)
    requires AllDigits(d) && AllLetters(l)
    ensures Normalize(d + l) == d + l
  {
    var q := d + l;
    forall i | 0 <= i < |q|
      ensures !IsSpace(q[i])
    {
      if i < |d| {
        assert q[i] == d[i];
      } else {
        assert q[i] == l[i - |d|];
      }
      LetterOrDigitNotSpace(q[i]);
    }
    NoSpaceNormal(q);
  }

  /** Rule 5 never matches where no letter stands. */
  lemma {:induction false} NoLetterNoMatch(q: string, p: nat)
    requires p <= |q| && (p == |q| || !IsLetter(q[p]))
    ensures SymbolDashMassAt(q, p).None?
  {
    assert LetterRun(q, p) == 0;
  }

  /** With no letter anywhere only the anchored expressions can match. */
  lemma {:induction false} NoLettersNoMatch(q: string)
    requires forall i :: 0 <= i < |q| ==> !IsLetter(q[i])
    ensures FirstMatch(q, 0) == |q|
  {
    var p := FirstMatch(q, 0);
    if p < |q| {
      NoLetterNoMatch(q, p);
    }
  }

  /** Digits alone are their own normal form. */
  lemma {:induction false} DigitsNormal(d: string)
    requires AllDigits(d)
    ensures Normalize(d) == d
  {
    forall i | 0 <= i < |d|
      ensures !IsSpace(d[i])
    {
      LetterOrDigitNotSpace(d[i]);
    }
    NoSpaceNormal(d);
  }

  /** Digits alone: neither rule 1, rule 2 nor rule 4 matches, nor rule 5. */
  lemma {:induction false} DigitsRules(d: string)
    requires |d| > 0 && AllDigits(d)
    ensures !Matches(d, 0) && !Matches(d, 1) && !Matches(d, 3) && !Matches(d, 4)
  {
    assert !IsLetter(d[0]) && !IsLetter(d[|d| - 1]);
    NameDashMassNeedsLetter(d);
    MassSymbolNeedsLetter(d);
    NoLettersNoMatch(d);
  }

  /** "14": one to three digits are a mass alone. */
  lemma {:induction false} NumberOnly(symbols: set<string>, names: map<string, string>, d: string)
    requires 1 <= |d| <= 3 && AllDigits(d)
    ensures ParseQuery(symbols, names, d) == Query(None, Some(DigitsValue(d)))
  {
    DigitsNormal(d);
    DigitsRules(d);
    Decides(symbols, names, d, 2);
  }

  /** "1234": more than three digits match no expression. */
  lemma {:induction false} LongNumber(symbols: set<string>, names: map<string, string>, d: string)
    requires |d| > 3 && AllDigits(d)
    ensures ParseQuery(symbols, names, d) == Query(None, None)
  {
    DigitsNormal(d);
    DigitsRules(d);
    NoneDecides(symbols, names, d);
  }

  /** "Carbon", "C": letters alone are looked up, with no mass. */
  lemma {:induction false} LettersOnlyQuery(symbols: set<string>, names: map<string, string>, l: string)
    requires |l| > 0 && AllLetters(l)
    ensures ParseQuery(symbols, names, l) == Query(Lookup(symbols, names, l), None)
  {
    LettersNormal(l);
    LettersOnlyRules(l);
    Decides(symbols, names, l, 3);
  }

  lemma {:induction false} LettersNormal(l: string)
    requires AllLetters(l)
    ensures Normalize(l) == l
  {
    forall i | 0 <= i < |l|
      ensures !IsSpace(l[i])
    {
      LetterOrDigitNotSpace(l[i]);
    }
    NoSpaceNormal(l);
  }

  /** Letters alone: only rule 4 matches. */
  lemma {:induction false} LettersOnlyRules(l: string)
    requires |l| > 0 && AllLetters(l)
    ensures !Matches(l, 0) && !Matches(l, 1) && !Matches(l, 2) && Matches(l, 3)
  {
    NameDashMassNeedsDigit(l);
    MassSymbolNeedsDigit(l);
  }

  /** Rule 1 needs a letter at the start. */
  lemma {:induction false} NameDashMassNeedsLetter(q: string)
    requires |q| > 0 && !IsLetter(q[0])
    ensures NameDashMass(q).None?
  {
    assert LetterRun(q, 0) == 0;
  }

  /** Rule 2 needs a letter at the end. */
  lemma {:induction false} MassSymbolNeedsLetter(q: string)
    requires |q| > 0 && !IsLetter(q[|q| - 1])
    ensures MassSymbol(q).None?
  {
    assert LetterTail(q) == 0;
  }

  /** Rule 1 needs a digit at the end. */
  lemma {:induction false} NameDashMassNeedsDigit(q: string)
    requires |q| > 0 && !IsDigit(q[|q| - 1])
    ensures NameDashMass(q).None?
  {
    assert DigitTail(q) == 0;
  }

  /** No separator can be found in a query without white space or hyphens. */
  lemma {:induction false} NoSeparatorIn(q: string, a: nat, b: nat)
    requires a <= b <= |q| && forall i :: 0 <= i < |q| ==> !IsSepChar(q[i])
    ensures !IsSeparator(q[a..b])
  {
    if IsSeparator(q[a..b]) {
      SeparatorChars(q[a..b]);
      assert false;
    }
  }

  /** Without white space or hyphens neither rule 1 nor rule 5 matches. */
  lemma {:induction false} NoSeparatorNoMatch(q: string)
    requires forall i :: 0 <= i < |q| ==> !IsSepChar(q[i])
    ensures NameDashMass(q).None? && FirstMatch(q, 0) == |q|
  {
    var a := LetterRun(q, 0);
    var e := DigitTail(q);
    if a <= |q| - e {
      NoSeparatorIn(q, a, |q| - e);
    }
    var p := FirstMatch(q, 0);
    if p < |q| {
      NoSeparatorIn(q, LetterEnd(q, p), SepEnd(q, p));
    }
  }

  /** Rule 2 needs a digit at the start. */
  lemma {:induction false} MassSymbolNeedsDigit(q: string)
    requires |q| > 0 && !IsDigit(q[0])
    ensures MassSymbol(q).None?
  {
    assert DigitRun(q, 0) == 0;
  }

  /** Letters followed by digits hold neither white space nor hyphens. */
  lemma {:induction false} GluedChars(l: string, d: string)
    requires |l| > 0 && AllLetters(l) && |d| > 0 && AllDigits(d)
    ensures forall i :: 0 <= i < |l + d| ==> !IsSepChar((l + d)[i]) && !IsSpace((l + d)[i])
    ensures IsLetter((l + d)[0]) && IsDigit((l + d)[|l + d| - 1])
  {
    var q := l + d;
    forall i | 0 <= i < |q|
      ensures !IsSepChar(q[i]) && !IsSpace(q[i])
    {
      if i < |l| {
        assert q[i] == l[i];
      } else {
        assert q[i] == d[i - |l|];
      }
    }
    assert q[0] == l[0] && q[|q| - 1] == d[|d| - 1];
  }

  /** "C14": letters followed directly by digits match no expression. */
  lemma {:induction false} GluedQuery(symbols: set<string>, names: map<string, string>, l: string, d: string)
    requires |l| > 0 && AllLetters(l) && |d| > 0 && AllDigits(d)
    ensures ParseQuery(symbols, names, l + d) == Query(None, None)
  {
    GluedChars(l, d);
    NoSpaceNormal(l + d);
    GluedRules(l + d);
    NoneDecides(symbols, names, l + d);
  }

  /** Letters then digits: no expression matches. */
  lemma {:induction false} GluedRules(q: string)
    requires |q| > 0 && IsLetter(q[0]) && IsDigit(q[|q| - 1])
    requires forall i :: 0 <= i < |q| ==> !IsSepChar(q[i])
    ensures forall m :: 0 <= m < 5 ==> !Matches(q, m)
  {
    NoSeparatorNoMatch(q);
    MassSymbolNeedsDigit(q);
  }
}

/**
 * The reaction-stoichiometry tool (components/tools/ReactionStoichiometryTool.tsx): its own
 * reaction reader parseReaction (:20-33), the atom-counting molarMass (:36-87, the lenient
 * dialect of the formula scanner) and the coefficient lookup of its calculation (:111-182).
 *
 * The reader differs from the balancer's and the reagent tools': only "->" and "→" are arrows,
 * a malformed reaction gives two empty lists instead of an error, empty chunks between plus
 * signs are kept, and the coefficient comes from a different pattern.
 */
module Reaction {
  import opened Wrappers
  import opened Text
  import opened Counts
  import opened Formula
  import opened Equation
  import Reagent

  /** `{ coeff, formula }` */
  datatype SpeciesInfo = SpeciesInfo(coeff: nat, formula: string)

  // ---------------------------------------------------------------------------
  // reaction.split(/->|→/)

  /** The length of the arrow match at i: "->" or "→", else 0. */
  function ReactionArrowAt(s: string, i: nat): (n: nat)
    requires i < |s|
    ensures n <= 2 && i + n <= |s|
    ensures n == 0 <==> s[i] != RightArrow && !(s[i] == '-' && i + 1 < |s| && s[i + 1] == '>')
  {
    if s[i] == '-' && i + 1 < |s| && s[i + 1] == '>' then 2
    else if s[i] == RightArrow then 1
    else 0
  }

  /** The pieces of s from the piece starting at p, the matcher having reached q. */
  function SplitReactionFrom(s: string, p: nat, q: nat): (parts: seq<string>)
    requires p <= q <= |s|
    ensures |parts| >= 1
    decreases |s| - q
  {
    if q == |s| then [s[p..]]
    else
      var n := ReactionArrowAt(s, q);
      if n == 0 then SplitReactionFrom(s, p, q + 1) else [s[p..q]] + SplitReactionFrom(s, q + n, q + n)
  }

  function ReactionParts(reaction: string): (parts: seq<string>)
    ensures |parts| >= 1
  {
    SplitReactionFrom(reaction, 0, 0)
  }

  /** Text in which no arrow of this pattern can start or end. */
  predicate NoReactionArrow(t: string)
  {
    forall i :: 0 <= i < |t| ==> t[i] != '>' && t[i] != RightArrow
  }

  predicate IsReactionArrow(arrow: string)
  {
    arrow == "->" || arrow == [RightArrow]
  }

  lemma {:induction false} SplitReactionSkips(s: string, p: nat, q: nat, e: nat)
    requires p <= q <= e <= |s|
    requires forall i :: q <= i < e ==> ReactionArrowAt(s, i) == 0
    ensures SplitReactionFrom(s, p, q) == SplitReactionFrom(s, p, e)
    decreases e - q
  {
    if q < e {
      SplitReactionSkips(s, p, q + 1, e);
    }
  }

  /** The matcher sees the same arrows in a suffix y = s[k..] as in the whole text s. */
  lemma {:induction false} SplitReactionShift(s: string, y: string, k: nat, p: nat, q: nat)
    requires |s| == k + |y| && s[k..] == y && p <= q <= |y|
    ensures SplitReactionFrom(s, k + p, k + q) == SplitReactionFrom(y, p, q)
    decreases |y| - q
  {
    SliceShift(s, y, k, p, q);
    if q == |y| {
      SplitEndShift(s, y, k, p);
    } else {
      var n := ReactionArrowAt(y, q);
      ArrowAtShift(s, y, k, q);
      if n == 0 {
        SplitReactionShift(s, y, k, p, q + 1);
        SplitStepShift(s, y, k, p, q);
      } else {
        SplitReactionShift(s, y, k, q + n, q + n);
        SplitArrowShift(s, y, k, p, q, n);
      }
    }
  }

  lemma {:induction false} ArrowAtShift(s: string, y: string, k: nat, q: nat)
    requires |s| == k + |y| && s[k..] == y && q < |y|
    ensures ReactionArrowAt(s, k + q) == ReactionArrowAt(y, q)
  {
    assert s[k + q] == y[q];
    assert k + q + 1 < |s| ==> s[k + q + 1] == y[q + 1];
  }

  lemma {:induction false} SliceShift(s: string, y: string, k: nat, p: nat, q: nat)
    requires |s| == k + |y| && s[k..] == y && p <= q <= |y|
    ensures s[k + p..] == y[p..] && s[k + p..k + q] == y[p..q]
  {
    assert s[k + p..] == s[k..][p..];
    forall i | 0 <= i < q - p
      ensures s[k + p..k + q][i] == y[p..q][i]
    {
      assert s[k + p + i] == s[k..][p + i];
    }
  }

  /** The last piece, in the whole text and in the suffix. */
  lemma {:induction false} SplitEndShift(s: string, y: string, k: nat, p: nat)
    requires p <= |y| && |s| == k + |y| && s[k + p..] == y[p..]
    ensures SplitReactionFrom(s, k + p, k + |y|) == SplitReactionFrom(y, p, |y|)
  {
  }

  /** One step of the matcher past a non-arrow position, in the whole text and in the suffix. */
  lemma {:induction false} SplitStepShift(s: string, y: string, k: nat, p: nat, q: nat)
    requires p <= q < |y| && |s| == k + |y| && ReactionArrowAt(s, k + q) == ReactionArrowAt(y, q) == 0
    requires SplitReactionFrom(s, k + p, k + (q + 1)) == SplitReactionFrom(y, p, q + 1)
    ensures SplitReactionFrom(s, k + p, k + q) == SplitReactionFrom(y, p, q)
  {
  }

  /** A split at an arrow of length n, in the whole text and in the suffix. */
  lemma {:induction false} SplitArrowShift(s: string, y: string, k: nat, p: nat, q: nat, n: nat)
    requires p <= q < |y| && |s| == k + |y| && 0 < n && q + n <= |y|
    requires n == ReactionArrowAt(s, k + q) == ReactionArrowAt(y, q)
    requires s[k + p..k + q] == y[p..q]
    requires SplitReactionFrom(s, k + (q + n), k + (q + n)) == SplitReactionFrom(y, q + n, q + n)
    ensures SplitReactionFrom(s, k + p, k + q) == SplitReactionFrom(y, p, q)
  {
    SplitAtArrow(s, k + p, k + q, n, k + (q + n));
    SplitAtArrow(y, p, q, n, q + n);
  }

  /** At an arrow of length n the piece ends and the next one starts at e = q + n. */
  lemma {:induction false} SplitAtArrow(s: string, p: nat, q: nat, n: nat, e: nat)
    requires p <= q < |s| && n == ReactionArrowAt(s, q) && n > 0 && e == q + n
    ensures SplitReactionFrom(s, p, q) == [s[p..q]] + SplitReactionFrom(s, e, e)
  {
  }

  /** Text with no arrow is one piece. */
  lemma {:induction false} ReactionPartsNone(t: string)
    requires NoReactionArrow(t)
    ensures ReactionParts(t) == [t]
  {
    SplitReactionSkips(t, 0, 0, |t|);
  }

  /** An arrow splits off the arrow-free text before it; the rest is split on its own. */
  lemma {:induction false} ReactionPartsCons(a: string, arrow: string, rest: string)
    requires NoReactionArrow(a) && IsReactionArrow(arrow)
    ensures ReactionParts(a + arrow + rest) == [a] + ReactionParts(rest)
  {
    var s := a + arrow + rest;
    var e := |a| + |arrow|;
    ConcatPieces(s, a, arrow, rest);
    NoArrowBefore(s, a, arrow, rest);
    SplitReactionSkips(s, 0, 0, |a|);
    SplitAtArrow(s, 0, |a|, |arrow|, e);
    SplitReactionShift(s, rest, e, 0, 0);
  }

  /** The pieces of a + arrow + rest, and the arrow's match at the end of a. */
  lemma {:induction false} ConcatPieces(s: string, a: string, arrow: string, rest: string)
    requires s == a + arrow + rest && IsReactionArrow(arrow)
    ensures |s| == |a| + |arrow| + |rest| && s[0..|a|] == a && s[|a| + |arrow|..] == rest
    ensures |a| < |s| && ReactionArrowAt(s, |a|) == |arrow|
  {
    assert s[0..|a|] == a;
    assert s[|a| + |arrow|..] == rest;
    assert s[|a|] == arrow[0];
    assert |arrow| == 2 ==> s[|a| + 1] == arrow[1];
  }

  /** No arrow starts inside arrow-free text a, even one that the next arrow would end. */
  lemma {:induction false} NoArrowBefore(s: string, a: string, arrow: string, rest: string)
    requires s == a + arrow + rest && NoReactionArrow(a) && IsReactionArrow(arrow)
    ensures forall i :: 0 <= i < |a| ==> ReactionArrowAt(s, i) == 0
  {
    forall i | 0 <= i < |a|
      ensures ReactionArrowAt(s, i) == 0
    {
      assert s[i] == a[i];
      assert i + 1 < |s| ==> s[i + 1] == (if i + 1 < |a| then a[i + 1] else arrow[0]);
    }
  }

  // ---------------------------------------------------------------------------
  // The species pattern /^(\d+)?\s*([A-Za-z0-9()^+\-]+)$/

  predicate InClass(c: char)
  {
    IsLetter(c) || IsDigit(c) || c == '(' || c == ')' || c == '^' || c == '+' || c == '-'
  }

  predicate AllInClass(s: string)
  {
    forall i :: 0 <= i < |s| ==> InClass(s[i])
  }

  /** One way for the pattern to match: a digit group (possibly absent), white space, a class run. */
  predicate Decomposes(part: string, digits: string, spaces: string, f: string)
  {
    part == digits + spaces + f && AllDigits(digits) && AllSpace(spaces) && f != [] && AllInClass(f)
  }

  /**
   * What the backtracking matcher returns: the greedy digit group, then the greedy white space,
   * then the class run to the end; when that fails and the text is all digits, the digit group
   * gives up its last digit to the class run. The digit group is [] when it did not participate.
   */
  function MatchSpecies(part: string): Option<(string, string)>
  {
    var d := DigitRun(part, 0);
    var w := SpaceRun(part, d);
    var rest := part[d + w..];
    if rest != [] && AllInClass(rest) then Some((part[..d], rest))
    else if w == 0 && rest == [] && d >= 1 then Some((part[..d - 1], part[d - 1..]))
    else None
  }

  /** Every decomposition is bounded by the digit run, and pinned down by its digit group. */
  lemma {:induction false} DecompositionShape(part: string, digits: string, spaces: string, f: string)
    requires Decomposes(part, digits, spaces, f)
    ensures |digits| <= DigitRun(part, 0)
    ensures |digits| == DigitRun(part, 0) ==>
              spaces == part[|digits|..|digits| + SpaceRun(part, |digits|)] && f == part[|digits| + SpaceRun(part, |digits|)..]
    ensures |digits| < DigitRun(part, 0) ==> spaces == [] && f == part[|digits|..]
  {
    var d := DigitRun(part, 0);
    assert part[..|digits|] == digits;
    assert forall j :: 0 <= j < |digits| ==> IsDigit(part[j]);
    assert forall j :: |digits| <= j < |digits| + |spaces| ==> IsSpace(part[j]);
    assert part[0..d] == part[..d];
    if |digits| < d {
      assert IsDigit(part[|digits|]) by {
        assert part[|digits|] == part[0..d][|digits|];
      }
    } else if |digits| == d {
      var w := SpaceRun(part, d);
      assert !IsSpace(part[d + |spaces|]) by {
        assert part[d + |spaces|] == f[0];
      }
      assert part[d..d + w] == spaces;
    }
  }

  /** The rest after the greedy digit and white-space runs. */
  function RestAfterRuns(part: string): string
  {
    part[DigitRun(part, 0) + SpaceRun(part, DigitRun(part, 0))..]
  }

  /** What any decomposition says about the runs MatchSpecies looks at. */
  lemma {:induction false} DecompositionRuns(part: string, digits: string, spaces: string, f: string)
    requires Decomposes(part, digits, spaces, f)
    ensures |digits| <= DigitRun(part, 0)
    ensures |digits| == DigitRun(part, 0) ==> f == RestAfterRuns(part)
    ensures |digits| < DigitRun(part, 0) ==> SpaceRun(part, DigitRun(part, 0)) == 0 && AllInClass(RestAfterRuns(part))
  {
    var d := DigitRun(part, 0);
    DecompositionShape(part, digits, spaces, f);
    if |digits| < d {
      assert forall j :: d <= j < |part| ==> part[j] == f[j - |digits|];
    }
  }

  /**
   * MatchSpecies is the match the pattern finds: a decomposition of the text, the one with the
   * longest digit group (the greedy choice).
   */
  lemma {:induction false} MatchSpeciesIsLongestMatch(part: string)
    requires MatchSpecies(part).Some?
    ensures exists spaces :: Decomposes(part, MatchSpecies(part).value.0, spaces, MatchSpecies(part).value.1)
    ensures forall digits, spaces, f :: Decomposes(part, digits, spaces, f) ==> |digits| <= |MatchSpecies(part).value.0|
  {
    MatchSpeciesDecomposes(part);
    forall digits, spaces, f | Decomposes(part, digits, spaces, f)
      ensures |digits| <= |MatchSpecies(part).value.0|
    {
      DecompositionRuns(part, digits, spaces, f);
    }
  }

  /** The match MatchSpecies reports is a decomposition of the text. */
  lemma {:induction false} MatchSpeciesDecomposes(part: string)
    requires MatchSpecies(part).Some?
    ensures exists spaces :: Decomposes(part, MatchSpecies(part).value.0, spaces, MatchSpecies(part).value.1)
  {
    var d := DigitRun(part, 0);
    var w := SpaceRun(part, d);
    if part[d + w..] != [] && AllInClass(part[d + w..]) {
      GreedyDecomposes(part, d, w);
    } else {
      GiveBackDecomposes(part, d);
    }
  }

  /** The greedy runs followed by a class run to the end decompose the text. */
  lemma {:induction false} GreedyDecomposes(part: string, d: nat, w: nat)
    requires d == DigitRun(part, 0) && w == SpaceRun(part, d)
    requires part[d + w..] != [] && AllInClass(part[d + w..])
    ensures Decomposes(part, part[..d], part[d..d + w], part[d + w..])
  {
    ThreeSlices(part, d, d + w);
    assert part[0..d] == part[..d];
    var sp := part[d..d + w];
    assert forall j :: 0 <= j < w ==> sp[j] == part[d + j];
  }

  /** A digit run that ends the text gives its last digit to the class run. */
  lemma {:induction false} GiveBackDecomposes(part: string, d: nat)
    requires d == DigitRun(part, 0) && d >= 1 && d == |part|
    ensures Decomposes(part, part[..d - 1], [], part[d - 1..])
  {
    assert part[0..d] == part;
    var a, f := part[..d - 1], part[d - 1..];
    assert f == [part[d - 1]];
    assert forall j :: 0 <= j < |a| ==> a[j] == part[j];
    assert part == a + [] + f;
  }

  /** A string is its prefix, a middle slice and its suffix. */
  lemma {:induction false} ThreeSlices(s: string, a: nat, b: nat)
    requires a <= b <= |s|
    ensures s == s[..a] + s[a..b] + s[b..]
  {
    var t := s[..a] + s[a..b] + s[b..];
    assert |t| == |s|;
    forall i | 0 <= i < |s| ensures t[i] == s[i] {
      if i < a {
        assert t[i] == s[..a][i];
      } else if i < b {
        assert t[i] == s[a..b][i - a];
      } else {
        assert t[i] == s[b..][i - b];
      }
    }
  }

  /** And the pattern matches nowhere exactly when MatchSpecies reports no match. */
  lemma {:induction false} MatchSpeciesNone(part: string)
    ensures MatchSpecies(part).None? <==> forall digits, spaces, f :: !Decomposes(part, digits, spaces, f)
  {
    if MatchSpecies(part).Some? {
      MatchSpeciesIsLongestMatch(part);
    } else {
      forall digits, spaces, f | Decomposes(part, digits, spaces, f)
        ensures false
      {
        DecompositionRuns(part, digits, spaces, f);
      }
    }
  }

  /** What the tool makes of a chunk: `m[1] ? parseInt(m[1], 10) : 1` and m[2], or 1 and the chunk. */
  function ReadSpeciesInfo(part: string): (sp: SpeciesInfo)
  {
    match MatchSpecies(part)
    case None => SpeciesInfo(1, part)
    case Some((digits, f)) =>
      assert AllDigits(digits) by {
        assert part[0..DigitRun(part, 0)] == part[..DigitRun(part, 0)];
      }
      SpeciesInfo(if digits == [] then 1 else DigitsValue(digits), f)
  }

  /** parseSide: every chunk between plus signs, trimmed, empty ones included. */
  function ReactionSide(side: string): (sps: seq<SpeciesInfo>)
    ensures |sps| == |Split(side, '+')|
  {
    ReadEach(TrimEach(Split(side, '+')))
  }

  /** `.map((s) => s.trim())` */
  function TrimEach(parts: seq<string>): (ts: seq<string>)
    ensures |ts| == |parts| && forall i :: 0 <= i < |parts| ==> ts[i] == Trim(parts[i])
  {
    seq(|parts|, i requires 0 <= i < |parts| => Trim(parts[i]))
  }

  function ReadEach(parts: seq<string>): (sps: seq<SpeciesInfo>)
    ensures |sps| == |parts| && forall i :: 0 <= i < |parts| ==> sps[i] == ReadSpeciesInfo(parts[i])
  {
    seq(|parts|, i requires 0 <= i < |parts| => ReadSpeciesInfo(parts[i]))
  }

  /**
   * parseReaction: the first two pieces around the arrows, trimmed; two empty lists when either
   * is missing or empty. Pieces after a second arrow are ignored.
   */
  function ParseReaction(reaction: string): (r: (seq<SpeciesInfo>, seq<SpeciesInfo>))
    ensures (r.0 == [] && r.1 == []) <==>
              (|ReactionParts(reaction)| < 2 || Trim(ReactionParts(reaction)[0]) == [] || Trim(ReactionParts(reaction)[1]) == [])
    ensures |ReactionParts(reaction)| >= 2 && r.0 != [] ==>
              |r.0| == |Split(Trim(ReactionParts(reaction)[0]), '+')| && |r.1| == |Split(Trim(ReactionParts(reaction)[1]), '+')|
  {
    var parts := ReactionParts(reaction);
    var lhs := Trim(parts[0]);
    if |parts| < 2 then ([], [])
    else
      var rhs := Trim(parts[1]);
      if lhs == [] || rhs == [] then ([], []) else (ReactionSide(lhs), ReactionSide(rhs))
  }

  /** A third piece changes nothing: only the first two pieces are read. */
  lemma {:induction false} ExtraArrowsIgnored(a: string, b: string, arrow: string, c: string)
    requires NoReactionArrow(a) && NoReactionArrow(b) && IsReactionArrow(arrow)
    ensures ParseReaction(a + "->" + b + arrow + c) == ParseReaction(a + "->" + b)
  {
    assert a + "->" + b + arrow + c == a + "->" + (b + arrow + c);
    ReactionPartsCons(a, "->", b + arrow + c);
    ReactionPartsCons(b, arrow, c);
    ReactionPartsCons(a, "->", b);
    ReactionPartsNone(b);
  }

  // ---------------------------------------------------------------------------
  // Reading a written reaction back

  /** How a species is written in the tool's example "N2 + 3H2 -> 2NH3": the count glued on. */
  function WrittenSpecies(sp: SpeciesInfo): string
  {
    (if sp.coeff == 1 then [] else NatToString(sp.coeff)) + sp.formula
  }

  function WrittenTerms(sps: seq<SpeciesInfo>): (ts: seq<string>)
    ensures |ts| == |sps| && forall i :: 0 <= i < |sps| ==> ts[i] == WrittenSpecies(sps[i])
  {
    seq(|sps|, i requires 0 <= i < |sps| => WrittenSpecies(sps[i]))
  }

  function WrittenReaction(reactants: seq<SpeciesInfo>, products: seq<SpeciesInfo>): string
  {
    JoinWith(WrittenTerms(reactants), " + ") + " -> " + JoinWith(WrittenTerms(products), " + ")
  }

  /** Formulas the pattern reads back unchanged: class characters only, no plus, no leading digit. */
  predicate Writable(sps: seq<SpeciesInfo>)
  {
    |sps| >= 1 &&
    forall i :: 0 <= i < |sps| ==>
      sps[i].formula != [] && AllInClass(sps[i].formula) && '+' !in sps[i].formula && !IsDigit(sps[i].formula[0])
  }

  /** A formula with neither digit nor white space in front is matched whole, with no count. */
  lemma {:induction false} MatchFormula(f: string)
    requires f != [] && AllInClass(f) && !IsDigit(f[0])
    ensures MatchSpecies(f) == Some(([], f))
  {
    assert DigitRun(f, 0) == 0;
    assert SpaceRun(f, 0) == 0;
    assert f[0..] == f;
  }

  /** A decimal count glued to such a formula is matched as the digit group. */
  lemma {:induction false} MatchCountedFormula(n: string, f: string)
    requires n != [] && AllDigits(n) && f != [] && AllInClass(f) && !IsDigit(f[0])
    ensures MatchSpecies(n + f) == Some((n, f))
  {
    var t := n + f;
    Reagent.DigitRunOfNumber(n, f);
    assert SpaceRun(t, |n|) == 0 by {
      assert t[|n|] == f[0];
    }
    assert t[|n|..] == f && t[..|n|] == n;
  }

  /** The written form of a species is a bare, arrow-free chunk. */
  lemma {:induction false} WrittenIsBare(n: string, f: string)
    requires AllDigits(n) && f != [] && AllInClass(f) && '+' !in f
    ensures Bare(n + f) && NoReactionArrow(n + f)
  {
    var t := n + f;
    assert t[|t| - 1] == f[|f| - 1];
    forall i | 0 <= i < |t|
      ensures t[i] != '+' && t[i] != '>' && t[i] != RightArrow && !IsSpace(t[i])
    {
      if i >= |n| {
        assert t[i] == f[i - |n|];
      }
    }
  }

  lemma {:induction false} ReadWrittenSpecies(sp: SpeciesInfo)
    requires sp.formula != [] && AllInClass(sp.formula) && '+' !in sp.formula && !IsDigit(sp.formula[0])
    ensures ReadSpeciesInfo(WrittenSpecies(sp)) == sp
    ensures Bare(WrittenSpecies(sp)) && NoReactionArrow(WrittenSpecies(sp))
  {
    var f := sp.formula;
    if sp.coeff == 1 {
      assert WrittenSpecies(sp) == [] + f;
      MatchFormula(f);
      WrittenIsBare([], f);
    } else {
      var n := NatToString(sp.coeff);
      MatchCountedFormula(n, f);
      WrittenIsBare(n, f);
    }
  }

  /** Splitting padded species joined by " + " on '+' gives one piece per species. */
  lemma {:induction false} SplitCount(pre: string, species: seq<string>, post: string)
    requires AllSpace(pre) && AllSpace(post) && |species| >= 1
    requires forall k :: 0 <= k < |species| ==> Bare(species[k])
    ensures |Split(pre + JoinWith(species, " + ") + post, '+')| == |species|
    decreases |species|
  {
    if |species| == 1 {
      NoPlusPadded(pre, species[0], post);
    } else {
      var x, more := species[0], species[1..];
      assert species == [x] + more;
      JoinedPlus(pre, x, more, post);
      PaddedPiece(pre, x);
      SplitCons(pre + x + " ", '+', " " + JoinWith(more, " + ") + post);
      SplitCount(" ", more, post);
    }
  }

  /** When no chunk trims to empty, filtering the trimmed chunks keeps them all. */
  lemma {:induction false} KeepAll(parts: seq<string>)
    requires |TrimNonEmpty(parts)| >= |parts|
    ensures TrimNonEmpty(parts) == TrimEach(parts)
    decreases |parts|
  {
    if |parts| > 0 {
      var t, rest := Trim(parts[0]), parts[1..];
      TrimNonEmptyFirst(parts, t, rest);
      KeepAll(rest);
      TrimEachCons(parts, t, rest);
    }
  }

  lemma {:induction false} TrimNonEmptyFirst(parts: seq<string>, t: string, rest: seq<string>)
    requires |parts| > 0 && t == Trim(parts[0]) && rest == parts[1..]
    ensures TrimNonEmpty(parts) == (if t == [] then [] else [t]) + TrimNonEmpty(rest)
  {
  }

  lemma {:induction false} TrimEachCons(parts: seq<string>, t: string, rest: seq<string>)
    requires |parts| > 0 && t == Trim(parts[0]) && rest == parts[1..]
    ensures TrimEach(parts) == [t] + TrimEach(rest)
  {
    TrimEachShift(parts, rest);
    SeqCons(TrimEach(parts), t, TrimEach(rest));
  }

  lemma {:induction false} TrimEachShift(parts: seq<string>, rest: seq<string>)
    requires |parts| > 0 && rest == parts[1..]
    ensures forall i :: 0 < i < |parts| ==> TrimEach(parts)[i] == TrimEach(rest)[i - 1]
  {
    forall i | 0 < i < |parts|
      ensures TrimEach(parts)[i] == TrimEach(rest)[i - 1]
    {
      assert parts[i] == rest[i - 1];
    }
  }

  lemma {:induction false} SeqCons(a: seq<string>, x: string, b: seq<string>)
    requires |a| == |b| + 1 && a[0] == x && forall i :: 0 < i < |a| ==> a[i] == b[i - 1]
    ensures a == [x] + b
  {
  }

  lemma {:induction false} WrittenTermsRead(sps: seq<SpeciesInfo>)
    requires Writable(sps)
    ensures forall k :: 0 <= k < |sps| ==>
              Bare(WrittenTerms(sps)[k]) && NoReactionArrow(WrittenTerms(sps)[k]) && ReadSpeciesInfo(WrittenTerms(sps)[k]) == sps[k]
  {
    forall k | 0 <= k < |sps|
      ensures Bare(WrittenTerms(sps)[k]) && NoReactionArrow(WrittenTerms(sps)[k]) && ReadSpeciesInfo(WrittenTerms(sps)[k]) == sps[k]
    {
      ReadWrittenSpecies(sps[k]);
    }
  }

  /** Bare chunks joined by " + " are read chunk by chunk. */
  lemma {:induction false} SideOfTerms(ts: seq<string>, sps: seq<SpeciesInfo>)
    requires |ts| == |sps| >= 1
    requires forall k :: 0 <= k < |ts| ==> Bare(ts[k]) && ReadSpeciesInfo(ts[k]) == sps[k]
    ensures ReactionSide(JoinWith(ts, " + ")) == sps
  {
    PiecesTrim(ts);
  }

  /** Bare chunks joined by " + " split on '+' into pieces that trim back to the chunks. */
  lemma {:induction false} PiecesTrim(ts: seq<string>)
    requires |ts| >= 1 && forall k :: 0 <= k < |ts| ==> Bare(ts[k])
    ensures TrimEach(Split(JoinWith(ts, " + "), '+')) == ts
  {
    var side := JoinWith(ts, " + ");
    Unpadded(side);
    ChunksOfJoin([], ts, []);
    SplitCount([], ts, []);
    KeepAll(Split(side, '+'));
  }

  lemma {:induction false} Unpadded(x: string)
    ensures [] + x + [] == x
  {
  }

  lemma {:induction false} ReadWrittenSide(sps: seq<SpeciesInfo>)
    requires Writable(sps)
    ensures ReactionSide(JoinWith(WrittenTerms(sps), " + ")) == sps
    ensures forall k :: 0 <= k < |sps| ==> Bare(WrittenTerms(sps)[k])
    ensures NoReactionArrow(JoinWith(WrittenTerms(sps), " + "))
  {
    WrittenTermsRead(sps);
    SideOfTerms(WrittenTerms(sps), sps);
    JoinNoArrow(WrittenTerms(sps));
  }

  lemma {:induction false} JoinNoArrow(ts: seq<string>)
    requires forall k :: 0 <= k < |ts| ==> NoReactionArrow(ts[k])
    ensures NoReactionArrow(JoinWith(ts, " + "))
    decreases |ts|
  {
    if |ts| > 1 {
      JoinNoArrow(ts[1..]);
    }
  }

  /** The first and last characters of a joined side are those of its first and last species. */
  lemma {:induction false} JoinEnds(ts: seq<string>)
    requires |ts| >= 1 && forall k :: 0 <= k < |ts| ==> ts[k] != []
    ensures JoinWith(ts, " + ") != []
    ensures JoinWith(ts, " + ")[0] == ts[0][0]
    ensures JoinWith(ts, " + ")[|JoinWith(ts, " + ")| - 1] == ts[|ts| - 1][|ts[|ts| - 1]| - 1]
    decreases |ts|
  {
    if |ts| > 1 {
      assert ts[1..][|ts| - 2] == ts[|ts| - 1];
      JoinEnds(ts[1..]);
    }
  }

  /** A side with no outer white space trims to itself when padded. */
  lemma {:induction false} TrimSide(x: string, pre: string, post: string)
    requires x != [] && !IsSpace(x[0]) && !IsSpace(x[|x| - 1]) && AllSpace(pre) && AllSpace(post)
    ensures Trim(pre + x + post) == x
  {
    TrimStartPadded(pre, x + post);
    assert pre + x + post == pre + (x + post);
    TrimEndPadded(x, post);
  }

  /** A written side: read back to its species, arrow-free, with no outer white space. */
  lemma {:induction false} WrittenSide(sps: seq<SpeciesInfo>)
    requires Writable(sps)
    ensures var a := JoinWith(WrittenTerms(sps), " + ");
            ReactionSide(a) == sps && NoReactionArrow(a) && a != [] && !IsSpace(a[0]) && !IsSpace(a[|a| - 1])
  {
    ReadWrittenSide(sps);
    SideEnds(WrittenTerms(sps));
  }

  lemma {:induction false} SideEnds(ts: seq<string>)
    requires |ts| >= 1 && forall k :: 0 <= k < |ts| ==> Bare(ts[k])
    ensures var a := JoinWith(ts, " + "); a != [] && !IsSpace(a[0]) && !IsSpace(a[|a| - 1])
  {
    JoinEnds(ts);
    assert Bare(ts[0]) && Bare(ts[|ts| - 1]);
  }

  /** Two arrow-free sides around " -> " are parsed side by side. */
  lemma {:induction false} ParseTwoSides(a: string, b: string)
    requires NoReactionArrow(a) && NoReactionArrow(b)
    requires a != [] && !IsSpace(a[0]) && !IsSpace(a[|a| - 1])
    requires b != [] && !IsSpace(b[0]) && !IsSpace(b[|b| - 1])
    ensures ParseReaction(a + " -> " + b) == (ReactionSide(a), ReactionSide(b))
  {
    var a', b' := a + " ", " " + b;
    assert NoReactionArrow(a') && NoReactionArrow(b');
    SpacedArrow(a, b);
    ReactionPartsCons(a', "->", b');
    ReactionPartsNone(b');
    TwoPieces(a', b');
    TrimSide(a, [], " ");
    NoPadding(a, " ");
    TrimSide(b, " ", []);
    NoPadding(" ", b);
    ParseOfTwoParts(a + " -> " + b, a', b');
  }

  lemma {:induction false} SpacedArrow(a: string, b: string)
    ensures a + " -> " + b == (a + " ") + "->" + (" " + b)
  {
  }

  lemma {:induction false} TwoPieces(x: string, y: string)
    ensures [x] + [y] == [x, y]
  {
  }

  /** parseReaction of text whose arrow pieces are known. */
  lemma {:induction false} ParseOfTwoParts(s: string, x: string, y: string)
    requires ReactionParts(s) == [x, y] && Trim(x) != [] && Trim(y) != []
    ensures ParseReaction(s) == (ReactionSide(Trim(x)), ReactionSide(Trim(y)))
  {
  }

  /** Writing two species lists as "A + 3B -> 2C" and parsing gives them back. */
  lemma {:induction false} ParseWrittenReaction(reactants: seq<SpeciesInfo>, products: seq<SpeciesInfo>)
    requires Writable(reactants) && Writable(products)
    ensures ParseReaction(WrittenReaction(reactants, products)) == (reactants, products)
  {
    WrittenSide(reactants);
    WrittenSide(products);
    ParseTwoSides(JoinWith(WrittenTerms(reactants), " + "), JoinWith(WrittenTerms(products), " + "));
  }

  // ---------------------------------------------------------------------------
  // molarMass

  /** A malformed formula never makes the lenient scan throw an Error, only the TypeError. */
  lemma {:induction false} LenientOnlyTypeErrors(s: string, i: nat, stack: seq<Counts>)
    requires i <= |s| && Scan(Lenient, s, i, stack).Err?
    ensures Scan(Lenient, s, i, stack).error == UndefinedScope
    decreases |s| - i
  {
    if i < |s| && Step(Lenient, s, i, stack).Ok? {
      LenientOnlyTypeErrors(s, Step(Lenient, s, i, stack).value.0, Step(Lenient, s, i, stack).value.1);
    }
  }

  /**
   * With no `)` left, the result is the bottom scope as it stands: nothing after an unclosed `(`
   * reaches it, and without element symbols nothing changes it at all.
   */
  lemma {:induction false} LenientUnclosed(s: string, i: nat, stack: seq<Counts>)
    requires i <= |s| && |stack| >= 1
    requires forall j :: i <= j < |s| ==> s[j] != ')'
    requires |stack| >= 2 || forall j :: i <= j < |s| ==> s[j] != '(' && !IsUpper(s[j])
    ensures Scan(Lenient, s, i, stack) == Ok(stack[0])
    decreases |s| - i
  {
    if i < |s| {
      var r := Step(Lenient, s, i, stack);
      assert r.Ok? && r.value.1[0] == stack[0] && |r.value.1| >= |stack|;
      LenientUnclosed(s, r.value.0, r.value.1);
    }
  }

  /** Atoms inside a group that is never closed are lost: "(H2O" counts nothing. */
  lemma {:induction false} UnclosedGroupDropped(formula: string)
    requires |Input(Lenient, formula)| >= 1 && Input(Lenient, formula)[0] == '('
    requires ')' !in formula
    ensures Parse(Lenient, formula) == Ok([])
  {
    var s := Input(Lenient, formula);
    StripSpaceKeepsOut(formula, ')');
    assert forall j :: 1 <= j < |s| ==> s[j] != ')';
    var stack: seq<Counts> := [[], []];
    assert [[]] + [[]] == stack;
    LenientUnclosed(s, 1, stack);
    assert Step(Lenient, s, 0, [[]]).value.1 == stack;
    assert Scan(Lenient, s, 0, [[]]) == Scan(Lenient, s, 1, stack);
  }

  /** The tool's molarMass: the lenient count, then Σ weight × count, skipping symbols with no weight. */
  method ReactionMolarMass(formula: string, aw: Reagent.Weights) returns (r: Result<real, ParseError>)
    ensures r.Err? <==> Parse(Lenient, formula).Err?
    ensures r.Err? ==> r.error == UndefinedScope
    ensures r.Ok? ==> r.value == Reagent.Mass(Parse(Lenient, formula).value, aw)
  {
    var counts := ParseFormula(Lenient, formula);
    if counts.Err? {
      LenientOnlyTypeErrors(Input(Lenient, formula), 0, [[]]);
      return Err(counts.error);
    }
    var mass, _ := Reagent.WeighCounts(counts.value, aw);
    return Ok(mass);
  }

  // ---------------------------------------------------------------------------
  // The coefficient map and the calculation

  /** The names a plain object literal answers through Object.prototype without owning them. */
  predicate ProtoKey(k: string)
  {
    k == "constructor" || k == "__proto__" || k == "toString" || k == "toLocaleString" ||
    k == "valueOf" || k == "hasOwnProperty" || k == "isPrototypeOf" || k == "propertyIsEnumerable" ||
    k == "__defineGetter__" || k == "__defineSetter__" || k == "__lookupGetter__" || k == "__lookupSetter__"
  }

  /** `obj[k] = v` on a plain object: the `__proto__` setter ignores a number. */
  function Assign(m: map<string, nat>, k: string, v: nat): (m': map<string, nat>)
    ensures k != "__proto__" ==> m' == m[k := v]
    ensures k == "__proto__" ==> m' == m
  {
    if k == "__proto__" then m else m[k := v]
  }

  /** The own properties of coeffMap after the forEach over the listed species. */
  function Table(all: seq<SpeciesInfo>): map<string, nat>
  {
    if |all| == 0 then map[] else Assign(Table(all[..|all| - 1]), all[|all| - 1].formula, all[|all| - 1].coeff)
  }

  /** Species i is the last one listed with its formula. */
  predicate LastOf(all: seq<SpeciesInfo>, i: nat)
    requires i < |all|
  {
    forall j :: i < j < |all| ==> all[j].formula != all[i].formula
  }

  /** Some species is listed with formula f. */
  predicate Listed(all: seq<SpeciesInfo>, f: string)
  {
    exists i :: 0 <= i < |all| && all[i].formula == f
  }

  lemma {:induction false} ListedSnoc(all: seq<SpeciesInfo>, f: string)
    requires |all| > 0
    ensures Listed(all, f) <==> Listed(all[..|all| - 1], f) || all[|all| - 1].formula == f
  {
    var init := all[..|all| - 1];
    if Listed(all, f) && all[|all| - 1].formula != f {
      var i :| 0 <= i < |all| && all[i].formula == f;
      assert init[i].formula == f;
    }
    if Listed(init, f) {
      var i :| 0 <= i < |init| && init[i].formula == f;
      assert all[i].formula == f;
    }
  }

  /** The keys of the table are the listed formulas, except `__proto__`. */
  lemma {:induction false} TableKeys(all: seq<SpeciesInfo>)
    ensures forall f :: f in Table(all) <==> f != "__proto__" && Listed(all, f)
    decreases |all|
  {
    if |all| > 0 {
      TableKeys(all[..|all| - 1]);
      forall f
        ensures f in Table(all) <==> f != "__proto__" && Listed(all, f)
      {
        ListedSnoc(all, f);
      }
    }
  }

  /** Every listed formula but `__proto__` has the coefficient of its last listing. */
  lemma {:induction false} TableLastWins(all: seq<SpeciesInfo>)
    ensures forall i :: 0 <= i < |all| && LastOf(all, i) && all[i].formula != "__proto__" ==>
              all[i].formula in Table(all) && Table(all)[all[i].formula] == all[i].coeff
    decreases |all|
  {
    if |all| > 0 {
      var init := all[..|all| - 1];
      TableLastWins(init);
      forall i | 0 <= i < |all| && LastOf(all, i) && all[i].formula != "__proto__"
        ensures all[i].formula in Table(all) && Table(all)[all[i].formula] == all[i].coeff
      {
        if i < |all| - 1 {
          assert all[i] == init[i];
          assert LastOf(init, i);
        }
      }
    }
  }

  /** The forEach filling coeffMap. */
  method BuildCoefficients(all: seq<SpeciesInfo>) returns (m: map<string, nat>)
    ensures m == Table(all)
  {
    m := map[];
    var i := 0;
    while i < |all|
      invariant 0 <= i <= |all|
      invariant m == Table(all[..i])
    {
      assert all[..i + 1][..i] == all[..i];
      if all[i].formula != "__proto__" {
        m := m[all[i].formula := all[i].coeff];
      }
      i := i + 1;
    }
    assert all[..i] == all;
  }

  /** The value of `coeffMap[k]`: an own number, something inherited from Object.prototype, or undefined. */
  datatype Coefficient = Own(n: nat) | Inherited | Undefined

  function Lookup(m: map<string, nat>, k: string): (c: Coefficient)
    ensures c.Own? <==> k in m
    ensures c.Undefined? <==> k !in m && !ProtoKey(k)
  {
    if k in m then Own(m[k]) else if ProtoKey(k) then Inherited else Undefined
  }

  /** `!!coeffMap[k]`: a zero coefficient and undefined are falsy, inherited functions truthy. */
  predicate Truthy(c: Coefficient)
  {
    (c.Own? && c.n != 0) || c.Inherited?
  }

  /** The units the given amount may be in; any other makes the calculation null. */
  predicate KnownUnit(unit: string)
  {
    unit == "mol" || unit == "g" || unit == "particles" || unit == "L"
  }

  /** The non-numeric part of calc's result: the two coefficients and the two molar masses. */
  datatype Ratio = Ratio(gCoeff: Coefficient, tCoeff: Coefficient, mmGiven: real, mmTarget: real)

  /**
   * calc: null when the given or target species has a falsy coefficient, the amount is not a
   * finite number (None), either molar mass throws, or the given unit is unknown.
   */
  function CalcOutcome(reaction: string, given: string, target: string, amount: Option<real>,
                       unit: string, aw: Reagent.Weights): Option<Ratio>
  {
    var (rs, ps) := ParseReaction(reaction);
    var table := Table(rs + ps);
    var g := Lookup(table, given);
    var t := Lookup(table, target);
    if !Truthy(g) || !Truthy(t) || amount.None? then None
    else if Parse(Lenient, given).Err? || Parse(Lenient, target).Err? || !KnownUnit(unit) then None
    else Some(Ratio(g, t, Reagent.Mass(Parse(Lenient, given).value, aw), Reagent.Mass(Parse(Lenient, target).value, aw)))
  }

  method Calc(reaction: string, given: string, target: string, amount: Option<real>,
              unit: string, aw: Reagent.Weights) returns (r: Option<Ratio>)
    ensures r == CalcOutcome(reaction, given, target, amount, unit, aw)
  {
    var (rs, ps) := ParseReaction(reaction);
    var table := BuildCoefficients(rs + ps);
    var g := Lookup(table, given);
    var t := Lookup(table, target);
    if !Truthy(g) || !Truthy(t) || amount.None? {
      return None;
    }
    var mmGiven := ReactionMolarMass(given, aw);
    if mmGiven.Err? {
      return None;
    }
    var mmTarget := ReactionMolarMass(target, aw);
    if mmTarget.Err? || !KnownUnit(unit) {
      return None;
    }
    return Some(Ratio(g, t, mmGiven.value, mmTarget.value));
  }

  /**
   * For a species written in the reaction (and not named like an Object.prototype member), a
   * result carries the coefficient of its last listing, which is not zero.
   */
  lemma {:induction false} CalcUsesLastCoefficient(reaction: string, given: string, target: string, amount: Option<real>,
                                unit: string, aw: Reagent.Weights, i: nat)
    requires CalcOutcome(reaction, given, target, amount, unit, aw).Some?
    requires i < |ParseReaction(reaction).0 + ParseReaction(reaction).1|
    requires LastOf(ParseReaction(reaction).0 + ParseReaction(reaction).1, i)
    requires (ParseReaction(reaction).0 + ParseReaction(reaction).1)[i].formula == given
    requires given != "__proto__"
    ensures CalcOutcome(reaction, given, target, amount, unit, aw).value.gCoeff
            == Own((ParseReaction(reaction).0 + ParseReaction(reaction).1)[i].coeff)
    ensures (ParseReaction(reaction).0 + ParseReaction(reaction).1)[i].coeff != 0
  {
    TableLastWins(ParseReaction(reaction).0 + ParseReaction(reaction).1);
  }

  /**
   * A given species the reaction does not list, named like an Object.prototype member, still
   * gets a result: its "coefficient" is the inherited function, and the mole ratio computed
   * from it is NaN.
   */
  lemma {:induction false} InheritedCoefficientAnswered(reaction: string, target: string, amount: Option<real>,
                                     unit: string, aw: Reagent.Weights)
    requires forall sp :: sp in ParseReaction(reaction).0 + ParseReaction(reaction).1 ==> sp.formula != "constructor"
    requires Truthy(Lookup(Table(ParseReaction(reaction).0 + ParseReaction(reaction).1), target))
    requires amount.Some? && KnownUnit(unit) && Parse(Lenient, target).Ok?
    ensures CalcOutcome(reaction, "constructor", target, amount, unit, aw).Some?
    ensures CalcOutcome(reaction, "constructor", target, amount, unit, aw).value.gCoeff == Inherited
  {
    var all := ParseReaction(reaction).0 + ParseReaction(reaction).1;
    UnlistedNotKey(all, "constructor");
    ConstructorInherited(Table(all));
    ConstructorParses();
    assert CalcOutcome(reaction, "constructor", target, amount, unit, aw) ==
      Some(Ratio(Inherited, Lookup(Table(all), target), Reagent.Mass([], aw),
                 Reagent.Mass(Parse(Lenient, target).value, aw)));
  }

  /** A formula the reaction does not list is not an own property of the table. */
  lemma {:induction false} UnlistedNotKey(all: seq<SpeciesInfo>, f: string)
    requires forall sp :: sp in all ==> sp.formula != f
    ensures f !in Table(all)
    decreases |all|
  {
    if |all| > 0 {
      assert all[|all| - 1] in all;
      assert forall sp :: sp in all[..|all| - 1] ==> sp in all;
      UnlistedNotKey(all[..|all| - 1], f);
    }
  }

  lemma {:induction false} ConstructorInherited(m: map<string, nat>)
    requires "constructor" !in m
    ensures Lookup(m, "constructor") == Inherited
  {
  }

  /** "constructor" has no upper-case letter and no parenthesis, so it counts no atoms. */
  lemma {:induction false} ConstructorParses()
    ensures Parse(Lenient, "constructor") == Ok([])
  {
    var s := "constructor";
    assert NoSpace(s);
    LenientUnclosed(s, 0, [[]]);
  }

  /**
   * The calculation with own-property lookups (`Object.hasOwn`): a species has a coefficient
   * only if the reaction lists it.
   */
  function CalcOwnOutcome(reaction: string, given: string, target: string, amount: Option<real>,
                          unit: string, aw: Reagent.Weights): Option<Ratio>
  {
    var (rs, ps) := ParseReaction(reaction);
    var table := Table(rs + ps);
    if given !in table || target !in table then None
    else CalcOutcome(reaction, given, target, amount, unit, aw)
  }

  /**
   * With own-property lookups every result's coefficients are positive numbers from the
   * reaction's own species, and nothing else about the calculation changes.
   */
  lemma {:induction false} CalcOwnIsListed(reaction: string, given: string, target: string, amount: Option<real>,
                        unit: string, aw: Reagent.Weights)
    ensures CalcOwnOutcome(reaction, given, target, amount, unit, aw).Some? ==>
              var r := CalcOwnOutcome(reaction, given, target, amount, unit, aw).value;
              r.gCoeff.Own? && r.gCoeff.n > 0 && r.tCoeff.Own? && r.tCoeff.n > 0 &&
              Listed(ParseReaction(reaction).0 + ParseReaction(reaction).1, given) &&
              Listed(ParseReaction(reaction).0 + ParseReaction(reaction).1, target)
    ensures !ProtoKey(given) && !ProtoKey(target) ==>
              CalcOwnOutcome(reaction, given, target, amount, unit, aw) == CalcOutcome(reaction, given, target, amount, unit, aw)
  {
    var all := ParseReaction(reaction).0 + ParseReaction(reaction).1;
    CalcOwnAgrees(reaction, given, target, amount, unit, aw, all);
    var o := CalcOwnOutcome(reaction, given, target, amount, unit, aw);
    if o.Some? {
      CalcOutcomeCoefficients(reaction, given, target, amount, unit, aw, all);
      OwnListed(Table(all), all, given, target, o.value);
    }
  }

  /** The corrected calculation answers only for own keys, and then as the original does. */
  lemma {:induction false} CalcOwnAgrees(reaction: string, given: string, target: string, amount: Option<real>,
                      unit: string, aw: Reagent.Weights, all: seq<SpeciesInfo>)
    requires all == ParseReaction(reaction).0 + ParseReaction(reaction).1
    ensures CalcOwnOutcome(reaction, given, target, amount, unit, aw).Some? ==>
              given in Table(all) && target in Table(all)
    ensures given in Table(all) && target in Table(all) ==>
              CalcOwnOutcome(reaction, given, target, amount, unit, aw) == CalcOutcome(reaction, given, target, amount, unit, aw)
    ensures !ProtoKey(given) && !ProtoKey(target) ==>
              CalcOwnOutcome(reaction, given, target, amount, unit, aw) == CalcOutcome(reaction, given, target, amount, unit, aw)
  {
    if !ProtoKey(given) && !ProtoKey(target) && CalcOutcome(reaction, given, target, amount, unit, aw).Some? {
      CalcOutcomeCoefficients(reaction, given, target, amount, unit, aw, all);
    }
  }

  /** A calculation's coefficients are the truthy lookups of the two formulas in the table. */
  lemma {:induction false} CalcOutcomeCoefficients(reaction: string, given: string, target: string, amount: Option<real>,
                                unit: string, aw: Reagent.Weights, all: seq<SpeciesInfo>)
    requires all == ParseReaction(reaction).0 + ParseReaction(reaction).1
    ensures CalcOutcome(reaction, given, target, amount, unit, aw).Some? ==>
              var r := CalcOutcome(reaction, given, target, amount, unit, aw).value;
              r.gCoeff == Lookup(Table(all), given) && Truthy(r.gCoeff) &&
              r.tCoeff == Lookup(Table(all), target) && Truthy(r.tCoeff)
  {
  }

  /** Truthy own lookups are positive coefficients of listed formulas. */
  lemma {:induction false} OwnListed(table: map<string, nat>, all: seq<SpeciesInfo>, given: string, target: string, r: Ratio)
    requires table == Table(all) && given in table && target in table
    requires r.gCoeff == Lookup(table, given) && Truthy(r.gCoeff)
    requires r.tCoeff == Lookup(table, target) && Truthy(r.tCoeff)
    ensures r.gCoeff.Own? && r.gCoeff.n > 0 && r.tCoeff.Own? && r.tCoeff.n > 0
    ensures Listed(all, given) && Listed(all, target)
  {
    TableKeys(all);
  }

  /** The corrected calculation, as a method. */
  method CalcOwn(reaction: string, given: string, target: string, amount: Option<real>,
                 unit: string, aw: Reagent.Weights) returns (r: Option<Ratio>)
    ensures r == CalcOwnOutcome(reaction, given, target, amount, unit, aw)
  {
    var (rs, ps) := ParseReaction(reaction);
    var table := BuildCoefficients(rs + ps);
    if given !in table || target !in table {
      return None;
    }
    r := Calc(reaction, given, target, amount, unit, aw);
  }
}

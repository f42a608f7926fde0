/**
 * Reading a reaction equation into its two lists of species.
 *
 *  - The arrow split `eq.split(/\-\>|\=\>|→|=>|=|→/)` shared by the balancer
 *    (components/tools/EquationBalancer.tsx:229-237) and by the reagent tools
 *    (LimitingReagentTool.tsx:80-85, YieldCalculator.tsx:86-91).
 *  - The side split `split("+").map(s => s.trim()).filter(Boolean)` of the same functions.
 *  - The balancer's first rewrite `eq.replace(/\s+-\s+(?=[A-Za-z(])/g, " + ")`
 *    (EquationBalancer.tsx:364), which reads a dash between spaces as a plus sign.
 *
 * Regular expressions are replaced by the scans their matchers perform: at each position the
 * alternatives are tried in order, and a global split or replace resumes where a match ended.
 */
module Equation {
  import opened Wrappers
  import opened Text

  const RightArrow: char := 0x2192 as char

  // ---------------------------------------------------------------------------
  // The arrow split

  /** The length of the arrow match at position i, or 0 when no alternative matches there. */
  function ArrowAt(s: string, i: nat): (n: nat)
    requires i < |s|
    ensures n <= 2 && i + n <= |s|
    ensures n == 0 <==> s[i] != '=' && s[i] != RightArrow && !(s[i] == '-' && i + 1 < |s| && s[i + 1] == '>')
  {
    if s[i] == '-' && i + 1 < |s| && s[i + 1] == '>' then 2
    else if s[i] == '=' && i + 1 < |s| && s[i + 1] == '>' then 2
    else if s[i] == RightArrow then 1
    else if s[i] == '=' then 1
    else 0
  }

  /**
   * `split` with the arrow pattern: the current piece started at p and the matcher has
   * reached q; after a match the next piece starts where the match ended.
   */
  function SplitFrom(s: string, p: nat, q: nat): (parts: seq<string>)
    requires p <= q <= |s|
    ensures |parts| >= 1
    decreases |s| - q
  {
    if q == |s| then [s[p..]]
    else
      var n := ArrowAt(s, q);
      if n == 0 then SplitFrom(s, p, q + 1) else [s[p..q]] + SplitFrom(s, q + n, q + n)
  }

  function ArrowParts(eq: string): (parts: seq<string>)
    ensures |parts| >= 1
  {
    SplitFrom(eq, 0, 0)
  }

  /** No character that can start or end an arrow. */
  predicate ArrowFree(t: string)
  {
    forall i :: 0 <= i < |t| ==> t[i] != '=' && t[i] != RightArrow && t[i] != '>'
  }

  /** The four arrows the pattern accepts. */
  predicate IsArrow(arrow: string)
  {
    arrow == "->" || arrow == "=>" || arrow == [RightArrow] || arrow == "="
  }

  /** The split is one piece, the whole text, exactly when no arrow occurs anywhere. */
  lemma {:induction false} SplitFromOne(s: string, p: nat, q: nat)
    requires p <= q <= |s|
    ensures |SplitFrom(s, p, q)| == 1 <==> forall i :: q <= i < |s| ==> ArrowAt(s, i) == 0
    ensures |SplitFrom(s, p, q)| == 1 ==> SplitFrom(s, p, q) == [s[p..]]
    decreases |s| - q
  {
    if q < |s| && ArrowAt(s, q) == 0 {
      SplitFromOne(s, p, q + 1);
    }
  }

  lemma {:induction false} ArrowPartsOne(eq: string)
    ensures |ArrowParts(eq)| == 1 <==> forall i :: 0 <= i < |eq| ==> ArrowAt(eq, i) == 0
    ensures |ArrowParts(eq)| == 1 ==> ArrowParts(eq) == [eq]
  {
    SplitFromOne(eq, 0, 0);
  }

  /** The matcher steps over positions where no arrow starts. */
  lemma {:induction false} SplitFromSkips(s: string, p: nat, q: nat, e: nat)
    requires p <= q <= e <= |s|
    requires forall i :: q <= i < e ==> ArrowAt(s, i) == 0
    ensures SplitFrom(s, p, q) == SplitFrom(s, p, e)
    decreases e - q
  {
    if q < e {
      SplitFromSkips(s, p, q + 1, e);
    }
  }

  /** Two arrow-free texts around one arrow split back into the two texts. */
  lemma {:induction false} ArrowPartsOfTwo(a: string, arrow: string, b: string)
    requires ArrowFree(a) && ArrowFree(b) && IsArrow(arrow)
    ensures ArrowParts(a + arrow + b) == [a, b]
  {
    var s := a + arrow + b;
    var m := |a| + |arrow|;
    forall i | 0 <= i < |a|
      ensures ArrowAt(s, i) == 0
    {
      assert s[i] == a[i];
      assert i + 1 < |s| ==> s[i + 1] != '>';
    }
    SplitFromSkips(s, 0, 0, |a|);
    assert ArrowAt(s, |a|) == |arrow|;
    assert s[..|a|] == a;
    forall i | m <= i < |s|
      ensures ArrowAt(s, i) == 0
    {
      assert s[i] == b[i - m];
    }
    SplitFromSkips(s, m, m, |s|);
    assert s[m..] == b;
  }

  // ---------------------------------------------------------------------------
  // The side split

  /** `.map(s => s.trim()).filter(Boolean)` */
  function TrimNonEmpty(parts: seq<string>): (cs: seq<string>)
    ensures |cs| <= |parts|
  {
    if |parts| == 0 then []
    else
      var t := Trim(parts[0]);
      (if t == [] then [] else [t]) + TrimNonEmpty(parts[1..])
  }

  /** A species as it stands between plus signs after trimming: non-empty, no outer space, no `+`. */
  predicate Bare(x: string)
  {
    x != [] && !IsSpace(x[0]) && !IsSpace(x[|x| - 1]) && '+' !in x
  }

  /** The species of one side of an equation. */
  function Chunks(side: string): (cs: seq<string>)
  {
    TrimNonEmpty(Split(side, '+'))
  }

  lemma {:induction false} TrimNonEmptyBare(parts: seq<string>)
    requires forall k :: 0 <= k < |parts| ==> '+' !in parts[k]
    ensures forall k :: 0 <= k < |TrimNonEmpty(parts)| ==> Bare(TrimNonEmpty(parts)[k])
  {
    if |parts| > 0 {
      var t := Trim(parts[0]);
      var rest := TrimNonEmpty(parts[1..]);
      assert forall k :: 0 <= k < |parts| - 1 ==> parts[1..][k] == parts[k + 1];
      TrimNonEmptyBare(parts[1..]);
      if t == [] {
        assert TrimNonEmpty(parts) == rest;
      } else {
        TrimmedBare(parts[0]);
        var cs := [t] + rest;
        assert TrimNonEmpty(parts) == cs;
        forall k | 0 < k < |cs|
          ensures Bare(cs[k])
        {
          assert cs[k] == rest[k - 1];
        }
      }
    }
  }

  /** A piece without a plus sign that is not blank is bare once trimmed. */
  lemma {:induction false} TrimmedBare(p: string)
    requires '+' !in p && Trim(p) != []
    ensures Bare(Trim(p))
  {
    var t := Trim(p);
    var a, b := TrimIsInfix(p);
    assert forall j :: 0 <= j < |t| ==> t[j] == p[a + j];
  }

  /** Every species of a side is non-empty, has no white space at its ends and no plus sign. */
  lemma {:induction false} ChunksAreBare(side: string)
    ensures forall k :: 0 <= k < |Chunks(side)| ==> Bare(Chunks(side)[k])
  {
    TrimNonEmptyBare(Split(side, '+'));
  }

  function JoinWith(parts: seq<string>, sep: string): string
  {
    if |parts| == 0 then []
    else if |parts| == 1 then parts[0]
    else parts[0] + sep + JoinWith(parts[1..], sep)
  }

  lemma {:induction false} TrimStartPadded(pre: string, x: string)
    requires AllSpace(pre) && (x == [] || !IsSpace(x[0]))
    ensures TrimStart(pre + x) == x
    decreases |pre|
  {
    if |pre| > 0 {
      assert (pre + x)[1..] == pre[1..] + x;
      TrimStartPadded(pre[1..], x);
    } else {
      assert pre + x == x;
    }
  }

  lemma {:induction false} TrimEndPadded(x: string, post: string)
    requires AllSpace(post) && (x == [] || !IsSpace(x[|x| - 1]))
    ensures TrimEnd(x + post) == x
    decreases |post|
  {
    if |post| > 0 {
      assert (x + post)[..|x + post| - 1] == x + post[..|post| - 1];
      TrimEndPadded(x, post[..|post| - 1]);
    } else {
      assert x + post == x;
    }
  }

  lemma {:induction false} TrimPadded(pre: string, x: string, post: string)
    requires AllSpace(pre) && AllSpace(post) && Bare(x)
    ensures Trim(pre + x + post) == x
  {
    assert pre + x + post == pre + (x + post);
    TrimStartPadded(pre, x + post);
    TrimEndPadded(x, post);
  }

  lemma {:induction false} SplitCons(a: string, c: char, b: string)
    requires c !in a
    ensures Split(a + [c] + b, c) == [a] + Split(b, c)
  {
    var s := a + [c] + b;
    IndexOfFirst(a, c, b);
    assert s[..|a|] == a;
    assert s[|a| + 1..] == b;
  }

  lemma {:induction false} NoPlusPadded(pre: string, x: string, post: string)
    requires AllSpace(pre) && AllSpace(post) && Bare(x)
    ensures '+' !in pre + x + post
  {
    var s := pre + x + post;
    forall j | 0 <= j < |s|
      ensures s[j] != '+'
    {
      if |pre| <= j < |pre| + |x| {
        assert s[j] == x[j - |pre|];
      }
    }
  }

  /** Species joined by " + " and padded with white space split back into the same species. */
  lemma {:induction false} ChunksOfJoin(pre: string, species: seq<string>, post: string)
    requires AllSpace(pre) && AllSpace(post) && |species| >= 1
    requires forall k :: 0 <= k < |species| ==> Bare(species[k])
    ensures Chunks(pre + JoinWith(species, " + ") + post) == species
    decreases |species|
  {
    if |species| == 1 {
      NoPlusPadded(pre, species[0], post);
      TrimPadded(pre, species[0], post);
    } else {
      ChunksOfJoin(" ", species[1..], post);
      ChunksOfJoinStep(pre, species[0], species[1..], post);
      assert species == [species[0]] + species[1..];
    }
  }

  lemma {:induction false} ChunksOfJoinStep(pre: string, x: string, more: seq<string>, post: string)
    requires AllSpace(pre) && AllSpace(post) && Bare(x) && |more| >= 1
    requires Chunks(" " + JoinWith(more, " + ") + post) == more
    ensures Chunks(pre + JoinWith([x] + more, " + ") + post) == [x] + more
  {
    JoinedPlus(pre, x, more, post);
    PaddedPiece(pre, x);
    ChunksCons(pre + JoinWith([x] + more, " + ") + post, pre + x + " ", " " + JoinWith(more, " + ") + post, x, more);
  }

  lemma {:induction false} JoinedPlus(pre: string, x: string, more: seq<string>, post: string)
    requires |more| >= 1
    ensures pre + JoinWith([x] + more, " + ") + post == (pre + x + " ") + ['+'] + (" " + JoinWith(more, " + ") + post)
  {
    assert ([x] + more)[1..] == more;
    JoinPlus(pre, x, JoinWith(more, " + "), post);
  }

  lemma {:induction false} PaddedPiece(pre: string, x: string)
    requires AllSpace(pre) && Bare(x)
    ensures '+' !in pre + x + " " && Trim(pre + x + " ") == x
  {
    NoPlusPadded(pre, x, " ");
    TrimPadded(pre, x, " ");
  }

  /** A plus sign after an unsigned first piece splits off that piece's species. */
  lemma {:induction false} ChunksCons(whole: string, a: string, b: string, x: string, more: seq<string>)
    requires whole == a + ['+'] + b && '+' !in a && Trim(a) == x && x != [] && Chunks(b) == more
    ensures Chunks(whole) == [x] + more
  {
    SplitCons(a, '+', b);
    TrimNonEmptyCons(a, Split(b, '+'));
  }

  lemma {:induction false} TrimNonEmptyCons(p: string, ps: seq<string>)
    requires Trim(p) != []
    ensures TrimNonEmpty([p] + ps) == [Trim(p)] + TrimNonEmpty(ps)
  {
    assert ([p] + ps)[1..] == ps;
  }

  lemma {:induction false} JoinPlus(pre: string, x: string, rest: string, post: string)
    ensures pre + (x + " + " + rest) + post == (pre + x + " ") + ['+'] + (" " + rest + post)
  {
  }

  lemma {:induction false} JoinArrowFree(species: seq<string>)
    requires forall k :: 0 <= k < |species| ==> ArrowFree(species[k])
    ensures ArrowFree(JoinWith(species, " + "))
    decreases |species|
  {
    if |species| > 1 {
      JoinArrowFree(species[1..]);
    }
  }

  // ---------------------------------------------------------------------------
  // splitArrow of the balancer

  datatype EquationError =
    | NotOneArrow    // "Could not find a single reaction arrow."
    | EmptySide      // "Both sides of the equation must have species."

  function SplitArrow(eq: string): (r: Result<(seq<string>, seq<string>), EquationError>)
    ensures r.Err? ==> (r.error == NotOneArrow <==> |ArrowParts(eq)| != 2)
    ensures r.Ok? ==> |r.value.0| >= 1 && |r.value.1| >= 1
  {
    var parts := ArrowParts(eq);
    if |parts| != 2 then Err(NotOneArrow)
    else
      var left := Chunks(parts[0]);
      var right := Chunks(parts[1]);
      if |left| == 0 || |right| == 0 then Err(EmptySide) else Ok((left, right))
  }

  /** What the split returns are non-empty lists of trimmed, non-empty species without plus signs. */
  lemma {:induction false} SplitArrowSpecies(eq: string)
    requires SplitArrow(eq).Ok?
    ensures forall k :: 0 <= k < |SplitArrow(eq).value.0| ==> Bare(SplitArrow(eq).value.0[k])
    ensures forall k :: 0 <= k < |SplitArrow(eq).value.1| ==> Bare(SplitArrow(eq).value.1[k])
  {
    ChunksAreBare(ArrowParts(eq)[0]);
    ChunksAreBare(ArrowParts(eq)[1]);
  }

  /** An equation is a valid species list on each side: no empty, padded or signed species. */
  predicate Species(xs: seq<string>)
  {
    |xs| >= 1 && forall k :: 0 <= k < |xs| ==> Bare(xs[k]) && ArrowFree(xs[k])
  }

  /** Writing two species lists as "A + B -> C" (any accepted arrow) and splitting gives them back. */
  lemma {:induction false} SplitArrowOfJoin(left: seq<string>, arrow: string, right: seq<string>)
    requires Species(left) && Species(right) && IsArrow(arrow)
    ensures SplitArrow(JoinWith(left, " + ") + " " + arrow + " " + JoinWith(right, " + ")) == Ok((left, right))
  {
    var l, r := JoinWith(left, " + "), JoinWith(right, " + ");
    var a, b := l + " ", " " + r;
    JoinArrowFree(left);
    JoinArrowFree(right);
    assert ArrowFree(a) && ArrowFree(b);
    Regroup(l, " ", arrow, r);
    ArrowPartsOfTwo(a, arrow, b);
    ChunksOfJoin([], left, " ");
    NoPadding(l, " ");
    ChunksOfJoin(" ", right, []);
    NoPadding(" ", r);
    SplitArrowOfParts(l + " " + arrow + " " + r, a, b, left, right);
  }

  lemma {:induction false} NoPadding(x: string, y: string)
    ensures [] + x + y == x + y && x + y + [] == x + y
  {
  }

  lemma {:induction false} Regroup(l: string, sp: string, arrow: string, r: string)
    ensures l + sp + arrow + sp + r == (l + sp) + arrow + (sp + r)
  {
  }

  /** SplitArrow from the two arrow parts and their chunks. */
  lemma {:induction false} SplitArrowOfParts(eq: string, a: string, b: string, left: seq<string>, right: seq<string>)
    requires ArrowParts(eq) == [a, b] && Chunks(a) == left && Chunks(b) == right
    requires |left| >= 1 && |right| >= 1
    ensures SplitArrow(eq) == Ok((left, right))
  {
  }

  // ---------------------------------------------------------------------------
  // The balancer's dash rewrite

  /** The end of the match of `/\s+-\s+(?=[A-Za-z(])/` at position i, if it matches there. */
  function DashAt(s: string, i: nat): (r: Option<nat>)
    requires i <= |s|
    ensures r.Some? ==> i + 3 <= r.value < |s|
  {
    var a := SpaceRun(s, i);
    if a == 0 || i + a == |s| || s[i + a] != '-' then None
    else
      var b := SpaceRun(s, i + a + 1);
      var e := i + a + 1 + b;
      if b == 0 || e == |s| || !(IsLetter(s[e]) || s[e] == '(') then None
      else Some(e)
  }

  /** The global replace from position i on: each match becomes " + ", other characters stay. */
  function SanitizeFrom(s: string, i: nat): string
    requires i <= |s|
    decreases |s| - i
  {
    if i == |s| then []
    else
      match DashAt(s, i)
      case Some(e) => " + " + SanitizeFrom(s, e)
      case None => [s[i]] + SanitizeFrom(s, i + 1)
  }

  function Sanitize(eq: string): string
  {
    SanitizeFrom(eq, 0)
  }

  /** A separator: white space, a dash or a plus sign. */
  predicate Separator(c: char)
  {
    IsSpace(c) || c == '-' || c == '+'
  }

  /** The text with its separators deleted. */
  function Kept(s: string): (r: string)
    ensures |r| <= |s|
  {
    if |s| == 0 then [] else (if Separator(s[0]) then [] else [s[0]]) + Kept(s[1..])
  }

  lemma {:induction false} KeptConcat(a: string, b: string)
    ensures Kept(a + b) == Kept(a) + Kept(b)
    decreases |a|
  {
    if |a| > 0 {
      assert (a + b)[1..] == a[1..] + b;
      KeptConcat(a[1..], b);
    } else {
      assert a + b == b;
    }
  }

  lemma {:induction false} KeptSeparators(s: string)
    requires forall j :: 0 <= j < |s| ==> Separator(s[j])
    ensures Kept(s) == []
    decreases |s|
  {
    if |s| > 0 {
      KeptSeparators(s[1..]);
    }
  }

  /** A match of the dash pattern consists of separators. */
  lemma {:induction false} DashMatchSeparators(s: string, i: nat, e: nat)
    requires i <= |s| && DashAt(s, i) == Some(e)
    ensures Kept(s[i..e]) == []
  {
    forall j | 0 <= j < e - i
      ensures Separator(s[i..e][j])
    {
      assert s[i..e][j] == s[i + j];
    }
    KeptSeparators(s[i..e]);
  }

  lemma {:induction false} SanitizeFromKeeps(s: string, i: nat)
    requires i <= |s|
    ensures Kept(SanitizeFrom(s, i)) == Kept(s[i..])
    decreases |s| - i
  {
    if i < |s| {
      match DashAt(s, i)
      case Some(e) =>
        SanitizeFromKeeps(s, e);
        KeepsMatched(s, i, e);
      case None =>
        SanitizeFromKeeps(s, i + 1);
        KeepsUnmatched(s, i);
    }
  }

  lemma {:induction false} KeepsMatched(s: string, i: nat, e: nat)
    requires i < |s| && DashAt(s, i) == Some(e)
    requires Kept(SanitizeFrom(s, e)) == Kept(s[e..])
    ensures Kept(SanitizeFrom(s, i)) == Kept(s[i..])
  {
    assert SanitizeFrom(s, i) == " + " + SanitizeFrom(s, e);
    SuffixSplit(s, i, e);
    DashMatchSeparators(s, i, e);
    KeptPlus();
    KeptReplaced(" + ", SanitizeFrom(s, e), s[i..e], s[e..]);
  }

  lemma {:induction false} KeepsUnmatched(s: string, i: nat)
    requires i < |s| && DashAt(s, i).None?
    requires Kept(SanitizeFrom(s, i + 1)) == Kept(s[i + 1..])
    ensures Kept(SanitizeFrom(s, i)) == Kept(s[i..])
  {
    assert SanitizeFrom(s, i) == [s[i]] + SanitizeFrom(s, i + 1);
    SuffixSplit(s, i, i + 1);
    assert s[i..i + 1] == [s[i]];
    KeptCons(s[i], SanitizeFrom(s, i + 1), s[i + 1..]);
  }

  lemma {:induction false} KeptReplaced(sep: string, u: string, m: string, r: string)
    requires Kept(sep) == [] && Kept(m) == [] && Kept(u) == Kept(r)
    ensures Kept(sep + u) == Kept(m + r)
  {
    KeptConcat(sep, u);
    KeptConcat(m, r);
  }

  lemma {:induction false} KeptPlus()
    ensures Kept(" + ") == []
  {
    KeptSeparators(" + ");
  }

  lemma {:induction false} KeptCons(c: char, u: string, r: string)
    requires Kept(u) == Kept(r)
    ensures Kept([c] + u) == Kept([c] + r)
  {
    KeptConcat([c], u);
    KeptConcat([c], r);
  }

  /** The rewrite changes separators only: every other character survives, in order. */
  lemma {:induction false} SanitizeKeeps(eq: string)
    ensures Kept(Sanitize(eq)) == Kept(eq)
  {
    SanitizeFromKeeps(eq, 0);
    assert eq[0..] == eq;
  }

  /** A dash followed by white space is what the rewrite needs to find. */
  predicate DashBeforeSpace(s: string)
  {
    exists j :: 0 <= j < |s| - 1 && s[j] == '-' && IsSpace(s[j + 1])
  }

  lemma {:induction false} SanitizeFromIdentity(s: string, i: nat)
    requires i <= |s| && !DashBeforeSpace(s)
    ensures SanitizeFrom(s, i) == s[i..]
    decreases |s| - i
  {
    if i < |s| {
      var a := SpaceRun(s, i);
      if a > 0 && i + a < |s| && s[i + a] == '-' {
        assert !(i + a + 1 < |s| && IsSpace(s[i + a + 1]));
      }
      assert DashAt(s, i).None?;
      SanitizeFromIdentity(s, i + 1);
      assert s[i..] == [s[i]] + s[i + 1..];
    }
  }

  /** Text in which no dash is followed by white space is left as it is; "->" in particular. */
  lemma {:induction false} SanitizeIdentity(eq: string)
    requires !DashBeforeSpace(eq)
    ensures Sanitize(eq) == eq
  {
    SanitizeFromIdentity(eq, 0);
    assert eq[0..] == eq;
  }
}

/**
 * The category normaliser of utils/categoryMeta.ts:60-83, `normalizeCat`: the element
 * category strings of the data set are lower-cased, trimmed, their Unicode dashes unified,
 * the white space around hyphens removed and white-space runs collapsed; a few historical
 * names are then replaced by the canonical category name through an alias table.
 *
 * The normal form is described by `Normal`. Every output of the text pipeline is normal, and
 * a normal string is left as it is, so the pipeline is idempotent; since no alias target is
 * an alias key, so is the whole normaliser.
 */
module Category {
  import opened Text

  // ---------------------------------------------------------------------------
  // The normal form

  /** U+2010 to U+2015 and U+2212, the characters `[‐-―−]` matches. */
  predicate IsDashVariant(c: char)
  {
    ('‐' <= c <= '―') || c == '−'
  }

  /** A character the pipeline can leave in its output. */
  predicate OkChar(c: char)
  {
    !IsUpper(c) && !IsDashVariant(c)
  }

  predicate CharsOk(s: string)
  {
    forall i :: 0 <= i < |s| ==> OkChar(s[i])
  }

  /** No white space stands next to a hyphen. */
  predicate Tight(s: string)
  {
    forall i, j :: 0 <= i < |s| && 0 <= j < |s| && j == i + 1 ==>
      !(IsSpace(s[i]) && s[j] == '-') && !(s[i] == '-' && IsSpace(s[j]))
  }

  predicate NoSpaceEnds(s: string)
  {
    s == [] || (!IsSpace(s[0]) && !IsSpace(s[|s| - 1]))
  }

  /**
   * The strings the pipeline produces: no ASCII capital and no Unicode dash, single plain
   * spaces only, none at either end and none next to a hyphen.
   */
  predicate Normal(s: string)
  {
    CharsOk(s) && SingleSpaced(s) && Tight(s) && NoSpaceEnds(s)
  }

  // ---------------------------------------------------------------------------
  // The steps of the pipeline

  /** One character of `.replace(/[‐-―−]/g, "-")`: a Unicode dash becomes a hyphen. */
  function DashChar(c: char): (r: char)
    ensures IsDashVariant(c) ==> r == '-'
    ensures !IsDashVariant(c) ==> r == c
    ensures OkChar(r) <==> !IsUpper(c)
    ensures IsSpace(r) <==> IsSpace(c)
  {
    if IsDashVariant(c) then '-' else c
  }

  /** `.replace(/[‐-―−]/g, "-")` */
  function Dashes(s: string): (r: string)
    ensures |r| == |s|
    ensures forall i :: 0 <= i < |r| ==> r[i] == DashChar(s[i])
  {
    if |s| == 0 then [] else [DashChar(s[0])] + Dashes(s[1..])
  }

  /** The expression matches at i: a run of white space from i, possibly empty, reaches a hyphen. */
  predicate HyphenAt(s: string, i: nat)
    requires i <= |s|
  {
    i + SpaceRun(s, i) < |s| && s[i + SpaceRun(s, i)] == '-'
  }

  /** Where the search resumes after a match at i: past the hyphen and the white space after it. */
  function AfterHyphen(s: string, i: nat): (n: nat)
    requires i <= |s| && HyphenAt(s, i)
    ensures i + SpaceRun(s, i) < n <= |s|
    ensures forall k :: i + SpaceRun(s, i) < k < n ==> IsSpace(s[k])
    ensures n == |s| || !IsSpace(s[n])
  {
    var j := i + SpaceRun(s, i) + 1;
    j + SpaceRun(s, j)
  }

  /**
   * `.replace(/\s*-\s*` + `/g, "-")` from position i. Where the expression matches, the white
   * space before the hyphen, the hyphen and the white space after it become one hyphen; anywhere
   * else the character is copied and the search moves on by one.
   */
  function HyphenTight(s: string, i: nat): (r: string)
    requires i <= |s|
    ensures |r| > 0 <==> i < |s|
    decreases |s| - i
  {
    if i == |s| then []
    else if HyphenAt(s, i) then ['-'] + HyphenTight(s, AfterHyphen(s, i))
    else [s[i]] + HyphenTight(s, i + 1)
  }

  /** The first character HyphenTight gives from i: a hyphen for a match, else the character at i. */
  lemma {:induction false} HyphenTightHead(s: string, i: nat)
    requires i < |s|
    ensures HyphenTight(s, i)[0] == if HyphenAt(s, i) then '-' else s[i]
  {
  }

  /** The text pipeline of lines 62-67. */
  function Pipeline(raw: string): string
  {
    CollapseSpace(HyphenTight(Dashes(Trim(ToLower(raw))), 0))
  }

  // ---------------------------------------------------------------------------
  // Every output of the pipeline is normal

  lemma {:induction false} TrimmedLower(a: string)
    requires forall i :: 0 <= i < |a| ==> !IsUpper(a[i])
    ensures forall i :: 0 <= i < |Trim(a)| ==> !IsUpper(Trim(a)[i])
  {
    var x, y := TrimIsInfix(a);
    forall i | 0 <= i < |Trim(a)|
      ensures !IsUpper(Trim(a)[i])
    {
      assert Trim(a)[i] == a[x + i];
    }
  }

  lemma {:induction false} DashesOk(b: string)
    requires NoSpaceEnds(b) && forall i :: 0 <= i < |b| ==> !IsUpper(b[i])
    ensures CharsOk(Dashes(b)) && NoSpaceEnds(Dashes(b))
  {
  }

  lemma {:induction false} ConsOk(c: char, t: string)
    requires OkChar(c) && CharsOk(t)
    ensures CharsOk([c] + t)
  {
    var r := [c] + t;
    forall x | 0 < x < |r|
      ensures OkChar(r[x])
    {
      assert r[x] == t[x - 1];
    }
  }

  lemma {:induction false} HyphenTightOk(s: string, i: nat)
    requires i <= |s| && CharsOk(s)
    ensures CharsOk(HyphenTight(s, i))
    decreases |s| - i
  {
    if i < |s| {
      if HyphenAt(s, i) {
        HyphenTightOk(s, AfterHyphen(s, i));
        ConsOk('-', HyphenTight(s, AfterHyphen(s, i)));
      } else {
        HyphenTightOk(s, i + 1);
        ConsOk(s[i], HyphenTight(s, i + 1));
      }
    }
  }

  /** The last character copied is the last character of s. */
  lemma {:induction false} HyphenTightLast(s: string, i: nat)
    requires i < |s| && !IsSpace(s[|s| - 1])
    ensures !IsSpace(HyphenTight(s, i)[|HyphenTight(s, i)| - 1])
    decreases |s| - i
  {
    var n := if HyphenAt(s, i) then AfterHyphen(s, i) else i + 1;
    var t := HyphenTight(s, n);
    LastOfCons(if HyphenAt(s, i) then '-' else s[i], t);
    if n < |s| {
      HyphenTightLast(s, n);
    }
  }

  /** The last character of a character put in front of a string. */
  lemma {:induction false} LastOfCons(c: char, t: string)
    ensures ([c] + t)[|t|] == if t == [] then c else t[|t| - 1]
  {
  }

  /** Where the white space at i does not reach a hyphen, the white space after it does not either. */
  lemma {:induction false} CopiedSpaceNext(s: string, i: nat)
    requires i + 1 < |s| && IsSpace(s[i]) && !HyphenAt(s, i)
    ensures !HyphenAt(s, i + 1)
  {
    assert SpaceRun(s, i) == 1 + SpaceRun(s, i + 1);
  }

  /** No white space is left next to a hyphen. */
  lemma {:induction false} HyphenTightTight(s: string, i: nat)
    requires i <= |s|
    ensures Tight(HyphenTight(s, i))
    decreases |s| - i
  {
    if i < |s| {
      if HyphenAt(s, i) {
        HyphenTightTight(s, AfterHyphen(s, i));
        MatchTight(s, i);
      } else {
        HyphenTightTight(s, i + 1);
        if i + 1 < |s| {
          HyphenTightHead(s, i + 1);
          if IsSpace(s[i]) {
            CopiedSpaceNext(s, i);
          }
        }
        assert s[i] != '-';
        ConsTight(s[i], HyphenTight(s, i + 1));
      }
    }
  }

  /** At a match, the hyphen goes in front of what follows the white space after it. */
  lemma {:induction false} MatchTight(s: string, i: nat)
    requires i < |s| && HyphenAt(s, i)
    requires Tight(HyphenTight(s, AfterHyphen(s, i)))
    ensures Tight(HyphenTight(s, i))
  {
    var n := AfterHyphen(s, i);
    if n < |s| {
      HyphenTightHead(s, n);
    }
    ConsTight('-', HyphenTight(s, n));
  }

  /** A character put in front of a tight string keeps it tight when the new pair is. */
  lemma {:induction false} ConsTight(c: char, t: string)
    requires Tight(t)
    requires t != [] ==> !(IsSpace(c) && t[0] == '-') && !(c == '-' && IsSpace(t[0]))
    ensures Tight([c] + t)
  {
    var r := [c] + t;
    forall i, j | 0 <= i < |r| && 0 <= j < |r| && j == i + 1
      ensures !(IsSpace(r[i]) && r[j] == '-') && !(r[i] == '-' && IsSpace(r[j]))
    {
      if i > 0 {
        assert r[i] == t[i - 1] && r[j] == t[j - 1];
      }
    }
  }

  lemma {:induction false} CharsOkSuffix(s: string, m: nat)
    requires m <= |s| && CharsOk(s)
    ensures CharsOk(s[m..])
  {
    forall x | 0 <= x < |s| - m
      ensures OkChar(s[m..][x])
    {
      assert s[m..][x] == s[m + x];
    }
  }

  lemma {:induction false} CollapseOk(s: string)
    requires CharsOk(s)
    ensures CharsOk(CollapseSpace(s))
    decreases |s|
  {
    if |s| > 0 {
      var t := if IsSpace(s[0]) then TrimStart(s[1..]) else s[1..];
      assert t == s[|s| - |t|..];
      CharsOkSuffix(s, |s| - |t|);
      CollapseOk(t);
      ConsOk(if IsSpace(s[0]) then ' ' else s[0], CollapseSpace(t));
    }
  }

  lemma {:induction false} CollapseLast(s: string)
    requires |s| > 0 && !IsSpace(s[|s| - 1])
    ensures !IsSpace(CollapseSpace(s)[|CollapseSpace(s)| - 1])
    decreases |s|
  {
    if |s| > 1 {
      var t := if IsSpace(s[0]) then TrimStart(s[1..]) else s[1..];
      assert t != [] && t[|t| - 1] == s[|s| - 1];
      CollapseLast(t);
    }
  }

  /** A suffix of a tight string is tight. */
  lemma {:induction false} TightSuffix(s: string, m: nat)
    requires m <= |s| && Tight(s)
    ensures Tight(s[m..])
  {
    var t := s[m..];
    forall i, j | 0 <= i < |t| && 0 <= j < |t| && j == i + 1
      ensures !(IsSpace(t[i]) && t[j] == '-') && !(t[i] == '-' && IsSpace(t[j]))
    {
      assert t[i] == s[m + i] && t[j] == s[m + j];
    }
  }

  /** White space dropped from the front of a tight string does not end next to a hyphen. */
  lemma {:induction false} TrimStartTight(s: string)
    requires |s| > 0 && IsSpace(s[0]) && Tight(s)
    ensures Tight(TrimStart(s[1..]))
    ensures TrimStart(s[1..]) != [] ==> TrimStart(s[1..])[0] != '-'
  {
    var u := s[1..];
    var t := TrimStart(u);
    var m := |s| - |t|;
    assert t == s[m..];
    TightSuffix(s, m);
    if t != [] {
      assert IsSpace(s[m - 1]) by {
        if m > 1 {
          assert s[m - 1] == u[m - 2];
        }
      }
      assert t[0] == s[m];
      assert !(IsSpace(s[m - 1]) && s[m] == '-');
    }
  }

  lemma {:induction false} CollapseTight(s: string)
    requires Tight(s)
    ensures Tight(CollapseSpace(s))
    decreases |s|
  {
    if |s| > 0 {
      if IsSpace(s[0]) {
        var t := TrimStart(s[1..]);
        TrimStartTight(s);
        CollapseTight(t);
        ConsTight(' ', CollapseSpace(t));
      } else {
        var t := s[1..];
        assert forall x :: 0 <= x < |t| ==> t[x] == s[x + 1];
        CollapseTight(t);
        if |t| > 0 {
          assert s[1] == t[0];
        }
        ConsTight(s[0], CollapseSpace(t));
      }
    }
  }

  /** The pipeline's output is in normal form. */
  lemma {:induction false} PipelineNormal(raw: string)
    ensures Normal(Pipeline(raw))
  {
    var a := ToLower(raw);
    var b := Trim(a);
    TrimmedLower(a);
    var c := Dashes(b);
    DashesOk(b);
    var d := HyphenTight(c, 0);
    HyphenTightOk(c, 0);
    HyphenTightTight(c, 0);
    if c != [] {
      HyphenTightLast(c, 0);
    }
    var e := CollapseSpace(d);
    CollapseOk(d);
    CollapseTight(d);
    CollapseSpaceSingle(d);
    if d != [] {
      CollapseLast(d);
    }
  }

  // ---------------------------------------------------------------------------
  // The pipeline changes white space only

  /** Trimming before the dash step drops white space only. */
  lemma {:induction false} DashesTrimKeeps(y: string)
    ensures StripSpace(Dashes(Trim(y))) == StripSpace(Dashes(y))
  {
    var a, b := TrimIsInfix(y);
    DashesSlice(y, a, b);
    DashesSpaceEnds(y, a, b);
    StripSpaceInfix(Dashes(y), a, b);
  }

  /** The dash step works character by character, so it commutes with taking a slice. */
  lemma {:induction false} DashesSlice(y: string, a: nat, b: nat)
    requires a <= b <= |y|
    ensures Dashes(y[a..b]) == Dashes(y)[a..b]
  {
    var d, e := Dashes(y), Dashes(y[a..b]);
    forall k | 0 <= k < b - a
      ensures e[k] == d[a..b][k]
    {
      assert y[a..b][k] == y[a + k];
    }
  }

  lemma {:induction false} DashesSpaceEnds(y: string, a: nat, b: nat)
    requires a <= b <= |y|
    requires forall k :: 0 <= k < a ==> IsSpace(y[k])
    requires forall k :: b <= k < |y| ==> IsSpace(y[k])
    ensures forall k :: 0 <= k < a ==> IsSpace(Dashes(y)[k])
    ensures forall k :: b <= k < |y| ==> IsSpace(Dashes(y)[k])
  {
  }

  /** Skipping a run of white space does not change what is left after deleting it. */
  lemma {:induction false} SkipSpaces(s: string, i: nat, h: nat)
    requires i <= h <= |s| && forall k :: i <= k < h ==> IsSpace(s[k])
    ensures StripSpace(s[i..]) == StripSpace(s[h..])
    decreases h - i
  {
    if i < h {
      assert s[i..][0] == s[i] && s[i..][1..] == s[i + 1..];
      SkipSpaces(s, i + 1, h);
    }
  }

  /** At a match, the white space around the hyphen is all that goes. */
  lemma {:induction false} MatchKeeps(s: string, i: nat, h: nat, n: nat)
    requires i <= h < n <= |s| && s[h] == '-'
    requires forall k :: i <= k < h ==> IsSpace(s[k])
    requires forall k :: h < k < n ==> IsSpace(s[k])
    ensures StripSpace(['-'] + s[n..]) == StripSpace(s[i..])
  {
    SkipSpaces(s, i, h);
    SkipSpaces(s, h + 1, n);
    assert s[h..][0] == '-' && s[h..][1..] == s[h + 1..];
    assert (['-'] + s[n..])[1..] == s[n..];
  }

  /** One step of HyphenTight: what it writes in front of the rest keeps the characters it passes. */
  lemma {:induction false} StepKeeps(s: string, i: nat, n: nat)
    requires i < |s| && n == (if HyphenAt(s, i) then AfterHyphen(s, i) else i + 1)
    requires StripSpace(HyphenTight(s, n)) == StripSpace(s[n..])
    ensures StripSpace(HyphenTight(s, i)) == StripSpace(s[i..])
  {
    var c := if HyphenAt(s, i) then '-' else s[i];
    assert HyphenTight(s, i) == [c] + HyphenTight(s, n);
    StripSpaceConcat([c], HyphenTight(s, n));
    StripSpaceConcat([c], s[n..]);
    if HyphenAt(s, i) {
      MatchKeeps(s, i, i + SpaceRun(s, i), n);
    } else {
      assert s[i..] == [c] + s[n..];
    }
  }

  /** Tightening hyphens removes white space only. */
  lemma {:induction false} HyphenTightKeeps(s: string, i: nat)
    requires i <= |s|
    ensures StripSpace(HyphenTight(s, i)) == StripSpace(s[i..])
    decreases |s| - i
  {
    if i < |s| {
      var n := if HyphenAt(s, i) then AfterHyphen(s, i) else i + 1;
      HyphenTightKeeps(s, n);
      StepKeeps(s, i, n);
    }
  }

  /**
   * The pipeline keeps every character other than white space, in order: what it adds to the
   * lower-casing and the dash rewrite is a change of white space alone.
   */
  lemma {:induction false} PipelineKeeps(raw: string)
    ensures StripSpace(Pipeline(raw)) == StripSpace(Dashes(ToLower(raw)))
  {
    var d := Dashes(Trim(ToLower(raw)));
    CollapseSpaceKeeps(HyphenTight(d, 0));
    HyphenTightKeeps(d, 0);
    assert d[0..] == d;
    DashesTrimKeeps(ToLower(raw));
  }

  // ---------------------------------------------------------------------------
  // A worked input that is not normal

  const Messy: string := " Poor  Metal "
  const Lowered: string := " poor  metal "
  const Spaced: string := "poor  metal"

  lemma {:induction false} MessyLower()
    ensures ToLower(Messy) == Lowered
  {
    LowerSpelled(Messy);
  }

  /** Lower-casing character by character, for a string given by its characters. */
  lemma {:induction false} LowerSpelled(s: string)
    requires |s| == 13 && s[0] == ' ' && s[1] == 'P' && s[2] == 'o' && s[3] == 'o' && s[4] == 'r'
    requires s[5] == ' ' && s[6] == ' ' && s[7] == 'M' && s[8] == 'e' && s[9] == 't'
    requires s[10] == 'a' && s[11] == 'l' && s[12] == ' '
    ensures ToLower(s) == Lowered
  {
    var a := ToLower(s);
    forall k | 0 <= k < 13
      ensures a[k] == Lowered[k]
    {
      assert a[k] == LowerChar(s[k]);
    }
  }

  lemma {:induction false} MessyTrimmed()
    ensures Trim(Lowered) == Spaced
  {
    var a := Lowered;
    assert TrimStart(a[1..]) == a[1..];
    assert TrimStart(a) == a[1..];
    var b := a[1..];
    assert TrimEnd(b[..11]) == b[..11];
    assert TrimEnd(b) == b[..11];
  }

  lemma {:induction false} MessyTight()
    ensures CharsOk(Spaced) && Tight(Spaced)
  {
    var b := Spaced;
    assert forall k :: 0 <= k < |b| ==> b[k] != '-' && !IsUpper(b[k]) && !IsDashVariant(b[k]);
  }

  lemma {:induction false} MessyCollapsed()
    ensures CollapseSpace(Spaced) == "poor metal"
  {
    CollapseSpelled(Spaced);
  }

  /** Collapsing the doubled space, for a string given by its characters. */
  lemma {:induction false} CollapseSpelled(s: string)
    requires |s| == 11 && s[0] == 'p' && s[1] == 'o' && s[2] == 'o' && s[3] == 'r'
    requires s[4] == ' ' && s[5] == ' ' && s[6] == 'm' && s[7] == 'e' && s[8] == 't'
    requires s[9] == 'a' && s[10] == 'l'
    ensures CollapseSpace(s) == "poor metal"
  {
    var w, m := s[..4], s[6..];
    assert s == w + [' ', ' '] + m;
    assert NoSpace(w) && NoSpace(m);
    CollapseDoubleSpace(w, m);
    var r := w + [' '] + m;
    assert |r| == 10;
    forall k | 0 <= k < 10
      ensures r[k] == "poor metal"[k]
    {
      assert k < 4 ==> r[k] == s[k];
      assert k > 4 ==> r[k] == s[k + 1];
    }
  }

  /** Spaces at the ends, a capital and a doubled space inside: the pipeline mends all three. */
  lemma {:induction false} MessyPipeline()
    ensures Pipeline(Messy) == "poor metal"
  {
    MessyLower();
    MessyTrimmed();
    MessyTight();
    DashesFixes(Spaced);
    HyphenTightFixes(Spaced, 0);
    assert Spaced[0..] == Spaced;
    MessyCollapsed();
  }

  /** So the messy spelling of the old name reaches the canonical one too. */
  lemma {:induction false} MessyPoorMetal()
    ensures NormalizeCat(Messy) == "post-transition metal"
  {
    MessyPipeline();
    PoorMetalListed();
  }

  // ---------------------------------------------------------------------------
  // A normal string is left as it is

  lemma {:induction false} LowerFixes(s: string)
    requires CharsOk(s)
    ensures ToLower(s) == s
  {
  }

  lemma {:induction false} DashesFixes(s: string)
    requires CharsOk(s)
    ensures Dashes(s) == s
  {
  }

  lemma {:induction false} TightBeforeHyphen(s: string, p: nat)
    requires 0 < p < |s| && Tight(s) && s[p] == '-'
    ensures !IsSpace(s[p - 1])
  {
  }

  /** In a tight string the expression matches only at a hyphen itself, and takes nothing after it. */
  lemma {:induction false} TightHyphenAt(s: string, i: nat)
    requires i < |s| && Tight(s) && HyphenAt(s, i)
    ensures s[i] == '-' && AfterHyphen(s, i) == i + 1
  {
    if SpaceRun(s, i) > 0 {
      TightBeforeHyphen(s, i + SpaceRun(s, i));
      assert false;
    }
    if i + 1 < |s| {
      assert !IsSpace(s[i + 1]);
    }
  }

  lemma {:induction false} HyphenTightFixes(s: string, i: nat)
    requires i <= |s| && Tight(s)
    ensures HyphenTight(s, i) == s[i..]
    decreases |s| - i
  {
    if i < |s| {
      if HyphenAt(s, i) {
        TightHyphenAt(s, i);
      }
      HyphenTightFixes(s, i + 1);
      assert s[i..] == [s[i]] + s[i + 1..];
    }
  }

  /** Normal strings are fixed points of the pipeline. */
  lemma {:induction false} PipelineFixes(s: string)
    requires Normal(s)
    ensures Pipeline(s) == s
  {
    LowerFixes(s);
    TrimNoEnds(s);
    DashesFixes(s);
    HyphenTightFixes(s, 0);
    CollapseSpaceFixes(s);
  }

  lemma {:induction false} PipelineIdempotent(raw: string)
    ensures Pipeline(Pipeline(raw)) == Pipeline(raw)
  {
    PipelineNormal(raw);
    PipelineFixes(Pipeline(raw));
  }

  // ---------------------------------------------------------------------------
  // The alias table and normalizeCat

  /** `aliases`, lines 69-78. */
  const Aliases: map<string, string> := map[
    "diatomic nonmetal" := "halogen",
    "polyatomic nonmetal" := "nonmetal",
    "other nonmetals" := "nonmetal",
    "other nonmetal" := "nonmetal",
    "poor metal" := "post-transition metal",
    "post transition metal" := "post-transition metal",
    "lanthanoid" := "lanthanide",
    "actinoid" := "actinide"
  ]

  /** The keys of CATEGORY_META, lines 2-57. */
  const MetaKeys: set<string> := {
    "alkali metal", "alkaline earth metal", "transition metal", "post-transition metal",
    "metalloid", "nonmetal", "noble gas", "lanthanide", "actinide"
  }

  /**
   * The lower-case properties every object literal inherits from Object.prototype; `aliases[s]`
   * finds them although the table does not list them.
   */
  const InheritedKeys: set<string> := {"constructor", "__proto__"}

  /** What normalizeCat hands back: a string, or the inherited function or object. */
  datatype CatValue = Text(s: string) | Inherited(key: string)

  /**
   * The alias lookup as written: `aliases[s]` is a property read on a plain object, so the two
   * inherited keys are found too, and what is read for them is Object or Object.prototype.
   */
  function LookupAsWritten(s: string): CatValue
  {
    if s in Aliases then Text(Aliases[s])
    else if s in InheritedKeys then Inherited(s)
    else Text(s)
  }

  /** normalizeCat as written. Both branches of the final conditional return s. */
  function NormalizeCatAsWritten(raw: string): CatValue
  {
    if raw == [] then Text([]) else LookupAsWritten(Pipeline(raw))
  }

  /** The canonical names the aliases lead to. */
  const Targets: set<string> := {"halogen", "nonmetal", "post-transition metal", "lanthanide", "actinide"}

  /** normalizeCat with the alias lookup restricted to the table's own keys. */
  function NormalizeCat(raw: string): (r: string)
    ensures Normal(r)
    ensures raw == [] ==> r == []
    ensures r in Targets || r == Pipeline(raw)
    ensures raw != [] && Pipeline(raw) in Aliases ==> r == Aliases[Pipeline(raw)]
    ensures raw != [] && Pipeline(raw) !in Aliases ==> r == Pipeline(raw)
  {
    PipelineNormal(raw);
    if raw == [] then
      PipelineEmpty(raw);
      []
    else
      var s := Pipeline(raw);
      if s in Aliases then
        AliasTarget(s);
        Aliases[s]
      else s
  }

  /**
   * Lower-case words joined by single spaces or hyphens, checked character by character so
   * that it can be evaluated on the table's literals.
   */
  predicate Plain(s: string, i: nat)
    requires i <= |s|
    decreases |s| - i
  {
    i < |s| && IsLower(s[i]) &&
    (i + 1 == |s| || (if s[i + 1] == ' ' || s[i + 1] == '-' then i + 2 < |s| && Plain(s, i + 2) else Plain(s, i + 1)))
  }

  /** What Plain(s, i) says about the characters from i on. */
  predicate Spelled(s: string, i: nat)
  {
    i < |s| && IsLower(s[i]) && IsLower(s[|s| - 1]) &&
    (forall x :: i <= x < |s| ==> IsLower(s[x]) || s[x] == ' ' || s[x] == '-') &&
    (forall x, y :: i <= x < |s| && i <= y < |s| && y == x + 1 && !IsLower(s[x]) ==> IsLower(s[y]))
  }

  lemma {:induction false} PlainSpelled(s: string, i: nat)
    requires i <= |s| && Plain(s, i)
    ensures Spelled(s, i)
    decreases |s| - i
  {
    if i + 1 < |s| {
      if s[i + 1] == ' ' || s[i + 1] == '-' {
        PlainSpelled(s, i + 2);
      } else {
        PlainSpelled(s, i + 1);
      }
    }
  }

  lemma {:induction false} PlainNormal(s: string)
    requires Plain(s, 0)
    ensures Normal(s)
  {
    PlainSpelled(s, 0);
  }

  lemma {:induction false} HalogenNormal()
    ensures Normal("halogen") && "halogen" !in Aliases
  {
    assert Plain("halogen", 0);
    PlainNormal("halogen");
  }

  lemma {:induction false} NonmetalNormal()
    ensures Normal("nonmetal") && "nonmetal" !in Aliases
  {
    assert Plain("nonmetal", 0);
    PlainNormal("nonmetal");
  }

  lemma {:induction false} PostTransitionNormal()
    ensures Normal("post-transition metal") && "post-transition metal" !in Aliases
  {
    var s := "post-transition metal";
    assert Plain(s, 16);
    assert Plain(s, 5);
    assert Plain(s, 0);
    PlainNormal(s);
  }

  lemma {:induction false} LanthanideNormal()
    ensures Normal("lanthanide") && "lanthanide" !in Aliases
  {
    assert Plain("lanthanide", 0);
    PlainNormal("lanthanide");
  }

  lemma {:induction false} ActinideNormal()
    ensures Normal("actinide") && "actinide" !in Aliases
  {
    assert Plain("actinide", 0);
    PlainNormal("actinide");
  }

  /** Every canonical name is in normal form, none is empty and none is an alias. */
  lemma {:induction false} TargetsNormal(t: string)
    requires t in Targets
    ensures Normal(t) && t != [] && t !in Aliases
  {
    HalogenNormal();
    NonmetalNormal();
    PostTransitionNormal();
    LanthanideNormal();
    ActinideNormal();
  }

  /** Every alias leads to a canonical name. */
  lemma {:induction false} AliasTarget(k: string)
    requires k in Aliases
    ensures Aliases[k] in Targets && Normal(Aliases[k]) && Aliases[k] !in Aliases
  {
    TargetsNormal(Aliases[k]);
  }

  /** Every alias target but "halogen" is a key of CATEGORY_META. */
  lemma {:induction false} AliasTargetsMeta()
    ensures forall k :: k in Aliases && k != "diatomic nonmetal" ==> Aliases[k] in MetaKeys
    ensures Aliases["diatomic nonmetal"] !in MetaKeys
  {
  }

  /** The empty string goes through the pipeline unchanged. */
  lemma {:induction false} PipelineEmpty(raw: string)
    requires raw == []
    ensures Pipeline(raw) == []
  {
    var a := ToLower(raw);
    assert |a| == 0;
    var b := Trim(a);
    assert b == [] by {
      assert TrimStart(a) == a;
    }
    var c := Dashes(b);
    assert |c| == 0;
    var d := HyphenTight(c, 0);
    assert |d| == 0;
  }

  lemma {:induction false} PoorMetalFixed()
    ensures Pipeline("poor metal") == "poor metal"
  {
    assert Plain("poor metal", 0);
    PlainNormal("poor metal");
    PipelineFixes("poor metal");
  }

  /** "poor metal" is the older name of the post-transition metals. */
  lemma {:induction false} PoorMetal()
    ensures NormalizeCat("poor metal") == "post-transition metal"
  {
    PoorMetalFixed();
    PoorMetalListed();
  }

  lemma {:induction false} PoorMetalListed()
    ensures "poor metal" in Aliases && Aliases["poor metal"] == "post-transition metal"
  {
  }

  /** A normal string that is not an alias is returned as it is. */
  lemma {:induction false} NonAliasKept(s: string)
    requires Normal(s) && s !in Aliases
    ensures NormalizeCat(s) == s
  {
    PipelineFixes(s);
  }

  lemma {:induction false} NormalizeCatIdempotent(raw: string)
    ensures NormalizeCat(NormalizeCat(raw)) == NormalizeCat(raw)
  {
    var r := NormalizeCat(raw);
    if r != [] {
      PipelineFixes(r);
      if r in Targets {
        TargetsNormal(r);
      }
    }
  }

  /** White space alone normalises to the empty string, as the empty string does. */
  lemma {:induction false} BlankCategory(raw: string)
    requires AllSpace(raw)
    ensures NormalizeCat(raw) == [] && NormalizeCatAsWritten(raw) == Text([])
  {
    TrimEmptyIff(ToLower(raw));
  }

  /** The two normalisers agree except on the inherited keys. */
  lemma {:induction false} AsWrittenAgrees(raw: string)
    requires raw == [] || Pipeline(raw) !in InheritedKeys
    ensures NormalizeCatAsWritten(raw) == Text(NormalizeCat(raw))
  {
  }

  lemma {:induction false} ConstructorNormal()
    ensures Normal("constructor")
  {
    assert Plain("constructor", 0);
    PlainNormal("constructor");
  }

  /** "constructor" goes through the pipeline unchanged. */
  lemma {:induction false} ConstructorFixed()
    ensures Pipeline("constructor") == "constructor"
  {
    ConstructorNormal();
    PipelineFixes("constructor");
  }

  /** "constructor" is no alias, yet the lookup as written finds the inherited Object. */
  lemma {:induction false} InheritedLookup()
    ensures LookupAsWritten("constructor") == Inherited("constructor")
  {
  }

  /** The same input through the whole of normalizeCat, as written and corrected. */
  lemma {:induction false} InheritedKeyFound()
    ensures NormalizeCatAsWritten("constructor") == Inherited("constructor")
    ensures NormalizeCat("constructor") == "constructor"
  {
    ConstructorFixed();
    InheritedLookup();
  }
}

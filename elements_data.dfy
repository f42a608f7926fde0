/**
 * The element list of utils/elementsData.ts:40-105: the keyword classifier `normalizeCategory`,
 * the record conversion `toElement` and the list `elements`, which is the raw data set sorted by
 * atomic number and converted record by record.
 *
 * The data set itself is a parameter. The two number formats of the conversion, `toFixed(3)` of
 * the atomic mass and `toFixed(2)` of the Celsius temperature, are parameters too: what is
 * modelled is when a field is present and what it is computed from.
 */
module ElementsData {
  import opened Wrappers
  import opened Text
  import opened Category

  // ---------------------------------------------------------------------------
  // normalizeCategory

  /** sub occurs in s starting at position i. */
  predicate OccursAt(s: string, sub: string, i: int)
  {
    0 <= i && i + |sub| <= |s| && s[i..i + |sub|] == sub
  }

  /** `s.includes(sub)`: sub occurs in s at some position. */
  predicate Includes(s: string, sub: string)
  {
    exists i :: 0 <= i <= |s| && OccursAt(s, sub, i)
  }

  /**
   * The keyword tests of lines 46-58 in the order they are made, each with the category it
   * returns. "post-transition" comes before "transition metal", which it contains.
   */
  const Rules: seq<(string, string)> := [
    ("noble gas", "noble gas"),
    ("alkali metal", "alkali metal"),
    ("alkaline earth metal", "alkaline earth metal"),
    ("post-transition", "post-transition metal"),
    ("transition metal", "transition metal"),
    ("lanthanide", "lanthanide"),
    ("actinide", "actinide"),
    ("metalloid", "metalloid"),
    ("halogen", "halogen"),
    ("nonmetal", "nonmetal")
  ]

  /** The chain of tests from the first rule of rules on; src when none of them matches. */
  function FirstRule(s: string, rules: seq<(string, string)>, src: string): (r: string)
    ensures r == src || exists j :: 0 <= j < |rules| && r == rules[j].1
  {
    if |rules| == 0 then src
    else if Includes(s, rules[0].0) then rules[0].1
    else
      var r := FirstRule(s, rules[1..], src);
      assert r != src ==> exists j :: 1 <= j < |rules| && r == rules[j].1 by {
        if r != src {
          var j :| 0 <= j < |rules| - 1 && r == rules[1..][j].1;
          assert rules[1..][j] == rules[j + 1];
        }
      }
      r
  }

  /** `normalizeCategory(src)`: the lower-cased string is searched for each keyword in turn. */
  function NormalizeCategory(src: string): string
  {
    FirstRule(ToLower(src), Rules, src)
  }

  /** The first rule whose keyword occurs decides. */
  lemma {:induction false} FirstRuleWins(s: string, rules: seq<(string, string)>, src: string, j: nat)
    requires j < |rules| && Includes(s, rules[j].0)
    requires forall i :: 0 <= i < j ==> !Includes(s, rules[i].0)
    ensures FirstRule(s, rules, src) == rules[j].1
    decreases j
  {
    if j > 0 {
      assert !Includes(s, rules[0].0);
      forall i | 0 <= i < j - 1
        ensures !Includes(s, rules[1..][i].0)
      {
        assert rules[1..][i] == rules[i + 1];
      }
      FirstRuleWins(s, rules[1..], src, j - 1);
    }
  }

  /** When no keyword occurs, the chain falls through to src. */
  lemma {:induction false} FirstRuleNone(s: string, rules: seq<(string, string)>, src: string)
    requires forall i :: 0 <= i < |rules| ==> !Includes(s, rules[i].0)
    ensures FirstRule(s, rules, src) == src
    decreases |rules|
  {
    if |rules| > 0 {
      assert !Includes(s, rules[0].0);
      forall i | 0 <= i < |rules| - 1
        ensures !Includes(s, rules[1..][i].0)
      {
        assert rules[1..][i] == rules[i + 1];
      }
      FirstRuleNone(s, rules[1..], src);
    }
  }

  /** When some keyword occurs, the result is the category of the first rule that matches. */
  lemma {:induction false} FirstRuleSome(s: string, rules: seq<(string, string)>, src: string, k: nat)
    requires k < |rules| && Includes(s, rules[k].0)
    ensures exists j :: 0 <= j <= k && Includes(s, rules[j].0) && FirstRule(s, rules, src) == rules[j].1
    decreases k
  {
    if Includes(s, rules[0].0) {
      assert FirstRule(s, rules, src) == rules[0].1;
    } else {
      assert k > 0;
      assert rules[1..][k - 1] == rules[k];
      FirstRuleSome(s, rules[1..], src, k - 1);
      var j :| 0 <= j <= k - 1 && Includes(s, rules[1..][j].0) && FirstRule(s, rules[1..], src) == rules[1..][j].1;
      assert rules[1..][j] == rules[j + 1];
    }
  }

  /** Keyword j of normalizeCategory decides when it occurs and no earlier keyword does. */
  lemma {:induction false} NormalizeCategoryFirstWins(src: string, j: nat)
    requires j < |Rules| && Includes(ToLower(src), Rules[j].0)
    requires forall i :: 0 <= i < j ==> !Includes(ToLower(src), Rules[i].0)
    ensures NormalizeCategory(src) == Rules[j].1
  {
    FirstRuleWins(ToLower(src), Rules, src, j);
  }

  /** Without any keyword, normalizeCategory hands src back unchanged, in its own case. */
  lemma {:induction false} NormalizeCategoryKeeps(src: string)
    requires forall i :: 0 <= i < |Rules| ==> !Includes(ToLower(src), Rules[i].0)
    ensures NormalizeCategory(src) == src
  {
    FirstRuleNone(ToLower(src), Rules, src);
  }

  /** With some keyword, normalizeCategory gives one of the ten category names. */
  lemma {:induction false} NormalizeCategoryNamed(src: string, k: nat)
    requires k < |Rules| && Includes(ToLower(src), Rules[k].0)
    ensures exists j :: 0 <= j < |Rules| && NormalizeCategory(src) == Rules[j].1
  {
    FirstRuleSome(ToLower(src), Rules, src, k);
  }

  /** The names rules 0 to 3 return. */
  lemma {:induction false} EarlyNames()
    ensures Rules[0].1 == "noble gas" && Rules[1].1 == "alkali metal"
    ensures Rules[2].1 == "alkaline earth metal" && Rules[3].1 == "post-transition metal"
    ensures Rules[3].0 == "post-transition" && Rules[4].1 == "transition metal"
  {
  }

  /** A string naming a post-transition metal is never classed as a transition metal. */
  lemma {:induction false} PostTransitionNotTransition(src: string)
    requires Includes(ToLower(src), "post-transition")
    ensures NormalizeCategory(src) != "transition metal"
  {
    EarlyNames();
    var s := ToLower(src);
    FirstRuleSome(s, Rules, src, 3);
    var j :| 0 <= j <= 3 && Includes(s, Rules[j].0) && FirstRule(s, Rules, src) == Rules[j].1;
    assert j == 0 || j == 1 || j == 2 || j == 3;
  }

  /** The order matters: "post-transition metal" also contains the keyword looked for after it. */
  lemma {:induction false} PostTransitionContainsTransition()
    ensures Includes("post-transition metal", "transition metal")
  {
    var s, t := "post-transition metal", "transition metal";
    assert OccursAt(s, t, 5);
  }

  // ---------------------------------------------------------------------------
  // toElement

  /** The fields of a raw record the conversion reads; `None` stands for null or a missing field. */
  datatype RawElement = RawElement(
    name: string,
    symbol: string,
    number: int,
    atomicMass: Option<real>,
    category: string,
    density: Option<real>,
    melt: Option<real>,
    boil: Option<real>,
    phase: string,
    electronConfiguration: string,
    electronConfigurationSemantic: Option<string>,
    period: Option<int>,
    group: Option<int>,
    block: Option<string>,
    electronegativity: Option<real>,
    summary: Option<string>)

  /** The converted record. The category is what normalizeCat hands back. */
  datatype Element = Element(
    atomicNumber: int,
    symbol: string,
    name: string,
    atomicWeight: Option<real>,
    category: CatValue,
    phase: string,
    meltingPoint: Option<real>,
    boilingPoint: Option<real>,
    electronConfiguration: string,
    period: Option<int>,
    group: Option<int>,
    block: Option<string>,
    density: Option<real>,
    electronegativity: Option<real>,
    summary: Option<string>)

  /** `kToC`: Kelvin to Celsius for a number, null otherwise; fix2 stands for `+x.toFixed(2)`. */
  function KToC(k: Option<real>, fix2: real -> real): (c: Option<real>)
    ensures c.None? <==> k.None?
    ensures k.Some? ==> c.value == fix2(k.value - 273.15)
  {
    if k.Some? then Some(fix2(k.value - 273.15)) else None
  }

  /**
   * `toElement(r)`; fix3 stands for `+x.toFixed(3)`. A number becomes a number and a missing
   * value null; the semantic configuration is taken when it is a non-empty string.
   */
  function ToElement(r: RawElement, fix2: real -> real, fix3: real -> real): (e: Element)
    ensures e.atomicNumber == r.number && e.symbol == r.symbol && e.name == r.name
    ensures e.atomicWeight.None? <==> r.atomicMass.None?
    ensures r.atomicMass.Some? ==> e.atomicWeight.value == fix3(r.atomicMass.value)
    ensures e.meltingPoint == KToC(r.melt, fix2) && e.boilingPoint == KToC(r.boil, fix2)
    ensures e.category == NormalizeCatAsWritten(r.category)
    ensures e.electronConfiguration ==
      if r.electronConfigurationSemantic.Some? && r.electronConfigurationSemantic.value != [] then
        r.electronConfigurationSemantic.value
      else r.electronConfiguration
    ensures e.phase == r.phase
    ensures e.period == r.period && e.group == r.group && e.block == r.block
    ensures e.density == r.density && e.electronegativity == r.electronegativity && e.summary == r.summary
  {
    Element(
      r.number,
      r.symbol,
      r.name,
      if r.atomicMass.Some? then Some(fix3(r.atomicMass.value)) else None,
      NormalizeCatAsWritten(r.category),
      r.phase,
      KToC(r.melt, fix2),
      KToC(r.boil, fix2),
      if r.electronConfigurationSemantic.Some? && r.electronConfigurationSemantic.value != [] then
        r.electronConfigurationSemantic.value
      else r.electronConfiguration,
      r.period,
      r.group,
      r.block,
      r.density,
      r.electronegativity,
      r.summary)
  }

  // ---------------------------------------------------------------------------
  // elements

  predicate SortedByNumber(rs: seq<RawElement>)
  {
    forall i, j :: 0 <= i < j < |rs| ==> rs[i].number <= rs[j].number
  }

  /** x placed in front of the first entry of rs whose number is not smaller. */
  function Insert(x: RawElement, rs: seq<RawElement>): (r: seq<RawElement>)
    ensures multiset(r) == multiset(rs) + multiset{x}
    ensures |r| == |rs| + 1
  {
    if |rs| == 0 || x.number <= rs[0].number then [x] + rs
    else
      var t := Insert(x, rs[1..]);
      assert rs == [rs[0]] + rs[1..];
      [rs[0]] + t
  }

  /**
   * `.sort((a, b) => a.number - b.number)`: by ascending atomic number. Each record is inserted
   * in front of the records after it with the same number, so equal numbers keep their order.
   */
  function SortByNumber(rs: seq<RawElement>): (s: seq<RawElement>)
    ensures |s| == |rs|
  {
    if |rs| == 0 then [] else Insert(rs[0], SortByNumber(rs[1..]))
  }

  /** The records of rs with atomic number n, in the order of rs. */
  function WithNumber(rs: seq<RawElement>, n: int): (w: seq<RawElement>)
    ensures |w| <= |rs|
  {
    if |rs| == 0 then []
    else if rs[0].number == n then [rs[0]] + WithNumber(rs[1..], n)
    else WithNumber(rs[1..], n)
  }

  /** x goes in front of every record with its own number, and leaves the other numbers' order alone. */
  lemma {:induction false} InsertWithNumber(x: RawElement, rs: seq<RawElement>, n: int)
    ensures WithNumber(Insert(x, rs), n) == if x.number == n then [x] + WithNumber(rs, n) else WithNumber(rs, n)
    decreases |rs|
  {
    if |rs| == 0 || x.number <= rs[0].number {
      assert Insert(x, rs)[1..] == rs;
    } else {
      InsertWithNumber(x, rs[1..], n);
      assert Insert(x, rs)[1..] == Insert(x, rs[1..]);
    }
  }

  /** The sort is stable: the records with one atomic number keep their relative order. */
  lemma {:induction false} SortByNumberStable(rs: seq<RawElement>, n: int)
    ensures WithNumber(SortByNumber(rs), n) == WithNumber(rs, n)
    decreases |rs|
  {
    if |rs| > 0 {
      SortByNumberStable(rs[1..], n);
      InsertWithNumber(rs[0], SortByNumber(rs[1..]), n);
    }
  }

  /** Inserting into a sorted list keeps it sorted. */
  lemma {:induction false} InsertSorted(x: RawElement, rs: seq<RawElement>)
    requires SortedByNumber(rs)
    ensures SortedByNumber(Insert(x, rs))
    decreases |rs|
  {
    if |rs| > 0 && x.number > rs[0].number {
      var t := Insert(x, rs[1..]);
      assert SortedByNumber(rs[1..]) by {
        forall i, j | 0 <= i < j < |rs| - 1
          ensures rs[1..][i].number <= rs[1..][j].number
        {
          assert rs[1..][i] == rs[i + 1] && rs[1..][j] == rs[j + 1];
        }
      }
      InsertSorted(x, rs[1..]);
      forall y: RawElement | y in multiset(t)
        ensures rs[0].number <= y.number
      {
        assert y in multiset(rs[1..]) + multiset{x};
        if y in multiset(rs[1..]) {
          var k :| 0 <= k < |rs| - 1 && rs[1..][k] == y;
          assert rs[k + 1] == y;
        }
      }
      ConsSorted(rs[0], t);
    }
  }

  /** A record in front of a sorted list whose numbers are all at least its own. */
  lemma {:induction false} ConsSorted(y: RawElement, t: seq<RawElement>)
    requires SortedByNumber(t) && forall z :: z in multiset(t) ==> y.number <= z.number
    ensures SortedByNumber([y] + t)
  {
    var r := [y] + t;
    forall i, j | 0 <= i < j < |r|
      ensures r[i].number <= r[j].number
    {
      assert r[j] == t[j - 1];
      assert t[j - 1] in multiset(t);
      if i > 0 {
        assert r[i] == t[i - 1];
      }
    }
  }

  /** The sorted list is in ascending order of atomic number. */
  lemma {:induction false} SortByNumberSorted(rs: seq<RawElement>)
    ensures SortedByNumber(SortByNumber(rs))
    decreases |rs|
  {
    if |rs| > 0 {
      SortByNumberSorted(rs[1..]);
      InsertSorted(rs[0], SortByNumber(rs[1..]));
    }
  }

  /** The sorted list holds the same records as the data set, each as often. */
  lemma {:induction false} SortByNumberPermutes(rs: seq<RawElement>)
    ensures multiset(SortByNumber(rs)) == multiset(rs)
    decreases |rs|
  {
    if |rs| > 0 {
      SortByNumberPermutes(rs[1..]);
      assert rs == [rs[0]] + rs[1..];
    }
  }

  /** `elements`: the raw records sorted by atomic number, each converted by toElement. */
  function Elements(raw: seq<RawElement>, fix2: real -> real, fix3: real -> real): (es: seq<Element>)
    ensures |es| == |raw|
  {
    var sorted := SortByNumber(raw);
    seq(|sorted|, i requires 0 <= i < |sorted| => ToElement(sorted[i], fix2, fix3))
  }

  /**
   * The list is in ascending order of atomic number and has one entry per raw record: entry i is
   * the conversion of record p(i) of the data set, for a permutation p of its positions.
   */
  lemma {:induction false} ElementsOrdered(raw: seq<RawElement>, fix2: real -> real, fix3: real -> real)
    ensures forall i, j :: 0 <= i < j < |raw| ==>
      Elements(raw, fix2, fix3)[i].atomicNumber <= Elements(raw, fix2, fix3)[j].atomicNumber
    ensures multiset(SortByNumber(raw)) == multiset(raw)
    ensures forall i :: 0 <= i < |raw| ==> Elements(raw, fix2, fix3)[i] == ToElement(SortByNumber(raw)[i], fix2, fix3)
  {
    SortByNumberSorted(raw);
    SortByNumberPermutes(raw);
  }
}

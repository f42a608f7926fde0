/**
 * The JavaScript string primitives the tools are built from, written out on `seq<char>`:
 * the `\s` character class (which is also the set `String.prototype.trim` removes),
 * `trim`, `split` on a one-character separator, `replace(/\s+/g, ...)`, decimal digit runs
 * as `parseInt` reads them, and the decimal rendering of a natural number.
 */
module Text {

  /** JavaScript's `\s`: the WhiteSpace and LineTerminator code points of ECMA-262. */
  predicate IsSpace(c: char)
  {
    var u := c as int;
    u == 0x09 || u == 0x0A || u == 0x0B || u == 0x0C || u == 0x0D || u == 0x20
    || u == 0xA0 || u == 0x1680 || (0x2000 <= u <= 0x200A) || u == 0x2028 || u == 0x2029
    || u == 0x202F || u == 0x205F || u == 0x3000 || u == 0xFEFF
  }

  /** The code points a regular-expression `.` does not match. */
  predicate IsLineTerminator(c: char)
  {
    var u := c as int;
    u == 0x0A || u == 0x0D || u == 0x2028 || u == 0x2029
  }

  predicate IsDigit(c: char) { '0' <= c <= '9' }

  predicate IsUpper(c: char) { 'A' <= c <= 'Z' }

  predicate IsLower(c: char) { 'a' <= c <= 'z' }

  predicate IsLetter(c: char) { IsUpper(c) || IsLower(c) }

  /** Neither a letter nor a digit is white space. */
  lemma {:induction false} LetterOrDigitNotSpace(c: char)
    requires IsLetter(c) || IsDigit(c)
    ensures !IsSpace(c)
  {
  }

  predicate AllDigits(s: string)
  {
    forall i :: 0 <= i < |s| ==> IsDigit(s[i])
  }

  predicate NoSpace(s: string)
  {
    forall i :: 0 <= i < |s| ==> !IsSpace(s[i])
  }

  function DigitValue(c: char): (v: nat)
    requires IsDigit(c)
    ensures v < 10
  {
    c as int - '0' as int
  }

  /** parseInt(s, 10) of a run of decimal digits. */
  function DigitsValue(s: string): nat
    requires AllDigits(s)
  {
    if |s| == 0 then 0 else DigitsValue(s[..|s| - 1]) * 10 + DigitValue(s[|s| - 1])
  }

  /** The decimal rendering of a natural number, as template literals print it. */
  function NatToString(n: nat): (s: string)
    ensures |s| >= 1 && AllDigits(s)
    ensures DigitsValue(s) == n
    ensures |s| > 1 ==> s[0] != '0'
  {
    if n < 10 then [('0' as int + n) as char]
    else
      var s := NatToString(n / 10) + [('0' as int + n % 10) as char];
      assert s[..|s| - 1] == NatToString(n / 10);
      s
  }

  function Pow10(k: nat): (p: nat)
    ensures p >= 1
  {
    if k == 0 then 1 else 10 * Pow10(k - 1)
  }

  /** k decimal digits read as a number below 10^k. */
  lemma {:induction false} DigitsBelow(s: string)
    requires AllDigits(s)
    ensures DigitsValue(s) < Pow10(|s|)
    decreases |s|
  {
    if |s| > 0 {
      DigitsBelow(s[..|s| - 1]);
    }
  }

  /** At most three digits, as `\d{1,3}` takes, read as a number below 1000. */
  lemma {:induction false} DigitsShort(s: string)
    requires AllDigits(s) && |s| <= 3
    ensures DigitsValue(s) < 1000
  {
    DigitsBelow(s);
    assert Pow10(3) == 1000 && Pow10(2) == 100 && Pow10(1) == 10;
  }

  /** A number below 1000 is written with at most three digits. */
  lemma {:induction false} NatToStringShort(n: nat)
    requires n < 1000
    ensures |NatToString(n)| <= 3
  {
    if n >= 10 {
      assert |NatToString(n)| == |NatToString(n / 10)| + 1;
      if n / 10 >= 10 {
        assert |NatToString(n / 10)| == |NatToString(n / 100)| + 1;
      }
    }
  }

  /** The length of the digit run starting at position i (what a sticky `/\d+/y` consumes). */
  function DigitRun(s: string, i: nat): (k: nat)
    requires i <= |s|
    ensures i + k <= |s|
    ensures AllDigits(s[i..i + k])
    ensures i + k == |s| || !IsDigit(s[i + k])
    decreases |s| - i
  {
    if i < |s| && IsDigit(s[i]) then
      var k := 1 + DigitRun(s, i + 1);
      assert s[i..i + k] == [s[i]] + s[i + 1..i + k];
      k
    else 0
  }

  /** The length of the white-space run starting at position i. */
  function SpaceRun(s: string, i: nat): (k: nat)
    requires i <= |s|
    ensures i + k <= |s|
    ensures forall j :: i <= j < i + k ==> IsSpace(s[j])
    ensures i + k == |s| || !IsSpace(s[i + k])
    decreases |s| - i
  {
    if i < |s| && IsSpace(s[i]) then 1 + SpaceRun(s, i + 1) else 0
  }

  predicate AllSpace(s: string)
  {
    forall i :: 0 <= i < |s| ==> IsSpace(s[i])
  }

  lemma {:induction false} SuffixSplit(s: string, i: nat, e: nat)
    requires i <= e <= |s|
    ensures s[i..] == s[i..e] + s[e..]
  {
  }

  // ---------------------------------------------------------------------------
  // trim

  function TrimStart(s: string): (r: string)
    ensures |r| <= |s| && r == s[|s| - |r|..]
    ensures forall i :: 0 <= i < |s| - |r| ==> IsSpace(s[i])
    ensures r == [] || !IsSpace(r[0])
  {
    if |s| > 0 && IsSpace(s[0]) then TrimStart(s[1..]) else s
  }

  function TrimEnd(s: string): (r: string)
    ensures |r| <= |s| && r == s[..|r|]
    ensures forall i :: |r| <= i < |s| ==> IsSpace(s[i])
    ensures r == [] || !IsSpace(r[|r| - 1])
  {
    if |s| > 0 && IsSpace(s[|s| - 1]) then TrimEnd(s[..|s| - 1]) else s
  }

  /** String.prototype.trim */
  function Trim(s: string): (r: string)
    ensures r == [] || (!IsSpace(r[0]) && !IsSpace(r[|r| - 1]))
  {
    TrimEnd(TrimStart(s))
  }

  /** The trimmed string is the input with only white space removed from its two ends. */
  lemma {:induction false} TrimIsInfix(s: string) returns (a: nat, b: nat)
    ensures a <= b <= |s| && Trim(s) == s[a..b]
    ensures forall i :: 0 <= i < a ==> IsSpace(s[i])
    ensures forall i :: b <= i < |s| ==> IsSpace(s[i])
  {
    var t := TrimStart(s);
    a := |s| - |t|;
    b := a + |TrimEnd(t)|;
    assert TrimEnd(t) == t[..b - a];
    assert s[a..b] == t[..b - a];
    forall i | b <= i < |s|
      ensures IsSpace(s[i])
    {
      assert s[i] == t[i - a];
    }
  }

  lemma {:induction false} TrimNoEnds(s: string)
    requires s == [] || (!IsSpace(s[0]) && !IsSpace(s[|s| - 1]))
    ensures Trim(s) == s
  {
  }

  /** Trimming removes white space only. */
  lemma {:induction false} TrimKeeps(s: string)
    ensures StripSpace(Trim(s)) == StripSpace(s)
  {
    var a, b := TrimIsInfix(s);
    StripSpaceInfix(s, a, b);
  }

  lemma {:induction false} TrimIdempotent(s: string)
    ensures Trim(Trim(s)) == Trim(s)
  {
    TrimNoEnds(Trim(s));
  }

  // ---------------------------------------------------------------------------
  // split / join on one character

  function IndexOf(s: string, c: char): (i: nat)
    requires c in s
    ensures i < |s| && s[i] == c && c !in s[..i]
  {
    if s[0] == c then 0 else 1 + IndexOf(s[1..], c)
  }

  function Join(parts: seq<string>, c: char): string
  {
    if |parts| == 0 then []
    else if |parts| == 1 then parts[0]
    else parts[0] + [c] + Join(parts[1..], c)
  }

  /** String.prototype.split with a one-character separator. */
  function Split(s: string, c: char): (parts: seq<string>)
    ensures |parts| >= 1
    ensures forall k :: 0 <= k < |parts| ==> c !in parts[k]
    ensures Join(parts, c) == s
    ensures |parts| == 1 <==> c !in s
    decreases |s|
  {
    if c !in s then [s]
    else
      var i := IndexOf(s, c);
      var rest := Split(s[i + 1..], c);
      assert s == s[..i] + [c] + s[i + 1..];
      [s[..i]] + rest
  }

  lemma {:induction false} IndexOfFirst(a: string, c: char, b: string)
    requires c !in a
    ensures c in a + [c] + b && IndexOf(a + [c] + b, c) == |a|
    decreases |a|
  {
    var s := a + [c] + b;
    assert s[|a|] == c;
    if |a| > 0 {
      assert s[1..] == a[1..] + [c] + b;
      IndexOfFirst(a[1..], c, b);
    }
  }

  /** A separator-free list joins and splits back to itself: split is the inverse of join. */
  lemma {:induction false} SplitJoin(parts: seq<string>, c: char)
    requires |parts| >= 1
    requires forall k :: 0 <= k < |parts| ==> c !in parts[k]
    ensures Split(Join(parts, c), c) == parts
    decreases |parts|
  {
    if |parts| > 1 {
      var rest := Join(parts[1..], c);
      var s := parts[0] + [c] + rest;
      assert Join(parts, c) == s;
      SplitJoin(parts[1..], c);
      IndexOfFirst(parts[0], c, rest);
      assert s[..|parts[0]|] == parts[0];
      assert s[|parts[0]| + 1..] == rest;
      assert Split(s, c) == [parts[0]] + Split(rest, c);
    }
  }

  // ---------------------------------------------------------------------------
  // replace(/\s+/g, ...)

  /** s.replace(/\s+/g, ""): every white-space character is deleted. */
  function StripSpace(s: string): (r: string)
    ensures NoSpace(r)
    ensures |r| <= |s|
    ensures NoSpace(s) ==> r == s
  {
    if |s| == 0 then []
    else if IsSpace(s[0]) then StripSpace(s[1..])
    else [s[0]] + StripSpace(s[1..])
  }

  /** Deleting white space brings in no other character. */
  lemma {:induction false} StripSpaceKeepsOut(s: string, c: char)
    requires c !in s
    ensures c !in StripSpace(s)
    decreases |s|
  {
    if |s| > 0 {
      StripSpaceKeepsOut(s[1..], c);
    }
  }

  /** Deleting white space distributes over concatenation. */
  lemma {:induction false} StripSpaceConcat(x: string, y: string)
    ensures StripSpace(x + y) == StripSpace(x) + StripSpace(y)
    decreases |x|
  {
    if |x| == 0 {
      assert x + y == y;
    } else {
      assert (x + y)[0] == x[0] && (x + y)[1..] == x[1..] + y;
      StripSpaceConcat(x[1..], y);
    }
  }

  /** Nothing is left of white space alone. */
  lemma {:induction false} StripSpaceAllSpace(s: string)
    requires AllSpace(s)
    ensures StripSpace(s) == []
    decreases |s|
  {
    if |s| > 0 {
      assert forall i :: 0 <= i < |s| - 1 ==> s[1..][i] == s[i + 1];
      StripSpaceAllSpace(s[1..]);
    }
  }

  /** Cutting off white space at the two ends does not change what is left after deleting it. */
  lemma {:induction false} StripSpaceInfix(s: string, a: nat, b: nat)
    requires a <= b <= |s|
    requires forall i :: 0 <= i < a ==> IsSpace(s[i])
    requires forall i :: b <= i < |s| ==> IsSpace(s[i])
    ensures StripSpace(s[a..b]) == StripSpace(s)
  {
    var x, m, y := s[..a], s[a..b], s[b..];
    assert s == x + m + y;
    assert forall i :: 0 <= i < |y| ==> y[i] == s[b + i];
    StripSpaceConcat(x + m, y);
    StripSpaceConcat(x, m);
    StripSpaceAllSpace(x);
    StripSpaceAllSpace(y);
  }

  /** s.replace(/\s+/g, " "): every maximal white-space run becomes one space. */
  function CollapseSpace(s: string): (r: string)
    ensures |s| > 0 ==> |r| > 0 && (IsSpace(r[0]) <==> IsSpace(s[0]))
  {
    if |s| == 0 then []
    else if IsSpace(s[0]) then
      var rest := CollapseSpace(TrimStart(s[1..]));
      [' '] + rest
    else [s[0]] + CollapseSpace(s[1..])
  }

  /** The only white space is the plain space, and never two in a row. */
  predicate SingleSpaced(s: string)
  {
    (forall i :: 0 <= i < |s| && IsSpace(s[i]) ==> s[i] == ' ') &&
    (forall i, j :: 0 <= i < |s| && 0 <= j < |s| && j == i + 1 && IsSpace(s[i]) ==> !IsSpace(s[j]))
  }

  /** Collapsing leaves single plain spaces only. */
  lemma {:induction false} CollapseSpaceSingle(s: string)
    ensures SingleSpaced(CollapseSpace(s))
    decreases |s|
  {
    if |s| > 0 {
      var t := if IsSpace(s[0]) then TrimStart(s[1..]) else s[1..];
      CollapseSpaceSingle(t);
      var rest := CollapseSpace(t);
      var r := CollapseSpace(s);
      assert r == [if IsSpace(s[0]) then ' ' else s[0]] + rest;
      forall i | 0 <= i < |r| && IsSpace(r[i])
        ensures r[i] == ' ' && (i + 1 < |r| ==> !IsSpace(r[i + 1]))
      {
        if i > 0 {
          assert r[i] == rest[i - 1];
        }
      }
    }
  }

  /**
   * Collapsing changes white space only: with all white space deleted, the input and the output
   * are the same text, so every other character is kept, in order.
   */
  lemma {:induction false} CollapseSpaceKeeps(s: string)
    ensures StripSpace(CollapseSpace(s)) == StripSpace(s)
    decreases |s|
  {
    if |s| > 0 {
      var u := s[1..];
      if IsSpace(s[0]) {
        var t := TrimStart(u);
        CollapseSpaceKeeps(t);
        StripSpaceConcat([' '], CollapseSpace(t));
        assert u[|u| - |t|..|u|] == t;
        StripSpaceInfix(u, |u| - |t|, |u|);
      } else {
        CollapseSpaceKeeps(u);
        StripSpaceConcat([s[0]], CollapseSpace(u));
      }
    }
  }

  /** A word without white space in front of the rest is kept as it is. */
  lemma {:induction false} CollapseSpaceWord(w: string, t: string)
    requires NoSpace(w)
    ensures CollapseSpace(w + t) == w + CollapseSpace(t)
    decreases |w|
  {
    if |w| == 0 {
      assert w + t == t;
    } else {
      var s, w' := w + t, w[1..];
      assert !IsSpace(w[0]);
      assert s[1..] == w' + t;
      assert NoSpace(w') by {
        assert forall i :: 0 <= i < |w'| ==> w'[i] == w[i + 1];
      }
      CollapseSpaceWord(w', t);
      ConsCollapse(w[0], s, CollapseSpace(w' + t));
      assert [w[0]] + (w' + CollapseSpace(t)) == w + CollapseSpace(t);
    }
  }

  /** A doubled space between two words collapses to one. */
  lemma {:induction false} CollapseDoubleSpace(w: string, m: string)
    requires NoSpace(w) && NoSpace(m)
    ensures CollapseSpace(w + [' ', ' '] + m) == w + [' '] + m
  {
    var u := [' '] + m;
    var t := [' '] + u;
    assert w + [' ', ' '] + m == w + t;
    assert CollapseSpace(m) == m by {
      CollapseSpaceWord(m, []);
      assert m + [] == m;
    }
    assert TrimStart(u) == m by {
      assert u[1..] == m;
    }
    assert CollapseSpace(t) == [' '] + m by {
      SpaceFirst(t);
      assert t[1..] == u;
    }
    CollapseSpaceWord(w, t);
  }

  /** White space in front becomes one space, and the white space after it goes. */
  lemma {:induction false} SpaceFirst(s: string)
    requires |s| > 0 && IsSpace(s[0])
    ensures CollapseSpace(s) == [' '] + CollapseSpace(TrimStart(s[1..]))
  {
  }

  /** One character other than white space in front is copied. */
  lemma {:induction false} ConsCollapse(c: char, s: string, rest: string)
    requires |s| > 0 && s[0] == c && !IsSpace(c) && rest == CollapseSpace(s[1..])
    ensures CollapseSpace(s) == [c] + rest
  {
  }

  /** A string that is already single-spaced is left as it is. */
  lemma {:induction false} CollapseSpaceFixes(s: string)
    requires SingleSpaced(s)
    ensures CollapseSpace(s) == s
    decreases |s|
  {
    if |s| > 0 {
      var t := s[1..];
      SingleSpacedTail(s);
      CollapseSpaceFixes(t);
      if IsSpace(s[0]) {
        if t != [] {
          assert TrimStart(t) == t;
        }
        CollapseSpaceSpace(s, t);
      }
      HeadTail(s);
    }
  }

  /** The tail of a single-spaced string is single spaced; after a space comes no white space. */
  lemma {:induction false} SingleSpacedTail(s: string)
    requires |s| > 0 && SingleSpaced(s)
    ensures SingleSpaced(s[1..])
    ensures IsSpace(s[0]) ==> s[0] == ' ' && (|s| > 1 ==> !IsSpace(s[1..][0]))
  {
    var t := s[1..];
    forall i | 0 <= i < |t| && IsSpace(t[i])
      ensures t[i] == ' ' && (i + 1 < |t| ==> !IsSpace(t[i + 1]))
    {
      assert t[i] == s[i + 1];
    }
  }

  /** Collapsing a string that starts with white space. */
  lemma {:induction false} CollapseSpaceSpace(s: string, t: string)
    requires |s| > 0 && IsSpace(s[0]) && t == s[1..] && TrimStart(t) == t
    ensures CollapseSpace(s) == [' '] + CollapseSpace(t)
  {
  }

  lemma {:induction false} HeadTail(s: string)
    requires |s| > 0
    ensures [s[0]] + s[1..] == s
  {
  }

  /** Collapsing keeps a string all white space, and a string with some other character not. */
  lemma {:induction false} CollapseAllSpace(s: string)
    ensures AllSpace(CollapseSpace(s)) <==> AllSpace(s)
    decreases |s|
  {
    if |s| > 0 && IsSpace(s[0]) {
      var t := TrimStart(s[1..]);
      CollapseAllSpace(t);
      AllSpaceCons(' ', CollapseSpace(t));
      AllSpaceTrimStart(s[1..]);
      AllSpaceTail(s);
    }
  }

  /** A space in front does not change whether a string is all white space. */
  lemma {:induction false} AllSpaceCons(c: char, x: string)
    requires IsSpace(c)
    ensures AllSpace([c] + x) <==> AllSpace(x)
  {
    var y := [c] + x;
    assert forall i :: 0 <= i < |x| ==> y[i + 1] == x[i];
    if AllSpace(x) {
      forall i | 0 <= i < |y| ensures IsSpace(y[i]) {
        if i > 0 {
          assert y[i] == x[i - 1];
        }
      }
    }
  }

  /** Nor does a space removed from the front. */
  lemma {:induction false} AllSpaceTail(s: string)
    requires |s| > 0 && IsSpace(s[0])
    ensures AllSpace(s[1..]) <==> AllSpace(s)
  {
    var u := s[1..];
    assert forall i :: 0 <= i < |u| ==> u[i] == s[i + 1];
    if AllSpace(u) {
      forall i | 0 <= i < |s| ensures IsSpace(s[i]) {
        if i > 0 {
          assert s[i] == u[i - 1];
        }
      }
    }
  }

  /** Dropping leading white space does not change whether a string is all white space. */
  lemma {:induction false} AllSpaceTrimStart(u: string)
    ensures AllSpace(TrimStart(u)) <==> AllSpace(u)
  {
    var r := TrimStart(u);
    if r != [] {
      assert u[|u| - |r|] == r[0];
    }
  }

  /** Trimming gives the empty string exactly when there is nothing but white space. */
  lemma {:induction false} TrimEmptyIff(s: string)
    ensures Trim(s) == [] <==> AllSpace(s)
  {
    var a, b := TrimIsInfix(s);
    if Trim(s) != [] {
      assert !IsSpace(s[a]);
    }
  }

  /** The ASCII case of `toLowerCase`. */
  function LowerChar(c: char): (r: char)
    ensures !IsUpper(r)
    ensures IsSpace(r) <==> IsSpace(c)
    ensures IsUpper(c) ==> r as int == c as int + 32 && IsLower(r)
    ensures !IsUpper(c) ==> r == c
  {
    if IsUpper(c) then (c as int + 32) as char else c
  }

  function ToLower(s: string): (r: string)
    ensures |r| == |s|
    ensures forall i :: 0 <= i < |r| ==> r[i] == LowerChar(s[i])
  {
    if |s| == 0 then [] else [LowerChar(s[0])] + ToLower(s[1..])
  }
}

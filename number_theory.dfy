/**
 * Integer helpers of the equation balancer (components/tools/EquationBalancer.tsx:123-132):
 * absolute value, Euclid's gcd with its "1 when both are zero" convention, and the lcm that
 * scales the null-space vector to integers. BigInt is unbounded, so `int` is exact here;
 * BigInt `/` truncates toward zero and is written out as TDiv.
 */
module NumberTheory {

  /** bigAbs */
  function Abs(a: int): (r: nat)
    ensures r == a || r == -a
  {
    if a < 0 then -a else a
  }

  /** Euclid's algorithm on non-negative integers; Gcd(0, 0) == 0. */
  function Gcd(a: nat, b: nat): nat
    decreases b
  {
    if b == 0 then a else Gcd(b, a % b)
  }

  /** k > 0 divides a. */
  predicate Divides(k: int, a: int)
  {
    k > 0 && a % k == 0
  }

  /** BigInt division: truncates toward zero for either sign. */
  function TDiv(a: int, b: int): (q: int)
    requires b != 0
    ensures Divides(Abs(b), Abs(a)) ==> q * b == a
  {
    var q0 := Abs(a) / Abs(b);
    if (a < 0) != (b < 0) then
      DivideExactly(Abs(b), Abs(a)); -q0
    else
      DivideExactly(Abs(b), Abs(a)); q0
  }

  /**
   * bigGcd as a function: gcd(|a|, |b|), except that two zeros give 1 (the `a || 1n`).
   * The result is positive, divides both arguments and is divided by every common divisor.
   */
  function GcdOr1(a: int, b: int): (g: nat)
    ensures g > 0
    ensures Divides(g, a) && Divides(g, b)
    ensures a == 0 && b == 0 ==> g == 1
    ensures a != 0 || b != 0 ==> g == Gcd(Abs(a), Abs(b))
    ensures forall k :: Divides(k, a) && Divides(k, b) && (a != 0 || b != 0) ==> Divides(k, g)
  {
    var g := Gcd(Abs(a), Abs(b));
    if g == 0 then
      GcdZero(Abs(a), Abs(b)); 1
    else
      GcdDivides(Abs(a), Abs(b));
      DividesAbs(g, a);
      DividesAbs(g, b);
      assert forall k :: Divides(k, a) && Divides(k, b) && (a != 0 || b != 0) ==> Divides(k, g) by {
        forall k | Divides(k, a) && Divides(k, b) && (a != 0 || b != 0)
          ensures Divides(k, g)
        {
          DividesAbs(k, a);
          DividesAbs(k, b);
          CommonDivisorDividesGcd(k, Abs(a), Abs(b));
        }
      }
      g
  }

  /**
   * bigGcd: the while loop of the source, proved to compute GcdOr1.
   */
  method BigGcd(a: int, b: int) returns (g: int)
    ensures g == GcdOr1(a, b)
    ensures g > 0 && Divides(g, a) && Divides(g, b)
  {
    var x: nat, y: nat := Abs(a), Abs(b);
    while y != 0
      invariant Gcd(x, y) == Gcd(Abs(a), Abs(b))
      decreases y
    {
      var t := y;
      y := x % y;
      x := t;
    }
    g := if x == 0 then 1 else x;
  }

  /**
   * bigLcm: 0 when either argument is 0, otherwise |a / gcd(a, b) * b|.
   * For non-zero arguments the result is a positive common multiple of |a| and |b|.
   */
  function Lcm(a: int, b: int): (l: nat)
    ensures l == 0 <==> a == 0 || b == 0
    ensures a != 0 && b != 0 ==> Divides(Abs(a), l) && Divides(Abs(b), l)
  {
    if a == 0 || b == 0 then 0
    else
      var g := GcdOr1(a, b);
      DividesAbs(g, a);
      var a' := TDiv(a, g);
      assert a' * g == a;
      assert a' != 0;
      var l := Abs(a' * b);
      LcmDivisible(a, b, g, a');
      l
  }

  // ---------------------------------------------------------------------------
  // Lemmas

  lemma {:induction false} MulNonneg(x: int, y: int)
    requires x >= 0 && y >= 0
    ensures x * y >= 0
  {
  }

  lemma {:induction false} SmallMultipleIsZero(x: int, k: int)
    requires k > 0 && -k < x * k < k
    ensures x == 0
  {
    if x > 0 {
      MulNonneg(x - 1, k);
      assert false;
    } else if x < 0 {
      MulNonneg(-x - 1, k);
      assert false;
    }
  }

  /** Euclidean division is determined by its defining equation. */
  lemma {:induction false} DivModUnique(a: int, k: int, q: int, r: int)
    requires k > 0 && a == q * k + r && 0 <= r < k
    ensures a / k == q && a % k == r
  {
    var q0, r0 := a / k, a % k;
    assert (q - q0) * k == r0 - r;
    SmallMultipleIsZero(q - q0, k);
  }

  lemma {:induction false} DividesByWitness(k: int, a: int, q: int)
    requires k > 0 && a == k * q
    ensures Divides(k, a) && a / k == q
  {
    DivModUnique(a, k, q, 0);
  }

  lemma {:induction false} DividesWitness(k: int, a: int)
    requires Divides(k, a)
    ensures a == k * (a / k)
  {
  }

  /** When k divides a, Euclidean and truncating division agree with the exact quotient. */
  lemma {:induction false} DivideExactly(k: nat, a: nat)
    requires k > 0
    ensures Divides(k, a) ==> (a / k) * k == a
  {
  }

  lemma {:induction false} DividesAbs(k: int, a: int)
    ensures Divides(k, a) <==> Divides(k, Abs(a))
  {
    if k > 0 && a < 0 {
      if Divides(k, a) {
        DividesByWitness(k, -a, -(a / k));
      }
      if Divides(k, -a) {
        DividesByWitness(k, a, -((-a) / k));
      }
    }
  }

  lemma {:induction false} DividesLinear(k: int, x: int, y: int, u: int, v: int)
    requires Divides(k, x) && Divides(k, y)
    ensures Divides(k, u * x + v * y)
  {
    var x', y' := x / k, y / k;
    assert x == k * x';
    assert y == k * y';
    assert u * x + v * y == k * (u * x' + v * y');
    DividesByWitness(k, u * x + v * y, u * x' + v * y');
  }

  lemma {:induction false} DividesMultiple(k: int, a: int, c: int)
    requires Divides(k, a)
    ensures Divides(k, a * c)
  {
    DividesLinear(k, a, 0, c, 0);
  }

  lemma {:induction false} DividesTrans(a: int, b: int, c: int)
    requires Divides(a, b) && Divides(b, c)
    ensures Divides(a, c)
  {
    var b', c' := b / a, c / b;
    assert c == (a * b') * c';
    assert c == a * (b' * c');
    DividesByWitness(a, c, b' * c');
  }

  lemma {:induction false} DividesLe(k: int, a: int)
    requires Divides(k, a) && a > 0
    ensures k <= a
  {
    var q := a / k;
    assert a == k * q;
    if q <= 0 {
      MulNonneg(k, -q);
      assert false;
    }
    MulNonneg(k, q - 1);
    assert a == k * (q - 1) + k;
  }

  lemma {:induction false} MulCancel(g: int, x: int, y: int)
    requires g > 0 && g * x == g * y
    ensures x == y
  {
    assert (x - y) * g == 0;
    SmallMultipleIsZero(x - y, g);
  }

  lemma {:induction false} GcdZero(a: nat, b: nat)
    requires Gcd(a, b) == 0
    ensures a == 0 && b == 0
  {
    if b != 0 {
      GcdPositive(b, a % b);
    }
  }

  lemma {:induction false} GcdPositive(a: nat, b: nat)
    requires a > 0
    ensures Gcd(a, b) > 0
    decreases b
  {
    if b != 0 {
      GcdPositive(b, a % b);
    }
  }

  /** The gcd divides both arguments. */
  lemma {:induction false} GcdDivides(a: nat, b: nat)
    requires a > 0 || b > 0
    ensures Gcd(a, b) > 0 && Divides(Gcd(a, b), a) && Divides(Gcd(a, b), b)
    decreases b
  {
    if b == 0 {
      DividesByWitness(a, a, 1);
      DividesByWitness(a, 0, 0);
    } else {
      GcdDivides(b, a % b);
      var g := Gcd(b, a % b);
      assert a == (a / b) * b + a % b;
      DividesLinear(g, b, a % b, a / b, 1);
    }
  }

  /** Bezout's identity, by following Euclid's recursion. */
  lemma {:induction false} Bezout(a: nat, b: nat) returns (s: int, t: int)
    ensures s * a + t * b == Gcd(a, b)
    decreases b
  {
    if b == 0 {
      s, t := 1, 0;
    } else {
      var s', t' := Bezout(b, a % b);
      var q := a / b;
      assert a % b == a - q * b;
      s, t := t', s' - t' * q;
      calc {
        s * a + t * b;
        t' * a + s' * b - t' * q * b;
        s' * b + t' * (a - q * b);
        s' * b + t' * (a % b);
      }
    }
  }

  /** Every common divisor divides the gcd. */
  lemma {:induction false} CommonDivisorDividesGcd(k: int, a: nat, b: nat)
    requires Divides(k, a) && Divides(k, b)
    ensures Divides(k, Gcd(a, b))
  {
    var s, t := Bezout(a, b);
    DividesLinear(k, a, b, s, t);
  }

  /** Euclid's lemma in the form used twice below: a coprime factor can be cancelled. */
  lemma {:induction false} CoprimeCancel(k: int, n: nat, d: nat, c: int)
    requires Gcd(n, d) == 1
    requires Divides(k, n * c) && Divides(k, d * c)
    ensures Divides(k, c)
  {
    var s, t := Bezout(n, d);
    DividesLinear(k, n * c, d * c, s, t);
    assert s * (n * c) + t * (d * c) == (s * n + t * d) * c;
  }

  lemma {:induction false} ScaledBezout(g: int, a': int, b': int, s: int, t: int)
    requires g > 0 && s * (g * a') + t * (g * b') == g
    ensures s * a' + t * b' == 1
  {
    assert s * (g * a') + t * (g * b') == g * (s * a' + t * b');
    MulCancel(g, s * a' + t * b', 1);
  }

  /** Dividing two numbers by their gcd leaves coprime quotients. */
  lemma {:induction false} GcdQuotientsCoprime(a: nat, b: nat) returns (g: nat)
    requires a > 0 || b > 0
    ensures g == Gcd(a, b) && g > 0 && a / g >= 0 && b / g >= 0 && Gcd(a / g, b / g) == 1
  {
    g := Gcd(a, b);
    GcdDivides(a, b);
    var s, t := Bezout(a, b);
    CoprimeAfterDivision(a, b, g, s, t);
  }

  lemma {:induction false} CoprimeAfterDivision(a: nat, b: nat, g: int, s: int, t: int)
    requires Divides(g, a) && Divides(g, b) && s * a + t * b == g
    ensures a / g >= 0 && b / g >= 0 && Gcd(a / g, b / g) == 1
  {
    var a', b' := a / g, b / g;
    DividesWitness(g, a);
    DividesWitness(g, b);
    assert s * (g * a') + t * (g * b') == g;
    ScaledBezout(g, a', b', s, t);
    QuotientsCoprime(a', b', s, t);
  }

  lemma {:induction false} QuotientsCoprime(a': int, b': int, s: int, t: int)
    requires a' >= 0 && b' >= 0 && s * a' + t * b' == 1
    ensures Gcd(a', b') == 1
  {
    assert a' > 0 || b' > 0;
    var h := Gcd(a', b');
    GcdDivides(a', b');
    DividesLinear(h, a', b', s, t);
    DividesLe(h, 1);
  }

  lemma {:induction false} AbsMul(x: int, y: int)
    ensures Abs(x * y) == Abs(x) * Abs(y)
  {
    if x < 0 && y >= 0 {
      assert x * y == -((-x) * y);
    } else if x >= 0 && y < 0 {
      assert x * y == -(x * (-y));
    } else if x < 0 && y < 0 {
      assert x * y == (-x) * (-y);
    }
  }

  lemma {:induction false} LcmDivisible(a: int, b: int, g: int, a': int)
    requires a != 0 && b != 0 && g > 0 && a' * g == a && Divides(g, b)
    ensures Divides(Abs(a), Abs(a' * b)) && Divides(Abs(b), Abs(a' * b))
  {
    var b' := b / g;
    assert b == g * b';
    assert a' * b == a * b';
    AbsMul(a, b');
    AbsMul(a', b);
    DividesByWitness(Abs(a), Abs(a' * b), Abs(b'));
    DividesByWitness(Abs(b), Abs(a' * b), Abs(a'));
  }

  /** The lcm of two positive numbers divides each of their common multiples. */
  lemma {:induction false} LcmLeast(a: int, b: int, m: int)
    requires a > 0 && b > 0 && Divides(a, m) && Divides(b, m)
    ensures Divides(Lcm(a, b), m)
  {
    var g := GcdQuotientsCoprime(a, b);
    assert g == GcdOr1(a, b);
    var a', b' := a / g, b / g;
    DividesWitness(g, a);
    DividesWitness(g, b);
    assert TDiv(a, g) == a';
    assert Lcm(a, b) == Abs(a' * b);
    MulNonneg(a', b);
    assert Lcm(a, b) == a' * b;
    var u, v := m / a, m / b;
    DividesWitness(a, m);
    DividesWitness(b, m);
    LcmLeastStep(a, b, g, a', b', m, u, v);
  }

  lemma {:induction false} LcmLeastStep(a: int, b: int, g: int, a': int, b': int, m: int, u: int, v: int)
    requires g > 0 && a' > 0 && b' > 0 && a == g * a' && b == g * b'
    requires Gcd(a', b') == 1
    requires m == a * u && m == b * v
    ensures Divides(a' * b, m)
  {
    CancelCommon(g, a', b', u, v);
    DividesByWitness(b', a' * u, v);
    DividesByWitness(b', b' * u, u);
    CoprimeCancel(b', a', b', u);
    var w := u / b';
    DividesWitness(b', u);
    Regroup(g, a', b', w);
    MulNonneg(a', b);
    DividesByWitness(a' * b, m, w);
  }

  lemma {:induction false} CancelCommon(g: int, a': int, b': int, u: int, v: int)
    requires g > 0 && (g * a') * u == (g * b') * v
    ensures a' * u == b' * v
  {
    assert (g * a') * u == g * (a' * u);
    assert (g * b') * v == g * (b' * v);
    MulCancel(g, a' * u, b' * v);
  }

  lemma {:induction false} Regroup(g: int, a': int, b': int, w: int)
    ensures (g * a') * (b' * w) == (a' * (g * b')) * w
  {
  }
}

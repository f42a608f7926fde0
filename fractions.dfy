/**
 * The exact fraction of the equation balancer (components/tools/EquationBalancer.tsx:134-156).
 * A Frac is a numerator/denominator pair of unbounded integers. The source's constructor rejects
 * a zero denominator and then normalizes in place; since the object is not visible before that,
 * the pair is modelled as a value and normalization as the pure function Normalize. NFrac is the
 * type of normalized fractions: denominator positive, numerator and denominator coprime.
 */
module Fractions {
  import opened NumberTheory
  import opened Wrappers

  datatype Frac = Frac(n: int, d: int)

  datatype FracError = DivideByZero

  /** The normal form every constructed Frac is held in; zero is 0/1. */
  predicate Normal(f: Frac)
  {
    f.d > 0 && Gcd(Abs(f.n), f.d) == 1
  }

  type NFrac = f: Frac | Normal(f) witness Frac(0, 1)

  /** The rational number a fraction denotes. */
  function Val(f: Frac): real
  {
    if f.d == 0 then 0.0 else f.n as real / f.d as real
  }

  /** normalize(): move the sign to the numerator, then divide both parts by bigGcd(n, d). */
  function Normalize(n: int, d: int): (r: NFrac)
    requires d != 0
    ensures Val(r) == n as real / d as real
    ensures r.n == 0 <==> n == 0
  {
    var n1 := if d < 0 then -n else n;
    var d1 := if d < 0 then -d else d;
    var g := GcdOr1(n1, d1);
    NormalizeIsNormal(n1, d1, g);
    Frac(TDiv(n1, g), TDiv(d1, g))
  }

  /** new Frac(n, d): "Divide by zero" for d == 0, otherwise the normalized fraction n/d. */
  function MakeFrac(n: int, d: int): (r: Result<NFrac, FracError>)
    ensures r.Err? <==> d == 0
    ensures r.Ok? ==> Val(r.value) == n as real / d as real
  {
    if d == 0 then Err(DivideByZero) else Ok(Normalize(n, d))
  }

  /** Frac.zero() */
  function Zero(): (r: NFrac)
    ensures Val(r) == 0.0
  {
    Frac(0, 1)
  }

  /** Frac.one() */
  function One(): (r: NFrac)
    ensures Val(r) == 1.0
  {
    Frac(1, 1)
  }

  /** An integer as a fraction with denominator 1, as `new Frac(v, 1n)` builds it. */
  function FromInt(v: int): (r: NFrac)
    ensures Val(r) == v as real
  {
    Normalize(v, 1)
  }

  function Add(a: NFrac, b: NFrac): (r: NFrac)
    ensures Val(r) == Val(a) + Val(b)
  {
    MulPositive(a.d, b.d);
    SumValue(a.n, a.d, b.n, b.d);
    Normalize(a.n * b.d + b.n * a.d, a.d * b.d)
  }

  function Sub(a: NFrac, b: NFrac): (r: NFrac)
    ensures Val(r) == Val(a) - Val(b)
  {
    MulPositive(a.d, b.d);
    DifferenceValue(a.n, a.d, b.n, b.d);
    Normalize(a.n * b.d - b.n * a.d, a.d * b.d)
  }

  function Mul(a: NFrac, b: NFrac): (r: NFrac)
    ensures Val(r) == Val(a) * Val(b)
  {
    MulPositive(a.d, b.d);
    ProductValue(a.n, a.d, b.n, b.d);
    Normalize(a.n * b.n, a.d * b.d)
  }

  /** a.div(b): the constructor throws "Divide by zero" exactly when b is zero. */
  function Div(a: NFrac, b: NFrac): (r: Result<NFrac, FracError>)
    ensures r.Err? <==> Val(b) == 0.0
    ensures r.Ok? ==> Val(r.value) == Val(a) / Val(b)
  {
    ZeroIffNumeratorZero(b);
    QuotientValue(a.n, a.d, b.n, b.d);
    MulZero(a.d, b.n);
    MakeFrac(a.n * b.d, a.d * b.n)
  }

  function Neg(a: NFrac): (r: NFrac)
    ensures Val(r) == -Val(a)
  {
    NegValue(a.n, a.d);
    Normalize(-a.n, a.d)
  }

  function IsZero(a: NFrac): (r: bool)
    ensures r <==> Val(a) == 0.0
  {
    ZeroIffNumeratorZero(a);
    a.n == 0
  }

  /** eq(): field-wise comparison, which is value equality because of the normal form. */
  function Eq(a: NFrac, b: NFrac): (r: bool)
    ensures r <==> Val(a) == Val(b)
  {
    SameValueSamePair(a, b);
    a.n == b.n && a.d == b.d
  }

  // ---------------------------------------------------------------------------
  // Lemmas

  lemma {:induction false} MulPositive(x: int, y: int)
    requires x > 0 && y > 0
    ensures x * y > 0
  {
    MulNonneg(x - 1, y);
    assert x * y == (x - 1) * y + y;
  }

  lemma {:induction false} MulZero(x: int, y: int)
    requires x != 0
    ensures x * y == 0 <==> y == 0
  {
    if y != 0 && x * y == 0 {
      AbsMul(x, y);
      MulPositive(Abs(x), Abs(y));
      assert false;
    }
  }

  lemma {:induction false} ZeroIffNumeratorZero(a: NFrac)
    ensures Val(a) == 0.0 <==> a.n == 0
  {
  }

  lemma {:induction false} NegValue(n: int, d: int)
    requires d > 0
    ensures (-n) as real / d as real == -(n as real / d as real)
  {
  }

  lemma {:induction false} SumValue(n1: int, d1: int, n2: int, d2: int)
    requires d1 > 0 && d2 > 0
    ensures (n1 * d2 + n2 * d1) as real / (d1 * d2) as real == n1 as real / d1 as real + n2 as real / d2 as real
  {
  }

  lemma {:induction false} DifferenceValue(n1: int, d1: int, n2: int, d2: int)
    requires d1 > 0 && d2 > 0
    ensures (n1 * d2 - n2 * d1) as real / (d1 * d2) as real == n1 as real / d1 as real - n2 as real / d2 as real
  {
  }

  lemma {:induction false} ProductValue(n1: int, d1: int, n2: int, d2: int)
    requires d1 > 0 && d2 > 0
    ensures (n1 * n2) as real / (d1 * d2) as real == (n1 as real / d1 as real) * (n2 as real / d2 as real)
  {
  }

  lemma {:induction false} QuotientValue(n1: int, d1: int, n2: int, d2: int)
    requires d1 > 0 && d2 > 0
    ensures n2 != 0 ==> (n1 * d2) as real / (d1 * n2) as real == (n1 as real / d1 as real) / (n2 as real / d2 as real)
  {
    MulZero(d1, n2);
  }

  lemma {:induction false} TDivAbs(a: int, g: int)
    requires g > 0
    ensures Abs(TDiv(a, g)) == Abs(a) / g
    ensures TDiv(a, g) == 0 <==> Abs(a) / g == 0
  {
    var q := Abs(a) / g;
    assert q >= 0;
    TDivValue(a, g);
  }

  lemma {:induction false} TDivValue(a: int, g: int)
    requires g > 0
    ensures TDiv(a, g) == if a < 0 then -(Abs(a) / g) else Abs(a) / g
  {
    assert Abs(g) == g;
  }

  lemma {:induction false} ScaleCancels(p: int, q: int, g: int)
    requires q != 0 && g > 0
    ensures (p * g) as real / (q * g) as real == p as real / q as real
  {
  }

  lemma {:induction false} NormalizeIsNormal(n1: int, d1: int, g: int)
    requires d1 > 0 && g == GcdOr1(n1, d1)
    ensures Normal(Frac(TDiv(n1, g), TDiv(d1, g)))
    ensures Val(Frac(TDiv(n1, g), TDiv(d1, g))) == n1 as real / d1 as real
    ensures TDiv(n1, g) == 0 <==> n1 == 0
  {
    var h := GcdQuotientsCoprime(Abs(n1), d1);
    assert h == g;
    TDivAbs(n1, g);
    TDivAbs(d1, g);
    DividesAbs(g, n1);
    var p, q := TDiv(n1, g), TDiv(d1, g);
    assert p * g == n1 && q * g == d1;
    assert q > 0 by {
      if q <= 0 {
        MulNonneg(-q, g);
        assert false;
      }
    }
    ScaleCancels(p, q, g);
    if p == 0 {
      assert n1 == 0;
    }
  }

  lemma {:induction false} CrossMultiply(n1: int, d1: int, n2: int, d2: int)
    requires d1 > 0 && d2 > 0
    requires n1 as real / d1 as real == n2 as real / d2 as real
    ensures n1 * d2 == n2 * d1
  {
    assert (n1 * d2) as real == (n2 * d1) as real;
  }

  /** Two normalized fractions with the same value are the same pair. */
  lemma {:induction false} NormalFormUnique(a: NFrac, b: NFrac)
    requires Val(a) == Val(b)
    ensures a == b
  {
    CrossMultiply(a.n, a.d, b.n, b.d);
    DenominatorDivides(a, b);
    DenominatorDivides(b, a);
    DividesLe(a.d, b.d);
    DividesLe(b.d, a.d);
    assert a.n * a.d == b.n * a.d;
    assert a.d * a.n == a.d * b.n;
    MulCancel(a.d, a.n, b.n);
  }

  /** Equality of normalized fractions is equality of the rationals they denote. */
  lemma {:induction false} SameValueSamePair(a: NFrac, b: NFrac)
    ensures Val(a) == Val(b) <==> a == b
  {
    if Val(a) == Val(b) {
      NormalFormUnique(a, b);
    }
  }

  lemma {:induction false} DenominatorDivides(a: NFrac, b: NFrac)
    requires a.n * b.d == b.n * a.d
    ensures Divides(a.d, b.d)
  {
    DividesByWitness(a.d, a.n * b.d, b.n);
    DividesAbs(a.d, a.n * b.d);
    AbsMul(a.n, b.d);
    DividesByWitness(a.d, a.d * b.d, b.d);
    CoprimeCancel(a.d, Abs(a.n), a.d, b.d);
  }
}

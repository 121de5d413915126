/** Evaluation of a polynomial by Horner's rule, in fixed-point arithmetic. */
module Horner {
  import opened MachineInt
  import opened RealFacts
  import opened FixedMultiply

  // ---------------------------------------------------------------- specification

  function Power(t: real, k: nat): real {
    if k == 0 then 1.0 else t * Power(t, k - 1)
  }

  /** The sum of c[i] * t^i. */
  function Polynomial(c: seq<int>, t: real): real {
    if c == [] then 0.0 else Polynomial(c[..|c| - 1], t) + c[|c| - 1] as real * Power(t, |c| - 1)
  }

  function Onto(c: int, t: real, v: real): real { c as real + t * v }

  function Nested(c: seq<int>, t: real): real {
    if c == [] then 0.0 else Onto(c[0], t, Nested(c[1..], t))
  }

  lemma {:induction false} NestedLast(c: seq<int>, t: real)
    requires c != []
    ensures Nested(c, t) == Nested(c[..|c| - 1], t) + c[|c| - 1] as real * Power(t, |c| - 1)
  {
    if |c| == 1 {
      assert Nested(c[1..], t) == 0.0 && c[..0] == [];
    } else {
      var d, last := c[1..], c[|c| - 1] as real;
      NestedLast(d, t);
      assert d[..|d| - 1] == c[..|c| - 1][1..];
      Distribute(t, Nested(d[..|d| - 1], t), last, Power(t, |d| - 1));
    }
  }

  lemma Distribute(t: real, a: real, b: real, p: real)
    ensures t * (a + b * p) == t * a + b * (t * p)
  {
    assert t * (b * p) == b * (t * p);
  }

  /** Nesting the products computes the polynomial. */
  lemma {:induction false} NestedIsPolynomial(c: seq<int>, t: real)
    ensures Nested(c, t) == Polynomial(c, t)
  {
    if c != [] {
      NestedLast(c, t);
      NestedIsPolynomial(c[..|c| - 1], t);
    }
  }

  // ---------------------------------------------------------------- the rounded evaluation

  function Magnitude(c: seq<int>): nat {
    if c == [] then 0 else Abs(c[0]) + Magnitude(c[1..])
  }

  predicate AllS32(c: seq<int>) { forall i :: 0 <= i < |c| ==> InS32(c[i]) }

  /** What the loop leaves in its accumulator. */
  function Rounded(c: seq<int>, x: int): (r: int)
    requires c != [] && AllS32(c) && InS32(x)
    ensures InS32(r)
  {
    if |c| == 1 then c[0] else RoundedOnto(c[0], x, Rounded(c[1..], x))
  }

  function RoundedOnto(c: int, x: int, a: int): (r: int)
    requires InS32(x) && InS32(a)
    ensures InS32(r)
  {
    S32(FracMul(x, a) + c)
  }

  /** A product with a factor of at most one rounds without growing. */
  lemma ProductShrinks(x: int, a: int)
    requires Abs(x) <= 0x4000_0000 && InS32(a) && a > INT32_MIN
    ensures Abs(FracMul(x, a)) <= Abs(a)
    ensures 2 * Abs(0x4000_0000 * FracMul(x, a) - x * a) <= 0x4000_0000
  {
    Pow2Values();
    MagnitudeOf(x, a);
    RoundedShrinks(x * a, Abs(a));
  }

  lemma MagnitudeOf(x: int, a: int)
    requires Abs(x) <= 0x4000_0000
    ensures Abs(x * a) <= 0x4000_0000 * Abs(a)
  {
    assert Abs(x * a) == Abs(x) * Abs(a);
    MulMonotone(Abs(a), Abs(x), 0x4000_0000);
  }

  lemma RoundedShrinks(p: int, a: int)
    requires a <= INT32_MAX && Abs(p) <= 0x4000_0000 * a
    ensures Abs(RoundHalfUp(p, 0x4000_0000)) <= a && ClampS32(RoundHalfUp(p, 0x4000_0000)) == RoundHalfUp(p, 0x4000_0000)
  {}

  /** As long as the coefficients add up to a 32-bit magnitude nothing overflows, and the
      result is within half a unit per degree of the polynomial. */
  lemma {:induction false} RoundedNear(c: seq<int>, x: int, t: real)
    requires c != [] && AllS32(c) && Magnitude(c) <= INT32_MAX && Abs(x) <= 0x4000_0000 && t == x as real / 1073741824.0
    ensures Abs(Rounded(c, x)) <= Magnitude(c)
    ensures RAbs(Rounded(c, x) as real - Nested(c, t)) <= (|c| - 1) as real / 2.0
  {
    if |c| == 1 {
      OneCoefficient(c, t);
    } else {
      var d := c[1..];
      RoundedNear(d, x, t);
      OneStep(c[0], Magnitude(d), x, t, Rounded(d, x), Nested(d, t), (|d| - 1) as real / 2.0);
    }
  }

  lemma OneCoefficient(c: seq<int>, t: real)
    requires |c| == 1
    ensures Nested(c, t) == c[0] as real && Magnitude(c) == Abs(c[0])
  {
    assert c[1..] == [];
  }

  lemma OneStep(c0: int, m: nat, x: int, t: real, a: int, v: real, e: real)
    requires InS32(a) && Abs(x) <= 0x4000_0000 && t == x as real / 1073741824.0 && Abs(a) <= m && Abs(c0) + m <= INT32_MAX
    requires RAbs(a as real - v) <= e
    ensures var r := RoundedOnto(c0, x, a);
            Abs(r) <= Abs(c0) + m && RAbs(r as real - Onto(c0, t, v)) <= e + 0.5
  {
    ProductShrinks(x, a);
    StepError(x, a, FracMul(x, a), t, v, e);
  }

  lemma StepError(x: int, a: int, p: int, t: real, v: real, e: real)
    requires Abs(x) <= 0x4000_0000 && t == x as real / 1073741824.0 && RAbs(a as real - v) <= e
    requires 2 * Abs(0x4000_0000 * p - x * a) <= 0x4000_0000
    ensures RAbs(p as real - t * v) <= e + 0.5
  {
    RoundingError(x, a, p, t, x * a);
    SmallFactor(t, a as real - v, e);
    Split(t, a as real, v);
    TriangleBound(p as real - t * v, p as real - t * a as real, -(t * (a as real - v)), 0.5, e);
  }

  lemma Split(t: real, a: real, v: real)
    ensures t * (a - v) == t * a - t * v
  {}

  lemma RoundingError(x: int, a: int, p: int, t: real, xa: int)
    requires xa == x * a && t == x as real / 1073741824.0 && 2 * Abs(0x4000_0000 * p - xa) <= 0x4000_0000
    ensures RAbs(p as real - t * a as real) <= 0.5
  {
    CastProduct(x, a);
    Divided(x as real, a as real, t);
    CloseEnough(p, xa);
  }

  lemma Divided(x: real, a: real, t: real)
    requires t == x / 1073741824.0
    ensures t * a == x * a / 1073741824.0
  {}

  lemma CloseEnough(p: int, xa: int)
    requires 2 * Abs(0x4000_0000 * p - xa) <= 0x4000_0000
    ensures RAbs(p as real - xa as real / 1073741824.0) <= 0.5
  {}

  lemma SmallFactor(t: real, d: real, e: real)
    requires -1.0 <= t <= 1.0 && RAbs(d) <= e
    ensures RAbs(t * d) <= e
  {
    RealProductAtMost(t, d, 1.0, e);
  }

  /** FskFixedHorner: from the highest coefficient down to the first. */
  method FixedHorner(coeff: array<int>, order: nat, x: int) returns (acc: int)
    requires 0 < order <= coeff.Length && AllS32(coeff[..order]) && InS32(x)
    ensures acc == Rounded(coeff[..order], x)
    ensures Tracks(acc, coeff[..order], x)
  {
    ghost var c := coeff[..order];
    var at := order - 1;
    acc := coeff[at];
    assert c[at..] == [acc];
    while at != 0
      invariant 0 <= at < order && acc == Rounded(c[at..], x)
    {
      at := at - 1;
      assert c[at..][1..] == c[at + 1..];
      acc := RoundedOnto(coeff[at], x, acc);
    }
    assert c[0..] == c;
    RoundedTracks(c, x);
  }

  lemma RoundedTracks(c: seq<int>, x: int)
    requires c != [] && AllS32(c) && InS32(x)
    ensures Tracks(Rounded(c, x), c, x)
  {
    if Magnitude(c) <= INT32_MAX && Abs(x) <= 0x4000_0000 {
      RoundedNear(c, x, x as real / 1073741824.0);
      NestedIsPolynomial(c, x as real / 1073741824.0);
    }
  }

  /** For a parameter from -1 to 1, and coefficients that cannot overflow in sum, r is
      within half a unit per degree of the polynomial. */
  ghost predicate Tracks(r: int, c: seq<int>, x: int)
    requires c != []
  {
    Magnitude(c) <= INT32_MAX && Abs(x) <= 0x4000_0000 ==>
      RAbs(r as real - Polynomial(c, x as real / 1073741824.0)) <= (|c| - 1) as real / 2.0
  }
}

/** Facts about real arithmetic that the error bounds are made of. */
module RealFacts {

  function RAbs(x: real): real { if x < 0.0 then -x else x }

  lemma CastProduct(a: int, b: int)
    ensures (a * b) as real == a as real * b as real
  {}

  lemma RealMonotone(r: real, a: real, b: real)
    requires r >= 0.0 && a <= b
    ensures r * a <= r * b
  {}

  lemma RealMagnitude(x: real, y: real)
    ensures RAbs(x * y) == RAbs(x) * RAbs(y)
  {}

  lemma RealProductAtMost(x: real, y: real, a: real, b: real)
    requires RAbs(x) <= a && RAbs(y) <= b
    ensures RAbs(x * y) <= a * b
  {
    RealMagnitude(x, y);
    RealMonotone(RAbs(x), RAbs(y), b);
    RealMonotone(b, RAbs(x), a);
  }

  lemma TriangleBound(t: real, p: real, q: real, pb: real, qb: real)
    requires t == p - q && RAbs(p) <= pb && RAbs(q) <= qb
    ensures RAbs(t) <= pb + qb
  {}
}

/**
 Integer arithmetic modulo m as crypto.ts does it on BigInt values: the remainder operator that
 keeps the dividend's sign, the non-negative `mod` built on it, square-and-multiply and the
 Fermat inverse, with the prime-field facts the curve needs.
 */
module ModularArithmetic {

  // ---------- Operators of the source ----------

  /** JavaScript's BigInt `%`: the result has the sign of the dividend. */
  function Rem(a: int, m: int): int
    requires m > 0
  {
    if 0 <= a then a % m else -((-a) % m)
  }

  function Mod(a: int, m: int): (r: int)
    requires m > 0
  {
    Rem(Rem(a, m) + m, m)
  }

  function Pow(b: int, e: nat): int {
    if e == 0 then 1 else b * Pow(b, e - 1)
  }

  /** The value that `modInverse` computes, by Fermat's little theorem an inverse when m is prime. */
  function Inverse(a: int, m: int): int
    requires m > 1
  {
    Mod(Pow(a, m - 2), m)
  }

  // ---------- Congruence to zero ----------

  ghost predicate Zero(x: int, m: int)
    requires m > 0
  {
    x % m == 0
  }

  lemma MultipleSize(m: int, k: int)
    requires m > 0
    ensures k >= 1 ==> m * k >= m
    ensures k <= -1 ==> m * k <= -m
  {
  }

  lemma MultipleIsZero(x: int, m: int, k: int)
    requires m > 0 && x == m * k
    ensures Zero(x, m)
  {
    var q, r := x / m, x % m;
    assert x == m * q + r;
    assert m * (k - q) == r;
    MultipleSize(m, k - q);
  }

  lemma ZeroQuotient(x: int, m: int) returns (k: int)
    requires m > 0 && Zero(x, m)
    ensures x == m * k
  {
    k := x / m;
  }

  lemma ZeroMul(x: int, y: int, m: int)
    requires m > 0 && Zero(x, m)
    ensures Zero(x * y, m) && Zero(y * x, m)
  {
    var k := ZeroQuotient(x, m);
    assert x * y == m * (k * y);
    MultipleIsZero(x * y, m, k * y);
  }

  lemma ZeroAdd(x: int, y: int, m: int)
    requires m > 0 && Zero(x, m) && Zero(y, m)
    ensures Zero(x + y, m) && Zero(x - y, m) && Zero(-x, m)
  {
    var k := ZeroQuotient(x, m);
    var l := ZeroQuotient(y, m);
    assert x + y == m * (k + l) && x - y == m * (k - l) && -x == m * (-k);
    MultipleIsZero(x + y, m, k + l);
    MultipleIsZero(x - y, m, k - l);
    MultipleIsZero(-x, m, -k);
  }

  /** An integer combination of vanishing terms vanishes. */
  lemma Combine(x: int, q1: int, c1: int, q2: int, c2: int, m: int)
    requires m > 0 && Zero(c1, m) && Zero(c2, m)
    requires x == q1 * c1 + q2 * c2
    ensures Zero(x, m)
  {
    ZeroMul(c1, q1, m);
    ZeroMul(c2, q2, m);
    ZeroAdd(q1 * c1, q2 * c2, m);
  }

  lemma Combine3(x: int, q1: int, c1: int, q2: int, c2: int, q3: int, c3: int, m: int)
    requires m > 0 && Zero(c1, m) && Zero(c2, m) && Zero(c3, m)
    requires x == q1 * c1 + q2 * c2 + q3 * c3
    ensures Zero(x, m)
  {
    Combine(q1 * c1 + q2 * c2, q1, c1, q2, c2, m);
    ZeroMul(c3, q3, m);
    ZeroAdd(q1 * c1 + q2 * c2, q3 * c3, m);
  }

  lemma Combine4(x: int, q1: int, c1: int, q2: int, c2: int, q3: int, c3: int, q4: int, c4: int, m: int)
    requires m > 0 && Zero(c1, m) && Zero(c2, m) && Zero(c3, m) && Zero(c4, m)
    requires x == q1 * c1 + q2 * c2 + q3 * c3 + q4 * c4
    ensures Zero(x, m)
  {
    Combine(q1 * c1 + q2 * c2, q1, c1, q2, c2, m);
    Combine(q3 * c3 + q4 * c4, q3, c3, q4, c4, m);
    ZeroAdd(q1 * c1 + q2 * c2, q3 * c3 + q4 * c4, m);
  }

  /** Vanishing modulo m is equality once both sides are reduced. */
  lemma ReducedEqual(a: int, b: int, m: int)
    requires m > 0 && 0 <= a < m && 0 <= b < m && Zero(a - b, m)
    ensures a == b
  {
    var k := ZeroQuotient(a - b, m);
    MultipleSize(m, k);
  }

  lemma EuclidSpec(a: int, m: int)
    requires m > 0
    ensures 0 <= a % m < m && Zero(a - a % m, m)
  {
    assert a - a % m == m * (a / m);
    MultipleIsZero(a - a % m, m, a / m);
  }

  lemma EuclidUnique(a: int, r: int, m: int)
    requires m > 0 && 0 <= r < m && Zero(a - r, m)
    ensures a % m == r
  {
    EuclidSpec(a, m);
    ZeroAdd(a - r, a - a % m, m);
    ReducedEqual(a % m, r, m);
  }

  /** The two-step `mod` of the source is the reduction into [0, m), whatever the sign of a. */
  lemma ModSpec(a: int, m: int)
    requires m > 0
    ensures 0 <= Mod(a, m) < m && Zero(a - Mod(a, m), m)
    ensures Mod(a, m) == a % m
  {
    var r := Rem(a, m);
    assert Zero(a - r, m) by {
      EuclidSpec(a, m);
      EuclidSpec(-a, m);
      ZeroAdd(-a - (-a) % m, 0, m);
    }
    EuclidSpec(a, m);
    EuclidSpec(r + m, m);
    MultipleIsZero(m, m, 1);
    ZeroAdd(a - r, m, m);
    var t := (r + m) % m;
    ZeroAdd(a - r - m, r + m - t, m);
    EuclidUnique(a, t, m);
  }

  lemma ModEqual(a: int, b: int, m: int)
    requires m > 0
    ensures Mod(a, m) == Mod(b, m) <==> Zero(a - b, m)
  {
    ModSpec(a, m);
    ModSpec(b, m);
    var u, v := Mod(a, m), Mod(b, m);
    if u == v {
      Combine(a - b, 1, a - u, -1, b - v, m);
    }
    if Zero(a - b, m) {
      Combine3(u - v, -1, a - u, 1, b - v, 1, a - b, m);
      ReducedEqual(u, v, m);
    }
  }

  lemma ModOfReduced(a: int, m: int)
    requires 0 <= a < m
    ensures Mod(a, m) == a
  {
    ModSpec(a, m);
    ReducedEqual(a, Mod(a, m), m);
  }

  // ---------- Powers ----------

  lemma {:induction false} PowAdd(b: int, e: nat, f: nat)
    ensures Pow(b, e + f) == Pow(b, e) * Pow(b, f)
  {
    if e > 0 {
      PowAdd(b, e - 1, f);
      assert b * (Pow(b, e - 1) * Pow(b, f)) == (b * Pow(b, e - 1)) * Pow(b, f);
    }
  }

  lemma {:induction false} PowSquare(b: int, e: nat)
    ensures Pow(b * b, e) == Pow(b, 2 * e)
  {
    if e > 0 {
      PowSquare(b, e - 1);
      assert Pow(b, 2 * e) == b * (b * Pow(b, 2 * e - 2));
      assert b * (b * Pow(b, 2 * e - 2)) == (b * b) * Pow(b, 2 * e - 2);
    }
  }

  lemma ProductCongruent(a: int, b: int, u: int, v: int, m: int)
    requires m > 0 && Zero(a - b, m) && Zero(u - v, m)
    ensures Zero(a * u - b * v, m)
  {
    assert a * u - b * v == u * (a - b) + b * (u - v);
    Combine(a * u - b * v, u, a - b, b, u - v, m);
  }

  lemma {:induction false} PowCongruent(a: int, b: int, e: nat, m: int)
    requires m > 0 && Zero(a - b, m)
    ensures Zero(Pow(a, e) - Pow(b, e), m)
  {
    if e > 0 {
      PowCongruent(a, b, e - 1, m);
      ProductCongruent(a, b, Pow(a, e - 1), Pow(b, e - 1), m);
    } else {
      MultipleIsZero(0, m, 0);
    }
  }

  /** One bit of the exponent: the odd power keeps one factor, the rest is a power of the square. */
  lemma HalvedPower(r: int, b: int, e: nat)
    requires e > 0
    ensures r * Pow(b, e) == (if e % 2 == 1 then r * b else r) * Pow(b * b, e / 2)
  {
    var h := e / 2;
    PowSquare(b, h);
    if e % 2 == 1 {
      assert Pow(b, e) == b * Pow(b, 2 * h);
      hide Pow;
      assert r * (b * Pow(b, 2 * h)) == (r * b) * Pow(b, 2 * h);
    } else {
      assert e == 2 * h;
      hide Pow;
    }
  }

  lemma Reduction(a: int, m: int)
    requires m > 0
    ensures Zero(a - Mod(a, m), m)
  {
    ModSpec(a, m);
  }

  /** One turn of the loop keeps the product of what is collected and what is still to be raised. */
  lemma SquareStep(r: int, b: int, e: nat, r1: int, b1: int, target: int, m: int)
    requires m > 0 && e > 0 && Zero(r * Pow(b, e) - target, m)
    requires r1 == (if e % 2 == 1 then Mod(r * b, m) else r) && b1 == Mod(b * b, m)
    ensures Zero(r1 * Pow(b1, e / 2) - target, m)
  {
    var full := if e % 2 == 1 then r * b else r;
    HalvedPower(r, b, e);
    Reduction(r * b, m);
    Reduction(b * b, m);
    PowCongruent(b * b, b1, e / 2, m);
    MultipleIsZero(0, m, 0);
    hide Pow, Mod, Zero;
    assert Zero(full - r1, m);
    var u, v := Pow(b * b, e / 2), Pow(b1, e / 2);
    FactorDifferences(r1, full, u, v, target);
    Combine3(r1 * v - target, -v, full - r1, -full, u - v, 1, full * u - target, m);
  }

  lemma FactorDifferences(r: int, full: int, u: int, v: int, target: int)
    ensures r * v - target == (-v) * (full - r) + (-full) * (u - v) + 1 * (full * u - target)
  {
  }

  /** modPow: square and multiply. A non-positive exponent leaves the loop unentered. */
  method ModPow(base: int, exp: int, m: int) returns (result: int)
    requires m > 0
    ensures exp <= 0 ==> result == 1
    ensures exp > 0 ==> result == Pow(base, exp) % m
  {
    result := 1;
    var b, e := Mod(base, m), exp;
    ghost var target := if exp > 0 then Pow(base, exp) else 1;
    if exp > 0 {
      FirstPower(base, exp, m);
    }
    hide Pow, Zero;
    while e > 0
      invariant e > 0 ==> exp > 0
      invariant exp <= 0 ==> e == exp && result == 1
      invariant exp > 0 ==> e >= 0 && Zero(result * Pow(b, e) - target, m)
      invariant exp > 0 && e == 0 ==> 0 <= result < m
    {
      ghost var b0, r0, e0 := b, result, e;
      if e % 2 == 1 {
        result := Mod(result * b, m);
        ModSpec(r0 * b0, m);
      }
      e := e / 2;
      b := Mod(b * b, m);
      SquareStep(r0, b0, e0, result, b, target, m);
    }
    if exp > 0 {
      LastPower(result, b, target, m);
    }
  }

  lemma FirstPower(base: int, exp: nat, m: int)
    requires m > 0
    ensures Zero(1 * Pow(Mod(base, m), exp) - Pow(base, exp), m)
  {
    Reduction(base, m);
    PowCongruent(base, Mod(base, m), exp, m);
    ZeroMul(Pow(base, exp) - Pow(Mod(base, m), exp), -1, m);
  }

  lemma LastPower(result: int, b: int, target: int, m: int)
    requires m > 0 && 0 <= result < m && Zero(result * Pow(b, 0) - target, m)
    ensures result == target % m
  {
    assert result * Pow(b, 0) == result;
    ModSpec(target, m);
    ModEqual(result, target, m);
    ModOfReduced(result, m);
  }
}

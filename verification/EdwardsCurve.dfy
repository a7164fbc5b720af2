/**
 The twisted Edwards curve y^2 - x^2 = 1 + d x^2 y^2 over a prime field, in affine coordinates,
 and the group law that scalar multiplication in crypto.ts relies on: the addition formulas never
 divide by zero, stay on the curve, and are commutative and associative with (0, 1) neutral.
 */
module EdwardsCurve {
  import opened ModularArithmetic
  import opened PrimeField

  datatype Curve = Curve(p: int, d: int)

  datatype Affine = Affine(x: int, y: int)

  const NEUTRAL: Affine := Affine(0, 1)

  ghost predicate Root(z: int, a: int, p: int)
    requires p > 0
  {
    Zero(z * z - a, p)
  }

  /** An odd prime field in which -1 is a square and d is not. */
  ghost predicate Complete(c: Curve) {
    && Prime(c.p) && c.p > 2
    && (exists i :: Root(i, -1, c.p))
    && (forall z :: !Root(z, c.d, c.p))
  }

  /** How far (x, y) is from satisfying the curve equation; t is the product xy. */
  ghost function Defect(d: int, x: int, y: int, t: int): int {
    y * y - x * x - 1 - d * (t * t)
  }

  ghost predicate OnCurve(c: Curve, a: Affine)
    requires c.p > 0
  {
    0 <= a.x < c.p && 0 <= a.y < c.p && Zero(Defect(c.d, a.x, a.y, a.x * a.y), c.p)
  }

  /** The term d x1 x2 y1 y2 of the denominators. */
  function Cross(c: Curve, a: Affine, b: Affine): int {
    c.d * ((a.x * a.y) * (b.x * b.y))
  }

  /** The Edwards sum: section 6 of RFC 7748 and section 5.1.4 of RFC 8032 for a = -1. */
  function Add(c: Curve, a: Affine, b: Affine): Affine
    requires c.p > 1
  {
    var e := Cross(c, a, b);
    Affine(Mod((a.x * b.y + a.y * b.x) * Inverse(1 + e, c.p), c.p),
           Mod((a.y * b.y + a.x * b.x) * Inverse(1 - e, c.p), c.p))
  }

  /** r is the sum of a and b, with the denominators multiplied out. */
  ghost predicate IsSum(c: Curve, a: Affine, b: Affine, r: Affine)
    requires c.p > 0
  {
    var e := Cross(c, a, b);
    && Zero(r.x * (1 + e) - (a.x * b.y + a.y * b.x), c.p)
    && Zero(r.y * (1 - e) - (a.y * b.y + a.x * b.x), c.p)
  }

  // ---------- Completeness: no denominator vanishes ----------

  /** d times a nonzero square is never a square. */
  lemma NonSquare(c: Curve, w: int, v: int)
    requires Complete(c) && Zero(w * w - c.d * (v * v), c.p)
    ensures Zero(v, c.p)
  {
    if !Zero(v, c.p) {
      var u := Inverse(v, c.p);
      InverseSpec(v, c.p);
      ScaleSquares(w, u, v, c.d);
      Combine((w * u) * (w * u) - c.d, u * u, w * w - c.d * (v * v), c.d * (u * v + 1), u * v - 1, c.p);
      assert Root(w * u, c.d, c.p);
    }
  }

  lemma ScaleSquares(w: int, u: int, v: int, d: int)
    ensures (w * u) * (w * u) - d == (u * u) * (w * w - d * (v * v)) + (d * (u * v + 1)) * (u * v - 1)
  {
  }

  /** On the curve, (i x + s y)^2 = 1 + d t^2 + 2 s i t for i^2 = -1 and s^2 = 1. */
  lemma Tilt(p: int, d: int, i: int, s: int, x: int, y: int, t: int)
    requires p > 0 && s * s == 1 && t == x * y
    requires Root(i, -1, p) && Zero(Defect(d, x, y, t), p)
    ensures Zero((i * x + s * y) * (i * x + s * y) - (1 + d * (t * t) + 2 * (s * (i * t))), p)
  {
    assert (i * x) * (i * x) == (i * i) * (x * x);
    assert (s * y) * (s * y) == (s * s) * (y * y) == y * y;
    assert (i * x) * (s * y) == s * (i * t) by {
      assert (i * x) * (s * y) == (s * i) * (x * y);
    }
    assert (x * x) * (i * i - (-1)) == (i * i) * (x * x) + x * x;
    Combine((i * x + s * y) * (i * x + s * y) - (1 + d * (t * t) + 2 * (s * (i * t))),
            x * x, i * i - (-1), 1, Defect(d, x, y, t), p);
  }

  /** If d t1 t2 = s with s = 1 or -1, then (i x1 + s y1)^2 = d (t1 (i x2 + r y2))^2 with r = s * s'. */
  lemma SquareRelation(p: int, d: int, i: int, s: int, r: int, x1: int, y1: int, x2: int, y2: int, t1: int, t2: int)
    requires p > 0 && s * s == 1 && r * r == 1 && t1 == x1 * y1 && t2 == x2 * y2
    requires Root(i, -1, p) && Zero(Defect(d, x1, y1, t1), p) && Zero(Defect(d, x2, y2, t2), p)
    requires Zero(d * (t1 * t2) - r * s, p)
    ensures var w, v := i * x1 + s * y1, t1 * (i * x2 + r * y2); Zero(w * w - d * (v * v), p)
  {
    var w, z := i * x1 + s * y1, i * x2 + r * y2;
    var A, B, e := d * (t1 * t1), d * (t2 * t2), d * (t1 * t2);
    Tilt(p, d, i, s, x1, y1, t1);
    Tilt(p, d, i, r, x2, y2, t2);
    var m, n, k := s * (i * t1), r * (i * t2), r * (i * t1);
    assert d * ((t1 * z) * (t1 * z)) == A * (z * z) by { SquareDistributes(t1, z); assert d * ((t1 * t1) * (z * z)) == A * (z * z); }
    Regroup(d, t1, t2);
    Slide(d, t1, t2, r, i);
    SignProduct(r, s, i * t1);
    TiltedDifference(p, w * w, z * z, A, B, e, m, n, k, r * s);
  }

  lemma SignedDifference(e: int, g: int, k: int)
    ensures (-(e + g) - 2 * k) * (e - g) == g * g - e * e + 2 * (g * k) - 2 * (k * e)
  {
  }

  lemma SignProduct(r: int, s: int, v: int)
    requires r * r == 1 && s * s == 1
    ensures (r * s) * (r * s) == 1 && (r * s) * (r * v) == s * v
  {
    SquareDistributes(r, s);
    assert (r * s) * (r * v) == (r * r) * (s * v);
  }

  lemma TiltedDifference(p: int, ww: int, zz: int, A: int, B: int, e: int, m: int, n: int, k: int, g: int)
    requires p > 0 && Zero(ww - (1 + A + 2 * m), p) && Zero(zz - (1 + B + 2 * n), p) && Zero(e - g, p)
    requires A * B == e * e && A * n == k * e && g * g == 1 && g * k == m
    ensures Zero(ww - A * zz, p)
  {
    hide Zero;
    SignedDifference(e, g, k);
    WeightedTilt(A, zz, B, n);
    Combine3(ww - A * zz, 1, ww - (1 + A + 2 * m), -A, zz - (1 + B + 2 * n), -(e + g) - 2 * k, e - g, p);
  }

  lemma WeightedTilt(A: int, zz: int, B: int, n: int)
    ensures (-A) * (zz - (1 + B + 2 * n)) == A + A * B + 2 * (A * n) - A * zz
  {
  }

  lemma Regroup(d: int, t1: int, t2: int)
    ensures (d * (t1 * t1)) * (d * (t2 * t2)) == (d * (t1 * t2)) * (d * (t1 * t2))
  {
  }

  lemma Slide(d: int, t1: int, t2: int, r: int, i: int)
    ensures (d * (t1 * t1)) * (r * (i * t2)) == (r * (i * t1)) * (d * (t1 * t2))
  {
  }

  lemma OddPrime(c: Curve)
    requires Complete(c)
    ensures !Zero(1, c.p) && !Zero(2, c.p)
  {
    OneIsNotZero(c.p);
    if Zero(2, c.p) {
      ReducedEqual(2, 0, c.p);
    }
  }

  /** The value d t1 t2 is neither 1 nor -1: the theorem behind "complete" addition formulas. */
  lemma CrossIsNotUnit(c: Curve, a: Affine, b: Affine, s: int)
    requires Complete(c) && OnCurve(c, a) && OnCurve(c, b) && (s == 1 || s == -1)
    ensures !Zero(Cross(c, a, b) - s, c.p)
  {
    var p, t1, t2, e := c.p, a.x * a.y, b.x * b.y, Cross(c, a, b);
    if Zero(e - s, p) {
      OddPrime(c);
      assert !Zero(e, p) by {
        if Zero(e, p) {
          Combine(1, s, e, -s, e - s, p);
        }
      }
      assert e == t1 * (c.d * t2) == (c.d * t1) * t2 by { Reassociate(c.d, t1, t2); }
      assert !Zero(t1, p) by { if Zero(t1, p) { ZeroMul(t1, c.d * t2, p); } }
      var i :| Root(i, -1, p);
      SquareRelation(p, c.d, i, s, 1, a.x, a.y, b.x, b.y, t1, t2);
      NonSquare(c, i * a.x + s * a.y, t1 * (i * b.x + 1 * b.y));
      Cancel(t1, i * b.x + 1 * b.y, p);
      SquareRelation(p, c.d, i, -s, -1, a.x, a.y, b.x, b.y, t1, t2);
      NonSquare(c, i * a.x + -s * a.y, t1 * (i * b.x + -1 * b.y));
      Cancel(t1, i * b.x + -1 * b.y, p);
      ZeroAdd(i * b.x + 1 * b.y, i * b.x + -1 * b.y, p);
      Cancel(2, b.y, p);
      ZeroMul(b.y, b.x, p);
      ZeroMul(t2, c.d * t1, p);
    }
  }

  lemma Reassociate(d: int, t1: int, t2: int)
    ensures d * (t1 * t2) == t1 * (d * t2) == (d * t1) * t2
  {
  }

  /** Both denominators of the addition formulas are nonzero for every pair of curve points. */
  lemma DenominatorsNonZero(c: Curve, a: Affine, b: Affine)
    requires Complete(c) && OnCurve(c, a) && OnCurve(c, b)
    ensures !Zero(1 + Cross(c, a, b), c.p) && !Zero(1 - Cross(c, a, b), c.p)
  {
    var e := Cross(c, a, b);
    CrossIsNotUnit(c, a, b, 1);
    CrossIsNotUnit(c, a, b, -1);
    if Zero(1 - e, c.p) {
      ZeroAdd(1 - e, 0, c.p);
    }
  }

  // ---------- The sum is a curve point ----------

  lemma Divide(n: int, e: int, p: int)
    requires Prime(p) && !Zero(e, p)
    ensures 0 <= Mod(n * Inverse(e, p), p) < p && Zero(Mod(n * Inverse(e, p), p) * e - n, p)
  {
    var u := Inverse(e, p);
    InverseSpec(e, p);
    ModSpec(n * u, p);
    var q := Mod(n * u, p);
    DivideIdentity(q, e, n, u);
    Combine(q * e - n, -e, n * u - q, n, u * e - 1, p);
  }

  lemma DivideIdentity(q: int, e: int, n: int, u: int)
    ensures q * e - n == (-e) * (n * u - q) + n * (u * e - 1)
  {
    assert e * (n * u) == n * (u * e);
  }

  lemma AddIsSum(c: Curve, a: Affine, b: Affine)
    requires Complete(c) && OnCurve(c, a) && OnCurve(c, b)
    ensures var r := Add(c, a, b); IsSum(c, a, b, r) && 0 <= r.x < c.p && 0 <= r.y < c.p
  {
    DenominatorsNonZero(c, a, b);
    var e := Cross(c, a, b);
    Divide(a.x * b.y + a.y * b.x, 1 + e, c.p);
    Divide(a.y * b.y + a.x * b.x, 1 - e, c.p);
  }

  /** A sum is determined by its defining congruences. */
  lemma SumUnique(c: Curve, a: Affine, b: Affine, r: Affine)
    requires Complete(c) && OnCurve(c, a) && OnCurve(c, b)
    requires IsSum(c, a, b, r) && 0 <= r.x < c.p && 0 <= r.y < c.p
    ensures r == Add(c, a, b)
  {
    var s, e := Add(c, a, b), Cross(c, a, b);
    AddIsSum(c, a, b);
    DenominatorsNonZero(c, a, b);
    QuotientUnique(a.x * b.y + a.y * b.x, 1 + e, r.x, s.x, c.p);
    QuotientUnique(a.y * b.y + a.x * b.x, 1 - e, r.y, s.y, c.p);
  }

  lemma QuotientUnique(n: int, e: int, u: int, v: int, p: int)
    requires Prime(p) && !Zero(e, p) && 0 <= u < p && 0 <= v < p
    requires Zero(u * e - n, p) && Zero(v * e - n, p)
    ensures u == v
  {
    ZeroAdd(u * e - n, v * e - n, p);
    assert u * e - v * e == e * (u - v);
    Cancel(e, u - v, p);
    ReducedEqual(u, v, p);
  }

  /** The numerators of a sum: their squares and product in terms of the summands. */
  lemma NumeratorIdentities(x1: int, y1: int, x2: int, y2: int)
    ensures var m, n, q1, q2 := x1 * y2 + y1 * x2, y1 * y2 + x1 * x2, x1 * x1 + y1 * y1, x2 * x2 + y2 * y2;
      && n * n - m * m == (y1 * y1 - x1 * x1) * (y2 * y2 - x2 * x2)
      && n * n + m * m == q1 * q2 + 4 * ((x1 * y1) * (x2 * y2))
      && m * n == (x2 * y2) * q1 + (x1 * y1) * q2
  {
    var u, v, w, z := x1 * y2, y1 * x2, y1 * y2, x1 * x2;
    assert u * v == (x1 * y1) * (x2 * y2) == w * z by { Swap(x1, y2, y1, x2); Swap(y1, y2, x1, x2); }
    SquareDistributes(x1, y2);
    SquareDistributes(y1, x2);
    SquareDistributes(y1, y2);
    SquareDistributes(x1, x2);
    SquaresOfNumerators(u, v, w, z);
    FourSquares(x1 * x1, y1 * y1, x2 * x2, y2 * y2);
    ProductOfNumerators(x1, y1, x2, y2);
  }

  lemma SquaresOfNumerators(u: int, v: int, w: int, z: int)
    requires u * v == w * z
    ensures (w + z) * (w + z) - (u + v) * (u + v) == w * w + z * z - u * u - v * v
    ensures (w + z) * (w + z) + (u + v) * (u + v) == w * w + z * z + u * u + v * v + 4 * (w * z)
  {
  }

  lemma FourSquares(a: int, b: int, c: int, e: int)
    ensures (b - a) * (e - c) == b * e + a * c - a * e - b * c
    ensures (a + b) * (c + e) == b * e + a * c + a * e + b * c
  {
  }

  lemma ProductOfNumerators(x1: int, y1: int, x2: int, y2: int)
    ensures (x1 * y2 + y1 * x2) * (y1 * y2 + x1 * x2) == (x2 * y2) * (x1 * x1 + y1 * y1) + (x1 * y1) * (x2 * x2 + y2 * y2)
  {
    Swap(x1, y2, y1, y2);
    Swap(x1, y2, x1, x2);
    Swap(y1, x2, y1, y2);
    Swap(y1, x2, x1, x2);
    FourProducts(x1 * y2, y1 * x2, y1 * y2, x1 * x2);
    TwoProducts(x2 * y2, x1 * x1, y1 * y1);
    TwoProducts(x1 * y1, x2 * x2, y2 * y2);
  }

  lemma TwoProducts(s: int, u: int, v: int)
    ensures s * (u + v) == u * s + v * s
  {
  }

  lemma FourProducts(u: int, v: int, w: int, z: int)
    ensures (u + v) * (w + z) == u * w + u * z + v * w + v * z
  {
  }

  lemma Swap(a: int, b: int, c: int, d: int)
    ensures (a * b) * (c * d) == (a * c) * (d * b) == (c * a) * (d * b)
  {
  }

  lemma SquareOfNorm(x: int, y: int)
    ensures var q, s, t := x * x + y * y, y * y - x * x, x * y; q * q == s * s + 4 * (t * t)
  {
    assert (x * y) * (x * y) == (x * x) * (y * y);
  }

  /** The curve equation of the sum, denominators cleared, reduced to the summands' own equations. */
  lemma SumDefect(d: int, t1: int, t2: int, q1: int, q2: int, s1: int, s2: int, m: int, n: int)
    requires n * n - m * m == s1 * s2
    requires n * n + m * m == q1 * q2 + 4 * (t1 * t2)
    requires m * n == t2 * q1 + t1 * q2
    requires q1 * q1 == s1 * s1 + 4 * (t1 * t1) && q2 * q2 == s2 * s2 + 4 * (t2 * t2)
    ensures var e, A, B := d * (t1 * t2), d * (t1 * t1), d * (t2 * t2);
      (n * (1 + e)) * (n * (1 + e)) - (m * (1 - e)) * (m * (1 - e)) - ((1 + e) * (1 - e)) * ((1 + e) * (1 - e)) - d * ((m * n) * (m * n))
      == (1 + e * e) * (s1 * s2) - (1 - e * e) * (1 - e * e) - B * (s1 * s1) - A * (s2 * s2)
  {
    var e, A, B := d * (t1 * t2), d * (t1 * t1), d * (t2 * t2);
    SquareDistributes(n, 1 + e);
    SquareDistributes(m, 1 - e);
    assert (1 + e) * (1 - e) == 1 - e * e;
    WeightedSquares(n * n, m * m, e);
    CrossTerm(d, t1, t2, q1, q2);
    assert B * (t1 * t1) == e * (t1 * t2) == A * (t2 * t2) by { Regroup2(d, t1, t2); }
    assert B * (s1 * s1 + 4 * (t1 * t1)) == B * (s1 * s1) + 4 * (B * (t1 * t1));
    assert A * (s2 * s2 + 4 * (t2 * t2)) == A * (s2 * s2) + 4 * (A * (t2 * t2));
    assert e * (q1 * q2 + 4 * (t1 * t2)) == e * (q1 * q2) + 4 * (e * (t1 * t2));
  }

  lemma SquareDistributes(n: int, f: int)
    ensures (n * f) * (n * f) == (n * n) * (f * f)
  {
  }

  lemma WeightedSquares(u: int, v: int, e: int)
    ensures u * ((1 + e) * (1 + e)) - v * ((1 - e) * (1 - e)) == (1 + e * e) * (u - v) + 2 * (e * (u + v))
  {
    assert (1 + e) * (1 + e) == 1 + 2 * e + e * e && (1 - e) * (1 - e) == 1 - 2 * e + e * e;
    assert u * (1 + 2 * e + e * e) == u + 2 * (e * u) + (e * e) * u;
    assert v * (1 - 2 * e + e * e) == v - 2 * (e * v) + (e * e) * v;
    assert (e * e) * (u - v) == (e * e) * u - (e * e) * v;
  }

  lemma CrossTerm(d: int, t1: int, t2: int, q1: int, q2: int)
    ensures d * ((t2 * q1 + t1 * q2) * (t2 * q1 + t1 * q2))
      == (d * (t2 * t2)) * (q1 * q1) + (d * (t1 * t1)) * (q2 * q2) + 2 * ((d * (t1 * t2)) * (q1 * q2))
  {
    var u, v := t2 * q1, t1 * q2;
    SquareDistributes(t2, q1);
    SquareDistributes(t1, q2);
    Swap(t2, q1, t1, q2);
    WeightedSquare(d, u, v);
    WeightProducts(d, t2 * t2, q1 * q1);
    WeightProducts(d, t1 * t1, q2 * q2);
    WeightProducts(d, t1 * t2, q1 * q2);
  }

  lemma WeightedSquare(d: int, u: int, v: int)
    ensures d * ((u + v) * (u + v)) == d * (u * u) + d * (v * v) + 2 * (d * (u * v))
  {
    assert (u + v) * (u + v) == u * u + v * v + 2 * (u * v);
  }

  lemma WeightProducts(d: int, t: int, q: int)
    ensures d * (t * q) == (d * t) * q
  {
  }

  lemma Regroup2(d: int, t1: int, t2: int)
    ensures (d * (t2 * t2)) * (t1 * t1) == (d * (t1 * t2)) * (t1 * t2) == (d * (t1 * t1)) * (t2 * t2)
  {
  }

  /** Substituting s1 = 1 + A and s2 = 1 + B makes the reduced form vanish. */
  lemma ReducedDefect(p: int, A: int, B: int, f: int, s1: int, s2: int)
    requires p > 0 && f == A * B && Zero(s1 - (1 + A), p) && Zero(s2 - (1 + B), p)
    ensures Zero((1 + f) * (s1 * s2) - (1 - f) * (1 - f) - B * (s1 * s1) - A * (s2 * s2), p)
  {
    var g, u, v := 1 + f, s1 - (1 + A), s2 - (1 + B);
    ProductShift(g, s1, s2, 1 + A, 1 + B);
    SquareShift(B, s1, A);
    SquareShift(A, s2, B);
    VanishAtCurve(A, B, f);
    var k1, k2, k3, k4 := g * s2, B * (s1 + 1 + A), g * (1 + A), A * (s2 + 1 + B);
    Combine4(g * (s1 * s2) - (1 - f) * (1 - f) - B * (s1 * s1) - A * (s2 * s2), k1, u, -k2, u, k3, v, -k4, v, p);
  }

  lemma ProductShift(g: int, s1: int, s2: int, r1: int, r2: int)
    ensures g * (s1 * s2) == (g * s2) * (s1 - r1) + (g * r1) * (s2 - r2) + g * (r1 * r2)
  {
    assert s1 * s2 == s2 * (s1 - r1) + r1 * (s2 - r2) + r1 * r2;
    assert g * (s2 * (s1 - r1) + r1 * (s2 - r2) + r1 * r2) == g * (s2 * (s1 - r1)) + g * (r1 * (s2 - r2)) + g * (r1 * r2);
  }

  lemma VanishAtCurve(A: int, B: int, f: int)
    requires f == A * B
    ensures (1 + f) * ((1 + A) * (1 + B)) - (1 - f) * (1 - f) - B * ((1 + A) * (1 + A)) - A * ((1 + B) * (1 + B)) == 0
  {
    assert (1 + A) * (1 + B) == 1 + A + B + f;
    SquareOfSuccessor(A, B);
    SquareOfSuccessor(B, A);
    SuccessorProduct(A, B, f);
  }

  lemma SuccessorProduct(A: int, B: int, f: int)
    ensures (1 + f) * (1 + A + B + f) == 1 + A + B + f + f + A * f + B * f + f * f
    ensures (1 - f) * (1 - f) == 1 - 2 * f + f * f
  {
  }

  lemma SquareOfSuccessor(A: int, B: int)
    ensures B * ((1 + A) * (1 + A)) == B + 2 * (A * B) + A * (A * B)
  {
    assert B * (1 + 2 * A + A * A) == B + 2 * (B * A) + B * (A * A);
  }

  lemma SquareShift(B: int, s: int, A: int)
    ensures B * (s * s) == (B * (s + 1 + A)) * (s - (1 + A)) + B * ((1 + A) * (1 + A))
  {
    var r := 1 + A;
    assert s * s == (s + r) * (s - r) + r * r;
    assert B * ((s + r) * (s - r) + r * r) == (B * (s + r)) * (s - r) + B * (r * r);
  }

  /** The affine sum of two curve points is a curve point. */
  lemma AddOnCurve(c: Curve, a: Affine, b: Affine)
    requires Complete(c) && OnCurve(c, a) && OnCurve(c, b)
    ensures OnCurve(c, Add(c, a, b))
  {
    var p, e, r := c.p, Cross(c, a, b), Add(c, a, b);
    var t1, t2, m, n := a.x * a.y, b.x * b.y, a.x * b.y + a.y * b.x, a.y * b.y + a.x * b.x;
    var s1, s2 := a.y * a.y - a.x * a.x, b.y * b.y - b.x * b.x;
    AddIsSum(c, a, b);
    DenominatorsNonZero(c, a, b);
    NumeratorIdentities(a.x, a.y, b.x, b.y);
    SquareOfNorm(a.x, a.y);
    SquareOfNorm(b.x, b.y);
    SumDefect(c.d, t1, t2, a.x * a.x + a.y * a.y, b.x * b.x + b.y * b.y, s1, s2, m, n);
    assert e * e == (c.d * (t1 * t1)) * (c.d * (t2 * t2)) by { Regroup(c.d, t1, t2); }
    ReducedDefect(p, c.d * (t1 * t1), c.d * (t2 * t2), e * e, s1, s2);
    ClearedDefect(p, c.d, r.x, r.y, 1 + e, 1 - e, m, n);
    var f := ((1 + e) * (1 - e)) * ((1 + e) * (1 - e));
    NonZeroProduct(1 + e, 1 - e, p);
    NonZeroProduct((1 + e) * (1 - e), (1 + e) * (1 - e), p);
    Cancel(f, Defect(c.d, r.x, r.y, r.x * r.y), p);
  }

  /** If w f = m and z g = n, then (f g)^2 times the defect of (w, z) is the cleared form in m, n. */
  lemma ClearedDefect(p: int, d: int, w: int, z: int, f: int, g: int, m: int, n: int)
    requires p > 0 && Zero(w * f - m, p) && Zero(z * g - n, p)
    requires Zero((n * f) * (n * f) - (m * g) * (m * g) - (f * g) * (f * g) - d * ((m * n) * (m * n)), p)
    ensures Zero(((f * g) * (f * g)) * Defect(d, w, z, w * z), p)
  {
    var W, Z, h := w * f, z * g, (f * g) * (f * g);
    SquareCongruent(Z * f, n * f, p, f, Z, n);
    SquareCongruent(W * g, m * g, p, g, W, m);
    ProductCongruent(W, m, Z, n, p);
    SquareCongruent(W * Z, m * n, p, 1, W * Z, m * n);
    ClearDenominators(d, w, z, f, g);
    var d1, d2, d3 := (Z * f) * (Z * f) - (n * f) * (n * f), (W * g) * (W * g) - (m * g) * (m * g), (W * Z) * (W * Z) - (m * n) * (m * n);
    var k, l := (W * Z) * (W * Z), (m * n) * (m * n);
    assert d * (k - l) == d * k - d * l;
    Combine4(h * Defect(d, w, z, w * z), 1, d1, -1, d2, -d, d3,
             1, (n * f) * (n * f) - (m * g) * (m * g) - h - d * l, p);
  }

  lemma ClearDenominators(d: int, w: int, z: int, f: int, g: int)
    ensures var W, Z, h := w * f, z * g, (f * g) * (f * g);
      h * Defect(d, w, z, w * z) == (Z * f) * (Z * f) - (W * g) * (W * g) - h - d * ((W * Z) * (W * Z))
  {
    var h, t := (f * g) * (f * g), w * z;
    FactorSquares(z, f, g);
    FactorSquares(w, g, f);
    SquareDistributes(t, f * g);
    assert (w * f) * (z * g) == t * (f * g) by { Swap(w, f, z, g); }
    var u := t * t;
    assert h * (d * u) == d * (u * h);
    assert h * (z * z - w * w - 1 - d * u) == h * (z * z) - h * (w * w) - h - h * (d * u);
  }

  lemma SquareCongruent(u: int, v: int, p: int, f: int, a: int, b: int)
    requires p > 0 && u == a * f && v == b * f && Zero(a - b, p)
    ensures Zero(u * u - v * v, p)
  {
    assert u - v == f * (a - b);
    ZeroMul(a - b, f, p);
    assert u * u - v * v == (u - v) * (u + v);
    ZeroMul(u - v, u + v, p);
  }

  lemma FactorSquares(z: int, f: int, g: int)
    ensures ((f * g) * (f * g)) * (z * z) == ((z * g) * f) * ((z * g) * f)
  {
    assert (z * g) * f == z * (f * g);
    SquareDistributes(z, f * g);
  }
}

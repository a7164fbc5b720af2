/**
 The affine Edwards addition is a commutative group operation. Associativity is proved by clearing
 denominators: one polynomial relation (CoreVanishes) covers both coordinates.
 */
module EdwardsGroup {
  import opened ModularArithmetic
  import opened PrimeField
  import opened EdwardsCurve

  // ---------- Clearing the denominators of (a + b) + q ----------

  /** Numerator of a coordinate of (a + b) + q: u, v are q's coordinates in the order x uses them. */
  ghost function Numerator(u: int, v: int, m: int, n: int, e: int): int {
    u * (n * (1 + e)) + v * (m * (1 - e))
  }

  /** Denominator; k is d xq yq for the x coordinate and its negation for the y coordinate. */
  ghost function Denominator(k: int, m: int, n: int, e: int): int {
    (1 + e) * (1 - e) + k * (m * n)
  }

  lemma ClearDenominator(p: int, k: int, sx: int, sy: int, m: int, n: int, e: int)
    requires p > 0 && Zero(sx * (1 + e) - m, p) && Zero(sy * (1 - e) - n, p)
    ensures Zero(((1 + e) * (1 - e)) * (1 + k * (sx * sy)) - Denominator(k, m, n, e), p)
  {
    var f, g := 1 + e, 1 - e;
    ProductCongruent(sx * f, m, sy * g, n, p);
    assert (sx * f) * (sy * g) == (f * g) * (sx * sy) by { Swap(sx, f, sy, g); }
    var z := (f * g) * (sx * sy);
    assert (f * g) * (1 + k * (sx * sy)) == f * g + k * z;
    assert k * z - k * (m * n) == k * (z - m * n);
    ZeroMul(z - m * n, k, p);
  }

  lemma ClearNumerator(p: int, u: int, v: int, sx: int, sy: int, m: int, n: int, e: int)
    requires p > 0 && Zero(sx * (1 + e) - m, p) && Zero(sy * (1 - e) - n, p)
    ensures Zero(((1 + e) * (1 - e)) * (u * sy + v * sx) - Numerator(u, v, m, n, e), p)
  {
    var f, g := 1 + e, 1 - e;
    NumeratorIdentity(u, v, sx, sy, m, n, f, g);
    Combine((f * g) * (u * sy + v * sx) - (u * (n * f) + v * (m * g)), u * f, sy * g - n, v * g, sx * f - m, p);
  }

  lemma NumeratorIdentity(u: int, v: int, sx: int, sy: int, m: int, n: int, f: int, g: int)
    ensures (f * g) * (u * sy + v * sx) - (u * (n * f) + v * (m * g)) == (u * f) * (sy * g - n) + (v * g) * (sx * f - m)
  {
    assert (f * g) * (u * sy) == (u * f) * (sy * g) by { Swap(f, g, u, sy); }
    assert (f * g) * (v * sx) == (v * g) * (sx * f) by { Swap(g, f, v, sx); }
    assert (u * f) * n == u * (n * f) && (v * g) * m == v * (m * g);
  }

  /** r (1 + k w) = s and h (1 + k w) = D, h s = N give r D = N, and D inherits being nonzero. */
  lemma ClearedQuotient(p: int, h: int, j: int, r: int, s: int, D: int, N: int)
    requires Prime(p) && !Zero(h, p) && !Zero(j, p)
    requires Zero(h * j - D, p) && Zero(r * j - s, p) && Zero(h * s - N, p)
    ensures Zero(r * D - N, p) && !Zero(D, p)
  {
    NonZeroProduct(h, j, p);
    if Zero(D, p) {
      ZeroAdd(h * j - D, D, p);
    }
    QuotientIdentity(h, j, r, s, D, N);
    Combine3(r * D - N, -r, h * j - D, h, r * j - s, 1, h * s - N, p);
  }

  lemma QuotientIdentity(h: int, j: int, r: int, s: int, D: int, N: int)
    ensures r * D - N == (-r) * (h * j - D) + h * (r * j - s) + 1 * (h * s - N)
  {
    assert r * (h * j) == h * (r * j);
  }

  /** Both coordinates of (a + b) + q as fractions in the coordinates of a, b and q. */
  lemma NestedSum(c: Curve, a: Affine, b: Affine, q: Affine)
    requires Complete(c) && OnCurve(c, a) && OnCurve(c, b) && OnCurve(c, q)
    ensures
      var r, e, k := Add(c, Add(c, a, b), q), Cross(c, a, b), c.d * (q.x * q.y);
      var m, n := a.x * b.y + a.y * b.x, a.y * b.y + a.x * b.x;
      && Zero(r.x * Denominator(k, m, n, e) - Numerator(q.x, q.y, m, n, e), c.p) && !Zero(Denominator(k, m, n, e), c.p)
      && Zero(r.y * Denominator(-k, m, n, e) - Numerator(q.y, q.x, m, n, e), c.p) && !Zero(Denominator(-k, m, n, e), c.p)
  {
    var s, e, k := Add(c, a, b), Cross(c, a, b), c.d * (q.x * q.y);
    AddIsSum(c, a, b);
    AddOnCurve(c, a, b);
    DenominatorsNonZero(c, a, b);
    SumShape(c, s, q);
    hide Add, Zero, Denominator, Numerator, OnCurve, Cross;
    var m, n, r := a.x * b.y + a.y * b.x, a.y * b.y + a.x * b.x, Add(c, s, q);
    NestedCoordinate(c.p, k, q.x, q.y, r.x, s.x, s.y, m, n, e);
    NestedCoordinate(c.p, -k, q.y, q.x, r.y, s.x, s.y, m, n, e);
  }

  /** The defining congruences of s + q, both coordinates in the same shape. */
  lemma SumShape(c: Curve, s: Affine, q: Affine)
    requires Complete(c) && OnCurve(c, s) && OnCurve(c, q)
    ensures
      var r, k, w := Add(c, s, q), c.d * (q.x * q.y), s.x * s.y;
      && !Zero(1 + k * w, c.p) && Zero(r.x * (1 + k * w) - (q.x * s.y + q.y * s.x), c.p)
      && !Zero(1 + (-k) * w, c.p) && Zero(r.y * (1 + (-k) * w) - (q.y * s.y + q.x * s.x), c.p)
  {
    AddIsSum(c, s, q);
    DenominatorsNonZero(c, s, q);
    hide Add, Zero, OnCurve;
    CrossShape(c.d, s.x * s.y, q.x * q.y);
    CommutedNumerators(s.x, s.y, q.x, q.y);
  }

  lemma CrossShape(d: int, w: int, t: int)
    ensures d * (w * t) == (d * t) * w && 1 - d * (w * t) == 1 + (-(d * t)) * w
  {
  }

  lemma CommutedNumerators(a: int, b: int, u: int, v: int)
    ensures a * v + b * u == u * b + v * a && b * v + a * u == v * b + u * a
  {
  }

  lemma NestedCoordinate(p: int, k: int, u: int, v: int, r: int, sx: int, sy: int, m: int, n: int, e: int)
    requires Prime(p) && !Zero(1 + e, p) && !Zero(1 - e, p) && !Zero(1 + k * (sx * sy), p)
    requires Zero(sx * (1 + e) - m, p) && Zero(sy * (1 - e) - n, p)
    requires Zero(r * (1 + k * (sx * sy)) - (u * sy + v * sx), p)
    ensures Zero(r * Denominator(k, m, n, e) - Numerator(u, v, m, n, e), p) && !Zero(Denominator(k, m, n, e), p)
  {
    hide Zero, Denominator, Numerator;
    NonZeroProduct(1 + e, 1 - e, p);
    ClearDenominator(p, k, sx, sy, m, n, e);
    ClearNumerator(p, u, v, sx, sy, m, n, e);
    ClearedQuotient(p, (1 + e) * (1 - e), 1 + k * (sx * sy), r, u * sy + v * sx, Denominator(k, m, n, e), Numerator(u, v, m, n, e));
  }

  // ---------- The polynomial heart of associativity ----------
  // Points 1, 2, 3 with t = xy and q = x^2 + y^2. For the x coordinate (X, Y) = (x2, y2) and D' = D = d t1 t3;
  // for the y coordinate (X, Y) = (y2, x2) and D' = -D, with k = d x2 y2 negated too.
  //   a = y1 y3 + x1 x3    b = y1 x3 + x1 y3    g = x1 y3 - y1 x3    h = x1 x3 - y1 y3

  ghost function FlatNumerator(s: int, k: int, t: int, v: int): int {
    s + (k * t) * v
  }

  ghost function FlatDenominator(M: int, k: int, t: int, f: int): int {
    M - (k * t) * (k * t) + k * f
  }

  lemma DenominatorGap(k: int, t1: int, t3: int, M: int, f1: int, f3: int)
    ensures FlatDenominator(M, k, t1, f3) - FlatDenominator(M, k, t3, f1) == k * (k * (t3 * t3 - t1 * t1) + (f3 - f1))
  {
    SquareDistributes(k, t3);
    SquareDistributes(k, t1);
    var W := t3 * t3 - t1 * t1;
    assert (k * k) * W == (k * k) * (t3 * t3) - (k * k) * (t1 * t1);
    assert (k * k) * W == k * (k * W);
  }

  /** The cross difference factors as k times a form linear in s, u, w. */
  lemma CrossDifference(s: int, k: int, t1: int, t3: int, u: int, w: int, L: int, R: int, S: int)
    requires L - R == k * S
    ensures FlatNumerator(s, k, t3, u + w) * L - FlatNumerator(s, k, t1, u - w) * R
         == k * (s * S + u * (t3 * L - t1 * R) + w * (t3 * L + t1 * R))
  {
    assert s * L - s * R == k * (s * S) by { assert s * (k * S) == k * (s * S); }
    SplitTerm(k, t3, u, w, L);
    SplitTerm(k, t1, u, -w, R);
    var x, y, z, v := u * (t3 * L), w * (t3 * L), u * (t1 * R), w * (t1 * R);
    assert u * (t3 * L - t1 * R) == x - z && w * (t3 * L + t1 * R) == y + v;
    AddProducts(k, s * S, x, y, z, v);
    var m, n := (k * t3) * (u + w), (k * t1) * (u - w);
    assert (s + m) * L - (s + n) * R == s * L - s * R + m * L - n * R;
  }

  lemma SplitTerm(k: int, t: int, u: int, w: int, L: int)
    ensures ((k * t) * (u + w)) * L == k * (u * (t * L) + w * (t * L))
  {
    var z := t * L;
    assert ((k * t) * (u + w)) * L == k * ((u + w) * z) by {
      assert ((k * t) * (u + w)) * L == (k * (u + w)) * (t * L);
    }
    assert (u + w) * z == u * z + w * z;
  }

  lemma AddProducts(k: int, a: int, b: int, c: int, e: int, f: int)
    ensures k * a + k * (b + c) - k * (e - f) == k * (a + (b - e) + (c + f))
  {
  }

  /** The combinations t3 L -+ t1 R, with K = k^2 t1 t3. */
  lemma DenominatorCombinations(k: int, t1: int, t3: int, M: int, f1: int, f3: int)
    ensures
      var L, R, K := FlatDenominator(M, k, t1, f3), FlatDenominator(M, k, t3, f1), (k * k) * (t1 * t3);
      && t3 * L - t1 * R == (t3 - t1) * (M + K) + k * (t3 * f3 - t1 * f1)
      && t3 * L + t1 * R == (t3 + t1) * (M - K) + k * (t3 * f3 + t1 * f1)
  {
    var K := (k * k) * (t1 * t3);
    DistributeDenominator(t3, M, k, t1, f3, K);
    DistributeDenominator(t1, M, k, t3, f1, K);
    assert (t3 - t1) * (M + K) == t3 * M - t1 * M + t3 * K - t1 * K;
    assert (t3 + t1) * (M - K) == t3 * M + t1 * M - t3 * K - t1 * K;
    assert k * (t3 * f3 - t1 * f1) == k * (t3 * f3) - k * (t1 * f1);
    assert k * (t3 * f3 + t1 * f1) == k * (t3 * f3) + k * (t1 * f1);
  }

  lemma DistributeDenominator(s: int, M: int, k: int, t: int, f: int, K: int)
    requires K == (k * k) * (t * s)
    ensures s * FlatDenominator(M, k, t, f) == s * M - t * K + k * (s * f)
  {
    SquareDistributes(k, t);
    assert s * ((k * k) * (t * t)) == t * ((k * k) * (t * s));
    var z := (k * t) * (k * t);
    assert s * (M - z + k * f) == s * M - s * z + s * (k * f);
    assert s * (k * f) == k * (s * f);
  }

  /** The two relations between points 1 and 3 that the curve equation supplies, R1 and R2. */
  ghost function R1(a: int, g: int, t1: int, t3: int, D: int): int { a * g + (t3 - t1) * (1 - D) }

  ghost function R2(b: int, h: int, t1: int, t3: int, D: int): int { b * h + (t3 + t1) * (1 + D) }

  /** Both follow from the defects c1, c3 of points 1 and 3. */
  lemma RelationsVanish(p: int, d: int, x1: int, y1: int, x3: int, y3: int, t1: int, t3: int)
    requires p > 0 && t1 == x1 * y1 && t3 == x3 * y3
    requires Zero(Defect(d, x1, y1, t1), p) && Zero(Defect(d, x3, y3, t3), p)
    ensures Zero(R1(y1 * y3 + x1 * x3, x1 * y3 - y1 * x3, t1, t3, d * (t1 * t3)), p)
    ensures Zero(R2(y1 * x3 + x1 * y3, x1 * x3 - y1 * y3, t1, t3, d * (t1 * t3)), p)
  {
    var c1, c3, D, s1, s3 := Defect(d, x1, y1, t1), Defect(d, x3, y3, t3), d * (t1 * t3), y1 * y1 - x1 * x1, y3 * y3 - x3 * x3;
    CrossProducts(x1, y1, x3, y3);
    assert t3 * (d * (t1 * t1)) == t1 * D && t1 * (d * (t3 * t3)) == t3 * D by { Slide2(d, t1, t3); }
    assert t3 * c1 == t3 * s1 - t3 - t1 * D && t1 * c3 == t1 * s3 - t1 - t3 * D by {
      DistributeDefect(t3, s1, d * (t1 * t1));
      DistributeDefect(t1, s3, d * (t3 * t3));
    }
    assert (t3 - t1) * (1 - D) == t3 - t1 - t3 * D + t1 * D && (t3 + t1) * (1 + D) == t3 + t1 + t3 * D + t1 * D;
    Combine(R1(y1 * y3 + x1 * x3, x1 * y3 - y1 * x3, t1, t3, D), -t3, c1, t1, c3, p);
    Combine(R2(y1 * x3 + x1 * y3, x1 * x3 - y1 * y3, t1, t3, D), -t3, c1, -t1, c3, p);
  }

  lemma DistributeDefect(t: int, s: int, v: int)
    ensures t * (s - 1 - v) == t * s - t - t * v
  {
  }

  lemma Slide2(d: int, t1: int, t3: int)
    ensures t3 * (d * (t1 * t1)) == t1 * (d * (t1 * t3))
    ensures t1 * (d * (t3 * t3)) == t3 * (d * (t1 * t3))
  {
    assert t1 * (d * (t3 * t3)) == (d * t3) * (t1 * t3);
  }

  /** Products of the mixed terms a, b, g, h of points 1 and 3. */
  lemma CrossProducts(x1: int, y1: int, x3: int, y3: int)
    ensures
      var t1, t3, s1, s3, q1, q3 := x1 * y1, x3 * y3, y1 * y1 - x1 * x1, y3 * y3 - x3 * x3, x1 * x1 + y1 * y1, x3 * x3 + y3 * y3;
      var a, b, g, h := y1 * y3 + x1 * x3, y1 * x3 + x1 * y3, x1 * y3 - y1 * x3, x1 * x3 - y1 * y3;
      && a * g == t1 * s3 - t3 * s1 && b * h == -(t1 * s3) - t3 * s1
      && a * b == t3 * q1 + t1 * q3 && g * h == t3 * q1 - t1 * q3
      && 4 * (t1 * t3) == b * b - g * g && 4 * (t1 * t3) == a * a - h * h
  {
    var u, v, w, z := x1 * y3, y1 * x3, y1 * y3, x1 * x3;
    ProductOfProducts(x1, y3, y1, x3);
    ProductOfProducts(y1, y3, x1, x3);
    ProductOfProducts(y1, y3, x1, y3);
    ProductOfProducts(y1, y3, y1, x3);
    ProductOfProducts(x1, x3, x1, y3);
    ProductOfProducts(x1, x3, y1, x3);
    SumsTimesDifferences(u, v, w, z);
  }

  lemma ProductOfProducts(a: int, b: int, c: int, d: int)
    ensures (a * b) * (c * d) == (a * c) * (b * d) == (a * d) * (c * b)
  {
  }

  lemma SumsTimesDifferences(u: int, v: int, w: int, z: int)
    ensures
      var a, b, g, h := w + z, v + u, u - v, z - w;
      && a * g == w * u - w * v + z * u - z * v && b * h == v * z - v * w + u * z - u * w
      && a * b == w * v + w * u + z * v + z * u && g * h == u * z - u * w - v * z + v * w
      && 4 * (u * v) == b * b - g * g && 4 * (w * z) == a * a - h * h
  {
  }

  ghost function R3(b: int, g: int, h: int, t1: int, t3: int, f1: int, f3: int): int {
    b * (t3 * t3 - t1 * t1) + g * (t3 * f3 + t1 * f1) + 2 * ((t1 * t3) * (h * (t3 - t1)))
  }

  ghost function R4(a: int, g: int, h: int, t1: int, t3: int, f1: int, f3: int): int {
    a * (t3 * t3 - t1 * t1) + h * (t3 * f3 - t1 * f1) + 2 * ((t1 * t3) * (g * (t3 + t1)))
  }

  /** Twice R3 and twice R4 are combinations of R1 and R2. */
  lemma MixedTerms(a: int, b: int, g: int, h: int, t1: int, t3: int, f1: int, f3: int, D: int)
    requires 2 * f3 == a * b + g * h && 2 * f1 == a * b - g * h
    requires 4 * (t1 * t3) == b * b - g * g && 4 * (t1 * t3) == a * a - h * h
    ensures 2 * R3(b, g, h, t1, t3, f1, f3) == (b * (t3 + t1)) * R1(a, g, t1, t3, D) + (b * (t3 - t1)) * R2(b, h, t1, t3, D)
    ensures 2 * R4(a, g, h, t1, t3, f1, f3) == (a * (t3 + t1)) * R1(a, g, t1, t3, D) + (a * (t3 - t1)) * R2(b, h, t1, t3, D)
  {
    var m, n, v, z := t3 - t1, t3 + t1, a * b, g * h;
    assert 2 * (t3 * f3) == t3 * (v + z) && 2 * (t1 * f1) == t1 * (v - z);
    assert m * n == t3 * t3 - t1 * t1;
    HalfMixed(a, b, g, h, m, n, t1 * t3, t3 * f3 + t1 * f1);
    MixedExpansion(b, m, n, a * g, b * h, D);
    HalfMixed(b, a, h, g, n, m, t1 * t3, t3 * f3 - t1 * f1);
    MixedExpansion(a, m, n, a * g, b * h, D);
  }

  lemma HalfMixed(a: int, b: int, g: int, h: int, m: int, n: int, T: int, S: int)
    requires 4 * T == b * b - g * g && 2 * S == (a * b) * n + (g * h) * m
    ensures 2 * (g * S) + 4 * (T * (h * m)) == (b * n) * (a * g) + (b * m) * (b * h)
  {
    var w := h * m;
    assert 4 * (T * w) == (b * b) * w - (g * g) * w;
    assert 2 * (g * S) == g * ((a * b) * n) + g * ((g * h) * m);
    assert g * ((g * h) * m) == (g * g) * w;
    assert (b * b) * w == (b * m) * (b * h);
    assert g * ((a * b) * n) == (b * n) * (a * g) by { Rearrange(a, b, g, n); }
  }

  lemma Rearrange(a: int, b: int, g: int, n: int)
    ensures g * ((a * b) * n) == (b * n) * (a * g)
  {
  }

  lemma MixedExpansion(b: int, m: int, n: int, r: int, s: int, D: int)
    ensures (b * n) * (r + m * (1 - D)) + (b * m) * (s + n * (1 + D)) == (b * n) * r + (b * m) * s + 2 * (b * (m * n))
  {
    var z := b * (m * n);
    assert (b * n) * (m * (1 - D)) == z * (1 - D) && (b * m) * (n * (1 + D)) == z * (1 + D);
  }

  lemma SumTimesGap(X: int, Y: int, a: int, b: int, g: int, h: int, k: int, W: int)
    ensures (X * a + Y * b) * (k * W + g * h) == (k * X) * (a * W) + (k * Y) * (b * W) + (X * h) * (a * g) + (Y * g) * (b * h)
  {
    Swap(X, a, k, W);
    Swap(Y, b, k, W);
    Swap(X, a, h, g);
    Swap(Y, b, g, h);
    var u, v, w, z := X * a, Y * b, k * W, g * h;
    assert (u + v) * (w + z) == u * w + v * w + u * z + v * z;
  }

  lemma WeightedTerm(X: int, Y: int, delta: int, T: int, h: int, m: int, D: int, v: int)
    ensures var k := delta * (X * Y);
      (X * h) * (m * (1 - D + 2 * ((delta * T) * (Y * Y))) + k * v) == (X * h) * (m * (1 - D)) + 2 * ((k * Y) * (T * (h * m))) + (k * X) * (h * v)
  {
    var k, V := delta * (X * Y), (delta * T) * (Y * Y);
    assert m * (1 - D + 2 * V) == m * (1 - D) + 2 * (m * V);
    assert (X * h) * (k * v) == (k * X) * (h * v);
    assert (X * h) * (m * V) == (k * Y) * (T * (h * m)) by { MoveFactors(X, Y, delta, T, h, m); }
    var r, s := m * (1 - D), m * V;
    assert (X * h) * (r + 2 * s + k * v) == (X * h) * r + 2 * ((X * h) * s) + (X * h) * (k * v);
  }

  lemma MoveFactors(X: int, Y: int, delta: int, T: int, h: int, m: int)
    ensures (X * h) * (m * ((delta * T) * (Y * Y))) == ((delta * (X * Y)) * Y) * (T * (h * m))
  {
    var z := T * (h * m);
    assert (delta * (X * Y)) * Y == (delta * X) * (Y * Y);
    assert (X * h) * (m * ((delta * T) * (Y * Y))) == (X * delta) * (Y * Y) * z;
  }

  /** The cross difference with M + K and M - K reduced, regrouped by R1, R2 and the two mixed terms. */
  lemma Regrouped(X: int, Y: int, delta: int, D: int, a: int, b: int, g: int, h: int, t1: int, t3: int, f1: int, f3: int)
    requires f3 - f1 == g * h
    ensures
      var k, T, W := delta * (X * Y), t1 * t3, t3 * t3 - t1 * t1;
      (X * a + Y * b) * (k * W + (f3 - f1))
      + (X * h) * ((t3 - t1) * (1 - D + 2 * ((delta * T) * (Y * Y))) + k * (t3 * f3 - t1 * f1))
      + (Y * g) * ((t3 + t1) * (1 + D + 2 * ((delta * T) * (X * X))) + k * (t3 * f3 + t1 * f1))
      == (X * h) * R1(a, g, t1, t3, D) + (Y * g) * R2(b, h, t1, t3, D)
       + (k * Y) * R3(b, g, h, t1, t3, f1, f3) + (k * X) * R4(a, g, h, t1, t3, f1, f3)
  {
    var k, T, W := delta * (X * Y), t1 * t3, t3 * t3 - t1 * t1;
    SumTimesGap(X, Y, a, b, g, h, k, W);
    WeightedTerm(X, Y, delta, T, h, t3 - t1, D, t3 * f3 - t1 * f1);
    WeightedTerm(Y, X, delta, T, g, t3 + t1, -D, t3 * f3 + t1 * f1);
    assert delta * (Y * X) == k;
    Spread(X * h, a * g, (t3 - t1) * (1 - D));
    Spread(Y * g, b * h, (t3 + t1) * (1 + D));
    Spread3(k * Y, b * W, g * (t3 * f3 + t1 * f1), T * (h * (t3 - t1)));
    Spread3(k * X, a * W, h * (t3 * f3 - t1 * f1), T * (g * (t3 + t1)));
  }

  lemma Spread(k: int, u: int, v: int)
    ensures k * (u + v) == k * u + k * v
  {
  }

  lemma Spread3(k: int, u: int, v: int, w: int)
    ensures k * (u + v + 2 * w) == k * u + k * v + 2 * (k * w)
  {
  }

  ghost predicate Mixed(a: int, b: int, g: int, h: int, t1: int, t3: int, f1: int, f3: int) {
    && 2 * f3 == a * b + g * h && 2 * f1 == a * b - g * h
    && 4 * (t1 * t3) == b * b - g * g && 4 * (t1 * t3) == a * a - h * h
  }

  /** The factor of CrossDifference once t3 L -+ t1 R are written with A = M + K and B = M - K. */
  ghost function Form(s: int, u: int, w: int, k: int, A: int, B: int, t1: int, t3: int, f1: int, f3: int): int {
    s * (k * (t3 * t3 - t1 * t1) + (f3 - f1))
    + u * ((t3 - t1) * A + k * (t3 * f3 - t1 * f1))
    + w * ((t3 + t1) * B + k * (t3 * f3 + t1 * f1))
  }

  lemma FormVanishes(p: int, X: int, Y: int, delta: int, D: int, a: int, b: int, g: int, h: int, t1: int, t3: int, f1: int, f3: int)
    requires p > 0 && Mixed(a, b, g, h, t1, t3, f1, f3)
    requires Zero(R1(a, g, t1, t3, D), p) && Zero(R2(b, h, t1, t3, D), p)
    ensures var V := delta * (t1 * t3);
      Zero(2 * Form(X * a + Y * b, X * h, Y * g, delta * (X * Y), 1 - D + 2 * (V * (Y * Y)), 1 + D + 2 * (V * (X * X)), t1, t3, f1, f3), p)
  {
    Regrouped(X, Y, delta, D, a, b, g, h, t1, t3, f1, f3);
    MixedTerms(a, b, g, h, t1, t3, f1, f3, D);
    Combine2R(p, a, b, t3 - t1, t3 + t1, delta * (X * Y), X, Y, X * h, Y * g, R1(a, g, t1, t3, D), R2(b, h, t1, t3, D),
              R3(b, g, h, t1, t3, f1, f3), R4(a, g, h, t1, t3, f1, f3));
  }

  lemma PerturbForm(p: int, s: int, u: int, w: int, k: int, A: int, B: int, z: int, t1: int, t3: int, f1: int, f3: int)
    requires p > 0 && Zero(z, p) && Zero(2 * Form(s, u, w, k, A, B, t1, t3, f1, f3), p)
    ensures Zero(2 * Form(s, u, w, k, A + z, B - z, t1, t3, f1, f3), p)
  {
    Perturb(u, t3 - t1, A, z, k * (t3 * f3 - t1 * f1));
    Perturb(w, t3 + t1, B, -z, k * (t3 * f3 + t1 * f1));
    var v := u * (t3 - t1) - w * (t3 + t1);
    assert (u * (t3 - t1)) * z + (w * (t3 + t1)) * (-z) == v * z;
    Combine(2 * Form(s, u, w, k, A + z, B - z, t1, t3, f1, f3), 1, 2 * Form(s, u, w, k, A, B, t1, t3, f1, f3), 2 * v, z, p);
  }

  /** Both nested sums have the same value: NR * DL = NL * DR modulo p, up to the factor 2. */
  lemma CoreVanishes(p: int, X: int, Y: int, delta: int, D: int, a: int, b: int, g: int, h: int,
                     t1: int, t3: int, f1: int, f3: int, k: int, M: int)
    requires p > 0 && Mixed(a, b, g, h, t1, t3, f1, f3)
    requires Zero(R1(a, g, t1, t3, D), p) && Zero(R2(b, h, t1, t3, D), p)
    requires k == delta * (X * Y) && M == 1 + (delta * (t1 * t3)) * (X * X + Y * Y)
    requires Zero((k * k) * (t1 * t3) - ((delta * (t1 * t3)) * (Y * Y - X * X) - D), p)
    ensures
      var s, u, w, L, R := X * a + Y * b, X * h, Y * g, FlatDenominator(M, k, t1, f3), FlatDenominator(M, k, t3, f1);
      Zero(2 * (FlatNumerator(s, k, t3, u + w) * L - FlatNumerator(s, k, t1, u - w) * R), p)
  {
    hide Zero, FlatNumerator, FlatDenominator, Form, R1, R2, Mixed;
    var s, u, w := X * a + Y * b, X * h, Y * g;
    var K, V := (k * k) * (t1 * t3), delta * (t1 * t3);
    var A, B, z := 1 - D + 2 * (V * (Y * Y)), 1 + D + 2 * (V * (X * X)), K - (V * (Y * Y - X * X) - D);
    assert M + K == A + z && M - K == B - z by { DifferenceOfSquares(V, X, Y); }
    FormVanishes(p, X, Y, delta, D, a, b, g, h, t1, t3, f1, f3);
    PerturbForm(p, s, u, w, k, A, B, z, t1, t3, f1, f3);
    DifferenceIsForm(s, u, w, k, M, K, t1, t3, f1, f3);
    TwiceMultiple(p, k, Form(s, u, w, k, A + z, B - z, t1, t3, f1, f3));
  }

  lemma TwiceMultiple(p: int, k: int, F: int)
    requires p > 0 && Zero(2 * F, p)
    ensures Zero(2 * (k * F), p)
  {
    ZeroMul(2 * F, k, p);
    assert 2 * (k * F) == k * (2 * F);
  }

  lemma DifferenceOfSquares(V: int, X: int, Y: int)
    ensures V * (X * X + Y * Y) == V * (X * X) + V * (Y * Y) && V * (Y * Y - X * X) == V * (Y * Y) - V * (X * X)
  {
  }

  lemma DifferenceIsForm(s: int, u: int, w: int, k: int, M: int, K: int, t1: int, t3: int, f1: int, f3: int)
    requires K == (k * k) * (t1 * t3)
    ensures
      var L, R := FlatDenominator(M, k, t1, f3), FlatDenominator(M, k, t3, f1);
      FlatNumerator(s, k, t3, u + w) * L - FlatNumerator(s, k, t1, u - w) * R == k * Form(s, u, w, k, M + K, M - K, t1, t3, f1, f3)
  {
    var L, R := FlatDenominator(M, k, t1, f3), FlatDenominator(M, k, t3, f1);
    DenominatorGap(k, t1, t3, M, f1, f3);
    CrossDifference(s, k, t1, t3, u, w, L, R, k * (t3 * t3 - t1 * t1) + (f3 - f1));
    DenominatorCombinations(k, t1, t3, M, f1, f3);
  }

  lemma Perturb(u: int, m: int, A: int, z: int, v: int)
    ensures u * (m * (A + z) + v) == u * (m * A + v) + (u * m) * z
  {
    assert u * (m * A + m * z + v) == u * (m * A + v) + u * (m * z);
  }

  lemma Combine2R(p: int, a: int, b: int, m: int, n: int, k: int, X: int, Y: int, u: int, w: int,
                  r1: int, r2: int, r3: int, r4: int)
    requires p > 0 && Zero(r1, p) && Zero(r2, p)
    requires 2 * r3 == (b * n) * r1 + (b * m) * r2 && 2 * r4 == (a * n) * r1 + (a * m) * r2
    ensures Zero(2 * (u * r1 + w * r2 + (k * Y) * r3 + (k * X) * r4), p)
  {
    Combine(2 * r3, b * n, r1, b * m, r2, p);
    Combine(2 * r4, a * n, r1, a * m, r2, p);
    var y, x := k * Y, k * X;
    assert 2 * (y * r3) == y * (2 * r3) && 2 * (x * r4) == x * (2 * r4);
    Combine4(2 * (u * r1 + w * r2 + y * r3 + x * r4), 2 * u, r1, 2 * w, r2, y, 2 * r3, x, 2 * r4, p);
  }

  // ---------- From nested sums to the flat form ----------

  lemma FlattenNumerator(u: int, v: int, m: int, n: int, e: int, s: int, z: int, k: int, t: int)
    requires u * n + v * m == s && u * n - v * m == z && e == k * t
    ensures Numerator(u, v, m, n, e) == FlatNumerator(s, k, t, z)
  {
    assert u * (n * (1 + e)) == u * n + (u * n) * e && v * (m * (1 - e)) == v * m - (v * m) * e;
    assert (u * n - v * m) * e == (u * n) * e - (v * m) * e;
  }

  lemma FlattenDenominator(delta: int, X: int, Y: int, t1: int, t2: int, t3: int, m: int, n: int, q1: int, q2: int, e: int)
    requires t2 == X * Y && m * n == t2 * q1 + t1 * q2 && q2 == X * X + Y * Y
    requires e * e == ((delta * (X * Y)) * t1) * ((delta * (X * Y)) * t1)
    ensures Denominator(delta * t3, m, n, e) == FlatDenominator(1 + (delta * (t1 * t3)) * (X * X + Y * Y), delta * (X * Y), t1, t3 * q1)
  {
    assert (1 + e) * (1 - e) == 1 - e * e;
    assert (delta * t3) * (t2 * q1) == (delta * t2) * (t3 * q1) by { Swap(delta, t3, t2, q1); }
    assert (delta * t3) * (t1 * q2) == (delta * (t1 * t3)) * q2;
    Spread(delta * t3, t2 * q1, t1 * q2);
  }

  ghost function TermA(a: Affine, q: Affine): int { a.y * q.y + a.x * q.x }
  ghost function TermB(a: Affine, q: Affine): int { a.y * q.x + a.x * q.y }
  ghost function TermG(a: Affine, q: Affine): int { a.x * q.y - a.y * q.x }
  ghost function TermH(a: Affine, q: Affine): int { a.x * q.x - a.y * q.y }

  ghost function Norm(a: Affine): int { a.x * a.x + a.y * a.y }

  lemma MixedNumerators(x1: int, y1: int, x2: int, y2: int, x3: int, y3: int)
    ensures
      var m, n := x1 * y2 + y1 * x2, y1 * y2 + x1 * x2;
      var a, b, g, h := y1 * y3 + x1 * x3, y1 * x3 + x1 * y3, x1 * y3 - y1 * x3, x1 * x3 - y1 * y3;
      && x3 * n + y3 * m == x2 * a + y2 * b && x3 * n - y3 * m == x2 * h - y2 * g
      && y3 * n + x3 * m == y2 * a + x2 * b && y3 * n - x3 * m == -(y2 * h - x2 * g)
  {
    assert x3 * (y1 * y2) == y2 * (y1 * x3) && x3 * (x1 * x2) == x2 * (x1 * x3);
    assert y3 * (x1 * y2) == y2 * (x1 * y3) && y3 * (y1 * x2) == x2 * (y1 * y3);
    assert y3 * (y1 * y2) == y2 * (y1 * y3) && y3 * (x1 * x2) == x2 * (x1 * y3);
    assert x3 * (x1 * y2) == y2 * (x1 * x3) && x3 * (y1 * x2) == x2 * (y1 * x3);
  }

  ghost function FlatL(V: int, k: int, a: Affine, b: Affine, q: Affine): int {
    FlatDenominator(1 + V * Norm(b), k, a.x * a.y, (q.x * q.y) * Norm(a))
  }

  lemma FlattenX(c: Curve, a: Affine, b: Affine, q: Affine)
    ensures
      var m, n, e := a.x * b.y + a.y * b.x, a.y * b.y + a.x * b.x, Cross(c, a, b);
      var k, V := c.d * (b.x * b.y), c.d * ((a.x * a.y) * (q.x * q.y));
      && Denominator(c.d * (q.x * q.y), m, n, e) == FlatL(V, k, a, b, q)
      && Numerator(q.x, q.y, m, n, e) == FlatNumerator(b.x * TermA(a, q) + b.y * TermB(a, q), k, a.x * a.y, b.x * TermH(a, q) - b.y * TermG(a, q))
  {
    var t1, t2, m, n, e := a.x * a.y, b.x * b.y, a.x * b.y + a.y * b.x, a.y * b.y + a.x * b.x, Cross(c, a, b);
    assert e == (c.d * t2) * t1 by { Reassociate(c.d, t2, t1); }
    assert m * n == t2 * Norm(a) + t1 * Norm(b) by { NumeratorIdentities(a.x, a.y, b.x, b.y); }
    MixedNumerators(a.x, a.y, b.x, b.y, q.x, q.y);
    FlattenNumerator(q.x, q.y, m, n, e, b.x * TermA(a, q) + b.y * TermB(a, q), b.x * TermH(a, q) - b.y * TermG(a, q), c.d * t2, t1);
    FlattenDenominator(c.d, b.x, b.y, t1, t2, q.x * q.y, m, n, Norm(a), Norm(b), e);
  }

  lemma FlattenY(c: Curve, a: Affine, b: Affine, q: Affine)
    ensures
      var m, n, e := a.x * b.y + a.y * b.x, a.y * b.y + a.x * b.x, Cross(c, a, b);
      var k, V := (-c.d) * (b.y * b.x), (-c.d) * ((a.x * a.y) * (q.x * q.y));
      && Denominator((-c.d) * (q.x * q.y), m, n, e) == FlatL(V, k, a, b, q)
      && Numerator(q.y, q.x, m, n, e) == FlatNumerator(b.y * TermA(a, q) + b.x * TermB(a, q), k, a.x * a.y, b.y * TermH(a, q) - b.x * TermG(a, q))
  {
    var t1, t2, m, n, e := a.x * a.y, b.x * b.y, a.x * b.y + a.y * b.x, a.y * b.y + a.x * b.x, Cross(c, a, b);
    var k := (-c.d) * (b.y * b.x);
    assert k == -(c.d * t2);
    assert e == (c.d * t2) * t1 by { Reassociate(c.d, t2, t1); }
    assert m * n == t2 * Norm(a) + t1 * Norm(b) by { NumeratorIdentities(a.x, a.y, b.x, b.y); }
    MixedNumerators(a.x, a.y, b.x, b.y, q.x, q.y);
    var z := b.y * TermH(a, q) - b.x * TermG(a, q);
    FlattenNumerator(q.y, q.x, m, n, e, b.y * TermA(a, q) + b.x * TermB(a, q), -z, -k, t1);
    assert ((-k) * t1) * (-z) == (k * t1) * z && (k * t1) * (k * t1) == e * e;
    FlattenDenominator(-c.d, b.y, b.x, t1, t2, q.x * q.y, m, n, Norm(a), Norm(b), e);
  }

  lemma TermsSymmetric(a: Affine, q: Affine)
    ensures TermA(q, a) == TermA(a, q) && TermB(q, a) == TermB(a, q)
    ensures TermG(q, a) == -TermG(a, q) && TermH(q, a) == TermH(a, q)
  {
  }

  lemma MixedHolds(a: Affine, q: Affine)
    ensures Mixed(TermA(a, q), TermB(a, q), TermG(a, q), TermH(a, q), a.x * a.y, q.x * q.y,
                  (a.x * a.y) * Norm(q), (q.x * q.y) * Norm(a))
  {
    CrossProducts(a.x, a.y, q.x, q.y);
  }

  /** r is the flat fraction for (a + b) + q; (X, Y) and delta select the coordinate. */
  ghost predicate FlatFraction(c: Curve, a: Affine, b: Affine, q: Affine, X: int, Y: int, delta: int, r: int)
    requires c.p > 0
  {
    var t1, t3, k := a.x * a.y, q.x * q.y, delta * (X * Y);
    var L := FlatL(delta * (t1 * t3), k, a, b, q);
    var N := FlatNumerator(X * TermA(a, q) + Y * TermB(a, q), k, t1, X * TermH(a, q) - Y * TermG(a, q));
    !Zero(L, c.p) && Zero(r * L - N, c.p)
  }

  /** The curve equation of the middle point in the form CoreVanishes needs. */
  ghost predicate MiddleRelation(c: Curve, a: Affine, q: Affine, X: int, Y: int, delta: int)
    requires c.p > 0
  {
    var T, k := (a.x * a.y) * (q.x * q.y), delta * (X * Y);
    Zero((k * k) * T - ((delta * T) * (Y * Y - X * X) - c.d * T), c.p)
  }

  /** The fraction for (q + b) + a in the terms of the pair (a, q). */
  lemma SwapFraction(c: Curve, a: Affine, b: Affine, q: Affine, X: int, Y: int, delta: int, v: int)
    requires c.p > 0 && FlatFraction(c, q, b, a, X, Y, delta, v)
    ensures
      var t1, t3, k := a.x * a.y, q.x * q.y, delta * (X * Y);
      var R := FlatDenominator(1 + (delta * (t1 * t3)) * Norm(b), k, t3, t1 * Norm(q));
      var N := FlatNumerator(X * TermA(a, q) + Y * TermB(a, q), k, t3, X * TermH(a, q) + Y * TermG(a, q));
      !Zero(R, c.p) && Zero(v * R - N, c.p)
  {
    TermsSymmetric(a, q);
    SameProduct(a.x * a.y, q.x * q.y, delta, Y, TermG(a, q));
    hide TermA, TermB, TermG, TermH, Zero, FlatNumerator, FlatDenominator, Norm;
  }

  lemma RelationsHold(c: Curve, a: Affine, q: Affine)
    requires c.p > 0 && OnCurve(c, a) && OnCurve(c, q)
    ensures
      var t1, t3, A, B, G, H := a.x * a.y, q.x * q.y, TermA(a, q), TermB(a, q), TermG(a, q), TermH(a, q);
      && Zero(R1(A, G, t1, t3, c.d * (t1 * t3)), c.p) && Zero(R2(B, H, t1, t3, c.d * (t1 * t3)), c.p)
      && Mixed(A, B, G, H, t1, t3, t1 * Norm(q), t3 * Norm(a))
  {
    hide Zero, R1, R2;
    RelationsVanish(c.p, c.d, a.x, a.y, q.x, q.y, a.x * a.y, q.x * q.y);
    MixedHolds(a, q);
  }

  lemma FlatAgree(c: Curve, a: Affine, b: Affine, q: Affine, X: int, Y: int, delta: int, u: int, v: int)
    requires Complete(c) && OnCurve(c, a) && OnCurve(c, b) && OnCurve(c, q)
    requires 0 <= u < c.p && 0 <= v < c.p && X * X + Y * Y == Norm(b)
    requires MiddleRelation(c, a, q, X, Y, delta)
    requires FlatFraction(c, a, b, q, X, Y, delta, u) && FlatFraction(c, q, b, a, X, Y, delta, v)
    ensures u == v
  {
    var t1, t3, A, B, G, H := a.x * a.y, q.x * q.y, TermA(a, q), TermB(a, q), TermG(a, q), TermH(a, q);
    var k, M := delta * (X * Y), 1 + (delta * (t1 * t3)) * Norm(b);
    hide Zero, FlatNumerator, FlatDenominator, Mixed, R1, R2, TermA, TermB, TermG, TermH, Norm;
    SwapFraction(c, a, b, q, X, Y, delta, v);
    RelationsHold(c, a, q);
    CoreVanishes(c.p, X, Y, delta, c.d * (t1 * t3), A, B, G, H, t1, t3, t1 * Norm(q), t3 * Norm(a), k, M);
    FractionsEqual(c.p, u, v,
                   FlatDenominator(M, k, t1, t3 * Norm(a)), FlatNumerator(X * A + Y * B, k, t1, X * H - Y * G),
                   FlatDenominator(M, k, t3, t1 * Norm(q)), FlatNumerator(X * A + Y * B, k, t3, X * H + Y * G));
  }

  /** The coordinates of (a + b) + q are flat fractions. */
  lemma SumsAreFlat(c: Curve, a: Affine, b: Affine, q: Affine)
    requires Complete(c) && OnCurve(c, a) && OnCurve(c, b) && OnCurve(c, q)
    ensures FlatFraction(c, a, b, q, b.x, b.y, c.d, Add(c, Add(c, a, b), q).x)
    ensures FlatFraction(c, a, b, q, b.y, b.x, -c.d, Add(c, Add(c, a, b), q).y)
  {
    hide Add, Zero, FlatL, FlatNumerator, Denominator, Numerator, TermA, TermB, TermG, TermH, OnCurve;
    NestedSum(c, a, b, q);
    FlattenX(c, a, b, q);
    FlattenY(c, a, b, q);
    assert (-c.d) * (q.x * q.y) == -(c.d * (q.x * q.y));
  }

  lemma MiddleRelations(c: Curve, a: Affine, b: Affine, q: Affine)
    requires c.p > 0 && OnCurve(c, b)
    ensures MiddleRelation(c, a, q, b.x, b.y, c.d) && MiddleRelation(c, a, q, b.y, b.x, -c.d)
  {
    MiddlePoint(c.p, c.d, b.x, b.y, a.x * a.y, q.x * q.y);
    hide Zero;
    NegatedMiddle(c.d, b.x, b.y, (a.x * a.y) * (q.x * q.y));
  }

  /** (a + b) + q and (q + b) + a agree. */
  lemma NestedSumsAgree(c: Curve, a: Affine, b: Affine, q: Affine)
    requires Complete(c) && OnCurve(c, a) && OnCurve(c, b) && OnCurve(c, q)
    ensures Add(c, Add(c, a, b), q) == Add(c, Add(c, q, b), a)
  {
    Reduced(c, a, b, q);
    Reduced(c, q, b, a);
    hide Add, FlatFraction, MiddleRelation;
    var r, s := Add(c, Add(c, a, b), q), Add(c, Add(c, q, b), a);
    SumsAreFlat(c, a, b, q);
    SumsAreFlat(c, q, b, a);
    MiddleRelations(c, a, b, q);
    FlatAgree(c, a, b, q, b.x, b.y, c.d, r.x, s.x);
    FlatAgree(c, a, b, q, b.y, b.x, -c.d, r.y, s.y);
  }

  lemma SameProduct(t1: int, t3: int, d: int, y: int, g: int)
    ensures d * (t1 * t3) == d * (t3 * t1) && y * (-g) == -(y * g)
  {
  }

  lemma NegatedMiddle(d: int, x: int, y: int, T: int)
    ensures (((-d) * (y * x)) * ((-d) * (y * x))) * T == ((d * (x * y)) * (d * (x * y))) * T
    ensures ((-d) * T) * (x * x - y * y) == (d * T) * (y * y - x * x)
  {
    assert (-d) * (y * x) == -(d * (x * y));
  }

  lemma Reduced(c: Curve, a: Affine, b: Affine, q: Affine)
    requires Complete(c) && OnCurve(c, a) && OnCurve(c, b) && OnCurve(c, q)
    ensures OnCurve(c, Add(c, Add(c, a, b), q))
  {
    AddOnCurve(c, a, b);
    AddOnCurve(c, Add(c, a, b), q);
  }

  lemma FractionIdentity(u: int, v: int, L: int, NL: int, R: int, NR: int)
    ensures (L * R) * (u - v) == R * (u * L - NL) + (-L) * (v * R - NR) + (-1) * (NR * L - NL * R)
  {
    assert (L * R) * (u - v) == R * (u * L) - L * (v * R);
  }

  lemma FractionsEqual(p: int, u: int, v: int, L: int, NL: int, R: int, NR: int)
    requires Prime(p) && p > 2 && 0 <= u < p && 0 <= v < p && !Zero(L, p) && !Zero(R, p)
    requires Zero(u * L - NL, p) && Zero(v * R - NR, p) && Zero(2 * (NR * L - NL * R), p)
    ensures u == v
  {
    if Zero(2, p) { ReducedEqual(2, 0, p); }
    Cancel(2, NR * L - NL * R, p);
    FractionIdentity(u, v, L, NL, R, NR);
    Combine3((L * R) * (u - v), R, u * L - NL, -L, v * R - NR, -1, NR * L - NL * R, p);
    NonZeroProduct(L, R, p);
    Cancel(L * R, u - v, p);
    ReducedEqual(u, v, p);
  }

  /** (k k) t1 t3 in terms of the middle point's curve equation; covers delta = d and delta = -d. */
  lemma MiddlePoint(p: int, d: int, x2: int, y2: int, t1: int, t3: int)
    requires p > 0 && Zero(Defect(d, x2, y2, x2 * y2), p)
    ensures var k, D := d * (x2 * y2), d * (t1 * t3);
      Zero((k * k) * (t1 * t3) - (D * (y2 * y2 - x2 * x2) - D), p)
  {
    var t2, D := x2 * y2, d * (t1 * t3);
    SplitSquare(d, t2, t1 * t3);
    MiddleIdentity(D, y2 * y2 - x2 * x2, d * (t2 * t2), ((d * t2) * (d * t2)) * (t1 * t3));
    ZeroMul(Defect(d, x2, y2, t2), -D, p);
  }

  lemma MiddleIdentity(D: int, s: int, v: int, K: int)
    requires K == D * v
    ensures K - (D * s - D) == (s - 1 - v) * (-D)
  {
    assert D * (s - 1 - v) == D * s - D - D * v;
  }

  lemma SplitSquare(d: int, t: int, T: int)
    ensures ((d * t) * (d * t)) * T == (d * T) * (d * (t * t))
  {
  }

  // ---------- The group laws ----------

  lemma AddCommutes(c: Curve, a: Affine, b: Affine)
    requires c.p > 1
    ensures Add(c, a, b) == Add(c, b, a)
  {
    var t1, t2 := a.x * a.y, b.x * b.y;
    assert t1 * t2 == t2 * t1;
  }

  /** The Edwards addition of curve points is associative. */
  lemma AddAssociates(c: Curve, a: Affine, b: Affine, q: Affine)
    requires Complete(c) && OnCurve(c, a) && OnCurve(c, b) && OnCurve(c, q)
    ensures Add(c, Add(c, a, b), q) == Add(c, a, Add(c, b, q))
  {
    NestedSumsAgree(c, a, b, q);
    AddCommutes(c, q, b);
    AddCommutes(c, Add(c, b, q), a);
  }

  lemma NeutralOnCurve(c: Curve)
    requires Complete(c)
    ensures OnCurve(c, NEUTRAL)
  {
    MultipleIsZero(0, c.p, 0);
  }

  lemma AddNeutral(c: Curve, a: Affine)
    requires Complete(c) && OnCurve(c, a)
    ensures Add(c, a, NEUTRAL) == a && Add(c, NEUTRAL, a) == a
  {
    NeutralOnCurve(c);
    assert Cross(c, a, NEUTRAL) == 0;
    MultipleIsZero(0, c.p, 0);
    SumUnique(c, a, NEUTRAL, a);
    AddCommutes(c, a, NEUTRAL);
  }

  function Negate(c: Curve, a: Affine): Affine
    requires c.p > 0
  {
    Affine(Mod(-a.x, c.p), a.y)
  }

  /** The mirror image (-x, y) is the inverse. */
  lemma AddNegation(c: Curve, a: Affine)
    requires Complete(c) && OnCurve(c, a)
    ensures OnCurve(c, Negate(c, a)) && Add(c, a, Negate(c, a)) == NEUTRAL
  {
    var p, n := c.p, Negate(c, a);
    ModSpec(-a.x, p);
    var z := a.x + n.x;
    ZeroAdd(-a.x - n.x, 0, p);
    assert z == -(-a.x - n.x);
    NegationDefect(p, c.d, a.x, n.x, a.y);
    NeutralOnCurve(c);
    NegationSum(c, a, n);
    SumUnique(c, a, n, NEUTRAL);
  }

  lemma NegationDefect(p: int, d: int, x: int, n: int, y: int)
    requires p > 0 && Zero(x + n, p) && Zero(Defect(d, x, y, x * y), p)
    ensures Zero(Defect(d, n, y, n * y), p)
  {
    var v := d * (y * y);
    assert d * ((x * y) * (x * y)) == v * (x * x) && d * ((n * y) * (n * y)) == v * (n * n) by {
      FactorOut(d, x, y);
      FactorOut(d, n, y);
    }
    assert x * x - n * n == (x - n) * (x + n);
    assert v * (x * x) - v * (n * n) == v * ((x - n) * (x + n));
    ZeroMul(x + n, x - n, p);
    Combine(Defect(d, n, y, n * y), 1, Defect(d, x, y, x * y), 1 + v, (x - n) * (x + n), p);
  }

  lemma FactorOut(d: int, x: int, y: int)
    ensures d * ((x * y) * (x * y)) == (d * (y * y)) * (x * x)
  {
    SquareDistributes(x, y);
    assert d * ((x * x) * (y * y)) == (d * (y * y)) * (x * x);
  }

  lemma NegationSum(c: Curve, a: Affine, n: Affine)
    requires c.p > 0 && n.y == a.y && Zero(a.x + n.x, c.p) && Zero(Defect(c.d, a.x, a.y, a.x * a.y), c.p)
    ensures IsSum(c, a, n, NEUTRAL)
  {
    var p, x, y, z, e := c.p, a.x, a.y, a.x + n.x, Cross(c, a, n);
    assert x * y + y * n.x == y * z;
    ZeroMul(z, y, p);
    ZeroAdd(y * z, 0, p);
    var D, v := Defect(c.d, x, y, x * y), c.d * (y * y);
    NegationCross(c.d, x, n.x, y);
    FactorOut(c.d, x, y);
    MirroredProduct(x, n.x);
    hide Zero, Defect, Cross;
    Combine3(1 * (1 - e) - (y * y + x * n.x), -1, D, -(v * x), z, -x, z, p);
  }

  lemma MirroredProduct(x: int, m: int)
    ensures x * m == x * (x + m) - x * x
  {
  }

  lemma NegationCross(d: int, x: int, m: int, y: int)
    ensures
      var v := d * (y * y);
      d * ((x * y) * (m * y)) == (v * x) * (x + m) - v * (x * x)
  {
    var v := d * (y * y);
    assert (x * y) * (m * y) == (y * y) * (x * m);
    assert v * (x * m) == (v * x) * m;
    assert (v * x) * (x + m) == (v * x) * x + (v * x) * m;
  }
}

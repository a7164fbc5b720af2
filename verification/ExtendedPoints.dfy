/**
 The projective points (X, Y, Z, T) of crypto.ts with x = X/Z, y = Y/Z, xy = T/Z: addition,
 doubling and double-and-add, proved against the affine group.
 */
module ExtendedPoints {
  import opened ModularArithmetic
  import opened PrimeField
  import opened EdwardsCurve
  import opened EdwardsGroup

  datatype Point = Point(X: int, Y: int, Z: int, T: int)

  const ZERO: Point := Point(0, 1, 1, 0)

  /** Extended coordinates of a curve point, as section 5.1.4 of RFC 8032 defines them. */
  ghost predicate Valid(c: Curve, p: Point)
    requires c.p > 0
  {
    && !Zero(p.Z, c.p)
    && Zero(p.X * p.Y - p.Z * p.T, c.p)
    && Zero(p.Y * p.Y - p.X * p.X - p.Z * p.Z - c.d * (p.T * p.T), c.p)
  }

  function ToAffine(c: Curve, p: Point): Affine
    requires c.p > 1
  {
    var zi := Inverse(p.Z, c.p);
    Affine(Mod(p.X * zi, c.p), Mod(p.Y * zi, c.p))
  }

  ghost predicate Represents(c: Curve, p: Point, a: Affine)
    requires c.p > 0
  {
    && !Zero(p.Z, c.p)
    && Zero(p.X - a.x * p.Z, c.p)
    && Zero(p.Y - a.y * p.Z, c.p)
    && Zero(p.T - (a.x * a.y) * p.Z, c.p)
  }

  // ---------- The operations of the source ----------

  function PointAdd(c: Curve, p1: Point, p2: Point): Point
    requires c.p > 0
  {
    var A := Mod((p1.Y - p1.X) * (p2.Y - p2.X), c.p);
    var B := Mod((p1.Y + p1.X) * (p2.Y + p2.X), c.p);
    var C := Mod(p1.T * 2 * c.d * p2.T, c.p);
    var DD := Mod(p1.Z * 2 * p2.Z, c.p);
    var E := Mod(B - A, c.p);
    var F := Mod(DD - C, c.p);
    var G := Mod(DD + C, c.p);
    var H := Mod(B + A, c.p);
    Point(Mod(E * F, c.p), Mod(G * H, c.p), Mod(F * G, c.p), Mod(E * H, c.p))
  }

  function PointDouble(c: Curve, p: Point): Point
    requires c.p > 0
  {
    var A := Mod(p.X * p.X, c.p);
    var B := Mod(p.Y * p.Y, c.p);
    var C := Mod(2 * p.Z * p.Z, c.p);
    var H := Mod(A + B, c.p);
    var E := Mod(H - Mod((p.X + p.Y) * (p.X + p.Y), c.p), c.p);
    var G := Mod(A - B, c.p);
    var F := Mod(C + G, c.p);
    Point(Mod(E * F, c.p), Mod(G * H, c.p), Mod(F * G, c.p), Mod(E * H, c.p))
  }

  // ---------- Extended and affine coordinates ----------

  /** XY = ZT is the same as T = xyZ. */
  lemma ProductCoordinate(m: int, X: int, Y: int, Z: int, T: int, x: int, y: int)
    requires Prime(m) && !Zero(Z, m) && Zero(X - x * Z, m) && Zero(Y - y * Z, m)
    ensures Zero(X * Y - Z * T, m) <==> Zero(T - (x * y) * Z, m)
  {
    ProductCongruent(X, x * Z, Y, y * Z, m);
    var w, t := (x * Z) * (y * Z), x * y;
    assert w == Z * (t * Z) by { Swap(x, Z, y, Z); }
    assert X * Y - Z * T == (X * Y - w) - Z * (T - t * Z);
    if Zero(T - t * Z, m) {
      ZeroMul(T - t * Z, Z, m);
      ZeroAdd(X * Y - w, Z * (T - t * Z), m);
    }
    if Zero(X * Y - Z * T, m) {
      ZeroAdd(X * Y - w, X * Y - Z * T, m);
      Cancel(Z, T - t * Z, m);
    }
  }

  /** The projective equation is the affine one times Z^2. */
  lemma EquationCoordinate(c: Curve, p: Point, x: int, y: int, t: int)
    requires Prime(c.p) && !Zero(p.Z, c.p)
    requires Zero(p.X - x * p.Z, c.p) && Zero(p.Y - y * p.Z, c.p) && Zero(p.T - t * p.Z, c.p)
    ensures Zero(p.Y * p.Y - p.X * p.X - p.Z * p.Z - c.d * (p.T * p.T), c.p) <==> Zero(Defect(c.d, x, y, t), c.p)
  {
    var m, z, D, f := c.p, p.Z * p.Z, Defect(c.d, x, y, t), p.Y * p.Y - p.X * p.X - p.Z * p.Z - c.d * (p.T * p.T);
    ScaledDefect(c, p, x, y, t);
    if Zero(D, m) {
      ZeroMul(D, z, m);
      ZeroAdd(z * D, z * D - f, m);
    }
    if Zero(f, m) {
      ZeroAdd(z * D - f, f, m);
      NonZeroProduct(p.Z, p.Z, m);
      Cancel(z, D, m);
    }
  }

  /** A valid quadruple represents exactly the affine point obtained by dividing by Z. */
  lemma ValidRepresents(c: Curve, p: Point)
    requires Complete(c) && Valid(c, p)
    ensures OnCurve(c, ToAffine(c, p)) && Represents(c, p, ToAffine(c, p))
  {
    var a, m := ToAffine(c, p), c.p;
    Divide(p.X, p.Z, m);
    Divide(p.Y, p.Z, m);
    ZeroAdd(a.x * p.Z - p.X, 0, m);
    ZeroAdd(a.y * p.Z - p.Y, 0, m);
    ProductCoordinate(m, p.X, p.Y, p.Z, p.T, a.x, a.y);
    EquationCoordinate(c, p, a.x, a.y, a.x * a.y);
  }

  /** Z^2 times the affine defect is the projective one. */
  lemma ScaledDefect(c: Curve, p: Point, x: int, y: int, t: int)
    requires c.p > 0
    requires Zero(p.X - x * p.Z, c.p) && Zero(p.Y - y * p.Z, c.p) && Zero(p.T - t * p.Z, c.p)
    ensures Zero((p.Z * p.Z) * Defect(c.d, x, y, t) - (p.Y * p.Y - p.X * p.X - p.Z * p.Z - c.d * (p.T * p.T)), c.p)
  {
    var z, m := p.Z * p.Z, c.p;
    ProductCongruent(p.X, x * p.Z, p.X, x * p.Z, m);
    ProductCongruent(p.Y, y * p.Z, p.Y, y * p.Z, m);
    ProductCongruent(p.T, t * p.Z, p.T, t * p.Z, m);
    SquareDistributes(x, p.Z);
    SquareDistributes(y, p.Z);
    SquareDistributes(t, p.Z);
    var dx, dy, dt := p.X * p.X - (x * x) * z, p.Y * p.Y - (y * y) * z, p.T * p.T - (t * t) * z;
    DefectScaling(c.d, z, x * x, y * y, t * t);
    assert c.d * dt == c.d * (p.T * p.T) - c.d * ((t * t) * z);
    Combine3(z * Defect(c.d, x, y, t) - (p.Y * p.Y - p.X * p.X - z - c.d * (p.T * p.T)), 1, dx, -1, dy, c.d, dt, m);
  }

  lemma DefectScaling(d: int, z: int, xx: int, yy: int, tt: int)
    ensures z * (yy - xx - 1 - d * tt) == yy * z - xx * z - z - d * (tt * z)
  {
    assert z * (d * tt) == d * (tt * z);
    var v := d * tt;
    assert z * (yy - xx - 1 - v) == z * yy - z * xx - z - z * v;
  }

  /** Conversely, what represents a curve point is valid and divides back to it. */
  lemma RepresentsValid(c: Curve, p: Point, a: Affine)
    requires Complete(c) && OnCurve(c, a) && Represents(c, p, a)
    ensures Valid(c, p) && ToAffine(c, p) == a
  {
    var m := c.p;
    ProductCoordinate(m, p.X, p.Y, p.Z, p.T, a.x, a.y);
    EquationCoordinate(c, p, a.x, a.y, a.x * a.y);
    Divide(p.X, p.Z, m);
    Divide(p.Y, p.Z, m);
    ZeroAdd(p.X - a.x * p.Z, 0, m);
    ZeroAdd(p.Y - a.y * p.Z, 0, m);
    QuotientUnique(p.X, p.Z, ToAffine(c, p).x, a.x, m);
    QuotientUnique(p.Y, p.Z, ToAffine(c, p).y, a.y, m);
  }

  // ---------- Both formulas end in X3 = EF, Y3 = GH, Z3 = FG, T3 = EH ----------

  ghost predicate Congruent(a: int, b: int, p: int)
    requires p > 0
  {
    Zero(a - b, p)
  }

  lemma ModCongruent(a: int, b: int, p: int)
    requires p > 0 && Congruent(a, b, p)
    ensures Congruent(Mod(a, p), b, p)
  {
    ModSpec(a, p);
    ZeroAdd(a - b, a - Mod(a, p), p);
  }

  lemma SumCongruent(a: int, b: int, x: int, y: int, p: int)
    requires p > 0 && Congruent(a, b, p) && Congruent(x, y, p)
    ensures Congruent(a + x, b + y, p) && Congruent(a - x, b - y, p)
  {
    ZeroAdd(a - b, x - y, p);
  }

  lemma FinishRepresents(c: Curve, a: Affine, b: Affine, r: Affine, s1: int, s2: int, E: int, F: int, G: int, H: int, q: Point)
    requires Complete(c) && OnCurve(c, a) && OnCurve(c, b) && IsSum(c, a, b, r)
    requires !Zero(s1, c.p) && !Zero(s2, c.p)
    requires Congruent(E, s1 * (a.x * b.y + a.y * b.x), c.p) && Congruent(G, s1 * (1 + Cross(c, a, b)), c.p)
    requires Congruent(H, s2 * (a.y * b.y + a.x * b.x), c.p) && Congruent(F, s2 * (1 - Cross(c, a, b)), c.p)
    requires q == Point(Mod(E * F, c.p), Mod(G * H, c.p), Mod(F * G, c.p), Mod(E * H, c.p))
    ensures Represents(c, q, r)
  {
    var p, e := c.p, Cross(c, a, b);
    DenominatorsNonZero(c, a, b);
    FactorRatio(p, E, G, s1, a.x * b.y + a.y * b.x, 1 + e, r.x);
    FactorRatio(p, H, F, s2, a.y * b.y + a.x * b.x, 1 - e, r.y);
    NonZeroProduct(F, G, p);
    ModSpec(F * G, p);
    if Zero(q.Z, p) {
      ZeroAdd(F * G - q.Z, q.Z, p);
    }
    FirstCoordinate(p, E, G, F, r.x, q.X, q.Z);
    assert G * H == H * G && F * G == G * F;
    FirstCoordinate(p, H, F, G, r.y, q.Y, q.Z);
    ThirdCoordinate(p, E, G, H, F, r.x, r.y, q.T, q.Z);
  }

  lemma FirstCoordinate(p: int, E: int, G: int, F: int, x: int, v: int, w: int)
    requires p > 0 && Zero(E - x * G, p) && v == Mod(E * F, p) && w == Mod(F * G, p)
    ensures Zero(v - x * w, p)
  {
    ModSpec(E * F, p);
    ModSpec(F * G, p);
    var z := F * G;
    assert F * (E - x * G) == E * F - x * z by { assert F * (x * G) == x * z; }
    ZeroMul(E - x * G, F, p);
    ZeroAdd(z - w, 0, p);
    ReplaceByMod(p, E * F, x, z, v, w);
  }

  lemma ThirdCoordinate(p: int, E: int, G: int, H: int, F: int, x: int, y: int, v: int, w: int)
    requires p > 0 && Zero(E - x * G, p) && Zero(H - y * F, p) && v == Mod(E * H, p) && w == Mod(F * G, p)
    ensures Zero(v - (x * y) * w, p)
  {
    ModSpec(E * H, p);
    ModSpec(F * G, p);
    var z := F * G;
    ProductCongruent(E, x * G, H, y * F, p);
    assert (x * G) * (y * F) == (x * y) * z by { Swap(x, G, y, F); }
    ZeroAdd(z - w, 0, p);
    ReplaceByMod(p, E * H, x * y, z, v, w);
  }

  lemma RatioIdentity(E: int, G: int, s: int, m: int, f: int, x: int)
    ensures E - x * G == 1 * (E - s * m) + (-x) * (G - s * f) + (-s) * (x * f - m)
  {
    assert x * (s * f) == s * (x * f);
  }

  lemma FactorRatio(p: int, E: int, G: int, s: int, m: int, f: int, x: int)
    requires Prime(p) && !Zero(s, p) && !Zero(f, p)
    requires Congruent(E, s * m, p) && Congruent(G, s * f, p) && Zero(x * f - m, p)
    ensures Zero(E - x * G, p) && !Zero(G, p)
  {
    NonZeroProduct(s, f, p);
    if Zero(G, p) {
      ZeroAdd(G, G - s * f, p);
    }
    RatioIdentity(E, G, s, m, f, x);
    Combine3(E - x * G, 1, E - s * m, -x, G - s * f, -s, x * f - m, p);
  }

  lemma ReplaceByMod(p: int, u: int, x: int, z: int, v: int, w: int)
    requires p > 0 && Zero(u - x * z, p) && Zero(u - v, p) && Zero(w - z, p)
    ensures Zero(v - x * w, p)
  {
    assert x * (w - z) == x * w - x * z;
    Combine3(v - x * w, 1, u - x * z, -1, u - v, -x, w - z, p);
  }

  // ---------- Addition ----------

  lemma ScaledProduct(p: int, u1: int, u2: int, x1: int, x2: int, z1: int, z2: int)
    requires p > 0 && Zero(u1 - x1 * z1, p) && Zero(u2 - x2 * z2, p)
    ensures Congruent(u1 * u2, (x1 * x2) * (z1 * z2), p)
  {
    ProductCongruent(u1, x1 * z1, u2, x2 * z2, p);
    Swap(x1, z1, x2, z2);
    assert (x1 * z1) * (x2 * z2) == (x1 * x2) * (z1 * z2);
  }

  lemma ScaledSum(p: int, u: int, v: int, x: int, y: int, z: int)
    requires p > 0 && Zero(u - x * z, p) && Zero(v - y * z, p)
    ensures Zero((v - u) - (y - x) * z, p) && Zero((v + u) - (y + x) * z, p)
  {
    ZeroAdd(v - y * z, u - x * z, p);
    assert (y - x) * z == y * z - x * z && (y + x) * z == y * z + x * z;
  }

  /** E and H before reduction: 2 Z1 Z2 times the numerators of the sum. */
  lemma SumNumerators(p: int, x1: int, y1: int, x2: int, y2: int, w: int, A: int, B: int)
    requires p > 0
    requires Congruent(A, ((y1 - x1) * (y2 - x2)) * w, p) && Congruent(B, ((y1 + x1) * (y2 + x2)) * w, p)
    ensures Congruent(B - A, (2 * w) * (x1 * y2 + y1 * x2), p) && Congruent(B + A, (2 * w) * (y1 * y2 + x1 * x2), p)
  {
    var f, g := (y1 - x1) * (y2 - x2), (y1 + x1) * (y2 + x2);
    SumCongruent(B, g * w, A, f * w, p);
    NumeratorParts(x1, y1, x2, y2);
    WeightedParts(f, g, x1 * y2 + y1 * x2, y1 * y2 + x1 * x2, w);
  }

  lemma NumeratorParts(x1: int, y1: int, x2: int, y2: int)
    ensures (y1 + x1) * (y2 + x2) - (y1 - x1) * (y2 - x2) == 2 * (x1 * y2 + y1 * x2)
    ensures (y1 + x1) * (y2 + x2) + (y1 - x1) * (y2 - x2) == 2 * (y1 * y2 + x1 * x2)
  {
  }

  lemma WeightedParts(f: int, g: int, m: int, n: int, w: int)
    requires g - f == 2 * m && g + f == 2 * n
    ensures g * w - f * w == (2 * w) * m && g * w + f * w == (2 * w) * n
  {
    assert g * w - f * w == (g - f) * w && g * w + f * w == (g + f) * w;
    assert (2 * m) * w == (2 * w) * m && (2 * n) * w == (2 * w) * n;
  }

  lemma AddTerms(c: Curve, p1: Point, p2: Point, a: Affine, b: Affine, A: int, B: int, C: int, DD: int)
    requires c.p > 0 && Represents(c, p1, a) && Represents(c, p2, b)
    requires A == Mod((p1.Y - p1.X) * (p2.Y - p2.X), c.p) && B == Mod((p1.Y + p1.X) * (p2.Y + p2.X), c.p)
    requires C == Mod(p1.T * 2 * c.d * p2.T, c.p) && DD == Mod(p1.Z * 2 * p2.Z, c.p)
    ensures
      var s := 2 * (p1.Z * p2.Z);
      && Congruent(B - A, s * (a.x * b.y + a.y * b.x), c.p) && Congruent(B + A, s * (a.y * b.y + a.x * b.x), c.p)
      && Congruent(DD - C, s * (1 - Cross(c, a, b)), c.p) && Congruent(DD + C, s * (1 + Cross(c, a, b)), c.p)
  {
    hide Mod;
    var p, w, z1, z2, t1, t2 := c.p, p1.Z * p2.Z, p1.Z, p2.Z, a.x * a.y, b.x * b.y;
    ScaledSum(p, p1.X, p1.Y, a.x, a.y, z1);
    ScaledSum(p, p2.X, p2.Y, b.x, b.y, z2);
    ScaledProduct(p, p1.Y - p1.X, p2.Y - p2.X, a.y - a.x, b.y - b.x, z1, z2);
    ScaledProduct(p, p1.Y + p1.X, p2.Y + p2.X, a.y + a.x, b.y + b.x, z1, z2);
    ModCongruent((p1.Y - p1.X) * (p2.Y - p2.X), ((a.y - a.x) * (b.y - b.x)) * w, p);
    ModCongruent((p1.Y + p1.X) * (p2.Y + p2.X), ((a.y + a.x) * (b.y + b.x)) * w, p);
    SumNumerators(p, a.x, a.y, b.x, b.y, w, A, B);
    ScaledProduct(p, p1.T, p2.T, t1, t2, z1, z2);
    CrossTerms(p, c.d, p1.T, p2.T, t1, t2, w, C);
    assert p1.Z * 2 * p2.Z == 2 * w;
    MultipleIsZero(0, p, 0);
    ModCongruent(2 * w, 2 * w, p);
    var e := Cross(c, a, b);
    SumCongruent(DD, 2 * w, C, (2 * w) * e, p);
    assert (2 * w) * (1 - e) == 2 * w - (2 * w) * e && (2 * w) * (1 + e) == 2 * w + (2 * w) * e;
  }

  lemma CrossTerms(p: int, d: int, T1: int, T2: int, t1: int, t2: int, w: int, C: int)
    requires p > 0 && Congruent(T1 * T2, (t1 * t2) * w, p) && C == Mod(T1 * 2 * d * T2, p)
    ensures Congruent(C, (2 * w) * (d * (t1 * t2)), p)
  {
    CrossFactors(d, T1, T2, t1 * t2, w);
    var u, v := T1 * T2, (t1 * t2) * w;
    hide Mod, Zero;
    ScaledCongruent(2 * d, u, v, p);
    ModCongruent((2 * d) * u, (2 * d) * v, p);
  }

  lemma ScaledCongruent(k: int, u: int, v: int, p: int)
    requires p > 0 && Congruent(u, v, p)
    ensures Congruent(k * u, k * v, p)
  {
    ZeroMul(u - v, k, p);
    assert k * (u - v) == k * u - k * v;
  }

  lemma CrossFactors(d: int, T1: int, T2: int, t: int, w: int)
    ensures T1 * 2 * d * T2 == (2 * d) * (T1 * T2)
    ensures (2 * d) * (t * w) == (2 * w) * (d * t)
  {
    assert T1 * 2 * d == (2 * d) * T1;
  }

  /** pointAdd computes the Edwards sum, with a nonzero Z for every pair of curve points. */
  lemma PointAddCorrect(c: Curve, p1: Point, p2: Point)
    requires Complete(c) && Valid(c, p1) && Valid(c, p2)
    ensures Valid(c, PointAdd(c, p1, p2))
    ensures ToAffine(c, PointAdd(c, p1, p2)) == Add(c, ToAffine(c, p1), ToAffine(c, p2))
  {
    var a, b := ToAffine(c, p1), ToAffine(c, p2);
    ValidRepresents(c, p1);
    ValidRepresents(c, p2);
    AddRepresents(c, p1, p2, a, b);
    AddOnCurve(c, a, b);
    RepresentsValid(c, PointAdd(c, p1, p2), Add(c, a, b));
  }

  lemma AddRepresents(c: Curve, p1: Point, p2: Point, a: Affine, b: Affine)
    requires Complete(c) && OnCurve(c, a) && OnCurve(c, b) && Represents(c, p1, a) && Represents(c, p2, b)
    ensures Represents(c, PointAdd(c, p1, p2), Add(c, a, b))
  {
    hide Mod, Congruent, Add, Cross;
    var p, s := c.p, 2 * (p1.Z * p2.Z);
    var A := Mod((p1.Y - p1.X) * (p2.Y - p2.X), p);
    var B := Mod((p1.Y + p1.X) * (p2.Y + p2.X), p);
    var C := Mod(p1.T * 2 * c.d * p2.T, p);
    var DD := Mod(p1.Z * 2 * p2.Z, p);
    AddTerms(c, p1, p2, a, b, A, B, C, DD);
    NonZeroProduct(p1.Z, p2.Z, p);
    OddPrime(c);
    NonZeroProduct(2, p1.Z * p2.Z, p);
    AddIsSum(c, a, b);
    FinishFromTerms(c, a, b, Add(c, a, b), s, s, B - A, DD - C, DD + C, B + A, PointAdd(c, p1, p2));
  }

  lemma FinishFromTerms(c: Curve, a: Affine, b: Affine, r: Affine, s1: int, s2: int, E: int, F: int, G: int, H: int, q: Point)
    requires Complete(c) && OnCurve(c, a) && OnCurve(c, b) && IsSum(c, a, b, r)
    requires !Zero(s1, c.p) && !Zero(s2, c.p)
    requires Congruent(E, s1 * (a.x * b.y + a.y * b.x), c.p) && Congruent(G, s1 * (1 + Cross(c, a, b)), c.p)
    requires Congruent(H, s2 * (a.y * b.y + a.x * b.x), c.p) && Congruent(F, s2 * (1 - Cross(c, a, b)), c.p)
    requires var e, f, g, h := Mod(E, c.p), Mod(F, c.p), Mod(G, c.p), Mod(H, c.p);
      q == Point(Mod(e * f, c.p), Mod(g * h, c.p), Mod(f * g, c.p), Mod(e * h, c.p))
    ensures Represents(c, q, r)
  {
    var p := c.p;
    ModCongruent(E, s1 * (a.x * b.y + a.y * b.x), p);
    ModCongruent(G, s1 * (1 + Cross(c, a, b)), p);
    ModCongruent(H, s2 * (a.y * b.y + a.x * b.x), p);
    ModCongruent(F, s2 * (1 - Cross(c, a, b)), p);
    FinishRepresents(c, a, b, r, s1, s2, Mod(E, p), Mod(F, p), Mod(G, p), Mod(H, p), q);
  }

  // ---------- Doubling ----------

  lemma DoubleTerms(c: Curve, q: Point, a: Affine, A: int, B: int, C: int, S: int)
    requires c.p > 0 && OnCurve(c, a) && Represents(c, q, a)
    requires A == Mod(q.X * q.X, c.p) && B == Mod(q.Y * q.Y, c.p) && C == Mod(2 * q.Z * q.Z, c.p)
    requires S == Mod((q.X + q.Y) * (q.X + q.Y), c.p)
    ensures
      var z, e := q.Z * q.Z, Cross(c, a, a);
      && Congruent(A + B, z * (a.y * a.y + a.x * a.x), c.p)
      && Congruent(Mod(A + B, c.p) - S, (-z) * (a.x * a.y + a.y * a.x), c.p)
      && Congruent(A - B, (-z) * (1 + e), c.p)
      && Congruent(C + Mod(A - B, c.p), z * (1 - e), c.p)
  {
    hide Mod;
    var p, z, x, y, e := c.p, q.Z * q.Z, a.x, a.y, Cross(c, a, a);
    ScaledSum(p, q.X, q.Y, x, y, q.Z);
    ScaledProduct(p, q.X, q.X, x, x, q.Z, q.Z);
    ScaledProduct(p, q.Y, q.Y, y, y, q.Z, q.Z);
    assert q.Y + q.X == q.X + q.Y;
    ScaledProduct(p, q.X + q.Y, q.X + q.Y, y + x, y + x, q.Z, q.Z);
    ModCongruent(q.X * q.X, (x * x) * z, p);
    ModCongruent(q.Y * q.Y, (y * y) * z, p);
    ModCongruent((q.X + q.Y) * (q.X + q.Y), ((y + x) * (y + x)) * z, p);
    assert 2 * q.Z * q.Z == 2 * z;
    MultipleIsZero(0, p, 0);
    ModCongruent(2 * z, 2 * z, p);
    DoubleSums(p, z, x * x, y * y, x * y, (y + x) * (y + x), e, A, B, C, S);
  }

  lemma DoubleSums(p: int, z: int, xx: int, yy: int, xy: int, ss: int, e: int, A: int, B: int, C: int, S: int)
    requires p > 0 && ss == xx + 2 * xy + yy && Zero(yy - xx - 1 - e, p)
    requires Congruent(A, xx * z, p) && Congruent(B, yy * z, p) && Congruent(C, 2 * z, p) && Congruent(S, ss * z, p)
    ensures Congruent(A + B, z * (yy + xx), p) && Congruent(Mod(A + B, p) - S, (-z) * (xy + xy), p)
    ensures Congruent(A - B, (-z) * (1 + e), p) && Congruent(C + Mod(A - B, p), z * (1 - e), p)
  {
    SumCongruent(A, xx * z, B, yy * z, p);
    assert xx * z + yy * z == z * (yy + xx);
    ModCongruent(A + B, z * (yy + xx), p);
    SumCongruent(Mod(A + B, p), z * (yy + xx), S, ss * z, p);
    assert z * (yy + xx) - ss * z == (-z) * (xy + xy) by { DoubleProduct(z, xx, yy, xy); }
    var k := yy - xx - 1 - e;
    assert (xx * z - yy * z) - (-z) * (1 + e) == -z * k;
    ZeroMul(k, -z, p);
    ZeroAdd((A - B) - (xx * z - yy * z), -z * k, p);
    assert Congruent(A - B, (-z) * (1 + e), p);
    ModCongruent(A - B, (-z) * (1 + e), p);
    SumCongruent(C, 2 * z, Mod(A - B, p), (-z) * (1 + e), p);
    assert 2 * z + (-z) * (1 + e) == z * (1 - e);
  }

  lemma DoubleProduct(z: int, xx: int, yy: int, xy: int)
    ensures z * (yy + xx) - (xx + 2 * xy + yy) * z == (-z) * (xy + xy)
  {
  }

  /** pointDouble computes the Edwards sum of a point with itself. */
  lemma PointDoubleCorrect(c: Curve, q: Point)
    requires Complete(c) && Valid(c, q)
    ensures Valid(c, PointDouble(c, q))
    ensures ToAffine(c, PointDouble(c, q)) == Add(c, ToAffine(c, q), ToAffine(c, q))
  {
    hide Add, PointDouble;
    var a := ToAffine(c, q);
    ValidRepresents(c, q);
    DoubleRepresents(c, q, a);
    AddOnCurve(c, a, a);
    RepresentsValid(c, PointDouble(c, q), Add(c, a, a));
  }

  lemma DoubleRepresents(c: Curve, q: Point, a: Affine)
    requires Complete(c) && OnCurve(c, a) && Represents(c, q, a)
    ensures Represents(c, PointDouble(c, q), Add(c, a, a))
  {
    hide Mod, Congruent, Add, Cross, OnCurve;
    var p, z := c.p, q.Z * q.Z;
    var A, B, C := Mod(q.X * q.X, p), Mod(q.Y * q.Y, p), Mod(2 * q.Z * q.Z, p);
    var S := Mod((q.X + q.Y) * (q.X + q.Y), p);
    DoubleTerms(c, q, a, A, B, C, S);
    NonZeroProduct(q.Z, q.Z, p);
    if Zero(-z, p) {
      ZeroAdd(-z, 0, p);
    }
    AddIsSum(c, a, a);
    FinishFromTerms(c, a, a, Add(c, a, a), -z, z, Mod(A + B, p) - S, C + Mod(A - B, p), A - B, A + B, PointDouble(c, q));
  }

  lemma MinusFour(p: int, u: int, v: int, k: int, l: int, e: int, f: int)
    requires p > 0 && k * l == -4 && Congruent(u, k * e, p) && Congruent(v, l * f, p)
    ensures Congruent(Mod(u * v, p), -4 * Mod(e * f, p), p)
  {
    ProductCongruent(u, k * e, v, l * f, p);
    assert (k * e) * (l * f) == (k * l) * (e * f);
    ModCongruent(u * v, -4 * (e * f), p);
    ModSpec(e * f, p);
    var m := Mod(e * f, p);
    ZeroMul(e * f - m, -4, p);
    ZeroAdd(Mod(u * v, p) - -4 * (e * f), (e * f - m) * -4, p);
  }

  lemma Scaled(p: int, u: int, v: int, s: int, r: int, k: int, m: int)
    requires p > 0 && Congruent(u, s * m, p) && Congruent(v, r * m, p) && s == k * r
    ensures Congruent(Mod(u, p), k * Mod(v, p), p)
  {
    assert s * m == k * (r * m);
    ModCongruent(u, s * m, p);
    ModCongruent(v, r * m, p);
    var w := Mod(v, p);
    assert k * (w - r * m) == k * w - k * (r * m);
    ZeroMul(w - r * m, k, p);
    ZeroAdd(Mod(u, p) - s * m, k * (w - r * m), p);
  }

  /** The two formulas agree projectively: pointAdd(q, q) is -4 times pointDouble(q) in every coordinate. */
  lemma DoubleVersusAdd(c: Curve, q: Point)
    requires Complete(c) && Valid(c, q)
    ensures
      var u, v := PointAdd(c, q, q), PointDouble(c, q);
      && Congruent(u.X, -4 * v.X, c.p) && Congruent(u.Y, -4 * v.Y, c.p)
      && Congruent(u.Z, -4 * v.Z, c.p) && Congruent(u.T, -4 * v.T, c.p)
  {
    hide Mod, Congruent, ToAffine;
    var p := c.p;
    var A, B, C := Mod(q.X * q.X, p), Mod(q.Y * q.Y, p), Mod(2 * q.Z * q.Z, p);
    var S := Mod((q.X + q.Y) * (q.X + q.Y), p);
    var A', B' := Mod((q.Y - q.X) * (q.Y - q.X), p), Mod((q.Y + q.X) * (q.Y + q.X), p);
    var C', DD := Mod(q.T * 2 * c.d * q.T, p), Mod(q.Z * 2 * q.Z, p);
    var u, v := PointAdd(c, q, q), PointDouble(c, q);
    TermRatios(c, q, ToAffine(c, q), A, B, C, S, A', B', C', DD, u, v);
  }

  lemma TermRatios(c: Curve, q: Point, a: Affine, A: int, B: int, C: int, S: int, A': int, B': int, C': int, DD: int, u: Point, v: Point)
    requires Complete(c) && Valid(c, q) && a == ToAffine(c, q)
    requires A == Mod(q.X * q.X, c.p) && B == Mod(q.Y * q.Y, c.p) && C == Mod(2 * q.Z * q.Z, c.p)
    requires S == Mod((q.X + q.Y) * (q.X + q.Y), c.p)
    requires A' == Mod((q.Y - q.X) * (q.Y - q.X), c.p) && B' == Mod((q.Y + q.X) * (q.Y + q.X), c.p)
    requires C' == Mod(q.T * 2 * c.d * q.T, c.p) && DD == Mod(q.Z * 2 * q.Z, c.p)
    requires var E, F, G, H := Mod(B' - A', c.p), Mod(DD - C', c.p), Mod(DD + C', c.p), Mod(B' + A', c.p);
      u == Point(Mod(E * F, c.p), Mod(G * H, c.p), Mod(F * G, c.p), Mod(E * H, c.p))
    requires var G := Mod(A - B, c.p);
      var E, F, H := Mod(Mod(A + B, c.p) - S, c.p), Mod(C + G, c.p), Mod(A + B, c.p);
      v == Point(Mod(E * F, c.p), Mod(G * H, c.p), Mod(F * G, c.p), Mod(E * H, c.p))
    ensures Congruent(u.X, -4 * v.X, c.p) && Congruent(u.Y, -4 * v.Y, c.p)
    ensures Congruent(u.Z, -4 * v.Z, c.p) && Congruent(u.T, -4 * v.T, c.p)
  {
    hide Mod, Cross, Congruent;
    ValidRepresents(c, q);
    DoubleTerms(c, q, a, A, B, C, S);
    AddTerms(c, q, q, a, a, A', B', C', DD);
    Ratios(c.p, q.Z * q.Z, a.x * a.y + a.y * a.x, a.y * a.y + a.x * a.x, Cross(c, a, a),
           B' - A', DD - C', DD + C', B' + A', Mod(A + B, c.p) - S, C + Mod(A - B, c.p), A - B, A + B);
  }

  lemma Ratios(p: int, z: int, m: int, n: int, e: int, E1: int, F1: int, G1: int, H1: int, E2: int, F2: int, G2: int, H2: int)
    requires p > 0
    requires Congruent(E1, (2 * z) * m, p) && Congruent(H1, (2 * z) * n, p)
    requires Congruent(F1, (2 * z) * (1 - e), p) && Congruent(G1, (2 * z) * (1 + e), p)
    requires Congruent(E2, (-z) * m, p) && Congruent(H2, z * n, p)
    requires Congruent(F2, z * (1 - e), p) && Congruent(G2, (-z) * (1 + e), p)
    ensures Congruent(Mod(Mod(E1, p) * Mod(F1, p), p), -4 * Mod(Mod(E2, p) * Mod(F2, p), p), p)
    ensures Congruent(Mod(Mod(G1, p) * Mod(H1, p), p), -4 * Mod(Mod(G2, p) * Mod(H2, p), p), p)
    ensures Congruent(Mod(Mod(F1, p) * Mod(G1, p), p), -4 * Mod(Mod(F2, p) * Mod(G2, p), p), p)
    ensures Congruent(Mod(Mod(E1, p) * Mod(H1, p), p), -4 * Mod(Mod(E2, p) * Mod(H2, p), p), p)
  {
    hide Mod;
    Scaled(p, E1, E2, 2 * z, -z, -2, m);
    Scaled(p, G1, G2, 2 * z, -z, -2, 1 + e);
    Scaled(p, H1, H2, 2 * z, z, 2, n);
    Scaled(p, F1, F2, 2 * z, z, 2, 1 - e);
    MinusFour(p, Mod(E1, p), Mod(F1, p), -2, 2, Mod(E2, p), Mod(F2, p));
    MinusFour(p, Mod(G1, p), Mod(H1, p), -2, 2, Mod(G2, p), Mod(H2, p));
    MinusFour(p, Mod(F1, p), Mod(G1, p), 2, -2, Mod(F2, p), Mod(G2, p));
    MinusFour(p, Mod(E1, p), Mod(H1, p), -2, 2, Mod(E2, p), Mod(H2, p));
  }

  // ---------- Scalar multiplication ----------

  /** The n-fold sum a + ... + a. */
  ghost function Multiple(c: Curve, n: nat, a: Affine): Affine
    requires c.p > 1
  {
    if n == 0 then NEUTRAL else Add(c, Multiple(c, n - 1, a), a)
  }

  lemma {:induction false} MultipleOnCurve(c: Curve, n: nat, a: Affine)
    requires Complete(c) && OnCurve(c, a)
    ensures OnCurve(c, Multiple(c, n, a))
  {
    if n == 0 {
      NeutralOnCurve(c);
    } else {
      MultipleOnCurve(c, n - 1, a);
      AddOnCurve(c, Multiple(c, n - 1, a), a);
    }
  }

  /** (m + n) a = m a + n a. */
  lemma {:induction false} MultipleAdd(c: Curve, m: nat, n: nat, a: Affine)
    requires Complete(c) && OnCurve(c, a)
    ensures Multiple(c, m + n, a) == Add(c, Multiple(c, m, a), Multiple(c, n, a))
  {
    hide Add, OnCurve;
    MultipleOnCurve(c, m, a);
    if n == 0 {
      AddNeutral(c, Multiple(c, m, a));
    } else {
      MultipleAdd(c, m, n - 1, a);
      MultipleOnCurve(c, n - 1, a);
      AddAssociates(c, Multiple(c, m, a), Multiple(c, n - 1, a), a);
    }
  }

  /** (m n) a = m (n a). */
  lemma {:induction false} MultipleMul(c: Curve, m: nat, n: nat, a: Affine)
    requires Complete(c) && OnCurve(c, a)
    ensures Multiple(c, m * n, a) == Multiple(c, m, Multiple(c, n, a))
  {
    hide Add, OnCurve;
    if m > 0 {
      MultipleMul(c, m - 1, n, a);
      assert (m - 1) * n + n == m * n;
      MultipleAdd(c, (m - 1) * n, n, a);
    }
  }

  lemma {:induction false} MultipleOfNeutral(c: Curve, n: nat)
    requires Complete(c)
    ensures Multiple(c, n, NEUTRAL) == NEUTRAL
  {
    if n > 0 {
      MultipleOfNeutral(c, n - 1);
      NeutralOnCurve(c);
      AddNeutral(c, NEUTRAL);
    }
  }

  lemma ZeroIsNeutral(c: Curve)
    requires Complete(c)
    ensures Valid(c, ZERO) && ToAffine(c, ZERO) == NEUTRAL
  {
    NeutralOnCurve(c);
    OneIsNotZero(c.p);
    MultipleIsZero(0, c.p, 0);
    RepresentsValid(c, ZERO, NEUTRAL);
  }

  /** One step of double-and-add. */
  lemma DoubleAndAddStep(c: Curve, r: Affine, s: nat, a: Affine)
    requires Complete(c) && OnCurve(c, r) && OnCurve(c, a) && s > 0
    ensures OnCurve(c, Add(c, a, a)) && OnCurve(c, Add(c, r, a))
    ensures Add(c, r, Multiple(c, s, a))
         == Add(c, if s % 2 == 1 then Add(c, r, a) else r, Multiple(c, s / 2, Add(c, a, a)))
  {
    AddOnCurve(c, a, a);
    AddOnCurve(c, r, a);
    OneAndTwo(c, a);
    hide Multiple, Complete, OnCurve, Add;
    MultipleMul(c, s / 2, 2, a);
    var n := (s / 2) * 2;
    if s % 2 == 1 {
      assert s == 1 + n;
      MultipleAdd(c, 1, n, a);
      MultipleOnCurve(c, n, a);
      AddAssociates(c, r, a, Multiple(c, n, a));
    } else {
      assert s == n;
    }
  }

  lemma OneAndTwo(c: Curve, a: Affine)
    requires Complete(c) && OnCurve(c, a)
    ensures Multiple(c, 1, a) == a && Multiple(c, 2, a) == Add(c, a, a)
  {
    AddNeutral(c, a);
    hide Add;
    assert Multiple(c, 1, a) == Add(c, Multiple(c, 0, a), a);
    assert Multiple(c, 2, a) == Add(c, Multiple(c, 1, a), a);
  }

  /** What double-and-add makes of any quadruples: what is collected, what is added next, and the bits left. */
  function DoubleAndAdd(c: Curve, result: Point, addend: Point, s: int): Point
    requires c.p > 0
    decreases if s > 0 then s else 0
  {
    if s <= 0 then result
    else DoubleAndAdd(c, if s % 2 == 1 then PointAdd(c, result, addend) else result, PointDouble(c, addend), s / 2)
  }

  /** On valid points it adds the s-fold sum. */
  lemma {:induction false} DoubleAndAddCorrect(c: Curve, r: Point, a: Point, s: int)
    requires Complete(c) && Valid(c, r) && Valid(c, a)
    ensures Valid(c, DoubleAndAdd(c, r, a, s))
    ensures ToAffine(c, DoubleAndAdd(c, r, a, s))
         == Add(c, ToAffine(c, r), Multiple(c, if s > 0 then s else 0, ToAffine(c, a)))
    decreases if s > 0 then s else 0
  {
    hide Add, Valid, OnCurve, ToAffine, PointAdd, PointDouble, Multiple;
    ValidRepresents(c, r);
    ValidRepresents(c, a);
    if s <= 0 {
      NoMultiple(c, ToAffine(c, a));
      AddNeutral(c, ToAffine(c, r));
    } else {
      DoubleAndAddStep(c, ToAffine(c, r), s, ToAffine(c, a));
      PointAddCorrect(c, r, a);
      PointDoubleCorrect(c, a);
      DoubleAndAddCorrect(c, if s % 2 == 1 then PointAdd(c, r, a) else r, PointDouble(c, a), s / 2);
    }
  }

  lemma NoMultiple(c: Curve, a: Affine)
    requires c.p > 1
    ensures Multiple(c, 0, a) == NEUTRAL
  {
  }

  lemma ScalarMultCorrect(c: Curve, scalar: int, p: Point)
    requires Complete(c) && Valid(c, p)
    ensures Valid(c, DoubleAndAdd(c, ZERO, p, scalar))
    ensures ToAffine(c, DoubleAndAdd(c, ZERO, p, scalar)) == Multiple(c, if scalar > 0 then scalar else 0, ToAffine(c, p))
  {
    hide Add, Valid, OnCurve, ToAffine, PointAdd, PointDouble, Multiple, DoubleAndAdd;
    var n: nat := if scalar > 0 then scalar else 0;
    ZeroIsNeutral(c);
    ValidRepresents(c, p);
    DoubleAndAddCorrect(c, ZERO, p, scalar);
    MultipleOnCurve(c, n, ToAffine(c, p));
    AddNeutral(c, Multiple(c, n, ToAffine(c, p)));
  }

  /** scalarMult: on a valid point the s-fold sum, and the neutral point when s is not positive. */
  method ScalarMult(c: Curve, scalar: int, p: Point) returns (result: Point)
    requires c.p > 1
    ensures result == DoubleAndAdd(c, ZERO, p, scalar)
    ensures Complete(c) && Valid(c, p) ==>
      Valid(c, result) && ToAffine(c, result) == Multiple(c, if scalar > 0 then scalar else 0, ToAffine(c, p))
  {
    hide Complete, Valid, ToAffine, PointAdd, PointDouble, Multiple;
    result := ZERO;
    var addend, s := p, scalar;
    while s > 0
      invariant DoubleAndAdd(c, result, addend, s) == DoubleAndAdd(c, ZERO, p, scalar)
    {
      if s % 2 == 1 {
        result := PointAdd(c, result, addend);
      }
      addend := PointDouble(c, addend);
      s := s / 2;
    }
    if Complete(c) && Valid(c, p) {
      ScalarMultCorrect(c, scalar, p);
    }
  }
}

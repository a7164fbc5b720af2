/**
 The constants of crypto.ts. The curve is that of RFC 8032, but the literal for the x coordinate of
 the base point is not: (BX, BY) does not satisfy the curve equation. The two abscissas that do are
 proved here, together with what remains to be assumed about the corrected setting.
 */
module Ed25519Constants {
  import opened ModularArithmetic
  import opened PrimeField
  import opened EdwardsCurve
  import opened EdwardsGroup
  import opened ExtendedPoints
  import opened LittleEndian
  import opened Ed25519

  const P: int := 57896044618658097711785492504343953926634992332820282019728792003956564819949
  const L: int := 7237005577332262213973186563042994240857116359379907606001950938285454250989
  const BX: int := 15112221349535807912866137220509078935008241517919253862909182699782852816284
  const BY: int := 46316835694926478169428394003475163141307993866256225615783033603165251855960

  /** The x coordinate of the base point in section 5.1 of RFC 8032. */
  const STANDARD_BX: int := 15112221349535400772501151409588531511454012693041857206046113283949847762202

  /** -121665 times the inverse of 121666; the remainder keeps the minus sign. */
  function D(): int {
    Fraction(P)
  }

  function Fraction(p: int): int
    requires p > 1
  {
    Rem(-121665 * Inverse(121666, p), p)
  }

  ghost function SourceCurve(): Curve {
    Curve(P, D())
  }

  ghost function SourceSetting(): Setting {
    Setting(SourceCurve(), Affine(BX, BY), L)
  }

  ghost function StandardSetting(): Setting {
    Setting(SourceCurve(), Affine(STANDARD_BX, BY), L)
  }

  // What follows is about any prime modulus, the literals come in at the end.

  lemma SmallNonZero(a: int, p: int)
    requires 0 < a < p
    ensures !Zero(a, p)
  {
    if Zero(a, p) {
      ReducedEqual(a, 0, p);
    }
  }

  lemma FractionValue(p: int)
    requires Prime(p) && p > 121666
    ensures -p < Fraction(p) <= 0 && Zero(121666 * Fraction(p) + 121665, p)
  {
    hide Pow, Inverse;
    var u := Inverse(121666, p);
    SmallNonZero(121666, p);
    InverseSpec(121666, p);
    var n := 121665 * u;
    assert Fraction(p) == -(n % p) by { RemOfNegative(n, p); }
    EuclidSpec(n, p);
    Combine(121666 * Fraction(p) + 121665, 121666, n - n % p, -121665, u * 121666 - 1, p);
  }

  /** D is a non-positive representative of -121665/121666. */
  lemma DValue()
    requires Prime(P)
    ensures -P < D() <= 0 && Zero(121666 * D() + 121665, P)
  {
    hide Fraction;
    FractionValue(P);
  }

  lemma RemOfNegative(n: int, m: int)
    requires m > 0 && n >= 0
    ensures Rem(-n, m) == -(n % m)
  {
    if n == 0 {
      MultipleIsZero(0, m, 0);
    }
  }

  /** 121666 times the defect of (x, y), free of D. */
  ghost function ClearedDefectAt(x: int, y: int): int {
    121666 * (y * y - x * x - 1) + 121665 * ((x * y) * (x * y))
  }

  lemma DefectWithoutD(p: int, d: int, x: int, y: int)
    requires Prime(p) && p > 121666 && Zero(121666 * d + 121665, p)
    ensures Zero(Defect(d, x, y, x * y), p) <==> Zero(ClearedDefectAt(x, y), p)
  {
    var t, v := (x * y) * (x * y), y * y - x * x - 1;
    var e, f := Defect(d, x, y, x * y), ClearedDefectAt(x, y);
    SmallNonZero(121666, p);
    assert f == 121666 * e + t * (121666 * d + 121665) by { ClearedIdentity(d, t, v); }
    ZeroMul(121666 * d + 121665, t, p);
    if Zero(e, p) {
      Combine(f, 121666, e, 1, t * (121666 * d + 121665), p);
    }
    if Zero(f, p) {
      ZeroAdd(f, t * (121666 * d + 121665), p);
      Cancel(121666, e, p);
    }
  }

  lemma ClearedIdentity(d: int, t: int, v: int)
    ensures 121666 * v + 121665 * t == 121666 * (v - d * t) + t * (121666 * d + 121665)
  {
  }

  lemma NotMultiple(x: int, p: int, q: int, r: int)
    requires x == p * q + r && 0 < r < p
    ensures !Zero(x, p)
  {
    if Zero(x, p) {
      var k := ZeroQuotient(x, p);
      assert r == p * (k - q);
      MultipleSize(p, k - q);
    }
  }

  /** The base point of the source is off the curve. */
  lemma SourceBasePointOffCurve()
    requires Prime(P)
    ensures !OnCurve(SourceCurve(), Affine(BX, BY)) && !Sound(SourceSetting())
  {
    hide D, TopWeight, Multiple;
    DValue();
    DefectWithoutD(P, D(), BX, BY);
    var q := 1029558766636108790053659404891676738470611107781894028693627099291074886185195082476011475835275242191530195700309010786115889581626287149382023439966557532155713553500668624102632657112612890418708040734146206081771699386346242845325;
    var r := 57237650270264937043587788463254156853255088170628039442413829089171801758613;
    NotMultiple(ClearedDefectAt(BX, BY), P, q, r);
  }

  lemma StandardBasePointOnCurve()
    requires Prime(P)
    ensures OnCurve(SourceCurve(), Affine(STANDARD_BX, BY))
  {
    hide D;
    DValue();
    DefectWithoutD(P, D(), STANDARD_BX, BY);
    MultipleIsZero(ClearedDefectAt(STANDARD_BX, BY), P, 1029558766636053315094376144190116918109560434971611326036325770389160036273743711698554476340584398030315712211750104992760583404644161868319152974424524814438960398115779510233666180283652908619946518584965584742162782692124127606030);
  }

  /** With the source's ordinate, exactly two abscissas give a curve point; BX is neither. */
  lemma BasePointOnCurveIff(x: int)
    requires Complete(SourceCurve()) && 0 <= x < P
    ensures OnCurve(SourceCurve(), Affine(x, BY)) <==> x == STANDARD_BX || x == P - STANDARD_BX
    ensures BX != STANDARD_BX && BX != P - STANDARD_BX
  {
    assert Prime(P);
    hide D, Zero, Defect, Complete;
    StandardBasePointOnCurve();
    TwoAbscissas(SourceCurve(), Affine(STANDARD_BX, BY), x);
  }

  /** Two curve points with the same ordinate are mirror images or equal. */
  lemma TwoAbscissas(c: Curve, a: Affine, x: int)
    requires Complete(c) && OnCurve(c, a) && a.x > 0 && 0 <= x < c.p
    ensures OnCurve(c, Affine(x, a.y)) <==> x == a.x || x == c.p - a.x
  {
    MirrorOnCurve(c, a);
    assert !Zero(c.p, 2);
    OddSplit(c.p, a.x);
    hide Zero, Defect;
    var b := Affine(x, a.y);
    if OnCurve(c, b) {
      if x % 2 == a.x % 2 {
        SameOrdinate(c, a, b);
      } else {
        SameOrdinate(c, Affine(c.p - a.x, a.y), b);
      }
    }
  }

  lemma OddSplit(p: int, x: int)
    requires !Zero(p, 2)
    ensures (p - x) % 2 != x % 2
  {
  }

  lemma MirrorOnCurve(c: Curve, a: Affine)
    requires c.p > 0 && OnCurve(c, a) && a.x > 0
    ensures OnCurve(c, Affine(c.p - a.x, a.y))
  {
    MultipleIsZero(c.p, c.p, 1);
    NegationDefect(c.p, c.d, a.x, c.p - a.x, a.y);
  }

  // ---------- What the source's base point means for signatures ----------

  /** The ordinate of twice the source's base point, as the source computes it. */
  const TWICE_Y: int := 16154528681044001197822634366160756165716693339112604663678334879452235794401

  /** A root of -121665 (y^2 - 1)(121666 - 121665 y^2) for that ordinate, modulo P. */
  const TWICE_ROOT: int := 53206314422958106712662597859009873599853941498712375134843976660185429804176

  /** If d (y^2 - 1)(1 + d y^2) is a nonzero square, no curve point has the ordinate y. */
  lemma NoAbscissa(c: Curve, x: int, y: int, z: int)
    requires Complete(c) && 0 <= x < c.p && 0 <= y < c.p
    requires Zero(z * z - c.d * ((y * y - 1) * (1 + c.d * (y * y))), c.p) && !Zero(z, c.p)
    ensures !OnCurve(c, Affine(x, y))
  {
    if OnCurve(c, Affine(x, y)) {
      var p, f := c.p, 1 + c.d * (y * y);
      var v, e := x * f, Defect(c.d, x, y, x * y);
      FactorOut(c.d, x, y);
      AbscissaIdentity(c.d, x, y, e);
      var q := z * z - c.d * ((y * y - 1) * f);
      assert z * z - c.d * (v * v) == 1 * q + (c.d * f) * e;
      Combine(z * z - c.d * (v * v), 1, q, c.d * f, e, p);
      NonSquare(c, z, v);
      ZeroMul(v, c.d * v, p);
      assert v * (c.d * v) == c.d * (v * v);
      ZeroAdd(z * z - c.d * (v * v), c.d * (v * v), p);
      assert z * z == (z * z - c.d * (v * v)) + c.d * (v * v);
      NoZeroDivisors(z, z, p);
    }
  }

  lemma AbscissaIdentity(d: int, x: int, y: int, e: int)
    requires e == y * y - x * x - 1 - (d * (y * y)) * (x * x)
    ensures var f := 1 + d * (y * y); d * ((y * y - 1) * f) - d * ((x * f) * (x * f)) == (d * f) * e
  {
    var g, u, w := d * (y * y), x * x, y * y;
    var f := 1 + g;
    assert (x * f) * (x * f) == (f * u) * f by { SquareOfProduct(x, f); }
    assert g * u == u * g;
    assert w - 1 == e + f * u;
    assert (w - 1) * f - (f * u) * f == e * f by { FactorCommon(w - 1, f * u, f); }
    ScaleDifference(d, (w - 1) * f, (f * u) * f, e * f);
    assert d * (e * f) == (d * f) * e by { MoveFactor(d, e, f); }
  }

  lemma SquareOfProduct(x: int, f: int)
    ensures (x * f) * (x * f) == (f * (x * x)) * f
  {
  }

  lemma FactorCommon(a: int, b: int, f: int)
    ensures a * f - b * f == (a - b) * f
  {
  }

  lemma ScaleDifference(d: int, a: int, b: int, g: int)
    requires a - b == g
    ensures d * a - d * b == d * g
  {
    assert d * a - d * b == d * (a - b);
  }

  lemma MoveFactor(d: int, e: int, f: int)
    ensures d * (e * f) == (d * f) * e
  {
  }

  // The ordinate that doubling and one addition compute for any quadruple with Z = 1.

  lemma ProductOfMods(u: int, v: int, a: int, b: int, p: int)
    requires p > 0 && Congruent(u, a, p) && Congruent(v, b, p)
    ensures Congruent(Mod(u * v, p), a * b, p)
  {
    ProductCongruent(u, a, v, b, p);
    ModCongruent(u * v, a * b, p);
  }

  lemma ModItself(a: int, p: int)
    requires p > 0
    ensures Congruent(Mod(a, p), a, p)
  {
    MultipleIsZero(a - a, p, 0);
    ModCongruent(a, a, p);
  }

  lemma DoubleCoordinates(c: Curve, x: int, y: int, t: int)
    requires c.p > 0
    ensures var q, g, h := PointDouble(c, Point(x, y, 1, t)), x * x - y * y, x * x + y * y;
      Congruent(q.Y, g * h, c.p) && Congruent(q.Z, (2 + g) * g, c.p)
  {
    var p := c.p;
    var A, B, C := Mod(x * x, p), Mod(y * y, p), Mod(2 * 1 * 1, p);
    var H, G := Mod(A + B, p), Mod(A - B, p);
    var F := Mod(C + G, p);
    ModItself(x * x, p);
    ModItself(y * y, p);
    ModItself(2 * 1 * 1, p);
    SumCongruent(A, x * x, B, y * y, p);
    ModCongruent(A + B, x * x + y * y, p);
    ModCongruent(A - B, x * x - y * y, p);
    SumCongruent(C, 2, G, x * x - y * y, p);
    ModCongruent(C + G, 2 + (x * x - y * y), p);
    ProductOfMods(G, H, x * x - y * y, x * x + y * y, p);
    ProductOfMods(F, G, 2 + (x * x - y * y), x * x - y * y, p);
  }

  lemma AddToZero(c: Curve, q: Point)
    requires c.p > 0
    ensures var s := PointAdd(c, ZERO, q);
      Congruent(s.Y, (2 * q.Z) * (2 * q.Y), c.p) && Congruent(s.Z, (2 * q.Z) * (2 * q.Z), c.p)
  {
    var p := c.p;
    var A, B := Mod((1 - 0) * (q.Y - q.X), p), Mod((1 + 0) * (q.Y + q.X), p);
    var C, DD := Mod(0 * 2 * c.d * q.T, p), Mod(1 * 2 * q.Z, p);
    var F, G, H := Mod(DD - C, p), Mod(DD + C, p), Mod(B + A, p);
    ModItself((1 - 0) * (q.Y - q.X), p);
    ModItself((1 + 0) * (q.Y + q.X), p);
    assert 0 * 2 * c.d * q.T == 0 by { NothingTimes(c.d, q.T); }
    ModItself(0, p);
    ModItself(1 * 2 * q.Z, p);
    SumCongruent(B, q.Y + q.X, A, q.Y - q.X, p);
    SumCongruent(DD, 2 * q.Z, C, 0, p);
    ModCongruent(B + A, 2 * q.Y, p);
    ModCongruent(DD - C, 2 * q.Z, p);
    ModCongruent(DD + C, 2 * q.Z, p);
    hide Mod;
    ProductOfMods(G, H, 2 * q.Z, 2 * q.Y, p);
    ProductOfMods(F, G, 2 * q.Z, 2 * q.Z, p);
  }

  lemma NothingTimes(d: int, t: int)
    ensures 0 * 2 * d * t == 0
  {
  }

  /** The ordinate w with w (2 + x^2 - y^2) = x^2 + y^2, on the curve or off it. */
  lemma TwiceOrdinate(c: Curve, x: int, y: int, t: int, w: int)
    requires Prime(c.p) && c.p > 2 && 0 <= w < c.p
    requires !Zero(x * x - y * y, c.p) && !Zero(2 + (x * x - y * y), c.p)
    requires Zero(w * (2 + (x * x - y * y)) - (x * x + y * y), c.p)
    ensures ToAffine(c, PointAdd(c, ZERO, PointDouble(c, Point(x, y, 1, t)))).y == w
  {
    var p, g, h := c.p, x * x - y * y, x * x + y * y;
    var q := PointDouble(c, Point(x, y, 1, t));
    var s := PointAdd(c, ZERO, q);
    DoubleCoordinates(c, x, y, t);
    AddToZero(c, q);
    assert !Zero(2, p);
    hide PointAdd, PointDouble, Inverse, Prime, Mod;
    DoubledRatio(p, g, h, w, q.Y, q.Z);
    SummedRatio(p, w, q.Y, q.Z, s.Y, s.Z);
    Divide(s.Y, s.Z, p);
    QuotientUnique(s.Y, s.Z, Mod(s.Y * Inverse(s.Z, p), p), w, p);
  }

  lemma DoubledRatio(p: int, g: int, h: int, w: int, Y: int, Z: int)
    requires Prime(p) && !Zero(g, p) && !Zero(2 + g, p) && Zero(w * (2 + g) - h, p)
    requires Congruent(Y, g * h, p) && Congruent(Z, (2 + g) * g, p)
    ensures Zero(w * Z - Y, p) && !Zero(Z, p)
  {
    RatioOfDoubled(w, Z, Y, g, h);
    Combine3(w * Z - Y, w, Z - (2 + g) * g, g, w * (2 + g) - h, -1, Y - g * h, p);
    NonZeroProduct(2 + g, g, p);
    if Zero(Z, p) {
      ZeroAdd(Z, Z - (2 + g) * g, p);
    }
  }

  lemma RatioOfDoubled(w: int, Z: int, Y: int, g: int, h: int)
    ensures w * Z - Y == w * (Z - (2 + g) * g) + g * (w * (2 + g) - h) + (-1) * (Y - g * h)
  {
    assert w * ((2 + g) * g) == g * (w * (2 + g));
  }

  lemma SummedRatio(p: int, w: int, Y: int, Z: int, V: int, W: int)
    requires Prime(p) && !Zero(2, p) && !Zero(Z, p) && Zero(w * Z - Y, p)
    requires Congruent(V, (2 * Z) * (2 * Y), p) && Congruent(W, (2 * Z) * (2 * Z), p)
    ensures Zero(w * W - V, p) && !Zero(W, p)
  {
    RatioOfSummed(w, Y, Z, V, W);
    Combine3(w * W - V, w, W - (2 * Z) * (2 * Z), 4 * Z, w * Z - Y, -1, V - (2 * Z) * (2 * Y), p);
    NonZeroProduct(2, Z, p);
    NonZeroProduct(2 * Z, 2 * Z, p);
    if Zero(W, p) {
      ZeroAdd(W, W - (2 * Z) * (2 * Z), p);
    }
  }

  lemma RatioOfSummed(w: int, Y: int, Z: int, V: int, W: int)
    ensures w * W - V == w * (W - (2 * Z) * (2 * Z)) + (4 * Z) * (w * Z - Y) + (-1) * (V - (2 * Z) * (2 * Y))
  {
    assert w * ((2 * Z) * (2 * Z)) == (4 * Z) * (w * Z);
    assert (2 * Z) * (2 * Y) == (4 * Z) * Y;
  }

  // The source's base point.

  lemma SourceTwiceOrdinate(t: int)
    requires Complete(SourceCurve())
    ensures ToAffine(SourceCurve(), PointAdd(SourceCurve(), ZERO, PointDouble(SourceCurve(), Point(BX, BY, 1, t)))).y == TWICE_Y
  {
    hide D, PointAdd, PointDouble, ToAffine;
    NotMultiple(BX * BX - BY * BY, P, -33108825435299287448675490696206222815053470253968702354679350268799683755646, 18109922744288759001304451211397080032416399318220586730120392343221770229110);
    NotMultiple(2 + (BX * BX - BY * BY), P, -33108825435299287448675490696206222815053470253968702354679350268799683755646, 18109922744288759001304451211397080032416399318220586730120392343221770229112);
    MultipleIsZero(TWICE_Y * (2 + (BX * BX - BY * BY)) - (BX * BX + BY * BY), P, -534857470090221476886145202240895433190608244490444012438568458799553629571517148284237818193398578984389798220256628345850346536463721252424472369126902);
    TwiceOrdinate(SourceCurve(), BX, BY, t, TWICE_Y);
  }

  /** T^2 = -a (w - 1)(e - a w) modulo p, with e d = -a, is a root of d (w - 1)(1 + d w) times e. */
  lemma ScaledRoot(p: int, d: int, w: int, a: int, e: int, u: int, T: int)
    requires p > 0 && Zero(e * d + a, p) && Zero(u * e - 1, p)
    requires Zero(T * T - (-a) * ((w - 1) * (e - a * w)), p)
    ensures Zero((T * u) * (T * u) - d * ((w - 1) * (1 + d * w)), p)
  {
    var q, N, m := d * ((w - 1) * (1 + d * w)), (-a) * ((w - 1) * (e - a * w)), e * d + a;
    ClearedProduct(d, w, a, e);
    var r := (w - 1) * (e + (e * d) * w) - (a * (w - 1)) * w;
    assert (e * e) * q - N == r * m;
    ZeroMul(m, r, p);
    ZeroMul(u * e - 1, u * e + 1, p);
    assert (u * e + 1) * (u * e - 1) == (u * e) * (u * e) - 1;
    RootIdentity(T, u, N, e, q);
    Combine3((T * u) * (T * u) - q, u * u, T * T - N, -(u * u), (e * e) * q - N, q, (u * e) * (u * e) - 1, p);
  }

  lemma RootIdentity(T: int, u: int, N: int, e: int, q: int)
    ensures (T * u) * (T * u) - q == (u * u) * (T * T - N) + (-(u * u)) * ((e * e) * q - N) + q * ((u * e) * (u * e) - 1)
  {
    assert (T * u) * (T * u) == (u * u) * (T * T);
    assert (u * e) * (u * e) == (u * u) * (e * e);
    assert (u * u) * ((e * e) * q) == q * ((u * u) * (e * e));
    Spread2(u * u, T * T, N);
    Spread2(u * u, (e * e) * q, N);
    Spread2(q, (u * e) * (u * e), 1);
  }

  lemma Spread2(k: int, x: int, y: int)
    ensures k * (x - y) == k * x - k * y
  {
  }

  lemma ClearedProduct(d: int, w: int, a: int, e: int)
    ensures (e * e) * (d * ((w - 1) * (1 + d * w))) - (-a) * ((w - 1) * (e - a * w))
         == ((w - 1) * (e + (e * d) * w) - (a * (w - 1)) * w) * (e * d + a)
  {
    var f, v := e * d, w - 1;
    assert (e * e) * (d * (v * (1 + d * w))) == f * (v * (e + f * w)) by { PullFactors(e, d, v, w); }
    CrossedProduct(f, a, v, w, e);
  }

  lemma PullFactors(e: int, d: int, v: int, w: int)
    ensures (e * e) * (d * (v * (1 + d * w))) == (e * d) * (v * (e + (e * d) * w))
  {
    var g := 1 + d * w;
    assert e * g == e + (e * d) * w by { assert e * (d * w) == (e * d) * w; }
    assert (e * e) * (d * (v * g)) == (e * d) * (v * (e * g));
  }

  lemma CrossedProduct(f: int, a: int, v: int, w: int, e: int)
    ensures f * (v * (e + f * w)) - (-a) * (v * (e - a * w)) == (v * (e + f * w) - (a * v) * w) * (f + a)
  {
    var b, c := v * e, v * w;
    assert v * (e + f * w) == b + f * c by { assert v * (f * w) == f * (v * w); }
    assert v * (e - a * w) == b - a * c by { assert v * (a * w) == a * (v * w); }
    assert (a * v) * w == a * c;
    LastProduct(f, a, b, c);
  }

  lemma LastProduct(f: int, a: int, b: int, c: int)
    ensures f * (b + f * c) - (-a) * (b - a * c) == (b + f * c - a * c) * (f + a)
  {
    assert (b + f * c - a * c) * (f + a) == (b + f * c) * f - (a * c) * f + (b + f * c) * a - (a * c) * a;
    assert (f * c) * a == (a * c) * f;
  }

  /** With d = -121665/121666, a nonzero root of -121665 (y^2 - 1)(121666 - 121665 y^2) shows that y is no ordinate. */
  lemma NoAbscissaByRoot(c: Curve, x: int, y: int, T: int)
    requires Complete(c) && c.p > 121666 && Zero(121666 * c.d + 121665, c.p)
    requires 0 <= x < c.p && 0 <= y < c.p && 0 < T < c.p
    requires Zero(T * T - (-121665) * ((y * y - 1) * (121666 - 121665 * (y * y))), c.p)
    ensures !OnCurve(c, Affine(x, y))
  {
    var p, u := c.p, Inverse(121666, c.p);
    assert Prime(p);
    SmallNonZero(121666, p);
    InverseSpec(121666, p);
    hide Inverse, Prime, Complete, OnCurve, Zero;
    ScaledRoot(p, c.d, y * y, 121665, 121666, u, T);
    SmallNonZero(T, p);
    UnitNonZero(u, p);
    NonZeroProduct(T, u, p);
    NoAbscissa(c, x, y, T * u);
  }

  lemma UnitNonZero(u: int, p: int)
    requires Prime(p) && Zero(u * 121666 - 1, p)
    ensures !Zero(u, p)
  {
    if Zero(u, p) {
      ZeroMul(u, 121666, p);
      ZeroAdd(u * 121666, u * 121666 - 1, p);
      OneIsNotZero(p);
    }
  }

  /** No curve point has that ordinate. */
  lemma TwiceOffCurve(x: int)
    requires Complete(SourceCurve()) && 0 <= x < P
    ensures !OnCurve(SourceCurve(), Affine(x, TWICE_Y))
  {
    assert Prime(P);
    DValue();
    hide D, Prime, Complete, OnCurve;
    MultipleIsZero(TWICE_ROOT * TWICE_ROOT - (-121665) * ((TWICE_Y * TWICE_Y - 1) * (121666 - 121665 * (TWICE_Y * TWICE_Y))), P,
      -17412438416730452059752826767966332495902888149785422616473627257052305403358981604386380682829037801276476198817177293821649215930773508875100647290118635704231189261527164992847563865376632733986179093074961588222218736171211513767002176);
    NoAbscissaByRoot(SourceCurve(), x, TWICE_Y, TWICE_ROOT);
  }

  // What that does to signatures.

  lemma TwoSteps(c: Curve, b: Point)
    requires c.p > 0
    ensures DoubleAndAdd(c, ZERO, b, 2) == PointAdd(c, ZERO, PointDouble(c, b))
  {
    hide PointAdd, PointDouble;
    var twice := PointDouble(c, b);
    assert DoubleAndAdd(c, ZERO, twice, 1) == DoubleAndAdd(c, PointAdd(c, ZERO, twice), PointDouble(c, twice), 0);
  }

  lemma SourceFits()
    ensures Fits(SourceCurve())
  {
    hide D, TopWeight;
    TopWeightValue();
  }

  /** Different ordinates have different encodings. */
  lemma OrdinateEncoded(c: Curve, a: Affine, b: Affine)
    requires Fits(c) && 0 <= a.y < c.p && 0 <= b.y < c.p && a.y != b.y
    ensures Encode(a) != Encode(b)
  {
    hide TopWeight, Encode, Value;
    EncodedParts(c, a);
    EncodedParts(c, b);
  }

  /** A setting in which the ordinate computed for the n-fold base point is that of no curve point. */
  lemma DecodesToNothing(g: Setting, n: int, R: Affine)
    requires Fits(g.curve) && OnCurve(g.curve, R)
    requires
      var y := ToAffine(g.curve, DoubleAndAdd(g.curve, ZERO, BasePoint(g), n)).y;
      0 <= y < g.curve.p && !OnCurve(g.curve, Affine(R.x, y))
    ensures Encode(R) != MultipleBytes(g, n)
  {
    var a := ToAffine(g.curve, DoubleAndAdd(g.curve, ZERO, BasePoint(g), n));
    assert R == Affine(R.x, R.y);
    hide Encode, DoubleAndAdd, ToAffine, Fits;
    OrdinateEncoded(g.curve, R, a);
  }

  /**
   With the source's base point a signature whose nonce is 2 verifies under no key at all: its first
   half decodes to no curve point. So the failure of BasePointOnCurveIff is one of signatures, too.
   */
  lemma SourceSignatureFails(H: seq<bv8> -> seq<bv8>, message: seq<bv8>, seed: seq<bv8>, key: seq<bv8>)
    requires Complete(SourceCurve()) && Digests64(H) && Nonce(SourceSetting(), H, message, seed) == 2
    ensures !Verifies(SourceSetting(), H, key, message, SignatureOf(SourceSetting(), H, message, seed))
  {
    var g, c := SourceSetting(), SourceCurve();
    SignatureHead(g, H, message, seed);
    SourceFits();
    TwoSteps(c, BasePoint(g));
    SourceTwiceOrdinate(BasePoint(g).T);
    hide D, SignatureOf, MultipleBytes, Nonce, Complete, OnCurve, Fits, ToAffine, DoubleAndAdd, PointAdd, PointDouble;
    forall R | OnCurve(c, R) ensures Encode(R) != MultipleBytes(g, 2) {
      PointReduced(c, R);
      TwiceOffCurve(R.x);
      DecodesToNothing(g, 2, R);
    }
    UndecodableFails(g, H, key, message, SignatureOf(g, H, message, seed));
  }

  lemma PointReduced(c: Curve, a: Affine)
    requires c.p > 0 && OnCurve(c, a)
    ensures 0 <= a.x < c.p && 0 <= a.y < c.p
  {
  }

  lemma SignatureHead(g: Setting, H: seq<bv8> -> seq<bv8>, message: seq<bv8>, seed: seq<bv8>)
    requires Digests64(H) && g.curve.p > 1 && g.order > 0
    ensures |SignatureOf(g, H, message, seed)| >= 32
    ensures SignatureOf(g, H, message, seed)[..32] == MultipleBytes(g, Nonce(g, H, message, seed))
  {
    hide Encode, Bytes, Clamped, ToAffine, DoubleAndAdd, Value, Pow;
    EncodeLength(ToAffine(g.curve, DoubleAndAdd(g.curve, ZERO, BasePoint(g), Nonce(g, H, message, seed))));
  }

  /** There is such a digest function; under it no signature of the source verifies. */
  lemma SourceSignaturesFail(message: seq<bv8>, seed: seq<bv8>, key: seq<bv8>)
    requires Complete(SourceCurve())
    ensures
      var H := (m: seq<bv8>) => SmallDigest(2);
      Digests64(H) && !Verifies(SourceSetting(), H, key, message, SignatureOf(SourceSetting(), H, message, seed))
  {
    var H := (m: seq<bv8>) => SmallDigest(2);
    SmallDigestValue(2);
    hide D, Complete, Verifies, SignatureOf, SmallDigest, Value;
    SourceSignatureFails(H, message, seed, key);
  }

  /** There is another one under which the nonce is 1 and none verifies either: the base point itself is off the curve. */
  lemma SourceFailsAtNonceOne(message: seq<bv8>, seed: seq<bv8>, key: seq<bv8>)
    requires Complete(SourceCurve())
    ensures
      var g, H := SourceSetting(), OneAt(32 + |message|);
      && Digests64(H) && Nonce(g, H, message, seed) == 1
      && !Verifies(g, H, key, message, SignatureOf(g, H, message, seed))
  {
    assert Prime(P);
    hide D, Complete, OnCurve, OneAt, Verifies, SignatureOf, Nonce;
    SourceBasePointOffCurve();
    OffCurveBaseFails(SourceSetting(), message, seed, key);
  }

  /** -1 is a square modulo P; the root is the value crypto.ts calls I. */
  lemma MinusOneIsSquare()
    ensures Root(19681161376707505956807079304988542015446066515923890162744021073123829784752, -1, P)
  {
    var i := 19681161376707505956807079304988542015446066515923890162744021073123829784752;
    MultipleIsZero(i * i - (-1), P, 6690407189080634018507799843845558368979872843924222843531373839242004886245);
  }

  lemma TopWeightValue()
    ensures TopWeight() == 452312848583266388373324160190187140051835877600158453279131187530910662656
  {
    hide Pow;
    PowOne();
    PowAdd(256, 1, 1);
    PowAdd(256, 2, 2);
    PowAdd(256, 4, 4);
    PowAdd(256, 8, 8);
    PowAdd(256, 16, 8);
    PowAdd(256, 24, 4);
    PowAdd(256, 28, 2);
    PowAdd(256, 30, 1);
  }

  lemma PowOne()
    ensures Pow(256, 1) == 256
  {
    assert Pow(256, 1) == 256 * Pow(256, 0);
  }

  /**
   With the standard abscissa everything the signing theorem needs follows from three facts about
   the constants: P is prime, D is not a square modulo P, and L annihilates the base point.
   */
  lemma StandardSettingIsSound()
    requires Prime(P)
    requires forall z :: !Root(z, D(), P)
    requires Multiple(SourceCurve(), L, Affine(STANDARD_BX, BY)) == NEUTRAL
    ensures Sound(StandardSetting())
  {
    hide D, TopWeight, Multiple;
    MinusOneIsSquare();
    StandardBasePointOnCurve();
    TopWeightValue();
  }
}

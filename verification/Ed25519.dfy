/**
 Key derivation and signing of crypto.ts: point encoding, scalar clamping and the signature, with
 SHA-512 an arbitrary function to 64-byte strings. The curve, base point and order are parameters;
 Ed25519Constants fixes them to the source's values.
 */
module Ed25519 {
  import opened ModularArithmetic
  import opened PrimeField
  import opened EdwardsCurve
  import opened EdwardsGroup
  import opened ExtendedPoints
  import opened LittleEndian

  /** The weight of the top byte of a 32-byte number. */
  ghost function TopWeight(): int {
    Pow(256, 31)
  }

  lemma {:induction false} PowIsMultipleOf8(n: nat)
    requires n > 0
    ensures Pow(256, n) % 8 == 0 && Pow(256, n) > 0
  {
    if n > 1 {
      PowIsMultipleOf8(n - 1);
      MultipleIsZero(256 * Pow(256, n - 1), 8, 32 * Pow(256, n - 1));
    } else {
      assert Pow(256, 1) == 256 * Pow(256, 0);
    }
  }

  lemma TopWeightSize()
    ensures TopWeight() > 0 && TopWeight() % 8 == 0 && Pow(256, 32) == 256 * TopWeight()
  {
    PowIsMultipleOf8(31);
  }

  /** The field prime is at most 2^255, so a reduced coordinate leaves bit 255 free. */
  ghost predicate Fits(c: Curve) {
    2 < c.p <= 128 * TopWeight()
  }

  // ---------- Point encoding ----------

  /** Section 5.1.2 of RFC 8032: y in 255 bits, then the low bit of x. */
  ghost function Encode(a: Affine): seq<bv8> {
    Bytes(a.y + (if a.x % 2 == 1 then 128 * TopWeight() else 0), 32)
  }

  lemma ModPowIsInverse(z: int, p: int)
    requires p > 2
    ensures Pow(z, p - 2) % p == Inverse(z, p)
  {
    ModSpec(Pow(z, p - 2), p);
  }

  /** pointToBytes encodes the affine point, whatever projective representative it is given. */
  method PointToBytes(c: Curve, p: Point) returns (bytes: array<bv8>)
    requires Fits(c)
    ensures fresh(bytes) && bytes[..] == Encode(ToAffine(c, p))
  {
    hide Mod, LowByte, FlipIf, TopWeight, Bytes, Pow, Shift;
    var zi := ModPow(p.Z, c.p - 2, c.p);
    ModPowIsInverse(p.Z, c.p);
    var x := Mod(p.X * zi, c.p);
    var y := Mod(p.Y * zi, c.p);
    ModSpec(p.X * zi, c.p);
    ModSpec(p.Y * zi, c.p);
    bytes := new bv8[32];
    var yVal := y;
    NoBytes(y);
    for i := 0 to 32
      invariant bytes[..i] == Bytes(y, i)
      invariant yVal == Shift(y, i)
    {
      BytesExtend(y, i);
      bytes[i] := LowByte(yVal);
      assert bytes[..i + 1] == bytes[..i] + [bytes[i]];
      yVal := yVal / 256;
    }
    assert bytes[..] == Bytes(y, 32);
    FreeTopBit(c, y, x % 2 == 1);
    bytes[31] := bytes[31] ^ (if x % 2 == 1 then 128 else 0);
    XorParity(Bytes(y, 32)[31], x % 2 == 1);
    assert bytes[..] == Bytes(y, 32)[31 := FlipIf(Bytes(y, 32)[31], x % 2 == 1)];
  }

  lemma NoBytes(n: int)
    ensures Bytes(n, 0) == [] && Shift(n, 0) == n
  {
  }

  lemma FreeTopBit(c: Curve, y: nat, flag: bool)
    requires Fits(c) && y < c.p
    ensures Bytes(y + (if flag then 128 * TopWeight() else 0), 32) == Bytes(y, 32)[31 := FlipIf(Bytes(y, 32)[31], flag)]
  {
    hide Bytes, Pow, LowByte, FlipIf;
    TopBit(y, 32, flag);
  }

  lemma XorParity(b: bv8, flag: bool)
    ensures b ^ (if flag then 128 else 0) == FlipIf(b, flag)
  {
  }

  /** y and the parity of x determine the point. */
  lemma SameOrdinate(c: Curve, a: Affine, b: Affine)
    requires Complete(c) && OnCurve(c, a) && OnCurve(c, b) && a.y == b.y && a.x % 2 == b.x % 2
    ensures a == b
  {
    var p, f := c.p, 1 + c.d * (a.y * a.y);
    assert Prime(p) && p > 2;
    OrdinateFactor(c, a.y);
    DefectGap(c.d, a.x, b.x, a.y);
    hide Defect, Zero, Prime, Complete;
    ZeroAdd(Defect(c.d, b.x, a.y, b.x * a.y), Defect(c.d, a.x, a.y, a.x * a.y), p);
    Cancel(f, (a.x - b.x) * (a.x + b.x), p);
    SquareRoots(p, a.x, b.x);
  }

  /** Points with the same ordinate: how far their defects are apart. */
  lemma DefectGap(d: int, x: int, w: int, y: int)
    ensures Defect(d, w, y, w * y) - Defect(d, x, y, x * y) == (1 + d * (y * y)) * ((x - w) * (x + w))
  {
    FactorOut(d, x, y);
    FactorOut(d, w, y);
    DifferenceOfDefects(Defect(d, x, y, x * y), Defect(d, w, y, w * y), x, w, y * y, d * (y * y));
  }

  /** 1 + d y^2 is never zero, since -1/d is not a square. */
  lemma OrdinateFactor(c: Curve, y: int)
    requires Complete(c)
    ensures !Zero(1 + c.d * (y * y), c.p)
  {
    var p, f := c.p, 1 + c.d * (y * y);
    if Zero(f, p) {
      var i :| Root(i, -1, p);
      ZeroAdd(i * i - (-1), f, p);
      NonSquare(c, i, y);
      ZeroMul(y, c.d * y, p);
      assert y * (c.d * y) == c.d * (y * y);
      ZeroAdd(f, y * (c.d * y), p);
      OneIsNotZero(p);
    }
  }

  /** Two square roots of the same residue that also share their parity are equal. */
  lemma SquareRoots(p: int, u: int, v: int)
    requires Prime(p) && p > 2 && 0 <= u < p && 0 <= v < p && u % 2 == v % 2
    requires Zero((u - v) * (u + v), p)
    ensures u == v
  {
    assert p % 2 == 1 by { assert !Zero(p, 2); }
    NoZeroDivisors(u - v, u + v, p);
    if Zero(u - v, p) {
      ReducedEqual(u, v, p);
    } else {
      var k := ZeroQuotient(u + v, p);
      SmallSum(p, k, u, v);
    }
  }

  /** A multiple of an odd p below 2p with an even value is 0. */
  lemma SmallSum(p: int, k: int, u: int, v: int)
    requires p > 0 && p % 2 == 1 && 0 <= u < p && 0 <= v < p && u % 2 == v % 2 && u + v == p * k
    ensures u == v == 0
  {
    assert p * (k - 2) == p * k - 2 * p;
    MultipleSize(p, k - 2);
    MultipleSize(p, k);
    assert k == 0 || k == 1;
    assert p * 0 == 0 && p * 1 == p;
  }

  lemma DifferenceOfDefects(da: int, db: int, x: int, w: int, yy: int, v: int)
    requires da == yy - x * x - 1 - v * (x * x) && db == yy - w * w - 1 - v * (w * w)
    ensures db - da == (1 + v) * ((x - w) * (x + w))
  {
    assert (x - w) * (x + w) == x * x - w * w;
    var s, t := x * x, w * w;
    assert (1 + v) * (s - t) == s - t + v * s - v * t;
  }

  /** pointToBytes never gives two curve points the same 32 bytes. */
  lemma EncodeInjective(c: Curve, a: Affine, b: Affine)
    requires Complete(c) && Fits(c) && OnCurve(c, a) && OnCurve(c, b) && Encode(a) == Encode(b)
    ensures a == b
  {
    EncodedParts(c, a);
    EncodedParts(c, b);
    SameOrdinate(c, a, b);
  }

  /** The encoded number splits back into the ordinate and the parity. */
  lemma EncodedParts(c: Curve, a: Affine)
    requires Fits(c) && 0 <= a.y < c.p
    ensures var v, m := Value(Encode(a)), 128 * TopWeight();
      m > 0 && a.y == (if v < m then v else v - m) && (a.x % 2 == 1 <==> v >= m)
  {
    hide TopWeight, Bytes, Value, Pow;
    TopWeightSize();
    ValueOfBytes(a.y + (if a.x % 2 == 1 then 128 * TopWeight() else 0), 32);
  }

  /** Scaling X, Y, Z and T by a common nonzero factor does not change the encoding. */
  lemma EncodingIgnoresScale(c: Curve, p: Point, k: int)
    requires Complete(c) && Fits(c) && Valid(c, p) && !Zero(k, c.p)
    ensures var q := Point(k * p.X, k * p.Y, k * p.Z, k * p.T);
      Valid(c, q) && Encode(ToAffine(c, q)) == Encode(ToAffine(c, p))
  {
    var a, m, q := ToAffine(c, p), c.p, Point(k * p.X, k * p.Y, k * p.Z, k * p.T);
    ValidRepresents(c, p);
    NonZeroProduct(k, p.Z, m);
    ScaleCoordinate(m, k, p.X, a.x, p.Z);
    ScaleCoordinate(m, k, p.Y, a.y, p.Z);
    ScaleCoordinate(m, k, p.T, a.x * a.y, p.Z);
    RepresentsValid(c, q, a);
  }

  lemma ScaleCoordinate(m: int, k: int, u: int, x: int, z: int)
    requires m > 0 && Zero(u - x * z, m)
    ensures Zero(k * u - x * (k * z), m)
  {
    assert k * (u - x * z) == k * u - x * (k * z);
    ZeroMul(u - x * z, k, m);
  }

  // ---------- Clamping ----------

  function LowMasked(b: bv8): bv8 {
    b & 248
  }

  function HighMasked(b: bv8): bv8 {
    (b & 127) | 64
  }

  ghost function Clamped(bytes: seq<bv8>): nat
    requires |bytes| >= 32
  {
    Value(bytes[..32][0 := LowMasked(bytes[0])][31 := HighMasked(bytes[31])])
  }

  method Clamp(bytes: seq<bv8>) returns (s: nat)
    requires |bytes| >= 32
    ensures s == Clamped(bytes)
  {
    hide Value, Pow, LowMasked, HighMasked;
    var clamped := new bv8[|bytes|](i requires 0 <= i < |bytes| => bytes[i]);
    assert clamped[..32] == bytes[..32];
    clamped[0] := LowMasked(clamped[0]);
    clamped[31] := HighMasked(clamped[31]);
    assert clamped[..32] == bytes[..32][0 := LowMasked(bytes[0])][31 := HighMasked(bytes[31])];
    s := BytesToBigInt(clamped[..32]);
  }

  lemma ValueParts(bytes: seq<bv8>)
    requires |bytes| == 32
    ensures Value(bytes) == bytes[0] as nat + 256 * Value(bytes[1..31]) + TopWeight() * bytes[31] as nat
    ensures bytes[0] as nat + 256 * Value(bytes[1..31]) < TopWeight()
  {
    ValueSplit(bytes, 31);
    assert bytes[31..] == [bytes[31]];
    assert Value([bytes[31]]) == bytes[31] as nat + 256 * Value([]);
    assert bytes[..31][1..] == bytes[1..31];
    ValueBound(bytes[..31]);
  }

  /** clamp clears the three lowest bits and bit 255 and sets bit 254 of the first 32 bytes. */
  lemma ClampedValue(bytes: seq<bv8>)
    requires |bytes| >= 32
    ensures var v, w := Value(bytes[..32]), 64 * TopWeight();
      && w > 0 && Clamped(bytes) == w + v % w - v % 8
      && Clamped(bytes) % 8 == 0 && w <= Clamped(bytes) < 2 * w
  {
    hide TopWeight, Value;
    var b, t := bytes[..32], TopWeight();
    var b' := b[0 := bytes[0] & 248][31 := (bytes[31] & 127) | 64];
    ValueParts(b);
    ValueParts(b');
    assert b'[1..31] == b[1..31];
    ClampedBytes(bytes[0], bytes[31]);
    TopWeightSize();
    BvRange(bytes[0]);
    BvRange(bytes[31]);
    ClampArithmetic(bytes[0] as nat, Value(b[1..31]), bytes[31] as nat, t);
  }

  lemma ClampedBytes(lo: bv8, hi: bv8)
    ensures (lo & 248) as int == lo as int - lo as int % 8 && ((hi & 127) | 64) as int == 64 + hi as int % 64
  {
    ClearLow(lo);
    ClearHigh(hi);
    SetSecond(hi & 127);
    BvRange(hi);
  }

  lemma ClampArithmetic(b: nat, m: nat, h: nat, t: int)
    requires h < 256 && t > 0 && t % 8 == 0 && b + 256 * m < t
    ensures var v, w := b + 256 * m + t * h, 64 * t;
      var s := b - b % 8 + 256 * m + t * (64 + h % 64);
      s == w + v % w - v % 8 && s % 8 == 0 && w <= s < 2 * w
  {
    var g, l := h % 64, b + 256 * m;
    HighBits(l, h, t);
    LowBits(b, m, t / 8, h);
    LowBits(b, m, t / 8, 64 + g);
    Monotone(t, g, 63);
    AssembleClamp(b, l, l + t * h, l + t * (64 + g), t, t * g);
  }

  lemma AssembleClamp(b: nat, l: nat, v: int, x: int, t: int, n: int)
    requires v % 8 == b % 8 && x % 8 == b % 8 && x == 64 * t + l + n && 0 <= n <= t * 63 && l < t && b <= l
    requires v % (64 * t) == l + n
    ensures var s := x - b % 8; s == 64 * t + v % (64 * t) - v % 8 && s % 8 == 0 && 64 * t <= s < 2 * (64 * t)
  {
    assert x - b % 8 == 8 * (x / 8);
    MultipleIsZero(x - b % 8, 8, x / 8);
  }

  lemma HighBits(l: nat, h: nat, t: int)
    requires l < t && h < 256
    ensures (l + t * h) % (64 * t) == l + t * (h % 64)
  {
    var q, g := h / 64, h % 64;
    assert t * h == (64 * t) * q + t * g by { assert h == 64 * q + g; }
    Monotone(t, g, 63);
    MultipleIsZero((l + t * h) - (l + t * g), 64 * t, q);
    EuclidUnique(l + t * h, l + t * g, 64 * t);
  }

  lemma LowBits(b: nat, m: nat, u: int, h: nat)
    ensures (b + 256 * m + (8 * u) * h) % 8 == b % 8
  {
    var v, x := b + 256 * m + (8 * u) * h, b / 8 + 32 * m + u * h;
    assert (8 * u) * h == 8 * (u * h);
    MultipleIsZero(v - b % 8, 8, x);
    EuclidUnique(v, b % 8, 8);
  }

  lemma Monotone(t: int, g: int, n: int)
    requires t > 0 && 0 <= g <= n
    ensures 0 <= t * g <= t * n
  {
  }

  // ---------- Keys and signatures ----------

  /** The curve, its base point and the order of the base point. */
  datatype Setting = Setting(curve: Curve, base: Affine, order: int)

  ghost predicate Sound(g: Setting) {
    && Complete(g.curve) && Fits(g.curve)
    && OnCurve(g.curve, g.base)
    && 0 < g.order <= 256 * TopWeight()
    && Multiple(g.curve, g.order, g.base) == NEUTRAL
  }

  lemma SquareMod5(z: int)
    ensures (z * z - 2) % 5 != 0
  {
    var q, r := z / 5, z % 5;
    assert z == 5 * q + r;
    assert z * z - 2 == 5 * (5 * (q * q) + 2 * (q * r)) + (r * r - 2);
    assert r * r - 2 == -2 || r * r - 2 == -1 || r * r - 2 == 2 || r * r - 2 == 7 || r * r - 2 == 14;
  }

  lemma SmallCurve()
    ensures Complete(Curve(5, 2)) && OnCurve(Curve(5, 2), Affine(0, 4))
  {
    assert Root(2, -1, 5);
    forall z ensures !Root(z, 2, 5) {
      SquareMod5(z);
    }
    forall a | 1 < a < 5 ensures !Zero(5, a) {
      assert a == 2 || a == 3 || a == 4;
    }
    assert Prime(5);
  }

  lemma TwiceIsSum(c: Curve, a: Affine)
    requires c.p > 1
    ensures Multiple(c, 2, a) == Add(c, Add(c, NEUTRAL, a), a)
  {
    hide Add;
    assert Multiple(c, 1, a) == Add(c, Multiple(c, 0, a), a);
  }

  lemma OwnMirror()
    ensures Negate(Curve(5, 2), Affine(0, 4)) == Affine(0, 4)
  {
  }

  /** The demands on a setting can be met: five elements, d = 2, and a base point of order 2. */
  lemma SoundSettingExists()
    ensures Sound(Setting(Curve(5, 2), Affine(0, 4), 2))
  {
    var c, b := Curve(5, 2), Affine(0, 4);
    hide Pow, TopWeight, Complete, Add, OnCurve, Multiple, Negate;
    SmallCurve();
    TopWeightSize();
    OwnMirror();
    AddNegation(c, b);
    AddNeutral(c, b);
    TwiceIsSum(c, b);
  }

  ghost predicate Digests64(H: seq<bv8> -> seq<bv8>) {
    forall m :: |H(m)| == 64
  }

  function BasePoint(g: Setting): Point
    requires g.curve.p > 0
  {
    Point(g.base.x, g.base.y, 1, Mod(g.base.x * g.base.y, g.curve.p))
  }

  lemma BasePointValid(g: Setting)
    requires Sound(g)
    ensures Valid(g.curve, BasePoint(g)) && ToAffine(g.curve, BasePoint(g)) == g.base
  {
    var p, t := g.curve.p, g.base.x * g.base.y;
    OneIsNotZero(p);
    ModSpec(t, p);
    ZeroAdd(t - Mod(t, p), 0, p);
    MultipleIsZero(0, p, 0);
    RepresentsValid(g.curve, BasePoint(g), g.base);
  }

  lemma Periodic(c: Curve, L: nat, q: nat, r: nat, a: Affine)
    requires Complete(c) && OnCurve(c, a) && Multiple(c, L, a) == NEUTRAL
    ensures Multiple(c, q * L + r, a) == Multiple(c, r, a)
  {
    hide Add, OnCurve;
    MultipleAdd(c, q * L, r, a);
    MultipleMul(c, q, L, a);
    MultipleOfNeutral(c, q);
    MultipleOnCurve(c, r, a);
    AddNeutral(c, Multiple(c, r, a));
  }

  /** Multiples of the base point only depend on the scalar modulo the order. */
  lemma MultipleModOrder(g: Setting, n: nat)
    requires Sound(g)
    ensures Multiple(g.curve, n, g.base) == Multiple(g.curve, n % g.order, g.base)
  {
    hide Add, OnCurve, TopWeight, Multiple, Fits, Complete;
    DivisionSplit(n, g.order);
    Periodic(g.curve, g.order, n / g.order, n % g.order, g.base);
  }

  lemma DivisionSplit(n: nat, L: int)
    requires L > 0
    ensures n / L >= 0 && 0 <= n % L && (n / L) * L + n % L == n
  {
  }

  ghost function SecretScalar(H: seq<bv8> -> seq<bv8>, seed: seq<bv8>): nat
    requires Digests64(H)
  {
    Clamped(H(seed))
  }

  /** The bytes of a multiple of the base point, as the source computes them from whatever base point it has. */
  ghost function MultipleBytes(g: Setting, n: int): seq<bv8>
    requires g.curve.p > 1
  {
    Encode(ToAffine(g.curve, DoubleAndAdd(g.curve, ZERO, BasePoint(g), n)))
  }

  /** On a sound setting they are the encoding of the n-fold sum. */
  lemma MultipleBytesCorrect(g: Setting, n: nat)
    requires Sound(g)
    ensures MultipleBytes(g, n) == Encode(Multiple(g.curve, n, g.base))
  {
    hide Encode, DoubleAndAdd, Multiple, ToAffine, Valid, Complete, OnCurve;
    BasePointValid(g);
    ScalarMultCorrect(g.curve, n, BasePoint(g));
  }

  /** The public key: the secret scalar times the base point. */
  ghost function PublicKey(g: Setting, H: seq<bv8> -> seq<bv8>, seed: seq<bv8>): seq<bv8>
    requires Digests64(H) && g.curve.p > 1
  {
    MultipleBytes(g, SecretScalar(H, seed))
  }

  /** The nonce of a message. */
  ghost function Nonce(g: Setting, H: seq<bv8> -> seq<bv8>, message: seq<bv8>, seed: seq<bv8>): nat
    requires Digests64(H) && g.order > 0
  {
    Value(H(H(seed)[32..64] + message)) % g.order
  }

  /** The signature the source computes in any setting. */
  ghost function SignatureOf(g: Setting, H: seq<bv8> -> seq<bv8>, message: seq<bv8>, seed: seq<bv8>): seq<bv8>
    requires Digests64(H) && g.curve.p > 1 && g.order > 0
  {
    var r, R := Nonce(g, H, message, seed), MultipleBytes(g, Nonce(g, H, message, seed));
    var K := Value(H(R + PublicKey(g, H, seed) + message));
    R + Bytes((r + (K % g.order) * SecretScalar(H, seed)) % g.order, 32)
  }

  datatype Result<T> = Success(value: T) | Failure(error: string)

  /** deriveKeypair: rejects a seed that is not 32 bytes long. */
  method DerivePublicKey(g: Setting, H: seq<bv8> -> seq<bv8>, seed: seq<bv8>) returns (r: Result<seq<bv8>>)
    requires Fits(g.curve) && Digests64(H)
    ensures |seed| == 32 ==> r == Success(PublicKey(g, H, seed))
    ensures |seed| == 32 && Sound(g) ==> r == Success(Encode(Multiple(g.curve, SecretScalar(H, seed), g.base)))
    ensures |seed| != 32 ==> r == Failure("Seed must be 32 bytes")
  {
    if |seed| != 32 {
      return Failure("Seed must be 32 bytes");
    }
    var s := Clamp(H(seed));
    var A := ScalarMult(g.curve, s, BasePoint(g));
    var bytes := PointToBytes(g.curve, A);
    r := Success(bytes[..]);
    if Sound(g) {
      MultipleBytesCorrect(g, s);
    }
  }

  /**
   Verification, section 5.1.7 of RFC 8032 without the cofactor: the signature's halves decode to a
   curve point R and a number S below the order, and S B = R + k A for the hash k of R, A and message.
   */
  ghost predicate Verifies(g: Setting, H: seq<bv8> -> seq<bv8>, key: seq<bv8>, message: seq<bv8>, signature: seq<bv8>)
    requires g.curve.p > 1
  {
    && |signature| == 64
    && Value(signature[32..]) < g.order
    && exists R, A :: Equation(g, H, key, message, signature, R, A)
  }

  ghost predicate Equation(g: Setting, H: seq<bv8> -> seq<bv8>, key: seq<bv8>, message: seq<bv8>, signature: seq<bv8>, R: Affine, A: Affine)
    requires g.curve.p > 1 && |signature| == 64
  {
    && OnCurve(g.curve, R) && Encode(R) == signature[..32]
    && OnCurve(g.curve, A) && Encode(A) == key
    && Multiple(g.curve, Value(signature[32..]), g.base)
       == Add(g.curve, R, Multiple(g.curve, Value(H(signature[..32] + key + message)), A))
  }

  /** (r + k s) B = r B + K (s B) when k = K modulo the order. */
  lemma SignatureEquation(g: Setting, r: nat, K: nat, s: nat)
    requires Sound(g)
    ensures var c, S := g.curve, (r + (K % g.order) * s) % g.order;
      Multiple(c, S, g.base) == Add(c, Multiple(c, r, g.base), Multiple(c, K, Multiple(c, s, g.base)))
  {
    hide Add, OnCurve, TopWeight, Multiple;
    var c, L, k := g.curve, g.order, K % g.order;
    assert 0 <= k * s && 0 <= K * s && (k * s) % L == (K * s) % L by { ReduceFactor(K, s, L); }
    MultipleModOrder(g, r + k * s);
    MultipleAdd(c, r, k * s, g.base);
    MultipleModOrder(g, k * s);
    MultipleModOrder(g, K * s);
    MultipleMul(c, K, s, g.base);
  }

  lemma ReduceFactor(K: nat, s: nat, L: nat)
    requires L > 0
    ensures ((K % L) * s) % L == (K * s) % L && 0 <= (K % L) * s && 0 <= K * s
  {
    var k, q := K % L, K / L;
    assert K * s - k * s == L * (q * s) by { assert K == L * q + k; }
    MultipleIsZero(K * s - k * s, L, q * s);
    ModEqual(K * s, k * s, L);
    ModSpec(K * s, L);
    ModSpec(k * s, L);
  }

  lemma EncodeLength(a: Affine)
    ensures |Encode(a)| == 32
  {
  }

  /**
   ed25519Sign: in a sound setting every signature it produces verifies under the key derived from the
   same seed. What it computes is stated for every setting.
   */
  method Ed25519Sign(g: Setting, H: seq<bv8> -> seq<bv8>, message: seq<bv8>, seed: seq<bv8>) returns (signature: seq<bv8>)
    requires Fits(g.curve) && g.order > 0 && Digests64(H)
    ensures signature == SignatureOf(g, H, message, seed)
    ensures Sound(g) ==>
      && Verifies(g, H, PublicKey(g, H, seed), message, signature)
      && signature[..32] == Encode(Multiple(g.curve, Nonce(g, H, message, seed), g.base))
  {
    hide Mod, Bytes, Value, Clamped, Multiple, TopWeight, Encode, ToAffine, Verifies, Valid, OnCurve, DoubleAndAdd, Sound,
      BasePoint;
    var c, L := g.curve, g.order;
    var h := H(seed);
    var s := Clamp(h);
    var prefix := h[32..64];
    var A := ScalarMult(c, s, BasePoint(g));
    var publicKey := PointToBytes(c, A);
    var rHash := BytesToBigInt(H(prefix + message));
    var r := Mod(rHash, L);
    ModSpec(rHash, L);
    var R := ScalarMult(c, r, BasePoint(g));
    var Rbytes := PointToBytes(c, R);
    var kHash := BytesToBigInt(H(Rbytes[..] + publicKey[..] + message));
    var k := Mod(kHash, L);
    ModSpec(kHash, L);
    var S := Mod(r + k * s, L);
    ModSpec(r + k * s, L);
    var Sbytes := BigIntToBytes(S, 32);
    signature := Rbytes[..] + Sbytes[..];
    if Sound(g) {
      SignatureVerifies(g, H, message, seed);
    }
  }

  lemma SignatureVerifies(g: Setting, H: seq<bv8> -> seq<bv8>, message: seq<bv8>, seed: seq<bv8>)
    requires Sound(g) && Digests64(H)
    ensures Verifies(g, H, PublicKey(g, H, seed), message, SignatureOf(g, H, message, seed))
    ensures SignatureOf(g, H, message, seed)[..32] == Encode(Multiple(g.curve, Nonce(g, H, message, seed), g.base))
  {
    hide Add, OnCurve, Encode, Bytes, TopWeight, Clamped, MultipleBytes, Multiple, Nonce;
    var c, s, r := g.curve, SecretScalar(H, seed), Nonce(g, H, message, seed);
    var signature, key := SignatureOf(g, H, message, seed), PublicKey(g, H, seed);
    MultipleBytesCorrect(g, r);
    MultipleBytesCorrect(g, s);
    var kHash := Value(H(MultipleBytes(g, r) + key + message));
    var S := (r + (kHash % g.order) * s) % g.order;
    var R, A := Multiple(c, r, g.base), Multiple(c, s, g.base);
    EncodeLength(R);
    assert signature[..32] == Encode(R) && signature[32..] == Bytes(S, 32);
    TopWeightSize();
    ValueOfBytes(S, 32);
    MultipleOnCurve(c, r, g.base);
    MultipleOnCurve(c, s, g.base);
    SignatureEquation(g, r, kHash, s);
    assert Equation(g, H, key, message, signature, R, A);
  }

  // ---------- Small multiples and small digests ----------

  lemma NeutralPlus(c: Curve, a: Affine)
    requires Prime(c.p) && c.p > 2 && 0 <= a.x < c.p && 0 <= a.y < c.p
    ensures Add(c, NEUTRAL, a) == a && Multiple(c, 1, a) == a
  {
    assert Cross(c, NEUTRAL, a) == 0 by { NothingCrossed(c.d, a.x * a.y); }
    OneIsNotZero(c.p);
    hide Inverse, Mod, Prime, Zero;
    OverOne(a.x, c.p);
    OverOne(a.y, c.p);
    assert Multiple(c, 1, a) == Add(c, Multiple(c, 0, a), a);
  }

  lemma NothingCrossed(d: int, t: int)
    ensures d * ((0 * 1) * t) == 0
  {
  }

  lemma OverOne(n: int, p: int)
    requires Prime(p) && !Zero(1, p) && 0 <= n < p
    ensures Mod(n * Inverse(1, p), p) == n
  {
    Divide(n, 1, p);
    MultipleIsZero(n * 1 - n, p, 0);
    QuotientUnique(n, 1, Mod(n * Inverse(1, p), p), n, p);
  }

  lemma {:induction false} ZerosValue(n: nat)
    ensures Value(seq(n, i => 0 as bv8)) == 0
  {
    if n > 0 {
      assert seq(n, i => 0 as bv8)[1..] == seq(n - 1, i => 0 as bv8);
      ZerosValue(n - 1);
    }
  }

  /** The digest k, 0, ..., 0. */
  function SmallDigest(k: bv8): seq<bv8> {
    [k] + seq(63, i => 0)
  }

  lemma SmallDigestValue(k: bv8)
    ensures |SmallDigest(k)| == 64 && Value(SmallDigest(k)) == k as nat
  {
    ZerosValue(63);
    assert SmallDigest(k)[1..] == seq(63, i => 0 as bv8);
  }

  // ---------- What keys and signatures are computed from ----------

  /** The scalar of a seed, from the first half of its digest: bits 0 to 2 and 255 cleared, bit 254 set. */
  lemma ScalarValue(H: seq<bv8> -> seq<bv8>, seed: seq<bv8>)
    requires Digests64(H)
    ensures var v, w := Value(H(seed)[..32]), 64 * TopWeight(); w > 0 && SecretScalar(H, seed) == w + v % w - v % 8
  {
    hide TopWeight, Value;
    ClampedValue(H(seed));
  }

  /**
   Section 5.1.6 of RFC 8032, on numbers and points: the key is the multiple by the clamped first half
   of the seed's digest; R is the multiple by the digest of its second half and the message; S is the sum
   of that digest and the product of scalar and challenge, reduced.
   */
  lemma SignatureParts(g: Setting, H: seq<bv8> -> seq<bv8>, message: seq<bv8>, seed: seq<bv8>) returns (a: nat)
    requires Sound(g) && Digests64(H)
    ensures var v, w := Value(H(seed)[..32]), 64 * TopWeight(); w > 0 && a == w + v % w - v % 8
    ensures
      var r := Value(H(H(seed)[32..64] + message));
      var key, R := Encode(Multiple(g.curve, a, g.base)), Encode(Multiple(g.curve, r, g.base));
      var signature := SignatureOf(g, H, message, seed);
      && PublicKey(g, H, seed) == key
      && |signature| == 64 && signature[..32] == R
      && Value(signature[32..]) == (r + Value(H(R + key + message)) * a) % g.order
  {
    hide Clamped, Value, TopWeight, Multiple, Encode, SecretScalar, Sound, SignatureOf, Bytes, PublicKey, MultipleBytes, Nonce, Pow;
    ScalarValue(H, seed);
    a := SecretScalar(H, seed);
    KeyAndHalf(g, H, message, seed);
    SignatureNumbers(g, H, message, seed);
  }

  lemma KeyAndHalf(g: Setting, H: seq<bv8> -> seq<bv8>, message: seq<bv8>, seed: seq<bv8>)
    requires Sound(g) && Digests64(H)
    ensures PublicKey(g, H, seed) == Encode(Multiple(g.curve, SecretScalar(H, seed), g.base))
    ensures MultipleBytes(g, Nonce(g, H, message, seed)) == Encode(Multiple(g.curve, Value(H(H(seed)[32..64] + message)), g.base))
  {
    hide Clamped, Value, TopWeight, Multiple, Encode, OnCurve, Complete, SecretScalar, MultipleBytes;
    MultipleBytesCorrect(g, SecretScalar(H, seed));
    MultipleBytesCorrect(g, Nonce(g, H, message, seed));
    MultipleModOrder(g, Value(H(H(seed)[32..64] + message)));
  }

  lemma SignatureNumbers(g: Setting, H: seq<bv8> -> seq<bv8>, message: seq<bv8>, seed: seq<bv8>)
    requires Sound(g) && Digests64(H)
    ensures
      var r, a := Value(H(H(seed)[32..64] + message)), SecretScalar(H, seed);
      var key, R := PublicKey(g, H, seed), MultipleBytes(g, Nonce(g, H, message, seed));
      var signature := SignatureOf(g, H, message, seed);
      |signature| == 64 && signature[..32] == R && Value(signature[32..]) == (r + Value(H(R + key + message)) * a) % g.order
  {
    hide Clamped, Value, TopWeight, Multiple, Encode, Bytes, DoubleAndAdd, ToAffine, SecretScalar, MultipleBytes, PublicKey, Pow,
      OnCurve, Complete;
    var r, n := Value(H(H(seed)[32..64] + message)), Nonce(g, H, message, seed);
    MultipleBytesLength(g, n);
    SplitSignature(MultipleBytes(g, n), r, Value(H(MultipleBytes(g, n) + PublicKey(g, H, seed) + message)), SecretScalar(H, seed), g.order);
  }

  lemma MultipleBytesLength(g: Setting, n: int)
    requires g.curve.p > 1
    ensures |MultipleBytes(g, n)| == 32
  {
    hide ToAffine, DoubleAndAdd, Bytes;
    EncodeLength(ToAffine(g.curve, DoubleAndAdd(g.curve, ZERO, BasePoint(g), n)));
  }

  lemma SplitSignature(R: seq<bv8>, r: nat, K: nat, a: nat, L: nat)
    requires |R| == 32 && 0 < L <= 256 * TopWeight()
    ensures var s := R + Bytes((r % L + (K % L) * a) % L, 32);
      |s| == 64 && s[..32] == R && Value(s[32..]) == (r + K * a) % L
  {
    hide TopWeight, Bytes, Value;
    ReduceTerms(r, K, a, L);
    ReducedBound(r % L + (K % L) * a, L);
    TwoHalves(R, (r % L + (K % L) * a) % L);
  }

  lemma ReducedBound(n: int, L: int)
    requires L > 0
    ensures 0 <= n % L < L
  {
  }

  lemma TwoHalves(R: seq<bv8>, n: nat)
    requires |R| == 32 && n < 256 * TopWeight()
    ensures var s := R + Bytes(n, 32); |s| == 64 && s[..32] == R && Value(s[32..]) == n
  {
    hide TopWeight, Bytes, Value;
    TopWeightSize();
    ValueOfBytes(n, 32);
    assert (R + Bytes(n, 32))[32..] == Bytes(n, 32);
  }

  lemma ReduceTerms(r: nat, K: nat, a: nat, L: nat)
    requires L > 0
    ensures (r % L + (K % L) * a) % L == (r + K * a) % L
  {
    ReduceFactor(K, a, L);
    RemainderTwice(r, L);
    SumOfRemainders(r % L, (K % L) * a, r, K * a, L);
  }

  lemma RemainderTwice(r: int, L: int)
    requires L > 0
    ensures (r % L) % L == r % L
  {
  }

  lemma SumOfRemainders(x: int, y: int, u: int, v: int, L: int)
    requires L > 0 && x % L == u % L && y % L == v % L
    ensures (x + y) % L == (u + v) % L
  {
    EuclidSpec(x, L);
    EuclidSpec(u, L);
    EuclidSpec(y, L);
    EuclidSpec(v, L);
    ZeroAdd(x - x % L, u - u % L, L);
    ZeroAdd(y - y % L, v - v % L, L);
    ZeroAdd(x - u, y - v, L);
    ModEqual(x + y, u + v, L);
    ModSpec(x + y, L);
    ModSpec(u + v, L);
  }

  /**
   The digest function that is 1 on the second half of the seed's digest followed by the message and 0
   on every other input, the seed's own digest being any.
   */
  ghost function OneOn(seed: seq<bv8>, digest: seq<bv8>, message: seq<bv8>): seq<bv8> -> seq<bv8>
    requires |digest| == 64
  {
    (m: seq<bv8>) => if m == seed then digest else if m == digest[32..64] + message then SmallDigest(1) else SmallDigest(0)
  }

  /** Under it the first half of the signature is the base point, and for every other message the neutral point. */
  lemma FirstHalfCommits(g: Setting, seed: seq<bv8>, digest: seq<bv8>, message: seq<bv8>, other: seq<bv8>)
    requires Sound(g) && |digest| == 64 && digest[32..64] + message != seed
    ensures
      var H := OneOn(seed, digest, message);
      && Digests64(H) && H(seed) == digest
      && SignatureOf(g, H, message, seed)[..32] == Encode(g.base)
      && (other != message && digest[32..64] + other != seed ==> SignatureOf(g, H, other, seed)[..32] == Encode(NEUTRAL))
  {
    var H, half := OneOn(seed, digest, message), digest[32..64];
    SmallDigestValue(0);
    SmallDigestValue(1);
    BaseOnce(g);
    if half + other == half + message {
      assert (half + other)[32..] == other && (half + message)[32..] == message;
    }
    assert H(half + message) == SmallDigest(1);
    hide SmallDigest, Value, Multiple, Encode, SignatureOf, Sound;
    var a := SignatureParts(g, H, message, seed);
    var b := SignatureParts(g, H, other, seed);
  }

  lemma BaseOnce(g: Setting)
    requires Sound(g)
    ensures Multiple(g.curve, 0, g.base) == NEUTRAL && Multiple(g.curve, 1, g.base) == g.base
  {
    assert Prime(g.curve.p) && g.curve.p > 2;
    assert 0 <= g.base.x < g.curve.p && 0 <= g.base.y < g.curve.p;
    NeutralPlus(g.curve, g.base);
  }

  // ---------- Base points off the curve ----------

  /** A signature whose second half takes the base point to a point off the curve verifies under no key. */
  lemma UnbalancedFails(g: Setting, H: seq<bv8> -> seq<bv8>, key: seq<bv8>, message: seq<bv8>, signature: seq<bv8>)
    requires Complete(g.curve) && |signature| == 64
    requires !OnCurve(g.curve, Multiple(g.curve, Value(signature[32..]), g.base))
    ensures !Verifies(g, H, key, message, signature)
  {
    var c, K := g.curve, Value(H(signature[..32] + key + message));
    hide OnCurve, Add, Multiple, Encode, Complete;
    forall R, A ensures !Equation(g, H, key, message, signature, R, A) {
      if OnCurve(c, R) && OnCurve(c, A) {
        MultipleOnCurve(c, K, A);
        AddOnCurve(c, R, Multiple(c, K, A));
      }
    }
  }

  /** So does one whose first half is the encoding of no curve point. */
  lemma UndecodableFails(g: Setting, H: seq<bv8> -> seq<bv8>, key: seq<bv8>, message: seq<bv8>, signature: seq<bv8>)
    requires g.curve.p > 1 && |signature| >= 32
    requires forall R :: OnCurve(g.curve, R) ==> Encode(R) != signature[..32]
    ensures !Verifies(g, H, key, message, signature)
  {
    hide OnCurve, Add, Multiple, Encode;
  }

  /** A digest function with the value 1 on inputs of this length and 0 on all others. */
  ghost function OneAt(length: nat): seq<bv8> -> seq<bv8> {
    (m: seq<bv8>) => if |m| == length then SmallDigest(1) else SmallDigest(0)
  }

  lemma OneAtDigests(length: nat)
    ensures Digests64(OneAt(length))
    ensures forall m :: Value(OneAt(length)(m)) == if |m| == length then 1 else 0
  {
    SmallDigestValue(0);
    SmallDigestValue(1);
    hide Value, SmallDigest;
  }

  /** Under it the nonce is 1 and the challenge 0, so that the second half of the signature is 1. */
  lemma SignatureOfOne(g: Setting, message: seq<bv8>, seed: seq<bv8>)
    requires g.curve.p > 1 && g.order > 1
    ensures
      var H := OneAt(32 + |message|);
      && Digests64(H) && Nonce(g, H, message, seed) == 1
      && |SignatureOf(g, H, message, seed)| == 64 && Value(SignatureOf(g, H, message, seed)[32..]) == 1
  {
    var H := OneAt(32 + |message|);
    OneAtDigests(32 + |message|);
    NonceOfOne(g, message, seed);
    hide OneAt, Value, Bytes, SecretScalar, MultipleBytes, Nonce, Pow, SignatureOf, PublicKey;
    MultipleBytesLength(g, 1);
    PublicKeyLength(g, H, seed);
    var R, key := MultipleBytes(g, 1), PublicKey(g, H, seed);
    assert |R + key + message| == 64 + |message|;
    WithoutChallenge(g, H, message, seed);
    OneFits();
    TwoHalves(R, 1);
  }

  lemma PublicKeyLength(g: Setting, H: seq<bv8> -> seq<bv8>, seed: seq<bv8>)
    requires g.curve.p > 1 && Digests64(H)
    ensures |PublicKey(g, H, seed)| == 32
  {
    hide MultipleBytes, SecretScalar;
    MultipleBytesLength(g, SecretScalar(H, seed));
  }

  lemma WithoutChallenge(g: Setting, H: seq<bv8> -> seq<bv8>, message: seq<bv8>, seed: seq<bv8>)
    requires g.curve.p > 1 && g.order > 1 && Digests64(H) && Nonce(g, H, message, seed) == 1
    requires Value(H(MultipleBytes(g, 1) + PublicKey(g, H, seed) + message)) == 0
    ensures SignatureOf(g, H, message, seed) == MultipleBytes(g, 1) + Bytes(1, 32)
  {
    hide Value, Bytes, SecretScalar, MultipleBytes, Nonce, PublicKey;
    OnlyNonce(SecretScalar(H, seed), g.order);
  }

  lemma OnlyNonce(s: nat, L: nat)
    requires L > 1
    ensures (1 + (0 % L) * s) % L == 1
  {
  }

  lemma NonceOfOne(g: Setting, message: seq<bv8>, seed: seq<bv8>)
    requires g.order > 1 && Digests64(OneAt(32 + |message|))
    ensures Nonce(g, OneAt(32 + |message|), message, seed) == 1
  {
    OneAtDigests(32 + |message|);
    hide OneAt, Value;
    assert |OneAt(32 + |message|)(seed)[32..64] + message| == 32 + |message|;
    assert 1 % g.order == 1;
  }

  lemma OneFits()
    ensures 1 < 256 * TopWeight()
  {
    TopWeightSize();
    hide Bytes;
    ValueBound(SmallDigest(2)[..32]);
    assert SmallDigest(2)[..32][0] == 2;
  }

  /** With a base point off the curve there are, for every message and seed, signatures that verify under no key. */
  lemma OffCurveBaseFails(g: Setting, message: seq<bv8>, seed: seq<bv8>, key: seq<bv8>)
    requires Complete(g.curve) && g.order > 1 && 0 <= g.base.x < g.curve.p && 0 <= g.base.y < g.curve.p
    requires !OnCurve(g.curve, g.base)
    ensures
      var H := OneAt(32 + |message|);
      && Digests64(H) && Nonce(g, H, message, seed) == 1
      && !Verifies(g, H, key, message, SignatureOf(g, H, message, seed))
  {
    var H := OneAt(32 + |message|);
    SignatureOfOne(g, message, seed);
    assert Prime(g.curve.p) && g.curve.p > 2;
    NeutralPlus(g.curve, g.base);
    hide OneAt, Nonce, SignatureOf, Complete, OnCurve, Multiple, Verifies, Prime;
    UnbalancedFails(g, H, key, message, SignatureOf(g, H, message, seed));
  }

  /** Whatever the digest function, every signature verifies under the key of its seed. */
  ghost predicate AlwaysVerifies(g: Setting)
    requires g.curve.p > 1 && g.order > 0
  {
    forall H: seq<bv8> -> seq<bv8>, message, seed :: Digests64(H) ==>
      Verifies(g, H, PublicKey(g, H, seed), message, SignatureOf(g, H, message, seed))
  }

  /** That is so exactly if the base point is on the curve, when the order annihilates it in that case. */
  lemma AlwaysVerifiesIff(g: Setting)
    requires Complete(g.curve) && Fits(g.curve) && 1 < g.order <= 256 * TopWeight()
    requires 0 <= g.base.x < g.curve.p && 0 <= g.base.y < g.curve.p
    requires OnCurve(g.curve, g.base) ==> Multiple(g.curve, g.order, g.base) == NEUTRAL
    ensures AlwaysVerifies(g) <==> OnCurve(g.curve, g.base)
  {
    if OnCurve(g.curve, g.base) {
      assert Sound(g);
      hide Sound, Verifies, SignatureOf, PublicKey, Complete, Fits, OnCurve, Multiple;
      forall H: seq<bv8> -> seq<bv8>, message, seed | Digests64(H)
        ensures Verifies(g, H, PublicKey(g, H, seed), message, SignatureOf(g, H, message, seed))
      {
        SignatureVerifies(g, H, message, seed);
      }
    } else {
      var H := OneAt(32);
      OneAtDigests(32);
      hide OneAt, Verifies, SignatureOf, PublicKey, Fits, OnCurve, Multiple;
      OffCurveBaseFails(g, [], [], PublicKey(g, H, []));
    }
  }
}

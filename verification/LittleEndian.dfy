/**
 Little-endian byte strings as crypto.ts converts them to and from BigInt values, and the bit
 masks it applies to single bytes.
 */
module LittleEndian {
  import opened ModularArithmetic

  /** The number whose base-256 digits, lowest first, are the bytes. */
  function Value(bytes: seq<bv8>): nat {
    if bytes == [] then 0 else bytes[0] as nat + 256 * Value(bytes[1..])
  }

  /** Number(n & 0xff): the lowest base-256 digit of n, for a negative n that of its two's complement. */
  function LowByte(n: int): bv8 {
    (n % 256) as bv8
  }

  lemma LowByteValue(n: int)
    ensures LowByte(n) as int == n % 256
  {
    FitsByte(n % 256);
  }

  lemma NextByte(b: bv8)
    requires b != 255
    ensures (b + 1) as int == b as int + 1
  {
  }

  lemma {:induction false} SomeByte(m: int)
    requires 0 <= m < 256
    ensures exists b: bv8 {:trigger b as int} :: b as int == m
  {
    if m == 0 {
      assert (0 as bv8) as int == 0;
    } else {
      SomeByte(m - 1);
      var b: bv8 :| b as int == m - 1;
      assert b != 255;
      NextByte(b);
    }
  }

  lemma SameByte(b: bv8, m: int)
    requires b as int == m
    ensures m as bv8 == b
  {
  }

  lemma FitsByte(m: int)
    requires 0 <= m < 256
    ensures (m as bv8) as int == m
  {
    SomeByte(m);
    var b: bv8 :| b as int == m;
    SameByte(b, m);
  }

  /** The lowest `length` base-256 digits of n, for a negative n those of its two's complement. */
  function Bytes(n: int, length: nat): (bytes: seq<bv8>)
    ensures |bytes| == length
    decreases length
  {
    if length == 0 then [] else [LowByte(n)] + Bytes(n / 256, length - 1)
  }

  lemma FirstByte(n: int, k: nat)
    ensures Bytes(n, k + 1) == [LowByte(n)] + Bytes(n / 256, k)
  {
    hide LowByte;
  }

  lemma BvRoundTrip(b: bv8)
    ensures LowByte(b as int) == b && 0 <= b as int < 256
  {
    BvRange(b);
    ReducedByte(b as int);
    BvIdentity(b, (b as int) % 256);
  }

  lemma ReducedByte(n: int)
    requires 0 <= n < 256
    ensures n % 256 == n
  {
  }

  lemma BvRange(b: bv8)
    ensures 0 <= b as int < 256
  {
  }

  lemma BvIdentity(b: bv8, m: int)
    requires m == b as int && 0 <= m < 256
    ensures m as bv8 == b
  {
  }

  lemma {:induction false} ValueBound(bytes: seq<bv8>)
    ensures Value(bytes) < Pow(256, |bytes|)
  {
    if bytes != [] {
      ValueBound(bytes[1..]);
      BvRoundTrip(bytes[0]);
    }
  }

  /** Reading back `length` bytes gives the number, if they can hold it. */
  lemma {:induction false} ValueOfBytes(n: int, length: nat)
    requires 0 <= n < Pow(256, length)
    ensures Value(Bytes(n, length)) == n
  {
    hide LowByte;
    if length > 0 {
      assert n / 256 < Pow(256, length - 1);
      ValueOfBytes(n / 256, length - 1);
      LowByteValue(n);
      assert Bytes(n, length)[1..] == Bytes(n / 256, length - 1);
    }
  }

  lemma Digit(b: int, v: int)
    requires 0 <= b < 256
    ensures (b + 256 * v) % 256 == b == b % 256 && (b + 256 * v) / 256 == v
  {
  }

  lemma SameLowByte(m: int, n: int)
    requires m % 256 == n % 256
    ensures LowByte(m) == LowByte(n)
  {
  }

  /** Writing back the value of a byte string gives the byte string. */
  lemma {:induction false} BytesOfValue(bytes: seq<bv8>)
    ensures Bytes(Value(bytes), |bytes|) == bytes
  {
    if bytes != [] {
      BytesOfValue(bytes[1..]);
      BvRoundTrip(bytes[0]);
      hide LowByte, Bytes;
      WrittenFirst(bytes[0] as int, Value(bytes[1..]), |bytes| - 1);
    }
  }

  lemma WrittenFirst(d: int, v: int, k: nat)
    requires 0 <= d < 256
    ensures Bytes(d + 256 * v, k + 1) == [LowByte(d)] + Bytes(v, k)
  {
    Digit(d, v);
    hide LowByte, Bytes;
    DigitThenBytes(d + 256 * v, d, v, k);
  }

  lemma DigitThenBytes(n: int, d: int, v: int, k: nat)
    requires n % 256 == d % 256 && n / 256 == v
    ensures Bytes(n, k + 1) == [LowByte(d)] + Bytes(v, k)
  {
    FirstByte(n, k);
    SameLowByte(n, d);
  }

  lemma {:induction false} ValueSplit(bytes: seq<bv8>, k: nat)
    requires k <= |bytes|
    ensures Value(bytes) == Value(bytes[..k]) + Pow(256, k) * Value(bytes[k..])
  {
    if k == 0 {
      assert bytes[0..] == bytes;
    } else {
      ValueSplit(bytes[1..], k - 1);
      assert bytes[..k][1..] == bytes[1..][..k - 1] && bytes[1..][k - 1..] == bytes[k..];
      assert bytes[..k][0] == bytes[0];
      Horner(bytes[0] as int, Value(bytes[1..][..k - 1]), Pow(256, k - 1), Value(bytes[k..]));
    }
  }

  lemma Horner(b: int, v: int, q: int, w: int)
    ensures b + 256 * (v + q * w) == (b + 256 * v) + (256 * q) * w
  {
  }

  // ---------- Byte masks ----------

  lemma FlipTop(b: bv8)
    requires b < 128
    ensures (b ^ 128) as int == b as int + 128 && b ^ 0 == b
  {
  }

  lemma ClearLow(b: bv8)
    ensures (b & 248) as int == b as int - b as int % 8
  {
  }

  lemma ClearHigh(b: bv8)
    ensures (b & 127) as int == b as int % 128 && b & 127 < 128
  {
  }

  lemma SetSecond(b: bv8)
    requires b < 128
    ensures (b | 64) as int == 64 + b as int % 64
  {
  }

  function FlipIf(b: bv8, flag: bool): bv8 {
    if flag then b ^ 128 else b
  }

  /** Adding 2^(8k-1) to a number that leaves the top bit of its k bytes free flips exactly that bit. */
  lemma {:induction false} TopBit(y: nat, k: nat, flag: bool)
    requires k > 0 && y < 128 * Pow(256, k - 1)
    ensures Bytes(y, k)[k - 1] < 128
    ensures Bytes(y + (if flag then 128 * Pow(256, k - 1) else 0), k) == Bytes(y, k)[k - 1 := FlipIf(Bytes(y, k)[k - 1], flag)]
  {
    hide Bytes, LowByte, FlipIf;
    if k == 1 {
      TopBitOfOne(y, flag);
    } else {
      var m := 128 * Pow(256, k - 2);
      assert 128 * Pow(256, k - 1) == 256 * m;
      hide Pow;
      HigherDigits(y, m, flag);
      TopBit(y / 256, k - 1, flag);
      SameLowByte(y + (if flag then 256 * m else 0), y);
      NextDigit(y, y + (if flag then 256 * m else 0), k, FlipIf(Bytes(y / 256, k - 1)[k - 2], flag));
    }
  }

  lemma TopBitOfOne(y: nat, flag: bool)
    requires y < 128
    ensures Bytes(y, 1)[0] < 128
    ensures Bytes(y + (if flag then 128 else 0), 1) == Bytes(y, 1)[0 := FlipIf(Bytes(y, 1)[0], flag)]
  {
    TopBitOfByte(y, flag);
    OneByte(y);
    OneByte(y + if flag then 128 else 0);
    hide Bytes, LowByte, FlipIf;
  }

  lemma HigherDigits(y: nat, m: nat, flag: bool)
    ensures var n := y + (if flag then 256 * m else 0); n % 256 == y % 256 && n / 256 == y / 256 + if flag then m else 0
    ensures y < 256 * m ==> y / 256 < m
  {
  }

  lemma OneByte(n: int)
    ensures Bytes(n, 1) == [LowByte(n)]
  {
    assert Bytes(n, 1) == [LowByte(n)] + Bytes(n / 256, 0);
  }

  lemma NextDigit(y: nat, n: nat, k: nat, x: bv8)
    requires k > 1 && LowByte(n) == LowByte(y)
    requires Bytes(n / 256, k - 1) == Bytes(y / 256, k - 1)[k - 2 := x]
    ensures Bytes(y, k)[k - 1] == Bytes(y / 256, k - 1)[k - 2]
    ensures Bytes(n, k) == Bytes(y, k)[k - 1 := x]
  {
    FirstByte(n, k - 1);
    FirstByte(y, k - 1);
    hide LowByte, Bytes;
  }

  lemma TopBitOfByte(y: nat, flag: bool)
    requires y < 128
    ensures LowByte(y) < 128 && LowByte(y + if flag then 128 else 0) == FlipIf(LowByte(y), flag)
  {
    LowByteValue(y);
    FlipAsSum(LowByte(y), y, flag);
  }

  lemma FlipAsSum(b: bv8, y: nat, flag: bool)
    requires b as int == y < 128
    ensures b < 128 && LowByte(y + if flag then 128 else 0) == FlipIf(b, flag)
  {
    hide LowByte;
    SmallByte(b);
    BvRoundTrip(b);
    FlipTop(b);
    BvRoundTrip(b ^ 128);
  }

  lemma SmallByte(b: bv8)
    requires b as int < 128
    ensures b < 128
  {
  }

  // ---------- The conversions of the source ----------

  /** bytesToBigInt; the left shift leaves the low eight bits free, so the bitwise or is a sum. */
  method BytesToBigInt(bytes: seq<bv8>) returns (result: nat)
    ensures result == Value(bytes)
  {
    result := 0;
    var i := |bytes| - 1;
    while i >= 0
      invariant -1 <= i < |bytes|
      invariant result == Value(bytes[i + 1..])
    {
      result := result * 256 + bytes[i] as nat;
      assert bytes[i..][1..] == bytes[i + 1..];
      i := i - 1;
    }
    assert bytes[0..] == bytes;
  }

  /** Appending the next digit of the number still to be written. */
  lemma {:induction false} BytesExtend(n: int, i: nat)
    ensures Bytes(n, i + 1) == Bytes(n, i) + [LowByte(Shift(n, i))]
    ensures Shift(n, i + 1) == Shift(n, i) / 256
    decreases i
  {
    FirstByte(n, i);
    if i > 0 {
      BytesExtend(n / 256, i - 1);
      FirstByte(n, i - 1);
    }
    hide LowByte, Bytes;
  }

  /** n shifted right by i bytes. */
  function Shift(n: int, i: nat): int
    decreases i
  {
    if i == 0 then n else Shift(n / 256, i - 1)
  }

  method BigIntToBytes(n: int, length: nat) returns (bytes: array<bv8>)
    ensures fresh(bytes) && bytes[..] == Bytes(n, length)
  {
    bytes := new bv8[length];
    var m := n;
    for i := 0 to length
      invariant bytes[..i] == Bytes(n, i)
      invariant m == Shift(n, i)
    {
      BytesExtend(n, i);
      bytes[i] := LowByte(m);
      assert bytes[..i + 1] == bytes[..i] + [bytes[i]];
      m := m / 256;
    }
    assert bytes[..] == bytes[..length];
  }
}

/**
 ULIDs: ten base-32 digits of a timestamp and sixteen random ones, meant to sort by time.
 */
module Ulid {
  import opened KeyOrder
  import opened ModularArithmetic

  const ENCODING := "0123456789ABCDEFGHJKMNPQRSTVWXYZ"

  const TIME_LEN: nat := 10
  const RANDOM_LEN: nat := 16

  /** The digits and the capitals without I, L, O and U, by character code. */
  function CodeOf(v: int): int
    requires 0 <= v < 32
  {
    if v < 10 then '0' as int + v
    else if v < 18 then 'A' as int + v - 10
    else if v < 20 then 'J' as int + v - 18
    else if v < 22 then 'M' as int + v - 20
    else if v < 27 then 'P' as int + v - 22
    else 'V' as int + v - 27
  }

  lemma Codes(v: int)
    requires 0 <= v < 32
    ensures |ENCODING| == 32 && ENCODING[v] as int == CodeOf(v)
  {
  }

  lemma DigitsAscend(v: int, w: int)
    requires 0 <= v < 32 && 0 <= w < 32
    ensures |ENCODING| == 32 && (ENCODING[v] < ENCODING[w] <==> v < w) && (ENCODING[v] == ENCODING[w] <==> v == w)
  {
    Codes(v);
    Codes(w);
    assert v < w ==> CodeOf(v) < CodeOf(w);
    assert w < v ==> CodeOf(w) < CodeOf(v);
  }

  // ---------- Encoding ----------

  function Digit(v: int): char
    requires 0 <= v < 32
  {
    Codes(v);
    ENCODING[v]
  }

  function Encode(t: nat, len: nat): (s: string)
    ensures |s| == len
  {
    if len == 0 then "" else Encode(t / 32, len - 1) + [Digit(t % 32)]
  }

  function Random(bytes: seq<int>): (s: string)
    requires forall i :: 0 <= i < |bytes| ==> 0 <= bytes[i] < 256
    ensures |s| == |bytes|
  {
    seq(|bytes|, i requires 0 <= i < |bytes| => Digit(bytes[i] % 32))
  }

  function Generate(t: nat, bytes: seq<int>): string
    requires |bytes| == RANDOM_LEN && forall i :: 0 <= i < |bytes| ==> 0 <= bytes[i] < 256
  {
    Encode(t, TIME_LEN) + Random(bytes)
  }

  // ---------- Decoding ----------

  /** indexOf: -1 for a character that is no digit. */
  function ValueFrom(c: char, i: nat): (v: int)
    requires i <= |ENCODING|
    ensures v == -1 || (i <= v < |ENCODING| && ENCODING[v] == c)
    ensures v == -1 ==> forall j :: i <= j < |ENCODING| ==> ENCODING[j] != c
    decreases |ENCODING| - i
  {
    if i == |ENCODING| then -1 else if ENCODING[i] == c then i else ValueFrom(c, i + 1)
  }

  function ValueOf(c: char): int {
    ValueFrom(c, 0)
  }

  /** Beyond the end of the string there is no character, and its value is -1 as well. */
  function ValueAt(s: string, i: nat): int {
    if i < |s| then ValueOf(s[i]) else -1
  }

  /** The first n characters as a number. */
  function Decode(s: string, n: nat): int {
    if n == 0 then 0 else Decode(s, n - 1) * 32 + ValueAt(s, n - 1)
  }

  function DecodeTime(ulid: string): int {
    Decode(ulid, TIME_LEN)
  }

  function RandomPart(ulid: string): string {
    if |ulid| <= TIME_LEN then "" else ulid[TIME_LEN..]
  }

  predicate AllDigits(s: string) {
    forall i :: 0 <= i < |s| ==> ValueOf(s[i]) >= 0
  }

  predicate IsValid(s: string) {
    |s| == TIME_LEN + RANDOM_LEN && AllDigits(s)
  }

  // ---------- The loops ----------

  method EncodeTime(now: nat, len: nat) returns (str: string)
    ensures str == Encode(now, len)
  {
    str := "";
    var t := now;
    for i := len downto 0
      invariant Encode(now, len) == Encode(t, i) + str
    {
      Codes(t % 32);
      var mod := t % 32;
      assert Encode(t, i + 1) == Encode(t / 32, i) + [ENCODING[mod]];
      str := [ENCODING[mod]] + str;
      t := t / 32;
    }
  }

  method EncodeRandom(bytes: array<int>) returns (str: string)
    requires forall i :: 0 <= i < bytes.Length ==> 0 <= bytes[i] < 256
    ensures str == Random(bytes[..])
  {
    str := "";
    for i := 0 to bytes.Length
      invariant |str| == i && forall j :: 0 <= j < i ==> str[j] == Digit(bytes[j] % 32)
    {
      Codes(bytes[i] % 32);
      str := str + [ENCODING[bytes[i] % 32]];
    }
  }

  method DecodeUlid(ulid: string) returns (timestamp: int, random: string)
    ensures timestamp == DecodeTime(ulid) && random == RandomPart(ulid)
  {
    var timePart := if |ulid| <= TIME_LEN then ulid else ulid[..TIME_LEN];
    random := if |ulid| <= TIME_LEN then "" else ulid[TIME_LEN..];
    timestamp := 0;
    for i := 0 to TIME_LEN
      invariant timestamp == Decode(ulid, i)
    {
      var value := if i < |timePart| then ValueOf(timePart[i]) else -1;
      assert value == ValueAt(ulid, i);
      timestamp := timestamp * 32 + value;
    }
  }

  lemma OneMoreDigit(s: string, i: nat)
    requires i < |s|
    ensures s[i] in ENCODING ==> AllDigits(s[..i + 1]) == AllDigits(s[..i])
    ensures s[i] !in ENCODING ==> !AllDigits(s)
  {
    HasValueIff(s[i]);
    hide ValueOf;
    assert s[..i + 1] == s[..i] + [s[i]];
  }

  lemma HasValueIff(c: char)
    ensures ValueOf(c) >= 0 <==> c in ENCODING
  {
    hide ValueFrom;
    if c in ENCODING {
      var j :| 0 <= j < |ENCODING| && ENCODING[j] == c;
    }
  }

  method IsValidUlid(str: string) returns (valid: bool)
    ensures valid == IsValid(str)
  {
    if |str| != TIME_LEN + RANDOM_LEN {
      return false;
    }
    for i := 0 to |str|
      invariant AllDigits(str[..i])
    {
      OneMoreDigit(str, i);
      if str[i] !in ENCODING {
        return false;
      }
    }
    assert str[..|str|] == str;
    valid := true;
  }

  // ---------- Round trips ----------

  lemma {:induction false} PowerPositive(n: nat)
    ensures Pow(32, n) > 0
  {
    if n > 0 {
      PowerPositive(n - 1);
    }
  }

  lemma DigitValue(v: int)
    requires 0 <= v < 32
    ensures ValueOf(Digit(v)) == v
  {
    Codes(v);
    var w := ValueOf(ENCODING[v]);
    assert w >= 0;
    DigitsAscend(v, w);
  }

  lemma ValueDigit(c: char)
    requires ValueOf(c) >= 0
    ensures ValueOf(c) < 32 && Digit(ValueOf(c)) == c
  {
    Codes(0);
  }

  /** Decoding looks at the first n characters only. */
  lemma {:induction false} DecodePrefix(s: string, r: string, n: nat)
    requires n <= |s|
    ensures Decode(s + r, n) == Decode(s, n)
  {
    if n > 0 {
      DecodePrefix(s, r, n - 1);
    }
  }

  lemma SplitDigit(t: nat, p: nat)
    requires p > 0
    ensures t % (32 * p) == (t / 32 % p) * 32 + t % 32
  {
    var q, d := t / 32, t % 32;
    var a, b := q / p, q % p;
    assert t == 32 * q + d && q == p * a + b;
    var m := b * 32 + d;
    assert t == (32 * p) * a + m by {
      Distribute(p, a, b);
    }
    assert 0 <= m < 32 * p;
    MultipleIsZero(t - m, 32 * p, a);
    EuclidUnique(t, m, 32 * p);
  }

  lemma Distribute(p: int, a: int, b: int)
    ensures 32 * (p * a + b) == (32 * p) * a + 32 * b
  {
  }

  /** What the digits keep of a timestamp. */
  lemma {:induction false} DecodeEncode(t: nat, n: nat)
    ensures Pow(32, n) > 0
    ensures Decode(Encode(t, n), n) == t % Pow(32, n)
    decreases n
  {
    if n > 0 {
      var high := Encode(t / 32, n - 1);
      DecodeEncode(t / 32, n - 1);
      DecodePrefix(high, [Digit(t % 32)], n - 1);
      DigitValue(t % 32);
      assert ValueAt(Encode(t, n), n - 1) == t % 32;
      PowerPositive(n - 1);
      SplitDigit(t, Pow(32, n - 1));
    }
  }

  /** Ten digits hold timestamps below 32^10 and no others. */
  lemma TimeRoundTripIff(t: nat, bytes: seq<int>)
    requires |bytes| == RANDOM_LEN && forall i :: 0 <= i < |bytes| ==> 0 <= bytes[i] < 256
    ensures DecodeTime(Generate(t, bytes)) == t <==> t < Pow(32, TIME_LEN)
    ensures RandomPart(Generate(t, bytes)) == Random(bytes)
  {
    PowerPositive(TIME_LEN);
    DecodeEncode(t, TIME_LEN);
    DecodePrefix(Encode(t, TIME_LEN), Random(bytes), TIME_LEN);
    hide Encode, Decode, Pow, Random;
    if t < Pow(32, TIME_LEN) {
      MultipleIsZero(0, Pow(32, TIME_LEN), 0);
      EuclidUnique(t, t, Pow(32, TIME_LEN));
    }
    assert t % Pow(32, TIME_LEN) < Pow(32, TIME_LEN);
  }

  lemma Bound()
    ensures Pow(32, TIME_LEN) == 0x4_0000_0000_0000
  {
    assert Pow(32, 5) == 33554432;
    assert Pow(32, 6) == 32 * Pow(32, 5);
    assert Pow(32, 8) == 32 * 32 * Pow(32, 6);
    assert Pow(32, 10) == 32 * 32 * Pow(32, 8);
  }

  lemma {:induction false} EncodedDigits(t: nat, n: nat)
    ensures AllDigits(Encode(t, n))
    decreases n
  {
    if n > 0 {
      EncodedDigits(t / 32, n - 1);
      DigitValue(t % 32);
    }
  }

  lemma {:induction false} DecodeBounds(s: string, n: nat)
    requires n <= |s| && forall i :: 0 <= i < n ==> ValueOf(s[i]) >= 0
    ensures 0 <= Decode(s, n) < Pow(32, n)
  {
    if n > 0 {
      DecodeBounds(s, n - 1);
      ValueDigit(s[n - 1]);
    }
  }

  lemma {:induction false} EncodeDecode(s: string, n: nat)
    requires n <= |s| && forall i :: 0 <= i < n ==> ValueOf(s[i]) >= 0
    ensures Decode(s, n) >= 0 && Encode(Decode(s, n), n) == s[..n]
  {
    if n > 0 {
      EncodeDecode(s, n - 1);
      ValueDigit(s[n - 1]);
      var high, low := Decode(s, n - 1), ValueOf(s[n - 1]);
      assert Decode(s, n) == high * 32 + low;
      assert (high * 32 + low) / 32 == high && (high * 32 + low) % 32 == low;
      assert s[..n] == s[..n - 1] + [s[n - 1]];
    }
  }

  /** Re-encoding gives back the first ten characters exactly when they are all digits. */
  lemma ReencodeIff(ulid: string)
    requires |ulid| >= TIME_LEN
    ensures AllDigits(ulid[..TIME_LEN]) <==>
            DecodeTime(ulid) >= 0 && Encode(DecodeTime(ulid), TIME_LEN) == ulid[..TIME_LEN]
  {
    var front := ulid[..TIME_LEN];
    assert forall i :: 0 <= i < TIME_LEN ==> front[i] == ulid[i];
    hide Encode, Decode, ValueOf;
    if AllDigits(front) {
      EncodeDecode(ulid, TIME_LEN);
    }
    if DecodeTime(ulid) >= 0 {
      EncodedDigits(DecodeTime(ulid), TIME_LEN);
    }
  }

  /** The alphabet: the decimal digits and the capital letters other than I, L, O and U. */
  predicate Crockford(c: char) {
    '0' <= c <= '9' || ('A' <= c <= 'Z' && c != 'I' && c != 'L' && c != 'O' && c != 'U')
  }

  lemma AlphabetIs(c: char)
    ensures c in ENCODING <==> Crockford(c)
  {
    if c in ENCODING {
      var v :| 0 <= v < |ENCODING| && ENCODING[v] == c;
      Codes(v);
    }
    if Crockford(c) {
      var n := c as int;
      var v := if n <= '9' as int then n - '0' as int else if n < 'I' as int then n - 'A' as int + 10
        else if n < 'L' as int then n - 'J' as int + 18 else if n < 'O' as int then n - 'M' as int + 20
        else if n < 'U' as int then n - 'P' as int + 22 else n - 'V' as int + 27;
      Codes(v);
    }
  }

  /** A text is valid exactly if it is 26 characters of that alphabet. */
  lemma ValidIff(s: string)
    ensures IsValid(s) <==> |s| == 26 && forall i :: 0 <= i < |s| ==> Crockford(s[i])
  {
    forall i | 0 <= i < |s| ensures ValueOf(s[i]) >= 0 <==> Crockford(s[i]) {
      HasValueIff(s[i]);
      AlphabetIs(s[i]);
    }
    hide ValueOf, Crockford;
  }

  /** The random part of a generated ULID, read digit by digit, is the low five bits of each random byte. */
  lemma RandomDigits(t: nat, bytes: seq<int>, j: nat)
    requires |bytes| == RANDOM_LEN && forall i :: 0 <= i < |bytes| ==> 0 <= bytes[i] < 256
    requires j < 16
    ensures |Generate(t, bytes)| == 26 && |RandomPart(Generate(t, bytes))| == 16
    ensures ValueOf(RandomPart(Generate(t, bytes))[j]) == bytes[j] % 32
  {
    var a, b := Encode(t, TIME_LEN), Random(bytes);
    DigitValue(bytes[j] % 32);
    hide Encode, ValueOf;
    assert (a + b)[TIME_LEN..] == b;
  }

  /** Every generated ULID is valid. */
  lemma GeneratedIsValid(t: nat, bytes: seq<int>)
    requires |bytes| == RANDOM_LEN && forall i :: 0 <= i < |bytes| ==> 0 <= bytes[i] < 256
    ensures IsValid(Generate(t, bytes))
  {
    EncodedDigits(t, TIME_LEN);
    var a, b := Encode(t, TIME_LEN), Random(bytes);
    forall i | 0 <= i < |b| ensures ValueOf(b[i]) >= 0 {
      DigitValue(bytes[i] % 32);
    }
    hide Encode, Random, ValueOf;
    var s := a + b;
    forall i | 0 <= i < |s| ensures ValueOf(s[i]) >= 0 {
      assert s[i] == if i < |a| then a[i] else b[i - |a|];
    }
  }

  // ---------- Order ----------

  lemma {:induction false} LexSnoc(a: seq<int>, b: seq<int>, x: int, y: int)
    requires |a| == |b|
    ensures LexLess(a + [x], b + [y]) <==> LexLess(a, b) || (a == b && x < y)
  {
    if a != [] {
      assert (a + [x])[1..] == a[1..] + [x] && (b + [y])[1..] == b[1..] + [y];
      LexSnoc(a[1..], b[1..], x, y);
      assert a == [a[0]] + a[1..] && b == [b[0]] + b[1..];
    }
  }

  lemma {:induction false} LexPrefix(a: seq<int>, b: seq<int>, x: seq<int>, y: seq<int>)
    requires |a| == |b| && LexLess(a, b)
    ensures LexLess(a + x, b + y)
  {
    assert (a + x)[1..] == a[1..] + x && (b + y)[1..] == b[1..] + y;
    if a[0] == b[0] {
      LexPrefix(a[1..], b[1..], x, y);
    }
  }

  lemma {:induction false} CodePointsConcat(a: string, b: string)
    ensures CodePoints(a + b) == CodePoints(a) + CodePoints(b) && |CodePoints(a)| == |a|
  {
    if a == [] {
      assert a + b == b;
    } else {
      assert (a + b)[1..] == a[1..] + b;
      CodePointsConcat(a[1..], b);
    }
  }

  lemma CodePointsSnoc(a: string, c: char)
    ensures CodePoints(a + [c]) == CodePoints(a) + [c as int] && |CodePoints(a)| == |a|
  {
    CodePointsConcat(a, [c]);
    assert CodePoints([c]) == [c as int];
  }

  /** Among encodings of the same length, the lexicographic order is the numeric order of what they hold. */
  lemma {:induction false} EncodeOrder(t: nat, u: nat, n: nat)
    requires t < Pow(32, n) && u < Pow(32, n)
    ensures LexLess(CodePoints(Encode(t, n)), CodePoints(Encode(u, n))) <==> t < u
    decreases n
  {
    if n > 0 {
      var a, b := Encode(t / 32, n - 1), Encode(u / 32, n - 1);
      EncodeOrder(t / 32, u / 32, n - 1);
      EncodeOrder(u / 32, t / 32, n - 1);
      CodePointsSnoc(a, Digit(t % 32));
      CodePointsSnoc(b, Digit(u % 32));
      DigitsAscend(t % 32, u % 32);
      LexSnoc(CodePoints(a), CodePoints(b), Digit(t % 32) as int, Digit(u % 32) as int);
      LexTotal(CodePoints(a), CodePoints(b));
      hide LexLess, CodePoints;
    }
  }

  /** ULIDs of different timestamps sort by time, whatever their random parts. */
  lemma UlidsSortByTime(t: nat, u: nat, x: seq<int>, y: seq<int>)
    requires |x| == RANDOM_LEN && forall i :: 0 <= i < |x| ==> 0 <= x[i] < 256
    requires |y| == RANDOM_LEN && forall i :: 0 <= i < |y| ==> 0 <= y[i] < 256
    requires t < u < Pow(32, TIME_LEN)
    ensures LexLess(CodePoints(Generate(t, x)), CodePoints(Generate(u, y)))
  {
    hide Pow, Encode, Random, LexLess, CodePoints;
    EncodeOrder(t, u, TIME_LEN);
    CodePointsConcat(Encode(t, TIME_LEN), Random(x));
    CodePointsConcat(Encode(u, TIME_LEN), Random(y));
    LexPrefix(CodePoints(Encode(t, TIME_LEN)), CodePoints(Encode(u, TIME_LEN)), CodePoints(Random(x)), CodePoints(Random(y)));
  }
}

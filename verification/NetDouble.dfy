/**
 The portable codec for floating-point numbers: a binary64 value is taken apart with
 frexp() and ldexp() into the fields of the IEEE 754 interchange format (section 3.4
 of IEEE 754-2008) and sent in network byte order.

 A finite value is m * 2^e with an integer m, and so is every intermediate value of
 the codec; all of them have at most 53 significant bits, hence the exact arithmetic
 below is what the machine computes.
 */
module NetDouble {

  datatype Double =
    | NotANumber
    | Infinity(negative: bool)
    | Zero(negative: bool)
    | Finite(negative: bool, m: nat, e: int)

  /** Number m * 2^e. */
  datatype Dyadic = Dyadic(m: nat, e: int)

  /** The fields of struct IeeeDouble: 1, 11, 20 and 32 bits. */
  datatype Fields = Fields(s: nat, e: nat, f1: nat, f2: nat)

  const EXP_BIAS := 1023
  const EXP_MAX := 1024
  const EXP_MIN := -1022

  function Pow2(n: nat): (r: nat)
    ensures r > 0
  {
    if n == 0 then 1 else 2 * Pow2(n - 1)
  }

  const TWO_20 := 0x10_0000
  const TWO_32 := 0x1_0000_0000
  const TWO_52 := 0x10_0000_0000_0000
  const TWO_53 := 0x20_0000_0000_0000

  /** The values of the binary64 format, normal or subnormal. */
  predicate ValidDouble(d: Double) {
    d.Finite? ==>
      || (TWO_52 <= d.m < TWO_53 && -1074 <= d.e <= 971)
      || (0 < d.m < TWO_52 && d.e == -1074)
  }

  predicate ValidFields(f: Fields) {
    f.s < 2 && f.e < 2048 && f.f1 < TWO_20 && f.f2 < TWO_32
  }

  // ---- Powers of two ----------------------------------------------------------------

  lemma {:induction false} Pow2Adds(a: nat, b: nat)
    ensures Pow2(a + b) == Pow2(a) * Pow2(b)
  {
    if a > 0 { Pow2Adds(a - 1, b); }
  }

  lemma {:induction false} Pow2Grows(a: nat, b: nat)
    requires a <= b
    ensures Pow2(a) <= Pow2(b)
  {
    if a < b { Pow2Grows(a, b - 1); }
  }

  lemma Pow2Values()
    ensures Pow2(20) == TWO_20 && Pow2(32) == TWO_32 && Pow2(52) == TWO_52 && Pow2(53) == TWO_53
  {
    assert Pow2(4) == 16;
    Pow2Adds(4, 4);
    Pow2Adds(8, 8);
    Pow2Adds(16, 4);
    Pow2Adds(16, 16);
    Pow2Adds(32, 20);
  }

  /** Number of significant bits. */
  function BitLength(m: nat): (l: nat)
    requires m > 0
    ensures l > 0 && Pow2(l - 1) <= m < Pow2(l)
  {
    if m == 1 then 1 else BitLength(m / 2) + 1
  }

  // ---- The mathematical functions of the C library on exact values -----------------------

  predicate LessThanOne(d: Dyadic) { d.e < 0 && d.m < Pow2(-d.e) }

  function Ldexp(d: Dyadic, n: int): Dyadic { d.(e := d.e + n) }

  function Product(a: nat, b: nat): nat { a * b }

  function Quotient(a: nat, b: nat): nat
    requires b > 0
  {
    a / b
  }

  /** Conversion to an integer, which cuts off the fraction. */
  function Truncate(d: Dyadic): nat {
    if d.e >= 0 then Product(d.m, Pow2(d.e)) else Quotient(d.m, Pow2(-d.e))
  }

  function Plus(a: Dyadic, b: Dyadic): Dyadic {
    if a.e >= b.e then Dyadic(a.m * Pow2(a.e - b.e) + b.m, b.e)
    else Dyadic(a.m + b.m * Pow2(b.e - a.e), a.e)
  }

  /** The double with this value, for values that have one. */
  function ToDouble(negative: bool, d: Dyadic): Double
    decreases d.e + 1074
  {
    if d.m < TWO_52 && d.e > -1074 then ToDouble(negative, Dyadic(2 * d.m, d.e - 1))
    else if d.e > 971 then Infinity(negative)
    else Finite(negative, d.m, d.e)
  }

  // ---- Encoding -----------------------------------------------------------------------------

  /** The interchange format: what the encoder is meant to produce. */
  function FieldsOf(d: Double): (f: Fields)
    requires ValidDouble(d)
    ensures ValidFields(f)
    ensures f.e == 2047 <==> d.NotANumber? || d.Infinity?
  {
    match d
    case NotANumber => Fields(0, 2047, 1, 1)
    case Infinity(negative) => Fields(if negative then 1 else 0, 2047, 0, 0)
    case Zero(_) => Fields(0, 0, 0, 0)
    case Finite(negative, m, e) =>
      if m >= TWO_52 then Fields(if negative then 1 else 0, e + 1075, (m - TWO_52) / TWO_32, (m - TWO_52) % TWO_32)
      else Fields(if negative then 1 else 0, 0, m / TWO_32, m % TWO_32)
  }

  /** How a significand compares with a power of two. */
  lemma Below(m: nat, k: nat)
    requires 0 < m < TWO_53
    ensures m >= TWO_52 ==> (m < Pow2(k) <==> k >= 53)
    ensures m < TWO_52 && k >= 52 ==> m < Pow2(k)
    ensures m < Pow2(k) ==> k > 0
  {
    Pow2Values();
    if k >= 53 { Pow2Grows(53, k); }
    if k >= 52 { Pow2Grows(52, k); }
    if k <= 52 { Pow2Grows(k, 52); }
  }

  lemma TruncateFraction(m: nat)
    requires m < TWO_52
    ensures Truncate(Dyadic(m, -32)) == m / TWO_32 < TWO_20
    ensures Truncate(Dyadic(m, 0)) == m
  {
    Pow2Values();
  }

  /** frexp() and the loop that brings the fraction into [1, 2) as far as the exponent
      range allows. */
  method Normalise(m: nat, e: int) returns (frac: Dyadic, exp: int)
    requires 0 < m < TWO_53 && -1074 <= e <= 971 && (m < TWO_52 ==> e == -1074)
    ensures frac.m == m && frac.e + exp == e
    ensures m >= TWO_52 ==> exp == e + 52
    ensures m < TWO_52 ==> exp < EXP_MIN
  {
    var l: int := BitLength(m);
    frac, exp := Dyadic(m, -l), e + l;
    Below(m, l);
    Below(m, l - 1);
    while LessThanOne(frac) && exp >= EXP_MIN
      invariant frac.m == m && frac.e + exp == e
      invariant m >= TWO_52 ==> e + 52 <= exp <= e + 53
      decreases exp + 1023
    {
      Below(m, -frac.e);
      frac := Ldexp(frac, 1);
      exp := exp - 1;
    }
    if frac.e < 0 { Below(m, -frac.e); }
  }

  /** doubleToNetwork() up to the byte order; `checks` tells whether its CHECKs held. */
  method EncodeFields(d: Double) returns (f: Fields, checks: bool)
    requires ValidDouble(d)
    ensures f == FieldsOf(d) && checks
  {
    checks := true;
    match d
    case NotANumber => f := Fields(0, EXP_MAX + EXP_BIAS, 1, 1);
    case Infinity(negative) => f := Fields(if negative then 1 else 0, EXP_MAX + EXP_BIAS, 0, 0);
    case Zero(_) => f := Fields(0, 0, 0, 0);
    case Finite(negative, m, e) => f, checks := EncodeFinite(negative, m, e);
  }

  /** The fraction and the biased exponent of a finite number. */
  method Split(m: nat, e: int) returns (frac: Dyadic, exp: nat, checks: bool)
    requires 0 < m < TWO_53 && -1074 <= e <= 971 && (m < TWO_52 ==> e == -1074)
    ensures frac == Dyadic(if m >= TWO_52 then m - TWO_52 else m, -52)
    ensures exp == (if m >= TWO_52 then e + 1075 else 0) && checks
  {
    var x;
    frac, x := Normalise(m, e);
    checks := true;
    if x < EXP_MIN {
      frac := Ldexp(frac, x - EXP_MIN);
      exp := 0;
    } else {
      Pow2Values();
      Below(m, 52);
      Below(m, 53);
      checks := !LessThanOne(frac) && LessThanOne(Ldexp(frac, -1)) && EXP_MIN <= x <= EXP_MAX;
      exp := x + EXP_BIAS;
      frac := Dyadic(frac.m - Pow2(-frac.e), frac.e);
    }
  }

  method EncodeFinite(negative: bool, m: nat, e: int) returns (f: Fields, checks: bool)
    requires ValidDouble(Finite(negative, m, e)) && m > 0
    ensures f == FieldsOf(Finite(negative, m, e)) && checks
  {
    hide Truncate;
    var frac, exp;
    frac, exp, checks := Split(m, e);
    TruncateFraction(frac.m);
    f := Fields(if negative then 1 else 0, exp % 2048,
                Truncate(Ldexp(frac, 20)) % TWO_20, Truncate(Ldexp(frac, 52)) % TWO_32);
  }

  // ---- Decoding -----------------------------------------------------------------------------

  /** networkToDouble() from the fields on. */
  function Decode(f: Fields): Double
    requires ValidFields(f)
  {
    if f.e == 0 then
      if f.f1 == 0 && f.f2 == 0 then Zero(false)
      else ToDouble(f.s == 1, Plus(Dyadic(f.f1, -20 + EXP_MIN), Dyadic(f.f2, -52 + EXP_MIN)))
    else if f.e == EXP_MAX + EXP_BIAS then
      if f.f1 == 0 && f.f2 == 0 then Infinity(f.s == 1) else NotANumber
    else
      ToDouble(f.s == 1, Ldexp(Plus(Plus(Dyadic(f.f1, -20), Dyadic(f.f2, -52)), Dyadic(1, 0)), f.e - EXP_BIAS))
  }

  /** The sums of the decoder, as one significand each. */
  lemma DecodedSums(f: Fields)
    requires ValidFields(f)
    ensures Plus(Dyadic(f.f1, -1042), Dyadic(f.f2, -1074)) == Dyadic(f.f1 * TWO_32 + f.f2, -1074)
    ensures Plus(Plus(Dyadic(f.f1, -20), Dyadic(f.f2, -52)), Dyadic(1, 0)) == Dyadic(f.f1 * TWO_32 + f.f2 + TWO_52, -52)
    ensures f.f1 * TWO_32 + f.f2 < TWO_52
  {
    Pow2Values();
  }

  lemma DecodeCases(f: Fields)
    requires ValidFields(f) && f.e < 2047
    ensures f.e > 0 ==> Decode(f) == Finite(f.s == 1, f.f1 * TWO_32 + f.f2 + TWO_52, f.e - 1075)
    ensures f.e == 0 && (f.f1 > 0 || f.f2 > 0) ==> Decode(f) == Finite(f.s == 1, f.f1 * TWO_32 + f.f2, -1074)
  {
    DecodedSums(f);
  }

  /** Round trip: every finite value other than zero comes back exactly, infinities keep
      their sign, NaN stays NaN, and both zeros come back as positive zero. */
  lemma RoundTrip(d: Double)
    requires ValidDouble(d)
    ensures Decode(FieldsOf(d)) == if d.Zero? then Zero(false) else d
  {
    if d.Finite? { FiniteComesBack(d); }
  }

  lemma FiniteComesBack(d: Double)
    requires ValidDouble(d) && d.Finite?
    ensures Decode(FieldsOf(d)) == d
  {
    hide Decode;
    DecodeCases(FieldsOf(d));
    var n := if d.m >= TWO_52 then d.m - TWO_52 else d.m;
    assert n / TWO_32 * TWO_32 + n % TWO_32 == n;
  }

  /** And back: every pattern of fields is reproduced, except that all NaNs become the
      same one and negative zero becomes positive zero. */
  lemma FieldsRoundTrip(f: Fields)
    requires ValidFields(f)
    ensures ValidDouble(Decode(f))
    ensures FieldsOf(Decode(f)) ==
      if f.e == 2047 && (f.f1 != 0 || f.f2 != 0) then Fields(0, 2047, 1, 1)
      else if f.e == 0 && f.f1 == 0 && f.f2 == 0 then Fields(0, 0, 0, 0)
      else f
  {
    if f.e < 2047 && (f.e > 0 || f.f1 > 0 || f.f2 > 0) { FiniteRoundTrip(f); }
  }

  lemma FiniteRoundTrip(f: Fields)
    requires ValidFields(f) && f.e < 2047 && (f.e > 0 || f.f1 > 0 || f.f2 > 0)
    ensures ValidDouble(Decode(f)) && FieldsOf(Decode(f)) == f
  {
    hide Decode;
    DecodedSums(f);
    DecodeCases(f);
    var m := f.f1 * TWO_32 + f.f2;
    assert m / TWO_32 == f.f1 && m % TWO_32 == f.f2;
  }

  // ---- On the wire ------------------------------------------------------------------------------

  type Word64 = x: nat | x < 0x1_0000_0000_0000_0000

  /** The fields as one 64-bit word. */
  function Pack(f: Fields): Word64
    requires ValidFields(f)
  {
    ((f.s * 2048 + f.e) * TWO_20 + f.f1) * TWO_32 + f.f2
  }

  function Unpack(w: Word64): (f: Fields)
    ensures ValidFields(f)
  {
    var high := w / TWO_32;
    var top := high / TWO_20;
    Fields(top / 2048, top % 2048, high % TWO_20, w % TWO_32)
  }

  lemma UnpackPack(f: Fields)
    requires ValidFields(f)
    ensures Unpack(Pack(f)) == f
  {
    var top := f.s * 2048 + f.e;
    var high := top * TWO_20 + f.f1;
    assert Pack(f) / TWO_32 == high && Pack(f) % TWO_32 == f.f2;
    assert high / TWO_20 == top && high % TWO_20 == f.f1;
  }

  /** The 32-bit word with these bytes, the first one lowest. */
  function FromBytes(b0: nat, b1: nat, b2: nat, b3: nat): nat {
    ((b3 * 256 + b2) * 256 + b1) * 256 + b0
  }

  /** The bytes of a 32-bit word in reverse order. */
  function Swap32(x: nat): nat {
    FromBytes(x / 0x100_0000, x / 0x1_0000 % 256, x / 256 % 256, x % 256)
  }

  /** The bytes of a word put together from bytes. */
  lemma Digits(b0: nat, b1: nat, b2: nat, b3: nat)
    requires b0 < 256 && b1 < 256 && b2 < 256 && b3 < 256
    ensures var y := FromBytes(b0, b1, b2, b3);
      && y < TWO_32
      && y % 256 == b0 && y / 256 % 256 == b1 && y / 0x1_0000 % 256 == b2 && y / 0x100_0000 == b3
  {
    var y2 := b3 * 256 + b2;
    var y1 := y2 * 256 + b1;
    var y := y1 * 256 + b0;
    assert y / 256 == y1 && y % 256 == b0;
    assert y / 0x1_0000 == y2 && y1 % 256 == b1;
    assert y / 0x100_0000 == b3 && y2 % 256 == b2;
  }

  lemma BytesOf(x: nat)
    requires x < TWO_32
    ensures x / 0x100_0000 < 256
    ensures x == FromBytes(x % 256, x / 256 % 256, x / 0x1_0000 % 256, x / 0x100_0000)
  {
    var x1 := x / 256;
    var x2 := x1 / 256;
    assert x == x1 * 256 + x % 256 && x1 == x2 * 256 + x1 % 256 && x2 == x2 / 256 * 256 + x2 % 256;
    assert x2 == x / 0x1_0000 && x2 / 256 == x / 0x100_0000;
  }

  lemma Swap32Twice(x: nat)
    requires x < TWO_32
    ensures Swap32(x) < TWO_32 && Swap32(Swap32(x)) == x
  {
    hide FromBytes;
    BytesOf(x);
    Digits(x / 0x100_0000, x / 0x1_0000 % 256, x / 256 % 256, x % 256);
  }

  /** byteswap64() on a little-endian machine. */
  function ByteSwap64(w: Word64): Word64 {
    Swap32Twice(w / TWO_32);
    Swap32Twice(w % TWO_32);
    Swap32(w / TWO_32) + Swap32(w % TWO_32) * TWO_32
  }

  lemma ByteSwapTwice(w: Word64)
    ensures ByteSwap64(ByteSwap64(w)) == w
  {
    var a, b := w / TWO_32, w % TWO_32;
    Swap32Twice(a);
    Swap32Twice(b);
    hide Swap32;
    var y := ByteSwap64(w);
    assert y / TWO_32 == Swap32(b) && y % TWO_32 == Swap32(a);
  }

  // ---- Bytes in memory ----------------------------------------------------------------------------

  /** The n lowest bytes of a number, the lowest one first: its bytes in the memory of a
      little-endian machine. */
  function Bytes(w: nat, n: nat): (b: seq<nat>)
    ensures |b| == n
  {
    if n == 0 then [] else [w % 256] + Bytes(w / 256, n - 1)
  }

  /** 256^n. */
  function Weight(n: nat): (r: nat)
    ensures r > 0
  {
    if n == 0 then 1 else 256 * Weight(n - 1)
  }

  lemma LowByte(a: nat, b: nat, k: nat)
    requires k > 0 && a < Weight(k)
    ensures var w := a + b * Weight(k);
      w % 256 == a % 256 && w / 256 == a / 256 + b * Weight(k - 1) && a / 256 < Weight(k - 1)
  {
    var c := b * Weight(k - 1);
    assert a + b * Weight(k) == a + 256 * c;
  }

  lemma {:induction false} BytesConcat(a: nat, b: nat, k: nat, n: nat)
    requires a < Weight(k)
    ensures Bytes(a + b * Weight(k), k + n) == Bytes(a, k) + Bytes(b, n)
  {
    if k > 0 {
      LowByte(a, b, k);
      BytesConcat(a / 256, b, k - 1, n);
    }
  }

  lemma NextByte(b: nat, rest: nat, n: nat)
    requires b < 256
    ensures Bytes(rest * 256 + b, n + 1) == [b] + Bytes(rest, n)
  {
    assert (rest * 256 + b) % 256 == b && (rest * 256 + b) / 256 == rest;
  }

  lemma FourBytes(b0: nat, b1: nat, b2: nat, b3: nat)
    requires b0 < 256 && b1 < 256 && b2 < 256 && b3 < 256
    ensures Bytes(FromBytes(b0, b1, b2, b3), 4) == [b0, b1, b2, b3]
  {
    assert Bytes(0, 0) == [];
    hide Bytes;
    NextByte(b3, 0, 0);
    NextByte(b2, b3, 1);
    NextByte(b1, b3 * 256 + b2, 2);
    NextByte(b0, (b3 * 256 + b2) * 256 + b1, 3);
  }

  lemma BytesOfHalves(a: nat, b: nat)
    requires a < TWO_32
    ensures Bytes(a + b * TWO_32, 8) == Bytes(a, 4) + Bytes(b, 4)
  {
    assert Weight(4) == TWO_32;
    BytesConcat(a, b, 4, 4);
  }

  function Backwards(b: seq<nat>): seq<nat>
    requires |b| == 4
  {
    [b[3], b[2], b[1], b[0]]
  }

  lemma Swap32Reverses(x: nat)
    requires x < TWO_32
    ensures Bytes(Swap32(x), 4) == Backwards(Bytes(x, 4))
  {
    hide FromBytes, Bytes;
    BytesOf(x);
    FourBytes(x % 256, x / 256 % 256, x / 0x1_0000 % 256, x / 0x100_0000);
    FourBytes(x / 0x100_0000, x / 0x1_0000 % 256, x / 256 % 256, x % 256);
  }

  lemma WordHalves(w: Word64)
    ensures Bytes(w, 8) == Bytes(w % TWO_32, 4) + Bytes(w / TWO_32, 4)
  {
    hide Bytes;
    assert w == w % TWO_32 + w / TWO_32 * TWO_32;
    BytesOfHalves(w % TWO_32, w / TWO_32);
  }

  lemma SwappedBytes(a: nat, b: nat)
    requires a < TWO_32 && b < TWO_32
    ensures Bytes(Swap32(a) + Swap32(b) * TWO_32, 8) == Backwards(Bytes(a, 4)) + Backwards(Bytes(b, 4))
  {
    hide Swap32, Bytes, Backwards;
    Swap32Twice(a);
    Swap32Reverses(a);
    Swap32Reverses(b);
    BytesOfHalves(Swap32(a), Swap32(b));
  }

  lemma SwappedHalves(w: Word64)
    ensures Bytes(w, 8) == Bytes(w % TWO_32, 4) + Bytes(w / TWO_32, 4)
    ensures Bytes(ByteSwap64(w), 8) == Backwards(Bytes(w / TWO_32, 4)) + Backwards(Bytes(w % TWO_32, 4))
  {
    hide Swap32, Bytes, Backwards;
    WordHalves(w);
    SwappedBytes(w / TWO_32, w % TWO_32);
  }

  /** The conversion reverses the bytes of the word. */
  lemma ByteSwapReverses(w: Word64, i: nat)
    requires i < 8
    ensures Bytes(ByteSwap64(w), 8)[i] == Bytes(w, 8)[7 - i]
  {
    SwappedHalves(w);
    hide Bytes, ByteSwap64;
  }

  /** The bytes on the wire are those of the interchange format, sign and exponent first. */
  lemma NetworkBytes(f: Fields)
    requires ValidFields(f)
    ensures Bytes(ByteSwap64(Pack(f)), 8) ==
      [f.s * 128 + f.e / 16, f.e % 16 * 16 + f.f1 / 0x1_0000, f.f1 / 256 % 256, f.f1 % 256,
       f.f2 / 0x100_0000, f.f2 / 0x1_0000 % 256, f.f2 / 256 % 256, f.f2 % 256]
  {
    hide Bytes, ByteSwap64, FromBytes;
    SwappedHalves(Pack(f));
    PackedHalves(f);
    BytesOf(f.f2);
    FourBytes(f.f2 % 256, f.f2 / 256 % 256, f.f2 / 0x1_0000 % 256, f.f2 / 0x100_0000);
    HighWord(f);
    FourBytes(f.f1 % 256, f.f1 / 256 % 256, f.e % 16 * 16 + f.f1 / 0x1_0000, f.s * 128 + f.e / 16);
  }

  lemma PackedHalves(f: Fields)
    requires ValidFields(f)
    ensures Pack(f) % TWO_32 == f.f2 && Pack(f) / TWO_32 == (f.s * 2048 + f.e) * TWO_20 + f.f1
  {
  }

  lemma HighWordBytes(s: nat, q: nat, r: nat, h: nat, b1: nat, b0: nat)
    ensures (s * 2048 + (q * 16 + r)) * TWO_20 + FromBytes(b0, b1, h, 0) == FromBytes(b0, b1, r * 16 + h, s * 128 + q)
  {
  }

  lemma HighWord(f: Fields)
    requires ValidFields(f)
    ensures (f.s * 2048 + f.e) * TWO_20 + f.f1 ==
      FromBytes(f.f1 % 256, f.f1 / 256 % 256, f.e % 16 * 16 + f.f1 / 0x1_0000, f.s * 128 + f.e / 16)
  {
    hide FromBytes;
    BytesOf(f.f1);
    assert f.f1 / 0x100_0000 == 0 && f.f1 / 0x1_0000 % 256 == f.f1 / 0x1_0000;
    assert f.e == f.e / 16 * 16 + f.e % 16;
    HighWordBytes(f.s, f.e / 16, f.e % 16, f.f1 / 0x1_0000, f.f1 / 256 % 256, f.f1 % 256);
  }

  /** The number 1 is 3F F0 00 00 00 00 00 00 on the wire. */
  lemma OneOnTheWire()
    ensures FieldsOf(Finite(false, TWO_52, -52)) == Fields(0, 1023, 0, 0)
    ensures Bytes(ByteSwap64(Pack(Fields(0, 1023, 0, 0))), 8) == [0x3F, 0xF0, 0, 0, 0, 0, 0, 0]
  {
    NetworkBytes(Fields(0, 1023, 0, 0));
  }

  method DoubleToNetwork(d: Double) returns (value: Word64)
    requires ValidDouble(d)
    ensures value == ByteSwap64(Pack(FieldsOf(d)))
  {
    var f, checks := EncodeFields(d);
    value := ByteSwap64(Pack(f));
  }

  method NetworkToDouble(value: Word64) returns (d: Double)
    ensures d == Decode(Unpack(ByteSwap64(value))) && ValidDouble(d)
  {
    var f := Unpack(ByteSwap64(value));
    d := Decode(f);
    FieldsRoundTrip(f);
  }

  /** Decoding what was encoded, including the way over the wire. */
  lemma WireRoundTrip(d: Double)
    requires ValidDouble(d)
    ensures Decode(Unpack(ByteSwap64(ByteSwap64(Pack(FieldsOf(d)))))) == if d.Zero? then Zero(false) else d
  {
    ByteSwapTwice(Pack(FieldsOf(d)));
    UnpackPack(FieldsOf(d));
    RoundTrip(d);
  }
}

/**
 DPT 9, the two-byte float (src/dpt/dpt9.ts; section 3.10 of KNX 03_07_02): a four-bit exponent and a
 twelve-bit two's complement mantissa, in hundredths. Values are exact reals.
 */
module Dpt9 {
  import opened Bytes
  import opened Wrappers
  import opened Apci

  const VALUE_MIN := -671088.64
  const VALUE_MAX := 670760.96

  datatype Dpt9Error = WrongPayload | OutOfRange

  // ---------- the codec ----------

  /** `Math.round`: halves go up. */
  function Round(x: real): int {
    (x + 0.5).Floor
  }

  predicate InRange(value: real) {
    VALUE_MIN <= value <= VALUE_MAX
  }

  /** The loop's exit: at rest in the twelve-bit range. */
  predicate Fits(x: real) {
    -2048.0 <= x <= 2047.0
  }

  function Pow2(e: nat): (p: nat)
    ensures p >= 1
  {
    if e == 0 then 1 else 2 * Pow2(e - 1)
  }

  /** The number the bytes stand for, in hundredths. */
  function Hundredths(hi: byte, lo: byte): int {
    Significand(hi, lo) * Pow2(ExponentBits(hi))
  }

  function ExponentBits(hi: byte): (e: nat)
    ensures e < 16
  {
    hi / 8 % 16
  }

  /** Sign bit and eleven bits below the exponent, as two's complement. */
  function Significand(hi: byte, lo: byte): (s: int)
    ensures -2048 <= s < 2048
  {
    hi % 8 * 0x100 + lo - (if hi >= 0x80 then 2048 else 0)
  }

  function Decoded(hi: byte, lo: byte): real {
    Hundredths(hi, lo) as real / 100.0
  }

  method Decode2ByteFloat(apdu: ApduValue) returns (r: Result<real, Dpt9Error>)
    ensures r ==
      if !apdu.Buffer? || |apdu.content| != 2 then Err(WrongPayload)
      else if !InRange(Decoded(apdu.content[0], apdu.content[1])) then Err(OutOfRange)
      else Ok(Decoded(apdu.content[0], apdu.content[1]))
  {
    if !apdu.Buffer? || |apdu.content| != 2 {
      return Err(WrongPayload);
    }
    var hi: int, lo: int := apdu.content[0], apdu.content[1];
    var data := hi * 0x100 + lo;
    var exponent := data / 0x800 % 16;
    var significand := data % 0x800;
    var sign := data / 0x8000;
    if sign == 1 {
      significand := significand - 2048;
    }
    var value := (significand * Pow2(exponent)) as real / 100.0;
    Unpack(hi, lo);
    if value < VALUE_MIN || value > VALUE_MAX {
      return Err(OutOfRange);
    }
    return Ok(value);
  }

  /** The sixteen bits taken apart as the decoder does, and byte by byte. */
  lemma Unpack(hi: byte, lo: byte)
    ensures var data := hi as int * 0x100 + lo as int;
      && data / 0x800 % 16 == ExponentBits(hi)
      && data % 0x800 - (if data / 0x8000 == 1 then 2048 else 0) == Significand(hi, lo)
  {
    var q, r := hi / 8, hi % 8;
    var data := hi as int * 0x100 + lo as int;
    assert data == 0x800 * q + (r * 0x100 + lo);
    By2048(q, r * 0x100 + lo);
    assert data / 0x8000 == 1 <==> hi >= 0x80;
  }

  lemma By2048(q: int, r: int)
    requires 0 <= r < 0x800
    ensures (0x800 * q + r) / 0x800 == q && (0x800 * q + r) % 0x800 == r
  {
  }

  lemma By8(q: int, r: int)
    requires 0 <= r < 8
    ensures (8 * q + r) / 8 == q && (8 * q + r) % 8 == r
  {
  }

  /** x halved e times. */
  function Halved(x: real, e: nat): real {
    if e == 0 then x else Halved(x, e - 1) / 2.0
  }

  /** How often x has to be halved. */
  function Exponent(x: real): nat
    decreases Size(x)
  {
    if Fits(x) then 0 else 1 + Exponent(x / 2.0)
  }

  function Size(x: real): nat {
    if x < 0.0 then (-x).Floor else x.Floor
  }

  function Mantissa(x: real): int {
    Round(Halved(x, Exponent(x)))
  }

  method Encode2ByteFloat(value: real) returns (r: Result<ApduValue, Dpt9Error>)
    ensures r == if InRange(value) then Ok(Buffer([Encoded(value).0, Encoded(value).1])) else Err(OutOfRange)
  {
    if value < VALUE_MIN || value > VALUE_MAX {
      return Err(OutOfRange);
    }
    var knx := value * 100.0;
    if Round(knx) == 0 {
      return Ok(Buffer([0, 0]));
    }
    var exponent := 0;
    while knx < -2048.0 || knx > 2047.0
      invariant 0 <= exponent && knx == Halved(value * 100.0, exponent)
      invariant exponent + Exponent(knx) == Exponent(value * 100.0)
      invariant knx < 0.0 <==> value < 0.0
      decreases Size(knx)
    {
      exponent := exponent + 1;
      knx := knx / 2.0;
    }
    ExponentBound(value);
    var mantissa := Round(knx) % 0x800;
    var msb := exponent * 8 + mantissa / 0x100;
    if knx < 0.0 {
      msb := msb + 0x80;
    }
    return Ok(Buffer([msb % 0x100, mantissa % 0x100]));
  }

  /** The two bytes the encoder writes; a value that rounds to zero gets no sign and no exponent. */
  function Encoded(value: real): (byte, byte) {
    var x := value * 100.0;
    if Round(x) == 0 then (0, 0)
    else
      var m := Mantissa(x) % 0x800;
      ((Exponent(x) * 8 + m / 0x100 + (if value < 0.0 then 0x80 else 0)) % 0x100, m % 0x100)
  }

  // ---------- scaling ----------

  /** The nearest integer, and of two equally near ones the larger. */
  lemma RoundsHalvesUp(x: real)
    ensures Round(x) as real - 0.5 <= x < Round(x) as real + 0.5
  {
  }

  lemma {:induction false} HalvedShift(x: real, e: nat)
    ensures Halved(x / 2.0, e) == Halved(x, e + 1)
  {
    if e > 0 {
      HalvedShift(x, e - 1);
    }
  }

  lemma {:induction false} HalvedMonotone(x: real, y: real, e: nat)
    requires x <= y
    ensures Halved(x, e) <= Halved(y, e)
  {
    if e > 0 {
      HalvedMonotone(x, y, e - 1);
    }
  }

  lemma {:induction false} HalvedSign(x: real, e: nat)
    ensures Halved(x, e) < 0.0 <==> x < 0.0
  {
    if e > 0 {
      HalvedSign(x, e - 1);
    }
  }

  lemma {:induction false} HalvedTimesPow2(x: real, e: nat)
    ensures Halved(x, e) * Pow2(e) as real == x
  {
    if e > 0 {
      HalvedTimesPow2(x, e - 1);
      var h, p := Halved(x, e - 1), Pow2(e - 1) as real;
      assert Pow2(e) as real == 2.0 * p;
      assert (h / 2.0) * (2.0 * p) == h * p;
    }
  }

  lemma {:induction false} Pow2Monotone(d: nat, e: nat)
    requires d <= e
    ensures Pow2(d) <= Pow2(e)
  {
    if d < e {
      Pow2Monotone(d, e - 1);
    }
  }

  lemma MulMonotone(a: int, b: int, p: nat)
    requires a <= b
    ensures a * p <= b * p
  {
  }

  lemma Pow2At15()
    ensures Pow2(15) == 32768
  {
    assert Pow2(5) == 32 && Pow2(10) == 1024;
  }

  // ---------- the exponent ----------

  /** The loop ends at the least number of halvings that fits. */
  lemma {:induction false} ExponentLeast(x: real, e: nat)
    ensures Fits(Halved(x, Exponent(x)))
    ensures Fits(Halved(x, e)) ==> Exponent(x) <= e
    decreases Size(x)
  {
    if !Fits(x) {
      HalvedShift(x, Exponent(x / 2.0));
      ExponentLeast(x / 2.0, if e == 0 then 0 else e - 1);
      if e > 0 {
        HalvedShift(x, e - 1);
      }
    }
  }

  /** Just below the final exponent the value does not fit yet. */
  lemma NotFittingBefore(x: real)
    requires Exponent(x) > 0
    ensures x < 0.0 ==> Halved(x, Exponent(x)) < -1024.0 && Mantissa(x) <= -1024
    ensures x >= 0.0 ==> Halved(x, Exponent(x)) > 1023.5 && Mantissa(x) >= 1024
  {
    var e := Exponent(x);
    ExponentLeast(x, e - 1);
    HalvedSign(x, e - 1);
  }

  lemma MantissaFits(x: real)
    ensures -2048 <= Mantissa(x) <= 2047
  {
    ExponentLeast(x, 0);
  }

  lemma FitsAt15(x: real)
    requires VALUE_MIN * 100.0 <= x <= VALUE_MAX * 100.0
    ensures Fits(Halved(x, 15))
  {
    HalvedTimesPow2(x, 15);
    Pow2At15();
  }

  /** Four bits hold the exponent of every value in range. */
  lemma ExponentBound(value: real)
    requires InRange(value)
    ensures Exponent(value * 100.0) <= 15
  {
    FitsAt15(value * 100.0);
    ExponentLeast(value * 100.0, 15);
  }

  // ---------- packing ----------

  /** The bytes unpack to the loop's exponent and the rounded mantissa, sign included. */
  lemma PackUnpack(value: real)
    requires InRange(value)
    ensures var x, p := value * 100.0, Encoded(value);
      ExponentBits(p.0) == Exponent(x) && Significand(p.0, p.1) == Mantissa(x)
  {
    hide Mantissa, Exponent, ExponentBits, Significand;
    var x := value * 100.0;
    ExponentBound(value);
    MantissaFits(x);
    if Round(x) != 0 {
      SignOfMantissa(x);
      var m, sign := Mantissa(x) % 0x800, if value < 0.0 then 1 else 0;
      SignedMantissa(Mantissa(x));
      PackFields(Exponent(x), m, sign);
      assert Encoded(value) == (Exponent(x) * 8 + m / 0x100 + sign * 0x80, m % 0x100);
    } else {
      ZeroParts(x);
    }
  }

  lemma ZeroParts(x: real)
    requires Round(x) == 0
    ensures Exponent(x) == 0 == ExponentBits(0) && Mantissa(x) == 0 == Significand(0, 0)
  {
  }

  lemma SignedMantissa(m: int)
    requires -2048 <= m < 2048
    ensures m == m % 0x800 - (if m < 0 then 2048 else 0)
  {
  }

  /** Sign, exponent and eleven mantissa bits in two bytes. */
  lemma PackFields(e: int, m: int, sign: int)
    requires 0 <= e < 16 && 0 <= m < 0x800 && 0 <= sign < 2
    ensures var hi, lo := e * 8 + m / 0x100 + sign * 0x80, m % 0x100;
      0 <= hi < 0x100 && ExponentBits(hi) == e && Significand(hi, lo) == m - sign * 2048
  {
    var hi := e * 8 + m / 0x100 + sign * 0x80;
    By8(sign * 16 + e, m / 0x100);
    assert (sign * 16 + e) % 16 == e;
    assert m == m / 0x100 * 0x100 + m % 0x100;
  }

  lemma SignOfMantissa(x: real)
    requires Round(x) != 0
    ensures Mantissa(x) < 0 <==> x < 0.0
  {
    if Exponent(x) > 0 {
      NotFittingBefore(x);
    }
  }

  /** Hundredths after encoding and decoding. */
  function Quantized(x: real): int {
    Mantissa(x) * Pow2(Exponent(x))
  }

  /** No pair of bytes decodes out of range, so the decoder never rejects one. */
  lemma EveryPairInRange(hi: byte, lo: byte)
    ensures InRange(Decoded(hi, lo))
  {
    hide Significand, ExponentBits;
    var s, e := Significand(hi, lo), ExponentBits(hi);
    Pow2Monotone(e, 15);
    Pow2At15();
    ProductBound(s, Pow2(e));
  }

  lemma ProductBound(s: int, p: nat)
    requires -2048 <= s <= 2047 && p <= 32768
    ensures -67108864 <= s * p <= 67076096
  {
    if s >= 0 {
      MulMonotone(s, 2047, p);
    } else {
      MulMonotone(-2048, s, p);
    }
  }

  // ---------- error bound ----------

  lemma ScaleError(h: real, m: int, p: nat)
    requires -0.5 <= m as real - h <= 0.5
    ensures -(p as real) / 2.0 <= (m * p) as real - h * p as real <= p as real / 2.0
  {
    var d, q := m as real - h, p as real;
    assert (m * p) as real == m as real * q;
    Distribute(m as real, h, q);
    ScaleBound(d, q);
  }

  lemma Distribute(a: real, b: real, c: real)
    ensures (a - b) * c == a * c - b * c
  {
  }

  lemma ScaleBound(d: real, q: real)
    requires -0.5 <= d <= 0.5 && q >= 0.0
    ensures -q / 2.0 <= d * q <= q / 2.0
  {
    assert (0.5 - d) * q >= 0.0 && (d + 0.5) * q >= 0.0;
  }

  /**
   Every value in range is encoded: with an exponent e of at most fifteen, the least one for which its
   hundredths halved e times fit, and as mantissa that number rounded, halves up.
   */
  lemma EncodingShape(value: real, smaller: nat)
    requires InRange(value)
    ensures var p, x := Encoded(value), value * 100.0;
      var e, m := ExponentBits(p.0), Significand(p.0, p.1);
      && e == Exponent(x) <= 15 && -2048.0 <= Halved(x, e) <= 2047.0
      && (smaller < e ==> !(-2048.0 <= Halved(x, smaller) <= 2047.0))
      && m as real - 0.5 <= Halved(x, e) < m as real + 0.5
  {
    var x := value * 100.0;
    PackUnpack(value);
    ExponentBound(value);
    ExponentLeast(x, smaller);
    RoundsHalvesUp(Halved(x, Exponent(x)));
  }

  /** Decoding what was encoded with exponent e is off by at most 2^e / 200. */
  lemma EncodingError(value: real)
    requires InRange(value)
    ensures var p := Encoded(value);
      var bound := Pow2(ExponentBits(p.0)) as real / 200.0;
      -bound <= Decoded(p.0, p.1) - value <= bound
  {
    PackUnpack(value);
    RoundedNear(value * 100.0);
    hide Halved, Exponent, Mantissa, Round, Encoded, ExponentBits, Significand, Pow2, InRange;
    ScaledDown(Quantized(value * 100.0), value, Pow2(Exponent(value * 100.0)));
  }

  lemma ScaledDown(q: int, value: real, p: nat)
    requires -(p as real) / 2.0 <= q as real - value * 100.0 <= p as real / 2.0
    ensures -(p as real / 200.0) <= q as real / 100.0 - value <= p as real / 200.0
  {
  }

  lemma RoundedNear(x: real)
    ensures -(Pow2(Exponent(x)) as real) / 2.0 <= Quantized(x) as real - x <= Pow2(Exponent(x)) as real / 2.0
  {
    var h, e := Halved(x, Exponent(x)), Exponent(x);
    HalvedTimesPow2(x, e);
    ScaleError(h, Mantissa(x), Pow2(e));
  }

  // ---------- monotonicity ----------

  lemma SameExponentMonotone(x: real, y: real)
    requires x <= y && Exponent(x) == Exponent(y)
    ensures Quantized(x) <= Quantized(y)
  {
    var e := Exponent(x);
    HalvedMonotone(x, y, e);
    assert Halved(x, e) + 0.5 <= Halved(y, e) + 0.5;
    MulMonotone(Mantissa(x), Mantissa(y), Pow2(e));
  }

  /** A larger exponent on the right: y is positive and beyond everything the smaller one reaches. */
  lemma GrowingExponentMonotone(x: real, y: real)
    requires x <= y && Exponent(x) < Exponent(y)
    ensures Quantized(x) <= Quantized(y)
  {
    var d, e := Exponent(x), Exponent(y);
    NotFittingBefore(y);
    MantissaFits(x);
    if y < 0.0 {
      ExponentLeast(x, d);
      HalvedMonotone(x, y, d);
      HalvedSign(y, d);
      ExponentLeast(y, d);
    } else {
      Pow2Monotone(d + 1, e);
      MulMonotone(Mantissa(x), 2048, Pow2(d));
      MulMonotone(1024, Mantissa(y), Pow2(e));
    }
  }

  lemma ShrinkingExponentMonotone(x: real, y: real)
    requires x <= y && Exponent(x) > Exponent(y)
    ensures Quantized(x) <= Quantized(y)
  {
    var d, e := Exponent(x), Exponent(y);
    NotFittingBefore(x);
    MantissaFits(y);
    if x >= 0.0 {
      ExponentLeast(y, e);
      HalvedMonotone(x, y, e);
      HalvedSign(x, e);
      ExponentLeast(x, e);
    } else {
      Pow2Monotone(e + 1, d);
      MulMonotone(-2048, Mantissa(y), Pow2(e));
      MulMonotone(Mantissa(x), -1024, Pow2(d));
    }
  }

  /** Encoding and decoding keeps the order of all values in range, across exponents and across zero. */
  lemma RoundTripMonotone(v: real, w: real)
    requires InRange(v) && InRange(w) && v <= w
    ensures Decoded(Encoded(v).0, Encoded(v).1) <= Decoded(Encoded(w).0, Encoded(w).1)
  {
    var x, y := v * 100.0, w * 100.0;
    PackUnpack(v);
    PackUnpack(w);
    if Exponent(x) == Exponent(y) {
      SameExponentMonotone(x, y);
    } else if Exponent(x) < Exponent(y) {
      GrowingExponentMonotone(x, y);
    } else {
      ShrinkingExponentMonotone(x, y);
    }
  }

  // ---------- encoding a decoded value ----------

  lemma {:induction false} HalvedMultiple(s: int, e: nat, d: nat)
    requires d <= e
    ensures Halved((s * Pow2(e)) as real, d) == (s * Pow2(e - d)) as real
  {
    if d > 0 {
      HalvedMultiple(s, e, d - 1);
      assert Pow2(e - d + 1) == 2 * Pow2(e - d);
      assert s * (2 * Pow2(e - d)) == 2 * (s * Pow2(e - d));
    }
  }

  lemma Exact(s: int, e: nat)
    requires -2048 <= s <= 2047
    ensures var x := (s * Pow2(e)) as real;
      Exponent(x) <= e && Mantissa(x) == s * Pow2(e - Exponent(x)) && Quantized(x) == s * Pow2(e)
  {
    var x := (s * Pow2(e)) as real;
    HalvedMultiple(s, e, e);
    ExponentLeast(x, e);
    var d := Exponent(x);
    HalvedMultiple(s, e, d);
    HalvedTimesPow2(x, d);
    assert Round((s * Pow2(e - d)) as real) == s * Pow2(e - d);
    assert Halved(x, d) == Mantissa(x) as real;
  }

  /** The encoder's own choice among the pairs of one value: no smaller exponent would do. */
  predicate Canonical(hi: byte, lo: byte) {
    ExponentBits(hi) == 0 || !Fits((2 * Significand(hi, lo)) as real)
  }

  /** Re-encoding a decoded value decodes to the same value, and gives the same bytes iff they are canonical. */
  lemma DecodeEncode(hi: byte, lo: byte)
    ensures var v := Decoded(hi, lo);
      && InRange(v) && Decoded(Encoded(v).0, Encoded(v).1) == v
      && (Encoded(v) == (hi, lo) <==> Canonical(hi, lo))
  {
    hide Significand, ExponentBits, Encoded, Exponent, Mantissa;
    var s, e, v := Significand(hi, lo), ExponentBits(hi), Decoded(hi, lo);
    EveryPairInRange(hi, lo);
    PackUnpack(v);
    assert v * 100.0 == Hundredths(hi, lo) as real;
    Exact(s, e);
    LeastForInteger(s, e);
    UnpackInjective(hi, lo, Encoded(v).0, Encoded(v).1);
  }

  /** An integer multiple keeps its exponent if and only if one halving less does not fit. */
  lemma LeastForInteger(s: int, e: nat)
    requires -2048 <= s <= 2047
    ensures Exponent((s * Pow2(e)) as real) == e <==> e == 0 || !Fits((2 * s) as real)
  {
    var x := (s * Pow2(e)) as real;
    Exact(s, e);
    if e > 0 {
      HalvedMultiple(s, e, e - 1);
      assert Pow2(1) == 2;
      ExponentLeast(x, e - 1);
      if Exponent(x) == e {
        assert !Fits(Halved(x, e - 1));
      } else {
        FitsFromThere(x, e - 1);
      }
    }
  }

  /** Once a value fits, it fits after every further halving. */
  lemma {:induction false} FitsFromThere(x: real, e: nat)
    requires Exponent(x) <= e
    ensures Fits(Halved(x, e))
    decreases e
  {
    ExponentLeast(x, e);
    if Exponent(x) < e {
      FitsFromThere(x, e - 1);
    }
  }

  lemma UnpackInjective(a: byte, b: byte, c: byte, d: byte)
    ensures a == c && b == d <==> ExponentBits(a) == ExponentBits(c) && Significand(a, b) == Significand(c, d)
  {
  }

  // ---------- nearest value ----------

  function Abs(x: real): real {
    if x < 0.0 then -x else x
  }

  /**
   Values just above the top of an exponent's range: the next exponent's grid rounds them up, though the
   last value of the finer grid below is nearer.
   */
  predicate InGap(value: real) {
    var x := value * 100.0;
    Exponent(x) > 0 && 1023.5 < Halved(x, Exponent(x)) < 1023.75
  }

  /** On the grid of x's own exponent, the rounded mantissa is at least as near as any pair's value. */
  lemma NearerInUnits(x: real, s: int, d: nat)
    requires -2048 <= s <= 2047
    requires !(Exponent(x) > 0 && 1023.5 < Halved(x, Exponent(x)) < 1023.75)
    ensures var e := Exponent(x);
      Abs(Mantissa(x) as real - Halved(x, e)) <= Abs(Off(x, (s * Pow2(d)) as real))
  {
    var e := Exponent(x);
    var h, r := Halved(x, e), Halved((s * Pow2(d)) as real, e);
    if d >= e {
      HalvedMultiple(s, d, e);
      RoundNearest(h, s * Pow2(d - e));
    } else {
      FinerGrid(s, d, e);
      NotFittingBefore(x);
      HalvedSign(x, e);
      RoundNearest(h, if x < 0.0 then -1024 else 1024);
    }
  }

  lemma RoundNearest(h: real, k: int)
    ensures Abs(Round(h) as real - h) <= Abs(k as real - h)
  {
    var m := Round(h);
    assert m as real - 0.5 <= h < m as real + 0.5;
    if k < m {
      assert k as real <= (m - 1) as real;
    } else if k > m {
      assert k as real >= (m + 1) as real;
    }
  }

  /** Values with a smaller exponent, in units of a larger one. */
  lemma FinerGrid(s: int, d: nat, e: nat)
    requires d < e && -2048 <= s <= 2047
    ensures -1024.0 <= Halved((s * Pow2(d)) as real, e) <= 1023.5
  {
    Pow2Monotone(d, e - 1);
    var p: int, q: int := Pow2(d), Pow2(e - 1);
    if s >= 0 {
      MulMonotone(s, 2047, p);
    } else {
      MulMonotone(-2048, s, p);
    }
    HalvedMonotone((-2048 * q) as real, (s * p) as real, e);
    HalvedMonotone((s * p) as real, (2047 * q) as real, e);
    HalvedMultiple(-2048, e - 1, e - 1);
    HalvedMultiple(2047, e - 1, e - 1);
  }

  /** Distances in units of 2^e are distances. */
  lemma InHundredths(x: real, y: real, e: nat)
    ensures y - x == (Halved(y, e) - Halved(x, e)) * Pow2(e) as real
  {
    HalvedTimesPow2(x, e);
    HalvedTimesPow2(y, e);
    Distribute(Halved(y, e), Halved(x, e), Pow2(e) as real);
  }

  lemma ScaleOrder(a: real, b: real, q: real)
    requires q > 0.0
    ensures Abs(a) <= Abs(b) <==> Abs(a * q) <= Abs(b * q)
  {
    AbsTimes(a, q);
    AbsTimes(b, q);
    var u, v := Abs(a), Abs(b);
    assert (v - u) * q == v * q - u * q;
    assert (v - u) * q >= 0.0 <==> v - u >= 0.0;
  }

  lemma AbsTimes(a: real, q: real)
    requires q > 0.0
    ensures Abs(a * q) == Abs(a) * q
  {
    assert a < 0.0 <==> a * q < 0.0;
  }

  /** The distance of a pair's value, and of the encoder's choice, on the grid of x's exponent. */
  function Off(x: real, y: real): real {
    Halved(y, Exponent(x)) - Halved(x, Exponent(x))
  }

  lemma CompareInUnits(value: real, hi: byte, lo: byte)
    requires InRange(value)
    ensures var p, x := Encoded(value), value * 100.0;
      Abs(Decoded(p.0, p.1) - value) <= Abs(Decoded(hi, lo) - value)
      <==> (Abs(Mantissa(x) as real - Halved(x, Exponent(x))) <= Abs(Off(x, Hundredths(hi, lo) as real)))
  {
    var p, x, y := Encoded(value), value * 100.0, Hundredths(hi, lo) as real;
    var e, q := Exponent(x), Quantized(x) as real;
    PackUnpack(value);
    HalvedMultiple(Mantissa(x), e, e);
    assert Off(x, q) == Mantissa(x) as real - Halved(x, e);
    CompareOff(x, q, y);
    assert Decoded(p.0, p.1) == q / 100.0;
    CompareScaled(value, q, y);
  }

  lemma CompareOff(x: real, q: real, y: real)
    ensures Abs(Off(x, q)) <= Abs(Off(x, y)) <==> Abs(q - x) <= Abs(y - x)
  {
    InHundredths(x, q, Exponent(x));
    InHundredths(x, y, Exponent(x));
    ScaleOrder(Off(x, q), Off(x, y), Pow2(Exponent(x)) as real);
  }

  lemma CompareScaled(value: real, q: real, y: real)
    ensures Abs(q - value * 100.0) <= Abs(y - value * 100.0) <==> Abs(q / 100.0 - value) <= Abs(y / 100.0 - value)
  {
  }

  /** The top pair of the exponent below a value in the gap is strictly nearer. */
  lemma GapWitness(value: real) returns (hi: byte, lo: byte)
    requires InRange(value) && InGap(value)
    ensures Abs(Decoded(hi, lo) - value) < Abs(Decoded(Encoded(value).0, Encoded(value).1) - value)
  {
    var x := value * 100.0;
    var e := Exponent(x);
    ExponentBound(value);
    hi, lo := (e - 1) * 8 + 7, 0xff;
    assert ExponentBits(hi) == e - 1 && Significand(hi, lo) == 2047;
    TopBelow(x);
    NotFittingBefore(x);
    HalvedSign(x, e);
    CompareInUnits(value, hi, lo);
  }

  lemma TopBelow(x: real)
    requires Exponent(x) > 0
    ensures Off(x, (2047 * Pow2(Exponent(x) - 1)) as real) == 1023.5 - Halved(x, Exponent(x))
  {
    HalvedMultiple(2047, Exponent(x) - 1, Exponent(x) - 1);
  }

  /**
   No pair of bytes stands for a value nearer to the given one than the encoder's choice, if and only if
   the value is not in a gap.
   */
  lemma EncodesNearest(value: real)
    requires InRange(value)
    ensures !InGap(value) <==> forall hi: byte, lo: byte ::
      Abs(Decoded(Encoded(value).0, Encoded(value).1) - value) <= Abs(Decoded(hi, lo) - value)
  {
    if InGap(value) {
      var hi, lo := GapWitness(value);
    } else {
      forall hi: byte, lo: byte
        ensures Abs(Decoded(Encoded(value).0, Encoded(value).1) - value) <= Abs(Decoded(hi, lo) - value)
      {
        CompareInUnits(value, hi, lo);
        NearerInUnits(value * 100.0, Significand(hi, lo), ExponentBits(hi));
      }
    }
  }

  /** Such values exist: 20.473 is encoded as 20.48, though the pair of 20.47 is nearer. */
  lemma GapExample()
    ensures var value := 20.473;
      && InRange(value) && InGap(value)
      && Decoded(Encoded(value).0, Encoded(value).1) == 20.48 && Decoded(0x07, 0xff) == 20.47
  {
    var x := 20.473 * 100.0;
    assert !Fits(x) && Fits(x / 2.0) && Exponent(x / 2.0) == 0;
    assert Exponent(x) == 1 && Halved(x, 1) == Halved(x, 0) / 2.0 == 1023.65;
    assert Mantissa(x) == 1024;
    PackUnpack(20.473);
    assert Pow2(1) == 2 && Pow2(0) == 1;
  }
}

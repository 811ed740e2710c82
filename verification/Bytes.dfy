/**
 Bytes, the big-endian integers built from them, and bitwise operations.

 A byte is an integer below 256. The source's masks and shifts by constants are written as
 remainders and quotients; `|` and `^`, where the operands can share bits, are the bit-by-bit
 functions at the end of this module.
 */
module Bytes {

  type byte = x: int | 0 <= x < 256
  type bytes = seq<byte>

  const U16_LIMIT := 0x1_0000
  const U32_LIMIT := 0x1_0000_0000
  const U48_LIMIT := 0x1_0000_0000_0000

  function Zeros(n: nat): (z: bytes)
    ensures |z| == n
  {
    seq(n, _ => 0)
  }

  // ---------- big-endian integers ----------

  function U16(v: int): (b: bytes)
    requires 0 <= v < U16_LIMIT
    ensures |b| == 2
  {
    [v / 0x100, v % 0x100]
  }

  function U32(v: int): (b: bytes)
    requires 0 <= v < U32_LIMIT
    ensures |b| == 4
  {
    U16(v / U16_LIMIT) + U16(v % U16_LIMIT)
  }

  /** High 16 bits, then low 32 bits. */
  function U48(v: int): (b: bytes)
    requires 0 <= v < U48_LIMIT
    ensures |b| == 6
  {
    U16(v / U32_LIMIT) + U32(v % U32_LIMIT)
  }

  function ReadU16(b: bytes, off: nat): (v: nat)
    requires off + 2 <= |b|
    ensures v < U16_LIMIT
  {
    var hi: int, lo: int := b[off], b[off + 1];
    hi * 0x100 + lo
  }

  function ReadU32(b: bytes, off: nat): (v: nat)
    requires off + 4 <= |b|
    ensures v < U32_LIMIT
  {
    ReadU16(b, off) * U16_LIMIT + ReadU16(b, off + 2)
  }

  function ReadU48(b: bytes, off: nat): (v: nat)
    requires off + 6 <= |b|
    ensures v < U48_LIMIT
  {
    ReadU16(b, off) * U32_LIMIT + ReadU32(b, off + 2)
  }

  lemma U16RoundTrip(v: int, before: bytes, after: bytes)
    requires 0 <= v < U16_LIMIT
    ensures ReadU16(before + U16(v) + after, |before|) == v
  {
    var all := before + U16(v) + after;
    assert all[|before|] == U16(v)[0] && all[|before| + 1] == U16(v)[1];
  }

  lemma U48RoundTrip(v: int, before: bytes, after: bytes)
    requires 0 <= v < U48_LIMIT
    ensures ReadU48(before + U48(v) + after, |before|) == v
  {
    var all := before + U48(v) + after;
    forall i | 0 <= i < 6 ensures all[|before| + i] == U48(v)[i] {}
    var low := v % U32_LIMIT;
    assert ReadU16(all, |before|) == v / U32_LIMIT;
    assert ReadU16(all, |before| + 2) == low / U16_LIMIT;
    assert ReadU16(all, |before| + 4) == low % U16_LIMIT;
  }

  /** Every two bytes are the encoding of the number read from them. */
  lemma U16Print(b: bytes, off: nat)
    requires off + 2 <= |b|
    ensures U16(ReadU16(b, off)) == b[off..off + 2]
  {
  }

  lemma U48Print(b: bytes, off: nat)
    requires off + 6 <= |b|
    ensures U48(ReadU48(b, off)) == b[off..off + 6]
  {
    var hi, mid, lo := ReadU16(b, off), ReadU16(b, off + 2), ReadU16(b, off + 4);
    var low := ReadU32(b, off + 2);
    assert low == mid * U16_LIMIT + lo;
    assert low / U16_LIMIT == mid && low % U16_LIMIT == lo;
    assert ReadU48(b, off) / U32_LIMIT == hi && ReadU48(b, off) % U32_LIMIT == low;
    assert U16(hi) == b[off..off + 2] && U16(mid) == b[off + 2..off + 4] && U16(lo) == b[off + 4..off + 6];
    assert U48(ReadU48(b, off)) == U16(hi) + (U16(mid) + U16(lo));
    assert b[off..off + 6] == b[off..off + 2] + (b[off + 2..off + 4] + b[off + 4..off + 6]);
  }

  lemma U16Injective(v: int, w: int)
    requires 0 <= v < U16_LIMIT && 0 <= w < U16_LIMIT && U16(v) == U16(w)
    ensures v == w
  {
    U16RoundTrip(v, [], []);
    U16RoundTrip(w, [], []);
  }

  lemma U48Injective(v: int, w: int)
    requires 0 <= v < U48_LIMIT && 0 <= w < U48_LIMIT && U48(v) == U48(w)
    ensures v == w
  {
    U48RoundTrip(v, [], []);
    U48RoundTrip(w, [], []);
  }

  // ---------- filling a buffer in place ----------

  /** What a buffer holds after `src` is copied over it at `off`. */
  function Overwrite(buf: bytes, off: nat, src: bytes): (r: bytes)
    requires off + |src| <= |buf|
    ensures |r| == |buf|
  {
    buf[..off] + src + buf[off + |src|..]
  }

  /** `src.copy(buf, off)`. */
  method CopyInto(buf: array<byte>, off: nat, src: bytes)
    requires off + |src| <= buf.Length
    modifies buf
    ensures buf[..] == Overwrite(old(buf[..]), off, src)
  {
    var i := 0;
    while i < |src|
      invariant 0 <= i <= |src|
      invariant buf[..off] == old(buf[..off])
      invariant buf[off..off + i] == src[..i]
      invariant buf[off + i..] == old(buf[off + i..])
    {
      buf[off + i] := src[i];
      i := i + 1;
    }
    assert buf[..] == buf[..off] + buf[off..off + |src|] + buf[off + |src|..];
  }

  /** `writeUInt48BE`: refuses a number outside 48 bits and leaves the buffer alone. */
  method WriteUInt48BE(buf: array<byte>, value: int, off: nat) returns (ok: bool)
    requires off + 6 <= buf.Length
    modifies buf
    ensures ok <==> 0 <= value < U48_LIMIT
    ensures ok ==> buf[..] == Overwrite(old(buf[..]), off, U48(value))
    ensures !ok ==> buf[..] == old(buf[..])
  {
    if value < 0 || value >= U48_LIMIT {
      return false;
    }
    var high, low := value / U32_LIMIT, value % U32_LIMIT;
    buf[off], buf[off + 1] := high / 0x100, high % 0x100;
    buf[off + 2], buf[off + 3] := low / U16_LIMIT / 0x100, low / U16_LIMIT % 0x100;
    buf[off + 4], buf[off + 5] := low % U16_LIMIT / 0x100, low % 0x100;
    assert buf[off..off + 6] == U48(value);
    assert buf[..] == buf[..off] + buf[off..off + 6] + buf[off + 6..];
    return true;
  }

  // ---------- bitwise operations ----------

  /** a | b, bit by bit. */
  function BitOr(a: nat, b: nat): nat {
    if a == 0 && b == 0 then 0
    else 2 * BitOr(a / 2, b / 2) + (if a % 2 == 1 || b % 2 == 1 then 1 else 0)
  }

  /** a ^ b, bit by bit. */
  function BitXor(a: nat, b: nat): nat {
    if a == 0 && b == 0 then 0
    else 2 * BitXor(a / 2, b / 2) + (a + b) % 2
  }

  lemma {:induction false} BitOrBound(a: nat, b: nat, limit: nat)
    requires a < limit && b < limit && IsPower2(limit)
    ensures BitOr(a, b) < limit
  {
    if limit > 1 && !(a == 0 && b == 0) {
      BitOrBound(a / 2, b / 2, limit / 2);
    }
  }

  lemma {:induction false} BitXorBound(a: nat, b: nat, limit: nat)
    requires a < limit && b < limit && IsPower2(limit)
    ensures BitXor(a, b) < limit
  {
    if limit > 1 && !(a == 0 && b == 0) {
      BitXorBound(a / 2, b / 2, limit / 2);
    }
  }

  predicate IsPower2(n: nat) {
    n == 1 || (n > 1 && n % 2 == 0 && IsPower2(n / 2))
  }

  lemma Byte256()
    ensures IsPower2(256)
  {
    assert IsPower2(1) && IsPower2(2) && IsPower2(4) && IsPower2(8) && IsPower2(16);
    assert IsPower2(32) && IsPower2(64) && IsPower2(128);
  }

  /** The last bit and the bits above it. */
  lemma BitXorStep(a: nat, b: nat)
    ensures BitXor(a, b) % 2 == (a + b) % 2 && BitXor(a, b) / 2 == BitXor(a / 2, b / 2)
  {
    HalfAndRest(BitXor(a / 2, b / 2), (a + b) % 2);
  }

  lemma HalfAndRest(q: nat, r: nat)
    requires r < 2
    ensures (2 * q + r) / 2 == q && (2 * q + r) % 2 == r
  {
  }

  lemma ParityCancels(r: nat, a: nat, b: nat)
    requires r % 2 == (a + b) % 2
    ensures (r + b) % 2 == a % 2
  {
  }

  lemma {:induction false} BitXorCancel(a: nat, b: nat)
    ensures BitXor(BitXor(a, b), b) == a
  {
    if !(a == 0 && b == 0) {
      var r := BitXor(a, b);
      BitXorStep(a, b);
      BitXorStep(r, b);
      BitXorCancel(a / 2, b / 2);
      ParityCancels(r, a, b);
      var c := BitXor(r, b);
      assert c / 2 == a / 2 && c % 2 == a % 2;
      assert c == 2 * (c / 2) + c % 2 && a == 2 * (a / 2) + a % 2;
    }
  }

  lemma {:induction false} BitXorCommutes(a: nat, b: nat)
    ensures BitXor(a, b) == BitXor(b, a)
  {
    if !(a == 0 && b == 0) {
      BitXorCommutes(a / 2, b / 2);
    }
  }

  lemma {:induction false} BitOrZero(a: nat)
    ensures BitOr(a, 0) == a && BitOr(0, a) == a
  {
    if a != 0 {
      BitOrZero(a / 2);
    }
  }

  lemma BitOrStep(a: nat, b: nat)
    ensures BitOr(a, b) % 2 == (if a % 2 == 1 || b % 2 == 1 then 1 else 0)
    ensures BitOr(a, b) / 2 == BitOr(a / 2, b / 2)
  {
    HalfAndRest(BitOr(a / 2, b / 2), if a % 2 == 1 || b % 2 == 1 then 1 else 0);
  }

  /** The low two bits of a number and the rest, taken off one by one. */
  lemma TwoBits(x: nat)
    ensures x == 4 * (x / 2 / 2) + 2 * (x / 2 % 2) + x % 2
    ensures x % 4 == 2 * (x / 2 % 2) + x % 2
  {
    assert x == 2 * (x / 2) + x % 2 && x / 2 == 2 * (x / 2 / 2) + x / 2 % 2;
  }

  /** A number without low bits leaves those of the other; the rest is combined above them. */
  lemma BitOrAboveTwoBits(a: nat, high: nat)
    requires high % 4 == 0
    ensures BitOr(a, high) == 4 * BitOr(a / 2 / 2, high / 2 / 2) + a % 4
  {
    var r := BitOr(a, high);
    BitOrStep(a, high);
    BitOrStep(a / 2, high / 2);
    TwoBits(r);
    TwoBits(a);
    TwoBits(high);
  }

  /** Disjoint bit fields: the low two bits against everything above them. */
  lemma BitOrTwoBits(low: nat, high: nat)
    requires low < 4 && high % 4 == 0
    ensures BitOr(low, high) == low + high
  {
    BitOrAboveTwoBits(low, high);
    BitOrZero(high / 2 / 2);
    TwoBits(high);
  }

  function OrByte(a: byte, b: byte): byte {
    Byte256();
    BitOrBound(a, b, 256);
    BitOr(a, b)
  }

  function XorByte(a: byte, b: byte): byte {
    Byte256();
    BitXorBound(a, b, 256);
    BitXor(a, b)
  }

  /** Bytewise exclusive or of two equally long byte strings. */
  function XorBytes(a: bytes, b: bytes): (r: bytes)
    requires |a| == |b|
    ensures |r| == |a|
  {
    seq(|a|, i requires 0 <= i < |a| => XorByte(a[i], b[i]))
  }

  /** One operand and the exclusive or determine the other operand. */
  lemma XorBytesInjective(a: bytes, b: bytes, c: bytes)
    requires |a| == |b| == |c| && XorBytes(a, b) == XorBytes(a, c)
    ensures b == c
  {
    forall i | 0 <= i < |a| ensures b[i] == c[i] {
      assert XorBytes(a, b)[i] == XorBytes(a, c)[i];
      BitXorCommutes(a[i], b[i]);
      BitXorCommutes(a[i], c[i]);
      BitXorCancel(b[i], a[i]);
      BitXorCancel(c[i], a[i]);
    }
  }

  lemma XorBytesCommute(a: bytes, b: bytes)
    requires |a| == |b|
    ensures XorBytes(a, b) == XorBytes(b, a)
  {
    forall i | 0 <= i < |a| ensures XorBytes(a, b)[i] == XorBytes(b, a)[i] {
      BitXorCommutes(a[i], b[i]);
    }
  }
}

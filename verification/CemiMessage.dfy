/**
 The mutable L_Data object of src/core/cemi.ts, with the buffers its printer fills in place, and what
 printing gives back of the bytes a frame was parsed from.
 */
module CemiMessage {
  import opened Bytes
  import opened Cemi
  import opened Wrappers
  import Apci
  import Tpci

  /** The flags with the three hop bits replaced. */
  function WithHops(flags: int, hops: int): (r: int) {
    flags - flags / 16 % 8 * 16 + hops % 8 * 16
  }

  /** Setting the hop count is read back, and the address flag and every other bit stay. */
  lemma HopsChangeNothingElse(flags: int, hops: int)
    requires 0 <= flags < U16_LIMIT
    ensures var r := WithHops(flags, hops);
      && 0 <= r < U16_LIMIT && r / 16 % 8 == hops % 8
      && r % 16 == flags % 16 && r / 0x80 == flags / 0x80
  {
    var high, low := flags / 0x80, flags % 16;
    SplitFlags(flags);
    JoinFlags(high, hops % 8, low);
    assert WithHops(flags, hops) == high * 0x80 + hops % 8 * 16 + low;
  }

  lemma SplitFlags(flags: int)
    ensures flags == flags / 0x80 * 0x80 + flags / 16 % 8 * 16 + flags % 16
  {
    var q := flags / 16;
    assert flags == q * 16 + flags % 16 && q == q / 8 * 8 + q % 8;
    assert flags / 0x80 == q / 8;
  }

  lemma JoinFlags(high: int, mid: int, low: int)
    requires 0 <= mid < 8 && 0 <= low < 16
    ensures var x := high * 0x80 + mid * 16 + low;
      x / 0x80 == high && x / 16 % 8 == mid && x % 16 == low
  {
    var x := high * 0x80 + mid * 16 + low;
    assert x / 16 == high * 8 + mid;
    assert x / 0x80 == high;
  }

  class CEMILData {
    var flags: int
    var srcAddr: int
    var dstAddr: Address
    var tpci: Tpci.Tpci
    var payload: Option<Apci.Apci>

    ghost function View(): LData
      reads this
    {
      LData(flags, srcAddr, dstAddr, tpci, payload)
    }

    constructor (init: LData)
      ensures View() == init
    {
      flags, srcAddr, dstAddr, tpci, payload := init.flags, init.src, init.dst, init.tpci, init.payload;
    }

    function Hops(): int
      reads this`flags
    {
      flags / 16 % 8
    }

    method SetHops(val: int)
      modifies this`flags
      ensures View() == old(View()).(flags := WithHops(old(flags), val))
      ensures 0 <= old(flags) < U16_LIMIT ==>
        Hops() == val % 8 && (View().GroupFlag() <==> old(View().GroupFlag()))
    {
      if 0 <= flags < U16_LIMIT {
        HopsChangeNothingElse(flags, val);
      }
      flags := flags - flags / 16 % 8 * 16 + val % 8 * 16;
    }

    /** `calculatedLength`; the two payload mismatches are conversion errors. */
    function CalculatedLength(): (r: Result<nat, CemiError>)
      requires View().Printable()
      reads this
      ensures r.Err? <==> PrintLData(View()).Err?
      ensures r.Ok? ==> r.value == |PrintLData(View()).value|
    {
      if Tpci.IsControl(tpci) then
        if payload.Some? then Err(Conversion) else Ok(8)
      else if payload.None? then Err(Conversion)
      else Ok(8 + Apci.NpduLength(payload.value))
    }

    /** A zeroed buffer of the calculated length, filled field by field. */
    method ToKnx() returns (r: Result<array<byte>, CemiError>)
      requires View().Printable()
      ensures r.Err? <==> PrintLData(View()).Err?
      ensures r.Ok? ==> fresh(r.value) && PrintLData(View()) == Ok(r.value[..])
    {
      var length := CalculatedLength();
      if length.Err? {
        return Err(length.error);
      }
      var out := new byte[length.value](_ => 0);
      FillHead(out, flags, srcAddr, dstAddr.raw);
      if Tpci.IsControl(tpci) {
        out[6], out[7] := 0, Tpci.Encode(tpci);
        assert out[..] == out[..6] + [0, Tpci.Encode(tpci)];
        return Ok(out);
      }
      assert out[7..] == out[6..][1..] == Zeros(1 + Apci.NpduLength(payload.value));
      FillTpdu(out, payload.value, tpci);
      return Ok(out);
    }
  }

  /** The three 16-bit fields, written one after the other. */
  method FillHead(out: array<byte>, flags: int, src: int, dst: int)
    requires 0 <= flags < U16_LIMIT && 0 <= src < U16_LIMIT && 0 <= dst < U16_LIMIT && out.Length >= 6
    modifies out
    ensures out[..6] == U16(flags) + U16(src) + U16(dst) && out[6..] == old(out[6..])
  {
    CopyInto(out, 0, U16(flags));
    CopyInto(out, 2, U16(src));
    CopyInto(out, 4, U16(dst));
  }

  /** The data part of `toKnx`: the length byte, then the APDU with the TPCI OR-ed into a copy of it. */
  method FillTpdu(out: array<byte>, a: Apci.Apci, tpci: Tpci.Tpci)
    requires out.Length == 8 + Apci.NpduLength(a) && out[7..] == Zeros(1 + Apci.NpduLength(a))
    modifies out
    ensures out[..] == old(out[..6]) + [Apci.NpduLength(a) % 0x100] + Tpdu(a, tpci)
  {
    var apdu := Apci.Encode(a);
    if apdu != [] {
      apdu := apdu[0 := OrByte(apdu[0], Tpci.Encode(tpci))];
    }
    out[6] := Apci.NpduLength(a) % 0x100;
    ghost var before := out[..];
    assert before[..7] == old(out[..6]) + [out[6]] && before[7..] == old(out[7..]);
    TpduFilled(a, tpci, apdu);
    CopyInto(out, 7, apdu);
    OverwriteSplit(before, 7, apdu);
  }

  lemma OverwriteSplit(buf: bytes, off: nat, src: bytes)
    requires off + |src| <= |buf|
    ensures Overwrite(buf, off, src) == buf[..off] + Overwrite(buf[off..], 0, src)
  {
  }

  /** The changed APDU copied over zeroes is the TPDU. */
  lemma TpduFilled(a: Apci.Apci, tpci: Tpci.Tpci, apdu: bytes)
    requires var e := Apci.Encode(a);
      apdu == if e == [] then [] else e[0 := OrByte(e[0], Tpci.Encode(tpci))]
    ensures |apdu| <= 1 + Apci.NpduLength(a)
    ensures Overwrite(Zeros(1 + Apci.NpduLength(a)), 0, apdu) == Tpdu(a, tpci)
  {
    var e := Apci.Encode(a);
    if |e| >= 2 {
      assert |e| == 1 + Apci.NpduLength(a);
      assert apdu == [apdu[0]] + e[1..];
      assert Overwrite(Zeros(|e|), 0, apdu) == apdu;
    } else if |e| == 1 {
      assert Overwrite(Zeros(2), 0, apdu) == [apdu[0], 0];
    } else {
      assert Overwrite(Zeros(2), 0, apdu) == Zeros(2);
    }
  }

  // ---------- parse, then print ----------

  /** The bytes an accepted buffer's frame was read from. */
  function Consumed(raw: bytes, off: nat): bytes
    requires off <= |raw| && ParseLData(raw, off).Ok?
  {
    raw[off..off + ParseLData(raw, off).value.1]
  }

  /** Nothing in the APDU is dropped by decoding it; control frames have none. */
  predicate Lossless(raw: bytes, off: nat)
    requires off <= |raw| && ParseLData(raw, off).Ok?
  {
    var (d, n) := ParseLData(raw, off).value;
    Tpci.IsControl(d.tpci) || (n >= 9 && Apci.Tidy(ApduAt(raw, off, n - 7)))
  }

  /** Printing a parsed frame restores its very bytes if and only if decoding its APDU dropped nothing. */
  lemma ParsePrint(raw: bytes, off: nat)
    requires off <= |raw| && ParseLData(raw, off).Ok?
    ensures var d := ParseLData(raw, off).value.0;
      d.Printable() && (PrintLData(d) == Ok(Consumed(raw, off)) <==> Lossless(raw, off))
  {
    var (d, n) := ParseLData(raw, off).value;
    var bytes := Consumed(raw, off);
    ParsedIsCanonical(raw, off);
    HeadPrinted(raw, off);
    Tpci.ResolveEncode(raw[off + 7], d.GroupFlag(), d.dst.raw == 0);
    if Tpci.IsControl(d.tpci) {
      assert bytes == bytes[..6] + [raw[off + 6], raw[off + 7]];
    } else {
      DataParsePrint(raw, off);
    }
  }

  lemma HeadPrinted(raw: bytes, off: nat)
    requires off <= |raw| && ParseLData(raw, off).Ok?
    ensures var d := ParseLData(raw, off).value.0;
      d.Printable() && Head(d) == raw[off..off + 6] == Consumed(raw, off)[..6]
  {
    U16Print(raw, off);
    U16Print(raw, off + 2);
    U16Print(raw, off + 4);
    assert raw[off..off + 6] == raw[off..off + 2] + raw[off + 2..off + 4] + raw[off + 4..off + 6];
  }

  lemma JoinInjective(h: bytes, m: byte, t: bytes, h': bytes, m': byte, t': bytes)
    requires |h| == |h'|
    ensures h + [m] + t == h' + [m'] + t' <==> h == h' && m == m' && t == t'
  {
    var x, y := h + [m] + t, h' + [m'] + t';
    assert x[..|h|] == h && x[|h|] == m && x[|h| + 1..] == t;
    assert y[..|h|] == h' && y[|h|] == m' && y[|h| + 1..] == t';
  }

  /** The length byte adds nothing when the rest fits it. */
  lemma SamePrinted(head: bytes, npduLength: nat, t: bytes, length: byte, tail: bytes)
    requires |t| == 1 + npduLength && |tail| == 1 + length as int
    ensures head + [npduLength % 0x100] + t == head + [length] + tail <==> t == tail
  {
    JoinInjective(head, npduLength % 0x100, t, head, length, tail);
  }

  /** Putting the TPCI bits of a first byte back over the APDU they were cleared from. */
  lemma TpduRestored(a: Apci.Apci, tpci: Tpci.Tpci, first: byte, apdu: bytes)
    requires !Tpci.IsControl(tpci) && Tpci.Encode(tpci) == first - first % 4
    requires |Apci.Encode(a)| >= 2 && Apci.Encode(a)[0] < 4 && apdu != [] && apdu[0] == first % 4
    ensures Tpdu(a, tpci) == [first] + apdu[1..] <==> Apci.Encode(a) == apdu
  {
    FirstByte(a, tpci);
    var t, encoded := Tpdu(a, tpci), Apci.Encode(a);
    assert t == [t[0]] + t[1..] && encoded == [encoded[0]] + encoded[1..] && apdu == [apdu[0]] + apdu[1..];
    JoinInjective([], t[0], t[1..], [], first, apdu[1..]);
    JoinInjective([], encoded[0], encoded[1..], [], apdu[0], apdu[1..]);
    assert [] + [t[0]] + t[1..] == t && [] + [first] + apdu[1..] == [first] + apdu[1..];
    assert [] + [encoded[0]] + encoded[1..] == encoded && [] + [apdu[0]] + apdu[1..] == apdu;
  }

  lemma DataParsePrint(raw: bytes, off: nat)
    requires off <= |raw| && ParseLData(raw, off).Ok?
    requires !Tpci.IsControl(ParseLData(raw, off).value.0.tpci)
    ensures var d := ParseLData(raw, off).value.0;
      d.Printable() && (PrintLData(d) == Ok(Consumed(raw, off)) <==> Lossless(raw, off))
  {
    var (d, n) := ParseLData(raw, off).value;
    var apdu, a := ApduAt(raw, off, n - 7), d.payload.value;
    HeadPrinted(raw, off);
    Decoded(raw, off);
    TpduRestored(a, d.tpci, raw[off + 7], apdu);
    Apci.EncodedLength(a);
    var head, tail := raw[off..off + 6], [raw[off + 7]] + apdu[1..];
    assert Consumed(raw, off) == head + [raw[off + 6]] + tail;
    assert PrintLData(d) == Ok(Head(d) + [Apci.NpduLength(a) % 0x100] + Tpdu(a, d.tpci));
    SamePrinted(head, Apci.NpduLength(a), Tpdu(a, d.tpci), raw[off + 6], tail);
  }

  /** The payload of an accepted data TPDU is what its APDU decodes to, and its TPCI the byte above it. */
  lemma Decoded(raw: bytes, off: nat)
    requires off <= |raw| && ParseLData(raw, off).Ok?
    requires !Tpci.IsControl(ParseLData(raw, off).value.0.tpci)
    ensures var (d, n) := ParseLData(raw, off).value;
      && n == raw[off + 6] as int + 8 && off + n <= |raw| && d.payload.Some?
      && n >= 9 && Apci.Decode(ApduAt(raw, off, n - 7)) == Ok(d.payload.value)
      && Apci.Canonical(d.payload.value) && Tpci.Encode(d.tpci) == raw[off + 7] - raw[off + 7] % 4
      && |Apci.Encode(d.payload.value)| >= 2 && Apci.Encode(d.payload.value)[0] < 4
      && (Apci.Encode(d.payload.value) == ApduAt(raw, off, n - 7) <==> Lossless(raw, off))
  {
    var (d, n) := ParseLData(raw, off).value;
    Tpci.ResolveEncode(raw[off + 7], d.GroupFlag(), d.dst.raw == 0);
    var apdu := ApduAt(raw, off, n - 7);
    Apci.DecodedIsCanonical(apdu);
    Apci.DecodedLength(apdu);
    Apci.DecodeEncode(apdu);
    Apci.EncodedLength(d.payload.value);
    Apci.EncodedLengthBound(d.payload.value);
  }

  /** For every accepted cEMI buffer, printing the frame and parsing it again gives the same frame. */
  lemma FrameParsePrintParse(raw: bytes)
    requires ParseFrame(raw).Ok?
    ensures var f := ParseFrame(raw).value.0;
      f.data.Printable() && FrameRoundTrips(f)
  {
    var infoLen: nat := raw[1];
    ParsedIsCanonical(raw, 2 + infoLen);
    FrameRoundTrip(ParseFrame(raw).value.0);
  }
}

/**
 The cEMI frame and its L_Data service information (src/core/cemi.ts): TPCI bits OR-ed into the first
 APDU byte, and one flag that decides how the address and the TPCI are read.
 */
module Cemi {
  import opened Bytes
  import opened Wrappers
  import Apci
  import Tpci

  const L_DATA_REQ := 0x11
  const L_DATA_IND := 0x29
  const L_DATA_CON := 0x2e

  /** Group and individual addresses are one 16-bit number; only the flag in the frame tells them apart. */
  datatype Address = Group(raw: int) | Individual(raw: int)

  datatype CemiError = CouldNotParse | Conversion

  datatype LData = LData(flags: int, src: int, dst: Address, tpci: Tpci.Tpci, payload: Option<Apci.Apci>) {

    /** The ranges of the 16-bit writers. */
    predicate Printable() {
      0 <= flags < U16_LIMIT && 0 <= src < U16_LIMIT && 0 <= dst.raw < U16_LIMIT
    }

    /** `flags & DESTINATION_GROUP_ADDRESS`. */
    predicate GroupFlag() {
      flags / 0x80 % 2 == 1
    }

    /** The frames that survive printing and parsing. */
    predicate Canonical() {
      && Printable()
      && (dst.Group? <==> GroupFlag())
      && Tpci.Canonical(tpci, dst.Group?, dst.raw == 0)
      && (if Tpci.IsControl(tpci) then payload.None?
          else payload.Some? && CanonicalPayload(payload.value))
    }
  }

  /** A canonical service whose length fits the NPDU length byte and whose first byte has no TPCI bits. */
  predicate CanonicalPayload(a: Apci.Apci) {
    && Apci.Canonical(a)
    && Apci.NpduLength(a) < 0x100
    && (a.Unknown? ==> a.raw[0] < 4)
  }

  // ---------- printing ----------

  /** The fixed six bytes in front of the NPDU length. */
  function Head(d: LData): (b: bytes)
    requires d.Printable()
    ensures |b| == 6
  {
    U16(d.flags) + U16(d.src) + U16(d.dst.raw)
  }

  /** The APDU with the TPCI OR-ed into its first byte, in a buffer sized by the NPDU length. */
  function Tpdu(a: Apci.Apci, tpci: Tpci.Tpci): (b: bytes)
    ensures |b| == 1 + Apci.NpduLength(a)
  {
    var apdu := Apci.Encode(a);
    if apdu == [] then Zeros(2)
    else
      var first := [OrByte(apdu[0], Tpci.Encode(tpci))];
      if |apdu| == 1 then first + [0] else first + apdu[1..]
  }

  function PrintLData(d: LData): Result<bytes, CemiError>
    requires d.Printable()
  {
    if Tpci.IsControl(d.tpci) then
      if d.payload.Some? then Err(Conversion) else Ok(Head(d) + [0, Tpci.Encode(d.tpci)])
    else if d.payload.None? then Err(Conversion)
    else Ok(Head(d) + [Apci.NpduLength(d.payload.value) % 0x100] + Tpdu(d.payload.value, d.tpci))
  }

  // ---------- parsing ----------

  function ParseLData(raw: bytes, off: nat): (r: Result<(LData, nat), CemiError>)
    requires off <= |raw|
    ensures r.Ok? ==> off + r.value.1 <= |raw|
  {
    var available := |raw| - off;
    if available < 8 then Err(CouldNotParse)
    else
      var flags, src, dst := ReadU16(raw, off), ReadU16(raw, off + 2), ReadU16(raw, off + 4);
      var isGroup := flags / 0x80 % 2 == 1;
      var address := if isGroup then Group(dst) else Individual(dst);
      var npduLen: int := raw[off + 6];
      var tpciByte := raw[off + 7];
      var tpci := Tpci.Resolve(tpciByte, isGroup, dst == 0);
      if tpci.Err? then Err(Conversion)
      else if Tpci.IsControl(tpci.value) then
        if npduLen != 0 then Err(CouldNotParse)
        else Ok((LData(flags, src, address, tpci.value, None), 8))
      else
        var apduLen := npduLen + 1;
        if available - 7 < apduLen then Err(CouldNotParse)
        else
          var payload := Apci.Decode(ApduAt(raw, off, apduLen));
          if payload.Err? then Err(Conversion)
          else Ok((LData(flags, src, address, tpci.value, Some(payload.value)), 7 + apduLen))
  }

  /** The APDU with the TPCI bits cleared from its first byte. */
  function ApduAt(raw: bytes, off: nat, apduLen: nat): (apdu: bytes)
    requires apduLen >= 1 && off + 7 + apduLen <= |raw|
    ensures |apdu| == apduLen && apdu[0] < 4
  {
    [raw[off + 7] % 4] + raw[off + 8..off + 7 + apduLen]
  }

  // ---------- print, then parse ----------

  /** A printed frame parses back to itself, with every byte read. */
  predicate RoundTrips(d: LData)
    requires d.Printable()
  {
    PrintLData(d).Ok? && ParseLData(PrintLData(d).value, 0) == Ok((d, |PrintLData(d).value|))
  }

  /** The three 16-bit fields read back from any printed frame. */
  lemma HeadRead(d: LData, rest: bytes)
    requires d.Printable()
    ensures var raw := Head(d) + rest;
      ReadU16(raw, 0) == d.flags && ReadU16(raw, 2) == d.src && ReadU16(raw, 4) == d.dst.raw
  {
    var f, s, t := U16(d.flags), U16(d.src), U16(d.dst.raw);
    var raw := Head(d) + rest;
    assert raw == [] + f + (s + t + rest);
    U16RoundTrip(d.flags, [], s + t + rest);
    assert raw == f + s + (t + rest);
    U16RoundTrip(d.src, f, t + rest);
    assert raw == (f + s) + t + rest;
    U16RoundTrip(d.dst.raw, f + s, rest);
  }

  lemma ControlRoundTrip(d: LData)
    requires d.Printable() && Tpci.IsControl(d.tpci)
    ensures RoundTrips(d) <==> d.Canonical()
  {
    if d.payload.None? {
      var rest: bytes := [0, Tpci.Encode(d.tpci)];
      HeadRead(d, rest);
      Tpci.EncodeResolve(d.tpci, 0, d.GroupFlag(), d.dst.raw == 0);
    }
  }

  /** The bytes of a printed data TPDU behind the head. */
  lemma DataLayout(d: LData)
    requires d.Printable() && !Tpci.IsControl(d.tpci) && d.payload.Some?
    ensures var raw, a := PrintLData(d).value, d.payload.value;
      && |raw| == 8 + Apci.NpduLength(a) && raw[6] == Apci.NpduLength(a) % 0x100
      && raw[7..] == Tpdu(a, d.tpci)
      && ReadU16(raw, 0) == d.flags && ReadU16(raw, 2) == d.src && ReadU16(raw, 4) == d.dst.raw
  {
    var a := d.payload.value;
    var rest: bytes := [Apci.NpduLength(a) % 0x100] + Tpdu(a, d.tpci);
    assert PrintLData(d).value == Head(d) + rest;
    HeadRead(d, rest);
  }

  /** With no TPCI bits in the way, the first byte splits into TPCI and APCI bits. */
  lemma FirstByte(a: Apci.Apci, tpci: Tpci.Tpci)
    requires !Tpci.IsControl(tpci)
    requires var apdu := Apci.Encode(a); |apdu| >= 2 && apdu[0] < 4
    ensures var t, apdu := Tpdu(a, tpci), Apci.Encode(a);
      t[0] == Tpci.Encode(tpci) + apdu[0] && t[0] % 4 == apdu[0] && t[1..] == apdu[1..]
  {
    hide Apci.Encode;
    var first := Apci.Encode(a)[0];
    DataTpciBits(tpci);
    BitOrTwoBits(first, Tpci.Encode(tpci));
    LowTwo(Tpci.Encode(tpci), first);
  }

  lemma DataTpciBits(tpci: Tpci.Tpci)
    requires !Tpci.IsControl(tpci)
    ensures Tpci.Encode(tpci) % 4 == 0
  {
  }

  lemma LowTwo(high: int, low: int)
    requires high % 4 == 0 && 0 <= low < 4
    ensures (high + low) % 4 == low
  {
  }

  /** What the parser cuts out of a printed data TPDU that fits its length byte. */
  lemma PrintedApdu(d: LData)
    requires d.Printable() && !Tpci.IsControl(d.tpci) && d.payload.Some?
    requires Apci.NpduLength(d.payload.value) < 0x100
    requires var apdu := Apci.Encode(d.payload.value); |apdu| >= 2 && apdu[0] < 4
    ensures var raw, a := PrintLData(d).value, d.payload.value;
      && |raw| == 8 + Apci.NpduLength(a) && raw[6] == Apci.NpduLength(a)
      && raw[7] == Tpci.Encode(d.tpci) + Apci.Encode(a)[0]
      && ApduAt(raw, 0, 1 + Apci.NpduLength(a)) == Apci.Encode(a)
  {
    DataLayout(d);
    FirstByte(d.payload.value, d.tpci);
    var raw, apdu := PrintLData(d).value, Apci.Encode(d.payload.value);
    assert raw[7] == raw[7..][0] && raw[8..] == raw[7..][1..] == apdu[1..];
    assert ApduAt(raw, 0, |apdu|) == [apdu[0]] + apdu[1..] == apdu;
  }

  /** The data branch of the parser, for a buffer that is exactly one frame. */
  lemma ParseData(raw: bytes, n: nat)
    requires |raw| == 8 + n && raw[6] == n
    ensures var flags, dst := ReadU16(raw, 0), ReadU16(raw, 4);
      var isGroup := flags / 0x80 % 2 == 1;
      var tpci := Tpci.Resolve(raw[7], isGroup, dst == 0);
      var payload := Apci.Decode(ApduAt(raw, 0, 1 + n));
      tpci.Ok? && !Tpci.IsControl(tpci.value) ==>
        ParseLData(raw, 0) == if payload.Err? then Err(Conversion) else
          Ok((LData(flags, ReadU16(raw, 2), if isGroup then Group(dst) else Individual(dst), tpci.value,
                    Some(payload.value)), |raw|))
  {
  }

  lemma CanonicalDecodes(a: Apci.Apci)
    requires Apci.NpduLength(a) < 0x100 && |Apci.Encode(a)| >= 2 && Apci.Encode(a)[0] < 4
    ensures Apci.Decode(Apci.Encode(a)) == Ok(a) <==> CanonicalPayload(a)
  {
    Apci.EncodeDecode(a);
  }

  lemma DataRoundTrip(d: LData)
    requires d.Printable() && !Tpci.IsControl(d.tpci) && d.payload.Some?
    requires Apci.NpduLength(d.payload.value) < 0x100
    requires var apdu := Apci.Encode(d.payload.value); |apdu| >= 2 && apdu[0] < 4
    ensures RoundTrips(d) <==> d.Canonical()
  {
    var a := d.payload.value;
    var raw := PrintLData(d).value;
    PrintedApdu(d);
    DataLayout(d);
    Tpci.EncodeResolve(d.tpci, Apci.Encode(a)[0], d.GroupFlag(), d.dst.raw == 0);
    CanonicalDecodes(a);
    ParseData(raw, Apci.NpduLength(a));
  }

  /** Payloads that are too long, too short or carry TPCI bits come back different or not at all. */
  lemma OddPayloads(d: LData)
    requires d.Printable() && !Tpci.IsControl(d.tpci) && d.payload.Some?
    requires var a := d.payload.value;
      Apci.NpduLength(a) >= 0x100 || |Apci.Encode(a)| < 2 || Apci.Encode(a)[0] >= 4
    ensures !RoundTrips(d) && !d.Canonical()
  {
    DataLayout(d);
    var a, raw := d.payload.value, PrintLData(d).value;
    Apci.EncodedLengthBound(a);
    if RoundTrips(d) {
      var apduLen := raw[6] as int + 1;
      Apci.DecodedIsCanonical(ApduAt(raw, 0, apduLen));
      Apci.DecodedLength(ApduAt(raw, 0, apduLen));
    }
  }

  /**
   Printing L_Data and parsing it gives the frame back if and only if it is canonical: address type and
   TPCI agree with the flag, control frames carry nothing, data frames carry a canonical service short
   enough for one length byte.
   */
  lemma LDataRoundTrip(d: LData)
    requires d.Printable()
    ensures RoundTrips(d) <==> d.Canonical()
  {
    if Tpci.IsControl(d.tpci) {
      ControlRoundTrip(d);
    } else if d.payload.Some? {
      var a := d.payload.value;
      if Apci.NpduLength(a) < 0x100 && |Apci.Encode(a)| >= 2 && Apci.Encode(a)[0] < 4 {
        DataRoundTrip(d);
      } else {
        OddPayloads(d);
      }
    }
  }

  // ---------- parse, then print ----------

  /** Whatever the parser accepts is canonical. */
  lemma ParsedIsCanonical(raw: bytes, off: nat)
    requires off <= |raw| && ParseLData(raw, off).Ok?
    ensures ParseLData(raw, off).value.0.Canonical()
  {
    var (d, n) := ParseLData(raw, off).value;
    Tpci.ResolveEncode(raw[off + 7], d.GroupFlag(), d.dst.raw == 0);
    if !Tpci.IsControl(d.tpci) {
      Apci.DecodedIsCanonical(ApduAt(raw, off, n - 7));
      Apci.DecodedLength(ApduAt(raw, off, n - 7));
    }
  }

  /** For every accepted buffer: printing the parsed frame and parsing again gives the same frame. */
  lemma ParsePrintParse(raw: bytes, off: nat)
    requires off <= |raw| && ParseLData(raw, off).Ok?
    ensures var d := ParseLData(raw, off).value.0;
      d.Printable() && RoundTrips(d)
  {
    ParsedIsCanonical(raw, off);
    LDataRoundTrip(ParseLData(raw, off).value.0);
  }

  // ---------- the frame around it ----------

  datatype CemiFrame = CemiFrame(code: byte, additionalInfo: bytes, data: LData)

  predicate KnownCode(code: byte) {
    code == L_DATA_REQ || code == L_DATA_IND || code == L_DATA_CON
  }

  function PrintFrame(f: CemiFrame): Result<bytes, CemiError>
    requires f.data.Printable()
  {
    var data :- PrintLData(f.data);
    Ok([f.code, |f.additionalInfo| % 0x100] + f.additionalInfo + data)
  }

  function ParseFrame(raw: bytes): Result<(CemiFrame, nat), CemiError> {
    if |raw| < 2 || !KnownCode(raw[0]) then Err(CouldNotParse)
    else
      var infoLen: nat := raw[1];
      if |raw| < 2 + infoLen then Err(CouldNotParse)
      else
        var data :- ParseLData(raw, 2 + infoLen);
        Ok((CemiFrame(raw[0], raw[2..2 + infoLen], data.0), 2 + infoLen + data.1))
  }

  /** Parsing at an offset is parsing the rest. */
  lemma ParseShifted(before: bytes, rest: bytes)
    ensures ParseLData(before + rest, |before|) == ParseLData(rest, 0)
  {
    var raw, n := before + rest, |before|;
    if |rest| >= 8 {
      assert forall i :: 0 <= i < |rest| ==> raw[n + i] == rest[i];
      assert ReadU16(raw, n) == ReadU16(rest, 0);
      assert ReadU16(raw, n + 2) == ReadU16(rest, 2);
      assert ReadU16(raw, n + 4) == ReadU16(rest, 4);
      var apduLen: nat := rest[6] as int + 1;
      if |rest| - 7 >= apduLen {
        assert ApduAt(raw, n, apduLen) == ApduAt(rest, 0, apduLen);
      }
    }
  }

  /** Parsing a frame around service information is parsing that information. */
  lemma FrameAround(code: byte, info: bytes, data: bytes)
    requires |info| < 0x100 && KnownCode(code)
    ensures var raw := [code, |info|] + info + data;
      ParseFrame(raw) == match ParseLData(data, 0)
        case Err(e) => Err(e)
        case Ok((d, n)) => Ok((CemiFrame(code, info, d), 2 + |info| + n))
  {
    var before := [code, |info|] + info;
    var raw := before + data;
    assert raw[0] == code && raw[1] == |info| && raw[2..2 + |info|] == info;
    ParseShifted(before, data);
  }

  lemma ParsedFrameParts(raw: bytes)
    requires ParseFrame(raw).Ok?
    ensures var f := ParseFrame(raw).value.0;
      KnownCode(f.code) && f.code == raw[0] && |f.additionalInfo| < 0x100
  {
  }

  predicate FrameRoundTrips(f: CemiFrame)
    requires f.data.Printable()
  {
    PrintFrame(f).Ok? && ParseFrame(PrintFrame(f).value) == Ok((f, |PrintFrame(f).value|))
  }

  lemma FramePrinted(f: CemiFrame)
    requires f.data.Printable() && |f.additionalInfo| < 0x100
    ensures PrintFrame(f) == match PrintLData(f.data)
      case Err(e) => Err(e)
      case Ok(data) => Ok([f.code, |f.additionalInfo|] + f.additionalInfo + data)
  {
  }

  lemma FrameByData(f: CemiFrame)
    requires f.data.Printable() && KnownCode(f.code) && |f.additionalInfo| < 0x100
    ensures FrameRoundTrips(f) <==> RoundTrips(f.data)
  {
    hide ParseLData;
    FramePrinted(f);
    if PrintLData(f.data).Ok? {
      var data, raw := PrintLData(f.data).value, PrintFrame(f).value;
      FrameAround(f.code, f.additionalInfo, data);
      Around(f, |data|, ParseLData(data, 0), ParseFrame(raw));
    }
  }

  /** Wrapping a parse result in the frame's code and info loses nothing. */
  lemma Around(f: CemiFrame, n: nat, inner: Result<(LData, nat), CemiError>, outer: Result<(CemiFrame, nat), CemiError>)
    requires outer == match inner
      case Err(e) => Err(e)
      case Ok((d, m)) => Ok((CemiFrame(f.code, f.additionalInfo, d), 2 + |f.additionalInfo| + m))
    ensures outer == Ok((f, 2 + |f.additionalInfo| + n)) <==> inner == Ok((f.data, n))
  {
    assert f == CemiFrame(f.code, f.additionalInfo, f.data);
  }

  /** A cEMI frame survives printing and parsing exactly when its parts do and its info fits one byte. */
  lemma FrameRoundTrip(f: CemiFrame)
    requires f.data.Printable()
    ensures FrameRoundTrips(f) <==> KnownCode(f.code) && |f.additionalInfo| < 0x100 && f.data.Canonical()
  {
    if KnownCode(f.code) && |f.additionalInfo| < 0x100 {
      FrameByData(f);
      LDataRoundTrip(f.data);
    } else if PrintFrame(f).Ok? && ParseFrame(PrintFrame(f).value).Ok? {
      ParsedFrameParts(PrintFrame(f).value);
    }
  }
}

/**
 The cEMI format by offsets: which buffers the parsers accept and why they refuse the others, where each field
 is read, and how frames that do not survive a round trip print.
 */
module CemiTable {
  import opened Bytes
  import opened Cemi
  import opened Wrappers
  import Apci
  import Tpci

  /** The TPCI an L_Data buffer holds for its own destination. */
  function TpciAt(raw: bytes, off: nat): Result<Tpci.Tpci, Tpci.TpciError>
    requires off + 8 <= |raw|
  {
    Tpci.Resolve(raw[off + 7], raw[off + 1] >= 0x80, raw[off + 4] == 0 && raw[off + 5] == 0)
  }

  predicate LDataAt(raw: bytes, off: nat) {
    && off + 8 <= |raw| && TpciAt(raw, off).Ok?
    && (if Tpci.IsControl(TpciAt(raw, off).value) then raw[off + 6] == 0
        else 1 <= raw[off + 6] && off + 8 + raw[off + 6] as int <= |raw|)
  }

  /** The address flag is the top bit of the second byte, and a destination is zero if both its bytes are. */
  lemma FlagAndZero(raw: bytes, off: nat)
    requires off + 8 <= |raw|
    ensures ReadU16(raw, off) / 0x80 % 2 == 1 <==> raw[off + 1] >= 0x80
    ensures ReadU16(raw, off + 4) == 0 <==> raw[off + 4] == 0 && raw[off + 5] == 0
  {
    var hi: int, lo: int := raw[off], raw[off + 1];
    assert (hi * 0x100 + lo) / 0x80 == 2 * hi + lo / 0x80;
  }

  /**
   L_Data is accepted if and only if eight bytes are there, the TPCI fits the destination, a control TPDU is
   empty and a data TPDU has at least one byte more and all it announces.
   */
  lemma LDataAccepted(raw: bytes, off: nat)
    requires off <= |raw|
    ensures ParseLData(raw, off).Ok? <==> LDataAt(raw, off)
    ensures ParseLData(raw, off).Err? ==>
      (ParseLData(raw, off).error == Conversion <==>
        && off + 8 <= |raw|
        && (TpciAt(raw, off).Err? || (!Tpci.IsControl(TpciAt(raw, off).value) && raw[off + 6] == 0)))
  {
    hide Tpci.Resolve, ReadU16;
    if off + 8 <= |raw| {
      FlagAndZero(raw, off);
      if TpciAt(raw, off).Ok? && !Tpci.IsControl(TpciAt(raw, off).value) {
        var n: nat := raw[off + 6];
        if off + 8 + n <= |raw| {
          Apci.DecodeEncode(ApduAt(raw, off, 1 + n));
        }
      }
    }
  }

  /** Where the fields of an accepted L_Data stand; its APDU is the TPDU without the six TPCI bits. */
  lemma LDataRead(raw: bytes, off: nat)
    requires LDataAt(raw, off)
    ensures ParseLData(raw, off).Ok?
    ensures var (d, n) := ParseLData(raw, off).value;
      && d.flags == ReadU16(raw, off) && d.src == ReadU16(raw, off + 2) && d.dst.raw == ReadU16(raw, off + 4)
      && (d.dst.Group? <==> raw[off + 1] >= 0x80) && Ok(d.tpci) == TpciAt(raw, off)
      && n == 8 + raw[off + 6] as int
      && (if Tpci.IsControl(d.tpci) then d.payload.None?
          else d.payload.Some? && Apci.Decode([raw[off + 7] % 4] + raw[off + 8..off + n]) == Ok(d.payload.value))
  {
    LDataAccepted(raw, off);
    FlagAndZero(raw, off);
    hide Tpci.Resolve, ReadU16, Apci.Decode;
  }

  /** A cEMI frame is accepted if and only if its code is one of three and information and data are there. */
  lemma FrameAccepted(raw: bytes)
    ensures ParseFrame(raw).Ok? <==>
      && |raw| >= 2 && (raw[0] == 0x11 || raw[0] == 0x29 || raw[0] == 0x2e)
      && 2 + raw[1] as int <= |raw| && LDataAt(raw, 2 + raw[1] as int)
    ensures ParseFrame(raw).Ok? ==>
      var (f, n) := ParseFrame(raw).value;
      var data := ParseLData(raw, 2 + raw[1] as int).value;
      && f == CemiFrame(raw[0], raw[2..2 + raw[1] as int], data.0) && n == 2 + raw[1] as int + data.1
  {
    hide ParseLData, LDataAt;
    if |raw| >= 2 && 2 + raw[1] as int <= |raw| {
      LDataAccepted(raw, 2 + raw[1] as int);
    }
  }

  // ---------- printing what does not come back ----------

  /** Printing fails exactly where a control TPDU has a payload or a data TPDU has none. */
  lemma PrintFails(d: LData)
    requires d.Printable()
    ensures PrintLData(d).Err? <==>
      (if d.tpci.TConnect? || d.tpci.TDisconnect? || d.tpci.TAck? || d.tpci.TNak? then d.payload.Some?
       else d.payload.None?)
    ensures PrintLData(d).Err? ==> PrintLData(d).error == Conversion
  {
  }

  /**
   Every data TPDU in print: the fields, the NPDU length in one byte whatever it is, and the APDU, padded to two
   bytes, with the TPCI bits OR-ed into its first byte unless it is empty.
   */
  lemma DataPrinted(d: LData)
    requires d.Printable() && PrintLData(d).Ok? && d.payload.Some?
    ensures var raw, apdu := PrintLData(d).value, Apci.Encode(d.payload.value);
      && |raw| == 7 + (if |apdu| < 2 then 2 else |apdu|)
      && ReadU16(raw, 0) == d.flags && ReadU16(raw, 2) == d.src && ReadU16(raw, 4) == d.dst.raw
      && raw[6] == (|raw| - 8) % 0x100
      && raw[7] == (if apdu == [] then 0 else OrByte(apdu[0], Tpci.Encode(d.tpci)))
      && (if |apdu| < 2 then raw[8] == 0 else raw[8..] == apdu[1..])
  {
    DataLayout(d);
    var raw, t := PrintLData(d).value, Tpdu(d.payload.value, d.tpci);
    assert raw[7..] == t && raw[7] == t[0] && raw[8..] == t[1..] && raw[8] == t[1];
  }

  /** Every control TPDU in print. */
  lemma ControlPrinted(d: LData)
    requires d.Printable() && PrintLData(d).Ok? && d.payload.None?
    ensures var raw := PrintLData(d).value;
      && |raw| == 8 && ReadU16(raw, 0) == d.flags && ReadU16(raw, 2) == d.src && ReadU16(raw, 4) == d.dst.raw
      && raw[6..] == [0, Tpci.Encode(d.tpci)]
  {
    HeadRead(d, [0, Tpci.Encode(d.tpci)]);
  }

  /** The TPCI of an accepted data TPDU is the upper six bits of the byte it was read from. */
  lemma DataTpci(raw: bytes, off: nat)
    requires LDataAt(raw, off) && !Tpci.IsControl(TpciAt(raw, off).value)
    ensures Tpci.Encode(TpciAt(raw, off).value) == raw[off + 7] / 4 * 4
  {
    var first := raw[off + 7];
    Tpci.ResolveEncode(first, raw[off + 1] >= 0x80, raw[off + 4] == 0 && raw[off + 5] == 0);
    assert first - first % 4 == first / 4 * 4;
  }

  /** Six bytes, the APDU's length less one, the APDU with `first`'s upper six bits above its first byte. */
  predicate PrintsAs(d: LData, head: bytes, first: byte, apdu: bytes) {
    d.Printable() && PrintLData(d).Ok? && apdu != []
    && PrintLData(d).value == head + [(|apdu| - 1) % 0x100] + [(first / 4 * 4 + apdu[0]) % 0x100] + apdu[1..]
  }

  /** How data with a given APDU prints when its first byte has no TPCI bits. */
  lemma PrintsApdu(d: LData, head: bytes, first: byte, apdu: bytes)
    requires d.Printable() && PrintLData(d).Ok? && d.payload.Some? && !Tpci.IsControl(d.tpci)
    requires Apci.Encode(d.payload.value) == apdu && 2 <= |apdu| <= 0x100 && apdu[0] < 4
    requires Tpci.Encode(d.tpci) == first / 4 * 4 && |PrintLData(d).value| >= 8 && PrintLData(d).value[..6] == head
    ensures PrintsAs(d, head, first, apdu) && first / 4 * 4 + apdu[0] < 0x100
  {
    DataPrinted(d);
    OrAbove(apdu[0], first);
    hide PrintLData, Apci.Encode, Tpci.Encode, OrByte, ReadU16;
    var printed := PrintLData(d).value;
    OneByte(|apdu| - 1);
    OneByte(first / 4 * 4 + apdu[0] as int);
    FourParts(printed);
  }

  lemma OneByte(x: int)
    requires 0 <= x < 0x100
    ensures x % 0x100 == x
  {
  }

  lemma FourParts(b: bytes)
    requires |b| >= 8
    ensures b == b[..6] + [b[6]] + [b[7]] + b[8..]
  {
  }

  lemma OrAbove(low: byte, first: byte)
    requires low < 4
    ensures first / 4 * 4 + low < 0x100 && OrByte(low, first / 4 * 4) == first / 4 * 4 + low
  {
    var q := first / 4;
    assert q * 4 % 4 == 0 && q < 64;
    BitOrTwoBits(low, q * 4);
  }

  /**
   For every accepted data TPDU, printing the parsed frame gives its fields, and its APDU tidied under the
   TPCI bits it came with.
   */
  lemma ParsedPrints(raw: bytes, off: nat)
    requires LDataAt(raw, off) && !Tpci.IsControl(TpciAt(raw, off).value)
    ensures ParseLData(raw, off).Ok?
    ensures PrintsAs(ParseLData(raw, off).value.0, raw[off..off + 6], raw[off + 7],
                     Apci.Tidied([raw[off + 7] % 4] + raw[off + 8..off + 8 + raw[off + 6] as int]))
  {
    LDataRead(raw, off);
    DataTpci(raw, off);
    hide ParseLData, PrintLData, LDataAt, TpciAt, Apci.Encode, Apci.Decode, Apci.Tidied, Tpci.Encode, ReadU16, PrintsAs;
    var d := ParseLData(raw, off).value.0;
    var apdu := [raw[off + 7] % 4] + raw[off + 8..off + 8 + raw[off + 6] as int];
    ParsedIsCanonical(raw, off);
    Apci.DecodeEncode(apdu);
    PrintFails(d);
    TidiedSmall(apdu);
    PrintedHead(raw, off, d);
    PrintsApdu(d, raw[off..off + 6], raw[off + 7], Apci.Tidied(apdu));
  }

  lemma TidiedSmall(apdu: bytes)
    requires 2 <= |apdu| <= 0x100 && apdu[0] < 4
    ensures |Apci.Tidied(apdu)| <= |apdu| && Apci.Tidied(apdu)[0] < 4
  {
  }

  lemma PrintedHead(raw: bytes, off: nat, d: LData)
    requires off + 8 <= |raw| && d.Printable() && PrintLData(d).Ok?
    requires d.flags == ReadU16(raw, off) && d.src == ReadU16(raw, off + 2) && d.dst.raw == ReadU16(raw, off + 4)
    ensures |PrintLData(d).value| >= 8 && PrintLData(d).value[..6] == raw[off..off + 6]
  {
    U16Print(raw, off);
    U16Print(raw, off + 2);
    U16Print(raw, off + 4);
    assert raw[off..off + 6] == raw[off..off + 2] + raw[off + 2..off + 4] + raw[off + 4..off + 6];
    assert PrintLData(d).value[..6] == Head(d);
  }
}

/** The buffers src/secure/dataSecure.ts fills in place, proved to hold what DataSecure specifies. */
module DataSecureWriter {
  import opened Bytes
  import opened Crypto
  import opened DataSecure
  import opened Wrappers

  /** The reader's six weighted terms are the 48-bit big-endian number. */
  function ReadU48BE(b: bytes, off: nat): (v: nat)
    requires off + 6 <= |b|
    ensures v == ReadU48(b, off)
  {
    var b0: int, b1: int, b2: int := b[off], b[off + 1], b[off + 2];
    var b3: int, b4: int, b5: int := b[off + 3], b[off + 4], b[off + 5];
    b0 * 0x100_0000_0000 + b1 * 0x1_0000_0000 + b2 * 0x100_0000 + b3 * 0x1_0000 + b4 * 0x100 + b5
  }

  /** `>>>` sees only the low 32 bits of its operand, so the two upper bytes are divided out. */
  function ShiftRight(v: nat, divisor: nat): nat
    requires divisor > 0
  {
    v % U32_LIMIT / divisor
  }

  lemma BytesOfU48(v: int)
    requires 0 <= v < U48_LIMIT
    ensures U48(v) == [v / 0x100_0000_0000 % 0x100, v / 0x1_0000_0000 % 0x100, ShiftRight(v, 0x100_0000) % 0x100,
                       ShiftRight(v, 0x1_0000) % 0x100, ShiftRight(v, 0x100) % 0x100, v % 0x100]
  {
    var high, low := v / U32_LIMIT, v % U32_LIMIT;
    SplitHigh(v, high, low);
    SplitLow(low);
  }

  lemma SplitHigh(v: nat, high: nat, low: nat)
    requires v == high * U32_LIMIT + low && low < U32_LIMIT && high < U16_LIMIT
    ensures v / 0x100_0000_0000 % 0x100 == high / 0x100 && v / 0x1_0000_0000 % 0x100 == high % 0x100
    ensures v % 0x100 == low % 0x100
  {
  }

  lemma SplitLow(low: nat)
    requires low < U32_LIMIT
    ensures low / U16_LIMIT / 0x100 == low / 0x100_0000 % 0x100 && low / U16_LIMIT % 0x100 == low / 0x1_0000 % 0x100
    ensures low % U16_LIMIT / 0x100 == low / 0x100 % 0x100 && low % U16_LIMIT % 0x100 == low % 0x100
  {
  }

  /** `writeU48BE`: a range error leaves the buffer as it was. */
  method WriteU48BE(buf: array<byte>, off: nat, v: int) returns (ok: bool)
    requires off + 6 <= buf.Length
    modifies buf
    ensures ok <==> 0 <= v < U48_LIMIT
    ensures buf[..] == if ok then Overwrite(old(buf[..]), off, U48(v)) else old(buf[..])
  {
    if v < 0 || v > 0xffff_ffff_ffff {
      return false;
    }
    buf[off] := v / 0x100_0000_0000 % 0x100;
    buf[off + 1] := v / 0x1_0000_0000 % 0x100;
    buf[off + 2] := ShiftRight(v, 0x100_0000) % 0x100;
    buf[off + 3] := ShiftRight(v, 0x1_0000) % 0x100;
    buf[off + 4] := ShiftRight(v, 0x100) % 0x100;
    buf[off + 5] := v % 0x100;
    BytesOfU48(v);
    assert buf[off..off + 6] == U48(v);
    assert buf[..] == buf[..off] + buf[off..off + 6] + buf[off + 6..];
    return true;
  }

  /** The ten bytes block_0 and counter_0 start with. */
  method WriteNonce(buf: array<byte>, sequence: int, link: Link) returns (ok: bool)
    requires buf.Length == 16
    modifies buf
    ensures ok <==> 0 <= sequence < U48_LIMIT
    ensures ok ==> buf[..] == Nonce(sequence, link) + old(buf[10..])
  {
    ok := WriteU48BE(buf, 0, sequence);
    if ok {
      CopyInto(buf, 6, U16(link.src % U16_LIMIT));
      CopyInto(buf, 8, U16(link.dst % U16_LIMIT));
    }
  }

  method MakeBlock0(sequence: int, link: Link, tpci: int, q: nat) returns (r: Result<array<byte>, DataSecureError>)
    ensures r.Ok? <==> 0 <= sequence < U48_LIMIT
    ensures r.Ok? ==> fresh(r.value) && r.value[..] == Block0(sequence, link, tpci, q)
  {
    var b := new byte[16](_ => 0);
    var ok := WriteNonce(b, sequence, link);
    if !ok {
      return Err(SequenceOutOfRange);
    }
    b[10], b[11] := 0x00, if link.dstIsGroup then 0x80 else 0x00;
    b[12], b[13] := TpciBits(tpci) + APCI_DATA_SECURE / 0x100, APCI_DATA_SECURE % 0x100;
    b[14], b[15] := 0x00, q % 0x100;
    assert b[..] == b[..10] + [b[10], b[11], b[12], b[13], b[14], b[15]];
    return Ok(b);
  }

  method MakeCtr0(sequence: int, link: Link) returns (r: Result<array<byte>, DataSecureError>)
    ensures r.Ok? <==> 0 <= sequence < U48_LIMIT
    ensures r.Ok? ==> fresh(r.value) && r.value[..] == Ctr0(sequence, link)
  {
    var b := new byte[16](_ => 0);
    var ok := WriteNonce(b, sequence, link);
    if !ok {
      return Err(SequenceOutOfRange);
    }
    b[10], b[11], b[12] := 0x00, 0x00, 0x00;
    b[13], b[14], b[15] := 0x00, 0x01, 0x00;
    assert b[..] == b[..10] + [b[10], b[11], b[12], b[13], b[14], b[15]];
    return Ok(b);
  }

  /** `encodeDataSecure`: one buffer, filled from the front, the tag last. */
  method EncodeDataSecure(E: Cipher, key: bytes, link: Link, req: Request)
    returns (r: Result<array<byte>, DataSecureError>)
    ensures Encode(E, key, link, req).Err? ==> r == Err(Encode(E, key, link, req).error)
    ensures Encode(E, key, link, req).Ok? ==>
      r.Ok? && fresh(r.value) && Encode(E, key, link, req) == Ok(r.value[..])
  {
    if |key| != 16 {
      return Err(BadKeyLength);
    }
    var n := |req.plain|;
    if n == 0 || n > MAX_PLAIN {
      return Err(PlainOutOfRange);
    }
    var scf := ControlField(req);
    var out := new byte[9 + n + MAC_LEN](_ => 0);
    var ok := PutHead(out, req.tpci, scf, req.sequence);
    if !ok {
      return Err(SequenceOutOfRange);
    }
    assert AuthConf(scf) == req.authConf;
    if req.authConf {
      var (cipher, encMac) := EncryptAuthConf(E, key, req.sequence, link, req.tpci, [scf], req.plain);
      PutTail(out, cipher, encMac);
    } else {
      PutTail(out, req.plain, EncryptAuthOnly(E, key, req.sequence, link, req.tpci, req.plain));
    }
    return Ok(out);
  }

  /** APCI with the TPCI bits above it, control field, sequence number. */
  method PutHead(out: array<byte>, tpci: int, scf: byte, sequence: int) returns (ok: bool)
    requires out.Length >= 9
    modifies out
    ensures ok <==> 0 <= sequence < U48_LIMIT
    ensures ok ==> out[..9] == [TpciBits(tpci) + 3, 0xf1, scf] + U48(sequence)
  {
    out[0], out[1], out[2] := TpciBits(tpci) + APCI_DATA_SECURE / 0x100, APCI_DATA_SECURE % 0x100, scf;
    ok := WriteU48BE(out, 3, sequence);
  }

  /** The body at nine, the tag behind it. */
  method PutTail(out: array<byte>, body: bytes, encMac: bytes)
    requires out.Length == 9 + |body| + |encMac|
    modifies out
    ensures out[..] == old(out[..9]) + body + encMac
  {
    CopyInto(out, 9, body);
    CopyInto(out, 9 + |body|, encMac);
  }
}

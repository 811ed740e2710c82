/**
 KNX Data Secure (src/secure/dataSecure.ts): a secured APDU carries a control field, a 48-bit sequence
 number, the possibly encrypted inner APDU and a MAC cut to four bytes.
 */
module DataSecure {
  import opened Bytes
  import opened Crypto
  import opened Wrappers

  const APCI_DATA_SECURE := 0x3f1
  const SCF_TOOL_ACCESS := 0x80
  const SCF_AUTH_CONF := 0x10
  const SERVICE_DATA := 0
  const SERVICE_SYNC_REQ := 2
  const MAC_LEN := 4
  const MAX_PLAIN := 254

  /** Who speaks to whom; the addresses are masked to 16 bits where they are used. */
  datatype Link = Link(src: int, dst: int, dstIsGroup: bool)

  datatype Request = Request(tpci: int, toolAccess: bool, authConf: bool, plain: bytes, sequence: int)

  datatype Pdu = Pdu(service: int, toolAccess: bool, authConf: bool, systemBroadcast: bool,
                     sequence: int, serial: Option<bytes>, plain: bytes)

  datatype DataSecureError =
    | BadKeyLength
    | NotDataSecure
    | PlainOutOfRange
    | SequenceOutOfRange
    | SyncNotConfidential
    | TooShort
    | DataTooLong
    | Unsupported
    | MacFailed

  /** The Data Secure APCI in the low ten bits, with at least the control field behind it. */
  predicate IsDataSecure(lsdu: bytes) {
    |lsdu| >= 3 && lsdu[0] % 4 == 3 && lsdu[1] == 0xf1
  }

  // ---------- the control field ----------

  function ToolAccess(scf: byte): bool {
    scf / 0x80 == 1
  }

  function SystemBroadcast(scf: byte): bool {
    scf / 0x08 % 2 == 1
  }

  /** Bits four to six are 001. */
  function AuthConf(scf: byte): bool {
    scf / 0x10 % 8 == 1
  }

  function ControlField(r: Request): byte {
    (if r.authConf then SCF_AUTH_CONF else 0) + (if r.toolAccess then SCF_TOOL_ACCESS else 0) + SERVICE_DATA
  }

  /** The six TPCI bits of a byte. */
  function TpciBits(tpci: int): (b: byte)
    ensures b % 4 == 0
  {
    tpci % 0x100 / 4 * 4
  }

  // ---------- the blocks ----------

  function Nonce(sequence: int, link: Link): (n: bytes)
    requires 0 <= sequence < U48_LIMIT
    ensures |n| == 10
  {
    U48(sequence) + U16(link.src % U16_LIMIT) + U16(link.dst % U16_LIMIT)
  }

  function Block0(sequence: int, link: Link, tpci: int, length: nat): Block
    requires 0 <= sequence < U48_LIMIT
  {
    Nonce(sequence, link)
      + [0, if link.dstIsGroup then 0x80 else 0, TpciBits(tpci) + 3, 0xf1, 0, length % 0x100]
  }

  function Ctr0(sequence: int, link: Link): Block
    requires 0 <= sequence < U48_LIMIT
  {
    Nonce(sequence, link) + [0, 0, 0, 0, 1, 0]
  }

  /** The CBC-MAC before it is cut. */
  function FullMac(E: Cipher, key: Block, sequence: int, link: Link, tpci: int, ad: bytes, plain: bytes): Block
    requires 0 <= sequence < U48_LIMIT && |ad| < U16_LIMIT
  {
    CbcMac(E, key, ad, plain, Block0(sequence, link, tpci, |plain|))
  }

  /** The first four bytes of the CBC-MAC. */
  function Tag(E: Cipher, key: Block, sequence: int, link: Link, tpci: int, ad: bytes, plain: bytes): (t: bytes)
    requires 0 <= sequence < U48_LIMIT && |ad| < U16_LIMIT
    ensures |t| == MAC_LEN
  {
    FullMac(E, key, sequence, link, tpci, ad, plain)[..MAC_LEN]
  }

  // ---------- authenticated and confidential ----------

  /** Tag and payload under one key stream, the tag first. */
  function EncryptAuthConf(E: Cipher, key: Block, sequence: int, link: Link, tpci: int, ad: bytes, plain: bytes)
    : (r: (bytes, bytes))
    requires 0 <= sequence < U48_LIMIT && |ad| < U16_LIMIT
    ensures |r.0| == |plain| && |r.1| == MAC_LEN
  {
    var crypt := CtrXor(E, key, Ctr0(sequence, link), Tag(E, key, sequence, link, tpci, ad, plain) + plain);
    (crypt[MAC_LEN..], crypt[..MAC_LEN])
  }

  function DecryptAuthConf(E: Cipher, key: Block, sequence: int, link: Link, tpci: int, ad: bytes,
                           cipher: bytes, encMac: bytes)
    : (r: Result<bytes, DataSecureError>)
    requires 0 <= sequence < U48_LIMIT && |ad| < U16_LIMIT && |encMac| == MAC_LEN
  {
    var clear := CtrXor(E, key, Ctr0(sequence, link), encMac + cipher);
    var plain := clear[MAC_LEN..];
    if clear[..MAC_LEN] != Tag(E, key, sequence, link, tpci, ad, plain) then Err(MacFailed) else Ok(plain)
  }

  /** What decrypts to `plain` is exactly its encryption. */
  lemma AuthConfInverse(E: Cipher, key: Block, sequence: int, link: Link, tpci: int, ad: bytes,
                        cipher: bytes, encMac: bytes, plain: bytes)
    requires 0 <= sequence < U48_LIMIT && |ad| < U16_LIMIT && |encMac| == MAC_LEN
    ensures DecryptAuthConf(E, key, sequence, link, tpci, ad, cipher, encMac) == Ok(plain)
       <==> EncryptAuthConf(E, key, sequence, link, tpci, ad, plain) == (cipher, encMac)
  {
    var c0 := Ctr0(sequence, link);
    var clear, wire := Tag(E, key, sequence, link, tpci, ad, plain) + plain, encMac + cipher;
    CtrInvolution(E, key, c0, clear);
    CtrInvolution(E, key, c0, wire);
    assert clear[..MAC_LEN] == Tag(E, key, sequence, link, tpci, ad, plain) && clear[MAC_LEN..] == plain;
    assert wire[..MAC_LEN] == encMac && wire[MAC_LEN..] == cipher;
    var stream, back := CtrXor(E, key, c0, clear), CtrXor(E, key, c0, wire);
    assert stream == stream[..MAC_LEN] + stream[MAC_LEN..] && back == back[..MAC_LEN] + back[MAC_LEN..];
  }

  // ---------- authenticated only ----------

  function EncryptAuthOnly(E: Cipher, key: Block, sequence: int, link: Link, tpci: int, plain: bytes)
    : (encMac: bytes)
    requires 0 <= sequence < U48_LIMIT
    ensures |encMac| == MAC_LEN
  {
    CtrXor(E, key, Ctr0(sequence, link), Tag(E, key, sequence, link, tpci, [], plain))
  }

  predicate VerifyAuthOnly(E: Cipher, key: Block, sequence: int, link: Link, tpci: int, plain: bytes, encMac: bytes)
    requires 0 <= sequence < U48_LIMIT && |encMac| == MAC_LEN
  {
    CtrXor(E, key, Ctr0(sequence, link), encMac) == Tag(E, key, sequence, link, tpci, [], plain)
  }

  lemma AuthOnlyExact(E: Cipher, key: Block, sequence: int, link: Link, tpci: int, plain: bytes, encMac: bytes)
    requires 0 <= sequence < U48_LIMIT && |encMac| == MAC_LEN
    ensures VerifyAuthOnly(E, key, sequence, link, tpci, plain, encMac)
       <==> EncryptAuthOnly(E, key, sequence, link, tpci, plain) == encMac
  {
    CtrInvolution(E, key, Ctr0(sequence, link), encMac);
    CtrInvolution(E, key, Ctr0(sequence, link), Tag(E, key, sequence, link, tpci, [], plain));
  }

  // ---------- whole telegrams ----------

  /** Body and MAC in the mode the control field asks for. */
  function Sealed(E: Cipher, key: Block, link: Link, tpci: int, scf: byte, sequence: int, plain: bytes)
    : (r: (bytes, bytes))
    requires 0 <= sequence < U48_LIMIT
    ensures |r.0| == |plain| && |r.1| == MAC_LEN
  {
    if AuthConf(scf) then EncryptAuthConf(E, key, sequence, link, tpci, [scf], plain)
    else (plain, EncryptAuthOnly(E, key, sequence, link, tpci, plain))
  }

  /** A DATA telegram under any control field: what the decoder is checked against. */
  function Secured(E: Cipher, key: Block, link: Link, tpci: int, scf: byte, sequence: int, plain: bytes): (b: bytes)
    requires 0 <= sequence < U48_LIMIT
    ensures |b| == 9 + |plain| + MAC_LEN
  {
    var (body, encMac) := Sealed(E, key, link, tpci, scf, sequence, plain);
    [TpciBits(tpci) + 3, 0xf1, scf] + U48(sequence) + body + encMac
  }

  function Encode(E: Cipher, key: bytes, link: Link, r: Request): Result<bytes, DataSecureError> {
    if |key| != 16 then Err(BadKeyLength)
    else if r.plain == [] || |r.plain| > MAX_PLAIN then Err(PlainOutOfRange)
    else if r.sequence < 0 || r.sequence >= U48_LIMIT then Err(SequenceOutOfRange)
    else Ok(Secured(E, key, link, r.tpci, ControlField(r), r.sequence, r.plain))
  }

  function Decode(E: Cipher, key: bytes, link: Link, lsdu: bytes): Result<Pdu, DataSecureError> {
    if |key| != 16 then Err(BadKeyLength)
    else if !IsDataSecure(lsdu) then Err(NotDataSecure)
    else if lsdu[2] % 8 == SERVICE_SYNC_REQ then DecodeSync(E, key, link, lsdu)
    else if lsdu[2] % 8 == SERVICE_DATA then DecodeData(E, key, link, lsdu)
    else Err(Unsupported)
  }

  function PduOf(scf: byte, sequence: int, serial: Option<bytes>, plain: bytes): Pdu {
    Pdu(scf % 8, ToolAccess(scf), AuthConf(scf), SystemBroadcast(scf), sequence, serial, plain)
  }

  /** A SYNC_REQ takes fixed positions for serial and cipher, and the last four bytes for the MAC. */
  function DecodeSync(E: Cipher, key: Block, link: Link, lsdu: bytes): Result<Pdu, DataSecureError>
    requires IsDataSecure(lsdu)
  {
    var scf := lsdu[2];
    if !AuthConf(scf) then Err(SyncNotConfidential)
    else if |lsdu| < 25 then Err(TooShort)
    else
      var sequence, serial := ReadU48(lsdu, 3), lsdu[9..15];
      var plain :- DecryptAuthConf(E, key, sequence, link, TpciBits(lsdu[0]), [scf] + serial,
                                   lsdu[15..21], lsdu[|lsdu| - MAC_LEN..]);
      Ok(PduOf(scf, sequence, Some(serial), plain))
  }

  function DecodeData(E: Cipher, key: Block, link: Link, lsdu: bytes): Result<Pdu, DataSecureError>
    requires IsDataSecure(lsdu)
  {
    var scf := lsdu[2];
    if |lsdu| < 13 then Err(TooShort)
    else if |lsdu| - 9 - MAC_LEN > MAX_PLAIN then Err(DataTooLong)
    else
      var sequence, tpci := ReadU48(lsdu, 3), TpciBits(lsdu[0]);
      var body, encMac := lsdu[9..|lsdu| - MAC_LEN], lsdu[|lsdu| - MAC_LEN..];
      if AuthConf(scf) then
        var plain :- DecryptAuthConf(E, key, sequence, link, tpci, [scf], body, encMac);
        Ok(PduOf(scf, sequence, None, plain))
      else if VerifyAuthOnly(E, key, sequence, link, tpci, body, encMac) then
        Ok(PduOf(scf, sequence, None, body))
      else Err(MacFailed)
  }

  // ---------- decoding inverts encoding ----------

  /** A DATA telegram and its parts, where the decoder cuts them. */
  lemma SecuredParts(E: Cipher, key: Block, link: Link, tpci: int, scf: byte, sequence: int, plain: bytes, b: bytes)
    requires 0 <= sequence < U48_LIMIT
    ensures b == Secured(E, key, link, tpci, scf, sequence, plain) <==>
      && |b| >= 13 && b[0] == TpciBits(tpci) + 3 && b[1] == 0xf1 && b[2] == scf && ReadU48(b, 3) == sequence
      && (b[9..|b| - MAC_LEN], b[|b| - MAC_LEN..]) == Sealed(E, key, link, tpci, scf, sequence, plain)
  {
    var (body, mac) := Sealed(E, key, link, tpci, scf, sequence, plain);
    Parts([TpciBits(tpci) + 3, 0xf1, scf], sequence, body, mac, b);
  }

  /** Cutting a byte string into three bytes, a 48-bit number, a body and four bytes at the end. */
  lemma Parts(first: bytes, sequence: int, body: bytes, mac: bytes, b: bytes)
    requires |first| == 3 && 0 <= sequence < U48_LIMIT && |mac| == MAC_LEN
    ensures b == first + U48(sequence) + body + mac <==>
      && |b| >= 13 && b[0] == first[0] && b[1] == first[1] && b[2] == first[2] && ReadU48(b, 3) == sequence
      && b[9..|b| - MAC_LEN] == body && b[|b| - MAC_LEN..] == mac
  {
    if b == first + U48(sequence) + body + mac {
      assert b == first + U48(sequence) + (body + mac);
      U48RoundTrip(sequence, first, body + mac);
    } else if |b| >= 13 {
      U48Print(b, 3);
      assert b == [b[0], b[1], b[2]] + b[3..9] + b[9..|b| - MAC_LEN] + b[|b| - MAC_LEN..];
      assert first == [first[0], first[1], first[2]];
    }
  }

  /** Masking the TPCI again changes nothing. */
  lemma TpciBitsTwice(tpci: int)
    ensures TpciBits(TpciBits(tpci) + 3) == TpciBits(tpci) == TpciBits(TpciBits(tpci))
  {
    var q := tpci % 0x100 / 4;
    assert 0 <= q < 64;
    SmallTpci(q, 3);
    SmallTpci(q, 0);
  }

  lemma SmallTpci(q: int, low: int)
    requires 0 <= q < 64 && 0 <= low < 4
    ensures TpciBits(4 * q + low) == 4 * q
  {
    assert (4 * q + low) % 0x100 == 4 * q + low;
  }

  lemma SameTpciBits(E: Cipher, key: Block, link: Link, a: int, b: int, scf: byte, sequence: int, plain: bytes)
    requires 0 <= sequence < U48_LIMIT && TpciBits(a) == TpciBits(b)
    ensures Sealed(E, key, link, a, scf, sequence, plain) == Sealed(E, key, link, b, scf, sequence, plain)
    ensures Secured(E, key, link, a, scf, sequence, plain) == Secured(E, key, link, b, scf, sequence, plain)
  {
  }

  /** The decoder's two modes as one: it returns what its body and MAC are the sealing of. */
  lemma DecodeDataSealed(E: Cipher, key: Block, link: Link, lsdu: bytes, pdu: Pdu)
    requires IsDataSecure(lsdu) && |lsdu| >= 13
    ensures DecodeData(E, key, link, lsdu) == Ok(pdu) <==>
      && |lsdu| - 13 <= MAX_PLAIN && pdu == PduOf(lsdu[2], ReadU48(lsdu, 3), None, pdu.plain)
      && (lsdu[9..|lsdu| - MAC_LEN], lsdu[|lsdu| - MAC_LEN..])
         == Sealed(E, key, link, lsdu[0], lsdu[2], ReadU48(lsdu, 3), pdu.plain)
  {
    var scf, tpci := lsdu[2], TpciBits(lsdu[0]);
    var sequence, body, mac := ReadU48(lsdu, 3), lsdu[9..|lsdu| - MAC_LEN], lsdu[|lsdu| - MAC_LEN..];
    AuthConfInverse(E, key, sequence, link, tpci, [scf], body, mac, pdu.plain);
    AuthOnlyExact(E, key, sequence, link, tpci, body, mac);
    TpciBitsTwice(lsdu[0]);
    SameTpciBits(E, key, link, tpci, lsdu[0], scf, sequence, pdu.plain);
  }

  /**
   The decoder accepts a DATA telegram if and only if it is the securing, under its own control field and
   sequence number, of a plain text of at most 254 bytes, and that plain text is what it returns.
   */
  lemma DecodeDataExact(E: Cipher, key: Block, link: Link, lsdu: bytes, pdu: Pdu)
    requires IsDataSecure(lsdu) && lsdu[2] % 8 == SERVICE_DATA
    ensures Decode(E, key, link, lsdu) == Ok(pdu) <==>
      && 0 <= pdu.sequence < U48_LIMIT && |pdu.plain| <= MAX_PLAIN
      && pdu == PduOf(lsdu[2], pdu.sequence, None, pdu.plain)
      && lsdu == Secured(E, key, link, lsdu[0], lsdu[2], pdu.sequence, pdu.plain)
  {
    if |lsdu| >= 13 {
      DecodeDataSealed(E, key, link, lsdu, pdu);
      TpciOfFirst(lsdu[0]);
      SecuredParts(E, key, link, lsdu[0], lsdu[2], ReadU48(lsdu, 3), pdu.plain, lsdu);
    }
    if 0 <= pdu.sequence < U48_LIMIT {
      SecuredParts(E, key, link, lsdu[0], lsdu[2], pdu.sequence, pdu.plain, lsdu);
    }
  }

  lemma TpciOfFirst(first: byte)
    requires first % 4 == 3
    ensures first == TpciBits(first) + 3
  {
  }

  /**
   Decoding is the exact partial inverse of encoding: a telegram is the encoding of a request if and only
   if it decodes to that request's fields and its first and third bytes are ones the encoder writes.
   */
  lemma DecodeInvertsEncode(E: Cipher, key: bytes, link: Link, r: Request, lsdu: bytes)
    ensures Encode(E, key, link, r) == Ok(lsdu) <==>
      && Decode(E, key, link, lsdu) == Ok(PduOf(ControlField(r), r.sequence, None, r.plain))
      && r.plain != [] && lsdu[0] == TpciBits(r.tpci) + 3 && lsdu[2] == ControlField(r)
  {
    if |key| == 16 {
      if Encode(E, key, link, r) == Ok(lsdu) {
        EncodedDecodes(E, key, link, r);
      } else if Decode(E, key, link, lsdu) == Ok(PduOf(ControlField(r), r.sequence, None, r.plain)) {
        if r.plain != [] && lsdu[0] == TpciBits(r.tpci) + 3 && lsdu[2] == ControlField(r) {
          DecodedIsEncoded(E, key, link, r, lsdu);
        }
      }
    }
  }

  /** What the first byte and the control field of an encoding say back. */
  lemma EncodedHead(r: Request)
    ensures var first := TpciBits(r.tpci) + 3;
      first % 4 == 3 && TpciBits(first) == TpciBits(r.tpci) && ControlField(r) % 8 == SERVICE_DATA
  {
    TpciBitsTwice(r.tpci);
  }

  lemma EncodedDecodes(E: Cipher, key: Block, link: Link, r: Request)
    requires Encode(E, key, link, r).Ok?
    ensures var lsdu := Encode(E, key, link, r).value;
      && Decode(E, key, link, lsdu) == Ok(PduOf(ControlField(r), r.sequence, None, r.plain))
      && lsdu[0] == TpciBits(r.tpci) + 3 && lsdu[2] == ControlField(r)
  {
    var scf, lsdu := ControlField(r), Encode(E, key, link, r).value;
    EncodedHead(r);
    SecuredParts(E, key, link, r.tpci, scf, r.sequence, r.plain, lsdu);
    SameTpciBits(E, key, link, r.tpci, lsdu[0], scf, r.sequence, r.plain);
    DecodeDataExact(E, key, link, lsdu, PduOf(scf, r.sequence, None, r.plain));
  }

  lemma DecodedIsEncoded(E: Cipher, key: Block, link: Link, r: Request, lsdu: bytes)
    requires Decode(E, key, link, lsdu) == Ok(PduOf(ControlField(r), r.sequence, None, r.plain))
    requires lsdu[0] == TpciBits(r.tpci) + 3 && lsdu[2] == ControlField(r) && r.plain != []
    ensures Encode(E, key, link, r) == Ok(lsdu)
  {
    EncodedHead(r);
    DecodeDataExact(E, key, link, lsdu, PduOf(ControlField(r), r.sequence, None, r.plain));
    SameTpciBits(E, key, link, r.tpci, lsdu[0], ControlField(r), r.sequence, r.plain);
  }

  /**
   A SYNC_REQ is accepted if and only if its six cipher bytes and last four bytes are the encryption of
   the six-byte plain text returned, under the control field and serial number as additional data. Bytes
   between them play no part.
   */
  lemma DecodeSyncExact(E: Cipher, key: Block, link: Link, lsdu: bytes, pdu: Pdu)
    requires IsDataSecure(lsdu) && lsdu[2] % 8 == SERVICE_SYNC_REQ
    ensures Decode(E, key, link, lsdu) == Ok(pdu) <==>
      && |lsdu| >= 25 && AuthConf(lsdu[2])
      && pdu == PduOf(lsdu[2], ReadU48(lsdu, 3), Some(lsdu[9..15]), pdu.plain)
      && (lsdu[15..21], lsdu[|lsdu| - MAC_LEN..])
         == EncryptAuthConf(E, key, ReadU48(lsdu, 3), link, lsdu[0], [lsdu[2]] + lsdu[9..15], pdu.plain)
  {
    if |lsdu| >= 25 {
      TpciBitsTwice(lsdu[0]);
      AuthConfInverse(E, key, ReadU48(lsdu, 3), link, TpciBits(lsdu[0]), [lsdu[2]] + lsdu[9..15],
                      lsdu[15..21], lsdu[|lsdu| - MAC_LEN..], pdu.plain);
    }
  }

  /**
   The control field of an auth-only telegram is not authenticated: put any other DATA control field without
   auth+conf in its place, and the telegram is accepted as before, only the flags it announces change.
   */
  lemma AuthOnlyIgnoresControlField(E: Cipher, key: bytes, link: Link, lsdu: bytes, scf: byte)
    requires |lsdu| >= 3 && lsdu[2] % 8 == SERVICE_DATA && !AuthConf(lsdu[2])
    requires scf % 8 == SERVICE_DATA && !AuthConf(scf)
    ensures Decode(E, key, link, lsdu[2 := scf]) ==
      match Decode(E, key, link, lsdu)
      case Err(e) => Err(e)
      case Ok(pdu) => Ok(PduOf(scf, pdu.sequence, None, pdu.plain))
  {
    var changed := lsdu[2 := scf];
    if |lsdu| >= 13 {
      assert changed[9..] == lsdu[9..];
      assert changed[9..|lsdu| - MAC_LEN] == lsdu[9..|lsdu| - MAC_LEN];
      assert changed[|lsdu| - MAC_LEN..] == lsdu[|lsdu| - MAC_LEN..];
      assert ReadU48(changed, 3) == ReadU48(lsdu, 3);
    }
  }
}

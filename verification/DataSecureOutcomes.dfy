/**
 When the inbound Data Secure hook answers what, and when decoding and encoding refuse, read off the frame's
 fields and the key store's contents.
 */
module DataSecureOutcomes {
  import opened Bytes
  import opened Cemi
  import opened Crypto
  import opened DataSecure
  import opened DataSecureKeys
  import opened Wrappers
  import Apci

  // ---------- decoding and encoding ----------

  /** Bytes three and up that a control field allows for. */
  predicate WellFormed(lsdu: bytes) {
    && |lsdu| >= 3 && lsdu[0] % 4 == 3 && lsdu[1] == 0xf1
    && (if lsdu[2] % 8 == 0 then 13 <= |lsdu| <= 13 + 254
        else lsdu[2] % 8 == 2 && lsdu[2] / 16 % 8 == 1 && |lsdu| >= 25)
  }

  /** Some plain text is protected by this telegram. */
  ghost predicate Protects(E: Cipher, key: Block, link: Link, lsdu: bytes, plain: bytes)
    requires WellFormed(lsdu)
  {
    if lsdu[2] % 8 == 0 then
      |plain| <= 254 && lsdu == Secured(E, key, link, lsdu[0], lsdu[2], ReadU48(lsdu, 3), plain)
    else
      (lsdu[15..21], lsdu[|lsdu| - 4..])
      == EncryptAuthConf(E, key, ReadU48(lsdu, 3), link, lsdu[0], [lsdu[2]] + lsdu[9..15], plain)
  }

  /** A telegram decodes if and only if the key has sixteen bytes, its form is right and its MAC protects a text. */
  lemma DecodesExactly(E: Cipher, key: bytes, link: Link, lsdu: bytes)
    ensures Decode(E, key, link, lsdu).Ok?
       <==> |key| == 16 && WellFormed(lsdu) && exists plain :: Protects(E, key, link, lsdu, plain)
    ensures |key| == 16 && WellFormed(lsdu) ==> forall plain :: Protects(E, key, link, lsdu, plain) ==>
      Decode(E, key, link, lsdu) == Ok(Pdu(lsdu[2] % 8, lsdu[2] >= 0x80, lsdu[2] / 16 % 8 == 1, lsdu[2] / 8 % 2 == 1,
        ReadU48(lsdu, 3), if lsdu[2] % 8 == 0 then None else Some(lsdu[9..15]), plain))
  {
    if |key| == 16 && WellFormed(lsdu) {
      var scf, serial := lsdu[2], if lsdu[2] % 8 == 0 then None else Some(lsdu[9..15]);
      assert ToolAccess(scf) <==> scf >= 0x80;
      forall plain
        ensures Protects(E, key, link, lsdu, plain)
           <==> Decode(E, key, link, lsdu) == Ok(PduOf(scf, ReadU48(lsdu, 3), serial, plain))
      {
        var pdu := PduOf(scf, ReadU48(lsdu, 3), serial, plain);
        if scf % 8 == 0 {
          DecodeDataExact(E, key, link, lsdu, pdu);
        } else {
          DecodeSyncExact(E, key, link, lsdu, pdu);
        }
      }
      if Decode(E, key, link, lsdu).Ok? {
        var pdu := Decode(E, key, link, lsdu).value;
        DecodedFields(E, key, link, lsdu);
        assert Protects(E, key, link, lsdu, pdu.plain);
      }
    }
  }

  lemma DecodedFields(E: Cipher, key: Block, link: Link, lsdu: bytes)
    requires WellFormed(lsdu) && Decode(E, key, link, lsdu).Ok?
    ensures var pdu := Decode(E, key, link, lsdu).value;
      pdu == PduOf(lsdu[2], ReadU48(lsdu, 3), if lsdu[2] % 8 == 0 then None else Some(lsdu[9..15]), pdu.plain)
  {
    hide DecryptAuthConf, VerifyAuthOnly, ReadU48;
  }

  /** The reason a telegram is refused. */
  lemma RefusedBecause(E: Cipher, key: bytes, link: Link, lsdu: bytes)
    requires Decode(E, key, link, lsdu).Err?
    ensures Decode(E, key, link, lsdu).error ==
      if |key| != 16 then BadKeyLength
      else if |lsdu| < 3 || lsdu[0] % 4 != 3 || lsdu[1] != 0xf1 then NotDataSecure
      else if lsdu[2] % 8 != 0 && lsdu[2] % 8 != 2 then Unsupported
      else if lsdu[2] % 8 == 2 && lsdu[2] / 16 % 8 != 1 then SyncNotConfidential
      else if |lsdu| < (if lsdu[2] % 8 == 2 then 25 else 13) then TooShort
      else if lsdu[2] % 8 == 0 && |lsdu| > 267 then DataTooLong
      else MacFailed
  {
    hide ReadU48;
  }

  /** What the encoder refuses, and the control field it writes otherwise. */
  lemma EncodesExactly(E: Cipher, key: bytes, link: Link, r: Request)
    ensures Encode(E, key, link, r).Err? ==>
      Encode(E, key, link, r).error == (if |key| != 16 then BadKeyLength
                                        else if |r.plain| == 0 || |r.plain| > 254 then PlainOutOfRange
                                        else SequenceOutOfRange)
    ensures Encode(E, key, link, r).Ok?
       <==> |key| == 16 && 1 <= |r.plain| <= 254 && 0 <= r.sequence < 0x1_0000_0000_0000
    ensures Encode(E, key, link, r).Ok? ==>
      var lsdu := Encode(E, key, link, r).value;
      && |lsdu| == 13 + |r.plain| && lsdu[0] == r.tpci % 0x100 / 4 * 4 + 3 && lsdu[1] == 0xf1
      && lsdu[2] == (if r.authConf then 0x10 else 0) + (if r.toolAccess then 0x80 else 0)
      && ReadU48(lsdu, 3) == r.sequence
  {
    if Encode(E, key, link, r).Ok? {
      SecuredParts(E, key, link, r.tpci, ControlField(r), r.sequence, r.plain, Encode(E, key, link, r).value);
    }
  }

  // ---------- keys ----------

  /** The key stored for a telegram: by system broadcast, tool access, destination group or source. */
  predicate KeyStored(keys: Keys, d: LData, scf: byte, key: bytes) {
    if scf / 8 % 2 == 1 then keys.backbone == Some(key)
    else if scf >= 0x80 && keys.tool.Some? then keys.tool == Some(key)
    else if scf < 0x80 && d.flags / 0x80 % 2 == 1 then d.dst.raw in keys.group && keys.group[d.dst.raw] == key
    else d.src in keys.p2p && keys.p2p[d.src] == key
  }

  predicate NoKeyStored(keys: Keys, d: LData, scf: byte) {
    if scf / 8 % 2 == 1 then keys.backbone.None?
    else if scf >= 0x80 then keys.tool.None? && d.src !in keys.p2p
    else if d.flags / 0x80 % 2 == 1 then d.dst.raw !in keys.group
    else d.src !in keys.p2p
  }

  lemma ResolvesStored(keys: Keys, d: LData, scf: byte, key: bytes)
    ensures keys.Resolve(ContextOf(d, scf)) == Some(key) <==> KeyStored(keys, d, scf, key)
    ensures keys.Resolve(ContextOf(d, scf)).None? <==> NoKeyStored(keys, d, scf)
  {
    assert ToolAccess(scf) <==> scf >= 0x80;
  }

  // ---------- the hook ----------

  predicate IsSecured(d: LData) {
    d.payload.Some? && d.payload.value.Unknown? && d.payload.value.service == 0x3f1
  }

  /**
   A telegram passes through, untouched and with the tracker as it was, if and only if its payload is not a
   raw APDU with the Data Secure service or there is no key store.
   */
  lemma PassesExactly(E: Cipher, keys: Option<Keys>, tracker: Option<Tracker>, d: LData)
    ensures Handle(E, keys, tracker, d).outcome == Passthrough <==> !IsSecured(d) || keys.None?
    ensures !IsSecured(d) || keys.None? ==> Handle(E, keys, tracker, d) == Handled(Passthrough, tracker, d)
  {
  }

  /** A telegram the hook has a key for. */
  predicate Keyed(keys: Keys, d: LData, key: bytes) {
    IsSecured(d) && |d.payload.value.raw| >= 3 && KeyStored(keys, d, d.payload.value.raw[2], key)
  }

  /** Without one it is dropped as too short or for want of a key, and nothing changes. */
  lemma DroppedUnkeyed(E: Cipher, keys: Keys, tracker: Option<Tracker>, d: LData)
    requires IsSecured(d)
    ensures var h, raw := Handle(E, Some(keys), tracker, d), d.payload.value.raw;
      && (h.outcome == Dropped(SecuredTooShort) <==> |raw| < 3)
      && (h.outcome == Dropped(NoKey) <==> |raw| >= 3 && NoKeyStored(keys, d, raw[2]))
      && (h.outcome == Dropped(SecuredTooShort) || h.outcome == Dropped(NoKey) ==> h.tracker == tracker && h.data == d)
  {
    if |d.payload.value.raw| >= 3 {
      ResolvesStored(keys, d, d.payload.value.raw[2], []);
    }
  }

  /**
   With one: a telegram that protects no text under it is dropped for the decoder's reason, one of another
   service than DATA as such, one not above the tracked number as a replay; then a text of fewer than two
   bytes is no service, and any other is decrypted.
   */
  lemma KeyedOutcome(E: Cipher, keys: Keys, tracker: Option<Tracker>, d: LData, key: bytes)
    requires Keyed(keys, d, key)
    ensures var raw, link := d.payload.value.raw, Link(d.src, d.dst.raw, d.flags / 0x80 % 2 == 1);
      var pdu := Decode(E, key, link, raw);
      Handle(E, Some(keys), tracker, d).outcome ==
        if pdu.Err? then Dropped(DecodeFailed(pdu.error))
        else if raw[2] % 8 != 0 then Dropped(NotDataService)
        else if tracker.Some? && d.src in tracker.value && ReadU48(raw, 3) <= tracker.value[d.src] then Dropped(Replay)
        else if |raw| < 15 then Dropped(NotAnApci)
        else Decrypted
  {
    var raw := d.payload.value.raw;
    ResolvesStored(keys, d, raw[2], key);
    var link := LinkOf(d);
    if Decode(E, key, link, raw).Ok? {
      DecodesExactly(E, key, link, raw);
      DecodedFields(E, key, link, raw);
      if raw[2] % 8 == 0 {
        PlainLength(E, key, link, raw);
      }
    }
  }

  lemma PlainLength(E: Cipher, key: Block, link: Link, lsdu: bytes)
    requires WellFormed(lsdu) && lsdu[2] % 8 == 0 && Decode(E, key, link, lsdu).Ok?
    ensures |Decode(E, key, link, lsdu).value.plain| == |lsdu| - 13
  {
    DecodeDataExact(E, key, link, lsdu, Decode(E, key, link, lsdu).value);
  }
}

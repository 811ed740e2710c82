/**
 The frame format as a table of offsets and codes: which buffers the parsers accept, what each field is read
 from, and what stands where in print. Nothing here goes through a parser and a printer that could share a
 mistake.
 */
module FrameTable {
  import opened Bytes
  import opened Endpoints
  import opened Frame
  import opened Wrappers

  // ---------- acceptance ----------

  predicate HpaiAt(raw: bytes, off: nat) {
    off + 8 <= |raw| && raw[off] == 8 && (raw[off + 1] == 0x01 || raw[off + 1] == 0x02)
  }

  predicate CriAt(raw: bytes, off: nat) {
    off + 2 <= |raw| && off + raw[off] as int <= |raw|
    && (if raw[off + 1] == 0x04 then raw[off] == 4 || raw[off] == 6 else raw[off] == 2)
  }

  predicate CrdAt(raw: bytes, off: nat) {
    off + 2 <= |raw| && off + raw[off] as int <= |raw| && raw[off] == (if raw[off + 1] == 0x04 then 4 else 2)
  }

  /** The bodies the parser reads at offset six, by service type. */
  predicate BodyAt(t: int, raw: bytes)
    requires |raw| >= 6
  {
    if t == 0x0205 then HpaiAt(raw, 6) && HpaiAt(raw, 14) && CriAt(raw, 22)
    else if t == 0x0206 then |raw| >= 8 && (|raw| >= 16 ==> HpaiAt(raw, 8) && CrdAt(raw, 16))
    else if t == 0x0207 || t == 0x0209 then HpaiAt(raw, 8)
    else if t == 0x0208 || t == 0x020a then |raw| >= 8
    else if t == 0x0420 || t == 0x0421 then |raw| >= 10 && raw[6] == 4
    else if t == 0x0950 then |raw| >= 38
    else if t == 0x0951 then |raw| >= 46 && HpaiAt(raw, 6)
    else if t == 0x0952 then |raw| >= 56
    else if t == 0x0953 then |raw| >= 24 && 1 <= raw[7] <= 127
    else t == 0x0954 && |raw| >= 7
  }

  predicate KnownService(t: int) {
    t in {0x0205, 0x0206, 0x0207, 0x0208, 0x0209, 0x020a, 0x0420, 0x0421, 0x0950, 0x0951, 0x0952, 0x0953, 0x0954}
  }

  lemma NestedAccepted(raw: bytes, off: nat)
    requires off <= |raw|
    ensures ParseHpai(raw, off).Ok? <==> HpaiAt(raw, off)
    ensures ParseHpai(raw, off).Ok? ==> ParseHpai(raw, off).value.1 == 8
    ensures ParseCri(raw, off).Ok? <==> CriAt(raw, off)
    ensures ParseCrd(raw, off).Ok? <==> CrdAt(raw, off)
    ensures ParseHpai(raw, off).Err? ==> ParseHpai(raw, off).error == CouldNotParse
    ensures ParseCri(raw, off).Err? ==> ParseCri(raw, off).error == CouldNotParse
    ensures ParseCrd(raw, off).Err? ==> ParseCrd(raw, off).error == CouldNotParse
  {
    hide ReadU16;
  }

  lemma ConnectionAccepted(t: int, raw: bytes)
    requires |raw| >= 6 && (t == 0x0205 || t == 0x0206)
    ensures ParseBody(t, raw, 6).Ok? <==> BodyAt(t, raw)
    ensures ParseBody(t, raw, 6).Err? ==> ParseBody(t, raw, 6).error == CouldNotParse
  {
    hide ReadU16, ReadU48, ParseHpai, ParseCri, ParseCrd, HpaiAt, CriAt, CrdAt;
    NestedAccepted(raw, 6);
    if |raw| >= 8 {
      NestedAccepted(raw, 8);
    }
    if |raw| >= 14 {
      NestedAccepted(raw, 14);
    }
    if |raw| >= 16 {
      NestedAccepted(raw, 16);
    }
    if |raw| >= 22 {
      NestedAccepted(raw, 22);
    }
    TooShortForEndpoint(raw);
  }

  lemma BodyAccepted(t: int, raw: bytes)
    requires |raw| >= 6
    ensures ParseBody(t, raw, 6).Ok? <==> BodyAt(t, raw)
    ensures ParseBody(t, raw, 6).Err? ==>
      ParseBody(t, raw, 6).error == (if KnownService(t) then CouldNotParse else Unsupported(t))
  {
    hide ReadU16, ReadU48, ParseHpai, ParseCri, ParseCrd, HpaiAt, CriAt, CrdAt;
    if t == 0x0205 || t == 0x0206 {
      ConnectionAccepted(t, raw);
    } else {
      NestedAccepted(raw, 6);
      if |raw| >= 8 {
        NestedAccepted(raw, 8);
      }
      TooShortForEndpoint(raw);
    }
  }

  lemma TooShortForEndpoint(raw: bytes)
    ensures |raw| < 14 ==> !HpaiAt(raw, 6)
    ensures |raw| < 16 ==> !HpaiAt(raw, 8)
    ensures |raw| < 22 ==> !HpaiAt(raw, 14)
  {
  }

  /** A frame is accepted if and only if header and body are in form and the header claims no more than there is. */
  lemma FrameAccepted(data: bytes)
    ensures ParseFrame(data).Ok? <==>
      && |data| >= 6 && data[0] == 0x06 && data[1] == 0x10 && ReadU16(data, 4) <= |data|
      && BodyAt(ReadU16(data, 2), data)
    ensures ParseFrame(data).Err? ==>
      && (ParseFrame(data).error == Incomplete <==> |data| < 6)
      && (ParseFrame(data).error.Unsupported? <==>
            && |data| >= 6 && data[0] == 0x06 && data[1] == 0x10 && ReadU16(data, 4) <= |data|
            && !KnownService(ReadU16(data, 2)))
      && (ParseFrame(data).error.Unsupported? ==> ParseFrame(data).error.serviceType == ReadU16(data, 2))
    ensures ParseFrame(data).Ok? ==>
      ParseFrame(data).value.0.header == Header(ReadU16(data, 2), ReadU16(data, 4))
  {
    hide ParseBody, BodyAt;
    if |data| >= 6 {
      BodyAccepted(ReadU16(data, 2), data);
    }
  }

  // ---------- connection responses ----------

  /** A response of any status, printed in full, parses to itself; the short form gets a route-back endpoint. */
  lemma ResponseParsed(raw: bytes, channel: byte, status: byte, h: Hpai, c: Crd)
    requires h.Valid() && c.Canonical() && |raw| >= 8
    ensures |raw| == 16 + c.Length() as int && raw[6..] == [channel, status] + h.ToKnx() + c.ToKnx() ==>
      ParseBody(0x0206, raw, 6) == Ok((ConnectResponse(channel, status, h, c), |raw| - 6))
    ensures |raw| < 16 ==>
      var routeBack := Hpai([0, 0, 0, 0], 0, 0x01);
      ParseBody(0x0206, raw, 6) == Ok((ConnectResponse(raw[6], raw[7], routeBack, Crd(0x04, None)), 2))
  {
    assert Zeros(4) == [0, 0, 0, 0];
    if |raw| == 16 + c.Length() as int && raw[6..] == [channel, status] + h.ToKnx() + c.ToKnx() {
      var head, d, tail := [channel, status], h.ToKnx(), c.ToKnx();
      assert raw[6] == raw[6..][0] && raw[7] == raw[6..][1];
      NestedAt(raw, 6, head, d, tail);
      assert (head + d) + tail + [] == head + d + tail;
      NestedAt(raw, 6, head + d, tail, []);
      HpaiParsePrint(raw, 8, h);
      CrdRoundTrip(raw, 16, c);
    }
  }

  /** An error response prints two bytes behind a header that announces a full body. */
  lemma ErrorResponsePrinted(channel: byte, status: byte, h: Hpai, c: Crd)
    requires h.Valid() && c.Printable() && status != 0x00
    ensures var b := ConnectResponse(channel, status, h, c);
      b.Printable() && Print(b) == [0x06, 0x10, 0x02, 0x06, 0x00, 16 + (if c.connectionType == 0x04 then 4 else 2),
                                    channel, status]
  {
  }

  // ---------- print ----------

  /** An endpoint is its length, the protocol, four address bytes and the port, high byte first. */
  lemma HpaiBytes(h: Hpai)
    requires h.Valid()
    ensures h.ToKnx() == [0x08, h.protocol, h.ip[0], h.ip[1], h.ip[2], h.ip[3], h.port / 0x100, h.port % 0x100]
  {
    assert h.ip == [h.ip[0], h.ip[1], h.ip[2], h.ip[3]];
  }

  /** CRI and CRD by connection type and address; other connection types carry neither. */
  lemma CriBytes(c: Cri)
    requires c.Printable()
    ensures c.ToKnx() ==
      if c.connectionType != 0x04 then [2, c.connectionType]
      else if c.address.None? then [4, 0x04, c.knxLayer, 0x00]
      else [6, 0x04, c.knxLayer, 0x00, c.address.value / 0x100, c.address.value % 0x100]
  {
  }

  lemma CrdBytes(c: Crd)
    requires c.Printable()
    ensures c.ToKnx() ==
      if c.connectionType != 0x04 then [2, c.connectionType]
      else if c.address.None? then [4, 0x04, 0x00, 0x00]
      else [4, 0x04, c.address.value / 0x100, c.address.value % 0x100]
  {
  }

  /** The header in front of every body. */
  lemma HeaderBytes(b: Body)
    requires b.Printable()
    ensures var raw, n := Print(b), 6 + b.Length();
      |raw| >= 6 && raw[..6] == [0x06, 0x10, b.ServiceType() / 0x100, b.ServiceType() % 0x100, n / 0x100, n % 0x100]
  {
  }

  // ---------- fields ----------

  /** Which byte each field of an accepted body is read from; channel bodies and sessions. */
  lemma FieldsRead(t: int, raw: bytes)
    requires |raw| >= 6 && ParseBody(t, raw, 6).Ok?
    ensures var b := ParseBody(t, raw, 6).value.0;
      && (t == 0x0207 ==> b.ConnectionStateRequest? && b.channel == raw[6])
      && (t == 0x0208 ==> b == ConnectionStateResponse(raw[6], raw[7]))
      && (t == 0x0209 ==> b.DisconnectRequest? && b.channel == raw[6])
      && (t == 0x020a ==> b == DisconnectResponse(raw[6], raw[7]))
      && (t == 0x0206 ==> b.ConnectResponse? && b.channel == raw[6] && b.status == raw[7])
      && (t == 0x0420 ==> b == TunnellingRequest(raw[7], raw[8], raw[10..]))
      && (t == 0x0421 ==> b == TunnellingAck(raw[7], raw[8], raw[9]))
      && (t == 0x0950 ==> b.SecureWrapper? && b.sessionId == ReadU16(raw, 6) && b.sequenceId == ReadU48(raw, 8)
                          && b.serialNumber == ReadU48(raw, 14) && b.messageTag == ReadU16(raw, 20)
                          && b.encryptedFrame == raw[22..|raw| - 16] && b.mac == raw[|raw| - 16..])
      && (t == 0x0951 ==> b.SessionRequest? && b.publicKey == raw[14..46])
      && (t == 0x0952 ==> b == SessionResponse(ReadU16(raw, 6), raw[8..40], raw[40..56]))
      && (t == 0x0953 ==> b == SessionAuthenticate(raw[7], raw[8..24]))
      && (t == 0x0954 ==> b == SessionStatus(raw[6]))
  {
    hide ReadU16, ReadU48;
  }

  /** The nested structures: endpoints at fixed places, CRI and CRD behind them. */
  lemma NestedRead(t: int, raw: bytes)
    requires |raw| >= 6 && ParseBody(t, raw, 6).Ok?
    ensures var b := ParseBody(t, raw, 6).value.0;
      && (t == 0x0205 ==> b.ConnectRequest? && EndpointAt(raw, 6, b.control) && EndpointAt(raw, 14, b.data)
                          && b.cri.connectionType == raw[23]
                          && b.cri.knxLayer == (if raw[23] == 0x04 then raw[24] else 0x02)
                          && b.cri.address == (if raw[22] == 6 then Some(ReadU16(raw, 26)) else None))
      && (t == 0x0206 && |raw| >= 16 ==>
            b.ConnectResponse? && EndpointAt(raw, 8, b.data) && b.crd.connectionType == raw[17]
            && b.crd.address == (if raw[17] == 0x04 then Some(ReadU16(raw, 18)) else None))
      && (t == 0x0207 ==> b.ConnectionStateRequest? && EndpointAt(raw, 8, b.control))
      && (t == 0x0209 ==> b.DisconnectRequest? && EndpointAt(raw, 8, b.control))
      && (t == 0x0951 ==> b.SessionRequest? && EndpointAt(raw, 6, b.control))
  {
    hide ReadU16, ReadU48;
  }

  predicate EndpointAt(raw: bytes, off: nat, h: Hpai) {
    off + 8 <= |raw| && h == Hpai(raw[off + 2..off + 6], ReadU16(raw, off + 6), raw[off + 1])
  }
}

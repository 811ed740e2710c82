/**
 KNX/IP frames: the six-byte header, the bodies and their dispatch by service type
 (src/core/knxipHeader.ts, src/core/knxipFrame.ts, src/core/bodies).
 */
module Frame {
  import opened Bytes
  import opened Endpoints
  import opened Wrappers

  const HEADER_LENGTH := 6
  const VERSION_10: byte := 0x10

  const CONNECT_REQUEST := 0x0205
  const CONNECT_RESPONSE := 0x0206
  const CONNECTIONSTATE_REQUEST := 0x0207
  const CONNECTIONSTATE_RESPONSE := 0x0208
  const DISCONNECT_REQUEST := 0x0209
  const DISCONNECT_RESPONSE := 0x020a
  const TUNNELLING_REQUEST := 0x0420
  const TUNNELLING_ACK := 0x0421
  const SECURE_WRAPPER := 0x0950
  const SESSION_REQUEST := 0x0951
  const SESSION_RESPONSE := 0x0952
  const SESSION_AUTHENTICATE := 0x0953
  const SESSION_STATUS := 0x0954

  const E_NO_ERROR: byte := 0x00
  const PUBLIC_KEY_LENGTH := 32
  const MAC_LENGTH := 16
  const WRAPPER_OVERHEAD := 32

  // ---------- header ----------

  datatype Header = Header(serviceType: int, totalLength: int) {

    predicate Printable() {
      0 <= serviceType < U16_LIMIT && 0 <= totalLength < U16_LIMIT
    }

    function ToKnx(): (b: bytes)
      requires Printable()
      ensures |b| == HEADER_LENGTH
    {
      [HEADER_LENGTH, VERSION_10] + U16(serviceType) + U16(totalLength)
    }
  }

  function ParseHeader(raw: bytes): (r: Result<Header, ParseError>)
    ensures r.Ok? ==> |raw| >= HEADER_LENGTH && r.value.Printable()
  {
    if |raw| < HEADER_LENGTH then Err(Incomplete)
    else if raw[0] != HEADER_LENGTH then Err(CouldNotParse)
    else if raw[1] != VERSION_10 then Err(CouldNotParse)
    else Ok(Header(ReadU16(raw, 2), ReadU16(raw, 4)))
  }

  lemma HeaderParsePrint(raw: bytes, h: Header)
    ensures ParseHeader(raw) == Ok(h) <==> h.Printable() && At(raw, 0, h.ToKnx())
  {
    if h.Printable() && At(raw, 0, h.ToKnx()) {
      var b := h.ToKnx();
      AtReads(raw, 0, b);
      assert b == b[..2] + U16(h.serviceType) + b[4..] == b[..4] + U16(h.totalLength) + [];
      U16RoundTrip(h.serviceType, b[..2], b[4..]);
      U16RoundTrip(h.totalLength, b[..4], []);
      assert ReadU16(raw, 2) == ReadU16(b, 2) && ReadU16(raw, 4) == ReadU16(b, 4);
    }
    if ParseHeader(raw) == Ok(h) {
      U16Print(raw, 2);
      U16Print(raw, 4);
      assert raw[0..6] == [raw[0], raw[1]] + raw[2..4] + raw[4..6];
    }
  }

  /** Parsing looks at the first six bytes only. */
  lemma HeaderOfPrefix(raw: bytes, more: bytes)
    requires |raw| >= HEADER_LENGTH
    ensures ParseHeader(raw + more) == ParseHeader(raw)
  {
    assert forall i :: 0 <= i < 6 ==> (raw + more)[i] == raw[i];
  }

  // ---------- bodies ----------

  datatype Body =
    | ConnectRequest(control: Hpai, data: Hpai, cri: Cri)
    | ConnectResponse(channel: byte, status: byte, data: Hpai, crd: Crd)
    | ConnectionStateRequest(channel: byte, control: Hpai)
    | ConnectionStateResponse(channel: byte, status: byte)
    | DisconnectRequest(channel: byte, control: Hpai)
    | DisconnectResponse(channel: byte, status: byte)
    | TunnellingRequest(channel: byte, sequence: byte, rawCemi: bytes)
    | TunnellingAck(channel: byte, sequence: byte, status: byte)
    | SecureWrapper(sessionId: int, sequenceId: int, serialNumber: int, messageTag: int,
                    encryptedFrame: bytes, mac: bytes)
    | SessionRequest(control: Hpai, publicKey: bytes)
    | SessionResponse(sessionId: int, publicKey: bytes, mac: bytes)
    | SessionAuthenticate(userId: byte, mac: bytes)
    | SessionStatus(status: byte)
  {
    /** The constructors' checks and the ranges of the integer writers: what the body printer accepts. */
    predicate Writable() {
      match this
      case ConnectRequest(control, data, cri) => control.Valid() && data.Valid() && cri.Printable()
      case ConnectResponse(_, _, data, crd) => data.Valid() && crd.Printable()
      case ConnectionStateRequest(_, control) => control.Valid()
      case DisconnectRequest(_, control) => control.Valid()
      case SecureWrapper(sessionId, sequenceId, serialNumber, messageTag, _, mac) =>
        && 0 <= sessionId < U16_LIMIT && 0 <= sequenceId < U48_LIMIT
        && 0 <= serialNumber < U48_LIMIT && 0 <= messageTag < U16_LIMIT && |mac| == MAC_LENGTH
      case SessionRequest(control, publicKey) => control.Valid() && |publicKey| == PUBLIC_KEY_LENGTH
      case SessionResponse(sessionId, publicKey, mac) =>
        0 <= sessionId < U16_LIMIT && |publicKey| == PUBLIC_KEY_LENGTH && |mac| == MAC_LENGTH
      case SessionAuthenticate(userId, mac) => 1 <= userId <= 127 && |mac| == MAC_LENGTH
      case _ => true
    }

    /** Writable, and short enough for the header's total length. */
    predicate Printable() {
      HEADER_LENGTH + Length() < U16_LIMIT && Writable()
    }

    function ServiceType(): (t: int)
      ensures 0 <= t < U16_LIMIT
    {
      match this
      case ConnectRequest(_, _, _) => CONNECT_REQUEST
      case ConnectResponse(_, _, _, _) => CONNECT_RESPONSE
      case ConnectionStateRequest(_, _) => CONNECTIONSTATE_REQUEST
      case ConnectionStateResponse(_, _) => CONNECTIONSTATE_RESPONSE
      case DisconnectRequest(_, _) => DISCONNECT_REQUEST
      case DisconnectResponse(_, _) => DISCONNECT_RESPONSE
      case TunnellingRequest(_, _, _) => TUNNELLING_REQUEST
      case TunnellingAck(_, _, _) => TUNNELLING_ACK
      case SecureWrapper(_, _, _, _, _, _) => SECURE_WRAPPER
      case SessionRequest(_, _) => SESSION_REQUEST
      case SessionResponse(_, _, _) => SESSION_RESPONSE
      case SessionAuthenticate(_, _) => SESSION_AUTHENTICATE
      case SessionStatus(_) => SESSION_STATUS
    }

    /** `calculatedLength`. */
    function Length(): nat {
      match this
      case ConnectRequest(_, _, cri) => 2 * HPAI_LENGTH + cri.Length()
      case ConnectResponse(_, _, _, crd) => 2 + HPAI_LENGTH + crd.Length()
      case ConnectionStateRequest(_, _) => 2 + HPAI_LENGTH
      case ConnectionStateResponse(_, _) => 2
      case DisconnectRequest(_, _) => 2 + HPAI_LENGTH
      case DisconnectResponse(_, _) => 2
      case TunnellingRequest(_, _, rawCemi) => 4 + |rawCemi|
      case TunnellingAck(_, _, _) => 4
      case SecureWrapper(_, _, _, _, encryptedFrame, _) => WRAPPER_OVERHEAD + |encryptedFrame|
      case SessionRequest(_, _) => HPAI_LENGTH + PUBLIC_KEY_LENGTH
      case SessionResponse(_, _, _) => 2 + PUBLIC_KEY_LENGTH + MAC_LENGTH
      case SessionAuthenticate(_, _) => 2 + MAC_LENGTH
      case SessionStatus(_) => 1
    }

    function ToKnx(): bytes
      requires Writable()
    {
      match this
      case ConnectRequest(control, data, cri) => control.ToKnx() + data.ToKnx() + cri.ToKnx()
      case ConnectResponse(channel, status, data, crd) =>
        if status != E_NO_ERROR then [channel, status] else [channel, status] + data.ToKnx() + crd.ToKnx()
      case ConnectionStateRequest(channel, control) => [channel, 0x00] + control.ToKnx()
      case ConnectionStateResponse(channel, status) => [channel, status]
      case DisconnectRequest(channel, control) => [channel, 0x00] + control.ToKnx()
      case DisconnectResponse(channel, status) => [channel, status]
      case TunnellingRequest(channel, sequence, rawCemi) => [4, channel, sequence, 0x00] + rawCemi
      case TunnellingAck(channel, sequence, status) => [4, channel, sequence, status]
      case SecureWrapper(sessionId, sequenceId, serialNumber, messageTag, encryptedFrame, mac) =>
        U16(sessionId) + U48(sequenceId) + U48(serialNumber) + U16(messageTag) + encryptedFrame + mac
      case SessionRequest(control, publicKey) => control.ToKnx() + publicKey
      case SessionResponse(sessionId, publicKey, mac) => U16(sessionId) + publicKey + mac
      case SessionAuthenticate(userId, mac) => [0x00, userId] + mac
      case SessionStatus(status) => [status]
    }

    /** Nothing is dropped or made up: no error response, and address fields as the type asks. */
    predicate Complete() {
      match this
      case ConnectRequest(_, _, cri) => cri.Canonical()
      case ConnectResponse(_, status, _, crd) => status == E_NO_ERROR && crd.Canonical()
      case _ => true
    }

    /** The bodies that survive printing and parsing. */
    predicate Canonical() {
      Printable() && Complete()
    }
  }

  /**
   The length a body announces is the length it prints, except that a CONNECT_RESPONSE with an error
   status announces its endpoint and CRD and prints neither.
   */
  lemma LengthAgrees(b: Body)
    requires b.Writable()
    ensures |b.ToKnx()| == b.Length() <==> !(b.ConnectResponse? && b.status != E_NO_ERROR)
  {
  }

  // ---------- parsing bodies ----------

  function ParseConnectRequest(raw: bytes, off: nat): Parse<Body>
    requires off <= |raw|
  {
    var ctrl :- ParseHpai(raw, off);
    var dat :- ParseHpai(raw, off + ctrl.1);
    var cri :- ParseCri(raw, off + ctrl.1 + dat.1);
    Ok((ConnectRequest(ctrl.0, dat.0, cri.0), ctrl.1 + dat.1 + cri.1))
  }

  const ROUTE_BACK := Hpai(Zeros(4), 0, IPV4_UDP)

  /** Short error responses stand for a route-back endpoint and an empty tunnel CRD. */
  function ParseConnectResponse(raw: bytes, off: nat): Parse<Body>
    requires off <= |raw|
  {
    var available := |raw| - off;
    if available < 2 then Err(CouldNotParse)
    else if available < 2 + HPAI_LENGTH then
      Ok((ConnectResponse(raw[off], raw[off + 1], ROUTE_BACK, Crd(TUNNEL_CONNECTION, None)), 2))
    else
      var hpai :- ParseHpai(raw, off + 2);
      var crd :- ParseCrd(raw, off + 2 + hpai.1);
      Ok((ConnectResponse(raw[off], raw[off + 1], hpai.0, crd.0), 2 + hpai.1 + crd.1))
  }

  function ParseTunnellingRequest(raw: bytes, off: nat): Parse<Body>
    requires off <= |raw|
  {
    if |raw| - off < 4 || raw[off] != 4 then Err(CouldNotParse)
    else Ok((TunnellingRequest(raw[off + 1], raw[off + 2], raw[off + 4..]), |raw| - off))
  }

  function ParseTunnellingAck(raw: bytes, off: nat): Parse<Body>
    requires off <= |raw|
  {
    if |raw| - off < 4 || raw[off] != 4 then Err(CouldNotParse)
    else Ok((TunnellingAck(raw[off + 1], raw[off + 2], raw[off + 3]), 4))
  }

  /** The encrypted frame is everything between the 16-byte head and the last 16 bytes. */
  function ParseSecureWrapper(raw: bytes, off: nat): Parse<Body>
    requires off <= |raw|
  {
    var available := |raw| - off;
    if available < WRAPPER_OVERHEAD then Err(CouldNotParse)
    else
      Ok((SecureWrapper(ReadU16(raw, off), ReadU48(raw, off + 2), ReadU48(raw, off + 8), ReadU16(raw, off + 14),
                        raw[off + 16..|raw| - 16], raw[|raw| - 16..]), available))
  }

  function ParseSessionRequest(raw: bytes, off: nat): Parse<Body>
    requires off <= |raw|
  {
    if |raw| - off < HPAI_LENGTH + PUBLIC_KEY_LENGTH then Err(CouldNotParse)
    else
      var hpai :- ParseHpai(raw, off);
      var key := off + hpai.1;
      Ok((SessionRequest(hpai.0, raw[key..key + PUBLIC_KEY_LENGTH]), hpai.1 + PUBLIC_KEY_LENGTH))
  }

  function ParseSessionResponse(raw: bytes, off: nat): Parse<Body>
    requires off <= |raw|
  {
    if |raw| - off < 50 then Err(CouldNotParse)
    else Ok((SessionResponse(ReadU16(raw, off), raw[off + 2..off + 34], raw[off + 34..off + 50]), 50))
  }

  function ParseSessionAuthenticate(raw: bytes, off: nat): Parse<Body>
    requires off <= |raw|
  {
    if |raw| - off < 18 then Err(CouldNotParse)
    else if raw[off + 1] < 1 || raw[off + 1] > 127 then Err(CouldNotParse)
    else Ok((SessionAuthenticate(raw[off + 1], raw[off + 2..off + 18]), 18))
  }

  /** The channel-and-endpoint shape of CONNECTIONSTATE_REQUEST and DISCONNECT_REQUEST. */
  function ParseChannelEndpoint(raw: bytes, off: nat): Parse<(byte, Hpai)>
    requires off <= |raw|
  {
    if |raw| - off < 2 + HPAI_LENGTH then Err(CouldNotParse)
    else
      var hpai :- ParseHpai(raw, off + 2);
      Ok(((raw[off], hpai.0), 2 + hpai.1))
  }

  function ParseBody(serviceType: int, raw: bytes, off: nat): Parse<Body>
    requires off <= |raw|
  {
    var available := |raw| - off;
    if serviceType == CONNECT_REQUEST then ParseConnectRequest(raw, off)
    else if serviceType == CONNECT_RESPONSE then ParseConnectResponse(raw, off)
    else if serviceType == CONNECTIONSTATE_REQUEST then
      var p :- ParseChannelEndpoint(raw, off);
      Ok((ConnectionStateRequest(p.0.0, p.0.1), p.1))
    else if serviceType == CONNECTIONSTATE_RESPONSE then
      if available < 2 then Err(CouldNotParse) else Ok((ConnectionStateResponse(raw[off], raw[off + 1]), 2))
    else if serviceType == DISCONNECT_REQUEST then
      var p :- ParseChannelEndpoint(raw, off);
      Ok((DisconnectRequest(p.0.0, p.0.1), p.1))
    else if serviceType == DISCONNECT_RESPONSE then
      if available < 2 then Err(CouldNotParse) else Ok((DisconnectResponse(raw[off], raw[off + 1]), 2))
    else if serviceType == TUNNELLING_REQUEST then ParseTunnellingRequest(raw, off)
    else if serviceType == TUNNELLING_ACK then ParseTunnellingAck(raw, off)
    else if serviceType == SECURE_WRAPPER then ParseSecureWrapper(raw, off)
    else if serviceType == SESSION_REQUEST then ParseSessionRequest(raw, off)
    else if serviceType == SESSION_RESPONSE then ParseSessionResponse(raw, off)
    else if serviceType == SESSION_AUTHENTICATE then ParseSessionAuthenticate(raw, off)
    else if serviceType == SESSION_STATUS then
      if available < 1 then Err(CouldNotParse) else Ok((SessionStatus(raw[off]), 1))
    else Err(Unsupported(serviceType))
  }

  // ---------- frames ----------

  datatype KnxFrame = KnxFrame(header: Header, body: Body) {

    predicate Printable() {
      header.Printable() && body.Printable()
    }

    function ToKnx(): bytes
      requires Printable()
    {
      header.ToKnx() + body.ToKnx()
    }
  }

  /** Build the header from the body. */
  function FromBody(b: Body): KnxFrame {
    KnxFrame(Header(b.ServiceType(), HEADER_LENGTH + b.Length()), b)
  }

  /** A frame built from a printable body, as bytes. */
  function Print(b: Body): bytes
    requires b.Printable()
  {
    FromBody(b).ToKnx()
  }

  function ParseFrame(data: bytes): Parse<KnxFrame> {
    var header :- ParseHeader(data);
    if header.totalLength > |data| then Err(CouldNotParse)
    else
      var body :- ParseBody(header.serviceType, data, HEADER_LENGTH);
      Ok((KnxFrame(header, body.0), HEADER_LENGTH + body.1))
  }

  // ---------- printing then parsing ----------

  /** What a printed frame looks like to the body parser. */
  lemma PrintedLayout(b: Body)
    requires b.Printable()
    ensures var raw := Print(b);
      && ParseHeader(raw) == Ok(FromBody(b).header)
      && |raw| == HEADER_LENGTH + |b.ToKnx()| && raw[HEADER_LENGTH..] == b.ToKnx()
  {
    var raw, h := Print(b), FromBody(b).header;
    assert raw[0..6] == h.ToKnx();
    HeaderParsePrint(raw, h);
  }

  lemma NestedAt(raw: bytes, off: nat, before: bytes, part: bytes, after: bytes)
    requires off <= |raw| && raw[off..] == before + part + after
    ensures At(raw, off + |before|, part)
  {
    var whole := before + part + after;
    assert raw[off + |before|..off + |before| + |part|] == whole[|before|..|before| + |part|] == part;
  }

  lemma ConnectRequestRoundTrip(raw: bytes, b: Body)
    requires b.ConnectRequest? && b.Printable()
    requires |raw| == 6 + b.Length() && raw[6..] == b.ToKnx()
    ensures ParseConnectRequest(raw, 6) == Ok((b, b.Length())) <==> b.Canonical()
  {
    hide Hpai.ToKnx, Cri.ToKnx, ParseHpai, ParseCri;
    var c, d, i := b.control.ToKnx(), b.data.ToKnx(), b.cri.ToKnx();
    NestedAt(raw, 6, [], c, d + i);
    assert [] + c + (d + i) == c + d + i;
    NestedAt(raw, 6, c, d, i);
    assert (c + d) + i + [] == c + d + i;
    NestedAt(raw, 6, c + d, i, []);
    HpaiParsePrint(raw, 6, b.control);
    HpaiParsePrint(raw, 14, b.data);
    CriRoundTrip(raw, 22, b.cri);
  }

  lemma ConnectResponseRoundTrip(raw: bytes, b: Body)
    requires b.ConnectResponse? && b.Printable() && b.status == E_NO_ERROR
    requires |raw| == 6 + b.Length() && raw[6..] == b.ToKnx()
    ensures ParseConnectResponse(raw, 6) == Ok((b, b.Length())) <==> b.Canonical()
  {
    var head, d, c := [b.channel, b.status], b.data.ToKnx(), b.crd.ToKnx();
    assert raw[6] == raw[6..][0] && raw[7] == raw[6..][1];
    NestedAt(raw, 6, head, d, c);
    assert (head + d) + c + [] == head + d + c;
    NestedAt(raw, 6, head + d, c, []);
    HpaiParsePrint(raw, 8, b.data);
    CrdRoundTrip(raw, 16, b.crd);
  }

  lemma SecureWrapperRoundTrip(raw: bytes, b: Body)
    requires b.SecureWrapper? && b.Printable()
    requires |raw| == 6 + b.Length() && raw[6..] == b.ToKnx()
    ensures ParseSecureWrapper(raw, 6) == Ok((b, b.Length()))
  {
    hide U16, U48, ReadU16, ReadU48;
    var s, q, n, t := U16(b.sessionId), U48(b.sequenceId), U48(b.serialNumber), U16(b.messageTag);
    var e, m := b.encryptedFrame, b.mac;
    var h := raw[..6];
    assert raw == h + (s + q + n + t + e + m);
    assert raw == h + s + (q + n + t + e + m);
    U16RoundTrip(b.sessionId, h, q + n + t + e + m);
    assert raw == (h + s) + q + (n + t + e + m);
    U48RoundTrip(b.sequenceId, h + s, n + t + e + m);
    assert raw == (h + s + q) + n + (t + e + m);
    U48RoundTrip(b.serialNumber, h + s + q, t + e + m);
    assert raw == (h + s + q + n) + t + (e + m);
    U16RoundTrip(b.messageTag, h + s + q + n, e + m);
    assert raw == (h + s + q + n + t) + e + m;
    assert raw[22..|raw| - 16] == e && raw[|raw| - 16..] == m;
  }

  lemma ChannelEndpointRoundTrip(raw: bytes, channel: byte, h: Hpai)
    requires h.Valid() && |raw| == 16 && raw[6..] == [channel, 0x00] + h.ToKnx()
    ensures ParseChannelEndpoint(raw, 6) == Ok(((channel, h), 10))
  {
    assert raw[6] == raw[6..][0];
    assert [channel, 0x00] + h.ToKnx() + [] == [channel, 0x00] + h.ToKnx();
    NestedAt(raw, 6, [channel, 0x00], h.ToKnx(), []);
    HpaiParsePrint(raw, 8, h);
  }

  lemma SessionBodiesRoundTrip(raw: bytes, b: Body)
    requires b.SessionRequest? || b.SessionResponse? || b.SessionAuthenticate?
    requires b.Printable() && |raw| == 6 + b.Length() && raw[6..] == b.ToKnx()
    ensures ParseBody(b.ServiceType(), raw, 6) == Ok((b, b.Length()))
  {
    hide U16, ReadU16, ParseHpai, Hpai.ToKnx;
    match b
    case SessionRequest(control, publicKey) =>
      NestedAt(raw, 6, [], control.ToKnx(), publicKey);
      assert [] + control.ToKnx() + publicKey == control.ToKnx() + publicKey;
      HpaiParsePrint(raw, 6, control);
      assert raw[14..46] == raw[6..][8..] == publicKey;
    case SessionResponse(sessionId, publicKey, mac) =>
      assert raw == raw[..6] + U16(sessionId) + (publicKey + mac);
      U16RoundTrip(sessionId, raw[..6], publicKey + mac);
      assert raw[8..40] == raw[6..][2..34] == publicKey;
      assert raw[40..56] == raw[6..][34..] == mac;
    case SessionAuthenticate(userId, mac) =>
      assert raw[7] == raw[6..][1];
      assert raw[8..24] == raw[6..][2..] == mac;
  }

  lemma BodyRoundTrip(raw: bytes, b: Body)
    requires b.Printable() && !(b.ConnectResponse? && b.status != E_NO_ERROR)
    requires |raw| == 6 + b.Length() && raw[6..] == b.ToKnx()
    ensures ParseBody(b.ServiceType(), raw, 6) == Ok((b, b.Length())) <==> b.Canonical()
  {
    match b
    case ConnectRequest(_, _, _) => ConnectRequestRoundTrip(raw, b);
    case ConnectResponse(_, _, _, _) => ConnectResponseRoundTrip(raw, b);
    case ConnectionStateRequest(channel, control) => ChannelEndpointRoundTrip(raw, channel, control);
    case DisconnectRequest(channel, control) => ChannelEndpointRoundTrip(raw, channel, control);
    case ConnectionStateResponse(_, _) => assert raw[6] == raw[6..][0] && raw[7] == raw[6..][1];
    case DisconnectResponse(_, _) => assert raw[6] == raw[6..][0] && raw[7] == raw[6..][1];
    case TunnellingRequest(_, _, rawCemi) =>
      assert raw[6] == raw[6..][0] && raw[7] == raw[6..][1] && raw[8] == raw[6..][2];
      assert raw[10..] == raw[6..][4..] == rawCemi;
    case TunnellingAck(_, _, _) =>
      assert raw[6] == raw[6..][0] && raw[7] == raw[6..][1] && raw[8] == raw[6..][2] && raw[9] == raw[6..][3];
    case SecureWrapper(_, _, _, _, _, _) => SecureWrapperRoundTrip(raw, b);
    case SessionStatus(_) => assert raw[6] == raw[6..][0];
    case _ => SessionBodiesRoundTrip(raw, b);
  }

  /**
   Printing a frame and parsing it gives the frame back, with every byte read, if and only if its
   body is canonical.
   */
  lemma FrameRoundTrip(b: Body)
    requires b.Printable()
    ensures ParseFrame(Print(b)) == Ok((FromBody(b), HEADER_LENGTH + b.Length())) <==> b.Canonical()
    ensures b.Canonical() ==> |Print(b)| == FromBody(b).header.totalLength
  {
    PrintedLayout(b);
    LengthAgrees(b);
    if !(b.ConnectResponse? && b.status != E_NO_ERROR) {
      BodyRoundTrip(Print(b), b);
    }
  }

  // ---------- parsing, then printing ----------

  /** The parsed body lacks what its type prints: an error response, or the short form of one. */
  predicate Abridged(b: Body, size: nat) {
    b.ConnectResponse? && (b.status != E_NO_ERROR || size < HEADER_LENGTH + 2 + HPAI_LENGTH)
  }

  /** Where a body of a service type has a byte the parser skips and the printer writes as zero. */
  function ReservedAt(serviceType: int, raw: bytes): Option<nat> {
    if serviceType == CONNECT_REQUEST then
      if |raw| > 25 && raw[23] == TUNNEL_CONNECTION then Some(25) else None
    else if serviceType == CONNECTIONSTATE_REQUEST || serviceType == DISCONNECT_REQUEST then Some(7)
    else if serviceType == TUNNELLING_REQUEST then Some(9)
    else if serviceType == SESSION_AUTHENTICATE then Some(6)
    else None
  }

  /** The buffer with its reserved byte zero. */
  function Cleared(serviceType: int, raw: bytes): (r: bytes)
    ensures |r| == |raw|
  {
    var at := ReservedAt(serviceType, raw);
    if at.Some? && at.value < |raw| then raw[at.value := 0] else raw
  }

  /** What a body parser that accepts has read: what printing gives, the reserved byte aside. */
  predicate ReadAs(serviceType: int, raw: bytes, b: Body, n: nat) {
    && b.ServiceType() == serviceType && b.Writable() && HEADER_LENGTH + n <= |raw|
    && (b.Complete() <==> !Abridged(b, |raw|))
    && (b.Complete() ==>
          && n == b.Length() && |b.ToKnx()| == n
          && Cleared(serviceType, raw)[HEADER_LENGTH..HEADER_LENGTH + n] == b.ToKnx())
  }

  lemma HpaiRead(raw: bytes, off: nat)
    requires off <= |raw| && ParseHpai(raw, off).Ok?
    ensures var (h, n) := ParseHpai(raw, off).value;
      h.Valid() && n == HPAI_LENGTH && At(raw, off, h.ToKnx())
  {
    HpaiParsePrint(raw, off, ParseHpai(raw, off).value.0);
  }

  /** A CRI prints as it was read, its reserved byte aside. */
  lemma CriRead(raw: bytes, off: nat)
    requires off <= |raw| && ParseCri(raw, off).Ok?
    ensures var (c, n) := ParseCri(raw, off).value;
      && c.Canonical() && n == c.Length() && off + n <= |raw|
      && (if c.IsTunnel() then raw[off..off + n][3 := 0] else raw[off..off + n]) == c.ToKnx()
      && raw[off + 1] == c.connectionType
  {
    var (c, n) := ParseCri(raw, off).value;
    var b := c.ToKnx();
    if c.IsTunnel() {
      assert raw[off..off + n] == [raw[off], raw[off + 1], raw[off + 2], raw[off + 3]] + raw[off + 4..off + n];
      if c.address.Some? {
        U16Print(raw, off + 4);
      } else {
        assert raw[off + 4..off + n] == [];
      }
    } else {
      assert raw[off..off + n] == [raw[off], raw[off + 1]];
    }
  }

  lemma CrdRead(raw: bytes, off: nat)
    requires off <= |raw| && ParseCrd(raw, off).Ok?
    ensures var (c, n) := ParseCrd(raw, off).value;
      c.Canonical() && n == c.Length() && At(raw, off, c.ToKnx())
  {
    var (c, n) := ParseCrd(raw, off).value;
    if c.IsTunnel() {
      U16Print(raw, off + 2);
      assert raw[off..off + 4] == [raw[off], raw[off + 1]] + raw[off + 2..off + 4];
    } else {
      assert raw[off..off + 2] == [raw[off], raw[off + 1]];
    }
  }

  lemma ConnectRequestRead(raw: bytes)
    requires |raw| >= 6 && ParseConnectRequest(raw, 6).Ok?
    ensures var (b, n) := ParseConnectRequest(raw, 6).value; ReadAs(CONNECT_REQUEST, raw, b, n)
  {
    hide ParseHpai, ParseCri, Hpai.ToKnx, Cri.ToKnx;
    var (b, n) := ParseConnectRequest(raw, 6).value;
    HpaiRead(raw, 6);
    HpaiRead(raw, 14);
    CriRead(raw, 22);
    var end := 22 + b.cri.Length();
    var cleared := Cleared(CONNECT_REQUEST, raw);
    assert cleared[6..14] == raw[6..14] && cleared[14..22] == raw[14..22];
    assert cleared[22..end] == if b.cri.IsTunnel() then raw[22..end][3 := 0] else raw[22..end];
    assert cleared[6..end] == cleared[6..14] + cleared[14..22] + cleared[22..end];
  }

  lemma ConnectResponseRead(raw: bytes)
    requires |raw| >= 6 && ParseConnectResponse(raw, 6).Ok?
    ensures var (b, n) := ParseConnectResponse(raw, 6).value; ReadAs(CONNECT_RESPONSE, raw, b, n)
  {
    hide ParseHpai, ParseCrd, Hpai.ToKnx, Crd.ToKnx;
    if |raw| >= 16 {
      var (b, n) := ParseConnectResponse(raw, 6).value;
      HpaiRead(raw, 8);
      CrdRead(raw, 16);
      var end := 16 + b.crd.Length();
      assert raw[6..end] == [raw[6], raw[7]] + raw[8..16] + raw[16..end];
    }
  }

  lemma SixParts(raw: bytes)
    requires |raw| >= 38
    ensures raw[6..] == raw[6..8] + raw[8..14] + raw[14..20] + raw[20..22] + raw[22..|raw| - 16] + raw[|raw| - 16..]
  {
    assert raw[6..14] == raw[6..8] + raw[8..14];
    assert raw[6..20] == raw[6..14] + raw[14..20];
    assert raw[6..22] == raw[6..20] + raw[20..22];
    assert raw[6..|raw| - 16] == raw[6..22] + raw[22..|raw| - 16];
    assert raw[6..] == raw[6..|raw| - 16] + raw[|raw| - 16..];
  }

  lemma SecureWrapperRead(raw: bytes)
    requires |raw| >= 6 && ParseSecureWrapper(raw, 6).Ok?
    ensures var (b, n) := ParseSecureWrapper(raw, 6).value; ReadAs(SECURE_WRAPPER, raw, b, n)
  {
    U16Print(raw, 6);
    U48Print(raw, 8);
    U48Print(raw, 14);
    U16Print(raw, 20);
    hide U16, U48, ReadU16, ReadU48;
    SixParts(raw);
    var (b, n) := ParseSecureWrapper(raw, 6).value;
    assert raw[6..6 + n] == raw[6..];
    assert b.ToKnx() == raw[6..];
  }

  lemma SessionBodiesRead(t: int, raw: bytes)
    requires t == SESSION_REQUEST || t == SESSION_RESPONSE || t == SESSION_AUTHENTICATE
    requires |raw| >= 6 && ParseBody(t, raw, 6).Ok?
    ensures var (b, n) := ParseBody(t, raw, 6).value; ReadAs(t, raw, b, n)
  {
    hide ParseHpai, Hpai.ToKnx;
    if t == SESSION_REQUEST {
      HpaiRead(raw, 6);
      assert raw[6..46] == raw[6..14] + raw[14..46];
    } else if t == SESSION_RESPONSE {
      U16Print(raw, 6);
      assert raw[6..56] == raw[6..8] + raw[8..40] + raw[40..56];
    } else {
      var cleared := Cleared(t, raw);
      assert cleared[6..24] == [0x00, raw[7]] + raw[8..24];
    }
  }

  /** The one-byte-reserved shape of the channel bodies. */
  lemma ChannelEndpointRead(raw: bytes)
    requires |raw| >= 6 && ParseChannelEndpoint(raw, 6).Ok?
    ensures var ((channel, h), n) := ParseChannelEndpoint(raw, 6).value;
      n == 10 && |raw| >= 16 && h.Valid() && raw[7 := 0][6..16] == [channel, 0x00] + h.ToKnx()
  {
    hide ParseHpai, Hpai.ToKnx;
    HpaiRead(raw, 8);
    assert raw[7 := 0][6..16] == [raw[6], 0x00] + raw[8..16];
  }

  lemma FlatBodiesRead(t: int, raw: bytes)
    requires t == CONNECTIONSTATE_RESPONSE || t == DISCONNECT_RESPONSE || t == TUNNELLING_REQUEST
          || t == TUNNELLING_ACK || t == SESSION_STATUS
    requires |raw| >= 6 && ParseBody(t, raw, 6).Ok?
    ensures var (b, n) := ParseBody(t, raw, 6).value; ReadAs(t, raw, b, n)
  {
    if t == TUNNELLING_REQUEST {
      var cleared := Cleared(t, raw);
      assert cleared[6..] == [raw[6], raw[7], raw[8], 0x00] + raw[10..];
    } else if t == TUNNELLING_ACK {
      assert raw[6..10] == [raw[6], raw[7], raw[8], raw[9]];
    } else if t == SESSION_STATUS {
      assert raw[6..7] == [raw[6]];
    } else {
      assert raw[6..8] == [raw[6], raw[7]];
    }
  }

  lemma BodyRead(t: int, raw: bytes)
    requires |raw| >= 6 && ParseBody(t, raw, 6).Ok?
    ensures var (b, n) := ParseBody(t, raw, 6).value; ReadAs(t, raw, b, n)
  {
    if t == CONNECT_REQUEST {
      ConnectRequestRead(raw);
    } else if t == CONNECT_RESPONSE {
      ConnectResponseRead(raw);
    } else if t == CONNECTIONSTATE_REQUEST || t == DISCONNECT_REQUEST {
      ChannelEndpointRead(raw);
    } else if t == SECURE_WRAPPER {
      SecureWrapperRead(raw);
    } else if t == SESSION_REQUEST || t == SESSION_RESPONSE || t == SESSION_AUTHENTICATE {
      SessionBodiesRead(t, raw);
    } else {
      FlatBodiesRead(t, raw);
    }
  }

  /** Neither an error response nor its short form is what its own printing would parse to. */
  lemma AbridgedNeverPrinted(b: Body, data: bytes)
    requires b.Printable() && Print(b) == data
    requires ParseHeader(data).Ok? && ParseHeader(data).value.totalLength <= |data|
    ensures !Abridged(b, |data|)
  {
    PrintedLayout(b);
  }

  /**
   For every buffer the parser accepts that is exactly one frame and no error response, printing the parsed
   body gives the buffer with its reserved byte zero. It restores the buffer if and only if the buffer is one
   frame, all of which was read, that byte is zero already and it is no error response. The parsed body is
   canonical exactly when it is no error response.
   */
  lemma FrameParsePrint(data: bytes)
    requires ParseFrame(data).Ok?
    ensures var (f, n) := ParseFrame(data).value;
      var t, whole := f.header.serviceType, |data| == f.header.totalLength == n && !Abridged(f.body, |data|);
      && (whole ==> f.body.Printable() && Print(f.body) == Cleared(t, data))
      && (f.body.Printable() && Print(f.body) == data <==> whole && Cleared(t, data) == data)
      && (|data| == f.header.totalLength ==> (f.body.Canonical() <==> !Abridged(f.body, |data|)))
  {
    hide ParseBody, Body.ToKnx, Abridged, ReservedAt;
    var (f, n) := ParseFrame(data).value;
    var b, cleared := f.body, Cleared(f.header.serviceType, data);
    BodyRead(f.header.serviceType, data);
    HeaderParsePrint(data, f.header);
    ClearedBehindHeader(f.header.serviceType, data);
    if b.Printable() && Print(b) == data {
      PrintedLayout(b);
      AbridgedNeverPrinted(b, data);
    }
    if |data| == f.header.totalLength == n && b.Complete() {
      assert FromBody(b).header == f.header;
      assert cleared == cleared[0..6] + cleared[6..];
    }
  }

  lemma ClearedBehindHeader(t: int, data: bytes)
    requires |data| >= 6
    ensures Cleared(t, data)[0..6] == data[0..6]
  {
  }
}

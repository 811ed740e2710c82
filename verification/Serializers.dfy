/**
 The codec routines that work step by step: buffers allocated at their length and filled in place, and
 parsers that advance a position. Each is proved to compute what Endpoints, Frame or Apci specifies.
 */
module Serializers {
  import opened Bytes
  import opened Endpoints
  import opened Frame
  import opened Wrappers
  import Apci

  // ---------- printing ----------

  /** src/core/knxipHeader.ts. */
  method HeaderToKnx(h: Header) returns (buf: array<byte>)
    requires h.Printable()
    ensures fresh(buf) && buf[..] == h.ToKnx()
  {
    buf := new byte[HEADER_LENGTH](_ => 0);
    buf[0], buf[1] := HEADER_LENGTH, VERSION_10;
    CopyInto(buf, 2, U16(h.serviceType));
    CopyInto(buf, 4, U16(h.totalLength));
  }

  /** src/core/hpai.ts. */
  method HpaiToKnx(h: Hpai) returns (buf: array<byte>)
    requires h.Valid()
    ensures fresh(buf) && buf[..] == h.ToKnx()
  {
    buf := new byte[HPAI_LENGTH](_ => 0);
    buf[0], buf[1] := HPAI_LENGTH, h.protocol;
    CopyInto(buf, 2, h.ip);
    CopyInto(buf, 6, U16(h.port));
  }

  /** src/core/cri.ts. */
  method CriToKnx(c: Cri) returns (buf: array<byte>)
    requires c.Printable()
    ensures fresh(buf) && buf[..] == c.ToKnx()
  {
    var length := c.Length();
    buf := new byte[length](_ => 0);
    buf[0], buf[1] := length, c.connectionType;
    if c.IsTunnel() {
      buf[2], buf[3] := c.knxLayer, 0x00;
      if c.address.Some? {
        CopyInto(buf, 4, U16(c.address.value));
      }
    }
  }

  method CrdToKnx(c: Crd) returns (buf: array<byte>)
    requires c.Printable()
    ensures fresh(buf) && buf[..] == c.ToKnx()
  {
    var length := c.Length();
    buf := new byte[length](_ => 0);
    buf[0], buf[1] := length, c.connectionType;
    if c.IsTunnel() && c.address.Some? {
      CopyInto(buf, 2, U16(c.address.value));
    }
  }

  /** src/core/bodies/tunnellingRequest.ts. */
  method TunnellingRequestToKnx(b: Body) returns (out: array<byte>)
    requires b.TunnellingRequest?
    ensures fresh(out) && out[..] == b.ToKnx()
  {
    out := new byte[4 + |b.rawCemi|](_ => 0);
    out[0], out[1], out[2], out[3] := 4, b.channel, b.sequence, 0x00;
    CopyInto(out, 4, b.rawCemi);
  }

  /** src/core/bodies/secureWrapper.ts; the 48-bit writer accepts what the body holds. */
  method SecureWrapperToKnx(b: Body) returns (out: array<byte>)
    requires b.SecureWrapper? && b.Writable()
    ensures fresh(out) && out[..] == b.ToKnx()
  {
    out := new byte[WRAPPER_OVERHEAD + |b.encryptedFrame|](_ => 0);
    CopyInto(out, 0, U16(b.sessionId));
    var _ := WriteUInt48BE(out, b.sequenceId, 2);
    var _ := WriteUInt48BE(out, b.serialNumber, 8);
    CopyInto(out, 14, U16(b.messageTag));
    ghost var head := out[..16];
    assert head == U16(b.sessionId) + U48(b.sequenceId) + U48(b.serialNumber) + U16(b.messageTag);
    CopyInto(out, 16, b.encryptedFrame);
    CopyInto(out, 16 + |b.encryptedFrame|, b.mac);
    assert out[..] == head + b.encryptedFrame + b.mac;
  }

  /** `encodeCmdAndPayload` of src/core/apci.ts: a small value goes into the second byte, bytes behind it. */
  method EncodeCmdAndPayload(service: int, data: Option<Apci.ApduValue>) returns (out: array<byte>)
    requires service == Apci.GROUP_READ || service == Apci.GROUP_WRITE || service == Apci.GROUP_RESPONSE
    ensures fresh(out)
    ensures out[..] == Apci.EncodeCommand(service, if data.Some? then data.value else Apci.Small(0))
  {
    var byte0, byte1 := service / 0x100 % 4, service % 0x100;
    var appended := None;
    if data.Some? && data.value.Small? {
      byte1 := byte1 + data.value.value % 64;
    } else if data.Some? {
      appended := Some(data.value.content);
    }
    if appended.Some? {
      out := new byte[2 + |appended.value|](_ => 0);
      out[0], out[1] := byte0, byte1;
      CopyInto(out, 2, appended.value);
    } else {
      out := new byte[2](_ => 0);
      out[0], out[1] := byte0, byte1;
      assert out[..] == [byte0, byte1];
    }
  }

  // ---------- parsing ----------

  /** A CRI created with its defaults, whose fields are then replaced. */
  method CriFromKnx(raw: bytes, off: nat) returns (r: Parse<Cri>)
    requires off <= |raw|
    ensures r == ParseCri(raw, off)
  {
    var available := |raw| - off;
    if available < 2 {
      return Err(CouldNotParse);
    }
    var length := raw[off];
    if available < length || length < 2 {
      return Err(CouldNotParse);
    }
    var cri := Cri(raw[off + 1], DATA_LINK_LAYER, None);
    if cri.IsTunnel() {
      if length == 4 {
        cri := cri.(knxLayer := raw[off + 2]);
      } else if length == 6 {
        cri := cri.(knxLayer := raw[off + 2]);
        cri := cri.(address := Some(ReadU16(raw, off + 4)));
      } else {
        return Err(CouldNotParse);
      }
    } else if length != 2 {
      return Err(CouldNotParse);
    }
    return Ok((cri, length));
  }

  /** src/core/bodies/connectRequest.ts. */
  method ConnectRequestFromKnx(raw: bytes, off: nat) returns (r: Parse<Body>)
    requires off <= |raw|
    ensures r == ParseConnectRequest(raw, off)
  {
    var pos := off;
    var ctrl :- ParseHpai(raw, pos);
    pos := pos + ctrl.1;
    var dat :- ParseHpai(raw, pos);
    pos := pos + dat.1;
    var cri :- CriFromKnx(raw, pos);
    pos := pos + cri.1;
    return Ok((ConnectRequest(ctrl.0, dat.0, cri.0), pos - off));
  }

  /** src/core/bodies/connectResponse.ts. */
  method ConnectResponseFromKnx(raw: bytes, off: nat) returns (r: Parse<Body>)
    requires off <= |raw|
    ensures r == ParseConnectResponse(raw, off)
  {
    var available := |raw| - off;
    if available < 2 {
      return Err(CouldNotParse);
    }
    var channel, status := raw[off], raw[off + 1];
    if available < 2 + HPAI_LENGTH {
      return Ok((ConnectResponse(channel, status, ROUTE_BACK, Crd(TUNNEL_CONNECTION, None)), 2));
    }
    var pos := off + 2;
    var hpai :- ParseHpai(raw, pos);
    pos := pos + hpai.1;
    var crd :- ParseCrd(raw, pos);
    pos := pos + crd.1;
    return Ok((ConnectResponse(channel, status, hpai.0, crd.0), pos - off));
  }
}

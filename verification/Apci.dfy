/**
 Application-layer control information (src/core/apci.ts): a ten-bit service across two bytes, with a
 six-bit value or trailing bytes.
 */
module Apci {
  import opened Bytes
  import opened Wrappers

  const GROUP_READ := 0x000
  const GROUP_RESPONSE := 0x040
  const GROUP_WRITE := 0x080

  datatype ApduValue = Small(value: int) | Buffer(content: bytes)

  /** `Unknown` keeps the service code and the whole APDU. */
  datatype Apci =
    | GroupValueRead
    | GroupValueWrite(data: ApduValue)
    | GroupValueResponse(data: ApduValue)
    | Unknown(service: int, raw: bytes)

  datatype ApciError = TooShort

  /** `apciNpduLength`. */
  function NpduLength(a: Apci): (n: nat)
    ensures n >= 1
  {
    match a
    case GroupValueRead => 1
    case GroupValueWrite(data) => ValueLength(data)
    case GroupValueResponse(data) => ValueLength(data)
    case Unknown(_, raw) => if |raw| >= 2 then |raw| - 1 else 1
  }

  function ValueLength(data: ApduValue): nat {
    if data.Small? then 1 else 1 + |data.content|
  }

  function Encode(a: Apci): bytes {
    match a
    case GroupValueRead => EncodeCommand(GROUP_READ, Small(0))
    case GroupValueWrite(data) => EncodeCommand(GROUP_WRITE, data)
    case GroupValueResponse(data) => EncodeCommand(GROUP_RESPONSE, data)
    case Unknown(_, raw) => raw
  }

  /** The group services leave the low six bits of their second byte to a small value. */
  function EncodeCommand(service: int, data: ApduValue): (b: bytes)
    requires 0 <= service < 0x100 && service % 64 == 0
    ensures |b| == 1 + ValueLength(data) && b[0] == 0
  {
    if data.Small? then [0, service + data.value % 64] else [0, service] + data.content
  }

  /** The ten-bit code, from an APDU that may still carry TPCI bits. */
  function Code(apdu: bytes): (c: nat)
    requires |apdu| >= 2
    ensures c < 0x400
  {
    var high: int, low: int := apdu[0], apdu[1];
    high % 4 * 0x100 + low
  }

  /** The service of a code: its top four bits. */
  function Service(code: nat): nat {
    code - code % 64
  }

  function Decode(apdu: bytes): Result<Apci, ApciError> {
    if |apdu| < 2 then Err(TooShort)
    else
      var service := Service(Code(apdu));
      if service == GROUP_READ then Ok(GroupValueRead)
      else if service == GROUP_WRITE then Ok(GroupValueWrite(ExtractData(apdu)))
      else if service == GROUP_RESPONSE then Ok(GroupValueResponse(ExtractData(apdu)))
      else Ok(Unknown(Code(apdu), apdu))
  }

  function ExtractData(apdu: bytes): ApduValue
    requires |apdu| >= 2
  {
    if |apdu| == 2 then Small(apdu[1] % 64) else Buffer(apdu[2..])
  }

  predicate CanonicalValue(v: ApduValue) {
    match v
    case Small(n) => 0 <= n < 64
    case Buffer(b) => b != []
  }

  predicate IsGroupService(service: nat) {
    service == GROUP_READ || service == GROUP_WRITE || service == GROUP_RESPONSE
  }

  /** A value that fits, or a raw APDU labelled with its own code and not a group service. */
  predicate Canonical(a: Apci) {
    match a
    case GroupValueRead => true
    case GroupValueWrite(data) => CanonicalValue(data)
    case GroupValueResponse(data) => CanonicalValue(data)
    case Unknown(service, raw) => |raw| >= 2 && service == Code(raw) && !IsGroupService(Service(service))
  }

  /** A group service's bytes name that service, whatever its value. */
  lemma CommandCode(service: nat, data: ApduValue)
    requires IsGroupService(service)
    ensures var apdu := EncodeCommand(service, data);
      && Service(Code(apdu)) == service
      && (ExtractData(apdu) == data <==> CanonicalValue(data))
  {
    if data.Small? {
      var v := data.value % 64;
      assert Code(EncodeCommand(service, data)) == service + v;
      LowBits(service, v);
    } else {
      assert Code(EncodeCommand(service, data)) == service;
      LowBits(service, 0);
    }
  }

  lemma LowBits(service: int, v: int)
    requires service % 64 == 0 && 0 <= v < 64
    ensures (service + v) % 64 == v
  {
  }

  /** Decoding an encoded service gives it back if and only if it is canonical. */
  lemma EncodeDecode(a: Apci)
    ensures Decode(Encode(a)) == Ok(a) <==> Canonical(a)
  {
    match a
    case GroupValueRead => CommandCode(GROUP_READ, Small(0));
    case GroupValueWrite(data) => CommandCode(GROUP_WRITE, data);
    case GroupValueResponse(data) => CommandCode(GROUP_RESPONSE, data);
    case Unknown(_, _) =>
  }

  lemma DecodedIsCanonical(apdu: bytes)
    requires Decode(apdu).Ok?
    ensures Canonical(Decode(apdu).value)
  {
  }

  /** An encoding of a canonical service is one byte longer than its NPDU length. */
  lemma EncodedLength(a: Apci)
    requires Canonical(a)
    ensures |Encode(a)| == 1 + NpduLength(a)
  {
  }

  /** Decoding never yields a service longer than the APDU it came from. */
  lemma DecodedLength(apdu: bytes)
    requires Decode(apdu).Ok?
    ensures var a := Decode(apdu).value;
      NpduLength(a) <= |apdu| - 1 && (a.Unknown? ==> a.raw == apdu)
  {
  }

  /** Short encodings are raw ones; a first byte above the APCI bits is a raw one's. */
  lemma EncodedLengthBound(a: Apci)
    ensures |Encode(a)| < 2 ==> a.Unknown? && |a.raw| < 2
    ensures |Encode(a)| >= 2 && Encode(a)[0] >= 4 ==> a.Unknown?
  {
  }

  /** Nothing is lost: no bits beside a group value, no bytes behind a read. */
  predicate Tidy(apdu: bytes)
    requires |apdu| >= 2
  {
    IsGroupService(Service(Code(apdu))) ==>
      && (|apdu| > 2 ==> apdu[1] % 64 == 0)
      && (Service(Code(apdu)) == GROUP_READ ==> |apdu| == 2 && apdu[1] == 0)
  }

  /** The APDU without what a group service does not carry: bytes behind a read, bits beside a value, TPCI bits. */
  function Tidied(apdu: bytes): (r: bytes)
    requires |apdu| >= 2
    ensures |r| >= 2
  {
    var service := apdu[0] as int % 4 * 4 + apdu[1] as int / 64;
    if service == 0 then [0x00, 0x00]
    else if service > 2 then apdu
    else if |apdu| == 2 then [0x00, apdu[1]]
    else [0x00, apdu[1] / 64 * 64] + apdu[2..]
  }

  /** The top four of the ten bits, read off the two bytes. */
  lemma ServiceOf(apdu: bytes)
    requires |apdu| >= 2
    ensures Service(Code(apdu)) == (apdu[0] as int % 4 * 4 + apdu[1] as int / 64) * 64
  {
    var code, q := Code(apdu), apdu[0] as int % 4 * 4 + apdu[1] as int / 64;
    assert code == 64 * q + apdu[1] as int % 64;
    assert code % 64 == apdu[1] as int % 64;
  }

  /**
   Any two bytes or more decode, and encoding what was decoded gives them back tidied; so the very bytes come
   back if and only if they are tidy.
   */
  lemma DecodeEncode(apdu: bytes)
    ensures Decode(apdu).Ok? <==> |apdu| >= 2
    ensures |apdu| >= 2 ==> Encode(Decode(apdu).value) == Tidied(apdu)
    ensures |apdu| >= 2 && apdu[0] < 4 ==> (Tidied(apdu) == apdu <==> Tidy(apdu))
  {
    if |apdu| >= 2 {
      ServiceOf(apdu);
      assert apdu == [apdu[0], apdu[1]] + apdu[2..];
      assert apdu[1] == apdu[1] / 64 * 64 + apdu[1] % 64;
    }
  }

  /** Which service an APDU holds, by code, and where its value stands. */
  lemma DecodesAs(apdu: bytes)
    requires |apdu| >= 2
    ensures var a, code := Decode(apdu).value, apdu[0] as int % 4 * 0x100 + apdu[1] as int;
      var value := if |apdu| == 2 then Small(apdu[1] % 64) else Buffer(apdu[2..]);
      && (code < 0x040 ==> a == GroupValueRead)
      && (0x040 <= code < 0x080 ==> a == GroupValueResponse(value))
      && (0x080 <= code < 0x0c0 ==> a == GroupValueWrite(value))
      && (0x0c0 <= code ==> a == Unknown(code, apdu))
  {
    ServiceOf(apdu);
  }

  /** The bytes of every service, values that do not fit included. */
  lemma EncodesAs(value: ApduValue, code: int, raw: bytes)
    ensures Encode(GroupValueRead) == [0x00, 0x00] && Encode(Unknown(code, raw)) == raw
    ensures value.Small? ==>
      && Encode(GroupValueWrite(value)) == [0x00, 0x80 + value.value % 64]
      && Encode(GroupValueResponse(value)) == [0x00, 0x40 + value.value % 64]
    ensures value.Buffer? ==>
      && Encode(GroupValueWrite(value)) == [0x00, 0x80] + value.content
      && Encode(GroupValueResponse(value)) == [0x00, 0x40] + value.content
  {
  }
}

/**
 HPAI, CRI and CRD, the structures nested in connection bodies (src/core/hpai.ts, src/core/cri.ts).
 Each parser reads at an offset of a longer buffer and reports how many bytes it used.
 */
module Endpoints {
  import opened Bytes
  import opened Wrappers

  /** The parser exceptions of src/core/errors.ts. */
  datatype ParseError = CouldNotParse | Incomplete | Unsupported(serviceType: int)

  /** A parsed value and the number of bytes read. */
  type Parse<T> = Result<(T, nat), ParseError>

  /** `b` stands in `raw` at `off`. */
  predicate At(raw: bytes, off: nat, b: bytes) {
    off + |b| <= |raw| && raw[off..off + |b|] == b
  }

  lemma AtReads(raw: bytes, off: nat, b: bytes)
    requires At(raw, off, b)
    ensures forall j :: off <= j < off + |b| ==> raw[j] == b[j - off]
  {
    forall j | off <= j < off + |b| ensures raw[j] == b[j - off] {
      assert raw[off..off + |b|][j - off] == raw[j];
    }
  }

  // ---------- HPAI ----------

  const HPAI_LENGTH := 8
  const IPV4_UDP: byte := 0x01
  const IPV4_TCP: byte := 0x02

  /** An IPv4 endpoint; the address is held as its four bytes. */
  datatype Hpai = Hpai(ip: bytes, port: int, protocol: byte) {

    /** What the constructor and the field types admit. */
    predicate Valid() {
      |ip| == 4 && 0 <= port < U16_LIMIT && (protocol == IPV4_UDP || protocol == IPV4_TCP)
    }

    function ToKnx(): (b: bytes)
      requires Valid()
      ensures |b| == HPAI_LENGTH
    {
      [HPAI_LENGTH, protocol] + ip + U16(port)
    }
  }

  function ParseHpai(raw: bytes, off: nat): (r: Parse<Hpai>)
    requires off <= |raw|
    ensures r.Ok? ==> off + r.value.1 <= |raw|
  {
    if |raw| - off < HPAI_LENGTH then Err(CouldNotParse)
    else if raw[off] != HPAI_LENGTH then Err(CouldNotParse)
    else if raw[off + 1] != IPV4_UDP && raw[off + 1] != IPV4_TCP then Err(CouldNotParse)
    else Ok((Hpai(raw[off + 2..off + 6], ReadU16(raw, off + 6), raw[off + 1]), HPAI_LENGTH))
  }

  /** The parser accepts at an offset exactly the printed forms, and returns what was printed. */
  lemma HpaiParsePrint(raw: bytes, off: nat, h: Hpai)
    requires off <= |raw|
    ensures ParseHpai(raw, off) == Ok((h, HPAI_LENGTH)) <==> h.Valid() && At(raw, off, h.ToKnx())
  {
    if h.Valid() && At(raw, off, h.ToKnx()) {
      var b := h.ToKnx();
      AtReads(raw, off, b);
      assert b[2..6] == h.ip && raw[off + 2..off + 6] == b[2..6];
      assert b == b[..6] + U16(h.port) + [];
      U16RoundTrip(h.port, b[..6], []);
      assert ReadU16(raw, off + 6) == ReadU16(b, 6);
    }
    if ParseHpai(raw, off) == Ok((h, HPAI_LENGTH)) {
      U16Print(raw, off + 6);
      assert raw[off..off + 8] == [raw[off], raw[off + 1]] + raw[off + 2..off + 6] + raw[off + 6..off + 8];
    }
  }

  // ---------- CRI ----------

  const TUNNEL_CONNECTION: byte := 0x04
  const DATA_LINK_LAYER: byte := 0x02

  /** Connection request information; the requested address makes the extended tunnel form. */
  datatype Cri = Cri(connectionType: byte, knxLayer: byte, address: Option<int>) {

    predicate Printable() {
      address.Some? ==> 0 <= address.value < U16_LIMIT
    }

    predicate IsTunnel() {
      connectionType == TUNNEL_CONNECTION
    }

    function Length(): (n: byte)
      ensures n == 2 || n == 4 || n == 6
    {
      if !IsTunnel() then 2 else if address.Some? then 6 else 4
    }

    function ToKnx(): (b: bytes)
      requires Printable()
      ensures |b| == Length()
    {
      if !IsTunnel() then [Length(), connectionType]
      else [Length(), connectionType, knxLayer, 0x00] + (if address.Some? then U16(address.value) else [])
    }

    /** A connection of another type carries neither a layer nor an address. */
    predicate Canonical() {
      Printable() && (!IsTunnel() ==> knxLayer == DATA_LINK_LAYER && address.None?)
    }
  }

  function ParseCri(raw: bytes, off: nat): (r: Parse<Cri>)
    requires off <= |raw|
    ensures r.Ok? ==> off + r.value.1 <= |raw| && r.value.0.Canonical()
  {
    var available := |raw| - off;
    if available < 2 then Err(CouldNotParse)
    else
      var length := raw[off];
      var kind := raw[off + 1];
      if available < length || length < 2 then Err(CouldNotParse)
      else if kind == TUNNEL_CONNECTION then
        if length == 4 then Ok((Cri(kind, raw[off + 2], None), length))
        else if length == 6 then Ok((Cri(kind, raw[off + 2], Some(ReadU16(raw, off + 4))), length))
        else Err(CouldNotParse)
      else if length != 2 then Err(CouldNotParse)
      else Ok((Cri(kind, DATA_LINK_LAYER, None), length))
  }

  /** Reading a printed CRI gives it back if and only if it is canonical. */
  lemma CriRoundTrip(raw: bytes, off: nat, c: Cri)
    requires off <= |raw| && c.Printable() && At(raw, off, c.ToKnx())
    ensures ParseCri(raw, off) == Ok((c, c.Length())) <==> c.Canonical()
  {
    var b := c.ToKnx();
    AtReads(raw, off, b);
    assert raw[off] == c.Length() && raw[off + 1] == c.connectionType;
    if c.IsTunnel() {
      assert raw[off + 2] == b[2] == c.knxLayer;
      if c.address.Some? {
        assert b == b[..4] + U16(c.address.value) + [];
        U16RoundTrip(c.address.value, b[..4], []);
        assert ReadU16(raw, off + 4) == ReadU16(b, 4);
      }
    }
  }

  // ---------- CRD ----------

  /** Connection response data; a tunnel carries the assigned address. */
  datatype Crd = Crd(connectionType: byte, address: Option<int>) {

    predicate Printable() {
      address.Some? ==> 0 <= address.value < U16_LIMIT
    }

    predicate IsTunnel() {
      connectionType == TUNNEL_CONNECTION
    }

    function Length(): (n: byte)
      ensures n == 2 || n == 4
    {
      if IsTunnel() then 4 else 2
    }

    /** A tunnel without an address leaves its two bytes zero. */
    function ToKnx(): (b: bytes)
      requires Printable()
      ensures |b| == Length()
    {
      if !IsTunnel() then [Length(), connectionType]
      else [Length(), connectionType] + (if address.Some? then U16(address.value) else Zeros(2))
    }

    predicate Canonical() {
      Printable() && (IsTunnel() <==> address.Some?)
    }
  }

  function ParseCrd(raw: bytes, off: nat): (r: Parse<Crd>)
    requires off <= |raw|
    ensures r.Ok? ==> off + r.value.1 <= |raw| && r.value.0.Canonical()
  {
    var available := |raw| - off;
    if available < 2 then Err(CouldNotParse)
    else
      var length := raw[off];
      var kind := raw[off + 1];
      if available < length || length < 2 then Err(CouldNotParse)
      else if kind == TUNNEL_CONNECTION then
        if length != 4 then Err(CouldNotParse)
        else Ok((Crd(kind, Some(ReadU16(raw, off + 2))), length))
      else if length != 2 then Err(CouldNotParse)
      else Ok((Crd(kind, None), length))
  }

  /** Reading a printed CRD gives it back if and only if it is canonical. */
  lemma CrdRoundTrip(raw: bytes, off: nat, c: Crd)
    requires off <= |raw| && c.Printable() && At(raw, off, c.ToKnx())
    ensures ParseCrd(raw, off) == Ok((c, c.Length())) <==> c.Canonical()
  {
    var b := c.ToKnx();
    AtReads(raw, off, b);
    assert raw[off] == c.Length() && raw[off + 1] == c.connectionType;
    if c.IsTunnel() && c.address.Some? {
      assert b == b[..2] + U16(c.address.value) + [];
      U16RoundTrip(c.address.value, b[..2], []);
      assert ReadU16(raw, off + 2) == ReadU16(b, 2);
    }
  }
}

/**
 The SECURE_WRAPPER envelope of src/secure/wrapper.ts: counter-mode encryption of a CBC-MAC and a
 complete inner frame, both bound to the session id, sequence id, serial number and message tag.
 */
module Wrapper {
  import opened Bytes
  import opened Crypto
  import opened Wrappers

  const WRAPPER_HEADER_PREFIX: bytes := [0x06, 0x10, 0x09, 0x50]
  const WRAPPER_FIXED_OVERHEAD := 38
  const MAC_LENGTH := 16

  datatype Context = Context(sessionId: int, sequenceId: int, serialNumber: int, messageTag: int)

  datatype Sealed = Sealed(encryptedFrame: bytes, mac: bytes)

  datatype WrapperError = OutOfRange | BadMacLength | MacMismatch

  /** The integer writers accept every field, and the outer total length fits 16 bits. */
  predicate Encodable(ctx: Context, payloadLength: nat) {
    && 0 <= ctx.sessionId < U16_LIMIT
    && 0 <= ctx.sequenceId < U48_LIMIT
    && 0 <= ctx.serialNumber < U48_LIMIT
    && 0 <= ctx.messageTag < U16_LIMIT
    && WRAPPER_FIXED_OVERHEAD + payloadLength < U16_LIMIT
  }

  // ---------- buildBlocks ----------

  /** The fourteen bytes block_0 and counter_0 share. */
  function Nonce(ctx: Context): (n: bytes)
    requires Encodable(ctx, 0)
    ensures |n| == 14
  {
    U48(ctx.sequenceId) + U48(ctx.serialNumber) + U16(ctx.messageTag)
  }

  function Block0(ctx: Context, payloadLength: nat): Block
    requires Encodable(ctx, payloadLength)
  {
    Nonce(ctx) + U16(payloadLength)
  }

  function Counter0(ctx: Context): Block
    requires Encodable(ctx, 0)
  {
    Nonce(ctx) + [0xff, 0x00]
  }

  function AdditionalData(ctx: Context, payloadLength: nat): (ad: bytes)
    requires Encodable(ctx, payloadLength)
    ensures |ad| == 8
  {
    WRAPPER_HEADER_PREFIX + U16(WRAPPER_FIXED_OVERHEAD + payloadLength) + U16(ctx.sessionId)
  }

  function FrameMac(E: Cipher, key: Block, ctx: Context, plain: bytes): Block
    requires Encodable(ctx, |plain|)
  {
    CbcMac(E, key, AdditionalData(ctx, |plain|), plain, Block0(ctx, |plain|))
  }

  // ---------- encrypt and decrypt ----------

  function Encrypt(E: Cipher, key: Block, ctx: Context, plain: bytes): (r: Result<Sealed, WrapperError>)
    ensures r.Ok? ==> |r.value.encryptedFrame| == |plain| && |r.value.mac| == MAC_LENGTH
  {
    if !Encodable(ctx, |plain|) then Err(OutOfRange)
    else
      var stream := CtrXor(E, key, Counter0(ctx), FrameMac(E, key, ctx, plain) + plain);
      Ok(Sealed(stream[16..], stream[..16]))
  }

  function Decrypt(E: Cipher, key: Block, ctx: Context, frame: Sealed): (r: Result<bytes, WrapperError>)
  {
    if |frame.mac| != MAC_LENGTH then Err(BadMacLength)
    else if !Encodable(ctx, |frame.encryptedFrame|) then Err(OutOfRange)
    else
      var stream := CtrXor(E, key, Counter0(ctx), frame.mac + frame.encryptedFrame);
      var plain := stream[16..];
      if stream[..16] != FrameMac(E, key, ctx, plain) then Err(MacMismatch) else Ok(plain)
  }

  /**
   Decryption accepts exactly the encryptions: it returns `plain` if and only if encrypting `plain`
   in the same context gives this very ciphertext and MAC.
   */
  lemma DecryptInvertsEncrypt(E: Cipher, key: Block, ctx: Context, frame: Sealed, plain: bytes)
    ensures Decrypt(E, key, ctx, frame) == Ok(plain) <==> Encrypt(E, key, ctx, plain) == Ok(frame)
  {
    if Encodable(ctx, |plain|) {
      var c0 := Counter0(ctx);
      var clear := FrameMac(E, key, ctx, plain) + plain;
      CtrInvolution(E, key, c0, clear);
      if Encrypt(E, key, ctx, plain) == Ok(frame) {
        assert frame.mac + frame.encryptedFrame == CtrXor(E, key, c0, clear);
        assert clear[16..] == plain && clear[..16] == FrameMac(E, key, ctx, plain);
      }
      if Decrypt(E, key, ctx, frame) == Ok(plain) {
        var wire := frame.mac + frame.encryptedFrame;
        var stream := CtrXor(E, key, c0, wire);
        CtrInvolution(E, key, c0, wire);
        assert stream == stream[..16] + stream[16..] == clear;
        assert wire[..16] == frame.mac && wire[16..] == frame.encryptedFrame;
      }
    }
  }

  // ---------- what the MAC authenticates ----------

  /** The padded bytes the MAC is computed over determine every field and the payload. */
  lemma MacInputInjective(a: Context, p: bytes, b: Context, q: bytes)
    requires Encodable(a, |p|) && Encodable(b, |q|)
    requires Pad16(MacInput(Block0(a, |p|), AdditionalData(a, |p|), p))
          == Pad16(MacInput(Block0(b, |q|), AdditionalData(b, |q|), q))
    ensures a == b && p == q
  {
    var m := MacInput(Block0(a, |p|), AdditionalData(a, |p|), p);
    var n := MacInput(Block0(b, |q|), AdditionalData(b, |q|), q);
    assert m[..16] == Pad16(m)[..16] == Pad16(n)[..16] == n[..16];
    assert Block0(a, |p|) == m[..16] && Block0(b, |q|) == n[..16];
    Block0Injective(a, |p|, b, |q|);
    PadInjective(m, n);
    assert m[18..26] == AdditionalData(a, |p|) && n[18..26] == AdditionalData(b, |q|);
    assert m[26..] == p && n[26..] == q;
    assert AdditionalData(a, |p|)[6..] == U16(a.sessionId) && AdditionalData(b, |q|)[6..] == U16(b.sessionId);
    U16Injective(a.sessionId, b.sessionId);
  }

  lemma NonceInjective(a: Context, b: Context)
    requires Encodable(a, 0) && Encodable(b, 0) && Nonce(a) == Nonce(b)
    ensures a.sequenceId == b.sequenceId && a.serialNumber == b.serialNumber && a.messageTag == b.messageTag
  {
    var x, y := Nonce(a), Nonce(b);
    assert x[..6] == U48(a.sequenceId) && y[..6] == U48(b.sequenceId);
    assert x[6..12] == U48(a.serialNumber) && y[6..12] == U48(b.serialNumber);
    assert x[12..] == U16(a.messageTag) && y[12..] == U16(b.messageTag);
    U48Injective(a.sequenceId, b.sequenceId);
    U48Injective(a.serialNumber, b.serialNumber);
    U16Injective(a.messageTag, b.messageTag);
  }

  lemma Block0Injective(a: Context, m: nat, b: Context, n: nat)
    requires Encodable(a, m) && Encodable(b, n) && Block0(a, m) == Block0(b, n)
    ensures a.sequenceId == b.sequenceId && a.serialNumber == b.serialNumber && a.messageTag == b.messageTag
    ensures m == n
  {
    var x, y := Block0(a, m), Block0(b, n);
    assert x[..14] == Nonce(a) && y[..14] == Nonce(b);
    assert x[14..] == U16(m) && y[14..] == U16(n);
    NonceInjective(a, b);
    U16Injective(m, n);
  }

  /** Where each field stands in the blocks and in the additional data. */
  lemma BlockLayout(ctx: Context, n: nat)
    requires Encodable(ctx, n)
    ensures var b, ad := Block0(ctx, n), AdditionalData(ctx, n);
      && ReadU48(b, 0) == ctx.sequenceId && ReadU48(b, 6) == ctx.serialNumber
      && ReadU16(b, 12) == ctx.messageTag && ReadU16(b, 14) == n
      && ad[..4] == [0x06, 0x10, 0x09, 0x50] && ReadU16(ad, 4) == 38 + n && ReadU16(ad, 6) == ctx.sessionId
  {
    var x, y, z, l := U48(ctx.sequenceId), U48(ctx.serialNumber), U16(ctx.messageTag), U16(n);
    var b, ad := Block0(ctx, n), AdditionalData(ctx, n);
    assert b == [] + x + (y + z + l);
    U48RoundTrip(ctx.sequenceId, [], y + z + l);
    assert b == x + y + (z + l);
    U48RoundTrip(ctx.serialNumber, x, z + l);
    assert b == (x + y) + z + l;
    U16RoundTrip(ctx.messageTag, x + y, l);
    assert b == (x + y + z) + l + [];
    U16RoundTrip(n, x + y + z, []);
    assert ad == WRAPPER_HEADER_PREFIX + U16(38 + n) + U16(ctx.sessionId);
    U16RoundTrip(38 + n, WRAPPER_HEADER_PREFIX, U16(ctx.sessionId));
    assert ad == (WRAPPER_HEADER_PREFIX + U16(38 + n)) + U16(ctx.sessionId) + [];
    U16RoundTrip(ctx.sessionId, WRAPPER_HEADER_PREFIX + U16(38 + n), []);
  }

  /** A frame's MAC is the end of a CBC chain over its block_0, additional data and bytes. */
  lemma FrameMacIsChain(E: Cipher, key: Block, ctx: Context, plain: bytes, input: bytes, chain: seq<Block>)
    requires Encodable(ctx, |plain|)
    requires IsMacBlocks(input, Block0(ctx, |plain|), AdditionalData(ctx, |plain|), plain)
    requires IsChain(E, key, input, chain)
    ensures chain != [] && FrameMac(E, key, ctx, plain) == chain[|chain| - 1]
  {
    MacEndsChain(E, key, AdditionalData(ctx, |plain|), plain, Block0(ctx, |plain|), input, chain);
  }

  /** Under a permutation, frames of one length that differ within one block of the MAC input have different MACs. */
  lemma FrameMacTells(E: Cipher, key: Block, ctx: Context, p: bytes, q: bytes, k: nat)
    requires Injective(E, key) && Encodable(ctx, |p|) && |p| == |q| && p != q
    requires forall i :: 0 <= i < |p| && (26 + i) / 16 != k ==> p[i] == q[i]
    ensures FrameMac(E, key, ctx, p) != FrameMac(E, key, ctx, q)
  {
    MacTellsPayloads(E, key, AdditionalData(ctx, |p|), p, q, Block0(ctx, |p|), k);
  }

  // ---------- keystream blocks ----------

  /** How many counter blocks one wrapper uses: the MAC and the payload, rounded up. */
  function BlocksUsed(payloadLength: nat): nat {
    (MAC_LENGTH + payloadLength + 15) / 16
  }

  lemma ValueOfU16(v: int)
    requires 0 <= v < U16_LIMIT
    ensures Value(U16(v)) == v
  {
    var b := U16(v);
    assert b[..1] == [v / 0x100] && b[..1][..0] == [];
    assert Value(b[..1]) == v / 0x100;
  }

  lemma ValueOfU48(v: int)
    requires 0 <= v < U48_LIMIT
    ensures Value(U48(v)) == v
  {
    var hi, low := v / U32_LIMIT, v % U32_LIMIT;
    var x, y, z := U16(hi), U16(low / U16_LIMIT), U16(low % U16_LIMIT);
    ValueOfU16(hi);
    ValueOfU16(low / U16_LIMIT);
    ValueOfU16(low % U16_LIMIT);
    PowersOf256();
    ValueConcat(x, y);
    ValueConcat(x + y, z);
    assert U48(v) == x + y + z;
  }

  /** What the cipher's i-th input block stands for: sequence id, serial number, tag, 0xff00, and i more. */
  function InputNumber(ctx: Context, i: nat): int {
    (ctx.sequenceId * TWO_80 + ctx.serialNumber * U32_LIMIT + ctx.messageTag * U16_LIMIT + 0xff00 + i) % TWO_128
  }

  lemma NonceNumber(ctx: Context)
    requires Encodable(ctx, 0)
    ensures Value(Nonce(ctx)) == (ctx.sequenceId * U48_LIMIT + ctx.serialNumber) * U16_LIMIT + ctx.messageTag
  {
    var x, y, z := U48(ctx.sequenceId), U48(ctx.serialNumber), U16(ctx.messageTag);
    ValueOfU48(ctx.sequenceId);
    ValueOfU48(ctx.serialNumber);
    ValueOfU16(ctx.messageTag);
    PowersOf256();
    ValueConcat(x, y);
    ValueConcat(x + y, z);
  }

  /** The one block with the i-th input number is the i-th counter block. */
  lemma InputBlock(ctx: Context, i: nat, b: Block)
    requires Encodable(ctx, 0)
    ensures Value(b) == InputNumber(ctx, i) <==> b == CounterBlock(Counter0(ctx), i)
    ensures InputNumber(ctx, i) == (Value(Counter0(ctx)) + i) % TWO_128
  {
    NonceNumber(ctx);
    Counter0Value(ctx);
    CounterBlockValue(Counter0(ctx), i);
    PowersOf256();
    if Value(b) == InputNumber(ctx, i) {
      ValueInjective(b, CounterBlock(Counter0(ctx), i));
    }
  }

  /**
   What encryption feeds the cipher: in the stream of encrypted MAC and frame, block i is MAC and frame
   against the cipher of the block with input number i.
   */
  lemma CipherInputs(E: Cipher, key: Block, ctx: Context, plain: bytes, i: nat, b: Block)
    requires Encrypt(E, key, ctx, plain).Ok? && Value(b) == InputNumber(ctx, i)
    ensures var frame := Encrypt(E, key, ctx, plain).value;
      && |frame.mac| == 16
      && EncryptedBy(E, key, frame.mac + frame.encryptedFrame, FrameMac(E, key, ctx, plain) + plain, i, b)
  {
    var clear := FrameMac(E, key, ctx, plain) + plain;
    var stream := CtrXor(E, key, Counter0(ctx), clear);
    InputBlock(ctx, i, b);
    CtrBlockLaw(E, key, Counter0(ctx), clear, i, b);
    assert stream == stream[..16] + stream[16..];
  }

  /** The first counter block as a number: the nonce in the upper fourteen bytes. */
  lemma Counter0Value(ctx: Context)
    requires Encodable(ctx, 0)
    ensures Value(Counter0(ctx)) == Value(Nonce(ctx)) * U16_LIMIT + 0xff00
    ensures Value(Nonce(ctx)) < TWO_112
  {
    var tail: bytes := [0xff, 0x00];
    ValueConcat(Nonce(ctx), tail);
    ValueBound(Nonce(ctx));
    PowersOf256();
    assert tail[..1] == [0xff] && [0xff][..0] == [];
    assert Value([0xff]) == 0xff && Value(tail) == 0xff00;
  }

  /** Blocks of one wrapper differ; a carry out of the last two bytes never reaches the next nonce's blocks. */
  lemma LaterCounterBlocksDisjoint(a: Context, i: nat, b: Context, j: nat)
    requires Encodable(a, 0) && Encodable(b, 0)
    requires i < BlocksUsed(U16_LIMIT) && j < BlocksUsed(U16_LIMIT)
    requires var m, n := Value(Nonce(a)), Value(Nonce(b)); m < n || (m == n && i < j)
    ensures CounterBlock(Counter0(a), i) != CounterBlock(Counter0(b), j)
  {
    Counter0Value(a);
    Counter0Value(b);
    CounterBlockValue(Counter0(a), i);
    CounterBlockValue(Counter0(b), j);
    PowersOf256();
    var x, y := Value(Counter0(a)) + i, Value(Counter0(b)) + j;
    assert y - x == (Value(Nonce(b)) - Value(Nonce(a))) * U16_LIMIT + j - i;
    DistinctMod(x, y, TWO_128);
  }

  /**
   Any two counter blocks of any two wrappers are the same if and only if sequence id, serial number, tag
   and the block's place in its wrapper are.
   */
  lemma CounterBlocksDistinct(a: Context, m: nat, i: nat, b: Context, n: nat, j: nat)
    requires Encodable(a, m) && Encodable(b, n)
    requires i < BlocksUsed(m) && j < BlocksUsed(n)
    ensures CounterBlock(Counter0(a), i) == CounterBlock(Counter0(b), j)
        <==> && a.sequenceId == b.sequenceId && a.serialNumber == b.serialNumber
             && a.messageTag == b.messageTag && i == j
  {
    var x, y := Value(Nonce(a)), Value(Nonce(b));
    if x < y || (x == y && i < j) {
      LaterCounterBlocksDisjoint(a, i, b, j);
    } else if y < x || j < i {
      LaterCounterBlocksDisjoint(b, j, a, i);
    } else {
      ValueInjective(Nonce(a), Nonce(b));
      NonceInjective(a, b);
    }
  }
}

/** The handshake MACs of src/secure/handshake.ts, over an arbitrary block cipher. */
module Handshake {
  import opened Bytes
  import opened Crypto

  const COUNTER_0_HANDSHAKE: Block := Zeros(14) + [0xff, 0x00]
  const SESSION_RESPONSE_HEADER: bytes := [0x06, 0x10, 0x09, 0x52, 0x00, 0x38]
  const SESSION_AUTHENTICATE_HEADER: bytes := [0x06, 0x10, 0x09, 0x53, 0x00, 0x18]

  type PublicKey = k: bytes | |k| == 32 witness Zeros(32)

  /** What the server's MAC covers: the session id and the two public keys combined. */
  function ResponseData(sessionId: int, client: PublicKey, server: PublicKey): (ad: bytes)
    requires 0 <= sessionId < U16_LIMIT
    ensures |ad| == 40
  {
    SESSION_RESPONSE_HEADER + U16(sessionId) + XorBytes(client, server)
  }

  function AuthenticateData(userId: int, client: PublicKey, server: PublicKey): (ad: bytes)
    requires 1 <= userId <= 127
    ensures |ad| == 40
  {
    SESSION_AUTHENTICATE_HEADER + [0x00, userId] + XorBytes(client, server)
  }

  /** A CBC-MAC without block_0 or payload, under the fixed counter. */
  function HandshakeMac(E: Cipher, key: Block, ad: bytes): Block
    requires |ad| < U16_LIMIT
  {
    CtrXor(E, key, COUNTER_0_HANDSHAKE, CbcMac(E, key, ad, [], Zeros(16)))
  }

  /** The MAC a server's SESSION_RESPONSE carries under the device authentication code. */
  function SessionResponseMac(E: Cipher, code: Block, sessionId: int, client: PublicKey, server: PublicKey): Block
    requires 0 <= sessionId < U16_LIMIT
  {
    HandshakeMac(E, code, ResponseData(sessionId, client, server))
  }

  /** The MAC the client's SESSION_AUTHENTICATE carries under the user password key. */
  function AuthenticateMac(E: Cipher, passwordKey: Block, userId: int, client: PublicKey, server: PublicKey): Block
    requires 1 <= userId <= 127
  {
    HandshakeMac(E, passwordKey, AuthenticateData(userId, client, server))
  }

  /**
   What a handshake MAC is: the end of a CBC chain over a zero block, the data's length and the data, against
   the cipher of the block that stands for 0xff00.
   */
  lemma HandshakeMacLaw(E: Cipher, key: Block, ad: bytes, input: bytes, chain: seq<Block>, b: Block, p: nat)
    requires |ad| < U16_LIMIT && IsMacBlocks(input, Zeros(16), ad, []) && IsChain(E, key, input, chain)
    requires Value(b) == 0xff00 && p < 16
    ensures chain != [] && HandshakeMac(E, key, ad)[p] == XorByte(chain[|chain| - 1][p], E(key, b)[p])
  {
    MacEndsChain(E, key, ad, [], Zeros(16), input, chain);
    CounterNumber();
    CtrLaw(E, key, COUNTER_0_HANDSHAKE, chain[|chain| - 1], p, b);
  }

  lemma {:induction false} ZerosValue(n: nat)
    ensures Value(Zeros(n)) == 0
  {
    if n > 0 {
      ZerosValue(n - 1);
      assert Zeros(n)[..n - 1] == Zeros(n - 1);
    }
  }

  lemma CounterNumber()
    ensures Value(COUNTER_0_HANDSHAKE) == 0xff00
  {
    var tail: bytes := [0xff, 0x00];
    ZerosValue(14);
    ValueConcat(Zeros(14), tail);
    assert tail[..1] == [0xff] && [0xff][..0] == [];
    assert Value([0xff]) == 0xff && Value(tail) == 0xff00;
  }

  /** Where the fields stand: the claimed header, session id or user id, and the two keys combined. */
  lemma DataLayout(sessionId: int, userId: int, client: PublicKey, server: PublicKey)
    requires 0 <= sessionId < U16_LIMIT && 1 <= userId <= 127
    ensures var r := ResponseData(sessionId, client, server);
      && r[..6] == [0x06, 0x10, 0x09, 0x52, 0x00, 0x38] && ReadU16(r, 6) == sessionId
      && r[8..] == XorBytes(client, server)
    ensures var a := AuthenticateData(userId, client, server);
      && a[..8] == [0x06, 0x10, 0x09, 0x53, 0x00, 0x18, 0x00, userId] && a[8..] == XorBytes(client, server)
  {
    var r := ResponseData(sessionId, client, server);
    assert r == SESSION_RESPONSE_HEADER + U16(sessionId) + XorBytes(client, server);
    U16RoundTrip(sessionId, SESSION_RESPONSE_HEADER, XorBytes(client, server));
  }

  /** The blocks a handshake MAC chains over. */
  function MacBlocks(ad: bytes): bytes
    requires |ad| < U16_LIMIT
  {
    Pad16(MacInput(Zeros(16), ad, []))
  }

  lemma MacBlocksInjective(a: bytes, b: bytes)
    requires |a| == |b| < U16_LIMIT && MacBlocks(a) == MacBlocks(b)
    ensures a == b
  {
    var m, n := MacInput(Zeros(16), a, []), MacInput(Zeros(16), b, []);
    PadInjective(m, n);
    assert a == m[18..18 + |a|] && b == n[18..18 + |b|];
  }

  /** For one client key, the MAC input of a SESSION_RESPONSE determines session id and server key. */
  lemma ResponseInputInjective(client: PublicKey, idA: int, serverA: PublicKey, idB: int, serverB: PublicKey)
    requires 0 <= idA < U16_LIMIT && 0 <= idB < U16_LIMIT
    ensures MacBlocks(ResponseData(idA, client, serverA)) == MacBlocks(ResponseData(idB, client, serverB))
       <==> idA == idB && serverA == serverB
  {
    var a, b := ResponseData(idA, client, serverA), ResponseData(idB, client, serverB);
    if MacBlocks(a) == MacBlocks(b) {
      MacBlocksInjective(a, b);
      assert a[6..8] == U16(idA) && b[6..8] == U16(idB);
      assert a[8..] == XorBytes(client, serverA) && b[8..] == XorBytes(client, serverB);
      U16Injective(idA, idB);
      XorBytesInjective(client, serverA, serverB);
    }
  }

  /** The same for the user id and server key of a SESSION_AUTHENTICATE; the two messages share no input. */
  lemma AuthenticateInputInjective(client: PublicKey, userA: int, serverA: PublicKey, userB: int, serverB: PublicKey,
                                   sessionId: int)
    requires 1 <= userA <= 127 && 1 <= userB <= 127 && 0 <= sessionId < U16_LIMIT
    ensures MacBlocks(AuthenticateData(userA, client, serverA)) == MacBlocks(AuthenticateData(userB, client, serverB))
       <==> userA == userB && serverA == serverB
    ensures MacBlocks(AuthenticateData(userA, client, serverA)) != MacBlocks(ResponseData(sessionId, client, serverB))
  {
    var a, b := AuthenticateData(userA, client, serverA), AuthenticateData(userB, client, serverB);
    if MacBlocks(a) == MacBlocks(b) {
      MacBlocksInjective(a, b);
      assert a[7] == userA && b[7] == userB;
      assert a[8..] == XorBytes(client, serverA) && b[8..] == XorBytes(client, serverB);
      XorBytesInjective(client, serverA, serverB);
    }
    var r := ResponseData(sessionId, client, serverB);
    assert a[3] == 0x53 && r[3] == 0x52;
    if MacBlocks(a) == MacBlocks(r) {
      MacBlocksInjective(a, r);
    }
  }
}

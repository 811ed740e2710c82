/** What the Data Secure MAC and key stream depend on. */
module DataSecureMac {
  import opened Bytes
  import opened Crypto
  import opened DataSecure
  import Wrapper

  /** The fields of a telegram the MAC blocks are built from, as they reach the blocks. */
  datatype Fields = Fields(sequence: int, link: Link, tpci: int) {

    predicate Valid() {
      0 <= sequence < U48_LIMIT
    }

    /** Addresses count modulo 2^16, of the TPCI only its six bits. */
    predicate SameAs(other: Fields) {
      && SameStream(other) && link.dstIsGroup == other.link.dstIsGroup
      && TpciBits(tpci) == TpciBits(other.tpci)
    }

    predicate SameStream(other: Fields) {
      && sequence == other.sequence
      && link.src % U16_LIMIT == other.link.src % U16_LIMIT
      && link.dst % U16_LIMIT == other.link.dst % U16_LIMIT
    }

    function MacBlocks(ad: bytes, plain: bytes): bytes
      requires Valid() && |ad| < U16_LIMIT
    {
      Pad16(MacInput(Block0(sequence, link, tpci, |plain|), ad, plain))
    }
  }

  lemma NonceInjective(a: Fields, b: Fields)
    requires a.Valid() && b.Valid()
    ensures Nonce(a.sequence, a.link) == Nonce(b.sequence, b.link) <==> a.SameStream(b)
  {
    var m, n := Nonce(a.sequence, a.link), Nonce(b.sequence, b.link);
    if m == n {
      assert m[..6] == U48(a.sequence) && n[..6] == U48(b.sequence);
      assert m[6..8] == U16(a.link.src % U16_LIMIT) && n[6..8] == U16(b.link.src % U16_LIMIT);
      assert m[8..] == U16(a.link.dst % U16_LIMIT) && n[8..] == U16(b.link.dst % U16_LIMIT);
      U48Injective(a.sequence, b.sequence);
      U16Injective(a.link.src % U16_LIMIT, b.link.src % U16_LIMIT);
      U16Injective(a.link.dst % U16_LIMIT, b.link.dst % U16_LIMIT);
    }
  }

  lemma Block0Injective(a: Fields, m: nat, b: Fields, n: nat)
    requires a.Valid() && b.Valid() && m <= MAX_PLAIN && n <= MAX_PLAIN
    ensures Block0(a.sequence, a.link, a.tpci, m) == Block0(b.sequence, b.link, b.tpci, n) <==> a.SameAs(b) && m == n
  {
    var x, y := Block0(a.sequence, a.link, a.tpci, m), Block0(b.sequence, b.link, b.tpci, n);
    NonceInjective(a, b);
    if x == y {
      assert x[..10] == Nonce(a.sequence, a.link) && y[..10] == Nonce(b.sequence, b.link);
      assert x[11] == y[11] && x[12] == y[12] && x[15] == y[15];
    }
  }

  /**
   The padded MAC input determines sequence number, both addresses, the address type, the TPCI, the
   additional data and the payload, and nothing else enters it. The additional data is the control field
   in confidential mode and empty otherwise, so the two modes never share an input.
   */
  lemma MacInputInjective(a: Fields, ad: bytes, p: bytes, b: Fields, bd: bytes, q: bytes)
    requires a.Valid() && b.Valid() && |p| <= MAX_PLAIN && |q| <= MAX_PLAIN
    requires |ad| < U16_LIMIT && |bd| < U16_LIMIT
    ensures a.MacBlocks(ad, p) == b.MacBlocks(bd, q) <==> a.SameAs(b) && ad == bd && p == q
  {
    var x, y := Block0(a.sequence, a.link, a.tpci, |p|), Block0(b.sequence, b.link, b.tpci, |q|);
    Block0Injective(a, |p|, b, |q|);
    if a.MacBlocks(ad, p) == b.MacBlocks(bd, q) {
      var m, n := MacInput(x, ad, p), MacInput(y, bd, q);
      assert m[..18] == Pad16(m)[..18] == Pad16(n)[..18] == n[..18];
      assert x == m[..18][..16] && y == n[..18][..16];
      assert U16(|ad|) == m[..18][16..] && U16(|bd|) == n[..18][16..];
      U16Injective(|ad|, |bd|);
      PadInjective(m, n);
      assert ad == m[18..18 + |ad|] && bd == n[18..18 + |bd|];
      assert p == m[18 + |ad|..] && q == n[18 + |bd|..];
    }
  }

  /** Where each field stands in the two blocks. */
  lemma BlockLayout(f: Fields, n: nat)
    requires f.Valid() && n < 0x100
    ensures var b, c := Block0(f.sequence, f.link, f.tpci, n), Ctr0(f.sequence, f.link);
      && ReadU48(b, 0) == f.sequence && ReadU16(b, 6) == f.link.src % U16_LIMIT
      && ReadU16(b, 8) == f.link.dst % U16_LIMIT && b[10] == 0 && b[11] == (if f.link.dstIsGroup then 0x80 else 0)
      && b[12] == f.tpci % 0x100 - f.tpci % 4 + 0x03 && b[13] == 0xf1 && b[14] == 0 && b[15] == n
      && c[..10] == b[..10] && c[10..] == [0, 0, 0, 0, 1, 0]
  {
    var x, y, z := U48(f.sequence), U16(f.link.src % U16_LIMIT), U16(f.link.dst % U16_LIMIT);
    var b := Block0(f.sequence, f.link, f.tpci, n);
    assert b == [] + x + (y + z + b[10..]);
    U48RoundTrip(f.sequence, [], y + z + b[10..]);
    assert b == x + y + (z + b[10..]);
    U16RoundTrip(f.link.src % U16_LIMIT, x, z + b[10..]);
    assert b == (x + y) + z + b[10..];
    U16RoundTrip(f.link.dst % U16_LIMIT, x + y, b[10..]);
    var t := f.tpci % 0x100;
    assert f.tpci % 4 == t % 4 && t == t / 4 * 4 + t % 4;
  }

  /** The tag is cut from the end of a CBC chain over block_0, the additional data and the payload. */
  lemma TagIsChain(E: Cipher, key: Block, f: Fields, ad: bytes, plain: bytes, input: bytes, chain: seq<Block>)
    requires f.Valid() && |ad| < U16_LIMIT
    requires IsMacBlocks(input, Block0(f.sequence, f.link, f.tpci, |plain|), ad, plain) && IsChain(E, key, input, chain)
    ensures chain != [] && Tag(E, key, f.sequence, f.link, f.tpci, ad, plain) == chain[|chain| - 1][..4]
  {
    MacEndsChain(E, key, ad, plain, Block0(f.sequence, f.link, f.tpci, |plain|), input, chain);
  }

  /** Under a permutation, payloads of one length that differ within one block of the MAC input have different MACs. */
  lemma FullMacTells(E: Cipher, key: Block, f: Fields, ad: bytes, p: bytes, q: bytes, k: nat)
    requires f.Valid() && |ad| < U16_LIMIT && Injective(E, key) && |p| == |q| && p != q
    requires forall i :: 0 <= i < |p| && (18 + |ad| + i) / 16 != k ==> p[i] == q[i]
    ensures FullMac(E, key, f.sequence, f.link, f.tpci, ad, p) != FullMac(E, key, f.sequence, f.link, f.tpci, ad, q)
  {
    MacTellsPayloads(E, key, ad, p, q, Block0(f.sequence, f.link, f.tpci, |p|), k);
  }

  // ---------- the key stream ----------

  const TWO_48 := 0x1_0000_0000_0000
  const TWO_64 := 0x1_0000_0000_0000_0000
  const MAX_BLOCKS := (MAC_LEN + MAX_PLAIN + 15) / 16

  /** Counter block i of a telegram, as a number: the nonce in the upper ten bytes, no carry into it. */
  lemma StreamBlockValue(f: Fields, i: nat)
    requires f.Valid() && i < MAX_BLOCKS
    ensures Value(CounterBlock(Ctr0(f.sequence, f.link), i))
         == Value(Nonce(f.sequence, f.link)) * TWO_48 + 0x100 + i
  {
    var nonce, tail: bytes := Nonce(f.sequence, f.link), [0, 0, 0, 0, 1, 0];
    ValueConcat(nonce, tail);
    PowersOf256();
    ValueBound(nonce);
    TailValue();
    var v := Value(nonce) * TWO_48 + 0x100;
    assert Value(Ctr0(f.sequence, f.link)) == v;
    CounterBlockValue(Ctr0(f.sequence, f.link), i);
    assert v + i < Pow256(16);
    SmallMod(v + i, Pow256(16));
  }

  lemma TailValue()
    ensures Value([0, 0, 0, 0, 1, 0]) == 0x100
  {
    assert [0, 0][..1] == [0] && [0, 0, 0][..2] == [0, 0] && [0, 0, 0, 0][..3] == [0, 0, 0];
    assert Value([0]) == 0 && Value([0, 0]) == 0 && Value([0, 0, 0]) == 0 && Value([0, 0, 0, 0]) == 0;
    assert [0, 0, 0, 0, 1][..4] == [0, 0, 0, 0] && [0, 0, 0, 0, 1, 0][..5] == [0, 0, 0, 0, 1];
  }

  /**
   Two counter blocks are the same if and only if they are the same block of telegrams with one sequence
   number between the same two addresses: a fresh sequence number per source never repeats key stream.
   */
  lemma CounterBlocksDistinct(a: Fields, i: nat, b: Fields, j: nat)
    requires a.Valid() && b.Valid() && i < MAX_BLOCKS && j < MAX_BLOCKS
    ensures CounterBlock(Ctr0(a.sequence, a.link), i) == CounterBlock(Ctr0(b.sequence, b.link), j)
       <==> a.SameStream(b) && i == j
  {
    StreamBlockValue(a, i);
    StreamBlockValue(b, j);
    NonceInjective(a, b);
    if CounterBlock(Ctr0(a.sequence, a.link), i) == CounterBlock(Ctr0(b.sequence, b.link), j) {
      ValueInjective(Nonce(a.sequence, a.link), Nonce(b.sequence, b.link));
    }
  }

  /** What the cipher's i-th input block stands for: sequence number, both addresses, 0x100, and i more. */
  function InputNumber(f: Fields, i: nat): int {
    f.sequence * TWO_80 + f.link.src % U16_LIMIT * TWO_64 + f.link.dst % U16_LIMIT * TWO_48 + 0x100 + i
  }

  lemma NonceNumber(f: Fields)
    requires f.Valid()
    ensures Value(Nonce(f.sequence, f.link))
         == (f.sequence * U16_LIMIT + f.link.src % U16_LIMIT) * U16_LIMIT + f.link.dst % U16_LIMIT
  {
    var x, y, z := U48(f.sequence), U16(f.link.src % U16_LIMIT), U16(f.link.dst % U16_LIMIT);
    Wrapper.ValueOfU48(f.sequence);
    Wrapper.ValueOfU16(f.link.src % U16_LIMIT);
    Wrapper.ValueOfU16(f.link.dst % U16_LIMIT);
    PowersOf256();
    ValueConcat(x, y);
    ValueConcat(x + y, z);
  }

  /** The one block with the i-th input number is the i-th counter block. */
  lemma InputBlock(f: Fields, i: nat, b: Block)
    requires f.Valid() && i < MAX_BLOCKS && Value(b) == InputNumber(f, i)
    ensures b == CounterBlock(Ctr0(f.sequence, f.link), i)
    ensures Value(b) == (Value(Ctr0(f.sequence, f.link)) + i) % TWO_128
  {
    NonceNumber(f);
    StreamBlockValue(f, i);
    ValueInjective(b, CounterBlock(Ctr0(f.sequence, f.link), i));
    CounterBlockValue(Ctr0(f.sequence, f.link), i);
    PowersOf256();
  }

  /** What a telegram's encrypted bytes are the encryption of: the tag, then the text if it is confidential. */
  function Clear(E: Cipher, key: Block, f: Fields, scf: byte, plain: bytes): bytes
    requires f.Valid()
  {
    if AuthConf(scf) then Tag(E, key, f.sequence, f.link, f.tpci, [scf], plain) + plain
    else Tag(E, key, f.sequence, f.link, f.tpci, [], plain)
  }

  /** The encrypted bytes in the order they were encrypted: the MAC at the end first. */
  function EncryptedPart(lsdu: bytes): bytes
    requires |lsdu| >= 13
  {
    lsdu[|lsdu| - 4..] + (if AuthConf(lsdu[2]) then lsdu[9..|lsdu| - 4] else [])
  }

  /** Block i of a telegram's encrypted part was made with the block whose number is its i-th input number. */
  lemma CipherInputs(E: Cipher, key: Block, f: Fields, scf: byte, plain: bytes, i: nat, b: Block)
    requires f.Valid() && i < MAX_BLOCKS && Value(b) == InputNumber(f, i)
    ensures var lsdu := Secured(E, key, f.link, f.tpci, scf, f.sequence, plain);
      && lsdu[2] == scf && (!AuthConf(scf) ==> lsdu[9..|lsdu| - 4] == plain)
      && EncryptedBy(E, key, EncryptedPart(lsdu), Clear(E, key, f, scf, plain), i, b)
  {
    var lsdu := Secured(E, key, f.link, f.tpci, scf, f.sequence, plain);
    SecuredParts(E, key, f.link, f.tpci, scf, f.sequence, plain, lsdu);
    InputBlock(f, i, b);
    var clear := Clear(E, key, f, scf, plain);
    CtrBlockLaw(E, key, Ctr0(f.sequence, f.link), clear, i, b);
    var crypt := CtrXor(E, key, Ctr0(f.sequence, f.link), clear);
    assert crypt == crypt[..4] + crypt[4..];
    assert EncryptedPart(lsdu) == crypt;
  }

  /**
   Cipher inputs of any two telegrams coincide if and only if they are the same block of telegrams with one
   sequence number between the same two addresses.
   */
  lemma CipherInputsDistinct(a: Fields, i: nat, x: Block, b: Fields, j: nat, y: Block)
    requires a.Valid() && i < MAX_BLOCKS && Value(x) == InputNumber(a, i)
    requires b.Valid() && j < MAX_BLOCKS && Value(y) == InputNumber(b, j)
    ensures x == y <==> a.SameStream(b) && i == j
  {
    InputBlock(a, i, x);
    InputBlock(b, j, y);
    CounterBlocksDistinct(a, i, b, j);
  }
}

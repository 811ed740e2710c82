/**
 The block-cipher modes of src/secure/crypto.ts over an arbitrary block function.

 AES itself is library code: every statement here holds for any function from a key block and an
 input block to an output block. Counter mode and its increment follow section 6.5 and Appendix B.1
 of NIST SP 800-38A, cipher block chaining section 6.2.
 */
module Crypto {
  import opened Bytes
  import opened Wrappers

  const BLOCK_SIZE := 16

  type Block = b: bytes | |b| == 16 witness Zeros(16)

  /** Key block, input block, output block. */
  type Cipher = (Block, Block) -> Block

  // ---------- counter mode ----------

  /** The big-endian number a byte string stands for. */
  function Value(b: bytes): nat {
    if b == [] then 0
    else
      var last: int := b[|b| - 1];
      Value(b[..|b| - 1]) * 256 + last
  }

  function Pow256(n: nat): (p: nat)
    ensures p >= 1
  {
    if n == 0 then 1 else 256 * Pow256(n - 1)
  }

  /** Add one to the whole byte string, carrying from the last byte; all ones wrap to zero. */
  function Increment(b: bytes): (r: bytes)
    ensures |r| == |b|
  {
    if b == [] then []
    else if b[|b| - 1] < 255 then b[..|b| - 1] + [b[|b| - 1] + 1]
    else Increment(b[..|b| - 1]) + [0]
  }

  /** The i-th counter block after `counter0`. */
  function CounterBlock(counter0: Block, i: nat): Block {
    if i == 0 then counter0 else Increment(CounterBlock(counter0, i - 1))
  }

  /** `data` against the cipher's output on successive counter blocks. */
  function CtrXor(E: Cipher, key: Block, counter0: Block, data: bytes): (r: bytes)
    ensures |r| == |data|
  {
    seq<byte>(|data|, p requires 0 <= p < |data| =>
      XorByte(data[p], E(key, CounterBlock(counter0, p / BLOCK_SIZE))[p % BLOCK_SIZE]))
  }

  lemma {:induction false} ValueBound(b: bytes)
    ensures Value(b) < Pow256(|b|)
  {
    if b != [] {
      ValueBound(b[..|b| - 1]);
    }
  }

  lemma {:induction false} IncrementValue(b: bytes)
    ensures Value(Increment(b)) == if Value(b) + 1 == Pow256(|b|) then 0 else Value(b) + 1
  {
    if b != [] {
      var init := b[..|b| - 1];
      ValueBound(init);
      if b[|b| - 1] < 255 {
        assert (init + [b[|b| - 1] + 1])[..|b| - 1] == init;
      } else {
        IncrementValue(init);
        assert (Increment(init) + [0])[..|b| - 1] == Increment(init);
      }
    }
  }

  /** Counter block i stands for counter0 + i modulo 2^128. */
  lemma {:induction false} CounterBlockValue(counter0: Block, i: nat)
    ensures Value(CounterBlock(counter0, i)) == Wrapped(Value(counter0) + i)
  {
    hide Value, Increment, Pow256;
    if i == 0 {
      ValueBound(counter0);
      SmallMod(Value(counter0), Pow256(16));
    } else {
      CounterBlockValue(counter0, i - 1);
      CounterStep(CounterBlock(counter0, i - 1), Value(counter0) + i - 1);
    }
  }

  /** A number as a 16-byte block holds it. */
  function Wrapped(n: nat): nat {
    n % Pow256(16)
  }

  lemma SmallMod(x: nat, m: nat)
    requires x < m
    ensures x % m == x
  {
  }

  lemma CounterStep(b: Block, n: nat)
    requires Value(b) == Wrapped(n)
    ensures Value(Increment(b)) == Wrapped(n + 1)
  {
    IncrementValue(b);
    ModNext(n, Pow256(16));
  }

  lemma ModNext(x: nat, m: nat)
    requires m >= 1
    ensures (x + 1) % m == if x % m + 1 == m then 0 else x % m + 1
  {
    var q, r := x / m, x % m;
    if r + 1 == m {
      ModUnique(x + 1, q + 1, 0, m);
    } else {
      ModUnique(x + 1, q, r + 1, m);
    }
  }

  lemma MulStep(a: nat, b: nat, m: nat)
    requires a < b
    ensures a * m + m <= b * m
  {
    assert b * m == a * m + m + (b - a - 1) * m;
  }

  lemma ModUnique(x: nat, q: nat, r: nat, m: nat)
    requires m >= 1 && r < m && x == q * m + r
    ensures x % m == r
  {
    var q' := x / m;
    assert x == q' * m + x % m;
    if q < q' {
      MulStep(q, q', m);
    } else if q' < q {
      MulStep(q', q, m);
    }
  }

  /** Numbers less than one modulus apart differ modulo it. */
  lemma DistinctMod(x: nat, y: nat, m: nat)
    requires x < y < x + m
    ensures x % m != y % m
  {
    if x % m == y % m {
      if x / m < y / m {
        MulStep(x / m, y / m, m);
      } else if y / m < x / m {
        MulStep(y / m, x / m, m);
      }
    }
  }

  const TWO_80 := 0x1_0000_0000_0000_0000_0000
  const TWO_112 := 0x1_0000_0000_0000_0000_0000_0000_0000
  const TWO_128 := 0x1_0000_0000_0000_0000_0000_0000_0000_0000

  lemma {:induction false} ValueConcat(x: bytes, y: bytes)
    ensures Value(x + y) == Value(x) * Pow256(|y|) + Value(y)
  {
    if y == [] {
      assert x + y == x;
    } else {
      var y' := y[..|y| - 1];
      ValueConcat(x, y');
      assert (x + y)[..|x + y| - 1] == x + y';
      Carry(Value(x), Pow256(|y'|), Value(y'), y[|y| - 1]);
    }
  }

  lemma Carry(v: int, p: int, w: int, last: int)
    ensures (v * p + w) * 256 + last == v * (256 * p) + (w * 256 + last)
  {
  }

  lemma PowersOf256()
    ensures Pow256(2) == U16_LIMIT && Pow256(6) == U48_LIMIT
    ensures Pow256(10) == TWO_80 && Pow256(14) == TWO_112 && Pow256(16) == TWO_128
  {
    assert Pow256(2) == 256 * Pow256(1);
    assert Pow256(4) == 256 * Pow256(3) == 65536 * Pow256(2);
    assert Pow256(6) == 256 * Pow256(5) == 65536 * Pow256(4);
    assert Pow256(8) == 256 * Pow256(7) == 65536 * Pow256(6);
    assert Pow256(10) == 256 * Pow256(9) == 65536 * Pow256(8);
    assert Pow256(12) == 256 * Pow256(11) == 65536 * Pow256(10);
    assert Pow256(14) == 256 * Pow256(13) == 65536 * Pow256(12);
    assert Pow256(16) == 256 * Pow256(15) == 65536 * Pow256(14);
  }

  lemma {:induction false} ValueInjective(x: bytes, y: bytes)
    requires |x| == |y| && Value(x) == Value(y)
    ensures x == y
  {
    if x != [] {
      var n := |x| - 1;
      var a: int, b: int := x[n], y[n];
      assert Value(x) % 256 == a && Value(y) % 256 == b;
      ValueInjective(x[..n], y[..n]);
      assert x == x[..n] + [x[n]] && y == y[..n] + [y[n]];
    }
  }

  /** Running counter mode twice gives the data back. */
  lemma CtrInvolution(E: Cipher, key: Block, counter0: Block, data: bytes)
    ensures CtrXor(E, key, counter0, CtrXor(E, key, counter0, data)) == data
  {
    var once := CtrXor(E, key, counter0, data);
    var twice := CtrXor(E, key, counter0, once);
    forall p | 0 <= p < |data| ensures twice[p] == data[p] {
      BitXorCancel(data[p], E(key, CounterBlock(counter0, p / BLOCK_SIZE))[p % BLOCK_SIZE]);
    }
  }

  /**
   What counter mode is (section 6.5 of NIST SP 800-38A): byte p of the output is byte p of the data against
   byte p modulo 16 of the cipher of the one block that stands for counter0 + p / 16 modulo 2^128.
   */
  lemma CtrLaw(E: Cipher, key: Block, counter0: Block, data: bytes, p: nat, b: Block)
    requires p < |data| && Value(b) == (Value(counter0) + p / 16) % TWO_128
    ensures CtrXor(E, key, counter0, data)[p] == XorByte(data[p], E(key, b)[p % 16])
  {
    CounterBlockValue(counter0, p / 16);
    PowersOf256();
    ValueInjective(b, CounterBlock(counter0, p / 16));
  }

  /** The bytes of block i of `wire` are those of `clear` against the cipher of block `b`. */
  predicate EncryptedBy(E: Cipher, key: Block, wire: bytes, clear: bytes, i: nat, b: Block) {
    |wire| == |clear| && (forall p :: 0 <= p < |clear| && p / 16 == i ==>
      wire[p] == XorByte(clear[p], E(key, b)[p % 16]))
  }

  lemma CtrBlockLaw(E: Cipher, key: Block, counter0: Block, clear: bytes, i: nat, b: Block)
    requires Value(b) == (Value(counter0) + i) % TWO_128
    ensures EncryptedBy(E, key, CtrXor(E, key, counter0, clear), clear, i, b)
  {
    var wire := CtrXor(E, key, counter0, clear);
    forall p | 0 <= p < |clear| && p / 16 == i ensures wire[p] == XorByte(clear[p], E(key, b)[p % 16]) {
      CtrLaw(E, key, counter0, clear, p, b);
    }
  }

  // ---------- cipher block chaining ----------

  /** All cipher blocks of a message of whole blocks, chained from `iv`. */
  function CbcEncrypt(E: Cipher, key: Block, iv: Block, m: bytes): (c: bytes)
    requires |m| % BLOCK_SIZE == 0
    ensures |c| == |m|
    decreases |m|
  {
    if m == [] then []
    else
      var first := E(key, XorBytes(iv, m[..16]));
      first + CbcEncrypt(E, key, first, m[16..])
  }

  function BlockAt(m: bytes, j: nat): Block
    requires 16 * j + 16 <= |m|
  {
    m[16 * j..16 * j + 16]
  }

  /** Each cipher block is the cipher of its own message block and the cipher block before it. */
  lemma {:induction false} CbcChaining(E: Cipher, key: Block, iv: Block, m: bytes, j: nat)
    requires |m| % BLOCK_SIZE == 0 && 16 * j + 16 <= |m|
    ensures BlockAt(CbcEncrypt(E, key, iv, m), j)
         == E(key, XorBytes(if j == 0 then iv else BlockAt(CbcEncrypt(E, key, iv, m), j - 1), BlockAt(m, j)))
    decreases j
  {
    var first := E(key, XorBytes(iv, m[..16]));
    var rest := CbcEncrypt(E, key, first, m[16..]);
    assert CbcEncrypt(E, key, iv, m) == first + rest;
    if j > 0 {
      CbcChaining(E, key, first, m[16..], j - 1);
      assert BlockAt(first + rest, j) == BlockAt(rest, j - 1);
      assert BlockAt(m, j) == BlockAt(m[16..], j - 1);
      if j == 1 {
        assert BlockAt(first + rest, 0) == first;
      } else {
        assert BlockAt(first + rest, j - 1) == BlockAt(rest, j - 2);
      }
    } else {
      assert BlockAt(first + rest, 0) == first && BlockAt(m, 0) == m[..16];
    }
  }

  /** The last cipher block of a message of whole blocks. */
  function LastBlock(E: Cipher, key: Block, iv: Block, m: bytes): Block
    requires |m| % BLOCK_SIZE == 0 && m != []
  {
    BlockAt(CbcEncrypt(E, key, iv, m), |m| / 16 - 1)
  }

  // ---------- the KNX flavour of CBC-MAC ----------

  /** block_0, the length of the additional data, the additional data, the payload. */
  function MacInput(block0: Block, additionalData: bytes, payload: bytes): bytes
    requires |additionalData| < U16_LIMIT
  {
    block0 + U16(|additionalData|) + additionalData + payload
  }

  /** Zero-padded to a multiple of the block size; nothing is added to whole blocks. */
  function Pad16(m: bytes): (p: bytes)
    ensures |p| % BLOCK_SIZE == 0 && |m| <= |p| < |m| + BLOCK_SIZE
    ensures p[..|m|] == m
  {
    m + Zeros((16 - |m| % 16) % 16)
  }

  /** The last cipher block of the padded input under a zero initial vector. */
  function CbcMac(E: Cipher, key: Block, additionalData: bytes, payload: bytes, block0: Block): Block
    requires |additionalData| < U16_LIMIT
  {
    LastBlock(E, key, Zeros(16), Pad16(MacInput(block0, additionalData, payload)))
  }

  // ---------- what the MAC is ----------

  /** Chaining over two parts is chaining over the second from the last cipher block of the first. */
  lemma {:induction false} LastBlockSplit(E: Cipher, key: Block, iv: Block, m: bytes, n: bytes)
    requires |m| % BLOCK_SIZE == 0 && |n| % BLOCK_SIZE == 0 && m != [] && n != []
    ensures LastBlock(E, key, iv, m + n) == LastBlock(E, key, LastBlock(E, key, iv, m), n)
    decreases |m|
  {
    var first := E(key, XorBytes(iv, m[..16]));
    assert (m + n)[..16] == m[..16] && (m + n)[16..] == m[16..] + n;
    LastBlockStep(E, key, iv, m + n);
    if |m| == 16 {
      assert m[16..] + n == n && m == m[..16];
      LastBlockOne(E, key, iv, m);
    } else {
      LastBlockSplit(E, key, first, m[16..], n);
      LastBlockStep(E, key, iv, m);
    }
  }

  lemma LastBlockOne(E: Cipher, key: Block, iv: Block, m: bytes)
    requires |m| == 16
    ensures LastBlock(E, key, iv, m) == E(key, XorBytes(iv, m))
  {
    assert m[..16] == m && m[16..] == [];
    var c := E(key, XorBytes(iv, m));
    assert CbcEncrypt(E, key, iv, m) == c + [] == c;
    assert BlockAt(c, 0) == c;
  }

  lemma LastBlockStep(E: Cipher, key: Block, iv: Block, m: bytes)
    requires |m| % BLOCK_SIZE == 0 && |m| > 16
    ensures LastBlock(E, key, iv, m) == LastBlock(E, key, E(key, XorBytes(iv, m[..16])), m[16..])
  {
    var first := E(key, XorBytes(iv, m[..16]));
    var rest := CbcEncrypt(E, key, first, m[16..]);
    assert CbcEncrypt(E, key, iv, m) == first + rest;
    assert BlockAt(first + rest, |m| / 16 - 1) == BlockAt(rest, |m| / 16 - 2);
  }

  /** block_0, the length of the additional data, the additional data, the payload, and fewer than 16 zeroes. */
  predicate IsMacBlocks(input: bytes, block0: Block, additionalData: bytes, payload: bytes) {
    var a, n := 18 + |additionalData|, 18 + |additionalData| + |payload|;
    && n <= |input| < n + 16 && |input| % 16 == 0
    && input[..16] == block0 && ReadU16(input, 16) == |additionalData|
    && input[18..a] == additionalData && input[a..n] == payload
    && (forall i :: n <= i < |input| ==> input[i] == 0)
  }

  /** Block j of a chain is the cipher of its message block and the block before it. */
  predicate IsLink(E: Cipher, key: Block, input: bytes, chain: seq<Block>, j: nat)
    requires j < |chain| && |input| == 16 * |chain|
  {
    chain[j] == E(key, XorBytes(if j == 0 then Zeros(16) else chain[j - 1], BlockAt(input, j)))
  }

  /** A CBC chain over the blocks of `input` from a zero initial vector (section 6.2 of NIST SP 800-38A). */
  predicate IsChain(E: Cipher, key: Block, input: bytes, chain: seq<Block>) {
    |input| == 16 * |chain| && (forall j :: 0 <= j < |chain| ==> IsLink(E, key, input, chain, j))
  }

  lemma {:induction false} ChainEnds(E: Cipher, key: Block, input: bytes, chain: seq<Block>)
    requires chain != [] && IsChain(E, key, input, chain)
    ensures LastBlock(E, key, Zeros(16), input) == chain[|chain| - 1]
    decreases |chain|
  {
    hide LastBlock, XorBytes;
    var n := |chain| - 1;
    assert IsLink(E, key, input, chain, n);
    if n == 0 {
      assert BlockAt(input, 0) == input;
      LastBlockOne(E, key, Zeros(16), input);
    } else {
      var front, back, prefix := input[..16 * n], input[16 * n..], chain[..n];
      forall j | 0 <= j < n ensures IsLink(E, key, front, prefix, j) {
        assert IsLink(E, key, input, chain, j) && BlockAt(front, j) == BlockAt(input, j);
      }
      ChainEnds(E, key, front, prefix);
      assert input == front + back && back == BlockAt(input, n);
      LastBlockSplit(E, key, Zeros(16), front, back);
      LastBlockOne(E, key, chain[n - 1], back);
    }
  }

  lemma PaddedIsMacBlocks(block0: Block, additionalData: bytes, payload: bytes)
    requires |additionalData| < U16_LIMIT
    ensures IsMacBlocks(Pad16(MacInput(block0, additionalData, payload)), block0, additionalData, payload)
  {
    var m := MacInput(block0, additionalData, payload);
    var padded, n, a := Pad16(m), |m|, 18 + |additionalData|;
    assert m == block0 + U16(|additionalData|) + (additionalData + payload);
    U16RoundTrip(|additionalData|, block0, additionalData + payload);
    assert padded[..16] == m[..16] == block0;
    assert padded[18..a] == m[18..a] == additionalData && padded[a..n] == m[a..] == payload;
  }

  /** Fewer than sixteen bytes complete a block in one way only. */
  lemma PadLength(n: nat, k: nat)
    requires k < 16 && (n + k) % 16 == 0
    ensures k == (16 - n % 16) % 16
  {
  }

  lemma MacBlocksArePadded(input: bytes, block0: Block, additionalData: bytes, payload: bytes)
    requires |additionalData| < U16_LIMIT && IsMacBlocks(input, block0, additionalData, payload)
    ensures input == Pad16(MacInput(block0, additionalData, payload))
  {
    var a, n := 18 + |additionalData|, 18 + |additionalData| + |payload|;
    U16Print(input, 16);
    hide U16, ReadU16;
    assert input[..n] == input[..16] + input[16..18] + input[18..a] + input[a..n];
    assert input[..n] == MacInput(block0, additionalData, payload);
    PadLength(n, |input| - n);
    assert input[n..] == Zeros(|input| - n);
    assert input == input[..n] + input[n..];
  }

  /**
   What the MAC is: the last block of a CBC chain over the prescribed bytes, whichever way bytes and chain
   were come by. `PaddedIsMacBlocks` gives such bytes for every input.
   */
  lemma MacEndsChain(E: Cipher, key: Block, additionalData: bytes, payload: bytes, block0: Block,
                     input: bytes, chain: seq<Block>)
    requires |additionalData| < U16_LIMIT && IsMacBlocks(input, block0, additionalData, payload)
    requires IsChain(E, key, input, chain)
    ensures chain != [] && CbcMac(E, key, additionalData, payload, block0) == chain[|chain| - 1]
  {
    MacBlocksArePadded(input, block0, additionalData, payload);
    ChainEnds(E, key, input, chain);
  }

  function ZeroPadded(q: bytes): Block
    requires |q| <= 16
  {
    q + Zeros(16 - |q|)
  }

  /** One more piece behind whole blocks is one more step of the chain. */
  lemma MacExtends(E: Cipher, key: Block, additionalData: bytes, payload: bytes, q: bytes, block0: Block)
    requires |additionalData| < U16_LIMIT && (18 + |additionalData| + |payload|) % 16 == 0 && 0 < |q| <= 16
    ensures CbcMac(E, key, additionalData, payload + q, block0)
         == E(key, XorBytes(CbcMac(E, key, additionalData, payload, block0), ZeroPadded(q)))
  {
    hide LastBlock, XorBytes;
    var m := MacInput(block0, additionalData, payload);
    assert MacInput(block0, additionalData, payload + q) == m + q;
    PadLength(|m|, 0);
    PadLength(|m| + |q|, 16 - |q|);
    assert Pad16(m) == m + [] == m && Pad16(m + q) == (m + q) + Zeros(16 - |q|) == m + ZeroPadded(q);
    LastBlockSplit(E, key, Zeros(16), m, ZeroPadded(q));
    LastBlockOne(E, key, LastBlock(E, key, Zeros(16), m), ZeroPadded(q));
  }

  ghost predicate Injective(E: Cipher, key: Block) {
    forall x: Block, y: Block :: E(key, x) == E(key, y) ==> x == y
  }

  /** Under a permutation different starting points never meet over the same blocks. */
  lemma {:induction false} LastBlockFromIv(E: Cipher, key: Block, iv: Block, iv': Block, m: bytes)
    requires Injective(E, key) && |m| % BLOCK_SIZE == 0 && m != [] && iv != iv'
    ensures LastBlock(E, key, iv, m) != LastBlock(E, key, iv', m)
    decreases |m|
  {
    hide LastBlock, XorBytes;
    var x, y := XorBytes(iv, m[..16]), XorBytes(iv', m[..16]);
    if x == y {
      XorBytesCommute(iv, m[..16]);
      XorBytesCommute(iv', m[..16]);
      XorBytesInjective(m[..16], iv, iv');
    }
    if |m| == 16 {
      assert m[..16] == m;
      LastBlockOne(E, key, iv, m);
      LastBlockOne(E, key, iv', m);
    } else {
      LastBlockStep(E, key, iv, m);
      LastBlockStep(E, key, iv', m);
      LastBlockFromIv(E, key, E(key, x), E(key, y), m[16..]);
    }
  }

  /** The same bytes outside block k, different ones in it. */
  predicate DifferInBlock(m: bytes, n: bytes, k: nat) {
    |m| == |n| && m != n && (forall i :: 0 <= i < |m| && i / 16 != k ==> m[i] == n[i])
  }

  /** Under a permutation, messages that differ within one block have different last cipher blocks. */
  lemma {:induction false} LastBlockTells(E: Cipher, key: Block, iv: Block, m: bytes, n: bytes, k: nat)
    requires Injective(E, key) && |m| % BLOCK_SIZE == 0 && DifferInBlock(m, n, k)
    ensures LastBlock(E, key, iv, m) != LastBlock(E, key, iv, n)
    decreases |m|
  {
    hide LastBlock, XorBytes;
    var first, first' := E(key, XorBytes(iv, m[..16])), E(key, XorBytes(iv, n[..16]));
    if |m| == 16 {
      assert m[..16] == m && n[..16] == n;
      if XorBytes(iv, m) == XorBytes(iv, n) {
        XorBytesInjective(iv, m, n);
      }
      LastBlockOne(E, key, iv, m);
      LastBlockOne(E, key, iv, n);
    } else {
      LastBlockStep(E, key, iv, m);
      LastBlockStep(E, key, iv, n);
      assert m == m[..16] + m[16..] && n == n[..16] + n[16..];
      if k == 0 {
        forall i | 0 <= i < |m| - 16 ensures m[16..][i] == n[16..][i] {
          assert (i + 16) / 16 != 0;
        }
        assert m[16..] == n[16..];
        if XorBytes(iv, m[..16]) == XorBytes(iv, n[..16]) {
          XorBytesInjective(iv, m[..16], n[..16]);
        }
        LastBlockFromIv(E, key, first, first', m[16..]);
      } else {
        assert m[..16] == n[..16];
        forall i | 0 <= i < |m| - 16 && i / 16 != k - 1 ensures m[16..][i] == n[16..][i] {
          assert (i + 16) / 16 == i / 16 + 1;
        }
        LastBlockTells(E, key, first, m[16..], n[16..], k - 1);
      }
    }
  }

  /**
   Under a permutation, equally long payloads that differ only within one block of the padded input have
   different MACs: every payload byte reaches the MAC.
   */
  lemma MacTellsPayloads(E: Cipher, key: Block, additionalData: bytes, p: bytes, q: bytes, block0: Block, k: nat)
    requires Injective(E, key) && |additionalData| < U16_LIMIT
    requires |p| == |q| && p != q
    requires forall i :: 0 <= i < |p| && (18 + |additionalData| + i) / 16 != k ==> p[i] == q[i]
    ensures CbcMac(E, key, additionalData, p, block0) != CbcMac(E, key, additionalData, q, block0)
  {
    var m, n := MacInput(block0, additionalData, p), MacInput(block0, additionalData, q);
    hide LastBlock, U16;
    var front := block0 + U16(|additionalData|) + additionalData;
    assert m == front + p && n == front + q;
    assert p == m[|front|..] && q == n[|front|..];
    var x, y := Pad16(m), Pad16(n);
    forall i | 0 <= i < |x| && i / 16 != k ensures x[i] == y[i] {
      if |front| <= i < |m| {
        assert m[i] == p[i - |front|] && n[i] == q[i - |front|];
      }
    }
    assert x[..|m|] == m && y[..|n|] == n;
    LastBlockTells(E, key, Zeros(16), x, y, k);
  }

  /** Padding keeps apart messages of one length. */
  lemma PadInjective(m: bytes, n: bytes)
    requires |m| == |n| && Pad16(m) == Pad16(n)
    ensures m == n
  {
    assert m == Pad16(m)[..|m|] == Pad16(n)[..|n|] == n;
  }

  // ---------- buffer helpers ----------

  datatype CryptoError = LengthMismatch

  /** The loop of `bytesXor`; unequal lengths are a range error. */
  method BytesXor(a: bytes, b: bytes) returns (r: Result<bytes, CryptoError>)
    ensures |a| != |b| ==> r == Err(LengthMismatch)
    ensures |a| == |b| ==> r == Ok(XorBytes(a, b))
  {
    if |a| != |b| {
      return Err(LengthMismatch);
    }
    var out := new byte[|a|];
    var i := 0;
    while i < |a|
      invariant 0 <= i <= |a|
      invariant forall k :: 0 <= k < i ==> out[k] == XorByte(a[k], b[k])
    {
      out[i] := XorByte(a[i], b[i]);
      i := i + 1;
    }
    assert out[..] == XorBytes(a, b);
    return Ok(out[..]);
  }
}

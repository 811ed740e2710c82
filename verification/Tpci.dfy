/**
 Transport-layer control information (src/core/tpci.ts; section 2 of KNX 03_03_04): one byte, whose low
 two bits belong to the APCI in data TPDUs.
 */
module Tpci {
  import opened Bytes
  import opened Wrappers

  datatype Tpci =
    | TDataGroup
    | TDataBroadcast
    | TDataTagGroup
    | TDataIndividual
    | TDataConnected(sequenceNumber: int)
    | TConnect
    | TDisconnect
    | TAck(sequenceNumber: int)
    | TNak(sequenceNumber: int)

  datatype TpciError = InvalidTpci

  const CONTROL_BIT := 0x80
  const NUMBERED_BIT := 0x40

  predicate IsControl(t: Tpci) {
    t.TConnect? || t.TDisconnect? || t.TAck? || t.TNak?
  }

  /** The four sequence-number bits, in place. */
  function SequenceBits(n: int): (b: int)
    ensures 0 <= b < 64 && b % 4 == 0
  {
    n % 16 * 4
  }

  function Encode(t: Tpci): byte {
    match t
    case TDataGroup => 0
    case TDataBroadcast => 0
    case TDataIndividual => 0
    case TDataTagGroup => 4
    case TDataConnected(n) => NUMBERED_BIT + SequenceBits(n)
    case TConnect => CONTROL_BIT
    case TDisconnect => CONTROL_BIT + 1
    case TAck(n) => CONTROL_BIT + NUMBERED_BIT + SequenceBits(n) + 2
    case TNak(n) => CONTROL_BIT + NUMBERED_BIT + SequenceBits(n) + 3
  }

  /** The byte alone does not decide: group, broadcast and individual data share one encoding. */
  function Resolve(raw: byte, dstIsGroup: bool, dstIsZero: bool): Result<Tpci, TpciError> {
    var control := raw / 0x80 % 2 == 1;
    var numbered := raw / 0x40 % 2 == 1;
    var n := raw / 4 % 16;
    if dstIsGroup && (control || numbered) then Err(InvalidTpci)
    else if dstIsGroup && n == 0 then Ok(if dstIsZero then TDataBroadcast else TDataGroup)
    else if dstIsGroup && n == 1 then Ok(TDataTagGroup)
    else if !numbered && n != 0 then Err(InvalidTpci)
    else if !control then Ok(if numbered then TDataConnected(n) else TDataIndividual)
    else
      var flags := raw % 4;
      if !numbered && flags == 0 then Ok(TConnect)
      else if !numbered && flags == 1 then Ok(TDisconnect)
      else if numbered && flags == 2 then Ok(TAck(n))
      else if numbered && flags == 3 then Ok(TNak(n))
      else Err(InvalidTpci)
  }

  /** The variants that fit a destination. */
  predicate Canonical(t: Tpci, dstIsGroup: bool, dstIsZero: bool) {
    match t
    case TDataGroup => dstIsGroup && !dstIsZero
    case TDataBroadcast => dstIsGroup && dstIsZero
    case TDataTagGroup => dstIsGroup
    case TDataIndividual => !dstIsGroup
    case TDataConnected(n) => !dstIsGroup && 0 <= n < 16
    case TConnect => !dstIsGroup
    case TDisconnect => !dstIsGroup
    case TAck(n) => !dstIsGroup && 0 <= n < 16
    case TNak(n) => !dstIsGroup && 0 <= n < 16
  }

  /**
   Resolving an encoded TPCI, with any APCI bits below it in a data TPDU, gives it back if and only if it
   is canonical for the destination.
   */
  lemma EncodeResolve(t: Tpci, low: byte, dstIsGroup: bool, dstIsZero: bool)
    requires low < 4 && (IsControl(t) ==> low == 0)
    ensures Encode(t) + low < 256
    ensures Resolve(Encode(t) + low, dstIsGroup, dstIsZero) == Ok(t) <==> Canonical(t, dstIsGroup, dstIsZero)
  {
    match t
    case TDataConnected(n) => Fields(0, 1, n % 16, low); SequenceFits(n);
    case TAck(n) => Fields(1, 1, n % 16, 2); SequenceFits(n);
    case TNak(n) => Fields(1, 1, n % 16, 3); SequenceFits(n);
    case TDataTagGroup => Fields(0, 0, 1, low);
    case TConnect => Fields(1, 0, 0, 0);
    case TDisconnect => Fields(1, 0, 0, 1);
    case _ => Fields(0, 0, 0, low);
  }

  lemma SequenceFits(n: int)
    ensures n % 16 == n <==> 0 <= n < 16
  {
  }

  /** The four fields of a TPCI byte. */
  lemma Fields(control: int, numbered: int, n: int, low: int)
    requires 0 <= control < 2 && 0 <= numbered < 2 && 0 <= n < 16 && 0 <= low < 4
    ensures var raw := CONTROL_BIT * control + NUMBERED_BIT * numbered + 4 * n + low;
      && 0 <= raw < 256 && raw / 0x80 % 2 == control && raw / 0x40 % 2 == numbered
      && raw / 4 % 16 == n && raw % 4 == low
  {
    var raw := CONTROL_BIT * control + NUMBERED_BIT * numbered + 4 * n + low;
    var q := 32 * control + 16 * numbered + n;
    assert raw == 4 * q + low && raw / 4 == q;
    assert raw / 0x40 == 2 * control + numbered;
    assert raw / 0x80 == control;
  }

  /** Whatever resolves is canonical, and its encoding is the byte without the APCI bits. */
  lemma ResolveEncode(raw: byte, dstIsGroup: bool, dstIsZero: bool)
    requires Resolve(raw, dstIsGroup, dstIsZero).Ok?
    ensures var t := Resolve(raw, dstIsGroup, dstIsZero).value;
      && Canonical(t, dstIsGroup, dstIsZero)
      && Encode(t) == (if IsControl(t) then raw else raw - raw % 4)
  {
    SplitByte(raw);
    SequenceFits(raw / 4 % 16);
  }

  lemma SplitByte(raw: byte)
    ensures raw == CONTROL_BIT * (raw / 0x80 % 2) + NUMBERED_BIT * (raw / 0x40 % 2) + 4 * (raw / 4 % 16) + raw % 4
  {
    var q := raw / 4;
    assert raw == 4 * q + raw % 4 && q == 16 * (q / 16) + q % 16;
    assert raw / 0x40 == q / 16 && raw / 0x80 == q / 32;
    assert q / 16 == 2 * (q / 32) + q / 16 % 2;
  }

  /** What the bits of an encoded TPCI mean: control, numbered, the number, and the kind of control. */
  lemma Bits(t: Tpci)
    ensures Encode(t) / 0x80 == 1 <==> t.TConnect? || t.TDisconnect? || t.TAck? || t.TNak?
    ensures Encode(t) / 0x40 % 2 == 1 <==> t.TDataConnected? || t.TAck? || t.TNak?
    ensures t.TDataConnected? || t.TAck? || t.TNak? ==> Encode(t) / 4 % 16 == t.sequenceNumber % 16
    ensures !(t.TDataConnected? || t.TAck? || t.TNak?) ==> Encode(t) / 4 % 16 == (if t.TDataTagGroup? then 1 else 0)
    ensures Encode(t) % 4 == if t.TDisconnect? then 1 else if t.TAck? then 2 else if t.TNak? then 3 else 0
  {
    match t
    case TDataConnected(n) => Fields(0, 1, n % 16, 0);
    case TAck(n) => Fields(1, 1, n % 16, 2);
    case TNak(n) => Fields(1, 1, n % 16, 3);
    case _ =>
  }
}

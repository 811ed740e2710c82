/**
 The tunnelling endpoint as functions (src/io/tunnel.ts): the stop-and-wait sender with its one retry,
 and the three-way receiver. Frame confirmation is section 2.6 of KNX 03_08_04 Tunnelling.
 */
module TunnelSpec {
  import opened Bytes
  import Frame
  import opened Wrappers

  /** `(n + 1) & 0xff` and `(n - 1) & 0xff`. */
  function Next8(n: byte): byte {
    (n + 1) % 256
  }

  function Prev8(n: byte): byte {
    (n + 255) % 256
  }

  // ---------- receiver ----------

  /** The expected counter, the telegrams passed on so far, and the out-of-order timer. */
  datatype Receiver = Receiver(seqIn: byte, accepted: seq<bytes>, invalidSeqArmed: bool)

  /** What an inbound request does: pass it on, acknowledge again, or drop it. */
  datatype Reaction = Accept | Reacknowledge | Drop

  function React(tcp: bool, seqIn: byte, sequence: byte): Reaction {
    if tcp || sequence == seqIn then Accept
    else if sequence == Prev8(seqIn) then Reacknowledge
    else Drop
  }

  /** Over TCP the counter is neither checked nor moved. */
  function OnRequest(tcp: bool, r: Receiver, sequence: byte, rawCemi: bytes): Receiver {
    match React(tcp, r.seqIn, sequence)
    case Accept =>
      if tcp then r.(accepted := r.accepted + [rawCemi])
      else Receiver(Next8(r.seqIn), r.accepted + [rawCemi], false)
    case Reacknowledge => r
    case Drop => r.(invalidSeqArmed := true)
  }

  // ---------- sender ----------

  /** What has become of the promise an attempt awaits. */
  datatype Verdict = Waiting | Acked | Refused

  /**
   The single pending-ACK slot. An attempt whose transport send was rejected leaves its entry behind;
   such an entry no longer belongs to the current attempt.
   */
  datatype Pending = Pending(sequence: byte, current: bool)

  /** What the send queue is running: one telegram, tried at most twice with one sequence number. */
  datatype Task =
    | Idle
    | Attempt(number: nat, rawCemi: bytes, sending: bool, verdict: Verdict)
    | Lost

  /** `blocked` records that an attempt found another ACK already pending. */
  datatype Sender = Sender(seqOut: byte, pending: Option<Pending>, task: Task, blocked: bool)

  const FRESH_SENDER := Sender(0, None, Idle, false)
  const FRESH_RECEIVER := Receiver(0, [], false)

  /** Over TCP every request carries 0. */
  function Sequence(tcp: bool, s: Sender): byte {
    if tcp then 0 else s.seqOut
  }

  /** Start an attempt; with the slot taken its ACK promise is rejected at once. */
  function Begin(tcp: bool, s: Sender, number: nat, rawCemi: bytes): Sender {
    if s.pending.Some? then s.(task := Attempt(number, rawCemi, true, Refused), blocked := true)
    else s.(pending := Some(Pending(Sequence(tcp, s), true)), task := Attempt(number, rawCemi, true, Waiting))
  }

  /** The counter moves on once more and declaring the tunnel lost empties the slot. */
  function GiveUp(s: Sender): Sender {
    s.(seqOut := Next8(s.seqOut), pending := None, task := Lost)
  }

  function SendCompleted(s: Sender): Sender
    requires s.task.Attempt?
  {
    s.(task := s.task.(sending := false))
  }

  /** The second attempt follows a failed first one; after a failed second one the tunnel is lost. */
  function AttemptFailed(tcp: bool, s: Sender): Sender
    requires s.task.Attempt?
  {
    if s.task.number == 1 then Begin(tcp, s, 2, s.task.rawCemi) else GiveUp(s)
  }

  function SendRejected(tcp: bool, s: Sender): Sender
    requires s.task.Attempt?
  {
    var orphaned := if s.pending.Some? then s.(pending := Some(s.pending.value.(current := false))) else s;
    AttemptFailed(tcp, orphaned)
  }

  /** The awaited promise has settled: the telegram is done, or this attempt has failed. */
  function Settle(tcp: bool, s: Sender): Sender
    requires s.task.Attempt? && s.task.verdict != Waiting
  {
    if s.task.verdict == Acked then s.(seqOut := if tcp then s.seqOut else Next8(s.seqOut), task := Idle)
    else AttemptFailed(tcp, s)
  }

  /** Free the slot and, if it is the current attempt's, settle what that attempt awaits. */
  function ClearPending(s: Sender, verdict: Verdict): Sender
    requires s.pending.Some?
  {
    var freed := s.(pending := None);
    if s.pending.value.current && s.task.Attempt? then freed.(task := s.task.(verdict := verdict)) else freed
  }

  /** A stray ACK or one with another sequence number changes nothing. */
  function OnAck(s: Sender, sequence: byte, status: byte): Sender {
    if s.pending.None? || sequence != s.pending.value.sequence then s
    else ClearPending(s, if status == Frame.E_NO_ERROR then Acked else Refused)
  }
}

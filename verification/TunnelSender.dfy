/**
 The sender alone, over UDP or TCP, against ACKs of any counter and status arriving at any time: what it
 transmits, when it tries again and when it gives up. One telegram is in work at a time; its index is the
 number of telegrams started before it.
 */
module TunnelSender {
  import opened Bytes
  import opened Runs
  import opened TunnelSpec
  import opened Wrappers
  import TunnelProtocol

  /** A request handed to the transport, and the end of an attempt: resolved or failed. */
  datatype Transmission = Transmission(index: nat, sequence: byte, rawCemi: bytes)
  datatype Ending = Ending(index: nat, resolved: bool)

  datatype State = State(sender: Sender, started: seq<bytes>, log: seq<Transmission>, ended: seq<Ending>,
                         heard: set<(byte, byte)>)

  const START := State(FRESH_SENDER, [], [], [], {})

  datatype Label =
    | Submit(rawCemi: bytes)
    | SendDone
    | SendFails
    | AckTimesOut
    | Ack(sequence: byte, status: byte)
    | Continue

  predicate Enabled(s: State, l: Label) {
    match l
    case Submit(_) => s.sender.task.Idle?
    case SendDone => s.sender.task.Attempt? && s.sender.task.sending
    case SendFails => s.sender.task.Attempt? && s.sender.task.sending
    case AckTimesOut => s.sender.pending.Some?
    case Ack(_, _) => true
    case Continue => s.sender.task.Attempt? && !s.sender.task.sending && s.sender.task.verdict != Waiting
  }

  function SenderAfter(tcp: bool, snd: Sender, l: Label): Sender {
    match l
    case Submit(raw) => Begin(tcp, snd, 1, raw)
    case SendDone => if snd.task.Attempt? then SendCompleted(snd) else snd
    case SendFails => if snd.task.Attempt? then SendRejected(tcp, snd) else snd
    case AckTimesOut => if snd.pending.Some? then ClearPending(snd, Refused) else snd
    case Ack(sequence, status) => OnAck(snd, sequence, status)
    case Continue => if snd.task.Attempt? && snd.task.verdict != Waiting then Settle(tcp, snd) else snd
  }

  /** The steps in which an attempt ends and, if another one follows, that one begins. */
  predicate EndsAttempt(l: Label) {
    l.SendFails? || l.Continue?
  }

  function Next(tcp: bool, s: State, l: Label): State {
    var after := SenderAfter(tcp, s.sender, l);
    var started := if l.Submit? then s.started + [l.rawCemi] else s.started;
    var index := if started == [] then 0 else |started| - 1;
    State(after, started,
          if (l.Submit? || EndsAttempt(l)) && after.task.Attempt?
          then s.log + [Transmission(index, Sequence(tcp, after), after.task.rawCemi)] else s.log,
          if EndsAttempt(l) && s.sender.task.Attempt?
          then s.ended + [Ending(index, l.Continue? && s.sender.task.verdict == Acked)] else s.ended,
          if l.Ack? then s.heard + {(l.sequence, l.status)} else s.heard)
  }

  function Stepper(tcp: bool): (State, Label) -> State {
    (s, l) => Next(tcp, s, l)
  }

  function Exec(tcp: bool, s: State, labels: seq<Label>): State {
    Fold(Stepper(tcp), s, labels)
  }

  predicate Admissible(tcp: bool, s: State, labels: seq<Label>)
    decreases |labels|
  {
    labels == [] || (Enabled(s, labels[0]) && Admissible(tcp, Next(tcp, s, labels[0]), labels[1..]))
  }

  // ---------- what is said about one telegram ----------

  /** The counter of telegram k: its index modulo 256, over TCP always 0. */
  function Counter(tcp: bool, k: nat): byte {
    if tcp then 0 else k % 256
  }

  /** The request of telegram k. */
  function RequestOf(tcp: bool, s: State, k: nat): Transmission
    requires k < |s.started|
  {
    Transmission(k, Counter(tcp, k), s.started[k])
  }

  /** What was transmitted for telegram k, in order. */
  function SentFor(log: seq<Transmission>, k: nat): seq<Transmission> {
    if log == [] then []
    else SentFor(log[..|log| - 1], k) + (if log[|log| - 1].index == k then [log[|log| - 1]] else [])
  }

  /** How its attempts ended, in order. */
  function EndsOf(ended: seq<Ending>, k: nat): seq<bool> {
    if ended == [] then []
    else EndsOf(ended[..|ended| - 1], k) + (if ended[|ended| - 1].index == k then [ended[|ended| - 1].resolved] else [])
  }

  lemma SentForNext(log: seq<Transmission>, t: Transmission, k: nat)
    ensures SentFor(log + [t], k) == SentFor(log, k) + (if t.index == k then [t] else [])
  {
    assert (log + [t])[..|log|] == log;
  }

  lemma EndsOfNext(ended: seq<Ending>, e: Ending, k: nat)
    ensures EndsOf(ended + [e], k) == EndsOf(ended, k) + (if e.index == k then [e.resolved] else [])
  {
    assert (ended + [e])[..|ended|] == ended;
  }

  /** `n` copies of the telegram's request. */
  function Copies(tcp: bool, s: State, k: nat, n: nat): seq<Transmission>
    requires k < |s.started|
  {
    seq(n, _ => RequestOf(tcp, s, k))
  }

  /**
   A finished telegram was resolved in its first or its second attempt, by an ACK with its counter and status
   0x00, and was transmitted as often as it was tried.
   */
  predicate Done(tcp: bool, s: State, k: nat)
    requires k < |s.started|
  {
    && (Counter(tcp, k), 0x00) in s.heard
    && ((EndsOf(s.ended, k) == [true] && SentFor(s.log, k) == Copies(tcp, s, k, 1))
        || (EndsOf(s.ended, k) == [false, true] && SentFor(s.log, k) == Copies(tcp, s, k, 2)))
  }

  /** A lost one: two attempts, both failed, and its request transmitted twice. */
  predicate LostAfterTwo(tcp: bool, s: State, k: nat)
    requires k < |s.started|
  {
    EndsOf(s.ended, k) == [false, false] && SentFor(s.log, k) == Copies(tcp, s, k, 2)
  }

  predicate Trying(tcp: bool, s: State, k: nat)
    requires k < |s.started| && s.sender.task.Attempt?
  {
    var task := s.sender.task;
    && (task.number == 1 || task.number == 2) && task.rawCemi == s.started[k]
    && EndsOf(s.ended, k) == (if task.number == 1 then [] else [false])
    && SentFor(s.log, k) == Copies(tcp, s, k, task.number)
    && (task.verdict == Acked ==> (Counter(tcp, k), 0x00) in s.heard)
  }

  /** Everything indexed belongs to a telegram started. */
  predicate Indexed(s: State) {
    && (forall i :: 0 <= i < |s.log| ==> s.log[i].index < |s.started|)
    && (forall i :: 0 <= i < |s.ended| ==> s.ended[i].index < |s.started|)
  }

  predicate CountersInv(tcp: bool, s: State) {
    var n, snd := |s.started|, s.sender;
    && (snd.task.Idle? ==> Sequence(tcp, snd) == Counter(tcp, n))
    && (snd.task.Attempt? ==> n > 0 && Sequence(tcp, snd) == Counter(tcp, n - 1))
    && (tcp && !snd.task.Lost? ==> snd.seqOut == 0)
    && (snd.task.Lost? ==> n > 0 && snd.pending.None? && snd.seqOut == (if tcp then 1 else n % 256))
    && (snd.pending.Some? ==> n > 0 && snd.pending.value.sequence == Counter(tcp, n - 1))
    && TunnelProtocol.SlotFree(snd)
  }

  predicate Inv(tcp: bool, s: State) {
    var n := |s.started|;
    && Indexed(s) && CountersInv(tcp, s)
    && (forall k :: 0 <= k < n - (if s.sender.task.Idle? then 0 else 1) ==> Done(tcp, s, k))
    && (s.sender.task.Attempt? ==> Trying(tcp, s, n - 1))
    && (s.sender.task.Lost? ==> LostAfterTwo(tcp, s, n - 1))
  }

  lemma {:induction false} NothingSent(log: seq<Transmission>, k: nat)
    requires forall i :: 0 <= i < |log| ==> log[i].index < k
    ensures SentFor(log, k) == []
  {
    if log != [] {
      NothingSent(log[..|log| - 1], k);
    }
  }

  lemma {:induction false} NothingEnded(ended: seq<Ending>, k: nat)
    requires forall i :: 0 <= i < |ended| ==> ended[i].index < k
    ensures EndsOf(ended, k) == []
  {
    if ended != [] {
      NothingEnded(ended[..|ended| - 1], k);
    }
  }

  /** One more step leaves a finished telegram finished: nothing with its index is added. */
  lemma DoneStays(tcp: bool, s: State, t: State, k: nat, r: Transmission, e: Ending)
    requires k < |s.started| && Done(tcp, s, k) && s.started <= t.started && s.heard <= t.heard
    requires r.index != k && (t.log == s.log || t.log == s.log + [r])
    requires e.index != k && (t.ended == s.ended || t.ended == s.ended + [e])
    ensures Done(tcp, t, k)
  {
    SentForNext(s.log, r, k);
    EndsOfNext(s.ended, e, k);
    assert Copies(tcp, s, k, 1) == Copies(tcp, t, k, 1) && Copies(tcp, s, k, 2) == Copies(tcp, t, k, 2);
  }

  lemma NextCounter(n: nat)
    ensures (n % 256 + 1) % 256 == (n + 1) % 256
  {
  }

  /** What starting a telegram does, field by field. */
  lemma SubmitStep(tcp: bool, s: State, raw: bytes)
    requires CountersInv(tcp, s) && s.sender.task.Idle?
    ensures var n, t := |s.started|, Next(tcp, s, Submit(raw));
      && t.started == s.started + [raw] && t.heard == s.heard && t.ended == s.ended
      && t.log == s.log + [Transmission(n, Counter(tcp, n), raw)]
      && t.sender.task.Attempt? && t.sender.task.number == 1 && t.sender.task.rawCemi == raw
      && t.sender.task.verdict != Acked && CountersInv(tcp, t)
  {
  }

  lemma AllDoneStay(tcp: bool, s: State, t: State, m: nat, r: Transmission, e: Ending)
    requires m <= |s.started| && s.started <= t.started && s.heard <= t.heard && r.index >= m && e.index >= m
    requires forall k :: 0 <= k < m ==> Done(tcp, s, k)
    requires t.log == s.log || t.log == s.log + [r]
    requires t.ended == s.ended || t.ended == s.ended + [e]
    ensures forall k :: 0 <= k < m ==> Done(tcp, t, k)
  {
    hide Done;
    forall k | 0 <= k < m ensures Done(tcp, t, k) {
      DoneStays(tcp, s, t, k, r, e);
    }
  }

  lemma WorkAfterSubmit(tcp: bool, s: State, raw: bytes)
    requires Inv(tcp, s) && s.sender.task.Idle?
    ensures var n, t := |s.started|, Next(tcp, s, Submit(raw));
      |t.started| == n + 1 && t.sender.task.Attempt? && Trying(tcp, t, n)
  {
    SubmitStep(tcp, s, raw);
    hide Next, Done, CountersInv;
    var n, t := |s.started|, Next(tcp, s, Submit(raw));
    var r := Transmission(n, Counter(tcp, n), raw);
    NothingSent(s.log, n);
    NothingEnded(s.ended, n);
    SentForNext(s.log, r, n);
    assert [] + [r] == [r] == Copies(tcp, t, n, 1);
  }

  lemma SubmitKeeps(tcp: bool, s: State, raw: bytes)
    requires Inv(tcp, s) && s.sender.task.Idle?
    ensures Inv(tcp, Next(tcp, s, Submit(raw)))
  {
    SubmitStep(tcp, s, raw);
    WorkAfterSubmit(tcp, s, raw);
    hide Next, Done, CountersInv, Trying;
    var n, t := |s.started|, Next(tcp, s, Submit(raw));
    AllDoneStay(tcp, s, t, n, Transmission(n, Counter(tcp, n), raw), Ending(n, false));
  }

  /** The attempt ending in this step is the first one and fails. */
  predicate FirstFails(s: State, l: Label) {
    && EndsAttempt(l) && s.sender.task.Attempt? && s.sender.task.number == 1
    && (l.SendFails? || s.sender.task.verdict == Refused)
  }

  /** Then the same request goes out once more, in the same step; after the second failure nothing does. */
  predicate FirstFailureRepeats(tcp: bool, s: State, l: Label)
    requires s.started != []
  {
    var t, n := Next(tcp, s, l), |s.started|;
    && (FirstFails(s, l) ==> t.log == s.log + [RequestOf(tcp, s, n - 1)] && t.sender.task.Attempt?
                             && t.sender.task.number == 2 && t.sender.task.rawCemi == s.started[n - 1])
    && (!FirstFails(s, l) ==> t.log == s.log)
  }

  /** What the end of an attempt does, field by field. */
  lemma EndStep(tcp: bool, s: State, l: Label)
    requires Inv(tcp, s) && Enabled(s, l) && EndsAttempt(l)
    ensures FirstFailureRepeats(tcp, s, l)
    ensures var n, t := |s.started|, Next(tcp, s, l);
      var resolved := l.Continue? && s.sender.task.verdict == Acked;
      && t.started == s.started && t.heard == s.heard && t.ended == s.ended + [Ending(n - 1, resolved)]
      && CountersInv(tcp, t)
      && (if FirstFails(s, l) then t.sender.task.verdict != Acked
          else if resolved then t.sender.task.Idle?
          else t.sender.task.Lost? && s.sender.task.number == 2)
  {
    hide Done, EndsOf, SentFor, Copies;
    NextCounter(|s.started| - 1);
  }

  /** What the end of an attempt means for the telegram in work. */
  lemma WorkAfterEnd(tcp: bool, s: State, l: Label)
    requires Inv(tcp, s) && Enabled(s, l) && EndsAttempt(l)
    ensures var t, k := Next(tcp, s, l), |s.started| - 1;
      && t.started == s.started
      && (t.sender.task.Attempt? ==> Trying(tcp, t, k))
      && (t.sender.task.Idle? ==> Done(tcp, t, k))
      && (t.sender.task.Lost? ==> LostAfterTwo(tcp, t, k))
  {
    EndStep(tcp, s, l);
    hide Next, CountersInv, SentFor, EndsOf, Copies;
    var k, t := |s.started| - 1, Next(tcp, s, l);
    var r := RequestOf(tcp, s, k);
    AttemptEnds(tcp, s, t, k, Ending(k, l.Continue? && s.sender.task.verdict == Acked));
    SentForNext(s.log, r, k);
    CopiesOf(tcp, s, t, k);
    assert [r] + [r] == [r, r];
  }

  /** An attempt that ends: resolved, tried once more, or lost. */
  lemma EndKeeps(tcp: bool, s: State, l: Label)
    requires Inv(tcp, s) && Enabled(s, l) && EndsAttempt(l)
    ensures Inv(tcp, Next(tcp, s, l)) && FirstFailureRepeats(tcp, s, l)
  {
    EndStep(tcp, s, l);
    WorkAfterEnd(tcp, s, l);
    hide Next, CountersInv, Done, Trying, LostAfterTwo;
    var n, t := |s.started|, Next(tcp, s, l);
    var e := Ending(n - 1, l.Continue? && s.sender.task.verdict == Acked);
    AllDoneStay(tcp, s, t, n - 1, RequestOf(tcp, s, n - 1), e);
  }

  lemma CopiesOf(tcp: bool, s: State, t: State, k: nat)
    requires k < |s.started| && s.started <= t.started
    ensures forall n: nat :: Copies(tcp, t, k, n) == Copies(tcp, s, k, n)
    ensures Copies(tcp, s, k, 1) == [RequestOf(tcp, s, k)]
    ensures Copies(tcp, s, k, 2) == [RequestOf(tcp, s, k), RequestOf(tcp, s, k)]
  {
    forall n: nat ensures Copies(tcp, t, k, n) == Copies(tcp, s, k, n) {}
  }

  /** The endings of the telegram in work, one longer. */
  lemma AttemptEnds(tcp: bool, s: State, t: State, k: nat, e: Ending)
    requires k < |s.started| && s.sender.task.Attempt? && Trying(tcp, s, k) && e.index == k
    requires t.ended == s.ended + [e]
    ensures EndsOf(t.ended, k) == if s.sender.task.number == 1 then [e.resolved] else [false, e.resolved]
  {
    EndsOfNext(s.ended, e, k);
    assert [] + [e.resolved] == [e.resolved] && [false] + [e.resolved] == [false, e.resolved];
  }

  lemma WaitStep(tcp: bool, s: State, l: Label)
    requires CountersInv(tcp, s) && Enabled(s, l) && (l.SendDone? || l.AckTimesOut? || l.Ack?)
    ensures var t := Next(tcp, s, l);
      && t.started == s.started && t.log == s.log && t.ended == s.ended && s.heard <= t.heard && CountersInv(tcp, t)
      && (t.sender.task.Idle? <==> s.sender.task.Idle?) && (t.sender.task.Lost? <==> s.sender.task.Lost?)
      && (s.sender.task.Attempt? ==>
            && t.sender.task.Attempt? && t.sender.task.number == s.sender.task.number
            && t.sender.task.rawCemi == s.sender.task.rawCemi
            && (t.sender.task.verdict == Acked ==>
                  s.sender.task.verdict == Acked || (Counter(tcp, |s.started| - 1), 0x00) in t.heard))
  {
  }

  lemma WaitKeeps(tcp: bool, s: State, l: Label)
    requires Inv(tcp, s) && Enabled(s, l) && (l.SendDone? || l.AckTimesOut? || l.Ack?)
    ensures Inv(tcp, Next(tcp, s, l))
  {
    hide Next, CountersInv, Done;
    var n, t := |s.started|, Next(tcp, s, l);
    WaitStep(tcp, s, l);
    AllDoneStay(tcp, s, t, n - (if s.sender.task.Idle? then 0 else 1),
                Transmission(n, 0, []), Ending(n, false));
    if n > 0 {
      CopiesOf(tcp, s, t, n - 1);
    }
  }

  lemma StepKeeps(tcp: bool, s: State, l: Label)
    requires Inv(tcp, s) && Enabled(s, l)
    ensures Inv(tcp, Next(tcp, s, l))
  {
    if l.Submit? {
      SubmitKeeps(tcp, s, l.rawCemi);
    } else if EndsAttempt(l) {
      EndKeeps(tcp, s, l);
    } else {
      WaitKeeps(tcp, s, l);
    }
  }

  lemma {:induction false} RunKeeps(tcp: bool, s: State, labels: seq<Label>)
    requires Inv(tcp, s) && Admissible(tcp, s, labels)
    ensures Inv(tcp, Exec(tcp, s, labels))
    decreases |labels|
  {
    if labels != [] {
      StepKeeps(tcp, s, labels[0]);
      RunKeeps(tcp, Next(tcp, s, labels[0]), labels[1..]);
    }
  }

  // ---------- the theorems ----------

  /**
   Over every run: the tunnel is declared lost if and only if both attempts at the last telegram failed, and
   then exactly two requests with its index, counter and cEMI went out, the slot is empty and the counter has
   moved on once more. Every earlier telegram, and the last one once it is done, was resolved by an ACK with
   its counter and status 0x00.
   */
  lemma LostExactly(tcp: bool, labels: seq<Label>)
    requires Admissible(tcp, START, labels)
    ensures var s := Exec(tcp, START, labels);
      var n := |s.started|;
      && (s.sender.task.Lost? <==> n > 0 && EndsOf(s.ended, n - 1) == [false, false])
      && (s.sender.task.Lost? ==>
            n > 0 && SentFor(s.log, n - 1) == [RequestOf(tcp, s, n - 1), RequestOf(tcp, s, n - 1)])
      && (s.sender.task.Lost? ==> s.sender.pending.None? && s.sender.seqOut == (if tcp then 1 else n % 256))
      && (forall k :: 0 <= k < n - (if s.sender.task.Idle? then 0 else 1) ==> Done(tcp, s, k))
  {
    RunKeeps(tcp, START, labels);
    var s := Exec(tcp, START, labels);
    if s.started != [] {
      CopiesOf(tcp, s, s, |s.started| - 1);
      assert [false, true][1] != [false, false][1] && |[true]| == |[false]| == 1;
      if s.sender.task.Idle? {
        assert Done(tcp, s, |s.started| - 1);
      }
    }
  }

  /**
   Over every run: when an attempt ends, the request is transmitted again if and only if it was the first
   attempt and it failed, by a rejected send, a timeout or a refusing ACK; the repetition has the same index,
   counter and cEMI.
   */
  lemma RetryExactly(tcp: bool, labels: seq<Label>, l: Label)
    requires Admissible(tcp, START, labels) && Enabled(Exec(tcp, START, labels), l) && EndsAttempt(l)
    ensures Exec(tcp, START, labels).started != []
    ensures FirstFailureRepeats(tcp, Exec(tcp, START, labels), l)
  {
    RunKeeps(tcp, START, labels);
    EndKeeps(tcp, Exec(tcp, START, labels), l);
  }

  /**
   Over every run: an ACK counts exactly when its counter is the pending one, and then the attempt it belongs
   to is resolved if and only if its status is 0x00. Continuing ends a resolved attempt with an idle sender
   and the next counter.
   */
  lemma AckResolvesExactly(tcp: bool, labels: seq<Label>, sequence: byte, status: byte)
    requires Admissible(tcp, START, labels)
    ensures var snd := Exec(tcp, START, labels).sender;
      var after := SenderAfter(tcp, snd, Ack(sequence, status));
      var matches := snd.pending.Some? && snd.pending.value.sequence == sequence;
      && (!matches ==> after == snd)
      && (matches ==> after.pending.None? && after.seqOut == snd.seqOut)
      && (matches && snd.pending.value.current && snd.task.Attempt? ==>
            after.task.Attempt? && (after.task.verdict == Acked <==> status == 0x00)
            && (after.task.verdict == Refused <==> status != 0x00))
    ensures var s := Exec(tcp, START, labels);
      Enabled(s, Continue) ==>
        var t := Next(tcp, s, Continue);
        && (t.sender.task.Idle? <==> s.sender.task.verdict == Acked)
        && (t.sender.task.Idle? ==> Sequence(tcp, t.sender) == Counter(tcp, |s.started|))
  {
    RunKeeps(tcp, START, labels);
    if Enabled(Exec(tcp, START, labels), Continue) {
      StepKeeps(tcp, Exec(tcp, START, labels), Continue);
    }
  }

  /** The sender of the two-ended protocol is this one; its receiver's ACKs have status 0x00. */
  lemma ProtocolSender(s: TunnelProtocol.System, l: TunnelProtocol.Label)
    ensures TunnelProtocol.SenderAfter(s, l) == match l
      case Submit(raw) => SenderAfter(false, s.sender, Submit(raw))
      case SendDone => SenderAfter(false, s.sender, SendDone)
      case SendFails => SenderAfter(false, s.sender, SendFails)
      case AckTimesOut => SenderAfter(false, s.sender, AckTimesOut)
      case Continue => SenderAfter(false, s.sender, Continue)
      case DeliverConfirm(c) => SenderAfter(false, s.sender, Ack(c.sequence, 0x00))
      case DeliverRequest(_) => s.sender
  {
  }
}

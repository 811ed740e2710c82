/**
 Both ends of one tunnelling connection over a network that loses, duplicates and reorders datagrams.

 Telegrams are numbered by unbounded indices the endpoints never see; on the wire there are only 8-bit
 sequence numbers. The network may deliver any copy of anything ever sent, as long as the copy is not
 too old: at most `reqAge` (for ACKs `ackAge`) telegrams may have been started since its telegram.
 */
module TunnelProtocol {
  import opened Bytes
  import Frame
  import opened Runs
  import opened TunnelSpec
  import opened Wrappers

  /** Datagrams on the network: the wire fields and the index of the telegram they stand for. */
  datatype Request = Request(index: nat, sequence: byte, rawCemi: bytes)
  datatype Confirm = Confirm(index: nat, sequence: byte)

  /** `started` are the telegrams whose sending began, `resolved` how many of those sends resolved. */
  datatype System = System(
    sender: Sender,
    started: seq<bytes>,
    resolved: nat,
    receiver: Receiver,
    requests: set<Request>,
    confirms: set<Confirm>)

  const START := System(FRESH_SENDER, [], 0, FRESH_RECEIVER, {}, {})

  datatype Label =
    | Submit(rawCemi: bytes)
    | SendDone
    | SendFails
    | AckTimesOut
    | Continue
    | DeliverRequest(request: Request)
    | DeliverConfirm(confirm: Confirm)

  datatype Network = Network(reqAge: nat, ackAge: nat)

  /** How many telegrams were started after the one with this index. */
  function Age(s: System, index: nat): int {
    |s.started| - 1 - index
  }

  predicate Enabled(net: Network, s: System, l: Label) {
    match l
    case Submit(_) => s.sender.task.Idle?
    case SendDone => s.sender.task.Attempt? && s.sender.task.sending
    case SendFails => s.sender.task.Attempt? && s.sender.task.sending
    case AckTimesOut => s.sender.pending.Some?
    case Continue => s.sender.task.Attempt? && !s.sender.task.sending && s.sender.task.verdict != Waiting
    case DeliverRequest(r) => r in s.requests && Age(s, r.index) <= net.reqAge
    case DeliverConfirm(c) => c in s.confirms && Age(s, c.index) <= net.ackAge
  }

  /** The sender after a step of its own. */
  function SenderAfter(s: System, l: Label): Sender {
    var snd := s.sender;
    match l
    case Submit(raw) => Begin(false, snd, 1, raw)
    case SendDone => if snd.task.Attempt? then SendCompleted(snd) else snd
    case SendFails => if snd.task.Attempt? then SendRejected(false, snd) else snd
    case AckTimesOut => if snd.pending.Some? then ClearPending(snd, Refused) else snd
    case Continue => if snd.task.Attempt? && snd.task.verdict != Waiting then Settle(false, snd) else snd
    case DeliverConfirm(c) => OnAck(snd, c.sequence, Frame.E_NO_ERROR)
    case DeliverRequest(_) => snd
  }

  function StartedAfter(s: System, l: Label): seq<bytes> {
    if l.Submit? then s.started + [l.rawCemi] else s.started
  }

  /** An attempt begins in this step, so its request goes to the network. */
  function Transmits(s: System, l: Label): Option<Request> {
    var snd := SenderAfter(s, l);
    if (l.Submit? || l.SendFails? || l.Continue?) && snd.task.Attempt? && StartedAfter(s, l) != [] then
      Some(Request(|StartedAfter(s, l)| - 1, snd.seqOut, snd.task.rawCemi))
    else None
  }

  /** The ACK the receiver sends: for new requests and for repeated ones. */
  function Confirms(s: System, l: Label): Option<Confirm> {
    if l.DeliverRequest? && React(false, s.receiver.seqIn, l.request.sequence) != Drop then
      Some(Confirm(l.request.index, l.request.sequence))
    else None
  }

  function AsSet<X>(o: Option<X>): set<X> {
    if o.Some? then {o.value} else {}
  }

  function Next(s: System, l: Label): System {
    System(
      SenderAfter(s, l),
      StartedAfter(s, l),
      if l.Continue? && s.sender.task.Attempt? && s.sender.task.verdict == Acked then s.resolved + 1 else s.resolved,
      if l.DeliverRequest? then OnRequest(false, s.receiver, l.request.sequence, l.request.rawCemi) else s.receiver,
      s.requests + AsSet(Transmits(s, l)),
      s.confirms + AsSet(Confirms(s, l)))
  }

  function Stepper(): (System, Label) -> System {
    (s, l) => Next(s, l)
  }

  function Exec(s: System, labels: seq<Label>): System {
    Fold(Stepper(), s, labels)
  }

  /** Every step of the run is enabled when it is taken. */
  predicate Admissible(net: Network, s: System, labels: seq<Label>)
    decreases |labels|
  {
    labels == [] || (Enabled(net, s, labels[0]) && Admissible(net, Next(s, labels[0]), labels[1..]))
  }

  /**
   What the protocol is for: the receiver's log is a prefix of what was started, so nothing is repeated,
   skipped or reordered; and every telegram whose send resolved is in the log.
   */
  predicate Safe(s: System) {
    s.receiver.accepted <= s.started && s.resolved <= |s.receiver.accepted|
  }

  // ---------- the invariant ----------

  /** The sender, against the number of telegrams started and resolved. */
  predicate SenderInv(s: System) {
    var n := |s.started|;
    var snd := s.sender;
    && (snd.task.Idle? ==> n == s.resolved && snd.seqOut == n % 256)
    && (snd.task.Attempt? ==>
          n == s.resolved + 1 && snd.seqOut == s.resolved % 256 && snd.task.rawCemi == s.started[n - 1])
    && (snd.task.Lost? ==> n == s.resolved + 1)
    && (snd.pending.Some? ==> n >= 1 && !snd.task.Idle? && snd.pending.value.sequence == (n - 1) % 256)
    && (snd.task.Attempt? ==> SlotInv(snd))
    && (snd.task.Attempt? && snd.task.verdict == Acked ==> |s.receiver.accepted| == n)
  }

  /** The slot is this attempt's while it waits; an entry left behind dooms the second attempt. */
  predicate SlotInv(snd: Sender)
    requires snd.task.Attempt?
  {
    && (snd.task.verdict == Waiting <==> snd.pending.Some? && snd.pending.value.current)
    && (snd.pending.Some? && !snd.pending.value.current ==> snd.task.number == 2 && snd.task.verdict == Refused)
  }

  predicate ReceiverInv(s: System) {
    && s.receiver.accepted <= s.started
    && s.resolved <= |s.receiver.accepted|
    && s.receiver.seqIn == |s.receiver.accepted| % 256
  }

  predicate NetworkInv(s: System) {
    && (forall r :: r in s.requests ==>
          r.index < |s.started| && r.sequence == r.index % 256 && r.rawCemi == s.started[r.index])
    && (forall c :: c in s.confirms ==> c.index < |s.receiver.accepted| && c.sequence == c.index % 256)
  }

  predicate Inv(s: System) {
    SenderInv(s) && ReceiverInv(s) && NetworkInv(s)
  }

  /** The ages up to which 8-bit sequence numbers identify a copy. */
  predicate Distinguishable(net: Network) {
    net.reqAge < 255 && net.ackAge < 256
  }

  // ---------- the steps ----------

  /**
   A request young enough is taken for exactly what it is: accepted if and only if it is the next
   telegram, re-acknowledged if and only if it is the last one accepted.
   */
  lemma RequestRecognised(net: Network, s: System, r: Request)
    requires Inv(s) && Distinguishable(net) && Enabled(net, s, DeliverRequest(r))
    ensures React(false, s.receiver.seqIn, r.sequence) == Accept <==> r.index == |s.receiver.accepted|
    ensures React(false, s.receiver.seqIn, r.sequence) == Reacknowledge <==> r.index + 1 == |s.receiver.accepted|
  {
    var a := |s.receiver.accepted|;
    assert r.index <= a;
    assert 0 <= a - r.index < 256;
    ModDistance(a, r.index);
    ModPrevious(a, r.index);
  }

  lemma ModDistance(a: nat, k: nat)
    requires 0 <= a - k < 256
    ensures a % 256 == k % 256 <==> a == k
  {
  }

  lemma ModPrevious(a: nat, k: nat)
    requires 0 <= a - k < 256
    ensures (a % 256 + 255) % 256 == k % 256 <==> a == k + 1
  {
  }

  /**
   ACK soundness: an ACK young enough that matches the pending entry was produced for the telegram being
   sent, after the receiver accepted it, whichever attempt it answers.
   */
  lemma ConfirmRecognised(net: Network, s: System, c: Confirm)
    requires Inv(s) && Distinguishable(net) && Enabled(net, s, DeliverConfirm(c))
    requires s.sender.pending.Some? && c.sequence == s.sender.pending.value.sequence
    ensures c.index == |s.started| - 1 && |s.receiver.accepted| == |s.started|
  {
    ModDistance(|s.started| - 1, c.index);
  }

  lemma SubmitKeeps(s: System, raw: bytes)
    requires Inv(s) && s.sender.task.Idle?
    ensures Inv(Next(s, Submit(raw)))
  {
    var t := Next(s, Submit(raw));
    assert t.started[..|s.started|] == s.started;
  }

  lemma AttemptKeeps(net: Network, s: System, l: Label)
    requires Inv(s) && Enabled(net, s, l) && (l.SendDone? || l.SendFails?)
    ensures Inv(Next(s, l))
  {
    NextMod(|s.started| - 1);
  }

  lemma WaitKeeps(net: Network, s: System, l: Label)
    requires Inv(s) && Enabled(net, s, l) && (l.AckTimesOut? || l.Continue?)
    ensures Inv(Next(s, l))
  {
    if s.started != [] {
      NextMod(|s.started| - 1);
    }
  }

  lemma NextMod(n: nat)
    ensures (n % 256 + 1) % 256 == (n + 1) % 256
  {
  }

  /** The receiver after an accepted telegram, against the log. */
  lemma ReceiverAccepts(s: System, r: Request)
    requires Inv(s) && r in s.requests && r.index == |s.receiver.accepted|
    requires React(false, s.receiver.seqIn, r.sequence) == Accept
    ensures var t := OnRequest(false, s.receiver, r.sequence, r.rawCemi);
      && t.accepted == s.started[..r.index + 1] && |t.accepted| == r.index + 1 && t.seqIn == |t.accepted| % 256
  {
    NextMod(r.index);
    assert s.started[..r.index + 1] == s.started[..r.index] + [s.started[r.index]];
  }

  lemma RequestKeeps(net: Network, s: System, r: Request)
    requires Inv(s) && Distinguishable(net) && Enabled(net, s, DeliverRequest(r))
    ensures Inv(Next(s, DeliverRequest(r)))
  {
    hide Prev8, Next8;
    RequestRecognised(net, s, r);
    if r.index == |s.receiver.accepted| {
      ReceiverAccepts(s, r);
    }
  }

  lemma ConfirmKeeps(net: Network, s: System, c: Confirm)
    requires Inv(s) && Distinguishable(net) && Enabled(net, s, DeliverConfirm(c))
    ensures Inv(Next(s, DeliverConfirm(c)))
  {
    if s.sender.pending.Some? && c.sequence == s.sender.pending.value.sequence {
      ConfirmRecognised(net, s, c);
    }
  }

  lemma StepKeeps(net: Network, s: System, l: Label)
    requires Inv(s) && Distinguishable(net) && Enabled(net, s, l)
    ensures Inv(Next(s, l))
  {
    match l
    case Submit(raw) => SubmitKeeps(s, raw);
    case DeliverRequest(r) => RequestKeeps(net, s, r);
    case DeliverConfirm(c) => ConfirmKeeps(net, s, c);
    case SendDone => AttemptKeeps(net, s, l);
    case SendFails => AttemptKeeps(net, s, l);
    case _ => WaitKeeps(net, s, l);
  }

  lemma {:induction false} RunKeeps(net: Network, s: System, labels: seq<Label>)
    requires Inv(s) && Distinguishable(net) && Admissible(net, s, labels)
    ensures Inv(Exec(s, labels))
    decreases |labels|
  {
    if labels != [] {
      StepKeeps(net, s, labels[0]);
      RunKeeps(net, Next(s, labels[0]), labels[1..]);
    }
  }

  /**
   Tunnelling safety, for every run: the log is a prefix of what was started, every resolved send is in
   it, and at most the last telegram started is missing.
   */
  lemma TunnellingSafety(net: Network, labels: seq<Label>)
    requires Distinguishable(net) && Admissible(net, START, labels)
    ensures var s := Exec(START, labels);
      Safe(s) && |s.started| - 1 <= s.resolved <= |s.receiver.accepted| <= |s.started|
  {
    RunKeeps(net, START, labels);
  }

  // ---------- the bound is exact ----------

  lemma {:induction false} Extend(net: Network, s: System, labels: seq<Label>, l: Label)
    requires Admissible(net, s, labels) && Enabled(net, Exec(s, labels), l)
    ensures Admissible(net, s, labels + [l]) && Exec(s, labels + [l]) == Next(Exec(s, labels), l)
    decreases |labels|
  {
    if labels == [] {
      assert [] + [l] == [l] && [l][1..] == [];
      assert Exec(s, [l]) == Exec(Next(s, l), []);
    } else {
      assert (labels + [l])[1..] == labels[1..] + [l];
      Extend(net, Next(s, labels[0]), labels[1..], l);
    }
  }

  /** After `n` telegrams sent and confirmed without a hitch; old copies are still on the network. */
  predicate Quiet(s: System, n: nat, raw: bytes) {
    && s.sender == Sender(n % 256, None, Idle, false)
    && |s.started| == n == s.resolved == |s.receiver.accepted|
    && s.receiver.seqIn == n % 256
    && (n > 0 ==> Request(0, 0, raw) in s.requests && Confirm(0, 0) in s.confirms)
  }

  /** One more telegram, delivered and confirmed at once. */
  lemma RoundSteps(net: Network, s: System, n: nat, raw: bytes)
    requires Quiet(s, n, raw)
    ensures Enabled(net, s, Submit(raw))
    ensures var s1 := Next(s, Submit(raw));
      && Enabled(net, s1, SendDone)
      && var s2, r := Next(s1, SendDone), Request(n, n % 256, raw);
      && Enabled(net, s2, DeliverRequest(r))
      && var s3, c := Next(s2, DeliverRequest(r)), Confirm(n, n % 256);
      && Enabled(net, s3, DeliverConfirm(c))
      && var s4 := Next(s3, DeliverConfirm(c));
      && Enabled(net, s4, Continue) && Quiet(Next(s4, Continue), n + 1, raw)
  {
    assert (n % 256 + 1) % 256 == (n + 1) % 256;
    var s1 := Next(s, Submit(raw));
    var s2 := Next(s1, SendDone);
    assert Request(n, n % 256, raw) in s1.requests && s2.requests == s1.requests;
    var s3 := Next(s2, DeliverRequest(Request(n, n % 256, raw)));
    assert Confirm(n, n % 256) in s3.confirms;
    var s4 := Next(s3, DeliverConfirm(Confirm(n, n % 256)));
    assert s4.sender.task.verdict == Acked;
  }

  lemma Round(net: Network, labels: seq<Label>, n: nat, raw: bytes) returns (longer: seq<Label>)
    requires Admissible(net, START, labels) && Quiet(Exec(START, labels), n, raw)
    ensures Admissible(net, START, longer) && Quiet(Exec(START, longer), n + 1, raw)
  {
    RoundSteps(net, Exec(START, labels), n, raw);
    longer := labels;
    longer := ExtendBy(net, longer, Submit(raw));
    longer := ExtendBy(net, longer, SendDone);
    longer := ExtendBy(net, longer, DeliverRequest(Request(n, n % 256, raw)));
    longer := ExtendBy(net, longer, DeliverConfirm(Confirm(n, n % 256)));
    longer := ExtendBy(net, longer, Continue);
  }

  lemma ExtendBy(net: Network, labels: seq<Label>, l: Label) returns (longer: seq<Label>)
    requires Admissible(net, START, labels) && Enabled(net, Exec(START, labels), l)
    ensures longer == labels + [l]
    ensures Admissible(net, START, longer) && Exec(START, longer) == Next(Exec(START, labels), l)
  {
    longer := labels + [l];
    Extend(net, START, labels, l);
  }

  lemma {:induction false} Rounds(net: Network, n: nat, raw: bytes) returns (labels: seq<Label>)
    ensures Admissible(net, START, labels) && Quiet(Exec(START, labels), n, raw)
    decreases n
  {
    if n == 0 {
      labels := [];
    } else {
      labels := Rounds(net, n - 1, raw);
      labels := Round(net, labels, n - 1, raw);
    }
  }

  /** A request 255 telegrams old is accepted a second time. */
  lemma OldRequestRepeats(net: Network) returns (labels: seq<Label>)
    requires net.reqAge >= 255
    ensures Admissible(net, START, labels) && !Safe(Exec(START, labels))
  {
    labels := Rounds(net, 256, []);
    labels := ExtendBy(net, labels, DeliverRequest(Request(0, 0, [])));
    assert |Exec(START, labels).receiver.accepted| == 257;
  }

  /** An ACK 256 telegrams old resolves a send the receiver never saw. */
  lemma OldConfirmResolves(net: Network) returns (labels: seq<Label>)
    requires net.ackAge >= 256
    ensures Admissible(net, START, labels) && !Safe(Exec(START, labels))
  {
    labels := Rounds(net, 256, []);
    labels := ExtendBy(net, labels, Submit([]));
    labels := ExtendBy(net, labels, SendDone);
    labels := ExtendBy(net, labels, DeliverConfirm(Confirm(0, 0)));
    labels := ExtendBy(net, labels, Continue);
  }

  /** Every run is safe if and only if requests are under 255 and ACKs under 256 telegrams old. */
  lemma AgeBoundIsExact(net: Network)
    ensures (forall labels :: Admissible(net, START, labels) ==> Safe(Exec(START, labels)))
       <==> net.reqAge < 255 && net.ackAge < 256
  {
    if net.reqAge >= 255 {
      var labels := OldRequestRepeats(net);
    } else if net.ackAge >= 256 {
      var labels := OldConfirmResolves(net);
    } else {
      forall labels | Admissible(net, START, labels) ensures Safe(Exec(START, labels)) {
        TunnellingSafety(net, labels);
      }
    }
  }

  // ---------- ACKs ----------

  /**
   ACK soundness over runs: the ACK that clears the pending entry, in either attempt, was produced for the
   telegram being sent, and the receiver's log already ends with that telegram.
   */
  lemma AckSoundness(net: Network, labels: seq<Label>, c: Confirm)
    requires Distinguishable(net) && Admissible(net, START, labels)
    requires Enabled(net, Exec(START, labels), DeliverConfirm(c))
    requires var pending := Exec(START, labels).sender.pending;
      pending.Some? && c.sequence == pending.value.sequence
    ensures var s := Exec(START, labels);
      && s.receiver.accepted == s.started && c.index == |s.started| - 1
      && (s.sender.task.Attempt? ==> s.receiver.accepted[c.index] == s.sender.task.rawCemi)
  {
    RunKeeps(net, START, labels);
    ConfirmRecognised(net, Exec(START, labels), c);
  }

  // ---------- the pending slot ----------

  predicate SlotFree(snd: Sender) {
    (snd.task.Idle? ==> snd.pending.None?) && (snd.task.Attempt? ==> SlotInv(snd))
  }

  /**
   "A TUNNELLING_ACK is already pending" is met in exactly one situation: the transport rejects the first
   attempt's send while that attempt's entry is still in the slot.
   */
  lemma BlockedExactly(net: Network, s: System, l: Label)
    requires SlotFree(s.sender) && Enabled(net, s, l)
    ensures SlotFree(Next(s, l).sender)
    ensures !s.sender.blocked ==>
      (Next(s, l).sender.blocked <==> l.SendFails? && s.sender.task.number == 1 && s.sender.pending.Some?)
  {
  }

  /** It does happen, on any network: the very first send is rejected before its ACK is in. */
  lemma BlockedHappens(net: Network, raw: bytes)
    ensures var labels := [Submit(raw), SendFails];
      Admissible(net, START, labels) && Exec(START, labels).sender.blocked
  {
    var labels := ExtendBy(net, [], Submit(raw));
    labels := ExtendBy(net, labels, SendFails);
    assert [] + [Submit(raw)] == [Submit(raw)] && [Submit(raw)] + [SendFails] == [Submit(raw), SendFails];
  }

  /** While the transport rejects nothing, no attempt ever finds the slot taken, whatever the network does. */
  lemma {:induction false} NeverBlocked(net: Network, s: System, labels: seq<Label>)
    requires SlotFree(s.sender) && !s.sender.blocked
    requires Admissible(net, s, labels) && SendFails !in labels
    ensures SlotFree(Exec(s, labels).sender) && !Exec(s, labels).sender.blocked
    decreases |labels|
  {
    if labels != [] {
      assert labels[0] in labels;
      BlockedExactly(net, s, labels[0]);
      NeverBlocked(net, Next(s, labels[0]), labels[1..]);
    }
  }
}

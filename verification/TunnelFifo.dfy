/**
 A network that loses and duplicates but keeps order: each direction is a log, and once a datagram has
 been delivered nothing sent before it arrives any more. Every run over such a network is a run of
 TunnelProtocol in which no copy is more than one telegram old, hence safe.
 */
module TunnelFifo {
  import opened Bytes
  import opened TunnelSpec
  import opened TunnelProtocol
  import opened Wrappers

  /** `requestPos` and `confirmPos` are the earliest log positions still deliverable. */
  datatype Fifo = Fifo(
    sys: System,
    requestLog: seq<Request>,
    confirmLog: seq<Confirm>,
    requestPos: nat,
    confirmPos: nat)

  const FIFO_START := Fifo(START, [], [], 0, 0)

  /** Any step of the endpoints, or the delivery of a log entry by position. */
  datatype FifoLabel = Local(step: Label) | RequestAt(pos: nat) | ConfirmAt(pos: nat)

  predicate FifoEnabled(f: Fifo, l: FifoLabel) {
    match l
    case Local(e) => !e.DeliverRequest? && !e.DeliverConfirm? && Enabled(ORDERED, f.sys, e)
    case RequestAt(p) => f.requestPos <= p < |f.requestLog|
    case ConfirmAt(p) => f.confirmPos <= p < |f.confirmLog|
  }

  /** The same step seen by the unordered network. */
  function Erase(f: Fifo, l: FifoLabel): Label
    requires FifoEnabled(f, l)
  {
    match l
    case Local(e) => e
    case RequestAt(p) => DeliverRequest(f.requestLog[p])
    case ConfirmAt(p) => DeliverConfirm(f.confirmLog[p])
  }

  function AsSeq<X>(o: Option<X>): seq<X> {
    if o.Some? then [o.value] else []
  }

  function FifoNext(f: Fifo, l: FifoLabel): Fifo
    requires FifoEnabled(f, l)
  {
    var e := Erase(f, l);
    Fifo(Next(f.sys, e),
         f.requestLog + AsSeq(Transmits(f.sys, e)),
         f.confirmLog + AsSeq(Confirms(f.sys, e)),
         if l.RequestAt? then l.pos else f.requestPos,
         if l.ConfirmAt? then l.pos else f.confirmPos)
  }

  predicate FifoAdmissible(f: Fifo, labels: seq<FifoLabel>)
    decreases |labels|
  {
    labels == [] || (FifoEnabled(f, labels[0]) && FifoAdmissible(FifoNext(f, labels[0]), labels[1..]))
  }

  function FifoExec(f: Fifo, labels: seq<FifoLabel>): Fifo
    requires FifoAdmissible(f, labels)
    decreases |labels|
  {
    if labels == [] then f else FifoExec(FifoNext(f, labels[0]), labels[1..])
  }

  function EraseAll(f: Fifo, labels: seq<FifoLabel>): seq<Label>
    requires FifoAdmissible(f, labels)
    decreases |labels|
  {
    if labels == [] then [] else [Erase(f, labels[0])] + EraseAll(FifoNext(f, labels[0]), labels[1..])
  }

  /** Copies at most one telegram old. */
  const ORDERED := Network(1, 1)

  // ---------- the order invariant ----------

  predicate LogsMatch(f: Fifo) {
    && (forall p :: 0 <= p < |f.requestLog| ==> f.requestLog[p] in f.sys.requests)
    && (forall p :: 0 <= p < |f.confirmLog| ==> f.confirmLog[p] in f.sys.confirms)
  }

  /** Requests still to come are for the last accepted telegram or newer ones. */
  predicate RequestsOrdered(f: Fifo) {
    && (forall p, q :: 0 <= p <= q < |f.requestLog| ==> f.requestLog[p].index <= f.requestLog[q].index)
    && (forall p :: f.requestPos <= p < |f.requestLog| ==> f.requestLog[p].index >= |f.sys.receiver.accepted| - 1)
  }

  /** How old an ACK still to come can be: once the current telegram is confirmed, none is older. */
  function OldestConfirm(s: System): int {
    if s.sender.task.Idle? || (s.sender.task.Attempt? && s.sender.task.verdict == Acked) then |s.started| - 1
    else |s.started| - 2
  }

  predicate ConfirmsOrdered(f: Fifo) {
    && (forall p, q :: 0 <= p <= q < |f.confirmLog| ==> f.confirmLog[p].index <= f.confirmLog[q].index)
    && (forall p :: f.confirmPos <= p < |f.confirmLog| ==> f.confirmLog[p].index >= OldestConfirm(f.sys))
  }

  predicate FifoInv(f: Fifo) {
    Inv(f.sys) && LogsMatch(f) && RequestsOrdered(f) && ConfirmsOrdered(f)
  }

  /** An ordered network never delivers anything more than one telegram old. */
  lemma OrderedIsYoung(f: Fifo, l: FifoLabel)
    requires FifoInv(f) && FifoEnabled(f, l)
    ensures Enabled(ORDERED, f.sys, Erase(f, l))
  {
  }

  lemma RequestOrderKept(f: Fifo, l: FifoLabel)
    requires FifoInv(f) && FifoEnabled(f, l) && Enabled(ORDERED, f.sys, Erase(f, l))
    ensures RequestsOrdered(FifoNext(f, l))
  {
    if l.RequestAt? {
      RequestRecognised(ORDERED, f.sys, f.requestLog[l.pos]);
    }
    forall p | 0 <= p < |f.requestLog| ensures f.requestLog[p].index <= |f.sys.started| - 1 {
      assert f.requestLog[p] in f.sys.requests;
    }
  }

  /** The bound only rises when the ACK of the current telegram is taken. */
  lemma OldestMoves(net: Network, s: System, l: Label)
    requires Inv(s) && Distinguishable(net) && Enabled(net, s, l)
    ensures OldestConfirm(Next(s, l)) > OldestConfirm(s) ==> l.DeliverConfirm? && l.confirm.index == |s.started| - 1
    ensures OldestConfirm(Next(s, l)) <= |s.receiver.accepted| - 1
  {
    if l.DeliverConfirm? && s.sender.pending.Some? && l.confirm.sequence == s.sender.pending.value.sequence {
      ConfirmRecognised(net, s, l.confirm);
    }
  }

  lemma ConfirmOrderKept(f: Fifo, l: FifoLabel)
    requires FifoInv(f) && FifoEnabled(f, l) && Enabled(ORDERED, f.sys, Erase(f, l))
    ensures ConfirmsOrdered(FifoNext(f, l))
  {
    hide SenderInv, OldestConfirm, SenderAfter;
    if l.RequestAt? {
      RequestRecognised(ORDERED, f.sys, f.requestLog[l.pos]);
    }
    OldestMoves(ORDERED, f.sys, Erase(f, l));
    forall p | 0 <= p < |f.confirmLog| ensures f.confirmLog[p].index <= |f.sys.receiver.accepted| - 1 {
      assert f.confirmLog[p] in f.sys.confirms;
    }
  }

  lemma FifoStepKeeps(f: Fifo, l: FifoLabel)
    requires FifoInv(f) && FifoEnabled(f, l)
    ensures Enabled(ORDERED, f.sys, Erase(f, l)) && FifoInv(FifoNext(f, l))
  {
    OrderedIsYoung(f, l);
    StepKeeps(ORDERED, f.sys, Erase(f, l));
    RequestOrderKept(f, l);
    ConfirmOrderKept(f, l);
  }

  lemma {:induction false} FifoRefines(f: Fifo, labels: seq<FifoLabel>)
    requires FifoInv(f) && FifoAdmissible(f, labels)
    ensures Admissible(ORDERED, f.sys, EraseAll(f, labels))
    ensures FifoExec(f, labels).sys == Exec(f.sys, EraseAll(f, labels))
    decreases |labels|
  {
    if labels != [] {
      FifoStepKeeps(f, labels[0]);
      var g, rest := FifoNext(f, labels[0]), labels[1..];
      FifoRefines(g, rest);
      assert EraseAll(f, labels)[1..] == EraseAll(g, rest);
    }
  }

  /** Over an ordered, lossy, duplicating network every run is a run with ages at most one, and safe. */
  lemma OrderedNetworkIsSafe(labels: seq<FifoLabel>)
    requires FifoAdmissible(FIFO_START, labels)
    ensures Admissible(ORDERED, START, EraseAll(FIFO_START, labels))
    ensures Safe(FifoExec(FIFO_START, labels).sys)
  {
    FifoRefines(FIFO_START, labels);
    TunnellingSafety(ORDERED, EraseAll(FIFO_START, labels));
  }
}

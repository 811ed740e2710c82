/**
 The tunnel client's counters and slots as fields (src/io/tunnel.ts), for an epoch that `connect` has
 opened. Each method is one synchronous stretch of the source and is proved against TunnelSpec.
 */
module TunnelClient {
  import opened Bytes
  import opened Frame
  import opened TunnelSpec
  import opened Wrappers

  class TunnelClient {
    const overTcp: bool
    var connected: bool
    var channelId: Option<byte>
    var seqOut: byte
    var seqIn: byte
    var pendingAck: Option<Pending>
    var invalidSeqTimer: bool
    var task: Task
    var blocked: bool
    // frames handed to the transport and cEMI buffers passed on, in order
    var sent: seq<Body>
    var processed: seq<bytes>

    ghost function SenderView(): Sender
      reads this
    {
      Sender(seqOut, pendingAck, task, blocked)
    }

    ghost function ReceiverView(): Receiver
      reads this
    {
      Receiver(seqIn, processed, invalidSeqTimer)
    }

    /** A client in the state `connect` leaves: both counters zero, nothing pending. */
    constructor (overTcp: bool, channel: byte)
      ensures this.overTcp == overTcp && connected && channelId == Some(channel)
      ensures SenderView() == FRESH_SENDER && ReceiverView() == FRESH_RECEIVER && sent == []
    {
      this.overTcp := overTcp;
      connected, channelId := true, Some(channel);
      seqOut, seqIn, pendingAck, invalidSeqTimer, task, blocked := 0, 0, None, false, Idle, false;
      sent, processed := [], [];
    }

    method BumpSeqOut()
      modifies this`seqOut
      ensures seqOut == Next8(old(seqOut))
    {
      seqOut := Next8(seqOut);
    }

    /** Take the pending slot, or report it taken. */
    method AwaitAck(sequence: byte) returns (waiting: bool)
      modifies this`pendingAck, this`blocked
      ensures waiting <==> old(pendingAck).None?
      ensures pendingAck == if waiting then Some(Pending(sequence, true)) else old(pendingAck)
      ensures blocked == (old(blocked) || !waiting)
    {
      if pendingAck.Some? {
        blocked := true;
        return false;
      }
      pendingAck := Some(Pending(sequence, true));
      return true;
    }

    /** The start of `_tunnellingRequestOnce`; false where it throws before sending anything. */
    method TunnellingRequestOnce(number: nat, rawCemi: bytes) returns (ok: bool)
      modifies this
      ensures ok <==> old(connected) && old(channelId).Some?
      ensures ok ==>
        && SenderView() == Begin(overTcp, old(SenderView()), number, rawCemi)
        && sent == old(sent) + [TunnellingRequest(old(channelId).value, Sequence(overTcp, old(SenderView())), rawCemi)]
      ensures !ok ==> SenderView() == old(SenderView()) && sent == old(sent)
      ensures ReceiverView() == old(ReceiverView()) && channelId == old(channelId) && connected == old(connected)
    {
      if !connected || channelId.None? {
        return false;
      }
      var sequence := if overTcp then 0 else seqOut;
      var waiting := AwaitAck(sequence);
      task := Attempt(number, rawCemi, true, if waiting then Waiting else Refused);
      sent := sent + [TunnellingRequest(channelId.value, sequence, rawCemi)];
      return true;
    }

    /** The transport has taken the request; what is left of the attempt is its ACK, which may already be in. */
    method TransportSent()
      requires task.Attempt? && task.sending
      modifies this`task
      ensures SenderView() == SendCompleted(old(SenderView()))
    {
      task := task.(sending := false);
    }

    /** The request of the telegram in work, with the counter as it stands. */
    ghost function Repetition(): Body
      requires task.Attempt? && channelId.Some?
      reads this
    {
      TunnellingRequest(channelId.value, if overTcp then 0 else seqOut, task.rawCemi)
    }

    /** The rest of an attempt once its ACK promise has settled. */
    method FinishAttempt()
      requires task.Attempt? && !task.sending && task.verdict != Waiting
      requires connected && channelId.Some?
      modifies this
      ensures SenderView() == Settle(overTcp, old(SenderView()))
      ensures sent == old(sent)
        + (if old(task.verdict) == Refused && old(task.number) == 1 then old([Repetition()]) else [])
      ensures seqIn == old(seqIn) && processed == old(processed)
    {
      if task.verdict == Acked {
        if !overTcp {
          BumpSeqOut();
        }
        task := Idle;
        return;
      }
      Retry();
    }

    /** The transport rejected the request: the attempt fails and its slot entry stays behind. */
    method SendRejectedByTransport()
      requires task.Attempt? && task.sending
      requires connected && channelId.Some?
      modifies this
      ensures SenderView() == SendRejected(overTcp, old(SenderView()))
      ensures sent == old(sent) + (if old(task.number) == 1 then old([Repetition()]) else [])
      ensures seqIn == old(seqIn) && processed == old(processed)
    {
      if pendingAck.Some? {
        pendingAck := Some(pendingAck.value.(current := false));
      }
      Retry();
    }

    /** Second attempt with the same sequence, or give up and declare the tunnel lost. */
    method Retry()
      requires task.Attempt? && connected && channelId.Some?
      modifies this
      ensures SenderView() == AttemptFailed(overTcp, old(SenderView()))
      ensures sent == old(sent) + (if old(task.number) == 1 then old([Repetition()]) else [])
      ensures seqIn == old(seqIn) && processed == old(processed)
    {
      if task.number == 1 {
        var _ := TunnellingRequestOnce(2, task.rawCemi);
        return;
      }
      BumpSeqOut();
      TunnelLost();
      task := Lost;
    }

    /**
     Nothing happens unless connected. Otherwise the slot is emptied, which refuses the attempt waiting on it,
     and the channel is dropped; the counters stay.
     */
    method TunnelLost()
      modifies this
      ensures SenderView() == if old(connected) && old(pendingAck).Some? then ClearPending(old(SenderView()), Refused)
                              else old(SenderView())
      ensures old(connected) ==> pendingAck.None? && !connected && channelId.None? && !invalidSeqTimer
      ensures !old(connected) ==>
        !connected && channelId == old(channelId) && invalidSeqTimer == old(invalidSeqTimer)
      ensures seqIn == old(seqIn) && processed == old(processed) && sent == old(sent)
    {
      if !connected {
        return;
      }
      invalidSeqTimer := false;
      if pendingAck.Some? {
        SettlePending(Refused);
      }
      connected, channelId := false, None;
    }

    method HandleAck(ack: Body)
      requires ack.TunnellingAck?
      modifies this`pendingAck, this`task
      ensures SenderView() == OnAck(old(SenderView()), ack.sequence, ack.status)
    {
      if pendingAck.None? {
        return;
      }
      if ack.sequence != pendingAck.value.sequence {
        return;
      }
      SettlePending(if ack.status != E_NO_ERROR then Refused else Acked);
    }

    method AckTimeout()
      requires pendingAck.Some?
      modifies this`pendingAck, this`task
      ensures SenderView() == ClearPending(old(SenderView()), Refused)
    {
      SettlePending(Refused);
    }

    method SettlePending(verdict: Verdict)
      requires pendingAck.Some?
      modifies this`pendingAck, this`task
      ensures SenderView() == ClearPending(old(SenderView()), verdict)
    {
      var entry := pendingAck.value;
      pendingAck := None;
      if entry.current && task.Attempt? {
        task := task.(verdict := verdict);
      }
    }

    /**
     The inbound rule. A request for another channel changes nothing; otherwise new and repeated requests
     are acknowledged with their own channel and counter, and only new ones are passed on.
     */
    method HandleInboundTunnelling(req: Body)
      requires req.TunnellingRequest?
      modifies this`seqIn, this`invalidSeqTimer, this`sent, this`processed
      ensures SenderView() == old(SenderView())
      ensures var foreign := channelId.Some? && req.channel != channelId.value;
        && ReceiverView() == (if foreign then old(ReceiverView())
                              else OnRequest(overTcp, old(ReceiverView()), req.sequence, req.rawCemi))
        && sent == old(sent) + (if !foreign && connected && React(overTcp, old(seqIn), req.sequence) != Drop
                                then [TunnellingAck(req.channel, req.sequence, E_NO_ERROR)] else [])
    {
      if channelId.Some? && req.channel != channelId.value {
        return;
      }
      if overTcp {
        SendAck(req);
        processed := processed + [req.rawCemi];
        return;
      }
      var expected := seqIn;
      var previous := Prev8(expected);
      if req.sequence == expected {
        seqIn := Next8(expected);
        invalidSeqTimer := false;
        SendAck(req);
        processed := processed + [req.rawCemi];
        return;
      }
      if req.sequence == previous {
        SendAck(req);
        return;
      }
      invalidSeqTimer := true;
    }

    method SendAck(req: Body)
      requires req.TunnellingRequest?
      modifies this`sent
      ensures sent == old(sent) + (if connected then [TunnellingAck(req.channel, req.sequence, E_NO_ERROR)] else [])
    {
      if !connected {
        return;
      }
      sent := sent + [TunnellingAck(req.channel, req.sequence, E_NO_ERROR)];
    }
  }
}

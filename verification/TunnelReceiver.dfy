/**
 The receiver alone, against requests of any counter: what it passes on, what it acknowledges and when its
 reconnect timer is armed, in terms of how many telegrams it has passed on.
 */
module TunnelReceiver {
  import opened Bytes
  import opened TunnelSpec

  datatype Request = Request(sequence: byte, rawCemi: bytes)

  function Receive(tcp: bool, r: Receiver, requests: seq<Request>): Receiver
    decreases |requests|
  {
    if requests == [] then r
    else
      var last := requests[|requests| - 1];
      OnRequest(tcp, Receive(tcp, r, requests[..|requests| - 1]), last.sequence, last.rawCemi)
  }

  /** How many telegrams have been passed on. */
  function Passed(tcp: bool, requests: seq<Request>): nat {
    |Receive(tcp, FRESH_RECEIVER, requests).accepted|
  }

  /** A request is new if it carries the number of telegrams passed on, modulo 256. */
  predicate IsNew(requests: seq<Request>, i: nat)
    requires i < |requests|
  {
    requests[i].sequence == Passed(false, requests[..i]) % 256
  }

  /** A repetition if it carries one less. */
  predicate IsRepeated(requests: seq<Request>, i: nat)
    requires i < |requests|
  {
    requests[i].sequence == (Passed(false, requests[..i]) + 255) % 256
  }

  /** The cEMI buffers of the new requests, in order. */
  function NewOnes(requests: seq<Request>): seq<bytes>
    decreases |requests|
  {
    if requests == [] then []
    else
      var n := |requests| - 1;
      NewOnes(requests[..n]) + (if IsNew(requests, n) then [requests[n].rawCemi] else [])
  }

  /** A request that is neither came after the last new one. */
  predicate OutOfOrderSinceNew(requests: seq<Request>)
    decreases |requests|
  {
    requests != [] &&
    var n := |requests| - 1;
    !IsNew(requests, n) && (!IsRepeated(requests, n) || OutOfOrderSinceNew(requests[..n]))
  }

  /**
   Over UDP, whatever arrives: exactly the new requests are passed on, in order; the counter is their number;
   the reconnect timer is armed exactly while an out-of-order request is younger than every new one.
   */
  lemma {:induction false} ReceivesExactly(requests: seq<Request>)
    ensures var r := Receive(false, FRESH_RECEIVER, requests);
      && r.accepted == NewOnes(requests) && r.seqIn == |r.accepted| % 256
      && (r.invalidSeqArmed <==> OutOfOrderSinceNew(requests))
    decreases |requests|
  {
    if requests != [] {
      var n := |requests| - 1;
      ReceivesExactly(requests[..n]);
      Counters(Passed(false, requests[..n]));
    }
  }

  lemma Counters(n: nat)
    ensures (n % 256 + 1) % 256 == (n + 1) % 256 && (n % 256 + 255) % 256 == (n + 255) % 256
  {
    var q, r := n / 256, n % 256;
    Remainder(q, r + 1);
    Remainder(q, r + 255);
  }

  lemma Remainder(q: nat, r: nat)
    requires r < 512
    ensures (256 * q + r) % 256 == r % 256
  {
    if r >= 256 {
      assert 256 * q + r == 256 * (q + 1) + (r - 256);
    }
  }

  /** What is acknowledged: new and repeated requests over UDP, every request over TCP. */
  lemma AcknowledgesExactly(tcp: bool, requests: seq<Request>, i: nat)
    requires i < |requests|
    ensures React(tcp, Receive(tcp, FRESH_RECEIVER, requests[..i]).seqIn, requests[i].sequence) != Drop
       <==> tcp || IsNew(requests, i) || IsRepeated(requests, i)
  {
    if !tcp {
      ReceivesExactly(requests[..i]);
      Counters(Passed(false, requests[..i]));
    }
  }

  function Contents(requests: seq<Request>): seq<bytes> {
    seq(|requests|, i requires 0 <= i < |requests| => requests[i].rawCemi)
  }

  /** Over TCP everything is passed on, and neither counter nor timer is touched. */
  lemma {:induction false} TcpPassesAll(requests: seq<Request>)
    ensures Receive(true, FRESH_RECEIVER, requests) == Receiver(0, Contents(requests), false)
    decreases |requests|
  {
    if requests != [] {
      var n := |requests| - 1;
      TcpPassesAll(requests[..n]);
      assert Contents(requests) == Contents(requests[..n]) + [requests[n].rawCemi];
    }
  }
}

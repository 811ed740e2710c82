/**
 End to end: a session sends, the bytes travel a TCP stream cut anywhere, and a peer session with the
 same key and session id receives.
 */
module SecureChannel {
  import opened Bytes
  import opened Crypto
  import opened Endpoints
  import opened Frame
  import opened Runs
  import opened SessionSpec
  import opened Wrapper
  import opened Wrappers
  import T = TcpTransport

  /** A frame an application hands to `send`: built from a canonical body that is not a status. */
  predicate Sendable(frame: KnxFrame) {
    frame == FromBody(frame.body) && frame.body.Canonical() && !frame.body.SessionStatus?
  }

  /** Sends and keepalives, in any order. */
  predicate Traffic(events: seq<Event>) {
    forall i :: 0 <= i < |events| ==>
      events[i].KeepaliveTick? || (events[i].SendCall? && Sendable(events[i].frame))
  }

  /** The frames whose `send` put a wrapper on the wire, in order. */
  function Transmitted(cfg: Config, s: Session, events: seq<Event>): seq<KnxFrame>
    decreases |events|
  {
    if events == [] then []
    else
      var t := Step(cfg, s, events[0]);
      var rest := Transmitted(cfg, t, events[1..]);
      if events[0].SendCall? && |t.sent| > |s.sent| then [events[0].frame] + rest else rest
  }

  /** All frames handed to `send`. */
  function Submitted(events: seq<Event>): seq<KnxFrame>
    decreases |events|
  {
    if events == [] then []
    else if events[0].SendCall? then [events[0].frame] + Submitted(events[1..])
    else Submitted(events[1..])
  }

  /** How a session reacts to its transport: 'raw' has no listener. */
  function OnTransport(cfg: Config, p: Session, e: T.Event<KnxFrame>): Session {
    match e
    case Message(f) => Step(cfg, p, Inbound(f))
    case Raw(_) => p
    case Error(_) => Step(cfg, p, InnerError)
  }

  function Listener(cfg: Config): (Session, T.Event<KnxFrame>) -> Session {
    (p, e) => OnTransport(cfg, p, e)
  }

  function Receive(cfg: Config, p: Session, events: seq<T.Event<KnxFrame>>): Session {
    Fold(Listener(cfg), p, events)
  }

  /** The peer holds the sender's key and session id and has not seen the sender's next ids. */
  predicate Paired(s: Session, p: Session) {
    && s.key.Some? && p.key == s.key && p.sessionId == s.sessionId
    && p.phase.Rank() >= Authenticated.Rank()
    && (p.lastPeerSeq.Some? ==> p.lastPeerSeq.value < s.sequenceId)
  }

  /** What one send or keepalive adds to the log. */
  function NewBodies(s: Session, t: Session): seq<Body>
    requires |s.sent| <= |t.sent|
  {
    t.sent[|s.sent|..]
  }

  /** The peer opens the wrapper just sent and finds the frame that went in. */
  lemma PeerOpens(cfgS: Config, s: Session, cfgP: Config, p: Session, b: Body, w: Body)
    requires Paired(s, p) && cfgS.cipher == cfgP.cipher && b.Canonical()
    requires SendWrapped(cfgS, s, Print(b)).1
    requires w == SendWrapped(cfgS, s, Print(b)).0.sent[|s.sent|]
    ensures w.Canonical()
    ensures OnSecureWrapper(cfgP, p, w) == OnInnerFrame(cfgP, p.(lastPeerSeq := Some(s.sequenceId)), FromBody(b))
  {
    hide Print, ParseFrame, OnInnerFrame;
    var frame := Encrypt(cfgS.cipher, s.key.value, ContextOf(cfgS, s), Print(b)).value;
    assert Sealed(w.encryptedFrame, w.mac) == frame;
    DecryptInvertsEncrypt(cfgS.cipher, s.key.value, ContextOf(cfgS, s), frame, Print(b));
    FrameRoundTrip(b);
  }

  /** The body a sending event seals. */
  function Sealing(e: Event): (b: Body) {
    if e.SendCall? then e.frame.body else SessionStatus(STATUS_KEEPALIVE)
  }

  /** A sending event adds one wrapper to the log or nothing; an id may be used up either way. */
  lemma SenderStep(cfg: Config, s: Session, e: Event)
    requires Traffic([e])
    ensures Sealing(e).Canonical()
    ensures var t := Step(cfg, s, e);
      if |t.sent| > |s.sent|
      then s.key.Some? && SendWrapped(cfg, s, Print(Sealing(e))).1 && t == SendWrapped(cfg, s, Print(Sealing(e))).0
      else t == s.(sequenceId := t.sequenceId) && t.sequenceId >= s.sequenceId
  {
    assert [e][0] == e;
  }

  lemma ReceiveOne(cfg: Config, p: Session, w: Body)
    requires w.SecureWrapper? && w.Canonical()
    ensures T.AllCanonical([w])
    ensures Receive(cfg, p, T.Messages([w])) == OnSecureWrapper(cfg, p, w)
  {
    var events := T.Messages([w]);
    assert events[0] == T.Message(FromBody(w)) && events[1..] == [];
    assert Receive(cfg, p, events) == Receive(cfg, OnTransport(cfg, p, events[0]), []);
  }

  /** The wrapper of one send or keepalive, delivered. */
  lemma HopDelivers(cfgS: Config, s: Session, b: Body, cfgP: Config, p: Session)
    requires Paired(s, p) && cfgS.cipher == cfgP.cipher && b.Canonical()
    requires b.SessionStatus? ==> b.status == STATUS_KEEPALIVE
    requires SendWrapped(cfgS, s, Print(b)).1
    ensures var t := SendWrapped(cfgS, s, Print(b)).0;
      && T.AllCanonical(NewBodies(s, t))
      && var q := Receive(cfgP, p, T.Messages(NewBodies(s, t)));
      && Paired(t, q)
      && q.messages == p.messages + (if b.SessionStatus? then [] else [FromBody(b)])
  {
    hide Encrypt, Print, ParseFrame, OnSecureWrapper;
    var t := SendWrapped(cfgS, s, Print(b)).0;
    var w := t.sent[|s.sent|];
    PeerOpens(cfgS, s, cfgP, p, b, w);
    assert NewBodies(s, t) == [w];
    ReceiveOne(cfgP, p, w);
    assert p.messages + [] == p.messages;
  }

  /** One event of the sender and the delivery of what it put on the wire. */
  lemma Hop(cfgS: Config, s: Session, e: Event, cfgP: Config, p: Session)
    requires Paired(s, p) && cfgS.cipher == cfgP.cipher && Traffic([e])
    ensures var t := Step(cfgS, s, e);
      && s.sent <= t.sent
      && T.AllCanonical(NewBodies(s, t))
      && var q := Receive(cfgP, p, T.Messages(NewBodies(s, t)));
      && Paired(t, q)
      && q.messages == p.messages + (if e.SendCall? && |t.sent| > |s.sent| then [e.frame] else [])
  {
    var t := Step(cfgS, s, e);
    assert [e][0] == e;
    SenderStep(cfgS, s, e);
    if |t.sent| > |s.sent| {
      HopDelivers(cfgS, s, Sealing(e), cfgP, p);
    } else {
      assert NewBodies(s, t) == [] && T.Messages([]) == [];
      assert p.messages + [] == p.messages;
    }
  }

  /** Delivering two batches one after the other. */
  lemma DeliverBoth(listen: (Session, T.Event<KnxFrame>) -> Session, p: Session, a: seq<Body>, b: seq<Body>,
                    now: seq<KnxFrame>, later: seq<KnxFrame>)
    requires T.AllCanonical(a) && T.AllCanonical(b)
    requires var q := Fold(listen, p, T.Messages(a));
      && q.messages == p.messages + now
      && Fold(listen, q, T.Messages(b)).messages == q.messages + later
    ensures T.AllCanonical(a + b)
    ensures Fold(listen, p, T.Messages(a + b)).messages == p.messages + (now + later)
  {
    assert T.Messages(a + b) == T.Messages(a) + T.Messages(b);
    FoldConcat(listen, p, T.Messages(a), T.Messages(b));
    assert (p.messages + now) + later == p.messages + (now + later);
  }

  /** Any traffic, delivered frame by frame. */
  lemma {:induction false} DeliveredAsSent(cfgS: Config, s: Session, events: seq<Event>, cfgP: Config, p: Session)
    requires Paired(s, p) && cfgS.cipher == cfgP.cipher && Traffic(events)
    ensures var t := Run(cfgS, s, events);
      && |s.sent| <= |t.sent|
      && T.AllCanonical(NewBodies(s, t))
      && Receive(cfgP, p, T.Messages(NewBodies(s, t))).messages == p.messages + Transmitted(cfgS, s, events)
    decreases |events|
  {
    if events == [] {
      assert NewBodies(s, s) == [] && T.Messages([]) == [];
      assert p.messages + [] == p.messages;
    } else {
      var e, rest := events[0], events[1..];
      var m := Step(cfgS, s, e);
      var t := Run(cfgS, m, rest);
      assert Traffic([e]) && Traffic(rest);
      Hop(cfgS, s, e, cfgP, p);
      var q := Receive(cfgP, p, T.Messages(NewBodies(s, m)));
      DeliveredAsSent(cfgS, m, rest, cfgP, q);
      RunLogGrows(cfgS, m, rest);
      LogSplit(s, m, t);
      var now := if e.SendCall? && |m.sent| > |s.sent| then [e.frame] else [];
      var later := Transmitted(cfgS, m, rest);
      DeliverBoth(Listener(cfgP), p, NewBodies(s, m), NewBodies(m, t), now, later);
      assert [] + later == later;
      assert Transmitted(cfgS, s, events) == now + later;
    }
  }

  lemma LogSplit(s: Session, m: Session, t: Session)
    requires s.sent <= m.sent <= t.sent
    ensures NewBodies(s, t) == NewBodies(s, m) + NewBodies(m, t)
  {
  }

  lemma LogGrows(cfg: Config, s: Session, e: Event)
    requires e.KeepaliveTick? || e.SendCall?
    ensures s.sent <= Step(cfg, s, e).sent
  {
  }

  lemma {:induction false} RunLogGrows(cfg: Config, s: Session, events: seq<Event>)
    requires Traffic(events)
    ensures s.sent <= Run(cfg, s, events).sent
    decreases |events|
  {
    if events != [] {
      LogGrows(cfg, s, events[0]);
      RunLogGrows(cfg, Step(cfg, s, events[0]), events[1..]);
    }
  }

  /**
   End to end. Take any sends and keepalives of a session, print the wrappers they put on the wire, cut
   the bytes into any chunks and feed them to a paired peer: it surfaces exactly the transmitted frames,
   once each, in order, and its transport holds no left-over byte.
   */
  lemma EndToEnd(cfgS: Config, s: Session, events: seq<Event>, cfgP: Config, p: Session, chunks: seq<bytes>)
    requires Paired(s, p) && cfgS.cipher == cfgP.cipher && Traffic(events)
    ensures var t := Run(cfgS, s, events);
      && |s.sent| <= |t.sent| && T.AllCanonical(NewBodies(s, t))
      && (T.Concat(chunks) == T.PrintAll(NewBodies(s, t)) ==>
            var arrived := T.Feed(T.ParseOutcome, [], chunks);
            && arrived.residue == []
            && Receive(cfgP, p, arrived.events).messages == p.messages + Transmitted(cfgS, s, events))
  {
    DeliveredAsSent(cfgS, s, events, cfgP, p);
    var bodies := NewBodies(s, Run(cfgS, s, events));
    if T.Concat(chunks) == T.PrintAll(bodies) {
      T.FramesSurviveTheStream(bodies, chunks);
    }
  }

  /** A send reaches the wire exactly when ids are left and the sealed frame fits a 16-bit length. */
  predicate Goes(cfg: Config, s: Session, frame: KnxFrame) {
    && s.phase == Authenticated && s.key.Some?
    && s.sequenceId + 1 < U48_LIMIT
    && frame.Printable() && Encodable(ContextOf(cfg, s), |frame.ToKnx()|)
  }

  lemma SendReachesTheWire(cfg: Config, s: Session, frame: KnxFrame)
    ensures |Send(cfg, s, frame).sent| > |s.sent| <==> Goes(cfg, s, frame)
  {
  }

  predicate Fits(frame: KnxFrame) {
    frame.Printable() && WRAPPER_FIXED_OVERHEAD + |frame.ToKnx()| < U16_LIMIT
  }

  /** With ids left for every event and frames that fit, nothing submitted is missing. */
  lemma {:induction false} EverythingTransmitted(cfg: Config, s: Session, events: seq<Event>)
    requires s.phase == Authenticated && s.key.Some? && Traffic(events)
    requires Encodable(Context(s.sessionId, 0, cfg.serialNumber, cfg.messageTag), 0)
    requires s.sequenceId + |events| < U48_LIMIT
    requires forall i :: 0 <= i < |events| && events[i].SendCall? ==> Fits(events[i].frame)
    ensures Transmitted(cfg, s, events) == Submitted(events)
    decreases |events|
  {
    if events != [] {
      if events[0].SendCall? {
        assert Fits(events[0].frame);
        SendReachesTheWire(cfg, s, events[0].frame);
      }
      EverythingTransmitted(cfg, Step(cfg, s, events[0]), events[1..]);
    }
  }
}

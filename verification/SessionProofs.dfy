/** What every run of the secure session keeps. */
module SessionProofs {
  import opened Bytes
  import opened Crypto
  import opened Endpoints
  import opened Frame
  import Handshake
  import opened Runs
  import opened SessionSpec
  import opened Wrapper
  import opened Wrappers

  // ---------- the invariant ----------

  function WrapperContext(w: Body): Context
    requires w.SecureWrapper?
  {
    Context(w.sessionId, w.sequenceId, w.serialNumber, w.messageTag)
  }

  /** `w` is the encryption of some frame under `key`; its fields are within their widths. */
  predicate SealedUnder(E: Cipher, key: Block, w: Body) {
    && w.SecureWrapper?
    && Encodable(WrapperContext(w), |w.encryptedFrame|)
    && Decrypt(E, key, WrapperContext(w), Sealed(w.encryptedFrame, w.mac)).Ok?
  }

  /** Every wrapper sent so far is this session's, under its one key, with an id already used up. */
  predicate Ours(cfg: Config, s: Session, w: Body) {
    w.SecureWrapper? ==>
      && s.key.Some? && SealedUnder(cfg.cipher, s.key.value, w)
      && w.sequenceId < s.sequenceId
      && w.sessionId == s.sessionId && w.serialNumber == cfg.serialNumber && w.messageTag == cfg.messageTag
  }

  predicate IdsIncrease(sent: seq<Body>) {
    forall i, j :: 0 <= i < j < |sent| && sent[i].SecureWrapper? && sent[j].SecureWrapper?
      ==> sent[i].sequenceId < sent[j].sequenceId
  }

  predicate SentValid(cfg: Config, s: Session) {
    (forall i :: 0 <= i < |s.sent| ==> Ours(cfg, s, s.sent[i])) && IdsIncrease(s.sent)
  }

  predicate PhaseValid(s: Session) {
    && (s.phase == Idle ==> !s.pendingHandshake)
    && (s.phase == Requesting || s.phase == Authenticating ==> s.pendingHandshake)
    && (s.phase == Idle || s.pendingHandshake ==> s.settled == [])
    && |s.settled| <= 1
    && (s.settled == [Resolved] ==> s.phase.Rank() >= Authenticated.Rank())
    && (s.phase == Idle || s.phase == Requesting ==> s.key.None?)
    && (s.phase == Authenticating || s.phase == Authenticated ==> s.key.Some?)
  }

  predicate Valid(cfg: Config, s: Session) {
    PhaseValid(s) && SentValid(cfg, s)
  }

  /** What one step does to everything a run accumulates. */
  predicate StepFacts(s: Session, t: Session) {
    && s.phase.Rank() <= t.phase.Rank()
    && (s.key.Some? ==> t.key == s.key && t.sessionId == s.sessionId)
    && s.sequenceId <= t.sequenceId
    && s.sent <= t.sent
    && s.settled <= t.settled
    && (t.settled == s.settled + [Resolved] <==> s.phase != Authenticated && t.phase == Authenticated)
  }

  // ---------- sending ----------

  /** One more wrapper: it carries the id just used up, so the log stays increasing. */
  lemma SendWrappedKeeps(cfg: Config, s: Session, plain: bytes)
    requires s.key.Some? && SentValid(cfg, s)
    ensures var t := SendWrapped(cfg, s, plain).0;
      && SentValid(cfg, t)
      && s.sent <= t.sent && t.sequenceId == s.sequenceId + 1
      && t == s.(sent := t.sent, sequenceId := t.sequenceId)
  {
    var t := SendWrapped(cfg, s, plain).0;
    var frame := Encrypt(cfg.cipher, s.key.value, ContextOf(cfg, s), plain);
    if frame.Ok? {
      DecryptInvertsEncrypt(cfg.cipher, s.key.value, ContextOf(cfg, s), frame.value, plain);
      var w := t.sent[|s.sent|];
      assert WrapperContext(w) == ContextOf(cfg, s);
      assert Sealed(w.encryptedFrame, w.mac) == frame.value;
      assert Ours(cfg, t, w);
    }
    forall i | 0 <= i < |s.sent| ensures Ours(cfg, t, t.sent[i]) {
      assert Ours(cfg, s, s.sent[i]);
    }
    forall i, j | 0 <= i < j < |t.sent| && t.sent[i].SecureWrapper? && t.sent[j].SecureWrapper?
      ensures t.sent[i].sequenceId < t.sent[j].sequenceId
    {
      assert Ours(cfg, s, s.sent[i]);
    }
  }

  /** Handlers that leave the log, the key and the counter alone keep what the log says. */
  lemma SentUnchanged(cfg: Config, s: Session, t: Session)
    requires SentValid(cfg, s) && t.sent == s.sent && t.sequenceId >= s.sequenceId
    requires s.key.Some? ==> t.key == s.key && t.sessionId == s.sessionId
    ensures SentValid(cfg, t)
  {
    forall i | 0 <= i < |t.sent| ensures Ours(cfg, t, t.sent[i]) {
      assert Ours(cfg, s, s.sent[i]);
    }
  }

  // ---------- one step ----------

  lemma CloseKeeps(cfg: Config, s: Session)
    requires Valid(cfg, s)
    ensures Valid(cfg, Close(cfg, s)) && StepFacts(s, Close(cfg, s))
  {
    if s.phase != Closed && s.phase != Closing {
      var closing := SetPhase(s, Closing).(keepaliveArmed := false);
      SentUnchanged(cfg, s, closing);
      if s.key.Some? {
        SendWrappedKeeps(cfg, closing, Print(SessionStatus(STATUS_CLOSE)));
      }
    }
  }

  lemma FailKeeps(cfg: Config, s: Session)
    requires SentValid(cfg, s) && |s.settled| <= 1 && (s.pendingHandshake ==> s.settled == [])
    ensures Valid(cfg, FailHandshake(s))
    ensures s.settled <= FailHandshake(s).settled && FailHandshake(s).settled != s.settled + [Resolved]
  {
    SentUnchanged(cfg, s, FailHandshake(s));
    assert s.settled + [Rejected] != s.settled + [Resolved] by {
      assert (s.settled + [Rejected])[|s.settled|] != (s.settled + [Resolved])[|s.settled|];
    }
  }

  lemma CompleteKeeps(cfg: Config, s: Session)
    requires Valid(cfg, s) && s.phase == Authenticating
    ensures Valid(cfg, CompleteHandshake(cfg, s)) && StepFacts(s, CompleteHandshake(cfg, s))
  {
    SentUnchanged(cfg, s, CompleteHandshake(cfg, s));
  }

  lemma AuthenticateKeeps(cfg: Config, s: Session, server: Handshake.PublicKey)
    requires SentValid(cfg, s) && s.phase == Requesting && s.pendingHandshake && s.settled == [] && s.key.Some?
    ensures var t := Authenticate(cfg, s, server);
      && Valid(cfg, t) && t.key == s.key && t.sessionId == s.sessionId
      && s.sequenceId <= t.sequenceId && s.sent <= t.sent
      && t.phase.Rank() > s.phase.Rank() && t.phase != Authenticated && t.settled != [Resolved]
  {
    FailKeeps(cfg, s);
    var mac := cfg.authenticateMac(server);
    if mac.Some? && 1 <= cfg.userId <= 127 {
      var plain := Print(SessionAuthenticate(cfg.userId, mac.value));
      var ready := SetPhase(s, Authenticating);
      SentUnchanged(cfg, s, ready);
      SendWrappedKeeps(cfg, ready, plain);
      FailKeeps(cfg, SendWrapped(cfg, ready, plain).0);
    }
  }

  lemma SessionResponseKeeps(cfg: Config, s: Session, sessionId: int, server: Handshake.PublicKey, mac: bytes)
    requires Valid(cfg, s)
    ensures var t := OnSessionResponse(cfg, s, sessionId, server, mac); Valid(cfg, t) && StepFacts(s, t)
  {
    if s.phase == Requesting {
      var named := s.(sessionId := sessionId);
      SentUnchanged(cfg, s, named);
      FailKeeps(cfg, named);
      var key := cfg.sharedKey(server);
      if key.Some? {
        SentUnchanged(cfg, named, named.(key := key));
        AuthenticateKeeps(cfg, named.(key := key), server);
      }
    }
  }

  lemma SecureWrapperKeeps(cfg: Config, s: Session, w: Body)
    requires Valid(cfg, s) && w.SecureWrapper?
    ensures Valid(cfg, OnSecureWrapper(cfg, s, w)) && StepFacts(s, OnSecureWrapper(cfg, s, w))
  {
    hide DecryptBody, ParseFrame, OnInnerFrame;
    if s.key.Some? && w.sessionId == s.sessionId && DecryptBody(cfg, s, w).Ok? && !Stale(s, w.sequenceId) {
      var accepted := s.(lastPeerSeq := Some(w.sequenceId));
      SentUnchanged(cfg, s, accepted);
      var inner := ParseFrame(DecryptBody(cfg, s, w).value);
      if inner.Ok? {
        InnerFrameKeeps(cfg, accepted, inner.value.0);
      }
    }
  }

  lemma InnerFrameKeeps(cfg: Config, s: Session, frame: KnxFrame)
    requires Valid(cfg, s)
    ensures Valid(cfg, OnInnerFrame(cfg, s, frame)) && StepFacts(s, OnInnerFrame(cfg, s, frame))
  {
    hide Close, CompleteHandshake;
    var noted := s.(notices := s.notices + [ErrorEvent]);
    SentUnchanged(cfg, s, noted);
    CloseKeeps(cfg, noted);
    FailKeeps(cfg, s);
    if s.phase == Authenticating {
      CompleteKeeps(cfg, s);
    }
    SentUnchanged(cfg, s, s.(messages := s.messages + [frame]));
  }

  lemma PlainStatusKeeps(cfg: Config, s: Session, status: byte)
    requires Valid(cfg, s)
    ensures Valid(cfg, OnPlainSessionStatus(cfg, s, status)) && StepFacts(s, OnPlainSessionStatus(cfg, s, status))
  {
    FailKeeps(cfg, s);
    if s.phase == Authenticating {
      CompleteKeeps(cfg, s);
    }
  }

  lemma FrameKeeps(cfg: Config, s: Session, frame: KnxFrame)
    requires Valid(cfg, s)
    ensures Valid(cfg, OnFrame(cfg, s, frame)) && StepFacts(s, OnFrame(cfg, s, frame))
  {
    var body := frame.body;
    if body.SessionResponse? && |body.publicKey| == 32 {
      SessionResponseKeeps(cfg, s, body.sessionId, body.publicKey, body.mac);
    } else if body.SecureWrapper? {
      SecureWrapperKeeps(cfg, s, body);
    } else if body.SessionStatus? {
      PlainStatusKeeps(cfg, s, body.status);
    } else {
      SentUnchanged(cfg, s, s.(notices := s.notices + [PlainMessage(frame)]));
    }
  }

  lemma SendKeeps(cfg: Config, s: Session, frame: KnxFrame)
    requires Valid(cfg, s)
    ensures Valid(cfg, Send(cfg, s, frame)) && StepFacts(s, Send(cfg, s, frame))
  {
    hide SendWrapped, KnxFrame.ToKnx;
    if s.phase == Authenticated {
      SentUnchanged(cfg, s, s.(sequenceId := s.sequenceId + 1));
      if frame.Printable() {
        SendWrappedKeeps(cfg, s, frame.ToKnx());
      }
    }
  }

  lemma OpenKeeps(cfg: Config, s: Session)
    requires Valid(cfg, s)
    ensures Valid(cfg, Open(cfg, s)) && StepFacts(s, Open(cfg, s))
  {
    var t := Open(cfg, s);
    forall i | 0 <= i < |t.sent| ensures Ours(cfg, t, t.sent[i]) {
      if i < |s.sent| { assert Ours(cfg, s, s.sent[i]); }
    }
  }

  lemma KeepaliveKeeps(cfg: Config, s: Session)
    requires Valid(cfg, s)
    ensures var t := SendStatus(cfg, s, STATUS_KEEPALIVE); Valid(cfg, t) && StepFacts(s, t)
  {
    if s.key.Some? {
      SendWrappedKeeps(cfg, s, Print(SessionStatus(STATUS_KEEPALIVE)));
    }
  }

  /** A failed handshake from any valid state. */
  lemma FailsKeeps(cfg: Config, s: Session)
    requires Valid(cfg, s)
    ensures Valid(cfg, FailHandshake(s)) && StepFacts(s, FailHandshake(s))
  {
    FailKeeps(cfg, s);
  }

  /** The inner transport's own events, and the end of a `close`. */
  lemma TransportKeeps(cfg: Config, s: Session)
    requires Valid(cfg, s)
    ensures var t := s.(notices := s.notices + [ErrorEvent]); Valid(cfg, t) && StepFacts(s, t)
    ensures Valid(cfg, OnInnerClose(s)) && StepFacts(s, OnInnerClose(s))
    ensures var t := Step(cfg, s, CloseDone); Valid(cfg, t) && StepFacts(s, t)
  {
    SentUnchanged(cfg, s, s.(notices := s.notices + [ErrorEvent]));
    SentUnchanged(cfg, s, OnInnerClose(s));
    SentUnchanged(cfg, s, Step(cfg, s, CloseDone));
  }

  lemma NothingKeeps(s: Session)
    ensures StepFacts(s, s)
  {
  }

  /** Every event keeps the invariant, never lowers the phase and never changes an agreed key. */
  lemma StepKeeps(cfg: Config, s: Session, e: Event)
    requires Valid(cfg, s)
    ensures Valid(cfg, Step(cfg, s, e)) && StepFacts(s, Step(cfg, s, e))
  {
    hide Valid, StepFacts, Open, Send, SendStatus, Close, OnFrame, FailHandshake, OnInnerClose, SetPhase;
    TransportKeeps(cfg, s);
    FailsKeeps(cfg, s);
    NothingKeeps(s);
    match e
    case OpenCall => OpenKeeps(cfg, s);
    case SendCall(frame) => SendKeeps(cfg, s, frame);
    case CloseCall => CloseKeeps(cfg, s);
    case KeepaliveTick => KeepaliveKeeps(cfg, s);
    case Inbound(frame) => FrameKeeps(cfg, s, frame);
    case _ =>
  }

  // ---------- runs ----------

  /**
   Over any run from a valid session: the phase never goes back, the key and the session id stay once
   agreed, and the log only grows.
   */
  lemma {:induction false} RunKeeps(cfg: Config, s: Session, events: seq<Event>)
    requires Valid(cfg, s)
    ensures var t := Run(cfg, s, events);
      && Valid(cfg, t)
      && s.phase.Rank() <= t.phase.Rank()
      && (s.key.Some? ==> t.key == s.key && t.sessionId == s.sessionId)
      && s.sequenceId <= t.sequenceId && s.sent <= t.sent && s.settled <= t.settled
    decreases |events|
  {
    if events != [] {
      StepKeeps(cfg, s, events[0]);
      RunKeeps(cfg, Step(cfg, s, events[0]), events[1..]);
    }
  }

  /** The session after the first `n` events. */
  function After(cfg: Config, events: seq<Event>, n: nat): Session
    requires n <= |events|
  {
    Run(cfg, INITIAL, events[..n])
  }

  lemma AfterValid(cfg: Config, events: seq<Event>, n: nat, m: nat)
    requires n <= m <= |events|
    ensures Valid(cfg, After(cfg, events, n))
    ensures After(cfg, events, n).phase.Rank() <= After(cfg, events, m).phase.Rank()
  {
    RunKeeps(cfg, INITIAL, events[..n]);
    assert events[..m] == events[..n] + events[n..m];
    FoldConcat(Stepper(cfg), INITIAL, events[..n], events[n..m]);
    RunKeeps(cfg, After(cfg, events, n), events[n..m]);
  }

  /** Event `n` takes the session into `authenticated`. */
  predicate Enters(cfg: Config, events: seq<Event>, n: nat)
    requires n < |events|
  {
    After(cfg, events, n).phase != Authenticated && After(cfg, events, n + 1).phase == Authenticated
  }

  /** In any run `authenticated` is entered at most once. */
  lemma AuthenticatedOnce(cfg: Config, events: seq<Event>, m: nat, n: nat)
    requires m < |events| && n < |events| && Enters(cfg, events, m) && Enters(cfg, events, n)
    ensures m == n
  {
    if m < n {
      AfterValid(cfg, events, m + 1, n);
      AfterValid(cfg, events, n, n + 1);
    } else if n < m {
      AfterValid(cfg, events, n + 1, m);
      AfterValid(cfg, events, m, m + 1);
    }
  }

  /**
   The promise of `open` settles at most once in any run, a handshake under way has it pending, and it
   resolves in exactly the step that enters `authenticated`.
   */
  lemma OpenSettles(cfg: Config, events: seq<Event>, n: nat)
    requires n < |events|
    ensures var s, t := After(cfg, events, n), After(cfg, events, n + 1);
      && |t.settled| <= 1 && s.settled <= t.settled
      && (t.phase == Requesting || t.phase == Authenticating ==> t.pendingHandshake && t.settled == [])
      && (t.settled == s.settled + [Resolved] <==> Enters(cfg, events, n))
  {
    AfterValid(cfg, events, n, n + 1);
    AfterValid(cfg, events, n + 1, n + 1);
    FoldNext(Stepper(cfg), INITIAL, events, n);
    StepKeeps(cfg, After(cfg, events, n), events[n]);
  }

  /** Block i of a wrapper's encrypted MAC and frame was made with the cipher of `x`. */
  predicate MadeWith(E: Cipher, key: Block, w: Body, i: nat, x: Block)
    requires SealedUnder(E, key, w)
  {
    var ctx := WrapperContext(w);
    var plain := Decrypt(E, key, ctx, Sealed(w.encryptedFrame, w.mac)).value;
    |plain| == |w.encryptedFrame|
    && EncryptedBy(E, key, w.mac + w.encryptedFrame, FrameMac(E, key, ctx, plain) + plain, i, x)
  }

  lemma SealedIsMadeWith(E: Cipher, key: Block, w: Body, i: nat, x: Block)
    requires SealedUnder(E, key, w) && Value(x) == InputNumber(WrapperContext(w), i)
    ensures MadeWith(E, key, w, i, x)
  {
    var ctx, frame := WrapperContext(w), Sealed(w.encryptedFrame, w.mac);
    var plain := Decrypt(E, key, ctx, frame).value;
    DecryptInvertsEncrypt(E, key, ctx, frame, plain);
    CipherInputs(E, key, ctx, plain, i, x);
  }

  /**
   No endpoint gives the cipher one input twice. Over any run, every block i of every wrapper sent is MAC and
   frame against the cipher, under the one session key, of the block with that wrapper's input number i; and
   for two blocks of two log entries those inputs are the same only if entry and block are.
   */
  lemma NoKeystreamReuse(cfg: Config, events: seq<Event>, p: nat, i: nat, x: Block, q: nat, j: nat, y: Block)
    requires var sent := Run(cfg, INITIAL, events).sent;
      && p < |sent| && sent[p].SecureWrapper? && i < BlocksUsed(|sent[p].encryptedFrame|)
      && q < |sent| && sent[q].SecureWrapper? && j < BlocksUsed(|sent[q].encryptedFrame|)
      && Value(x) == InputNumber(WrapperContext(sent[p]), i) && Value(y) == InputNumber(WrapperContext(sent[q]), j)
    ensures var t := Run(cfg, INITIAL, events);
      && t.key.Some? && SealedUnder(cfg.cipher, t.key.value, t.sent[p])
      && SealedUnder(cfg.cipher, t.key.value, t.sent[q])
      && MadeWith(cfg.cipher, t.key.value, t.sent[p], i, x) && MadeWith(cfg.cipher, t.key.value, t.sent[q], j, y)
      && (x == y <==> p == q && i == j)
  {
    hide MadeWith, InputNumber;
    var t := Run(cfg, INITIAL, events);
    RunKeeps(cfg, INITIAL, events);
    var a, b := t.sent[p], t.sent[q];
    assert Ours(cfg, t, a) && Ours(cfg, t, b);
    SealedIsMadeWith(cfg.cipher, t.key.value, a, i, x);
    SealedIsMadeWith(cfg.cipher, t.key.value, b, j, y);
    SameInput(a, i, x, b, j, y);
    assert p < q ==> a.sequenceId < b.sequenceId;
    assert q < p ==> b.sequenceId < a.sequenceId;
  }

  lemma SameInput(a: Body, i: nat, x: Block, b: Body, j: nat, y: Block)
    requires a.SecureWrapper? && Encodable(WrapperContext(a), |a.encryptedFrame|)
    requires b.SecureWrapper? && Encodable(WrapperContext(b), |b.encryptedFrame|)
    requires i < BlocksUsed(|a.encryptedFrame|) && Value(x) == InputNumber(WrapperContext(a), i)
    requires j < BlocksUsed(|b.encryptedFrame|) && Value(y) == InputNumber(WrapperContext(b), j)
    ensures x == y <==>
      && a.sequenceId == b.sequenceId && a.serialNumber == b.serialNumber
      && a.messageTag == b.messageTag && i == j
  {
    InputBlock(WrapperContext(a), i, x);
    InputBlock(WrapperContext(b), j, y);
    CounterBlocksDistinct(WrapperContext(a), |a.encryptedFrame|, i, WrapperContext(b), |b.encryptedFrame|, j);
  }

  /**
   Two endpoints, say the two ends of one session under its one key: over any two runs the cipher inputs of
   their wrappers coincide exactly where serial numbers, tags, sequence ids and places in the wrapper do.
   With different serial numbers or tags the two directions share no key stream at all.
   */
  lemma DirectionsShareNoKeystream(cfgA: Config, eventsA: seq<Event>, p: nat, i: nat, x: Block,
                                   cfgB: Config, eventsB: seq<Event>, q: nat, j: nat, y: Block)
    requires var sent := Run(cfgA, INITIAL, eventsA).sent;
      && p < |sent| && sent[p].SecureWrapper? && i < BlocksUsed(|sent[p].encryptedFrame|)
      && Value(x) == InputNumber(WrapperContext(sent[p]), i)
    requires var sent := Run(cfgB, INITIAL, eventsB).sent;
      && q < |sent| && sent[q].SecureWrapper? && j < BlocksUsed(|sent[q].encryptedFrame|)
      && Value(y) == InputNumber(WrapperContext(sent[q]), j)
    ensures var a, b := Run(cfgA, INITIAL, eventsA).sent[p], Run(cfgB, INITIAL, eventsB).sent[q];
      x == y <==>
        && cfgA.serialNumber == cfgB.serialNumber && cfgA.messageTag == cfgB.messageTag
        && a.sequenceId == b.sequenceId && i == j
  {
    hide InputNumber;
    var s, t := Run(cfgA, INITIAL, eventsA), Run(cfgB, INITIAL, eventsB);
    RunKeeps(cfgA, INITIAL, eventsA);
    RunKeeps(cfgB, INITIAL, eventsB);
    var a, b := s.sent[p], t.sent[q];
    assert Ours(cfgA, s, a) && Ours(cfgB, t, b);
    SameInput(a, i, x, b, j, y);
  }

  /** What a wrapper's MAC covers besides the frame is what stands in front of it on the wire. */
  lemma AdditionalDataOnTheWire(w: Body)
    requires w.SecureWrapper? && w.Printable()
    ensures Print(w)[..8] == AdditionalData(WrapperContext(w), |w.encryptedFrame|)
    ensures Print(w)[8..22] == Nonce(WrapperContext(w))
  {
    var head := FromBody(w).header.ToKnx();
    var s, n := U16(w.sessionId), Nonce(WrapperContext(w));
    assert head == [0x06, 0x10] + [0x09, 0x50] + U16(38 + |w.encryptedFrame|);
    assert Print(w) == head + s + n + (w.encryptedFrame + w.mac);
    assert Print(w)[..8] == head + s && Print(w)[8..22] == n;
  }

  // ---------- where the key comes from ----------

  /** An inbound SESSION_RESPONSE that passed its check and from which `t`'s key and id were taken. */
  predicate Agreed(cfg: Config, t: Session, e: Event) {
    && e.Inbound? && e.frame.body.SessionResponse? && |e.frame.body.publicKey| == 32
    && var response := e.frame.body;
    && cfg.responseOk(response.sessionId, response.publicKey, response.mac)
    && t.sessionId == response.sessionId && t.key == cfg.sharedKey(response.publicKey)
  }

  /** A key appears only in a step that takes in a SESSION_RESPONSE whose check succeeded. */
  lemma KeyStep(cfg: Config, s: Session, e: Event)
    requires s.key.None? && Step(cfg, s, e).key.Some?
    ensures Agreed(cfg, Step(cfg, s, e), e)
  {
    hide Encrypt, Decrypt, Print, ParseFrame;
  }

  lemma {:induction false} KeyAgreed(cfg: Config, s: Session, events: seq<Event>) returns (i: nat)
    requires Valid(cfg, s) && s.key.None? && Run(cfg, s, events).key.Some?
    ensures i < |events| && Agreed(cfg, Run(cfg, s, events), events[i])
    decreases |events|
  {
    hide Valid, Step;
    var t := Step(cfg, s, events[0]);
    StepKeeps(cfg, s, events[0]);
    if t.key.Some? {
      KeyStep(cfg, s, events[0]);
      RunKeeps(cfg, t, events[1..]);
      i := 0;
    } else {
      i := KeyAgreed(cfg, t, events[1..]);
      i := i + 1;
    }
  }

  /**
   In every run a session with a key, an authenticated one in particular, took key and session id from one
   SESSION_RESPONSE that passed the configured check.
   */
  lemma KeyFromCheckedResponse(cfg: Config, events: seq<Event>)
    ensures var t := Run(cfg, INITIAL, events);
      && (t.phase == Authenticating || t.phase == Authenticated ==> t.key.Some?)
      && (t.key.Some? ==> exists i :: 0 <= i < |events| && Agreed(cfg, t, events[i]))
  {
    RunKeeps(cfg, INITIAL, events);
    if Run(cfg, INITIAL, events).key.Some? {
      var i := KeyAgreed(cfg, INITIAL, events);
    }
  }

  /**
   With a device authentication code, that response carried the MAC of its own session id and server key
   under the code.
   */
  lemma KeyIsAuthenticated(cipher: Cipher, clientPublic: Handshake.PublicKey, code: Block, passwordKey: Block,
                           userId: byte, serialNumber: int, messageTag: int, keepalive: bool,
                           sharedKey: Handshake.PublicKey -> Option<Block>, events: seq<Event>)
    ensures
      var cfg := Configure(cipher, clientPublic, Some(code), passwordKey, userId, serialNumber, messageTag,
                           keepalive, sharedKey);
      var t := Run(cfg, INITIAL, events);
      t.key.Some? ==>
        exists i :: (0 <= i < |events| && Agreed(cfg, t, events[i])
                     && Vouched(cipher, code, clientPublic, events[i].frame.body))
  {
    var cfg := Configure(cipher, clientPublic, Some(code), passwordKey, userId, serialNumber, messageTag,
                         keepalive, sharedKey);
    if Run(cfg, INITIAL, events).key.Some? {
      var i := KeyAgreed(cfg, INITIAL, events);
      assert Vouched(cipher, code, clientPublic, events[i].frame.body);
    }
  }

  /** The response's MAC is the one a holder of the code computes for its session id and the two public keys. */
  predicate Vouched(cipher: Cipher, code: Block, clientPublic: Handshake.PublicKey, response: Body) {
    && response.SessionResponse? && |response.publicKey| == 32 && 0 <= response.sessionId < U16_LIMIT
    && response.mac
       == Handshake.SessionResponseMac(cipher, code, response.sessionId, clientPublic, response.publicKey)
  }

  // ---------- inbound anti-replay ----------

  /** The session takes a wrapper as genuine and new. */
  predicate Accepts(cfg: Config, s: Session, w: Body)
    requires w.SecureWrapper?
  {
    s.key.Some? && w.sessionId == s.sessionId && DecryptBody(cfg, s, w).Ok? && !Stale(s, w.sequenceId)
  }

  /**
   In any phase, a wrapper with a foreign session id, a failing MAC or an id not above the window changes
   nothing. An accepted one moves the window to its id, unless it completes the handshake, which clears the
   window, and surfaces at most one frame.
   */
  lemma AcceptedOrIgnored(cfg: Config, s: Session, w: Body)
    requires w.SecureWrapper?
    ensures var t := OnSecureWrapper(cfg, s, w);
      if Accepts(cfg, s, w)
      then (t.lastPeerSeq
            == if s.phase == Authenticating && t.phase == Authenticated then None else Some(w.sequenceId))
           && (t.messages == s.messages || exists f :: t.messages == s.messages + [f])
      else t == s
  {
    hide Encrypt, Decrypt, Print, ParseFrame;
  }

  /**
   Nothing surfaces but what the key's holder sealed: in any phase, a frame handed to the application is the
   parse of a plain text whose encryption under the session key, in the context the wrapper names for this
   session, is this very wrapper.
   */
  lemma SurfacedIsAuthentic(cfg: Config, s: Session, w: Body)
    requires w.SecureWrapper? && OnSecureWrapper(cfg, s, w).messages != s.messages
    ensures s.key.Some? && DecryptBody(cfg, s, w).Ok?
    ensures var plain := DecryptBody(cfg, s, w).value;
      && Encrypt(cfg.cipher, s.key.value, Context(s.sessionId, w.sequenceId, w.serialNumber, w.messageTag), plain)
         == Ok(Sealed(w.encryptedFrame, w.mac))
      && ParseFrame(plain).Ok?
      && OnSecureWrapper(cfg, s, w).messages == s.messages + [ParseFrame(plain).value.0]
  {
    hide Encrypt, Decrypt, Print, ParseFrame;
    var ctx := Context(s.sessionId, w.sequenceId, w.serialNumber, w.messageTag);
    var plain := DecryptBody(cfg, s, w).value;
    DecryptInvertsEncrypt(cfg.cipher, s.key.value, ctx, Sealed(w.encryptedFrame, w.mac), plain);
  }

  /** The sequence ids of the wrappers that surfaced a frame in a run, in order. */
  function EmittedIds(cfg: Config, s: Session, events: seq<Event>): seq<int>
    decreases |events|
  {
    if events == [] then []
    else
      var t := Step(cfg, s, events[0]);
      var rest := EmittedIds(cfg, t, events[1..]);
      if events[0].Inbound? && events[0].frame.body.SecureWrapper? && |t.messages| > |s.messages|
      then [events[0].frame.body.sequenceId] + rest
      else rest
  }

  predicate StrictlyAbove(ids: seq<int>, floor: Option<int>) {
    && (forall i :: 0 <= i < |ids| && floor.Some? ==> floor.value < ids[i])
    && (forall i, j :: 0 <= i < j < |ids| ==> ids[i] < ids[j])
  }

  /** After the handshake only wrappers touch the window or the messages. */
  lemma QuietStep(cfg: Config, s: Session, e: Event)
    requires s.phase.Rank() >= Authenticated.Rank()
    requires !(e.Inbound? && e.frame.body.SecureWrapper?)
    ensures var t := Step(cfg, s, e);
      t.phase.Rank() >= Authenticated.Rank() && t.lastPeerSeq == s.lastPeerSeq && t.messages == s.messages
  {
    hide Encrypt, Print, ParseFrame;
  }

  /** An inbound wrapper never lowers or clears the window, and a message comes with its id. */
  lemma WrapperStep(cfg: Config, s: Session, w: Body)
    requires s.phase.Rank() >= Authenticated.Rank() && w.SecureWrapper?
    ensures var t := OnSecureWrapper(cfg, s, w);
      && t.phase.Rank() >= Authenticated.Rank()
      && (s.lastPeerSeq.Some? ==> t.lastPeerSeq.Some? && t.lastPeerSeq.value >= s.lastPeerSeq.value)
      && (t.messages == s.messages
          || (!Stale(s, w.sequenceId) && t.lastPeerSeq == Some(w.sequenceId) && |t.messages| == |s.messages| + 1))
  {
    AcceptedOrIgnored(cfg, s, w);
  }

  /**
   Over any run after authentication the ids of surfaced frames strictly increase, and every surfaced
   frame has its id among them.
   */
  lemma {:induction false} EmittedIdsIncrease(cfg: Config, s: Session, events: seq<Event>)
    requires s.phase.Rank() >= Authenticated.Rank()
    ensures StrictlyAbove(EmittedIds(cfg, s, events), s.lastPeerSeq)
    ensures |Run(cfg, s, events).messages| == |s.messages| + |EmittedIds(cfg, s, events)|
    decreases |events|
  {
    hide OnSecureWrapper, Send, Close, OnInnerFrame;
    if events != [] {
      var e := events[0];
      if e.Inbound? && e.frame.body.SecureWrapper? {
        WrapperStep(cfg, s, e.frame.body);
        assert Step(cfg, s, e) == OnSecureWrapper(cfg, s, e.frame.body);
      } else {
        QuietStep(cfg, s, e);
      }
      EmittedIdsIncrease(cfg, Step(cfg, s, e), events[1..]);
    }
  }
}

/**
 What each event does to a secure session, read off the event and the session's fields: the messages that
 open, close and fail a session, what is put on the wire, and what reaches the application.
 */
module SessionTable {
  import opened Bytes
  import opened Crypto
  import opened Endpoints
  import opened Frame
  import Handshake
  import opened Runs
  import opened SessionProofs
  import opened SessionSpec
  import opened Wrapper
  import opened Wrappers

  // ---------- what an event brings ----------

  predicate IsWrapper(e: Event) {
    e.Inbound? && e.frame.body.SecureWrapper?
  }

  /** The plain text of an inbound wrapper: of this session, not stale, and genuine under its key. */
  function Opened(cfg: Config, s: Session, e: Event): Option<bytes> {
    if !IsWrapper(e) || s.key.None? then None
    else
      var w := e.frame.body;
      var plain := Decrypt(cfg.cipher, s.key.value,
                           Context(s.sessionId, w.sequenceId, w.serialNumber, w.messageTag),
                           Sealed(w.encryptedFrame, w.mac));
      if w.sessionId == s.sessionId && (s.lastPeerSeq.Some? ==> w.sequenceId > s.lastPeerSeq.value) && plain.Ok?
      then Some(plain.value)
      else None
  }

  /** The frame inside. */
  function SealedFrame(cfg: Config, s: Session, e: Event): Option<KnxFrame> {
    var plain := Opened(cfg, s, e);
    if plain.Some? && ParseFrame(plain.value).Ok? then Some(ParseFrame(plain.value).value.0) else None
  }

  /** The status code an event brings, in the open or sealed. */
  function PlainStatus(e: Event): Option<byte> {
    if e.Inbound? && e.frame.body.SessionStatus? then Some(e.frame.body.status) else None
  }

  function SealedStatus(cfg: Config, s: Session, e: Event): Option<byte> {
    var f := SealedFrame(cfg, s, e);
    if f.Some? && f.value.body.SessionStatus? then Some(f.value.body.status) else None
  }

  function Status(cfg: Config, s: Session, e: Event): Option<byte> {
    if PlainStatus(e).Some? then PlainStatus(e) else SealedStatus(cfg, s, e)
  }

  predicate IsResponse(e: Event) {
    e.Inbound? && e.frame.body.SessionResponse? && |e.frame.body.publicKey| == 32
  }

  /** The response passes its check and everything needed to answer it can be computed. */
  predicate Acceptable(cfg: Config, e: Event)
    requires IsResponse(e)
  {
    var r := e.frame.body;
    && cfg.responseOk(r.sessionId, r.publicKey, r.mac)
    && cfg.sharedKey(r.publicKey).Some? && cfg.authenticateMac(r.publicKey).Some? && 1 <= cfg.userId <= 127
  }

  /** And the answer fits its wrapper. */
  predicate Answerable(cfg: Config, s: Session, e: Event)
    requires IsResponse(e)
  {
    Acceptable(cfg, e)
    && Encodable(Context(e.frame.body.sessionId, s.sequenceId, cfg.serialNumber, cfg.messageTag), 24)
  }

  // ---------- phases and the promise of `open` ----------

  predicate Succeeds(cfg: Config, s: Session, e: Event) {
    s.phase == Authenticating && Status(cfg, s, e) == Some(0x00)
  }

  predicate BreaksHandshake(cfg: Config, s: Session, e: Event) {
    || e.Fails?
    || (e.InnerError? && s.pendingHandshake)
    || (s.phase == Requesting && IsResponse(e) && !Answerable(cfg, s, e))
    || (s.phase == Authenticating && Status(cfg, s, e).Some? && Status(cfg, s, e).value != 0x00)
  }

  predicate StartsClosing(cfg: Config, s: Session, e: Event) {
    && s.phase != Closing && s.phase != Closed
    && (e.CloseCall? || (s.phase != Authenticating && SealedStatus(cfg, s, e) == Some(0x05)))
  }

  function NextPhase(cfg: Config, s: Session, e: Event): Phase {
    if e.OpenCall? && s.phase == Idle then Requesting
    else if s.phase == Requesting && IsResponse(e) && Answerable(cfg, s, e) then Authenticating
    else if Succeeds(cfg, s, e) then Authenticated
    else if StartsClosing(cfg, s, e) then Closing
    else if BreaksHandshake(cfg, s, e) || e.InnerClose? || (e.CloseDone? && s.phase == Closing) then Closed
    else s.phase
  }

  function Settles(cfg: Config, s: Session, e: Event): seq<Settlement> {
    if !s.pendingHandshake then []
    else if Succeeds(cfg, s, e) then [Resolved]
    else if BreaksHandshake(cfg, s, e) then [Rejected]
    else []
  }

  // ---------- the wire ----------

  /** The plain text an event makes the session seal, under the key and id it has afterwards. */
  function Seals(cfg: Config, s: Session, e: Event): Option<bytes> {
    if s.phase == Requesting && IsResponse(e) then
      if Acceptable(cfg, e) then
        var mac: bytes := cfg.authenticateMac(e.frame.body.publicKey).value;
        Some([0x06, 0x10, 0x09, 0x53, 0x00, 0x18, 0x00, cfg.userId] + mac)
      else None
    else if s.key.None? then None
    else if e.SendCall? then
      if s.phase == Authenticated && s.sequenceId + 1 < U48_LIMIT && e.frame.Printable() then Some(e.frame.ToKnx())
      else None
    else if e.KeepaliveTick? && s.keepaliveArmed then Some([0x06, 0x10, 0x09, 0x54, 0x00, 0x07, 0x04])
    else if StartsClosing(cfg, s, e) then Some([0x06, 0x10, 0x09, 0x54, 0x00, 0x07, 0x05])
    else None
  }

  /** `w` carries `plain` under `t`'s key and session id with the id `s` was about to use. */
  predicate Carries(cfg: Config, s: Session, t: Session, w: Body, plain: bytes) {
    && w.SecureWrapper? && t.key.Some?
    && WrapperContext(w) == Context(t.sessionId, s.sequenceId, cfg.serialNumber, cfg.messageTag)
    && Decrypt(cfg.cipher, t.key.value, WrapperContext(w), Sealed(w.encryptedFrame, w.mac)) == Ok(plain)
  }

  /** What an event adds to what has been sent. */
  predicate Sends(cfg: Config, s: Session, e: Event, t: Session) {
    var plain := Seals(cfg, s, e);
    if e.OpenCall? && s.phase == Idle then
      t.sent == s.sent + [SessionRequest(Hpai([0, 0, 0, 0], 0, 0x02), cfg.clientPublic)]
    else if plain.Some?
            && Encodable(Context(t.sessionId, s.sequenceId, cfg.serialNumber, cfg.messageTag), |plain.value|)
    then
      |t.sent| == |s.sent| + 1 && t.sent[..|s.sent|] == s.sent && Carries(cfg, s, t, t.sent[|s.sent|], plain.value)
    else t.sent == s.sent
  }

  // ---------- events for the listener ----------

  /** A frame the session has no use for. */
  predicate Unexpected(e: Event) {
    e.Inbound? && !IsResponse(e) && !IsWrapper(e) && !e.frame.body.SessionStatus?
  }

  function Announces(cfg: Config, s: Session, e: Event): seq<Notice> {
    var next := NextPhase(cfg, s, e);
    var change :=
      if s.phase == Requesting && IsResponse(e) && Acceptable(cfg, e) && !Answerable(cfg, s, e) then
        [StateChange(Authenticating, Requesting), StateChange(Closed, Authenticating)]
      else if next != s.phase then [StateChange(next, s.phase)]
      else [];
    if s.phase != Authenticating && SealedStatus(cfg, s, e) == Some(0x05) then [ErrorEvent] + change
    else if BreaksHandshake(cfg, s, e) || e.InnerError? then change + [ErrorEvent]
    else if e.InnerClose? then change + [CloseEvent]
    else if Unexpected(e) then change + [PlainMessage(e.frame)]
    else change
  }

  // ---------- one step ----------

  /** Every field of the session after the event. */
  predicate Tabled(cfg: Config, s: Session, e: Event, t: Session) {
    && t.phase == NextPhase(cfg, s, e)
    && t.settled == s.settled + Settles(cfg, s, e)
    && Sends(cfg, s, e, t)
    // the application sees sealed frames that are not status messages
    && t.messages == s.messages
       + (var f := SealedFrame(cfg, s, e);
          if f.Some? && !f.value.body.SessionStatus? then [f.value] else [])
    // the replay window
    && t.lastPeerSeq == (if Succeeds(cfg, s, e) then None
                         else if Opened(cfg, s, e).Some? then Some(e.frame.body.sequenceId)
                         else s.lastPeerSeq)
    // the keepalive timer
    && t.keepaliveArmed == (if Succeeds(cfg, s, e) then s.keepaliveArmed || cfg.keepalive
                            else s.keepaliveArmed && !StartsClosing(cfg, s, e) && !e.InnerClose?)
    && t.notices == s.notices + Announces(cfg, s, e)
    && KeysTabled(cfg, s, e, t)
  }

  /** Key, session id, sequence id and the pending promise. */
  predicate KeysTabled(cfg: Config, s: Session, e: Event, t: Session) {
    var responds := s.phase == Requesting && IsResponse(e);
    && t.sessionId == (if responds then e.frame.body.sessionId else s.sessionId)
    && t.key == (if responds && cfg.responseOk(e.frame.body.sessionId, e.frame.body.publicKey, e.frame.body.mac)
                    && cfg.sharedKey(e.frame.body.publicKey).Some?
                 then cfg.sharedKey(e.frame.body.publicKey) else s.key)
    // an id is used up by everything sealed, and by a send of a ready session that then fails
    && t.sequenceId == s.sequenceId
       + (if Seals(cfg, s, e).Some? || (e.SendCall? && s.phase == Authenticated && s.key.Some?) then 1 else 0)
    && t.pendingHandshake == ((e.OpenCall? && s.phase == Idle) || (s.pendingHandshake && Settles(cfg, s, e) == []))
  }

  lemma SealingSends(cfg: Config, s: Session, plain: bytes)
    requires s.key.Some?
    ensures var (t, ok) := SendWrapped(cfg, s, plain);
      && t == s.(sent := t.sent, sequenceId := s.sequenceId + 1)
      && (ok <==> Encodable(ContextOf(cfg, s), |plain|))
      && (if ok then |t.sent| == |s.sent| + 1 && t.sent[..|s.sent|] == s.sent
                     && Carries(cfg, s, t, t.sent[|s.sent|], plain)
          else t.sent == s.sent)
  {
    var frame := Encrypt(cfg.cipher, s.key.value, ContextOf(cfg, s), plain);
    if frame.Ok? {
      DecryptInvertsEncrypt(cfg.cipher, s.key.value, ContextOf(cfg, s), frame.value, plain);
      var w := SendWrapped(cfg, s, plain).0.sent[|s.sent|];
      assert Sealed(w.encryptedFrame, w.mac) == frame.value;
    }
  }

  lemma StatusBytes(code: byte)
    ensures Print(SessionStatus(code)) == [0x06, 0x10, 0x09, 0x54, 0x00, 0x07, code]
  {
  }

  lemma AuthenticateBytes(userId: byte, mac: Block)
    requires 1 <= userId <= 127
    ensures Print(SessionAuthenticate(userId, mac)) == [0x06, 0x10, 0x09, 0x53, 0x00, 0x18, 0x00, userId] + mac
    ensures |Print(SessionAuthenticate(userId, mac))| == 24
  {
  }

  lemma ClosingTabled(cfg: Config, s: Session, e: Event)
    requires e.CloseCall?
    ensures Tabled(cfg, s, e, Step(cfg, s, e))
  {
    hide Encrypt, Decrypt, Print, ParseFrame, SendWrapped;
    StatusBytes(0x05);
    if s.phase != Closing && s.phase != Closed && s.key.Some? {
      SealingSends(cfg, SetPhase(s, Closing).(keepaliveArmed := false), Print(SessionStatus(0x05)));
    }
  }

  lemma SendTabled(cfg: Config, s: Session, e: Event)
    requires e.SendCall?
    ensures Tabled(cfg, s, e, Step(cfg, s, e))
  {
    hide Encrypt, Decrypt, Print, ParseFrame, SendWrapped, KnxFrame.ToKnx, KnxFrame.Printable;
    if s.key.Some? && e.frame.Printable() {
      SealingSends(cfg, s, e.frame.ToKnx());
    }
  }

  lemma KeepaliveTabled(cfg: Config, s: Session, e: Event)
    requires e.KeepaliveTick?
    ensures Tabled(cfg, s, e, Step(cfg, s, e))
  {
    hide Encrypt, Decrypt, Print, ParseFrame, SendWrapped;
    StatusBytes(0x04);
    if s.key.Some? {
      SealingSends(cfg, s, Print(SessionStatus(0x04)));
    }
  }

  lemma RefusedTabled(cfg: Config, s: Session, e: Event)
    requires IsResponse(e) && !(s.phase == Requesting && Acceptable(cfg, e))
    ensures Tabled(cfg, s, e, Step(cfg, s, e))
  {
    hide Encrypt, Decrypt, Print, ParseFrame, SendWrapped;
  }

  lemma AnsweredTabled(cfg: Config, s: Session, e: Event)
    requires IsResponse(e) && s.phase == Requesting && Acceptable(cfg, e)
    ensures Tabled(cfg, s, e, Step(cfg, s, e))
  {
    hide Encrypt, Decrypt, Print, ParseFrame, SendWrapped;
    var r := e.frame.body;
    var mac := cfg.authenticateMac(r.publicKey).value;
    AuthenticateBytes(cfg.userId, mac);
    var keyed := s.(sessionId := r.sessionId, key := cfg.sharedKey(r.publicKey));
    SealingSends(cfg, SetPhase(keyed, Authenticating), Print(SessionAuthenticate(cfg.userId, mac)));
  }

  lemma SealedCloseTabled(cfg: Config, s: Session, e: Event)
    requires IsWrapper(e) && SealedStatus(cfg, s, e) == Some(0x05) && s.phase != Authenticating
    ensures Tabled(cfg, s, e, Step(cfg, s, e))
  {
    hide Encrypt, Decrypt, Print, ParseFrame, SendWrapped;
    StatusBytes(0x05);
    if StartsClosing(cfg, s, e) {
      var accepted := s.(lastPeerSeq := Some(e.frame.body.sequenceId));
      var noted := accepted.(notices := s.notices + [ErrorEvent]);
      SealingSends(cfg, SetPhase(noted, Closing).(keepaliveArmed := false), Print(SessionStatus(0x05)));
    }
  }

  lemma WrapperTabled(cfg: Config, s: Session, e: Event)
    requires IsWrapper(e) && !(SealedStatus(cfg, s, e) == Some(0x05) && s.phase != Authenticating)
    ensures Tabled(cfg, s, e, Step(cfg, s, e))
  {
    hide Encrypt, Decrypt, Print, ParseFrame, SendWrapped;
  }

  lemma PlainStatusTabled(cfg: Config, s: Session, e: Event)
    requires e.Inbound? && e.frame.body.SessionStatus?
    ensures Tabled(cfg, s, e, Step(cfg, s, e))
  {
    hide Encrypt, Decrypt, Print, ParseFrame, SendWrapped;
  }

  lemma UnexpectedTabled(cfg: Config, s: Session, e: Event)
    requires Unexpected(e)
    ensures Tabled(cfg, s, e, Step(cfg, s, e))
  {
    hide Encrypt, Decrypt, Print, ParseFrame, SendWrapped;
  }

  lemma OpenTabled(cfg: Config, s: Session, e: Event)
    requires e.OpenCall?
    ensures Tabled(cfg, s, e, Step(cfg, s, e))
  {
    hide Encrypt, Decrypt, Print, ParseFrame, SendWrapped;
    assert Zeros(4) == [0, 0, 0, 0];
  }

  lemma EndTabled(cfg: Config, s: Session, e: Event)
    requires e.CloseDone? || e.Fails?
    ensures Tabled(cfg, s, e, Step(cfg, s, e))
  {
    hide Encrypt, Decrypt, Print, ParseFrame, SendWrapped;
  }

  lemma InnerTabled(cfg: Config, s: Session, e: Event)
    requires e.InnerError? || e.InnerClose?
    ensures Tabled(cfg, s, e, Step(cfg, s, e))
  {
    hide Encrypt, Decrypt, Print, ParseFrame, SendWrapped;
  }

  /** In any state, every event does exactly what its table entry says. */
  lemma StepTable(cfg: Config, s: Session, e: Event)
    ensures Tabled(cfg, s, e, Step(cfg, s, e))
  {
    hide Tabled, Step;
    if e.CloseCall? {
      ClosingTabled(cfg, s, e);
    } else if e.SendCall? {
      SendTabled(cfg, s, e);
    } else if e.KeepaliveTick? {
      KeepaliveTabled(cfg, s, e);
    } else if IsResponse(e) {
      if s.phase == Requesting && Acceptable(cfg, e) {
        AnsweredTabled(cfg, s, e);
      } else {
        RefusedTabled(cfg, s, e);
      }
    } else if IsWrapper(e) {
      if SealedStatus(cfg, s, e) == Some(0x05) && s.phase != Authenticating {
        SealedCloseTabled(cfg, s, e);
      } else {
        WrapperTabled(cfg, s, e);
      }
    } else if Unexpected(e) {
      UnexpectedTabled(cfg, s, e);
    } else if e.Inbound? {
      PlainStatusTabled(cfg, s, e);
    } else if e.InnerError? || e.InnerClose? {
      InnerTabled(cfg, s, e);
    } else if e.OpenCall? {
      OpenTabled(cfg, s, e);
    } else {
      EndTabled(cfg, s, e);
    }
  }

  // ---------- runs ----------

  /**
   Which message opens a session. In every run event n enters `authenticated` if and only if the session was
   `authenticating` and the event is a SESSION_STATUS 0x00, plain or in a wrapper of this session that is not
   stale and decrypts under its key. In that phase any other status rejects `open` and closes.
   */
  lemma EntersExactly(cfg: Config, events: seq<Event>, n: nat)
    requires n < |events|
    ensures var s, t, e := After(cfg, events, n), After(cfg, events, n + 1), events[n];
      && (Enters(cfg, events, n) <==> s.phase == Authenticating && Status(cfg, s, e) == Some(0x00))
      && (s.phase == Authenticating && Status(cfg, s, e).Some? && Status(cfg, s, e).value != 0x00 ==>
            t.phase == Closed && t.settled == [Rejected])
  {
    var s := After(cfg, events, n);
    FoldNext(Stepper(cfg), INITIAL, events, n);
    assert After(cfg, events, n + 1) == Step(cfg, s, events[n]);
    AfterValid(cfg, events, n, n);
    StepTable(cfg, s, events[n]);
    hide Step, Status, SealedStatus, Seals, Sends, Announces, KeysTabled, SealedFrame, Opened;
  }

  /** In every run each event does exactly what its table entry says. */
  lemma RunTable(cfg: Config, events: seq<Event>, n: nat)
    requires n < |events|
    ensures Tabled(cfg, After(cfg, events, n), events[n], After(cfg, events, n + 1))
  {
    hide Tabled, Step;
    FoldNext(Stepper(cfg), INITIAL, events, n);
    StepTable(cfg, After(cfg, events, n), events[n]);
  }

  /**
   What the handshake answers with: a session built from keys seals SESSION_AUTHENTICATE with its user id and
   the MAC under the password key over that id and both public keys.
   */
  lemma AnswersWithPasswordMac(cipher: Cipher, clientPublic: Handshake.PublicKey, code: Option<Block>,
                               passwordKey: Block, userId: byte, serialNumber: int, messageTag: int,
                               keepalive: bool, sharedKey: Handshake.PublicKey -> Option<Block>,
                               s: Session, e: Event)
    requires s.phase == Requesting && IsResponse(e)
    ensures
      var cfg := Configure(cipher, clientPublic, code, passwordKey, userId, serialNumber, messageTag, keepalive,
                           sharedKey);
      var r := e.frame.body;
      && (Acceptable(cfg, e) <==>
            && 1 <= userId <= 127 && sharedKey(r.publicKey).Some?
            && (code.Some? ==> Vouched(cipher, code.value, clientPublic, r)))
      && (Acceptable(cfg, e) ==>
            Seals(cfg, s, e) == Some([0x06, 0x10, 0x09, 0x53, 0x00, 0x18, 0x00, userId]
              + Handshake.AuthenticateMac(cipher, passwordKey, userId, clientPublic, r.publicKey)))
  {
  }
}

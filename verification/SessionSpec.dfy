/**
 The KNX/IP Secure session as a state machine (src/io/secureSession.ts): one function per handler,
 from a session value to the session value after it. The class in SecureSession.dfy is proved against
 these functions; runs of the machine are what the theorems quantify over.
 */
module SessionSpec {
  import opened Bytes
  import opened Crypto
  import opened Endpoints
  import opened Frame
  import opened Handshake
  import opened Runs
  import opened Wrapper
  import opened Wrappers

  datatype Phase = Idle | Requesting | Authenticating | Authenticated | Closing | Closed {
    function Rank(): nat {
      match this
      case Idle => 0
      case Requesting => 1
      case Authenticating => 2
      case Authenticated => 3
      case Closing => 4
      case Closed => 5
    }
  }

  /** How the promise returned by `open` settled. */
  datatype Settlement = Resolved | Rejected

  /** The events a session emits besides 'message'. */
  datatype Notice = StateChange(next: Phase, prev: Phase) | PlainMessage(frame: KnxFrame) | ErrorEvent | CloseEvent

  /**
   What a session is built with: the block cipher, the client's public key and wrapper fields, and the
   three computations of the handshake. `responseOk` checks a SESSION_RESPONSE MAC (always true without a
   device authentication code); `sharedKey` stands for X25519 and SHA-256; `authenticateMac` is the MAC of
   SESSION_AUTHENTICATE. The last two are undefined where the source throws.
   */
  datatype Config = Config(
    cipher: Cipher,
    clientPublic: PublicKey,
    userId: byte,
    serialNumber: int,
    messageTag: int,
    keepalive: bool,
    responseOk: (int, PublicKey, bytes) -> bool,
    sharedKey: PublicKey -> Option<Block>,
    authenticateMac: PublicKey -> Option<Block>)

  /** The configuration the constructor derives from passwords already turned into keys. */
  function Configure(cipher: Cipher, clientPublic: PublicKey, deviceAuthCode: Option<Block>, passwordKey: Block,
                     userId: byte, serialNumber: int, messageTag: int, keepalive: bool,
                     sharedKey: PublicKey -> Option<Block>): Config
  {
    Config(cipher, clientPublic, userId, serialNumber, messageTag, keepalive,
           (sessionId: int, server: PublicKey, mac: bytes) =>
             deviceAuthCode.None?
             || (0 <= sessionId < U16_LIMIT
                 && mac == SessionResponseMac(cipher, deviceAuthCode.value, sessionId, clientPublic, server)),
           sharedKey,
           (server: PublicKey) =>
             if 1 <= userId <= 127 then Some(AuthenticateMac(cipher, passwordKey, userId, clientPublic, server))
             else None)
  }

  datatype Session = Session(
    phase: Phase,
    sessionId: int,
    key: Option<Block>,
    sequenceId: nat,
    lastPeerSeq: Option<int>,
    keepaliveArmed: bool,
    pendingHandshake: bool,
    settled: seq<Settlement>,
    sent: seq<Body>,
    messages: seq<KnxFrame>,
    notices: seq<Notice>)

  const INITIAL := Session(Idle, 0, None, 0, None, false, false, [], [], [], [])

  const STATUS_AUTHENTICATED: byte := 0x00
  const STATUS_KEEPALIVE: byte := 0x04
  const STATUS_CLOSE: byte := 0x05

  function ContextOf(cfg: Config, s: Session): Context {
    Context(s.sessionId, s.sequenceId, cfg.serialNumber, cfg.messageTag)
  }

  // ---------- handlers ----------

  function SetPhase(s: Session, next: Phase): Session {
    if next == s.phase then s
    else s.(phase := next, notices := s.notices + [StateChange(next, s.phase)])
  }

  function SettlePending(s: Session, outcome: Settlement): Session {
    if s.pendingHandshake then s.(settled := s.settled + [outcome], pendingHandshake := false) else s
  }

  function FailHandshake(s: Session): Session {
    var closed := SetPhase(SettlePending(s, Rejected), Closed);
    closed.(notices := closed.notices + [ErrorEvent])
  }

  /** A fresh inbound window; the keepalive timer starts. */
  function CompleteHandshake(cfg: Config, s: Session): Session {
    SetPhase(SettlePending(s, Resolved), Authenticated)
      .(lastPeerSeq := None, keepaliveArmed := s.keepaliveArmed || cfg.keepalive)
  }

  /**
   Use up a sequence id and, if encryption succeeds, send the wrapper. The id is used up even where the
   encryption throws.
   */
  function SendWrapped(cfg: Config, s: Session, plain: bytes): (r: (Session, bool))
    requires s.key.Some?
  {
    var next := s.(sequenceId := s.sequenceId + 1);
    var frame := Encrypt(cfg.cipher, s.key.value, ContextOf(cfg, s), plain);
    if frame.Err? then (next, false)
    else
      (next.(sent := s.sent + [SecureWrapper(s.sessionId, s.sequenceId, cfg.serialNumber, cfg.messageTag,
                                             frame.value.encryptedFrame, frame.value.mac)]), true)
  }

  function SendStatus(cfg: Config, s: Session, code: byte): Session {
    if s.key.None? then s else SendWrapped(cfg, s, Print(SessionStatus(code))).0
  }

  function Open(cfg: Config, s: Session): Session {
    if s.phase != Idle then s
    else
      var requesting := SetPhase(s.(pendingHandshake := true), Requesting);
      requesting.(sent := s.sent + [SessionRequest(Hpai(Zeros(4), 0, IPV4_TCP), cfg.clientPublic)])
  }

  /** The frame is sealed unless the session is not ready, the ids are exhausted or printing throws. */
  function Send(cfg: Config, s: Session, frame: KnxFrame): Session {
    if s.phase != Authenticated || s.key.None? then s
    else if s.sequenceId + 1 >= U48_LIMIT || !frame.Printable() then s.(sequenceId := s.sequenceId + 1)
    else SendWrapped(cfg, s, frame.ToKnx()).0
  }

  function Close(cfg: Config, s: Session): Session {
    if s.phase == Closed || s.phase == Closing then s
    else SendStatus(cfg, SetPhase(s, Closing).(keepaliveArmed := false), STATUS_CLOSE)
  }

  function OnSessionResponse(cfg: Config, s: Session, sessionId: int, server: PublicKey, mac: bytes): Session {
    if s.phase != Requesting then s
    else
      var named := s.(sessionId := sessionId);
      var key := cfg.sharedKey(server);
      if !cfg.responseOk(sessionId, server, mac) || key.None? then FailHandshake(named)
      else Authenticate(cfg, named.(key := key), server)
  }

  /** Send SESSION_AUTHENTICATE inside the first wrapper. */
  function Authenticate(cfg: Config, s: Session, server: PublicKey): Session
    requires s.key.Some?
  {
    var mac := cfg.authenticateMac(server);
    if mac.None? || !(1 <= cfg.userId <= 127) then FailHandshake(s)
    else
      var plain := Print(SessionAuthenticate(cfg.userId, mac.value));
      var (after, ok) := SendWrapped(cfg, SetPhase(s, Authenticating), plain);
      if ok then after else FailHandshake(after)
  }

  function OnPlainSessionStatus(cfg: Config, s: Session, status: byte): Session {
    if s.phase != Authenticating then s
    else if status == STATUS_AUTHENTICATED then CompleteHandshake(cfg, s)
    else FailHandshake(s)
  }

  /** Replayed: not above the last id accepted. */
  predicate Stale(s: Session, sequenceId: int) {
    s.lastPeerSeq.Some? && sequenceId <= s.lastPeerSeq.value
  }

  function OnSecureWrapper(cfg: Config, s: Session, w: Body): Session
    requires w.SecureWrapper?
  {
    if s.key.None? || w.sessionId != s.sessionId then s
    else
      var plain := DecryptBody(cfg, s, w);
      if plain.Err? || Stale(s, w.sequenceId) then s
      else
        var accepted := s.(lastPeerSeq := Some(w.sequenceId));
        var inner := ParseFrame(plain.value);
        if inner.Err? then accepted else OnInnerFrame(cfg, accepted, inner.value.0)
  }

  /** Decrypt a wrapper in the context its own fields name. */
  function DecryptBody(cfg: Config, s: Session, w: Body): Result<bytes, WrapperError>
    requires w.SecureWrapper? && s.key.Some?
  {
    Decrypt(cfg.cipher, s.key.value, Context(s.sessionId, w.sequenceId, w.serialNumber, w.messageTag),
            Sealed(w.encryptedFrame, w.mac))
  }

  /** A decrypted frame: status messages stay inside the session, the rest is surfaced. */
  function OnInnerFrame(cfg: Config, s: Session, frame: KnxFrame): Session {
    if frame.body.SessionStatus? then
      if s.phase == Authenticating then
        if frame.body.status == STATUS_AUTHENTICATED then CompleteHandshake(cfg, s) else FailHandshake(s)
      else if frame.body.status == STATUS_CLOSE then Close(cfg, s.(notices := s.notices + [ErrorEvent]))
      else s
    else s.(messages := s.messages + [frame])
  }

  /** A frame from the inner transport; the parser gives public keys their 32 bytes. */
  function OnFrame(cfg: Config, s: Session, frame: KnxFrame): Session {
    var body := frame.body;
    if body.SessionResponse? && |body.publicKey| == 32 then
      OnSessionResponse(cfg, s, body.sessionId, body.publicKey, body.mac)
    else if body.SecureWrapper? then OnSecureWrapper(cfg, s, body)
    else if body.SessionStatus? then OnPlainSessionStatus(cfg, s, body.status)
    else s.(notices := s.notices + [PlainMessage(frame)])
  }

  // ---------- runs ----------

  /**
   What can happen to a session. `Fails` is the handshake timeout or a rejected send of a handshake
   message; `CloseDone` is the inner transport finishing a `close`; `KeepaliveTick` fires only while the
   timer is armed.
   */
  datatype Event =
    | OpenCall
    | SendCall(frame: KnxFrame)
    | CloseCall
    | CloseDone
    | KeepaliveTick
    | Fails
    | Inbound(frame: KnxFrame)
    | InnerError
    | InnerClose

  function Step(cfg: Config, s: Session, e: Event): Session {
    match e
    case OpenCall => Open(cfg, s)
    case SendCall(frame) => Send(cfg, s, frame)
    case CloseCall => Close(cfg, s)
    case CloseDone => if s.phase == Closing then SetPhase(s, Closed) else s
    case KeepaliveTick => if s.keepaliveArmed then SendStatus(cfg, s, STATUS_KEEPALIVE) else s
    case Fails => FailHandshake(s)
    case Inbound(frame) => OnFrame(cfg, s, frame)
    case InnerError => if s.pendingHandshake then FailHandshake(s) else s.(notices := s.notices + [ErrorEvent])
    case InnerClose => OnInnerClose(s)
  }

  function OnInnerClose(s: Session): Session {
    var closed := SetPhase(s.(keepaliveArmed := false), Closed);
    closed.(notices := closed.notices + [CloseEvent])
  }

  function Stepper(cfg: Config): (Session, Event) -> Session {
    (s, e) => Step(cfg, s, e)
  }

  function Run(cfg: Config, s: Session, events: seq<Event>): Session {
    Fold(Stepper(cfg), s, events)
  }
}

/**
 The session driver as the object it is: fields updated by each handler (src/io/secureSession.ts).
 `View` reads the fields as a session value; every method is proved to take it to the value the
 state machine of SessionSpec gives.
 */
module SecureSession {
  import opened Bytes
  import opened Crypto
  import opened Endpoints
  import opened Frame
  import opened Handshake
  import opened Wrapper
  import opened Wrappers
  import S = SessionSpec

  class SecureSession {
    const cfg: S.Config
    var state: S.Phase
    var sessionId: int
    var sessionKey: Option<Block>
    var sequenceId: nat
    var lastPeerSeq: Option<int>
    var keepaliveTimer: bool
    var pendingHandshake: bool
    // effects, in order: how the promise of `open` settled, frames handed to the inner transport,
    // 'message' events and the other events
    var settled: seq<S.Settlement>
    var sent: seq<Body>
    var messages: seq<KnxFrame>
    var notices: seq<S.Notice>

    ghost function View(): S.Session
      reads this
    {
      S.Session(state, sessionId, sessionKey, sequenceId, lastPeerSeq, keepaliveTimer, pendingHandshake,
                settled, sent, messages, notices)
    }

    constructor (cfg: S.Config)
      ensures this.cfg == cfg && View() == S.INITIAL
    {
      this.cfg := cfg;
      state, sessionId, sessionKey, sequenceId, lastPeerSeq := S.Idle, 0, None, 0, None;
      keepaliveTimer, pendingHandshake := false, false;
      settled, sent, messages, notices := [], [], [], [];
    }

    /** `open`; false where it throws because the session is not idle. */
    method Open() returns (ok: bool)
      modifies this
      ensures View() == S.Open(cfg, old(View())) && (ok <==> old(state) == S.Idle)
    {
      if state != S.Idle {
        return false;
      }
      pendingHandshake := true;
      SetState(S.Requesting);
      sent := sent + [SessionRequest(Hpai(Zeros(4), 0, IPV4_TCP), cfg.clientPublic)];
      return true;
    }

    /** `send`; false where it throws. The sequence id is taken before anything can fail. */
    method Send(frame: KnxFrame) returns (ok: bool)
      modifies this
      ensures View() == S.Send(cfg, old(View()), frame)
      ensures ok <==> |sent| > |old(sent)|
    {
      if state != S.Authenticated || sessionKey.None? {
        return false;
      }
      var seqId := sequenceId;
      sequenceId := sequenceId + 1;
      if sequenceId > 0xffff_ffff_ffff || !frame.Printable() {
        return false;
      }
      ok := Transmit(seqId, frame.ToKnx());
    }

    /** Seal a plain frame under the id just taken and hand it to the inner transport. */
    method Transmit(seqId: nat, plain: bytes) returns (ok: bool)
      requires sessionKey.Some? && sequenceId == seqId + 1
      modifies this`sent
      ensures var before := old(View()).(sequenceId := seqId);
        (View(), ok) == S.SendWrapped(cfg, before, plain)
      ensures ok <==> |sent| > |old(sent)|
    {
      var ctx := Context(sessionId, seqId, cfg.serialNumber, cfg.messageTag);
      var frame := Encrypt(cfg.cipher, sessionKey.value, ctx, plain);
      if frame.Err? {
        return false;
      }
      var wrapper := SecureWrapper(sessionId, seqId, cfg.serialNumber, cfg.messageTag,
                                   frame.value.encryptedFrame, frame.value.mac);
      sent := sent + [wrapper];
      return true;
    }

    method SendStatus(code: byte)
      modifies this
      ensures View() == S.SendStatus(cfg, old(View()), code)
    {
      if sessionKey.None? {
        return;
      }
      var seqId := sequenceId;
      sequenceId := sequenceId + 1;
      var _ := Transmit(seqId, Print(SessionStatus(code)));
    }

    /** `close` up to its first await; `FinishClose` is the rest. */
    method Close()
      modifies this
      ensures View() == S.Close(cfg, old(View()))
    {
      if state == S.Closed || state == S.Closing {
        return;
      }
      SetState(S.Closing);
      keepaliveTimer := false;
      if sessionKey.Some? {
        SendStatus(S.STATUS_CLOSE);
      }
    }

    method FinishClose()
      requires state == S.Closing || state == S.Closed
      modifies this
      ensures View() == S.Step(cfg, old(View()), S.CloseDone)
    {
      SetState(S.Closed);
    }

    method SetState(next: S.Phase)
      modifies this`state, this`notices
      ensures View() == S.SetPhase(old(View()), next)
    {
      if next == state {
        return;
      }
      var prev := state;
      state := next;
      notices := notices + [S.StateChange(next, prev)];
    }

    method FailHandshake()
      modifies this
      ensures View() == S.FailHandshake(old(View()))
    {
      if pendingHandshake {
        settled := settled + [S.Rejected];
        pendingHandshake := false;
      }
      SetState(S.Closed);
      notices := notices + [S.ErrorEvent];
    }

    method CompleteHandshake()
      modifies this
      ensures View() == S.CompleteHandshake(cfg, old(View()))
    {
      if pendingHandshake {
        settled := settled + [S.Resolved];
        pendingHandshake := false;
      }
      SetState(S.Authenticated);
      lastPeerSeq := None;
      if cfg.keepalive {
        keepaliveTimer := true;
      }
    }

    method OnSessionResponse(id: int, server: PublicKey, mac: bytes)
      modifies this
      ensures View() == S.OnSessionResponse(cfg, old(View()), id, server, mac)
    {
      hide S.SendWrapped, Print;
      if state != S.Requesting {
        return;
      }
      sessionId := id;
      if !cfg.responseOk(id, server, mac) {
        FailHandshake();
        return;
      }
      var shared := cfg.sharedKey(server);
      if shared.None? {
        FailHandshake();
        return;
      }
      sessionKey := shared;
      var authMac := cfg.authenticateMac(server);
      if authMac.None? || !(1 <= cfg.userId <= 127) {
        FailHandshake();
        return;
      }
      SetState(S.Authenticating);
      var seqId := sequenceId;
      sequenceId := sequenceId + 1;
      var ok := Transmit(seqId, Print(SessionAuthenticate(cfg.userId, authMac.value)));
      if !ok {
        FailHandshake();
      }
    }

    method OnPlainSessionStatus(status: byte)
      modifies this
      ensures View() == S.OnPlainSessionStatus(cfg, old(View()), status)
    {
      if state != S.Authenticating {
        return;
      }
      if status == S.STATUS_AUTHENTICATED {
        CompleteHandshake();
      } else {
        FailHandshake();
      }
    }

    method OnSecureWrapper(w: Body)
      requires w.SecureWrapper?
      modifies this
      ensures View() == S.OnSecureWrapper(cfg, old(View()), w)
    {
      if sessionKey.None? || w.sessionId != sessionId {
        return;
      }
      var ctx := Context(sessionId, w.sequenceId, w.serialNumber, w.messageTag);
      var plain := Decrypt(cfg.cipher, sessionKey.value, ctx, Sealed(w.encryptedFrame, w.mac));
      if plain.Err? {
        return;
      }
      // replay check after MAC verification: forged frames cannot move the window
      if lastPeerSeq.Some? && w.sequenceId <= lastPeerSeq.value {
        return;
      }
      lastPeerSeq := Some(w.sequenceId);
      var inner := ParseFrame(plain.value);
      if inner.Err? {
        return;
      }
      OnInnerFrame(inner.value.0);
    }

    method OnInnerFrame(frame: KnxFrame)
      modifies this
      ensures View() == S.OnInnerFrame(cfg, old(View()), frame)
    {
      if frame.body.SessionStatus? {
        var code := frame.body.status;
        if state == S.Authenticating {
          if code == S.STATUS_AUTHENTICATED {
            CompleteHandshake();
          } else {
            FailHandshake();
          }
          return;
        }
        if code == S.STATUS_CLOSE {
          notices := notices + [S.ErrorEvent];
          Close();
        }
        return;
      }
      messages := messages + [frame];
    }

    method OnInnerError()
      modifies this
      ensures View() == S.Step(cfg, old(View()), S.InnerError)
    {
      if pendingHandshake {
        FailHandshake();
      } else {
        notices := notices + [S.ErrorEvent];
      }
    }

    method OnInnerClose()
      modifies this
      ensures View() == S.Step(cfg, old(View()), S.InnerClose)
    {
      keepaliveTimer := false;
      SetState(S.Closed);
      notices := notices + [S.CloseEvent];
    }

    /** Dispatch of a frame from the inner transport. */
    method OnFrame(frame: KnxFrame)
      modifies this
      ensures View() == S.Step(cfg, old(View()), S.Inbound(frame))
    {
      var body := frame.body;
      if body.SessionResponse? && |body.publicKey| == 32 {
        OnSessionResponse(body.sessionId, body.publicKey, body.mac);
      } else if body.SecureWrapper? {
        OnSecureWrapper(body);
      } else if body.SessionStatus? {
        OnPlainSessionStatus(body.status);
      } else {
        notices := notices + [S.PlainMessage(frame)];
      }
    }
  }
}

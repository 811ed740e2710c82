/**
 The Data Secure pipeline end to end, and what every run of the inbound hook keeps.
 */
module DataSecureRuns {
  import opened Bytes
  import opened Cemi
  import opened Crypto
  import opened DataSecure
  import opened DataSecureKeys
  import opened Wrappers
  import Apci
  import Tpci

  // ---------- from a service to the wire and back ----------

  /** The longest service APDU a secured frame can carry past its one-byte NPDU length. */
  const MAX_SERVICE := 243

  /** A service secured for the addresses of a frame that already carries them. */
  function Secure(E: Cipher, key: bytes, header: LData, r: Request): Result<LData, DataSecureError> {
    var lsdu :- Encode(E, key, LinkOf(header), r);
    Ok(header.(payload := Some(Apci.Unknown(APCI_DATA_SECURE, lsdu))))
  }

  /** Addresses, flags and TPCI that survive printing, with no TPCI bits to clear. */
  predicate PlainHeader(d: LData) {
    && d.Printable() && (d.dst.Group? <==> d.GroupFlag())
    && !Tpci.IsControl(d.tpci) && Tpci.Encode(d.tpci) == 0
    && Tpci.Canonical(d.tpci, d.dst.Group?, d.dst.raw == 0)
  }

  function RequestFor(service: Apci.Apci, toolAccess: bool, authConf: bool, sequence: int): Request {
    Request(0, toolAccess, authConf, Apci.Encode(service), sequence)
  }

  /** A secured frame is canonical, so survives cEMI, exactly up to the length limit. */
  lemma SecuredIsCanonical(E: Cipher, key: bytes, header: LData, r: Request)
    requires PlainHeader(header) && r.tpci == 0 && Encode(E, key, LinkOf(header), r).Ok?
    ensures Secure(E, key, header, r).value.Canonical() <==> |r.plain| <= MAX_SERVICE
  {
    var lsdu := Encode(E, key, LinkOf(header), r).value;
    assert |lsdu| == 13 + |r.plain| && lsdu[0] == 3 && lsdu[1] == 0xf1;
    var a := Apci.Unknown(APCI_DATA_SECURE, lsdu);
    assert Apci.Code(lsdu) == APCI_DATA_SECURE && Apci.Service(APCI_DATA_SECURE) == 0x3c0;
    assert Apci.Canonical(a) && Apci.NpduLength(a) == 12 + |r.plain|;
  }

  /** The hook opens a frame secured under the key it resolves. */
  lemma OpensSecured(E: Cipher, keys: Keys, key: bytes, header: LData, r: Request)
    requires Encode(E, key, LinkOf(header), r).Ok?
    requires keys.Resolve(ContextOf(header, ControlField(r))) == Some(key)
    ensures var d := Secure(E, key, header, r).value;
      CarriesSecured(d) && Opened(E, keys, d) == Ok(PduOf(ControlField(r), r.sequence, None, r.plain))
  {
    var lsdu := Encode(E, key, LinkOf(header), r).value;
    DecodeInvertsEncode(E, key, LinkOf(header), r, lsdu);
    var d := Secure(E, key, header, r).value;
    assert LinkOf(d) == LinkOf(header) && ContextOf(d, lsdu[2]) == ContextOf(header, ControlField(r));
  }

  /** What it makes of it. */
  lemma HandleSecured(E: Cipher, keys: Keys, tracker: Option<Tracker>, key: bytes, header: LData,
                      service: Apci.Apci, r: Request)
    requires Apci.Decode(r.plain) == Ok(service) && Encode(E, key, LinkOf(header), r).Ok?
    requires keys.Resolve(ContextOf(header, ControlField(r))) == Some(key)
    ensures var d := Secure(E, key, header, r).value;
      Handle(E, Some(keys), tracker, d) ==
        if tracker.Some? && !Fresh(tracker.value, d.src, r.sequence) then Handled(Dropped(Replay), tracker, d)
        else Handled(Decrypted, if tracker.Some? then Some(tracker.value[d.src := r.sequence]) else None,
                     d.(payload := Some(service)))
  {
    OpensSecured(E, keys, key, header, r);
    HandleOpened(E, keys, tracker, Secure(E, key, header, r).value,
                 PduOf(ControlField(r), r.sequence, None, r.plain), service);
  }

  lemma HandleOpened(E: Cipher, keys: Keys, tracker: Option<Tracker>, d: LData, pdu: Pdu, service: Apci.Apci)
    requires CarriesSecured(d) && Opened(E, keys, d) == Ok(pdu) && Apci.Decode(pdu.plain) == Ok(service)
    ensures Handle(E, Some(keys), tracker, d) ==
      if tracker.Some? && !Fresh(tracker.value, d.src, pdu.sequence) then Handled(Dropped(Replay), tracker, d)
      else Handled(Decrypted, if tracker.Some? then Some(tracker.value[d.src := pdu.sequence]) else None,
                   d.(payload := Some(service)))
  {
  }

  /**
   The pipeline: encode a canonical service, secure it in either mode, print the cEMI frame, parse it,
   hand it to the hook. With the matching key and a fresh sequence number the original service comes out;
   with a stale one the frame is dropped as it is. This works for every service of up to 243 bytes, and a
   longer one never survives the frame.
   */
  lemma Pipeline(E: Cipher, keys: Keys, tracker: Tracker, key: bytes, code: byte, info: bytes, header: LData,
                 service: Apci.Apci, toolAccess: bool, authConf: bool, sequence: int)
    requires KnownCode(code) && |info| < 0x100 && PlainHeader(header)
    requires Apci.Canonical(service) && |Apci.Encode(service)| <= MAX_PLAIN
    requires |key| == 16 && 0 <= sequence < U48_LIMIT
    requires var r := RequestFor(service, toolAccess, authConf, sequence);
      keys.Resolve(ContextOf(header, ControlField(r))) == Some(key)
    ensures var r := RequestFor(service, toolAccess, authConf, sequence);
      && Secure(E, key, header, r).Ok?
      && var d := Secure(E, key, header, r).value;
      var f := CemiFrame(code, info, d);
      && d.Printable()
      && (FrameRoundTrips(f) <==> |Apci.Encode(service)| <= MAX_SERVICE)
      && Handle(E, Some(keys), Some(tracker), d)
         == if Fresh(tracker, d.src, sequence)
            then Handled(Decrypted, Some(tracker[d.src := sequence]), d.(payload := Some(service)))
            else Handled(Dropped(Replay), Some(tracker), d)
  {
    var r := RequestFor(service, toolAccess, authConf, sequence);
    Apci.EncodedLength(service);
    assert Encode(E, key, LinkOf(header), r).Ok?;
    SecuredIsCanonical(E, key, header, r);
    Apci.EncodeDecode(service);
    HandleSecured(E, keys, Some(tracker), key, header, service, r);
    FrameRoundTrip(CemiFrame(code, info, Secure(E, key, header, r).value));
  }

  // ---------- one call ----------

  /**
   The tracker moves exactly when an authenticated telegram with a fresh sequence number arrives, and the
   frame changes exactly when that telegram holds a service; then only its payload does. In particular a
   missing key, a failed MAC or a replay changes neither.
   */
  lemma ChangesExactly(E: Cipher, keys: Option<Keys>, t: Tracker, d: LData)
    ensures var h := Handle(E, keys, Some(t), d);
      var accepted := CarriesSecured(d) && keys.Some? && Opened(E, keys.value, d).Ok?
                   && Fresh(t, d.src, Opened(E, keys.value, d).value.sequence);
      && (h.tracker != Some(t) <==> accepted)
      && (h.outcome == Decrypted <==> accepted && |Opened(E, keys.value, d).value.plain| >= 2)
      && (h.outcome != Decrypted ==> h.data == d)
      && h.data == d.(payload := h.data.payload)
      && (h.outcome == Dropped(NotAnApci) <==> accepted && |Opened(E, keys.value, d).value.plain| < 2)
  {
    if CarriesSecured(d) && keys.Some? && Opened(E, keys.value, d).Ok? {
      var s := Opened(E, keys.value, d).value.sequence;
      if Fresh(t, d.src, s) {
        assert t[d.src := s][d.src] == s;
      }
    }
  }

  /** A genuine frame with a one-byte text is dropped, and yet its sequence number is used up. */
  lemma ShortTextAdvancesTracker(E: Cipher, keys: Keys, t: Tracker, key: bytes, header: LData, r: Request)
    requires |r.plain| == 1 && |key| == 16 && 0 <= r.sequence < U48_LIMIT && Fresh(t, header.src, r.sequence)
    requires keys.Resolve(ContextOf(header, ControlField(r))) == Some(key)
    ensures Secure(E, key, header, r).Ok?
    ensures var d := Secure(E, key, header, r).value;
      && Handle(E, Some(keys), Some(t), d) == Handled(Dropped(NotAnApci), Some(t[d.src := r.sequence]), d)
      && t[d.src := r.sequence] != t
  {
    assert Encode(E, key, LinkOf(header), r).Ok?;
    OpensSecured(E, keys, key, header, r);
    ChangesExactly(E, Some(keys), t, Secure(E, key, header, r).value);
  }

  function ServiceIn(plain: bytes): Apci.Apci
    requires |plain| >= 2
  {
    Apci.Decode(plain).value
  }

  /** The frame's APDU is, byte for byte, a fresh securing of `plain` under `key` for the frame's addresses. */
  predicate Genuine(E: Cipher, key: Block, t: Tracker, d: LData, sequence: int, plain: bytes)
    requires CarriesSecured(d) && |d.payload.value.raw| >= 3
  {
    var lsdu := d.payload.value.raw;
    && IsDataSecure(lsdu) && lsdu[2] % 8 == SERVICE_DATA
    && 0 <= sequence < U48_LIMIT && Fresh(t, d.src, sequence) && 2 <= |plain| <= MAX_PLAIN
    && lsdu == Secured(E, key, LinkOf(d), lsdu[0], lsdu[2], sequence, plain)
  }

  /**
   A secured frame is decrypted if and only if it is a genuine one under the key it resolves, and then the
   payload is the secured service and the tracker its sequence number.
   */
  lemma DecryptedIsGenuine(E: Cipher, keys: Keys, t: Tracker, d: LData, key: Block)
    requires CarriesSecured(d) && |d.payload.value.raw| >= 3
    requires keys.Resolve(ContextOf(d, d.payload.value.raw[2])) == Some(key)
    ensures Handle(E, Some(keys), Some(t), d).outcome == Decrypted
       <==> exists sequence, plain :: Genuine(E, key, t, d, sequence, plain)
    ensures forall sequence, plain :: |plain| >= 2 && Genuine(E, key, t, d, sequence, plain) ==>
      Handle(E, Some(keys), Some(t), d)
      == Handled(Decrypted, Some(t[d.src := sequence]), d.(payload := Some(ServiceIn(plain))))
  {
    var lsdu := d.payload.value.raw;
    forall sequence, plain | |plain| >= 2 && Genuine(E, key, t, d, sequence, plain)
      ensures Handle(E, Some(keys), Some(t), d)
           == Handled(Decrypted, Some(t[d.src := sequence]), d.(payload := Some(ServiceIn(plain))))
    {
      var pdu := PduOf(lsdu[2], sequence, None, plain);
      DecodeDataExact(E, key, LinkOf(d), lsdu, pdu);
      HandleOpened(E, keys, Some(t), d, pdu, ServiceIn(plain));
    }
    if Handle(E, Some(keys), Some(t), d).outcome == Decrypted {
      var pdu := Opened(E, keys, d).value;
      DecodeDataExact(E, key, LinkOf(d), lsdu, pdu);
      assert Genuine(E, key, t, d, pdu.sequence, pdu.plain);
    }
  }

  // ---------- runs sharing one tracker ----------

  /** A frame and the key store as it is when the frame arrives. */
  datatype Arrival = Arrival(keys: Option<Keys>, data: LData)

  /** What the application sees of one call. */
  datatype Seen = Seen(outcome: Outcome, data: LData)

  function Step(E: Cipher, t: Tracker, a: Arrival): (h: Handled)
    ensures h.tracker.Some?
  {
    Handle(E, a.keys, Some(t), a.data)
  }

  function Run(E: Cipher, t: Tracker, arrivals: seq<Arrival>): (seen: seq<Seen>)
    ensures |seen| == |arrivals|
    decreases |arrivals|
  {
    if arrivals == [] then []
    else
      var h := Step(E, t, arrivals[0]);
      [Seen(h.outcome, h.data)] + Run(E, h.tracker.value, arrivals[1..])
  }

  /** The authenticated sequence number of an arrival, if its frame opens. */
  function SequenceOf(E: Cipher, a: Arrival): Option<int> {
    if a.keys.Some? && CarriesSecured(a.data) && Opened(E, a.keys.value, a.data).Ok?
    then Some(Opened(E, a.keys.value, a.data).value.sequence)
    else None
  }

  predicate DecryptedAt(E: Cipher, t: Tracker, arrivals: seq<Arrival>, i: nat) {
    i < |arrivals| && Run(E, t, arrivals)[i].outcome == Decrypted
  }

  lemma StepForward(E: Cipher, t: Tracker, a: Arrival, src: int)
    requires src in t
    ensures var t' := Step(E, t, a).tracker.value; src in t' && t'[src] >= t[src]
  {
  }

  /** A decrypted telegram is one the hook opened, whose number the step recorded. */
  lemma {:induction false} DecryptedOpened(E: Cipher, t: Tracker, arrivals: seq<Arrival>, i: nat)
    requires DecryptedAt(E, t, arrivals, i)
    ensures var a := arrivals[i];
      SequenceOf(E, a).Some? && (a.data.src in t ==> SequenceOf(E, a).value > t[a.data.src])
    decreases i
  {
    var t' := Step(E, t, arrivals[0]).tracker.value;
    if i > 0 {
      DecryptedOpened(E, t', arrivals[1..], i - 1);
      if arrivals[i].data.src in t {
        StepForward(E, t, arrivals[0], arrivals[i].data.src);
      }
    }
  }

  lemma StepRecords(E: Cipher, t: Tracker, a: Arrival)
    requires Step(E, t, a).outcome == Decrypted
    ensures var t' := Step(E, t, a).tracker.value;
      SequenceOf(E, a).Some? && a.data.src in t' && t'[a.data.src] == SequenceOf(E, a).value
  {
  }

  /** Over any run on one tracker, the decrypted sequence numbers of each source strictly increase. */
  lemma {:induction false} SequencesIncrease(E: Cipher, t: Tracker, arrivals: seq<Arrival>, i: nat, j: nat)
    requires i < j < |arrivals| && arrivals[i].data.src == arrivals[j].data.src
    ensures DecryptedAt(E, t, arrivals, i) && DecryptedAt(E, t, arrivals, j) ==>
      var a, b := SequenceOf(E, arrivals[i]), SequenceOf(E, arrivals[j]);
      a.Some? && b.Some? && a.value < b.value
    decreases i
  {
    if DecryptedAt(E, t, arrivals, i) && DecryptedAt(E, t, arrivals, j) {
      hide Handle, SequenceOf;
      var t' := Step(E, t, arrivals[0]).tracker.value;
      RunTail(E, t, arrivals, j);
      if i > 0 {
        RunTail(E, t, arrivals, i);
        SequencesIncrease(E, t', arrivals[1..], i - 1, j - 1);
      } else {
        StepRecords(E, t, arrivals[0]);
        DecryptedOpened(E, t', arrivals[1..], j - 1);
      }
    }
  }

  lemma RunTail(E: Cipher, t: Tracker, arrivals: seq<Arrival>, i: nat)
    requires 0 < i < |arrivals|
    ensures Run(E, t, arrivals)[i] == Run(E, Step(E, t, arrivals[0]).tracker.value, arrivals[1..])[i - 1]
  {
  }

  // ---------- sources do not affect each other ----------

  function From(arrivals: seq<Arrival>, src: int): seq<Arrival>
    decreases |arrivals|
  {
    if arrivals == [] then []
    else (if arrivals[0].data.src == src then [arrivals[0]] else []) + From(arrivals[1..], src)
  }

  /** The results at the places where a source's frames arrived. */
  function SeenFrom(arrivals: seq<Arrival>, seen: seq<Seen>, src: int): seq<Seen>
    requires |arrivals| == |seen|
    decreases |arrivals|
  {
    if arrivals == [] then []
    else (if arrivals[0].data.src == src then [seen[0]] else []) + SeenFrom(arrivals[1..], seen[1..], src)
  }

  predicate Agree(t: Tracker, u: Tracker, src: int) {
    (src in t <==> src in u) && (src in t ==> t[src] == u[src])
  }

  lemma StepAgrees(E: Cipher, t: Tracker, u: Tracker, a: Arrival, src: int)
    requires Agree(t, u, src)
    ensures var h, k := Step(E, t, a), Step(E, u, a);
      && (a.data.src == src ==>
            h.outcome == k.outcome && h.data == k.data && Agree(h.tracker.value, k.tracker.value, src))
      && (a.data.src != src ==> Agree(h.tracker.value, u, src))
  {
  }

  /**
   What a source gets in a mixed run is what it gets alone: the results at its frames are those of the run
   over its frames only, on any tracker that agrees about that source.
   */
  lemma {:induction false} SourcesAreIsolated(E: Cipher, t: Tracker, u: Tracker, arrivals: seq<Arrival>, src: int)
    requires Agree(t, u, src)
    ensures SeenFrom(arrivals, Run(E, t, arrivals), src) == Run(E, u, From(arrivals, src))
    decreases |arrivals|
  {
    if arrivals != [] {
      var a, rest := arrivals[0], arrivals[1..];
      var t' := Step(E, t, a).tracker.value;
      StepAgrees(E, t, u, a, src);
      assert Run(E, t, arrivals)[1..] == Run(E, t', rest);
      if a.data.src == src {
        SourcesAreIsolated(E, t', Step(E, u, a).tracker.value, rest, src);
        assert From(arrivals, src) == [a] + From(rest, src) && From(arrivals, src)[1..] == From(rest, src);
      } else {
        SourcesAreIsolated(E, t', u, rest, src);
        assert From(arrivals, src) == From(rest, src);
      }
    }
  }
}

/**
 The stream reassembler of src/io/tcpTransport.ts: cut a byte stream into frames by the header's
 total length, skipping one byte at a time over anything that is not a header.

 The frame parser is a parameter, so what is said about segmentation holds for every parser.
 */
module TcpTransport {
  import opened Bytes
  import opened Endpoints
  import opened Frame
  import opened Wrappers

  /** The parser's exceptions are either protocol errors, surfaced as 'raw', or anything else. */
  datatype Outcome<F> = Parsed(frame: F) | Malformed | Fault

  datatype Event<F> = Message(frame: F) | Raw(data: bytes) | Error(data: bytes)

  type Parser<!F> = bytes -> Outcome<F>

  function Deliver<F>(parse: Parser<F>, frameBytes: bytes): Event<F> {
    match parse(frameBytes)
    case Parsed(f) => Message(f)
    case Malformed => Raw(frameBytes)
    case Fault => Error(frameBytes)
  }

  datatype Progress<F> = Progress(events: seq<Event<F>>, residue: bytes)

  /** The first event a buffer yields and how many bytes it uses up; none while bytes are missing. */
  function Next<F>(parse: Parser<F>, buf: bytes): (r: Option<(Event<F>, nat)>)
    ensures r.None? ==> |buf| < 0xffff
    ensures r.Some? ==> 1 <= r.value.1 <= |buf|
  {
    if |buf| < HEADER_LENGTH then None
    else
      var header := ParseHeader(buf);
      if header.Err? then Some((Raw(buf[..HEADER_LENGTH]), 1))
      else
        var total := header.value.totalLength;
        if total > |buf| then None
        else if total < HEADER_LENGTH then Some((Raw(buf[..HEADER_LENGTH]), 1))
        else Some((Deliver(parse, buf[..total]), total))
  }

  /** Everything a buffer yields, and what stays in it waiting for more bytes. */
  function Drain<F>(parse: Parser<F>, buf: bytes): (p: Progress<F>)
    ensures |p.residue| < 0xffff
    decreases |buf|
  {
    var next := Next(parse, buf);
    if next.None? then Progress([], buf)
    else Prepend(next.value.0, Drain(parse, buf[next.value.1..]))
  }

  function Prepend<F>(e: Event<F>, p: Progress<F>): (r: Progress<F>)
    ensures r.residue == p.residue
  {
    Progress([e] + p.events, p.residue)
  }

  /** The transport: a buffer grown by each chunk and cut from the front; emitted events are logged. */
  class TcpTransport<F> {
    const parse: Parser<F>
    var rxBuf: bytes
    var emitted: seq<Event<F>>

    constructor (parse: Parser<F>)
      ensures this.parse == parse && rxBuf == [] && emitted == []
    {
      this.parse := parse;
      rxBuf, emitted := [], [];
    }

    method OnData(chunk: bytes)
      modifies this
      ensures emitted == old(emitted) + Drain(parse, old(rxBuf) + chunk).events
      ensures rxBuf == Drain(parse, old(rxBuf) + chunk).residue
      ensures |rxBuf| < 0xffff
    {
      hide Drain;
      rxBuf := if |rxBuf| == 0 then chunk else rxBuf + chunk;
      assert rxBuf == old(rxBuf) + chunk;
      ghost var all := Drain(parse, rxBuf);
      ghost var earlier := emitted;
      while |rxBuf| >= HEADER_LENGTH
        invariant earlier + all.events == emitted + Drain(parse, rxBuf).events
        invariant Drain(parse, rxBuf).residue == all.residue
        decreases |rxBuf|
      {
        DrainNext(parse, emitted, rxBuf);
        var header := ParseHeader(rxBuf);
        if header.Err? {
          emitted := emitted + [Raw(rxBuf[..HEADER_LENGTH])];
          rxBuf := rxBuf[1..];
          continue;
        }
        var totalLen := header.value.totalLength;
        if totalLen < HEADER_LENGTH || totalLen > |rxBuf| {
          if totalLen > |rxBuf| {
            assert Next(parse, rxBuf).None?;
            return;
          }
          emitted := emitted + [Raw(rxBuf[..HEADER_LENGTH])];
          rxBuf := rxBuf[1..];
          continue;
        }
        var frameBytes := rxBuf[..totalLen];
        rxBuf := rxBuf[totalLen..];
        match parse(frameBytes) {
          case Parsed(f) => emitted := emitted + [Message(f)];
          case Malformed => emitted := emitted + [Raw(frameBytes)];
          case Fault => emitted := emitted + [Error(frameBytes)];
        }
      }
      DrainNext(parse, emitted, rxBuf);
    }
  }

  /** What a buffer still has to yield behind the events already out: its first event, then the rest. */
  lemma DrainNext<F>(parse: Parser<F>, emitted: seq<Event<F>>, buf: bytes)
    ensures var next, p := Next(parse, buf), Drain(parse, buf);
      && (next.None? ==> p == Progress([], buf) && emitted + p.events == emitted)
      && (next.Some? ==>
          var rest := Drain(parse, buf[next.value.1..]);
          p.residue == rest.residue && emitted + p.events == emitted + [next.value.0] + rest.events)
  {
  }

  // ---------- segmentation independence ----------

  /** More bytes behind a buffer do not change its first event. */
  lemma NextOfPrefix<F>(parse: Parser<F>, a: bytes, b: bytes)
    requires Next(parse, a).Some?
    ensures Next(parse, a + b) == Next(parse, a)
    ensures var cut := Next(parse, a).value.1; (a + b)[cut..] == a[cut..] + b
  {
    HeaderOfPrefix(a, b);
    var header := ParseHeader(a);
    assert (a + b)[..HEADER_LENGTH] == a[..HEADER_LENGTH];
    if header.Ok? {
      assert (a + b)[..header.value.totalLength] == a[..header.value.totalLength];
    }
  }

  /** Draining a prefix first, then what it left together with the rest, changes nothing. */
  lemma {:induction false} DrainInTwo<F>(parse: Parser<F>, a: bytes, b: bytes)
    ensures var first := Drain(parse, a);
      var second := Drain(parse, first.residue + b);
      Drain(parse, a + b) == Progress(first.events + second.events, second.residue)
    decreases |a|
  {
    var next := Next(parse, a);
    var first := Drain(parse, a);
    var second := Drain(parse, first.residue + b);
    if next.None? {
      assert first.events + second.events == second.events;
    } else {
      var (e, cut) := next.value;
      NextOfPrefix(parse, a, b);
      DrainInTwo(parse, a[cut..], b);
      var events := Drain(parse, a[cut..]).events;
      assert [e] + (events + second.events) == ([e] + events) + second.events;
    }
  }

  /** Chunk after chunk, as `OnData` sees them. */
  function Feed<F>(parse: Parser<F>, residue: bytes, chunks: seq<bytes>): Progress<F>
    decreases |chunks|
  {
    if chunks == [] then Progress([], residue)
    else
      var p := Drain(parse, residue + chunks[0]);
      var q := Feed(parse, p.residue, chunks[1..]);
      Progress(p.events + q.events, q.residue)
  }

  function Concat(chunks: seq<bytes>): bytes {
    if chunks == [] then [] else chunks[0] + Concat(chunks[1..])
  }

  /** However the bytes are cut into chunks, the events and the residue are those of one chunk. */
  lemma {:induction false} SegmentationIndependence<F>(parse: Parser<F>, residue: bytes, chunks: seq<bytes>)
    requires Drain(parse, residue) == Progress([], residue)
    ensures Feed(parse, residue, chunks) == Drain(parse, residue + Concat(chunks))
    decreases |chunks|
  {
    if chunks == [] {
      assert residue + Concat(chunks) == residue;
    } else {
      var head, tail := residue + chunks[0], Concat(chunks[1..]);
      var p := Drain(parse, head);
      ResidueIsDrained(parse, head);
      SegmentationIndependence(parse, p.residue, chunks[1..]);
      var q := Feed(parse, p.residue, chunks[1..]);
      assert Feed(parse, residue, chunks) == Progress(p.events + q.events, q.residue);
      assert residue + Concat(chunks) == head + tail;
      assert Drain(parse, head + tail) == Progress(p.events + q.events, q.residue) by {
        DrainInTwo(parse, head, tail);
      }
    }
  }

  /** What is left waits: draining it again yields nothing. */
  lemma {:induction false} ResidueIsDrained<F>(parse: Parser<F>, buf: bytes)
    ensures var r := Drain(parse, buf).residue; Drain(parse, r) == Progress([], r)
    decreases |buf|
  {
    var next := Next(parse, buf);
    if next.Some? {
      ResidueIsDrained(parse, buf[next.value.1..]);
    }
  }

  /** The total length a buffer's first six bytes announce. */
  function Announced(buf: bytes): nat
    requires |buf| >= 6
  {
    buf[4] as int * 0x100 + buf[5] as int
  }

  lemma HeaderByBytes(buf: bytes)
    requires |buf| >= 6
    ensures ParseHeader(buf).Ok? <==> buf[0] == 0x06 && buf[1] == 0x10
    ensures ParseHeader(buf).Ok? ==> ParseHeader(buf).value.totalLength == Announced(buf)
  {
  }

  /**
   What a buffer yields, by its first bytes: nothing before six are there; six 'raw' bytes and one byte
   skipped for anything but a header of at least its own length; nothing while a frame is incomplete; then one
   event for the whole frame, a message if it parses, the frame as 'raw' if the parser refuses it.
   */
  lemma StreamTable<F>(parse: Parser<F>, buf: bytes)
    ensures |buf| < 6 ==> Drain(parse, buf) == Progress([], buf)
    ensures |buf| >= 6 && (buf[0] != 0x06 || buf[1] != 0x10 || Announced(buf) < 6) ==>
      Drain(parse, buf) == Prepend(Raw(buf[..6]), Drain(parse, buf[1..]))
    ensures |buf| >= 6 && buf[0] == 0x06 && buf[1] == 0x10 && Announced(buf) > |buf| ==>
      Drain(parse, buf) == Progress([], buf)
    ensures |buf| >= 6 && buf[0] == 0x06 && buf[1] == 0x10 && 6 <= Announced(buf) <= |buf| ==>
      var whole, rest := buf[..Announced(buf)], Drain(parse, buf[Announced(buf)..]);
      && (forall f :: parse(whole) == Parsed(f) ==> Drain(parse, buf) == Prepend(Message(f), rest))
      && (parse(whole).Malformed? ==> Drain(parse, buf) == Prepend(Raw(whole), rest))
      && (parse(whole).Fault? ==> Drain(parse, buf) == Prepend(Error(whole), rest))
  {
    if |buf| >= 6 {
      HeaderByBytes(buf);
      hide ParseHeader, Announced;
      DrainNext(parse, [], buf);
      hide Drain;
      if Next(parse, buf).Some? {
        Prepended(Next(parse, buf).value.0, Drain(parse, buf[Next(parse, buf).value.1..]), Drain(parse, buf));
      }
    }
  }

  lemma Prepended<F>(e: Event<F>, rest: Progress<F>, all: Progress<F>)
    requires all.residue == rest.residue && [] + all.events == [] + [e] + rest.events
    ensures all == Prepend(e, rest)
  {
    assert [] + all.events == all.events && [] + [e] == [e];
  }

  // ---------- frames over the stream ----------

  function ParseOutcome(data: bytes): Outcome<KnxFrame> {
    var r := ParseFrame(data);
    if r.Ok? then Parsed(r.value.0) else Malformed
  }

  predicate AllCanonical(bodies: seq<Body>) {
    forall i :: 0 <= i < |bodies| ==> bodies[i].Canonical()
  }

  function PrintAll(bodies: seq<Body>): bytes
    requires AllCanonical(bodies)
  {
    if bodies == [] then [] else Print(bodies[0]) + PrintAll(bodies[1..])
  }

  function Messages(bodies: seq<Body>): (events: seq<Event<KnxFrame>>)
    ensures |events| == |bodies|
    ensures forall i :: 0 <= i < |bodies| ==> events[i] == Message(FromBody(bodies[i]))
  {
    seq(|bodies|, i requires 0 <= i < |bodies| => Message(FromBody(bodies[i])))
  }

  /** A printed frame is the first thing a buffer starting with it yields. */
  lemma PrintedIsNext(b: Body, rest: bytes)
    requires b.Canonical()
    ensures Next(ParseOutcome, Print(b) + rest) == Some((Message(FromBody(b)), |Print(b)|))
  {
    var first := Print(b);
    FrameRoundTrip(b);
    PrintedLayout(b);
    HeaderOfPrefix(first, rest);
    assert (first + rest)[..|first|] == first;
  }

  lemma {:induction false} DrainPrinted(bodies: seq<Body>)
    requires AllCanonical(bodies)
    ensures Drain(ParseOutcome, PrintAll(bodies)) == Progress(Messages(bodies), [])
    decreases |bodies|
  {
    hide Print;
    if bodies != [] {
      var b, rest := bodies[0], PrintAll(bodies[1..]);
      PrintedIsNext(b, rest);
      assert (Print(b) + rest)[|Print(b)|..] == rest;
      DrainPrinted(bodies[1..]);
      assert Messages(bodies) == [Message(FromBody(b))] + Messages(bodies[1..]);
    }
  }

  /** A complete frame that the frame parser refuses is surfaced as 'raw' and passed over in one piece. */
  lemma RefusedFrameIsRaw(data: bytes, rest: bytes)
    requires |data| >= 6 && data[0] == 0x06 && data[1] == 0x10 && Announced(data) == |data|
    requires ParseFrame(data).Err?
    ensures Drain(ParseOutcome, data + rest) == Prepend(Raw(data), Drain(ParseOutcome, rest))
  {
    var buf := data + rest;
    assert buf[..|data|] == data && buf[|data|..] == rest;
    assert Announced(buf) == Announced(data);
    StreamTable(ParseOutcome, buf);
  }

  /** Any list of canonical frames, printed and cut anywhere, comes out as that list, nothing left. */
  lemma FramesSurviveTheStream(bodies: seq<Body>, chunks: seq<bytes>)
    requires AllCanonical(bodies) && Concat(chunks) == PrintAll(bodies)
    ensures Feed(ParseOutcome, [], chunks) == Progress(Messages(bodies), [])
  {
    SegmentationIndependence(ParseOutcome, [], chunks);
    assert [] + Concat(chunks) == Concat(chunks);
    DrainPrinted(bodies);
  }

  /** At its start the buffer holds no header announcing at least its own length. */
  predicate NoHeader(buf: bytes) {
    var h := ParseHeader(buf);
    h.Err? || h.value.totalLength < HEADER_LENGTH
  }

  lemma SkipByte<F>(parse: Parser<F>, buf: bytes)
    requires |buf| >= HEADER_LENGTH && NoHeader(buf)
    ensures Drain(parse, buf) == Prepend(Raw(buf[..HEADER_LENGTH]), Drain(parse, buf[1..]))
  {
  }

  /** No offset of `noise` looks like a header, not even with what follows it. */
  predicate IsNoise(noise: bytes, stream: bytes) {
    forall i :: 0 <= i < |noise| ==> NoHeader((noise + stream)[i..])
  }

  predicate AllRaw<F>(events: seq<Event<F>>) {
    forall i :: 0 <= i < |events| ==> events[i].Raw?
  }

  lemma {:induction false} NoiseEvents(noise: bytes, bodies: seq<Body>) returns (raws: seq<Event<KnxFrame>>)
    requires AllCanonical(bodies) && bodies != []
    requires IsNoise(noise, PrintAll(bodies))
    ensures |raws| == |noise| && AllRaw(raws)
    ensures Drain(ParseOutcome, noise + PrintAll(bodies)) == Progress(raws + Messages(bodies), [])
    decreases |noise|
  {
    hide Print;
    var stream := PrintAll(bodies);
    if noise == [] {
      raws := [];
      assert noise + stream == stream && raws + Messages(bodies) == Messages(bodies);
      DrainPrinted(bodies);
    } else {
      var buf := noise + stream;
      PrintedLayout(bodies[0]);
      assert buf[0..] == buf && buf[1..] == noise[1..] + stream;
      forall i | 0 <= i < |noise[1..]| ensures NoHeader((noise[1..] + stream)[i..]) {
        assert (noise[1..] + stream)[i..] == buf[i + 1..];
      }
      var rest := NoiseEvents(noise[1..], bodies);
      SkipByte(ParseOutcome, buf);
      var skipped := Raw(buf[..HEADER_LENGTH]);
      raws := [skipped] + rest;
      assert [skipped] + (rest + Messages(bodies)) == raws + Messages(bodies);
    }
  }

  /**
   Resynchronisation: bytes in front of frames, none of which begins a header of at least six bytes in
   length, cost one 'raw' event each and no frame. The byte 0x06, or the start of a header, may be among
   them.
   */
  lemma NoiseIsSkipped(noise: bytes, bodies: seq<Body>)
    requires AllCanonical(bodies) && bodies != []
    requires IsNoise(noise, PrintAll(bodies))
    ensures var p := Drain(ParseOutcome, noise + PrintAll(bodies));
      && p.residue == []
      && |p.events| == |noise| + |bodies|
      && AllRaw(p.events[..|noise|])
      && p.events[|noise|..] == Messages(bodies)
  {
    var raws := NoiseEvents(noise, bodies);
    var events := raws + Messages(bodies);
    assert events[..|noise|] == raws && events[|noise|..] == Messages(bodies);
  }
}

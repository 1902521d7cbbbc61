/** Frames of the control plane: `build_message` and the three-stage reader `read_stage` of
    unix-domain-socket-control-plane, over every byte stream and every way of splitting it. */
module ControlFraming {
  import opened Bytes
  import opened Checksum
  import opened Frames

  // ---- Messages ----

  datatype Message = Message(cmd: u32, pri: u32, number: u64, text: seq<byte>)

  /** `build_message`: the C string, cut to leave room for its NUL. */
  function Build(payload: seq<byte>, cmd: u32, pri: u32, number: u64): (m: Message)
    ensures m.text <= CString(payload) && |m.text| == Min(|CString(payload)|, Checksum.MAX_PAYLOAD - 1)
  {
    var text := CString(payload);
    Message(cmd, pri, number, if |text| >= Checksum.MAX_PAYLOAD then text[..Checksum.MAX_PAYLOAD - 1] else text)
  }

  /** The header structure in memory on a little-endian 64-bit machine; the last four bytes are
      padding, cleared by `memset`. */
  function Header(m: Message): (h: seq<byte>)
    ensures |h| == Checksum.HEADER_SIZE
  {
    LeBytes(m.cmd, 4) + LeBytes(m.pri, 4) + LeBytes(m.number, 8) + LeBytes(|m.text|, 4) + [0, 0, 0, 0]
  }

  function Wire(m: Message): (w: seq<byte>)
  {
    Header(m) + m.text + LeBytes(Checksum.Checksum(Header(m), m.text), 4)
  }

  function Zeros(n: nat): (z: seq<byte>)
    ensures |z| == n
  {
    seq(n, _ => 0)
  }

  // ---- Reference decoding ----

  /** `header.length`, a signed 32-bit number. */
  function Length(s: seq<byte>): (n: int)
    requires |s| >= Checksum.HEADER_SIZE
  {
    var v := LeValue(s[16..20]);
    if v < 0x8000_0000 then v else v - 0x1_0000_0000
  }

  predicate Sound(s: seq<byte>) { |s| >= Checksum.HEADER_SIZE && 0 <= Length(s) <= Checksum.MAX_PAYLOAD }

  function Size(s: seq<byte>): (n: nat)
    requires Sound(s)
  {
    Checksum.HEADER_SIZE + Length(s) + 4
  }

  datatype Received = Received(header: seq<byte>, payload: seq<byte>, intact: bool)

  function FrameIn(s: seq<byte>): (f: Received)
    requires Sound(s) && |s| >= Size(s)
  {
    var header, payload := s[..Checksum.HEADER_SIZE], s[Checksum.HEADER_SIZE..Size(s) - 4];
    Received(header, payload, Checksum.Checksum(header, payload) == LeValue(s[Size(s) - 4..Size(s)]))
  }

  /** `rest` is the unfinished frame; after a header with an invalid length nothing more is read. */
  datatype Decoded = Decoded(frames: seq<Received>, rest: seq<byte>)

  function Extract(s: seq<byte>): (d: Decoded)
    decreases |s|
  {
    if !Sound(s) || |s| < Size(s) then Decoded([], s)
    else
      var d := Extract(s[Size(s)..]);
      Decoded([FrameIn(s)] + d.frames, d.rest)
  }

  // ---- The reader ----

  datatype Step = AtHeader | AtPayload | AtChecksum

  /** The bytes of the current frame received so far, and `pending_close`. */
  datatype Reader = Reader(buf: seq<byte>, closing: bool)

  const IDLE: Reader := Reader([], false)

  predicate Partial(r: Reader)
  {
    if |r.buf| < Checksum.HEADER_SIZE then true
    else if Sound(r.buf) then |r.buf| < Size(r.buf)
    else r.closing && |r.buf| == Checksum.HEADER_SIZE
  }

  function StageOf(r: Reader): (g: Step)
    requires Partial(r)
  {
    if |r.buf| < Checksum.HEADER_SIZE || !Sound(r.buf) then AtHeader
    else if |r.buf| < Checksum.HEADER_SIZE + Length(r.buf) then AtPayload
    else AtChecksum
  }

  /** How many bytes the stage still asks for. */
  function Missing(r: Reader): (n: nat)
    requires Partial(r) && !r.closing
    ensures n > 0
  {
    match StageOf(r)
    case AtHeader => Checksum.HEADER_SIZE - |r.buf|
    case AtPayload => Checksum.HEADER_SIZE + Length(r.buf) - |r.buf|
    case AtChecksum => Size(r.buf) - |r.buf|
  }

  /** What follows a recv of `chunk`. */
  function Absorb(r: Reader, chunk: seq<byte>): (n: (Reader, seq<Received>))
    requires Partial(r) && !r.closing && 0 < |chunk| <= Missing(r)
  {
    var buf := r.buf + chunk;
    if |buf| < Checksum.HEADER_SIZE then (Reader(buf, false), [])
    else if !Sound(buf) then (Reader(buf, true), [])
    else if |buf| < Size(buf) then (Reader(buf, false), [])
    else (IDLE, [FrameIn(buf)])
  }

  lemma SameLength(s: seq<byte>, more: seq<byte>)
    requires |s| >= Checksum.HEADER_SIZE
    ensures Length(s + more) == Length(s) && (Sound(s + more) <==> Sound(s))
  {
    assert (s + more)[16..20] == s[16..20];
  }

  lemma SameFrameIn(s: seq<byte>, more: seq<byte>)
    requires Sound(s) && |s| >= Size(s)
    ensures Sound(s + more) && Size(s + more) == Size(s) && FrameIn(s + more) == FrameIn(s)
  {
    SameLength(s, more);
    var n := Size(s);
    assert (s + more)[..Checksum.HEADER_SIZE] == s[..Checksum.HEADER_SIZE];
    assert (s + more)[Checksum.HEADER_SIZE..n - 4] == s[Checksum.HEADER_SIZE..n - 4];
    assert (s + more)[n - 4..n] == s[n - 4..n];
  }

  /** A recv keeps the reader's invariant and peels its frame off the reference decoding; a closing
      reader has reached the header at which that decoding stops. */
  lemma AbsorbRefines(r: Reader, chunk: seq<byte>, more: seq<byte>)
    requires Partial(r) && !r.closing && 0 < |chunk| <= Missing(r)
    ensures var (r', frames) := Absorb(r, chunk);
            && Partial(r')
            && var d := Extract(r'.buf + more);
               Extract(r.buf + chunk + more) == Decoded(frames + d.frames, d.rest) && (r'.closing ==> d.frames == [])
  {
    hide FrameIn;
    var buf := r.buf + chunk;
    if |r.buf| >= Checksum.HEADER_SIZE { SameLength(r.buf, chunk); }
    if |buf| >= Checksum.HEADER_SIZE { SameLength(buf, more); }
    var (r', frames) := Absorb(r, chunk);
    if frames == [] {
      assert r'.buf + more == r.buf + chunk + more;
      var d := Extract(r'.buf + more);
      assert [] + d.frames == d.frames;
    } else {
      SameFrameIn(buf, more);
      assert (buf + more)[Size(buf)..] == more == r'.buf + more;
    }
  }

  // ---- Calls of read_stage ----

  datatype Reading = Reading(reader: Reader, arrivals: seq<Arrival>, code: int, frames: seq<Received>)

  /** One call: it returns on the first frame, when a stage stays incomplete, on a block, or when
      the connection is to be closed. */
  function ReadStage(r: Reader, arrivals: seq<Arrival>): (c: Reading)
    requires Partial(r) && Wellformed(arrivals)
    ensures Partial(c.reader) && Wellformed(c.arrivals) && Weight(c.arrivals) <= Weight(arrivals)
    ensures arrivals != [] && !r.closing ==> Weight(c.arrivals) < Weight(arrivals)
    decreases Weight(arrivals)
  {
    if r.closing then Reading(r, arrivals, -1, [])
    else if arrivals == [] then Reading(r, [], 0, [])
    else match arrivals[0]
      case Interrupted => ReadStage(r, arrivals[1..])
      case WouldBlock => Reading(r, arrivals[1..], 0, [])
      case Failed => Reading(r.(closing := true), arrivals[1..], -1, [])
      case Closed => Reading(r.(closing := true), arrivals[1..], -1, [])
      case Segment(b) =>
        var n := Min(|b|, Missing(r));
        AfterFacts(arrivals, n);
        AbsorbRefines(r, b[..n], []);
        var (r', frames) := Absorb(r, b[..n]);
        if frames != [] then Reading(r', After(arrivals, n), if frames[0].intact then 1 else 2, frames)
        else if r'.closing then Reading(r', After(arrivals, n), -1, [])
        else if n < Missing(r) then Reading(r', After(arrivals, n), 0, [])
        else ReadStage(r', After(arrivals, n))
  }

  /** Calls repeated until nothing more is to come or the connection is closing. */
  function Collect(r: Reader, arrivals: seq<Arrival>): (d: Decoded)
    requires Partial(r) && Wellformed(arrivals)
    decreases Weight(arrivals)
  {
    if arrivals == [] || r.closing then Decoded([], r.buf)
    else
      var c := ReadStage(r, arrivals);
      var d := Collect(c.reader, c.arrivals);
      Decoded(c.frames + d.frames, d.rest)
  }

  /** How a call goes on after its first recv. */
  lemma ReadStageStep(r: Reader, arrivals: seq<Arrival>)
    requires Partial(r) && Wellformed(arrivals) && !r.closing
    ensures arrivals == [] ==> ReadStage(r, arrivals) == Reading(r, [], 0, [])
    ensures arrivals != [] && arrivals[0].WouldBlock? ==> ReadStage(r, arrivals) == Reading(r, arrivals[1..], 0, [])
    ensures arrivals != [] && (arrivals[0].Failed? || arrivals[0].Closed?) ==>
              ReadStage(r, arrivals) == Reading(r.(closing := true), arrivals[1..], -1, [])
    ensures arrivals != [] && arrivals[0].Interrupted? ==>
              Weight(arrivals[1..]) < Weight(arrivals) && ReadStage(r, arrivals) == ReadStage(r, arrivals[1..])
    ensures arrivals != [] && arrivals[0].Segment? ==>
      var n := Min(|arrivals[0].bytes|, Missing(r));
      var (r', frames) := Absorb(r, arrivals[0].bytes[..n]);
      && Partial(r') && Wellformed(After(arrivals, n)) && Weight(After(arrivals, n)) < Weight(arrivals)
      && ReadStage(r, arrivals) ==
         if frames != [] then Reading(r', After(arrivals, n), if frames[0].intact then 1 else 2, frames)
         else if r'.closing then Reading(r', After(arrivals, n), -1, [])
         else if n < Missing(r) then Reading(r', After(arrivals, n), 0, [])
         else ReadStage(r', After(arrivals, n))
  {
    hide Absorb, After, Extract, Missing;
    if arrivals != [] && arrivals[0].Segment? {
      var n := Min(|arrivals[0].bytes|, Missing(r));
      AfterFacts(arrivals, n);
      AbsorbRefines(r, arrivals[0].bytes[..n], []);
    }
  }

  lemma ArrivalStep(r: Reader, arrivals: seq<Arrival>)
    requires Partial(r) && Wellformed(arrivals) && !r.closing && arrivals != [] && arrivals[0].Segment?
    ensures var n := Min(|arrivals[0].bytes|, Missing(r));
            var (r', frames) := Absorb(r, arrivals[0].bytes[..n]);
            var d := Extract(r'.buf + Stream(After(arrivals, n)));
            Extract(r.buf + Stream(arrivals)) == Decoded(frames + d.frames, d.rest) && (r'.closing ==> d.frames == [])
  {
    hide Extract, Absorb, Stream, Missing;
    var b := arrivals[0].bytes;
    var n := Min(|b|, Missing(r));
    AfterFacts(arrivals, n);
    AbsorbRefines(r, b[..n], Stream(After(arrivals, n)));
    assert r.buf + Stream(arrivals) == r.buf + b[..n] + Stream(After(arrivals, n));
  }

  lemma Waiting(r: Reader)
    requires Partial(r)
    ensures Extract(r.buf) == Decoded([], r.buf)
  {
  }

  /** One call, seen from the reference decoding of the bytes still to come. */
  lemma {:induction false} ReadStageRefines(r: Reader, arrivals: seq<Arrival>)
    requires Partial(r) && Wellformed(arrivals)
    ensures var c := ReadStage(r, arrivals);
            Extract(r.buf + Stream(arrivals)).frames ==
              c.frames + (if c.reader.closing then [] else Extract(c.reader.buf + Stream(c.arrivals)).frames)
            || r.closing
    decreases Weight(arrivals)
  {
    hide Extract, Absorb, Missing;
    if r.closing {
    } else if arrivals == [] {
      var e := Extract(r.buf + Stream([]));
      assert e.frames == [] + e.frames;
    } else {
      ReadStageStep(r, arrivals);
      var c := ReadStage(r, arrivals);
      match arrivals[0]
      case Segment(b) =>
        var n := Min(|b|, Missing(r));
        var (r', frames) := Absorb(r, b[..n]);
        ArrivalStep(r, arrivals);
        var e := Extract(r'.buf + Stream(After(arrivals, n)));
        assert [] + e.frames == e.frames;
        if frames == [] && !r'.closing && n == Missing(r) { ReadStageRefines(r', After(arrivals, n)); }
      case Interrupted => ReadStageRefines(r, arrivals[1..]);
      case _ =>
        Waiting(r);
        assert r.buf + [] == r.buf;
        var e := Extract(r.buf + Stream(c.arrivals));
        assert [] + e.frames == e.frames;
    }
  }

  /** However the bytes are split across recv calls, and however the calls are interrupted or come
      back early, the frames the reader counts are those of the concatenated bytes, in order. */
  lemma {:induction false} SplittingIrrelevant(r: Reader, arrivals: seq<Arrival>)
    requires Partial(r) && Wellformed(arrivals) && !r.closing
    ensures Collect(r, arrivals).frames == Extract(r.buf + Stream(arrivals)).frames
    decreases Weight(arrivals)
  {
    hide Extract, ReadStage;
    if arrivals == [] {
      Waiting(r);
      assert r.buf + Stream(arrivals) == r.buf;
    } else {
      ReadStageRefines(r, arrivals);
      var c := ReadStage(r, arrivals);
      if c.reader.closing {
        assert c.frames + [] == c.frames;
      } else {
        SplittingIrrelevant(c.reader, c.arrivals);
      }
    }
  }

  // ---- Round trip ----

  lemma HeaderFields(m: Message)
    ensures var h := Header(m);
            LeValue(h[0..4]) == m.cmd && LeValue(h[4..8]) == m.pri && LeValue(h[8..16]) == m.number
    ensures |m.text| <= Checksum.MAX_PAYLOAD ==> Length(Header(m)) == |m.text|
  {
    var h := Header(m);
    assert h[0..4] == LeBytes(m.cmd, 4) && h[4..8] == LeBytes(m.pri, 4) && h[8..16] == LeBytes(m.number, 8);
    assert h[16..20] == LeBytes(|m.text|, 4);
    Powers();
    LeRoundTrip(m.cmd, 4);
    LeRoundTrip(m.pri, 4);
    LeRoundTrip(m.number, 8);
    if |m.text| <= Checksum.MAX_PAYLOAD { LeRoundTrip(|m.text|, 4); }
  }

  lemma Powers()
    ensures Pow256(4) == 0x1_0000_0000 && Pow256(8) == 0x1_0000_0000_0000_0000
  {
    assert Pow256(2) == 0x1_0000;
    assert Pow256(4) == 0x1_0000_0000;
    assert Pow256(6) == 0x1_0000_0000_0000;
  }

  /** The frame of a built message, met at the front of a stream. */
  lemma WireExtracts(m: Message, more: seq<byte>)
    requires |m.text| <= Checksum.MAX_PAYLOAD
    ensures var d := Extract(more);
            Extract(Wire(m) + more) == Decoded([Received(Header(m), m.text, true)] + d.frames, d.rest)
  {
    var w, h, n := Wire(m), Header(m), |m.text|;
    HeaderFields(m);
    assert w == h + (m.text + LeBytes(Checksum.Checksum(h, m.text), 4));
    SameLength(h, m.text + LeBytes(Checksum.Checksum(h, m.text), 4));
    WireParts(m);
    SameFrameIn(w, more);
    assert (w + more)[Size(w)..] == more;
  }

  lemma WireParts(m: Message)
    requires |m.text| <= Checksum.MAX_PAYLOAD && Sound(Wire(m)) && Size(Wire(m)) == |Wire(m)|
    ensures FrameIn(Wire(m)) == Received(Header(m), m.text, true)
  {
    var w, h, c := Wire(m), Header(m), Checksum.Checksum(Header(m), m.text);
    assert w[..Checksum.HEADER_SIZE] == h && w[Checksum.HEADER_SIZE..Size(w) - 4] == m.text;
    assert w[Size(w) - 4..Size(w)] == LeBytes(c, 4);
    Powers();
    LeRoundTrip(c, 4);
  }

  function Wires(ms: seq<Message>): (w: seq<byte>)
    decreases |ms|
  {
    if ms == [] then [] else Wire(ms[0]) + Wires(ms[1..])
  }

  predicate Fitting(ms: seq<Message>) { forall k :: 0 <= k < |ms| ==> |ms[k].text| <= Checksum.MAX_PAYLOAD }

  function Expected(ms: seq<Message>): (fs: seq<Received>)
  {
    seq(|ms|, i requires 0 <= i < |ms| => Received(Header(ms[i]), ms[i].text, true))
  }

  /** Whole frames followed by an unfinished one give exactly the whole frames. */
  lemma {:induction false} WiresExtract(ms: seq<Message>, tail: seq<byte>)
    requires Fitting(ms) && Extract(tail).frames == []
    ensures Extract(Wires(ms) + tail).frames == Expected(ms)
    decreases |ms|
  {
    hide Extract, Wire;
    if ms == [] {
      assert Wires(ms) + tail == tail;
    } else {
      assert Wires(ms) + tail == Wire(ms[0]) + (Wires(ms[1..]) + tail);
      WireExtracts(ms[0], Wires(ms[1..]) + tail);
      WiresExtract(ms[1..], tail);
      assert Expected(ms) == [Received(Header(ms[0]), ms[0].text, true)] + Expected(ms[1..]);
    }
  }

  /** A proper prefix of a frame is not yet a frame. */
  lemma PrefixWaits(m: Message, n: nat)
    requires |m.text| <= Checksum.MAX_PAYLOAD && n < |Wire(m)|
    ensures Extract(Wire(m)[..n]).frames == []
  {
    var p, h := Wire(m)[..n], Header(m);
    if n >= Checksum.HEADER_SIZE {
      assert p == h + p[Checksum.HEADER_SIZE..];
      HeaderFields(m);
      SameLength(h, p[Checksum.HEADER_SIZE..]);
    }
  }

  /** Frames sent whole one after another, perhaps followed by a part of one more: the server's
      reader gets exactly those sent whole, however the bytes are split on their way. */
  lemma SentFramesArrive(ms: seq<Message>, last: Message, n: nat, arrivals: seq<Arrival>)
    requires Fitting(ms) && |last.text| <= Checksum.MAX_PAYLOAD && n < |Wire(last)|
    requires Wellformed(arrivals) && Stream(arrivals) == Wires(ms) + Wire(last)[..n]
    ensures Collect(IDLE, arrivals).frames == Expected(ms)
  {
    PrefixWaits(last, n);
    hide Wire, Wires, Extract, Collect;
    WiresExtract(ms, Wire(last)[..n]);
    SplittingIrrelevant(IDLE, arrivals);
    assert IDLE.buf + Stream(arrivals) == Stream(arrivals);
  }
}

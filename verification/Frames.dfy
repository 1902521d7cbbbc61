/** The gateway frame protocol: the packet encoder of gateway/src/protocol_message.c and the
    resumable decoder `client_read_message` of gateway/src/server.c. */
module Frames {
  import opened Bytes
  import Crc

  const PROTOCOL_MAGIC: u32 := 0xFFAA_BBCC
  const PROTOCOL_VERSION: u16 := 1
  const HEADER_SIZE: nat := 16
  const CRC_SIZE: nat := 4
  const MAX_PAYLOAD: nat := 4096
  const RX_BUF_CAP: nat := 8192

  const MSG_ECHO: u16 := 1
  const MSG_STATUS: u16 := 2
  const MSG_GET_SENSOR: u16 := 4
  const MSG_SET_ACTUATOR: u16 := 0x10
  const MSG_ERROR: u16 := 0x8002

  const ERR_UNKNOWN_TYPE: nat := 1
  const ERR_BAD_MAGIC: nat := 2
  const ERR_BAD_VERSION: nat := 3
  const ERR_PAYLOAD_TOO_LARGE: nat := 4
  const ERR_CRC_MISMATCH: nat := 5

  datatype Header = Header(magic: u32, version: u16, kind: u16, length: u32, requestId: u32)

  /** What one complete frame, or one rejected header, makes the gateway do. */
  datatype Event =
    | Task(kind: u16, requestId: u32, payload: seq<byte>)
    | ErrorReply(requestId: u32, code: nat)

  function Be32(s: seq<byte>): (n: u32)
    requires |s| == 4
  {
    BeInverse(s);
    BeValue(s)
  }

  function Be16(s: seq<byte>): (n: u16)
    requires |s| == 2
  {
    BeInverse(s);
    BeValue(s)
  }

  // ---- The encoder ----

  function HeaderBytes(h: Header): (s: seq<byte>)
    ensures |s| == HEADER_SIZE
  {
    BeBytes(h.magic, 4) + BeBytes(h.version, 2) + BeBytes(h.kind, 2) + BeBytes(h.length, 4) + BeBytes(h.requestId, 4)
  }

  /** The wire form of a frame: header, payload, CRC of the payload. */
  function Packet(kind: u16, requestId: u32, payload: seq<byte>): (s: seq<byte>)
    requires |payload| <= MAX_PAYLOAD
    ensures |s| == HEADER_SIZE + |payload| + CRC_SIZE
  {
    HeaderBytes(Header(PROTOCOL_MAGIC, PROTOCOL_VERSION, kind, |payload|, requestId))
    + payload + BeBytes(Crc.CrcValue(payload), 4)
  }

  /** Writes `s` into `buffer` at `at`. */
  method Store(buffer: array<byte>, at: nat, s: seq<byte>)
    requires at + |s| <= buffer.Length
    modifies buffer
    ensures buffer[..] == old(buffer[..])[..at] + s + old(buffer[..])[at + |s|..]
  {
    for i := 0 to |s|
      invariant buffer[..at] == old(buffer[..at])
      invariant buffer[at..at + i] == s[..i]
      invariant buffer[at + |s|..] == old(buffer[at + |s|..])
    {
      buffer[at + i] := s[i];
      assert buffer[at..at + i + 1] == buffer[at..at + i] + [s[i]];
    }
    assert buffer[..] == buffer[..at] + buffer[at..at + |s|] + buffer[at + |s|..];
  }

  /** `packet_encode`: fills `buffer`, or refuses without touching it. */
  method PacketEncode(buffer: array<byte>, kind: u16, requestId: u32, payload: seq<byte>, crcTable: Crc.Table)
    returns (rc: int)
    requires crcTable.Valid() && crcTable.entries != buffer as object
    modifies buffer, crcTable, crcTable.entries
    ensures rc == 0 <==> HEADER_SIZE + |payload| + CRC_SIZE <= buffer.Length && |payload| <= MAX_PAYLOAD
    ensures rc == 0 ==>
              buffer[..] == Packet(kind, requestId, payload) + old(buffer[HEADER_SIZE + |payload| + CRC_SIZE..])
    ensures rc != 0 ==> rc == -1 && buffer[..] == old(buffer[..])
    ensures crcTable.Valid()
  {
    var length := |payload|;
    var total := length + HEADER_SIZE + CRC_SIZE;
    if total > buffer.Length || length > MAX_PAYLOAD {
      return -1;
    }
    hide HeaderBytes, BeBytes, Crc.Crc32, Crc.ValueOf;
    ghost var b0 := buffer[..];
    var header := HeaderBytes(Header(PROTOCOL_MAGIC, PROTOCOL_VERSION, kind, length, requestId));
    Store(buffer, 0, header);
    ghost var b1 := buffer[..];
    Store(buffer, HEADER_SIZE, payload);
    ghost var b2 := buffer[..];
    var word := crcTable.Calculate(payload);
    Store(buffer, HEADER_SIZE + length, BeBytes(Crc.ValueOf(word), 4));
    StoresInOrder(b0, b1, b2, buffer[..], header, payload, BeBytes(Crc.ValueOf(word), 4));
    return 0;
  }

  /** `build_error_packet`: a frame of its own, whose payload is the error code. */
  method BuildErrorPacket(requestId: u32, code: byte, crcTable: Crc.Table) returns (packet: array<byte>)
    requires crcTable.Valid()
    modifies crcTable, crcTable.entries
    ensures fresh(packet) && packet[..] == Packet(MSG_ERROR, requestId, [code]) && crcTable.Valid()
  {
    packet := new byte[HEADER_SIZE + 1 + CRC_SIZE];
    var rc := PacketEncode(packet, MSG_ERROR, requestId, [code], crcTable);
    assert rc == 0 && packet[..] == Packet(MSG_ERROR, requestId, [code]) + [];
  }

  /** Three stores, each starting where the last one ended, lay their pieces end to end. */
  lemma StoresInOrder(b0: seq<byte>, b1: seq<byte>, b2: seq<byte>, b3: seq<byte>,
                      p: seq<byte>, q: seq<byte>, r: seq<byte>)
    requires |p| + |q| + |r| <= |b0| == |b1| == |b2| == |b3|
    requires b1 == p + b0[|p|..]
    requires b2 == b1[..|p|] + q + b1[|p| + |q|..]
    requires b3 == b2[..|p| + |q|] + r + b2[|p| + |q| + |r|..]
    ensures b3 == p + q + r + b0[|p| + |q| + |r|..]
  {
    assert b2[..|p| + |q|] == p + q;
    assert b2[|p| + |q| + |r|..] == b0[|p| + |q| + |r|..];
  }

  // ---- The decoder: reference over the whole byte stream ----

  function HeaderOf(s: seq<byte>): (h: Header)
    requires |s| >= HEADER_SIZE
  {
    Header(Be32(s[0..4]), Be16(s[4..6]), Be16(s[6..8]), Be32(s[8..12]), Be32(s[12..16]))
  }

  /** `check_header`: 0 when the header is acceptable, else the first failing check. */
  function CheckHeader(h: Header): (code: nat)
  {
    if h.magic != PROTOCOL_MAGIC then ERR_BAD_MAGIC
    else if h.version != PROTOCOL_VERSION then ERR_BAD_VERSION
    else if h.length > MAX_PAYLOAD then ERR_PAYLOAD_TOO_LARGE
    else if h.kind !in {MSG_ECHO, MSG_STATUS, MSG_GET_SENSOR, MSG_SET_ACTUATOR} then ERR_UNKNOWN_TYPE
    else 0
  }

  predicate Accepted(s: seq<byte>)
  {
    |s| >= HEADER_SIZE && CheckHeader(HeaderOf(s)) == 0
  }

  /** Length of the frame whose accepted header starts `s`. */
  function FrameSize(s: seq<byte>): (n: nat)
    requires Accepted(s)
    ensures n <= HEADER_SIZE + MAX_PAYLOAD + CRC_SIZE <= RX_BUF_CAP
  {
    HEADER_SIZE + HeaderOf(s).length + CRC_SIZE
  }

  /** The verdict on the complete frame that starts `f`. */
  function FrameEvent(f: seq<byte>): (e: Event)
    requires Accepted(f) && |f| >= FrameSize(f)
  {
    var h := HeaderOf(f);
    var payload := f[HEADER_SIZE..HEADER_SIZE + h.length];
    if Be32(f[HEADER_SIZE + h.length..FrameSize(f)]) == Crc.CrcValue(payload)
    then Task(h.kind, h.requestId, payload)
    else ErrorReply(h.requestId, ERR_CRC_MISMATCH)
  }

  /** Everything a byte stream makes the gateway do, and the bytes of the frame it leaves unfinished. */
  function Decode(s: seq<byte>): (r: (seq<Event>, seq<byte>))
    decreases |s|
  {
    if |s| < HEADER_SIZE then ([], s)
    else if !Accepted(s) then
      var r := Decode(s[HEADER_SIZE..]);
      ([ErrorReply(HeaderOf(s).requestId, CheckHeader(HeaderOf(s)))] + r.0, r.1)
    else if |s| < FrameSize(s) then ([], s)
    else
      var r := Decode(s[FrameSize(s)..]);
      ([FrameEvent(s)] + r.0, r.1)
  }

  // ---- The decoder: one recv at a time ----

  datatype Stage = ReadHeader | ReadPayload

  /** `stage` and `data_receive[..rx_len]` of a client slot. */
  datatype Rx = Rx(stage: Stage, buf: seq<byte>)

  const FRESH: Rx := Rx(ReadHeader, [])

  /** Holds on entry to every recv: the received length is below the current target. */
  ghost predicate Inv(rx: Rx)
  {
    match rx.stage
    case ReadHeader => |rx.buf| < HEADER_SIZE
    case ReadPayload => Accepted(rx.buf) && |rx.buf| < FrameSize(rx.buf)
  }

  /** Bytes asked of the next recv. */
  function Remain(rx: Rx): (n: nat)
    requires Inv(rx)
    ensures 0 < n && |rx.buf| + n <= RX_BUF_CAP
  {
    match rx.stage
    case ReadHeader => HEADER_SIZE - |rx.buf|
    case ReadPayload => FrameSize(rx.buf) - |rx.buf|
  }

  /** The state after a recv, and the event it completes, if any. */
  function Receive(rx: Rx, chunk: seq<byte>): (r: (Rx, seq<Event>))
    requires Inv(rx) && 0 < |chunk| <= Remain(rx)
  {
    var buf := rx.buf + chunk;
    match rx.stage
    case ReadHeader =>
      if |buf| < HEADER_SIZE then (Rx(ReadHeader, buf), [])
      else if !Accepted(buf) then (FRESH, [ErrorReply(HeaderOf(buf).requestId, CheckHeader(HeaderOf(buf)))])
      else (Rx(ReadPayload, buf), [])
    case ReadPayload =>
      SameHeader(rx.buf, chunk);
      if |buf| < FrameSize(buf) then (Rx(ReadPayload, buf), [])
      else (FRESH, [FrameEvent(buf)])
  }

  lemma SameHeader(s: seq<byte>, more: seq<byte>)
    requires |s| >= HEADER_SIZE
    ensures HeaderOf(s + more) == HeaderOf(s)
    ensures Accepted(s + more) == Accepted(s)
  {
    var t := s + more;
    assert t[0..4] == s[0..4] && t[4..6] == s[4..6] && t[6..8] == s[6..8];
    assert t[8..12] == s[8..12] && t[12..16] == s[12..16];
  }

  /** A recv step keeps the state invariant and peels its event off the reference decoding. */
  lemma ReceiveRefines(rx: Rx, chunk: seq<byte>, more: seq<byte>)
    requires Inv(rx) && 0 < |chunk| <= Remain(rx)
    ensures Inv(Receive(rx, chunk).0)
    ensures var (rx', events) := Receive(rx, chunk);
            Decode(rx.buf + chunk + more) == (events + Decode(rx'.buf + more).0, Decode(rx'.buf + more).1)
  {
    var buf := rx.buf + chunk;
    if rx.stage == ReadPayload { SameHeader(rx.buf, chunk); }
    if |buf| >= HEADER_SIZE { SameHeader(buf, more); }
    if |buf| >= HEADER_SIZE && !Accepted(buf) {
      assert (buf + more)[HEADER_SIZE..] == more == FRESH.buf + more;
    } else if rx.stage == ReadPayload && |buf| == FrameSize(buf) {
      SameFrame(buf, more);
      assert (buf + more)[FrameSize(buf)..] == more == FRESH.buf + more;
    } else {
      var d := Decode(buf + more);
      assert [] + d.0 == d.0;
    }
  }

  lemma SameFrame(s: seq<byte>, more: seq<byte>)
    requires Accepted(s) && |s| >= FrameSize(s)
    ensures Accepted(s + more) && FrameSize(s + more) == FrameSize(s) && FrameEvent(s + more) == FrameEvent(s)
  {
    SameHeader(s, more);
    var n := HEADER_SIZE + HeaderOf(s).length;
    assert (s + more)[HEADER_SIZE..n] == s[HEADER_SIZE..n];
    assert (s + more)[n..n + 4] == s[n..n + 4];
  }

  /** An unfinished frame decodes to nothing and is kept whole. */
  lemma Unfinished(rx: Rx)
    requires Inv(rx)
    ensures Decode(rx.buf) == ([], rx.buf)
  {
  }

  // ---- The decoder: calls of client_read_message over any arrival pattern ----

  /** What the kernel holds for one recv: a segment (of which recv takes what it asked for),
      an interruption, nothing yet, an error, or the peer's close. */
  datatype Arrival = Segment(bytes: seq<byte>) | Interrupted | WouldBlock | Failed | Closed

  ghost predicate Wellformed(arrivals: seq<Arrival>)
  {
    forall i :: 0 <= i < |arrivals| && arrivals[i].Segment? ==> arrivals[i].bytes != []
  }

  /** The bytes that reach the decoder: all segments before the connection fails or closes. */
  function Stream(arrivals: seq<Arrival>): (s: seq<byte>)
    decreases |arrivals|
  {
    if arrivals == [] then []
    else match arrivals[0]
      case Segment(b) => b + Stream(arrivals[1..])
      case Failed => []
      case Closed => []
      case _ => Stream(arrivals[1..])
  }

  function Weight(arrivals: seq<Arrival>): (n: nat)
    decreases |arrivals|
  {
    if arrivals == [] then 0
    else Weight(arrivals[1..]) + 1 + (if arrivals[0].Segment? then |arrivals[0].bytes| else 0)
  }

  /** The arrivals left after a recv of `n` bytes from the segment in front. */
  function After(arrivals: seq<Arrival>, n: nat): (rest: seq<Arrival>)
    requires arrivals != [] && arrivals[0].Segment? && n <= |arrivals[0].bytes|
  {
    if n < |arrivals[0].bytes| then [Segment(arrivals[0].bytes[n..])] + arrivals[1..] else arrivals[1..]
  }

  lemma AfterFacts(arrivals: seq<Arrival>, n: nat)
    requires Wellformed(arrivals) && arrivals != [] && arrivals[0].Segment? && 0 < n <= |arrivals[0].bytes|
    ensures Wellformed(After(arrivals, n)) && Weight(After(arrivals, n)) < Weight(arrivals)
    ensures Stream(arrivals) == arrivals[0].bytes[..n] + Stream(After(arrivals, n))
  {
    var b, tail := arrivals[0].bytes, arrivals[1..];
    if n < |b| {
      var rest := [Segment(b[n..])] + tail;
      assert rest[1..] == tail && rest[0].bytes == b[n..];
      assert Weight(rest) < Weight(arrivals);
      AfterStream(arrivals, n);
    } else {
      assert b[..n] == b;
    }
  }

  lemma AfterStream(arrivals: seq<Arrival>, n: nat)
    requires arrivals != [] && arrivals[0].Segment? && n < |arrivals[0].bytes|
    ensures Stream(arrivals) == arrivals[0].bytes[..n] + Stream([Segment(arrivals[0].bytes[n..])] + arrivals[1..])
  {
    var b, tail := arrivals[0].bytes, arrivals[1..];
    var rest := [Segment(b[n..])] + tail;
    assert rest[1..] == tail;
    assert Stream(rest) == b[n..] + Stream(tail);
    assert b == b[..n] + b[n..];
  }

  /** `code` is the return value of `client_read_message`. */
  datatype Call = Call(rx: Rx, arrivals: seq<Arrival>, code: int, events: seq<Event>)

  /** One call of `client_read_message`: it returns on the first event, block, error or close. */
  function ReadMessage(rx: Rx, arrivals: seq<Arrival>): (c: Call)
    requires Inv(rx) && Wellformed(arrivals)
    ensures Inv(c.rx) && Wellformed(c.arrivals) && Weight(c.arrivals) <= Weight(arrivals)
    ensures arrivals != [] ==> Weight(c.arrivals) < Weight(arrivals)
    decreases Weight(arrivals)
  {
    if arrivals == [] then Call(rx, [], 3, [])
    else match arrivals[0]
      case Interrupted => ReadMessage(rx, arrivals[1..])
      case WouldBlock => Call(rx, arrivals[1..], 3, [])
      case Failed => Call(rx, arrivals[1..], -1, [])
      case Closed => Call(rx, arrivals[1..], 1, [])
      case Segment(b) =>
        var n := Min(|b|, Remain(rx));
        AfterFacts(arrivals, n);
        ReceiveRefines(rx, b[..n], []);
        var (rx', events) := Receive(rx, b[..n]);
        if events == [] then ReadMessage(rx', After(arrivals, n))
        else Call(rx', After(arrivals, n), if events[0].Task? then 0 else 2, events)
  }

  /** How a call goes on after its first recv. */
  lemma ReadMessageStep(rx: Rx, arrivals: seq<Arrival>)
    requires Inv(rx) && Wellformed(arrivals)
    ensures arrivals == [] ==> ReadMessage(rx, arrivals) == Call(rx, [], 3, [])
    ensures arrivals != [] && arrivals[0].WouldBlock? ==> ReadMessage(rx, arrivals) == Call(rx, arrivals[1..], 3, [])
    ensures arrivals != [] && arrivals[0].Failed? ==> ReadMessage(rx, arrivals) == Call(rx, arrivals[1..], -1, [])
    ensures arrivals != [] && arrivals[0].Closed? ==> ReadMessage(rx, arrivals) == Call(rx, arrivals[1..], 1, [])
    ensures arrivals != [] && arrivals[0].Interrupted? ==>
      Weight(arrivals[1..]) < Weight(arrivals) && ReadMessage(rx, arrivals) == ReadMessage(rx, arrivals[1..])
    ensures arrivals != [] && arrivals[0].Segment? ==>
      var n := Min(|arrivals[0].bytes|, Remain(rx));
      var (rx', events) := Receive(rx, arrivals[0].bytes[..n]);
      && Inv(rx') && Wellformed(After(arrivals, n)) && Weight(After(arrivals, n)) < Weight(arrivals)
      && ReadMessage(rx, arrivals) ==
         if events == [] then ReadMessage(rx', After(arrivals, n))
         else Call(rx', After(arrivals, n), if events[0].Task? then 0 else 2, events)
  {
    hide Receive, After, Decode;
    if arrivals != [] && arrivals[0].Segment? {
      var n := Min(|arrivals[0].bytes|, Remain(rx));
      AfterFacts(arrivals, n);
      ReceiveRefines(rx, arrivals[0].bytes[..n], []);
    }
  }

  predicate Ended(c: Call) { c.code == -1 || c.code == 1 }

  /** Calls repeated until the arrivals run out or the connection ends: all events, in order. */
  function Drain(rx: Rx, arrivals: seq<Arrival>): (r: (seq<Event>, seq<byte>))
    requires Inv(rx) && Wellformed(arrivals)
    decreases Weight(arrivals)
  {
    if arrivals == [] then ([], rx.buf)
    else
      var c := ReadMessage(rx, arrivals);
      if Ended(c) then (c.events, c.rx.buf)
      else
        var r := Drain(c.rx, c.arrivals);
        (c.events + r.0, r.1)
  }

  /** One recv, seen from the reference decoding of the bytes still to come. */
  lemma SegmentStep(rx: Rx, arrivals: seq<Arrival>)
    requires Inv(rx) && Wellformed(arrivals) && arrivals != [] && arrivals[0].Segment?
    ensures var b := arrivals[0].bytes;
            var n := Min(|b|, Remain(rx));
            var (rx', events) := Receive(rx, b[..n]);
            var d := Decode(rx'.buf + Stream(After(arrivals, n)));
            Decode(rx.buf + Stream(arrivals)) == (events + d.0, d.1)
  {
    hide Decode, Receive, Stream;
    var b := arrivals[0].bytes;
    var n := Min(|b|, Remain(rx));
    AfterFacts(arrivals, n);
    ReceiveRefines(rx, b[..n], Stream(After(arrivals, n)));
    assert rx.buf + Stream(arrivals) == rx.buf + b[..n] + Stream(After(arrivals, n));
  }

  lemma {:induction false} ReadMessageRefines(rx: Rx, arrivals: seq<Arrival>)
    requires Inv(rx) && Wellformed(arrivals)
    ensures var c := ReadMessage(rx, arrivals);
            var d := Decode(c.rx.buf + (if Ended(c) then [] else Stream(c.arrivals)));
            Decode(rx.buf + Stream(arrivals)) == (c.events + d.0, d.1)
    decreases Weight(arrivals)
  {
    hide Decode, Receive, After;
    if arrivals != [] {
      match arrivals[0]
      case Interrupted => ReadMessageRefines(rx, arrivals[1..]);
      case Segment(b) =>
        var n := Min(|b|, Remain(rx));
        AfterFacts(arrivals, n);
        ReceiveRefines(rx, b[..n], []);
        SegmentStep(rx, arrivals);
        var (rx', events) := Receive(rx, b[..n]);
        if events == [] {
          ReadMessageRefines(rx', After(arrivals, n));
        }
      case _ =>
    }
    forall e: seq<Event> ensures [] + e == e { }
  }

  /** The decoder does not depend on segmentation: however the bytes arrive, whatever
      interruptions fall between, the events are one function of the bytes alone. */
  lemma {:induction false} SegmentationIndependent(rx: Rx, arrivals: seq<Arrival>)
    requires Inv(rx) && Wellformed(arrivals)
    ensures Drain(rx, arrivals) == Decode(rx.buf + Stream(arrivals))
    decreases Weight(arrivals)
  {
    hide Decode;
    Unfinished(rx);
    if arrivals == [] {
      assert rx.buf + Stream(arrivals) == rx.buf;
    } else {
      var c := ReadMessage(rx, arrivals);
      ReadMessageRefines(rx, arrivals);
      if Ended(c) {
        Unfinished(c.rx);
        assert c.rx.buf + [] == c.rx.buf && c.events + [] == c.events;
      } else {
        SegmentationIndependent(c.rx, c.arrivals);
      }
    }
  }

  /** Two deliveries of the same bytes to a fresh connection give the same tasks and replies. */
  lemma SameBytesSameEvents(a: seq<Arrival>, b: seq<Arrival>)
    requires Wellformed(a) && Wellformed(b) && Stream(a) == Stream(b)
    ensures Drain(FRESH, a) == Drain(FRESH, b)
  {
    SegmentationIndependent(FRESH, a);
    SegmentationIndependent(FRESH, b);
  }

  // ---- Encoder against decoder ----

  lemma PacketHeader(h: Header, more: seq<byte>)
    ensures HeaderOf(HeaderBytes(h) + more) == h
  {
    var s := HeaderBytes(h) + more;
    BeRoundTrip(h.magic, 4);
    BeRoundTrip(h.version, 2);
    BeRoundTrip(h.kind, 2);
    BeRoundTrip(h.length, 4);
    BeRoundTrip(h.requestId, 4);
    assert s[0..4] == BeBytes(h.magic, 4) && s[4..6] == BeBytes(h.version, 2) && s[6..8] == BeBytes(h.kind, 2);
    assert s[8..12] == BeBytes(h.length, 4) && s[12..16] == BeBytes(h.requestId, 4);
  }

  predicate Known(kind: u16) { kind in {MSG_ECHO, MSG_STATUS, MSG_GET_SENSOR, MSG_SET_ACTUATOR} }

  /** The bytes of a frame that carries `crc`, right or wrong. */
  function Framed(kind: u16, requestId: u32, payload: seq<byte>, crc: u32): (s: seq<byte>)
    requires |payload| <= MAX_PAYLOAD
  {
    HeaderBytes(Header(PROTOCOL_MAGIC, PROTOCOL_VERSION, kind, |payload|, requestId)) + payload + BeBytes(crc, 4)
  }

  /** A complete frame in front of any bytes is a task exactly when it carries the CRC of its payload,
      and is answered with a CRC mismatch otherwise. */
  lemma FrameDecodes(kind: u16, requestId: u32, payload: seq<byte>, crc: u32, more: seq<byte>)
    requires Known(kind) && |payload| <= MAX_PAYLOAD
    ensures var event :=
              if crc == Crc.CrcValue(payload) then Task(kind, requestId, payload)
              else ErrorReply(requestId, ERR_CRC_MISMATCH);
            Decode(Framed(kind, requestId, payload, crc) + more) == ([event] + Decode(more).0, Decode(more).1)
  {
    var p := Framed(kind, requestId, payload, crc);
    FrameFields(kind, requestId, payload, crc, more);
    assert (p + more)[|p|..] == more;
  }

  lemma FrameFields(kind: u16, requestId: u32, payload: seq<byte>, crc: u32, more: seq<byte>)
    requires Known(kind) && |payload| <= MAX_PAYLOAD
    ensures var s := Framed(kind, requestId, payload, crc) + more;
            && Accepted(s) && FrameSize(s) == HEADER_SIZE + |payload| + CRC_SIZE == |s| - |more|
            && FrameEvent(s) == if crc == Crc.CrcValue(payload) then Task(kind, requestId, payload)
                                else ErrorReply(requestId, ERR_CRC_MISMATCH)
  {
    hide BeBytes, BeValue, Crc.CrcValue;
    var h := Header(PROTOCOL_MAGIC, PROTOCOL_VERSION, kind, |payload|, requestId);
    var rest := payload + BeBytes(crc, 4) + more;
    var s := HeaderBytes(h) + rest;
    assert Framed(kind, requestId, payload, crc) + more == s;
    PacketHeader(h, rest);
    BeRoundTrip(crc, 4);
    var n := HEADER_SIZE + |payload|;
    assert s[HEADER_SIZE..n] == payload;
    assert s[n..n + 4] == BeBytes(crc, 4);
  }

  /** Decoding undoes encoding: an encoded request in front of any bytes yields exactly its task. */
  lemma PacketDecodes(kind: u16, requestId: u32, payload: seq<byte>, more: seq<byte>)
    requires Known(kind) && |payload| <= MAX_PAYLOAD
    ensures Decode(Packet(kind, requestId, payload) + more)
         == ([Task(kind, requestId, payload)] + Decode(more).0, Decode(more).1)
  {
    hide Decode;
    FrameDecodes(kind, requestId, payload, Crc.CrcValue(payload), more);
  }

  /** A packet damaged anywhere within four consecutive bytes of its payload is answered with a CRC
      mismatch for its request; the bytes after it are decoded as if it had been intact. */
  lemma DamagedRefused(kind: u16, requestId: u32, a: seq<byte>, w: seq<byte>, w': seq<byte>, b: seq<byte>,
                       more: seq<byte>)
    requires Known(kind) && |a + w + b| <= MAX_PAYLOAD && |w'| == |w| <= 4 && w' != w
    ensures var sent := Packet(kind, requestId, a + w + b);
            var got := sent[..HEADER_SIZE] + (a + w' + b) + sent[HEADER_SIZE + |a + w + b|..];
            Decode(got + more) == ([ErrorReply(requestId, 5)] + Decode(more).0, Decode(more).1)
  {
    hide Decode, HeaderBytes, BeBytes, Crc.CrcValue;
    var crc := Crc.CrcValue(a + w + b);
    var sent, damaged := Packet(kind, requestId, a + w + b), Framed(kind, requestId, a + w' + b, crc);
    assert sent[..HEADER_SIZE] + (a + w' + b) + sent[HEADER_SIZE + |a + w + b|..] == damaged;
    Crc.BurstDetectedOnWire(a, w, w', b);
    FrameDecodes(kind, requestId, a + w' + b, crc, more);
  }

  /** A header with a wrong field is answered, for its request, with the code of the first wrong one in
      the order magic, version, length, type; decoding goes on behind it. */
  lemma HeaderRefused(h: Header, more: seq<byte>)
    requires h.magic != 0xFFAA_BBCC || h.version != 1 || h.length > 4096 || h.kind !in {1, 2, 4, 0x10}
    ensures var code :=
              if h.magic != 0xFFAA_BBCC then 2
              else if h.version != 1 then 3
              else if h.length > 4096 then 4 else 1;
            Decode(HeaderBytes(h) + more) == ([ErrorReply(h.requestId, code)] + Decode(more).0, Decode(more).1)
  {
    PacketHeader(h, more);
    assert (HeaderBytes(h) + more)[HEADER_SIZE..] == more;
  }
}

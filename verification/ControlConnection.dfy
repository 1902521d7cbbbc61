/** A control-plane connection in its own form: `read_stage` updating stage, byte count and message
    buffers in place, and the outgoing ring with `send_message_chunk` and `handle_client_writable`
    (unix-domain-socket-control-plane/gatewayd/server.h). */
module ControlConnection {
  import opened Bytes
  import C = Checksum
  import opened Frames
  import F = ControlFraming
  import FrameReader
  import opened Rings
  import S = ControlSender

  // ---- Receiving ----

  /** The recv that completes a frame, in terms of its three parts. */
  lemma FrameComplete(r: F.Reader, chunk: seq<byte>, header: seq<byte>, payload: seq<byte>, check: seq<byte>)
    requires F.Partial(r) && !r.closing && 0 < |chunk| <= F.Missing(r) && r.buf + chunk == header + payload + check
    requires |header| == C.HEADER_SIZE && F.Sound(header) && |payload| == F.Length(header) && |check| == 4
    ensures F.Absorb(r, chunk) == (F.IDLE, [F.Received(header, payload, C.Checksum(header, payload) == LeValue(check))])
  {
    hide C.Checksum, LeValue, F.Partial, F.Missing;
    var buf := r.buf + chunk;
    Parts(header, payload, check);
    assert buf == header + (payload + check);
    F.SameLength(header, payload + check);
  }

  /** A recv that leaves the checksum incomplete. */
  lemma FrameIncomplete(r: F.Reader, chunk: seq<byte>, header: seq<byte>, payload: seq<byte>, check: seq<byte>)
    requires F.Partial(r) && !r.closing && 0 < |chunk| <= F.Missing(r) && r.buf + chunk == header + payload + check
    requires |header| == C.HEADER_SIZE && F.Sound(header) && |payload| == F.Length(header) && |check| < 4
    ensures F.Absorb(r, chunk) == (F.Reader(header + payload + check, false), [])
  {
    hide F.Partial, F.Missing;
    assert r.buf + chunk == header + (payload + check);
    F.SameLength(header, payload + check);
  }

  lemma Parts(header: seq<byte>, payload: seq<byte>, check: seq<byte>)
    ensures var buf, n := header + payload + check, |header| + |payload|;
            && buf[..|header|] == header && buf[|header|..n] == payload && buf[n..n + |check|] == check
            && |buf| == n + |check|
  {
  }

  class Receiver {
    var stage: F.Step
    var bytesRead: nat
    const header: array<byte>
    const message: array<byte>
    const checksum: array<byte>
    var closing: bool
    var pendingTask: nat
    var packetsReceived: nat

    ghost predicate Valid()
      reads this, header, message, checksum
    {
      && header.Length == C.HEADER_SIZE && message.Length == C.MAX_PAYLOAD && checksum.Length == 4
      && header != message && message != checksum && header != checksum
      && match stage
         case AtHeader =>
           bytesRead < C.HEADER_SIZE || (bytesRead == C.HEADER_SIZE && closing && !F.Sound(header[..]))
         case AtPayload => F.Sound(header[..]) && bytesRead < F.Length(header[..])
         case AtChecksum => F.Sound(header[..]) && bytesRead < 4
    }

    /** The bytes of the current frame, gathered from the three buffers. */
    ghost function State(): (r: F.Reader)
      reads this, header, message, checksum
      requires Valid()
    {
      F.Reader(
        match stage
        case AtHeader => header[..bytesRead]
        case AtPayload => header[..] + message[..bytesRead]
        case AtChecksum => header[..] + message[..F.Length(header[..])] + checksum[..bytesRead],
        closing)
    }

    lemma StateFits()
      requires Valid()
      ensures F.Partial(State()) && (!closing ==> F.StageOf(State()) == stage)
      ensures !closing ==> F.Missing(State()) == Target() - bytesRead
    {
      if stage == F.AtHeader {
        if bytesRead == C.HEADER_SIZE { assert header[..bytesRead] == header[..]; }
      } else if stage == F.AtPayload {
        F.SameLength(header[..], message[..bytesRead]);
      } else {
        F.SameLength(header[..], message[..F.Length(header[..])] + checksum[..bytesRead]);
        assert State().buf == header[..] + (message[..F.Length(header[..])] + checksum[..bytesRead]);
      }
    }

    /** How many bytes the current stage takes in all. */
    function Target(): (n: nat)
      reads this, header, message, checksum
      requires Valid()
    {
      match stage
      case AtHeader => C.HEADER_SIZE
      case AtPayload => F.Length(header[..])
      case AtChecksum => 4
    }

    constructor ()
      ensures Valid() && State() == F.IDLE && pendingTask == packetsReceived == 0
      ensures fresh(header) && fresh(message) && fresh(checksum)
    {
      stage, bytesRead, closing, pendingTask, packetsReceived := F.AtHeader, 0, false, 0, 0;
      header := new byte[C.HEADER_SIZE];
      message := new byte[C.MAX_PAYLOAD];
      checksum := new byte[4];
    }

    /** The header is complete: choose the next stage, or give the connection up. */
    method EndHeader(ghost before: F.Reader, ghost chunk: seq<byte>)
      requires header.Length == C.HEADER_SIZE && message.Length == C.MAX_PAYLOAD && checksum.Length == 4
      requires header != message && message != checksum && header != checksum
      requires stage == F.AtHeader && bytesRead == C.HEADER_SIZE && !closing
      requires F.Partial(before) && !before.closing && 0 < |chunk| <= F.Missing(before)
      requires header[..] == before.buf + chunk
      modifies this`stage, this`bytesRead, this`closing
      ensures Valid() && (State(), []) == F.Absorb(before, chunk)
    {
      var length := F.Length(header[..]);
      if length < 0 || length > C.MAX_PAYLOAD {
        closing := true;
        assert header[..bytesRead] == header[..];
      } else {
        bytesRead := 0;
        stage := if length == 0 then F.AtChecksum else F.AtPayload;
        assert message[..0] == [] && checksum[..0] == [];
        assert State().buf == header[..];
      }
    }

    /** The checksum is complete: compare, count, and start over. */
    method EndChecksum(ghost before: F.Reader, ghost chunk: seq<byte>) returns (frame: F.Received)
      requires header.Length == C.HEADER_SIZE && message.Length == C.MAX_PAYLOAD && checksum.Length == 4
      requires header != message && message != checksum && header != checksum
      requires !closing && F.Sound(header[..])
      requires F.Partial(before) && !before.closing && 0 < |chunk| <= F.Missing(before)
      requires header[..] + message[..F.Length(header[..])] + checksum[..] == before.buf + chunk
      modifies this`stage, this`bytesRead, this`pendingTask, this`packetsReceived
      ensures Valid() && (State(), [frame]) == F.Absorb(before, chunk)
      ensures pendingTask == old(pendingTask) + (if frame.intact then 1 else 0)
      ensures packetsReceived == old(packetsReceived) + (if frame.intact then 1 else 0)
    {
      hide F.Absorb, F.Missing, C.Checksum, LeValue, F.Partial;
      var length := F.Length(header[..]);
      var computed := C.Calculate(header, message, length);
      var intact := computed == LeValue(checksum[..]);
      frame := F.Received(header[..], message[..length], intact);
      FrameComplete(before, chunk, header[..], message[..length], checksum[..]);
      bytesRead, stage := 0, F.AtHeader;
      assert header[..0] == [];
      if intact {
        pendingTask := pendingTask + 1;
        packetsReceived := packetsReceived + 1;
      }
    }

    /** What follows a recv of `chunk` into the buffer of the current stage. */
    method Absorb(n: nat, ghost before: F.Reader, ghost chunk: seq<byte>) returns (frames: seq<F.Received>)
      requires Valid() && !closing && State() == before && 0 < n == |chunk| <= Target() - bytesRead
      requires Current()[bytesRead..bytesRead + n] == chunk
      modifies this
      ensures Valid() && F.Partial(before) && n <= F.Missing(before) && (State(), frames) == F.Absorb(before, chunk)
      ensures pendingTask == old(pendingTask) + Intact(frames)
      ensures packetsReceived == old(packetsReceived) + Intact(frames)
    {
      StateFits();
      frames := [];
      bytesRead := bytesRead + n;
      match stage
      case AtHeader =>
        assert header[..bytesRead] == before.buf + chunk;
        if bytesRead == C.HEADER_SIZE {
          assert header[..bytesRead] == header[..];
          EndHeader(before, chunk);
        }
      case AtPayload =>
        EndPayload(before, chunk, n);
      case AtChecksum =>
        frames := GrowChecksum(before, chunk, n);
    }

    /** The checksum has grown by `n` bytes. */
    method GrowChecksum(ghost before: F.Reader, ghost chunk: seq<byte>, ghost n: nat) returns (frames: seq<F.Received>)
      requires header.Length == C.HEADER_SIZE && message.Length == C.MAX_PAYLOAD && checksum.Length == 4
      requires header != message && message != checksum && header != checksum
      requires stage == F.AtChecksum && !closing && F.Sound(header[..]) && 0 < n <= bytesRead <= 4
      requires F.Partial(before) && !before.closing && 0 < |chunk| == n <= F.Missing(before)
      requires before.buf == header[..] + message[..F.Length(header[..])] + checksum[..bytesRead - n]
      requires checksum[bytesRead - n..bytesRead] == chunk
      modifies this
      ensures Valid() && (State(), frames) == F.Absorb(before, chunk)
      ensures pendingTask == old(pendingTask) + Intact(frames)
      ensures packetsReceived == old(packetsReceived) + Intact(frames)
    {
      frames := [];
      ghost var front := header[..] + message[..F.Length(header[..])];
      assert checksum[..bytesRead] == checksum[..bytesRead - n] + chunk;
      assert before.buf + chunk == front + checksum[..bytesRead];
      hide F.Absorb, F.Missing, F.Partial;
      if bytesRead == 4 {
        assert checksum[..bytesRead] == checksum[..];
        var frame := EndChecksum(before, chunk);
        frames := [frame];
      } else {
        FrameIncomplete(before, chunk, header[..], message[..F.Length(header[..])], checksum[..bytesRead]);
      }
    }

    /** The payload has grown by `n` bytes: go on to the checksum if it is complete. */
    method EndPayload(ghost before: F.Reader, ghost chunk: seq<byte>, ghost n: nat)
      requires header.Length == C.HEADER_SIZE && message.Length == C.MAX_PAYLOAD && checksum.Length == 4
      requires header != message && message != checksum && header != checksum
      requires stage == F.AtPayload && !closing && F.Sound(header[..]) && 0 < n <= bytesRead <= F.Length(header[..])
      requires F.Partial(before) && !before.closing && 0 < |chunk| == n <= F.Missing(before)
      requires before.buf == header[..] + message[..bytesRead - n] && message[bytesRead - n..bytesRead] == chunk
      modifies this`stage, this`bytesRead
      ensures Valid() && (State(), []) == F.Absorb(before, chunk)
    {
      ghost var k := bytesRead;
      assert message[..k] == message[..k - n] + chunk;
      assert before.buf + chunk == header[..] + message[..k];
      F.SameLength(header[..], message[..k]);
      if bytesRead == F.Length(header[..]) {
        bytesRead, stage := 0, F.AtChecksum;
        assert checksum[..0] == [];
        assert State().buf == header[..] + message[..k];
      }
    }

    ghost function Current(): (buffer: seq<byte>)
      reads this, header, message, checksum
      requires Valid()
      ensures |buffer| >= Target()
    {
      match stage
      case AtHeader => header[..]
      case AtPayload => message[..]
      case AtChecksum => checksum[..]
    }

    /** recv into the buffer of the current stage. */
    method Recv(socket: FrameReader.Socket) returns (n: int, err: FrameReader.Errno)
      requires Valid() && !closing && Wellformed(socket.arrivals)
      modifies socket, header, message, checksum
      ensures Valid() && Wellformed(socket.arrivals) && State() == old(State()) && Target() == old(Target())
      ensures old(socket.arrivals) == [] ==> n == -1 && err == FrameReader.Eagain && socket.arrivals == []
      ensures old(socket.arrivals) != [] ==>
        match old(socket.arrivals)[0]
        case Segment(b) =>
          n == Min(|b|, Target() - bytesRead) && socket.arrivals == Frames.After(old(socket.arrivals), n) &&
          Current()[bytesRead..bytesRead + n] == b[..n]
        case Interrupted => n == -1 && err == FrameReader.Eintr && socket.arrivals == old(socket.arrivals)[1..]
        case WouldBlock => n == -1 && err == FrameReader.Eagain && socket.arrivals == old(socket.arrivals)[1..]
        case Failed => n == -1 && err == FrameReader.Other && socket.arrivals == old(socket.arrivals)[1..]
        case Closed => n == 0 && socket.arrivals == old(socket.arrivals)[1..]
    {
      hide Frames.After, Weight, Stream;
      if stage == F.AtHeader {
        n, err := socket.Recv(header, bytesRead, C.HEADER_SIZE - bytesRead);
        assert n > 0 ==> Current()[bytesRead..bytesRead + n] == header[bytesRead..bytesRead + n];
      } else if stage == F.AtPayload {
        n, err := socket.Recv(message, bytesRead, F.Length(header[..]) - bytesRead);
        assert n > 0 ==> Current()[bytesRead..bytesRead + n] == message[bytesRead..bytesRead + n];
      } else {
        n, err := socket.Recv(checksum, bytesRead, 4 - bytesRead);
        assert n > 0 ==> Current()[bytesRead..bytesRead + n] == checksum[bytesRead..bytesRead + n];
      }
    }

    /** One turn of the loop of `read_stage`. */
    method Turn(socket: FrameReader.Socket) returns (done: bool, code: int, frames: seq<F.Received>)
      requires Valid() && !closing && Wellformed(socket.arrivals)
      modifies this, socket, header, message, checksum
      ensures Valid() && Wellformed(socket.arrivals)
      ensures pendingTask == old(pendingTask) + (if done && code == 1 then 1 else 0)
      ensures packetsReceived == old(packetsReceived) + (if done && code == 1 then 1 else 0)
      ensures F.Partial(old(State())) && F.Partial(State())
      ensures done ==>
                F.Reading(State(), socket.arrivals, code, frames) == F.ReadStage(old(State()), old(socket.arrivals))
      ensures !done ==> !closing && Weight(socket.arrivals) < old(Weight(socket.arrivals)) &&
                        F.ReadStage(State(), socket.arrivals) == F.ReadStage(old(State()), old(socket.arrivals))
    {
      hide F.Absorb, F.Missing, F.Partial, Frames.After, Weight, F.ReadStage;
      ghost var r, arrivals := State(), socket.arrivals;
      StateFits();
      F.ReadStageStep(r, arrivals);
      var target, had := Target(), bytesRead;
      var n, err := Recv(socket);
      if n < 0 {
        if err == FrameReader.Other { closing := true; }
        return err != FrameReader.Eintr, if err == FrameReader.Other then -1 else 0, [];
      }
      if n == 0 {
        closing := true;
        return true, -1, [];
      }
      frames := Absorb(n, r, arrivals[0].bytes[..n]);
      if frames != [] {
        return true, if frames[0].intact then 1 else 2, frames;
      }
      if closing {
        return true, -1, [];
      }
      return had + n < target, 0, [];
    }

    /** Returns the code of `read_stage` and the frame it completed. */
    method ReadStage(socket: FrameReader.Socket) returns (code: int, frames: seq<F.Received>)
      requires Valid() && Wellformed(socket.arrivals)
      modifies this, socket, header, message, checksum
      ensures Valid() && Wellformed(socket.arrivals) && F.Partial(old(State())) && F.Partial(State())
      ensures F.Reading(State(), socket.arrivals, code, frames) == F.ReadStage(old(State()), old(socket.arrivals))
      ensures pendingTask == old(pendingTask) + (if code == 1 then 1 else 0)
      ensures packetsReceived == old(packetsReceived) + (if code == 1 then 1 else 0)
    {
      StateFits();
      if closing { return -1, []; }
      hide F.Partial, Weight, F.ReadStage;
      while true
        invariant Valid() && Wellformed(socket.arrivals) && !closing && F.Partial(State())
        invariant pendingTask == old(pendingTask) && packetsReceived == old(packetsReceived)
        invariant F.ReadStage(State(), socket.arrivals) == F.ReadStage(old(State()), old(socket.arrivals))
        decreases Weight(socket.arrivals)
      {
        var done;
        done, code, frames := Turn(socket);
        if done { return; }
      }
    }
  }

  function Intact(frames: seq<F.Received>): (n: nat) { if frames != [] && frames[0].intact then 1 else 0 }

  // ---- Building and sending a message ----

  method StringLength(s: seq<byte>) returns (n: nat)
    ensures n == |CString(s)|
  {
    n := 0;
    assert s[0..] == s;
    while n < |s| && s[n] != 0
      invariant n <= |s| && n + |CString(s[n..])| == |CString(s)|
    {
      assert s[n..][1..] == s[n + 1..];
      n := n + 1;
    }
  }

  method Clear(buffer: array<byte>)
    modifies buffer
    ensures buffer[..] == F.Zeros(buffer.Length)
  {
    for i := 0 to buffer.Length
      invariant forall k :: 0 <= k < i ==> buffer[k] == 0
    {
      buffer[i] := 0;
    }
  }

  /** The five fields of the header structure, stored over cleared memory. */
  method StoreHeader(header: array<byte>, cmd: u32, pri: u32, number: u64, length: nat)
    requires header.Length == C.HEADER_SIZE
    modifies header
    ensures header[..] == LeBytes(cmd, 4) + LeBytes(pri, 4) + LeBytes(number, 8) + LeBytes(length, 4) + [0, 0, 0, 0]
  {
    hide LeBytes;
    Clear(header);
    var a, b, c, d := LeBytes(cmd, 4), LeBytes(pri, 4), LeBytes(number, 8), LeBytes(length, 4);
    ghost var z := header[..];
    Store(header, 0, a);
    assert header[..] == a + z[4..];
    Store(header, 4, b);
    assert header[..] == a + b + z[8..];
    Store(header, 8, c);
    assert header[..] == a + b + c + z[16..];
    Store(header, 16, d);
    assert header[..] == a + b + c + d + z[20..];
    assert z[20..] == [0, 0, 0, 0];
  }

  /** `build_message`: header, payload with its NUL, and checksum of what `Build` says. */
  method BuildMessage(payload: seq<byte>, cmd: u32, pri: u32, number: u64, header: array<byte>, message: array<byte>)
    returns (checksum: nat)
    requires header.Length == C.HEADER_SIZE && message.Length == C.MAX_PAYLOAD && header != message
    modifies header, message
    ensures var m := F.Build(payload, cmd, pri, number);
            && header[..] == F.Header(m) && message[..] == m.text + F.Zeros(C.MAX_PAYLOAD - |m.text|)
            && F.Wire(m) == header[..] + message[..|m.text|] + LeBytes(checksum, 4)
  {
    hide LeBytes, C.Checksum;
    var length := StringLength(payload);
    if length >= C.MAX_PAYLOAD { length := C.MAX_PAYLOAD - 1; }
    ghost var m := F.Build(payload, cmd, pri, number);
    StoreHeader(header, cmd, pri, number, length);
    Clear(message);
    Store(message, 0, payload[..length]);
    assert payload[..length] == m.text;
    assert message[..] == m.text + F.Zeros(C.MAX_PAYLOAD - length);
    checksum := C.Calculate(header, message, length);
    assert message[..length] == m.text;
  }

  /** `send_framed_message`: 0 exactly when the whole frame has been taken; otherwise a part of it,
      and nothing else, may have been. */
  method SendFramed(pipe: Pipe, wire: seq<byte>) returns (rc: int)
    modifies pipe
    ensures old(pipe.out) <= pipe.out <= old(pipe.out) + wire
    ensures rc == 0 <==> pipe.out == old(pipe.out) + wire
  {
    var total := 0;
    while total < |wire|
      invariant total <= |wire| && pipe.out == old(pipe.out) + wire[..total]
      decreases |pipe.results|, |wire| - total
    {
      var n, interrupted, again := pipe.Send(wire[total..]);
      if n == -1 {
        if interrupted { continue; }
        return -1;
      }
      if n == 0 { return 1; }
      assert wire[..total + n] == wire[..total] + wire[total..][..n];
      total := total + n;
    }
    assert wire[..total] == wire;
    return 0;
  }

  /** The client's `send_thread`, over the messages it takes from its queue: it stops when the
      connection is closed, and goes on after any other error, counting that message as sent. What
      goes out is the frames of all the messages exactly when every call returned 0. */
  method SendThread(pipe: Pipe, ms: seq<F.Message>) returns (packetsSent: nat, shut: bool, codes: seq<int>)
    modifies pipe
    ensures pipe.out == old(pipe.out) + F.Wires(ms) <==> |codes| == |ms| && AllZero(codes)
    ensures AllZero(codes) ==> packetsSent == |ms| && !shut
    ensures packetsSent == |codes| - (if shut then 1 else 0)
    ensures shut <==> codes != [] && codes[|codes| - 1] == 1
  {
    hide F.Wire, F.Wires, AllZero;
    packetsSent, shut, codes := 0, false, [];
    NoWires();
    var i := 0;
    while i < |ms|
      invariant i == packetsSent == |codes| <= |ms| && (codes != [] ==> codes[i - 1] != 1)
      invariant AllZero(codes) ==> pipe.out == old(pipe.out) + F.Wires(ms[..i])
      invariant !AllZero(codes) ==> |pipe.out| < |old(pipe.out)| + |F.Wires(ms[..i])|
      invariant |pipe.out| <= |old(pipe.out)| + |F.Wires(ms[..i])|
    {
      S.WiresAppend(ms[..i], ms[i]);
      assert ms[..i + 1] == ms[..i] + [ms[i]];
      ghost var before := pipe.out;
      var rc := SendFramed(pipe, F.Wire(ms[i]));
      assert rc != 0 ==> |pipe.out| < |before + F.Wire(ms[i])|;
      ZeroSoFar(codes, rc);
      codes := codes + [rc];
      i := i + 1;
      if rc == 1 {
        shut := true;
        WiresUpTo(ms, i);
        return;
      }
      packetsSent := packetsSent + 1;
    }
    assert ms[..i] == ms;
  }

  predicate AllZero(codes: seq<int>) { forall k :: 0 <= k < |codes| ==> codes[k] == 0 }

  lemma ZeroSoFar(codes: seq<int>, rc: int)
    ensures AllZero(codes + [rc]) <==> AllZero(codes) && rc == 0
  {
    assert (codes + [rc])[|codes|] == rc;
    if AllZero(codes + [rc]) {
      forall k | 0 <= k < |codes| ensures codes[k] == 0 { assert (codes + [rc])[k] == 0; }
    }
  }

  lemma NoWires()
    ensures F.Wires([]) == [] && AllZero([])
  {
  }

  lemma {:induction false} WiresUpTo(ms: seq<F.Message>, i: nat)
    requires i <= |ms|
    ensures |F.Wires(ms[..i])| <= |F.Wires(ms)|
    decreases |ms| - i
  {
    hide F.Wire, F.Wires;
    if i == |ms| {
      assert ms[..i] == ms;
    } else {
      assert ms[..i + 1] == ms[..i] + [ms[i]];
      S.WiresAppend(ms[..i], ms[i]);
      WiresUpTo(ms, i + 1);
    }
  }

  // ---- The outgoing ring ----

  /** The kernel's side of the sending direction: what send(2) will answer, and what it has taken. */
  class Pipe {
    var results: seq<S.Result>
    var out: seq<byte>

    constructor (results: seq<S.Result>)
      ensures this.results == results && out == []
    {
      this.results, out := results, [];
    }

    /** send(2); a block is returned as -1 with `again`, an interruption with `interrupted`. */
    method Send(bytes: seq<byte>) returns (n: int, interrupted: bool, again: bool)
      requires bytes != []
      modifies this
      ensures old(results) == [] ==> n == -1 && !interrupted && again && unchanged(this)
      ensures old(results) != [] ==> results == old(results)[1..]
      ensures old(results) != [] ==>
        match old(results)[0]
        case Accepted(k) => n == Min(k, |bytes|) && out == old(out) + bytes[..n]
        case Interrupted => n == -1 && interrupted && out == old(out)
        case WouldBlock => n == -1 && !interrupted && again && out == old(out)
        case Broken => n == -1 && !interrupted && !again && out == old(out)
    {
      n, interrupted, again := -1, false, true;
      if results != [] {
        var r := results[0];
        results := results[1..];
        match r
        case Accepted(k) =>
          n := Min(k, |bytes|);
          out := out + bytes[..n];
        case Interrupted => interrupted := true;
        case WouldBlock => again := true;
        case Broken => again := false;
      }
    }
  }

  class Outbox {
    const ring: Ring<S.Outgoing>
    var closing: bool
    var packetsSent: nat

    ghost predicate Valid()
      reads this, ring, ring.slots
    {
      && ring.Valid() && ring.slots.Length == S.RING
      && (forall k :: 0 <= k < |ring.Contents()| ==> ring.Contents()[k].sent <= |F.Wire(ring.Contents()[k].msg)|)
    }

    /** The sender the ring stands for, given what the kernel has taken and what was asked and done. */
    ghost function State(out: seq<byte>, asked: seq<F.Message>, done: seq<F.Message>): (s: S.Sender)
      reads this, ring, ring.slots
      requires Valid()
    {
      S.Sender(ring.Contents(), out, closing, asked, done)
    }

    constructor ()
      ensures Valid() && State([], [], []) == S.START && fresh(ring) && fresh(ring.slots)
    {
      ring := new Ring<S.Outgoing>(S.RING);
      closing, packetsSent := false, 0;
    }

    /** `queue_client`. */
    method Queue(m: F.Message, ghost out: seq<byte>, ghost asked: seq<F.Message>, ghost done: seq<F.Message>)
      requires Valid()
      modifies this, ring, ring.slots
      ensures Valid() && State(out, asked + [m], done) == S.Apply(old(State(out, asked, done)), S.Queue(m))
      ensures packetsSent == old(packetsSent)
    {
      ring.Queue(S.Outgoing(m, 0));
    }

    /** The loop of `send_message_chunk` over the bytes of the entry in front. */
    method PushBytes(pipe: Pipe, wire: seq<byte>, from: nat) returns (offset: nat, code: int)
      requires from <= |wire|
      modifies pipe
      ensures S.Pushing(offset, pipe.results, code) == S.Push(wire, from, old(pipe.results))
      ensures from <= offset <= |wire| && pipe.out == old(pipe.out) + wire[from..offset]
    {
      offset := from;
      while offset < |wire|
        invariant from <= offset <= |wire| && pipe.out == old(pipe.out) + wire[from..offset]
        invariant S.Push(wire, offset, pipe.results) == S.Push(wire, from, old(pipe.results))
        decreases |pipe.results|, |wire| - offset
      {
        ghost var before := pipe.out;
        var n, interrupted, again := pipe.Send(wire[offset..]);
        if n == -1 {
          if interrupted { continue; }
          return offset, if again then 0 else -1;
        }
        if n == 0 { return offset, -1; }
        assert wire[from..offset + n] == wire[from..offset] + wire[offset..][..n];
        offset := offset + n;
      }
      return offset, 1;
    }

    /** `handle_client_writable`. */
    method HandleWritable(pipe: Pipe, ghost asked: seq<F.Message>, ghost done: seq<F.Message>)
      returns (ghost done': seq<F.Message>)
      requires Valid()
      modifies this, ring, ring.slots, pipe
      ensures Valid()
      ensures State(pipe.out, asked, done') == S.Apply(old(State(pipe.out, asked, done)), S.Writable(old(pipe.results)))
      ensures |done'| - |done| == packetsSent - old(packetsSent)
    {
      done' := done;
      if ring.count == 0 { return; }
      hide F.Wire, S.Push;
      var front := ring.slots[ring.tail];
      assert front == ring.Contents()[0];
      var wire := F.Wire(front.msg);
      var offset, code := PushBytes(pipe, wire, front.sent);
      if code == 1 {
        ring.Advance();
        packetsSent := packetsSent + 1;
        done' := done + [front.msg];
      } else if code == 0 {
        ghost var q := ring.Contents();
        ring.slots[ring.tail] := S.Outgoing(front.msg, offset);
        assert ring.Contents() == q[0 := S.Outgoing(front.msg, offset)];
      } else {
        closing := true;
        ring.Advance();
      }
    }
  }
}

/** The sending side of a control-plane connection: `queue_client`, `send_message_chunk` and
    `handle_client_writable` of unix-domain-socket-control-plane/gatewayd/server.h, over every
    pattern of partial, blocked, interrupted and failing sends. */
module ControlSender {
  import opened Bytes
  import opened ClientFraming
  import opened ControlFraming
  import Frames
  import opened Lists
  import opened Rings

  const RING: nat := 16

  datatype Outgoing = Outgoing(msg: Message, sent: nat)

  /** What one send(2) does: take some bytes, or return an interruption, a block, an error or 0. */
  datatype Result = Accepted(n: nat) | Interrupted | WouldBlock | Broken

  // ---- One call of send_message_chunk on the entry in front ----

  datatype Pushing = Pushing(offset: nat, results: seq<Result>, code: int)

  function Push(wire: seq<byte>, offset: nat, results: seq<Result>): (p: Pushing)
    requires offset <= |wire|
    ensures offset <= p.offset <= |wire| && (p.code == 1 <==> p.offset == |wire|) && -1 <= p.code <= 1
    decreases |results|
  {
    if offset == |wire| then Pushing(offset, results, 1)
    else if results == [] then Pushing(offset, results, 0)
    else match results[0]
      case Interrupted => Push(wire, offset, results[1..])
      case WouldBlock => Pushing(offset, results[1..], 0)
      case Broken => Pushing(offset, results[1..], -1)
      case Accepted(n) =>
        if n == 0 then Pushing(offset, results[1..], -1)
        else Push(wire, offset + Min(n, |wire| - offset), results[1..])
  }

  // ---- The connection ----

  /** `out` is everything handed to the kernel. History: the messages queued and those sent whole. */
  datatype Sender = Sender(queue: seq<Outgoing>, out: seq<byte>, closing: bool, asked: seq<Message>, done: seq<Message>)

  const START: Sender := Sender([], [], false, [], [])

  datatype Op = Queue(m: Message) | Writable(results: seq<Result>)

  predicate Wellset(s: Sender) { forall k :: 0 <= k < |s.queue| ==> s.queue[k].sent <= |Wire(s.queue[k].msg)| }

  function Pushed1(s: Sender, results: seq<Result>): (p: Pushing)
    requires Wellset(s) && s.queue != []
  {
    Push(Wire(s.queue[0].msg), s.queue[0].sent, results)
  }

  function Apply(s: Sender, op: Op): (s': Sender)
    requires Wellset(s)
    ensures Wellset(s')
  {
    match op
    case Queue(m) => s.(queue := Pushed(s.queue, Outgoing(m, 0), RING), asked := s.asked + [m])
    case Writable(results) =>
      if s.queue == [] then s
      else
        var m, at := s.queue[0].msg, s.queue[0].sent;
        var p := Pushed1(s, results);
        var s1 := s.(out := s.out + Wire(m)[at..p.offset]);
        if p.code == 1 then s1.(queue := s.queue[1..], done := s.done + [m])
        else if p.code == 0 then s1.(queue := s.queue[0 := Outgoing(m, p.offset)])
        else s1.(queue := s.queue[1..], closing := true)
  }

  /** The bytes of the front entry already sent. */
  function Begun(s: Sender): (b: seq<byte>)
    requires Wellset(s)
  {
    if s.queue == [] then [] else Wire(s.queue[0].msg)[..s.queue[0].sent]
  }

  /** What has been sent is whole frames followed by the begun part of the one in front. */
  predicate Aligned(s: Sender)
  {
    && Wellset(s) && |s.queue| <= RING && s.out == Wires(s.done) + Begun(s)
    && (s.queue != [] ==> s.queue[0].sent < |Wire(s.queue[0].msg)|)
    && (forall k :: 1 <= k < |s.queue| ==> s.queue[k].sent == 0)
  }

  function Messages(q: seq<Outgoing>): (ms: seq<Message>)
  {
    seq(|q|, i requires 0 <= i < |q| => q[i].msg)
  }

  /** Nothing has been given up: what was queued is what was sent and what is still queued. */
  predicate Unlost(s: Sender) { s.asked == s.done + Messages(s.queue) }

  lemma {:induction false} WiresAppend(ms: seq<Message>, m: Message)
    ensures Wires(ms + [m]) == Wires(ms) + Wire(m)
    decreases |ms|
  {
    if ms == [] {
      assert (ms + [m])[1..] == [];
    } else {
      assert (ms + [m])[1..] == ms[1..] + [m];
      WiresAppend(ms[1..], m);
      assert Wire(ms[0]) + (Wires(ms[1..]) + Wire(m)) == Wire(ms[0]) + Wires(ms[1..]) + Wire(m);
    }
  }

  lemma WireNonEmpty(m: Message)
    ensures |Wire(m)| == 28 + |m.text|
  {
  }

  /** Queueing keeps the frames aligned exactly when it does not push out an entry that has been
      sent in part. */
  lemma QueueAlignment(s: Sender, m: Message)
    requires Aligned(s)
    ensures Aligned(Apply(s, Queue(m))) <==> !(|s.queue| == RING && s.queue[0].sent > 0)
  {
    hide Wires, Wire;
    WireNonEmpty(m);
    var s' := Apply(s, Queue(m));
    if s.queue == [] {
      assert Begun(s') == [] == Begun(s);
    } else if |s.queue| == RING {
      assert s'.queue[0] == s.queue[1] && s'.queue[0].sent == 0;
      WireNonEmpty(s'.queue[0].msg);
      assert Begun(s') == [] && Wires(s.done) + [] == Wires(s.done);
      assert |Begun(s)| == s.queue[0].sent;
    } else {
      assert s'.queue[0] == s.queue[0];
    }
  }

  /** Every message queued is sent or kept exactly when the ring has room. */
  lemma QueueLosses(s: Sender, m: Message)
    requires Aligned(s) && Unlost(s)
    ensures Unlost(Apply(s, Queue(m))) <==> |s.queue| < RING
  {
    var s' := Apply(s, Queue(m));
    if |s.queue| == RING {
      assert |s'.asked| == |s.asked| + 1 && |s.done + Messages(s'.queue)| == |s.asked|;
    } else {
      assert Messages(s'.queue) == Messages(s.queue) + [m];
      assert s.done + (Messages(s.queue) + [m]) == s.done + Messages(s.queue) + [m];
    }
  }

  /** The bytes out after a call, joined up. */
  lemma OutAfter(s: Sender, results: seq<Result>)
    requires Aligned(s) && s.queue != []
    ensures var p := Pushed1(s, results);
            Apply(s, Writable(results)).out == Wires(s.done) + Wire(s.queue[0].msg)[..p.offset]
  {
    hide Wire, Wires, Push;
    var w, at, p := Wire(s.queue[0].msg), s.queue[0].sent, Pushed1(s, results);
    assert w[..p.offset] == w[..at] + w[at..p.offset];
    assert Wires(s.done) + (w[..at] + w[at..p.offset]) == Wires(s.done) + w[..at] + w[at..p.offset];
  }

  lemma FrontUntouched(s: Sender)
    requires Aligned(s) && s.queue != []
    ensures var rest := s.(queue := s.queue[1..]);
            Begun(rest) == [] && (rest.queue != [] ==> rest.queue[0].sent < |Wire(rest.queue[0].msg)|)
  {
    hide Wires, Wire;
    if |s.queue| > 1 { WireNonEmpty(s.queue[1].msg); }
  }

  lemma WritableUnlost(s: Sender, results: seq<Result>)
    requires Wellset(s) && Unlost(s) && (s.queue == [] || Pushed1(s, results).code >= 0)
    ensures Unlost(Apply(s, Writable(results)))
  {
    hide Wire, Wires, Push;
    if s.queue != [] {
      var m, s' := s.queue[0].msg, Apply(s, Writable(results));
      if Pushed1(s, results).code == 1 {
        assert Messages(s.queue) == [m] + Messages(s'.queue);
        assert s.done + ([m] + Messages(s'.queue)) == s.done + [m] + Messages(s'.queue);
      } else {
        assert Messages(s'.queue) == Messages(s.queue);
      }
    }
  }

  /** A call that ends without an error keeps the frames aligned, whatever part it got through. */
  lemma WritableAligned(s: Sender, results: seq<Result>)
    requires Aligned(s) && (s.queue == [] || Pushed1(s, results).code >= 0)
    ensures Aligned(Apply(s, Writable(results)))
  {
    if s.queue != [] {
      hide Wire, Wires, Push;
      var m, p := s.queue[0].msg, Pushed1(s, results);
      OutAfter(s, results);
      if p.code == 1 {
        WiresAppend(s.done, m);
        FrontUntouched(s);
        assert Wire(m)[..p.offset] == Wire(m);
      }
    }
  }

  /** No send takes a byte before one blocks or fails. */
  predicate NothingTaken(results: seq<Result>)
    decreases |results|
  {
    results == [] || results[0] in {WouldBlock, Broken, Accepted(0)} ||
    (results[0] == Interrupted && NothingTaken(results[1..]))
  }

  lemma {:induction false} PushesNothing(wire: seq<byte>, offset: nat, results: seq<Result>)
    requires offset < |wire|
    ensures Push(wire, offset, results).offset == offset <==> NothingTaken(results)
    decreases |results|
  {
    if results != [] && results[0] == Interrupted { PushesNothing(wire, offset, results[1..]); }
  }

  /** A failed send keeps the frames aligned exactly when no byte of the frame had gone out before the
      call, and none goes out in it. */
  lemma FailureAlignment(s: Sender, results: seq<Result>)
    requires Aligned(s) && s.queue != [] && Pushed1(s, results).code < 0
    ensures Aligned(Apply(s, Writable(results))) <==> s.queue[0].sent == 0 && NothingTaken(results)
    ensures Apply(s, Writable(results)).closing
  {
    var w, p := Wire(s.queue[0].msg), Pushed1(s, results);
    PushesNothing(w, s.queue[0].sent, results);
    hide Wire, Wires, Push;
    OutAfter(s, results);
    FrontUntouched(s);
    assert Wires(s.done) + [] == Wires(s.done) && |w[..p.offset]| == p.offset;
  }

  // ---- Runs ----

  ghost predicate Run(ss: seq<Sender>, ops: seq<Op>)
  {
    && |ss| == |ops| + 1 && ss[0] == START
    && (forall i :: 0 <= i < |ops| ==> Wellset(ss[i]) && ss[i + 1] == Apply(ss[i], ops[i]))
  }

  /** The step does not push a partly sent frame out of a full ring, nor does it fail after a part of
      a frame has been sent. */
  predicate Careful(s: Sender, op: Op)
    requires Wellset(s)
  {
    match op
    case Queue(m) => |s.queue| < RING || s.queue[0].sent == 0
    case Writable(results) =>
      s.queue == [] || Pushed1(s, results).code >= 0 || (s.queue[0].sent == 0 && NothingTaken(results))
  }

  lemma StepAlignment(s: Sender, op: Op)
    requires Aligned(s)
    ensures Aligned(Apply(s, op)) <==> Careful(s, op)
  {
    hide Wire, Wires, Push, NothingTaken;
    match op
    case Queue(m) => QueueAlignment(s, m);
    case Writable(results) =>
      if s.queue == [] || Pushed1(s, results).code >= 0 {
        WritableAligned(s, results);
      } else {
        FailureAlignment(s, results);
      }
  }

  ghost predicate CarefulUpTo(ss: seq<Sender>, ops: seq<Op>, n: nat)
    requires Run(ss, ops) && n <= |ops|
  {
    forall i :: 0 <= i < n ==> Careful(ss[i], ops[i])
  }

  lemma {:induction false} CarefulAligned(ss: seq<Sender>, ops: seq<Op>, i: nat)
    requires Run(ss, ops) && i < |ss| && CarefulUpTo(ss, ops, i)
    ensures Aligned(ss[i])
    decreases i
  {
    hide Wire, Apply, Careful;
    if i > 0 {
      CarefulAligned(ss, ops, i - 1);
      StepAlignment(ss[i - 1], ops[i - 1]);
    }
  }

  /** In any run from the start, the wire is aligned in every state exactly when every step is
      careful. */
  lemma AlignedRun(ss: seq<Sender>, ops: seq<Op>)
    requires Run(ss, ops)
    ensures (forall i :: 0 <= i < |ss| ==> Aligned(ss[i])) <==> CarefulUpTo(ss, ops, |ops|)
  {
    hide Wire, Apply, Careful, Aligned;
    if forall i :: 0 <= i < |ss| ==> Aligned(ss[i]) {
      forall i | 0 <= i < |ops| ensures Careful(ss[i], ops[i]) {
        assert Aligned(ss[i]) && Aligned(ss[i + 1]);
        StepAlignment(ss[i], ops[i]);
      }
    }
    if CarefulUpTo(ss, ops, |ops|) {
      forall i | 0 <= i < |ss| ensures Aligned(ss[i]) { CarefulAligned(ss, ops, i); }
    }
  }

  /** What was sent whole and what is queued are of the messages asked for, in order. */
  predicate InOrder(s: Sender) { Within(s.done + Messages(s.queue), s.asked) }

  lemma KeepsOrder(s: Sender, op: Op)
    requires Wellset(s) && InOrder(s)
    ensures InOrder(Apply(s, op))
  {
    hide Wire, Push, Within;
    var s', ms := Apply(s, op), Messages(s.queue);
    match op
    case Queue(m) =>
      WithinAppend(s.done + ms, s.asked, m);
      if |s.queue| == RING {
        assert s.done + ms + [m] == s.done + [ms[0]] + (ms[1..] + [m]);
        WithinDrop(s.done, ms[0], ms[1..] + [m], s.asked + [m]);
        assert Messages(s'.queue) == ms[1..] + [m];
      } else {
        assert Messages(s'.queue) == ms + [m] && s.done + (ms + [m]) == s.done + ms + [m];
      }
    case Writable(results) =>
      if s.queue != [] {
        var code := Pushed1(s, results).code;
        if code == 0 {
          assert Messages(s'.queue) == ms;
        } else {
          assert Messages(s'.queue) == ms[1..];
          assert s.done + ms == s.done + [ms[0]] + ms[1..];
          if code < 0 { WithinDrop(s.done, ms[0], ms[1..], s.asked); }
        }
      }
  }

  ghost predicate Fits(ops: seq<Op>)
  {
    forall i :: 0 <= i < |ops| && ops[i].Queue? ==> |ops[i].m.text| <= Checksum.MAX_PAYLOAD
  }

  lemma {:induction false} EveryOrder(ss: seq<Sender>, ops: seq<Op>, i: nat)
    requires Run(ss, ops) && Fits(ops) && i < |ss|
    ensures InOrder(ss[i]) && Fitting(ss[i].asked) && (i < |ops| ==> Wellset(ss[i]))
    decreases i
  {
    hide Wire, Push;
    if i > 0 {
      EveryOrder(ss, ops, i - 1);
      hide InOrder;
      KeepsOrder(ss[i - 1], ops[i - 1]);
    }
  }

  /** From one end to the other: under any partial, blocked and interrupted sends, drops from a full
      ring and failed sends, as long as every step is careful, and however the bytes are split on
      their way, the client gets exactly the messages sent whole, each intact, in the order in which
      they were queued. Without a drop or failure these are the first of those queued, and all of
      them once the ring is empty. */
  lemma RoundTrip(ss: seq<Sender>, ops: seq<Op>, i: nat, arrivals: seq<Frames.Arrival>)
    requires Run(ss, ops) && Fits(ops) && i < |ss| && CarefulUpTo(ss, ops, i)
    requires Frames.Wellformed(arrivals) && Frames.Stream(arrivals) == ss[i].out
    ensures ClientCollect(IDLE, arrivals).frames == Expected(ss[i].done)
    ensures Within(ss[i].done, ss[i].asked)
    ensures SmoothRun(ss, ops) ==>
              ss[i].done <= ss[i].asked && (ss[i].queue == [] ==> ss[i].done == ss[i].asked)
  {
    var s := ss[i];
    CarefulAligned(ss, ops, i);
    EveryOrder(ss, ops, i);
    WithinPrefix(s.done, Messages(s.queue), s.asked);
    if SmoothRun(ss, ops) { EveryState(ss, ops, i); }
    FitsToo(s);
    hide Wire, Wires, Extract, ClientCollect, Within, Run, SmoothRun, CarefulUpTo;
    BegunWaits(s);
    WiresExtract(s.done, Begun(s));
    ClientSplittingIrrelevant(IDLE, arrivals);
    assert IDLE.buf + s.out == s.out;
  }

  lemma FitsToo(s: Sender)
    requires Wellset(s) && InOrder(s) && Fitting(s.asked)
    ensures Fitting(s.done) && (s.queue != [] ==> |s.queue[0].msg.text| <= Checksum.MAX_PAYLOAD)
  {
    hide Wire, Within;
    var all := s.done + Messages(s.queue);
    forall k | 0 <= k < |all| ensures |all[k].text| <= Checksum.MAX_PAYLOAD { WithinMember(all, s.asked, k); }
    forall k | 0 <= k < |s.done| ensures |s.done[k].text| <= Checksum.MAX_PAYLOAD { assert s.done[k] == all[k]; }
    if s.queue != [] { assert s.queue[0].msg == all[|s.done|]; }
  }

  /** The step neither overflows the ring nor meets a failing send. */
  predicate Smooth(s: Sender, op: Op)
    requires Wellset(s)
  {
    match op
    case Queue(m) => |s.queue| < RING && |m.text| <= Checksum.MAX_PAYLOAD
    case Writable(results) => s.queue == [] || Pushed1(s, results).code >= 0
  }

  ghost predicate SmoothRun(ss: seq<Sender>, ops: seq<Op>)
  {
    && |ss| == |ops| + 1 && ss[0] == START
    && (forall i :: 0 <= i < |ops| ==> Wellset(ss[i]) && Smooth(ss[i], ops[i]) && ss[i + 1] == Apply(ss[i], ops[i]))
  }

  lemma {:induction false} EveryState(ss: seq<Sender>, ops: seq<Op>, i: nat)
    requires SmoothRun(ss, ops) && i < |ss|
    ensures Aligned(ss[i]) && Unlost(ss[i]) && Fitting(ss[i].asked)
    decreases i
  {
    hide Wire;
    if i > 0 {
      EveryState(ss, ops, i - 1);
      hide Apply, Aligned, Unlost;
      var s, op := ss[i - 1], ops[i - 1];
      match op
      case Queue(m) =>
        QueueAlignment(s, m);
        QueueLosses(s, m);
        AskedGrows(s, m);
      case Writable(results) =>
        WritableAligned(s, results);
        WritableUnlost(s, results);
        AskedSame(s, results);
    }
  }

  lemma AskedGrows(s: Sender, m: Message)
    requires Wellset(s)
    ensures Apply(s, Queue(m)).asked == s.asked + [m]
  {
  }

  lemma AskedSame(s: Sender, results: seq<Result>)
    requires Wellset(s)
    ensures Apply(s, Writable(results)).asked == s.asked
  {
  }

  lemma BegunWaits(s: Sender)
    requires Aligned(s) && (s.queue != [] ==> |s.queue[0].msg.text| <= Checksum.MAX_PAYLOAD)
    ensures Extract(Begun(s)).frames == []
  {
    if s.queue != [] { PrefixWaits(s.queue[0].msg, s.queue[0].sent); }
  }

  // ---- A run that overflows ----

  /** The sender after `n` messages have been queued and nothing sent. */
  function Loaded(m: Message, n: nat): (s: Sender)
  {
    Sender(seq(n, _ => Outgoing(m, 0)), [], false, seq(n, _ => m), [])
  }

  lemma LoadedStep(m: Message, n: nat)
    requires n < RING
    ensures Wellset(Loaded(m, n)) && Apply(Loaded(m, n), Queue(m)) == Loaded(m, n + 1)
  {
    hide Wire;
    assert seq(n, _ => Outgoing(m, 0)) + [Outgoing(m, 0)] == seq(n + 1, _ => Outgoing(m, 0));
    assert seq(n, _ => m) + [m] == seq(n + 1, _ => m);
  }

  /** One byte of the first of sixteen frames gets through. */
  function Stuck(m: Message): (s: Sender)
  {
    Loaded(m, RING).(queue := Loaded(m, RING).queue[0 := Outgoing(m, 1)], out := Wire(m)[..1])
  }

  lemma StuckStep(m: Message)
    ensures Wellset(Loaded(m, RING)) && Smooth(Loaded(m, RING), Writable([Accepted(1), WouldBlock]))
    ensures Apply(Loaded(m, RING), Writable([Accepted(1), WouldBlock])) == Stuck(m)
  {
    hide Wire;
    WireNonEmpty(m);
    var s, results := Loaded(m, RING), [Accepted(1), WouldBlock];
    assert results[1..] == [WouldBlock] && [WouldBlock][1..] == [];
    assert Push(Wire(m), 1, [WouldBlock]) == Pushing(1, [], 0);
    assert Pushed1(s, results) == Pushing(1, [], 0);
    assert [] + Wire(m)[0..1] == Wire(m)[..1];
  }

  /** Sixteen messages queued and one byte of the first sent, all without an overflow or a failure:
      one more message leaves that byte on the wire with nothing to complete its frame. */
  lemma OverflowBreaksAlignment(m: Message) returns (ss: seq<Sender>, ops: seq<Op>)
    requires |m.text| <= Checksum.MAX_PAYLOAD
    ensures SmoothRun(ss, ops) && |ss| == RING + 2 && ss[RING + 1] == Stuck(m)
    ensures Wellset(Stuck(m)) && Aligned(Stuck(m)) && |Stuck(m).queue| == RING && !Aligned(Apply(Stuck(m), Queue(m)))
  {
    hide Wire, Apply, Aligned, Loaded, Stuck;
    ss := seq(RING + 1, i requires 0 <= i <= RING => Loaded(m, i)) + [Stuck(m)];
    ops := seq(RING, _ => Queue(m)) + [Writable([Accepted(1), WouldBlock])];
    LoadedNone(m);
    forall i | 0 <= i < |ops| ensures Wellset(ss[i]) && Smooth(ss[i], ops[i]) && ss[i + 1] == Apply(ss[i], ops[i]) {
      if i < RING {
        LoadedStep(m, i);
        LoadedSize(m, i);
      } else {
        StuckStep(m);
      }
    }
    EveryState(ss, ops, RING + 1);
    StuckSize(m);
    QueueAlignment(Stuck(m), m);
  }

  lemma LoadedNone(m: Message)
    ensures Loaded(m, 0) == START
  {
  }

  lemma LoadedSize(m: Message, n: nat)
    ensures |Loaded(m, n).queue| == n
  {
  }

  lemma StuckSize(m: Message)
    ensures Wellset(Stuck(m)) && |Stuck(m).queue| == RING && Stuck(m).queue[0].sent == 1
  {
    hide Wire;
    WireNonEmpty(m);
  }

  // ---- What the client makes of it ----

  /** One stray byte before a frame with a text: the header read one byte too early asks for more
      bytes than there are, or has an invalid length, so that no frame comes out. */
  lemma ShiftedFrame(b: byte, m: Message)
    requires 0 < |m.text| <= Checksum.MAX_PAYLOAD
    ensures Extract([b] + Wire(m)).frames == []
  {
    var s := [b] + Wire(m);
    WireNonEmpty(m);
    ShiftedLength(b, m);
    hide Wire;
    assert Length(s) >= 256 * |m.text|;
    assert !Sound(s) || |s| < Size(s);
  }

  lemma ShiftedLength(b: byte, m: Message)
    requires 0 < |m.text| <= Checksum.MAX_PAYLOAD
    ensures var s := [b] + Wire(m); |s| >= 24 && 256 * |m.text| <= Length(s) < 256 * |m.text| + 256
  {
    var s, h, n := [b] + Wire(m), Header(m), |m.text|;
    assert s[16..20] == h[15..19];
    assert h[16..20] == LeBytes(n, 4);
    hide Header, Wire, LeBytes;
    LengthBytes(n);
    assert h[15..19] == [h[15]] + h[16..20][..3];
    assert ([h[15]] + LeBytes(n, 3))[1..] == LeBytes(n, 3);
  }

  lemma LengthBytes(n: nat)
    requires n <= Checksum.MAX_PAYLOAD
    ensures LeBytes(n, 4)[..3] == LeBytes(n, 3) && LeValue(LeBytes(n, 3)) == n
  {
    LeBytesPrefix(n, 3);
    assert Pow256(1) == 256 && Pow256(3) >= 256 * Pow256(2) && Pow256(2) >= 256 * Pow256(1);
    LeRoundTrip(n, 3);
  }

  lemma {:induction false} LeBytesPrefix(n: nat, k: nat)
    ensures LeBytes(n, k + 1)[..k] == LeBytes(n, k)
    decreases k
  {
    if k > 0 {
      LeBytesPrefix(n / 256, k - 1);
      assert LeBytes(n, k + 1)[..k] == [n % 256] + LeBytes(n / 256, k)[..k - 1];
    }
  }

  /** After the overflow the next message is sent whole, and the client extracts nothing. */
  lemma OverflowLosesFrame(m: Message)
    requires 0 < |m.text| <= Checksum.MAX_PAYLOAD
    ensures var s := Apply(Apply(Stuck(m), Queue(m)), Writable([Accepted(|Wire(m)|)]));
            s.done == [m] && Extract(s.out).frames == []
  {
    var s1 := Apply(Stuck(m), Queue(m));
    DroppedFront(m);
    WireNonEmpty(m);
    hide Wire, Stuck, Extract;
    WholeFrame(s1);
    assert Wire(m)[..1] == [Wire(m)[0]];
    ShiftedFrame(Wire(m)[0], m);
  }

  /** The seventeenth message pushes out the frame of which one byte was sent. */
  lemma DroppedFront(m: Message)
    ensures var s := Apply(Stuck(m), Queue(m));
            Wellset(s) && s.queue != [] && s.queue[0] == Outgoing(m, 0) && s.out == Wire(m)[..1] && s.done == []
  {
    hide Wire;
    StuckSize(m);
  }

  lemma WholeFrame(s: Sender)
    requires Wellset(s) && s.queue != [] && s.queue[0].sent == 0
    ensures var m := s.queue[0].msg;
            var s' := Apply(s, Writable([Accepted(|Wire(m)|)]));
            s'.out == s.out + Wire(m) && s'.done == s.done + [m]
  {
    var w := Wire(s.queue[0].msg);
    WireNonEmpty(s.queue[0].msg);
    hide Wire;
    var results := [Accepted(|w|)];
    assert Push(w, |w|, results[1..]) == Pushing(|w|, [], 1);
    assert Pushed1(s, results) == Pushing(|w|, [], 1);
    assert w[0..|w|] == w;
  }

  // ---- The shutdown notice, sent past the ring ----

  /** The signal thread sends a frame straight to the socket. */
  function Beside(s: Sender, m: Message): (s': Sender) { s.(out := s.out + Wire(m), done := s.done + [m]) }

  /** The bytes end in 255, 255 and hold no other 255. */
  predicate Marked(w: seq<byte>)
  {
    |w| > 2 && w[|w| - 1] == 255 && w[|w| - 2] == 255 && forall k :: 0 <= k < |w| - 2 ==> w[k] != 255
  }

  /** Such bytes do not commute with a shorter string. */
  lemma MarkedApart(b: seq<byte>, w: seq<byte>)
    requires Marked(w) && 0 < |b| < |w|
    ensures b + w != w + b
  {
    var x, y, n := b + w, w + b, |w|;
    if |b| < n - 1 {
      assert y[n - 2] == 255 && x[n - 2] == w[n - 2 - |b|];
    } else {
      assert y[n - 1] == 255 && x[n - 1] == w[0];
    }
  }

  /** No wire is a proper prefix of another: the length is in the header. */
  lemma WiresPrefixFree(m: Message, n: Message)
    requires |m.text| <= Checksum.MAX_PAYLOAD && |n.text| <= Checksum.MAX_PAYLOAD && Wire(n) <= Wire(m)
    ensures |Wire(n)| == |Wire(m)|
  {
    HeaderFields(m);
    HeaderFields(n);
    WireNonEmpty(m);
    WireNonEmpty(n);
    assert Header(m) == Wire(m)[..24] == Wire(n)[..24] == Header(n);
  }

  /** A marked frame sent past the ring keeps the wire aligned exactly when no part of the frame in
      front has been sent. */
  lemma BesideAlignment(s: Sender, n: Message)
    requires Aligned(s) && Marked(Wire(n)) && |n.text| <= Checksum.MAX_PAYLOAD
    requires s.queue != [] ==> |s.queue[0].msg.text| <= Checksum.MAX_PAYLOAD
    ensures Aligned(Beside(s, n)) <==> s.queue == [] || s.queue[0].sent == 0
  {
    hide Wires, Marked;
    WiresAppend(s.done, n);
    var b, w, d := Begun(s), Wire(n), Wires(s.done);
    assert Begun(Beside(s, n)) == b;
    assert d + b + w == d + (b + w) && d + w + b == d + (w + b);
    CancelLeft(d, b + w, w + b);
    if b == [] {
      assert b + w == w == w + b;
    } else if |b| < |w| {
      MarkedApart(b, w);
    } else {
      BegunNotPast(s, n);
    }
  }

  lemma CancelLeft(d: seq<byte>, x: seq<byte>, y: seq<byte>)
    ensures d + x == d + y <==> x == y
  {
    assert (d + x)[|d|..] == x && (d + y)[|d|..] == y;
  }

  lemma BegunNotPast(s: Sender, n: Message)
    requires Wellset(s) && s.queue != [] && s.queue[0].sent < |Wire(s.queue[0].msg)| && |Begun(s)| >= |Wire(n)|
    requires |s.queue[0].msg.text| <= Checksum.MAX_PAYLOAD && |n.text| <= Checksum.MAX_PAYLOAD
    ensures Begun(s) + Wire(n) != Wire(n) + Begun(s)
  {
    var m, b, w := s.queue[0].msg, Begun(s), Wire(n);
    hide Wire;
    if b + w == w + b {
      assert b[..|w|] == (b + w)[..|w|] == w;
      assert w <= Wire(m);
      WiresPrefixFree(m, n);
      assert false;
    }
  }

  /** "server shutting down", in fours. */
  function NoticeText(): (t: seq<byte>)
    ensures |t| == 20 && forall k :: 0 <= k < |t| ==> t[k] != 255
  {
    [0x73, 0x65, 0x72, 0x76] + [0x65, 0x72, 0x20, 0x73] + [0x68, 0x75, 0x74, 0x74] +
    [0x69, 0x6E, 0x67, 0x20] + [0x64, 0x6F, 0x77, 0x6E]
  }

  /** The notice: SHUTDOWN_PEER, of priority HIGH, with packet number 0. */
  function Notice(): (m: Message) { Message(6, 2, 0, NoticeText()) }

  lemma SumTwo(a: byte, b: byte)
    ensures Checksum.Sum([a, b]) == a + b
  {
    var s: seq<byte>, t: seq<byte> := [a, b], [b];
    assert s[1..] == t && t[1..] == [];
    assert Checksum.Sum(t) == b;
  }

  lemma SumFour(a: byte, b: byte, c: byte, d: byte)
    ensures Checksum.Sum([a, b, c, d]) == a + b + c + d
  {
    SumTwo(a, b);
    SumTwo(c, d);
    Checksum.SumAppend([a, b], [c, d]);
    assert [a, b, c, d] == [a, b] + [c, d];
  }

  lemma NoticeSum()
    ensures Checksum.Sum(NoticeText()) == 2053
  {
    var a, b: seq<byte>, c: seq<byte> := [0x73, 0x65, 0x72, 0x76], [0x65, 0x72, 0x20, 0x73], [0x68, 0x75, 0x74, 0x74];
    var d: seq<byte>, e: seq<byte> := [0x69, 0x6E, 0x67, 0x20], [0x64, 0x6F, 0x77, 0x6E];
    SumFour(0x73, 0x65, 0x72, 0x76);
    SumFour(0x65, 0x72, 0x20, 0x73);
    SumFour(0x68, 0x75, 0x74, 0x74);
    SumFour(0x69, 0x6E, 0x67, 0x20);
    SumFour(0x64, 0x6F, 0x77, 0x6E);
    hide Checksum.Sum;
    Checksum.SumAppend(a, b);
    Checksum.SumAppend(a + b, c);
    Checksum.SumAppend(a + b + c, d);
    Checksum.SumAppend(a + b + c + d, e);
  }

  lemma {:induction false} SmallBytes(n: nat, width: nat)
    requires n < 255
    ensures forall k :: 0 <= k < width ==> LeBytes(n, width)[k] != 255
    ensures width > 0 ==> Checksum.Sum(LeBytes(n, width)) == n
    ensures n == 0 ==> Checksum.Sum(LeBytes(n, width)) == 0
    decreases width
  {
    if width > 0 {
      SmallBytes(0, width - 1);
      assert n / 256 == 0 && n % 256 == n;
      assert LeBytes(n, width)[1..] == LeBytes(0, width - 1);
    }
  }

  predicate Small(m: Message) { m.cmd < 255 && m.pri < 255 && m.number < 255 && |m.text| < 255 }

  lemma SmallHeader(m: Message)
    requires Small(m)
    ensures forall k :: 0 <= k < 24 ==> Header(m)[k] != 255
    ensures Checksum.Sum(Header(m)) == m.cmd + m.pri + m.number + |m.text|
  {
    var a, b, c, d := LeBytes(m.cmd, 4), LeBytes(m.pri, 4), LeBytes(m.number, 8), LeBytes(|m.text|, 4);
    SmallBytes(m.cmd, 4);
    SmallBytes(m.pri, 4);
    SmallBytes(m.number, 8);
    SmallBytes(|m.text|, 4);
    SumFour(0, 0, 0, 0);
    hide LeBytes, Checksum.Sum;
    Checksum.SumAppend(a, b);
    Checksum.SumAppend(a + b, c);
    Checksum.SumAppend(a + b + c, d);
    Checksum.SumAppend(a + b + c + d, [0, 0, 0, 0]);
  }

  /** The upper half of every checksum is 255, 255. */
  lemma ChecksumBytes(c: nat)
    requires 0xFFFF_0000 <= c <= 0xFFFF_FFFF
    ensures LeBytes(c, 4) == [c % 256, c / 256 % 256, 255, 255]
  {
    assert c / 256 / 256 == 0xFFFF;
    assert LeBytes(0, 0) == [];
    assert LeBytes(255, 1) == [255];
    assert LeBytes(0xFFFF, 2) == [255] + LeBytes(255, 1);
    assert LeBytes(c / 256, 3) == [c / 256 % 256] + LeBytes(c / 256 / 256, 2);
  }

  lemma LowBytes(sum: nat)
    requires sum < 0x1_0000
    ensures var c := 0xFFFF_FFFF - sum; c % 256 == 255 - sum % 256 && c / 256 % 256 == 255 - sum / 256
  {
    var c, q, r := 0xFFFF_FFFF - sum, sum / 256, sum % 256;
    assert c == 256 * (0xFF_FFFF - q) + (255 - r);
    assert 0xFF_FFFF - q == 256 * 0xFFFF + (255 - q);
  }

  lemma MarkedBytes(h: seq<byte>, t: seq<byte>, x: byte, y: byte)
    requires |h| > 0 && 255 !in h && 255 !in t && x != 255 && y != 255
    ensures Marked(h + t + [x, y, 255, 255])
  {
  }

  lemma MarkedWire(m: Message, sum: nat)
    requires Small(m) && 255 !in m.text && sum == m.cmd + m.pri + m.number + |m.text| + Checksum.Sum(m.text)
    requires 0 < sum < 0xFFFF && sum % 256 != 0 && sum / 256 != 0
    ensures Marked(Wire(m))
  {
    var c := 0xFFFF_FFFF - sum;
    SmallHeader(m);
    assert Checksum.Checksum(Header(m), m.text) == c by { hide Header, Checksum.Sum; }
    hide Header, Checksum.Sum, Checksum.Checksum, LeBytes, Marked;
    ChecksumBytes(c);
    LowBytes(sum);
    MarkedBytes(Header(m), m.text, c % 256, c / 256 % 256);
  }

  /** The notice's frame ends in the only two 255s it has. */
  lemma NoticeMarked()
    ensures Marked(Wire(Notice()))
  {
    NoticeSum();
    hide Wire, NoticeText, Marked, Checksum.Sum;
    MarkedWire(Notice(), 2081);
  }

  lemma {:induction false} OneByte(n: byte, k: nat)
    ensures LeBytes(n, k + 1) == [n] + Zeros(k)
    decreases k
  {
    assert n / 256 == 0 && n % 256 == n;
    if k > 0 {
      OneByte(0, k - 1);
      assert Zeros(k) == [0] + Zeros(k - 1);
    }
  }

  lemma NoticeHeader()
    ensures Header(Notice()) == [6, 0, 0, 0, 2, 0, 0, 0, 0, 0, 0, 0, 0, 0, 0, 0, 20, 0, 0, 0, 0, 0, 0, 0]
  {
    hide LeBytes;
    OneByte(6, 3);
    OneByte(2, 3);
    OneByte(0, 7);
    OneByte(20, 3);
  }

  /** The notice's frame, byte for byte. */
  lemma NoticeOnWire()
    ensures Wire(Notice()) ==
            [6, 0, 0, 0, 2, 0, 0, 0, 0, 0, 0, 0, 0, 0, 0, 0, 20, 0, 0, 0, 0, 0, 0, 0] +
            NoticeText() + [0xDE, 0xF7, 0xFF, 0xFF]
  {
    NoticeHeader();
    NoticeSum();
    hide Header, NoticeText, Checksum.Sum, LeBytes;
    SmallHeader(Notice());
    ChecksumBytes(0xFFFF_F7DE);
    assert Checksum.Checksum(Header(Notice()), NoticeText()) == 0xFFFF_F7DE;
  }

  /** The notice sent straight to the socket keeps the wire aligned exactly when no part of the frame
      in front has been sent. */
  lemma NoticeAlignment(s: Sender)
    requires Aligned(s) && (s.queue != [] ==> |s.queue[0].msg.text| <= Checksum.MAX_PAYLOAD)
    ensures Aligned(Beside(s, Notice())) <==> s.queue == [] || s.queue[0].sent == 0
  {
    hide Wire, Wires;
    NoticeMarked();
    BesideAlignment(s, Notice());
  }

  /** With one byte of any frame sent, the client does not get the notice. */
  lemma NoticeLost(m: Message)
    ensures Extract(Beside(Stuck(m), Notice()).out).frames == []
  {
    StuckSize(m);
    WireNonEmpty(m);
    hide Wire, Extract;
    assert Wire(m)[..1] == [Wire(m)[0]];
    ShiftedFrame(Wire(m)[0], Notice());
  }
}

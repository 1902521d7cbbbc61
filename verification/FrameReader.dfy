/** `client_read_message` of gateway/src/server.c in its own form: a loop over recv that updates
    `stage`, `rx_len` and the receive buffer of a client slot. */
module FrameReader {
  import opened Bytes
  import opened Frames

  datatype Errno = Ok | Eintr | Eagain | Other

  /** The kernel's side of a connection. */
  class Socket {
    var arrivals: seq<Arrival>

    constructor (arrivals: seq<Arrival>)
      ensures this.arrivals == arrivals
    {
      this.arrivals := arrivals;
    }

    /** recv(2): at most `remain` bytes of the segment in front, stored from `at` on. */
    method Recv(dst: array<byte>, at: nat, remain: nat) returns (n: int, err: Errno)
      requires Wellformed(arrivals) && 0 < remain && at + remain <= dst.Length
      modifies this, dst
      ensures Wellformed(arrivals) && dst[..at] == old(dst[..at])
      ensures old(arrivals) == [] ==> n == -1 && err == Eagain && arrivals == []
      ensures old(arrivals) != [] ==>
        match old(arrivals)[0]
        case Segment(b) =>
          n == Min(|b|, remain) && arrivals == After(old(arrivals), n) && dst[at..at + n] == b[..n]
        case Interrupted => n == -1 && err == Eintr && arrivals == old(arrivals)[1..]
        case WouldBlock => n == -1 && err == Eagain && arrivals == old(arrivals)[1..]
        case Failed => n == -1 && err == Other && arrivals == old(arrivals)[1..]
        case Closed => n == 0 && arrivals == old(arrivals)[1..]
    {
      n, err := -1, Eagain;
      if arrivals != [] {
        match arrivals[0]
        case Segment(b) =>
          n, err := Min(|b|, remain), Ok;
          ghost var before := dst[..];
          Store(dst, at, b[..n]);
          assert dst[..at] == dst[..][..at] == before[..at];
          assert dst[at..at + n] == dst[..][at..at + n] == b[..n];
          AfterFacts(arrivals, n);
          arrivals := After(arrivals, n);
        case Interrupted => err := Eintr; arrivals := arrivals[1..];
        case WouldBlock => arrivals := arrivals[1..];
        case Failed => err := Other; arrivals := arrivals[1..];
        case Closed => n := 0; arrivals := arrivals[1..];
      }
    }
  }

  class Client {
    var stage: Stage
    var data: array<byte>
    var rxLen: nat
    var alive: bool

    /** The invariant of the receive state: `rx_len` is inside the buffer and below its target. */
    ghost predicate Valid()
      reads this, data
    {
      data.Length == RX_BUF_CAP && rxLen <= RX_BUF_CAP && Inv(State())
    }

    ghost function State(): (rx: Rx)
      reads this, data
      requires rxLen <= data.Length
    {
      Rx(stage, data[..rxLen])
    }

    constructor ()
      ensures Valid() && State() == FRESH && alive && fresh(data)
    {
      stage, rxLen, alive := ReadHeader, 0, true;
      data := new byte[RX_BUF_CAP];
    }

    /** The bytes read so far, taken to the next stage: what follows a successful recv. */
    method Absorb(n: nat, ghost chunk: seq<byte>) returns (events: seq<Event>)
      requires Valid() && 0 < n == |chunk| <= Remain(State())
      requires data[rxLen..rxLen + n] == chunk
      modifies this
      ensures data == old(data) && alive == old(alive) && Valid()
      ensures (State(), events) == Receive(old(State()), chunk)
    {
      hide HeaderOf, CheckHeader, FrameEvent, Decode;
      ghost var rx := State();
      ReceiveRefines(rx, chunk, []);
      rxLen := rxLen + n;
      assert data[..rxLen] == rx.buf + chunk;
      events := [];
      if stage == ReadHeader {
        if rxLen == HEADER_SIZE {
          var header := HeaderOf(data[..rxLen]);
          var err := CheckHeader(header);
          if err > 0 {
            stage, rxLen := ReadHeader, 0;
            events := [ErrorReply(header.requestId, err)];
          } else {
            stage := ReadPayload;
          }
        }
      } else {
        SameHeader(rx.buf, chunk);
        if rxLen == FrameSize(data[..rxLen]) {
          events := [FrameEvent(data[..rxLen])];
          stage, rxLen := ReadHeader, 0;
        }
      }
    }

    /** One turn of the loop: a recv and what follows it. */
    method Turn(socket: Socket) returns (done: bool, code: int, events: seq<Event>)
      requires Valid() && Wellformed(socket.arrivals) && alive
      modifies this, data, socket
      ensures Valid() && data == old(data) && Wellformed(socket.arrivals) && (alive <==> !done || code != 1)
      ensures done ==>
                Call(State(), socket.arrivals, code, events) == Frames.ReadMessage(old(State()), old(socket.arrivals))
      ensures !done ==> Weight(socket.arrivals) < old(Weight(socket.arrivals))
      ensures !done ==>
                Frames.ReadMessage(State(), socket.arrivals) == Frames.ReadMessage(old(State()), old(socket.arrivals))
    {
      hide Receive, CheckHeader, HeaderOf, Accepted, FrameSize, After, Weight, Frames.ReadMessage;
      ghost var rx, arrivals := State(), socket.arrivals;
      ReadMessageStep(rx, arrivals);
      var target := if stage == ReadHeader then HEADER_SIZE else FrameSize(data[..rxLen]);
      var n, err := socket.Recv(data, rxLen, target - rxLen);
      assert State() == rx;
      if n < 0 {
        return err != Eintr, if err == Eagain then 3 else -1, [];
      }
      if n == 0 {
        alive := false;
        return true, 1, [];
      }
      events := Absorb(n, arrivals[0].bytes[..n]);
      return events != [], if events != [] && events[0].Task? then 0 else 2, events;
    }

    /** Returns the code of `client_read_message` and the task or error reply it produced. */
    method ReadMessage(socket: Socket) returns (code: int, events: seq<Event>)
      requires Valid() && Wellformed(socket.arrivals) && alive
      modifies this, data, socket
      ensures Valid() && data == old(data) && Wellformed(socket.arrivals)
      ensures Call(State(), socket.arrivals, code, events) == Frames.ReadMessage(old(State()), old(socket.arrivals))
      ensures alive <==> code != 1
    {
      hide Weight, Frames.ReadMessage;
      while true
        invariant Valid() && data == old(data) && Wellformed(socket.arrivals) && alive
        invariant Frames.ReadMessage(State(), socket.arrivals) == Frames.ReadMessage(old(State()), old(socket.arrivals))
        decreases Weight(socket.arrivals)
      {
        var done;
        done, code, events := Turn(socket);
        if done { return; }
      }
    }
  }
}

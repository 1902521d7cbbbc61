/** The reader of the command-line client (unix-domain-socket-control-plane/gatewaycli/client.h).
    It differs from the server's on a header with an invalid length: it goes round again, asking
    recv for no bytes, which returns 0 and is taken for the end of the connection. */
module ClientFraming {
  import opened Bytes
  import opened Checksum
  import opened Frames
  import opened ControlFraming

  /** A whole header with an invalid length has been received. */
  predicate Baffled(r: Reader) { |r.buf| == Checksum.HEADER_SIZE && !Sound(r.buf) }

  predicate Holding(r: Reader) { Partial(r) || Baffled(r) }

  /** One call of the client's `read_stage`; `closing` stands for its `shutdown`. */
  function ClientStage(r: Reader, arrivals: seq<Arrival>): (c: Reading)
    requires Holding(r) && Wellformed(arrivals)
    ensures Holding(c.reader) && Wellformed(c.arrivals) && Weight(c.arrivals) <= Weight(arrivals)
    ensures arrivals != [] && !r.closing ==> c.reader.closing || Weight(c.arrivals) < Weight(arrivals)
    decreases Weight(arrivals)
  {
    if r.closing then Reading(r, arrivals, -1, [])
    else if arrivals == [] then Reading(r, [], 0, [])
    else match arrivals[0]
      case Interrupted => ClientStage(r, arrivals[1..])
      case WouldBlock => Reading(r, arrivals[1..], 0, [])
      case Failed => Reading(r.(closing := true), arrivals[1..], -1, [])
      case Closed => Reading(r.(closing := true), arrivals[1..], -1, [])
      case Segment(b) =>
        if Baffled(r) then Reading(r.(closing := true), arrivals, -1, [])
        else
          var n := Min(|b|, Missing(r));
          AfterFacts(arrivals, n);
          AbsorbRefines(r, b[..n], []);
          var (r', frames) := Absorb(r, b[..n]);
          if frames != [] then Reading(r', After(arrivals, n), if frames[0].intact then 1 else 2, frames)
          else if r'.closing then ClientStage(r'.(closing := false), After(arrivals, n))
          else if n < Missing(r) then Reading(r', After(arrivals, n), 0, [])
          else ClientStage(r', After(arrivals, n))
  }

  /** Calls repeated until nothing more is to come or the client has shut down. */
  function ClientCollect(r: Reader, arrivals: seq<Arrival>): (d: Decoded)
    requires Holding(r) && Wellformed(arrivals)
    decreases Weight(arrivals), if r.closing then 0 else 1
  {
    if arrivals == [] || r.closing then Decoded([], r.buf)
    else
      var c := ClientStage(r, arrivals);
      var d := ClientCollect(c.reader, c.arrivals);
      Decoded(c.frames + d.frames, d.rest)
  }

  /** How a call goes on after a recv that took bytes. */
  lemma SegmentTaken(r: Reader, arrivals: seq<Arrival>)
    requires Partial(r) && Wellformed(arrivals) && !r.closing && arrivals != [] && arrivals[0].Segment?
    ensures var n := Min(|arrivals[0].bytes|, Missing(r));
            var (r', frames) := Absorb(r, arrivals[0].bytes[..n]);
            && Partial(r') && (r'.closing ==> Baffled(r')) && Wellformed(After(arrivals, n))
            && Weight(After(arrivals, n)) < Weight(arrivals)
            && ClientStage(r, arrivals) ==
               if frames != [] then Reading(r', After(arrivals, n), if frames[0].intact then 1 else 2, frames)
               else if r'.closing then ClientStage(r'.(closing := false), After(arrivals, n))
               else if n < Missing(r) then Reading(r', After(arrivals, n), 0, [])
               else ClientStage(r', After(arrivals, n))
  {
    hide After, Extract;
    var n := Min(|arrivals[0].bytes|, Missing(r));
    AfterFacts(arrivals, n);
    AbsorbRefines(r, arrivals[0].bytes[..n], []);
  }

  lemma NothingMore(r: Reader, more: seq<byte>)
    requires Baffled(r)
    ensures Extract(r.buf + more).frames == []
  {
    SameLength(r.buf, more);
  }

  lemma ClientWaiting(r: Reader)
    requires Holding(r)
    ensures Extract(r.buf + []).frames == []
  {
    assert r.buf + [] == r.buf;
    if Baffled(r) { NothingMore(r, []); } else { Waiting(r); }
  }

  /** One call, seen from the reference decoding of the bytes still to come. */
  lemma {:induction false} ClientStageRefines(r: Reader, arrivals: seq<Arrival>)
    requires Holding(r) && Wellformed(arrivals) && !r.closing
    ensures var c := ClientStage(r, arrivals);
            Extract(r.buf + Stream(arrivals)).frames ==
              c.frames + (if c.reader.closing then [] else Extract(c.reader.buf + Stream(c.arrivals)).frames)
    decreases Weight(arrivals)
  {
    hide Extract, Absorb, Missing, Partial;
    var e := Extract(r.buf + Stream(arrivals)).frames;
    assert [] + e == e;
    ClientWaiting(r);
    if arrivals != [] {
      match arrivals[0]
      case Interrupted => ClientStageRefines(r, arrivals[1..]);
      case Segment(b) =>
        if Baffled(r) {
          NothingMore(r, Stream(arrivals));
        } else {
          SegmentTaken(r, arrivals);
          ArrivalStep(r, arrivals);
          var n := Min(|b|, Missing(r));
          var (r', frames) := Absorb(r, b[..n]);
          var rest := After(arrivals, n);
          if frames == [] && r'.closing {
            ClientStageRefines(r'.(closing := false), rest);
          } else if frames == [] && n == Missing(r) {
            ClientStageRefines(r', rest);
          }
        }
      case _ =>
    }
  }

  /** The client's reader, too, counts exactly the frames of the concatenated bytes, in order. */
  lemma {:induction false} ClientSplittingIrrelevant(r: Reader, arrivals: seq<Arrival>)
    requires Holding(r) && Wellformed(arrivals) && !r.closing
    ensures ClientCollect(r, arrivals).frames == Extract(r.buf + Stream(arrivals)).frames
    decreases Weight(arrivals)
  {
    hide Extract, ClientStage, Holding;
    if arrivals == [] {
      ClientWaiting(r);
    } else {
      ClientStageRefines(r, arrivals);
      var c := ClientStage(r, arrivals);
      if c.reader.closing {
        assert c.frames + [] == c.frames;
      } else {
        ClientSplittingIrrelevant(c.reader, c.arrivals);
      }
    }
  }
}

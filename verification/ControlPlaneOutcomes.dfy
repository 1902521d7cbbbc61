/** What becomes of a frame, over whole runs of the control-plane server: which commands are answered,
    what a damaged frame is answered with, and that a connection marked for closing is not read any
    more. */
module ControlPlaneOutcomes {
  import opened ControlPlane
  import S = ControlPlaneSafety

  /** The reply queued last for a slot. */
  predicate Newest(s: State, fd: int, r: Reply)
    requires |s.clients| == FD_SETSIZE
  {
    InTable(fd) && s.clients[fd].sendQueue != [] && s.clients[fd].sendQueue[|s.clients[fd].sendQueue| - 1] == r
  }

  /** All slots but `fd` are as before. */
  ghost predicate OnlySlot(s: State, s': State, fd: int)
  {
    |s.clients| == |s'.clients| && forall i :: 0 <= i < |s.clients| && i != fd ==> s'.clients[i] == s.clients[i]
  }

  /** A status, data, configuration or control request and an identification are answered on the
      connection they came from, with their packet number; a SHUTDOWN_PEER marks its connection for
      closing; an ACK, a NACK or anything else does nothing. */
  lemma HandleOutcome(ss: seq<State>, steps: seq<Action>, i: nat, w: nat)
    requires S.Run(ss, steps) && i < |steps| && steps[i] == Handle(w)
    ensures w < |ss[i].workers| && ss[i].workers[w].Handling? && |ss[i].clients| == |ss[i + 1].clients| == FD_SETSIZE
    ensures var s, s', t := ss[i], ss[i + 1], ss[i].workers[w].task;
            && InTable(t.fd) && t.fd in s.kernel && s.kernel[t.fd] == t.from
            && t.serial < |s.accepted| && s.accepted[t.serial] == Accepted(t.frame, t.from)
            && OnlySlot(s, s', t.fd)
            && if t.frame.cmd in {GET_STATUS, SET_STATUS, GET_DATA, GET_CONFIG, SET_CONFIG, SEND_CONTROL, IDENTIFY} then
                 Newest(s', t.fd, Reply(t.frame.number, t.from, t.serial)) &&
                 s'.clients[t.fd].pendingClose == s.clients[t.fd].pendingClose
               else if t.frame.cmd == SHUTDOWN_PEER then s'.clients[t.fd] == s.clients[t.fd].(pendingClose := true)
               else s'.clients == s.clients
  {
    S.EveryState(ss, steps, i);
    assert S.Takes(ss[i], steps[i], ss[i + 1]);
    var s := ss[i];
    assert S.Owned(s, s.workers[w].task) by { assert S.WorkersOwned(s); }
    hide S.Inv;
  }

  // ---- A damaged frame ----

  lemma NackHeld(s: State, a: Action)
    requires |s.clients| == FD_SETSIZE && Enabled(s, a) && s.io.IoNack? && a != QueueNack
    ensures Apply(s, a).io == s.io
  {
    hide Live, Picked;
  }

  lemma {:induction false} NackWaits(ss: seq<State>, steps: seq<Action>, i: nat, j: nat)
    requires S.Run(ss, steps) && i <= j < |ss| && ss[i].io.IoNack?
    requires forall k :: i <= k < j ==> steps[k] != QueueNack
    ensures ss[j].io == ss[i].io
    decreases j
  {
    if i < j {
      hide Enabled, Apply, S.Run;
      S.StepAt(ss, steps, j - 1);
      NackWaits(ss, steps, i, j - 1);
      NackHeld(ss[j - 1], steps[j - 1]);
    }
  }

  /** A frame with a bad checksum, read at step `i`: whatever the workers do meanwhile, what the I/O
      thread queues next, at step `j`, goes to the connection it was read from and carries its number. */
  lemma DamagedFrameNacked(ss: seq<State>, steps: seq<Action>, i: nat, j: nat, number: nat)
    requires S.Run(ss, steps) && i < j < |steps| && steps[i] == EndRead(BadChecksum(number)) && steps[j] == QueueNack
    requires forall k :: i < k < j ==> steps[k] != QueueNack
    ensures ss[i].io.IoReading? && ss[i].io.fd in ss[i].kernel && |ss[j + 1].clients| == FD_SETSIZE
    ensures Newest(ss[j + 1], ss[i].io.fd, Reply(number, ss[i].kernel[ss[i].io.fd], -1))
    ensures ss[j + 1].accepted == ss[j].accepted && ss[i + 1].accepted == ss[i].accepted
  {
    S.EveryState(ss, steps, i);
    assert S.Takes(ss[i], steps[i], ss[i + 1]);
    assert S.IoOwned(ss[i]);
    hide S.Inv;
    NackWaits(ss, steps, i + 1, j);
    assert S.Takes(ss[j], steps[j], ss[j + 1]);
  }

  // ---- A connection marked for closing ----

  /** `p` is a connection seen before, and if it is still open its slot is marked for closing. */
  ghost predicate Marked(s: State, p: Peer)
  {
    && p < s.peers
    && forall fd :: fd in s.kernel && s.kernel[fd] == p ==>
         InTable(fd) && fd < |s.clients| && s.clients[fd].pendingClose
  }

  /** A frame of `p` is being read. */
  predicate ReadingFrom(s: State, p: Peer)
  {
    s.io.IoReading? && s.io.fd in s.kernel && s.kernel[s.io.fd] == p
  }

  function FramesOf(log: seq<Accepted>, p: Peer): (n: nat)
    decreases |log|
  {
    if log == [] then 0 else FramesOf(log[..|log| - 1], p) + (if log[|log| - 1].from == p then 1 else 0)
  }

  /** The frames accepted from `p`, and one more if it is being read. */
  function FramesAtMost(s: State, p: Peer): (n: nat)
  {
    FramesOf(s.accepted, p) + (if ReadingFrom(s, p) then 1 else 0)
  }

  lemma MarkedStays(s: State, a: Action, p: Peer)
    requires S.Inv(s) && Enabled(s, a) && Marked(s, p)
    ensures Marked(Apply(s, a), p)
  {
    assert S.IoOwned(s);
    var s' := Apply(s, a);
    if a.Accept? {
      hide S.Inv, S.IoOwned, Picked;
      MarkedThroughAccept(s, a, p);
    } else if a == ReapReset {
      hide S.Inv, Picked, Live;
    } else {
      hide S.Inv, Apply, Enabled, S.IoOwned, Live;
      forall fd | fd in s'.kernel && s'.kernel[fd] == p ensures InTable(fd) && s'.clients[fd].pendingClose {
        MarkKept(s, a, fd);
      }
      MarkKept(s, a, 0);
    }
  }

  lemma MarkedThroughAccept(s: State, a: Action, p: Peer)
    requires |s.clients| == FD_SETSIZE && Enabled(s, a) && a.Accept? && Marked(s, p)
    ensures Marked(Apply(s, a), p)
  {
    hide Picked, Live;
  }

  /** No slot loses its mark, no descriptor changes hands. */
  ghost predicate MarksStay(s: State, s': State, fd: int)
    requires |s.clients| == |s'.clients| == FD_SETSIZE
  {
    && s'.peers == s.peers && (fd in s'.kernel ==> fd in s.kernel && s'.kernel[fd] == s.kernel[fd])
    && (InTable(fd) && s.clients[fd].pendingClose ==> s'.clients[fd].pendingClose)
  }

  lemma MarkKept(s: State, a: Action, fd: int)
    requires |s.clients| == FD_SETSIZE && Enabled(s, a) && !a.Accept? && a != ReapReset
    ensures MarksStay(s, Apply(s, a), fd)
  {
    if a.Dequeue? || a.Check? || a.Handle? || a.Finish? {
      WorkerMarks(s, a, fd);
    } else if a.EndRead? || a.Send? || a.Enqueue? || a.Undo? {
      TransferMarks(s, a, fd);
    } else {
      IoMarks(s, a, fd);
    }
  }

  lemma WorkerMarks(s: State, a: Action, fd: int)
    requires |s.clients| == FD_SETSIZE && Enabled(s, a) && (a.Dequeue? || a.Check? || a.Handle? || a.Finish?)
    ensures MarksStay(s, Apply(s, a), fd)
  {
    hide Picked, Live;
  }

  lemma IoMarks(s: State, a: Action, fd: int)
    requires |s.clients| == FD_SETSIZE && Enabled(s, a) && !a.Accept? && a != ReapReset
    requires !a.Dequeue? && !a.Check? && !a.Handle? && !a.Finish? && !a.EndRead? && !a.Send? && !a.Enqueue? && !a.Undo?
    ensures MarksStay(s, Apply(s, a), fd)
  {
    hide Picked;
  }

  lemma TransferMarks(s: State, a: Action, fd: int)
    requires |s.clients| == FD_SETSIZE && Enabled(s, a) && (a.EndRead? || a.Send? || a.Enqueue? || a.Undo?)
    ensures MarksStay(s, Apply(s, a), fd)
  {
    hide Picked;
  }

  lemma MarkedReadsNoMore(s: State, a: Action, p: Peer)
    requires S.Inv(s) && Enabled(s, a) && Marked(s, p)
    ensures FramesAtMost(Apply(s, a), p) <= FramesAtMost(s, p)
  {
    var s' := Apply(s, a);
    if a.EndRead? {
      assert S.IoOwned(s);
      if a.outcome.Complete? { assert s'.accepted[..|s.accepted|] == s.accepted; }
    } else if a.StartRead? {
      assert s'.accepted == s.accepted;
    } else {
      hide S.Inv, FramesOf;
      ElsewhereReads(s, a, p);
    }
  }

  lemma ElsewhereReads(s: State, a: Action, p: Peer)
    requires |s.clients| == FD_SETSIZE && Enabled(s, a) && !a.EndRead? && !a.StartRead?
    ensures Apply(s, a).accepted == s.accepted
    ensures ReadingFrom(Apply(s, a), p) ==> ReadingFrom(s, p)
  {
    if a.Dequeue? || a.Check? || a.Handle? || a.Finish? {
      hide Picked, Live, Decremented;
    } else {
      hide Picked, Live, Decremented, Reapable;
    }
  }

  /** Once a connection is marked for closing, be it by its own SHUTDOWN_PEER, a hang-up, the end of its
      stream or a broken send, no frame of it is accepted any more, but for one being read just then. */
  lemma {:induction false} MarkedIsNotRead(ss: seq<State>, steps: seq<Action>, i: nat, j: nat, p: Peer)
    requires S.Run(ss, steps) && i <= j < |ss| && Marked(ss[i], p)
    ensures Marked(ss[j], p) && FramesAtMost(ss[j], p) <= FramesAtMost(ss[i], p)
    decreases j
  {
    if i < j {
      hide Enabled, Apply, S.Inv, S.Run, Marked, FramesAtMost;
      MarkedIsNotRead(ss, steps, i, j - 1, p);
      S.EveryState(ss, steps, j - 1);
      S.StepAt(ss, steps, j - 1);
      MarkedStays(ss[j - 1], steps[j - 1], p);
      MarkedReadsNoMore(ss[j - 1], steps[j - 1], p);
    }
  }
}

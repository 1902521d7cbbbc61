/** The life of a slot over whole runs of the control-plane server: what a new connection is given, what
    marks it for closing, when it is closed, and what is left of it. */
module ControlPlaneSlots {
  import opened ControlPlane
  import S = ControlPlaneSafety

  predicate Accepts(a: Action, fd: int) { a.Accept? && a.fd == fd }

  // ---- New connections ----

  lemma GenerationStep(s: State, a: Action, fd: int)
    requires |s.clients| == FD_SETSIZE && Enabled(s, a) && InTable(fd)
    ensures Apply(s, a).clients[fd].generation == s.clients[fd].generation + (if Accepts(a, fd) then 1 else 0)
  {
    if a.Dequeue? || a.Check? || a.Handle? || a.Finish? {
      hide Picked, Live;
    } else {
      hide Picked, Live, Decremented;
    }
  }

  lemma ConnectionStep(s: State, a: Action)
    requires |s.clients| == FD_SETSIZE && Enabled(s, a)
    ensures Apply(s, a).connections == s.connections + (if a.Accept? && InTable(a.fd) then 1 else 0)
  {
    hide Picked, Live;
  }

  lemma Sized(ss: seq<State>, steps: seq<Action>, i: nat)
    requires S.Run(ss, steps) && i < |ss|
    ensures |ss[i].clients| == FD_SETSIZE
  {
    hide S.Run, S.QueueOwned, S.WorkersOwned, S.IoOwned, S.Slots, S.Delivered, S.Accounted;
    S.EveryState(ss, steps, i);
  }

  lemma {:induction false} CountersGrow(ss: seq<State>, steps: seq<Action>, i: nat, j: nat, fd: int)
    requires S.Run(ss, steps) && i <= j < |ss| && InTable(fd)
    ensures |ss[i].clients| == |ss[j].clients| == FD_SETSIZE
    ensures ss[i].clients[fd].generation <= ss[j].clients[fd].generation && ss[i].connections <= ss[j].connections
    decreases j
  {
    hide Enabled, Apply, S.Run;
    Sized(ss, steps, i);
    if i < j {
      CountersGrow(ss, steps, i, j - 1, fd);
      S.StepAt(ss, steps, j - 1);
      GenerationStep(ss[j - 1], steps[j - 1], fd);
      ConnectionStep(ss[j - 1], steps[j - 1]);
    }
  }

  /** A new connection gets an open, unmarked slot with nothing counted and nothing queued. */
  lemma AcceptOutcome(ss: seq<State>, steps: seq<Action>, i: nat, fd: int)
    requires S.Run(ss, steps) && i < |steps| && Accepts(steps[i], fd) && InTable(fd)
    ensures |ss[i].clients| == |ss[i + 1].clients| == FD_SETSIZE
    ensures ss[i + 1].clients[fd] ==
            Client(fd, true, ss[i + 1].connections, ss[i].clients[fd].generation + 1, false, 0, [])
    ensures ss[i + 1].connections == ss[i].connections + 1
    ensures S.Outstanding(ss[i + 1], S.ByFd(fd)) == 0
    ensures steps[i].registered ==> fd in ss[i + 1].kernel && ss[i + 1].kernel[fd] == ss[i].peers
  {
    assert S.Takes(ss[i], steps[i], ss[i + 1]);
    S.EveryState(ss, steps, i);
    S.EveryState(ss, steps, i + 1);
    assert ss[i + 1].clients[fd].pendingTask == S.Outstanding(ss[i + 1], S.ByFd(fd));
    hide S.Inv, S.Slots, S.Outstanding;
  }

  /** Two connections in the table never share a connection id, nor two on one descriptor a generation. */
  lemma NeverTheSame(ss: seq<State>, steps: seq<Action>, i: nat, j: nat)
    requires S.Run(ss, steps) && i < j < |steps| && steps[i].Accept? && steps[j].Accept?
    requires InTable(steps[i].fd) && InTable(steps[j].fd)
    ensures |ss[i + 1].clients| == |ss[j + 1].clients| == FD_SETSIZE
    ensures ss[i + 1].clients[steps[i].fd].connectionId < ss[j + 1].clients[steps[j].fd].connectionId
    ensures steps[i].fd == steps[j].fd ==>
              ss[i + 1].clients[steps[i].fd].generation < ss[j + 1].clients[steps[j].fd].generation
  {
    hide S.Run, S.Outstanding;
    RunLength(ss, steps);
    AcceptOutcome(ss, steps, i, steps[i].fd);
    AcceptOutcome(ss, steps, j, steps[j].fd);
    CountersGrow(ss, steps, i + 1, j, steps[i].fd);
  }

  lemma RunLength(ss: seq<State>, steps: seq<Action>)
    requires S.Run(ss, steps)
    ensures |steps| + 1 == |ss|
  {
  }

  // ---- Marking and closing ----

  /** Step `a` has a reason to close the connection in slot `fd`: it hung up, its stream ended, a send to
      it broke, or a worker handles its SHUTDOWN_PEER. */
  predicate EndsIt(s: State, a: Action, fd: int)
    requires |s.clients| == FD_SETSIZE && Enabled(s, a)
  {
    match a
    case Hangup(f) => f == fd
    case EndRead(outcome) => outcome == Ended && s.io.fd == fd
    case Send(f, sent) => f == fd && sent == Broken
    case Handle(w) => s.workers[w].task.frame.cmd == SHUTDOWN_PEER && s.workers[w].task.fd == fd
    case _ => false
  }

  lemma MarkStepIo(s: State, a: Action, fd: int)
    requires |s.clients| == FD_SETSIZE && Enabled(s, a) && InTable(fd) && !s.clients[fd].pendingClose
    requires a.EndRead? ==> s.io.fd in s.kernel
    requires !a.Dequeue? && !a.Check? && !a.Handle? && !a.Finish?
    ensures Apply(s, a).clients[fd].pendingClose <==> EndsIt(s, a, fd)
  {
    if a.EndRead? || a.Send? || a.Hangup? {
      MarkStepEnd(s, a, fd);
    } else {
      MarkStepOther(s, a, fd);
    }
  }

  lemma MarkStepEnd(s: State, a: Action, fd: int)
    requires |s.clients| == FD_SETSIZE && Enabled(s, a) && InTable(fd) && !s.clients[fd].pendingClose
    requires (a.EndRead? && s.io.fd in s.kernel) || a.Send? || a.Hangup?
    ensures Apply(s, a).clients[fd].pendingClose <==> EndsIt(s, a, fd)
  {
    hide Picked;
  }

  lemma MarkStepOther(s: State, a: Action, fd: int)
    requires |s.clients| == FD_SETSIZE && Enabled(s, a) && InTable(fd) && !s.clients[fd].pendingClose
    requires !a.Dequeue? && !a.Check? && !a.Handle? && !a.Finish? && !a.EndRead? && !a.Send? && !a.Hangup?
    ensures !Apply(s, a).clients[fd].pendingClose && !EndsIt(s, a, fd)
  {
    hide Picked, Live, Reapable;
  }

  lemma MarkStepWorker(s: State, a: Action, fd: int)
    requires |s.clients| == FD_SETSIZE && Enabled(s, a) && InTable(fd) && !s.clients[fd].pendingClose
    requires a.Dequeue? || a.Check? || a.Handle? || a.Finish?
    ensures Apply(s, a).clients[fd].pendingClose <==> EndsIt(s, a, fd)
  {
    hide Picked;
  }

  /** A slot becomes marked for closing exactly at such a step. */
  lemma MarkedExactly(ss: seq<State>, steps: seq<Action>, i: nat, fd: int)
    requires S.Run(ss, steps) && i < |steps| && InTable(fd)
    ensures |ss[i].clients| == |ss[i + 1].clients| == FD_SETSIZE && Enabled(ss[i], steps[i])
    ensures !ss[i].clients[fd].pendingClose ==>
              (ss[i + 1].clients[fd].pendingClose <==> EndsIt(ss[i], steps[i], fd))
  {
    S.EveryState(ss, steps, i);
    var s, a := ss[i], steps[i];
    assert S.Takes(s, a, ss[i + 1]);
    if !s.clients[fd].pendingClose {
      if a.Dequeue? || a.Check? || a.Handle? || a.Finish? {
        hide S.Inv, Apply, Enabled, EndsIt;
        MarkStepWorker(s, a, fd);
      } else {
        assert S.IoOwned(s);
        hide S.Inv, Apply, EndsIt;
        MarkStepIo(s, a, fd);
      }
    }
  }

  /** A descriptor is closed only when its connection was marked, has no task and no reply left; its slot
      is then free, keeping the generation, and not to be reaped again. */
  lemma ReapedSlotIsFree(ss: seq<State>, steps: seq<Action>, i: nat)
    requires S.Run(ss, steps) && i < |steps| && (steps[i] == ReapClose || steps[i] == ReapReset)
    ensures |ss[i].clients| == |ss[i + 1].clients| == FD_SETSIZE
    ensures steps[i] == ReapClose ==>
              var fd := ss[i].io.slot;
              && InTable(fd) && ss[i].clients[fd].pendingClose && ss[i].clients[fd].sendQueue == []
              && S.Outstanding(ss[i], S.ByFd(fd)) == 0 && fd !in ss[i + 1].kernel && ss[i + 1].io == IoClosed(fd)
    ensures steps[i] == ReapReset ==>
              var fd := ss[i].io.slot;
              InTable(fd) &&
              var c := ss[i].clients[fd];
              && fd !in ss[i + 1].kernel && ss[i + 1].io == IoIdle
              && ss[i + 1].clients[fd] == Client(-1, false, c.connectionId, c.generation, false, 0, [])
              && forall f :: InTable(f) && f != fd ==> ss[i + 1].clients[f] == ss[i].clients[f]
  {
    S.EveryState(ss, steps, i);
    assert S.Takes(ss[i], steps[i], ss[i + 1]);
    assert S.IoOwned(ss[i]);
    var fd := ss[i].io.slot;
    assert ss[i].clients[fd].pendingTask == S.Outstanding(ss[i], S.ByFd(fd));
    hide S.Inv, S.Outstanding, S.Slots;
  }
}

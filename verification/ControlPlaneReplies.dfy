/** How many replies an accepted frame can cause in the control-plane server: none is sent twice,
    whatever is dropped from full rings or lost with broken connections. */
module ControlPlaneReplies {
  import opened Lists
  import opened Rings
  import opened ControlPlane
  import opened ControlPlaneSafety

  function About(r: Reply, u: nat): (n: nat) { if r.serial == u then 1 else 0 }

  function InQueue(q: seq<Reply>, u: nat): (n: nat)
    decreases |q|
  {
    if q == [] then 0 else About(q[0], u) + InQueue(q[1..], u)
  }

  function InSlots(cs: seq<Client>, u: nat): (n: nat)
    decreases |cs|
  {
    if cs == [] then 0 else InQueue(cs[0].sendQueue, u) + InSlots(cs[1..], u)
  }

  function OnWire(log: seq<Delivery>, u: nat): (n: nat)
    decreases |log|
  {
    if log == [] then 0 else About(log[0].reply, u) + OnWire(log[1..], u)
  }

  /** Replies to frame `u` queued or sent are no more than the times it was answered or refused. */
  predicate Backed(s: State, u: nat)
  {
    InSlots(s.clients, u) + OnWire(s.delivered, u) <= Times(s.answered, u) + Times(s.refused, u)
  }

  lemma {:induction false} InQueueAppend(q: seq<Reply>, r: Reply, u: nat)
    ensures InQueue(q + [r], u) == InQueue(q, u) + About(r, u)
    decreases |q|
  {
    if q == [] {
      assert (q + [r])[1..] == [];
    } else {
      assert (q + [r])[1..] == q[1..] + [r];
      InQueueAppend(q[1..], r, u);
    }
  }

  lemma InQueuePushed(q: seq<Reply>, r: Reply, u: nat)
    ensures InQueue(Pushed(q, r, SEND_QUEUE), u) <= InQueue(q, u) + About(r, u)
  {
    InQueueAppend(q, r, u);
    if |q| == SEND_QUEUE { InQueueAppend(q[1..], r, u); }
  }

  lemma {:induction false} OnWireAppend(log: seq<Delivery>, d: Delivery, u: nat)
    ensures OnWire(log + [d], u) == OnWire(log, u) + About(d.reply, u)
    decreases |log|
  {
    if log == [] {
      assert (log + [d])[1..] == [];
    } else {
      assert (log + [d])[1..] == log[1..] + [d];
      OnWireAppend(log[1..], d, u);
    }
  }

  lemma {:induction false} InSlotsUpdate(cs: seq<Client>, k: nat, c: Client, u: nat)
    requires k < |cs|
    ensures InSlots(cs[k := c], u) == InSlots(cs, u) - InQueue(cs[k].sendQueue, u) + InQueue(c.sendQueue, u)
    decreases |cs|
  {
    if k == 0 {
      assert cs[k := c][1..] == cs[1..];
    } else {
      assert cs[k := c][1..] == cs[1..][k - 1 := c];
      InSlotsUpdate(cs[1..], k - 1, c, u);
    }
  }

  /** A step that leaves the outgoing rings, what was sent and what was answered as they are. */
  lemma BackedSame(s: State, s': State, fd: int, u: nat)
    requires |s.clients| == |s'.clients| == FD_SETSIZE && Backed(s, u)
    requires s'.delivered == s.delivered && s'.answered == s.answered && s'.refused == s.refused
    requires if InTable(fd) then s'.clients == s.clients[fd := s'.clients[fd]] && Emptied(s, s', fd)
             else s'.clients == s.clients
    ensures Backed(s', u)
  {
    if InTable(fd) { InSlotsUpdate(s.clients, fd, s'.clients[fd], u); }
  }

  predicate Emptied(s: State, s': State, fd: int)
    requires |s.clients| == |s'.clients| == FD_SETSIZE && InTable(fd)
  {
    s'.clients[fd].sendQueue == s.clients[fd].sendQueue || s'.clients[fd].sendQueue == []
  }

  lemma QueueToCount(s: State, fd: int, r: Reply, u: nat)
    requires |s.clients| == FD_SETSIZE
    ensures InSlots(QueueTo(s, fd, r).clients, u) <= InSlots(s.clients, u) + About(r, u)
    ensures var s' := QueueTo(s, fd, r);
            s'.delivered == s.delivered && s'.answered == s.answered && s'.refused == s.refused
  {
    hide InSlots, InQueue, Pushed;
    if InTable(fd) {
      var q := s.clients[fd].sendQueue;
      InQueuePushed(q, r, u);
      InSlotsUpdate(s.clients, fd, s.clients[fd].(sendQueue := Pushed(q, r, SEND_QUEUE)), u);
    }
  }

  lemma KeepsQueueing(s: State, a: Action, u: nat)
    requires Inv(s) && Enabled(s, a) && Backed(s, u) && (a.QueueNack? || a.QueueBusy? || a.Handle?)
    ensures Backed(Apply(s, a), u)
  {
    hide InSlots, OnWire, Times, QueueTo, IoOwned, QueueOwned, WorkersOwned, Slots, Delivered, Accounted;
    if a.QueueNack? {
      NackSerial(s);
      QueueToCount(s, s.io.at, s.io.nack, u);
    } else if a.QueueBusy? {
      var t := s.io.task;
      QueueToCount(s, t.fd, Reply(t.frame.number, t.from, t.serial), u);
      TimesAppend(s.refused, t.serial, u);
    } else {
      HandleCount(s, a.w, u);
    }
  }

  lemma NackSerial(s: State)
    requires Inv(s) && s.io.IoNack?
    ensures s.io.nack.serial == -1
  {
  }

  lemma HandleCount(s: State, w: nat, u: nat)
    requires |s.clients| == FD_SETSIZE && Enabled(s, Handle(w)) && Backed(s, u)
    ensures Backed(DoHandle(s, w), u)
  {
    hide InSlots, OnWire, Times, QueueTo;
    var t := s.workers[w].task;
    var s1 := s.(workers := s.workers[w := Finishing(t)]);
    if Answers(t.frame.cmd) {
      QueueToCount(s1, t.fd, Reply(t.frame.number, t.from, t.serial), u);
      TimesAppend(s.answered, t.serial, u);
    } else if t.frame.cmd == SHUTDOWN_PEER && InTable(t.fd) {
      InSlotsUpdate(s.clients, t.fd, s.clients[t.fd].(pendingClose := true), u);
    }
  }

  lemma KeepsSending(s: State, fd: int, sent: SendOutcome, u: nat)
    requires |s.clients| == FD_SETSIZE && Enabled(s, Send(fd, sent)) && Backed(s, u)
    ensures Backed(Apply(s, Send(fd, sent)), u)
  {
    hide InSlots, OnWire, Times;
    var c, s' := s.clients[fd], Apply(s, Send(fd, sent));
    InSlotsUpdate(s.clients, fd, s'.clients[fd], u);
    if sent.Sent? { OnWireAppend(s.delivered, Delivery(s.kernel[fd], c.sendQueue[0]), u); }
  }

  /** The slot an action changes without queueing or sending anything. */
  function Changed(s: State, a: Action): (fd: int)
  {
    match a
    case Accept(fd, _) => fd
    case Hangup(fd) => fd
    case EndRead(_) => if s.io.IoReading? then s.io.fd else -1
    case Undo => if s.io.IoUndo? then s.io.task.fd else -1
    case ReapReset => if s.io.IoClosed? then s.io.slot else -1
    case Finish(w) => if w < |s.workers| && s.workers[w].Finishing? then s.workers[w].task.fd else -1
    case _ => -1
  }

  lemma KeepsElsewhere(s: State, a: Action, u: nat)
    requires |s.clients| == FD_SETSIZE && Enabled(s, a) && Backed(s, u)
    requires !(a.QueueNack? || a.QueueBusy? || a.Handle? || a.Send?)
    ensures Backed(Apply(s, a), u)
  {
    hide Backed;
    var s', fd := Apply(s, a), Changed(s, a);
    if InTable(fd) {
      assert s'.clients == s.clients[fd := s'.clients[fd]];
    }
    BackedSame(s, s', fd, u);
  }

  lemma {:induction false} EveryReplyBacked(ss: seq<State>, steps: seq<Action>, i: nat, u: nat)
    requires Run(ss, steps) && i < |ss|
    ensures Backed(ss[i], u)
    decreases i
  {
    if i == 0 {
      NothingQueued(ss[0].clients, u);
    } else {
      hide Backed, Inv, Enabled, Apply, Init, Run;
      StepAt(ss, steps, i - 1);
      EveryReplyBacked(ss, steps, i - 1, u);
      EveryState(ss, steps, i - 1);
      var s, a := ss[i - 1], steps[i - 1];
      if a.QueueNack? || a.QueueBusy? || a.Handle? {
        KeepsQueueing(s, a, u);
      } else if a.Send? {
        KeepsSending(s, a.fd, a.sent, u);
      } else {
        KeepsElsewhere(s, a, u);
      }
    }
  }

  lemma {:induction false} NothingQueued(cs: seq<Client>, u: nat)
    requires forall k :: 0 <= k < |cs| ==> cs[k] == FRESH_SLOT
    ensures InSlots(cs, u) == 0
    decreases |cs|
  {
    if cs != [] { NothingQueued(cs[1..], u); }
  }

  /** In every run at most one reply to an accepted frame is ever sent, and none to a frame whose
      command asks for none unless it was refused as busy. */
  lemma AtMostOneReply(ss: seq<State>, steps: seq<Action>, i: nat, u: nat)
    requires Run(ss, steps) && i < |ss| && u < |ss[i].accepted|
    ensures OnWire(ss[i].delivered, u) <= 1
    ensures !Answers(ss[i].accepted[u].frame.cmd) ==> OnWire(ss[i].delivered, u) <= Times(ss[i].refused, u)
  {
    EveryReplyBacked(ss, steps, i, u);
    AccountedExactlyOnce(ss, steps, i, u);
  }
}

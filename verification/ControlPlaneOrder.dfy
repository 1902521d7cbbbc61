/** The order of replies over whole runs of the control-plane server: every connection is sent some of
    the replies issued to it, in the order in which they were issued. */
module ControlPlaneOrder {
  import opened Lists
  import opened Rings
  import opened ControlPlane
  import S = ControlPlaneSafety

  /** The reply a step issues: the refusal of a damaged or refused frame, or a worker's answer. */
  function Issued(s: State, a: Action): (rs: seq<Reply>)
    requires |s.clients| == FD_SETSIZE && Enabled(s, a)
  {
    match a
    case QueueNack => [s.io.nack]
    case QueueBusy => [ReplyTo(s.io.task)]
    case Handle(w) => if Answers(s.workers[w].task.frame.cmd) then [ReplyTo(s.workers[w].task)] else []
    case _ => []
  }

  function ReplyTo(t: Task): (r: Reply) { Reply(t.frame.number, t.from, t.serial) }

  /** The replies issued in the first `i` steps of a run to connection `p`. */
  ghost function IssuedTo(ss: seq<State>, steps: seq<Action>, i: nat, p: Peer): (rs: seq<Reply>)
    requires S.Run(ss, steps) && i < |ss|
    decreases i
  {
    if i == 0 then []
    else
      assert S.Takes(ss[i - 1], steps[i - 1], ss[i]);
      IssuedTo(ss, steps, i - 1, p) + To(Issued(ss[i - 1], steps[i - 1]), p)
  }

  /** Those of at most one reply that answer `p`. */
  function To(rs: seq<Reply>, p: Peer): (r: seq<Reply>) { if rs != [] && rs[0].answers == p then rs else [] }

  /** What has been sent to `p`. */
  function SentTo(log: seq<Delivery>, p: Peer): (rs: seq<Reply>)
    decreases |log|
  {
    if log == [] then []
    else
      var d := log[|log| - 1];
      SentTo(log[..|log| - 1], p) + (if d.to == p then [d.reply] else [])
  }

  /** Open descriptors belong to different connections, and new connections are new. */
  ghost predicate Apart(s: State)
  {
    && (forall fd :: fd in s.kernel ==> s.kernel[fd] < s.peers)
    && (forall fd, fd' :: fd in s.kernel && fd' in s.kernel && s.kernel[fd] == s.kernel[fd'] ==> fd == fd')
  }

  ghost predicate Holds(s: State, fd: int, p: Peer) { InTable(fd) && fd in s.kernel && s.kernel[fd] == p }

  /** What was sent to `p`, and what is queued for it, are of the replies issued, in order. */
  ghost predicate Lined(s: State, p: Peer, issued: seq<Reply>)
  {
    && |s.clients| == FD_SETSIZE && Within(SentTo(s.delivered, p), issued)
    && (forall fd :: Holds(s, fd, p) ==> Within(SentTo(s.delivered, p) + s.clients[fd].sendQueue, issued))
  }

  lemma PushedLined(sent: seq<Reply>, q: seq<Reply>, r: Reply, issued: seq<Reply>)
    requires Within(sent + q, issued)
    ensures Within(sent + Pushed(q, r, SEND_QUEUE), issued + [r])
  {
    hide Within;
    WithinAppend(sent + q, issued, r);
    assert sent + q + [r] == sent + (q + [r]);
    if |q| == SEND_QUEUE {
      assert q + [r] == [q[0]] + (q[1..] + [r]);
      assert sent + (q + [r]) == sent + [q[0]] + (q[1..] + [r]);
      WithinDrop(sent, q[0], q[1..] + [r], issued + [r]);
    }
  }

  /** The reply `r` is queued for the connection it answers. */
  lemma QueueingLined(s: State, s': State, fd: int, r: Reply, p: Peer, issued: seq<Reply>)
    requires Lined(s, p, issued) && Apart(s) && |s'.clients| == FD_SETSIZE
    requires InTable(fd) && fd in s.kernel && s.kernel[fd] == r.answers
    requires s'.kernel == s.kernel && s'.delivered == s.delivered
    requires s'.clients[fd].sendQueue == Pushed(s.clients[fd].sendQueue, r, SEND_QUEUE)
    requires forall i :: 0 <= i < FD_SETSIZE && i != fd ==> s'.clients[i] == s.clients[i]
    ensures Lined(s', p, issued + To([r], p))
  {
    hide Within, SentTo, Pushed;
    var sent := SentTo(s.delivered, p);
    if r.answers == p {
      WithinMore(sent, issued, r);
      assert Holds(s, fd, p);
      PushedLined(sent, s.clients[fd].sendQueue, r, issued);
    } else {
      assert issued + [] == issued;
      forall f | Holds(s', f, p) ensures Within(sent + s'.clients[f].sendQueue, issued) { assert Holds(s, f, p); }
    }
  }

  /** The queue of an open descriptor stays as it is, or is that of a new connection. */
  ghost predicate SameQueue(s: State, s': State, fd: int, p: Peer)
    requires |s.clients| == |s'.clients| == FD_SETSIZE
  {
    Holds(s', fd, p) ==>
      s'.clients[fd].sendQueue == [] || (Holds(s, fd, p) && s'.clients[fd].sendQueue == s.clients[fd].sendQueue)
  }

  lemma QuietLined(s: State, s': State, p: Peer, issued: seq<Reply>)
    requires Lined(s, p, issued) && |s'.clients| == FD_SETSIZE && s'.delivered == s.delivered
    requires forall fd :: SameQueue(s, s', fd, p)
    ensures Lined(s', p, issued)
  {
    hide Within, SentTo;
    var sent := SentTo(s.delivered, p);
    assert sent + [] == sent;
    forall fd | Holds(s', fd, p) ensures Within(sent + s'.clients[fd].sendQueue, issued) {
      assert SameQueue(s, s', fd, p);
    }
  }

  lemma SentMore(s: State, fd: int, sent: SendOutcome, p: Peer)
    requires |s.clients| == FD_SETSIZE && Enabled(s, Send(fd, sent))
    ensures SentTo(DoSend(s, fd, sent).delivered, p) == SentTo(s.delivered, p) +
            (if sent == Sent && s.kernel[fd] == p then [s.clients[fd].sendQueue[0]] else [])
  {
    var s' := DoSend(s, fd, sent);
    if sent == Sent {
      assert s'.delivered[..|s.delivered|] == s.delivered;
    } else {
      assert SentTo(s.delivered, p) + [] == SentTo(s.delivered, p);
    }
  }

  lemma SendQueues(s: State, fd: int, sent: SendOutcome, f: int)
    requires |s.clients| == FD_SETSIZE && Enabled(s, Send(fd, sent)) && InTable(f)
    ensures var s', q := DoSend(s, fd, sent), s.clients[f].sendQueue;
            && s'.kernel == s.kernel
            && s'.clients[f].sendQueue == (if f == fd && sent != Blocked then q[1..] else q)
  {
  }

  lemma SendLined(s: State, fd: int, sent: SendOutcome, p: Peer, issued: seq<Reply>)
    requires Lined(s, p, issued) && Apart(s) && Enabled(s, Send(fd, sent))
    ensures Lined(DoSend(s, fd, sent), p, issued)
  {
    SentMore(s, fd, sent, p);
    SendQueues(s, fd, sent, fd);
    assert InTable(fd) && fd in s.kernel && s.clients[fd].sendQueue != [];
    hide Within, SentTo, DoSend, Enabled;
    var s', q, had := DoSend(s, fd, sent), s.clients[fd].sendQueue, SentTo(s.delivered, p);
    assert had + [] == had;
    if s.kernel[fd] == p {
      assert Holds(s, fd, p);
      HeadLined(had, q, sent, issued);
    }
    forall f | Holds(s', f, p) ensures Within(SentTo(s'.delivered, p) + s'.clients[f].sendQueue, issued) {
      assert Holds(s, f, p);
      if f != fd { SendElsewhere(s, fd, sent, f); }
    }
  }

  lemma SendElsewhere(s: State, fd: int, sent: SendOutcome, f: int)
    requires |s.clients| == FD_SETSIZE && Enabled(s, Send(fd, sent)) && InTable(f) && f != fd
    ensures DoSend(s, fd, sent).clients[f].sendQueue == s.clients[f].sendQueue
  {
  }

  /** What one reply less in the queue does to the line, sent or given up. */
  lemma HeadLined(had: seq<Reply>, q: seq<Reply>, sent: SendOutcome, issued: seq<Reply>)
    requires q != [] && Within(had + q, issued) && Within(had, issued)
    ensures sent == Sent ==> Within(had + [q[0]] + q[1..], issued) && Within(had + [q[0]], issued)
    ensures sent == Broken ==> Within(had + [] + q[1..], issued)
  {
    hide Within;
    assert had + q == had + [q[0]] + q[1..];
    WithinPrefix(had + [q[0]], q[1..], issued);
    WithinDrop(had, q[0], q[1..], issued);
    assert had + [] == had;
  }

  lemma KeepsLined(s: State, a: Action, p: Peer, issued: seq<Reply>)
    requires S.Inv(s) && Apart(s) && Enabled(s, a) && Lined(s, p, issued)
    ensures Lined(Apply(s, a), p, issued + To(Issued(s, a), p))
  {
    hide Within, SentTo, Pushed, Lined, Apart;
    assert issued + [] == issued;
    if a.Send? {
      SendLined(s, a.fd, a.sent, p, issued);
    } else if Issued(s, a) != [] {
      IssueLined(s, a, p, issued);
    } else {
      hide Apply, Enabled, S.Inv;
      forall fd ensures SameQueue(s, Apply(s, a), fd, p) { OtherQueues(s, a, fd, p); }
      OtherLog(s, a);
      QuietLined(s, Apply(s, a), p, issued);
    }
  }

  /** A reply is queued on the slot of the connection that it answers. */
  lemma IssuedAt(s: State, a: Action) returns (fd: int)
    requires S.Inv(s) && Enabled(s, a) && Issued(s, a) != []
    ensures var s', r := Apply(s, a), Issued(s, a)[0];
            && Holds(s, fd, r.answers) && s'.kernel == s.kernel && s'.delivered == s.delivered
            && s'.clients[fd].sendQueue == Pushed(s.clients[fd].sendQueue, r, SEND_QUEUE)
            && forall i :: 0 <= i < FD_SETSIZE && i != fd ==> s'.clients[i] == s.clients[i]
  {
    hide Pushed;
    fd :=
      match a
      case QueueNack => s.io.at
      case QueueBusy => s.io.task.fd
      case Handle(w) => s.workers[w].task.fd
      case _ => 0;
    assert S.IoOwned(s) && S.WorkersOwned(s);
    if a.Handle? { assert S.Owned(s, s.workers[a.w].task); }
  }

  lemma IssueLined(s: State, a: Action, p: Peer, issued: seq<Reply>)
    requires S.Inv(s) && Apart(s) && Enabled(s, a) && Lined(s, p, issued) && Issued(s, a) != []
    ensures Lined(Apply(s, a), p, issued + To(Issued(s, a), p))
  {
    hide Within, SentTo, Pushed, Lined, Apart;
    var r, s' := Issued(s, a)[0], Apply(s, a);
    assert Issued(s, a) == [r];
    var fd := IssuedAt(s, a);
    QueueingLined(s, s', fd, r, p, issued);
  }

  lemma OtherStays(s: State, a: Action, fd: int)
    requires |s.clients| == FD_SETSIZE && Enabled(s, a) && !a.Send? && !a.Accept? && Issued(s, a) == [] && InTable(fd)
    ensures Apply(s, a).clients[fd].sendQueue == s.clients[fd].sendQueue
  {
    if a.Dequeue? || a.Check? || a.Handle? || a.Finish? {
      hide Picked, Live;
    } else {
      hide Picked, Live, Decremented;
    }
  }

  lemma OtherQueues(s: State, a: Action, fd: int, p: Peer)
    requires |s.clients| == FD_SETSIZE && Enabled(s, a) && !a.Send? && Issued(s, a) == []
    ensures SameQueue(s, Apply(s, a), fd, p)
  {
    if !a.Accept? {
      if a != ReapClose { OtherKernel(s, a); }
      if InTable(fd) { OtherStays(s, a, fd); }
      assert fd in Apply(s, a).kernel ==> fd in s.kernel && s.kernel[fd] == Apply(s, a).kernel[fd];
      hide Apply, Enabled, Issued;
    }
  }

  lemma OtherLog(s: State, a: Action)
    requires |s.clients| == FD_SETSIZE && Enabled(s, a) && !a.Send?
    ensures Apply(s, a).delivered == s.delivered
  {
    hide Picked, Live;
  }

  lemma OtherKernel(s: State, a: Action)
    requires |s.clients| == FD_SETSIZE && Enabled(s, a) && !a.Accept? && a != ReapClose
    ensures Apply(s, a).kernel == s.kernel && Apply(s, a).peers == s.peers
  {
    hide Picked, Live;
  }

  lemma KeepsApart(s: State, a: Action)
    requires |s.clients| == FD_SETSIZE && Enabled(s, a) && Apart(s)
    ensures Apart(Apply(s, a))
  {
    if !a.Accept? && a != ReapClose {
      hide Apply, Enabled;
      OtherKernel(s, a);
    }
  }

  lemma {:induction false} EveryApart(ss: seq<State>, steps: seq<Action>, i: nat)
    requires S.Run(ss, steps) && i < |ss|
    ensures Apart(ss[i])
    decreases i
  {
    if i > 0 {
      hide Enabled, Apply, Apart, S.Run;
      EveryApart(ss, steps, i - 1);
      S.StepAt(ss, steps, i - 1);
      KeepsApart(ss[i - 1], steps[i - 1]);
    }
  }

  lemma FirstLined(s: State, p: Peer)
    requires Init(s)
    ensures Lined(s, p, [])
  {
  }

  lemma IssuedStep(ss: seq<State>, steps: seq<Action>, i: nat, p: Peer)
    requires S.Run(ss, steps) && i < |steps|
    ensures S.Takes(ss[i], steps[i], ss[i + 1])
    ensures IssuedTo(ss, steps, i + 1, p) == IssuedTo(ss, steps, i, p) + To(Issued(ss[i], steps[i]), p)
  {
    hide Enabled, Apply, Issued, To, Init;
    assert S.Takes(ss[i], steps[i], ss[i + 1]);
  }

  lemma {:induction false} EveryLined(ss: seq<State>, steps: seq<Action>, i: nat, p: Peer)
    requires S.Run(ss, steps) && i < |ss|
    ensures Lined(ss[i], p, IssuedTo(ss, steps, i, p))
    decreases i
  {
    hide Enabled, Apply, Init, Apart, Lined, Issued, S.Inv, To, IssuedTo;
    if i == 0 {
      FirstLined(ss[0], p);
      NoneIssued(ss, steps, p);
    } else {
      hide S.Run;
      IssuedStep(ss, steps, i - 1, p);
      EveryLined(ss, steps, i - 1, p);
      EveryApart(ss, steps, i - 1);
      S.EveryState(ss, steps, i - 1);
      KeepsLined(ss[i - 1], steps[i - 1], p, IssuedTo(ss, steps, i - 1, p));
    }
  }

  lemma NoneIssued(ss: seq<State>, steps: seq<Action>, p: Peer)
    requires S.Run(ss, steps)
    ensures IssuedTo(ss, steps, 0, p) == []
  {
    hide Init, Enabled, Apply;
  }

  /** In every run, what a connection has been sent, followed by what is queued for it while it is
      open, are some of the replies issued to it, each at most as often and in the same order. */
  lemma RepliesInOrder(ss: seq<State>, steps: seq<Action>, i: nat, p: Peer)
    requires S.Run(ss, steps) && i < |ss|
    ensures Within(SentTo(ss[i].delivered, p), IssuedTo(ss, steps, i, p))
    ensures forall fd :: Holds(ss[i], fd, p) && fd < |ss[i].clients| ==>
              Within(SentTo(ss[i].delivered, p) + ss[i].clients[fd].sendQueue, IssuedTo(ss, steps, i, p))
  {
    hide Within, SentTo;
    EveryLined(ss, steps, i, p);
  }

  // ---- None is lost without cause ----

  /** The step loses a reply of `p`: it issues one while sixteen wait, or its send breaks. */
  ghost predicate Loses(s: State, a: Action, p: Peer)
    requires |s.clients| == FD_SETSIZE && Enabled(s, a)
  {
    || (a.Send? && a.sent == Broken && s.kernel[a.fd] == p)
    || (To(Issued(s, a), p) != [] && exists fd :: Holds(s, fd, p) && |s.clients[fd].sendQueue| == SEND_QUEUE)
  }

  /** How many of the first `i` steps lose a reply of `p`. */
  ghost function LossesOf(ss: seq<State>, steps: seq<Action>, i: nat, p: Peer): (n: nat)
    requires S.Run(ss, steps) && i < |ss|
    decreases i
  {
    if i == 0 then 0
    else
      assert S.Takes(ss[i - 1], steps[i - 1], ss[i]);
      LossesOf(ss, steps, i - 1, p) + (if Loses(ss[i - 1], steps[i - 1], p) then 1 else 0)
  }

  /** All of `n` replies were sent to `p`, wait for it, or were lost. */
  ghost predicate Counted(s: State, p: Peer, n: int)
  {
    && |s.clients| == FD_SETSIZE
    && (forall fd :: Holds(s, fd, p) ==> |SentTo(s.delivered, p)| + |s.clients[fd].sendQueue| == n)
    && ((forall fd :: !Holds(s, fd, p)) ==> |SentTo(s.delivered, p)| == n)
  }

  lemma SendCounted(s: State, fd: int, sent: SendOutcome, p: Peer, n: int)
    requires Apart(s) && Counted(s, p, n) && Enabled(s, Send(fd, sent))
    ensures Counted(DoSend(s, fd, sent), p, if Loses(s, Send(fd, sent), p) then n - 1 else n)
  {
    var s' := DoSend(s, fd, sent);
    assert InTable(fd) && fd in s.kernel && s.clients[fd].sendQueue != [];
    assert Loses(s, Send(fd, sent), p) <==> sent == Broken && s.kernel[fd] == p;
    hide SentTo, DoSend, Enabled, Loses;
    SentMore(s, fd, sent, p);
    forall f | InTable(f)
      ensures s'.kernel == s.kernel
      ensures s'.clients[f].sendQueue ==
              (if f == fd && sent != Blocked then s.clients[f].sendQueue[1..] else s.clients[f].sendQueue)
    {
      SendQueues(s, fd, sent, f);
    }
    assert InTable(0) && s'.kernel == s.kernel;
    forall f ensures Holds(s', f, p) <==> Holds(s, f, p) { }
    if s.kernel[fd] == p { assert Holds(s, fd, p) && Holds(s', fd, p); }
  }

  lemma QueueingCounted(s: State, s': State, fd: int, r: Reply, p: Peer, n: int)
    requires Counted(s, p, n) && Apart(s) && |s'.clients| == FD_SETSIZE && Holds(s, fd, r.answers)
    requires s'.kernel == s.kernel && s'.delivered == s.delivered
    requires s'.clients[fd].sendQueue == Pushed(s.clients[fd].sendQueue, r, SEND_QUEUE)
    requires forall i :: 0 <= i < FD_SETSIZE && i != fd ==> s'.clients[i] == s.clients[i]
    ensures r.answers != p || |s.clients[fd].sendQueue| == SEND_QUEUE ==> Counted(s', p, n)
    ensures r.answers == p && |s.clients[fd].sendQueue| != SEND_QUEUE ==> Counted(s', p, n + 1)
  {
    hide SentTo;
    forall f ensures Holds(s', f, p) <==> Holds(s, f, p) { }
    forall f | Holds(s, f, p) && f != fd ensures s'.clients[f].sendQueue == s.clients[f].sendQueue { }
  }

  lemma IssueCounted(s: State, a: Action, p: Peer, n: int)
    requires S.Inv(s) && Apart(s) && Enabled(s, a) && Counted(s, p, n) && Issued(s, a) != []
    ensures Counted(Apply(s, a), p, n + |To(Issued(s, a), p)| - (if Loses(s, a, p) then 1 else 0))
  {
    hide SentTo, Pushed, Counted, Apart;
    var r := Issued(s, a)[0];
    assert Issued(s, a) == [r];
    var fd := IssuedAt(s, a);
    assert Holds(s, fd, r.answers) && !a.Send?;
    assert r.answers == p ==> (Loses(s, a, p) <==> |s.clients[fd].sendQueue| == SEND_QUEUE) by {
      if r.answers == p { OneHolder(s, fd, p); }
    }
    QueueingCounted(s, Apply(s, a), fd, r, p, n);
  }

  lemma OneHolder(s: State, fd: int, p: Peer)
    requires Apart(s) && Holds(s, fd, p)
    ensures forall f :: Holds(s, f, p) ==> f == fd
  {
  }

  /** Without a reply to or from it, a connection's count stays: it is closed only with none waiting. */
  lemma QuietCounted(s: State, a: Action, p: Peer, n: int)
    requires S.Inv(s) && Apart(s) && Enabled(s, a) && Counted(s, p, n) && !a.Send? && Issued(s, a) == []
    ensures Counted(Apply(s, a), p, n)
  {
    OtherLog(s, a);
    if a.Accept? {
      hide SentTo, S.Inv, Picked;
      var s' := Apply(s, a);
      forall fd | Holds(s, fd, p) ensures Holds(s', fd, p) && s'.clients[fd] == s.clients[fd] { }
    } else {
      hide S.Inv, Counted, Apart, Picked;
      ElsewhereCounted(s, a, p, n);
    }
  }

  lemma ElsewhereCounted(s: State, a: Action, p: Peer, n: int)
    requires S.Inv(s) && Enabled(s, a) && Counted(s, p, n) && !a.Send? && !a.Accept? && Issued(s, a) == []
    requires Apply(s, a).delivered == s.delivered
    ensures Counted(Apply(s, a), p, n)
  {
    var s' := Apply(s, a);
    forall fd | InTable(fd) ensures s'.clients[fd].sendQueue == s.clients[fd].sendQueue { OtherStays(s, a, fd); }
    if a == ReapClose {
      assert S.IoOwned(s);
      hide SentTo, S.Inv;
      forall fd | Holds(s, fd, p) ensures Holds(s', fd, p) || s.clients[fd].sendQueue == [] { }
    } else {
      OtherKernel(s, a);
      hide SentTo, S.Inv, Apply, Enabled;
      forall fd ensures Holds(s', fd, p) <==> Holds(s, fd, p) { }
    }
  }

  lemma KeepsCounted(s: State, a: Action, p: Peer, n: int)
    requires S.Inv(s) && Apart(s) && Enabled(s, a) && Counted(s, p, n)
    ensures Counted(Apply(s, a), p, n + |To(Issued(s, a), p)| - (if Loses(s, a, p) then 1 else 0))
  {
    hide Counted, Apart;
    if a.Send? {
      SendCounted(s, a.fd, a.sent, p, n);
    } else if Issued(s, a) != [] {
      IssueCounted(s, a, p, n);
    } else {
      QuietCounted(s, a, p, n);
    }
  }

  lemma LossStep(ss: seq<State>, steps: seq<Action>, i: nat, p: Peer)
    requires S.Run(ss, steps) && i < |steps|
    ensures S.Takes(ss[i], steps[i], ss[i + 1])
    ensures LossesOf(ss, steps, i + 1, p) == LossesOf(ss, steps, i, p) + (if Loses(ss[i], steps[i], p) then 1 else 0)
  {
    hide Enabled, Apply, Issued, Loses, Init;
    assert S.Takes(ss[i], steps[i], ss[i + 1]);
  }

  lemma FirstCounted(ss: seq<State>, steps: seq<Action>, p: Peer)
    requires S.Run(ss, steps)
    ensures Counted(ss[0], p, 0) && LossesOf(ss, steps, 0, p) == 0
  {
    hide Enabled, Apply;
  }

  lemma {:induction false} EveryCounted(ss: seq<State>, steps: seq<Action>, i: nat, p: Peer)
    requires S.Run(ss, steps) && i < |ss|
    ensures Counted(ss[i], p, |IssuedTo(ss, steps, i, p)| - LossesOf(ss, steps, i, p))
    decreases i
  {
    hide Enabled, Apply, Init, Apart, Counted, Issued, S.Inv, To, IssuedTo, LossesOf, Loses;
    if i == 0 {
      FirstCounted(ss, steps, p);
      NoneIssued(ss, steps, p);
    } else {
      assert i - 1 < |steps|;
      hide S.Run;
      IssuedStep(ss, steps, i - 1, p);
      LossStep(ss, steps, i - 1, p);
      EveryCounted(ss, steps, i - 1, p);
      EveryApart(ss, steps, i - 1);
      S.EveryState(ss, steps, i - 1);
      KeepsCounted(ss[i - 1], steps[i - 1], p, |IssuedTo(ss, steps, i - 1, p)| - LossesOf(ss, steps, i - 1, p));
    }
  }

  /** In every run, every reply issued to a connection has been sent to it, waits for it, or was lost by
      a step that overflows its ring or whose send breaks; none is left behind when it is closed. */
  lemma RepliesConserved(ss: seq<State>, steps: seq<Action>, i: nat, p: Peer)
    requires S.Run(ss, steps) && i < |ss|
    ensures forall fd :: Holds(ss[i], fd, p) && fd < |ss[i].clients| ==>
              |SentTo(ss[i].delivered, p)| + |ss[i].clients[fd].sendQueue| + LossesOf(ss, steps, i, p)
              == |IssuedTo(ss, steps, i, p)|
    ensures (forall fd :: !Holds(ss[i], fd, p)) ==>
              |SentTo(ss[i].delivered, p)| + LossesOf(ss, steps, i, p) == |IssuedTo(ss, steps, i, p)|
  {
    hide SentTo, IssuedTo, LossesOf, S.Run;
    EveryCounted(ss, steps, i, p);
  }
}

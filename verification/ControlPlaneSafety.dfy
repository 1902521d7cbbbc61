/** What every step of the control-plane server keeps, whatever the interleaving: slots are never
    closed or reused under an outstanding task, replies go back to the peer that asked, and every
    accepted frame is accounted for exactly once. */
module ControlPlaneSafety {
  import opened Lists
  import opened Rings
  import opened ControlPlane

  // ---- Counting the outstanding tasks ----

  /** Which tasks to count: those of a slot, or the one task of an accepted frame. */
  datatype Sel = ByFd(fd: int) | BySerial(serial: nat)

  function Is(sel: Sel, t: Task): (n: nat)
  {
    match sel
    case ByFd(fd) => if t.fd == fd then 1 else 0
    case BySerial(u) => if t.serial == u then 1 else 0
  }

  function Tally(ts: seq<Task>, sel: Sel): (n: nat)
    decreases |ts|
  {
    if ts == [] then 0 else Is(sel, ts[0]) + Tally(ts[1..], sel)
  }

  /** Tasks a worker still owes something: its slot a decrement, or its frame an outcome. */
  function Owes(w: Worker, sel: Sel): (n: nat)
  {
    match w
    case Idle => 0
    case Checking(t) => Is(sel, t)
    case Handling(t) => Is(sel, t)
    case Finishing(t) => if sel.ByFd? then Is(sel, t) else 0
  }

  function WorkersOwe(ws: seq<Worker>, sel: Sel): (n: nat)
    decreases |ws|
  {
    if ws == [] then 0 else Owes(ws[0], sel) + WorkersOwe(ws[1..], sel)
  }

  function IoOwes(io: Io, sel: Sel): (n: nat)
  {
    if io.IoHolding? || io.IoUndo? || io.IoCrashed? then Is(sel, io.task)
    else if io.IoBusy? && sel.BySerial? then Is(sel, io.task)
    else 0
  }

  function Outstanding(s: State, sel: Sel): (n: nat)
  {
    IoOwes(s.io, sel) + Tally(s.high, sel) + Tally(s.medium, sel) + Tally(s.low, sel) + WorkersOwe(s.workers, sel)
  }

  lemma {:induction false} TallyAppend(ts: seq<Task>, t: Task, sel: Sel)
    ensures Tally(ts + [t], sel) == Tally(ts, sel) + Is(sel, t)
    decreases |ts|
  {
    if ts == [] {
      assert (ts + [t])[1..] == [];
    } else {
      assert (ts + [t])[1..] == ts[1..] + [t];
      TallyAppend(ts[1..], t, sel);
    }
  }

  lemma {:induction false} WorkerUpdate(ws: seq<Worker>, k: nat, w: Worker, sel: Sel)
    requires k < |ws|
    ensures WorkersOwe(ws[k := w], sel) == WorkersOwe(ws, sel) - Owes(ws[k], sel) + Owes(w, sel)
    decreases |ws|
  {
    if k == 0 {
      assert ws[k := w][1..] == ws[1..];
    } else {
      assert ws[k := w][1..] == ws[1..][k - 1 := w];
      WorkerUpdate(ws[1..], k - 1, w, sel);
    }
  }

  lemma {:induction false} TallyCovers(ts: seq<Task>, k: nat, sel: Sel)
    requires k < |ts|
    ensures Is(sel, ts[k]) <= Tally(ts, sel)
    decreases |ts|
  {
    if k > 0 { TallyCovers(ts[1..], k - 1, sel); }
  }

  lemma {:induction false} WorkersCover(ws: seq<Worker>, k: nat, sel: Sel)
    requires k < |ws|
    ensures Owes(ws[k], sel) <= WorkersOwe(ws, sel)
    decreases |ws|
  {
    if k > 0 { WorkersCover(ws[1..], k - 1, sel); }
  }

  lemma {:induction false} AllIdle(ws: seq<Worker>, sel: Sel)
    requires forall k :: 0 <= k < |ws| ==> ws[k] == Idle
    ensures WorkersOwe(ws, sel) == 0
    decreases |ws|
  {
    if ws != [] { AllIdle(ws[1..], sel); }
  }

  // ---- The invariant ----

  /** The slot still belongs to the connection the task came from. */
  predicate Owned(s: State, t: Task)
    requires |s.clients| == FD_SETSIZE
  {
    && Live(s, t.fd) && s.kernel[t.fd] == t.from
    && s.clients[t.fd].generation == t.generation && s.clients[t.fd].connectionId == t.connectionId
    && t.serial < |s.accepted| && s.accepted[t.serial] == Accepted(t.frame, t.from)
  }

  predicate QueueOwned(s: State, q: seq<Task>)
    requires |s.clients| == FD_SETSIZE
  {
    forall k :: 0 <= k < |q| ==> Owned(s, q[k])
  }

  predicate WorkersOwned(s: State)
    requires |s.clients| == FD_SETSIZE
  {
    forall k :: 0 <= k < |s.workers| ==> s.workers[k] == Idle || Owned(s, s.workers[k].task)
  }

  predicate IoOwned(s: State)
    requires |s.clients| == FD_SETSIZE
  {
    match s.io
    case IoIdle => true
    case IoCrashed(t) => Owned(s, t)
    case IoReading(fd) => Live(s, fd)
    case IoHolding(t) => Owned(s, t)
    case IoUndo(t) => Owned(s, t)
    case IoBusy(t) => Owned(s, t)
    case IoNack(fd, r) => Live(s, fd) && r.answers == s.kernel[fd] && r.serial == -1
    case IoReaping(fd) => InTable(fd) && Reapable(s.clients[fd])
    case IoClosed(fd) => InTable(fd) && Reapable(s.clients[fd]) && fd !in s.kernel
  }

  /** The reply carries the packet number of the accepted frame it answers, and names its sender. */
  predicate Genuine(s: State, r: Reply)
  {
    r.serial != -1 ==>
      && 0 <= r.serial < |s.accepted| && s.accepted[r.serial].from == r.answers
      && s.accepted[r.serial].frame.number == r.number
  }

  /** Everything queued for a slot answers a frame of the connection the slot now belongs to. */
  predicate Addressed(s: State, fd: int)
    requires |s.clients| == FD_SETSIZE && InTable(fd)
  {
    var q := s.clients[fd].sendQueue;
    q == [] || (fd in s.kernel && forall k :: 0 <= k < |q| ==> q[k].answers == s.kernel[fd] && Genuine(s, q[k]))
  }

  predicate Slots(s: State)
    requires |s.clients| == FD_SETSIZE
  {
    forall fd :: 0 <= fd < FD_SETSIZE ==>
      Addressed(s, fd) && s.clients[fd].pendingTask == Outstanding(s, ByFd(fd))
  }

  /** What was sent went to the peer it answers; commands were answered or passed over as they ask. */
  predicate Delivered(s: State)
  {
    && (forall k :: 0 <= k < |s.delivered| ==>
          s.delivered[k].to == s.delivered[k].reply.answers && Genuine(s, s.delivered[k].reply))
    && (forall k :: 0 <= k < |s.answered| ==> Asked(s, s.answered[k], true))
    && (forall k :: 0 <= k < |s.silent| ==> Asked(s, s.silent[k], false))
  }

  predicate Asked(s: State, u: nat, answer: bool)
  {
    u < |s.accepted| && Answers(s.accepted[u].frame.cmd) == answer
  }

  /** Where accepted frame `u` stands, counted over all the places it can be. */
  function Fate(s: State, u: nat): (n: nat)
  {
    Outstanding(s, BySerial(u)) + Times(s.answered, u) + Times(s.refused, u) + Times(s.silent, u)
  }

  ghost predicate Accounted(s: State)
  {
    forall u: nat :: Fate(s, u) == if u < |s.accepted| then 1 else 0
  }

  ghost predicate Inv(s: State)
  {
    && |s.clients| == FD_SETSIZE
    && QueueOwned(s, s.high) && QueueOwned(s, s.medium) && QueueOwned(s, s.low)
    && WorkersOwned(s) && IoOwned(s) && Slots(s) && Delivered(s) && Accounted(s)
  }

  // ---- Frames of the steps ----

  /** Apart from slot `x`, who owns which slot has not changed. */
  ghost predicate Agree(s: State, s': State, x: int)
  {
    && |s.clients| == |s'.clients| == FD_SETSIZE && s.accepted <= s'.accepted
    && (forall fd :: InTable(fd) && fd != x ==> SameOwner(s, s', fd))
  }

  predicate SameOwner(s: State, s': State, fd: int)
    requires |s.clients| == |s'.clients| == FD_SETSIZE && InTable(fd)
  {
    && (fd in s.kernel <==> fd in s'.kernel) && (fd in s.kernel ==> s.kernel[fd] == s'.kernel[fd])
    && s.clients[fd].fd == s'.clients[fd].fd && s.clients[fd].connected == s'.clients[fd].connected
    && s.clients[fd].generation == s'.clients[fd].generation
    && s.clients[fd].connectionId == s'.clients[fd].connectionId
  }

  lemma QueueKept(s: State, s': State, x: int, q: seq<Task>)
    requires Agree(s, s', x) && QueueOwned(s, q)
    requires !InTable(x) || Tally(q, ByFd(x)) == 0
    ensures QueueOwned(s', q)
  {
    forall k | 0 <= k < |q| ensures Owned(s', q[k]) {
      TallyCovers(q, k, ByFd(x));
      assert Owned(s, q[k]) && q[k].fd != x;
      assert SameOwner(s, s', q[k].fd);
    }
  }

  lemma WorkersKept(s: State, s': State, x: int)
    requires Agree(s, s', x) && WorkersOwned(s) && s'.workers == s.workers
    requires !InTable(x) || WorkersOwe(s.workers, ByFd(x)) == 0
    ensures WorkersOwned(s')
  {
    forall k | 0 <= k < |s.workers| && s.workers[k] != Idle ensures Owned(s', s.workers[k].task) {
      WorkersCover(s.workers, k, ByFd(x));
      assert Owned(s, s.workers[k].task) && s.workers[k].task.fd != x;
      assert SameOwner(s, s', s.workers[k].task.fd);
    }
  }

  /** The queues and workers are as before, and so is who owns the slots their tasks name. */
  lemma TasksKept(s: State, s': State, x: int)
    requires Inv(s) && Agree(s, s', x)
    requires s'.high == s.high && s'.medium == s.medium && s'.low == s.low && s'.workers == s.workers
    requires InTable(x) ==> Outstanding(s, ByFd(x)) == 0
    ensures QueueOwned(s', s'.high) && QueueOwned(s', s'.medium) && QueueOwned(s', s'.low) && WorkersOwned(s')
  {
    hide QueueOwned, WorkersOwned, IoOwned, Slots, Delivered, Accounted, Tally, WorkersOwe, Agree;
    QueueKept(s, s', x, s.high);
    QueueKept(s, s', x, s.medium);
    QueueKept(s, s', x, s.low);
    WorkersKept(s, s', x);
  }

  /** One accepted frame moves from the outstanding ones to one of the logs. */
  lemma AccountKept(s: State, s': State)
    requires Accounted(s) && s'.accepted == s.accepted
    requires forall u: nat {:trigger Fate(s', u)} :: Fate(s', u) == Fate(s, u)
    ensures Accounted(s')
  {
    forall u: nat ensures Fate(s', u) == if u < |s'.accepted| then 1 else 0 {
      assert Fate(s, u) == if u < |s.accepted| then 1 else 0;
    }
  }

  // ---- Steps that leave every task where it is ----

  /** The tasks stay where they are; one slot may get a reply, lose one, or be marked for closing. */
  ghost predicate Quiet(s: State, s': State, fd: int)
  {
    && |s.clients| == |s'.clients| == FD_SETSIZE && s'.kernel == s.kernel
    && s'.high == s.high && s'.medium == s.medium && s'.low == s.low && s'.workers == s.workers
    && s'.accepted == s.accepted && s'.answered == s.answered && s'.silent == s.silent
    && (forall i :: 0 <= i < FD_SETSIZE && i != fd ==> s'.clients[i] == s.clients[i])
    && (InTable(fd) ==> SameOwner(s, s', fd) && s'.clients[fd].pendingTask == s.clients[fd].pendingTask)
  }

  lemma AddressedSame(s: State, s': State, fd: int)
    requires |s.clients| == |s'.clients| == FD_SETSIZE && InTable(fd) && SameOwner(s, s', fd)
    requires Addressed(s, fd) && s'.clients[fd].sendQueue == s.clients[fd].sendQueue && s.accepted <= s'.accepted
    ensures Addressed(s', fd)
  {
  }

  lemma QuietKeeps(s: State, s': State, fd: int)
    requires Inv(s) && Quiet(s, s', fd) && IoOwned(s') && Delivered(s')
    requires InTable(fd) ==> Addressed(s', fd)
    requires forall f: int {:trigger IoOwes(s'.io, ByFd(f))} :: IoOwes(s'.io, ByFd(f)) == IoOwes(s.io, ByFd(f))
    requires forall u: nat {:trigger Fate(s', u)} :: Fate(s', u) == Fate(s, u)
    ensures Inv(s')
  {
    assert Agree(s, s', -1);
    TasksKept(s, s', -1);
    AccountKept(s, s');
    forall i | 0 <= i < FD_SETSIZE
      ensures Addressed(s', i) && s'.clients[i].pendingTask == Outstanding(s', ByFd(i))
    {
      assert Addressed(s, i) && s.clients[i].pendingTask == Outstanding(s, ByFd(i));
      if i != fd { AddressedSame(s, s', i); }
      assert IoOwes(s'.io, ByFd(i)) == IoOwes(s.io, ByFd(i));
    }
  }

  lemma QueuedAddressed(s: State, s': State, fd: int, r: Reply)
    requires |s.clients| == |s'.clients| == FD_SETSIZE && InTable(fd) && s'.kernel == s.kernel
    requires Addressed(s, fd) && fd in s.kernel && r.answers == s.kernel[fd]
    requires Genuine(s, r) && s.accepted <= s'.accepted
    requires s'.clients[fd].sendQueue == Pushed(s.clients[fd].sendQueue, r, SEND_QUEUE)
    ensures Addressed(s', fd)
  {
  }

  lemma KeepsHangup(s: State, fd: int)
    requires Inv(s) && Enabled(s, Hangup(fd))
    ensures Inv(Apply(s, Hangup(fd)))
  {
    hide QueueOwned, WorkersOwned, Accounted, Outstanding;
    var s' := Apply(s, Hangup(fd));
    assert Addressed(s, fd);
    forall u: nat ensures Fate(s', u) == Fate(s, u) { OutstandingSame(s, s', BySerial(u)); }
    QuietKeeps(s, s', fd);
  }

  lemma OutstandingSame(s: State, s': State, sel: Sel)
    requires s'.high == s.high && s'.medium == s.medium && s'.low == s.low && s'.workers == s.workers
    requires IoOwes(s'.io, sel) == IoOwes(s.io, sel)
    ensures Outstanding(s', sel) == Outstanding(s, sel)
  {
  }

  lemma KeepsRead(s: State, a: Action)
    requires Inv(s) && Enabled(s, a)
    requires a.StartRead? || (a.EndRead? && !a.outcome.Complete?)
    ensures Inv(Apply(s, a))
  {
    hide QueueOwned, WorkersOwned, Accounted, Outstanding, Delivered;
    var s' := Apply(s, a);
    DeliveredSame(s, s');
    var fd := if a.StartRead? then a.fd else s.io.fd;
    assert Addressed(s, fd);
    forall u: nat ensures Fate(s', u) == Fate(s, u) { OutstandingSame(s, s', BySerial(u)); }
    QuietKeeps(s, s', fd);
  }

  lemma KeepsQueueNack(s: State)
    requires Inv(s) && Enabled(s, QueueNack)
    ensures Inv(Apply(s, QueueNack))
  {
    hide QueueOwned, WorkersOwned, Accounted, Outstanding;
    var s' := Apply(s, QueueNack);
    assert Addressed(s, s.io.at);
    QueuedAddressed(s, s', s.io.at, s.io.nack);
    forall u: nat ensures Fate(s', u) == Fate(s, u) { OutstandingSame(s, s', BySerial(u)); }
    QuietKeeps(s, s', s.io.at);
  }

  lemma KeepsQueueBusy(s: State)
    requires Inv(s) && Enabled(s, QueueBusy)
    ensures Inv(Apply(s, QueueBusy))
  {
    hide QueueOwned, WorkersOwned, Accounted;
    var s', t := Apply(s, QueueBusy), s.io.task;
    assert Addressed(s, t.fd);
    QueuedAddressed(s, s', t.fd, Reply(t.frame.number, t.from, t.serial));
    forall u: nat ensures Fate(s', u) == Fate(s, u) { TimesAppend(s.refused, t.serial, u); }
    QuietKeeps(s, s', t.fd);
  }

  lemma KeepsSend(s: State, fd: int, sent: SendOutcome)
    requires Inv(s) && Enabled(s, Send(fd, sent))
    ensures Inv(Apply(s, Send(fd, sent)))
  {
    hide QueueOwned, WorkersOwned, Accounted, Outstanding;
    var s' := Apply(s, Send(fd, sent));
    assert Addressed(s, fd);
    forall u: nat ensures Fate(s', u) == Fate(s, u) { OutstandingSame(s, s', BySerial(u)); }
    QuietKeeps(s, s', fd);
  }

  lemma KeepsReapCheck(s: State, fd: int)
    requires Inv(s) && Enabled(s, ReapCheck(fd))
    ensures Inv(Apply(s, ReapCheck(fd)))
  {
    hide QueueOwned, WorkersOwned, Accounted, Outstanding;
    var s' := Apply(s, ReapCheck(fd));
    forall u: nat ensures Fate(s', u) == Fate(s, u) { OutstandingSame(s, s', BySerial(u)); }
    QuietKeeps(s, s', -1);
  }

  lemma KeepsSignal(s: State)
    requires Inv(s) && Enabled(s, Signal)
    ensures Inv(Apply(s, Signal))
  {
    hide QueueOwned, WorkersOwned, Accounted, Outstanding;
    var s' := Apply(s, Signal);
    forall u: nat ensures Fate(s', u) == Fate(s, u) { OutstandingSame(s, s', BySerial(u)); }
    QuietKeeps(s, s', -1);
  }

  // ---- Steps that open and close connections ----

  lemma {:induction false} TallyNone(ts: seq<Task>, fd: int)
    requires forall k :: 0 <= k < |ts| ==> ts[k].fd != fd
    ensures Tally(ts, ByFd(fd)) == 0
    decreases |ts|
  {
    if ts != [] { TallyNone(ts[1..], fd); }
  }

  lemma {:induction false} WorkersNone(ws: seq<Worker>, fd: int)
    requires forall k :: 0 <= k < |ws| ==> ws[k] == Idle || ws[k].task.fd != fd
    ensures WorkersOwe(ws, ByFd(fd)) == 0
    decreases |ws|
  {
    if ws != [] { WorkersNone(ws[1..], fd); }
  }

  /** A descriptor the kernel may hand out again has no task outstanding. */
  lemma NoneOutstanding(s: State, fd: int)
    requires Inv(s) && fd !in s.kernel
    ensures Outstanding(s, ByFd(fd)) == 0
  {
    TallyNone(s.high, fd);
    TallyNone(s.medium, fd);
    TallyNone(s.low, fd);
    WorkersNone(s.workers, fd);
  }

  /** Only slot `fd` changes hands, and it has no task outstanding. */
  lemma HandoverKeeps(s: State, s': State, fd: int)
    requires Inv(s) && Agree(s, s', fd) && InTable(fd) && Outstanding(s, ByFd(fd)) == 0
    requires s'.high == s.high && s'.medium == s.medium && s'.low == s.low && s'.workers == s.workers
    requires s'.accepted == s.accepted && s'.answered == s.answered && s'.refused == s.refused && s'.silent == s.silent
    requires forall sel: Sel {:trigger IoOwes(s'.io, sel)} :: IoOwes(s'.io, sel) == IoOwes(s.io, sel) == 0
    requires forall i :: 0 <= i < FD_SETSIZE && i != fd ==> s'.clients[i] == s.clients[i]
    requires s'.clients[fd].sendQueue == [] && s'.clients[fd].pendingTask == 0
    requires IoOwned(s') && Delivered(s')
    ensures Inv(s')
  {
    TasksKept(s, s', fd);
    forall u: nat ensures Fate(s', u) == Fate(s, u) {
      assert IoOwes(s'.io, BySerial(u)) == IoOwes(s.io, BySerial(u));
      OutstandingSame(s, s', BySerial(u));
    }
    AccountKept(s, s');
    forall i | 0 <= i < FD_SETSIZE
      ensures Addressed(s', i) && s'.clients[i].pendingTask == Outstanding(s', ByFd(i))
    {
      assert Addressed(s, i) && s.clients[i].pendingTask == Outstanding(s, ByFd(i));
      assert i != fd ==> s'.clients[i] == s.clients[i] && SameOwner(s, s', i);
      assert IoOwes(s'.io, ByFd(i)) == IoOwes(s.io, ByFd(i));
    }
  }

  lemma KeepsAccept(s: State, fd: int, registered: bool)
    requires Inv(s) && Enabled(s, Accept(fd, registered))
    ensures Inv(Apply(s, Accept(fd, registered)))
  {
    hide QueueOwned, WorkersOwned, Accounted, Outstanding;
    var s' := Apply(s, Accept(fd, registered));
    if InTable(fd) {
      NoneOutstanding(s, fd);
      assert Agree(s, s', fd);
      forall sel: Sel ensures IoOwes(s'.io, sel) == IoOwes(s.io, sel) == 0 { }
      HandoverKeeps(s, s', fd);
    } else {
      forall u: nat ensures Fate(s', u) == Fate(s, u) { OutstandingSame(s, s', BySerial(u)); }
      QuietKeeps(s, s', -1);
    }
  }

  lemma KeepsReap(s: State, a: Action)
    requires Inv(s) && Enabled(s, a) && (a.ReapClose? || a.ReapReset?)
    ensures Inv(Apply(s, a))
  {
    hide QueueOwned, WorkersOwned, Accounted, Outstanding;
    var s', fd := Apply(s, a), s.io.slot;
    assert s.clients[fd].pendingTask == Outstanding(s, ByFd(fd));
    assert Agree(s, s', fd);
    forall sel: Sel ensures IoOwes(s'.io, sel) == IoOwes(s.io, sel) == 0 { }
    HandoverKeeps(s, s', fd);
  }

  // ---- Steps that move tasks ----

  lemma KeepsComplete(s: State, frame: Frame)
    requires Inv(s) && Enabled(s, EndRead(Complete(frame)))
    ensures Inv(Apply(s, EndRead(Complete(frame))))
  {
    hide QueueOwned, WorkersOwned, Tally, WorkersOwe, Times;
    var s', fd := Apply(s, EndRead(Complete(frame))), s.io.fd;
    assert Agree(s, s', -1);
    TasksKept(s, s', -1);
    forall i | 0 <= i < FD_SETSIZE
      ensures Addressed(s', i) && s'.clients[i].pendingTask == Outstanding(s', ByFd(i))
    {
      assert Addressed(s, i) && s.clients[i].pendingTask == Outstanding(s, ByFd(i));
      AddressedSame(s, s', i);
    }
    forall u: nat ensures Fate(s', u) == if u < |s'.accepted| then 1 else 0 {
      assert Fate(s, u) == if u < |s.accepted| then 1 else 0;
    }
  }

  /** Tasks move between the I/O thread, the queues and the workers; no slot changes hands. */
  lemma MoveKeeps(s: State, s': State, fd: int, paid: nat)
    requires Inv(s) && Agree(s, s', -1) && InTable(fd) && IoOwned(s') && Delivered(s')
    requires QueueOwned(s', s'.high) && QueueOwned(s', s'.medium) && QueueOwned(s', s'.low) && WorkersOwned(s')
    requires forall i :: 0 <= i < FD_SETSIZE && i != fd ==> s'.clients[i] == s.clients[i]
    requires Addressed(s', fd) && s'.clients[fd].pendingTask == s.clients[fd].pendingTask - paid
    requires forall i: int {:trigger Outstanding(s', ByFd(i))} ::
               Outstanding(s', ByFd(i)) == Outstanding(s, ByFd(i)) - (if i == fd then paid else 0)
    requires s'.accepted == s.accepted && (forall u: nat {:trigger Fate(s', u)} :: Fate(s', u) == Fate(s, u))
    ensures Inv(s')
  {
    hide QueueOwned, WorkersOwned, Outstanding;
    AccountKept(s, s');
    forall i | 0 <= i < FD_SETSIZE
      ensures Addressed(s', i) && s'.clients[i].pendingTask == Outstanding(s', ByFd(i))
    {
      assert Addressed(s, i) && s.clients[i].pendingTask == Outstanding(s, ByFd(i));
      assert SameOwner(s, s', i);
      if i != fd { AddressedSame(s, s', i); }
    }
  }

  lemma QueueAppended(s: State, s': State, q: seq<Task>, t: Task)
    requires |s.clients| == FD_SETSIZE && QueueOwned(s, q) && Owned(s, t) && Agree(s, s', -1)
    ensures QueueOwned(s', q + [t])
  {
    QueueKept(s, s', -1, q);
    assert SameOwner(s, s', t.fd);
  }

  /** Moving the held task into a queue changes no count. */
  lemma EnqueueCounts(s: State, s': State, sel: Sel)
    requires |s.clients| == FD_SETSIZE && s.io.IoHolding? && s' == DoEnqueue(s)
    ensures Outstanding(s', sel) == Outstanding(s, sel)
  {
    hide Tally, WorkersOwe;
    TallyAppend(s.high, s.io.task, sel);
    TallyAppend(s.medium, s.io.task, sel);
    TallyAppend(s.low, s.io.task, sel);
  }

  lemma QueuesAfterEnqueue(s: State)
    requires Inv(s) && Enabled(s, Enqueue)
    ensures var s' := DoEnqueue(s);
            QueueOwned(s', s'.high) && QueueOwned(s', s'.medium) && QueueOwned(s', s'.low) && Agree(s, s', -1)
  {
    hide QueueOwned, WorkersOwned, Slots, Delivered, Accounted;
    var s', t := DoEnqueue(s), s.io.task;
    assert Agree(s, s', -1);
    hide Agree;
    QueueKept(s, s', -1, s.high);
    QueueKept(s, s', -1, s.medium);
    QueueKept(s, s', -1, s.low);
    QueueAppended(s, s', s.high, t);
    QueueAppended(s, s', s.medium, t);
    QueueAppended(s, s', s.low, t);
  }

  lemma KeepsEnqueue(s: State)
    requires Inv(s) && Enabled(s, Enqueue)
    ensures Inv(Apply(s, Enqueue))
  {
    hide QueueOwned, WorkersOwned, Outstanding, Delivered;
    var s', t := Apply(s, Enqueue), s.io.task;
    QueuesAfterEnqueue(s);
    WorkersKept(s, s', -1);
    assert Addressed(s, t.fd);
    AddressedSame(s, s', t.fd);
    DeliveredSame(s, s');
    forall sel: Sel ensures Outstanding(s', sel) == Outstanding(s, sel) { EnqueueCounts(s, s', sel); }
    MoveKeeps(s, s', t.fd, 0);
  }

  lemma KeepsUndo(s: State)
    requires Inv(s) && Enabled(s, Undo)
    ensures Inv(Apply(s, Undo))
  {
    hide QueueOwned, WorkersOwned, Tally, WorkersOwe;
    var s', t := Apply(s, Undo), s.io.task;
    assert Agree(s, s', -1);
    TasksKept(s, s', -1);
    assert Addressed(s, t.fd) && s.clients[t.fd].pendingTask == Outstanding(s, ByFd(t.fd));
    AddressedSame(s, s', t.fd);
    MoveKeeps(s, s', t.fd, 1);
  }

  lemma {:induction false} TallyTail(q: seq<Task>, sel: Sel)
    requires q != []
    ensures Tally(q, sel) == Is(sel, q[0]) + Tally(q[1..], sel)
  {
  }

  /** A worker takes the oldest task of the highest non-empty level it looks at. */
  lemma PickedIsChosen(s: State, role: Role) returns (level: nat)
    ensures level <= HIGH && Picked(s, role) == [s.low, s.medium, s.high][level]
    ensures Picked(s, role) != [] ==> Chosen([s.low, s.medium, s.high], role, level)
  {
    level :=
      if role == HighWorker && s.high != [] then HIGH
      else if role != LowWorker && s.medium != [] then MEDIUM
      else LOW;
  }

  lemma DequeueCounts(s: State, w: nat, role: Role, sel: Sel)
    requires |s.clients| == FD_SETSIZE && Enabled(s, Dequeue(w, role))
    ensures Outstanding(DoDequeue(s, w, role), sel) == Outstanding(s, sel)
  {
    hide Tally, WorkersOwe;
    TallyTail(Picked(s, role), sel);
    WorkerUpdate(s.workers, w, Checking(Picked(s, role)[0]), sel);
  }

  /** Changing what one worker holds, to nothing or to an owned task. */
  lemma WorkerChanged(s: State, s': State, w: nat, t: Task)
    requires Agree(s, s', -1) && WorkersOwned(s) && Owned(s, t) && w < |s.workers| == |s'.workers|
    requires s'.workers == s.workers[w := s'.workers[w]] && (s'.workers[w] == Idle || s'.workers[w].task == t)
    ensures WorkersOwned(s')
  {
    forall k | 0 <= k < |s'.workers| && s'.workers[k] != Idle ensures Owned(s', s'.workers[k].task) {
      assert k != w ==> s'.workers[k] == s.workers[k];
      assert Owned(s, s'.workers[k].task);
      assert SameOwner(s, s', s'.workers[k].task.fd);
    }
  }

  lemma QueuesAfterDequeue(s: State, w: nat, role: Role)
    requires Inv(s) && Enabled(s, Dequeue(w, role))
    ensures var s' := DoDequeue(s, w, role);
            && QueueOwned(s', s'.high) && QueueOwned(s', s'.medium) && QueueOwned(s', s'.low)
            && Owned(s, Picked(s, role)[0])
  {
    hide IoOwned, Slots, Delivered, Accounted, WorkersOwned;
    var s' := DoDequeue(s, w, role);
    forall q | QueueOwned(s, q) ensures QueueOwned(s', q) {
      assert Agree(s, s', -1);
      QueueKept(s, s', -1, q);
    }
    assert QueueOwned(s, Picked(s, role)) && QueueOwned(s, Picked(s, role)[1..]);
  }

  lemma DequeueIo(s: State, w: nat, role: Role)
    requires Inv(s) && Enabled(s, Dequeue(w, role))
    ensures IoOwned(DoDequeue(s, w, role))
  {
    hide QueueOwned, WorkersOwned, Outstanding, Delivered, Slots, Accounted;
    assert Agree(s, DoDequeue(s, w, role), -1);
  }

  lemma KeepsDequeue(s: State, w: nat, role: Role)
    requires Inv(s) && Enabled(s, Dequeue(w, role))
    ensures Inv(Apply(s, Dequeue(w, role)))
  {
    hide QueueOwned, WorkersOwned, Outstanding, Delivered, IoOwned;
    var s', t := Apply(s, Dequeue(w, role)), Picked(s, role)[0];
    DequeueIo(s, w, role);
    DeliveredSame(s, s');
    assert Agree(s, s', -1);
    QueuesAfterDequeue(s, w, role);
    WorkerChanged(s, s', w, t);
    assert Addressed(s, t.fd);
    AddressedSame(s, s', t.fd);
    forall sel: Sel ensures Outstanding(s', sel) == Outstanding(s, sel) { DequeueCounts(s, w, role, sel); }
    MoveKeeps(s, s', t.fd, 0);
  }

  /** A worker replaced what it holds by a later stage of the same task. */
  lemma WorkerMoves(s: State, s': State, w: nat, sel: Sel)
    requires w < |s.workers| == |s'.workers| && s'.workers == s.workers[w := s'.workers[w]]
    requires s'.high == s.high && s'.medium == s.medium && s'.low == s.low && s'.io == s.io
    ensures Outstanding(s', sel) == Outstanding(s, sel) - Owes(s.workers[w], sel) + Owes(s'.workers[w], sel)
  {
    hide Tally, WorkersOwe;
    WorkerUpdate(s.workers, w, s'.workers[w], sel);
  }

  /** At the validity test of `process_task`, the slot still belongs to the task's connection. */
  lemma CheckPasses(s: State, w: nat)
    requires Inv(s) && w < |s.workers| && s.workers[w].Checking?
    ensures Valid(s, s.workers[w].task)
  {
    assert Owned(s, s.workers[w].task);
  }

  lemma KeepsCheck(s: State, w: nat)
    requires Inv(s) && Enabled(s, Check(w))
    ensures Inv(Apply(s, Check(w)))
  {
    hide QueueOwned, Outstanding, Delivered;
    var s', t := Apply(s, Check(w)), s.workers[w].task;
    CheckPasses(s, w);
    assert Agree(s, s', -1) && Owned(s, t);
    IoKept(s, s');
    QueuesKept(s, s');
    WorkerChanged(s, s', w, t);
    assert Addressed(s, t.fd);
    AddressedSame(s, s', t.fd);
    forall sel: Sel ensures Outstanding(s', sel) == Outstanding(s, sel) { WorkerMoves(s, s', w, sel); }
    DeliveredSame(s, s');
    MoveKeeps(s, s', t.fd, 0);
  }

  lemma DeliveredSame(s: State, s': State)
    requires Delivered(s) && s'.delivered == s.delivered && s.accepted <= s'.accepted
    requires s'.answered == s.answered && s'.silent == s.silent
    ensures Delivered(s')
  {
    forall k | 0 <= k < |s'.answered| ensures Asked(s', s'.answered[k], true) { assert Asked(s, s.answered[k], true); }
    forall k | 0 <= k < |s'.silent| ensures Asked(s', s'.silent[k], false) { assert Asked(s, s.silent[k], false); }
  }

  lemma HandleDelivered(s: State, w: nat)
    requires Inv(s) && Enabled(s, Handle(w))
    ensures Delivered(Apply(s, Handle(w)))
  {
    hide QueueOwned, Outstanding, IoOwned, Slots, Accounted;
    var s', t := Apply(s, Handle(w)), s.workers[w].task;
    assert Owned(s, t) && Asked(s', t.serial, Answers(t.frame.cmd));
    forall k | 0 <= k < |s.answered| ensures Asked(s', s.answered[k], true) { assert Asked(s, s.answered[k], true); }
    forall k | 0 <= k < |s.silent| ensures Asked(s', s.silent[k], false) { assert Asked(s, s.silent[k], false); }
  }

  lemma QueuesKept(s: State, s': State)
    requires Inv(s) && Agree(s, s', -1) && s'.high == s.high && s'.medium == s.medium && s'.low == s.low
    ensures QueueOwned(s', s'.high) && QueueOwned(s', s'.medium) && QueueOwned(s', s'.low)
  {
    hide QueueOwned;
    QueueKept(s, s', -1, s.high);
    QueueKept(s, s', -1, s.medium);
    QueueKept(s, s', -1, s.low);
  }

  /** A worker's step does not disturb what the I/O thread relies on: it adds no task to a slot
      that is being reaped, since that slot has none. */
  lemma IoKept(s: State, s': State)
    requires Inv(s) && Agree(s, s', -1) && s'.io == s.io && s'.kernel == s.kernel
    requires (s.io.IoReaping? || s.io.IoClosed?) ==> Reapable(s'.clients[s.io.slot])
    ensures IoOwned(s')
  {
    hide QueueOwned, Slots, Delivered, Accounted, WorkersOwned;
  }

  /** While a slot is being reaped no worker holds a task of it. */
  lemma NotReaping(s: State, w: nat)
    requires Inv(s) && w < |s.workers| && s.workers[w] != Idle
    ensures !(s.io.IoReaping? && s.io.slot == s.workers[w].task.fd)
    ensures !(s.io.IoClosed? && s.io.slot == s.workers[w].task.fd)
  {
    var t := s.workers[w].task;
    WorkersCover(s.workers, w, ByFd(t.fd));
    assert Owned(s, t);
    assert s.clients[t.fd].pendingTask == Outstanding(s, ByFd(t.fd));
  }

  lemma KeepsHandle(s: State, w: nat)
    requires Inv(s) && Enabled(s, Handle(w))
    ensures Inv(Apply(s, Handle(w)))
  {
    hide QueueOwned, Outstanding, IoOwned, Delivered;
    var s', t := Apply(s, Handle(w)), s.workers[w].task;
    NotReaping(s, w);
    assert Agree(s, s', -1) && Owned(s, t);
    HandleIo(s, w);
    IoKept(s, s');
    QueuesKept(s, s');
    WorkerChanged(s, s', w, t);
    HandleAddressed(s, w);
    HandleFate(s, w);
    forall i: int ensures Outstanding(s', ByFd(i)) == Outstanding(s, ByFd(i)) { WorkerMoves(s, s', w, ByFd(i)); }
    HandleDelivered(s, w);
    MoveKeeps(s, s', t.fd, 0);
  }

  lemma HandleIo(s: State, w: nat)
    requires Inv(s) && Enabled(s, Handle(w))
    requires !((s.io.IoReaping? || s.io.IoClosed?) && s.io.slot == s.workers[w].task.fd)
    ensures (s.io.IoReaping? || s.io.IoClosed?) ==> Reapable(Apply(s, Handle(w)).clients[s.io.slot])
  {
    hide QueueOwned, Slots, Delivered, Accounted, WorkersOwned;
  }

  lemma HandleAddressed(s: State, w: nat)
    requires Inv(s) && Enabled(s, Handle(w))
    ensures Owned(s, s.workers[w].task) && Addressed(Apply(s, Handle(w)), s.workers[w].task.fd)
  {
    hide QueueOwned, Delivered, Accounted;
    var s', t := Apply(s, Handle(w)), s.workers[w].task;
    assert Owned(s, t) && Addressed(s, t.fd);
    if Answers(t.frame.cmd) {
      QueuedAddressed(s, s', t.fd, Reply(t.frame.number, t.from, t.serial));
    } else {
      AddressedSame(s, s', t.fd);
    }
  }

  lemma HandleFate(s: State, w: nat)
    requires Inv(s) && Enabled(s, Handle(w))
    ensures forall u: nat {:trigger Fate(Apply(s, Handle(w)), u)} :: Fate(Apply(s, Handle(w)), u) == Fate(s, u)
  {
    hide QueueOwned, Outstanding, IoOwned, Delivered, Slots, WorkersOwned, Accounted, Times;
    var s', t := Apply(s, Handle(w)), s.workers[w].task;
    forall u: nat ensures Fate(s', u) == Fate(s, u) {
      WorkerMoves(s, s', w, BySerial(u));
      TimesAppend(s.answered, t.serial, u);
      TimesAppend(s.silent, t.serial, u);
    }
  }

  lemma KeepsFinish(s: State, w: nat)
    requires Inv(s) && Enabled(s, Finish(w))
    ensures Inv(Apply(s, Finish(w)))
  {
    hide QueueOwned, Outstanding, IoOwned, Delivered;
    var s', t := Apply(s, Finish(w)), s.workers[w].task;
    NotReaping(s, w);
    assert Agree(s, s', -1) && Owned(s, t);
    FinishIo(s, w);
    IoKept(s, s');
    QueuesKept(s, s');
    WorkerChanged(s, s', w, t);
    assert Addressed(s, t.fd);
    AddressedSame(s, s', t.fd);
    forall sel: Sel ensures Outstanding(s', sel) == Outstanding(s, sel) - Owes(s.workers[w], sel) {
      WorkerMoves(s, s', w, sel);
    }
    assert s.clients[t.fd].pendingTask == Outstanding(s, ByFd(t.fd));
    DeliveredSame(s, s');
    MoveKeeps(s, s', t.fd, 1);
  }

  lemma FinishIo(s: State, w: nat)
    requires Inv(s) && Enabled(s, Finish(w))
    requires !((s.io.IoReaping? || s.io.IoClosed?) && s.io.slot == s.workers[w].task.fd)
    ensures (s.io.IoReaping? || s.io.IoClosed?) ==> Reapable(Apply(s, Finish(w)).clients[s.io.slot])
  {
    hide QueueOwned, Slots, Delivered, Accounted, WorkersOwned;
  }

  // ---- Every run ----

  lemma Starts(s: State)
    requires Init(s)
    ensures Inv(s)
  {
    forall sel: Sel ensures Outstanding(s, sel) == 0 { AllIdle(s.workers, sel); }
    forall fd | 0 <= fd < FD_SETSIZE
      ensures Addressed(s, fd) && s.clients[fd].pendingTask == Outstanding(s, ByFd(fd))
    {
      assert s.clients[fd] == FRESH_SLOT;
    }
  }

  lemma Keeps(s: State, a: Action)
    requires Inv(s) && Enabled(s, a)
    ensures Inv(Apply(s, a))
  {
    hide Inv, Enabled, Apply;
    match a
    case Accept(fd, registered) => KeepsAccept(s, fd, registered);
    case Hangup(fd) => KeepsHangup(s, fd);
    case StartRead(fd) => KeepsRead(s, a);
    case EndRead(outcome) =>
      if outcome.Complete? { KeepsComplete(s, outcome.frame); } else { KeepsRead(s, a); }
    case QueueNack => KeepsQueueNack(s);
    case Enqueue => KeepsEnqueue(s);
    case Undo => KeepsUndo(s);
    case QueueBusy => KeepsQueueBusy(s);
    case Send(fd, sent) => KeepsSend(s, fd, sent);
    case ReapCheck(fd) => KeepsReapCheck(s, fd);
    case ReapClose => KeepsReap(s, a);
    case ReapReset => KeepsReap(s, a);
    case Dequeue(w, role) => KeepsDequeue(s, w, role);
    case Check(w) => KeepsCheck(s, w);
    case Handle(w) => KeepsHandle(s, w);
    case Finish(w) => KeepsFinish(s, w);
    case Signal => KeepsSignal(s);
  }

  ghost predicate Run(ss: seq<State>, steps: seq<Action>)
  {
    && |ss| == |steps| + 1 && Init(ss[0])
    && (forall i :: 0 <= i < |steps| ==> Takes(ss[i], steps[i], ss[i + 1]))
  }

  ghost predicate Takes(s: State, a: Action, s': State)
  {
    |s.clients| == FD_SETSIZE && Enabled(s, a) && s' == Apply(s, a)
  }

  lemma StepAt(ss: seq<State>, steps: seq<Action>, i: nat)
    requires Run(ss, steps) && i + 1 < |ss|
    ensures i < |steps| && |ss| == |steps| + 1 && Takes(ss[i], steps[i], ss[i + 1])
  {
    hide Init, Takes;
  }

  lemma {:induction false} EveryState(ss: seq<State>, steps: seq<Action>, i: nat)
    requires Run(ss, steps) && i < |ss|
    ensures Inv(ss[i])
    decreases i
  {
    hide Inv, Enabled, Apply, Init;
    if i == 0 {
      Starts(ss[0]);
    } else {
      hide Run;
      EveryState(ss, steps, i - 1);
      StepAt(ss, steps, i - 1);
      Keeps(ss[i - 1], steps[i - 1]);
    }
  }

  /** A descriptor is closed, and handed out again, only when no task of its connection is left
      anywhere: held by the I/O thread, queued, or with a worker. */
  lemma ClosedOnlyWhenIdle(ss: seq<State>, steps: seq<Action>, i: nat, fd: int)
    requires Run(ss, steps) && i < |steps| && InTable(fd)
    requires (steps[i] == ReapClose && ss[i].io == IoReaping(fd)) || (steps[i].Accept? && steps[i].fd == fd)
    ensures Outstanding(ss[i], ByFd(fd)) == 0
  {
    hide QueueOwned, WorkersOwned, Delivered, Accounted, Outstanding;
    EveryState(ss, steps, i);
    assert Takes(ss[i], steps[i], ss[i + 1]);
    if steps[i].Accept? {
      NoneOutstanding(ss[i], fd);
    } else {
      assert ss[i].clients[fd].pendingTask == Outstanding(ss[i], ByFd(fd));
    }
  }

  /** The test that would discard a task as stale succeeds in every run. */
  lemma NoTaskIsStale(ss: seq<State>, steps: seq<Action>, i: nat, w: nat)
    requires Run(ss, steps) && i < |ss| && w < |ss[i].workers| && ss[i].workers[w].Checking?
    ensures |ss[i].clients| == FD_SETSIZE && Valid(ss[i], ss[i].workers[w].task)
  {
    EveryState(ss, steps, i);
    CheckPasses(ss[i], w);
  }

  /** No reply is ever sent to a connection other than the one whose frame it answers, however often
      its descriptor has been reused, and it carries that frame's packet number. */
  lemma RepliesReachTheirSender(ss: seq<State>, steps: seq<Action>, i: nat, k: nat)
    requires Run(ss, steps) && i < |ss| && k < |ss[i].delivered|
    ensures var d := ss[i].delivered[k];
            && d.to == d.reply.answers && d.reply.serial < |ss[i].accepted|
            && (d.reply.serial >= 0 ==> ss[i].accepted[d.reply.serial].from == d.to &&
                                        ss[i].accepted[d.reply.serial].frame.number == d.reply.number)
  {
    EveryState(ss, steps, i);
    assert Genuine(ss[i], ss[i].delivered[k].reply);
  }

  lemma {:induction false} TimesAsked(s: State, log: seq<nat>, u: nat, answer: bool)
    requires forall k :: 0 <= k < |log| ==> Asked(s, log[k], answer)
    requires u < |s.accepted| && Answers(s.accepted[u].frame.cmd) != answer
    ensures Times(log, u) == 0
    decreases |log|
  {
    if log != [] {
      assert Asked(s, log[|log| - 1], answer);
      TimesAsked(s, log[..|log| - 1], u, answer);
    }
  }

  /** Every accepted frame is in exactly one place; once nobody holds it any more, a frame whose
      command asks for a reply has been answered once or refused once as busy, never dropped, and
      any other has been answered by nothing but a refusal. */
  lemma AccountedExactlyOnce(ss: seq<State>, steps: seq<Action>, i: nat, u: nat)
    requires Run(ss, steps) && i < |ss| && u < |ss[i].accepted|
    ensures var s := ss[i];
            Outstanding(s, BySerial(u)) + Times(s.answered, u) + Times(s.refused, u) + Times(s.silent, u) == 1
    ensures Answers(ss[i].accepted[u].frame.cmd) ==> Times(ss[i].silent, u) == 0
    ensures !Answers(ss[i].accepted[u].frame.cmd) ==> Times(ss[i].answered, u) == 0
  {
    EveryState(ss, steps, i);
    assert Fate(ss[i], u) == 1;
    if Answers(ss[i].accepted[u].frame.cmd) {
      TimesAsked(ss[i], ss[i].silent, u, false);
    } else {
      TimesAsked(ss[i], ss[i].answered, u, true);
    }
  }

  // ---- The crash ----

  predicate KnownPriority(frame: Frame) { LOW <= frame.pri <= HIGH }

  /** A step crashes the server exactly when it queues a frame of unknown priority before shutdown. */
  lemma CrashCondition(s: State, a: Action)
    requires |s.clients| == FD_SETSIZE && Enabled(s, a)
    ensures Apply(s, a).io.IoCrashed? <==> a == Enqueue && !s.shutdown && !KnownPriority(s.io.task.frame)
  {
    hide Live, Picked;
  }

  /** A crashed server holds a task of unknown priority. */
  predicate CrashExplained(s: State) { s.io.IoCrashed? ==> !KnownPriority(s.io.task.frame) }

  lemma CrashStep(s: State, a: Action)
    requires |s.clients| == FD_SETSIZE && Enabled(s, a)
    ensures CrashExplained(Apply(s, a))
  {
    CrashCondition(s, a);
    if a == Enqueue && Apply(s, a).io.IoCrashed? { assert Apply(s, a) == DoEnqueue(s); }
  }

  lemma CrashIsExplained(ss: seq<State>, steps: seq<Action>, i: nat)
    requires Run(ss, steps) && i < |ss|
    ensures CrashExplained(ss[i])
  {
    if i > 0 {
      hide Enabled, Apply, CrashExplained;
      assert Takes(ss[i - 1], steps[i - 1], ss[i]);
      CrashStep(ss[i - 1], steps[i - 1]);
    }
  }

  /** Over every run: a server that has crashed holds an accepted frame of unknown priority, so that
      one whose accepted frames all have a known priority never crashes. */
  lemma CrashNeedsUnknownPriority(ss: seq<State>, steps: seq<Action>, i: nat)
    requires Run(ss, steps) && i < |ss|
    ensures ss[i].io.IoCrashed? ==>
              ss[i].io.task.serial < |ss[i].accepted| &&
              !KnownPriority(ss[i].accepted[ss[i].io.task.serial].frame)
    ensures (forall u :: 0 <= u < |ss[i].accepted| ==> KnownPriority(ss[i].accepted[u].frame)) ==> !ss[i].io.IoCrashed?
  {
    EveryState(ss, steps, i);
    CrashIsExplained(ss, steps, i);
  }

  /** Over every run: when an accepted frame of unknown priority is queued before shutdown, the server
      crashes, and no step is possible any more. */
  lemma UnknownPriorityCrashes(ss: seq<State>, steps: seq<Action>, i: nat, a: Action)
    requires Run(ss, steps) && i < |steps| && steps[i] == Enqueue
    requires ss[i].io.IoHolding? && !ss[i].shutdown && !KnownPriority(ss[i].io.task.frame)
    ensures ss[i + 1].io == IoCrashed(ss[i].io.task)
    ensures |ss[i + 1].clients| == FD_SETSIZE && !Enabled(ss[i + 1], a)
  {
    assert Takes(ss[i], steps[i], ss[i + 1]);
  }

  /** Four steps from the start to a crash: a client connects and sends one frame of priority 7. */
  lemma CrashRun() returns (ss: seq<State>, steps: seq<Action>)
    ensures Run(ss, steps) && |ss| == 5 && ss[4].io.IoCrashed?
  {
    var s0 := State(seq(FD_SETSIZE, _ => FRESH_SLOT), map[], 0, 0, [], [], [], IoIdle, [], false, [], [], [], [], []);
    steps := [Accept(5, true), StartRead(5), EndRead(Complete(Frame(0, 7, 0))), Enqueue];
    var s1 := Apply(s0, steps[0]);
    var s2 := Apply(s1, steps[1]);
    var s3 := Apply(s2, steps[2]);
    var s4 := Apply(s3, steps[3]);
    ss := [s0, s1, s2, s3, s4];
    assert Takes(s0, steps[0], s1) && Takes(s1, steps[1], s2) && Takes(s2, steps[2], s3) && Takes(s3, steps[3], s4);
  }
}

/** The control-plane server of unix-domain-socket-control-plane/gatewayd (server.h, server.c) as a
    transition system: one I/O thread and any number of workers, interleaved at the granularity of
    the locked sections. File descriptors are reused; `Peer` is the kernel's identity of a
    connection, which the server never sees and which serves to state who gets which reply. */
module ControlPlane {
  import opened Rings

  const FD_SETSIZE: nat := 1024
  const CAPACITY: nat := 1024
  const SEND_QUEUE: nat := 16

  type Peer = nat

  // enum command
  const GET_STATUS: int := 0
  const SET_STATUS: int := 1
  const GET_DATA: int := 2
  const GET_CONFIG: int := 3
  const SET_CONFIG: int := 4
  const SEND_CONTROL: int := 5
  const SHUTDOWN_PEER: int := 6
  const ACK: int := 7
  const NACK: int := 8
  const IDENTIFY: int := 9

  datatype Frame = Frame(cmd: int, pri: int, number: nat)

  /** `from` and `serial` are history: who sent the frame, and which accepted frame it is. */
  datatype Task = Task(fd: int, generation: nat, connectionId: nat, frame: Frame, from: Peer, serial: nat)

  /** `answers` and `serial` are history: the peer whose frame the reply answers, and which accepted
      frame that is, or -1 for a frame with a bad checksum. */
  datatype Reply = Reply(number: nat, answers: Peer, serial: int)

  datatype Accepted = Accepted(frame: Frame, from: Peer)

  datatype Client = Client(
    fd: int, connected: bool, connectionId: nat, generation: nat,
    pendingClose: bool, pendingTask: nat, sendQueue: seq<Reply>)

  /** Where the I/O thread stands between two locked sections. */
  datatype Io =
    | IoIdle
    | IoReading(fd: int)                // inside read_stage, past its pending_close test
    | IoHolding(task: Task)             // frame counted in pending_task, not yet queued
    | IoUndo(task: Task)                // refused by the queue, still counted
    | IoBusy(task: Task)                // no longer counted, SERVER BUSY not yet queued
    | IoNack(at: int, nack: Reply)      // bad checksum, NACK not yet queued
    | IoReaping(slot: int)              // found reapable, not yet closed
    | IoClosed(slot: int)               // closed, slot not yet reset
    | IoCrashed(task: Task)             // dereferenced the NULL queue of an unknown priority

  datatype Worker = Idle | Checking(task: Task) | Handling(task: Task) | Finishing(task: Task)

  datatype Delivery = Delivery(to: Peer, reply: Reply)

  datatype State = State(
    clients: seq<Client>, kernel: map<int, Peer>, peers: nat, connections: nat,
    high: seq<Task>, medium: seq<Task>, low: seq<Task>,
    io: Io, workers: seq<Worker>, shutdown: bool,
    // History: the frames accepted so far, what became of each (by position), and the replies sent.
    accepted: seq<Accepted>, answered: seq<nat>, refused: seq<nat>, silent: seq<nat>, delivered: seq<Delivery>)

  // ---- Steps ----

  datatype ReadOutcome = Nothing | Ended | BadChecksum(number: nat) | Complete(frame: Frame)
  datatype SendOutcome = Blocked | Sent | Broken

  datatype Action =
    | Accept(fd: int, registered: bool)
    | Hangup(fd: int)
    | StartRead(fd: int)
    | EndRead(outcome: ReadOutcome)
    | QueueNack
    | Enqueue
    | Undo
    | QueueBusy
    | Send(fd: int, sent: SendOutcome)
    | ReapCheck(fd: int)
    | ReapClose
    | ReapReset
    | Dequeue(w: nat, role: Role)
    | Check(w: nat)
    | Handle(w: nat)
    | Finish(w: nat)
    | Signal

  const FRESH_SLOT: Client := Client(0, false, 0, 0, false, 0, [])

  ghost predicate Init(s: State)
  {
    && |s.clients| == FD_SETSIZE && (forall i :: 0 <= i < FD_SETSIZE ==> s.clients[i] == FRESH_SLOT)
    && s.kernel == map[] && s.high == s.medium == s.low == [] && s.io == IoIdle && !s.shutdown
    && (forall w :: 0 <= w < |s.workers| ==> s.workers[w] == Idle)
    && s.accepted == [] && s.answered == s.refused == s.silent == [] && s.delivered == []
  }

  predicate InTable(fd: int) { 0 <= fd < FD_SETSIZE }

  /** An event for a registered connection, past the test of the loop over events. */
  predicate Live(s: State, fd: int)
    requires |s.clients| == FD_SETSIZE
  {
    InTable(fd) && fd in s.kernel && s.clients[fd].connected && s.clients[fd].fd == fd
  }

  predicate Reapable(c: Client) { c.pendingClose && c.pendingTask == 0 && c.sendQueue == [] }

  predicate Enabled(s: State, a: Action)
    requires |s.clients| == FD_SETSIZE
  {
    !s.io.IoCrashed? &&
    match a
    case Accept(fd, _) => s.io == IoIdle && 0 <= fd && fd !in s.kernel
    case Hangup(fd) => s.io == IoIdle && Live(s, fd)
    case StartRead(fd) => s.io == IoIdle && Live(s, fd) && !s.clients[fd].pendingClose
    case EndRead(_) => s.io.IoReading?
    case QueueNack => s.io.IoNack?
    case Enqueue => s.io.IoHolding?
    case Undo => s.io.IoUndo?
    case QueueBusy => s.io.IoBusy?
    case Send(fd, _) => s.io == IoIdle && Live(s, fd) && s.clients[fd].sendQueue != []
    case ReapCheck(fd) => s.io == IoIdle && InTable(fd) && Reapable(s.clients[fd])
    case ReapClose => s.io.IoReaping?
    case ReapReset => s.io.IoClosed?
    case Dequeue(w, role) => w < |s.workers| && s.workers[w] == Idle && !s.shutdown && Picked(s, role) != []
    case Check(w) => w < |s.workers| && s.workers[w].Checking?
    case Handle(w) => w < |s.workers| && s.workers[w].Handling?
    case Finish(w) => w < |s.workers| && s.workers[w].Finishing?
    case Signal => !s.shutdown
  }

  // ---- What each step does ----

  function SetClient(s: State, fd: int, c: Client): (s': State)
    requires |s.clients| == FD_SETSIZE
    ensures |s'.clients| == FD_SETSIZE
  {
    if InTable(fd) then s.(clients := s.clients[fd := c]) else s
  }

  /** `queue_client`: a full ring loses its oldest reply. */
  function QueueTo(s: State, fd: int, r: Reply): (s': State)
    requires |s.clients| == FD_SETSIZE
    ensures |s'.clients| == FD_SETSIZE
  {
    if !InTable(fd) then s
    else SetClient(s, fd, s.clients[fd].(sendQueue := Pushed(s.clients[fd].sendQueue, r, SEND_QUEUE)))
  }

  function DoAccept(s: State, fd: int, registered: bool): (s': State)
    requires |s.clients| == FD_SETSIZE
    ensures |s'.clients| == FD_SETSIZE
  {
    if !InTable(fd) then s.(peers := s.peers + 1)
    else
      var slot := Client(fd, true, s.connections + 1, s.clients[fd].generation + 1, false, 0, []);
      s.(clients := s.clients[fd := slot], connections := s.connections + 1, peers := s.peers + 1,
         kernel := if registered then s.kernel[fd := s.peers] else s.kernel)
  }

  function DoEndRead(s: State, outcome: ReadOutcome): (s': State)
    requires |s.clients| == FD_SETSIZE && s.io.IoReading?
    ensures |s'.clients| == FD_SETSIZE
  {
    var fd := s.io.fd;
    if !InTable(fd) || fd !in s.kernel then s.(io := IoIdle)
    else
      var c := s.clients[fd];
      match outcome
      case Nothing => s.(io := IoIdle)
      case Ended => SetClient(s, fd, c.(pendingClose := true)).(io := IoIdle)
      case BadChecksum(n) => s.(io := IoNack(fd, Reply(n, s.kernel[fd], -1)))
      case Complete(frame) =>
        SetClient(s, fd, c.(pendingTask := c.pendingTask + 1)).(
          io := IoHolding(Task(fd, c.generation, c.connectionId, frame, s.kernel[fd], |s.accepted|)),
          accepted := s.accepted + [Accepted(frame, s.kernel[fd])])
  }

  /** `try_enqueue_task`; with `shutdown` set it refuses before looking at the queue. */
  function DoEnqueue(s: State): (s': State)
    requires |s.clients| == FD_SETSIZE && s.io.IoHolding?
    ensures |s'.clients| == FD_SETSIZE
  {
    var t := s.io.task;
    if s.shutdown then s.(io := IoUndo(t))
    else if t.frame.pri == HIGH then
      if |s.high| >= CAPACITY then s.(io := IoUndo(t)) else s.(high := s.high + [t], io := IoIdle)
    else if t.frame.pri == MEDIUM then
      if |s.medium| >= CAPACITY then s.(io := IoUndo(t)) else s.(medium := s.medium + [t], io := IoIdle)
    else if t.frame.pri == LOW then
      if |s.low| >= CAPACITY then s.(io := IoUndo(t)) else s.(low := s.low + [t], io := IoIdle)
    else s.(io := IoCrashed(t))
  }

  function Decremented(c: Client): (c': Client)
  {
    if c.pendingTask > 0 then c.(pendingTask := c.pendingTask - 1) else c
  }

  function DoUndo(s: State): (s': State)
    requires |s.clients| == FD_SETSIZE && s.io.IoUndo?
    ensures |s'.clients| == FD_SETSIZE
  {
    var t := s.io.task;
    (if InTable(t.fd) then SetClient(s, t.fd, Decremented(s.clients[t.fd])) else s).(io := IoBusy(t))
  }

  function DoQueueBusy(s: State): (s': State)
    requires |s.clients| == FD_SETSIZE && s.io.IoBusy?
    ensures |s'.clients| == FD_SETSIZE
  {
    var t := s.io.task;
    QueueTo(s, t.fd, Reply(t.frame.number, t.from, t.serial)).(io := IoIdle, refused := s.refused + [t.serial])
  }

  function DoSend(s: State, fd: int, sent: SendOutcome): (s': State)
    requires |s.clients| == FD_SETSIZE && Live(s, fd) && s.clients[fd].sendQueue != []
    ensures |s'.clients| == FD_SETSIZE
  {
    var c := s.clients[fd];
    match sent
    case Blocked => s
    case Broken => SetClient(s, fd, c.(pendingClose := true, sendQueue := c.sendQueue[1..]))
    case Sent =>
      SetClient(s, fd, c.(sendQueue := c.sendQueue[1..])).(
        delivered := s.delivered + [Delivery(s.kernel[fd], c.sendQueue[0])])
  }

  function DoReapReset(s: State): (s': State)
    requires |s.clients| == FD_SETSIZE && s.io.IoClosed?
    ensures |s'.clients| == FD_SETSIZE
  {
    var fd := s.io.slot;
    var s1 :=
      if !InTable(fd) then s
      else SetClient(s, fd, s.clients[fd].(fd := -1, connected := false, pendingClose := false));
    s1.(io := IoIdle)
  }

  /** The queue a worker of this role takes from: the first non-empty one it looks at. */
  function Picked(s: State, role: Role): (q: seq<Task>)
  {
    if role == HighWorker && s.high != [] then s.high
    else if role != LowWorker && s.medium != [] then s.medium
    else s.low
  }

  function DoDequeue(s: State, w: nat, role: Role): (s': State)
    requires |s.clients| == FD_SETSIZE && w < |s.workers| && Picked(s, role) != []
    ensures |s'.clients| == FD_SETSIZE
  {
    var s1 := s.(workers := s.workers[w := Checking(Picked(s, role)[0])]);
    if role == HighWorker && s.high != [] then s1.(high := s.high[1..])
    else if role != LowWorker && s.medium != [] then s1.(medium := s.medium[1..])
    else s1.(low := s.low[1..])
  }

  /** The validity test of `process_task`. */
  predicate Valid(s: State, t: Task)
    requires |s.clients| == FD_SETSIZE
  {
    && InTable(t.fd) && s.clients[t.fd].fd == t.fd
    && s.clients[t.fd].generation == t.generation && s.clients[t.fd].connected
  }

  function DoCheck(s: State, w: nat): (s': State)
    requires |s.clients| == FD_SETSIZE && w < |s.workers| && s.workers[w].Checking?
    ensures |s'.clients| == FD_SETSIZE
  {
    var t := s.workers[w].task;
    if Valid(s, t) then s.(workers := s.workers[w := Handling(t)])
    else s.(workers := s.workers[w := Finishing(t)], silent := s.silent + [t.serial])
  }

  /** Commands that get exactly one reply; the others get none. */
  predicate Answers(cmd: int) { 0 <= cmd <= 5 || cmd == IDENTIFY }

  function DoHandle(s: State, w: nat): (s': State)
    requires |s.clients| == FD_SETSIZE && w < |s.workers| && s.workers[w].Handling?
    ensures |s'.clients| == FD_SETSIZE
  {
    var t := s.workers[w].task;
    var s1 := s.(workers := s.workers[w := Finishing(t)]);
    if Answers(t.frame.cmd) then
      QueueTo(s1, t.fd, Reply(t.frame.number, t.from, t.serial)).(answered := s.answered + [t.serial])
    else if t.frame.cmd == SHUTDOWN_PEER && InTable(t.fd) then
      SetClient(s1, t.fd, s.clients[t.fd].(pendingClose := true)).(silent := s.silent + [t.serial])
    else s1.(silent := s.silent + [t.serial])
  }

  function DoFinish(s: State, w: nat): (s': State)
    requires |s.clients| == FD_SETSIZE && w < |s.workers| && s.workers[w].Finishing?
    ensures |s'.clients| == FD_SETSIZE
  {
    var t := s.workers[w].task;
    var s1 := s.(workers := s.workers[w := Idle]);
    if InTable(t.fd) && s.clients[t.fd].fd == t.fd && s.clients[t.fd].generation == t.generation
    then SetClient(s1, t.fd, Decremented(s.clients[t.fd])) else s1
  }

  function Apply(s: State, a: Action): (s': State)
    requires |s.clients| == FD_SETSIZE && Enabled(s, a)
    ensures |s'.clients| == FD_SETSIZE
  {
    match a
    case Accept(fd, registered) => DoAccept(s, fd, registered)
    case Hangup(fd) => SetClient(s, fd, s.clients[fd].(pendingClose := true))
    case StartRead(fd) => s.(io := IoReading(fd))
    case EndRead(outcome) => DoEndRead(s, outcome)
    case QueueNack => QueueTo(s, s.io.at, s.io.nack).(io := IoIdle)
    case Enqueue => DoEnqueue(s)
    case Undo => DoUndo(s)
    case QueueBusy => DoQueueBusy(s)
    case Send(fd, sent) => DoSend(s, fd, sent)
    case ReapCheck(fd) => s.(io := IoReaping(fd))
    case ReapClose => s.(kernel := s.kernel - {s.io.slot}, io := IoClosed(s.io.slot))
    case ReapReset => DoReapReset(s)
    case Dequeue(w, role) => DoDequeue(s, w, role)
    case Check(w) => DoCheck(s, w)
    case Handle(w) => DoHandle(s, w)
    case Finish(w) => DoFinish(s, w)
    case Signal => s.(shutdown := true)
  }
}

/** How the gateway routes worker responses back to connections (gateway/src/client.c,
    worker_thread.c, server.c): slots are reused, tasks in transit may be lost or time out, and a
    response finds its connection only by (slot, generation). The main thread and any number of
    workers interleave. `Peer` is the kernel's identity of a connection. */
module Routing {
  import opened Lists

  const MAX_CLIENTS: nat := 128
  const QUEUE_MAX: nat := 1024

  type Peer = nat

  datatype Client = Client(fd: int, generation: nat, alive: bool)

  /** The fields by which tasks and responses are routed; `serial` is history: which request. */
  datatype Ticket = Ticket(slot: int, generation: nat, requestId: nat, serial: nat)

  datatype Worker = Idle | Running(task: Ticket) | Done(response: Ticket)

  datatype Request = Request(from: Peer, requestId: nat)

  /** A response frame put on a connection's transmit queue. */
  datatype Answer = Answer(to: Peer, requestId: nat, serial: nat)

  datatype State = State(
    clients: seq<Client>, kernel: map<int, Peer>, peers: nat,
    tasks: seq<Ticket>, workers: seq<Worker>, responses: seq<Ticket>,
    // History: who was given which (slot, generation); requests accepted, answered and lost.
    owners: map<(int, nat), Peer>, requests: seq<Request>, answers: seq<Answer>, lost: seq<nat>)

  datatype Action =
    | Connect(fd: int)
    | Disconnect(slot: nat)
    | MarkDead(slot: nat)
    | Receive(slot: nat, requestId: nat)
    | LoseTask(k: nat)
    | Take(w: nat, k: nat)
    | Expire(w: nat)
    | Respond(w: nat)
    | Push(w: nat)
    | Deliver

  // ---- The client table ----

  /** The slot `client_alloc` takes: the first whose descriptor is -1. */
  function FreeSlot(cs: seq<Client>, i: nat): (slot: int)
    requires i <= |cs|
    ensures slot == -1 ==> forall k :: i <= k < |cs| ==> cs[k].fd != -1
    ensures slot != -1 ==> i <= slot < |cs| && cs[slot].fd == -1 && forall k :: i <= k < slot ==> cs[k].fd != -1
    decreases |cs| - i
  {
    if i == |cs| then -1 else if cs[i].fd == -1 then i else FreeSlot(cs, i + 1)
  }

  /** The slot `fd_to_slot` finds: the first alive one with this descriptor. */
  function SlotOf(cs: seq<Client>, fd: int, i: nat): (slot: int)
    requires i <= |cs|
    ensures slot == -1 ==> forall k :: i <= k < |cs| ==> !(cs[k].alive && cs[k].fd == fd)
    ensures slot != -1 ==> i <= slot < |cs| && cs[slot].alive && cs[slot].fd == fd &&
                           forall k :: i <= k < slot ==> !(cs[k].alive && cs[k].fd == fd)
    decreases |cs| - i
  {
    if i == |cs| then -1 else if cs[i].alive && cs[i].fd == fd then i else SlotOf(cs, fd, i + 1)
  }

  /** What `client_alloc` makes of a free slot, but for the descriptor. */
  function Reopened(cs: seq<Client>, slot: nat): (c: Client)
    requires slot < |cs|
  {
    Client(-1, cs[slot].generation + 1, true)
  }

  /** The table of slots, updated in place. */
  class Table {
    const slots: array<Client>

    constructor ()
      ensures fresh(slots) && slots.Length == MAX_CLIENTS
      ensures forall k :: 0 <= k < MAX_CLIENTS ==> slots[k] == Client(-1, 0, false)
    {
      slots := new Client[MAX_CLIENTS](_ => Client(-1, 0, false));
    }

    method Alloc(fd: int) returns (slot: int)
      requires fd >= 0
      modifies slots
      ensures slot == FreeSlot(old(slots[..]), 0)
      ensures slot == -1 ==> slots[..] == old(slots[..])
      ensures slot != -1 ==> 0 <= slot < slots.Length &&
                             slots[..] == old(slots[..])[slot := Reopened(old(slots[..]), slot).(fd := fd)]
    {
      slot := -1;
      var i := 0;
      while i < slots.Length
        invariant 0 <= i <= slots.Length && slot == -1 && slots[..] == old(slots[..])
        invariant FreeSlot(slots[..], 0) == FreeSlot(slots[..], i)
      {
        if slots[i].fd == -1 {
          slot := i;
          break;
        }
        i := i + 1;
      }
      if slot != -1 {
        slots[slot] := Client(fd, slots[slot].generation + 1, true);
      }
    }

    method FdToSlot(fd: int) returns (slot: int)
      ensures slot == if fd < 0 then -1 else SlotOf(slots[..], fd, 0)
    {
      if fd < 0 { return -1; }
      var i := 0;
      while i < slots.Length
        invariant 0 <= i <= slots.Length && SlotOf(slots[..], fd, 0) == SlotOf(slots[..], fd, i)
      {
        if slots[i].alive && slots[i].fd == fd { return i; }
        i := i + 1;
      }
      return -1;
    }

    /** After a close the descriptor is found under no slot, descriptors still differ, a slot at or
        before this one is free, and a connection that is given this slot again gets a generation
        that no task or response of the closed one carries. */
    method Close(slot: nat)
      requires slot < slots.Length
      modifies slots
      ensures slots[..] == old(slots[..])[slot := old(slots[..])[slot].(fd := -1, alive := false)]
      ensures DistinctFds(old(slots[..])) ==> DistinctFds(slots[..])
      ensures DistinctFds(old(slots[..])) && old(slots[slot].fd) != -1 ==>
                SlotOf(slots[..], old(slots[slot].fd), 0) == -1
      ensures 0 <= FreeSlot(slots[..], 0) <= slot
      ensures FreeSlot(slots[..], 0) == slot ==> Reopened(slots[..], slot).generation > old(slots[slot].generation)
    {
      slots[slot] := slots[slot].(fd := -1, alive := false);
    }
  }

  // ---- Steps ----

  ghost predicate Init(s: State)
  {
    && |s.clients| == MAX_CLIENTS && (forall k :: 0 <= k < MAX_CLIENTS ==> s.clients[k] == Client(-1, 0, false))
    && s.kernel == map[] && s.tasks == s.responses == [] && (forall w :: 0 <= w < |s.workers| ==> s.workers[w] == Idle)
    && s.owners == map[] && s.requests == [] && s.answers == [] && s.lost == []
  }

  predicate Enabled(s: State, a: Action)
  {
    match a
    case Connect(fd) => 0 <= fd && fd !in s.kernel
    case Disconnect(slot) => slot < |s.clients|
    case MarkDead(slot) => slot < |s.clients|
    case Receive(slot, _) => slot < |s.clients| && s.clients[slot].fd in s.kernel
    case LoseTask(k) => k < |s.tasks|
    case Take(w, k) => w < |s.workers| && s.workers[w] == Idle && k < |s.tasks|
    case Expire(w) => w < |s.workers| && s.workers[w].Running?
    case Respond(w) => w < |s.workers| && s.workers[w].Running?
    case Push(w) => w < |s.workers| && s.workers[w].Done?
    case Deliver => s.responses != []
  }

  function DoConnect(s: State, fd: int): (s': State)
  {
    var slot := FreeSlot(s.clients, 0);
    if slot == -1 then s.(peers := s.peers + 1)
    else
      var generation := s.clients[slot].generation + 1;
      s.(clients := s.clients[slot := Client(fd, generation, true)], kernel := s.kernel[fd := s.peers],
         peers := s.peers + 1, owners := s.owners[(slot, generation) := s.peers])
  }

  function DoDisconnect(s: State, slot: nat): (s': State)
    requires slot < |s.clients|
  {
    var c := s.clients[slot];
    s.(clients := s.clients[slot := c.(fd := -1, alive := false)], kernel := s.kernel - {c.fd})
  }

  /** A complete frame: its task is built for the slot found again from the descriptor, and is lost
      if there is none or the task queue refuses it. */
  function DoReceive(s: State, slot: nat, requestId: nat): (s': State)
    requires slot < |s.clients| && s.clients[slot].fd in s.kernel
  {
    var c := s.clients[slot];
    var found := SlotOf(s.clients, c.fd, 0);
    var u := |s.requests|;
    var s1 := s.(requests := s.requests + [Request(s.kernel[c.fd], requestId)]);
    if found == -1 || |s.tasks| >= QUEUE_MAX then s1.(lost := s.lost + [u])
    else s1.(tasks := s.tasks + [Ticket(found, c.generation, requestId, u)])
  }

  /** `process_hardware_task`, `make_response` and `make_error_response` all copy these fields. */
  function Reply(t: Ticket): (r: Ticket) { Ticket(t.slot, t.generation, t.requestId, t.serial) }

  function DoPush(s: State, w: nat): (s': State)
    requires w < |s.workers| && s.workers[w].Done?
  {
    var r := s.workers[w].response;
    var s1 := s.(workers := s.workers[w := Idle]);
    if |s.responses| >= QUEUE_MAX then s1.(lost := s.lost + [r.serial])
    else s1.(responses := s.responses + [r])
  }

  /** One turn of `handle_response_to_client`. */
  function DoDeliver(s: State): (s': State)
    requires s.responses != []
  {
    var r := s.responses[0];
    var s1 := s.(responses := s.responses[1..]);
    if 0 <= r.slot < |s.clients| && s.clients[r.slot].alive && s.clients[r.slot].generation == r.generation &&
       s.clients[r.slot].fd in s.kernel
    then s1.(answers := s.answers + [Answer(s.kernel[s.clients[r.slot].fd], r.requestId, r.serial)])
    else s1.(lost := s.lost + [r.serial])
  }

  function Apply(s: State, a: Action): (s': State)
    requires Enabled(s, a)
  {
    match a
    case Connect(fd) => DoConnect(s, fd)
    case Disconnect(slot) => DoDisconnect(s, slot)
    case MarkDead(slot) => s.(clients := s.clients[slot := s.clients[slot].(alive := false)])
    case Receive(slot, requestId) => DoReceive(s, slot, requestId)
    case LoseTask(k) => s.(tasks := Without(s.tasks, k), lost := s.lost + [s.tasks[k].serial])
    case Take(w, k) => s.(tasks := Without(s.tasks, k), workers := s.workers[w := Running(s.tasks[k])])
    case Expire(w) => s.(workers := s.workers[w := Idle], lost := s.lost + [s.workers[w].task.serial])
    case Respond(w) => s.(workers := s.workers[w := Done(Reply(s.workers[w].task))])
    case Push(w) => DoPush(s, w)
    case Deliver => DoDeliver(s)
  }

  // ---- The invariant ----

  /** An open slot is recorded under its current generation; descriptors of open slots differ. */
  predicate SlotOk(s: State, k: int)
    requires 0 <= k < |s.clients|
  {
    var c := s.clients[k];
    && (c.alive ==> c.fd != -1)
    && (c.fd != -1 ==>
          c.fd in s.kernel && (k, c.generation) in s.owners && s.owners[(k, c.generation)] == s.kernel[c.fd])
  }

  predicate DistinctFds(cs: seq<Client>)
  {
    forall j, k :: 0 <= j < k < |cs| && cs[j].fd != -1 ==> cs[j].fd != cs[k].fd
  }

  /** No (slot, generation) above the slot's current generation has been given out. */
  ghost predicate Past(s: State)
  {
    forall key :: key in s.owners ==> 0 <= key.0 < |s.clients| && key.1 <= s.clients[key.0].generation
  }

  /** The ticket's (slot, generation) was given to the peer that sent its request. */
  predicate Traced(s: State, t: Ticket)
  {
    && (t.slot, t.generation) in s.owners && t.serial < |s.requests|
    && s.requests[t.serial] == Request(s.owners[(t.slot, t.generation)], t.requestId)
  }

  predicate AllTraced(s: State)
  {
    && (forall k :: 0 <= k < |s.tasks| ==> Traced(s, s.tasks[k]))
    && (forall k :: 0 <= k < |s.responses| ==> Traced(s, s.responses[k]))
    && (forall w :: 0 <= w < |s.workers| ==> s.workers[w] == Idle || Traced(s, Held(s.workers[w])))
  }

  function Held(w: Worker): (t: Ticket)
    requires w != Idle
  {
    if w.Running? then w.task else w.response
  }

  predicate Answered(s: State)
  {
    forall k :: 0 <= k < |s.answers| ==>
      s.answers[k].serial < |s.requests| &&
      s.requests[s.answers[k].serial] == Request(s.answers[k].to, s.answers[k].requestId)
  }

  ghost predicate Tabled(s: State)
  {
    && |s.clients| == MAX_CLIENTS && (forall k :: 0 <= k < |s.clients| ==> SlotOk(s, k))
    && DistinctFds(s.clients) && Past(s) && -1 !in s.kernel
  }

  // ---- Counting ----

  function Hit(t: Ticket, u: nat): (n: nat) { if t.serial == u then 1 else 0 }

  function Tally(ts: seq<Ticket>, u: nat): (n: nat)
    decreases |ts|
  {
    if ts == [] then 0 else Hit(ts[0], u) + Tally(ts[1..], u)
  }

  function WorkersTally(ws: seq<Worker>, u: nat): (n: nat)
    decreases |ws|
  {
    if ws == [] then 0 else (if ws[0] == Idle then 0 else Hit(Held(ws[0]), u)) + WorkersTally(ws[1..], u)
  }

  function AnswersTally(log: seq<Answer>, u: nat): (n: nat)
    decreases |log|
  {
    if log == [] then 0 else (if log[0].serial == u then 1 else 0) + AnswersTally(log[1..], u)
  }

  function Fate(s: State, u: nat): (n: nat)
  {
    Tally(s.tasks, u) + WorkersTally(s.workers, u) + Tally(s.responses, u) +
    AnswersTally(s.answers, u) + Times(s.lost, u)
  }

  ghost predicate Accounted(s: State) { forall u: nat :: Fate(s, u) == if u < |s.requests| then 1 else 0 }

  ghost predicate Inv(s: State) { Tabled(s) && AllTraced(s) && Answered(s) && Accounted(s) }

  lemma {:induction false} TallyAppend(ts: seq<Ticket>, t: Ticket, u: nat)
    ensures Tally(ts + [t], u) == Tally(ts, u) + Hit(t, u)
    decreases |ts|
  {
    if ts == [] {
      assert (ts + [t])[1..] == [];
    } else {
      assert (ts + [t])[1..] == ts[1..] + [t];
      TallyAppend(ts[1..], t, u);
    }
  }

  lemma {:induction false} TallyWithout(ts: seq<Ticket>, k: nat, u: nat)
    requires k < |ts|
    ensures Tally(Without(ts, k), u) == Tally(ts, u) - Hit(ts[k], u)
    decreases |ts|
  {
    if k == 0 {
      assert Without(ts, 0) == ts[1..];
    } else {
      assert Without(ts, k) == [ts[0]] + Without(ts[1..], k - 1);
      assert Without(ts, k)[1..] == Without(ts[1..], k - 1);
      TallyWithout(ts[1..], k - 1, u);
    }
  }

  lemma {:induction false} WorkersTallyUpdate(ws: seq<Worker>, k: nat, w: Worker, u: nat)
    requires k < |ws|
    ensures WorkersTally(ws[k := w], u) == WorkersTally(ws, u)
              - (if ws[k] == Idle then 0 else Hit(Held(ws[k]), u)) + (if w == Idle then 0 else Hit(Held(w), u))
    decreases |ws|
  {
    if k == 0 {
      assert ws[k := w][1..] == ws[1..];
    } else {
      assert ws[k := w][1..] == ws[1..][k - 1 := w];
      WorkersTallyUpdate(ws[1..], k - 1, w, u);
    }
  }

  lemma {:induction false} AnswersTallyAppend(log: seq<Answer>, x: Answer, u: nat)
    ensures AnswersTally(log + [x], u) == AnswersTally(log, u) + (if x.serial == u then 1 else 0)
    decreases |log|
  {
    if log == [] {
      assert (log + [x])[1..] == [];
    } else {
      assert (log + [x])[1..] == log[1..] + [x];
      AnswersTallyAppend(log[1..], x, u);
    }
  }

  lemma {:induction false} WorkersTallyNone(ws: seq<Worker>, u: nat)
    requires forall w :: 0 <= w < |ws| ==> ws[w] == Idle
    ensures WorkersTally(ws, u) == 0
    decreases |ws|
  {
    if ws != [] { WorkersTallyNone(ws[1..], u); }
  }

  // ---- What every step keeps ----

  /** What has been given out, asked and answered stays so: histories only grow. */
  ghost predicate Grows(s: State, s': State)
  {
    && s.requests <= s'.requests && s.answers <= s'.answers
    && (forall key :: key in s.owners ==> key in s'.owners && s'.owners[key] == s.owners[key])
  }

  /** Steps that touch no slot but for marking it dead. */
  lemma TableSame(s: State, s': State)
    requires Tabled(s) && s'.kernel == s.kernel && s'.owners == s.owners && |s'.clients| == |s.clients|
    requires forall k {:trigger s'.clients[k]} :: 0 <= k < |s.clients| ==>
               s'.clients[k] == s.clients[k] || s'.clients[k] == s.clients[k].(alive := false)
    requires s.requests <= s'.requests && s.answers <= s'.answers
    ensures Tabled(s') && Grows(s, s')
  {
    forall k | 0 <= k < |s'.clients| ensures SlotOk(s', k) { assert SlotOk(s, k); }
  }

  lemma TableConnect(s: State, fd: int)
    requires Inv(s) && Enabled(s, Connect(fd))
    ensures Tabled(DoConnect(s, fd)) && Grows(s, DoConnect(s, fd))
  {
    hide AllTraced, Answered, Accounted;
    var s', slot := DoConnect(s, fd), FreeSlot(s.clients, 0);
    forall k | 0 <= k < |s'.clients| ensures SlotOk(s', k) { assert SlotOk(s, k); }
    if slot != -1 {
      assert (slot, s.clients[slot].generation + 1) !in s.owners;
      forall j, k | 0 <= j < k < |s'.clients| && s'.clients[j].fd != -1 ensures s'.clients[j].fd != s'.clients[k].fd {
        assert SlotOk(s, j) && SlotOk(s, k);
      }
    }
  }

  lemma TableDisconnect(s: State, slot: nat)
    requires Inv(s) && Enabled(s, Disconnect(slot))
    ensures Tabled(DoDisconnect(s, slot)) && Grows(s, DoDisconnect(s, slot))
  {
    hide AllTraced, Answered, Accounted;
    var s' := DoDisconnect(s, slot);
    forall k | 0 <= k < |s'.clients| ensures SlotOk(s', k) { assert SlotOk(s, k); }
  }

  lemma KeepsTable(s: State, a: Action)
    requires Inv(s) && Enabled(s, a)
    ensures Tabled(Apply(s, a)) && Grows(s, Apply(s, a))
  {
    hide AllTraced, Answered, Accounted, Tabled, Grows;
    if a.Connect? {
      TableConnect(s, a.fd);
    } else if a.Disconnect? {
      TableDisconnect(s, a.slot);
    } else {
      TableSame(s, Apply(s, a));
    }
  }

  lemma TracedGrows(s: State, s': State, t: Ticket)
    requires Grows(s, s') && Traced(s, t)
    ensures Traced(s', t)
  {
  }

  /** The tickets in `ts'` are old ones or the traced `t`. */
  lemma TicketsTraced(s: State, s': State, ts: seq<Ticket>, ts': seq<Ticket>)
    requires Grows(s, s') && forall k :: 0 <= k < |ts| ==> Traced(s, ts[k])
    requires forall k :: 0 <= k < |ts'| ==> ts'[k] in ts || Traced(s', ts'[k])
    ensures forall k :: 0 <= k < |ts'| ==> Traced(s', ts'[k])
  {
    hide Traced;
    forall k | 0 <= k < |ts'| ensures Traced(s', ts'[k]) {
      if ts'[k] in ts { TracedGrows(s, s', ts'[k]); }
    }
  }

  /** A received frame's task is built for the slot it arrived on. */
  lemma FoundAgain(s: State, slot: nat)
    requires Tabled(s) && slot < |s.clients| && s.clients[slot].fd in s.kernel
    ensures var found := SlotOf(s.clients, s.clients[slot].fd, 0);
            found == slot || found == -1
  {
  }

  lemma ReceiveTraced(s: State, slot: nat, requestId: nat)
    requires Inv(s) && Enabled(s, Receive(slot, requestId))
    ensures var s' := DoReceive(s, slot, requestId);
            s'.tasks == s.tasks || (|s'.tasks| == |s.tasks| + 1 && s'.tasks == s.tasks + [s'.tasks[|s.tasks|]] &&
            Traced(s', s'.tasks[|s.tasks|]))
  {
    hide AllTraced, Answered, Accounted;
    FoundAgain(s, slot);
    assert SlotOk(s, slot);
  }

  lemma WorkersTraced(s: State, s': State, w: nat)
    requires Grows(s, s') && AllTraced(s) && w < |s.workers| == |s'.workers|
    requires s'.workers == s.workers[w := s'.workers[w]]
    requires s'.workers[w] == Idle || Traced(s', Held(s'.workers[w]))
    ensures forall k :: 0 <= k < |s'.workers| ==> s'.workers[k] == Idle || Traced(s', Held(s'.workers[k]))
  {
    forall k | 0 <= k < |s'.workers| && s'.workers[k] != Idle ensures Traced(s', Held(s'.workers[k])) {
      if k != w {
        assert s'.workers[k] == s.workers[k] && Traced(s, Held(s.workers[k]));
        TracedGrows(s, s', Held(s.workers[k]));
      }
    }
  }

  lemma WorkersStillTraced(s: State, s': State)
    requires Grows(s, s') && AllTraced(s) && s'.workers == s.workers
    ensures forall k :: 0 <= k < |s'.workers| ==> s'.workers[k] == Idle || Traced(s', Held(s'.workers[k]))
  {
    if |s.workers| > 0 {
      if s.workers[0] != Idle { TracedGrows(s, s', Held(s.workers[0])); }
      WorkersTraced(s, s', 0);
    }
  }

  lemma KeepsTraced(s: State, a: Action)
    requires Inv(s) && Enabled(s, a)
    ensures AllTraced(Apply(s, a))
  {
    hide Answered, Accounted, Tabled, Traced, Grows, FreeSlot, SlotOf;
    var s' := Apply(s, a);
    KeepsTable(s, a);
    if a.Receive? { ReceiveTraced(s, a.slot, a.requestId); }
    if a.Push? { assert Traced(s, s.workers[a.w].response); TracedGrows(s, s', s.workers[a.w].response); }
    TicketsTraced(s, s', s.tasks, s'.tasks);
    TicketsTraced(s, s', s.responses, s'.responses);
    if a.Take? || a.Expire? || a.Respond? || a.Push? {
      WorkerStepTraced(s, a);
      WorkersTraced(s, s', a.w);
    } else {
      WorkersStillTraced(s, s');
    }
  }

  /** What the stepping worker holds afterwards is traced: a response keeps its task's routing. */
  lemma WorkerStepTraced(s: State, a: Action)
    requires Inv(s) && Enabled(s, a) && (a.Take? || a.Expire? || a.Respond? || a.Push?)
    ensures var s' := Apply(s, a);
            && a.w < |s.workers| == |s'.workers| && s'.workers == s.workers[a.w := s'.workers[a.w]]
            && (s'.workers[a.w] == Idle || Traced(s', Held(s'.workers[a.w])))
  {
    hide Answered, Accounted, Tabled, Grows, FreeSlot, SlotOf;
    if a.Respond? { assert Traced(s, s.workers[a.w].task); }
  }

  /** A response passes the test of `handle_response_to_client` only on the connection whose
      request it answers. */
  lemma DeliverAnswers(s: State)
    requires Inv(s) && Enabled(s, Deliver)
    ensures Answered(DoDeliver(s))
  {
    hide Accounted;
    var r := s.responses[0];
    assert Traced(s, r);
    if 0 <= r.slot < |s.clients| { assert SlotOk(s, r.slot); }
  }

  lemma KeepsAnswered(s: State, a: Action)
    requires Inv(s) && Enabled(s, a)
    ensures Answered(Apply(s, a))
  {
    hide Accounted, Tabled, AllTraced, FreeSlot, SlotOf;
    if a.Deliver? { DeliverAnswers(s); }
  }

  lemma KeepsFate(s: State, a: Action, u: nat)
    requires Inv(s) && Enabled(s, a)
    ensures Fate(Apply(s, a), u) == Fate(s, u) + (if a.Receive? && u == |s.requests| then 1 else 0)
  {
    hide Accounted, Tabled, AllTraced, Answered, FreeSlot, SlotOf, Tally, WorkersTally, AnswersTally, Times, Without;
    match a
    case Connect(fd) =>
    case Disconnect(slot) =>
    case MarkDead(slot) =>
    case Receive(slot, requestId) =>
      ReceiveFate(s, slot, requestId, u);
    case LoseTask(k) =>
      TallyWithout(s.tasks, k, u);
      TimesAppend(s.lost, s.tasks[k].serial, u);
    case Take(w, k) =>
      TallyWithout(s.tasks, k, u);
      WorkersTallyUpdate(s.workers, w, Running(s.tasks[k]), u);
    case Expire(w) =>
      WorkersTallyUpdate(s.workers, w, Idle, u);
      TimesAppend(s.lost, s.workers[w].task.serial, u);
    case Respond(w) => WorkersTallyUpdate(s.workers, w, Done(Reply(s.workers[w].task)), u);
    case Push(w) => PushFate(s, w, u);
    case Deliver => DeliverFate(s, u);
  }

  lemma ReceiveFate(s: State, slot: nat, requestId: nat, u: nat)
    requires Inv(s) && Enabled(s, Receive(slot, requestId))
    ensures Fate(DoReceive(s, slot, requestId), u) == Fate(s, u) + (if u == |s.requests| then 1 else 0)
  {
    hide Accounted, Tabled, AllTraced, Answered, FreeSlot, SlotOf, Tally, WorkersTally, AnswersTally, Times;
    var s' := DoReceive(s, slot, requestId);
    TimesAppend<nat>(s.lost, |s.requests|, u);
    if |s'.tasks| > |s.tasks| { TallyAppend(s.tasks, s'.tasks[|s.tasks|], u); }
  }

  lemma PushFate(s: State, w: nat, u: nat)
    requires Inv(s) && Enabled(s, Push(w))
    ensures Fate(DoPush(s, w), u) == Fate(s, u)
  {
    hide Accounted, Tabled, AllTraced, Answered, FreeSlot, SlotOf, Tally, WorkersTally, AnswersTally, Times;
    WorkersTallyUpdate(s.workers, w, Idle, u);
    TallyAppend(s.responses, s.workers[w].response, u);
    TimesAppend(s.lost, s.workers[w].response.serial, u);
  }

  lemma DeliverFate(s: State, u: nat)
    requires Inv(s) && Enabled(s, Deliver)
    ensures Fate(DoDeliver(s), u) == Fate(s, u)
  {
    hide Accounted, Tabled, AllTraced, Answered, FreeSlot, SlotOf, WorkersTally, AnswersTally, Times;
    var s' := DoDeliver(s);
    if |s'.answers| > |s.answers| { AnswersTallyAppend(s.answers, s'.answers[|s.answers|], u); }
    TimesAppend(s.lost, s.responses[0].serial, u);
  }

  lemma Keeps(s: State, a: Action)
    requires Inv(s) && Enabled(s, a)
    ensures Inv(Apply(s, a)) && Grows(s, Apply(s, a))
  {
    hide Enabled, Tabled, AllTraced, Answered, Fate, Grows;
    var s' := Apply(s, a);
    KeepsTable(s, a);
    KeepsTraced(s, a);
    KeepsAnswered(s, a);
    forall u: nat ensures Fate(s', u) == if u < |s'.requests| then 1 else 0 {
      KeepsFate(s, a, u);
      assert Fate(s, u) == if u < |s.requests| then 1 else 0;
    }
  }

  // ---- Every run ----

  ghost predicate Takes(s: State, a: Action, s': State) { Enabled(s, a) && s' == Apply(s, a) }

  ghost predicate Run(ss: seq<State>, steps: seq<Action>)
  {
    && |ss| == |steps| + 1 && Init(ss[0])
    && (forall i :: 0 <= i < |steps| ==> Takes(ss[i], steps[i], ss[i + 1]))
  }

  lemma {:induction false} EveryState(ss: seq<State>, steps: seq<Action>, i: nat)
    requires Run(ss, steps) && i < |ss|
    ensures Inv(ss[i])
    decreases i
  {
    if i == 0 {
      forall u: nat ensures Fate(ss[0], u) == 0 { WorkersTallyNone(ss[0].workers, u); }
    } else {
      hide Inv, Enabled, Apply, Init;
      EveryState(ss, steps, i - 1);
      assert Takes(ss[i - 1], steps[i - 1], ss[i]);
      Keeps(ss[i - 1], steps[i - 1]);
    }
  }

  lemma StepGrows(ss: seq<State>, steps: seq<Action>, i: nat)
    requires Run(ss, steps) && i + 1 < |ss|
    ensures Grows(ss[i], ss[i + 1])
  {
    hide Inv, Enabled, Apply, Init, Grows;
    EveryState(ss, steps, i);
    assert Takes(ss[i], steps[i], ss[i + 1]);
    Keeps(ss[i], steps[i]);
  }

  /** (slot, generation) names one connection over a whole run. */
  lemma {:induction false} OwnerForever(ss: seq<State>, steps: seq<Action>, i: nat, j: nat, slot: int, generation: nat)
    requires Run(ss, steps) && i <= j < |ss| && (slot, generation) in ss[i].owners
    ensures (slot, generation) in ss[j].owners && ss[j].owners[(slot, generation)] == ss[i].owners[(slot, generation)]
    decreases j
  {
    hide Run;
    if i < j {
      OwnerForever(ss, steps, i, j - 1, slot, generation);
      StepGrows(ss, steps, j - 1);
    }
  }

  /** Whoever holds a slot, in whichever state of the run, holds it under a (slot, generation) that
      nobody else ever held. */
  lemma OneConnectionPerGeneration(ss: seq<State>, steps: seq<Action>, i: nat, j: nat, slot: nat)
    requires Run(ss, steps) && i < |ss| && j < |ss| && slot < |ss[i].clients| && slot < |ss[j].clients|
    requires ss[i].clients[slot].alive && ss[j].clients[slot].alive
    requires ss[i].clients[slot].generation == ss[j].clients[slot].generation
    ensures ss[i].clients[slot].fd in ss[i].kernel && ss[j].clients[slot].fd in ss[j].kernel
    ensures ss[i].kernel[ss[i].clients[slot].fd] == ss[j].kernel[ss[j].clients[slot].fd]
  {
    EveryState(ss, steps, i);
    EveryState(ss, steps, j);
    assert SlotOk(ss[i], slot) && SlotOk(ss[j], slot);
    var generation := ss[i].clients[slot].generation;
    if i <= j {
      OwnerForever(ss, steps, i, j, slot, generation);
    } else {
      OwnerForever(ss, steps, j, i, slot, generation);
    }
  }

  /** Every response put on a connection carries the request id of a request that this connection
      sent; each request is answered at most once, and exactly one of: in transit, answered, lost. */
  lemma AnswersMatchRequests(ss: seq<State>, steps: seq<Action>, i: nat)
    requires Run(ss, steps) && i < |ss|
    ensures forall k :: 0 <= k < |ss[i].answers| ==>
              ss[i].answers[k].serial < |ss[i].requests| &&
              ss[i].requests[ss[i].answers[k].serial] == Request(ss[i].answers[k].to, ss[i].answers[k].requestId)
    ensures forall u: nat {:trigger AnswersTally(ss[i].answers, u)} :: AnswersTally(ss[i].answers, u) <= 1
    ensures forall u: nat {:trigger Fate(ss[i], u)} :: u < |ss[i].requests| ==> Fate(ss[i], u) == 1
  {
    EveryState(ss, steps, i);
    forall u: nat ensures AnswersTally(ss[i].answers, u) <= 1 { assert Fate(ss[i], u) <= 1; }
  }
}

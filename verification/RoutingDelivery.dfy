/** When the gateway delivers a response, over whole runs: exactly when the connection that sent its
    request still holds a live slot. And what else can make a request go unanswered. */
module RoutingDelivery {
  import opened Lists
  import opened Routing

  /** No connection was ever given two slots, and new connections are new. */
  ghost predicate Apart(s: State)
  {
    && (forall key :: key in s.owners ==> s.owners[key] < s.peers)
    && (forall key, key' :: key in s.owners && key' in s.owners && s.owners[key] == s.owners[key'] ==> key == key')
  }

  lemma KeepsApart(s: State, a: Action)
    requires Enabled(s, a) && Apart(s)
    ensures Apart(Apply(s, a))
  {
    hide SlotOf;
  }

  lemma {:induction false} EveryApart(ss: seq<State>, steps: seq<Action>, i: nat)
    requires Run(ss, steps) && i < |ss|
    ensures Apart(ss[i])
    decreases i
  {
    if i > 0 {
      hide Enabled, Apply, Apart;
      EveryApart(ss, steps, i - 1);
      assert Takes(ss[i - 1], steps[i - 1], ss[i]);
      KeepsApart(ss[i - 1], steps[i - 1]);
    }
  }

  /** Slot `k` is live and belongs to `p`. */
  ghost predicate HoldsAt(s: State, k: int, p: Peer)
  {
    && 0 <= k < |s.clients| && s.clients[k].alive
    && s.clients[k].fd in s.kernel && s.kernel[s.clients[k].fd] == p
  }

  ghost predicate HoldsLive(s: State, p: Peer) { exists k :: HoldsAt(s, k, p) }

  /** The slot a response names is live under its generation exactly when the sender of its request
      holds a live slot at all. */
  lemma LiveMeansHeld(s: State, r: Ticket)
    requires Inv(s) && Apart(s) && Traced(s, r)
    ensures 0 <= r.slot < |s.clients| && s.clients[r.slot].alive && s.clients[r.slot].generation == r.generation <==>
            HoldsLive(s, s.requests[r.serial].from)
  {
    hide AllTraced, Answered, Accounted;
    var p := s.requests[r.serial].from;
    if 0 <= r.slot < |s.clients| && s.clients[r.slot].alive && s.clients[r.slot].generation == r.generation {
      assert SlotOk(s, r.slot);
      assert HoldsAt(s, r.slot, p);
    }
    if HoldsLive(s, p) {
      var k :| HoldsAt(s, k, p);
      assert SlotOk(s, k);
      assert s.owners[(k, s.clients[k].generation)] == s.owners[(r.slot, r.generation)];
    }
  }

  /** What one turn of `handle_response_to_client` does with the oldest response. */
  lemma DeliverExactly(s: State)
    requires Inv(s) && Apart(s) && Enabled(s, Deliver)
    ensures var r, s' := s.responses[0], Apply(s, Deliver);
            && r.serial < |s.requests| && s'.responses == s.responses[1..]
            && var q := s.requests[r.serial];
               if HoldsLive(s, q.from)
               then s'.answers == s.answers + [Answer(q.from, q.requestId, r.serial)] && s'.lost == s.lost
               else s'.answers == s.answers && s'.lost == s.lost + [r.serial]
  {
    var r := s.responses[0];
    assert Traced(s, r);
    LiveMeansHeld(s, r);
    hide AllTraced, Answered, Accounted, HoldsLive;
    if 0 <= r.slot < |s.clients| { assert SlotOk(s, r.slot); }
  }

  /** In every run, a response taken up is put on the connection whose request it answers, exactly if
      that connection still holds a live slot, and is given up otherwise. */
  lemma DeliveredUnlessGone(ss: seq<State>, steps: seq<Action>, i: nat)
    requires Run(ss, steps) && i < |steps| && steps[i] == Deliver
    ensures ss[i].responses != [] && ss[i].responses[0].serial < |ss[i].requests|
    ensures var r, s, s' := ss[i].responses[0], ss[i], ss[i + 1];
            var q := s.requests[r.serial];
            if HoldsLive(s, q.from)
            then s'.answers == s.answers + [Answer(q.from, q.requestId, r.serial)] && s'.lost == s.lost
            else s'.answers == s.answers && s'.lost == s.lost + [r.serial]
  {
    EveryState(ss, steps, i);
    EveryApart(ss, steps, i);
    assert Takes(ss[i], steps[i], ss[i + 1]);
    hide Inv, Apart, HoldsLive;
    DeliverExactly(ss[i]);
  }

  // ---- Who holds a live slot ----

  /** A new connection gets a live slot exactly if a slot is free. */
  lemma ConnectedIsLive(s: State, fd: int)
    requires Inv(s) && Apart(s) && Enabled(s, Connect(fd))
    ensures HoldsLive(Apply(s, Connect(fd)), s.peers) <==> exists k :: 0 <= k < |s.clients| && s.clients[k].fd == -1
  {
    hide AllTraced, Answered, Accounted, SlotOf;
    var s', slot := Apply(s, Connect(fd)), FreeSlot(s.clients, 0);
    if slot != -1 {
      assert s.clients[slot].fd == -1 && HoldsAt(s', slot, s.peers);
    } else if HoldsLive(s', s.peers) {
      var k :| HoldsAt(s', k, s.peers);
      assert SlotOk(s, k);
    }
  }

  /** A connection keeps its live slot until that slot is closed or marked dead. */
  lemma StaysLive(s: State, a: Action, k: nat, p: Peer)
    requires Inv(s) && Enabled(s, a) && HoldsAt(s, k, p)
    ensures HoldsAt(Apply(s, a), k, p) <==> a != Disconnect(k) && a != MarkDead(k)
  {
    hide AllTraced, Answered, Accounted, SlotOf;
    assert SlotOk(s, k);
    if a.Disconnect? { assert SlotOk(s, a.slot); }
  }

  // ---- Every way to go unanswered ----

  /** A complete frame becomes a task exactly if its slot is live and the task queue has room. */
  lemma ReceiveExactly(s: State, slot: nat, requestId: nat)
    requires Inv(s) && Enabled(s, Receive(slot, requestId))
    ensures var c, u, s' := s.clients[slot], |s.requests|, Apply(s, Receive(slot, requestId));
            && s'.requests == s.requests + [Request(s.kernel[c.fd], requestId)]
            && if c.alive && |s.tasks| < QUEUE_MAX
               then s'.tasks == s.tasks + [Ticket(slot, c.generation, requestId, u)] && s'.lost == s.lost
               else s'.tasks == s.tasks && s'.lost == s.lost + [u]
  {
    hide AllTraced, Answered, Accounted;
    FoundAgain(s, slot);
  }

  /** Step `a` gives request `u` up: its slot died or the task queue was full when it came, its task was
      lost or timed out, the response queue was full, or its sender is gone. */
  ghost predicate GivesUp(s: State, a: Action, u: nat)
    requires Enabled(s, a)
  {
    match a
    case Receive(slot, _) => u == |s.requests| && (!s.clients[slot].alive || |s.tasks| >= QUEUE_MAX)
    case LoseTask(k) => s.tasks[k].serial == u
    case Expire(w) => s.workers[w].task.serial == u
    case Push(w) => s.workers[w].response.serial == u && |s.responses| >= QUEUE_MAX
    case Deliver => s.responses[0].serial == u && u < |s.requests| && !HoldsLive(s, s.requests[u].from)
    case _ => false
  }

  lemma LossStep(s: State, a: Action, u: nat)
    requires Inv(s) && Apart(s) && Enabled(s, a)
    ensures Times(Apply(s, a).lost, u) == Times(s.lost, u) + (if GivesUp(s, a, u) then 1 else 0)
  {
    hide Times, Inv, Apart, HoldsLive;
    match a
    case Receive(slot, requestId) =>
      ReceiveExactly(s, slot, requestId);
      TimesAppend<nat>(s.lost, |s.requests|, u);
    case LoseTask(k) => TimesAppend(s.lost, s.tasks[k].serial, u);
    case Expire(w) => TimesAppend(s.lost, s.workers[w].task.serial, u);
    case Push(w) => TimesAppend(s.lost, s.workers[w].response.serial, u);
    case Deliver =>
      DeliverExactly(s);
      TimesAppend(s.lost, s.responses[0].serial, u);
    case _ =>
  }

  /** In every run, a request is in transit, or answered once, or was given up by exactly one step for
      one of these causes: it is counted as lost exactly as often as that happened. */
  lemma {:induction false} LostOnlyForCause(ss: seq<State>, steps: seq<Action>, i: nat, u: nat)
    requires Run(ss, steps) && i < |ss|
    ensures Times(ss[i].lost, u) == CausesOf(ss, steps, i, u)
    decreases i
  {
    hide Enabled, Apply, Inv, Apart, GivesUp, Times;
    if i == 0 {
      NothingLost(ss, steps, u);
    } else {
      LostOnlyForCause(ss, steps, i - 1, u);
      EveryState(ss, steps, i - 1);
      EveryApart(ss, steps, i - 1);
      assert Takes(ss[i - 1], steps[i - 1], ss[i]);
      LossStep(ss[i - 1], steps[i - 1], u);
    }
  }

  lemma NothingLost(ss: seq<State>, steps: seq<Action>, u: nat)
    requires Run(ss, steps)
    ensures Times(ss[0].lost, u) == 0
  {
  }

  /** How many of the first `i` steps give request `u` up. */
  ghost function CausesOf(ss: seq<State>, steps: seq<Action>, i: nat, u: nat): (n: nat)
    requires Run(ss, steps) && i < |ss|
    decreases i
  {
    if i == 0 then 0
    else
      assert Takes(ss[i - 1], steps[i - 1], ss[i]);
      CausesOf(ss, steps, i - 1, u) + (if GivesUp(ss[i - 1], steps[i - 1], u) then 1 else 0)
  }

  /** A request that has left the queues and workers has been answered exactly if no step gave it
      up. */
  lemma AnsweredUnlessGivenUp(ss: seq<State>, steps: seq<Action>, i: nat, u: nat)
    requires Run(ss, steps) && i < |ss| && u < |ss[i].requests|
    requires Tally(ss[i].tasks, u) + WorkersTally(ss[i].workers, u) + Tally(ss[i].responses, u) == 0
    ensures AnswersTally(ss[i].answers, u) == 1 <==> CausesOf(ss, steps, i, u) == 0
  {
    EveryState(ss, steps, i);
    hide Run, CausesOf;
    LostOnlyForCause(ss, steps, i, u);
    assert Fate(ss[i], u) == 1;
  }

  // ---- The order of responses ----

  /** The responses that workers have put on the response queue in the first `i` steps. */
  ghost function PutUpTo(ss: seq<State>, steps: seq<Action>, i: nat): (rs: seq<Ticket>)
    requires Run(ss, steps) && i < |ss|
    decreases i
  {
    if i == 0 then []
    else
      assert Takes(ss[i - 1], steps[i - 1], ss[i]);
      PutUpTo(ss, steps, i - 1) + Put(ss[i - 1], steps[i - 1])
  }

  /** Those that the main thread has taken up. */
  ghost function TakenUpTo(ss: seq<State>, steps: seq<Action>, i: nat): (rs: seq<Ticket>)
    requires Run(ss, steps) && i < |ss|
    decreases i
  {
    if i == 0 then []
    else
      assert Takes(ss[i - 1], steps[i - 1], ss[i]);
      TakenUpTo(ss, steps, i - 1) + TakenUp(ss[i - 1], steps[i - 1])
  }

  function Put(s: State, a: Action): (rs: seq<Ticket>)
    requires Enabled(s, a)
  {
    if a.Push? && |s.responses| < QUEUE_MAX then [s.workers[a.w].response] else []
  }

  function TakenUp(s: State, a: Action): (rs: seq<Ticket>)
    requires Enabled(s, a)
  {
    if a == Deliver then [s.responses[0]] else []
  }

  lemma ResponsesStep(s: State, a: Action)
    requires Enabled(s, a)
    ensures s.responses + Put(s, a) == TakenUp(s, a) + Apply(s, a).responses
  {
    hide SlotOf, FreeSlot;
    if a == Deliver {
      assert s.responses == [s.responses[0]] + s.responses[1..];
    }
  }

  lemma OrderStep(ss: seq<State>, steps: seq<Action>, i: nat)
    requires Run(ss, steps) && i < |steps|
    ensures Takes(ss[i], steps[i], ss[i + 1])
    ensures PutUpTo(ss, steps, i + 1) == PutUpTo(ss, steps, i) + Put(ss[i], steps[i])
    ensures TakenUpTo(ss, steps, i + 1) == TakenUpTo(ss, steps, i) + TakenUp(ss[i], steps[i])
  {
    hide Apply, Enabled, Put, TakenUp, Init;
    assert Takes(ss[i], steps[i], ss[i + 1]);
  }

  lemma OrderStart(ss: seq<State>, steps: seq<Action>)
    requires Run(ss, steps)
    ensures PutUpTo(ss, steps, 0) == TakenUpTo(ss, steps, 0) == ss[0].responses == [] && |ss| == |steps| + 1
  {
    hide Apply, Enabled;
  }

  /** In every run, the responses are taken up in the order in which workers put them on the queue. */
  lemma {:induction false} ResponsesInOrder(ss: seq<State>, steps: seq<Action>, i: nat)
    requires Run(ss, steps) && i < |ss|
    ensures PutUpTo(ss, steps, i) == TakenUpTo(ss, steps, i) + ss[i].responses
    decreases i
  {
    hide Run, Apply, Enabled, Put, TakenUp, PutUpTo, TakenUpTo;
    OrderStart(ss, steps);
    if i > 0 {
      ResponsesInOrder(ss, steps, i - 1);
      OrderStep(ss, steps, i - 1);
      ResponsesStep(ss[i - 1], steps[i - 1]);
      Regroup(TakenUpTo(ss, steps, i - 1), ss[i - 1].responses, Put(ss[i - 1], steps[i - 1]),
              TakenUp(ss[i - 1], steps[i - 1]), ss[i].responses);
    }
  }

  lemma Regroup(t: seq<Ticket>, q: seq<Ticket>, put: seq<Ticket>, taken: seq<Ticket>, q': seq<Ticket>)
    requires q + put == taken + q'
    ensures t + q + put == t + taken + q'
  {
    assert t + q + put == t + (q + put);
  }
}

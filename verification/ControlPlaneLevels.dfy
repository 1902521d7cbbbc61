/** Priorities over whole runs of the control-plane server: each level holds only frames of its
    priority, oldest first, and a worker takes the most urgent, then oldest, task it may. */
module ControlPlaneLevels {
  import opened Lists
  import opened Rings
  import opened ControlPlane
  import S = ControlPlaneSafety

  /** The tasks of `q` have priority `pri`, and serial numbers that rise and stay below `limit`. */
  predicate Level(q: seq<Task>, pri: int, limit: nat)
  {
    && (forall k :: 0 <= k < |q| ==> q[k].frame.pri == pri && q[k].serial < limit)
    && Rising(q)
  }

  predicate Rising(q: seq<Task>) { forall j, k :: 0 <= j < k < |q| ==> q[j].serial < q[k].serial }

  /** Above the serial numbers of all queued tasks, and that of the held one if it is still to come. */
  function Limit(s: State): (n: nat) { if s.io.IoHolding? then s.io.task.serial else |s.accepted| }

  predicate Ordered(s: State)
  {
    && Limit(s) <= |s.accepted| && (s.io.IoHolding? ==> Limit(s) < |s.accepted|)
    && Level(s.high, HIGH, Limit(s)) && Level(s.medium, MEDIUM, Limit(s)) && Level(s.low, LOW, Limit(s))
  }

  lemma LevelMore(q: seq<Task>, t: Task, limit: nat)
    requires Level(q, t.frame.pri, t.serial) && t.serial < limit
    ensures Level(q + [t], t.frame.pri, limit)
  {
  }

  lemma LevelHigher(q: seq<Task>, pri: int, limit: nat, limit': nat)
    requires Level(q, pri, limit) && limit <= limit'
    ensures Level(q, pri, limit')
  {
  }

  lemma EnqueueOrdered(s: State)
    requires |s.clients| == FD_SETSIZE && Enabled(s, Enqueue) && Ordered(s)
    ensures Ordered(DoEnqueue(s))
  {
    hide Level;
    var t, n := s.io.task, |s.accepted|;
    LevelHigher(s.high, HIGH, t.serial, n);
    LevelHigher(s.medium, MEDIUM, t.serial, n);
    LevelHigher(s.low, LOW, t.serial, n);
    if t.frame.pri == HIGH {
      LevelMore(s.high, t, n);
    } else if t.frame.pri == MEDIUM {
      LevelMore(s.medium, t, n);
    } else if t.frame.pri == LOW {
      LevelMore(s.low, t, n);
    }
  }

  lemma KeepsOrdered(s: State, a: Action)
    requires |s.clients| == FD_SETSIZE && Enabled(s, a) && Ordered(s)
    ensures Ordered(Apply(s, a))
  {
    if a == Enqueue {
      EnqueueOrdered(s);
    } else if a.Dequeue? {
      DequeueOrdered(s, a.w, a.role);
    } else {
      OtherLevels(s, a);
      hide Apply, Enabled, Level;
      LevelHigher(s.high, HIGH, Limit(s), Limit(Apply(s, a)));
      LevelHigher(s.medium, MEDIUM, Limit(s), Limit(Apply(s, a)));
      LevelHigher(s.low, LOW, Limit(s), Limit(Apply(s, a)));
    }
  }

  /** The step neither queues nor takes a task, and a held task stays the latest accepted. */
  ghost predicate LevelsStay(s: State, s': State)
  {
    && s'.high == s.high && s'.medium == s.medium && s'.low == s.low
    && Limit(s) <= Limit(s') <= |s'.accepted| && (s'.io.IoHolding? ==> Limit(s') < |s'.accepted|)
  }

  lemma OtherLevels(s: State, a: Action)
    requires |s.clients| == FD_SETSIZE && Enabled(s, a) && a != Enqueue && !a.Dequeue?
    requires Limit(s) <= |s.accepted| && (s.io.IoHolding? ==> Limit(s) < |s.accepted|)
    ensures LevelsStay(s, Apply(s, a))
  {
    if a.EndRead? {
      hide Live, Decremented, Reapable, Picked;
    } else {
      IoStays(s, a);
      hide Apply, Enabled;
    }
  }

  lemma IoStays(s: State, a: Action)
    requires |s.clients| == FD_SETSIZE && Enabled(s, a) && a != Enqueue && !a.Dequeue? && !a.EndRead?
    ensures var s' := Apply(s, a);
            && s'.high == s.high && s'.medium == s.medium && s'.low == s.low && s'.accepted == s.accepted
            && (s'.io == s.io || (!s'.io.IoHolding? && !s.io.IoHolding?))
  {
    hide Live, Decremented, Reapable, Picked;
    if a.Check? || a.Handle? || a.Finish? {
      WorkerStays(s, a);
    } else {
      assert Apply(s, a).accepted == s.accepted;
    }
  }

  lemma WorkerStays(s: State, a: Action)
    requires |s.clients| == FD_SETSIZE && Enabled(s, a) && (a.Check? || a.Handle? || a.Finish?)
    ensures var s' := Apply(s, a);
            && s'.high == s.high && s'.medium == s.medium && s'.low == s.low && s'.accepted == s.accepted
            && s'.io == s.io && s'.shutdown == s.shutdown
  {
    hide Live, Decremented, Reapable, Picked, Valid;
  }

  lemma DequeueOrdered(s: State, w: nat, role: Role)
    requires |s.clients| == FD_SETSIZE && Enabled(s, Dequeue(w, role)) && Ordered(s)
    ensures Ordered(DoDequeue(s, w, role))
  {
    assert DoDequeue(s, w, role).io == s.io;
  }

  lemma {:induction false} EveryOrdered(ss: seq<State>, steps: seq<Action>, i: nat)
    requires S.Run(ss, steps) && i < |ss|
    ensures Ordered(ss[i])
    decreases i
  {
    if i > 0 {
      hide Enabled, Apply, Ordered, S.Run;
      EveryOrdered(ss, steps, i - 1);
      S.StepAt(ss, steps, i - 1);
      KeepsOrdered(ss[i - 1], steps[i - 1]);
    }
  }

  // ---- What the queues hold ----

  function Waiting(s: State): (ts: seq<Task>) { s.high + s.medium + s.low }

  function CountOf(ts: seq<Task>, pri: int): (n: nat)
    decreases |ts|
  {
    if ts == [] then 0 else (if ts[0].frame.pri == pri then 1 else 0) + CountOf(ts[1..], pri)
  }

  lemma {:induction false} CountSum(a: seq<Task>, b: seq<Task>, pri: int)
    ensures CountOf(a + b, pri) == CountOf(a, pri) + CountOf(b, pri)
    decreases |a|
  {
    if a == [] {
      assert a + b == b;
    } else {
      assert (a + b)[1..] == a[1..] + b;
      CountSum(a[1..], b, pri);
    }
  }

  lemma {:induction false} CountLevel(q: seq<Task>, pri: int, limit: nat, p: int)
    requires Level(q, pri, limit)
    ensures CountOf(q, p) == if p == pri then |q| else 0
    decreases |q|
  {
    if q != [] { CountLevel(q[1..], pri, limit, p); }
  }

  /** The tasks waiting at each priority are those of its level. */
  lemma CountWaiting(s: State)
    requires Ordered(s)
    ensures CountOf(Waiting(s), HIGH) == |s.high| && CountOf(Waiting(s), MEDIUM) == |s.medium|
    ensures CountOf(Waiting(s), LOW) == |s.low|
  {
    hide Level, CountOf;
    forall p: int ensures CountOf(Waiting(s), p) == CountOf(s.high, p) + CountOf(s.medium, p) + CountOf(s.low, p) {
      CountSum(s.high + s.medium, s.low, p);
      CountSum(s.high, s.medium, p);
    }
    forall p: int
      ensures CountOf(s.high, p) == if p == HIGH then |s.high| else 0
      ensures CountOf(s.medium, p) == if p == MEDIUM then |s.medium| else 0
      ensures CountOf(s.low, p) == if p == LOW then |s.low| else 0
    {
      CountLevel(s.high, HIGH, Limit(s), p);
      CountLevel(s.medium, MEDIUM, Limit(s), p);
      CountLevel(s.low, LOW, Limit(s), p);
    }
  }

  // ---- Queueing and taking, over every run ----

  /** In every state of every run, a level holds tasks of its own priority only, in the order in which
      their frames were accepted. */
  lemma LevelsByPriority(ss: seq<State>, steps: seq<Action>, i: nat)
    requires S.Run(ss, steps) && i < |ss|
    ensures forall k :: 0 <= k < |ss[i].high| ==> ss[i].high[k].frame.pri == HIGH
    ensures forall k :: 0 <= k < |ss[i].medium| ==> ss[i].medium[k].frame.pri == MEDIUM
    ensures forall k :: 0 <= k < |ss[i].low| ==> ss[i].low[k].frame.pri == LOW
    ensures Rising(ss[i].high) && Rising(ss[i].medium) && Rising(ss[i].low)
  {
    EveryOrdered(ss, steps, i);
  }

  /** All that waits, with `t` behind what is as urgent or more so. */
  function Inserted(s: State, t: Task): (ts: seq<Task>)
  {
    var below := if t.frame.pri == MEDIUM then 0 else |s.low|;
    var k := |s.high| + (if t.frame.pri == HIGH then 0 else |s.medium| + below);
    Waiting(s)[..k] + [t] + Waiting(s)[k..]
  }

  /** A frame is refused exactly when the server is shutting down or as many tasks of its priority wait
      as a level holds; otherwise its task waits, unless its priority is unknown. */
  lemma QueuedOrRefused(ss: seq<State>, steps: seq<Action>, i: nat)
    requires S.Run(ss, steps) && i < |steps| && steps[i] == Enqueue && ss[i].io.IoHolding?
    ensures var s, s', t := ss[i], ss[i + 1], ss[i].io.task;
            var full := S.KnownPriority(t.frame) && CountOf(Waiting(s), t.frame.pri) >= CAPACITY;
            && (s'.io == IoUndo(t) <==> s.shutdown || full)
            && Waiting(s') == if s.shutdown || full || !S.KnownPriority(t.frame) then Waiting(s) else Inserted(s, t)
  {
    EveryOrdered(ss, steps, i);
    S.StepAt(ss, steps, i);
    hide S.Run, CountOf, Level;
    CountWaiting(ss[i]);
    EnqueueOutcome(ss[i]);
  }

  lemma EnqueueOutcome(s: State)
    requires |s.clients| == FD_SETSIZE && s.io.IoHolding? && Ordered(s)
    requires CountOf(Waiting(s), HIGH) == |s.high| && CountOf(Waiting(s), MEDIUM) == |s.medium|
    requires CountOf(Waiting(s), LOW) == |s.low|
    ensures var s', t := DoEnqueue(s), s.io.task;
            var full := S.KnownPriority(t.frame) && CountOf(Waiting(s), t.frame.pri) >= CAPACITY;
            && (s'.io == IoUndo(t) <==> s.shutdown || full)
            && Waiting(s') == if s.shutdown || full || !S.KnownPriority(t.frame) then Waiting(s) else Inserted(s, t)
  {
    hide Ordered, CountOf;
  }

  /** `t` comes before `u`: it is more urgent, or as urgent and accepted no later. */
  predicate Before(t: Task, u: Task)
  {
    t.frame.pri > u.frame.pri || (t.frame.pri == u.frame.pri && t.serial <= u.serial)
  }

  lemma FirstOfLevel(s: State, role: Role)
    requires Ordered(s) && Picked(s, role) != []
    ensures var t := Picked(s, role)[0];
            t.frame.pri <= Ceiling(role) && forall u :: u in Waiting(s) && u.frame.pri <= Ceiling(role) ==> Before(t, u)
  {
    forall u | u in Waiting(s) && u.frame.pri <= Ceiling(role) ensures Before(Picked(s, role)[0], u) {
      assert u in s.high || u in s.medium || u in s.low;
    }
  }

  /** The place of what is taken among all that waits. */
  function PickedAt(s: State, role: Role): (k: nat)
  {
    if role == HighWorker && s.high != [] then 0
    else if role != LowWorker && s.medium != [] then |s.high|
    else |s.high| + |s.medium|
  }

  lemma TakenOut(s: State, w: nat, role: Role)
    requires |s.clients| == FD_SETSIZE && w < |s.workers| && Picked(s, role) != []
    ensures var t, s', k := Picked(s, role)[0], DoDequeue(s, w, role), PickedAt(s, role);
            && s'.workers[w] == Checking(t)
            && k < |Waiting(s)| && Waiting(s)[k] == t && Waiting(s') == Without(Waiting(s), k)
  {
    hide Without;
    if role == HighWorker && s.high != [] {
      FirstTaken([], s.high, s.medium + s.low);
      assert s.high + s.medium + s.low == [] + s.high + (s.medium + s.low);
      assert s.high[1..] + s.medium + s.low == [] + s.high[1..] + (s.medium + s.low);
    } else if role != LowWorker && s.medium != [] {
      FirstTaken(s.high, s.medium, s.low);
    } else {
      FirstTaken(s.high + s.medium, s.low, []);
      assert s.high + s.medium + s.low + [] == s.high + s.medium + s.low;
      assert s.high + s.medium + s.low[1..] + [] == s.high + s.medium + s.low[1..];
    }
  }

  lemma FirstTaken(a: seq<Task>, b: seq<Task>, c: seq<Task>)
    requires b != []
    ensures (a + b + c)[|a|] == b[0] && a + b[1..] + c == Without(a + b + c, |a|)
  {
  }

  /** What a worker takes is waiting, is no more urgent than its role may take, comes before all other
      waiting tasks that it may take, and is taken out once, everything else staying. */
  lemma MostUrgentOldestFirst(ss: seq<State>, steps: seq<Action>, i: nat, w: nat, role: Role)
    requires S.Run(ss, steps) && i < |steps| && steps[i] == Dequeue(w, role)
    ensures w < |ss[i + 1].workers| && ss[i + 1].workers[w].Checking?
    ensures var t, k := ss[i + 1].workers[w].task, PickedAt(ss[i], role);
            && t.frame.pri <= Ceiling(role)
            && (forall u :: u in Waiting(ss[i]) && u.frame.pri <= Ceiling(role) ==> Before(t, u))
            && k < |Waiting(ss[i])| && Waiting(ss[i])[k] == t && Waiting(ss[i + 1]) == Without(Waiting(ss[i]), k)
  {
    EveryOrdered(ss, steps, i);
    S.StepAt(ss, steps, i);
    hide S.Run, Ordered, Waiting, Before, PickedAt;
    FirstOfLevel(ss[i], role);
    TakenOut(ss[i], w, role);
  }

  // ---- Shutdown ----

  lemma ShutdownStep(s: State, a: Action)
    requires |s.clients| == FD_SETSIZE && Enabled(s, a) && s.shutdown
    ensures Apply(s, a).shutdown && Waiting(Apply(s, a)) == Waiting(s)
  {
    ShutdownQueues(s, a);
    hide Apply, Enabled;
  }

  lemma ShutdownQueues(s: State, a: Action)
    requires |s.clients| == FD_SETSIZE && Enabled(s, a) && s.shutdown
    ensures var s' := Apply(s, a);
            s'.shutdown && s'.high == s.high && s'.medium == s.medium && s'.low == s.low
  {
    if a.Check? || a.Handle? || a.Finish? {
      WorkerStays(s, a);
      hide Apply, Enabled;
    } else {
      hide Live, Picked, Decremented, Reapable;
    }
  }

  /** Once the server is shutting down, no task is queued or taken any more. */
  lemma {:induction false} NothingMovesAfterShutdown(ss: seq<State>, steps: seq<Action>, i: nat, j: nat)
    requires S.Run(ss, steps) && i <= j < |ss| && ss[i].shutdown
    ensures ss[j].shutdown && Waiting(ss[j]) == Waiting(ss[i])
    decreases j
  {
    if i < j {
      hide Enabled, Apply, Waiting, S.Run;
      NothingMovesAfterShutdown(ss, steps, i, j - 1);
      S.StepAt(ss, steps, j - 1);
      ShutdownStep(ss[j - 1], steps[j - 1]);
    }
  }
}

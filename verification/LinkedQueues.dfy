/** The two linked queues of gateway/src/queue.c. The response queue is first in, first out. The task
    queue does not advance `tail` when it appends, and is so only up to an exact condition. */
module LinkedQueues {
  import opened Lists

  class Node {
    var next: Node?

    constructor ()
      ensures next == null
    {
      next := null;
    }
  }

  function Succ(s: seq<Node>, i: nat): (x: Node?)
    requires i < |s|
  {
    if i + 1 < |s| then s[i + 1] else null
  }

  /** From `head` the links run through `s` and end there. */
  predicate Chain(head: Node?, s: seq<Node>)
    reads s
  {
    && Distinct(s) && head == (if s == [] then null else s[0])
    && (forall i :: 0 <= i < |s| ==> s[i].next == Succ(s, i))
  }

  lemma ChainTail(head: Node?, s: seq<Node>)
    requires Chain(head, s) && s != []
    ensures Chain(s[0].next, s[1..])
  {
    var t := s[1..];
    forall i | 0 <= i < |t| ensures t[i].next == Succ(t, i) { assert t[i] == s[i + 1]; }
  }

  lemma ChainAppend(head: Node?, s: seq<Node>, x: Node)
    requires Distinct(s) && x !in s && x.next == null && head == (if s == [] then x else s[0])
    requires forall i :: 0 <= i < |s| ==> s[i].next == if i + 1 == |s| then x else Succ(s, i)
    ensures Chain(head, s + [x])
  {
    var t := s + [x];
    forall i | 0 <= i < |t| ensures t[i].next == Succ(t, i) { assert i < |s| ==> t[i] == s[i]; }
  }

  // ---- The response queue ----

  class ResponseQueue {
    var head: Node?
    var tail: Node?
    var size: nat
    const maxSize: nat
    ghost var list: seq<Node>

    ghost predicate Valid()
      reads this, list
    {
      Chain(head, list) && size == |list| && tail == (if list == [] then null else list[|list| - 1])
    }

    constructor (maxSize: nat)
      ensures Valid() && list == [] && this.maxSize == maxSize
    {
      head, tail, size, list := null, null, 0, [];
      this.maxSize := maxSize;
    }

    /** `response_queue_push`: refused exactly when the queue is at its limit. */
    method Push(x: Node) returns (ok: bool)
      requires Valid() && x !in list
      modifies this, x, list
      ensures Valid() && (ok <==> |old(list)| < maxSize) && list == if ok then old(list) + [x] else old(list)
    {
      if size >= maxSize { return false; }
      hide Succ, Distinct;
      ghost var s := list;
      if s != [] { Place(s); }
      if tail == null {
        head := x;
        tail := x;
      } else {
        tail.next := x;
        tail := x;
      }
      size := size + 1;
      tail.next := null;
      list := s + [x];
      ChainAppend(head, s, x);
      return true;
    }

    /** `response_queue_pop`. */
    method Pop() returns (r: Node?)
      requires Valid()
      modifies this, list
      ensures Valid()
      ensures old(list) == [] ==> r == null && list == []
      ensures old(list) != [] ==> r == old(list)[0] && list == old(list)[1..] && r.next == null
    {
      if size == 0 { return null; }
      ChainTail(head, list);
      First(list);
      r := head;
      head := r.next;
      if head == null {
        tail := null;
      }
      r.next := null;
      size := size - 1;
      list := list[1..];
    }
  }

  lemma Place(s: seq<Node>)
    requires Distinct(s) && s != []
    ensures forall i :: 0 <= i < |s| ==> (s[i] == s[|s| - 1] <==> i + 1 == |s|)
  {
  }

  lemma First(s: seq<Node>)
    requires Distinct(s) && s != []
    ensures s[0] !in s[1..]
  {
  }

  // ---- The task queue ----

  /** `list` is what can be reached from `head`; `anchored` says that `tail` is the first of it, and
      not a task that has already been taken out. */
  datatype Queue<T> = Queue(list: seq<T>, anchored: bool, size: nat)

  /** `push`: on a non-empty queue the task is hung on `tail`, which stays where it is. */
  function Pushed<T>(q: Queue<T>, t: T): (q': Queue<T>)
  {
    if q.list == [] then Queue([t], true, q.size + 1)
    else if q.anchored then Queue([q.list[0], t], true, q.size + 1)
    else q.(size := q.size + 1)
  }

  /** `tail` is a task that has been taken out, which its worker frees: a push writes into it. */
  predicate Stale<T(==)>(q: Queue<T>) { q.list != [] && !q.anchored }

  function Popped<T>(q: Queue<T>): (q': Queue<T>)
    requires q.list != [] && q.size > 0
  {
    Queue(q.list[1..], false, q.size - 1)
  }

  class TaskQueue {
    var head: Node?
    var tail: Node?
    var size: nat
    const maxSize: nat
    ghost var list: seq<Node>

    ghost predicate Valid()
      reads this, list
    {
      && Chain(head, list) && (tail == null <==> list == [])
      && (list != [] ==> tail == list[0] || tail !in list)
    }

    ghost function State(): (q: Queue<Node>)
      reads this, list
      requires Valid()
    {
      Queue(list, list != [] && tail == list[0], size)
    }

    constructor (maxSize: nat)
      ensures Valid() && State() == Queue([], false, 0) && this.maxSize == maxSize
    {
      head, tail, size, list := null, null, 0, [];
      this.maxSize := maxSize;
    }

    /** `stale` tells of a write into a task that is no longer in the queue. */
    method Push(task: Node) returns (ok: bool, ghost stale: bool)
      requires Valid() && task !in list
      modifies this, task, tail
      ensures Valid() && (ok <==> old(size) < maxSize)
      ensures State() == if ok then Pushed(old(State()), task) else old(State())
      ensures stale <==> ok && Stale(old(State()))
      ensures stale ==> old(tail) != null && old(tail) !in old(list)
    {
      if size >= maxSize { return false, false; }
      ghost var s := list;
      stale := tail != null && tail !in s;
      if tail == null {
        tail := task;
        head := task;
        list := [task];
      } else {
        tail.next := task;
        list := if tail == s[0] then [s[0], task] else s;
      }
      task.next := null;
      size := size + 1;
      ok := true;
    }

    /** `pop`, past its wait for `size` to be positive. A list that has run out while `size` has not
        is a null pointer dereference. */
    method Pop() returns (task: Node?, crashed: bool)
      requires Valid() && size > 0
      modifies this, list
      ensures crashed <==> old(list) == []
      ensures !crashed ==> Valid() && task == old(list)[0] && State() == Popped(old(State()))
    {
      if head == null { return null, true; }
      ChainTail(head, list);
      First(list);
      task := head;
      head := head.next;
      if head == null {
        tail := null;
      }
      size := size - 1;
      task.next := null;
      list := list[1..];
      return task, false;
    }
  }

  // ---- Runs of the task queue ----

  datatype Op<T> = Push(t: T) | Pop

  /** The queue, the first-in-first-out queue it should be, the number of pushes since that was last
      empty, and whether a pop has crashed. */
  datatype Run<T> = Run(q: Queue<T>, fifo: seq<T>, since: nat, crashed: bool)

  function Fresh<T>(): (r: Run<T>) { Run(Queue([], false, 0), [], 0, false) }

  /** A pop waits while the size is zero. */
  function Next<T>(r: Run<T>, op: Op<T>): (r': Run<T>)
  {
    if r.crashed then r
    else match op
      case Push(t) => Run(Pushed(r.q, t), r.fifo + [t], r.since + 1, false)
      case Pop =>
        if r.q.size == 0 then r
        else if r.q.list == [] || r.fifo == [] then r.(crashed := true)
        else Run(Popped(r.q), r.fifo[1..], if |r.fifo| == 1 then 0 else r.since, false)
  }

  function After<T>(ops: seq<Op<T>>): (r: Run<T>)
    decreases |ops|
  {
    if ops == [] then Fresh() else Next(After(ops[..|ops| - 1]), ops[|ops| - 1])
  }

  /** The queue is as it should be. */
  predicate Right<T(==)>(r: Run<T>) { !r.crashed && r.q.list == r.fifo && r.q.size == |r.fifo| }

  /** Every push comes when fewer than two have come since the queue was last empty. */
  predicate Spaced<T(==)>(ops: seq<Op<T>>)
  {
    forall k :: 0 <= k < |ops| && ops[k].Push? ==> After(ops[..k]).since < 2
  }

  /** What holds while all has gone well. */
  predicate Good<T(==)>(r: Run<T>)
  {
    && Right(r) && |r.fifo| <= r.since <= 2 && (r.fifo == [] <==> r.since == 0)
    && (r.since == 1 ==> r.q.anchored) && (r.since == 2 ==> (r.q.anchored <==> |r.fifo| == 2))
  }

  /** What holds for ever after a task has been lost. */
  predicate Short<T(==)>(r: Run<T>) { r.crashed || (|r.q.list| < r.q.size && r.q.size == |r.fifo|) }

  lemma GoodStep<T>(r: Run<T>, op: Op<T>)
    requires Good(r)
    ensures if op.Push? && r.since == 2 then Short(Next(r, op)) else Good(Next(r, op))
  {
  }

  lemma SinceAtMostTwo<T>(r: Run<T>)
    requires Good(r)
    ensures r.since <= 2
  {
  }

  lemma ShortStep<T>(r: Run<T>, op: Op<T>)
    requires Short(r)
    ensures Short(Next(r, op))
  {
  }

  lemma {:induction false} GoodOrShort<T>(ops: seq<Op<T>>)
    ensures if Spaced(ops) then Good(After(ops)) else Short(After(ops))
    decreases |ops|
  {
    if ops != [] {
      var front, op := ops[..|ops| - 1], ops[|ops| - 1];
      hide Good, Short, Next, Spaced;
      GoodOrShort(front);
      SpacedStep(ops);
      if Spaced(front) {
        GoodStep(After(front), op);
        SinceAtMostTwo(After(front));
      } else {
        ShortStep(After(front), op);
      }
    }
  }

  lemma SpacedStep<T>(ops: seq<Op<T>>)
    requires ops != []
    ensures var front, op := ops[..|ops| - 1], ops[|ops| - 1];
            Spaced(ops) <==> Spaced(front) && (op.Push? ==> After(front).since < 2)
  {
    hide After;
    var n := |ops| - 1;
    var front := ops[..n];
    assert forall k :: 0 <= k < n ==> front[k] == ops[k] && front[..k] == ops[..k];
    if Spaced(front) && (ops[n].Push? ==> After(front).since < 2) {
      forall k | 0 <= k < |ops| && ops[k].Push? ensures After(ops[..k]).since < 2 {
        if k < n { assert front[k].Push? && front[..k] == ops[..k]; }
      }
    }
    if Spaced(ops) {
      forall k | 0 <= k < n && front[k].Push? ensures After(front[..k]).since < 2 { assert ops[k].Push?; }
    }
  }

  /** Over every run, the task queue is first in, first out and has not crashed exactly when its
      pushes were spaced: at most two between one time it is empty and the next. */
  lemma FirstInFirstOutCondition<T>(ops: seq<Op<T>>)
    ensures Right(After(ops)) <==> Spaced(ops)
  {
    GoodOrShort(ops);
  }

  lemma SpacedPrefix<T>(ops: seq<Op<T>>, k: nat)
    requires Spaced(ops) && k <= |ops|
    ensures Spaced(ops[..k])
  {
    hide After;
    var front := ops[..k];
    forall j | 0 <= j < |front| && front[j].Push? ensures After(front[..j]).since < 2 {
      assert front[..j] == ops[..j] && ops[j].Push?;
    }
  }

  /** In a run whose pushes are spaced, no push writes into a task that has been taken out. */
  lemma SpacedNeverStale<T>(ops: seq<Op<T>>, k: nat)
    requires Spaced(ops) && k < |ops| && ops[k].Push?
    ensures !Stale(After(ops[..k]).q)
  {
    hide After;
    SpacedPrefix(ops, k);
    GoodOrShort(ops[..k]);
  }

  /** The first push that comes too early writes into a task that has been taken out exactly when one
      has been since the queue was last empty; otherwise it loses the second of the two tasks queued. */
  lemma FirstEarlyPush<T>(ops: seq<Op<T>>, t: T)
    requires Spaced(ops) && After(ops).since == 2
    ensures Stale(After(ops).q) <==> |After(ops).fifo| == 1
    ensures var r := After(ops);
            !Stale(r.q) ==> |r.fifo| == 2 && Next(r, Push(t)).q.list == [r.fifo[0], t]
  {
    hide After;
    GoodOrShort(ops);
  }

  /** Three pushes in a row lose the second task, and the third pop crashes. */
  lemma ThreePushesLose<T>(a: T, b: T, c: T)
    ensures After([Push(a), Push(b), Push(c)]).q.list == [a, c]
    ensures After([Push(a), Push(b), Push(c), Pop, Pop, Pop]).crashed
  {
    var ops := [Push(a), Push(b), Push(c), Pop, Pop, Pop];
    hide After;
    assert ops[..3] == [Push(a), Push(b), Push(c)] && ops[..6] == ops;
    AfterNone<T>();
    assert ops[..0] == [];
    AfterStep(ops, 0);
    AfterStep(ops, 1);
    AfterStep(ops, 2);
    assert After(ops[..3]).q == Queue([a, c], true, 3);
    AfterStep(ops, 3);
    AfterStep(ops, 4);
    AfterStep(ops, 5);
  }

  lemma AfterNone<T>()
    ensures After<T>([]) == Fresh()
  {
  }

  lemma AfterStep<T>(ops: seq<Op<T>>, k: nat)
    requires k < |ops|
    ensures After(ops[..k + 1]) == Next(After(ops[..k]), ops[k])
  {
    assert ops[..k + 1][..k] == ops[..k];
  }
}

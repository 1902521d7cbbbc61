/** The ring buffers of the control plane: the three task queues, the outgoing queue of a
    connection, which loses its oldest entry when full, and the queues of the command-line client
    (unix-domain-socket-control-plane/gatewayd/server.h and server.c, gatewaycli/client.h). */
module Rings {

  /** The entry `i` places after index `tail` in a ring of `n` slots. */
  function Slot(tail: nat, i: nat, n: nat): (k: nat)
    requires tail < n && i <= n
    ensures k < n
  {
    if tail + i < n then tail + i else tail + i - n
  }

  lemma Next(k: nat, n: nat)
    requires k < n
    ensures (k + 1) % n == if k + 1 == n then 0 else k + 1
  {
  }

  class Ring<T(0)> {
    const slots: array<T>
    var head: nat
    var tail: nat
    var count: nat

    ghost predicate Valid()
      reads this
    {
      slots.Length > 0 && tail < slots.Length && count <= slots.Length && head == Slot(tail, count, slots.Length)
    }

    ghost function Contents(): (s: seq<T>)
      reads this, slots
      requires Valid()
      ensures |s| == count
    {
      seq(count, i requires 0 <= i < count && Valid() reads this, slots => slots[Slot(tail, i, slots.Length)])
    }

    constructor (capacity: nat)
      requires capacity > 0
      ensures Valid() && fresh(slots) && slots.Length == capacity && Contents() == []
    {
      slots := new T[capacity];
      head, tail, count := 0, 0, 0;
    }

    /** Stores at `head`; the caller has made room. */
    method Append(x: T)
      requires Valid() && count < slots.Length
      modifies this, slots
      ensures Valid() && Contents() == old(Contents()) + [x] && tail == old(tail)
    {
      Next(head, slots.Length);
      slots[head] := x;
      head := (head + 1) % slots.Length;
      count := count + 1;
    }

    /** `try_enqueue_task` and the client's `enqueue_message`: a full ring refuses. */
    method TryEnqueue(x: T) returns (ok: bool)
      requires Valid()
      modifies this, slots
      ensures Valid() && (ok <==> |old(Contents())| < slots.Length)
      ensures Contents() == if ok then old(Contents()) + [x] else old(Contents())
    {
      if count >= slots.Length { return false; }
      Append(x);
      return true;
    }

    method Advance()
      requires Valid() && count > 0
      modifies this
      ensures Valid() && Contents() == old(Contents())[1..] && unchanged(slots)
    {
      Next(tail, slots.Length);
      tail := (tail + 1) % slots.Length;
      count := count - 1;
    }

    /** `try_dequeue_task_locked`, `dequeue_client` and the client's `dequeue_message`. */
    method TryDequeue(default: T) returns (ok: bool, x: T)
      requires Valid()
      modifies this
      ensures Valid() && unchanged(slots) && (ok <==> old(Contents()) != [])
      ensures if ok then old(Contents()) == [x] + Contents() else Contents() == old(Contents()) && x == default
    {
      if count == 0 { return false, default; }
      x := slots[tail];
      Advance();
      return true, x;
    }

    /** `queue_client`: a full ring drops its oldest entry. */
    method Queue(x: T)
      requires Valid()
      modifies this, slots
      ensures Valid() && Contents() == Pushed(old(Contents()), x, slots.Length)
    {
      if count == slots.Length { Advance(); }
      Append(x);
    }
  }

  function Pushed<T>(q: seq<T>, x: T, n: nat): (q': seq<T>)
    requires n > 0
  {
    if |q| == n then q[1..] + [x] else q + [x]
  }

  // ---- What a run of operations leaves in a ring ----

  /** `Take` stands for an entry that leaves at the old end: dequeued, sent or given up. */
  datatype Op<T> = Put(x: T) | Take

  function After<T>(ops: seq<Op<T>>, n: nat): (q: seq<T>)
    requires n > 0
    ensures |q| <= n
    decreases |ops|
  {
    if ops == [] then []
    else
      var q, op := After(ops[..|ops| - 1], n), ops[|ops| - 1];
      if op.Put? then Pushed(q, op.x, n) else if q == [] then q else q[1..]
  }

  function Puts<T>(ops: seq<Op<T>>): (s: seq<T>)
    decreases |ops|
  {
    if ops == [] then []
    else
      var s, op := Puts(ops[..|ops| - 1]), ops[|ops| - 1];
      if op.Put? then s + [op.x] else s
  }

  /** Entries never change order and are lost only at the old end: the ring always holds the newest
      entries put into it. */
  lemma {:induction false} HoldsNewest<T>(ops: seq<Op<T>>, n: nat)
    requires n > 0
    ensures |After(ops, n)| <= |Puts(ops)| && After(ops, n) == Puts(ops)[|Puts(ops)| - |After(ops, n)|..]
    decreases |ops|
  {
    if ops != [] {
      HoldsNewest(ops[..|ops| - 1], n);
    }
  }

  /** Without a dequeue the outgoing ring holds exactly the newest entries, as many as fit. */
  lemma {:induction false} HoldsAsManyAsFit<T>(ops: seq<Op<T>>, n: nat)
    requires n > 0 && forall k :: 0 <= k < |ops| ==> ops[k].Put?
    ensures |Puts(ops)| == |ops| && |After(ops, n)| == if |ops| < n then |ops| else n
    decreases |ops|
  {
    if ops != [] {
      HoldsAsManyAsFit(ops[..|ops| - 1], n);
    }
  }

  /** A ring that refuses when full, seen over a run: what it took in and what was taken out. */
  datatype History<T> = History(accepted: seq<T>, taken: seq<T>, held: seq<T>)

  function Served<T>(ops: seq<Op<T>>, n: nat): (h: History<T>)
    decreases |ops|
  {
    if ops == [] then History([], [], [])
    else
      var h, op := Served(ops[..|ops| - 1], n), ops[|ops| - 1];
      if op.Put? then
        if |h.held| >= n then h else History(h.accepted + [op.x], h.taken, h.held + [op.x])
      else if h.held == [] then h
      else History(h.accepted, h.taken + [h.held[0]], h.held[1..])
  }

  /** First in, first out, with nothing lost or repeated, over every run of every length. */
  lemma {:induction false} ServesInOrder<T>(ops: seq<Op<T>>, n: nat)
    ensures var h := Served(ops, n); h.accepted == h.taken + h.held && |h.held| <= n
    decreases |ops|
  {
    if ops != [] {
      ServesInOrder(ops[..|ops| - 1], n);
    }
  }

  // ---- The workers' choice ----

  const LOW: nat := 0
  const MEDIUM: nat := 1
  const HIGH: nat := 2

  datatype Role = HighWorker | MidWorker | LowWorker

  /** The highest level a worker looks at. */
  function Ceiling(role: Role): (level: nat)
  {
    match role
    case HighWorker => HIGH
    case MidWorker => MEDIUM
    case LowWorker => LOW
  }

  /** The level a worker takes from: the highest non-empty one that it looks at. */
  ghost predicate Chosen<T>(queues: seq<seq<T>>, role: Role, level: nat)
    requires |queues| == 3
  {
    level <= Ceiling(role) && queues[level] != [] && forall k :: level < k <= Ceiling(role) ==> queues[k] == []
  }

  class Scheduler<T(0)> {
    const high: Ring<T>
    const medium: Ring<T>
    const low: Ring<T>

    ghost predicate Valid()
      reads this, high, medium, low
    {
      && high.Valid() && medium.Valid() && low.Valid()
      && high != medium && medium != low && high != low
      && high.slots != medium.slots && medium.slots != low.slots && high.slots != low.slots
    }

    /** The three levels, indexed by priority. */
    ghost function Queues(): (q: seq<seq<T>>)
      reads this, high, medium, low, high.slots, medium.slots, low.slots
      requires Valid()
      ensures |q| == 3
    {
      [low.Contents(), medium.Contents(), high.Contents()]
    }

    constructor (capacity: nat)
      requires capacity > 0
      ensures Valid() && Queues() == [[], [], []]
      ensures fresh(high) && fresh(medium) && fresh(low)
      ensures fresh(high.slots) && fresh(medium.slots) && fresh(low.slots)
    {
      high := new Ring<T>(capacity);
      medium := new Ring<T>(capacity);
      low := new Ring<T>(capacity);
    }

    /** The dequeue of the three worker loops, under the queue lock. */
    method Pick(role: Role, default: T) returns (got: bool, x: T, ghost level: nat)
      requires Valid()
      modifies high, medium, low
      ensures Valid() && level <= HIGH
      ensures got ==> Chosen(old(Queues()), role, level) && x == old(Queues())[level][0]
      ensures got ==> Queues() == old(Queues())[level := old(Queues())[level][1..]]
      ensures !got ==> Queues() == old(Queues()) && forall k :: 0 <= k <= Ceiling(role) ==> old(Queues())[k] == []
    {
      got, x, level := false, default, LOW;
      if role == HighWorker {
        got, x := high.TryDequeue(default);
        if got {
          level := HIGH;
          return;
        }
      }
      if role != LowWorker {
        got, x := medium.TryDequeue(default);
        if got {
          level := MEDIUM;
          return;
        }
      }
      got, x := low.TryDequeue(default);
    }
  }
}

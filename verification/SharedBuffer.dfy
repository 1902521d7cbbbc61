/** The shared-memory sample buffer of gateway-core-posix: `storage_data` and `get_data` run by any
    number of processes, interleaved at the granularity of their semaphore operations and locked
    sections. */
module SharedBuffer {

  datatype Sample = Sample(id: int, humidity: int, moisture: int, timestamp: nat)

  const U32: nat := 0x1_0000_0000

  /** Where a process stands inside `storage_data` or `get_data`. */
  datatype Pc =
    | Idle
    | Granted(v: Sample)    // storage_data has taken a space
    | Stored                // sample written, `items` not yet posted
    | Dropping              // no space, `dropped` not yet counted
    | Claimed               // get_data has taken an item
    | Fetched(v: Sample)    // sample read, `spaces` not yet posted

  datatype State = State(
    capacity: nat, slots: seq<Sample>, readIndex: nat, writeIndex: nat, dropped: nat, spaces: nat, items: nat,
    procs: seq<Pc>,
    // History: the samples in the order they were written and read, the stores begun and dropped.
    written: seq<Sample>, read: seq<Sample>, begun: nat, lost: nat)

  datatype Action =
    | BeginStore(p: nat, v: Sample, granted: bool)
    | Write(p: nat)
    | PostItem(p: nat)
    | CountDrop(p: nat)
    | BeginGet(p: nat, granted: bool)
    | Fetch(p: nat)
    | PostSpace(p: nat)

  predicate Init(s: State)
  {
    && |s.slots| == s.capacity && s.readIndex == s.writeIndex == s.dropped == 0
    && s.spaces == s.capacity && s.items == 0
    && (forall p :: 0 <= p < |s.procs| ==> s.procs[p] == Idle)
    && s.written == s.read == [] && s.begun == s.lost == 0
  }

  /** `sem_trywait` succeeds only on a positive semaphore; it may also fail on one, interrupted. */
  predicate Enabled(s: State, a: Action)
  {
    a.p < |s.procs| &&
    match a
    case BeginStore(p, _, granted) => s.procs[p] == Idle && (granted ==> s.spaces > 0)
    case Write(p) => s.procs[p].Granted?
    case PostItem(p) => s.procs[p] == Stored
    case CountDrop(p) => s.procs[p] == Dropping
    case BeginGet(p, granted) => s.procs[p] == Idle && (granted ==> s.items > 0)
    case Fetch(p) => s.procs[p] == Claimed && s.readIndex < |s.slots|
    case PostSpace(p) => s.procs[p].Fetched?
  }

  function Wrap(i: nat, capacity: nat): (r: nat) { if capacity == 0 then 0 else i % capacity }

  function To(s: State, p: nat, pc: Pc): (s': State)
    requires p < |s.procs|
  {
    s.(procs := s.procs[p := pc])
  }

  function Apply(s: State, a: Action): (s': State)
    requires Enabled(s, a)
  {
    match a
    case BeginStore(p, v, granted) =>
      (if granted then To(s, p, Granted(v)).(spaces := s.spaces - 1) else To(s, p, Dropping)).(begun := s.begun + 1)
    case Write(p) =>
      var v := s.procs[p].v;
      To(s, p, Stored).(
        slots := if s.writeIndex < |s.slots| then s.slots[s.writeIndex := v] else s.slots,
        writeIndex := Wrap(s.writeIndex + 1, s.capacity), written := s.written + [v])
    case PostItem(p) => To(s, p, Idle).(items := s.items + 1)
    case CountDrop(p) => To(s, p, Idle).(dropped := (s.dropped + 1) % U32, lost := s.lost + 1)
    case BeginGet(p, granted) => if granted then To(s, p, Claimed).(items := s.items - 1) else s
    case Fetch(p) =>
      var v := s.slots[s.readIndex];
      To(s, p, Fetched(v)).(readIndex := Wrap(s.readIndex + 1, s.capacity), read := s.read + [v])
    case PostSpace(p) => To(s, p, Idle).(spaces := s.spaces + 1)
  }

  // ---- Counting processes ----

  datatype Kind = KGranted | KStored | KDropping | KClaimed | KFetched

  function At(pc: Pc, k: Kind): (n: nat)
  {
    match k
    case KGranted => if pc.Granted? then 1 else 0
    case KStored => if pc == Stored then 1 else 0
    case KDropping => if pc == Dropping then 1 else 0
    case KClaimed => if pc == Claimed then 1 else 0
    case KFetched => if pc.Fetched? then 1 else 0
  }

  function Number(procs: seq<Pc>, k: Kind): (n: nat)
  {
    if procs == [] then 0 else At(procs[0], k) + Number(procs[1..], k)
  }

  lemma {:induction false} NumberUpdate(procs: seq<Pc>, p: nat, pc: Pc, k: Kind)
    requires p < |procs|
    ensures Number(procs[p := pc], k) == Number(procs, k) - At(procs[p], k) + At(pc, k)
    decreases |procs|
  {
    if p == 0 {
      assert procs[p := pc][1..] == procs[1..];
    } else {
      assert procs[p := pc][1..] == procs[1..][p - 1 := pc];
      NumberUpdate(procs[1..], p - 1, pc, k);
    }
  }

  lemma {:induction false} NumberCovers(procs: seq<Pc>, p: nat, k: Kind)
    requires p < |procs|
    ensures At(procs[p], k) <= Number(procs, k)
    decreases |procs|
  {
    if p > 0 { NumberCovers(procs[1..], p - 1, k); }
  }

  lemma {:induction false} NumberNone(procs: seq<Pc>, k: Kind)
    requires forall p :: 0 <= p < |procs| ==> procs[p] == Idle
    ensures Number(procs, k) == 0
    decreases |procs|
  {
    if procs != [] { NumberNone(procs[1..], k); }
  }

  // ---- The invariant ----

  /** Samples in the buffer: written and not yet read. */
  function Held(s: State): (n: int) { |s.written| - |s.read| }

  /** The semaphores count the buffer, up to the processes between taking one and posting the other. */
  predicate Balanced(s: State)
  {
    && Held(s) == s.items + Number(s.procs, KStored) + Number(s.procs, KClaimed)
    && s.capacity - Held(s) == s.spaces + Number(s.procs, KGranted) + Number(s.procs, KFetched)
  }

  /** The ring holds exactly the samples not yet read, in order. */
  ghost predicate Stocked(s: State)
  {
    && |s.slots| == s.capacity && |s.read| <= |s.written|
    && s.writeIndex == Wrap(|s.written|, s.capacity) && s.readIndex == Wrap(|s.read|, s.capacity)
    && s.read == s.written[..|s.read|]
    && (forall k :: |s.read| <= k < |s.written| ==> InSlot(s, k))
  }

  predicate InSlot(s: State, k: nat)
    requires k < |s.written|
  {
    Wrap(k, s.capacity) < |s.slots| && s.slots[Wrap(k, s.capacity)] == s.written[k]
  }

  /** Every store begun has been written, dropped, or is under way. */
  predicate Settled(s: State)
  {
    && s.begun == |s.written| + s.lost + Number(s.procs, KGranted) + Number(s.procs, KDropping)
    && s.dropped == s.lost % U32
  }

  ghost predicate Inv(s: State) { Balanced(s) && Stocked(s) && Settled(s) }

  lemma MultipleGap(d: int, n: nat)
    ensures d * n <= 0 || d * n >= n
  {
    if d <= 0 { assert d * n <= 0; } else { assert (d - 1) * n >= 0; }
  }

  lemma DivisionUnique(i: nat, n: nat, q: nat, r: nat)
    requires r < n && i == q * n + r
    ensures i % n == r
  {
    var d := q - i / n;
    MultipleGap(d, n);
    MultipleGap(-d, n);
    assert d * n == i % n - r;
  }

  lemma NextSlot(i: nat, n: nat)
    requires n > 0
    ensures (i + 1) % n == if i % n + 1 == n then 0 else i % n + 1
  {
    var q, r := i / n, i % n;
    assert i == q * n + r && (q + 1) * n == q * n + n;
    if r + 1 == n {
      DivisionUnique(i + 1, n, q + 1, 0);
    } else {
      DivisionUnique(i + 1, n, q, r + 1);
    }
  }

  lemma WrapStep(i: nat, capacity: nat)
    ensures Wrap(Wrap(i, capacity) + 1, capacity) == Wrap(i + 1, capacity)
    ensures capacity > 0 ==>
              Wrap(i + 1, capacity) == if Wrap(i, capacity) + 1 == capacity then 0 else Wrap(i, capacity) + 1
  {
    if capacity > 0 {
      NextSlot(i, capacity);
      var r := i % capacity;
      DivisionUnique(r, capacity, 0, r);
      NextSlot(r, capacity);
    }
  }

  /** Positions less than a whole ring apart are in different slots. */
  lemma WrapDistinct(j: nat, k: nat, capacity: nat)
    requires j < k < j + capacity
    ensures Wrap(j, capacity) != Wrap(k, capacity)
  {
    var d := k / capacity - j / capacity;
    MultipleGap(d, capacity);
    assert k - j == d * capacity + (k % capacity - j % capacity);
  }

  lemma KeepsBalanced(s: State, a: Action)
    requires Inv(s) && Enabled(s, a)
    ensures Balanced(Apply(s, a))
  {
    hide Stocked, Number, Settled;
    var s' := Apply(s, a);
    var pc := s'.procs[a.p];
    assert s'.procs == s.procs[a.p := pc];
    NumberUpdate(s.procs, a.p, pc, KStored);
    NumberUpdate(s.procs, a.p, pc, KClaimed);
    NumberUpdate(s.procs, a.p, pc, KGranted);
    NumberUpdate(s.procs, a.p, pc, KFetched);
  }

  lemma KeepsSettled(s: State, a: Action)
    requires Inv(s) && Enabled(s, a)
    ensures Settled(Apply(s, a))
  {
    hide Stocked, Number, Balanced;
    var s' := Apply(s, a);
    var pc := s'.procs[a.p];
    assert s'.procs == s.procs[a.p := pc];
    NumberUpdate(s.procs, a.p, pc, KGranted);
    NumberUpdate(s.procs, a.p, pc, KDropping);
  }

  lemma KeepsWrite(s: State, p: nat)
    requires Inv(s) && Enabled(s, Write(p))
    ensures Stocked(Apply(s, Write(p)))
  {
    hide Number;
    var s', w := Apply(s, Write(p)), |s.written|;
    NumberCovers(s.procs, p, KGranted);
    WrapStep(w, s.capacity);
    assert s.writeIndex < |s.slots|;
    forall k | |s'.read| <= k < |s'.written| ensures InSlot(s', k) {
      if k < w {
        assert InSlot(s, k);
        WrapDistinct(k, w, s.capacity);
      }
    }
  }

  lemma KeepsFetch(s: State, p: nat)
    requires Inv(s) && Enabled(s, Fetch(p))
    ensures |s.read| < |s.written| && s.slots[s.readIndex] == s.written[|s.read|] && Stocked(Apply(s, Fetch(p)))
  {
    hide Number;
    var s', r := Apply(s, Fetch(p)), |s.read|;
    NumberCovers(s.procs, p, KClaimed);
    WrapStep(r, s.capacity);
    assert InSlot(s, r);
    forall k | |s'.read| <= k < |s'.written| ensures InSlot(s', k) { assert InSlot(s, k); }
  }

  lemma Keeps(s: State, a: Action)
    requires Inv(s) && Enabled(s, a)
    ensures Inv(Apply(s, a))
  {
    KeepsBalanced(s, a);
    KeepsSettled(s, a);
    if a.Write? {
      KeepsWrite(s, a.p);
    } else if a.Fetch? {
      KeepsFetch(s, a.p);
    } else {
      forall k | |s.read| <= k < |s.written| ensures InSlot(Apply(s, a), k) { assert InSlot(s, k); }
    }
  }

  // ---- Every run ----

  ghost predicate Takes(s: State, a: Action, s': State) { Enabled(s, a) && s' == Apply(s, a) }

  ghost predicate Run(ss: seq<State>, steps: seq<Action>)
  {
    && |ss| == |steps| + 1 && Init(ss[0])
    && (forall i :: 0 <= i < |steps| ==> Takes(ss[i], steps[i], ss[i + 1]))
  }

  lemma {:induction false} EveryState(ss: seq<State>, steps: seq<Action>, i: nat)
    requires Run(ss, steps) && i < |ss|
    ensures Inv(ss[i])
    decreases i
  {
    if i == 0 {
      NumberNone(ss[0].procs, KStored);
      NumberNone(ss[0].procs, KClaimed);
      NumberNone(ss[0].procs, KGranted);
      NumberNone(ss[0].procs, KFetched);
      NumberNone(ss[0].procs, KDropping);
    } else {
      hide Inv, Enabled, Apply, Init;
      EveryState(ss, steps, i - 1);
      assert Takes(ss[i - 1], steps[i - 1], ss[i]);
      Keeps(ss[i - 1], steps[i - 1]);
    }
  }

  /** First in, first out, nothing lost, nothing read twice, whoever the readers and writers are:
      the samples read so far are the first of those written, and never more than the capacity
      are in between. */
  lemma FirstInFirstOut(ss: seq<State>, steps: seq<Action>, i: nat)
    requires Run(ss, steps) && i < |ss|
    ensures ss[i].read <= ss[i].written
    ensures |ss[i].written| - |ss[i].read| <= ss[i].capacity
  {
    EveryState(ss, steps, i);
  }

  /** A process that holds an item finds, at the read index, the oldest sample not yet read. */
  lemma FetchFindsOldest(ss: seq<State>, steps: seq<Action>, i: nat, p: nat)
    requires Run(ss, steps) && i < |ss| && p < |ss[i].procs| && ss[i].procs[p] == Claimed
    ensures Enabled(ss[i], Fetch(p)) && |ss[i].read| < |ss[i].written|
    ensures Apply(ss[i], Fetch(p)).procs[p] == Fetched(ss[i].written[|ss[i].read|])
  {
    EveryState(ss, steps, i);
    NumberCovers(ss[i].procs, p, KClaimed);
    KeepsFetch(ss[i], p);
  }

  /** A process that was granted a space overwrites no sample that is still to be read. */
  lemma WriteHitsFreeSlot(ss: seq<State>, steps: seq<Action>, i: nat, p: nat, k: nat)
    requires Run(ss, steps) && i < |ss| && p < |ss[i].procs| && ss[i].procs[p].Granted?
    requires |ss[i].read| <= k < |ss[i].written|
    ensures ss[i].writeIndex < |ss[i].slots| && ss[i].writeIndex != Wrap(k, ss[i].capacity)
  {
    EveryState(ss, steps, i);
    NumberCovers(ss[i].procs, p, KGranted);
    WrapDistinct(k, |ss[i].written|, ss[i].capacity);
  }

  /** With no store under way, each store begun was written once or counted once as dropped, the
      counter being 32 bits wide; and with nobody inside at all the semaphores measure the buffer. */
  lemma StoresSettle(ss: seq<State>, steps: seq<Action>, i: nat)
    requires Run(ss, steps) && i < |ss|
    requires forall p :: 0 <= p < |ss[i].procs| ==> ss[i].procs[p] == Idle
    ensures ss[i].begun == |ss[i].written| + ss[i].lost && ss[i].dropped == ss[i].lost % U32
    ensures ss[i].items == |ss[i].written| - |ss[i].read| && ss[i].spaces == ss[i].capacity - ss[i].items
  {
    EveryState(ss, steps, i);
    NumberNone(ss[i].procs, KStored);
    NumberNone(ss[i].procs, KClaimed);
    NumberNone(ss[i].procs, KGranted);
    NumberNone(ss[i].procs, KFetched);
    NumberNone(ss[i].procs, KDropping);
  }

  // ---- The monitor ----

  /** The number of slots in use as `monitor_thread` computes it from the two indices. */
  function Usage(s: State): (n: int)
  {
    if s.writeIndex >= s.readIndex then s.writeIndex - s.readIndex else s.capacity - s.readIndex + s.writeIndex
  }

  lemma WrapDistance(r: nat, w: nat, capacity: nat)
    requires r <= w < r + capacity
    ensures Wrap(w, capacity) - Wrap(r, capacity) == w - r || Wrap(w, capacity) - Wrap(r, capacity) == w - r - capacity
  {
    var d := w / capacity - r / capacity;
    MultipleGap(d, capacity);
    MultipleGap(d - 1, capacity);
    assert (d - 1) * capacity == d * capacity - capacity;
    assert w - r == d * capacity + (w % capacity - r % capacity);
  }

  /** The monitor's figure is right exactly when the buffer is not full; a full one shows as empty,
      so that the warning for a nearly full buffer is not given there. */
  lemma UsageCondition(ss: seq<State>, steps: seq<Action>, i: nat)
    requires Run(ss, steps) && i < |ss|
    ensures Usage(ss[i]) == Held(ss[i]) <==> (Held(ss[i]) < ss[i].capacity || ss[i].capacity == 0)
    ensures Held(ss[i]) == ss[i].capacity ==> Usage(ss[i]) == 0
  {
    var s := ss[i];
    EveryState(ss, steps, i);
    var r, w := |s.read|, |s.written|;
    if w < r + s.capacity {
      WrapDistance(r, w, s.capacity);
    } else if s.capacity > 0 {
      DivisionUnique(w, s.capacity, r / s.capacity + 1, r % s.capacity);
    }
  }

  /** One store into a buffer of one slot: it is full and the monitor's figure is zero. */
  lemma FullShowsEmpty(v: Sample) returns (ss: seq<State>, steps: seq<Action>)
    ensures Run(ss, steps) && |ss| == 3 && Held(ss[2]) == ss[2].capacity == 1 && Usage(ss[2]) == 0
  {
    var s0 := State(1, [v], 0, 0, 0, 1, 0, [Idle], [], [], 0, 0);
    var s1 := Apply(s0, BeginStore(0, v, true));
    var s2 := Apply(s1, Write(0));
    ss, steps := [s0, s1, s2], [BeginStore(0, v, true), Write(0)];
  }

  /** The sample the monitor shows as the latest is the last one written, whenever it shows one. */
  lemma LatestShown(ss: seq<State>, steps: seq<Action>, i: nat)
    requires Run(ss, steps) && i < |ss| && ss[i].readIndex != ss[i].writeIndex
    ensures var s := ss[i];
            var last := if s.writeIndex == 0 then s.capacity - 1 else s.writeIndex - 1;
            0 <= last < |s.slots| && s.written != [] && s.slots[last] == s.written[|s.written| - 1]
  {
    var s := ss[i];
    EveryState(ss, steps, i);
    hide Wrap, Balanced, Settled;
    var w := |s.written|;
    assert InSlot(s, w - 1);
    WrapStep(w - 1, s.capacity);
  }
}

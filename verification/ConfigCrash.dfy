/** The system calls of `write_param_config` and `safe_write_file` (safe-config-tool/main.c), which
    may stop after any of them: what the settings file then holds. */
module ConfigCrash {
  import opened Bytes
  import opened ConfigFile

  /** One write(2) to the temporary file; `fatal` says whether the tool gives up when it fails. */
  datatype Chunk = Chunk(bytes: seq<byte>, fatal: bool)

  /** `Short` is a write that took fewer bytes than it was given; the tool does not look. */
  datatype Result = Full | Short(n: nat) | Failed

  datatype Call = OpenTemp | WriteTemp(chunk: Chunk, result: Result) | Fsync(ok: bool) | Rename(ok: bool)

  /** `temp` is what the temporary path holds, nothing if it does not exist; `offset` is the file
      position; `synced` says that all that was written has reached the disk. */
  datatype Files = Files(target: seq<byte>, temp: seq<byte>, offset: nat, synced: bool)

  /** Bytes written at an offset over what is there. */
  function Overlay(s: seq<byte>, at: nat, bytes: seq<byte>): (r: seq<byte>)
    requires at <= |s|
  {
    s[..at] + bytes + (if at + |bytes| < |s| then s[at + |bytes|..] else [])
  }

  function Taken(chunk: Chunk, result: Result): (b: seq<byte>)
  {
    match result
    case Full => chunk.bytes
    case Short(n) => if n < |chunk.bytes| then chunk.bytes[..n] else chunk.bytes
    case Failed => []
  }

  /** The temporary file is opened without truncating it. */
  function Step(f: Files, c: Call): (f': Files)
    requires f.offset <= |f.temp|
    ensures f'.offset <= |f'.temp|
  {
    match c
    case OpenTemp => f.(offset := 0, synced := false)
    case WriteTemp(chunk, result) =>
      var b := Taken(chunk, result);
      f.(temp := Overlay(f.temp, f.offset, b), offset := f.offset + |b|, synced := false)
    case Fsync(ok) => f.(synced := ok)
    case Rename(ok) => if ok then Files(f.temp, [], 0, f.synced) else f
  }

  function Exec(f: Files, calls: seq<Call>): (f': Files)
    requires f.offset <= |f.temp|
    ensures f'.offset <= |f'.temp|
    decreases |calls|
  {
    if calls == [] then f else Step(Exec(f, calls[..|calls| - 1]), calls[|calls| - 1])
  }

  /** The tool goes on after this call. */
  predicate GoesOn(c: Call)
  {
    match c
    case OpenTemp => true
    case WriteTemp(chunk, result) => result == Failed ==> !chunk.fatal
    case Fsync(ok) => ok
    case Rename(_) => false
  }

  /** The `i`-th call of a run that writes the chunks `cs`. */
  predicate Fitting(cs: seq<Chunk>, i: nat, c: Call)
  {
    if i == 0 then c == OpenTemp
    else if i <= |cs| then c.WriteTemp? && c.chunk == cs[i - 1] && (c.result.Short? ==> c.result.n < |c.chunk.bytes|)
    else if i == |cs| + 1 then c.Fsync?
    else i == |cs| + 2 && c.Rename?
  }

  /** The calls of a run, up to any point at which it may stop. */
  predicate Trace(cs: seq<Chunk>, calls: seq<Call>)
  {
    && (forall i :: 0 <= i < |calls| ==> Fitting(cs, i, calls[i]))
    && (forall i :: 0 <= i < |calls| - 1 ==> GoesOn(calls[i]))
  }

  function Concat(cs: seq<Chunk>): (s: seq<byte>)
    decreases |cs|
  {
    if cs == [] then [] else Concat(cs[..|cs| - 1]) + cs[|cs| - 1].bytes
  }

  /** What the first `k` writes of a run have put into the file. */
  function Put(calls: seq<Call>, k: nat): (s: seq<byte>)
    requires k < |calls| && forall i :: 1 <= i <= k ==> calls[i].WriteTemp?
    decreases k
  {
    if k == 0 then [] else Put(calls, k - 1) + Taken(calls[k].chunk, calls[k].result)
  }

  function Start(text: seq<byte>, stale: seq<byte>): (f: Files) { Files(text, stale, 0, false) }

  // ---- What the temporary file holds ----

  lemma OverlayTwice(stale: seq<byte>, a: seq<byte>, b: seq<byte>)
    ensures var s := Overlay(stale, 0, a); |a| <= |s| && Overlay(s, |a|, b) == Overlay(stale, 0, a + b)
  {
    var s := Overlay(stale, 0, a);
    assert s[..|a|] == a;
    if |a| + |b| < |stale| {
      assert s[|a| + |b|..] == stale[|a| + |b|..];
    }
  }

  lemma ExecLast(f: Files, calls: seq<Call>, k: nat)
    requires f.offset <= |f.temp| && k < |calls|
    ensures Exec(f, calls[..k + 1]) == Step(Exec(f, calls[..k]), calls[k])
  {
    assert calls[..k + 1][..k] == calls[..k];
  }

  /** While it is being written, the target is untouched and the temporary file is what was put into
      it over what was there before. */
  lemma {:induction false} WhileWriting(text: seq<byte>, stale: seq<byte>, cs: seq<Chunk>, calls: seq<Call>, k: nat)
    requires Trace(cs, calls) && k < |calls| && k <= |cs|
    ensures forall i :: 1 <= i <= k ==> calls[i].WriteTemp?
    ensures var f := Exec(Start(text, stale), calls[..k + 1]);
            f.target == text && f.temp == Overlay(stale, 0, Put(calls, k)) && f.offset == |Put(calls, k)|
    decreases k
  {
    hide Overlay, Exec, Taken, Trace, Step;
    var f0 := Start(text, stale);
    TraceStep(cs, calls, k);
    ExecLast(f0, calls, k);
    if k == 0 {
      Opened(text, stale, calls);
    } else {
      WhileWriting(text, stale, cs, calls, k - 1);
      WriteStep(Exec(f0, calls[..k]), stale, Put(calls, k - 1), calls[k]);
    }
  }

  lemma Opened(text: seq<byte>, stale: seq<byte>, calls: seq<Call>)
    requires calls != []
    ensures var f := Step(Exec(Start(text, stale), calls[..0]), OpenTemp);
            f.target == text && f.temp == Overlay(stale, 0, []) && f.offset == 0
  {
    assert calls[..0] == [];
  }

  lemma WriteStep(f: Files, stale: seq<byte>, put: seq<byte>, c: Call)
    requires f.temp == Overlay(stale, 0, put) && f.offset == |put| <= |f.temp| && c.WriteTemp?
    ensures var f', all := Step(f, c), put + Taken(c.chunk, c.result);
            f'.target == f.target && f'.temp == Overlay(stale, 0, all) && f'.offset == |all|
  {
    hide Taken;
    OverlayTwice(stale, put, Taken(c.chunk, c.result));
  }

  /** What the run has put into the file when it gets to fsync. */
  function Written(cs: seq<Chunk>, calls: seq<Call>): (s: seq<byte>)
    requires Trace(cs, calls) && |calls| > |cs|
  {
    assert forall i :: 1 <= i <= |cs| ==> Fitting(cs, i, calls[i]);
    Put(calls, |cs|)
  }

  predicate Renamed(cs: seq<Chunk>, calls: seq<Call>)
  {
    |calls| == |cs| + 3 && calls[|cs| + 2] == Rename(true)
  }

  lemma TraceStep(cs: seq<Chunk>, calls: seq<Call>, i: nat)
    requires Trace(cs, calls) && i < |calls|
    ensures Fitting(cs, i, calls[i]) && (i + 1 < |calls| ==> GoesOn(calls[i])) && |calls| <= |cs| + 3
  {
    assert Fitting(cs, |calls| - 1, calls[|calls| - 1]);
  }

  /** Wherever the run stops, the settings file holds the old text, or else the rename has been done
      and it holds the whole of what was written to the temporary file. */
  lemma AllOrNothing(text: seq<byte>, stale: seq<byte>, cs: seq<Chunk>, calls: seq<Call>)
    requires Trace(cs, calls)
    ensures Exec(Start(text, stale), calls).target ==
            if Renamed(cs, calls) then Overlay(stale, 0, Written(cs, calls)) else text
  {
    hide Overlay, Exec, Taken, Trace;
    var f0, n := Start(text, stale), |cs|;
    if calls == [] {
      ExecNone(f0);
    } else {
      TraceStep(cs, calls, |calls| - 1);
      assert calls[..|calls|] == calls;
      if |calls| <= n + 1 {
        WhileWriting(text, stale, cs, calls, |calls| - 1);
      } else {
        WhileWriting(text, stale, cs, calls, n);
        TraceStep(cs, calls, n + 1);
        ExecLast(f0, calls, n + 1);
        if |calls| == n + 3 { ExecLast(f0, calls, n + 2); }
      }
    }
  }

  lemma ExecNone(f: Files)
    requires f.offset <= |f.temp|
    ensures Exec(f, []) == f
  {
  }

  /** The settings file changes only by a rename, and only after a successful fsync of all that was
      written. */
  lemma ChangesOnlyByRename(text: seq<byte>, stale: seq<byte>, cs: seq<Chunk>, calls: seq<Call>)
    requires Trace(cs, calls) && calls != []
    ensures var before := Exec(Start(text, stale), calls[..|calls| - 1]);
            Exec(Start(text, stale), calls).target != before.target ==>
              calls[|calls| - 1] == Rename(true) && before.synced
  {
    var n := |cs|;
    TraceStep(cs, calls, |calls| - 1);
    if calls[|calls| - 1] == Rename(true) {
      TraceStep(cs, calls, n + 1);
      assert calls[..n + 2][..n + 1] == calls[..n + 1];
    }
  }

  // ---- When that is the complete new text ----

  predicate Complete(c: Call) { c.WriteTemp? ==> c.result == Full }

  predicate AllComplete(calls: seq<Call>) { forall i :: 0 <= i < |calls| ==> Complete(calls[i]) }

  lemma {:induction false} PutLength(cs: seq<Chunk>, calls: seq<Call>, k: nat)
    requires Trace(cs, calls) && k < |calls| && k <= |cs| && forall i :: 1 <= i <= k ==> calls[i].WriteTemp?
    ensures |Put(calls, k)| <= |Concat(cs[..k])|
    ensures (forall i :: 1 <= i <= k ==> calls[i].result == Full) ==> Put(calls, k) == Concat(cs[..k])
    ensures (exists i :: 1 <= i <= k && calls[i].result != Full && calls[i].chunk.bytes != []) ==>
              |Put(calls, k)| < |Concat(cs[..k])|
    decreases k
  {
    if k > 0 {
      PutLength(cs, calls, k - 1);
      TraceStep(cs, calls, k);
      assert cs[..k][..k - 1] == cs[..k - 1];
    }
  }

  /** Every write in full: the renamed file is the new text exactly when no longer temporary file
      was left behind by an earlier run. */
  lemma StaleCondition(text: seq<byte>, stale: seq<byte>, cs: seq<Chunk>, calls: seq<Call>)
    requires Trace(cs, calls) && Renamed(cs, calls) && AllComplete(calls)
    ensures Exec(Start(text, stale), calls).target == Concat(cs) <==> |stale| <= |Concat(cs)|
    ensures |stale| > |Concat(cs)| ==> |Exec(Start(text, stale), calls).target| == |stale|
  {
    hide Exec, Concat, Fitting;
    AllOrNothing(text, stale, cs, calls);
    WhileWriting(text, stale, cs, calls, |cs|);
    assert forall i :: 1 <= i <= |cs| ==> Complete(calls[i]);
    PutLength(cs, calls, |cs|);
    assert cs[..|cs|] == cs;
  }

  /** In a run that gets to its rename, a write that was not made in full lost something. */
  lemma Incomplete(cs: seq<Chunk>, calls: seq<Call>, i: nat)
    requires Trace(cs, calls) && Renamed(cs, calls) && i < |calls| && !Complete(calls[i])
    requires forall k :: 0 <= k < |cs| ==> cs[k].fatal || cs[k].bytes != []
    ensures 1 <= i <= |cs| && calls[i].WriteTemp? && calls[i].result != Full && calls[i].chunk.bytes != []
  {
    TraceStep(cs, calls, i);
    if 1 <= i <= |cs| { assert calls[i].chunk == cs[i - 1]; }
  }

  /** No temporary file to begin with: the renamed file is the new text exactly when no write came
      up short or failed. */
  lemma WritesCondition(text: seq<byte>, cs: seq<Chunk>, calls: seq<Call>)
    requires Trace(cs, calls) && Renamed(cs, calls) && forall i :: 0 <= i < |cs| ==> cs[i].fatal || cs[i].bytes != []
    ensures Exec(Start(text, []), calls).target == Concat(cs) <==> AllComplete(calls)
    ensures !AllComplete(calls) ==> |Exec(Start(text, []), calls).target| < |Concat(cs)|
  {
    if AllComplete(calls) {
      StaleCondition(text, [], cs, calls);
    } else {
      hide Exec, Concat, Fitting;
      AllOrNothing(text, [], cs, calls);
      WhileWriting(text, [], cs, calls, |cs|);
      PutLength(cs, calls, |cs|);
      assert cs[..|cs|] == cs;
      var i :| 0 <= i < |calls| && !Complete(calls[i]);
      Incomplete(cs, calls, i);
    }
  }

  // ---- The chunks the tool writes ----

  function LineChunks(l: seq<byte>, p: seq<byte>, v: seq<byte>, k: nat, junk: Junk): (cs: seq<Chunk>)
  {
    if Sets(l, p) then [Chunk(Printed(p, v, k, junk), true)] else [Chunk(l, true), Chunk([NEWLINE], true)]
  }

  function Chunks(ls: seq<seq<byte>>, p: seq<byte>, v: seq<byte>, k: nat, junk: Junk): (cs: seq<Chunk>)
    decreases |ls|
  {
    if ls == [] then [] else LineChunks(ls[0], p, v, k, junk) + Chunks(ls[1..], p, v, k + 1, junk)
  }

  /** A line that is added at the end is the one write whose failure the tool only reports. */
  function AllChunks(text: seq<byte>, p: seq<byte>, v: seq<byte>, junk: Junk): (cs: seq<Chunk>)
  {
    Chunks(Lines(text), p, v, 0, junk) +
    (if Lookup(text, p).None? then [Chunk(Printed(p, v, |Lines(text)|, junk), false)] else [])
  }

  lemma {:induction false} ConcatSum(a: seq<Chunk>, b: seq<Chunk>)
    ensures Concat(a + b) == Concat(a) + Concat(b)
    decreases |b|
  {
    if b == [] {
      assert a + b == a;
    } else {
      var front, last := b[..|b| - 1], b[|b| - 1];
      ConcatSum(a, front);
      assert (a + b)[..|a + b| - 1] == a + front && (a + b)[|a + b| - 1] == last;
      assert Concat(a) + (Concat(front) + last.bytes) == Concat(a) + Concat(front) + last.bytes;
    }
  }

  lemma ConcatOne(c: Chunk)
    ensures Concat([c]) == c.bytes
  {
    assert [c][..0] == [];
  }

  lemma ConcatLine(l: seq<byte>, p: seq<byte>, v: seq<byte>, k: nat, junk: Junk)
    ensures Concat(LineChunks(l, p, v, k, junk)) == if Sets(l, p) then Printed(p, v, k, junk) else l + [NEWLINE]
  {
    hide Concat, Printed, Sets;
    ConcatOne(Chunk(Printed(p, v, k, junk), true));
    ConcatOne(Chunk(l, true));
    ConcatOne(Chunk([NEWLINE], true));
    ConcatSum([Chunk(l, true)], [Chunk([NEWLINE], true)]);
    assert [Chunk(l, true)] + [Chunk([NEWLINE], true)] == [Chunk(l, true), Chunk([NEWLINE], true)];
  }

  lemma {:induction false} ConcatChunks(ls: seq<seq<byte>>, p: seq<byte>, v: seq<byte>, k: nat, junk: Junk)
    ensures Concat(Chunks(ls, p, v, k, junk)) == Emitted(ls, p, v, k, junk)
    decreases |ls|
  {
    hide Concat, Printed, Sets, LineChunks;
    if ls == [] {
      ConcatNone();
    } else {
      ConcatChunks(ls[1..], p, v, k + 1, junk);
      ConcatLine(ls[0], p, v, k, junk);
      ConcatSum(LineChunks(ls[0], p, v, k, junk), Chunks(ls[1..], p, v, k + 1, junk));
    }
  }

  lemma ConcatNone()
    ensures Concat([]) == []
  {
  }

  /** The writes of the tool make up its output. */
  lemma ChunksAreOutput(text: seq<byte>, p: seq<byte>, v: seq<byte>, junk: Junk)
    requires text != []
    ensures Output(text, p, v, junk) == Some(Concat(AllChunks(text, p, v, junk)))
  {
    hide Concat, Chunks, Lines, Lookup, Printed, Emitted;
    var cs, last := Chunks(Lines(text), p, v, 0, junk), Chunk(Printed(p, v, |Lines(text)|, junk), false);
    ConcatChunks(Lines(text), p, v, 0, junk);
    ConcatSum(cs, [last]);
    ConcatOne(last);
    assert cs + [] == cs && Concat(cs) + [] == Concat(cs);
  }

  /** They make up the new text exactly when the assignment fits the line buffer. */
  lemma ChunksAreText(text: seq<byte>, p: seq<byte>, v: seq<byte>, junk: Junk)
    requires text != [] && 0 !in p && 0 !in v
    ensures Write(text, p, v) == Some(Concat(AllChunks(text, p, v, junk))) <==> LineFits(p, v)
  {
    hide Concat, AllChunks, Output, Write, LineFits;
    ChunksAreOutput(text, p, v, junk);
    OutputCondition(text, p, v, junk);
  }

  /** The one write that may fail without stopping the tool is not an empty one. */
  lemma {:induction false} ChunksFatal(ls: seq<seq<byte>>, p: seq<byte>, v: seq<byte>, k: nat, junk: Junk)
    ensures forall i :: 0 <= i < |Chunks(ls, p, v, k, junk)| ==> Chunks(ls, p, v, k, junk)[i].fatal
    decreases |ls|
  {
    hide Printed, Sets;
    if ls != [] { ChunksFatal(ls[1..], p, v, k + 1, junk); }
  }

  // ---- Whole runs of the tool ----

  /** Wherever the run stops, with complete writes, an assignment that fits and no longer temporary
      file left over, the settings file holds the old text or the complete new one. */
  lemma OldOrNew(text: seq<byte>, p: seq<byte>, v: seq<byte>, junk: Junk, stale: seq<byte>, calls: seq<Call>)
    requires text != [] && Trace(AllChunks(text, p, v, junk), calls) && AllComplete(calls)
    requires LineFits(p, v) && |stale| <= |Write(text, p, v).value|
    ensures Exec(Start(text, stale), calls).target ==
            if Renamed(AllChunks(text, p, v, junk), calls) then Write(text, p, v).value else text
  {
    hide Concat, AllChunks, Output, Write, LineFits, Exec;
    var cs := AllChunks(text, p, v, junk);
    ChunksAreOutput(text, p, v, junk);
    OutputText(text, p, v, junk);
    AllOrNothing(text, stale, cs, calls);
    if Renamed(cs, calls) { StaleCondition(text, stale, cs, calls); }
  }

  /** A run over no temporary file, up to its rename: the settings file is the new text exactly when
      every write was made in full and the assignment fits the line buffer. The tool goes on to rename
      when an added line is lost, and when it has written what lies behind its buffer. */
  lemma NewTextCondition(text: seq<byte>, p: seq<byte>, v: seq<byte>, junk: Junk, calls: seq<Call>)
    requires text != [] && 0 !in p && 0 !in v
    requires Trace(AllChunks(text, p, v, junk), calls) && Renamed(AllChunks(text, p, v, junk), calls)
    ensures Exec(Start(text, []), calls).target == Write(text, p, v).value <==> AllComplete(calls) && LineFits(p, v)
  {
    SilentNotEmpty(text, p, v, junk);
    hide Concat, AllChunks, Output, Write, LineFits, Exec, Trace, AllComplete;
    ChunksAreOutput(text, p, v, junk);
    OutputText(text, p, v, junk);
    OutputCondition(text, p, v, junk);
    WriteExists(text, p, v);
    WritesCondition(text, AllChunks(text, p, v, junk), calls);
  }

  lemma WriteExists(text: seq<byte>, p: seq<byte>, v: seq<byte>)
    requires text != []
    ensures Write(text, p, v).Some?
  {
  }

  lemma SilentNotEmpty(text: seq<byte>, p: seq<byte>, v: seq<byte>, junk: Junk)
    ensures forall i :: 0 <= i < |AllChunks(text, p, v, junk)| ==>
              AllChunks(text, p, v, junk)[i].fatal || AllChunks(text, p, v, junk)[i].bytes != []
  {
    hide Chunks, Lines, Lookup, Printed;
    ChunksFatal(Lines(text), p, v, 0, junk);
    assert |Printed(p, v, |Lines(text)|, junk)| > 0;
  }

  /** A run with complete writes, up to its rename: the settings file is the new text exactly when no
      longer temporary file was left over and the assignment fits the line buffer. */
  lemma StaleTextCondition(text: seq<byte>, p: seq<byte>, v: seq<byte>, junk: Junk, stale: seq<byte>, calls: seq<Call>)
    requires text != [] && 0 !in p && 0 !in v && AllComplete(calls)
    requires Trace(AllChunks(text, p, v, junk), calls) && Renamed(AllChunks(text, p, v, junk), calls)
    ensures Exec(Start(text, stale), calls).target == Write(text, p, v).value <==>
            |stale| <= |Write(text, p, v).value| && LineFits(p, v)
  {
    hide Concat, AllChunks, Output, Write, LineFits, Exec, Trace, AllComplete;
    ChunksAreOutput(text, p, v, junk);
    OutputText(text, p, v, junk);
    OutputCondition(text, p, v, junk);
    WriteExists(text, p, v);
    StaleCondition(text, stale, AllChunks(text, p, v, junk), calls);
  }

  // ---- Inputs for which it is not ----

  /** A run in which everything succeeds. */
  function SmoothRun(cs: seq<Chunk>): (calls: seq<Call>)
  {
    [OpenTemp] + seq(|cs|, i requires 0 <= i < |cs| => WriteTemp(cs[i], Full)) + [Fsync(true), Rename(true)]
  }

  lemma SmoothRunTraces(cs: seq<Chunk>)
    ensures Trace(cs, SmoothRun(cs)) && Renamed(cs, SmoothRun(cs)) && AllComplete(SmoothRun(cs))
  {
  }

  /** A temporary file left behind that is longer than the new text: its end is kept. */
  lemma StaleTailSurvives(text: seq<byte>, p: seq<byte>, v: seq<byte>, junk: Junk, extra: seq<byte>)
    requires text != [] && LineFits(p, v) && extra != []
    ensures var cs, whole := AllChunks(text, p, v, junk), Write(text, p, v).value;
            && Trace(cs, SmoothRun(cs)) && Renamed(cs, SmoothRun(cs))
            && Exec(Start(text, whole + extra), SmoothRun(cs)).target == whole + extra
  {
    hide Concat, AllChunks, Output, Write, LineFits, Exec, SmoothRun, Overlay;
    var cs := AllChunks(text, p, v, junk);
    WriteExists(text, p, v);
    ChunksAreOutput(text, p, v, junk);
    OutputText(text, p, v, junk);
    SmoothRunTraces(cs);
    SmoothOver(text, extra, cs);
  }

  lemma SmoothOver(text: seq<byte>, extra: seq<byte>, cs: seq<Chunk>)
    requires Trace(cs, SmoothRun(cs)) && Renamed(cs, SmoothRun(cs)) && AllComplete(SmoothRun(cs))
    ensures Exec(Start(text, Concat(cs) + extra), SmoothRun(cs)).target == Concat(cs) + extra
  {
    hide Exec, Concat, SmoothRun, Fitting;
    var calls, stale := SmoothRun(cs), Concat(cs) + extra;
    AllOrNothing(text, stale, cs, calls);
    WhileWriting(text, stale, cs, calls, |cs|);
    assert forall i :: 1 <= i <= |cs| ==> Complete(calls[i]);
    PutLength(cs, calls, |cs|);
    assert cs[..|cs|] == cs;
    OverlaySame(Concat(cs), extra);
  }

  lemma OverlaySame(s: seq<byte>, extra: seq<byte>)
    ensures Overlay(s + extra, 0, s) == s + extra
  {
  }

  /** A run in which the last write fails, and everything else succeeds. */
  function LastLost(cs: seq<Chunk>): (calls: seq<Call>)
  {
    [OpenTemp] +
    seq(|cs|, i requires 0 <= i < |cs| => WriteTemp(cs[i], if i == |cs| - 1 then Failed else Full)) +
    [Fsync(true), Rename(true)]
  }

  lemma LastLostTraces(cs: seq<Chunk>)
    requires cs != [] && !cs[|cs| - 1].fatal
    ensures Trace(cs, LastLost(cs)) && Renamed(cs, LastLost(cs)) && !AllComplete(LastLost(cs))
  {
    var calls := LastLost(cs);
    assert calls[|cs|] == WriteTemp(cs[|cs| - 1], Failed);
    assert forall i :: 0 <= i < |calls| - 1 ==> GoesOn(calls[i]);
  }

  /** Any settings without the parameter, whose new line cannot be written: the tool goes on to rename,
      and the file does not hold the new text. */
  lemma AddedLineLost(text: seq<byte>, p: seq<byte>, v: seq<byte>, junk: Junk)
    requires text != [] && 0 !in p && 0 !in v && Lookup(text, p).None?
    ensures var cs := AllChunks(text, p, v, junk);
            && Trace(cs, LastLost(cs)) && Renamed(cs, LastLost(cs))
            && Write(text, p, v).Some? && Exec(Start(text, []), LastLost(cs)).target != Write(text, p, v).value
  {
    var cs := AllChunks(text, p, v, junk);
    assert cs != [] && !cs[|cs| - 1].fatal;
    hide AllChunks, Write, Exec, LastLost, Lookup, Trace;
    LastLostTraces(cs);
    WriteExists(text, p, v);
    NewTextCondition(text, p, v, junk, LastLost(cs));
  }

  /** The settings "a=1", and a value of 300 bytes for "a": everything succeeds, and the file does not
      hold the new text. */
  lemma LongLineSpoils(junk: Junk)
    ensures var text, p, v := [0x61, EQUALS, 0x31, NEWLINE], [0x61], seq(300, _ => 0x78);
            var cs := AllChunks(text, p, v, junk);
            && Trace(cs, SmoothRun(cs)) && Renamed(cs, SmoothRun(cs)) && AllComplete(SmoothRun(cs))
            && Write(text, p, v).Some? && Exec(Start(text, []), SmoothRun(cs)).target != Write(text, p, v).value
  {
    hide AllChunks, Write, Exec, SmoothRun;
    var text, p: seq<byte>, v: seq<byte> := [0x61, EQUALS, 0x31, NEWLINE], [0x61], seq(300, _ => 0x78);
    var cs := AllChunks(text, p, v, junk);
    SmoothRunTraces(cs);
    WriteExists(text, p, v);
    NewTextCondition(text, p, v, junk, SmoothRun(cs));
  }
}

/** The settings file of safe-config-tool/main.c as a map: what `read_param_config` finds in a text
    and what text `write_param_config` makes of it. */
module ConfigFile {
  import opened Bytes

  const BUFFER_SIZE: nat := 256

  const NEWLINE: byte := 0x0A
  const RETURN: byte := 0x0D
  const HASH: byte := 0x23
  const EQUALS: byte := 0x3D

  // ---- Lines ----

  /** The place of the first `b`, or the end. */
  function IndexOf(s: seq<byte>, b: byte): (n: nat)
    ensures n <= |s| && b !in s[..n] && (n < |s| ==> s[n] == b)
    decreases |s|
  {
    if s == [] || s[0] == b then 0 else 1 + IndexOf(s[1..], b)
  }

  /** What the tool sees of a file: one read into its buffer, up to a NUL. */
  function Visible(text: seq<byte>): (s: seq<byte>)
    ensures 0 !in s
  {
    CString(if |text| < BUFFER_SIZE then text else text[..BUFFER_SIZE - 1])
  }

  /** `strtok_r` with "\n": the runs of other bytes between newlines; none is empty. */
  function Tokens(s: seq<byte>): (ts: seq<seq<byte>>)
    decreases |s|
  {
    if s == [] then []
    else if s[0] == NEWLINE then Tokens(s[1..])
    else
      var n := IndexOf(s, NEWLINE);
      [s[..n]] + Tokens(s[n..])
  }

  /** One carriage return is taken off the end of a line. */
  function StripReturn(l: seq<byte>): (r: seq<byte>)
  {
    if l != [] && l[|l| - 1] == RETURN then l[..|l| - 1] else l
  }

  function Stripped(ls: seq<seq<byte>>): (r: seq<seq<byte>>)
    ensures |r| == |ls|
    decreases |ls|
  {
    if ls == [] then [] else [StripReturn(ls[0])] + Stripped(ls[1..])
  }

  function Lines(text: seq<byte>): (ls: seq<seq<byte>>) { Stripped(Tokens(Visible(text))) }

  datatype Entry = Plain | Setting(key: seq<byte>, value: seq<byte>)

  /** Comments and lines without '=' set nothing; the first '=' separates key and value. */
  function Parse(l: seq<byte>): (e: Entry)
  {
    if l == [] || l[0] == HASH then Plain
    else
      var n := IndexOf(l, EQUALS);
      if n == |l| then Plain else Setting(l[..n], l[n + 1..])
  }

  predicate Sets(l: seq<byte>, p: seq<byte>) { Parse(l).Setting? && Parse(l).key == p }

  // ---- Reading ----

  /** The value of the first line that sets `p`. */
  function Find(ls: seq<seq<byte>>, p: seq<byte>): (v: Option<seq<byte>>)
    decreases |ls|
  {
    if ls == [] then None
    else if Sets(ls[0], p) then Some(Parse(ls[0]).value)
    else Find(ls[1..], p)
  }

  function Lookup(text: seq<byte>, p: seq<byte>): (v: Option<seq<byte>>) { Find(Lines(text), p) }

  // ---- Writing ----

  function Join(ls: seq<seq<byte>>): (s: seq<byte>)
    decreases |ls|
  {
    if ls == [] then [] else ls[0] + [NEWLINE] + Join(ls[1..])
  }

  function Assignment(p: seq<byte>, v: seq<byte>): (l: seq<byte>) { p + [EQUALS] + v }

  /** Every line that sets `p` is replaced; the others are kept. */
  function Rewritten(ls: seq<seq<byte>>, p: seq<byte>, v: seq<byte>): (r: seq<seq<byte>>)
    decreases |ls|
  {
    if ls == [] then []
    else [if Sets(ls[0], p) then Assignment(p, v) else ls[0]] + Rewritten(ls[1..], p, v)
  }

  /** If no line sets `p`, a line is added. */
  function NewLines(text: seq<byte>, p: seq<byte>, v: seq<byte>): (ls: seq<seq<byte>>)
  {
    Rewritten(Lines(text), p, v) + (if Lookup(text, p).None? then [Assignment(p, v)] else [])
  }

  /** The text that is to replace `text`; an empty file is an error. */
  function Write(text: seq<byte>, p: seq<byte>, v: seq<byte>): (r: Option<seq<byte>>)
  {
    if text == [] then None else Some(Join(NewLines(text, p, v)))
  }

  // ---- What the tool puts into the temporary file ----

  /** What lies past the end of the tool's line buffer: byte `i` at line `k`. */
  type Junk = (nat, nat) -> byte

  /** The assignment and its newline fit the line buffer, with the NUL after them. */
  predicate LineFits(p: seq<byte>, v: seq<byte>) { |Assignment(p, v)| + 1 < BUFFER_SIZE }

  /** The bytes written for an assignment: `snprintf` cuts the line to its buffer but returns the
      length of the whole line, and that many bytes are written from the buffer on. */
  function Printed(p: seq<byte>, v: seq<byte>, k: nat, junk: Junk): (s: seq<byte>)
    ensures |s| == |Assignment(p, v)| + 1
  {
    var line := Assignment(p, v) + [NEWLINE];
    if LineFits(p, v) then line
    else line[..BUFFER_SIZE - 1] + [0] + seq(|line| - BUFFER_SIZE, i requires 0 <= i => junk(k, i))
  }

  function Emitted(ls: seq<seq<byte>>, p: seq<byte>, v: seq<byte>, k: nat, junk: Junk): (s: seq<byte>)
    decreases |ls|
  {
    if ls == [] then []
    else
      (if Sets(ls[0], p) then Printed(p, v, k, junk) else ls[0] + [NEWLINE]) + Emitted(ls[1..], p, v, k + 1, junk)
  }

  function Output(text: seq<byte>, p: seq<byte>, v: seq<byte>, junk: Junk): (r: Option<seq<byte>>)
  {
    if text == [] then None
    else
      Some(Emitted(Lines(text), p, v, 0, junk) +
           (if Lookup(text, p).None? then Printed(p, v, |Lines(text)|, junk) else []))
  }

  // ---- Facts about lines ----

  predicate Clean(l: seq<byte>) { NEWLINE !in l && 0 !in l }

  predicate AllClean(ls: seq<seq<byte>>) { forall k :: 0 <= k < |ls| ==> Clean(ls[k]) }

  lemma {:induction false} TokensClean(s: seq<byte>)
    requires 0 !in s
    ensures AllClean(Tokens(s))
    decreases |s|
  {
    if s != [] {
      if s[0] == NEWLINE {
        TokensClean(s[1..]);
      } else {
        TokensClean(s[IndexOf(s, NEWLINE)..]);
      }
    }
  }

  lemma {:induction false} StrippedClean(ls: seq<seq<byte>>)
    requires AllClean(ls)
    ensures AllClean(Stripped(ls))
    decreases |ls|
  {
    if ls != [] { StrippedClean(ls[1..]); }
  }

  lemma LinesClean(text: seq<byte>)
    ensures AllClean(Lines(text))
  {
    TokensClean(Visible(text));
    StrippedClean(Tokens(Visible(text)));
  }

  lemma {:induction false} RewrittenClean(ls: seq<seq<byte>>, p: seq<byte>, v: seq<byte>)
    requires AllClean(ls) && Clean(Assignment(p, v))
    ensures AllClean(Rewritten(ls, p, v))
    decreases |ls|
  {
    if ls != [] { RewrittenClean(ls[1..], p, v); }
  }

  /** No key has an '=' or a newline in it or starts with '#'; no value has a newline in it. */
  lemma {:induction false} FindFacts(ls: seq<seq<byte>>, p: seq<byte>)
    requires AllClean(ls)
    ensures Find(ls, p).Some? ==> NEWLINE !in Find(ls, p).value && Key(p)
    decreases |ls|
  {
    if ls != [] {
      if Sets(ls[0], p) {
        var n := IndexOf(ls[0], EQUALS);
        assert ls[0][..n] == p && (p != [] ==> p[0] == ls[0][0]);
      } else {
        FindFacts(ls[1..], p);
      }
    }
  }

  /** What a parameter must be like to be found again. */
  predicate Key(p: seq<byte>) { EQUALS !in p && NEWLINE !in p && (p != [] ==> p[0] != HASH) }

  function NonEmpty(ls: seq<seq<byte>>): (r: seq<seq<byte>>)
    decreases |ls|
  {
    if ls == [] then [] else (if ls[0] == [] then [] else [ls[0]]) + NonEmpty(ls[1..])
  }

  lemma IndexOfJoined(l: seq<byte>, b: byte, rest: seq<byte>)
    requires b !in l
    ensures IndexOf(l + [b] + rest, b) == |l|
    decreases |l|
  {
    if l != [] {
      assert (l + [b] + rest)[1..] == l[1..] + [b] + rest;
      IndexOfJoined(l[1..], b, rest);
    }
  }

  /** Tokenising what was joined gives the lines back, less the empty ones. */
  lemma {:induction false} TokensOfJoined(ls: seq<seq<byte>>)
    requires AllClean(ls)
    ensures Tokens(Join(ls)) == NonEmpty(ls)
    decreases |ls|
  {
    if ls != [] {
      var l, rest, s := ls[0], Join(ls[1..]), Join(ls);
      TokensOfJoined(ls[1..]);
      if l == [] {
        assert s[1..] == rest;
      } else {
        IndexOfJoined(l, NEWLINE, rest);
        assert s[..|l|] == l && s[|l|..] == [NEWLINE] + rest;
        assert ([NEWLINE] + rest)[1..] == rest;
      }
    }
  }

  lemma {:induction false} JoinNulFree(ls: seq<seq<byte>>)
    requires forall k :: 0 <= k < |ls| ==> 0 !in ls[k]
    ensures 0 !in Join(ls)
    decreases |ls|
  {
    if ls != [] { JoinNulFree(ls[1..]); }
  }

  lemma {:induction false} JoinAppend(ls: seq<seq<byte>>, l: seq<byte>)
    ensures Join(ls + [l]) == Join(ls) + l + [NEWLINE]
    decreases |ls|
  {
    if ls == [] {
      assert (ls + [l])[1..] == [];
    } else {
      assert (ls + [l])[1..] == ls[1..] + [l];
      JoinAppend(ls[1..], l);
    }
  }

  /** A text that fits the buffer is read back line by line. */
  lemma LinesOfJoined(ls: seq<seq<byte>>)
    requires AllClean(ls) && |Join(ls)| < BUFFER_SIZE
    ensures Lines(Join(ls)) == Stripped(NonEmpty(ls))
  {
    JoinNulFree(ls);
    CStringOfNulFree(Join(ls), []);
    TokensOfJoined(ls);
  }

  // ---- What a line sets after it has been stripped again ----

  function Restripped(v: Option<seq<byte>>): (r: Option<seq<byte>>)
  {
    if v.None? then None else Some(StripReturn(v.value))
  }

  /** Taking another carriage return off a line leaves its key alone. */
  lemma ParseStripped(l: seq<byte>)
    ensures Parse(StripReturn(l)) ==
            if Parse(l).Plain? then Plain else Setting(Parse(l).key, StripReturn(Parse(l).value))
  {
    hide IndexOf;
    if l != [] && l[|l| - 1] == RETURN {
      var r, n := l[..|l| - 1], IndexOf(l, EQUALS);
      if n < |l| {
        assert n < |r| && r[..n] == l[..n];
        IndexOfUnique(r, EQUALS, n);
        assert r[n + 1..] == l[n + 1..][..|l| - n - 2];
      } else {
        assert l[..n] == l && EQUALS !in l;
        assert IndexOf(r, EQUALS) == |r|;
      }
    }
  }

  lemma {:induction false} IndexOfUnique(s: seq<byte>, b: byte, n: nat)
    requires n < |s| && s[n] == b && b !in s[..n]
    ensures IndexOf(s, b) == n
    decreases n
  {
    if n > 0 {
      assert s[0] == s[..n][0] && s[1..][..n - 1] == s[..n][1..];
      IndexOfUnique(s[1..], b, n - 1);
    }
  }

  lemma {:induction false} FindStripped(ls: seq<seq<byte>>, q: seq<byte>)
    ensures Find(Stripped(NonEmpty(ls)), q) == Restripped(Find(ls, q))
    decreases |ls|
  {
    if ls != [] {
      FindStripped(ls[1..], q);
      if ls[0] == [] {
        assert NonEmpty(ls) == NonEmpty(ls[1..]);
      } else {
        ParseStripped(ls[0]);
        assert NonEmpty(ls) == [ls[0]] + NonEmpty(ls[1..]);
        assert NonEmpty(ls)[1..] == NonEmpty(ls[1..]);
        var t := Stripped(NonEmpty(ls));
        assert t[1..] == Stripped(NonEmpty(ls[1..]));
      }
    }
  }

  // ---- Reading after writing ----

  lemma ParseAssignment(p: seq<byte>, v: seq<byte>)
    requires Key(p)
    ensures Parse(Assignment(p, v)) == Setting(p, v)
  {
    var l := Assignment(p, v);
    IndexOfJoined(p, EQUALS, v);
    assert l[..|p|] == p && l[|p| + 1..] == v;
  }

  lemma {:induction false} FindAppended(ls: seq<seq<byte>>, l: seq<byte>, q: seq<byte>)
    ensures Find(ls + [l], q) ==
            if Find(ls, q).Some? then Find(ls, q) else if Sets(l, q) then Some(Parse(l).value) else None
    decreases |ls|
  {
    if ls == [] {
      assert (ls + [l])[1..] == [];
    } else {
      assert (ls + [l])[1..] == ls[1..] + [l];
      FindAppended(ls[1..], l, q);
    }
  }

  lemma {:induction false} FindRewritten(ls: seq<seq<byte>>, p: seq<byte>, v: seq<byte>, q: seq<byte>)
    requires Key(p)
    ensures Find(Rewritten(ls, p, v), q) ==
            if q != p then Find(ls, q) else if Find(ls, p).Some? then Some(v) else None
    decreases |ls|
  {
    if ls != [] {
      ParseAssignment(p, v);
      FindRewritten(ls[1..], p, v, q);
      assert Rewritten(ls, p, v)[1..] == Rewritten(ls[1..], p, v);
    }
  }

  lemma FindNewLines(text: seq<byte>, p: seq<byte>, v: seq<byte>, q: seq<byte>)
    requires Key(p)
    ensures Find(NewLines(text, p, v), q) == if q == p then Some(v) else Lookup(text, q)
  {
    FindRewritten(Lines(text), p, v, q);
    ParseAssignment(p, v);
    var r := Rewritten(Lines(text), p, v);
    FindAppended(r, Assignment(p, v), q);
    assert r + [] == r;
  }

  /** The new text fits the buffer, so that the next read sees all of it. */
  predicate Fits(text: seq<byte>, p: seq<byte>, v: seq<byte>)
  {
    Write(text, p, v).Some? && |Write(text, p, v).value| < BUFFER_SIZE
  }

  lemma NewLinesClean(text: seq<byte>, p: seq<byte>, v: seq<byte>)
    requires Clean(p) && Clean(v)
    ensures AllClean(NewLines(text, p, v))
  {
    LinesClean(text);
    RewrittenClean(Lines(text), p, v);
  }

  /** After a write, every parameter reads as a map update says, whatever comments, blank lines and
      duplicates the file holds, except that each answer has lost one trailing carriage return. */
  lemma ReadAfterWrite(text: seq<byte>, p: seq<byte>, v: seq<byte>, q: seq<byte>)
    requires Fits(text, p, v) && Key(p) && 0 !in p && Clean(v)
    ensures Lookup(Write(text, p, v).value, q) == Restripped(if q == p then Some(v) else Lookup(text, q))
  {
    hide Lines, NewLines, Rewritten;
    var ls := NewLines(text, p, v);
    NewLinesClean(text, p, v);
    LinesOfJoined(ls);
    FindStripped(ls, q);
    FindNewLines(text, p, v, q);
  }

  predicate EndsInReturn(v: seq<byte>) { v != [] && v[|v| - 1] == RETURN }

  /** The written value is read back exactly when the parameter can be a key and the value has no
      newline and does not end in a carriage return; one that does loses it. */
  lemma ReadBackCondition(text: seq<byte>, p: seq<byte>, v: seq<byte>)
    requires Fits(text, p, v) && 0 !in p && 0 !in v
    ensures Lookup(Write(text, p, v).value, p) == Some(v) <==> Key(p) && NEWLINE !in v && !EndsInReturn(v)
    ensures Lookup(Write(text, p, v).value, p) == Some(StripReturn(v)) <==> Key(p) && NEWLINE !in v
  {
    hide Write, NewLines, Visible, Tokens;
    var found := Lookup(Write(text, p, v).value, p);
    LinesClean(Write(text, p, v).value);
    FindFacts(Lines(Write(text, p, v).value), p);
    if NEWLINE in v {
      assert NEWLINE in StripReturn(v) by {
        var k :| 0 <= k < |v| && v[k] == NEWLINE;
        assert StripReturn(v)[k] == NEWLINE;
      }
    } else if Key(p) {
      ReadAfterWrite(text, p, v, p);
    }
  }

  // ---- The other lines ----

  /** The lines that do not set `p`: other settings, comments, and lines without '='. */
  function Others(ls: seq<seq<byte>>, p: seq<byte>): (r: seq<seq<byte>>)
    decreases |ls|
  {
    if ls == [] then [] else (if Sets(ls[0], p) then [] else [ls[0]]) + Others(ls[1..], p)
  }

  lemma {:induction false} OthersAppended(ls: seq<seq<byte>>, l: seq<byte>, p: seq<byte>)
    ensures Others(ls + [l], p) == Others(ls, p) + (if Sets(l, p) then [] else [l])
    decreases |ls|
  {
    if ls == [] {
      assert (ls + [l])[1..] == [];
    } else {
      assert (ls + [l])[1..] == ls[1..] + [l];
      OthersAppended(ls[1..], l, p);
    }
  }

  lemma {:induction false} OthersRewritten(ls: seq<seq<byte>>, p: seq<byte>, v: seq<byte>)
    requires Key(p)
    ensures Others(Rewritten(ls, p, v), p) == Others(ls, p)
    decreases |ls|
  {
    if ls != [] {
      ParseAssignment(p, v);
      OthersRewritten(ls[1..], p, v);
      assert Rewritten(ls, p, v)[1..] == Rewritten(ls[1..], p, v);
    }
  }

  lemma {:induction false} OthersStripped(ls: seq<seq<byte>>, p: seq<byte>)
    ensures Others(Stripped(NonEmpty(ls)), p) == Stripped(NonEmpty(Others(ls, p)))
    decreases |ls|
  {
    if ls != [] {
      OthersStripped(ls[1..], p);
      var l, t, o := ls[0], Stripped(NonEmpty(ls)), Others(ls[1..], p);
      if l == [] {
        assert NonEmpty(ls) == NonEmpty(ls[1..]);
        assert Others(ls, p) == [l] + o && ([l] + o)[1..] == o;
        assert NonEmpty([l] + o) == NonEmpty(o);
      } else {
        ParseStripped(l);
        assert NonEmpty(ls) == [l] + NonEmpty(ls[1..]) && NonEmpty(ls)[1..] == NonEmpty(ls[1..]);
        assert t[0] == StripReturn(l) && t[1..] == Stripped(NonEmpty(ls[1..]));
        if Sets(l, p) {
          assert Others(ls, p) == o && Others(t, p) == Others(t[1..], p);
        } else {
          assert Others(ls, p) == [l] + o && ([l] + o)[1..] == o;
          assert NonEmpty([l] + o) == [l] + NonEmpty(o) && ([l] + NonEmpty(o))[1..] == NonEmpty(o);
        }
      }
    }
  }

  /** A write keeps every line that does not set its parameter, comments among them, in order; they
      lose one trailing carriage return, and empty ones go. */
  lemma OtherLinesKept(text: seq<byte>, p: seq<byte>, v: seq<byte>)
    requires Fits(text, p, v) && Key(p) && 0 !in p && Clean(v)
    ensures Others(Lines(Write(text, p, v).value), p) == Stripped(NonEmpty(Others(Lines(text), p)))
  {
    hide Lines, Rewritten, Others, Visible;
    var r, ls := Rewritten(Lines(text), p, v), NewLines(text, p, v);
    NewLinesClean(text, p, v);
    LinesOfJoined(ls);
    OthersStripped(ls, p);
    OthersRewritten(Lines(text), p, v);
    OthersAppended(r, Assignment(p, v), p);
    ParseAssignment(p, v);
    assert r + [] == r && Others(r, p) + [] == Others(r, p);
  }

  /** Of a file longer than the buffer, a write keeps nothing past the first 255 bytes. */
  lemma RestLost(text: seq<byte>, more: seq<byte>, p: seq<byte>, v: seq<byte>)
    requires |text| == BUFFER_SIZE - 1
    ensures Write(text + more, p, v) == Write(text, p, v)
  {
    assert (text + more)[..BUFFER_SIZE - 1] == text && text[..BUFFER_SIZE - 1] == text;
    assert |text + more| < BUFFER_SIZE ==> text + more == text;
  }

  // ---- When the tool writes the text it is to write ----

  lemma {:induction false} EmittedText(ls: seq<seq<byte>>, p: seq<byte>, v: seq<byte>, k: nat, junk: Junk)
    ensures |Emitted(ls, p, v, k, junk)| == |Join(Rewritten(ls, p, v))|
    ensures LineFits(p, v) ==> Emitted(ls, p, v, k, junk) == Join(Rewritten(ls, p, v))
    decreases |ls|
  {
    hide Sets, Printed;
    if ls != [] {
      EmittedText(ls[1..], p, v, k + 1, junk);
      RewrittenStep(ls, p, v);
      PrintedFits(p, v, k, junk);
    }
  }

  lemma RewrittenStep(ls: seq<seq<byte>>, p: seq<byte>, v: seq<byte>)
    requires ls != []
    ensures Join(Rewritten(ls, p, v)) ==
            (if Sets(ls[0], p) then Assignment(p, v) else ls[0]) + [NEWLINE] + Join(Rewritten(ls[1..], p, v))
  {
    hide Sets, Assignment;
    var r := Rewritten(ls, p, v);
    assert r[1..] == Rewritten(ls[1..], p, v);
  }

  lemma PrintedFits(p: seq<byte>, v: seq<byte>, k: nat, junk: Junk)
    ensures LineFits(p, v) ==> Printed(p, v, k, junk) == Assignment(p, v) + [NEWLINE]
    ensures !LineFits(p, v) ==> 0 in Printed(p, v, k, junk)
  {
    if !LineFits(p, v) { assert Printed(p, v, k, junk)[BUFFER_SIZE - 1] == 0; }
  }

  lemma {:induction false} EmittedNul(ls: seq<seq<byte>>, p: seq<byte>, v: seq<byte>, k: nat, junk: Junk)
    requires !LineFits(p, v) && Find(ls, p).Some?
    ensures 0 in Emitted(ls, p, v, k, junk)
    decreases |ls|
  {
    hide Sets, Printed, LineFits;
    PrintedFits(p, v, k, junk);
    if !Sets(ls[0], p) { EmittedNul(ls[1..], p, v, k + 1, junk); }
  }

  lemma {:induction false} RewrittenNulFree(ls: seq<seq<byte>>, p: seq<byte>, v: seq<byte>)
    requires (forall k :: 0 <= k < |ls| ==> 0 !in ls[k]) && 0 !in Assignment(p, v)
    ensures forall k :: 0 <= k < |Rewritten(ls, p, v)| ==> 0 !in Rewritten(ls, p, v)[k]
    decreases |ls|
  {
    hide Sets;
    if ls != [] { RewrittenNulFree(ls[1..], p, v); }
  }

  lemma WriteNulFree(text: seq<byte>, p: seq<byte>, v: seq<byte>)
    requires text != [] && 0 !in p && 0 !in v
    ensures 0 !in Write(text, p, v).value
  {
    hide Lines, Lookup, Rewritten, Join;
    LinesClean(text);
    RewrittenNulFree(Lines(text), p, v);
    JoinNulFree(NewLines(text, p, v));
  }

  /** The tool writes as many bytes as it should. */
  lemma OutputText(text: seq<byte>, p: seq<byte>, v: seq<byte>, junk: Junk)
    requires text != []
    ensures |Output(text, p, v, junk).value| == |Write(text, p, v).value|
    ensures LineFits(p, v) ==> Output(text, p, v, junk) == Write(text, p, v)
  {
    hide Lines, Lookup, Rewritten, Join, Emitted, Printed, Assignment;
    var ls, a := Lines(text), Assignment(p, v);
    var r := Rewritten(ls, p, v);
    EmittedText(ls, p, v, 0, junk);
    PrintedFits(p, v, |ls|, junk);
    JoinAppend(r, a);
    assert Join(r) + a + [NEWLINE] == Join(r) + (a + [NEWLINE]);
    assert r + [] == r && Emitted(ls, p, v, 0, junk) + [] == Emitted(ls, p, v, 0, junk);
  }

  /** The tool writes the text it should exactly when the assignment fits its line buffer, whatever
      lies behind that buffer. */
  lemma OutputCondition(text: seq<byte>, p: seq<byte>, v: seq<byte>, junk: Junk)
    requires text != [] && 0 !in p && 0 !in v
    ensures Output(text, p, v, junk) == Write(text, p, v) <==> LineFits(p, v)
    ensures LineFits(p, v) <==> |p| + |v| <= 253
  {
    OutputText(text, p, v, junk);
    if !LineFits(p, v) {
      hide Lines, Emitted, Printed, Write, LineFits;
      WriteNulFree(text, p, v);
      if Lookup(text, p).Some? {
        EmittedNul(Lines(text), p, v, 0, junk);
      } else {
        PrintedFits(p, v, |Lines(text)|, junk);
      }
      assert 0 in Output(text, p, v, junk).value;
    }
  }

  /** A new text that fits the read buffer has only lines that fit the line buffer. */
  lemma FittingText(text: seq<byte>, p: seq<byte>, v: seq<byte>, junk: Junk)
    requires Fits(text, p, v)
    ensures Output(text, p, v, junk) == Write(text, p, v)
  {
    OutputText(text, p, v, junk);
    AssignmentInside(text, p, v);
  }

  lemma AssignmentInside(text: seq<byte>, p: seq<byte>, v: seq<byte>)
    requires text != []
    ensures |Assignment(p, v)| + 1 <= |Write(text, p, v).value|
  {
    hide Lines, Assignment;
    var r := Rewritten(Lines(text), p, v);
    if Lookup(text, p).Some? {
      RewrittenLong(Lines(text), p, v);
      assert r + [] == r;
    } else {
      JoinAppend(r, Assignment(p, v));
    }
  }

  lemma {:induction false} RewrittenLong(ls: seq<seq<byte>>, p: seq<byte>, v: seq<byte>)
    requires Find(ls, p).Some?
    ensures |Assignment(p, v)| + 1 <= |Join(Rewritten(ls, p, v))|
    decreases |ls|
  {
    hide Sets, Assignment;
    RewrittenStep(ls, p, v);
    if !Sets(ls[0], p) { RewrittenLong(ls[1..], p, v); }
  }

  // ---- Any sequence of writes ----

  datatype Change = Change(p: seq<byte>, v: seq<byte>)

  /** The text that the tool leaves after the first `k` changes. */
  function TextAfter(text: seq<byte>, cs: seq<Change>, k: nat, junk: nat -> Junk): (r: Option<seq<byte>>)
    requires k <= |cs|
    decreases k
  {
    if k == 0 then Some(text)
    else
      var t := TextAfter(text, cs, k - 1, junk);
      if t.None? then None else Output(t.value, cs[k - 1].p, cs[k - 1].v, junk(k - 1))
  }

  /** The last change to `q` among the first `k`, or the answer at the start. */
  function Expected(start: Option<seq<byte>>, cs: seq<Change>, k: nat, q: seq<byte>): (v: Option<seq<byte>>)
    requires k <= |cs|
    decreases k
  {
    if k == 0 then start
    else if cs[k - 1].p == q then Some(cs[k - 1].v)
    else Expected(start, cs, k - 1, q)
  }

  ghost predicate Admissible(text: seq<byte>, cs: seq<Change>, junk: nat -> Junk)
  {
    forall k :: 0 <= k < |cs| ==>
      && TextAfter(text, cs, k, junk).Some? && Fits(TextAfter(text, cs, k, junk).value, cs[k].p, cs[k].v)
      && Key(cs[k].p) && 0 !in cs[k].p && Clean(cs[k].v) && !EndsInReturn(cs[k].v)
  }

  /** The file behaves as a map under any sequence of writes: a parameter reads as last written, or
      as it did at the start. */
  lemma {:induction false} BehavesAsMap(text: seq<byte>, cs: seq<Change>, k: nat, q: seq<byte>, junk: nat -> Junk)
    requires Admissible(text, cs, junk) && k <= |cs|
    requires Lookup(text, q).None? || !EndsInReturn(Lookup(text, q).value)
    ensures TextAfter(text, cs, k, junk).Some?
    ensures var found := Lookup(TextAfter(text, cs, k, junk).value, q);
            found == Expected(Lookup(text, q), cs, k, q) && (found.None? || !EndsInReturn(found.value))
    decreases k
  {
    hide Lookup, Write, Output, Fits, Key;
    if k > 0 {
      BehavesAsMap(text, cs, k - 1, q, junk);
      var t, c := TextAfter(text, cs, k - 1, junk).value, cs[k - 1];
      assert Fits(t, c.p, c.v);
      FitsWrites(t, c.p, c.v);
      FittingText(t, c.p, c.v, junk(k - 1));
      ReadAfterWrite(t, c.p, c.v, q);
    }
  }

  lemma FitsWrites(text: seq<byte>, p: seq<byte>, v: seq<byte>)
    requires Fits(text, p, v)
    ensures Write(text, p, v).Some?
  {
  }
}

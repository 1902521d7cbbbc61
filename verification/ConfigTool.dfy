/** `read_param_config` and `write_param_config` of safe-config-tool/main.c in their own form: the
    buffer is cut into lines, keys and values in place while the temporary file is written. */
module ConfigTool {
  import opened Bytes
  import opened ConfigFile

  /** The C string that starts at `pos`. */
  function Rest(b: seq<byte>, pos: nat): (s: seq<byte>)
    requires pos <= |b|
    ensures 0 !in s
  {
    CString(b[pos..])
  }

  predicate Terminated(b: seq<byte>, pos: nat) { pos < |b| && |Rest(b, pos)| < |b| - pos }

  /** Where the C string at `pos` ends. */
  function EndOf(b: seq<byte>, pos: nat): (z: nat)
    requires Terminated(b, pos)
    ensures pos <= z < |b| && b[z] == 0 && Rest(b, pos) == b[pos..z]
    ensures forall k :: pos <= k < z ==> b[k] != 0
  {
    var z := pos + |Rest(b, pos)|;
    assert forall k :: pos <= k < z ==> b[k] == Rest(b, pos)[k - pos];
    z
  }

  /** Moving along a C string. */
  lemma {:induction false} RestFrom(b: seq<byte>, pos: nat, k: nat)
    requires Terminated(b, pos) && pos <= k <= EndOf(b, pos)
    ensures Terminated(b, k) && EndOf(b, k) == EndOf(b, pos)
    decreases k
  {
    if k > pos {
      RestFrom(b, pos, k - 1);
      assert b[k - 1] in b[pos..EndOf(b, pos)];
      assert b[k - 1..][1..] == b[k..];
    }
  }

  /** The bytes after a cut do not see it. */
  lemma RestAfter(b: seq<byte>, b': seq<byte>, pos: nat)
    requires pos <= |b| == |b'| && b[pos..] == b'[pos..]
    ensures Rest(b', pos) == Rest(b, pos) && (Terminated(b', pos) <==> Terminated(b, pos))
  {
  }

  lemma {:induction false} SkipTokens(s: seq<byte>, n: nat)
    requires n <= |s| && forall k :: 0 <= k < n ==> s[k] == NEWLINE
    ensures Tokens(s) == Tokens(s[n..])
    decreases n
  {
    if n > 0 {
      SkipTokens(s[1..], n - 1);
      assert s[1..][n - 1..] == s[n..];
    }
  }

  lemma TokenSplit(s: seq<byte>, n: nat)
    requires s != [] && s[0] != NEWLINE && n <= |s| && NEWLINE !in s[..n] && (n < |s| ==> s[n] == NEWLINE)
    ensures n > 0 && Tokens(s) == [s[..n]] + Tokens(if n < |s| then s[n + 1..] else [])
  {
    if n < |s| {
      IndexOfUnique(s, NEWLINE, n);
      assert s[n..][1..] == s[n + 1..];
    } else {
      assert s[..n] == s && IndexOf(s, NEWLINE) == n;
      assert s[n..] == [];
    }
  }

  method SkipNewlines(buf: array<byte>, pos: nat) returns (i: nat)
    requires Terminated(buf[..], pos)
    ensures pos <= i <= EndOf(buf[..], pos) && buf[i] != NEWLINE && forall k :: pos <= k < i ==> buf[k] == NEWLINE
  {
    hide Terminated;
    i := pos;
    while buf[i] == NEWLINE
      invariant pos <= i <= EndOf(buf[..], pos) && forall k :: pos <= k < i ==> buf[k] == NEWLINE
      decreases buf.Length - i
    {
      i := i + 1;
    }
  }

  method TokenEnd(buf: array<byte>, start: nat) returns (end: nat)
    requires Terminated(buf[..], start)
    ensures start <= end <= EndOf(buf[..], start) && (buf[end] == 0 || buf[end] == NEWLINE)
    ensures forall k :: start <= k < end ==> buf[k] != NEWLINE && buf[k] != 0
  {
    hide Terminated;
    end := start;
    while buf[end] != 0 && buf[end] != NEWLINE
      invariant start <= end <= EndOf(buf[..], start)
      invariant forall k :: start <= k < end ==> buf[k] != NEWLINE && buf[k] != 0
      decreases buf.Length - end
    {
      end := end + 1;
    }
  }

  /** What the scan of a token means for the tokens of the string. */
  lemma TokenFound(b: seq<byte>, pos: nat, start: nat, end: nat)
    requires Terminated(b, pos) && pos <= start <= end <= EndOf(b, pos)
    requires forall k :: pos <= k < start ==> b[k] == NEWLINE
    requires b[start] != NEWLINE && (b[end] == 0 || b[end] == NEWLINE)
    requires forall k :: start <= k < end ==> b[k] != NEWLINE && b[k] != 0
    ensures b[start] == 0 ==> Tokens(Rest(b, pos)) == []
    ensures b[start] != 0 ==>
      var state := if b[end] == NEWLINE then end + 1 else end;
      start < end && Terminated(b, state) && Tokens(Rest(b, pos)) == [b[start..end]] + Tokens(Rest(b, state))
  {
    hide Rest, Terminated, Tokens, EndOf;
    var z, s := EndOf(b, pos), Rest(b, pos);
    SkipTokens(s, start - pos);
    assert s[start - pos..] == b[start..z];
    if b[start] == 0 {
      NoTokens();
    } else {
      TokenHere(b, pos, start, end);
    }
  }

  lemma NoTokens()
    ensures Tokens([]) == []
  {
  }

  lemma TokenHere(b: seq<byte>, pos: nat, start: nat, end: nat)
    requires Terminated(b, pos) && pos <= start <= end <= EndOf(b, pos)
    requires b[start] != NEWLINE && b[start] != 0 && (b[end] == 0 || b[end] == NEWLINE)
    requires forall k :: start <= k < end ==> b[k] != NEWLINE
    ensures var state := if b[end] == NEWLINE then end + 1 else end;
            && start < end && Terminated(b, state)
            && Tokens(b[start..EndOf(b, pos)]) == [b[start..end]] + Tokens(Rest(b, state))
  {
    hide Rest, Terminated, Tokens, EndOf;
    var z, n := EndOf(b, pos), end - start;
    assert b[start..z][..n] == b[start..end];
    TokenSplit(b[start..z], n);
    RestFrom(b, pos, end);
    if b[end] == NEWLINE {
      RestFrom(b, pos, end + 1);
      assert b[start..z][n + 1..] == b[end + 1..z];
    }
  }

  /** `strtok_r(…, "\n", …)`: the next token is `buf[start..end]`, ended by a NUL. */
  method NextToken(buf: array<byte>, pos: nat) returns (start: int, end: nat, state: nat)
    requires Terminated(buf[..], pos)
    modifies buf
    ensures start < 0 ==> Tokens(old(Rest(buf[..], pos))) == []
    ensures start >= 0 ==> pos <= start < end <= state < buf.Length && buf[end] == 0 && Terminated(buf[..], state)
    ensures start >= 0 ==> Tokens(old(Rest(buf[..], pos))) == [buf[start..end]] + Tokens(Rest(buf[..], state))
    ensures start >= 0 ==> Clean(buf[start..end])
  {
    hide Rest, Tokens, Terminated;
    ghost var b := buf[..];
    start := SkipNewlines(buf, pos);
    RestFrom(b, pos, start);
    end := TokenEnd(buf, start);
    TokenFound(b, pos, start, end);
    if buf[start] == 0 { return -1, end, end; }
    if buf[end] == NEWLINE {
      buf[end] := 0;
      state := end + 1;
      assert buf[..][state..] == b[state..];
      RestAfter(b, buf[..], state);
    } else {
      state := end;
    }
    assert buf[start..end] == b[start..end];
  }

  // ---- Lines in the buffer ----

  /** The file's bytes, as far as the buffer goes, and a NUL. */
  method Load(text: seq<byte>) returns (buf: array<byte>)
    ensures fresh(buf) && buf.Length == BUFFER_SIZE && Terminated(buf[..], 0) && Rest(buf[..], 0) == Visible(text)
  {
    var n := if |text| < BUFFER_SIZE then |text| else BUFFER_SIZE - 1;
    buf := new byte[BUFFER_SIZE](i => 0);
    var k := 0;
    while k < n
      invariant 0 <= k <= n && buf[..k] == text[..k] && forall m :: k <= m < BUFFER_SIZE ==> buf[m] == 0
    {
      buf[k] := text[k];
      k := k + 1;
    }
    assert buf[..] == text[..n] + buf[n..] && buf[..][0..] == buf[..] && text[..|text|] == text;
    CStringCut(text[..n], buf[n..]);
  }

  lemma {:induction false} CStringCut(s: seq<byte>, t: seq<byte>)
    requires t != [] && t[0] == 0
    ensures CString(s + t) == CString(s) && |CString(s)| < |s + t|
    decreases |s|
  {
    if s == [] {
      assert s + t == t;
    } else {
      assert (s + t)[1..] == s[1..] + t;
      CStringCut(s[1..], t);
    }
  }

  /** A trailing carriage return is cut off the token. */
  method EndLine(buf: array<byte>, start: nat, end: nat) returns (stop: nat)
    requires start < end < buf.Length
    modifies buf
    ensures start <= stop <= end && buf[start..stop] == StripReturn(old(buf[start..end]))
    ensures buf[..][end..] == old(buf[..][end..])
  {
    ghost var line := buf[start..end];
    if buf[end - 1] == RETURN {
      buf[end - 1] := 0;
      stop := end - 1;
      assert buf[start..stop] == line[..|line| - 1];
    } else {
      stop := end;
    }
  }

  method FindEquals(buf: array<byte>, start: nat, stop: nat) returns (d: nat)
    requires start <= stop <= buf.Length
    ensures start <= d <= stop && d - start == IndexOf(buf[start..stop], EQUALS)
  {
    d := start;
    while d < stop && buf[d] != EQUALS
      invariant start <= d <= stop && EQUALS !in buf[start..d]
    {
      assert buf[start..d + 1] == buf[start..d] + [buf[d]];
      d := d + 1;
    }
    ghost var s, n := buf[start..stop], d - start;
    assert s[..n] == buf[start..d];
    if d < stop { IndexOfUnique(s, EQUALS, n); }
  }

  /** Does the line set `param`? If so its value starts after `d`. */
  method Matches(buf: array<byte>, start: nat, stop: nat, param: seq<byte>) returns (ok: bool, d: nat)
    requires start <= stop <= buf.Length
    ensures ok <==> Sets(buf[start..stop], param)
    ensures ok ==> start <= d < stop && buf[d + 1..stop] == Parse(buf[start..stop]).value && buf[start..d] == param
  {
    hide IndexOf;
    ok, d := false, start;
    if start < stop && buf[start] != HASH {
      d := FindEquals(buf, start, stop);
      if d < stop {
        ghost var l, n := buf[start..stop], d - start;
        assert l[..n] == buf[start..d] && l[n + 1..] == buf[d + 1..stop];
        ok := buf[start..d] == param;
      }
    }
  }

  // ---- The two commands ----

  lemma FirstLine(t: seq<byte>, ts: seq<seq<byte>>, p: seq<byte>)
    ensures var l, ls := StripReturn(t), Stripped(ts);
            && Stripped([t] + ts) == [l] + ls
            && Find([l] + ls, p) == if Sets(l, p) then Some(Parse(l).value) else Find(ls, p)
  {
    assert ([t] + ts)[1..] == ts;
    var l, ls := StripReturn(t), Stripped(ts);
    assert ([l] + ls)[1..] == ls;
  }

  /** `read_param_config`; an empty file is an error. */
  method ReadParam(text: seq<byte>, param: seq<byte>) returns (r: Option<Option<seq<byte>>>)
    ensures r == if text == [] then None else Some(Lookup(text, param))
  {
    if text == [] { return None; }
    var buf := Load(text);
    var state := 0;
    while true
      invariant buf.Length == BUFFER_SIZE && Terminated(buf[..], state)
      invariant Find(Stripped(Tokens(Rest(buf[..], state))), param) == Lookup(text, param)
      decreases buf.Length - state
    {
      hide Rest, Terminated, Tokens, Sets, Parse, Find, Stripped, Lookup;
      ghost var ts := Tokens(Rest(buf[..], state));
      var start, end, next := NextToken(buf, state);
      if start < 0 {
        NothingFound(param);
        return Some(None);
      }
      ghost var t, b := buf[start..end], buf[..];
      var stop := EndLine(buf, start, end);
      RestLater(b, buf[..], end, next);
      FirstLine(t, Tokens(Rest(buf[..], next)), param);
      var ok, d := Matches(buf, start, stop, param);
      if ok { return Some(Some(buf[d + 1..stop])); }
      state := next;
    }
  }

  lemma NothingFound(param: seq<byte>)
    ensures Find(Stripped([]), param) == None
  {
  }

  lemma RestLater(b: seq<byte>, b': seq<byte>, end: nat, next: nat)
    requires end <= next <= |b| == |b'| && b[end..] == b'[end..]
    ensures Rest(b', next) == Rest(b, next) && (Terminated(b', next) <==> Terminated(b, next))
  {
    assert b[next..] == b[end..][next - end..] && b'[next..] == b'[end..][next - end..];
    RestAfter(b, b', next);
  }

  /** With the tokens `ts` still to come after `k` lines, `out` is on the way to the tool's output. */
  ghost predicate UnderWay(text: seq<byte>, p: seq<byte>, v: seq<byte>, junk: Junk,
                           out: seq<byte>, found: bool, k: nat, ts: seq<seq<byte>>)
  {
    && out + Emitted(Stripped(ts), p, v, k, junk) == Emitted(Lines(text), p, v, 0, junk)
    && (found || Find(Stripped(ts), p).Some? <==> Lookup(text, p).Some?) && k + |ts| == |Lines(text)|
  }

  function LineOut(l: seq<byte>, p: seq<byte>, v: seq<byte>, k: nat, junk: Junk): (w: seq<byte>)
  {
    if Sets(l, p) then Printed(p, v, k, junk) else l + [NEWLINE]
  }

  lemma UnderWayStarts(text: seq<byte>, p: seq<byte>, v: seq<byte>, junk: Junk)
    ensures UnderWay(text, p, v, junk, [], false, 0, Tokens(Visible(text)))
  {
    assert [] + Emitted(Lines(text), p, v, 0, junk) == Emitted(Lines(text), p, v, 0, junk);
  }

  lemma UnderWayStep(text: seq<byte>, p: seq<byte>, v: seq<byte>, junk: Junk,
                     out: seq<byte>, found: bool, k: nat, t: seq<byte>, ts: seq<seq<byte>>)
    requires UnderWay(text, p, v, junk, out, found, k, [t] + ts)
    ensures var l := StripReturn(t);
            UnderWay(text, p, v, junk, out + LineOut(l, p, v, k, junk), found || Sets(l, p), k + 1, ts)
  {
    hide Stripped, Find, Sets, Lines, Printed;
    FirstLine(t, ts, p);
    var l, ls := StripReturn(t), Stripped(ts);
    assert ([l] + ls)[1..] == ls;
    var w, rest := LineOut(l, p, v, k, junk), Emitted(ls, p, v, k + 1, junk);
    assert out + (w + rest) == out + w + rest;
  }

  lemma UnderWayEnds(text: seq<byte>, p: seq<byte>, v: seq<byte>, junk: Junk, out: seq<byte>, found: bool, k: nat)
    requires UnderWay(text, p, v, junk, out, found, k, []) && text != []
    ensures Output(text, p, v, junk) == Some(if found then out else out + Printed(p, v, k, junk))
  {
    hide Lines, Printed;
    assert out + [] == out;
  }

  /** The loop of `write_param_config`: what it has put into the temporary file when it gets to
      fsync. `junk` is what lies behind its line buffer. */
  method WriteParam(text: seq<byte>, p: seq<byte>, v: seq<byte>, junk: Junk) returns (r: Option<seq<byte>>)
    ensures r == Output(text, p, v, junk)
  {
    if text == [] { return None; }
    var buf := Load(text);
    var state, found, k := 0, false, 0;
    var out: seq<byte> := [];
    UnderWayStarts(text, p, v, junk);
    hide Rest, Terminated, Tokens, Sets, Parse, UnderWay, Printed, Output, Lines, Lookup;
    while true
      invariant buf.Length == BUFFER_SIZE && Terminated(buf[..], state) && k >= 0
      invariant UnderWay(text, p, v, junk, out, found, k, Tokens(Rest(buf[..], state)))
      decreases buf.Length - state
    {
      var start, end, next := NextToken(buf, state);
      if start < 0 { break; }
      ghost var t, b := buf[start..end], buf[..];
      var stop := EndLine(buf, start, end);
      RestLater(b, buf[..], end, next);
      UnderWayStep(text, p, v, junk, out, found, k, t, Tokens(Rest(buf[..], next)));
      var ok, d := Matches(buf, start, stop, p);
      out := out + (if ok then Printed(p, v, k, junk) else buf[start..stop] + [NEWLINE]);
      found, k, state := found || ok, k + 1, next;
    }
    UnderWayEnds(text, p, v, junk, out, found, k);
    if !found {
      out := out + Printed(p, v, k, junk);
    }
    return Some(out);
  }
}

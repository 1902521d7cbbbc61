/** The printer of gateway/src/cJSON.c in its own form: a growing or preallocated buffer, an
    offset moved by strlen, and a nesting depth. */
module JsonPrinter {
  import opened Bytes
  import opened Json
  import Utf

  /** `b` with `t` written over it at offset `at`. */
  function Splice(b: seq<byte>, at: nat, t: seq<byte>): (r: seq<byte>)
    requires at + |t| <= |b|
    ensures |r| == |b| && r[..at] == b[..at] && r[at..at + |t|] == t
  {
    b[..at] + t + b[at + |t|..]
  }

  /** `b` starts with the text `out`, NUL-terminated. */
  ghost predicate Shows(b: seq<byte>, out: seq<byte>)
  {
    |out| < |b| && b[..|out|] == out && b[|out|] == 0
  }

  lemma SpliceShows(b: seq<byte>, at: nat, t: seq<byte>)
    requires at + |t| + 1 <= |b|
    ensures Shows(Splice(b, at, t + [0]), b[..at] + t)
  {
    var r := Splice(b, at, t + [0]);
    assert r[..at + |t|] == b[..at] + t;
  }

  lemma OnlyNul(b: seq<byte>, before: seq<byte>, t: seq<byte>, i: nat)
    requires Shows(b, before + t) && 0 !in t && |before| <= i <= |before| + |t|
    ensures b[i] == 0 <==> i == |before| + |t|
  {
    if i < |before| + |t| { assert b[i] == (before + t)[i] == t[i - |before|] && t[i - |before|] in t; }
  }

  // ---- Printed texts hold no NUL, so strlen finds their end ----

  lemma DigitsNulFree(n: nat)
    ensures 0 !in Digits(n)
  {
    var t := Digits(n);
    assert forall i :: 0 <= i < |t| ==> t[i] != 0;
  }

  lemma EscapeNulFree(b: byte)
    requires b != 0
    ensures 0 !in Escape(b)
  {
  }

  lemma {:induction false} EscapeAllNulFree(s: seq<byte>)
    requires 0 !in s
    ensures 0 !in EscapeAll(s)
    decreases |s|
  {
    if s != [] {
      EscapeNulFree(s[0]);
      EscapeAllNulFree(s[1..]);
    }
  }

  lemma {:induction false} TextNulFree(v: Json, depth: nat, fmt: bool)
    requires Printable(v)
    ensures 0 !in Text(v, depth, fmt)
    decreases v, 1
  {
    match v
    case Number(d) => var n := ValueInt(d); DigitsNulFree(if n < 0 then -n else n);
    case String(s) => EscapeAllNulFree(s);
    case Array(items) => ItemsNulFree(items, depth + 1, fmt);
    case Object(members) => MembersNulFree(members, depth + 1, fmt);
    case _ =>
  }

  lemma {:induction false} ItemsNulFree(items: seq<Json>, depth: nat, fmt: bool)
    requires PrintableItems(items)
    ensures 0 !in ItemsText(items, depth, fmt)
    decreases items, 0
  {
    if items != [] {
      TextNulFree(items[0], depth, fmt);
      ItemsNulFree(items[1..], depth, fmt);
    }
  }

  lemma {:induction false} MembersNulFree(members: seq<Member>, depth: nat, fmt: bool)
    requires PrintableMembers(members)
    ensures 0 !in MembersText(members, depth, fmt)
    decreases members, 0
  {
    if members != [] {
      EscapeAllNulFree(members[0].name);
      TextNulFree(members[0].value, depth, fmt);
      MembersNulFree(members[1..], depth, fmt);
    }
  }

  lemma {:induction false} EscapeAllSplit(s: seq<byte>, t: seq<byte>)
    ensures EscapeAll(s + t) == EscapeAll(s) + EscapeAll(t)
    decreases |s|
  {
    hide Escape;
    if s == [] {
      assert s + t == t;
    } else {
      EscapeAllSplit(s[1..], t);
      assert (s + t)[1..] == s[1..] + t && (s + t)[0] == s[0];
      assert Escape(s[0]) + (EscapeAll(s[1..]) + EscapeAll(t)) == Escape(s[0]) + EscapeAll(s[1..]) + EscapeAll(t);
    }
  }

  class PrintBuffer {
    var buffer: seq<byte>
    var offset: nat
    var depth: nat
    const format: bool
    const noalloc: bool
    /** Whatever realloc leaves in the bytes it adds. */
    const junk: nat -> byte

    ghost predicate Valid()
      reads this
    {
      && depth <= NESTING_LIMIT && |buffer| <= INT_MAX
      && (offset < |buffer| || (offset == 0 && buffer == []))
    }

    /** The bytes the buffer may come to hold. */
    ghost function Room(): (n: nat)
      reads this
    {
      if noalloc then |buffer| else INT_MAX
    }

    /** `cJSON_Print`, `cJSON_PrintBuffered` and `cJSON_PrintPreallocated` start here. */
    constructor (initial: seq<byte>, format: bool, noalloc: bool, junk: nat -> byte)
      requires |initial| <= INT_MAX
      ensures Valid() && buffer == initial && offset == 0 && depth == 0
      ensures this.format == format && this.noalloc == noalloc
    {
      buffer, offset, depth := initial, 0, 0;
      this.format, this.noalloc, this.junk := format, noalloc, junk;
    }

    /** The text printed so far. */
    ghost function Out(): (s: seq<byte>)
      reads this
      requires Valid()
    {
      buffer[..offset]
    }

    /** `ensure`: room for `needed` more bytes and a NUL, growing the buffer if allowed. */
    method Ensure(needed: nat) returns (ok: bool)
      requires Valid()
      modifies this`buffer
      ensures Valid() && Room() == old(Room()) && old(buffer) <= buffer && Out() == old(Out())
      ensures ok <==> offset + needed + 1 <= Room()
      ensures ok ==> offset + needed + 1 <= |buffer|
    {
      if |buffer| > 0 && offset >= |buffer| {
        return false;
      }
      if needed > INT_MAX {
        return false;
      }
      var total := needed + offset + 1;
      if total <= |buffer| {
        return true;
      }
      if noalloc {
        return false;
      }
      var size;
      if total > INT_MAX / 2 {
        if total > INT_MAX {
          return false;
        }
        size := INT_MAX;
      } else {
        size := total * 2;
      }
      var more := size - |buffer|;
      buffer := buffer + seq(more, i requires 0 <= i => junk(i));
      return true;
    }

    /** `update_offset`: to the NUL, which ends the text `t` just printed after `before`. */
    method UpdateOffset(ghost before: seq<byte>, ghost t: seq<byte>)
      requires Valid() && Shows(buffer, before + t) && 0 !in t && |before| <= offset <= |before| + |t|
      modifies this`offset
      ensures Valid() && Out() == before + t
    {
      var i := offset;
      OnlyNul(buffer, before, t, i);
      while buffer[i] != 0
        invariant offset <= i <= |before| + |t| && offset == old(offset)
        invariant buffer[i] == 0 <==> i == |before| + |t|
        decreases |before| + |t| - i
      {
        i := i + 1;
        OnlyNul(buffer, before, t, i);
      }
      offset := i;
    }

    /** Writes `t` at the offset and moves past it. */
    method Put(t: seq<byte>)
      requires Valid() && offset + |t| < |buffer|
      modifies this`buffer, this`offset
      ensures Valid() && Room() == old(Room()) && |buffer| == |old(buffer)| && Out() == old(Out()) + t
    {
      buffer := Splice(buffer, offset, t);
      offset := offset + |t|;
    }

    /** `print_string_ptr`: a counting pass sizes the output, a second pass writes it. */
    method PrintString(s: seq<byte>) returns (ok: bool)
      requires Valid() && 0 !in s
      modifies this`buffer
      ensures Valid() && Room() == old(Room())
      ensures ok <==> offset + |Quote(s)| + 2 <= Room()
      ensures ok ==> Shows(buffer, old(Out()) + Quote(s))
    {
      hide EscapeAll, Splice, Shows;
      var escapes := CountEscapes(s);
      var outputLength := |s| + escapes;
      ok := Ensure(outputLength + 3);
      if !ok {
        return;
      }
      if escapes == 0 {
        NoEscapes(s);
        assert Quote(s) + [0] == [QUOTE] + s + [QUOTE] + [0];
        SpliceShows(buffer, offset, Quote(s));
        buffer := Splice(buffer, offset, [QUOTE] + s + [QUOTE] + [0]);
        return;
      }
      var b := Splice(buffer, offset, [QUOTE]);
      b := WriteEscaped(b, offset + 1, s);
      SpliceTwice(buffer, offset, [QUOTE], EscapeAll(s));
      b := Splice(b, offset + 1 + outputLength, [QUOTE, 0]);
      SpliceTwice(buffer, offset, [QUOTE] + EscapeAll(s), [QUOTE, 0]);
      assert Quote(s) + [0] == [QUOTE] + EscapeAll(s) + [QUOTE, 0];
      SpliceShows(buffer, offset, Quote(s));
      buffer := b;
    }

    /** `print_number`, for integers. */
    method PrintNumber(d: real) returns (ok: bool)
      requires Valid() && d == ValueInt(d) as real
      modifies this`buffer, this`offset
      ensures Valid() && Room() == old(Room())
      ensures ok <==> old(offset) + |Decimal(ValueInt(d))| + 2 <= Room()
      ensures ok ==> Shows(buffer, old(Out()) + Decimal(ValueInt(d))) && Out() == old(Out()) + Decimal(ValueInt(d))
    {
      hide Decimal, Splice;
      var t := Decimal(ValueInt(d));
      ok := Ensure(|t| + 1);
      if ok {
        SpliceShows(buffer, offset, t);
        buffer := Splice(buffer, offset, t + [0]);
        offset := offset + |t|;
      }
    }

    /** A fixed text, as the words and closing brackets are written: `ensure` asks for it and its NUL. */
    method PrintWord(w: seq<byte>) returns (ok: bool)
      requires Valid()
      modifies this`buffer
      ensures Valid() && Room() == old(Room())
      ensures ok <==> offset + |w| + 2 <= Room()
      ensures ok ==> Shows(buffer, old(Out()) + w)
    {
      hide Splice;
      ok := Ensure(|w| + 1);
      if ok {
        SpliceShows(buffer, offset, w);
        buffer := Splice(buffer, offset, w + [0]);
      }
    }

    /** `print_value`. It succeeds exactly when the nesting limit is kept and the text, its NUL and
        one spare byte fit; then the buffer shows the text after what was there before. */
    method PrintValue(v: Json) returns (ok: bool)
      requires Valid() && Printable(v)
      modifies this`buffer, this`offset, this`depth
      ensures Room() == old(Room())
      ensures ok <==>
              old(depth) + Nesting(v) <= NESTING_LIMIT && old(offset) + |Text(v, old(depth), format)| + 2 <= Room()
      ensures ok ==> Valid() && depth == old(depth) && Shows(buffer, old(Out()) + Text(v, depth, format))
      ensures ok ==> old(offset) <= offset <= old(offset) + |Text(v, depth, format)|
      decreases v, 1
    {
      match v
      case Null => ok := PrintWord(NULL_TEXT);
      case False => ok := PrintWord(FALSE_TEXT);
      case True => ok := PrintWord(TRUE_TEXT);
      case Number(d) => ok := PrintNumber(d);
      case String(s) => ok := PrintString(s);
      case Array(items) => ok := PrintArray(items);
      case Object(members) => ok := PrintObject(members);
    }

    /** An element and, unless it is the last, the gap after it. */
    method PrintItem(v: Json, more: bool) returns (ok: bool)
      requires Valid() && Printable(v)
      modifies this`buffer, this`offset, this`depth
      ensures Room() == old(Room())
      ensures ok <==>
              && old(depth) + Nesting(v) <= NESTING_LIMIT
              && old(offset) + |ItemText(v, more, old(depth), format)| + 2 <= Room()
      ensures ok ==> Valid() && depth == old(depth) && Out() == old(Out()) + ItemText(v, more, depth, format)
      decreases v, 2
    {
      hide Text, Nesting, Shows;
      ghost var before, t := Out(), Text(v, depth, format);
      TextNulFree(v, depth, format);
      ok := PrintValue(v);
      if !ok {
        return;
      }
      UpdateOffset(before, t);
      if more {
        ok := Ensure(|ItemGap(format)| + 1);
        if !ok {
          return;
        }
        Put(ItemGap(format));
      }
    }

    /** The loop of `print_array`. */
    method PrintItems(items: seq<Json>) returns (ok: bool)
      requires Valid() && PrintableItems(items)
      modifies this`buffer, this`offset, this`depth
      ensures Room() == old(Room())
      ensures ok <== old(depth) + NestingItems(items) <= NESTING_LIMIT
                     && old(offset) + |ItemsText(items, old(depth), format)| + 2 <= Room()
      ensures ok ==> Valid() && depth == old(depth) && depth + NestingItems(items) <= NESTING_LIMIT
      ensures ok ==> Out() == old(Out()) + ItemsText(items, depth, format)
      decreases items, 0
    {
      hide Text, ItemsText, ItemText, Nesting, NestingItems;
      ghost var before, done := Out(), [];
      ItemsEnds(items, depth, format);
      ok := true;
      var i := 0;
      while i < |items|
        invariant 0 <= i <= |items| && Valid() && Room() == old(Room()) && depth == old(depth) && ok
        invariant Out() == before + done && PrintableItems(items[i..])
        invariant ItemsText(items, depth, format) == done + ItemsText(items[i..], depth, format)
        invariant depth + NestingItems(items) <= NESTING_LIMIT <==> depth + NestingItems(items[i..]) <= NESTING_LIMIT
      {
        ItemsStep(items, i, depth, format);
        ghost var t := ItemText(items[i], i + 1 < |items|, depth, format);
        ok := PrintItem(items[i], i + 1 < |items|);
        if !ok {
          return;
        }
        assert before + done + t == before + (done + t);
        done := done + t;
        i := i + 1;
      }
    }

    method PrintArray(items: seq<Json>) returns (ok: bool)
      requires Valid() && PrintableItems(items)
      modifies this`buffer, this`offset, this`depth
      ensures Room() == old(Room())
      ensures ok <==> (old(depth) + 1 + NestingItems(items) <= NESTING_LIMIT
                       && old(offset) + |Text(Array(items), old(depth), format)| + 2 <= Room())
      ensures ok ==> Valid() && depth == old(depth) && Shows(buffer, old(Out()) + Text(Array(items), depth, format))
      ensures ok ==> old(offset) <= offset <= old(offset) + |Text(Array(items), depth, format)|
      decreases items, 1
    {
      hide Text, ItemsText, NestingItems, Shows;
      if depth >= NESTING_LIMIT {
        return false;
      }
      ghost var before, body := Out(), ItemsText(items, depth + 1, format);
      ArrayText(items, depth, format);
      ok := Ensure(1);
      if !ok {
        return;
      }
      Put([LBRACKET]);
      depth := depth + 1;
      ok := PrintItems(items);
      if !ok {
        return;
      }
      ok := PrintWord([RBRACKET]);
      if ok {
        depth := depth - 1;
        assert before + [LBRACKET] + body + [RBRACKET] == before + ([LBRACKET] + body + [RBRACKET]);
      }
    }

    /** Indentation, key and colon. */
    method PrintKey(name: seq<byte>) returns (ok: bool)
      requires Valid() && 0 !in name
      modifies this`buffer, this`offset
      ensures Room() == old(Room())
      ensures ok <==> old(offset) + |MemberKey(name, depth, format)| + 1 <= Room()
      ensures ok ==> Valid() && Out() == old(Out()) + MemberKey(name, depth, format)
    {
      hide Quote, Tabs, Shows;
      ghost var before := Out();
      if format {
        ok := Ensure(depth);
        if !ok {
          return;
        }
        Put(Tabs(depth));
      }
      ghost var at := Out();
      QuoteNulFree(name);
      ok := PrintString(name);
      if !ok {
        return;
      }
      UpdateOffset(at, Quote(name));
      var colon := if format then [COLON, TAB] else [COLON];
      ok := Ensure(|colon|);
      if ok {
        Put(colon);
        ghost var indent := if format then Tabs(depth) else [];
        assert at == before + indent;
        assert before + indent + Quote(name) + colon == before + (indent + Quote(name) + colon);
      }
    }

    /** A member and what follows it: a comma unless it is the last, a newline if formatted. */
    method PrintMember(m: Member, more: bool) returns (ok: bool)
      requires Valid() && 0 !in m.name && Printable(m.value)
      modifies this`buffer, this`offset, this`depth
      ensures Room() == old(Room())
      ensures ok <==> (old(depth) + Nesting(m.value) <= NESTING_LIMIT
                       && old(offset) + |EntryText(m, more, old(depth), format)| + 2 <= Room())
      ensures ok ==> Valid() && depth == old(depth) && Out() == old(Out()) + EntryText(m, more, depth, format)
      decreases m, 2
    {
      hide Text, Nesting, Shows, MemberKey;
      ghost var before, key, t := Out(), MemberKey(m.name, depth, format), Text(m.value, depth, format);
      TextNulFree(m.value, depth, format);
      TextNonEmpty(m.value, depth, format);
      ok := PrintKey(m.name);
      if !ok {
        return;
      }
      ok := PrintValue(m.value);
      if !ok {
        return;
      }
      UpdateOffset(before + key, t);
      var end := MemberEnd(more, format);
      ok := Ensure(|end| + 1);
      if ok {
        Put(end);
        assert before + key + t + end == before + (key + t + end);
      }
    }

    /** The loop of `print_object`. */
    method PrintMembers(members: seq<Member>) returns (ok: bool)
      requires Valid() && PrintableMembers(members)
      modifies this`buffer, this`offset, this`depth
      ensures Room() == old(Room())
      ensures ok <== old(depth) + NestingMembers(members) <= NESTING_LIMIT
                     && old(offset) + |MembersText(members, old(depth), format)| + 2 <= Room()
      ensures ok ==> Valid() && depth == old(depth) && depth + NestingMembers(members) <= NESTING_LIMIT
      ensures ok ==> Out() == old(Out()) + MembersText(members, depth, format)
      decreases members, 0
    {
      hide Text, MembersText, EntryText, Nesting, NestingMembers;
      ghost var before, done := Out(), [];
      MembersEnds(members, depth, format);
      ok := true;
      var i := 0;
      while i < |members|
        invariant 0 <= i <= |members| && Valid() && Room() == old(Room()) && depth == old(depth) && ok
        invariant Out() == before + done && PrintableMembers(members[i..])
        invariant MembersText(members, depth, format) == done + MembersText(members[i..], depth, format)
        invariant depth + NestingMembers(members) <= NESTING_LIMIT <==>
                  depth + NestingMembers(members[i..]) <= NESTING_LIMIT
      {
        MembersStep(members, i, depth, format);
        ghost var t := EntryText(members[i], i + 1 < |members|, depth, format);
        ok := PrintMember(members[i], i + 1 < |members|);
        if !ok {
          return;
        }
        assert before + done + t == before + (done + t);
        done := done + t;
        i := i + 1;
      }
    }

    method PrintObject(members: seq<Member>) returns (ok: bool)
      requires Valid() && PrintableMembers(members)
      modifies this`buffer, this`offset, this`depth
      ensures Room() == old(Room())
      ensures ok <==> (old(depth) + 1 + NestingMembers(members) <= NESTING_LIMIT
                       && old(offset) + |Text(Object(members), old(depth), format)| + 2 <= Room())
      ensures ok ==> Valid() && depth == old(depth) && Shows(buffer, old(Out()) + Text(Object(members), depth, format))
      ensures ok ==> old(offset) <= offset <= old(offset) + |Text(Object(members), depth, format)|
      decreases members, 1
    {
      hide Text, MembersText, NestingMembers, Shows, Tabs;
      if depth >= NESTING_LIMIT {
        return false;
      }
      ghost var before, body := Out(), MembersText(members, depth + 1, format);
      ObjectText(members, depth, format);
      var open := if format then [LBRACE, NEWLINE] else [LBRACE];
      var close := if format then Tabs(depth) + [RBRACE] else [RBRACE];
      ok := Ensure(|open| + 1);
      if !ok {
        return;
      }
      Put(open);
      depth := depth + 1;
      ok := PrintMembers(members);
      if !ok {
        return;
      }
      ok := PrintWord(close);
      if ok {
        depth := depth - 1;
        assert before + open + body + close == before + (open + body + close);
      }
    }
  }

  datatype Printed = Refused | Printed(text: seq<byte>)

  /** `cJSON_Print` and `cJSON_PrintUnformatted`: a buffer of 256 bytes that grows as needed. */
  method Print(v: Json, format: bool, junk: nat -> byte) returns (r: Printed)
    requires Printable(v)
    ensures r.Printed? <==> Nesting(v) <= NESTING_LIMIT && |Text(v, 0, format)| + 2 <= INT_MAX
    ensures r.Printed? ==> r.text == Text(v, 0, format)
  {
    var p := new PrintBuffer(seq(256, i requires 0 <= i => junk(i)), format, false, junk);
    var ok := p.PrintValue(v);
    if !ok {
      return Refused;
    }
    TextNulFree(v, 0, format);
    assert [] + Text(v, 0, format) == Text(v, 0, format);
    p.UpdateOffset([], Text(v, 0, format));
    return Printed(p.buffer[..p.offset]);
  }

  lemma CStringAt(b: seq<byte>, t: seq<byte>)
    requires 0 !in t && |t| < |b| && b[..|t|] == t && b[|t|] == 0
    ensures CString(b) == t
  {
    assert b == t + [0] + b[|t| + 1..];
    CStringOfNulFree(t, b[|t| + 1..]);
  }

  /** `cJSON_PrintPreallocated`: two bytes more than the text are enough, and needed. */
  method PrintPreallocated(v: Json, buffer: seq<byte>, format: bool) returns (ok: bool, after: seq<byte>)
    requires Printable(v) && |buffer| <= INT_MAX
    ensures ok <==> Nesting(v) <= NESTING_LIMIT && |Text(v, 0, format)| + 2 <= |buffer|
    ensures |after| == |buffer|
    ensures ok ==> CString(after) == Text(v, 0, format)
  {
    var p := new PrintBuffer(buffer, format, true, i => 0);
    ok := p.PrintValue(v);
    after := p.buffer;
    if ok {
      hide Text;
      TextNulFree(v, 0, format);
      assert [] + Text(v, 0, format) == Text(v, 0, format);
      CStringAt(after, Text(v, 0, format));
    }
  }

  function ItemText(v: Json, more: bool, depth: nat, fmt: bool): (t: seq<byte>)
    requires Printable(v)
  {
    Text(v, depth, fmt) + (if more then ItemGap(fmt) else [])
  }

  function EntryText(m: Member, more: bool, depth: nat, fmt: bool): (t: seq<byte>)
    requires 0 !in m.name && Printable(m.value)
  {
    MemberKey(m.name, depth, fmt) + Text(m.value, depth, fmt) + MemberEnd(more, fmt)
  }

  lemma QuoteNulFree(s: seq<byte>)
    requires 0 !in s
    ensures 0 !in Quote(s)
  {
    EscapeAllNulFree(s);
  }

  lemma ObjectText(members: seq<Member>, depth: nat, fmt: bool)
    requires PrintableMembers(members)
    ensures Text(Object(members), depth, fmt)
         == (if fmt then [LBRACE, NEWLINE] else [LBRACE]) + MembersText(members, depth + 1, fmt)
            + (if fmt then Tabs(depth) + [RBRACE] else [RBRACE])
  {
    hide MembersText, Tabs;
  }

  lemma MembersEnds(members: seq<Member>, depth: nat, fmt: bool)
    requires PrintableMembers(members)
    ensures members[0..] == members && MembersText([], depth, fmt) == [] && NestingMembers([]) == 0
  {
  }

  /** Text and nesting of the members from `i` on, one member at a time. */
  lemma MembersStep(members: seq<Member>, i: nat, depth: nat, fmt: bool)
    requires i < |members| && PrintableMembers(members[i..])
    ensures 0 !in members[i].name && Printable(members[i].value) && PrintableMembers(members[i + 1..])
    ensures MembersText(members[i..], depth, fmt)
         == EntryText(members[i], i + 1 < |members|, depth, fmt) + MembersText(members[i + 1..], depth, fmt)
    ensures NestingMembers(members[i..]) == Max(Nesting(members[i].value), NestingMembers(members[i + 1..]))
  {
    hide Text, Nesting, MemberKey, MemberEnd;
    var s := members[i..];
    assert s[1..] == members[i + 1..] && s[0] == members[i];
  }

  lemma ArrayText(items: seq<Json>, depth: nat, fmt: bool)
    requires PrintableItems(items)
    ensures Text(Array(items), depth, fmt) == [LBRACKET] + ItemsText(items, depth + 1, fmt) + [RBRACKET]
  {
    hide ItemsText;
  }

  lemma ItemsEnds(items: seq<Json>, depth: nat, fmt: bool)
    requires PrintableItems(items)
    ensures items[0..] == items && ItemsText([], depth, fmt) == [] && NestingItems([]) == 0
  {
  }

  /** Text and nesting of the elements from `i` on, one element at a time. */
  lemma ItemsStep(items: seq<Json>, i: nat, depth: nat, fmt: bool)
    requires i < |items| && PrintableItems(items[i..])
    ensures Printable(items[i]) && PrintableItems(items[i + 1..])
    ensures ItemsText(items[i..], depth, fmt)
         == ItemText(items[i], i + 1 < |items|, depth, fmt) + ItemsText(items[i + 1..], depth, fmt)
    ensures NestingItems(items[i..]) == Max(Nesting(items[i]), NestingItems(items[i + 1..]))
  {
    hide Text, Nesting, ItemGap;
    var s := items[i..];
    assert s[1..] == items[i + 1..] && s[0] == items[i];
  }

  lemma TextNonEmpty(v: Json, depth: nat, fmt: bool)
    requires Printable(v)
    ensures Text(v, depth, fmt) != []
  {
    hide ItemsText, MembersText, EscapeAll, Digits;
  }

  /** The copying pass: the escaped form of `s`, byte by byte from offset `at` on. */
  method WriteEscaped(b: seq<byte>, at: nat, s: seq<byte>) returns (r: seq<byte>)
    requires at + |EscapeAll(s)| <= |b|
    ensures r == Splice(b, at, EscapeAll(s))
  {
    hide EscapeAll, Escape, Splice;
    r := b;
    var out := at;
    EscapeAllEnds(s);
    SpliceNone(b, at);
    for i := 0 to |s|
      invariant out == at + |EscapeAll(s[..i])| && out + |EscapeAll(s[i..])| == at + |EscapeAll(s)|
      invariant r == Splice(b, at, EscapeAll(s[..i]))
    {
      var e := Escape(s[i]);
      EscapeAllStep(s, i);
      SpliceTwice(b, at, EscapeAll(s[..i]), e);
      r := Splice(r, out, e);
      out := out + |e|;
    }
  }

  lemma EscapeAllStep(s: seq<byte>, i: nat)
    requires i < |s|
    ensures EscapeAll(s[..i + 1]) == EscapeAll(s[..i]) + Escape(s[i])
    ensures EscapeAll(s[i..]) == Escape(s[i]) + EscapeAll(s[i + 1..])
  {
    hide Escape;
    assert s[..i + 1] == s[..i] + [s[i]] && s[i..][1..] == s[i + 1..];
    EscapeAllSplit(s[..i], [s[i]]);
    assert EscapeAll([s[i]]) == Escape(s[i]) + EscapeAll([]) == Escape(s[i]);
  }

  lemma EscapeAllEnds(s: seq<byte>)
    ensures s[..0] == [] && EscapeAll(s[..0]) == [] && s[0..] == s && s[..|s|] == s && EscapeAll(s[|s|..]) == []
  {
  }

  lemma SpliceNone(b: seq<byte>, at: nat)
    requires at <= |b|
    ensures Splice(b, at, []) == b
  {
  }

  lemma SpliceTwice(b: seq<byte>, at: nat, s: seq<byte>, t: seq<byte>)
    requires at + |s| + |t| <= |b|
    ensures Splice(Splice(b, at, s), at + |s|, t) == Splice(b, at, s + t)
  {
  }

  /** The counting pass: how much longer the escaped form of `s` is. */
  method CountEscapes(s: seq<byte>) returns (n: nat)
    ensures |s| + n == |EscapeAll(s)|
  {
    hide EscapeAll, Utf.UnitText;
    n := 0;
    EscapeAllEnds(s);
    for i := 0 to |s|
      invariant i + n == |EscapeAll(s[..i])|
    {
      EscapeAllStep(s, i);
      if s[i] in {QUOTE, BACKSLASH, 8, 12, 10, 13, 9} {
        n := n + 1;
      } else if s[i] < 32 {
        n := n + 5;
      }
    }
  }

  lemma {:induction false} NoEscapes(s: seq<byte>)
    requires |EscapeAll(s)| == |s|
    ensures EscapeAll(s) == s
    decreases |s|
  {
    if s != [] {
      EscapeAllLonger(s[1..]);
      NoEscapes(s[1..]);
    }
  }

  lemma {:induction false} EscapeAllLonger(s: seq<byte>)
    ensures |EscapeAll(s)| >= |s|
    decreases |s|
  {
    if s != [] { EscapeAllLonger(s[1..]); }
  }
}

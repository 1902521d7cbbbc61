/** The parser of gateway/src/cJSON.c in its own form: `offset` and `depth` move through the text,
    strings are decoded in two passes into a buffer sized by the first. */
module JsonParser {
  import opened Bytes
  import opened Json
  import opened JsonParse
  import opened Utf

  // ---- The size computed by the first pass of parse_string ----

  /** Backslash pairs that the first pass, standing at `j`, starts before `p`. */
  function Pairs(c: seq<byte>, j: nat, p: nat): (n: nat)
    requires p <= |c|
    decreases p - j
  {
    if j >= p then 0
    else if c[j] == BACKSLASH then 1 + Pairs(c, j + 2, p)
    else Pairs(c, j + 1, p)
  }

  /** Pairs start at least two bytes apart. */
  lemma {:induction false} PairsGrow(c: seq<byte>, j: nat, p: nat, k: nat)
    requires p + k <= |c|
    ensures Pairs(c, j, p) <= Pairs(c, j, p + k) <= Pairs(c, j, p) + (k + 1) / 2
    decreases p + k - j
  {
    if j < p {
      PairsGrow(c, if c[j] == BACKSLASH then j + 2 else j + 1, p, k);
    } else if j < p + k {
      PairsSparse(c, j, p + k);
    }
  }

  lemma {:induction false} PairsSparse(c: seq<byte>, j: nat, p: nat)
    requires j <= p <= |c|
    ensures Pairs(c, j, p) <= (p - j + 1) / 2
    decreases p - j
  {
    if j < p {
      var j' := if c[j] == BACKSLASH then j + 2 else j + 1;
      if j' <= p { PairsSparse(c, j', p); }
    }
  }

  /** No pair starts on a byte other than a backslash. */
  lemma {:induction false} PairsPlain(c: seq<byte>, j: nat, p: nat)
    requires p < |c| && c[p] != BACKSLASH
    ensures Pairs(c, j, p + 1) == Pairs(c, j, p)
    decreases p - j
  {
    if j < p { PairsPlain(c, if c[j] == BACKSLASH then j + 2 else j + 1, p); }
  }

  /** Nor on the last byte before the closing quote. */
  lemma {:induction false} PairsAtEnd(c: seq<byte>, j: nat, end: nat)
    requires j < end < |c| && ClosingQuote(c, j) == Some(end)
    ensures Pairs(c, j, end) == Pairs(c, j, end - 1)
    decreases end - j
  {
    var j' := if c[j] == BACKSLASH then j + 2 else j + 1;
    if j' < end { PairsAtEnd(c, j', end); }
  }

  /** The output so far is no longer than the input read, less the escapes the first pass counted. */
  ghost predicate Fits(c: seq<byte>, start: nat, end: nat, p: nat, out: nat)
    requires end <= |c|
  {
    var q := if p <= end then p else end;
    out + Pairs(c, start, q) <= q - start
  }

  /** So it is always inside the buffer. */
  lemma FitsInside(c: seq<byte>, start: nat, end: nat, p: nat, out: nat)
    requires start <= end <= |c| && Fits(c, start, end, p, out)
    ensures out + Pairs(c, start, end) <= end - start
  {
    if p < end { PairsGrow(c, start, p, end - p); }
  }

  lemma FitsStart(c: seq<byte>, start: nat, end: nat)
    requires start <= end <= |c|
    ensures Fits(c, start, end, start, 0)
  {
  }

  lemma FitsPlain(c: seq<byte>, start: nat, end: nat, p: nat, out: nat)
    requires start <= p < end < |c| && Fits(c, start, end, p, out) && c[p] != BACKSLASH
    ensures Fits(c, start, end, p + 1, out + 1) && out + 1 + Pairs(c, start, end) <= end - start
  {
    PairsPlain(c, start, p);
    FitsInside(c, start, end, p + 1, out + 1);
  }

  lemma FitsShort(c: seq<byte>, start: nat, end: nat, p: nat, out: nat)
    requires start <= p < end < |c| && Fits(c, start, end, p, out) && ClosingQuote(c, start) == Some(end)
    ensures Fits(c, start, end, p + 2, out + 1) && out + 1 + Pairs(c, start, end) <= end - start
  {
    if p + 2 <= end {
      PairsGrow(c, start, p, 2);
    } else {
      PairsAtEnd(c, start, end);
    }
    FitsInside(c, start, end, p + 2, out + 1);
  }

  lemma FitsLiteral(c: seq<byte>, start: nat, end: nat, p: nat, out: nat)
    requires start <= p < end < |c| && Fits(c, start, end, p, out)
    ensures var r := Literal(c, p, end);
            r.Some? ==> Fits(c, start, end, p + r.value.1, out + |Utf8(r.value.0)|)
                        && out + |Utf8(r.value.0)| + Pairs(c, start, end) <= end - start
  {
    var r := Literal(c, p, end);
    if r.Some? {
      PairsGrow(c, start, p, r.value.1);
      FitsInside(c, start, end, p + r.value.1, out + |Utf8(r.value.0)|);
    }
  }

  /** The second pass, one character at a time. */
  lemma UnescapeStep(c: seq<byte>, p: nat, end: nat)
    requires p < end < |c|
    ensures c[p] != BACKSLASH ==> Unescape(c, p, end) == Prepend([c[p]], Unescape(c, p + 1, end))
    ensures c[p] == BACKSLASH && c[p + 1] == LETTER_U ==>
      var r := Literal(c, p, end);
      && (r.None? ==> Unescape(c, p, end).None?)
      && (r.Some? ==> Unescape(c, p, end) == Prepend(Utf8(r.value.0), Unescape(c, p + r.value.1, end)))
    ensures c[p] == BACKSLASH && c[p + 1] != LETTER_U ==>
      var r := ShortEscape(c[p + 1]);
      && (r.None? ==> Unescape(c, p, end).None?)
      && (r.Some? ==> Unescape(c, p, end) == Prepend([r.value], Unescape(c, p + 2, end)))
  {
    hide Literal, Utf8, ShortEscape, Prepend;
  }

  lemma UnescapeDone(c: seq<byte>, p: nat, end: nat)
    requires end < |c| && end <= p
    ensures Unescape(c, p, end) == Some([])
  {
  }

  lemma PrependNothing(r: Option<seq<byte>>)
    ensures Prepend([], r) == r
  {
    if r.Some? { assert [] + r.value == r.value; }
  }

  lemma PrependToNothing(s: seq<byte>)
    ensures Prepend(s, Some([])) == Some(s)
  {
    assert s + [] == s;
  }

  lemma PrependTwice(s: seq<byte>, t: seq<byte>, r: Option<seq<byte>>)
    ensures Prepend(s, Prepend(t, r)) == Prepend(s + t, r)
  {
    if r.Some? { assert s + (t + r.value) == (s + t) + r.value; }
  }

  /** `(codepoint | 0x80) & 0xBF`: the low six bits under a continuation mark. */
  function Continuation(cp: nat): (b: byte) { 0x80 + cp % 0x40 }

  function Shifted(cp: nat, n: nat): (r: nat) { if n == 0 then cp else Shifted(cp, n - 1) / 0x40 }

  function FirstMark(length: nat): (b: byte)
  {
    if length == 1 then 0 else if length == 2 then 0xC0 else if length == 3 then 0xE0 else 0xF0
  }

  /** UTF-8 from its last byte to its first: six bits at a time, then what is left under the mark. */
  lemma Utf8ByShifts(cp: nat, k: nat)
    requires cp <= 0x10FFFF && k < |Utf8(cp)|
    ensures k > 0 ==> Utf8(cp)[k] == Continuation(Shifted(cp, |Utf8(cp)| - 1 - k))
    ensures k == 0 ==> Utf8(cp)[0] == FirstMark(|Utf8(cp)|) + Shifted(cp, |Utf8(cp)| - 1)
  {
    assert Shifted(cp, 1) == cp / 0x40;
    assert Shifted(cp, 2) == cp / 0x40 / 0x40;
    assert Shifted(cp, 3) == cp / 0x40 / 0x40 / 0x40;
  }

  /** The part of `utf16_literal_to_utf8` that writes: `length` bytes at `at`, last one first. */
  method StoreUtf8(output: array<byte>, at: nat, cp: nat, length: nat)
    requires cp <= 0x10FFFF && length == |Utf8(cp)| && at + length <= output.Length
    modifies output
    ensures output[..] == old(output[..])[..at] + Utf8(cp) + old(output[..])[at + length..]
  {
    hide Utf8, Continuation;
    ghost var before := output[..];
    var code := cp;
    var position := length - 1;
    while position > 0
      invariant 0 <= position < length && code == Shifted(cp, length - 1 - position)
      invariant output[..at] == before[..at] && output[at + length..] == before[at + length..]
      invariant output[at + position + 1..at + length] == Utf8(cp)[position + 1..]
    {
      Utf8ByShifts(cp, position);
      output[at + position] := Continuation(code);
      assert output[at + position..at + length] == [output[at + position]] + output[at + position + 1..at + length];
      assert Utf8(cp)[position..] == [Utf8(cp)[position]] + Utf8(cp)[position + 1..];
      code := code / 0x40;
      position := position - 1;
    }
    Utf8ByShifts(cp, 0);
    output[at] := FirstMark(length) + code;
    assert output[at..at + length] == [output[at]] + output[at + 1..at + length];
    assert Utf8(cp) == [Utf8(cp)[0]] + Utf8(cp)[1..];
    assert output[..] == output[..at] + output[at..at + length] + output[at + length..];
  }

  /** The length chosen by the branches on the code point. */
  function Utf8Length(cp: nat): (n: nat)
    requires cp <= 0x10FFFF
    ensures n == |Utf8(cp)|
  {
    if cp < 0x80 then 1 else if cp < 0x800 then 2 else if cp < 0x10000 then 3 else 4
  }

  lemma {:induction false} CStringPrefix(s: seq<byte>, t: seq<byte>)
    requires |s| < |t| && t[..|s|] == s && t[|s|] == 0
    ensures CString(t) == CString(s)
    decreases |s|
  {
    if s != [] && s[0] != 0 {
      CStringPrefix(s[1..], t[1..]);
    }
  }

  /** `parse_hex4`. */
  method ParseHex4(c: seq<byte>, p: nat) returns (h: nat)
    requires p + 4 <= |c|
    ensures h == Hex4(c, p)
  {
    hide HexValue;
    h := 0;
    for i := 0 to 4
      invariant i == 0 ==> h == 0
      invariant i >= 1 ==> HexValue(c[p]).Some?
      invariant i == 1 ==> h == 0x10 * HexValue(c[p]).value
      invariant i >= 2 ==> HexValue(c[p + 1]).Some?
      invariant i == 2 ==> h == 0x100 * HexValue(c[p]).value + 0x10 * HexValue(c[p + 1]).value
      invariant i >= 3 ==> HexValue(c[p + 2]).Some?
      invariant i == 3 ==>
                  h == 0x1000 * HexValue(c[p]).value + 0x100 * HexValue(c[p + 1]).value +
                       0x10 * HexValue(c[p + 2]).value
      invariant i == 4 ==> h == Hex4(c, p)
    {
      var digit := HexValue(c[p + i]);
      if digit.None? {
        return 0;
      }
      h := h + digit.value;
      if i < 3 {
        h := h * 0x10;
      }
    }
  }

  class ParseBuffer {
    const content: seq<byte>
    var offset: nat
    var depth: nat

    constructor (content: seq<byte>)
      ensures this.content == content && offset == 0 && depth == 0
    {
      this.content := content;
      offset, depth := 0, 0;
    }

    /** `buffer_skip_whitespace`. */
    method SkipWhitespace()
      modifies this`offset
      ensures offset == Skip(content, old(offset))
    {
      if offset >= |content| {
        return;
      }
      while offset < |content| && content[offset] <= 32
        invariant old(offset) <= offset <= |content|
        invariant Blank(content, old(offset)) == Blank(content, offset)
      {
        offset := offset + 1;
      }
      if offset == |content| {
        offset := offset - 1;
      }
    }

    method ParseNumber() returns (ok: bool, v: Json)
      requires offset < |content|
      modifies this`offset
      ensures ok == JsonParse.ParseNumber(content, old(offset)).Done?
      ensures ok ==> Done(v, offset) == JsonParse.ParseNumber(content, old(offset))
    {
      hide Strtod;
      var i := offset;
      while i < |content| && NumberByte(content[i])
        invariant offset <= i <= |content| && offset == old(offset)
        invariant NumberEnd(content, offset) == NumberEnd(content, i)
      {
        i := i + 1;
      }
      var (n, value) := Strtod(content[offset..i]);
      if n == 0 {
        return false, Null;
      }
      offset := offset + n;
      return true, Number(value);
    }

    /** The first pass: the closing quote and the number of escapes before it. */
    method FindQuote() returns (found: bool, end: nat, skipped: nat)
      requires offset < |content|
      ensures found == ClosingQuote(content, offset + 1).Some?
      ensures found ==> ClosingQuote(content, offset + 1) == Some(end) && skipped == Pairs(content, offset + 1, end)
    {
      end, skipped := offset + 1, 0;
      ghost var close := ClosingQuote(content, offset + 1);
      while end < |content| && content[end] != QUOTE
        invariant offset < end && ClosingQuote(content, end) == close
        invariant close.Some? ==> Pairs(content, offset + 1, close.value) == skipped + Pairs(content, end, close.value)
        decreases |content| - end
      {
        if content[end] == BACKSLASH {
          if end + 1 >= |content| {
            return false, 0, 0;
          }
          skipped := skipped + 1;
          end := end + 1;
        }
        end := end + 1;
      }
      found := end < |content|;
    }

    /** `utf16_literal_to_utf8` at `p`: the length of the escape, 0 on failure, and where it left
        the output pointer. */
    method Utf16LiteralToUtf8(p: nat, end: nat, output: array<byte>, out: nat) returns (length: nat, out': nat)
      requires p < end <= |content|
      requires var r := Literal(content, p, end); r.Some? ==> out + |Utf8(r.value.0)| <= output.Length
      modifies output
      ensures var r := Literal(content, p, end);
              && (r.None? ==> length == 0)
              && (r.Some? ==> length == r.value.1 && out' == out + |Utf8(r.value.0)|
                              && output[..] == old(output[..])[..out] + Utf8(r.value.0) + old(output[..])[out'..])
    {
      hide Hex4, Utf8;
      if end - p < 6 {
        return 0, out;
      }
      var first := ParseHex4(content, p + 2);
      if 0xDC00 <= first <= 0xDFFF {
        return 0, out;
      }
      var cp;
      if 0xD800 <= first <= 0xDBFF {
        if end - (p + 6) < 6 || content[p + 6] != BACKSLASH || content[p + 7] != LETTER_U {
          return 0, out;
        }
        var second := ParseHex4(content, p + 8);
        if second < 0xDC00 || second > 0xDFFF {
          return 0, out;
        }
        length, cp := 12, 0x10000 + (first % 0x400 * 0x400 + second % 0x400);
      } else {
        length, cp := 6, first;
      }
      var size := Utf8Length(cp);
      StoreUtf8(output, out, cp, size);
      out' := out + size;
    }

    /** The second pass: decodes `content[start..end]` into `output`, never past its end. */
    method DecodeInto(start: nat, end: nat, output: array<byte>) returns (ok: bool, out: nat)
      requires start <= end < |content| && ClosingQuote(content, start) == Some(end)
      requires output.Length == end - start - Pairs(content, start, end) + 2
      modifies output
      ensures ok == Unescape(content, start, end).Some?
      ensures ok ==> out < output.Length && Unescape(content, start, end) == Some(output[..out])
    {
      hide Unescape, Pairs, Literal, Utf8, ShortEscape, ClosingQuote;
      out := 0;
      var p := start;
      ghost var whole := Unescape(content, start, end);
      FitsStart(content, start, end);
      FitsInside(content, start, end, start, 0);
      PrependNothing(whole);
      while p < end
        invariant start <= p <= end + 1 && Fits(content, start, end, p, out) && out < output.Length
        invariant whole == Prepend(output[..out], Unescape(content, p, end))
        decreases end + 1 - p
      {
        ghost var done := output[..out];
        UnescapeStep(content, p, end);
        if content[p] != BACKSLASH {
          FitsPlain(content, start, end, p, out);
          output[out] := content[p];
          assert output[..out + 1] == done + [content[p]];
          PrependTwice(done, [content[p]], Unescape(content, p + 1, end));
          out, p := out + 1, p + 1;
        } else if content[p + 1] == LETTER_U {
          FitsLiteral(content, start, end, p, out);
          var n, out' := Utf16LiteralToUtf8(p, end, output, out);
          if n == 0 {
            return false, out;
          }
          ghost var chunk := Utf8(Literal(content, p, end).value.0);
          assert output[..][..out'] == done + chunk;
          PrependTwice(done, chunk, Unescape(content, p + n, end));
          out, p := out', p + n;
        } else {
          var b := ShortEscape(content[p + 1]);
          if b.None? {
            return false, out;
          }
          FitsShort(content, start, end, p, out);
          output[out] := b.value;
          assert output[..out + 1] == done + [b.value];
          PrependTwice(done, [b.value], Unescape(content, p + 2, end));
          out, p := out + 1, p + 2;
        }
      }
      UnescapeDone(content, p, end);
      PrependToNothing(output[..out]);
      return true, out;
    }

    /** `parse_string`: the buffer sized by the first pass holds everything the second one writes. */
    method ParseString() returns (ok: bool, text: seq<byte>)
      modifies this`offset
      ensures ok == JsonParse.ParseString(content, old(offset)).DoneText?
      ensures ok ==> DoneText(text, offset) == JsonParse.ParseString(content, old(offset))
    {
      text := [];
      if offset >= |content| || content[offset] != QUOTE {
        return false, text;
      }
      var found, end, skipped := FindQuote();
      if !found {
        return false, text;
      }
      PairsGrow(content, offset + 1, offset + 1, end - (offset + 1));
      var output := new byte[end - offset - skipped + 1];
      var out;
      ok, out := DecodeInto(offset + 1, end, output);
      if !ok {
        return false, text;
      }
      output[out] := 0;
      CStringPrefix(output[..out], output[..]);
      text := CString(output[..]);
      offset := end + 1;
    }

    /** `parse_value`: refines the parser as a function of the whole text. */
    method ParseValue() returns (ok: bool, v: Json)
      modifies this
      ensures Agrees(JsonParse.ParseValue(content, old(offset), old(depth)), ok, v, offset)
      ensures ok ==> depth == old(depth)
      decreases |content| - offset, 3
    {
      hide JsonParse.ParseNumber, JsonParse.ParseString, JsonParse.ParseArray, JsonParse.ParseObject, Skip;
      v := Null;
      if Word(content, offset, NULL_TEXT) {
        offset := offset + 4;
        return true, Null;
      }
      if Word(content, offset, FALSE_TEXT) {
        offset := offset + 5;
        return true, False;
      }
      if Word(content, offset, TRUE_TEXT) {
        offset := offset + 4;
        return true, True;
      }
      if offset >= |content| {
        return false, Null;
      }
      var b := content[offset];
      if b == QUOTE {
        var text;
        ok, text := ParseString();
        return ok, String(text);
      }
      if b == MINUS || 48 <= b <= 57 {
        ok, v := ParseNumber();
        return;
      }
      if b == LBRACKET {
        ok, v := ParseArray();
        return;
      }
      if b == LBRACE {
        ok, v := ParseObject();
        return;
      }
      return false, Null;
    }

    method ParseArray() returns (ok: bool, v: Json)
      requires At(content, offset, LBRACKET)
      modifies this
      ensures Agrees(JsonParse.ParseArray(content, old(offset), old(depth)), ok, v, offset)
      ensures ok ==> depth == old(depth)
      decreases |content| - offset, 2
    {
      hide JsonParse.ParseValue, JsonParse.ParseItems, Skip;
      v := Null;
      if depth >= NESTING_LIMIT {
        return false, v;
      }
      depth := depth + 1;
      offset := offset + 1;
      SkipWhitespace();
      if offset < |content| && content[offset] == RBRACKET {
        depth := depth - 1;
        offset := offset + 1;
        return true, Array([]);
      }
      if offset >= |content| {
        return false, v;
      }
      offset := offset - 1;
      var items;
      ok, items := ParseItems();
      if !ok {
        return false, v;
      }
      depth := depth - 1;
      return true, Array(items);
    }

    /** The loop of `parse_array`, from the byte before the first element to past the bracket. */
    method ParseItems() returns (ok: bool, items: seq<Json>)
      requires offset < |content|
      modifies this
      ensures ok == JsonParse.ParseItems(content, old(offset), old(depth)).DoneItems?
      ensures ok ==> DoneItems(items, offset) == JsonParse.ParseItems(content, old(offset), old(depth))
      ensures ok ==> depth == old(depth)
      decreases |content| - offset, 1
    {
      hide JsonParse.ParseValue, JsonParse.ParseItems, Skip;
      items := [];
      while true
        invariant old(offset) <= offset < |content| && depth == old(depth)
        invariant JsonParse.ParseItems(content, old(offset), depth) ==
                  MoreItems(items, JsonParse.ParseItems(content, offset, depth))
        decreases |content| - offset
      {
        ghost var o := offset;
        ItemsUnfold(content, o, depth);
        offset := offset + 1;
        SkipWhitespace();
        var v;
        ok, v := ParseValue();
        if !ok {
          return false, items;
        }
        SkipWhitespace();
        MoreItemsTwice(items, v, JsonParse.ParseItems(content, offset, depth));
        items := items + [v];
        if offset < |content| && content[offset] == COMMA {
          continue;
        }
        if offset >= |content| || content[offset] != RBRACKET {
          return false, items;
        }
        offset := offset + 1;
        return true, items;
      }
    }

    method ParseObject() returns (ok: bool, v: Json)
      requires At(content, offset, LBRACE)
      modifies this
      ensures Agrees(JsonParse.ParseObject(content, old(offset), old(depth)), ok, v, offset)
      ensures ok ==> depth == old(depth)
      decreases |content| - offset, 2
    {
      hide JsonParse.ParseValue, JsonParse.ParseMembers, Skip;
      v := Null;
      if depth >= NESTING_LIMIT {
        return false, v;
      }
      depth := depth + 1;
      offset := offset + 1;
      SkipWhitespace();
      if offset < |content| && content[offset] == RBRACE {
        depth := depth - 1;
        offset := offset + 1;
        return true, Object([]);
      }
      if offset >= |content| {
        return false, v;
      }
      offset := offset - 1;
      var members;
      ok, members := ParseMembers();
      if !ok {
        return false, v;
      }
      depth := depth - 1;
      return true, Object(members);
    }

    /** The loop of `parse_object`. */
    method ParseMembers() returns (ok: bool, members: seq<Member>)
      modifies this
      ensures ok == JsonParse.ParseMembers(content, old(offset), old(depth)).DoneMembers?
      ensures ok ==> DoneMembers(members, offset) == JsonParse.ParseMembers(content, old(offset), old(depth))
      ensures ok ==> depth == old(depth)
      decreases |content| - offset, 1
    {
      hide JsonParse.ParseValue, JsonParse.ParseMembers, JsonParse.ParseString, Skip;
      members := [];
      NoMoreMembers(JsonParse.ParseMembers(content, offset, depth));
      while true
        invariant old(offset) <= offset && depth == old(depth) && (offset == old(offset) || offset < |content|)
        invariant JsonParse.ParseMembers(content, old(offset), depth)
               == MoreMembers(members, JsonParse.ParseMembers(content, offset, depth))
        decreases |content| - offset
      {
        ghost var o := offset;
        MembersUnfold(content, o, depth);
        if offset + 1 >= |content| {
          return false, members;
        }
        offset := offset + 1;
        SkipWhitespace();
        var name;
        ok, name := ParseString();
        if !ok {
          return false, members;
        }
        SkipWhitespace();
        if offset >= |content| || content[offset] != COLON {
          return false, members;
        }
        offset := offset + 1;
        SkipWhitespace();
        var v;
        ok, v := ParseValue();
        if !ok {
          return false, members;
        }
        SkipWhitespace();
        MoreMembersTwice(members, Member(name, v), JsonParse.ParseMembers(content, offset, depth));
        members := members + [Member(name, v)];
        if offset < |content| && content[offset] == COMMA {
          continue;
        }
        if offset >= |content| || content[offset] != RBRACE {
          return false, members;
        }
        offset := offset + 1;
        return true, members;
      }
    }
  }

  ghost predicate Agrees(r: Parsed, ok: bool, v: Json, offset: nat)
  {
    ok == r.Done? && (ok ==> r == Done(v, offset))
  }

  function MoreItems(items: seq<Json>, r: ParsedItems): (s: ParsedItems)
  {
    if r.FailItems? then r else DoneItems(items + r.items, r.next)
  }

  lemma MoreItemsTwice(items: seq<Json>, v: Json, r: ParsedItems)
    ensures MoreItems(items, MoreItems([v], r)) == MoreItems(items + [v], r)
    ensures MoreItems([], r) == r
  {
    if r.DoneItems? { assert items + ([v] + r.items) == items + [v] + r.items && [] + r.items == r.items; }
  }

  lemma ItemsUnfold(c: seq<byte>, o: nat, depth: nat)
    requires o < |c|
    ensures var v := JsonParse.ParseValue(c, Skip(c, o + 1), depth);
            && (v.Fail? ==> JsonParse.ParseItems(c, o, depth).FailItems?)
            && (v.Done? ==>
                  var k := Skip(c, v.next);
                  JsonParse.ParseItems(c, o, depth) ==
                    if At(c, k, COMMA) then MoreItems([v.value], JsonParse.ParseItems(c, k, depth))
                    else if At(c, k, RBRACKET) then DoneItems([v.value], k + 1)
                    else FailItems)
  {
    hide JsonParse.ParseValue, Skip;
  }

  function MoreMembers(members: seq<Member>, r: ParsedMembers): (s: ParsedMembers)
  {
    if r.FailMembers? then r else DoneMembers(members + r.members, r.next)
  }

  lemma NoMoreMembers(r: ParsedMembers)
    ensures MoreMembers([], r) == r
  {
    if r.DoneMembers? { assert [] + r.members == r.members; }
  }

  lemma MoreMembersTwice(members: seq<Member>, m: Member, r: ParsedMembers)
    ensures MoreMembers(members, MoreMembers([m], r)) == MoreMembers(members + [m], r)
  {
    if r.DoneMembers? { assert members + ([m] + r.members) == members + [m] + r.members; }
  }

  lemma MembersUnfold(c: seq<byte>, o: nat, depth: nat)
    ensures o + 1 >= |c| ==> JsonParse.ParseMembers(c, o, depth).FailMembers?
    ensures o + 1 < |c| ==>
      var name := JsonParse.ParseString(c, Skip(c, o + 1));
      if name.FailText? || !At(c, Skip(c, name.next), COLON) then JsonParse.ParseMembers(c, o, depth).FailMembers?
      else
        var v := JsonParse.ParseValue(c, Skip(c, Skip(c, name.next) + 1), depth);
        if v.Fail? then JsonParse.ParseMembers(c, o, depth).FailMembers?
        else
          var m, e := Member(name.text, v.value), Skip(c, v.next);
          JsonParse.ParseMembers(c, o, depth) ==
            if At(c, e, COMMA) then MoreMembers([m], JsonParse.ParseMembers(c, e, depth))
            else if At(c, e, RBRACE) then DoneMembers([m], e + 1)
            else FailMembers
  {
    hide JsonParse.ParseValue, JsonParse.ParseString, Skip;
  }

  /** `cJSON_ParseWithLength`. */
  method ParseWithLength(c: seq<byte>) returns (r: Option<Json>)
    ensures r == Parse(c)
  {
    if c == [] {
      return None;
    }
    var p := new ParseBuffer(c);
    if |c| > 4 && c[..3] == [0xEF, 0xBB, 0xBF] {
      p.offset := 3;
    }
    p.SkipWhitespace();
    var ok, v := p.ParseValue();
    return if ok then Some(v) else None;
  }
}

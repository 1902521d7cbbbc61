/** Parsing undoes printing: gateway/src/cJSON.c reads back every tree it prints. */
module JsonRoundTrip {
  import opened Bytes
  import opened Json
  import opened JsonParse
  import opened Utf

  lemma WordSplit(c: seq<byte>, i: nat, s: seq<byte>, t: seq<byte>)
    requires Word(c, i, s + t)
    ensures Word(c, i, s) && Word(c, i + |s|, t)
  {
    assert c[i..i + |s|] == c[i..i + |s + t|][..|s|];
    assert c[i + |s|..i + |s + t|] == c[i..i + |s + t|][|s|..];
  }

  lemma WordAt(c: seq<byte>, i: nat, t: seq<byte>, k: nat)
    requires Word(c, i, t) && k < |t|
    ensures i + k < |c| && c[i + k] == t[k]
  {
    assert c[i..i + |t|][k] == t[k];
  }

  /** Blanks up to `j`, and a byte above 32 there: the whitespace skip ends at `j`. */
  lemma {:induction false} SkipRun(c: seq<byte>, i: nat, j: nat)
    requires i <= j < |c| && c[j] > 32 && forall k :: i <= k < j ==> c[k] <= 32
    ensures Skip(c, i) == j
  {
    var b := Blank(c, i);
    assert !(b < j) && !(j < b);
  }

  // ---- Numbers ----

  lemma {:induction false} NumberEndAt(c: seq<byte>, i: nat, j: nat)
    requires i <= j <= |c| && (j < |c| ==> !NumberByte(c[j]))
    requires forall k :: i <= k < j ==> NumberByte(c[k])
    ensures NumberEnd(c, i) == j
    decreases j - i
  {
    if i < j { NumberEndAt(c, i + 1, j); }
  }

  lemma {:induction false} DigitsEndAt(t: seq<byte>, i: nat)
    requires i <= |t| && forall k :: i <= k < |t| ==> 48 <= t[k] <= 57
    ensures DigitsEnd(t, i) == |t|
    decreases |t| - i
  {
    if i < |t| { DigitsEndAt(t, i + 1); }
  }

  /** A sign and digits only: strtod takes all of it. */
  lemma StrtodPlain(t: seq<byte>, s: nat)
    requires s == (if t != [] && t[0] == MINUS then 1 else 0) && s < |t|
    requires forall k :: s <= k < |t| ==> 48 <= t[k] <= 57
    ensures Strtod(t) == (|t|, (if s == 1 then -DigitsValue(t[s..]) else DigitsValue(t[s..])) as real)
  {
    DigitsEndAt(t, s);
    assert t[s..|t|] == t[s..];
    assert DigitsValue([]) == 0;
    hide DigitsValue, DigitsEnd;
    assert 0 as real / Pow10(0) as real == 0.0;
  }

  lemma StrtodOfDecimal(n: int)
    ensures Strtod(Decimal(n)) == (|Decimal(n)|, n as real)
  {
    hide Digits, DigitsValue, Strtod;
    var t := Decimal(n);
    var digits := Digits(if n < 0 then -n else n);
    DigitsValueOfDigits(if n < 0 then -n else n);
    var s := if n < 0 then 1 else 0;
    assert t[s..] == digits;
    forall k | s <= k < |t| ensures 48 <= t[k] <= 57 { assert t[k] == digits[k - s]; }
    StrtodPlain(t, s);
  }

  lemma NumberRoundTrip(c: seq<byte>, i: nat, n: int)
    requires Word(c, i, Decimal(n))
    requires i + |Decimal(n)| < |c| ==> !NumberByte(c[i + |Decimal(n)|])
    ensures ParseNumber(c, i) == Done(Number(n as real), i + |Decimal(n)|)
  {
    hide Strtod, Digits;
    var t := Decimal(n);
    forall k | i <= k < i + |t|
      ensures NumberByte(c[k])
    {
      WordAt(c, i, t, k - i);
    }
    NumberEndAt(c, i, i + |t|);
    StrtodOfDecimal(n);
  }

  // ---- Strings ----

  lemma UnitSkipped(c: seq<byte>, j: nat, u: nat)
    requires u < 0x10000 && Word(c, j, UnitText(u))
    ensures ClosingQuote(c, j) == ClosingQuote(c, j + 6)
  {
    hide Hex;
    var t := UnitText(u);
    WordAt(c, j, t, 0); WordAt(c, j, t, 1); WordAt(c, j, t, 2);
    WordAt(c, j, t, 3); WordAt(c, j, t, 4); WordAt(c, j, t, 5);
    var q1 := u / 0x10;
    var q2 := q1 / 0x10;
    HexIsPlain(q2 / 0x10); HexIsPlain(q2 % 0x10); HexIsPlain(q1 % 0x10); HexIsPlain(u % 0x10);
    assert ClosingQuote(c, j + 2) == ClosingQuote(c, j + 3) == ClosingQuote(c, j + 4);
    assert ClosingQuote(c, j + 4) == ClosingQuote(c, j + 5) == ClosingQuote(c, j + 6);
  }

  lemma UnitShape(u: nat)
    requires u < 0x10000
    ensures UnitText(u)[0] == BACKSLASH && UnitText(u)[1] == LETTER_U
  {
  }

  lemma HexIsPlain(n: nat)
    requires n < 16
    ensures Hex(n) != QUOTE && Hex(n) != BACKSLASH
  {
  }

  lemma EscapeSkipped(c: seq<byte>, j: nat, b: byte)
    requires Word(c, j, Escape(b))
    ensures ClosingQuote(c, j) == ClosingQuote(c, j + |Escape(b)|)
  {
    hide UnitText, Word;
    var t := Escape(b);
    WordAt(c, j, t, 0);
    if |t| > 1 { WordAt(c, j, t, 1); }
    if |t| == 6 { UnitSkipped(c, j, b); }
  }

  lemma {:induction false} ClosingQuoteFound(c: seq<byte>, j: nat, s: seq<byte>)
    requires Word(c, j, EscapeAll(s) + [QUOTE])
    ensures ClosingQuote(c, j) == Some(j + |EscapeAll(s)|)
    decreases |s|
  {
    hide Word, Escape;
    if s == [] {
      WordAt(c, j, EscapeAll(s) + [QUOTE], 0);
    } else {
      var head, rest := Escape(s[0]), EscapeAll(s[1..]) + [QUOTE];
      assert EscapeAll(s) + [QUOTE] == head + rest;
      WordSplit(c, j, head, rest);
      EscapeSkipped(c, j, s[0]);
      ClosingQuoteFound(c, j + |head|, s[1..]);
    }
  }

  lemma EscapeUndone(c: seq<byte>, p: nat, end: nat, b: byte)
    requires end < |c| && Word(c, p, Escape(b)) && p + |Escape(b)| <= end
    ensures Unescape(c, p, end) == Prepend([b], Unescape(c, p + |Escape(b)|, end))
  {
    hide UnitText, Literal;
    var t := Escape(b);
    WordAt(c, p, t, 0);
    if |t| > 1 { WordAt(c, p, t, 1); }
    if |t| == 6 {
      assert t == UnitText(b) == EscapeText(b);
      UnitShape(b);
      LiteralDecodes(c, p, end, b);
      assert Utf8(b) == [b];
    }
  }

  lemma UnescapeEmpty(c: seq<byte>, p: nat)
    requires p < |c|
    ensures Unescape(c, p, p) == Some([])
  {
  }

  lemma {:induction false} UnescapeUndoes(c: seq<byte>, p: nat, s: seq<byte>)
    requires Word(c, p, EscapeAll(s)) && p + |EscapeAll(s)| < |c|
    ensures Unescape(c, p, p + |EscapeAll(s)|) == Some(s)
    decreases |s|
  {
    hide Word, Escape, Unescape;
    if s == [] {
      UnescapeEmpty(c, p);
    } else {
      var head, rest := Escape(s[0]), EscapeAll(s[1..]);
      WordSplit(c, p, head, rest);
      EscapeUndone(c, p, p + |EscapeAll(s)|, s[0]);
      UnescapeUndoes(c, p + |head|, s[1..]);
      assert [s[0]] + s[1..] == s;
    }
  }

  /** Every NUL-free string survives escaping. */
  lemma StringRoundTrip(c: seq<byte>, i: nat, s: seq<byte>)
    requires Word(c, i, Quote(s)) && 0 !in s
    ensures ParseString(c, i) == DoneText(s, i + |Quote(s)|)
  {
    hide Word, EscapeAll, ClosingQuote, Unescape;
    assert Quote(s) == [QUOTE] + (EscapeAll(s) + [QUOTE]);
    WordSplit(c, i, [QUOTE], EscapeAll(s) + [QUOTE]);
    WordAt(c, i, [QUOTE], 0);
    ClosingQuoteFound(c, i + 1, s);
    WordSplit(c, i + 1, EscapeAll(s), [QUOTE]);
    UnescapeUndoes(c, i + 1, s);
    CStringOfNulFree(s, []);
  }

  // ---- Trees ----

  lemma FirstByte(v: Json, depth: nat, fmt: bool)
    requires Printable(v)
    ensures Text(v, depth, fmt) != []
    ensures Text(v, depth, fmt)[0] > 32 && Text(v, depth, fmt)[0] !in {RBRACKET, RBRACE, COMMA}
  {
  }

  /** Where a text ends, the next byte cannot prolong a number. */
  predicate Delimited(c: seq<byte>, i: nat)
  {
    i < |c| ==> !NumberByte(c[i])
  }

  /** The round trip at any place in a larger text: the parser stops exactly at the end of the
      printed value and has rebuilt the tree. */
  lemma {:induction false} ValueRoundTrip(c: seq<byte>, i: nat, v: Json, depth: nat, fmt: bool)
    requires Printable(v) && depth + Nesting(v) <= NESTING_LIMIT
    requires Word(c, i, Text(v, depth, fmt)) && Delimited(c, i + |Text(v, depth, fmt)|)
    ensures ParseValue(c, i, depth) == Done(v, i + |Text(v, depth, fmt)|)
    decreases v, 1
  {
    hide Word, ParseArray, ParseObject, ParseNumber, ParseString, ItemsText, MembersText, Quote, Decimal;
    var t := Text(v, depth, fmt);
    FirstByte(v, depth, fmt);
    WordAt(c, i, t, 0);
    if v.False? || v.True? { NotAWord(c, i, NULL_TEXT); }
    if v.True? { NotAWord(c, i, FALSE_TEXT); }
    if !v.Null? && !v.False? && !v.True? {
      FirstByteKind(v, depth, fmt);
      NotAWord(c, i, NULL_TEXT); NotAWord(c, i, FALSE_TEXT); NotAWord(c, i, TRUE_TEXT);
      if v.Number? {
        NumberRoundTrip(c, i, ValueInt(v.value));
      } else if v.String? {
        StringRoundTrip(c, i, v.text);
      } else if v.Array? {
        ArrayRoundTrip(c, i, v.items, depth, fmt);
      } else {
        ObjectRoundTrip(c, i, v.members, depth, fmt);
      }
    }
  }

  /** The first byte tells the kind of value, as `parse_value` expects. */
  lemma FirstByteKind(v: Json, depth: nat, fmt: bool)
    requires Printable(v) && (v.Number? || v.String? || v.Array? || v.Object?)
    ensures var b := Text(v, depth, fmt)[0];
            && (v.Number? ==> b == MINUS || 48 <= b <= 57) && (v.String? ==> b == QUOTE)
            && (v.Array? ==> b == LBRACKET) && (v.Object? ==> b == LBRACE)
  {
    hide ItemsText, MembersText, EscapeAll;
  }

  lemma NotAWord(c: seq<byte>, i: nat, w: seq<byte>)
    requires w != [] && i < |c| && c[i] != w[0]
    ensures !Word(c, i, w)
  {
    assert i + |w| <= |c| ==> c[i..i + |w|][0] == c[i];
  }

  lemma {:induction false} ArrayRoundTrip(c: seq<byte>, i: nat, items: seq<Json>, depth: nat, fmt: bool)
    requires PrintableItems(items) && depth + 1 + NestingItems(items) <= NESTING_LIMIT
    requires At(c, i, LBRACKET) && Word(c, i, Text(Array(items), depth, fmt))
    ensures ParseArray(c, i, depth) == Done(Array(items), i + |Text(Array(items), depth, fmt)|)
    decreases items, 1
  {
    hide Word, Skip, Blank, ParseValue, ParseItems;
    var body := ItemsText(items, depth + 1, fmt);
    assert Text(Array(items), depth, fmt) == [LBRACKET] + (body + [RBRACKET]);
    WordSplit(c, i, [LBRACKET], body + [RBRACKET]);
    WordAt(c, i + 1, body + [RBRACKET], 0);
    if items == [] {
      SkipRun(c, i + 1, i + 1);
    } else {
      FirstByte(items[0], depth + 1, fmt);
      assert (body + [RBRACKET])[0] == Text(items[0], depth + 1, fmt)[0];
      SkipRun(c, i + 1, i + 1);
      ItemsRoundTrip(c, i, i + 1, items, depth + 1, fmt);
    }
  }

  lemma ItemsTextSplit(items: seq<Json>, depth: nat, fmt: bool)
    requires items != [] && PrintableItems(items)
    ensures |items| == 1 ==> ItemsText(items, depth, fmt) == Text(items[0], depth, fmt)
    ensures |items| > 1 ==>
      ItemsText(items, depth, fmt) + [RBRACKET]
      == Text(items[0], depth, fmt) + (ItemGap(fmt) + (ItemsText(items[1..], depth, fmt) + [RBRACKET]))
  {
    hide Text, ItemGap;
    if |items| > 1 {
      var t, g, r := Text(items[0], depth, fmt), ItemGap(fmt), ItemsText(items[1..], depth, fmt);
      assert t + (g + r) + [RBRACKET] == t + (g + (r + [RBRACKET]));
    }
  }

  /** One pass of the loop of `parse_array`. */
  lemma ItemsStep(c: seq<byte>, o: nat, depth: nat, v: Json, next: nat)
    requires o < |c| && ParseValue(c, Skip(c, o + 1), depth) == Done(v, next)
    ensures var k := Skip(c, next);
            && (At(c, k, RBRACKET) ==> ParseItems(c, o, depth) == DoneItems([v], k + 1))
            && (At(c, k, COMMA) && ParseItems(c, k, depth).DoneItems? ==>
                ParseItems(c, o, depth) == DoneItems([v] + ParseItems(c, k, depth).items, ParseItems(c, k, depth).next))
  {
    hide Skip, ParseValue;
  }

  lemma GapNext(c: seq<byte>, k: nat, fmt: bool)
    requires Word(c, k, ItemGap(fmt))
    ensures Skip(c, k) == k && At(c, k, COMMA) && Delimited(c, k)
    ensures forall n :: k < n < k + |ItemGap(fmt)| ==> n < |c| && c[n] <= 32
  {
    WordAt(c, k, ItemGap(fmt), 0);
    if fmt { WordAt(c, k, ItemGap(fmt), 1); }
    SkipRun(c, k, k);
  }

  lemma BracketNext(c: seq<byte>, k: nat)
    requires Word(c, k, [RBRACKET])
    ensures Skip(c, k) == k && At(c, k, RBRACKET) && Delimited(c, k)
  {
    WordAt(c, k, [RBRACKET], 0);
    SkipRun(c, k, k);
  }

  /** One element is read back. */
  lemma {:induction false} ItemRoundTrip(c: seq<byte>, o: nat, j: nat, v: Json, depth: nat, fmt: bool)
    requires Printable(v) && depth + Nesting(v) <= NESTING_LIMIT
    requires o < j && forall k :: o < k < j ==> k < |c| && c[k] <= 32
    requires Word(c, j, Text(v, depth, fmt)) && Delimited(c, j + |Text(v, depth, fmt)|)
    ensures o < |c| && ParseValue(c, Skip(c, o + 1), depth) == Done(v, j + |Text(v, depth, fmt)|)
    decreases v, 2
  {
    hide Word, Skip, Blank, ParseValue, Text, Nesting;
    FirstByte(v, depth, fmt);
    WordAt(c, j, Text(v, depth, fmt), 0);
    SkipRun(c, o + 1, j);
    ValueRoundTrip(c, j, v, depth, fmt);
  }

  /** The elements and the closing bracket, with only blanks between offset `o` and them. */
  lemma {:induction false} ItemsRoundTrip(c: seq<byte>, o: nat, j: nat, items: seq<Json>, depth: nat, fmt: bool)
    requires items != [] && PrintableItems(items) && depth + NestingItems(items) <= NESTING_LIMIT
    requires o < j && Word(c, j, ItemsText(items, depth, fmt) + [RBRACKET])
    requires forall k :: o < k < j ==> k < |c| && c[k] <= 32
    ensures ParseItems(c, o, depth) == DoneItems(items, j + |ItemsText(items, depth, fmt)| + 1)
    decreases items, 0
  {
    hide Word, Skip, Blank, ParseValue, ParseItems, Text, ItemsText, ItemGap, Nesting, Delimited;
    ItemsTextSplit(items, depth, fmt);
    var t := Text(items[0], depth, fmt);
    var k := j + |t|;
    if |items| == 1 {
      WordSplit(c, j, t, [RBRACKET]);
      BracketNext(c, k);
      ItemRoundTrip(c, o, j, items[0], depth, fmt);
      ItemsStep(c, o, depth, items[0], k);
      assert [items[0]] == items;
    } else {
      var rest := ItemsText(items[1..], depth, fmt) + [RBRACKET];
      WordSplit(c, j, t, ItemGap(fmt) + rest);
      WordSplit(c, k, ItemGap(fmt), rest);
      GapNext(c, k, fmt);
      ItemRoundTrip(c, o, j, items[0], depth, fmt);
      ItemsStep(c, o, depth, items[0], k);
      assert |ItemGap(fmt)| > 0 by { GapNonEmpty(fmt); }
      ItemsRoundTrip(c, k, k + |ItemGap(fmt)|, items[1..], depth, fmt);
      assert [items[0]] + items[1..] == items;
    }
  }

  lemma GapNonEmpty(fmt: bool)
    ensures |ItemGap(fmt)| > 0
  {
  }

  /** What follows the members of an object. */
  function ObjectEnd(depth: nat, fmt: bool): (t: seq<byte>)
  {
    (if fmt then Tabs(depth) else []) + [RBRACE]
  }

  lemma MemberKeySplit(name: seq<byte>, depth: nat, fmt: bool)
    ensures MemberKey(name, depth, fmt)
      == (if fmt then Tabs(depth) else []) + (Quote(name) + (if fmt then [COLON, TAB] else [COLON]))
  {
    hide Quote, Tabs;
    var a, q, b := if fmt then Tabs(depth) else [], Quote(name), if fmt then [COLON, TAB] else [COLON];
    assert (a + q) + b == a + (q + b);
  }

  lemma MembersTextSplit(members: seq<Member>, depth: nat, fmt: bool)
    requires members != [] && PrintableMembers(members) && depth > 0
    ensures MembersText(members, depth, fmt) + ObjectEnd(depth - 1, fmt)
      == MemberKey(members[0].name, depth, fmt) + (Text(members[0].value, depth, fmt)
         + (MemberEnd(|members| > 1, fmt) + (MembersText(members[1..], depth, fmt) + ObjectEnd(depth - 1, fmt))))
  {
    hide Text, MemberKey, MemberEnd, ObjectEnd;
    var k, t := MemberKey(members[0].name, depth, fmt), Text(members[0].value, depth, fmt);
    var g := MemberEnd(|members| > 1, fmt);
    var r, e := MembersText(members[1..], depth, fmt), ObjectEnd(depth - 1, fmt);
    assert k + t + g + r + e == k + (t + (g + (r + e)));
  }

  lemma ObjectTextSplit(members: seq<Member>, depth: nat, fmt: bool)
    requires PrintableMembers(members)
    ensures Text(Object(members), depth, fmt)
      == ([LBRACE] + (if fmt then [NEWLINE] else [])) + (MembersText(members, depth + 1, fmt) + ObjectEnd(depth, fmt))
    ensures members == [] ==> MembersText(members, depth + 1, fmt) == []
  {
    hide Tabs;
    var o, m := [LBRACE] + (if fmt then [NEWLINE] else []), MembersText(members, depth + 1, fmt);
    var a := if fmt then Tabs(depth) else [];
    assert o + m + a + [RBRACE] == o + (m + (a + [RBRACE]));
  }

  lemma {:induction false} ObjectRoundTrip(c: seq<byte>, i: nat, members: seq<Member>, depth: nat, fmt: bool)
    requires PrintableMembers(members) && depth + 1 + NestingMembers(members) <= NESTING_LIMIT
    requires At(c, i, LBRACE) && Word(c, i, Text(Object(members), depth, fmt))
    ensures ParseObject(c, i, depth) == Done(Object(members), i + |Text(Object(members), depth, fmt)|)
    decreases members, 1
  {
    hide Word, Skip, Blank, ParseValue, ParseMembers, ParseString, MembersText, Text, ObjectEnd;
    ObjectTextSplit(members, depth, fmt);
    var open := [LBRACE] + (if fmt then [NEWLINE] else []);
    var body := MembersText(members, depth + 1, fmt);
    var rest := body + ObjectEnd(depth, fmt);
    WordSplit(c, i, open, rest);
    if fmt { WordAt(c, i, open, 1); }
    var j := i + |open|;
    if members == [] {
      assert [] + ObjectEnd(depth, fmt) == ObjectEnd(depth, fmt);
      BlankThenBrace(c, i + 1, j, depth, fmt);
    } else {
      MembersRoundTrip(c, i, j, members, depth + 1, fmt);
      var k := QuotePlace(c, i, j, members, depth + 1, fmt);
      SkipRun(c, i + 1, k);
      // The loop resumes one byte before the first key; only blanks lie between.
      SkipRun(c, k, k);
      SameStart(c, k - 1, i, depth + 1);
    }
  }

  lemma SameStart(c: seq<byte>, o: nat, o': nat, depth: nat)
    requires o + 1 < |c| && o' + 1 < |c| && Skip(c, o + 1) == Skip(c, o' + 1)
    ensures ParseMembers(c, o, depth) == ParseMembers(c, o', depth)
  {
    hide Skip, ParseValue, ParseString;
  }

  /** Offset of the first key's opening quote. */
  lemma QuotePlace(c: seq<byte>, o: nat, j: nat, members: seq<Member>, depth: nat, fmt: bool) returns (k: nat)
    requires members != [] && PrintableMembers(members) && o < j && depth > 0
    requires Word(c, j, MembersText(members, depth, fmt) + ObjectEnd(depth - 1, fmt))
    requires forall k :: o < k < j ==> k < |c| && c[k] <= 32
    ensures k == j + (if fmt then depth else 0) && At(c, k, QUOTE) && Word(c, k, Quote(members[0].name))
    ensures forall n :: o < n < k ==> c[n] <= 32
  {
    hide Word, Text, Quote, MembersText, MemberKey, MemberEnd, ObjectEnd;
    MembersTextSplit(members, depth, fmt);
    MemberKeySplit(members[0].name, depth, fmt);
    var key := MemberKey(members[0].name, depth, fmt);
    var rest := Text(members[0].value, depth, fmt)
      + (MemberEnd(|members| > 1, fmt) + (MembersText(members[1..], depth, fmt) + ObjectEnd(depth - 1, fmt)));
    WordSplit(c, j, key, rest);
    var indent := if fmt then Tabs(depth) else [];
    var name, after := Quote(members[0].name), if fmt then [COLON, TAB] else [COLON];
    k := j + |indent|;
    WordSplit(c, j, indent, name + after);
    WordSplit(c, k, name, after);
    QuoteFirst(members[0].name);
    WordAt(c, k, name, 0);
    forall n | j <= n < k ensures c[n] <= 32 { WordAt(c, j, indent, n - j); }
  }

  lemma QuoteFirst(s: seq<byte>)
    ensures Quote(s) != [] && Quote(s)[0] == QUOTE
  {
  }

  lemma BlankThenBrace(c: seq<byte>, i: nat, j: nat, depth: nat, fmt: bool)
    requires i <= j && Word(c, j, ObjectEnd(depth, fmt)) && forall k :: i <= k < j ==> k < |c| && c[k] <= 32
    ensures Skip(c, i) == j + |ObjectEnd(depth, fmt)| - 1 && At(c, Skip(c, i), RBRACE)
  {
    hide Word, Skip;
    var t := ObjectEnd(depth, fmt);
    var e := j + |t| - 1;
    WordAt(c, j, t, |t| - 1);
    forall k | j <= k < e ensures c[k] <= 32 { WordAt(c, j, t, k - j); }
    SkipRun(c, i, e);
  }

  /** Indentation, key and colon lead the parser to the value. */
  lemma KeyRoundTrip(c: seq<byte>, o: nat, j: nat, name: seq<byte>, depth: nat, fmt: bool)
    requires o < j && 0 !in name && Word(c, j, MemberKey(name, depth, fmt))
    requires forall k :: o < k < j ==> k < |c| && c[k] <= 32
    requires var v := j + |MemberKey(name, depth, fmt)|; v < |c| && c[v] > 32
    ensures var r := ParseString(c, Skip(c, o + 1));
            && r.DoneText? && r.text == name && At(c, Skip(c, r.next), COLON)
            && Skip(c, Skip(c, r.next) + 1) == j + |MemberKey(name, depth, fmt)|
  {
    hide Word, Skip, Blank, ParseString, Quote, MemberKey, Tabs;
    var q := j + (if fmt then |Tabs(depth)| else 0);
    var k := q + |Quote(name)|;
    KeyParts(c, j, name, depth, fmt, q, k);
    SkipRun(c, o + 1, q);
    StringRoundTrip(c, q, name);
    SkipRun(c, k, k);
    SkipRun(c, k + 1, j + |MemberKey(name, depth, fmt)|);
  }

  /** Where the parts of a member's key are, and what is between them. */
  lemma KeyParts(c: seq<byte>, j: nat, name: seq<byte>, depth: nat, fmt: bool, q: nat, k: nat)
    requires Word(c, j, MemberKey(name, depth, fmt))
    requires q == j + (if fmt then |Tabs(depth)| else 0) && k == q + |Quote(name)|
    ensures j + |MemberKey(name, depth, fmt)| == k + (if fmt then 2 else 1)
    ensures q < k < |c| && Word(c, q, Quote(name)) && c[q] == QUOTE && c[k] == COLON
    ensures forall n :: j <= n < q ==> c[n] <= 32
    ensures fmt ==> k + 1 < |c| && c[k + 1] <= 32
  {
    hide Word, Quote, MemberKey;
    QuoteFirst(name);
    var indent := if fmt then Tabs(depth) else [];
    var colon := if fmt then [COLON, TAB] else [COLON];
    MemberKeySplit(name, depth, fmt);
    WordSplit(c, j, indent, Quote(name) + colon);
    WordSplit(c, q, Quote(name), colon);
    WordAt(c, q, Quote(name), 0);
    WordAt(c, k, colon, 0);
    if fmt { WordAt(c, k, colon, 1); }
    forall n | j <= n < q ensures c[n] <= 32 { WordAt(c, j, indent, n - j); }
  }

  /** One pass of the loop of `parse_object`. */
  lemma MembersStep(c: seq<byte>, o: nat, depth: nat, m: Member, next: nat)
    requires o + 1 < |c|
    requires var r := ParseString(c, Skip(c, o + 1));
             && r.DoneText? && r.text == m.name && At(c, Skip(c, r.next), COLON)
             && ParseValue(c, Skip(c, Skip(c, r.next) + 1), depth) == Done(m.value, next)
    ensures var k := Skip(c, next);
            && (At(c, k, RBRACE) ==> ParseMembers(c, o, depth) == DoneMembers([m], k + 1))
            && var rest := ParseMembers(c, k, depth);
               At(c, k, COMMA) && rest.DoneMembers? ==>
                 ParseMembers(c, o, depth) == DoneMembers([m] + rest.members, rest.next)
  {
    hide Skip, ParseValue, ParseString;
  }

  /** After a member comes a comma, a newline or the closing brace: never more of a number. */
  lemma GapDelimits(c: seq<byte>, e: nat, members: seq<Member>, depth: nat, fmt: bool)
    requires PrintableMembers(members) && members != [] && depth > 0
    requires var rest := MembersText(members[1..], depth, fmt) + ObjectEnd(depth - 1, fmt);
             Word(c, e, MemberEnd(|members| > 1, fmt) + rest)
    ensures Delimited(c, e)
  {
    hide Word, MembersText;
    ObjectTextSplit([], depth - 1, fmt);
    var t := MemberEnd(|members| > 1, fmt) + (MembersText(members[1..], depth, fmt) + ObjectEnd(depth - 1, fmt));
    if |members| == 1 { assert members[1..] == []; }
    WordAt(c, e, t, 0);
  }

  /** One member is read back: key, colon and value. */
  lemma {:induction false} MemberRoundTrip(c: seq<byte>, o: nat, j: nat, m: Member, depth: nat, fmt: bool)
    requires 0 !in m.name && Printable(m.value) && depth + Nesting(m.value) <= NESTING_LIMIT
    requires o < j && forall k :: o < k < j ==> k < |c| && c[k] <= 32
    requires Word(c, j, MemberKey(m.name, depth, fmt))
    requires Word(c, j + |MemberKey(m.name, depth, fmt)|, Text(m.value, depth, fmt))
    requires Delimited(c, j + |MemberKey(m.name, depth, fmt)| + |Text(m.value, depth, fmt)|)
    ensures var r := ParseString(c, Skip(c, o + 1));
            && o + 1 < |c| && r.DoneText? && r.text == m.name && At(c, Skip(c, r.next), COLON)
            && ParseValue(c, Skip(c, Skip(c, r.next) + 1), depth)
               == Done(m.value, j + |MemberKey(m.name, depth, fmt)| + |Text(m.value, depth, fmt)|)
    decreases m, 0
  {
    hide Word, Skip, Blank, ParseValue, ParseString, Text, Nesting, MemberKey;
    var v := j + |MemberKey(m.name, depth, fmt)|;
    FirstByte(m.value, depth, fmt);
    WordAt(c, v, Text(m.value, depth, fmt), 0);
    KeyRoundTrip(c, o, j, m.name, depth, fmt);
    ValueRoundTrip(c, v, m.value, depth, fmt);
  }

  /** The members and the closing brace, with only blanks between offset `o` and them. */
  lemma {:induction false} MembersRoundTrip(c: seq<byte>, o: nat, j: nat, members: seq<Member>, depth: nat, fmt: bool)
    requires members != [] && PrintableMembers(members) && depth > 0 && depth + NestingMembers(members) <= NESTING_LIMIT
    requires o < j && Word(c, j, MembersText(members, depth, fmt) + ObjectEnd(depth - 1, fmt))
    requires forall k :: o < k < j ==> k < |c| && c[k] <= 32
    ensures ParseMembers(c, o, depth)
         == DoneMembers(members, j + |MembersText(members, depth, fmt)| + |ObjectEnd(depth - 1, fmt)|)
    decreases members, 0
  {
    hide Word, Skip, Blank, ParseValue, ParseString, ParseMembers, Text, Nesting, MemberKey, MembersText, ObjectEnd;
    MembersTextSplit(members, depth, fmt);
    var m := members[0];
    var key, t := MemberKey(m.name, depth, fmt), Text(m.value, depth, fmt);
    var gap := MemberEnd(|members| > 1, fmt);
    var rest := MembersText(members[1..], depth, fmt) + ObjectEnd(depth - 1, fmt);
    WordSplit(c, j, key, t + (gap + rest));
    WordSplit(c, j + |key|, t, gap + rest);
    var e := j + |key| + |t|;
    GapDelimits(c, e, members, depth, fmt);
    WordSplit(c, e, gap, rest);
    MemberRoundTrip(c, o, j, m, depth, fmt);
    MembersStep(c, o, depth, m, e);
    if |members| > 1 {
      CommaNext(c, e, fmt);
      MembersRoundTrip(c, e, e + |gap|, members[1..], depth, fmt);
      assert [m] + members[1..] == members;
    } else {
      ObjectTextSplit([], depth - 1, fmt);
      assert members[1..] == [] && rest == ObjectEnd(depth - 1, fmt);
      if fmt { WordAt(c, e, gap, 0); }
      BlankThenBrace(c, e, e + |gap|, depth - 1, fmt);
      assert [m] == members;
    }
  }

  lemma CommaNext(c: seq<byte>, e: nat, fmt: bool)
    requires Word(c, e, MemberEnd(true, fmt))
    ensures Skip(c, e) == e && At(c, e, COMMA)
    ensures forall k :: e < k < e + |MemberEnd(true, fmt)| ==> k < |c| && c[k] <= 32
  {
    WordAt(c, e, MemberEnd(true, fmt), 0);
    if fmt { WordAt(c, e, MemberEnd(true, fmt), 1); }
    SkipRun(c, e, e);
  }

  /** Parsing undoes printing, formatted or not, up to the nesting limit both sides share:
      for the exact text and for the text with its terminating NUL. */
  lemma ParseUndoesPrint(v: Json, fmt: bool)
    requires Printable(v) && Nesting(v) <= NESTING_LIMIT
    ensures Parse(Text(v, 0, fmt)) == Some(v)
    ensures Parse(Text(v, 0, fmt) + [0]) == Some(v)
  {
    var t := Text(v, 0, fmt);
    FirstByte(v, 0, fmt);
    ParseUndoesPrintBefore(v, fmt, []);
    ParseUndoesPrintBefore(v, fmt, [0]);
    assert t + [] == t;
  }

  lemma ParseUndoesPrintBefore(v: Json, fmt: bool, more: seq<byte>)
    requires Printable(v) && Nesting(v) <= NESTING_LIMIT && (more != [] ==> !NumberByte(more[0]))
    ensures Parse(Text(v, 0, fmt) + more) == Some(v)
  {
    hide Text, ParseValue, Skip, Nesting;
    var t := Text(v, 0, fmt);
    var c := t + more;
    FirstByte(v, 0, fmt);
    AsciiStart(v, fmt);
    assert c[0] == t[0] && c[0..|t|] == t;
    SkipRun(c, 0, 0);
    ValueRoundTrip(c, 0, v, 0, fmt);
  }

  /** A printed text never starts with a byte order mark. */
  lemma AsciiStart(v: Json, fmt: bool)
    requires Printable(v)
    ensures Text(v, 0, fmt) != [] && Text(v, 0, fmt)[0] < 0x80
  {
  }

  /** Different trees never print alike. */
  lemma PrintInjective(v: Json, w: Json, fmt: bool, fmt': bool)
    requires Printable(v) && Printable(w) && Nesting(v) <= NESTING_LIMIT && Nesting(w) <= NESTING_LIMIT
    requires Text(v, 0, fmt) == Text(w, 0, fmt')
    ensures v == w
  {
    ParseUndoesPrint(v, fmt);
    ParseUndoesPrint(w, fmt');
  }
}

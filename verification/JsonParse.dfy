/** What the parser of gateway/src/cJSON.c computes, as functions of the whole text, an offset
    and the nesting depth. Total: every byte sequence parses to a tree or fails. */
module JsonParse {
  import opened Bytes
  import opened Json
  import opened Utf

  datatype Parsed = Fail | Done(value: Json, next: nat)
  datatype ParsedItems = FailItems | DoneItems(items: seq<Json>, next: nat)
  datatype ParsedMembers = FailMembers | DoneMembers(members: seq<Member>, next: nat)
  datatype ParsedText = FailText | DoneText(text: seq<byte>, next: nat)

  /** `c` has the byte `b` at offset `i`. */
  predicate At(c: seq<byte>, i: nat, b: byte) { i < |c| && c[i] == b }

  // ---- Whitespace ----

  /** The first offset from `i` on that holds a byte above 32, or the end. */
  function Blank(c: seq<byte>, i: nat): (j: nat)
    requires i <= |c|
    ensures i <= j <= |c|
    ensures forall k :: i <= k < j ==> c[k] <= 32
    ensures j < |c| ==> c[j] > 32
    decreases |c| - i
  {
    if i < |c| && c[i] <= 32 then Blank(c, i + 1) else i
  }

  /** `buffer_skip_whitespace`: steps back to the last byte when nothing else follows. */
  function Skip(c: seq<byte>, i: nat): (j: nat)
    ensures i <= j && (i < |c| ==> j < |c|) && (i >= |c| ==> j == i)
  {
    if i >= |c| then i
    else if Blank(c, i) == |c| then |c| - 1 else Blank(c, i)
  }

  // ---- Numbers ----

  predicate NumberByte(b: byte)
  {
    48 <= b <= 57 || b in {0x2B, 0x2D, 0x65, 0x45, 0x2E}
  }

  function NumberEnd(c: seq<byte>, i: nat): (j: nat)
    requires i <= |c|
    ensures i <= j <= |c|
    decreases |c| - i
  {
    if i < |c| && NumberByte(c[i]) then NumberEnd(c, i + 1) else i
  }

  function DigitsEnd(t: seq<byte>, i: nat): (j: nat)
    requires i <= |t|
    ensures i <= j <= |t|
    ensures forall k :: i <= k < j ==> 48 <= t[k] <= 57
    decreases |t| - i
  {
    if i < |t| && 48 <= t[i] <= 57 then DigitsEnd(t, i + 1) else i
  }

  /** Where strtod finds the parts of a number: the ends of sign, digits and fraction, the start of the
      exponent's digits, and the end. Without an exponent the last three are the same. */
  datatype Scan = Scan(sign: nat, whole: nat, fraction: nat, exponent: nat, end: nat)

  function ScanNumber(t: seq<byte>): (k: Scan)
    ensures k.sign <= k.whole <= k.fraction <= k.exponent <= k.end <= |t|
  {
    var s := if t != [] && t[0] in {0x2B, 0x2D} then 1 else 0;
    var a := DigitsEnd(t, s);
    var b := if At(t, a, 0x2E) then DigitsEnd(t, a + 1) else a;
    var e := if b < |t| && t[b] in {0x65, 0x45} then b + 1 else b;
    var x := if e > b && e < |t| && t[e] in {0x2B, 0x2D} then e + 1 else e;
    var y := if e > b then DigitsEnd(t, x) else x;
    if y == x then Scan(s, a, b, b, b) else Scan(s, a, b, x, y)
  }

  /** The value of the number whose parts are at `k`. */
  function ScannedValue(t: seq<byte>, k: Scan): (r: real)
    requires k.sign <= k.whole <= k.fraction <= k.exponent <= k.end <= |t|
  {
    var fraction := if k.fraction == k.whole then [] else t[k.whole + 1..k.fraction];
    var size := DigitsValue(t[k.sign..k.whole]) as real + DigitsValue(fraction) as real / Pow10(|fraction|) as real;
    var exponent := DigitsValue(t[k.exponent..k.end]);
    var scaled :=
      if k.exponent == k.fraction then size
      else if t[k.exponent - 1] == 0x2D then size / Power(exponent)
      else size * Power(exponent);
    if At(t, 0, 0x2D) then -scaled else scaled
  }

  /** strtod on a text of number bytes: how much of it is a number, and its value. */
  function Strtod(t: seq<byte>): (r: (nat, real))
    ensures r.0 <= |t|
  {
    var k := ScanNumber(t);
    if k.whole == k.sign && k.fraction <= k.whole + 1 then (0, 0.0) else (k.end, ScannedValue(t, k))
  }

  function Power(k: int): (p: real)
    ensures p > 0.0
  {
    if k <= 0 then 1.0 else Pow10(k) as real
  }

  function ParseNumber(c: seq<byte>, i: nat): (r: Parsed)
    requires i < |c|
    ensures r.Done? ==> i < r.next <= |c|
  {
    var (n, value) := Strtod(c[i..NumberEnd(c, i)]);
    if n == 0 then Fail else Done(Number(value), i + n)
  }

  // ---- Strings ----

  /** The first pass of `parse_string`: the closing quote, from offset `j` on. */
  function ClosingQuote(c: seq<byte>, j: nat): (r: Option<nat>)
    ensures r.Some? ==> j <= r.value < |c| && c[r.value] == QUOTE
    decreases |c| - j
  {
    if j >= |c| then None
    else if c[j] == QUOTE then Some(j)
    else if c[j] != BACKSLASH then ClosingQuote(c, j + 1)
    else if j + 1 >= |c| then None
    else ClosingQuote(c, j + 2)
  }

  /** The second pass: the bytes decoded from `c[p..end]`. An escape may run one byte past `end`. */
  function Unescape(c: seq<byte>, p: nat, end: nat): (r: Option<seq<byte>>)
    requires end < |c|
    decreases end + 1 - p
  {
    if p >= end then Some([])
    else if c[p] != BACKSLASH then Prepend([c[p]], Unescape(c, p + 1, end))
    else if c[p + 1] == LETTER_U then
      var r := Literal(c, p, end);
      if r.None? then None else Prepend(Utf8(r.value.0), Unescape(c, p + r.value.1, end))
    else
      var r := ShortEscape(c[p + 1]);
      if r.None? then None else Prepend([r.value], Unescape(c, p + 2, end))
  }

  function Prepend(s: seq<byte>, r: Option<seq<byte>>): (t: Option<seq<byte>>)
  {
    if r.None? then None else Some(s + r.value)
  }

  function ShortEscape(b: byte): (r: Option<byte>)
  {
    if b == 0x62 then Some(8)
    else if b == 0x66 then Some(12)
    else if b == 0x6E then Some(10)
    else if b == 0x72 then Some(13)
    else if b == 0x74 then Some(9)
    else if b in {QUOTE, BACKSLASH, 0x2F} then Some(b)
    else None
  }

  function ParseString(c: seq<byte>, i: nat): (r: ParsedText)
    ensures r.DoneText? ==> i < r.next <= |c|
  {
    if !At(c, i, QUOTE) then FailText
    else
      var end := ClosingQuote(c, i + 1);
      if end.None? then FailText
      else
        var text := Unescape(c, i + 1, end.value);
        if text.None? then FailText else DoneText(CString(text.value), end.value + 1)
  }

  // ---- Values ----

  predicate Word(c: seq<byte>, i: nat, w: seq<byte>)
  {
    i + |w| <= |c| && c[i..i + |w|] == w
  }

  function ParseValue(c: seq<byte>, i: nat, depth: nat): (r: Parsed)
    ensures r.Done? ==> i < r.next <= |c|
    decreases |c| - i, 3
  {
    if Word(c, i, NULL_TEXT) then Done(Null, i + 4)
    else if Word(c, i, FALSE_TEXT) then Done(False, i + 5)
    else if Word(c, i, TRUE_TEXT) then Done(True, i + 4)
    else if i >= |c| then Fail
    else if c[i] == QUOTE then
      var r := ParseString(c, i);
      if r.FailText? then Fail else Done(String(r.text), r.next)
    else if c[i] == MINUS || 48 <= c[i] <= 57 then ParseNumber(c, i)
    else if c[i] == LBRACKET then ParseArray(c, i, depth)
    else if c[i] == LBRACE then ParseObject(c, i, depth)
    else Fail
  }

  function ParseArray(c: seq<byte>, i: nat, depth: nat): (r: Parsed)
    requires At(c, i, LBRACKET)
    ensures r.Done? ==> i < r.next <= |c|
    decreases |c| - i, 2
  {
    var k := Skip(c, i + 1);
    if depth >= NESTING_LIMIT then Fail
    else if At(c, k, RBRACKET) then Done(Array([]), k + 1)
    else if k >= |c| then Fail
    else
      var r := ParseItems(c, k - 1, depth + 1);
      if r.FailItems? then Fail else Done(Array(r.items), r.next)
  }

  /** The loop of `parse_array`; `o` is the offset of the byte before the next element. */
  function ParseItems(c: seq<byte>, o: nat, depth: nat): (r: ParsedItems)
    ensures r.DoneItems? ==> o < r.next <= |c|
    decreases |c| - o, 1
  {
    if o >= |c| then FailItems
    else
      var v := ParseValue(c, Skip(c, o + 1), depth);
      if v.Fail? then FailItems
      else
        var k := Skip(c, v.next);
        if At(c, k, COMMA) then
          var rest := ParseItems(c, k, depth);
          if rest.FailItems? then FailItems else DoneItems([v.value] + rest.items, rest.next)
        else if At(c, k, RBRACKET) then DoneItems([v.value], k + 1)
        else FailItems
  }

  function ParseObject(c: seq<byte>, i: nat, depth: nat): (r: Parsed)
    requires At(c, i, LBRACE)
    ensures r.Done? ==> i < r.next <= |c|
    decreases |c| - i, 2
  {
    var k := Skip(c, i + 1);
    if depth >= NESTING_LIMIT then Fail
    else if At(c, k, RBRACE) then Done(Object([]), k + 1)
    else if k >= |c| then Fail
    else
      var r := ParseMembers(c, k - 1, depth + 1);
      if r.FailMembers? then Fail else Done(Object(r.members), r.next)
  }

  function ParseMembers(c: seq<byte>, o: nat, depth: nat): (r: ParsedMembers)
    ensures r.DoneMembers? ==> o < r.next <= |c|
    decreases |c| - o, 1
  {
    if o + 1 >= |c| then FailMembers
    else
      var name := ParseString(c, Skip(c, o + 1));
      if name.FailText? then FailMembers
      else
        var k := Skip(c, name.next);
        if !At(c, k, COLON) then FailMembers
        else
          var v := ParseValue(c, Skip(c, k + 1), depth);
          if v.Fail? then FailMembers
          else
            var m := Member(name.text, v.value);
            var e := Skip(c, v.next);
            if At(c, e, COMMA) then
              var rest := ParseMembers(c, e, depth);
              if rest.FailMembers? then FailMembers else DoneMembers([m] + rest.members, rest.next)
            else if At(c, e, RBRACE) then DoneMembers([m], e + 1)
            else FailMembers
  }

  /** `skip_utf8_bom` at the start of a buffer. */
  function AfterBom(c: seq<byte>): (i: nat)
  {
    if |c| > 4 && c[..3] == [0xEF, 0xBB, 0xBF] then 3 else 0
  }

  /** `cJSON_ParseWithLength`: a tree, or nothing; bytes after the value are ignored. */
  function Parse(c: seq<byte>): (r: Option<Json>)
  {
    if c == [] then None
    else
      var v := ParseValue(c, Skip(c, AfterBom(c)), 0);
      if v.Fail? then None else Some(v.value)
  }
}

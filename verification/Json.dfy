/** JSON trees and their text, as printed by gateway/src/cJSON.c. */
module Json {
  import opened Bytes
  import Utf

  const INT_MAX: int := 0x7FFF_FFFF
  const INT_MIN: int := -0x8000_0000
  const NESTING_LIMIT: nat := 1000

  const QUOTE: byte := 0x22
  const COMMA: byte := 0x2C
  const COLON: byte := 0x3A
  const MINUS: byte := 0x2D
  const LBRACKET: byte := 0x5B
  const RBRACKET: byte := 0x5D
  const LBRACE: byte := 0x7B
  const RBRACE: byte := 0x7D
  const TAB: byte := 9
  const NEWLINE: byte := 10
  const SPACE: byte := 32

  /** An item: `value` is `valuedouble` without its rounding, and texts are C strings. */
  datatype Json =
    | Null
    | False
    | True
    | Number(value: real)
    | String(text: seq<byte>)
    | Array(items: seq<Json>)
    | Object(members: seq<Member>)

  datatype Member = Member(name: seq<byte>, value: Json)

  /** `valueint`: the number truncated towards zero and saturated to the int range. */
  function ValueInt(d: real): (n: int)
    ensures INT_MIN <= n <= INT_MAX
  {
    if d >= INT_MAX as real then INT_MAX
    else if d <= INT_MIN as real then INT_MIN
    else if d >= 0.0 then d.Floor
    else -((-d).Floor)
  }

  lemma ValueIntOfInt(n: int)
    requires INT_MIN <= n <= INT_MAX
    ensures ValueInt(n as real) == n
  {
  }

  /** Trees whose numbers are int-range integers and whose texts hold no NUL. */
  predicate Printable(v: Json)
    decreases v, 1
  {
    match v
    case Number(d) => d == ValueInt(d) as real
    case String(s) => 0 !in s
    case Array(items) => PrintableItems(items)
    case Object(members) => PrintableMembers(members)
    case _ => true
  }

  predicate PrintableItems(items: seq<Json>)
    decreases items, 0
  {
    items == [] || (Printable(items[0]) && PrintableItems(items[1..]))
  }

  predicate PrintableMembers(members: seq<Member>)
    decreases members, 0
  {
    members == [] || (0 !in members[0].name && Printable(members[0].value) && PrintableMembers(members[1..]))
  }

  /** How many arrays and objects enclose the deepest point of `v`. */
  function Nesting(v: Json): (n: nat)
    decreases v, 1
  {
    match v
    case Array(items) => 1 + NestingItems(items)
    case Object(members) => 1 + NestingMembers(members)
    case _ => 0
  }

  function Max(a: nat, b: nat): (m: nat) { if a < b then b else a }

  function NestingItems(items: seq<Json>): (n: nat)
    decreases items, 0
  {
    if items == [] then 0 else Max(Nesting(items[0]), NestingItems(items[1..]))
  }

  function NestingMembers(members: seq<Member>): (n: nat)
    decreases members, 0
  {
    if members == [] then 0 else Max(Nesting(members[0].value), NestingMembers(members[1..]))
  }

  // ---- Numbers ----

  /** Decimal digits of `n`, no leading zeros. */
  function Digits(n: nat): (t: seq<byte>)
    ensures t != [] && forall i :: 0 <= i < |t| ==> 48 <= t[i] <= 57
  {
    if n < 10 then [48 + n] else Digits(n / 10) + [48 + n % 10]
  }

  /** sprintf("%d"). */
  function Decimal(n: int): (t: seq<byte>)
    ensures t != []
  {
    if n < 0 then [MINUS] + Digits(-n) else Digits(n)
  }

  function DigitsValue(t: seq<byte>): (n: int)
    decreases |t|
  {
    if t == [] then 0 else 10 * DigitsValue(t[..|t| - 1]) + t[|t| - 1] - 48
  }

  lemma {:induction false} DigitsValueOfDigits(n: nat)
    ensures DigitsValue(Digits(n)) == n
  {
    var t := Digits(n);
    if n < 10 {
      assert t[..|t| - 1] == [];
    } else {
      DigitsValueOfDigits(n / 10);
      assert t[..|t| - 1] == Digits(n / 10);
    }
  }

  function Pow10(k: nat): (p: nat)
    ensures p >= 1
  {
    if k == 0 then 1 else 10 * Pow10(k - 1)
  }

  lemma {:induction false} DigitsLength(n: nat, k: nat)
    requires n < Pow10(k) && k > 0
    ensures |Digits(n)| <= k
    decreases k
  {
    if n >= 10 {
      assert k > 1;
      DigitsLength(n / 10, k - 1);
    }
  }

  // ---- Strings ----

  /** The printed form of one byte of a string. */
  function Escape(b: byte): (t: seq<byte>)
  {
    if b == QUOTE || b == BACKSLASH then [BACKSLASH, b]
    else if b == 8 then [BACKSLASH, 0x62]
    else if b == 12 then [BACKSLASH, 0x66]
    else if b == 10 then [BACKSLASH, 0x6E]
    else if b == 13 then [BACKSLASH, 0x72]
    else if b == 9 then [BACKSLASH, 0x74]
    else if b < 32 then Utf.UnitText(b)
    else [b]
  }

  function EscapeAll(s: seq<byte>): (t: seq<byte>)
    decreases |s|
  {
    if s == [] then [] else Escape(s[0]) + EscapeAll(s[1..])
  }

  function Quote(s: seq<byte>): (t: seq<byte>)
  {
    [QUOTE] + EscapeAll(s) + [QUOTE]
  }

  // ---- Trees ----

  const NULL_TEXT: seq<byte> := [0x6E, 0x75, 0x6C, 0x6C]
  const FALSE_TEXT: seq<byte> := [0x66, 0x61, 0x6C, 0x73, 0x65]
  const TRUE_TEXT: seq<byte> := [0x74, 0x72, 0x75, 0x65]

  function Tabs(n: nat): (t: seq<byte>)
    ensures |t| == n
  {
    seq(n, i => TAB)
  }

  /** The text of `v` inside `depth` arrays and objects; `fmt` selects the indented form. */
  function Text(v: Json, depth: nat, fmt: bool): (t: seq<byte>)
    requires Printable(v)
    decreases v, 1
  {
    match v
    case Null => NULL_TEXT
    case False => FALSE_TEXT
    case True => TRUE_TEXT
    case Number(d) => Decimal(ValueInt(d))
    case String(s) => Quote(s)
    case Array(items) => [LBRACKET] + ItemsText(items, depth + 1, fmt) + [RBRACKET]
    case Object(members) =>
      [LBRACE] + (if fmt then [NEWLINE] else []) + MembersText(members, depth + 1, fmt)
      + (if fmt then Tabs(depth) else []) + [RBRACE]
  }

  function ItemsText(items: seq<Json>, depth: nat, fmt: bool): (t: seq<byte>)
    requires PrintableItems(items)
    decreases items, 0
  {
    if items == [] then []
    else Text(items[0], depth, fmt)
         + (if |items| == 1 then [] else ItemGap(fmt) + ItemsText(items[1..], depth, fmt))
  }

  function ItemGap(fmt: bool): (t: seq<byte>) { if fmt then [COMMA, SPACE] else [COMMA] }

  function MembersText(members: seq<Member>, depth: nat, fmt: bool): (t: seq<byte>)
    requires PrintableMembers(members)
    decreases members, 0
  {
    if members == [] then []
    else MemberText(members[0], depth, fmt)
         + MemberEnd(|members| > 1, fmt) + MembersText(members[1..], depth, fmt)
  }

  function MemberText(m: Member, depth: nat, fmt: bool): (t: seq<byte>)
    requires 0 !in m.name && Printable(m.value)
    decreases m, 2
  {
    MemberKey(m.name, depth, fmt) + Text(m.value, depth, fmt)
  }

  /** Indentation, key and colon of a member. */
  function MemberKey(name: seq<byte>, depth: nat, fmt: bool): (t: seq<byte>)
  {
    (if fmt then Tabs(depth) else []) + Quote(name) + (if fmt then [COLON, TAB] else [COLON])
  }

  function MemberEnd(more: bool, fmt: bool): (t: seq<byte>)
  {
    (if more then [COMMA] else []) + (if fmt then [NEWLINE] else [])
  }
}

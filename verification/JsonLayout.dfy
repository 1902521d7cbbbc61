/** How the printer of gateway/src/cJSON.c lays a tree out, by the characters themselves. */
module JsonLayout {
  import opened Bytes
  import opened Json

  /** The three words. */
  lemma Words(depth: nat, fmt: bool)
    ensures Text(Null, depth, fmt) == Ascii("null")
    ensures Text(True, depth, fmt) == Ascii("true")
    ensures Text(False, depth, fmt) == Ascii("false")
  {
  }

  /** Elements are separated by a comma, and in the indented form by a blank too. */
  lemma ArrayLayout(x: Json, y: Json, depth: nat, fmt: bool)
    requires Printable(x) && Printable(y)
    ensures Printable(Array([x, y]))
    ensures Text(Array([x, y]), depth, fmt) ==
            Ascii("[") + Text(x, depth + 1, fmt) + Ascii(if fmt then ", " else ",")
            + Text(y, depth + 1, fmt) + Ascii("]")
  {
    hide Text;
    assert [x, y][1..] == [y];
    OneItem(y, depth + 1, fmt);
    ArrayText([x, y], depth, fmt);
    assert ItemGap(fmt) == Ascii(if fmt then ", " else ",");
  }

  lemma ArrayText(items: seq<Json>, depth: nat, fmt: bool)
    requires PrintableItems(items)
    ensures Printable(Array(items))
    ensures Text(Array(items), depth, fmt) == Ascii("[") + ItemsText(items, depth + 1, fmt) + Ascii("]")
  {
    hide ItemsText;
    assert Ascii("[") == [LBRACKET] && Ascii("]") == [RBRACKET];
  }

  lemma OneItem(y: Json, depth: nat, fmt: bool)
    requires Printable(y)
    ensures PrintableItems([y]) && ItemsText([y], depth, fmt) == Text(y, depth, fmt)
  {
    hide Text;
  }

  /** In the indented form every member has its own line, indented by one tab for each level, with a tab
      after its colon; the closing brace is indented by one level less. */
  lemma ObjectLayout(a: Member, b: Member, depth: nat)
    requires 0 !in a.name && Printable(a.value) && 0 !in b.name && Printable(b.value)
    ensures Printable(Object([a, b]))
    ensures Text(Object([a, b]), depth, true) ==
            Ascii("{\n") +
            Indent(depth + 1) + Quote(a.name) + Ascii(":\t") + Text(a.value, depth + 1, true) + Ascii(",\n") +
            Indent(depth + 1) + Quote(b.name) + Ascii(":\t") + Text(b.value, depth + 1, true) + Ascii("\n") +
            Indent(depth) + Ascii("}")
  {
    hide Quote, Text, MembersText, PrintableMembers, Printable, Ascii, Indent;
    var none: seq<Member> := [];
    NoMembers(depth + 1);
    MemberLine(b, none, depth + 1);
    assert [b] + none == [b];
    MemberLine(a, [b], depth + 1);
    assert [a] + [b] == [a, b];
    ObjectText([a, b], depth);
  }

  lemma NoMembers(depth: nat)
    ensures PrintableMembers([]) && MembersText([], depth, true) == []
  {
  }

  function Indent(n: nat): (t: seq<byte>) { if n == 0 then [] else Indent(n - 1) + Ascii("\t") }

  lemma {:induction false} IndentIsTabs(n: nat)
    ensures Indent(n) == Tabs(n)
  {
    if n > 0 { IndentIsTabs(n - 1); }
  }

  lemma Marks()
    ensures Ascii("{\n") == [LBRACE, NEWLINE] && Ascii(":\t") == [COLON, TAB] && Ascii("}") == [RBRACE]
    ensures Ascii(",\n") == [COMMA, NEWLINE] && Ascii("\n") == [NEWLINE]
  {
  }

  lemma ObjectText(ms: seq<Member>, depth: nat)
    requires PrintableMembers(ms)
    ensures Printable(Object(ms))
    ensures Text(Object(ms), depth, true) ==
            Ascii("{\n") + MembersText(ms, depth + 1, true) + Indent(depth) + Ascii("}")
  {
    hide MembersText, Tabs;
    Marks();
    IndentIsTabs(depth);
  }

  lemma MemberLine(m: Member, ms: seq<Member>, depth: nat)
    requires 0 !in m.name && Printable(m.value) && PrintableMembers(ms)
    ensures PrintableMembers([m] + ms)
    ensures MembersText([m] + ms, depth, true) ==
            Indent(depth) + Quote(m.name) + Ascii(":\t") + Text(m.value, depth, true) +
            (if ms == [] then Ascii("\n") else Ascii(",\n")) + MembersText(ms, depth, true)
  {
    hide Quote, Text, Tabs;
    Marks();
    IndentIsTabs(depth);
    assert ([m] + ms)[1..] == ms;
  }

  /** A control byte without a short escape is printed in lower-case hexadecimal. */
  lemma ControlByte(b: byte)
    requires b < 32 && b !in {8, 9, 10, 12, 13}
    ensures Escape(b) == Ascii("\\u00") + [0x30 + b / 16, if b % 16 < 10 then 0x30 + b % 16 else 0x61 + (b % 16 - 10)]
  {
    assert b / 16 / 16 == 0;
  }
}

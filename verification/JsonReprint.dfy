/** What the parser of gateway/src/cJSON.c can return at all, on any bytes: trees that the printer
    takes, but for their numbers. */
module JsonReprint {
  import opened Bytes
  import opened Json
  import opened JsonParse
  import JsonRoundTrip

  // ---- The two halves of being printable ----

  /** No text in the tree holds a NUL. */
  predicate NulFree(v: Json)
    decreases v, 1
  {
    match v
    case String(s) => 0 !in s
    case Array(items) => NulFreeItems(items)
    case Object(members) => NulFreeMembers(members)
    case _ => true
  }

  predicate NulFreeItems(items: seq<Json>)
    decreases items, 0
  {
    items == [] || (NulFree(items[0]) && NulFreeItems(items[1..]))
  }

  predicate NulFreeMembers(members: seq<Member>)
    decreases members, 0
  {
    members == [] || (0 !in members[0].name && NulFree(members[0].value) && NulFreeMembers(members[1..]))
  }

  /** All numbers in the tree are integers in the range of int. */
  predicate Integral(v: Json)
    decreases v, 1
  {
    match v
    case Number(d) => d == ValueInt(d) as real
    case Array(items) => IntegralItems(items)
    case Object(members) => IntegralMembers(members)
    case _ => true
  }

  predicate IntegralItems(items: seq<Json>)
    decreases items, 0
  {
    items == [] || (Integral(items[0]) && IntegralItems(items[1..]))
  }

  predicate IntegralMembers(members: seq<Member>)
    decreases members, 0
  {
    members == [] || (Integral(members[0].value) && IntegralMembers(members[1..]))
  }

  lemma {:induction false} PrintableParts(v: Json)
    ensures Printable(v) <==> NulFree(v) && Integral(v)
    decreases v, 1
  {
    match v
    case Array(items) => PrintableItemsParts(items);
    case Object(members) => PrintableMembersParts(members);
    case _ =>
  }

  lemma {:induction false} PrintableItemsParts(items: seq<Json>)
    ensures PrintableItems(items) <==> NulFreeItems(items) && IntegralItems(items)
    decreases items, 0
  {
    if items != [] {
      PrintableParts(items[0]);
      PrintableItemsParts(items[1..]);
    }
  }

  lemma {:induction false} PrintableMembersParts(members: seq<Member>)
    ensures PrintableMembers(members) <==> NulFreeMembers(members) && IntegralMembers(members)
    decreases members, 0
  {
    if members != [] {
      PrintableParts(members[0].value);
      PrintableMembersParts(members[1..]);
    }
  }

  // ---- What the parser returns ----

  /** A value parsed at some depth stays within the nesting limit, and its texts are C strings. */
  lemma {:induction false} ValueShape(c: seq<byte>, i: nat, depth: nat)
    requires depth <= NESTING_LIMIT
    ensures var r := ParseValue(c, i, depth);
            r.Done? ==> NulFree(r.value) && depth + Nesting(r.value) <= NESTING_LIMIT
    decreases |c| - i, 3
  {
    hide ParseString, ParseArray, ParseObject, Word;
    if i < |c| && c[i] == QUOTE {
      TextShape(c, i);
    } else if i < |c| && c[i] == LBRACKET {
      ArrayShape(c, i, depth);
    } else if i < |c| && c[i] == LBRACE {
      ObjectShape(c, i, depth);
    }
  }

  lemma TextShape(c: seq<byte>, i: nat)
    ensures ParseString(c, i).DoneText? ==> 0 !in ParseString(c, i).text
  {
  }

  lemma {:induction false} ArrayShape(c: seq<byte>, i: nat, depth: nat)
    requires At(c, i, LBRACKET) && depth <= NESTING_LIMIT
    ensures var r := ParseArray(c, i, depth);
            r.Done? ==> r.value.Array? && NulFree(r.value) && depth + Nesting(r.value) <= NESTING_LIMIT
    decreases |c| - i, 2
  {
    hide ParseItems, Skip;
    var k := Skip(c, i + 1);
    if depth < NESTING_LIMIT && k < |c| { ItemsShape(c, k - 1, depth + 1); }
  }

  lemma {:induction false} ItemsShape(c: seq<byte>, o: nat, depth: nat)
    requires depth <= NESTING_LIMIT
    ensures var r := ParseItems(c, o, depth);
            r.DoneItems? ==> NulFreeItems(r.items) && depth + NestingItems(r.items) <= NESTING_LIMIT
    decreases |c| - o, 1
  {
    hide ParseValue, Skip;
    if o < |c| {
      ValueShape(c, Skip(c, o + 1), depth);
      var v := ParseValue(c, Skip(c, o + 1), depth);
      if v.Done? && At(c, Skip(c, v.next), COMMA) { ItemsShape(c, Skip(c, v.next), depth); }
    }
  }

  lemma {:induction false} ObjectShape(c: seq<byte>, i: nat, depth: nat)
    requires At(c, i, LBRACE) && depth <= NESTING_LIMIT
    ensures var r := ParseObject(c, i, depth);
            r.Done? ==> r.value.Object? && NulFree(r.value) && depth + Nesting(r.value) <= NESTING_LIMIT
    decreases |c| - i, 2
  {
    hide ParseMembers, Skip;
    var k := Skip(c, i + 1);
    if depth < NESTING_LIMIT && k < |c| { MembersShape(c, k - 1, depth + 1); }
  }

  lemma {:induction false} MembersShape(c: seq<byte>, o: nat, depth: nat)
    requires depth <= NESTING_LIMIT
    ensures var r := ParseMembers(c, o, depth);
            r.DoneMembers? ==> NulFreeMembers(r.members) && depth + NestingMembers(r.members) <= NESTING_LIMIT
    decreases |c| - o, 1
  {
    hide ParseValue, ParseString, Skip;
    if o + 1 < |c| {
      TextShape(c, Skip(c, o + 1));
      var name := ParseString(c, Skip(c, o + 1));
      if name.DoneText? && At(c, Skip(c, name.next), COLON) {
        var i := Skip(c, Skip(c, name.next) + 1);
        ValueShape(c, i, depth);
        var v := ParseValue(c, i, depth);
        if v.Done? && At(c, Skip(c, v.next), COMMA) { MembersShape(c, Skip(c, v.next), depth); }
      }
    }
  }

  /** Every tree that parsing returns, on any bytes, has NUL-free texts and is nested within the
      limit; it is in the modelled printer's domain exactly when its numbers are integers of int range. */
  lemma ParsedShape(c: seq<byte>)
    requires Parse(c).Some?
    ensures NulFree(Parse(c).value) && Nesting(Parse(c).value) <= NESTING_LIMIT
    ensures Printable(Parse(c).value) <==> Integral(Parse(c).value)
  {
    hide ParseValue, Skip, Nesting, NulFree;
    ValueShape(c, Skip(c, AfterBom(c)), 0);
    PrintableParts(Parse(c).value);
  }

  /** Whatever spacing, escapes and order of members a text had: what was parsed from it can be
      printed, in either format, and parses to the same tree again. */
  lemma ReprintStable(c: seq<byte>, fmt: bool)
    requires Parse(c).Some? && Integral(Parse(c).value)
    ensures Printable(Parse(c).value) && Parse(Text(Parse(c).value, 0, fmt)) == Parse(c)
  {
    hide Parse, Text, Printable, Integral;
    ParsedShape(c);
    JsonRoundTrip.ParseUndoesPrint(Parse(c).value, fmt);
  }
}

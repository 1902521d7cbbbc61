/** What the client's requests look like on the wire, byte for byte, and exactly which payloads the
    gateway takes for which request. */
module RequestTexts {
  import opened Bytes
  import opened Json
  import opened JsonParse
  import opened Requests

  // ---- Printed requests ----

  lemma Compact(name: string, v: Json, more: bool)
    requires Letters(name) && Printable(v)
    ensures 0 !in Ascii(name)
    ensures MemberText(Member(Ascii(name), v), 1, false) + MemberEnd(more, false) ==
            [QUOTE] + Ascii(name) + [QUOTE, COLON] + Text(v, 1, false) + (if more then [COMMA] else [])
  {
    hide Text, Ascii;
    LettersPlain(name);
    PlainUnescaped(Ascii(name));
  }

  lemma LettersPlain(name: string)
    requires Letters(name)
    ensures Plain(Ascii(name))
  {
  }

  lemma QuotedLetters(s: string)
    requires Letters(s)
    ensures 0 !in Ascii(s) && Text(String(Ascii(s)), 1, false) == [QUOTE] + Ascii(s) + [QUOTE]
  {
    hide Ascii;
    LettersPlain(s);
    PlainUnescaped(Ascii(s));
  }

  lemma NumberText(n: int32)
    ensures Printable(Number(n as real)) && Text(Number(n as real), 1, false) == Decimal(n)
  {
    ValueIntOfInt(n);
    hide Decimal;
  }

  lemma FirstMember(m: Member, ms: seq<Member>)
    requires 0 !in m.name && Printable(m.value) && PrintableMembers(ms)
    ensures PrintableMembers([m] + ms)
    ensures MembersText([m] + ms, 1, false) ==
            (MemberText(m, 1, false) + MemberEnd(ms != [], false)) + MembersText(ms, 1, false)
  {
    hide MemberText, MemberEnd;
    assert ([m] + ms)[1..] == ms;
  }

  lemma ObjectText(ms: seq<Member>)
    requires PrintableMembers(ms)
    ensures Printable(Object(ms)) && Text(Object(ms), 0, false) == [LBRACE] + MembersText(ms, 1, false) + [RBRACE]
    ensures ms == [] ==> MembersText(ms, 1, false) == []
  {
    hide MemberText, MemberEnd;
  }

  lemma TwoMembers(a: Member, b: Member)
    requires 0 !in a.name && Printable(a.value) && 0 !in b.name && Printable(b.value)
    ensures Printable(Object([a, b])) && Text(Object([a, b]), 0, false) ==
            [LBRACE] + (MemberText(a, 1, false) + MemberEnd(true, false)) +
            (MemberText(b, 1, false) + MemberEnd(false, false)) + [RBRACE]
  {
    hide MemberText, MemberEnd, MembersText, Text;
    FirstMember(b, []);
    FirstMember(a, [b]);
    ObjectText([]);
    assert [b] + [] == [b] && [a] + [b] == [a, b];
    ObjectText([a, b]);
  }

  lemma ActionFront()
    ensures [LBRACE] + ([QUOTE] + Ascii("action") + [QUOTE, COLON]) == Ascii("{\"action\":")
  {
  }

  lemma SensorMiddle()
    ensures ([QUOTE] + Ascii("get_sensor") + [QUOTE]) + [COMMA] + ([QUOTE] + Ascii("sensor_id") + [QUOTE, COLON]) ==
            Ascii("\"get_sensor\",\"sensor_id\":")
  {
  }

  lemma ActuatorMiddle()
    ensures ([QUOTE] + Ascii("set_actuator") + [QUOTE]) + [COMMA] + ([QUOTE] + Ascii("device_id") + [QUOTE, COLON]) ==
            Ascii("\"set_actuator\",\"device_id\":")
  {
  }

  lemma Rejoined(a: seq<byte>, b: seq<byte>, c: seq<byte>)
    ensures [LBRACE] + (a + b + [COMMA]) + c == ([LBRACE] + a) + (b + [COMMA] + c)
  {
  }

  lemma Closing()
    ensures Ascii("}") == [RBRACE]
    ensures [COMMA] + ([QUOTE] + Ascii("state") + [QUOTE, COLON]) == Ascii(",\"state\":")
    ensures [COMMA] + ([QUOTE] + Ascii("value") + [QUOTE, COLON]) == Ascii(",\"value\":")
  {
  }

  /** A request for a sensor, byte for byte. */
  lemma SensorPayload(id: int32)
    ensures Payload(GetSensor(id)) ==
            Ascii("{\"action\":") + Ascii("\"get_sensor\",\"sensor_id\":") + Decimal(id) + Ascii("}")
    ensures Kind(GetSensor(id)) == 4
  {
    hide Text, Decimal, MemberText, MemberEnd, Ascii, Printable, PrintableMembers;
    TreePrints(GetSensor(id));
    NumberText(id);
    QuotedLetters("get_sensor");
    Closing();
    var a, b := Member(Ascii("action"), String(Ascii("get_sensor"))), Member(Ascii("sensor_id"), Number(id as real));
    Parts([a, b], 0);
    Parts([a, b], 1);
    Compact("action", a.value, true);
    Compact("sensor_id", b.value, false);
    TwoMembers(a, b);
    var front := [LBRACE] + ([QUOTE] + Ascii("action") + [QUOTE, COLON] + Text(a.value, 1, false) + [COMMA]);
    var name := [QUOTE] + Ascii("sensor_id") + [QUOTE, COLON];
    assert front + (name + Decimal(id)) + [RBRACE] == (front + name) + Decimal(id) + [RBRACE];
    ActionFront();
    SensorMiddle();
    Rejoined([QUOTE] + Ascii("action") + [QUOTE, COLON], Text(a.value, 1, false), name);
  }

  lemma FourMembers(a: Member, b: Member, c: Member, d: Member)
    requires 0 !in a.name && Printable(a.value) && 0 !in b.name && Printable(b.value)
    requires 0 !in c.name && Printable(c.value) && 0 !in d.name && Printable(d.value)
    ensures Printable(Object([a, b, c, d])) && Text(Object([a, b, c, d]), 0, false) ==
            [LBRACE] + (MemberText(a, 1, false) + MemberEnd(true, false)) +
            (MemberText(b, 1, false) + MemberEnd(true, false)) + (MemberText(c, 1, false) + MemberEnd(true, false)) +
            (MemberText(d, 1, false) + MemberEnd(false, false)) + [RBRACE]
  {
    hide MemberText, MemberEnd, MembersText, Text, Printable, PrintableMembers;
    var none: seq<Member> := [];
    NoMembers();
    FirstMember(d, none);
    assert [d] + none == [d];
    FirstMember(c, [d]);
    assert [c] + [d] == [c, d];
    FirstMember(b, [c, d]);
    assert [b] + [c, d] == [b, c, d];
    FirstMember(a, [b, c, d]);
    assert [a] + [b, c, d] == [a, b, c, d];
    ObjectText([a, b, c, d]);
    Regroup(MemberText(a, 1, false) + MemberEnd(true, false), MemberText(b, 1, false) + MemberEnd(true, false),
            MemberText(c, 1, false) + MemberEnd(true, false), MemberText(d, 1, false) + MemberEnd(false, false));
  }

  lemma Regroup(p: seq<byte>, q: seq<byte>, r: seq<byte>, t: seq<byte>)
    ensures [LBRACE] + (p + (q + (r + (t + [])))) + [RBRACE] == [LBRACE] + p + q + r + t + [RBRACE]
  {
  }

  lemma NoMembers()
    ensures PrintableMembers([]) && MembersText([], 1, false) == []
  {
  }

  lemma Assembled(front: seq<byte>, n1: seq<byte>, t1: seq<byte>, n2: seq<byte>, t2: seq<byte>,
                  n3: seq<byte>, t3: seq<byte>)
    ensures front + (n1 + t1 + [COMMA]) + (n2 + t2 + [COMMA]) + (n3 + t3) + [RBRACE] ==
            (front + n1) + t1 + ([COMMA] + n2) + t2 + ([COMMA] + n3) + t3 + [RBRACE]
  {
  }

  /** An actuator command, byte for byte. */
  lemma ActuatorPayload(d: int32, s: int32, n: int32)
    ensures Payload(SetActuator(d, s, n)) ==
            Ascii("{\"action\":") + Ascii("\"set_actuator\",\"device_id\":") + Decimal(d) +
            Ascii(",\"state\":") + Decimal(s) + Ascii(",\"value\":") + Decimal(n) + Ascii("}")
    ensures Kind(SetActuator(d, s, n)) == 0x10
  {
    hide Text, Decimal, MemberText, MemberEnd, Ascii, Printable, PrintableMembers;
    TreePrints(SetActuator(d, s, n));
    NumberText(d);
    NumberText(s);
    NumberText(n);
    QuotedLetters("set_actuator");
    Closing();
    ActionFront();
    ActuatorMiddle();
    var ms := Tree(SetActuator(d, s, n)).members;
    Parts(ms, 0);
    Parts(ms, 1);
    Parts(ms, 2);
    Parts(ms, 3);
    Compact("action", ms[0].value, true);
    Compact("device_id", ms[1].value, true);
    Compact("state", ms[2].value, true);
    Compact("value", ms[3].value, false);
    FourMembers(ms[0], ms[1], ms[2], ms[3]);
    Rejoined([QUOTE] + Ascii("action") + [QUOTE, COLON], Text(ms[0].value, 1, false),
             [QUOTE] + Ascii("device_id") + [QUOTE, COLON]);
    Assembled([LBRACE] + ([QUOTE] + Ascii("action") + [QUOTE, COLON] + Text(ms[0].value, 1, false) + [COMMA]),
              [QUOTE] + Ascii("device_id") + [QUOTE, COLON], Decimal(d), [QUOTE] + Ascii("state") + [QUOTE, COLON],
              Decimal(s), [QUOTE] + Ascii("value") + [QUOTE, COLON], Decimal(n));
  }

  lemma Parts(ms: seq<Member>, k: nat)
    requires Printable(Object(ms)) && k < |ms|
    ensures PrintableMembers(ms) && 0 !in ms[k].name && Printable(ms[k].value)
    decreases k
  {
    if k > 0 {
      assert Printable(Object(ms[1..]));
      Parts(ms[1..], k - 1);
    }
  }

  // ---- Which payloads are which requests ----

  /** The first member of that name is a number whose int is `n`. */
  ghost predicate FirstIs(ms: seq<Member>, name: string, n: int)
    requires Letters(name)
  {
    exists k ::
      && 0 <= k < |ms| && ms[k].name == Ascii(name) && (forall j :: 0 <= j < k ==> ms[j].name != Ascii(name))
      && ms[k].value.Number? && ValueInt(ms[k].value.value) == n
  }

  lemma {:induction false} LookupFirst(ms: seq<Member>, name: seq<byte>) returns (k: nat)
    ensures k <= |ms| && (forall j :: 0 <= j < k ==> ms[j].name != name)
    ensures k < |ms| ==> ms[k].name == name
    ensures Lookup(ms, name) == if k < |ms| then Some(ms[k].value) else None
    decreases |ms|
  {
    if ms == [] {
      k := 0;
    } else if ms[0].name == name {
      k := 0;
    } else {
      var i := LookupFirst(ms[1..], name);
      k := i + 1;
      forall j | 0 <= j < k ensures ms[j].name != name { assert j > 0 ==> ms[j] == ms[1..][j - 1]; }
    }
  }

  lemma FieldIs(ms: seq<Member>, name: string, n: int32)
    requires Letters(name)
    ensures Field(Object(ms), Ascii(name)) == Some(n) <==> FirstIs(ms, name, n)
  {
    hide Ascii, ValueInt;
    var k := LookupFirst(ms, Ascii(name));
    if FirstIs(ms, name, n) {
      var i :| && 0 <= i < |ms| && ms[i].name == Ascii(name) && (forall j :: 0 <= j < i ==> ms[j].name != Ascii(name))
               && ms[i].value.Number? && ValueInt(ms[i].value.value) == n;
      assert !(k < i) && !(i < k);
    }
  }

  /** A payload is taken for an actuator command exactly when the frame says so, it parses to an object,
      and the first members of the three names are numbers. */
  lemma ActuatorUnderstood(kind: u16, payload: seq<byte>, d: int32, s: int32, n: int32)
    ensures Understand(kind, payload) == Some(SetActuator(d, s, n)) <==>
            && kind == 0x10 && payload != [] && Parse(payload).Some? && Parse(payload).value.Object?
            && var ms := Parse(payload).value.members;
               FirstIs(ms, "device_id", d) && FirstIs(ms, "state", s) && FirstIs(ms, "value", n)
  {
    hide Parse, Ascii, FirstIs, Lookup;
    if Parse(payload).Some? && Parse(payload).value.Object? {
      var ms := Parse(payload).value.members;
      FieldIs(ms, "device_id", d);
      FieldIs(ms, "state", s);
      FieldIs(ms, "value", n);
    }
  }

  /** And for a sensor request likewise. */
  lemma SensorUnderstood(kind: u16, payload: seq<byte>, id: int32)
    ensures Understand(kind, payload) == Some(GetSensor(id)) <==>
            && kind == 4 && payload != [] && Parse(payload).Some? && Parse(payload).value.Object?
            && FirstIs(Parse(payload).value.members, "sensor_id", id)
  {
    hide Parse, Ascii, FirstIs, Lookup;
    if Parse(payload).Some? && Parse(payload).value.Object? {
      FieldIs(Parse(payload).value.members, "sensor_id", id);
    }
  }
}

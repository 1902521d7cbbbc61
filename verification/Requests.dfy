/** Requests end to end: built and printed by gateway/client/client.c, framed, carried in any
    segmentation, decoded by gateway/src/server.c and parsed by gateway/src/payload_json.c. */
module Requests {
  import opened Bytes
  import opened Json
  import opened JsonParse
  import Frames
  import JsonRoundTrip
  import JsonParser

  type int32 = n: int | INT_MIN <= n <= INT_MAX

  datatype Request =
    | SetActuator(deviceId: int32, state: int32, value: int32)
    | GetSensor(sensorId: int32)

  // ---- The client's side ----

  function Tree(r: Request): (v: Json)
  {
    match r
    case SetActuator(d, s, n) =>
      Object([Member(Ascii("action"), String(Ascii("set_actuator"))),
              Member(Ascii("device_id"), Number(d as real)),
              Member(Ascii("state"), Number(s as real)),
              Member(Ascii("value"), Number(n as real))])
    case GetSensor(id) =>
      Object([Member(Ascii("action"), String(Ascii("get_sensor"))),
              Member(Ascii("sensor_id"), Number(id as real))])
  }

  function Kind(r: Request): (kind: u16)
  {
    match r
    case SetActuator(_, _, _) => Frames.MSG_SET_ACTUATOR
    case GetSensor(_) => Frames.MSG_GET_SENSOR
  }

  // ---- The gateway's side ----

  /** `get_object_item`, case sensitive: the first member of that name. */
  function Lookup(members: seq<Member>, name: seq<byte>): (r: Option<Json>)
    decreases |members|
  {
    if members == [] then None
    else if members[0].name == name then Some(members[0].value)
    else Lookup(members[1..], name)
  }

  /** The int of a numeric field of an object, if it has one. */
  function Field(v: Json, name: seq<byte>): (r: Option<int32>)
  {
    if !v.Object? then None
    else match Lookup(v.members, name)
      case Some(Number(d)) => Some(ValueInt(d))
      case _ => None
  }

  function ActuatorOf(v: Json): (r: Option<Request>)
  {
    var d, s, n := Field(v, Ascii("device_id")), Field(v, Ascii("state")), Field(v, Ascii("value"));
    if d.None? || s.None? || n.None? then None else Some(SetActuator(d.value, s.value, n.value))
  }

  function SensorOf(v: Json): (r: Option<Request>)
  {
    var id := Field(v, Ascii("sensor_id"));
    if id.None? then None else Some(GetSensor(id.value))
  }

  /** `json_parse_set_actuator_req` and `json_parse_get_sensor_req`, by the kind of the task. */
  function Understand(kind: u16, payload: seq<byte>): (r: Option<Request>)
  {
    var v := Parse(payload);
    if payload == [] || v.None? then None
    else if kind == Frames.MSG_SET_ACTUATOR then ActuatorOf(v.value)
    else if kind == Frames.MSG_GET_SENSOR then SensorOf(v.value)
    else None
  }

  /** `cJSON_GetObjectItemCaseSensitive`. */
  method GetObjectItem(v: Json, name: seq<byte>) returns (r: Option<Json>)
    ensures r == if v.Object? then Lookup(v.members, name) else None
  {
    if !v.Object? {
      return None;
    }
    var i := 0;
    assert v.members[0..] == v.members;
    while i < |v.members| && v.members[i].name != name
      invariant 0 <= i <= |v.members|
      invariant Lookup(v.members, name) == Lookup(v.members[i..], name)
    {
      assert v.members[i..][1..] == v.members[i + 1..];
      i := i + 1;
    }
    return if i < |v.members| then Some(v.members[i].value) else None;
  }

  method ParseSetActuator(payload: seq<byte>) returns (rc: int, deviceId: int32, state: int32, value: int32)
    ensures rc == 0 <==> Understand(Frames.MSG_SET_ACTUATOR, payload).Some?
    ensures rc == 0 ==> Understand(Frames.MSG_SET_ACTUATOR, payload) == Some(SetActuator(deviceId, state, value))
  {
    hide Parse, Lookup, Ascii;
    rc, deviceId, state, value := -1, 0, 0, 0;
    if payload == [] {
      return;
    }
    var root := JsonParser.ParseWithLength(payload);
    if root.None? {
      return;
    }
    var d := GetObjectItem(root.value, Ascii("device_id"));
    var s := GetObjectItem(root.value, Ascii("state"));
    var n := GetObjectItem(root.value, Ascii("value"));
    if d.None? || s.None? || n.None? || !d.value.Number? || !s.value.Number? || !n.value.Number? {
      return;
    }
    return 0, ValueInt(d.value.value), ValueInt(s.value.value), ValueInt(n.value.value);
  }

  // ---- Texts of requests ----

  ghost predicate Plain(s: seq<byte>)
  {
    forall i :: 0 <= i < |s| ==> s[i] >= 32 && s[i] != QUOTE && s[i] != BACKSLASH
  }

  lemma {:induction false} PlainUnescaped(s: seq<byte>)
    requires Plain(s)
    ensures EscapeAll(s) == s && |Quote(s)| == |s| + 2 && 0 !in s
    decreases |s|
  {
    if s != [] { PlainUnescaped(s[1..]); }
  }

  lemma DecimalLength(n: int32)
    ensures |Decimal(n)| <= 11
  {
    assert Pow10(10) == 10_000_000_000 by { assert Pow10(5) == 100_000; }
    var m: int := n;
    DigitsLength(if m < 0 then -m else m, 10);
  }

  lemma NumberPrintable(n: int32)
    ensures Printable(Number(n as real)) && |Text(Number(n as real), 1, false)| <= 11
  {
    ValueIntOfInt(n);
    DecimalLength(n);
  }

  /** A member with a plain name and a short value that is not an array or object. */
  ghost predicate Short(m: Member)
  {
    && Plain(m.name) && |m.name| <= 20 && Printable(m.value) && |Text(m.value, 1, false)| <= 22 && Nesting(m.value) == 0
  }

  lemma MemberSize(m: Member)
    requires Short(m)
    ensures 0 !in m.name && Printable(m.value) && |MemberText(m, 1, false)| <= 45
  {
    hide Text, Quote, EscapeAll;
    PlainUnescaped(m.name);
  }

  lemma {:induction false} MembersSize(members: seq<Member>)
    requires forall i :: 0 <= i < |members| ==> Short(members[i])
    ensures PrintableMembers(members) && NestingMembers(members) == 0
    ensures |MembersText(members, 1, false)| <= |members| * 46
    decreases |members|
  {
    if members != [] {
      MemberSize(members[0]);
      MembersSize(members[1..]);
    }
  }

  predicate Letters(s: string) { |s| <= 20 && forall i :: 0 <= i < |s| ==> 'a' <= s[i] <= 'z' || s[i] == '_' }

  lemma TextMember(name: string, value: string)
    requires Letters(name) && Letters(value)
    ensures Short(Member(Ascii(name), String(Ascii(value))))
  {
    PlainUnescaped(Ascii(name));
    PlainUnescaped(Ascii(value));
  }

  lemma NumberMember(name: string, n: int32)
    requires Letters(name)
    ensures Short(Member(Ascii(name), Number(n as real)))
  {
    PlainUnescaped(Ascii(name));
    NumberPrintable(n);
  }

  lemma ActuatorShort(d: int32, s: int32, n: int32)
    ensures forall i :: 0 <= i < 4 ==> Short(Tree(SetActuator(d, s, n)).members[i])
  {
    hide Short, Ascii;
    TextMember("action", "set_actuator");
    NumberMember("device_id", d);
    NumberMember("state", s);
    NumberMember("value", n);
  }

  lemma SensorShort(id: int32)
    ensures forall i :: 0 <= i < 2 ==> Short(Tree(GetSensor(id)).members[i])
  {
    hide Short, Ascii;
    TextMember("action", "get_sensor");
    NumberMember("sensor_id", id);
  }

  /** Every request prints, within one frame's payload. */
  lemma TreePrints(r: Request)
    ensures Printable(Tree(r)) && Nesting(Tree(r)) == 1
    ensures 0 < |Text(Tree(r), 0, false)| <= Frames.MAX_PAYLOAD
  {
    hide Tree, Text, Short, Printable, PrintableMembers, MembersText;
    TreeShort(r);
    MembersSize(Tree(r).members);
    ObjectSize(Tree(r).members);
  }

  lemma TreeShort(r: Request)
    ensures Tree(r).Object? && |Tree(r).members| <= 4
    ensures forall i :: 0 <= i < |Tree(r).members| ==> Short(Tree(r).members[i])
  {
    hide Short, Ascii;
    match r
    case SetActuator(d, s, n) => ActuatorShort(d, s, n);
    case GetSensor(id) => SensorShort(id);
  }

  lemma ObjectSize(members: seq<Member>)
    requires PrintableMembers(members)
    ensures Printable(Object(members)) && |Text(Object(members), 0, false)| == |MembersText(members, 1, false)| + 2
  {
    hide MembersText;
  }

  lemma DifferentNames(s: string, t: string)
    requires forall i :: 0 <= i < |s| ==> s[i] < 128 as char
    requires forall i :: 0 <= i < |t| ==> t[i] < 128 as char
    requires |s| != |t| || (s != [] && s[0] != t[0])
    ensures Ascii(s) != Ascii(t)
  {
    if |s| == |t| && s != [] { assert Ascii(s)[0] != Ascii(t)[0]; }
  }

  lemma LookupAt(members: seq<Member>, k: nat)
    requires k < |members| && forall i :: 0 <= i < k ==> members[i].name != members[k].name
    ensures Lookup(members, members[k].name) == Some(members[k].value)
    decreases k
  {
    if k > 0 {
      assert members[1..][k - 1] == members[k];
      LookupAt(members[1..], k - 1);
    }
  }

  /** The gateway understands every request exactly as the client meant it. */
  lemma Understood(r: Request)
    ensures Printable(Tree(r)) && Understand(Kind(r), Text(Tree(r), 0, false)) == Some(r)
  {
    hide Text, Parse, Ascii;
    TreePrints(r);
    JsonRoundTrip.ParseUndoesPrint(Tree(r), false);
    var members := Tree(r).members;
    match r {
      case SetActuator(d, s, n) =>
        DifferentNames("action", "device_id"); DifferentNames("action", "state"); DifferentNames("action", "value");
        DifferentNames("device_id", "state"); DifferentNames("device_id", "value"); DifferentNames("state", "value");
        LookupAt(members, 1); LookupAt(members, 2); LookupAt(members, 3);
        ValueIntOfInt(d); ValueIntOfInt(s); ValueIntOfInt(n);
      case GetSensor(id) =>
        DifferentNames("action", "sensor_id");
        LookupAt(members, 1);
        ValueIntOfInt(id);
    }
  }

  // ---- Streams of requests ----

  datatype Sent = Sent(requestId: u32, request: Request)

  function Payload(r: Request): (t: seq<byte>)
    ensures 0 < |t| <= Frames.MAX_PAYLOAD
  {
    TreePrints(r);
    Text(Tree(r), 0, false)
  }

  /** The frames of `do_request`, back to back. */
  function Wire(rs: seq<Sent>): (s: seq<byte>)
    decreases |rs|
  {
    if rs == [] then []
    else Frames.Packet(Kind(rs[0].request), rs[0].requestId, Payload(rs[0].request)) + Wire(rs[1..])
  }

  /** What the gateway makes of a sequence of decoder events. */
  function Received(events: seq<Frames.Event>): (rs: seq<Option<Sent>>)
    ensures |rs| == |events|
    decreases |events|
  {
    if events == [] then []
    else
      var e := events[0];
      var head :=
        if e.Task? then
          match Understand(e.kind, e.payload)
          case Some(r) => Some(Sent(e.requestId, r))
          case None => None
        else None;
      [head] + Received(events[1..])
  }

  lemma {:induction false} WireDecodes(rs: seq<Sent>)
    ensures Received(Frames.Decode(Wire(rs)).0) == seq(|rs|, i requires 0 <= i < |rs| => Some(rs[i]))
    ensures Frames.Decode(Wire(rs)).1 == []
    decreases |rs|
  {
    hide Frames.Packet, Understand, Payload, Text;
    if rs == [] {
      NothingDecodes();
    } else {
      var r := rs[0].request;
      WireDecodes(rs[1..]);
      Frames.PacketDecodes(Kind(r), rs[0].requestId, Payload(r), Wire(rs[1..]));
      PayloadUnderstood(r);
      var events := Frames.Decode(Wire(rs)).0;
      assert events[1..] == Frames.Decode(Wire(rs[1..])).0;
    }
  }

  lemma NothingDecodes()
    ensures Frames.Decode([]) == ([], [])
  {
  }

  lemma PayloadUnderstood(r: Request)
    ensures Understand(Kind(r), Payload(r)) == Some(r)
  {
    hide Text, Understand;
    Understood(r);
  }

  /** End to end: whatever ints the requests carry and however their frames are cut up on the way,
      the gateway receives exactly those requests, one task per frame, in order. */
  lemma EndToEnd(rs: seq<Sent>, arrivals: seq<Frames.Arrival>)
    requires Frames.Wellformed(arrivals) && Frames.Stream(arrivals) == Wire(rs)
    ensures var (events, rest) := Frames.Drain(Frames.FRESH, arrivals);
            rest == [] && Received(events) == seq(|rs|, i requires 0 <= i < |rs| => Some(rs[i]))
  {
    hide Frames.Decode, Frames.Drain, Received, Wire;
    Frames.SegmentationIndependent(Frames.FRESH, arrivals);
    assert [] + Frames.Stream(arrivals) == Frames.Stream(arrivals);
    WireDecodes(rs);
  }
}

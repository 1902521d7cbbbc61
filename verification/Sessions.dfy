/** The session table of the control plane: `session_lookup_or_create` and `identify_task` of
    unix-domain-socket-control-plane/gatewayd/server.h. */
module Sessions {
  import opened Bytes
  import opened Lists

  const MAX_SESSIONS: nat := 256
  const TOKEN_LEN: nat := 64

  type Token = seq<byte>

  datatype Slot = Free | Used(token: Token, id: nat, count: nat)

  // ---- What a run of identifications leaves behind, said without a table ----

  /** The distinct tokens of a run, in order of first appearance. */
  function Firsts(h: seq<Token>): (f: seq<Token>)
    decreases |h|
  {
    if h == [] then []
    else
      var f, t := Firsts(h[..|h| - 1]), h[|h| - 1];
      if t in f then f else f + [t]
  }

  function Stored(h: seq<Token>): (n: nat) { Min(|Firsts(h)|, MAX_SESSIONS) }

  /** The token of slot `k`, its id and its number of identifications, after the run `h`. */
  function SlotAfter(h: seq<Token>, k: nat): (s: Slot)
  {
    if k < Stored(h) then Used(Firsts(h)[k], k + 1, Times(h, Firsts(h)[k])) else Free
  }

  /** What a client is told. */
  datatype Reply = NeedsToken | TableFull | Welcome(resumed: bool, id: nat, count: nat)

  /** The slot of a token that has one. */
  ghost predicate HasSlot(h: seq<Token>, t: Token, k: nat) { k < Stored(h) && Firsts(h)[k] == t }

  /** Slots, and hence ids, are given to distinct tokens. */
  lemma {:induction false} FirstsDistinct(h: seq<Token>)
    ensures forall i, j :: 0 <= i < j < |Firsts(h)| ==> Firsts(h)[i] != Firsts(h)[j]
    decreases |h|
  {
    if h != [] { FirstsDistinct(h[..|h| - 1]); }
  }

  lemma {:induction false} FirstsComplete(h: seq<Token>, t: Token)
    ensures t in Firsts(h) <==> t in h
    decreases |h|
  {
    if h != [] {
      FirstsComplete(h[..|h| - 1], t);
      assert h == h[..|h| - 1] + [h[|h| - 1]];
    }
  }

  /** Once a token has a slot it keeps it: the id of a token never changes. */
  lemma {:induction false} SlotForever(h: seq<Token>, more: seq<Token>, t: Token, k: nat)
    requires HasSlot(h, t, k)
    ensures HasSlot(h + more, t, k)
    decreases |more|
  {
    if more == [] {
      assert h + more == h;
    } else {
      var g := h + more[..|more| - 1];
      SlotForever(h, more[..|more| - 1], t, k);
      assert (h + more)[..|h + more| - 1] == g;
      assert Firsts(g) <= Firsts(h + more);
    }
  }

  /** A token refused once is refused for ever. */
  lemma {:induction false} RefusedForever(h: seq<Token>, more: seq<Token>, t: Token, k: nat)
    requires Stored(h) == MAX_SESSIONS && !(exists j :: HasSlot(h, t, j))
    ensures !HasSlot(h + more, t, k)
  {
    if k < MAX_SESSIONS {
      assert HasSlot(h, Firsts(h)[k], k) && !HasSlot(h, t, k);
      SlotForever(h, more, Firsts(h)[k], k);
    }
  }

  /** As long as no more than 256 different tokens have been presented, a token is known exactly
      when it was presented before. */
  lemma KnownWhileRoom(h: seq<Token>, t: Token)
    requires |Firsts(h)| <= MAX_SESSIONS
    ensures (exists k :: HasSlot(h, t, k)) <==> t in h
  {
    FirstsComplete(h, t);
    if t in h {
      var k :| 0 <= k < |Firsts(h)| && Firsts(h)[k] == t;
      assert HasSlot(h, t, k);
    }
  }

  // ---- The table ----

  class Table {
    const slots: array<Slot>
    var nextId: nat
    /** The tokens presented so far, in order. */
    ghost var history: seq<Token>

    ghost predicate Valid()
      reads this, slots
    {
      && slots.Length == MAX_SESSIONS && nextId == Stored(history)
      && (forall k :: 0 <= k < MAX_SESSIONS ==> slots[k] == SlotAfter(history, k))
    }

    constructor ()
      ensures Valid() && history == [] && fresh(slots)
    {
      slots := new Slot[MAX_SESSIONS](_ => Free);
      nextId, history := 0, [];
    }

    /** Returns -1 for a full table. A token is known exactly when it has a slot; a new one gets the
        next slot and the next id unless all are taken. */
    method LookupOrCreate(token: Token) returns (slot: int, resumed: bool)
      requires Valid()
      modifies this, slots
      ensures Valid() && history == old(history) + [token] && -1 <= slot < MAX_SESSIONS
      ensures resumed <==> exists k :: HasSlot(old(history), token, k)
      ensures resumed ==> slot >= 0 && HasSlot(old(history), token, slot)
      ensures !resumed ==> slot == if Stored(old(history)) < MAX_SESSIONS then Stored(old(history)) else -1
      ensures slot >= 0 ==>
                HasSlot(history, token, slot) && slots[slot] == Used(token, slot + 1, Times(history, token))
    {
      ghost var h := history;
      FirstsDistinct(h);
      FirstsDistinct(h + [token]);
      assert (h + [token])[..|h|] == h;
      var free := -1;
      var i := 0;
      while i < MAX_SESSIONS
        invariant 0 <= i <= MAX_SESSIONS && Valid() && history == h && nextId == old(nextId)
        invariant free == if i <= Stored(h) then -1 else Stored(h)
        invariant forall k :: 0 <= k < i ==> !HasSlot(h, token, k)
      {
        if slots[i] == Free {
          if free == -1 { free := i; }
        } else if slots[i].token == token {
          Resume(h, token, i);
          slots[i] := slots[i].(count := slots[i].count + 1);
          history := h + [token];
          assert HasSlot(h, token, i);
          return i, true;
        }
        i := i + 1;
      }
      if free == -1 {
        Refuse(h, token);
        history := h + [token];
        return -1, false;
      }
      nextId := nextId + 1;
      slots[free] := Used(token, nextId, 1);
      Create(h, token);
      history := h + [token];
      return free, false;
    }

    /** `identify_task`: the token is at most the first 63 bytes, up to a NUL. `others` are the tokens
        that other workers present between the lookup and the reading of id and count, for which the
        table's lock has been released. */
    method Identify(message: array<byte>, length: int, others: seq<Token>) returns (reply: Reply)
      requires Valid() && message.Length >= TOKEN_LEN && length <= message.Length
      modifies this, slots
      ensures Valid()
      ensures reply.NeedsToken? <==> length <= 0
      ensures length <= 0 ==> history == old(history)
      ensures length > 0 ==>
        var token := CString(message[..Min(length, TOKEN_LEN - 1)]);
        var known := exists k :: HasSlot(old(history), token, k);
        && (reply.TableFull? <==> Stored(old(history)) == MAX_SESSIONS && !known)
        && history == old(history) + [token] + (if reply.TableFull? then [] else others)
        && (reply.Welcome? ==>
              && (reply.resumed <==> known) && reply.count == Times(history, token)
              && reply.id > 0 && HasSlot(old(history) + [token], token, reply.id - 1))
    {
      var len := length;
      if len < 0 { len := 0; }
      if len >= TOKEN_LEN { len := TOKEN_LEN - 1; }
      if len == 0 { return NeedsToken; }
      var token := CString(message[..len]);
      var slot, resumed := LookupOrCreate(token);
      ghost var h := history;
      assert slot == -1 <==> Stored(old(history)) == MAX_SESSIONS && !resumed;
      if slot == -1 {
        assert h + [] == h;
        return TableFull;
      }
      var i := 0;
      assert others[..0] == [] && h + [] == h;
      while i < |others|
        invariant 0 <= i <= |others| && Valid() && history == h + others[..i]
      {
        var _, _ := LookupOrCreate(others[i]);
        assert others[..i + 1] == others[..i] + [others[i]];
        i := i + 1;
      }
      assert others[..|others|] == others;
      SlotForever(h, others, token, slot);
      assert resumed <==> exists k :: HasSlot(old(history), token, k);
      assert slots[slot] == SlotAfter(history, slot);
      return Welcome(resumed, slots[slot].id, slots[slot].count);
    }
  }

  lemma Resume(h: seq<Token>, token: Token, i: nat)
    requires HasSlot(h, token, i)
    ensures var h' := h + [token];
            Stored(h') == Stored(h) && HasSlot(h', token, i) && Times(h', token) == Times(h, token) + 1 &&
            forall k :: 0 <= k < MAX_SESSIONS && k != i ==> SlotAfter(h', k) == SlotAfter(h, k)
  {
    FirstsDistinct(h);
    assert (h + [token])[..|h|] == h;
  }

  lemma Refuse(h: seq<Token>, token: Token)
    requires Stored(h) == MAX_SESSIONS && forall k :: 0 <= k < MAX_SESSIONS ==> !HasSlot(h, token, k)
    ensures var h' := h + [token];
            Stored(h') == Stored(h) && forall k :: 0 <= k < MAX_SESSIONS ==> SlotAfter(h', k) == SlotAfter(h, k)
  {
    assert (h + [token])[..|h|] == h;
    forall k | 0 <= k < MAX_SESSIONS ensures SlotAfter(h + [token], k) == SlotAfter(h, k) {
      assert !HasSlot(h, token, k);
    }
  }

  lemma Create(h: seq<Token>, token: Token)
    requires Stored(h) < MAX_SESSIONS && forall k :: 0 <= k < MAX_SESSIONS ==> !HasSlot(h, token, k)
    ensures var h', n := h + [token], Stored(h);
            Stored(h') == n + 1 && HasSlot(h', token, n) && Times(h', token) == 1 &&
            forall k :: 0 <= k < MAX_SESSIONS && k != n ==> SlotAfter(h', k) == SlotAfter(h, k)
  {
    assert (h + [token])[..|h|] == h;
    var f := Firsts(h);
    forall k | 0 <= k < |f| ensures f[k] != token { assert !HasSlot(h, token, k); }
    FirstsComplete(h, token);
    TimesPositive(h, token);
  }
}

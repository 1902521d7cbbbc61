/** The gateway's CRC-32 (gateway/src/crc.c): a table built once, then one lookup per byte.
    A machine word is the sequence of its bits, least significant first. */
module Crc {
  import opened Bytes

  type Word = w: seq<bool> | |w| == 32 witness BitsOf(0, 32)

  /** The `k` low bits of `n`. */
  function BitsOf(n: nat, k: nat): (s: seq<bool>)
    ensures |s| == k
    decreases k, n
  {
    if k == 0 then [] else [n % 2 == 1] + BitsOf(n / 2, k - 1)
  }

  function Bit(b: bool): (n: nat) { if b then 1 else 0 }

  function Pow2(k: nat): (p: nat)
    ensures p >= 1
  {
    if k == 0 then 1 else 2 * Pow2(k - 1)
  }

  function ValueOf(s: seq<bool>): (n: nat)
    decreases |s|
  {
    if s == [] then 0 else Bit(s[0]) + 2 * ValueOf(s[1..])
  }

  lemma {:induction false} BitsOfValue(s: seq<bool>)
    ensures BitsOf(ValueOf(s), |s|) == s
    ensures ValueOf(s) < Pow2(|s|)
    decreases |s|
  {
    if s != [] {
      BitsOfValue(s[1..]);
      assert ValueOf(s) / 2 == ValueOf(s[1..]);
    }
  }

  lemma {:induction false} ValueOfBits(n: nat, k: nat)
    requires n < Pow2(k)
    ensures ValueOf(BitsOf(n, k)) == n
    decreases k
  {
    if k > 0 { ValueOfBits(n / 2, k - 1); }
  }

  function Zeros(n: nat): (s: seq<bool>)
    ensures |s| == n
  {
    seq(n, i => false)
  }

  // ---- Machine operations on words ----

  function Xor(a: Word, b: Word): (c: Word) { seq(32, i requires 0 <= i < 32 => a[i] != b[i]) }

  function ShiftRight(a: Word): (c: Word) { a[1..] + [false] }

  function ToWord(n: u32): (w: Word) { BitsOf(n, 32) }

  /** Bit `i` of the reversed CRC-32 polynomial. */
  predicate Tap(i: nat) { 0xEDB8_8320 / Pow2(i) % 2 == 1 }

  function Polynomial(): (p: Word) { seq(32, i requires 0 <= i => Tap(i)) }

  function Ones(n: nat): (s: seq<bool>)
    ensures |s| == n
  {
    seq(n, i => true)
  }

  const ALL_ONES: Word := Ones(32)

  // ---- Reference: one shift per message bit, as in section 8 of RFC 1952 ----

  function Shift(crc: Word, bit: bool): (c: Word)
  {
    if crc[0] != bit then Xor(Polynomial(), ShiftRight(crc)) else ShiftRight(crc)
  }

  function ShiftBits(crc: Word, bits: seq<bool>): (c: Word)
    decreases |bits|
  {
    if bits == [] then crc else ShiftBits(Shift(crc, bits[0]), bits[1..])
  }

  /** The bits of a message in transmission order: bytes in order, low bit first. */
  function MessageBits(data: seq<byte>): (bits: seq<bool>)
    ensures |bits| == 8 * |data|
    decreases |data|
  {
    if data == [] then [] else BitsOf(data[0], 8) + MessageBits(data[1..])
  }

  /** CRC-32 of a message, bit at a time. */
  function Crc32(data: seq<byte>): (c: Word)
  {
    Xor(ShiftBits(ALL_ONES, MessageBits(data)), ALL_ONES)
  }

  // ---- The table form ----

  /** `n` passes of the inner loop of `build_table`. */
  function Rounds(c: Word, n: nat): (d: Word)
    decreases n, c
  {
    if n == 0 then c else Rounds(Shift(c, false), n - 1)
  }

  /** `c` with `bits` added into its low end. */
  function AddLow(c: Word, bits: seq<bool>): (d: Word)
    requires |bits| <= 32
  {
    seq(32, i requires 0 <= i < 32 => if i < |bits| then c[i] != bits[i] else c[i])
  }

  lemma RoundAbsorbs(c: Word, bits: seq<bool>)
    requires 0 < |bits| <= 32
    ensures Shift(AddLow(c, bits), false) == AddLow(Shift(c, bits[0]), bits[1..])
  {
    assert ShiftRight(AddLow(c, bits)) == AddLow(ShiftRight(c), bits[1..]);
    assert Xor(Polynomial(), AddLow(ShiftRight(c), bits[1..])) == AddLow(Xor(Polynomial(), ShiftRight(c)), bits[1..]);
  }

  /** Message bits may be fed in one at a time or all added in beforehand. */
  lemma {:induction false} RoundsAbsorb(c: Word, bits: seq<bool>)
    requires |bits| <= 32
    ensures Rounds(AddLow(c, bits), |bits|) == ShiftBits(c, bits)
    decreases |bits|
  {
    if bits == [] {
      assert AddLow(c, bits) == c;
    } else {
      RoundAbsorbs(c, bits);
      RoundsAbsorb(Shift(c, bits[0]), bits[1..]);
    }
  }

  /** Bits above the ones consumed are only carried down. */
  lemma {:induction false} RoundsCarry(low: Word, high: Word, n: nat)
    requires n <= 32 && forall i :: 0 <= i < n ==> !high[i]
    ensures Rounds(Xor(low, high), n) == Xor(Rounds(low, n), ShiftRightBy(high, n))
    decreases n
  {
    if n > 0 {
      var low', high' := Shift(low, false), ShiftRight(high);
      assert Shift(Xor(low, high), false) == Xor(low', high') by {
        assert ShiftRight(Xor(low, high)) == Xor(ShiftRight(low), high');
        assert Xor(Polynomial(), Xor(ShiftRight(low), high')) == Xor(Xor(Polynomial(), ShiftRight(low)), high');
      }
      RoundsCarry(low', high', n - 1);
      assert ShiftRightBy(high', n - 1) == ShiftRightBy(high, n);
    } else {
      assert ShiftRightBy(high, 0) == high;
    }
  }

  function ShiftRightBy(a: Word, n: nat): (c: Word)
    requires n <= 32
  {
    a[n..] + Zeros(n)
  }

  function LowByte(w: Word): (b: byte)
  {
    BitsOfValue(w[..8]);
    Pow2At8();
    ValueOf(w[..8])
  }

  lemma {:induction false} HighBitsClear(n: nat, k: nat, m: nat)
    requires n < Pow2(k)
    ensures BitsOf(n, k + m) == BitsOf(n, k) + Zeros(m)
    decreases k + m
  {
    if k > 0 {
      HighBitsClear(n / 2, k - 1, m);
    } else if m > 0 {
      HighBitsClear(0, 0, m - 1);
    }
  }

  /** The table identity: eight shifts act on the low byte alone and carry the rest down. */
  lemma TableStep(crc: Word, b: byte)
    ensures ShiftBits(crc, BitsOf(b, 8))
         == Xor(Rounds(ToWord(LowByte(Xor(crc, ToWord(b)))), 8), ShiftRightBy(crc, 8))
  {
    var x := Xor(crc, ToWord(b));
    AddByte(crc, b);
    RoundsAbsorb(crc, BitsOf(b, 8));
    var high: Word := Zeros(8) + x[8..];
    SplitLow(x);
    RoundsCarry(ToWord(LowByte(x)), high, 8);
    assert ShiftRightBy(high, 8) == ShiftRightBy(crc, 8) by {
      Pow2At8();
      HighBitsClear(b, 8, 24);
    }
  }

  lemma AddByte(crc: Word, b: byte)
    ensures Xor(crc, ToWord(b)) == AddLow(crc, BitsOf(b, 8))
  {
    Pow2At8();
    HighBitsClear(b, 8, 24);
  }

  lemma SplitLow(x: Word)
    ensures Xor(ToWord(LowByte(x)), Zeros(8) + x[8..]) == x
  {
    BitsOfValue(x[..8]);
    HighBitsClear(LowByte(x), 8, 24);
  }

  lemma {:induction false} ShiftBitsSplit(c: Word, s: seq<bool>, t: seq<bool>)
    ensures ShiftBits(c, s + t) == ShiftBits(ShiftBits(c, s), t)
    decreases |s|
  {
    if s == [] {
      assert s + t == t;
    } else {
      ShiftBitsSplit(Shift(c, s[0]), s[1..], t);
      assert (s + t)[1..] == s[1..] + t;
    }
  }

  lemma {:induction false} MessageBitsSplit(s: seq<byte>, t: seq<byte>)
    ensures MessageBits(s + t) == MessageBits(s) + MessageBits(t)
    decreases |s|
  {
    hide BitsOf;
    if s == [] {
      assert s + t == t;
    } else {
      MessageBitsSplit(s[1..], t);
      assert (s + t)[1..] == s[1..] + t && (s + t)[0] == s[0];
      var a, b, c := BitsOf(s[0], 8), MessageBits(s[1..]), MessageBits(t);
      assert MessageBits(s + t) == a + (b + c) && a + (b + c) == a + b + c;
    }
  }

  /** The register after the single byte `i`, from a zero register. */
  function TableEntry(i: byte): (w: Word)
  {
    ShiftBits(Zeros(32), BitsOf(i, 8))
  }

  lemma TableEntryIsRounds(i: byte)
    ensures TableEntry(i) == Rounds(ToWord(i), 8)
  {
    RoundsAbsorb(Zeros(32), BitsOf(i, 8));
    AddByte(Zeros(32), i);
    assert Xor(Zeros(32), ToWord(i)) == ToWord(i);
  }

  lemma RoundsStep(c: Word, n: nat)
    requires n > 0
    ensures Rounds(c, n) == Rounds(if c[0] then Xor(Polynomial(), ShiftRight(c)) else ShiftRight(c), n - 1)
  {
    hide Xor, ShiftRight, Polynomial;
  }

  /** The inner loop of `build_table`. */
  method Entry(i: byte) returns (c: Word)
    ensures c == TableEntry(i)
  {
    c := ToWord(i);
    for j := 0 to 8
      invariant Rounds(c, 8 - j) == Rounds(ToWord(i), 8)
    {
      RoundsStep(c, 8 - j);
      hide Rounds, Xor, ShiftRight, Polynomial;
      if c[0] {
        c := Xor(Polynomial(), ShiftRight(c));
      } else {
        c := ShiftRight(c);
      }
    }
    TableEntryIsRounds(i);
  }

  /** One pass of the loop of `crc_calculate` consumes one byte. */
  lemma LookupStep(data: seq<byte>, i: nat, crc: Word)
    requires i < |data| && crc == ShiftBits(ALL_ONES, MessageBits(data[..i]))
    ensures Xor(TableEntry(LowByte(Xor(crc, ToWord(data[i])))), ShiftRightBy(crc, 8))
         == ShiftBits(ALL_ONES, MessageBits(data[..i + 1]))
  {
    TableStep(crc, data[i]);
    TableEntryIsRounds(LowByte(Xor(crc, ToWord(data[i]))));
    assert data[..i + 1] == data[..i] + [data[i]];
    MessageBitsSplit(data[..i], [data[i]]);
    assert MessageBits([data[i]]) == BitsOf(data[i], 8);
    ShiftBitsSplit(ALL_ONES, MessageBits(data[..i]), BitsOf(data[i], 8));
  }

  /** The static table and its `table_rd` flag. */
  class Table {
    var entries: array<Word>
    var ready: bool

    ghost predicate Valid()
      reads this, entries
    {
      && entries.Length == 256
      && (ready ==> forall i :: 0 <= i < 256 ==> entries[i] == TableEntry(i))
    }

    constructor ()
      ensures Valid() && !ready && fresh(entries)
    {
      entries := new Word[256];
      ready := false;
    }

    method Build()
      requires Valid()
      modifies this, entries
      ensures Valid() && ready && entries == old(entries)
    {
      for i := 0 to 256
        invariant entries == old(entries) && entries.Length == 256
        invariant forall k :: 0 <= k < i ==> entries[k] == TableEntry(k)
      {
        var c := Entry(i);
        entries[i] := c;
      }
      ready := true;
    }

    /** `crc_calculate`: the table is built on first use. */
    method Calculate(data: seq<byte>) returns (crc: Word)
      requires Valid()
      modifies this, entries
      ensures Valid() && ready && entries == old(entries)
      ensures crc == Crc32(data)
    {
      if !ready { Build(); }
      crc := ALL_ONES;
      for i := 0 to |data|
        invariant Valid() && ready && entries == old(entries)
        invariant crc == ShiftBits(ALL_ONES, MessageBits(data[..i]))
      {
        LookupStep(data, i, crc);
        crc := Xor(entries[LowByte(Xor(crc, ToWord(data[i])))], ShiftRightBy(crc, 8));
      }
      assert data[..|data|] == data;
      crc := Xor(crc, ALL_ONES);
    }
  }

  // ---- What the checksum detects ----

  lemma ShiftInjective(a: Word, b: Word, bit: bool)
    requires Shift(a, bit) == Shift(b, bit)
    ensures a == b
  {
    assert Tap(31) by {
      Pow2At32();
      assert Pow2(31) == 0x8000_0000;
    }
    assert Shift(a, bit)[31] == (a[0] != bit) && Shift(b, bit)[31] == (b[0] != bit);
    forall i | 0 < i < 32
      ensures a[i] == b[i]
    {
      assert Shift(a, bit)[i - 1] == Shift(b, bit)[i - 1];
    }
  }

  lemma {:induction false} ShiftBitsInjective(a: Word, b: Word, bits: seq<bool>)
    requires ShiftBits(a, bits) == ShiftBits(b, bits)
    ensures a == b
    decreases |bits|
  {
    if bits != [] {
      ShiftBitsInjective(Shift(a, bits[0]), Shift(b, bits[0]), bits[1..]);
      ShiftInjective(a, b, bits[0]);
    }
  }

  lemma {:induction false} RoundsInjective(a: Word, b: Word, n: nat)
    requires Rounds(a, n) == Rounds(b, n)
    ensures a == b
    decreases n
  {
    if n > 0 {
      RoundsInjective(Shift(a, false), Shift(b, false), n - 1);
      ShiftInjective(a, b, false);
    }
  }

  lemma {:induction false} MessageBitsInjective(s: seq<byte>, t: seq<byte>)
    requires |s| == |t| && MessageBits(s) == MessageBits(t)
    ensures s == t
    decreases |s|
  {
    if s != [] {
      assert BitsOf(s[0], 8) == MessageBits(s)[..8] == MessageBits(t)[..8] == BitsOf(t[0], 8);
      assert MessageBits(s[1..]) == MessageBits(s)[8..] == MessageBits(t)[8..] == MessageBits(t[1..]);
      Pow2At8();
      ValueOfBits(s[0], 8);
      ValueOfBits(t[0], 8);
      MessageBitsInjective(s[1..], t[1..]);
    }
  }

  /** Any change confined to four consecutive bytes of a payload changes its CRC. */
  lemma BurstDetected(before: seq<byte>, w: seq<byte>, w': seq<byte>, after: seq<byte>)
    requires |w| == |w'| <= 4 && w != w'
    ensures Crc32(before + w + after) != Crc32(before + w' + after)
  {
    if Crc32(before + w + after) == Crc32(before + w' + after) {
      var s := ShiftBits(ALL_ONES, MessageBits(before));
      var (x, x') := (ShiftBits(s, MessageBits(w)), ShiftBits(s, MessageBits(w')));
      RunSplits(before, w, after);
      RunSplits(before, w', after);
      XorInjective(ShiftBits(x, MessageBits(after)), ShiftBits(x', MessageBits(after)), ALL_ONES);
      ShiftBitsInjective(x, x', MessageBits(after));
      RoundsAbsorb(s, MessageBits(w));
      RoundsAbsorb(s, MessageBits(w'));
      RoundsInjective(AddLow(s, MessageBits(w)), AddLow(s, MessageBits(w')), 8 * |w|);
      AddLowInjective(s, MessageBits(w), MessageBits(w'));
      MessageBitsInjective(w, w');
    }
  }

  lemma RunSplits(before: seq<byte>, w: seq<byte>, after: seq<byte>)
    ensures ShiftBits(ALL_ONES, MessageBits(before + w + after))
         == ShiftBits(ShiftBits(ShiftBits(ALL_ONES, MessageBits(before)), MessageBits(w)), MessageBits(after))
  {
    MessageBitsSplit(before + w, after);
    MessageBitsSplit(before, w);
    ShiftBitsSplit(ALL_ONES, MessageBits(before) + MessageBits(w), MessageBits(after));
    ShiftBitsSplit(ALL_ONES, MessageBits(before), MessageBits(w));
  }

  lemma XorInjective(a: Word, b: Word, c: Word)
    requires Xor(a, c) == Xor(b, c)
    ensures a == b
  {
    forall i | 0 <= i < 32
      ensures a[i] == b[i]
    {
      assert Xor(a, c)[i] == Xor(b, c)[i];
    }
  }

  lemma AddLowInjective(c: Word, s: seq<bool>, t: seq<bool>)
    requires |s| == |t| <= 32 && AddLow(c, s) == AddLow(c, t)
    ensures s == t
  {
    forall i | 0 <= i < |s|
      ensures s[i] == t[i]
    {
      assert AddLow(c, s)[i] == AddLow(c, t)[i];
    }
  }

  /** The CRC as the number the frame codec puts on the wire. */
  function CrcValue(data: seq<byte>): (n: u32)
  {
    BitsOfValue(Crc32(data));
    Pow2At32();
    ValueOf(Crc32(data))
  }

  lemma Pow2At8()
    ensures Pow2(8) == 256
  {
    assert Pow2(4) == 16;
  }

  lemma Pow2At32()
    ensures Pow2(32) == 0x1_0000_0000
  {
    Pow2At8();
    assert Pow2(16) == 0x1_0000 by { assert Pow2(12) == 0x1000; }
    assert Pow2(24) == 0x100_0000 by { assert Pow2(20) == 0x10_0000; }
    assert Pow2(28) == 0x1000_0000;
  }

  /** Different words give different numbers, so the burst guarantee holds of the wire value too. */
  lemma BurstDetectedOnWire(before: seq<byte>, w: seq<byte>, w': seq<byte>, after: seq<byte>)
    requires |w| == |w'| <= 4 && w != w'
    ensures CrcValue(before + w + after) != CrcValue(before + w' + after)
  {
    BurstDetected(before, w, w', after);
    BitsOfValue(Crc32(before + w + after));
    BitsOfValue(Crc32(before + w' + after));
  }
}

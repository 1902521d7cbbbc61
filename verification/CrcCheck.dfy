/** The check value of CRC-32, computed on 32-bit machine words with the operations of the source,
    which are shown to be those on bit sequences. */
module CrcCheck {
  import opened Bytes
  import opened Crc
  import opened CrcPolynomial

  // ---- Machine words as bit sequences ----

  function Mask(i: nat): (m: bv32)
    requires i < 32
  {
    1 << i
  }

  lemma OneBit(i: nat)
    requires i < 32
    ensures Mask(i) != 0 && Mask(i) & (Mask(i) - 1) == 0
  {
  }

  predicate BitAt(c: bv32, i: nat)
    requires i < 32
  {
    c & Mask(i) != 0
  }

  function Half(c: bv32): (h: bv32) { c >> 1 }

  function Both(a: bv32, b: bv32): (c: bv32) { a ^ b }

  function Bits(c: bv32): (w: Word) { seq(32, i requires 0 <= i < 32 => BitAt(c, i)) }

  lemma XorMask(a: bv32, b: bv32, m: bv32)
    requires m & (m - 1) == 0
    ensures ((a ^ b) & m != 0) <==> (a & m != 0) != (b & m != 0)
  {
  }

  lemma BothBit(a: bv32, b: bv32, i: nat)
    requires i < 32
    ensures BitAt(Both(a, b), i) <==> BitAt(a, i) != BitAt(b, i)
  {
    OneBit(i);
    hide Mask;
    XorMask(a, b, Mask(i));
  }

  lemma HalfMask(c: bv32, m: bv32)
    requires m & (m - 1) == 0 && m << 1 != 0
    ensures ((c >> 1) & m != 0) <==> (c & (m << 1) != 0)
  {
  }

  lemma TopClear(c: bv32)
    ensures (c >> 1) & 0x8000_0000 == 0
  {
  }

  lemma MaskStep(i: nat)
    requires i < 31
    ensures Mask(i + 1) == Mask(i) << 1
  {
  }

  lemma LastMask()
    ensures Mask(31) == 0x8000_0000
  {
  }

  lemma HalfBit(c: bv32, i: nat)
    requires i < 31
    ensures BitAt(Half(c), i) <==> BitAt(c, i + 1)
  {
    hide Mask;
    MaskStep(i);
    OneBit(i);
    OneBit(i + 1);
    HalfMask(c, Mask(i));
  }

  lemma HalfLast(c: bv32)
    ensures !BitAt(Half(c), 31)
  {
    LastMask();
    hide Mask;
    TopClear(c);
  }

  lemma BitsHalf(c: bv32)
    ensures Bits(Half(c)) == ShiftRight(Bits(c))
  {
    hide BitAt, Half;
    forall i | 0 <= i < 32 ensures Bits(Half(c))[i] == ShiftRight(Bits(c))[i] {
      if i < 31 { HalfBit(c, i); } else { HalfLast(c); }
    }
  }

  lemma BitsBoth(a: bv32, b: bv32)
    ensures Bits(Both(a, b)) == Xor(Bits(a), Bits(b))
  {
    hide BitAt, Both;
    forall i | 0 <= i < 32 ensures Bits(Both(a, b))[i] == Xor(Bits(a), Bits(b))[i] { BothBit(a, b, i); }
  }

  lemma FirstBit(c: bv32)
    ensures Bits(c)[0] == (c & 1 != 0)
  {
    assert Bits(c)[0] == (c & Mask(0) != 0) && Mask(0) == 1;
  }

  function Digit(c: bv32): (n: nat)
  {
    (if c & 1 != 0 then 1 else 0) + (if c & 2 != 0 then 2 else 0) +
    (if c & 4 != 0 then 4 else 0) + (if c & 8 != 0 then 8 else 0)
  }

  /** The number of the low `k` hexadecimal digits of a machine word. */
  function Number(c: bv32, k: nat): (n: nat)
    decreases k
  {
    if k == 0 then 0 else Digit(c) + 16 * Number(c >> 4, k - 1)
  }

  function Low(c: bv32): (n: nat) { if c & 1 != 0 then 1 else 0 }

  lemma Digits(c: bv32)
    ensures Digit(c) == Low(c) + 2 * Low(Half(c)) + 4 * Low(Half(Half(c))) + 8 * Low(Half(Half(Half(c))))
    ensures Half(Half(Half(Half(c)))) == c >> 4
  {
  }

  lemma ValueStep(c: bv32, k: nat)
    requires k < 32
    ensures ValueOf(Bits(c)[..k + 1]) == Low(c) + 2 * ValueOf(Bits(Half(c))[..k])
  {
    FirstBit(c);
    BitsHalf(c);
    hide Bits, Half;
    assert Bits(c)[..k + 1][1..] == Bits(Half(c))[..k];
  }

  lemma {:induction false} NumberIsValue(c: bv32, k: nat)
    requires k <= 8
    ensures ValueOf(Bits(c)[..4 * k]) == Number(c, k)
    decreases k
  {
    if k > 0 {
      var n := 4 * (k - 1);
      Digits(c);
      NumberIsValue(c >> 4, k - 1);
      hide Bits, Half, Low, Digit, ValueOf;
      ValueStep(c, n + 3);
      ValueStep(Half(c), n + 2);
      ValueStep(Half(Half(c)), n + 1);
      ValueStep(Half(Half(Half(c))), n);
    }
  }

  lemma NumberOf(c: bv32)
    ensures ValueOf(Bits(c)) == Number(c, 8)
  {
    NumberIsValue(c, 8);
    hide Bits, Number;
    assert Bits(c)[..4 * 8] == Bits(c);
  }

  lemma PolynomialNumber()
    ensures Number(0xEDB8_8320, 8) == 0xEDB8_8320
  {
  }

  lemma BitsPolynomial()
    ensures Bits(0xEDB8_8320) == Polynomial()
  {
    hide Bits, Tap, Number, BitSet;
    var w := Bits(0xEDB8_8320);
    PolynomialNumber();
    NumberOf(0xEDB8_8320);
    BitsOfValue(w);
    forall i | 0 <= i < 32 ensures w[i] == Tap(i) {
      BitsOfAt(0xEDB8_8320, 32, i);
      TapBit(i);
    }
  }

  lemma TapBit(i: nat)
    ensures Tap(i) <==> BitSet(0xEDB8_8320, i)
  {
  }

  // ---- The source's rounds ----

  /** One pass of the inner loop of `build_table`. */
  function Round(c: bv32): (d: bv32) { if c & 1 != 0 then Both(0xEDB8_8320, Half(c)) else Half(c) }

  lemma RoundIsShift(c: bv32)
    ensures Bits(Round(c)) == Shift(Bits(c), false)
  {
    BitsHalf(c);
    BitsBoth(0xEDB8_8320, Half(c));
    FirstBit(c);
    BitsPolynomial();
    hide Bits, Xor, ShiftRight, Polynomial, Half, Both;
  }

  /** A byte added in, and the eight passes of its table entry. */
  function ByteRounds(c: bv32, b: bv32): (d: bv32)
  {
    Round(Round(Round(Round(Round(Round(Round(Round(Both(c, b)))))))))
  }

  function RoundsOf(c: bv32, n: nat): (d: bv32)
    decreases n
  {
    if n == 0 then c else RoundsOf(Round(c), n - 1)
  }

  lemma {:induction false} RoundsAgree(c: bv32, n: nat)
    ensures Bits(RoundsOf(c, n)) == Rounds(Bits(c), n)
    decreases n
  {
    if n > 0 {
      hide Bits, Round;
      RoundIsShift(c);
      RoundsAgree(Round(c), n - 1);
    }
  }

  lemma ByteRoundsUnrolled(c: bv32, b: bv32)
    ensures ByteRounds(c, b) == RoundsOf(Both(c, b), 8)
  {
    hide Round, Both;
    var d := Round(Round(Round(Round(Both(c, b)))));
    assert RoundsOf(d, 4) == ByteRounds(c, b);
  }

  lemma ByteRoundsAreShifts(c: bv32, b: bv32, n: byte)
    requires Number(b, 8) == n
    ensures Bits(ByteRounds(c, b)) == ShiftBits(Bits(c), BitsOf(n, 8))
  {
    hide Bits, ByteRounds, ShiftBits, Rounds, RoundsOf, Both, Xor, Number, ValueOf, BitsOf, AddLow;
    ByteRoundsUnrolled(c, b);
    RoundsAgree(Both(c, b), 8);
    BitsBoth(c, b);
    NumberOf(b);
    BitsOfValue(Bits(b));
    AddByte(Bits(c), n);
    RoundsAbsorb(Bits(c), BitsOf(n, 8));
  }

  /** One more byte of a message. */
  lemma Extend(data: seq<byte>, c: bv32, b: bv32, n: byte)
    requires Number(b, 8) == n && Bits(c) == ShiftBits(ALL_ONES, MessageBits(data))
    ensures Bits(ByteRounds(c, b)) == ShiftBits(ALL_ONES, MessageBits(data + [n]))
  {
    hide Bits, ByteRounds, ShiftBits, Number;
    ByteRoundsAreShifts(c, b, n);
    MessageBitsSplit(data, [n]);
    assert MessageBits([n]) == BitsOf(n, 8);
    ShiftBitsSplit(ALL_ONES, MessageBits(data), BitsOf(n, 8));
  }

  lemma AllBits(m: bv32)
    ensures 0xFFFF_FFFF & m == m
  {
  }

  lemma BitsOnes()
    ensures Bits(0xFFFF_FFFF) == ALL_ONES
  {
    forall i | 0 <= i < 32 ensures BitAt(0xFFFF_FFFF, i) {
      OneBit(i);
      AllBits(Mask(i));
    }
  }

  /** The CRC, from the register after a message. */
  lemma Finish(data: seq<byte>, c: bv32, d: bv32)
    requires Bits(c) == ShiftBits(ALL_ONES, MessageBits(data)) && d == c ^ 0xFFFF_FFFF
    ensures CrcValue(data) == Number(d, 8)
  {
    hide Bits, ShiftBits, MessageBits, Number, Xor, ValueOf;
    BitsOnes();
    BitsBoth(c, 0xFFFF_FFFF);
    NumberOf(Both(c, 0xFFFF_FFFF));
  }

  lemma DigitBytes()
    ensures Number(0x31, 8) == 0x31 && Number(0x32, 8) == 0x32 && Number(0x33, 8) == 0x33
    ensures Number(0x34, 8) == 0x34 && Number(0x35, 8) == 0x35 && Number(0x36, 8) == 0x36
    ensures Number(0x37, 8) == 0x37 && Number(0x38, 8) == 0x38 && Number(0x39, 8) == 0x39
  {
  }

  lemma DigitRegister()
    ensures ByteRounds(ByteRounds(ByteRounds(0xFFFF_FFFF, 0x31), 0x32), 0x33) == 0x77B7_9C2D
    ensures ByteRounds(ByteRounds(ByteRounds(0x77B7_9C2D, 0x34), 0x35), 0x36) == 0xF68D_2C9E
    ensures ByteRounds(ByteRounds(ByteRounds(0xF68D_2C9E, 0x37), 0x38), 0x39) == 0x340B_C6D9
  {
  }

  lemma FinalNumber()
    ensures Number(0xCBF4_3926, 8) == 0xCBF4_3926
  {
  }

  lemma ThreeBytes(data: seq<byte>, c: bv32, d: bv32, b1: bv32, b2: bv32, b3: bv32, n1: byte, n2: byte, n3: byte)
    requires Number(b1, 8) == n1 && Number(b2, 8) == n2 && Number(b3, 8) == n3
    requires Bits(c) == ShiftBits(ALL_ONES, MessageBits(data))
    requires ByteRounds(ByteRounds(ByteRounds(c, b1), b2), b3) == d
    ensures Bits(d) == ShiftBits(ALL_ONES, MessageBits(data + [n1, n2, n3]))
  {
    hide Bits, ByteRounds, ShiftBits, MessageBits, Number;
    Extend(data, c, b1, n1);
    Extend(data + [n1], ByteRounds(c, b1), b2, n2);
    Extend(data + [n1] + [n2], ByteRounds(ByteRounds(c, b1), b2), b3, n3);
    assert data + [n1] + [n2] + [n3] == data + [n1, n2, n3];
  }

  lemma Nothing()
    ensures Bits(0xFFFF_FFFF) == ShiftBits(ALL_ONES, MessageBits([]))
  {
    BitsOnes();
  }

  /** The check value of CRC-32: that of the digits 1 to 9. */
  lemma CheckValue()
    ensures CrcValue([0x31, 0x32, 0x33, 0x34, 0x35, 0x36, 0x37, 0x38, 0x39]) == 0xCBF4_3926
  {
    hide Bits, ByteRounds, ShiftBits, MessageBits, Number, CrcValue;
    var none: seq<byte>, three: seq<byte> := [], [0x31, 0x32, 0x33];
    var six: seq<byte> := [0x31, 0x32, 0x33, 0x34, 0x35, 0x36];
    DigitBytes();
    DigitRegister();
    Nothing();
    ThreeBytes(none, 0xFFFF_FFFF, 0x77B7_9C2D, 0x31, 0x32, 0x33, 0x31, 0x32, 0x33);
    assert none + [0x31, 0x32, 0x33] == three;
    ThreeBytes(three, 0x77B7_9C2D, 0xF68D_2C9E, 0x34, 0x35, 0x36, 0x34, 0x35, 0x36);
    assert three + [0x34, 0x35, 0x36] == six;
    ThreeBytes(six, 0xF68D_2C9E, 0x340B_C6D9, 0x37, 0x38, 0x39, 0x37, 0x38, 0x39);
    Finish(six + [0x37, 0x38, 0x39], 0x340B_C6D9, 0xCBF4_3926);
    FinalNumber();
    assert six + [0x37, 0x38, 0x39] == [0x31, 0x32, 0x33, 0x34, 0x35, 0x36, 0x37, 0x38, 0x39];
  }

  /** The CRC of the letter A. */
  lemma LetterValue()
    ensures CrcValue([0x41]) == 0xD3D9_9E8B
  {
    hide Bits, ByteRounds, ShiftBits, MessageBits, Number, CrcValue;
    LetterRegister();
    Nothing();
    var none: seq<byte> := [];
    Extend(none, 0xFFFF_FFFF, 0x41, 0x41);
    assert none + [0x41] == [0x41];
    Finish([0x41], 0x2C26_6174, 0xD3D9_9E8B);
  }

  lemma LetterRegister()
    ensures ByteRounds(0xFFFF_FFFF, 0x41) == 0x2C26_6174
    ensures Number(0x41, 8) == 0x41 && Number(0xD3D9_9E8B, 8) == 0xD3D9_9E8B
  {
  }

  /** The CRC of the single byte 5. */
  lemma FiveValue()
    ensures CrcValue([5]) == 0xA268_1B02
  {
    hide Bits, ByteRounds, ShiftBits, MessageBits, Number, CrcValue;
    FiveRegister();
    Nothing();
    var none: seq<byte> := [];
    Extend(none, 0xFFFF_FFFF, 5, 5);
    assert none + [5] == [5];
    Finish([5], 0x5D97_E4FD, 0xA268_1B02);
  }

  lemma FiveRegister()
    ensures ByteRounds(0xFFFF_FFFF, 5) == 0x5D97_E4FD
    ensures Number(5, 8) == 5 && Number(0xA268_1B02, 8) == 0xA268_1B02
  {
  }
}

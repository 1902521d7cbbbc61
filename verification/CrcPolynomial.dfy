/** CRC-32 as division of polynomials over the field of two elements, independently of any shift
    register. A polynomial is the set of the exponents of its terms. */
module CrcPolynomial {
  import opened Bytes
  import opened Crc

  type Poly = set<nat>

  /** The generator of CRC-32, by its exponents. */
  const GENERATOR: Poly := {32, 26, 23, 22, 16, 12, 11, 10, 8, 7, 5, 4, 2, 1, 0}

  function Add(p: Poly, q: Poly): (r: Poly) { (p - q) + (q - p) }

  /** `p` times x to the power `k`. */
  function TimesX(p: Poly, k: nat): (r: Poly) { set e | e in p :: e + k }

  /** The generator times the polynomial with the coefficients `q`, the lowest first. */
  function Multiple(q: seq<bool>): (r: Poly)
    decreases |q|
  {
    if q == [] then {}
    else
      var k := |q| - 1;
      if q[k] then Add(Multiple(q[..k]), TimesX(GENERATOR, k)) else Multiple(q[..k])
  }

  /** `r` is the remainder of `p` divided by the generator. */
  ghost predicate Remainder(p: Poly, r: Poly)
  {
    (forall e :: e in r ==> e < 32) && exists q :: p == Add(Multiple(q), r)
  }

  predicate BitSet(n: nat, i: nat) { n / Pow2(i) % 2 == 1 }

  /** The message: its first byte is the most significant, and in each byte the low bit is. */
  ghost function MessagePoly(data: seq<byte>): (p: Poly)
  {
    set i, j | 0 <= i < |data| && 0 <= j < 8 && BitSet(data[i], j) :: 8 * (|data| - 1 - i) + (7 - j)
  }

  /** The sum of the powers of x below `n`. */
  function Below(n: nat): (p: Poly)
    ensures forall e: nat :: e in p <==> e < n
  {
    if n == 0 then {} else Below(n - 1) + {n - 1}
  }

  /** What is divided: the message moved up by 32 places, its first 32 bits complemented. */
  ghost function Dividend(data: seq<byte>): (p: Poly)
  {
    Add(TimesX(MessagePoly(data), 32), TimesX(Below(32), 8 * |data|))
  }

  /** A 32-bit number complemented, its low bit being the coefficient of x to the power 31. */
  ghost function Complemented(n: nat): (p: Poly)
  {
    set i | 0 <= i < 32 && !BitSet(n, i) :: 31 - i
  }

  // ---- Arithmetic ----

  lemma InAdd(p: Poly, q: Poly, e: nat)
    ensures e in Add(p, q) <==> (e in p) != (e in q)
  {
  }

  lemma InTimesX(p: Poly, k: nat, e: nat)
    ensures e in TimesX(p, k) <==> e >= k && e - k in p
  {
    if e >= k && e - k in p { assert (e - k) + k == e; }
  }

  lemma AddAssociates(p: Poly, q: Poly, r: Poly)
    ensures Add(Add(p, q), r) == Add(p, Add(q, r))
  {
  }

  lemma TimesXAdd(p: Poly, q: Poly, k: nat)
    ensures TimesX(Add(p, q), k) == Add(TimesX(p, k), TimesX(q, k))
  {
    forall e: nat ensures e in TimesX(Add(p, q), k) <==> e in Add(TimesX(p, k), TimesX(q, k)) {
      InTimesX(Add(p, q), k, e);
      InTimesX(p, k, e);
      InTimesX(q, k, e);
    }
  }

  lemma TimesXTwice(p: Poly, j: nat, k: nat)
    ensures TimesX(TimesX(p, j), k) == TimesX(p, j + k)
  {
    forall e: nat ensures e in TimesX(TimesX(p, j), k) <==> e in TimesX(p, j + k) {
      InTimesX(TimesX(p, j), k, e);
      if e >= k { InTimesX(p, j, e - k); }
      InTimesX(p, j + k, e);
    }
  }

  /** A quotient times x, and one more if `g`. */
  lemma {:induction false} MultipleStep(q: seq<bool>, g: bool)
    ensures Multiple([g] + q) == Add(if g then GENERATOR else {}, TimesX(Multiple(q), 1))
    decreases |q|
  {
    var none: Poly := {};
    var t, k := [g] + q, |q|;
    if k == 0 {
      assert t[..0] == [];
      forall e: nat ensures e in TimesX(GENERATOR, 0) <==> e in GENERATOR { InTimesX(GENERATOR, 0, e); }
    } else {
      var front := q[..k - 1];
      MultipleStep(front, g);
      assert t[..k] == [g] + front && t[k] == q[k - 1];
      if q[k - 1] {
        TimesXTwice(GENERATOR, k - 1, 1);
        TimesXAdd(Multiple(front), TimesX(GENERATOR, k - 1), 1);
        AddAssociates(if g then GENERATOR else none, TimesX(Multiple(front), 1), TimesX(GENERATOR, k));
      }
    }
  }

  // ---- The remainder is unique ----

  lemma {:induction false} MultipleDegree(q: seq<bool>, e: nat)
    requires e in Multiple(q)
    ensures e < |q| + 32
    decreases |q|
  {
    var k := |q| - 1;
    if e in Multiple(q[..k]) {
      MultipleDegree(q[..k], e);
    } else {
      InTimesX(GENERATOR, k, e);
    }
  }

  /** A multiple of the generator of lower degree is zero. */
  lemma {:induction false} LowMultiple(q: seq<bool>)
    requires forall e :: e in Multiple(q) ==> e < 32
    ensures Multiple(q) == {}
    decreases |q|
  {
    if q != [] {
      var k := |q| - 1;
      if q[k] {
        InTimesX(GENERATOR, k, k + 32);
        if k + 32 in Multiple(q[..k]) { MultipleDegree(q[..k], k + 32); }
        assert k + 32 in Multiple(q);
      } else {
        LowMultiple(q[..k]);
      }
    }
  }

  lemma {:induction false} Padded(q: seq<bool>, n: nat)
    ensures Multiple(q + Zeros(n)) == Multiple(q)
    decreases n
  {
    if n == 0 {
      assert q + Zeros(0) == q;
    } else {
      Padded(q, n - 1);
      var t := q + Zeros(n);
      assert t[..|t| - 1] == q + Zeros(n - 1) && !t[|t| - 1];
    }
  }

  function SumOf(q: seq<bool>, r: seq<bool>): (t: seq<bool>)
    requires |q| == |r|
  {
    seq(|q|, i requires 0 <= i < |q| => q[i] != r[i])
  }

  lemma {:induction false} MultipleSum(q: seq<bool>, r: seq<bool>)
    requires |q| == |r|
    ensures Multiple(SumOf(q, r)) == Add(Multiple(q), Multiple(r))
    decreases |q|
  {
    if q != [] {
      var k := |q| - 1;
      MultipleSum(q[..k], r[..k]);
      assert SumOf(q, r)[..k] == SumOf(q[..k], r[..k]);
      AddOfSums(Multiple(q[..k]), TimesX(GENERATOR, k), Multiple(r[..k]));
    }
  }

  lemma AddOfSums(p: Poly, g: Poly, r: Poly)
    ensures Add(Add(p, g), r) == Add(Add(p, r), g)
    ensures Add(p, Add(r, g)) == Add(Add(p, r), g)
    ensures Add(Add(p, g), Add(r, g)) == Add(p, r)
  {
  }

  /** No polynomial has two remainders. */
  lemma RemainderUnique(p: Poly, r: Poly, r': Poly)
    requires Remainder(p, r) && Remainder(p, r')
    ensures r == r'
  {
    var q :| p == Add(Multiple(q), r);
    var q' :| p == Add(Multiple(q'), r');
    var a, b := q + Zeros(|q'|), q' + Zeros(|q|);
    Padded(q, |q'|);
    Padded(q', |q|);
    MultipleSum(a, b);
    var d := Multiple(SumOf(a, b));
    Difference(Multiple(q), r, Multiple(q'), r');
    forall e | e in d ensures e < 32 { InAdd(r, r', e); }
    LowMultiple(SumOf(a, b));
    forall e: nat ensures e in r <==> e in r' { InAdd(r, r', e); }
  }

  lemma Difference(m: Poly, r: Poly, m': Poly, r': Poly)
    requires Add(m, r) == Add(m', r')
    ensures Add(m, m') == Add(r, r')
  {
    forall e: nat ensures e in Add(m, m') <==> e in Add(r, r') {
      InAdd(m, r, e);
      InAdd(m', r', e);
    }
  }

  // ---- The shift register holds a remainder ----

  /** The register as a polynomial, its low bit being the coefficient of x to the power 31. */
  ghost function Register(c: Word): (p: Poly) { set i | 0 <= i < 32 && c[i] :: 31 - i }

  lemma InRegister(c: Word, e: nat)
    ensures e in Register(c) <==> e < 32 && c[31 - e]
  {
    if e < 32 && c[31 - e] { assert 31 - (31 - e) == e; }
  }

  /** Bits in transmission order, the first being the most significant. */
  ghost function BitsPoly(bits: seq<bool>): (p: Poly)
  {
    set i | 0 <= i < |bits| && bits[i] :: |bits| - 1 - i
  }

  lemma InBitsPoly(bits: seq<bool>, e: nat)
    ensures e in BitsPoly(bits) <==> e < |bits| && bits[|bits| - 1 - e]
  {
    var i := |bits| - 1 - e;
    if e < |bits| && bits[i] { assert |bits| - 1 - i == e; }
  }

  ghost function Shifted(bits: seq<bool>): (p: Poly)
  {
    Add(TimesX(BitsPoly(bits), 32), TimesX(Below(32), |bits|))
  }

  lemma InShifted(bits: seq<bool>, e: nat)
    ensures e in Shifted(bits) <==>
            (32 <= e < 32 + |bits| && bits[|bits| + 31 - e]) != (|bits| <= e < |bits| + 32)
  {
    InTimesX(BitsPoly(bits), 32, e);
    InTimesX(Below(32), |bits|, e);
    if e >= 32 { InBitsPoly(bits, e - 32); }
  }

  lemma MoreBits(bits: seq<bool>, b: bool, e: nat)
    ensures var t, n := bits + [b], |bits|;
            32 <= e < 33 + n ==> t[n + 32 - e] == if e == 32 then b else bits[n + 32 - e]
  {
  }

  /** One more message bit multiplies what is divided by x, and adds it in at place 32. */
  lemma ShiftedStep(bits: seq<bool>, b: bool)
    ensures Shifted(bits + [b]) == Add(TimesX(Shifted(bits), 1), if b then {32} else {})
  {
    var bit: Poly := if b then {32} else {};
    hide Shifted, TimesX;
    forall e: nat ensures e in Shifted(bits + [b]) <==> e in Add(TimesX(Shifted(bits), 1), bit) {
      InShifted(bits + [b], e);
      InTimesX(Shifted(bits), 1, e);
      if e >= 1 { InShifted(bits, e - 1); }
      MoreBits(bits, b, e);
    }
  }

  lemma AtLeast(a: int, b: int)
    requires a >= 1 && b >= 0
    ensures a * b >= b
  {
  }

  lemma QuotientIs(n: nat, d: nat, q: nat, r: nat)
    requires r < d && n == q * d + r
    ensures n / d == q
  {
    var q0, r0 := n / d, n % d;
    assert n == q0 * d + r0;
    assert (q0 - q) * d == r - r0;
    if q0 > q { AtLeast(q0 - q, d); }
    if q0 < q { AtLeast(q - q0, d); }
  }

  lemma Halved(n: nat, p: nat)
    requires p > 0
    ensures n / (2 * p) == n / p / 2
  {
    var q, r, h := n / p, n % p, n / p / 2;
    assert n == q * p + r;
    if q % 2 == 0 {
      assert q == 2 * h;
      assert q * p == h * (2 * p);
      QuotientIs(n, 2 * p, h, r);
    } else {
      assert q == 2 * h + 1;
      assert q * p == h * (2 * p) + p;
      QuotientIs(n, 2 * p, h, p + r);
    }
  }

  /** Four bits of the source's constant, from place `i` on, are those of what is left of it there. */
  lemma NibbleTaps(i: nat, h: nat)
    requires h == 0xEDB8_8320 / Pow2(i)
    ensures Tap(i) <==> h % 2 == 1
    ensures Tap(i + 1) <==> h / 2 % 2 == 1
    ensures Tap(i + 2) <==> h / 4 % 2 == 1
    ensures Tap(i + 3) <==> h / 8 % 2 == 1
    ensures 0xEDB8_8320 / Pow2(i + 4) == h / 16
  {
    Halved(0xEDB8_8320, Pow2(i));
    Halved(0xEDB8_8320, Pow2(i + 1));
    Halved(0xEDB8_8320, Pow2(i + 2));
    Halved(0xEDB8_8320, Pow2(i + 3));
    assert h / 2 / 2 == h / 4 && h / 4 / 2 == h / 8 && h / 8 / 2 == h / 16;
  }

  lemma LowTaps()
    ensures 0xEDB8_8320 / Pow2(16) == 0xEDB8
    ensures !Tap(0) && !Tap(1) && !Tap(2) && !Tap(3) && !Tap(4) && Tap(5) && !Tap(6) && !Tap(7)
    ensures Tap(8) && Tap(9) && !Tap(10) && !Tap(11) && !Tap(12) && !Tap(13) && !Tap(14) && Tap(15)
  {
    assert Pow2(0) == 1;
    hide Pow2, Tap;
    NibbleTaps(0, 0xEDB8_8320);
    NibbleTaps(4, 0xEDB_8832);
    NibbleTaps(8, 0xED_B883);
    NibbleTaps(12, 0xE_DB88);
  }

  lemma HighTaps()
    ensures !Tap(16) && !Tap(17) && !Tap(18) && Tap(19) && Tap(20) && Tap(21) && !Tap(22) && Tap(23)
    ensures Tap(24) && !Tap(25) && Tap(26) && Tap(27) && !Tap(28) && Tap(29) && Tap(30) && Tap(31)
  {
    hide Pow2, Tap;
    LowTaps();
    NibbleTaps(16, 0xEDB8);
    NibbleTaps(20, 0xEDB);
    NibbleTaps(24, 0xED);
    NibbleTaps(28, 0xE);
  }

  /** The constant of the source, bit by bit, is the generator without its highest term, reversed. */
  lemma TapsAreGenerator(e: nat)
    requires e < 32
    ensures Tap(31 - e) <==> e in GENERATOR
  {
    hide Pow2, Tap;
    LowTaps();
    HighTaps();
  }

  /** One shift multiplies by x, adds the message bit at place 32 and takes out the generator. */
  lemma RegisterStep(c: Word, b: bool)
    ensures Add(TimesX(Register(c), 1), if b then {32} else {})
         == Add(if c[0] != b then GENERATOR else {}, Register(Shift(c, b)))
  {
    hide Shift, TimesX, Register, Tap;
    var bit, gen: Poly := if b then {32} else {}, if c[0] != b then GENERATOR else {};
    var c' := Shift(c, b);
    forall e: nat ensures e in Add(TimesX(Register(c), 1), bit) <==> e in Add(gen, Register(c')) {
      InTimesX(Register(c), 1, e);
      if e >= 1 { InRegister(c, e - 1); }
      InRegister(c', e);
      if e < 32 {
        TapsAreGenerator(e);
        RegisterBit(c, b, 31 - e);
      } else {
        AtMost32(e);
      }
    }
  }

  lemma AtMost32(e: nat)
    requires e >= 32
    ensures e in GENERATOR <==> e == 32
  {
  }

  lemma RegisterBit(c: Word, b: bool, i: nat)
    requires i < 32
    ensures Shift(c, b)[i] == ((c[0] != b && Tap(i)) != (i < 31 && c[i + 1]))
  {
    hide Tap;
  }

  /** After any message bits, the register is the remainder of what they make up. */
  lemma {:induction false} RegisterIsRemainder(bits: seq<bool>) returns (q: seq<bool>)
    ensures Shifted(bits) == Add(Multiple(q), Register(ShiftBits(ALL_ONES, bits)))
    decreases |bits|
  {
    if bits == [] {
      q := [];
      AllOnesRegister();
    } else {
      var front, b := bits[..|bits| - 1], bits[|bits| - 1];
      var q0 := RegisterIsRemainder(front);
      var c := ShiftBits(ALL_ONES, front);
      q := [c[0] != b] + q0;
      assert bits == front + [b];
      ShiftBitsSplit(ALL_ONES, front, [b]);
      assert ShiftBits(c, [b]) == Shift(c, b);
      hide Shifted, Shift, ShiftBits, Multiple, Register;
      ShiftedStep(front, b);
      TimesXAdd(Multiple(q0), Register(c), 1);
      RegisterStep(c, b);
      MultipleStep(q0, c[0] != b);
      Regroup(TimesX(Multiple(q0), 1), TimesX(Register(c), 1), if b then {32} else {},
              if c[0] != b then GENERATOR else {}, Register(Shift(c, b)));
    }
  }

  lemma Regroup(m: Poly, r: Poly, bit: Poly, gen: Poly, r': Poly)
    requires Add(r, bit) == Add(gen, r')
    ensures Add(Add(m, r), bit) == Add(Add(gen, m), r')
  {
    AddAssociates(m, r, bit);
    forall e: nat ensures e in Add(m, Add(gen, r')) <==> e in Add(Add(gen, m), r') { }
  }

  lemma AllOnesRegister()
    ensures Shifted([]) == Add(Multiple([]), Register(ShiftBits(ALL_ONES, [])))
  {
    forall e: nat ensures e in Shifted([]) <==> e in Register(ALL_ONES) {
      InTimesX(BitsPoly([]), 32, e);
      InTimesX(Below(32), 0, e);
      InRegister(ALL_ONES, e);
    }
  }

  // ---- CRC-32 ----

  lemma {:induction false} BitsOfAt(n: nat, k: nat, i: nat)
    requires i < k
    ensures BitsOf(n, k)[i] <==> BitSet(n, i)
    decreases i
  {
    if i > 0 {
      BitsOfAt(n / 2, k - 1, i - 1);
      HalvedFirst(n, Pow2(i - 1));
    }
  }

  lemma HalvedFirst(n: nat, p: nat)
    requires p > 0
    ensures n / (2 * p) == n / 2 / p
  {
    var h, b := n / 2, n % 2;
    var q, r := h / p, h % p;
    assert h == q * p + r;
    assert n == q * (2 * p) + (2 * r + b);
    QuotientIs(n, 2 * p, q, 2 * r + b);
  }

  lemma {:induction false} MessageBitsAt(data: seq<byte>, i: nat, j: nat)
    requires i < |data| && j < 8
    ensures MessageBits(data)[8 * i + j] <==> BitSet(data[i], j)
    decreases |data|
  {
    if i == 0 {
      BitsOfAt(data[0], 8, j);
    } else {
      MessageBitsAt(data[1..], i - 1, j);
    }
  }

  lemma MessagePolyBits(data: seq<byte>)
    ensures BitsPoly(MessageBits(data)) == MessagePoly(data)
  {
    var bits := MessageBits(data);
    forall e: nat ensures e in BitsPoly(bits) <==> e in MessagePoly(data) {
      hide BitsPoly, MessagePoly, MessageBits;
      InBitsPoly(bits, e);
      InMessagePoly(data, e);
      if e < 8 * |data| { MessageBitsAt(data, |data| - 1 - e / 8, 7 - e % 8); }
    }
  }

  /** The coefficient of x to the power `e`, by byte and bit. */
  lemma InMessagePoly(data: seq<byte>, e: nat)
    ensures e in MessagePoly(data) <==> e < 8 * |data| && BitSet(data[|data| - 1 - e / 8], 7 - e % 8)
  {
    hide BitSet;
    var n := |data|;
    if e < 8 * n {
      var i, j := n - 1 - e / 8, 7 - e % 8;
      assert 8 * (n - 1 - i) + (7 - j) == e;
    }
    if e in MessagePoly(data) {
      var i, j :| 0 <= i < n && 0 <= j < 8 && BitSet(data[i], j) && 8 * (n - 1 - i) + (7 - j) == e;
      assert e / 8 == n - 1 - i && e % 8 == 7 - j;
    }
  }

  lemma ComplementedIsRegister(data: seq<byte>)
    ensures Complemented(CrcValue(data)) == Register(ShiftBits(ALL_ONES, MessageBits(data)))
  {
    var w, c := Crc32(data), ShiftBits(ALL_ONES, MessageBits(data));
    BitsOfValue(w);
    hide Crc32;
    forall i | 0 <= i < 32 ensures BitSet(CrcValue(data), i) <==> !c[i] {
      BitsOfAt(CrcValue(data), 32, i);
      Flipped(data, i);
    }
  }

  lemma Flipped(data: seq<byte>, i: nat)
    requires i < 32
    ensures Crc32(data)[i] == !ShiftBits(ALL_ONES, MessageBits(data))[i]
  {
  }

  /** CRC-32 is the only 32-bit number that, complemented and reversed, is the remainder of the message
      divided by the generator. */
  lemma CrcIsRemainder(data: seq<byte>, n: u32)
    ensures n == CrcValue(data) <==> Remainder(Dividend(data), Complemented(n))
  {
    var bits := MessageBits(data);
    var q := RegisterIsRemainder(bits);
    MessagePolyBits(data);
    ComplementedIsRegister(data);
    assert Dividend(data) == Shifted(bits);
    assert Remainder(Dividend(data), Complemented(CrcValue(data)));
    if Remainder(Dividend(data), Complemented(n)) {
      RemainderUnique(Dividend(data), Complemented(n), Complemented(CrcValue(data)));
      ComplementedInjective(n, CrcValue(data));
    }
  }

  lemma ComplementedInjective(m: u32, n: u32)
    requires Complemented(m) == Complemented(n)
    ensures m == n
  {
    forall i | 0 <= i < 32 ensures BitsOf(m, 32)[i] == BitsOf(n, 32)[i] {
      BitsOfAt(m, 32, i);
      BitsOfAt(n, 32, i);
      InComplemented(m, i);
      InComplemented(n, i);
    }
    assert BitsOf(m, 32) == BitsOf(n, 32);
    Pow2At32();
    ValueOfBits(m, 32);
    ValueOfBits(n, 32);
  }

  lemma InComplemented(n: nat, i: nat)
    requires i < 32
    ensures 31 - i in Complemented(n) <==> !BitSet(n, i)
  {
  }
}

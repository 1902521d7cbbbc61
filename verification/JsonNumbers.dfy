/** What a number in a JSON text is worth (gateway/src/cJSON.c, `parse_number`): sign, digits, fraction
    and exponent, against the value of a decimal notation said without scanning. */
module JsonNumbers {
  import opened Bytes
  import opened Json
  import opened JsonParse

  datatype Exponent = Exponent(letter: byte, sign: seq<byte>, digits: seq<byte>)

  /** A number as it is spelled: sign, digits, perhaps a point and more digits, perhaps an exponent. */
  datatype Spelling = Spelling(
    sign: seq<byte>, whole: seq<byte>, point: bool, fraction: seq<byte>, exponent: Option<Exponent>)

  predicate AreDigits(t: seq<byte>) { forall k :: 0 <= k < |t| ==> 48 <= t[k] <= 57 }

  predicate IsSign(t: seq<byte>) { t in {[], [0x2B], [0x2D]} }

  predicate Valid(n: Spelling)
  {
    && IsSign(n.sign) && AreDigits(n.whole) && AreDigits(n.fraction) && |n.whole| + |n.fraction| > 0
    && (n.fraction != [] ==> n.point)
    && (n.exponent.Some? ==>
          var e := n.exponent.value;
          e.letter in {0x65, 0x45} && IsSign(e.sign) && AreDigits(e.digits) && e.digits != [])
  }

  function Mantissa(n: Spelling): (t: seq<byte>)
  {
    n.sign + n.whole + (if n.point then [0x2E] else []) + n.fraction
  }

  function ExponentText(e: Exponent): (t: seq<byte>) { [e.letter] + e.sign + e.digits }

  function Spelled(n: Spelling): (t: seq<byte>)
  {
    Mantissa(n) + (if n.exponent.Some? then ExponentText(n.exponent.value) else [])
  }

  /** 10 to the power `z`. */
  function TenTo(z: int): (r: real)
    ensures r > 0.0
  {
    if z >= 0 then Pow10(z) as real else 1.0 / Pow10(-z) as real
  }

  function Signed(sign: seq<byte>, x: int): (y: int) { if sign == [0x2D] then -x else x }

  function ExponentOf(n: Spelling): (z: int)
  {
    if n.exponent.None? then 0 else Signed(n.exponent.value.sign, DigitsValue(n.exponent.value.digits))
  }

  /** All the digits as one number, times ten to the exponent less the number of fraction digits. */
  function Worth(n: Spelling): (r: real)
  {
    Signed(n.sign, DigitsValue(n.whole + n.fraction)) as real * TenTo(ExponentOf(n) - |n.fraction|)
  }

  // ---- Arithmetic ----

  lemma {:induction false} DigitsSum(a: seq<byte>, b: seq<byte>)
    ensures DigitsValue(a + b) == DigitsValue(a) * Pow10(|b|) + DigitsValue(b)
    decreases |b|
  {
    if b == [] {
      assert a + b == a;
    } else {
      var front := b[..|b| - 1];
      DigitsSum(a, front);
      assert (a + b)[..|a + b| - 1] == a + front;
      assert DigitsValue(a) * Pow10(|b|) == 10 * (DigitsValue(a) * Pow10(|front|));
    }
  }

  lemma {:induction false} DigitsNotNegative(t: seq<byte>)
    requires AreDigits(t)
    ensures DigitsValue(t) >= 0
    decreases |t|
  {
    if t != [] { DigitsNotNegative(t[..|t| - 1]); }
  }

  lemma {:induction false} Pow10Sum(a: nat, b: nat)
    ensures Pow10(a + b) == Pow10(a) * Pow10(b)
    decreases a
  {
    if a > 0 { Pow10Sum(a - 1, b); }
  }

  function Tens(k: nat): (r: real)
    ensures r > 0.0
  {
    Pow10(k) as real
  }

  lemma TensSum(a: nat, b: nat)
    ensures Tens(a + b) == Tens(a) * Tens(b)
  {
    Pow10Sum(a, b);
    hide Pow10;
    RealProduct(Pow10(a), Pow10(b));
  }

  lemma RealProduct(x: int, y: int)
    ensures (x * y) as real == x as real * y as real
  {
  }

  /** Powers of ten of any two exponents. */
  lemma TenToTimes(a: nat, b: nat)
    ensures TenTo(a - b) * Tens(b) == Tens(a)
  {
    if a >= b {
      TensSum(a - b, b);
      assert TenTo(a - b) == Tens(a - b);
    } else {
      TensSum(b - a, a);
      assert TenTo(a - b) == 1.0 / Tens(b - a);
      hide Tens, TenTo;
      Inverse(Tens(b - a), Tens(a));
    }
  }

  lemma Inverse(x: real, y: real)
    requires x > 0.0
    ensures 1.0 / x * (x * y) == y
  {
    var z := 1.0 / x;
    assert z * x == 1.0;
    assert z * (x * y) == (z * x) * y;
  }

  lemma SizeIs(whole: seq<byte>, fraction: seq<byte>)
    ensures DigitsValue(whole) as real + DigitsValue(fraction) as real / Pow10(|fraction|) as real
         == DigitsValue(whole + fraction) as real / Pow10(|fraction|) as real
  {
    hide Pow10, DigitsValue;
    DigitsSum(whole, fraction);
    var a, b, p := DigitsValue(whole), DigitsValue(fraction), Pow10(|fraction|);
    assert (a * p + b) as real == a as real * p as real + b as real;
    Distribute(a as real, b as real, p as real);
  }

  lemma Distribute(a: real, b: real, p: real)
    requires p > 0.0
    ensures a + b / p == (a * p + b) / p
  {
    assert (a + b / p) * p == a * p + b;
  }

  /** A quotient by the fraction's power, scaled up by the exponent's. */
  lemma ScaleUp(x: real, f: nat, k: nat)
    ensures x / Tens(f) * Tens(k) == x * TenTo(k - f)
  {
    hide Tens, TenTo;
    TenToTimes(k, f);
    Rescale(x, Tens(f), Tens(k), TenTo(k - f));
  }

  /** And scaled down. */
  lemma ScaleDown(x: real, f: nat, k: nat)
    ensures x / Tens(f) / Tens(k) == x * TenTo(0 - k - f)
  {
    assert Tens(0) == 1.0;
    hide Tens, TenTo;
    TenToTimes(0, k + f);
    TensSum(k, f);
    RescaleDown(x, Tens(f), Tens(k), TenTo(0 - (k + f)));
  }

  lemma Rescale(x: real, p: real, q: real, t: real)
    requires p > 0.0 && t * p == q
    ensures x / p * q == x * t
  {
    var y := x / p;
    assert y * p == x;
    assert y * (t * p) == (y * p) * t;
  }

  lemma RescaleDown(x: real, p: real, q: real, t: real)
    requires p > 0.0 && q > 0.0 && t * (q * p) == 1.0
    ensures x / p / q == x * t
  {
    var y := x / p / q;
    assert y * q == x / p && (y * q) * p == x;
    assert y == y * (t * (q * p)) == ((y * q) * p) * t;
  }

  // ---- Scanning ----

  lemma {:induction false} DigitsEndStops(t: seq<byte>, i: nat, j: nat)
    requires i <= j <= |t| && (forall k :: i <= k < j ==> 48 <= t[k] <= 57) && (j < |t| ==> !(48 <= t[j] <= 57))
    ensures DigitsEnd(t, i) == j
    decreases j - i
  {
    if i < j { DigitsEndStops(t, i + 1, j); }
  }

  lemma Slices(a: seq<byte>, b: seq<byte>, c: seq<byte>, d: seq<byte>)
    ensures var m, i, j := a + b + c + d, |a| + |b|, |a| + |b| + |c|;
            && m[..|a|] == a && m[|a|..i] == b && m[i..j] == c && m[j..] == d && |m| == j + |d|
            && (c != [] ==> m[i] == c[0])
  {
    assert a + b + c + d == a + (b + (c + d));
  }

  /** Where the parts of a spelled number are. */
  lemma MantissaParts(n: Spelling)
    requires Valid(n)
    ensures var t, p0 := Spelled(n), |n.sign|;
            var p1 := p0 + |n.whole|;
            var p2 := p1 + if n.point then 1 else 0;
            var p3 := p2 + |n.fraction|;
            && p3 == |Mantissa(n)| <= |t| && t[..p0] == n.sign && t[p0..p1] == n.whole && t[p2..p3] == n.fraction
            && (n.point ==> t[p1] == 0x2E)
            && (p3 < |t| <==> n.exponent.Some?) && (p3 < |t| ==> t[p3] == n.exponent.value.letter)
  {
    var t, m, p0 := Spelled(n), Mantissa(n), |n.sign|;
    var p1 := p0 + |n.whole|;
    var p2 := p1 + if n.point then 1 else 0;
    Slices(n.sign, n.whole, if n.point then [0x2E] else [], n.fraction);
    assert t[..p0] == m[..p0] && t[p0..p1] == m[p0..p1] && t[p2..|m|] == m[p2..];
    assert n.exponent.Some? ==> t[|m|] == ExponentText(n.exponent.value)[0];
    hide Valid, ExponentText;
  }

  lemma ExponentParts(n: Spelling)
    requires Valid(n) && n.exponent.Some?
    ensures var t, e, p3 := Spelled(n), n.exponent.value, |Mantissa(n)|;
            && |t| == p3 + 1 + |e.sign| + |e.digits|
            && t[p3 + 1..p3 + 1 + |e.sign|] == e.sign && t[p3 + 1 + |e.sign|..] == e.digits
  {
    hide Mantissa;
    var t, e := Spelled(n), n.exponent.value;
    assert t[|Mantissa(n)|..] == ExponentText(e);
  }

  function Size(n: Spelling): (r: real)
  {
    DigitsValue(n.whole) as real + DigitsValue(n.fraction) as real / Pow10(|n.fraction|) as real
  }

  function Scaled(n: Spelling): (r: real)
  {
    if n.exponent.None? then Size(n)
    else
      var e := n.exponent.value;
      if e.sign == [0x2D] then Size(n) / Power(DigitsValue(e.digits)) else Size(n) * Power(DigitsValue(e.digits))
  }

  lemma PowerIsTens(k: nat)
    ensures Power(k) == Tens(k)
  {
  }

  lemma ScaledReal(size: real, power: real, x: real, f: nat, k: nat)
    requires size == x / Tens(f) && power == Tens(k)
    ensures size * power == x * TenTo(k - f) && size / power == x * TenTo(0 - k - f)
  {
    hide Tens, TenTo;
    ScaleUp(x, f, k);
    ScaleDown(x, f, k);
  }

  lemma Unscaled(size: real, x: real, f: nat)
    requires size == x / Tens(f)
    ensures size == x * TenTo(0 - f)
  {
    assert Tens(0) == 1.0;
    hide Tens, TenTo;
    ScaledReal(size, 1.0, x, f, 0);
  }

  lemma ExponentNotNegative(n: Spelling)
    requires Valid(n) && n.exponent.Some?
    ensures DigitsValue(n.exponent.value.digits) >= 0
  {
    DigitsNotNegative(n.exponent.value.digits);
  }

  lemma ScaledBy(n: Spelling, x: real)
    requires Valid(n) && Size(n) == x / Tens(|n.fraction|)
    ensures Scaled(n) == x * TenTo(ExponentOf(n) - |n.fraction|)
  {
    hide Size, Tens, TenTo, Valid, DigitsValue, Power;
    if n.exponent.None? {
      Unscaled(Size(n), x, |n.fraction|);
    } else {
      ExponentNotNegative(n);
      var k: nat := DigitsValue(n.exponent.value.digits);
      PowerIsTens(k);
      ScaledReal(Size(n), Power(k), x, |n.fraction|, k);
    }
  }

  lemma SizeOf(n: Spelling)
    ensures Size(n) == DigitsValue(n.whole + n.fraction) as real / Tens(|n.fraction|)
  {
    hide DigitsValue, Pow10;
    SizeIs(n.whole, n.fraction);
  }

  lemma Negated(sign: seq<byte>, x: int, y: real)
    ensures Signed(sign, x) as real * y == if sign == [0x2D] then -(x as real * y) else x as real * y
  {
  }

  /** Adding up the parts and scaling the sum gives what the digits are worth. */
  lemma ScaledIsWorth(n: Spelling)
    requires Valid(n)
    ensures Worth(n) == if n.sign == [0x2D] then -Scaled(n) else Scaled(n)
  {
    hide Scaled, Size, Tens, TenTo, DigitsValue, Valid, Signed, ExponentOf;
    var d := DigitsValue(n.whole + n.fraction);
    SizeOf(n);
    ScaledBy(n, d as real);
    Negated(n.sign, d, TenTo(ExponentOf(n) - |n.fraction|));
  }

  /** Where the scan finds the parts of a spelled number. */
  function PartsOf(n: Spelling): (k: Scan)
  {
    var a := |n.sign| + |n.whole|;
    var b := |Mantissa(n)|;
    var x := if n.exponent.None? then b else b + 1 + |n.exponent.value.sign|;
    Scan(|n.sign|, a, b, x, |Spelled(n)|)
  }

  lemma SignFound(n: Spelling)
    requires Valid(n)
    ensures var t := Spelled(n);
            && t != [] && (t[0] in {0x2B, 0x2D} <==> |n.sign| == 1) && |n.sign| <= 1
            && (At(t, 0, 0x2D) <==> n.sign == [0x2D])
  {
    hide Spelled, Mantissa;
    MantissaParts(n);
    var t := Spelled(n);
    if n.sign == [] {
      assert n.whole != [] ==> t[0] == n.whole[0];
    } else {
      assert t[0] == n.sign[0];
    }
  }

  lemma WholeFound(n: Spelling)
    requires Valid(n)
    ensures var t, k := Spelled(n), PartsOf(n);
            && k.sign <= k.whole <= |t| && DigitsEnd(t, k.sign) == k.whole && t[k.sign..k.whole] == n.whole
            && (At(t, k.whole, 0x2E) <==> n.point)
  {
    hide Spelled, Mantissa, DigitsEnd;
    MantissaParts(n);
    var t, k := Spelled(n), PartsOf(n);
    forall i | k.sign <= i < k.whole ensures 48 <= t[i] <= 57 { assert t[i] == n.whole[i - k.sign]; }
    DigitsEndStops(t, k.sign, k.whole);
  }

  lemma FractionFound(n: Spelling)
    requires Valid(n)
    ensures var t, k := Spelled(n), PartsOf(n);
            && k.whole <= k.fraction <= |t| && (!n.point ==> k.fraction == k.whole)
            && (n.point ==> k.whole < k.fraction && DigitsEnd(t, k.whole + 1) == k.fraction &&
                            t[k.whole + 1..k.fraction] == n.fraction)
            && (k.fraction < |t| && t[k.fraction] in {0x65, 0x45} <==> n.exponent.Some?)
  {
    hide Spelled, Mantissa, DigitsEnd;
    MantissaParts(n);
    var t, k := Spelled(n), PartsOf(n);
    if n.point {
      forall i | k.whole < i < k.fraction ensures 48 <= t[i] <= 57 { assert t[i] == n.fraction[i - k.whole - 1]; }
      DigitsEndStops(t, k.whole + 1, k.fraction);
    }
  }

  lemma ExponentFound(n: Spelling)
    requires Valid(n) && n.exponent.Some?
    ensures var t, k, e := Spelled(n), PartsOf(n), n.exponent.value;
            && k.fraction + 1 + |e.sign| == k.exponent < k.end == |t| && |e.sign| <= 1
            && (t[k.fraction + 1] in {0x2B, 0x2D} <==> |e.sign| == 1)
            && (t[k.exponent - 1] == 0x2D <==> e.sign == [0x2D])
            && DigitsEnd(t, k.exponent) == k.end && t[k.exponent..k.end] == e.digits
  {
    hide Spelled, Mantissa, DigitsEnd, ExponentText;
    MantissaParts(n);
    ExponentParts(n);
    var t, k, e := Spelled(n), PartsOf(n), n.exponent.value;
    assert t[k.exponent..k.end] == t[k.exponent..] == e.digits;
    assert t[k.exponent] == e.digits[0];
    assert |e.sign| == 1 ==> t[k.fraction + 1..k.exponent][0] == t[k.fraction + 1];
    forall i | k.exponent <= i < k.end ensures 48 <= t[i] <= 57 { assert t[i] == e.digits[i - k.exponent]; }
    DigitsEndStops(t, k.exponent, k.end);
  }

  lemma EndFound(n: Spelling)
    requires Valid(n) && n.exponent.None?
    ensures PartsOf(n).fraction == PartsOf(n).exponent == PartsOf(n).end == |Spelled(n)|
  {
  }

  lemma ScanSpelled(n: Spelling)
    requires Valid(n)
    ensures ScanNumber(Spelled(n)) == PartsOf(n)
  {
    hide Spelled, Mantissa, DigitsEnd, Valid, PartsOf;
    SignFound(n);
    WholeFound(n);
    FractionFound(n);
    if n.exponent.Some? { ExponentFound(n); } else { EndFound(n); }
    assert PartsOf(n).sign == |n.sign| by { SignEnd(n); }
  }

  lemma SignEnd(n: Spelling)
    ensures PartsOf(n).sign == |n.sign|
  {
  }

  lemma ValueSpelled(n: Spelling)
    requires Valid(n)
    ensures var k := PartsOf(n);
            && k.sign <= k.whole <= k.fraction <= k.exponent <= k.end <= |Spelled(n)|
            && ScannedValue(Spelled(n), k) == if n.sign == [0x2D] then -Scaled(n) else Scaled(n)
  {
    hide Spelled, Mantissa, DigitsEnd, DigitsValue, Power, Pow10, PartsOf;
    SignFound(n);
    WholeFound(n);
    FractionFound(n);
    if n.exponent.Some? { ExponentFound(n); } else { EndFound(n); }
    assert !n.point ==> n.fraction == [];
    hide Valid;
  }

  /** The whole of a spelled number is taken, for what it is worth. */
  lemma StrtodSpelled(n: Spelling)
    requires Valid(n)
    ensures Strtod(Spelled(n)) == (|Spelled(n)|, Worth(n))
  {
    MantissaParts(n);
    hide ScanNumber, ScannedValue, Worth, Scaled;
    ScanSpelled(n);
    ValueSpelled(n);
    ScaledIsWorth(n);
  }

  lemma SpelledBytes(n: Spelling)
    requires Valid(n)
    ensures |Spelled(n)| > 0 && forall k :: 0 <= k < |Spelled(n)| ==> NumberByte(Spelled(n)[k])
  {
    forall k | 0 <= k < |Mantissa(n)| ensures NumberByte(Mantissa(n)[k]) { }
    if n.exponent.Some? {
      var e := ExponentText(n.exponent.value);
      forall k | 0 <= k < |e| ensures NumberByte(e[k]) { }
    }
    hide Mantissa, ExponentText;
  }

  /** A number in a text, followed by nothing or by a byte that no number has. */
  lemma NumberParsed(c: seq<byte>, i: nat, n: Spelling)
    requires Valid(n) && i + |Spelled(n)| <= |c| && c[i..i + |Spelled(n)|] == Spelled(n)
    requires i + |Spelled(n)| < |c| ==> !NumberByte(c[i + |Spelled(n)|])
    ensures i < |c| && ParseNumber(c, i) == Done(Number(Worth(n)), i + |Spelled(n)|)
  {
    hide Spelled, Strtod, Worth, NumberByte;
    StrtodSpelled(n);
    SpelledBytes(n);
    var j := i + |Spelled(n)|;
    forall k | i <= k < j ensures NumberByte(c[k]) { assert c[k] == Spelled(n)[k - i]; }
    NumberEndStops(c, i, j);
  }

  lemma {:induction false} NumberEndStops(c: seq<byte>, i: nat, j: nat)
    requires i <= j <= |c| && (j < |c| ==> !NumberByte(c[j])) && forall k :: i <= k < j ==> NumberByte(c[k])
    ensures NumberEnd(c, i) == j
    decreases j - i
  {
    if i < j { NumberEndStops(c, i + 1, j); }
  }

  // ---- Any text ----

  /** The bytes of `t` at the parts `k` are a sign, digits, a point, digits, and an exponent. */
  predicate Laid(t: seq<byte>, k: Scan)
  {
    && k.sign <= k.whole <= k.fraction <= k.exponent <= k.end <= |t|
    && k.sign <= 1 && (k.sign == 1 ==> t[0] in {0x2B, 0x2D}) && (k.sign == 0 ==> !At(t, 0, 0x2D))
    && AreDigits(t[k.sign..k.whole])
    && (k.whole < k.fraction ==> t[k.whole] == 0x2E && AreDigits(t[k.whole + 1..k.fraction]))
    && (k.exponent == k.fraction ==> k.end == k.fraction)
    && (k.exponent > k.fraction ==>
          && t[k.fraction] in {0x65, 0x45} && k.exponent < k.end && AreDigits(t[k.exponent..k.end])
          && k.exponent <= k.fraction + 2 && (k.exponent == k.fraction + 2 ==> t[k.fraction + 1] in {0x2B, 0x2D}))
  }

  /** There is a digit before the exponent. */
  predicate HasDigit(k: Scan) { k.whole > k.sign || k.fraction > k.whole + 1 }

  lemma ScanLaid(t: seq<byte>)
    ensures Laid(t, ScanNumber(t))
  {
  }

  /** The number whose parts are at `k`. */
  function NumberAt(t: seq<byte>, k: Scan): (n: Spelling)
    requires Laid(t, k)
  {
    Spelling(t[..k.sign], t[k.sign..k.whole], k.whole < k.fraction,
             if k.whole < k.fraction then t[k.whole + 1..k.fraction] else [],
             if k.exponent == k.fraction then None
             else Some(Exponent(t[k.fraction], t[k.fraction + 1..k.exponent], t[k.exponent..k.end])))
  }

  lemma NumberAtValid(t: seq<byte>, k: Scan)
    requires Laid(t, k) && HasDigit(k)
    ensures Valid(NumberAt(t, k))
  {
    var n := NumberAt(t, k);
    OneSign(n.sign);
    if n.exponent.Some? { OneSign(n.exponent.value.sign); }
  }

  lemma OneSign(t: seq<byte>)
    requires |t| <= 1 && (t != [] ==> t[0] in {0x2B, 0x2D})
    ensures IsSign(t)
  {
    assert t != [] ==> t == [t[0]];
  }

  lemma NumberAtSpelled(t: seq<byte>, k: Scan)
    requires Laid(t, k)
    ensures Mantissa(NumberAt(t, k)) == t[..k.fraction] && Spelled(NumberAt(t, k)) == t[..k.end]
    ensures PartsOf(NumberAt(t, k)) == k
  {
    var n := NumberAt(t, k);
    assert k.whole < k.fraction ==> [0x2E] == t[k.whole..k.whole + 1];
    assert Mantissa(n) == t[..k.fraction];
    hide Mantissa;
    if n.exponent.Some? {
      assert ExponentText(n.exponent.value) == t[k.fraction..k.end];
      hide ExponentText;
      assert t[..k.fraction] + t[k.fraction..k.end] == t[..k.end];
    }
  }

  lemma SameValue(t: seq<byte>, k: Scan)
    requires Laid(t, k) && HasDigit(k)
    ensures ScannedValue(t[..k.end], k) == ScannedValue(t, k)
  {
    var u := t[..k.end];
    assert u[k.sign..k.whole] == t[k.sign..k.whole] && u[k.exponent..k.end] == t[k.exponent..k.end];
    assert k.whole < k.fraction ==> u[k.whole + 1..k.fraction] == t[k.whole + 1..k.fraction];
    assert At(u, 0, 0x2D) == At(t, 0, 0x2D) && (k.exponent > k.fraction ==> u[k.exponent - 1] == t[k.exponent - 1]);
    hide DigitsValue, Power, Pow10, AreDigits, Laid;
  }

  /** What strtod takes of any text is a spelled number, for what it is worth. */
  lemma StrtodTakesNumber(t: seq<byte>) returns (n: Spelling)
    requires Strtod(t).0 > 0
    ensures Valid(n) && Spelled(n) == t[..Strtod(t).0] && Strtod(t).1 == Worth(n)
  {
    var k := ScanNumber(t);
    ScanLaid(t);
    hide ScanNumber, Laid, ScannedValue, Valid, Spelled, Worth, Scaled, PartsOf;
    n := NumberAt(t, k);
    NumberAtValid(t, k);
    NumberAtSpelled(t, k);
    SameValue(t, k);
    ValueSpelled(n);
    ScaledIsWorth(n);
  }

  // ---- The longest number ----

  lemma {:induction false} DigitsEndAtLeast(t: seq<byte>, i: nat, j: nat)
    requires i <= j <= |t| && forall k :: i <= k < j ==> 48 <= t[k] <= 57
    ensures DigitsEnd(t, i) >= j
    decreases j - i
  {
    if i < j { DigitsEndAtLeast(t, i + 1, j); }
  }

  /** The digits from `i` on end where they end in a prefix, or run on past its end. */
  lemma DigitsEndIn(t: seq<byte>, u: seq<byte>, i: nat, j: nat)
    requires u <= t && i <= j <= |u| && DigitsEnd(u, i) == j
    ensures DigitsEnd(t, i) >= j && (j < |u| ==> DigitsEnd(t, i) == j)
  {
    forall k | i <= k < j ensures 48 <= t[k] <= 57 { assert t[k] == u[k]; }
    DigitsEndAtLeast(t, i, j);
    if j < |u| {
      NotDigit(u, i);
      DigitsEndStops(t, i, j);
    }
  }

  lemma {:induction false} NotDigit(u: seq<byte>, i: nat)
    requires i <= |u|
    ensures DigitsEnd(u, i) < |u| ==> !(48 <= u[DigitsEnd(u, i)] <= 57)
    decreases |u| - i
  {
    if i < |u| && 48 <= u[i] <= 57 { NotDigit(u, i + 1); }
  }

  lemma LongestWhole(t: seq<byte>, n: Spelling)
    requires Valid(n) && Spelled(n) <= t
    ensures var k, k' := PartsOf(n), ScanNumber(t);
            k'.sign == k.sign && k'.whole >= k.whole && (k.whole < |Spelled(n)| ==> k'.whole == k.whole)
  {
    hide Spelled, Mantissa, DigitsEnd, PartsOf, Valid;
    SignFound(n);
    SignEnd(n);
    WholeFound(n);
    assert t[0] == Spelled(n)[0];
    DigitsEndIn(t, Spelled(n), PartsOf(n).sign, PartsOf(n).whole);
  }

  lemma LongestFraction(t: seq<byte>, n: Spelling)
    requires Valid(n) && Spelled(n) <= t
    ensures var k, k' := PartsOf(n), ScanNumber(t);
            k'.fraction >= k.fraction && (k.fraction < |Spelled(n)| ==> k'.fraction == k.fraction)
  {
    hide Spelled, Mantissa, DigitsEnd, PartsOf, Valid;
    LongestWhole(t, n);
    WholeFound(n);
    FractionFound(n);
    if n.point { DigitsEndIn(t, Spelled(n), PartsOf(n).whole + 1, PartsOf(n).fraction); }
  }

  lemma LongestExponent(t: seq<byte>, n: Spelling)
    requires Valid(n) && Spelled(n) <= t
    ensures ScanNumber(t).end >= |Spelled(n)|
  {
    hide Spelled, Mantissa, DigitsEnd, PartsOf, Valid;
    LongestFraction(t, n);
    if n.exponent.Some? {
      FractionFound(n);
      ExponentFound(n);
      DigitsEndIn(t, Spelled(n), PartsOf(n).exponent, PartsOf(n).end);
    } else {
      EndFound(n);
    }
  }

  /** No longer part of a text spells a number than strtod takes. */
  lemma StrtodTakesLongest(t: seq<byte>, n: Spelling)
    requires Valid(n) && Spelled(n) <= t
    ensures Strtod(t).0 >= |Spelled(n)|
  {
    MantissaParts(n);
    hide Spelled, ScannedValue, ScanNumber;
    SignFound(n);
    LongestWhole(t, n);
    LongestFraction(t, n);
    LongestExponent(t, n);
  }

  // ---- valueint ----

  /** `valueint` is the number cut off towards zero, and the nearest int outside the range of int. */
  lemma ValueIntCuts(d: real, n: int)
    ensures n == ValueInt(d) <==>
            if d >= INT_MAX as real then n == INT_MAX
            else if d <= INT_MIN as real then n == INT_MIN
            else if d >= 0.0 then n as real <= d < n as real + 1.0
            else n as real - 1.0 < d <= n as real
  {
  }

  lemma {:induction false} DigitsBelow(t: seq<byte>)
    requires AreDigits(t)
    ensures 0 <= DigitsValue(t) < Pow10(|t|)
    decreases |t|
  {
    if t != [] { DigitsBelow(t[..|t| - 1]); }
  }

  lemma ProperFraction(b: int, p: int)
    requires 0 <= b < p
    ensures 0.0 <= b as real / p as real < 1.0
  {
    var x, y, q := b as real, p as real, b as real / p as real;
    assert q * y == x;
  }

  /** Without an exponent, `valueint` is the number before the point. */
  lemma FractionCutOff(n: Spelling)
    requires Valid(n) && n.exponent.None? && DigitsValue(n.whole) < INT_MAX
    ensures ValueInt(Worth(n)) == Signed(n.sign, DigitsValue(n.whole))
  {
    DigitsBelow(n.whole);
    DigitsBelow(n.fraction);
    hide DigitsValue, Pow10, Worth;
    ScaledIsWorth(n);
    ProperFraction(DigitsValue(n.fraction), Pow10(|n.fraction|));
    ValueIntCuts(Worth(n), Signed(n.sign, DigitsValue(n.whole)));
  }
}

/** UTF-16 escapes of JSON strings (section 7 of RFC 8259) and UTF-8 (section 3 of RFC 3629). */
module Utf {
  import opened Bytes

  const LETTER_U: byte := 0x75

  // ---- UTF-8 by the table of section 3 of RFC 3629 ----

  function Utf8(cp: nat): (s: seq<byte>)
    requires cp <= 0x10FFFF
    ensures 1 <= |s| <= 4
  {
    // Six payload bits per continuation byte: q1, q2 and q3 are what is left above them.
    var q1 := cp / 0x40;
    var q2 := q1 / 0x40;
    var q3 := q2 / 0x40;
    if cp < 0x80 then [cp]
    else if cp < 0x800 then [0xC0 + q1, 0x80 + cp % 0x40]
    else if cp < 0x10000 then [0xE0 + q2, 0x80 + q1 % 0x40, 0x80 + cp % 0x40]
    else [0xF0 + q3, 0x80 + q2 % 0x40, 0x80 + q1 % 0x40, 0x80 + cp % 0x40]
  }

  /** Reads one character back: its code point and length, chosen by the first byte alone. */
  function Utf8Head(s: seq<byte>): (r: Option<(nat, nat)>)
  {
    if |s| >= 1 && s[0] < 0x80 then Some((s[0], 1))
    else if |s| >= 2 && 0xC0 <= s[0] < 0xE0 then Some((0x40 * Low(s[0], 0x20) + Low(s[1], 0x40), 2))
    else if |s| >= 3 && 0xE0 <= s[0] < 0xF0 then
      Some((0x1000 * Low(s[0], 0x10) + 0x40 * Low(s[1], 0x40) + Low(s[2], 0x40), 3))
    else if |s| >= 4 && 0xF0 <= s[0] < 0xF8 then
      Some((0x40000 * Low(s[0], 8) + 0x1000 * Low(s[1], 0x40) + 0x40 * Low(s[2], 0x40) + Low(s[3], 0x40), 4))
    else None
  }

  function Low(b: byte, m: nat): (n: nat)
    requires m > 0
  {
    b % m
  }

  /** The encoding is a prefix code: the character is recovered whatever follows it. */
  lemma Utf8Recovered(cp: nat, more: seq<byte>)
    requires cp <= 0x10FFFF
    ensures Utf8Head(Utf8(cp) + more) == Some((cp, |Utf8(cp)|))
  {
    hide Low;
    var s := Utf8(cp);
    assert forall i :: 0 <= i < |s| ==> (s + more)[i] == s[i];
    var q1 := cp / 0x40;
    var q2 := q1 / 0x40;
    Payload(cp % 0x40);
    Payload(q1);
    Payload(q1 % 0x40);
    Payload(q2);
    Payload(q2 % 0x40);
    Payload(q2 / 0x40);
  }

  /** The mark bits of a byte do not disturb its payload bits. */
  lemma Payload(a: nat)
    ensures a < 0x40 ==> Low(0x80 + a, 0x40) == a
    ensures a < 0x20 ==> Low(0xC0 + a, 0x20) == a
    ensures a < 0x10 ==> Low(0xE0 + a, 0x10) == a
    ensures a < 8 ==> Low(0xF0 + a, 8) == a
  {
  }

  // ---- The four-digit escapes ----

  function HexValue(b: byte): (r: Option<nat>)
    ensures r.Some? ==> r.value < 16
  {
    if 48 <= b <= 57 then Some(b - 48)
    else if 65 <= b <= 70 then Some(b - 55)
    else if 97 <= b <= 102 then Some(b - 87)
    else None
  }

  /** `parse_hex4`: an invalid digit makes the whole group 0. */
  function Hex4(c: seq<byte>, p: nat): (n: nat)
    requires p + 4 <= |c|
    ensures n < 0x10000
  {
    var (a, b, d, e) := (HexValue(c[p]), HexValue(c[p + 1]), HexValue(c[p + 2]), HexValue(c[p + 3]));
    if a.Some? && b.Some? && d.Some? && e.Some?
    then 0x1000 * a.value + 0x100 * b.value + 0x10 * d.value + e.value
    else 0
  }

  /** The code point of the escape at `p` and the length of its text, within `c[..end]`. */
  function Literal(c: seq<byte>, p: nat, end: nat): (r: Option<(nat, nat)>)
    requires p < end <= |c|
    ensures r.Some? ==> r.value.0 <= 0x10FFFF && r.value.1 in {6, 12} && p + r.value.1 <= end
  {
    if end - p < 6 then None
    else
      var first := Hex4(c, p + 2);
      if 0xDC00 <= first <= 0xDFFF then None
      else if 0xD800 <= first <= 0xDBFF then
        if end - (p + 6) < 6 then None
        else if c[p + 6] != BACKSLASH || c[p + 7] != LETTER_U then None
        else
          var second := Hex4(c, p + 8);
          if second < 0xDC00 || second > 0xDFFF then None
          else Some((0x10000 + (first % 0x400 * 0x400 + second % 0x400), 12))
      else Some((first, 6))
  }

  /** The escape of a UTF-16 code unit, in lower-case hexadecimal. */
  function UnitText(u: nat): (t: seq<byte>)
    requires u < 0x10000
    ensures |t| == 6
  {
    var q1 := u / 0x10;
    var q2 := q1 / 0x10;
    var q3 := q2 / 0x10;
    [BACKSLASH, LETTER_U, Hex(q3), Hex(q2 % 0x10), Hex(q1 % 0x10), Hex(u % 0x10)]
  }

  function Hex(n: nat): (b: byte)
    requires n < 16
  {
    if n < 10 then 48 + n else 87 + n
  }

  /** The escape of a character: one code unit, or a surrogate pair above 0xFFFF. */
  function EscapeText(cp: nat): (t: seq<byte>)
    requires cp <= 0x10FFFF
  {
    if cp < 0x10000 then UnitText(cp)
    else UnitText(0xD800 + (cp - 0x10000) / 0x400) + UnitText(0xDC00 + (cp - 0x10000) % 0x400)
  }

  lemma HexOfUnit(c: seq<byte>, p: nat, u: nat)
    requires u < 0x10000 && p + 6 <= |c| && c[p..p + 6] == UnitText(u)
    ensures c[p] == BACKSLASH && c[p + 1] == LETTER_U && Hex4(c, p + 2) == u
  {
    hide HexValue, Hex;
    forall i | 0 <= i < 6 ensures c[p + i] == UnitText(u)[i] { assert c[p..p + 6][i] == c[p + i]; }
    var q1 := u / 0x10;
    var q2 := q1 / 0x10;
    HexValueOfHex(q2 / 0x10);
    HexValueOfHex(q2 % 0x10);
    HexValueOfHex(q1 % 0x10);
    HexValueOfHex(u % 0x10);
  }

  lemma HexValueOfHex(n: nat)
    requires n < 16
    ensures HexValue(Hex(n)) == Some(n)
  {
  }

  /** Every character other than a lone surrogate survives its escape, single or paired. */
  lemma LiteralDecodes(c: seq<byte>, p: nat, end: nat, cp: nat)
    requires cp <= 0x10FFFF && !(0xD800 <= cp <= 0xDFFF)
    requires p < end <= |c| && p + |EscapeText(cp)| <= end && c[p..p + |EscapeText(cp)|] == EscapeText(cp)
    ensures Literal(c, p, end) == Some((cp, |EscapeText(cp)|))
  {
    hide Hex4, UnitText;
    if cp < 0x10000 {
      HexOfUnit(c, p, cp);
    } else {
      SurrogateHalves(cp - 0x10000);
      var (hi, lo) := (0xD800 + (cp - 0x10000) / 0x400, 0xDC00 + (cp - 0x10000) % 0x400);
      assert c[p..p + 6] == c[p..p + 12][..6] == UnitText(hi);
      assert c[p + 6..p + 12] == c[p..p + 12][6..] == UnitText(lo);
      HexOfUnit(c, p, hi);
      HexOfUnit(c, p + 6, lo);
    }
  }

  lemma SurrogateHalves(x: nat)
    requires x < 0x100000
    ensures 0xD800 <= 0xD800 + x / 0x400 <= 0xDBFF && (0xD800 + x / 0x400) % 0x400 == x / 0x400
    ensures (0xDC00 + x % 0x400) % 0x400 == x % 0x400
  {
  }

  /** Exactly the surrogate code units fail on their own. */
  lemma LoneUnit(c: seq<byte>, p: nat, u: nat)
    requires u < 0x10000 && p + 6 == |c| && c[p..p + 6] == UnitText(u)
    ensures Literal(c, p, p + 6).None? <==> 0xD800 <= u <= 0xDFFF
  {
    HexOfUnit(c, p, u);
  }
}

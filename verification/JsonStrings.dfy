/** What a string in a JSON text means (gateway/src/cJSON.c, `parse_string`), however it is spelled:
    plain bytes, two-byte escapes, and escapes of characters in upper- or lower-case hexadecimal. */
module JsonStrings {
  import opened Bytes
  import opened Json
  import opened JsonParse
  import opened JsonRoundTrip
  import opened Utf

  /** One part of a string: a byte as it is, a two-byte escape by its letter, the escape of a character,
      `upper` saying which of its digits are upper-case letters, or an escape with a wrong digit, which
      the parser takes for a NUL. */
  datatype Piece =
    | Plain(b: byte)
    | Short(letter: byte)
    | Character(cp: nat, upper: seq<bool>)
    | Odd(four: seq<byte>)

  /** The two-byte escapes of section 7 of RFC 8259. */
  const SHORT: map<byte, byte> := map[
    0x22 := 0x22, 0x5C := 0x5C, 0x2F := 0x2F, 0x62 := 0x08, 0x66 := 0x0C, 0x6E := 0x0A, 0x72 := 0x0D, 0x74 := 0x09]

  predicate ValidPiece(x: Piece)
  {
    match x
    case Plain(b) => b != QUOTE && b != BACKSLASH
    case Short(letter) => letter in SHORT
    case Character(cp, upper) =>
      cp <= 0x10FFFF && !(0xD800 <= cp <= 0xDFFF) && |upper| == if cp < 0x10000 then 4 else 8
    case Odd(four) => |four| == 4 && QUOTE !in four && BACKSLASH !in four && exists b :: b in four && !IsHex(b)
  }

  predicate IsHex(b: byte) { 0x30 <= b <= 0x39 || 0x41 <= b <= 0x46 || 0x61 <= b <= 0x66 }

  function Digit(d: nat, upper: bool): (b: byte)
    requires d < 16
  {
    if d < 10 then 0x30 + d else if upper then 0x41 + (d - 10) else 0x61 + (d - 10)
  }

  /** A code unit as a four-digit escape. */
  function Unit(u: nat, upper: seq<bool>): (t: seq<byte>)
    requires u < 0x10000 && |upper| == 4
    ensures |t| == 6
  {
    [BACKSLASH, LETTER_U, Digit(u / 0x1000, upper[0]), Digit(u / 0x100 % 0x10, upper[1]),
     Digit(u / 0x10 % 0x10, upper[2]), Digit(u % 0x10, upper[3])]
  }

  function PieceText(x: Piece): (t: seq<byte>)
    requires ValidPiece(x)
    ensures t != []
  {
    match x
    case Plain(b) => [b]
    case Short(letter) => [BACKSLASH, letter]
    case Character(cp, upper) =>
      if cp < 0x10000 then Unit(cp, upper)
      else
        var y := cp - 0x10000;
        Unit(0xD800 + y / 0x400, upper[..4]) + Unit(0xDC00 + y % 0x400, upper[4..])
    case Odd(four) => [BACKSLASH, LETTER_U] + four
  }

  function PieceMeaning(x: Piece): (s: seq<byte>)
    requires ValidPiece(x)
  {
    match x
    case Plain(b) => [b]
    case Short(letter) => [SHORT[letter]]
    case Character(cp, _) => Utf8(cp)
    case Odd(_) => [0]
  }

  predicate ValidPieces(xs: seq<Piece>) { forall k :: 0 <= k < |xs| ==> ValidPiece(xs[k]) }

  function Body(xs: seq<Piece>): (t: seq<byte>)
    requires ValidPieces(xs)
    decreases |xs|
  {
    if xs == [] then [] else PieceText(xs[0]) + Body(xs[1..])
  }

  function Meaning(xs: seq<Piece>): (s: seq<byte>)
    requires ValidPieces(xs)
    decreases |xs|
  {
    if xs == [] then [] else PieceMeaning(xs[0]) + Meaning(xs[1..])
  }

  function Quoted(xs: seq<Piece>): (t: seq<byte>)
    requires ValidPieces(xs)
  {
    [QUOTE] + Body(xs) + [QUOTE]
  }

  // ---- One code unit ----

  lemma DigitRead(d: nat, upper: bool)
    requires d < 16
    ensures HexValue(Digit(d, upper)) == Some(d) && Digit(d, upper) != QUOTE && Digit(d, upper) != BACKSLASH
  {
  }

  lemma FourDigits(u: nat)
    requires u < 0x10000
    ensures u / 0x1000 < 16
    ensures 0x1000 * (u / 0x1000) + 0x100 * (u / 0x100 % 0x10) + 0x10 * (u / 0x10 % 0x10) + u % 0x10 == u
  {
    var q1 := u / 0x10;
    var q2 := q1 / 0x10;
    assert q2 == u / 0x100 && q2 / 0x10 == u / 0x1000;
  }

  lemma UnitBytes(c: seq<byte>, p: nat, u: nat, upper: seq<bool>)
    requires u < 0x10000 && |upper| == 4 && Word(c, p, Unit(u, upper))
    ensures p + 6 <= |c| && c[p] == BACKSLASH && c[p + 1] == LETTER_U
    ensures c[p + 2] == Digit(u / 0x1000, upper[0]) && c[p + 3] == Digit(u / 0x100 % 0x10, upper[1])
    ensures c[p + 4] == Digit(u / 0x10 % 0x10, upper[2]) && c[p + 5] == Digit(u % 0x10, upper[3])
  {
    hide Digit;
    var t := Unit(u, upper);
    WordAt(c, p, t, 0);
    WordAt(c, p, t, 1);
    WordAt(c, p, t, 2);
    WordAt(c, p, t, 3);
    WordAt(c, p, t, 4);
    WordAt(c, p, t, 5);
  }

  lemma UnitRead(c: seq<byte>, p: nat, u: nat, upper: seq<bool>)
    requires u < 0x10000 && |upper| == 4 && Word(c, p, Unit(u, upper))
    ensures p + 6 <= |c| && c[p] == BACKSLASH && c[p + 1] == LETTER_U && Hex4(c, p + 2) == u
    ensures ClosingQuote(c, p) == ClosingQuote(c, p + 6)
  {
    hide Digit, HexValue, Word, Unit;
    UnitBytes(c, p, u, upper);
    FourDigits(u);
    DigitRead(u / 0x1000, upper[0]);
    DigitRead(u / 0x100 % 0x10, upper[1]);
    DigitRead(u / 0x10 % 0x10, upper[2]);
    DigitRead(u % 0x10, upper[3]);
    assert ClosingQuote(c, p + 2) == ClosingQuote(c, p + 3) == ClosingQuote(c, p + 4);
    assert ClosingQuote(c, p + 4) == ClosingQuote(c, p + 5) == ClosingQuote(c, p + 6);
  }

  lemma PairSplit(c: seq<byte>, p: nat, x: Piece)
    requires x.Character? && ValidPiece(x) && x.cp >= 0x10000 && Word(c, p, PieceText(x))
    ensures var y := x.cp - 0x10000;
            && Word(c, p, Unit(0xD800 + y / 0x400, x.upper[..4]))
            && Word(c, p + 6, Unit(0xDC00 + y % 0x400, x.upper[4..]))
  {
    var y := x.cp - 0x10000;
    WordSplit(c, p, Unit(0xD800 + y / 0x400, x.upper[..4]), Unit(0xDC00 + y % 0x400, x.upper[4..]));
  }

  lemma PairRead(c: seq<byte>, p: nat, end: nat, y: nat, upper: seq<bool>)
    requires y < 0x100000 && |upper| == 8 && p + 12 <= end <= |c|
    requires Word(c, p, Unit(0xD800 + y / 0x400, upper[..4])) && Word(c, p + 6, Unit(0xDC00 + y % 0x400, upper[4..]))
    ensures c[p] == BACKSLASH && c[p + 1] == LETTER_U && Literal(c, p, end) == Some((0x10000 + y, 12))
    ensures ClosingQuote(c, p) == ClosingQuote(c, p + 12)
  {
    hide Hex4, Unit, ClosingQuote, Word;
    SurrogateHalves(y);
    UnitRead(c, p, 0xD800 + y / 0x400, upper[..4]);
    UnitRead(c, p + 6, 0xDC00 + y % 0x400, upper[4..]);
  }

  lemma CharacterRead(c: seq<byte>, p: nat, end: nat, x: Piece)
    requires x.Character? && ValidPiece(x) && Word(c, p, PieceText(x)) && p + |PieceText(x)| <= end <= |c|
    ensures c[p] == BACKSLASH && c[p + 1] == LETTER_U && Literal(c, p, end) == Some((x.cp, |PieceText(x)|))
    ensures ClosingQuote(c, p) == ClosingQuote(c, p + |PieceText(x)|)
  {
    hide Hex4, Unit, ClosingQuote, Word;
    if x.cp < 0x10000 {
      UnitRead(c, p, x.cp, x.upper);
    } else {
      hide Literal;
      PairSplit(c, p, x);
      PairRead(c, p, end, x.cp - 0x10000, x.upper);
    }
  }

  // ---- One piece ----

  lemma ShortRead(letter: byte)
    requires letter in SHORT
    ensures letter != LETTER_U && ShortEscape(letter) == Some(SHORT[letter])
  {
  }

  lemma PieceRead(c: seq<byte>, p: nat, end: nat, x: Piece)
    requires ValidPiece(x) && Word(c, p, PieceText(x)) && p + |PieceText(x)| <= end < |c|
    ensures ClosingQuote(c, p) == ClosingQuote(c, p + |PieceText(x)|)
    ensures Unescape(c, p, end) == Prepend(PieceMeaning(x), Unescape(c, p + |PieceText(x)|, end))
  {
    hide Literal, ShortEscape, Utf8, Unit;
    var t := PieceText(x);
    WordAt(c, p, t, 0);
    match x
    case Plain(b) =>
    case Short(letter) =>
      WordAt(c, p, t, 1);
      ShortRead(letter);
    case Character(cp, upper) => CharacterRead(c, p, end, x);
    case Odd(four) => OddRead(c, p, end, four);
  }

  lemma OddRead(c: seq<byte>, p: nat, end: nat, four: seq<byte>)
    requires ValidPiece(Odd(four)) && Word(c, p, [BACKSLASH, LETTER_U] + four) && p + 6 <= end < |c|
    ensures c[p] == BACKSLASH && c[p + 1] == LETTER_U && Literal(c, p, end) == Some((0, 6)) && Utf8(0) == [0]
    ensures ClosingQuote(c, p) == ClosingQuote(c, p + 6)
  {
    var t := [BACKSLASH, LETTER_U] + four;
    hide Word;
    WordAt(c, p, t, 0);
    WordAt(c, p, t, 1);
    WordAt(c, p, t, 2);
    WordAt(c, p, t, 3);
    WordAt(c, p, t, 4);
    WordAt(c, p, t, 5);
    assert t[2] == four[0] && t[3] == four[1] && t[4] == four[2] && t[5] == four[3];
    var b :| b in four && !IsHex(b);
    assert Hex4(c, p + 2) == 0;
    assert ClosingQuote(c, p + 2) == ClosingQuote(c, p + 3) == ClosingQuote(c, p + 4);
    assert ClosingQuote(c, p + 4) == ClosingQuote(c, p + 5) == ClosingQuote(c, p + 6);
  }

  // ---- Strings ----

  lemma {:induction false} BodyRead(c: seq<byte>, p: nat, xs: seq<Piece>)
    requires ValidPieces(xs) && Word(c, p, Body(xs)) && At(c, p + |Body(xs)|, QUOTE)
    ensures ClosingQuote(c, p) == Some(p + |Body(xs)|)
    ensures Unescape(c, p, p + |Body(xs)|) == Some(Meaning(xs))
    decreases |xs|
  {
    hide Word, PieceText, PieceMeaning, ValidPiece;
    var end := p + |Body(xs)|;
    if xs == [] {
      UnescapeEmpty(c, p);
    } else {
      var head, rest := PieceText(xs[0]), xs[1..];
      WordSplit(c, p, head, Body(rest));
      BodyRead(c, p + |head|, rest);
      PieceRead(c, p, end, xs[0]);
    }
  }

  /** Any spelling of a string is read as its meaning, up to the first NUL. */
  lemma StringMeans(c: seq<byte>, i: nat, xs: seq<Piece>)
    requires ValidPieces(xs) && Word(c, i, Quoted(xs))
    ensures ParseString(c, i) == DoneText(CString(Meaning(xs)), i + |Quoted(xs)|)
  {
    hide Word, Body, Meaning, ClosingQuote, Unescape;
    var body := Body(xs);
    assert Quoted(xs) == [QUOTE] + (body + [QUOTE]);
    WordSplit(c, i, [QUOTE], body + [QUOTE]);
    WordAt(c, i, [QUOTE], 0);
    WordSplit(c, i + 1, body, [QUOTE]);
    WordAt(c, i + 1 + |body|, [QUOTE], 0);
    BodyRead(c, i + 1, xs);
  }

  lemma {:induction false} MeaningSplit(xs: seq<Piece>, ys: seq<Piece>)
    requires ValidPieces(xs) && ValidPieces(ys)
    ensures ValidPieces(xs + ys) && Meaning(xs + ys) == Meaning(xs) + Meaning(ys)
    decreases |xs|
  {
    hide PieceMeaning, ValidPiece;
    if xs == [] {
      assert xs + ys == ys;
    } else {
      assert (xs + ys)[1..] == xs[1..] + ys;
      MeaningSplit(xs[1..], ys);
    }
  }

  lemma {:induction false} CutAtNul(s: seq<byte>, t: seq<byte>)
    ensures CString(s + [0] + t) == CString(s)
    decreases |s|
  {
    if s == [] {
      assert (s + [0] + t)[0] == 0;
    } else if s[0] != 0 {
      assert (s + [0] + t)[1..] == s[1..] + [0] + t;
      CutAtNul(s[1..], t);
    }
  }

  /** An escape with a wrong digit is not refused: the string ends before it. */
  lemma WrongDigitCuts(c: seq<byte>, i: nat, xs: seq<Piece>, four: seq<byte>, ys: seq<Piece>)
    requires ValidPieces(xs) && ValidPiece(Odd(four)) && ValidPieces(ys)
    requires ValidPieces(xs + ([Odd(four)] + ys)) && Word(c, i, Quoted(xs + ([Odd(four)] + ys)))
    ensures ParseString(c, i) == DoneText(CString(Meaning(xs)), i + |Quoted(xs + ([Odd(four)] + ys))|)
  {
    hide Word, Quoted, ParseString, ValidPiece;
    var odd := [Odd(four)] + ys;
    StringMeans(c, i, xs + odd);
    assert odd[1..] == ys && Meaning(odd) == [0] + Meaning(ys);
    MeaningSplit(xs, odd);
    assert Meaning(xs) + ([0] + Meaning(ys)) == Meaning(xs) + [0] + Meaning(ys);
    CutAtNul(Meaning(xs), Meaning(ys));
  }
}

/** The parser of gateway/src/cJSON.c reads every document of the JSON grammar as it is meant, however
    it is spelled: any blanks, any spelling of its strings and numbers, any bytes after it. */
module JsonDocuments {
  import opened Bytes
  import opened Json
  import opened JsonParse
  import N = JsonNumbers
  import opened JsonRoundTrip
  import S = JsonStrings

  /** A document as it is spelled. `gap` is what an empty array or object holds. */
  datatype Doc =
    | NullDoc
    | FalseDoc
    | TrueDoc
    | NumberDoc(number: N.Spelling)
    | StringDoc(pieces: seq<S.Piece>)
    | ArrayDoc(items: seq<Item>, gap: seq<byte>)
    | ObjectDoc(entries: seq<Entry>, gap: seq<byte>)

  /** An element, with the blanks around it. */
  datatype Item = Item(before: seq<byte>, value: Doc, after: seq<byte>)

  /** A member, with the blanks around its name and its value. */
  datatype Entry = Entry(
    before: seq<byte>, name: seq<S.Piece>, colonBefore: seq<byte>, colonAfter: seq<byte>, value: Doc, after: seq<byte>)

  predicate Blanks(t: seq<byte>) { forall k :: 0 <= k < |t| ==> t[k] <= 32 }

  // ---- Which spellings are documents ----

  predicate ValidDoc(d: Doc)
    decreases d, 1
  {
    match d
    case NumberDoc(n) => N.Valid(n) && (N.Spelled(n)[0] == MINUS || 48 <= N.Spelled(n)[0] <= 57)
    case StringDoc(xs) => S.ValidPieces(xs)
    case ArrayDoc(items, gap) => Blanks(gap) && ValidItems(items)
    case ObjectDoc(entries, gap) => Blanks(gap) && ValidEntries(entries)
    case _ => true
  }

  predicate ValidItems(items: seq<Item>)
    decreases items, 0
  {
    items == [] ||
    (Blanks(items[0].before) && ValidDoc(items[0].value) && Blanks(items[0].after) && ValidItems(items[1..]))
  }

  predicate ValidEntry(e: Entry)
    decreases e, 2
  {
    && Blanks(e.before) && S.ValidPieces(e.name) && Blanks(e.colonBefore) && Blanks(e.colonAfter)
    && ValidDoc(e.value) && Blanks(e.after)
  }

  predicate ValidEntries(entries: seq<Entry>)
    decreases entries, 0
  {
    entries == [] || (ValidEntry(entries[0]) && ValidEntries(entries[1..]))
  }

  // ---- Their text ----

  function DocText(d: Doc): (t: seq<byte>)
    requires ValidDoc(d)
    decreases d, 1
  {
    match d
    case NullDoc => NULL_TEXT
    case FalseDoc => FALSE_TEXT
    case TrueDoc => TRUE_TEXT
    case NumberDoc(n) => N.Spelled(n)
    case StringDoc(xs) => S.Quoted(xs)
    case ArrayDoc(items, gap) => [LBRACKET] + (if items == [] then gap + [RBRACKET] else ElementsText(items))
    case ObjectDoc(entries, gap) => [LBRACE] + (if entries == [] then gap + [RBRACE] else EntriesText(entries))
  }

  /** Elements up to the closing bracket. */
  function ElementsText(items: seq<Item>): (t: seq<byte>)
    requires items != [] && ValidItems(items)
    decreases items, 0
  {
    items[0].before + (DocText(items[0].value) + (items[0].after +
    (if |items| == 1 then [RBRACKET] else [COMMA] + ElementsText(items[1..]))))
  }

  /** A member up to its value. */
  function KeyText(e: Entry): (t: seq<byte>)
    requires ValidEntry(e)
  {
    e.before + (S.Quoted(e.name) + (e.colonBefore + ([COLON] + e.colonAfter)))
  }

  function EntriesText(entries: seq<Entry>): (t: seq<byte>)
    requires entries != [] && ValidEntries(entries)
    decreases entries, 0
  {
    KeyText(entries[0]) + (DocText(entries[0].value) + (entries[0].after +
    (if |entries| == 1 then [RBRACE] else [COMMA] + EntriesText(entries[1..]))))
  }

  // ---- Their meaning ----

  function Meaning(d: Doc): (v: Json)
    requires ValidDoc(d)
    decreases d, 1
  {
    match d
    case NullDoc => Null
    case FalseDoc => False
    case TrueDoc => True
    case NumberDoc(n) => Number(N.Worth(n))
    case StringDoc(xs) => String(CString(S.Meaning(xs)))
    case ArrayDoc(items, _) => Array(ItemsMeaning(items))
    case ObjectDoc(entries, _) => Object(EntriesMeaning(entries))
  }

  function ItemsMeaning(items: seq<Item>): (vs: seq<Json>)
    requires ValidItems(items)
    decreases items, 0
  {
    if items == [] then [] else [Meaning(items[0].value)] + ItemsMeaning(items[1..])
  }

  function EntryMeaning(e: Entry): (m: Member)
    requires ValidEntry(e)
    decreases e, 2
  {
    Member(CString(S.Meaning(e.name)), Meaning(e.value))
  }

  function EntriesMeaning(entries: seq<Entry>): (ms: seq<Member>)
    requires ValidEntries(entries)
    decreases entries, 0
  {
    if entries == [] then [] else [EntryMeaning(entries[0])] + EntriesMeaning(entries[1..])
  }

  // ---- Blanks ----

  /** Blanks, and a byte above 32 after them. */
  lemma BlanksSkipped(c: seq<byte>, i: nat, gap: seq<byte>)
    requires Blanks(gap) && Word(c, i, gap) && i + |gap| < |c| && c[i + |gap|] > 32
    ensures Skip(c, i) == i + |gap|
  {
    forall k | i <= k < i + |gap| ensures c[k] <= 32 { WordAt(c, i, gap, k - i); }
    SkipRun(c, i, i + |gap|);
  }

  /** Nothing in front of a word's end prolongs a number: a blank or a mark follows. */
  lemma BlanksDelimit(c: seq<byte>, i: nat, gap: seq<byte>)
    requires Blanks(gap) && Word(c, i, gap) && i + |gap| < |c| && c[i + |gap|] in {COMMA, RBRACKET, RBRACE}
    ensures Delimited(c, i)
  {
    if gap != [] { WordAt(c, i, gap, 0); }
  }

  lemma WordSplitTwice(c: seq<byte>, i: nat, a: seq<byte>, t: seq<byte>, rest: seq<byte>)
    requires Word(c, i, a + (t + rest))
    ensures Word(c, i, a) && Word(c, i + |a|, t) && Word(c, i + |a| + |t|, rest)
  {
    hide Word;
    WordSplit(c, i, a, t + rest);
    WordSplit(c, i + |a|, t, rest);
  }

  /** What follows a value: blanks, and a mark. */
  lemma AfterValue(c: seq<byte>, e: nat, after: seq<byte>, rest: seq<byte>)
    requires Blanks(after) && Word(c, e, after + rest) && rest != [] && rest[0] in {COMMA, RBRACKET, RBRACE}
    ensures var k := e + |after|;
            k < |c| && c[k] == rest[0] && Skip(c, e) == k && Delimited(c, e) && Word(c, k, rest)
  {
    hide Word, Skip, Blanks, Delimited;
    WordSplit(c, e, after, rest);
    WordAt(c, e + |after|, rest, 0);
    BlanksSkipped(c, e, after);
    BlanksDelimit(c, e, after);
  }

  // ---- First bytes ----

  lemma StartOf(d: Doc)
    requires ValidDoc(d)
    ensures DocText(d) != []
    ensures var b := DocText(d)[0];
            && 32 < b < 0x80 && b !in {RBRACKET, RBRACE, COMMA}
            && (d.NumberDoc? ==> b == MINUS || 48 <= b <= 57) && (d.StringDoc? ==> b == QUOTE)
            && (d.ArrayDoc? ==> b == LBRACKET) && (d.ObjectDoc? ==> b == LBRACE)
  {
    hide ElementsText, EntriesText, S.Body, N.Valid, N.Mantissa;
    if d.NumberDoc? { NumberNotEmpty(d.number); }
  }

  lemma NumberNotEmpty(n: N.Spelling)
    requires N.Valid(n)
    ensures N.Spelled(n) != []
  {
  }

  // ---- Values ----

  /** A document at any place and depth is read as it is meant, to its end. */
  lemma {:induction false} DocParsed(c: seq<byte>, i: nat, d: Doc, depth: nat)
    requires ValidDoc(d) && depth + Nesting(Meaning(d)) <= NESTING_LIMIT
    requires Word(c, i, DocText(d)) && Delimited(c, i + |DocText(d)|)
    ensures ParseValue(c, i, depth) == Done(Meaning(d), i + |DocText(d)|)
    decreases d, 3
  {
    hide Word, ParseArray, ParseObject, ParseNumber, ParseString, ElementsText, EntriesText, N.Spelled, N.Valid;
    hide S.Quoted, N.Worth, S.Meaning, S.ValidPieces, CString;
    StartOf(d);
    WordAt(c, i, DocText(d), 0);
    if d.FalseDoc? || d.TrueDoc? { NotAWord(c, i, NULL_TEXT); }
    if d.TrueDoc? { NotAWord(c, i, FALSE_TEXT); }
    if !d.NullDoc? && !d.FalseDoc? && !d.TrueDoc? {
      NotAWord(c, i, NULL_TEXT);
      NotAWord(c, i, FALSE_TEXT);
      NotAWord(c, i, TRUE_TEXT);
      match d
      case NumberDoc(n) => NumberPlaced(c, i, n);
      case StringDoc(xs) => S.StringMeans(c, i, xs);
      case ArrayDoc(items, gap) => ArrayParsed(c, i, items, gap, depth);
      case ObjectDoc(entries, gap) => ObjectParsed(c, i, entries, gap, depth);
    }
  }

  lemma NumberPlaced(c: seq<byte>, i: nat, n: N.Spelling)
    requires N.Valid(n) && Word(c, i, N.Spelled(n)) && Delimited(c, i + |N.Spelled(n)|)
    ensures i < |c| && ParseNumber(c, i) == Done(Number(N.Worth(n)), i + |N.Spelled(n)|)
  {
    hide N.Valid, N.Spelled, N.Worth, ParseNumber;
    N.NumberParsed(c, i, n);
  }

  /** A value among blanks, and what follows it. */
  lemma ValuePlaced(c: seq<byte>, j: nat, before: seq<byte>, t: seq<byte>, after: seq<byte>, rest: seq<byte>)
    requires Blanks(before) && t != [] && t[0] > 32 && Blanks(after) && Word(c, j, before + (t + (after + rest)))
    requires rest != [] && rest[0] in {COMMA, RBRACKET, RBRACE}
    ensures var q, e, k := j + |before|, j + |before| + |t|, j + |before| + |t| + |after|;
            && q < |c| && c[q] == t[0] && Skip(c, j) == q == Skip(c, q) && Word(c, q, t)
            && k < |c| && c[k] == rest[0] && Skip(c, e) == k && Delimited(c, e) && Word(c, k, rest)
  {
    hide Word, Skip, Blanks, Delimited;
    WordSplitTwice(c, j, before, t, after + rest);
    WordAt(c, j + |before|, t, 0);
    BlanksSkipped(c, j, before);
    SkipHere(c, j + |before|);
    AfterValue(c, j + |before| + |t|, after, rest);
  }

  lemma SkipHere(c: seq<byte>, q: nat)
    requires q < |c| && c[q] > 32
    ensures Skip(c, q) == q
  {
    SkipRun(c, q, q);
  }

  // ---- Arrays ----

  /** What follows an element. */
  function ItemsRest(items: seq<Item>): (t: seq<byte>)
    requires items != [] && ValidItems(items)
    ensures t != [] && t[0] == if |items| == 1 then RBRACKET else COMMA
  {
    if |items| == 1 then [RBRACKET] else [COMMA] + ElementsText(items[1..])
  }

  lemma FirstItem(items: seq<Item>)
    requires items != [] && ValidItems(items)
    ensures Blanks(items[0].before) && ValidDoc(items[0].value) && Blanks(items[0].after) && ValidItems(items[1..])
    ensures ElementsText(items) == items[0].before + (DocText(items[0].value) + (items[0].after + ItemsRest(items)))
    ensures ItemsMeaning(items) == [Meaning(items[0].value)] + ItemsMeaning(items[1..])
  {
    hide DocText, Blanks, Meaning;
  }

  lemma {:induction false} ArrayParsed(c: seq<byte>, i: nat, items: seq<Item>, gap: seq<byte>, depth: nat)
    requires Blanks(gap) && ValidItems(items) && depth + 1 + NestingItems(ItemsMeaning(items)) <= NESTING_LIMIT
    requires Word(c, i, DocText(ArrayDoc(items, gap)))
    ensures At(c, i, LBRACKET)
    ensures ParseArray(c, i, depth) == Done(Array(ItemsMeaning(items)), i + |DocText(ArrayDoc(items, gap))|)
    decreases items, 2
  {
    hide Word, Skip, Blank, ParseValue, ParseItems, ElementsText, Blanks, ItemsRest, Delimited, Meaning, Nesting;
    var rest := if items == [] then gap + [RBRACKET] else ElementsText(items);
    assert DocText(ArrayDoc(items, gap)) == [LBRACKET] + rest;
    WordSplit(c, i, [LBRACKET], rest);
    WordAt(c, i, [LBRACKET], 0);
    if items == [] {
      WordSplit(c, i + 1, gap, [RBRACKET]);
      WordAt(c, i + 1 + |gap|, [RBRACKET], 0);
      BlanksSkipped(c, i + 1, gap);
    } else {
      ArrayStarts(c, i, items);
      ItemsParsed(c, i, items, depth + 1);
      SameItems(c, Skip(c, i + 1) - 1, i, depth + 1);
    }
  }

  lemma ArrayStarts(c: seq<byte>, i: nat, items: seq<Item>)
    requires items != [] && ValidItems(items) && Word(c, i + 1, ElementsText(items))
    ensures var k := Skip(c, i + 1); i < k < |c| && c[k] != RBRACKET && Skip(c, k) == k
  {
    hide Word, Skip, ElementsText, DocText, Blanks, ItemsRest, Delimited, Meaning, ValidDoc, ValidItems;
    FirstItem(items);
    var x := items[0];
    StartOf(x.value);
    ValuePlaced(c, i + 1, x.before, DocText(x.value), x.after, ItemsRest(items));
  }

  lemma SameItems(c: seq<byte>, o: nat, o': nat, depth: nat)
    requires o < |c| && o' < |c| && Skip(c, o + 1) == Skip(c, o' + 1)
    ensures ParseItems(c, o, depth) == ParseItems(c, o', depth)
  {
    hide Skip, ParseValue;
  }

  /** The elements and the closing bracket, from the byte after offset `o` on. */
  lemma {:induction false} ItemsParsed(c: seq<byte>, o: nat, items: seq<Item>, depth: nat)
    requires items != [] && ValidItems(items) && depth + NestingItems(ItemsMeaning(items)) <= NESTING_LIMIT
    requires Word(c, o + 1, ElementsText(items))
    ensures o < |c| && ParseItems(c, o, depth) == DoneItems(ItemsMeaning(items), o + 1 + |ElementsText(items)|)
    decreases items, 1
  {
    hide Word, Skip, Blank, ParseValue, ParseItems, DocText, ElementsText, Nesting, Delimited, Blanks, ValidItems;
    hide ItemsMeaning, Meaning, ValidDoc, ItemsRest;
    FirstItem(items);
    var x, t := items[0], DocText(items[0].value);
    var e := o + 1 + |x.before| + |t|;
    var k := e + |x.after|;
    StartOf(x.value);
    ValuePlaced(c, o + 1, x.before, t, x.after, ItemsRest(items));
    MoreItems(items, depth);
    DocParsed(c, o + 1 + |x.before|, x.value, depth);
    ItemsStep(c, o, depth, Meaning(x.value), e);
    if |items| == 1 {
      NoItems(items);
    } else {
      WordSplit(c, k, [COMMA], ElementsText(items[1..]));
      ItemsParsed(c, k, items[1..], depth);
    }
  }

  lemma MoreItems(items: seq<Item>, depth: nat)
    requires items != [] && ValidItems(items) && depth + NestingItems(ItemsMeaning(items)) <= NESTING_LIMIT
    ensures ValidDoc(items[0].value) && ValidItems(items[1..])
    ensures depth + Nesting(Meaning(items[0].value)) <= NESTING_LIMIT
    ensures depth + NestingItems(ItemsMeaning(items[1..])) <= NESTING_LIMIT
    ensures |items| > 1 ==> ItemsRest(items) == [COMMA] + ElementsText(items[1..])
    ensures |items| == 1 ==> ItemsRest(items) == [RBRACKET]
  {
    hide ValidDoc, Meaning, Nesting, ElementsText, Blanks;
    assert ItemsMeaning(items)[1..] == ItemsMeaning(items[1..]);
  }

  lemma NoItems(items: seq<Item>)
    requires |items| == 1 && ValidItems(items)
    ensures ItemsMeaning(items[1..]) == []
  {
  }

  // ---- Objects ----

  /** What follows a member. */
  function EntriesRest(entries: seq<Entry>): (t: seq<byte>)
    requires entries != [] && ValidEntries(entries)
    ensures t != [] && t[0] == if |entries| == 1 then RBRACE else COMMA
  {
    if |entries| == 1 then [RBRACE] else [COMMA] + EntriesText(entries[1..])
  }

  lemma FirstEntry(entries: seq<Entry>)
    requires entries != [] && ValidEntries(entries)
    ensures var x := entries[0];
            && ValidEntry(x) && ValidDoc(x.value) && Blanks(x.after) && ValidEntries(entries[1..])
            && EntriesText(entries) == KeyText(x) + (DocText(x.value) + (x.after + EntriesRest(entries)))
            && EntriesMeaning(entries) == [EntryMeaning(x)] + EntriesMeaning(entries[1..])
  {
    hide DocText, Blanks, Meaning, KeyText;
  }

  /** The key and value of the first of some members, and what follows it. */
  lemma EntryPlaced(c: seq<byte>, j: nat, key: seq<byte>, t: seq<byte>, after: seq<byte>, rest: seq<byte>)
    requires t != [] && t[0] > 32 && Blanks(after) && Word(c, j, key + (t + (after + rest)))
    requires rest != [] && rest[0] in {COMMA, RBRACKET, RBRACE}
    ensures var v, e, k := j + |key|, j + |key| + |t|, j + |key| + |t| + |after|;
            && Word(c, j, key) && v < |c| && c[v] > 32 && Word(c, v, t)
            && k < |c| && c[k] == rest[0] && Skip(c, e) == k && Delimited(c, e) && Word(c, k, rest)
  {
    hide Word, Skip, Blanks, Delimited;
    WordSplitTwice(c, j, key, t, after + rest);
    WordAt(c, j + |key|, t, 0);
    AfterValue(c, j + |key| + |t|, after, rest);
  }

  /** A name and a colon lead the parser to the value. */
  lemma KeyRead(c: seq<byte>, o: nat, x: Entry)
    requires ValidEntry(x) && Word(c, o + 1, KeyText(x))
    requires o + 1 + |KeyText(x)| < |c| && c[o + 1 + |KeyText(x)|] > 32
    ensures var q := o + 1 + |x.before|;
            var r := ParseString(c, q);
            && q < |c| && Skip(c, o + 1) == q == Skip(c, q) && c[q] == QUOTE
            && r.DoneText? && r.text == CString(S.Meaning(x.name)) && At(c, Skip(c, r.next), COLON)
            && Skip(c, Skip(c, r.next) + 1) == o + 1 + |KeyText(x)|
  {
    hide Word, Skip, Blanks, S.Quoted, S.ValidPieces, S.Meaning, CString, ParseString, ValidDoc;
    var q := o + 1 + |x.before|;
    var n := q + |S.Quoted(x.name)|;
    var k := n + |x.colonBefore|;
    WordSplitTwice(c, o + 1, x.before, S.Quoted(x.name), x.colonBefore + ([COLON] + x.colonAfter));
    WordSplitTwice(c, n, x.colonBefore, [COLON], x.colonAfter);
    QuotedStart(x.name);
    WordAt(c, q, S.Quoted(x.name), 0);
    WordAt(c, k, [COLON], 0);
    BlanksSkipped(c, o + 1, x.before);
    SkipHere(c, q);
    S.StringMeans(c, q, x.name);
    BlanksSkipped(c, n, x.colonBefore);
    BlanksSkipped(c, k + 1, x.colonAfter);
  }

  lemma QuotedStart(xs: seq<S.Piece>)
    requires S.ValidPieces(xs)
    ensures S.Quoted(xs) != [] && S.Quoted(xs)[0] == QUOTE
  {
  }

  lemma {:induction false} ObjectParsed(c: seq<byte>, i: nat, entries: seq<Entry>, gap: seq<byte>, depth: nat)
    requires Blanks(gap) && ValidEntries(entries)
    requires depth + 1 + NestingMembers(EntriesMeaning(entries)) <= NESTING_LIMIT
    requires Word(c, i, DocText(ObjectDoc(entries, gap)))
    ensures At(c, i, LBRACE)
    ensures ParseObject(c, i, depth) == Done(Object(EntriesMeaning(entries)), i + |DocText(ObjectDoc(entries, gap))|)
    decreases entries, 2
  {
    hide Word, Skip, Blank, ParseValue, ParseMembers, ParseString, EntriesText, EntriesRest, KeyText, Blanks, Delimited;
    hide S.Meaning, S.ValidPieces, CString, ValidEntry;
    var rest := if entries == [] then gap + [RBRACE] else EntriesText(entries);
    assert DocText(ObjectDoc(entries, gap)) == [LBRACE] + rest;
    WordSplit(c, i, [LBRACE], rest);
    WordAt(c, i, [LBRACE], 0);
    if entries == [] {
      WordSplit(c, i + 1, gap, [RBRACE]);
      WordAt(c, i + 1 + |gap|, [RBRACE], 0);
      BlanksSkipped(c, i + 1, gap);
    } else {
      ObjectStarts(c, i, entries);
      EntriesParsed(c, i, entries, depth + 1);
      SameStart(c, Skip(c, i + 1) - 1, i, depth + 1);
    }
  }

  lemma ObjectStarts(c: seq<byte>, i: nat, entries: seq<Entry>)
    requires entries != [] && ValidEntries(entries) && Word(c, i + 1, EntriesText(entries))
    ensures var k := Skip(c, i + 1); i < k < |c| && i + 1 < |c| && c[k] != RBRACE && Skip(c, k) == k
  {
    hide Word, Skip, EntriesText, DocText, Blanks, EntriesRest, KeyText, Delimited, Meaning, ValidDoc, ValidEntries;
    hide ParseString, S.Meaning, CString, ValidEntry;
    FirstEntry(entries);
    var x := entries[0];
    StartOf(x.value);
    EntryPlaced(c, i + 1, KeyText(x), DocText(x.value), x.after, EntriesRest(entries));
    KeyRead(c, i, x);
  }

  lemma {:induction false} EntriesParsed(c: seq<byte>, o: nat, entries: seq<Entry>, depth: nat)
    requires entries != [] && ValidEntries(entries) && depth + NestingMembers(EntriesMeaning(entries)) <= NESTING_LIMIT
    requires Word(c, o + 1, EntriesText(entries))
    ensures ParseMembers(c, o, depth) == DoneMembers(EntriesMeaning(entries), o + 1 + |EntriesText(entries)|)
    decreases entries, 1
  {
    hide Word, Skip, Blank, ParseValue, ParseString, ParseMembers, DocText, EntriesText, KeyText, Nesting, Delimited;
    hide Blanks, S.Meaning, CString, ValidEntries, ValidEntry, EntriesMeaning, Meaning, ValidDoc, EntriesRest;
    FirstEntry(entries);
    MoreEntries(entries, depth);
    var x, t, v := entries[0], DocText(entries[0].value), o + 1 + |KeyText(entries[0])|;
    var k := v + |t| + |x.after|;
    StartOf(x.value);
    EntryPlaced(c, o + 1, KeyText(x), t, x.after, EntriesRest(entries));
    KeyRead(c, o, x);
    DocParsed(c, v, x.value, depth);
    MembersStep(c, o, depth, EntryMeaning(x), v + |t|);
    if |entries| == 1 {
      NoEntries(entries);
    } else {
      WordSplit(c, k, [COMMA], EntriesText(entries[1..]));
      EntriesParsed(c, k, entries[1..], depth);
    }
  }

  lemma MoreEntries(entries: seq<Entry>, depth: nat)
    requires entries != [] && ValidEntries(entries) && depth + NestingMembers(EntriesMeaning(entries)) <= NESTING_LIMIT
    ensures ValidEntry(entries[0]) && ValidDoc(entries[0].value) && ValidEntries(entries[1..])
    ensures depth + Nesting(Meaning(entries[0].value)) <= NESTING_LIMIT
    ensures depth + NestingMembers(EntriesMeaning(entries[1..])) <= NESTING_LIMIT
    ensures |entries| > 1 ==> EntriesRest(entries) == [COMMA] + EntriesText(entries[1..])
    ensures |entries| == 1 ==> EntriesRest(entries) == [RBRACE]
  {
    hide ValidDoc, Meaning, Nesting, EntriesText, Blanks, S.ValidPieces, S.Meaning, CString;
    assert EntriesMeaning(entries)[1..] == EntriesMeaning(entries[1..]);
  }

  lemma NoEntries(entries: seq<Entry>)
    requires |entries| == 1 && ValidEntries(entries)
    ensures EntriesMeaning(entries[1..]) == []
  {
  }

  // ---- Whole texts ----

  const BOM: seq<byte> := [0xEF, 0xBB, 0xBF]

  /** A byte order mark or not, blanks, a document of at most a thousand levels, and anything after it
      that does not prolong a number: the parser returns what the document means. */
  lemma EveryDocumentParsed(bom: bool, gap: seq<byte>, d: Doc, more: seq<byte>)
    requires Blanks(gap) && ValidDoc(d) && Nesting(Meaning(d)) <= NESTING_LIMIT
    requires more != [] ==> !NumberByte(more[0])
    requires bom ==> |gap + DocText(d) + more| > 1
    ensures Parse((if bom then BOM else []) + (gap + (DocText(d) + more))) == Some(Meaning(d))
  {
    hide DocText, ParseValue, Skip, Nesting, Meaning, ValidDoc, Blanks;
    var mark, t := if bom then BOM else [], DocText(d);
    var c, i, q := mark + (gap + (t + more)), |mark|, |mark| + |gap|;
    StartOf(d);
    Marked(mark, gap, t, more);
    FirstOf(bom, gap, t, more);
    BlanksSkipped(c, i, gap);
    DocParsed(c, q, d, 0);
  }

  lemma Marked(mark: seq<byte>, gap: seq<byte>, t: seq<byte>, more: seq<byte>)
    requires t != []
    ensures var c, i, q := mark + (gap + (t + more)), |mark|, |mark| + |gap|;
            && Word(c, i, gap) && q + |t| <= |c| && Word(c, q, t) && c[q] == t[0]
            && (q + |t| < |c| ==> more != [] && c[q + |t|] == more[0])
  {
    var c := mark + (gap + (t + more));
    assert c == (mark + gap) + (t + more);
    assert c[|mark|..|mark| + |gap|] == gap && c[|mark| + |gap|..|mark| + |gap| + |t|] == t;
  }

  /** Only a text with a byte order mark starts like one. */
  lemma FirstOf(bom: bool, gap: seq<byte>, t: seq<byte>, more: seq<byte>)
    requires t != [] && t[0] < 0x80 && Blanks(gap) && (bom ==> |gap + t + more| > 1)
    ensures var c := (if bom then BOM else []) + (gap + (t + more)); AfterBom(c) == if bom then 3 else 0
  {
    var c := (if bom then BOM else []) + (gap + (t + more));
    if bom {
      assert c[..3] == BOM;
    } else {
      assert c[0] == if gap != [] then gap[0] else t[0];
      assert |c| > 3 ==> c[..3][0] == c[0];
    }
  }
}

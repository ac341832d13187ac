/**
  JSON texts with any blanks between their tokens and any spelling of the characters of their
  strings, and the proof that the parser of MCJSONParser.cpp reads each of them to the object it
  stands for and stops exactly at its end.
 */
module JsonTexts {
  import opened Basics
  import opened JsonSyntax
  import opened JsonNumbers
  import opened JsonStrings
  import opened JsonGrammar

  // ----- the characters of a string

  /** A character can stand for itself, follow a backslash as a letter, or as four hexadecimal digits after `u`. */
  datatype Way = Raw | Short | Unicode(d3: UChar, d2: UChar, d1: UChar, d0: UChar)

  datatype Shown = Shown(ch: UChar, way: Way)

  predicate IsSpelled(s: Shown) {
    match s.way
    case Raw => s.ch != 0x22 && s.ch != 0x5C
    case Short => Letter(s.ch) != 0
    case Unicode(d3, d2, d1, d0) =>
      && IsHex(d3) && IsHex(d2) && IsHex(d1) && IsHex(d0)
      && s.ch == HexToInt(d3) * 4096 + HexToInt(d2) * 256 + HexToInt(d1) * 16 + HexToInt(d0)
  }

  type Spelled = s: Shown | IsSpelled(s) witness Shown('a' as int, Raw)

  function CharacterText(s: Spelled): (t: Text)
    ensures |t| > 0
  {
    match s.way
    case Raw => [s.ch]
    case Short => [0x5C, Letter(s.ch)]
    case Unicode(d3, d2, d1, d0) => [0x5C, 'u' as int, d3, d2, d1, d0]
  }

  function SpelledText(ss: seq<Spelled>): Text {
    if |ss| == 0 then [] else CharacterText(ss[0]) + SpelledText(ss[1..])
  }

  /** The characters that are spelled. */
  function Chars(ss: seq<Spelled>): (t: Text)
    ensures |t| == |ss|
  {
    if |ss| == 0 then [] else [ss[0].ch] + Chars(ss[1..])
  }

  function QuotedText(ss: seq<Spelled>): Text {
    [0x22] + (SpelledText(ss) + [0x22])
  }

  // ----- layouts

  /** An object together with the spelling of its strings and the blanks between the tokens of its text. */
  datatype Layout =
    | Quoted(spelling: seq<Spelled>)
    | Number(n: int, kind: CType)
    | Truth(b: bool)
    | Nil
    | Brackets(open: Blanks, items: Items)
    | Braces(open: Blanks, members: Members)

  datatype Items =
    | NoItems
    | Item(value: Layout, after: Blanks, gap: Blanks, rest: Items)

  datatype Members =
    | NoMembers
    | Member(key: seq<Spelled>, before: Blanks, gap: Blanks, value: Layout, after: Blanks, next: Blanks, rest: Members)

  // ----- the text of a layout

  function Digits(n: nat): (t: Text)
    ensures |t| > 0 && forall k :: 0 <= k < |t| ==> IsDigit(t[k])
    ensures n > 0 ==> t[0] != '0' as int
  {
    if n < 10 then ['0' as int + n] else Digits(n / 10) + ['0' as int + n % 10]
  }

  function Decimal(n: int): (t: Text)
    ensures |t| > 0
  {
    if n < 0 then ['-' as int] + Digits(-n) else Digits(n)
  }

  function TextOf(l: Layout): (t: Text)
    ensures |t| > 0
  {
    match l
    case Quoted(spelling) => QuotedText(spelling)
    case Number(n, _) => Decimal(n)
    case Truth(b) => if b then TRUE else FALSE
    case Nil => NULL
    case Brackets(open, items) => ['[' as int] + (open + (if items.NoItems? then [']' as int] else ItemsText(items)))
    case Braces(open, members) =>
      ['{' as int] + (open + (if members.NoMembers? then ['}' as int] else MembersText(members)))
  }

  /** The items, and the bracket that closes them. */
  function ItemsText(items: Items): (t: Text)
    requires items.Item?
    ensures |t| > 0
  {
    TextOf(items.value) + (items.after +
      (if items.rest.NoItems? then [']' as int] else [',' as int] + (items.gap + ItemsText(items.rest))))
  }

  function MemberText(m: Members): Text
    requires m.Member?
    decreases m, 0
  {
    QuotedText(m.key) + (m.before + ([':' as int] + (m.gap + TextOf(m.value))))
  }

  /** The members, and the brace that closes them. */
  function MembersText(members: Members): (t: Text)
    requires members.Member?
    ensures |t| > 0
    decreases members, 1
  {
    MemberText(members) + (members.after +
      (if members.rest.NoMembers? then ['}' as int] else [',' as int] + (members.next + MembersText(members.rest))))
  }

  // ----- the object of a layout

  /** The object a layout stands for to the reader. */
  function Denote(l: Layout): Object {
    match l
    case Quoted(spelling) => String(Chars(spelling))
    case Number(n, _) => Integer(Saturated(n), LongLong)
    case Truth(b) => Boolean(b)
    case Nil => Null
    case Brackets(_, items) => Array(DenoteItems(items, []))
    case Braces(_, members) => Dictionary(DenoteMembers(members, map[]))
  }

  function DenoteItems(items: Items, acc: seq<Object>): seq<Object> {
    if items.NoItems? then acc else DenoteItems(items.rest, acc + [Denote(items.value)])
  }

  function DenoteMembers(members: Members, acc: map<Text, Object>): map<Text, Object> {
    if members.NoMembers? then acc else DenoteMembers(members.rest, acc[Chars(members.key) := Denote(members.value)])
  }

  /** Every number is one of its type, of 64 bits at most. */
  predicate Narrow(l: Layout) {
    match l
    case Number(n, kind) => Fits(n, kind)
    case Brackets(_, items) => NarrowItems(items)
    case Braces(_, members) => NarrowMembers(members)
    case _ => true
  }

  predicate NarrowItems(items: Items) {
    items.Item? ==> Narrow(items.value) && NarrowItems(items.rest)
  }

  predicate NarrowMembers(members: Members) {
    members.Member? ==> Narrow(members.value) && NarrowMembers(members.rest)
  }

  // ----- strings

  /** The piece of a string that spells a character. */
  function PieceOf(s: Spelled): Piece {
    match s.way
    case Raw => Plain(s.ch)
    case Short => ByLetter(s.ch)
    case Unicode(d3, d2, d1, d0) => Hex('u' as int, [d3, d2, d1, d0])
  }

  lemma PieceOfIs(s: Spelled, next: UChar)
    ensures IsPiece(PieceOf(s), 0x22) && IsClosed(PieceOf(s), next)
    ensures PieceText(PieceOf(s)) == CharacterText(s) && PieceChars(PieceOf(s)) == [s.ch]
  {
    hide HexToInt, Letter;
    if s.way.Unicode? {
      FourDigits(s.way.d3, s.way.d2, s.way.d1, s.way.d0);
    }
  }

  lemma FourDigits(d3: UChar, d2: UChar, d1: UChar, d0: UChar)
    ensures NumberOf([d3, d2, d1, d0], 16) ==
            HexToInt(d3) * 4096 + HexToInt(d2) * 256 + HexToInt(d1) * 16 + HexToInt(d0)
  {
    hide HexToInt, NumberOf;
    NumberGrows([], d3, 16);
    NumberGrows([d3], d2, 16);
    NumberGrows([d3, d2], d1, 16);
    NumberGrows([d3, d2, d1], d0, 16);
    NothingSpelled(16);
    assert [] + [d3] == [d3] && [d3] + [d2] == [d3, d2];
    assert [d3, d2] + [d1] == [d3, d2, d1] && [d3, d2, d1] + [d0] == [d3, d2, d1, d0];
  }

  function PiecesOf(ss: seq<Spelled>): seq<Piece> {
    if |ss| == 0 then [] else [PieceOf(ss[0])] + PiecesOf(ss[1..])
  }

  lemma {:induction false} PiecesOfAre(ss: seq<Spelled>)
    ensures ArePieces(PiecesOf(ss), 0x22)
    ensures PiecesText(PiecesOf(ss)) == SpelledText(ss) && PiecesChars(PiecesOf(ss)) == Chars(ss)
  {
    hide PieceOf, IsPiece, IsClosed, PieceText, PieceChars, CharacterText, FirstUnit;
    if |ss| == 0 {
    } else {
      PieceOfIs(ss[0], FirstUnit(PiecesOf(ss[1..]), 0x22));
      PiecesOfAre(ss[1..]);
      assert PiecesOf(ss)[1..] == PiecesOf(ss[1..]);
    }
  }

  /** However its characters are spelled, a string is read to them. */
  lemma StringReads(c: Text, p: nat, ss: seq<Spelled>, acc: Text)
    requires At(c, p, SpelledText(ss) + [0x22])
    ensures StringRest(c, p, 0x22, acc) == Some((acc + Chars(ss), p + |SpelledText(ss)| + 1))
  {
    hide At, SpelledText, Chars, StringRest, ArePieces, PiecesText, PiecesChars, PiecesOf;
    PiecesOfAre(ss);
    PiecesAreRead(c, p, 0x22, PiecesOf(ss), acc);
  }

  // ----- numbers

  /** What would make a decimal integer before it longer, or not an integer. */
  predicate ContinuesNumber(ch: UChar) {
    IsDigit(ch) || ch in ['.' as int, 'e' as int, 'E' as int, 'x' as int, 'X' as int]
  }

  lemma {:induction false} DigitsSpell(n: nat)
    ensures NumberOf(Digits(n), 10) == n
  {
    var t := Digits(n);
    assert n < 10 ==> t[..0] == [] && NumberOf(t[..0], 10) == 0;
    if n < 10 {
    } else {
      DigitsSpell(n / 10);
      assert t[..|t| - 1] == Digits(n / 10);
    }
  }

  function PowerOfTen(k: nat): (r: nat)
    ensures r > 0
  {
    if k == 0 then 1 else 10 * PowerOfTen(k - 1)
  }

  lemma {:induction false} DigitsAreFew(n: nat, k: nat)
    requires 0 < k && n < PowerOfTen(k)
    ensures |Digits(n)| <= k
  {
    if n < 10 {
    } else {
      DigitsAreFew(n / 10, k - 1);
    }
  }

  /** Digits from `i` on, with nothing after them that belongs to a number. */
  ghost predicate DigitsFrom(w: Text, i: nat, d: Text) {
    && i + |d| <= |w| && |d| > 0
    && (forall k :: i <= k < i + |d| ==> w[k] == d[k - i] && IsDigit(w[k]))
    && (|d| == 1 || d[0] != '0' as int)
    && (i + |d| == |w| || !ContinuesNumber(w[i + |d|]))
  }

  lemma StartOfDigits(w: Text, i: nat, d: Text)
    requires DigitsFrom(w, i, d)
    requires i <= 1 && (i == 1 ==> w[0] == '-' as int)
    ensures NumberStart(w) == i
  {
    SpanIs(w, 0, 0, IsSpace);
  }

  lemma NoWordAtDigit(w: Text, i: nat, word: string)
    requires i < |w| && IsDigit(w[i])
    requires |word| > 0 && 'a' <= word[0] <= 'z'
    ensures !IsWord(w, i, word)
  {
  }

  lemma NoHexPrefix(w: Text, i: nat, d: Text)
    requires DigitsFrom(w, i, d)
    ensures !IsHexPrefix(w, i)
  {
    if |d| > 1 {
      assert w[i + 1] == d[1] && IsDigit(w[i + 1]);
    }
  }

  /** `strtod` takes exactly the digits. */
  lemma DoubleStops(w: Text, i: nat, d: Text)
    requires DigitsFrom(w, i, d) && NumberStart(w) == i
    ensures DoubleEnd(w) == i + |d|
  {
    hide IsWord, IsHexPrefix, NumberStart;
    NoWordAtDigit(w, i, "infinity");
    NoWordAtDigit(w, i, "inf");
    NoWordAtDigit(w, i, "nan");
    NoHexPrefix(w, i, d);
    SpanIs(w, i, i + |d|, IsDigit);
  }

  /** `strtoll` takes exactly the digits, as octal digits when the number is zero. */
  lemma LongStops(w: Text, i: nat, d: Text)
    requires DigitsFrom(w, i, d) && NumberStart(w) == i
    ensures ReadLong(w).0 == i + |d|
    ensures ReadLong(w).1 ==
      Saturated(if i > 0 && w[i - 1] == '-' as int then -NumberOf(d, if d == ['0' as int] then 8 else 10)
                else NumberOf(d, if d == ['0' as int] then 8 else 10))
  {
    hide IsHexPrefix, NumberStart, Saturated, NumberOf;
    NoHexPrefix(w, i, d);
    assert w[i..i + |d|] == d;
    SpanIs(w, i, i + |d|, if d == ['0' as int] then IsOctal else IsDigit);
  }

  lemma DigitsAreTwenty(n: nat)
    requires n <= 2 * INT64_MAX + 1
    ensures |Digits(n)| <= 20 && (|Digits(n)| == 1 || Digits(n)[0] != '0' as int)
  {
    assert PowerOfTen(20) == 10_0000_0000 * PowerOfTen(11);
    DigitsAreFew(n, 20);
  }

  lemma ReadsDigits(w: Text, sign: Text, m: nat)
    requires sign == [] || sign == ['-' as int]
    requires DigitsFrom(w, |sign|, Digits(m)) && (|sign| > 0 ==> w[0] == '-' as int)
    ensures DoubleEnd(w) == |sign| + |Digits(m)|
    ensures ReadLong(w) == (|sign| + |Digits(m)|, Saturated(if |sign| > 0 then -(m as int) else m as int))
  {
    hide DoubleEnd, ReadLong, Saturated, DigitsFrom, NumberStart;
    var d := Digits(m);
    StartOfDigits(w, |sign|, d);
    DoubleStops(w, |sign|, d);
    LongStops(w, |sign|, d);
    DigitsSpell(m);
    assert d == ['0' as int] ==> NumberOf(d, 8) == NumberOf(d, 10);
  }

  /** The digits of a decimal integer, in the window in which a number is looked for. */
  lemma WindowHolds(c: Text, p: nat, sign: Text, d: Text)
    requires At(c, p, sign + d) && 0 < |sign + d| < WINDOW
    requires |d| > 0 && (|d| == 1 || d[0] != '0' as int)
    requires forall k :: 0 <= k < |d| ==> IsDigit(d[k])
    requires p + |sign + d| == |c| || !ContinuesNumber(c[p + |sign + d|])
    ensures DigitsFrom(Window(c, p), |sign|, d)
    ensures |sign| > 0 ==> Window(c, p)[0] == sign[0]
  {
    var w, t := Window(c, p), sign + d;
    forall k | 0 <= k < |t|
      ensures w[k] == t[k]
    {
      AtIndex(c, p, t, k);
    }
    assert |t| < |w| ==> w[|t|] == c[p + |t|];
  }

  /** A decimal integer of at most twenty digits is read back, the numbers above the signed range as its maximum. */
  lemma NumberReads(c: Text, p: nat, n: int)
    requires p <= |c| && At(c, p, Decimal(n))
    requires -INT64_MAX - 1 <= n <= 2 * INT64_MAX + 1
    requires p + |Decimal(n)| == |c| || !ContinuesNumber(c[p + |Decimal(n)|])
    ensures ParseFloat(c, p) == Some((Integer(Saturated(n), LongLong), p + |Decimal(n)|))
  {
    hide At, Digits, NumberOf, DoubleEnd, ReadLong, Saturated, Window, IsDigit, ContinuesNumber;
    var sign: Text := if n < 0 then ['-' as int] else [];
    var m := if n < 0 then -n else n;
    var d, w := Digits(m), Window(c, p);
    DigitsAreTwenty(m);
    assert Decimal(n) == sign + d;
    WindowHolds(c, p, sign, d);
    ReadsDigits(w, sign, m);
  }

  /** So a decimal integer is the longest number that stands there, and stands for itself. */
  lemma DecimalIsNumeral(c: Text, p: nat, n: int)
    requires p <= |c| && At(c, p, Decimal(n))
    requires -INT64_MAX - 1 <= n <= 2 * INT64_MAX + 1
    requires p + |Decimal(n)| == |c| || !ContinuesNumber(c[p + |Decimal(n)|])
    ensures IsLongestNumeral(Window(c, p), |Decimal(n)|)
    ensures |Decimal(n)| <= WINDOW && StandsFor(Decimal(n), Integer(Saturated(n), LongLong))
  {
    hide Decimal, ParseFloat, IsLongestNumeral, StandsFor, Saturated, At;
    NumberReads(c, p, n);
    var q := p + |Decimal(n)|;
    ParseFloatMeans(c, p, Integer(Saturated(n), LongLong), q);
    TextAt(c, p, Decimal(n));
  }

  lemma DecimalStandsFor(n: int)
    requires -INT64_MAX - 1 <= n <= 2 * INT64_MAX + 1
    ensures |Decimal(n)| <= WINDOW && StandsFor(Decimal(n), Integer(Saturated(n), LongLong))
    ensures !IsBlank(Decimal(n)[0])
  {
    hide StandsFor, Saturated;
    AtSlice(Decimal(n), 0, |Decimal(n)|);
    assert Decimal(n)[0..|Decimal(n)|] == Decimal(n);
    DecimalIsNumeral(Decimal(n), 0, n);
  }

  // ----- layouts as forms of the grammar

  function FormOf(l: Layout): Form {
    match l
    case Quoted(spelling) => StringForm(0x22, PiecesOf(spelling))
    case Number(n, _) => NumberForm(Decimal(n), Integer(Saturated(n), LongLong))
    case Truth(b) => BooleanForm(b)
    case Nil => NullForm
    case Brackets(open, items) => ArrayForm(open, ElementsOf(items))
    case Braces(open, members) => DictionaryForm(open, PairsOf(members))
  }

  function ElementsOf(items: Items): Elements {
    if items.NoItems? then NoElements
    else Element(FormOf(items.value), items.after, items.gap, ElementsOf(items.rest))
  }

  function PairsOf(members: Members): Pairs {
    if members.NoMembers? then NoPairs
    else
      Pair(0x22, PiecesOf(members.key), members.before, members.gap, FormOf(members.value), members.after, members.next,
           PairsOf(members.rest))
  }

  lemma QuotedIsString(ss: seq<Spelled>)
    ensures IsString(0x22, PiecesOf(ss)) && StringText(0x22, PiecesOf(ss)) == QuotedText(ss)
    ensures PiecesChars(PiecesOf(ss)) == Chars(ss)
  {
    hide PiecesOf, SpelledText, PiecesText, ArePieces, PiecesChars, Chars;
    PiecesOfAre(ss);
  }

  /** A layout is one way to write a form: the same text and the same object. */
  lemma {:induction false} FormOfIs(l: Layout)
    requires Narrow(l)
    ensures IsForm(FormOf(l)) && FormText(FormOf(l)) == TextOf(l) && FormObject(FormOf(l)) == Denote(l)
  {
    hide PiecesOf, IsString, StringText, QuotedText, Chars, PiecesChars, Decimal, Saturated, StandsFor;
    match l
    case Quoted(spelling) => QuotedIsString(spelling);
    case Number(n, _) => DecimalStandsFor(n);
    case Brackets(_, items) => ElementsOfAre(items, []);
    case Braces(_, members) => PairsOfAre(members, map[]);
    case _ =>
  }

  lemma {:induction false} ElementsOfAre(items: Items, acc: seq<Object>)
    requires NarrowItems(items)
    ensures AreElements(ElementsOf(items)) && ElementObjects(ElementsOf(items), acc) == DenoteItems(items, acc)
    ensures ElementsText(ElementsOf(items)) == if items.NoItems? then [']' as int] else ItemsText(items)
  {
    hide FormOf, IsForm, FormText, FormObject, TextOf, Denote, Narrow;
    if items.NoItems? {
    } else {
      FormOfIs(items.value);
      ElementsOfAre(items.rest, acc + [Denote(items.value)]);
    }
  }

  lemma {:induction false} PairsOfAre(members: Members, acc: map<Text, Object>)
    requires NarrowMembers(members)
    ensures ArePairs(PairsOf(members)) && PairObjects(PairsOf(members), acc) == DenoteMembers(members, acc)
    ensures PairsText(PairsOf(members)) == if members.NoMembers? then ['}' as int] else MembersText(members)
  {
    hide FormOf, IsForm, FormText, FormObject, TextOf, Denote, Narrow, PiecesOf, IsString, StringText, QuotedText;
    hide Chars, PiecesChars;
    if members.NoMembers? {
    } else {
      FormOfIs(members.value);
      QuotedIsString(members.key);
      PairsOfAre(members.rest, acc[Chars(members.key) := Denote(members.value)]);
    }
  }

  /** What the position after a layout must offer: a number ends only there, a keyword needs something after it. */
  ghost predicate Follows(l: Layout, c: Text, p: nat) {
    match l
    case Number(_, _) => p >= |c| || !ContinuesNumber(c[p])
    case Truth(_) => p < |c|
    case Nil => p < |c|
    case _ => true
  }

  lemma FirstCharacter(l: Layout)
    requires Narrow(l)
    ensures !IsBlank(TextOf(l)[0]) && !IsSeparator(TextOf(l)[0])
  {
    hide TextOf, FormText, IsForm, FormOf;
    FormOfIs(l);
    FormBegins(FormOf(l));
  }

  lemma LayoutEnds(c: Text, p: nat, l: Layout)
    requires p <= |c| && At(c, p, TextOf(l)) && Narrow(l) && Follows(l, c, p + |TextOf(l)|)
    ensures EndsThere(FormOf(l), c, p)
  {
    hide Decimal, IsLongestNumeral, StandsFor, ContinuesNumber, ElementsOf, PairsOf, PiecesOf, Saturated;
    if l.Number? {
      DecimalIsNumeral(c, p, l.n);
    }
  }

  /**
    A layout's text, and whatever comes after it, is read back as the object of the layout up to the end
    of the text.
   */
  lemma LayoutReads(c: Text, p: nat, l: Layout)
    requires p <= |c| && At(c, p, TextOf(l)) && Narrow(l) && Follows(l, c, p + |TextOf(l)|)
    ensures ParseValue(c, p) == Some((Denote(l), p + |TextOf(l)|))
  {
    hide At, ParseValue, TextOf, Narrow, Follows, Denote, FormOf, IsForm, FormText, FormObject, EndsThere;
    FormOfIs(l);
    LayoutEnds(c, p, l);
    FormIsRead(c, p, FormOf(l));
  }

  // ----- whole texts

  predicate IsKeyword(l: Layout) {
    l.Truth? || l.Nil?
  }

  lemma LeadingBlanks(c: Text, blanks: Blanks, l: Layout)
    requires c == blanks + TextOf(l) && Narrow(l)
    ensures ParseValue(c, 0) == ParseValue(c, |blanks|)
  {
    FirstCharacter(l);
    assert c[|blanks|] == TextOf(l)[0];
    assert c[0..|blanks|] == blanks;
    SkipsBlanks(c, 0, blanks);
    hide TextOf, ParseDictionary, ParseArray, ParseBoolean, ParseNull, ParseFloat, ParseString;
  }

  /** A keyword that ends the content is not seen, and nothing else is seen in its place. */
  lemma BareKeyword(c: Text, p: nat, l: Layout)
    requires IsKeyword(l) && p <= |c| && c[p..] == TextOf(l)
    ensures ParseValue(c, p) == None
  {
    var w := c[p..];
    assert c[p] == w[0] && |w| <= 5;
    NoContainers(c, p);
    assert ParseBoolean(c, p) == None && ParseNull(c, p) == None by {
      NoKeywordAtEnd(c, p, w);
    }
    assert Window(c, p) == w;
    assert DoubleEnd(w) == 0 by {
      KeywordIsNoNumber(w);
    }
    hide ParseDictionary, ParseArray, ParseBoolean, ParseNull, DoubleEnd;
  }

  lemma NoKeywordAtEnd(c: Text, p: nat, w: Text)
    requires p <= |c| && c[p..] == w && w in [TRUE, FALSE, NULL]
    ensures ParseBoolean(c, p) == None && ParseNull(c, p) == None
  {
    if w != TRUE {
      NoKeyword(c, p, TRUE);
    }
    if w != NULL {
      NoKeyword(c, p, NULL);
    }
  }

  lemma NoWord(w: Text, word: string, k: nat)
    requires k < |word| && (k < |w| ==> w[k] != word[k] as int && w[k] != word[k] as int - 32)
    ensures !IsWord(w, 0, word)
  {
    if |word| <= |w| {
      assert w[0 + k] == w[k];
    }
  }

  lemma KeywordIsNoNumber(w: Text)
    requires w in [TRUE, FALSE, NULL]
    ensures DoubleEnd(w) == 0
  {
    SpanIs(w, 0, 0, IsSpace);
    SpanIs(w, 0, 0, IsDigit);
    NoWord(w, "infinity", 0);
    NoWord(w, "inf", 0);
    NoWord(w, "nan", if w == NULL then 1 else 0);
    hide IsWord, Span;
  }

  // ----- what is lost between printing and reading

  /** The object that a layout prints. */
  function ObjectOf(l: Layout): Object {
    match l
    case Quoted(spelling) => String(Chars(spelling))
    case Number(n, kind) => Integer(n, kind)
    case Truth(b) => Boolean(b)
    case Nil => Null
    case Brackets(_, items) => Array(ItemsOf(items, []))
    case Braces(_, members) => Dictionary(MembersOf(members, map[]))
  }

  function ItemsOf(items: Items, acc: seq<Object>): seq<Object> {
    if items.NoItems? then acc else ItemsOf(items.rest, acc + [ObjectOf(items.value)])
  }

  function MembersOf(members: Members, acc: map<Text, Object>): map<Text, Object> {
    if members.NoMembers? then acc else MembersOf(members.rest, acc[Chars(members.key) := ObjectOf(members.value)])
  }

  /** Every number is a long long. */
  predicate AllLongLong(l: Layout) {
    match l
    case Number(n, kind) => kind == LongLong && Fits(n, kind)
    case Brackets(_, items) => LongLongItems(items)
    case Braces(_, members) => LongLongMembers(members)
    case _ => true
  }

  predicate LongLongItems(items: Items) {
    items.Item? ==> AllLongLong(items.value) && LongLongItems(items.rest)
  }

  predicate LongLongMembers(members: Members) {
    members.Member? ==> AllLongLong(members.value) && LongLongMembers(members.rest)
  }

  /** No dictionary shows a key twice, as none does that is printed. */
  predicate DistinctKeys(l: Layout) {
    match l
    case Brackets(_, items) => DistinctInItems(items)
    case Braces(_, members) => DistinctInMembers(members, {})
    case _ => true
  }

  predicate DistinctInItems(items: Items) {
    items.Item? ==> DistinctKeys(items.value) && DistinctInItems(items.rest)
  }

  predicate DistinctInMembers(members: Members, used: set<Text>) {
    members.Member? ==>
      && Chars(members.key) !in used
      && DistinctKeys(members.value)
      && DistinctInMembers(members.rest, used + {Chars(members.key)})
  }

  /** What is read is what was printed, types included, exactly when every number is a long long. */
  lemma {:induction false} ExactIff(l: Layout)
    requires DistinctKeys(l)
    ensures Denote(l) == ObjectOf(l) <==> AllLongLong(l)
  {
    match l
    case Brackets(_, items) => ItemsExactIff(items, [], []);
    case Braces(_, members) =>
      var none: map<Text, Object> := map[];
      assert none.Keys == {};
      MembersExactIff(members, none, none);
    case _ =>
  }

  lemma {:induction false} ItemsExactIff(items: Items, a: seq<Object>, b: seq<Object>)
    requires DistinctInItems(items) && |a| == |b|
    ensures DenoteItems(items, a) == ItemsOf(items, b) <==> a == b && LongLongItems(items)
  {
    if items.NoItems? {
    } else {
      var x, y := Denote(items.value), ObjectOf(items.value);
      ExactIff(items.value);
      ItemsExactIff(items.rest, a + [x], b + [y]);
      assert a + [x] == b + [y] ==> a == b && x == y by {
        if a + [x] == b + [y] {
          assert a == (a + [x])[..|a|] == b;
          assert x == (a + [x])[|a|] == y;
        }
      }
    }
  }

  lemma UpdatesAgree(a: map<Text, Object>, b: map<Text, Object>, k: Text, x: Object, y: Object)
    requires a.Keys == b.Keys && k !in a
    ensures a[k := x] == b[k := y] <==> a == b && x == y
  {
    if a[k := x] == b[k := y] {
      assert x == a[k := x][k] == y;
      forall j | j in a
        ensures a[j] == b[j]
      {
        assert a[j] == a[k := x][j] == b[j];
      }
    }
  }

  lemma {:induction false} MembersExactIff(members: Members, a: map<Text, Object>, b: map<Text, Object>)
    requires a.Keys == b.Keys && DistinctInMembers(members, a.Keys)
    ensures DenoteMembers(members, a) == MembersOf(members, b) <==> a == b && LongLongMembers(members)
  {
    if members.NoMembers? {
    } else {
      var k, x, y := Chars(members.key), Denote(members.value), ObjectOf(members.value);
      ExactIff(members.value);
      UpdatesAgree(a, b, k, x, y);
      assert a[k := x].Keys == b[k := y].Keys == a.Keys + {k};
      MembersExactIff(members.rest, a[k := x], b[k := y]);
    }
  }

  /**
    The text of an object, with any blanks before it and between its tokens, is read back: to the
    object itself unless some number is no long long, and to nothing when it is a bare keyword.
   */
  lemma ReadsBack(l: Layout, blanks: Blanks)
    requires Narrow(l) && DistinctKeys(l)
    ensures var r := ObjectFromString(blanks + TextOf(l));
            && r == (if IsKeyword(l) then None else Some(Denote(l)))
            && (r == Some(ObjectOf(l)) <==> !IsKeyword(l) && AllLongLong(l))
  {
    hide *;
    WholeTextReads(l, blanks);
    ExactIff(l);
  }

  lemma WholeTextReads(l: Layout, blanks: Blanks)
    requires Narrow(l)
    ensures ObjectFromString(blanks + TextOf(l)) == (if IsKeyword(l) then None else Some(Denote(l)))
  {
    hide TextOf, ParseValue, Narrow, Denote;
    var c := blanks + TextOf(l);
    LeadingBlanks(c, blanks, l);
    assert c[|blanks|..] == TextOf(l);
    if IsKeyword(l) {
      BareKeyword(c, |blanks|, l);
    } else {
      LayoutReads(c, |blanks|, l);
    }
  }
}

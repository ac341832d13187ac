/**
  The printer of MCJSONParser.cpp, appending to a text in place, and `objectFromString`, which reads
  one back. Each printed text is the text of a layout without blanks, so the printer and the parser
  are inverses wherever `JsonTexts.ReadsBack` says so.
 */
module JsonPrinter {
  import opened Basics
  import opened JsonSyntax
  import opened JsonStrings
  import opened JsonGrammar
  import opened JsonTexts
  import opened JsonParser

  class MutableString {
    var chars: Text

    constructor ()
      ensures chars == []
    {
      chars := [];
    }

    method AppendString(t: Text)
      modifies this
      ensures chars == old(chars) + t
    {
      chars := chars + t;
    }
  }

  // ----- how the printer spells a string

  /** Characters that a string shows as they are. */
  predicate IsPlain(ch: UChar) {
    || IsDigit(ch)
    || 'a' as int <= ch <= 'z' as int
    || 'A' as int <= ch <= 'Z' as int
    || ch in [' ' as int, '.' as int, ',' as int, '<' as int, '>' as int, '(' as int, ')' as int, '!' as int]
    || ch in ['@' as int, '#' as int, '$' as int, '%' as int, '^' as int, '&' as int, '*' as int, '-' as int]
    || ch in ['_' as int, '+' as int, '=' as int, '?' as int, '{' as int, '}' as int, '[' as int, ']' as int]
    || ch in [':' as int, ';' as int, '|' as int, '~' as int, 0x27]
  }

  /** A digit of the format `%04x`. */
  function LowerHex(n: nat): (ch: UChar)
    requires n < 16
    ensures HexToInt(ch) == n
  {
    if n < 10 then '0' as int + n else 'a' as int + n - 10
  }

  /** Three characters follow a backslash, and any other that is not plain is shown as its number. */
  function Shows(ch: UChar): (s: Spelled)
    ensures s.ch == ch
  {
    if IsPlain(ch) then Shown(ch, Raw)
    else if ch == 0x22 || ch == 0x2F || ch == 0x5C then Shown(ch, Short)
    else
      NibblesOf(ch);
      Shown(ch, Unicode(LowerHex(ch / 4096), LowerHex(ch / 256 % 16), LowerHex(ch / 16 % 16), LowerHex(ch % 16)))
  }

  lemma NibblesOf(ch: UChar)
    ensures ch == ch / 4096 * 4096 + ch / 256 % 16 * 256 + ch / 16 % 16 * 16 + ch % 16
  {
    assert ch / 16 / 16 == ch / 256 && ch / 256 / 16 == ch / 4096;
  }

  function ShowsAll(chars: Text): (ss: seq<Spelled>)
    ensures |ss| == |chars|
  {
    if |chars| == 0 then [] else [Shows(chars[0])] + ShowsAll(chars[1..])
  }

  lemma {:induction false} ShownChars(chars: Text)
    ensures Chars(ShowsAll(chars)) == chars
  {
    hide Shows;
    if |chars| == 0 {
    } else {
      ShownChars(chars[1..]);
    }
  }

  /** What the printer accepts here: no floats and doubles, and integers of their type. */
  predicate Printable(v: Object) {
    match v
    case Double(_) => false
    case Integer(n, kind) => Fits(n, kind)
    case Array(items) => forall i :: 0 <= i < |items| ==> Printable(items[i])
    case Dictionary(entries) => forall k :: k in entries ==> Printable(entries[k])
    case _ => true
  }

  /** `l` lays out `v` as the printer does: no blanks, every entry once, strings spelled its way. */
  ghost predicate Prints(v: Object, l: Layout) {
    ObjectOf(l) == v && DistinctKeys(l) && Narrow(l) && Tight(l)
  }

  /** There are no blanks between the tokens, and strings are spelled as the printer spells them. */
  predicate Tight(l: Layout) {
    match l
    case Quoted(spelling) => spelling == ShowsAll(Chars(spelling))
    case Brackets(open, items) => |open| == 0 && TightItems(items)
    case Braces(open, members) => |open| == 0 && TightMembers(members)
    case _ => true
  }

  predicate TightItems(items: Items) {
    items.Item? ==> |items.after| == |items.gap| == 0 && Tight(items.value) && TightItems(items.rest)
  }

  predicate TightMembers(members: Members) {
    members.Member? ==>
      && |members.before| == |members.gap| == |members.after| == |members.next| == 0
      && members.key == ShowsAll(Chars(members.key))
      && Tight(members.value) && TightMembers(members.rest)
  }

  // ----- what a printed text is made of

  /** Shown as they are: the printable characters of ASCII but for quote, slash, backslash and grave accent. */
  lemma PlainIff(ch: UChar)
    ensures IsPlain(ch) <==> 0x20 <= ch <= 0x7E && ch !in [0x22, 0x2F, 0x5C, 0x60]
  {
  }

  predicate IsLowerHex(ch: UChar) {
    IsDigit(ch) || 'a' as int <= ch <= 'f' as int
  }

  /**
    A quote, a slash and a backslash follow a backslash; the others that are not plain are their four
    hexadecimal digits.
   */
  lemma ShownIs(ch: UChar)
    ensures var t := CharacterText(Shows(ch));
            if 0x20 <= ch <= 0x7E && ch !in [0x22, 0x2F, 0x5C, 0x60] then t == [ch]
            else if ch in [0x22, 0x2F, 0x5C] then t == [0x5C, ch]
            else
              && |t| == 6 && t[..2] == [0x5C, 'u' as int]
              && IsLowerHex(t[2]) && IsLowerHex(t[3]) && IsLowerHex(t[4]) && IsLowerHex(t[5])
              && ch == HexToInt(t[2]) * 4096 + HexToInt(t[3]) * 256 + HexToInt(t[4]) * 16 + HexToInt(t[5])
  {
    hide IsPlain, HexToInt, LowerHex, IsLowerHex;
    PlainIff(ch);
    LowerHexIs(ch / 4096);
    LowerHexIs(ch / 256 % 16);
    LowerHexIs(ch / 16 % 16);
    LowerHexIs(ch % 16);
    NibblesOf(ch);
  }

  lemma LowerHexIs(n: nat)
    requires n < 16
    ensures IsLowerHex(LowerHex(n))
  {
  }

  /** Only printable characters of ASCII: no control character, no line break, and nothing above. */
  predicate IsAscii(t: Text) {
    forall k :: 0 <= k < |t| ==> 0x20 <= t[k] <= 0x7E
  }

  lemma AsciiJoins(a: Text, b: Text)
    ensures IsAscii(a + b) <==> IsAscii(a) && IsAscii(b)
  {
    assert forall k :: 0 <= k < |b| ==> (a + b)[|a| + k] == b[k];
    assert forall k :: 0 <= k < |a| ==> (a + b)[k] == a[k];
  }

  lemma CharacterIsAscii(ch: UChar)
    ensures IsAscii(CharacterText(Shows(ch)))
  {
    hide CharacterText, Shows;
    ShownIs(ch);
  }

  lemma {:induction false} StringIsAscii(chars: Text)
    ensures IsAscii(SpelledText(ShowsAll(chars)))
  {
    hide CharacterText, Shows, IsAscii;
    if |chars| == 0 {
      NothingIsAscii();
    } else {
      StringIsAscii(chars[1..]);
      CharacterIsAscii(chars[0]);
      AsciiJoins(CharacterText(Shows(chars[0])), SpelledText(ShowsAll(chars[1..])));
    }
  }

  lemma NothingIsAscii()
    ensures IsAscii([]) && SpelledText(ShowsAll([])) == []
  {
  }

  lemma MarksAreAscii()
    ensures IsAscii([0x22]) && IsAscii([',' as int]) && IsAscii([':' as int])
    ensures IsAscii(['[' as int]) && IsAscii([']' as int]) && IsAscii(['{' as int]) && IsAscii(['}' as int])
    ensures IsAscii(TRUE) && IsAscii(FALSE) && IsAscii(NULL)
  {
  }

  lemma QuotedIsAscii(chars: Text)
    ensures IsAscii(QuotedText(ShowsAll(chars)))
  {
    hide SpelledText, ShowsAll, IsAscii;
    MarksAreAscii();
    StringIsAscii(chars);
    AsciiJoins(SpelledText(ShowsAll(chars)), [0x22]);
    AsciiJoins([0x22], SpelledText(ShowsAll(chars)) + [0x22]);
  }

  lemma DecimalIsAscii(n: int)
    ensures IsAscii(Decimal(n))
  {
  }

  /** Numbers have no leading zero and no sign but a minus. */
  lemma DecimalIs(n: int)
    ensures var t := Decimal(n);
            && (n < 0 ==> t == ['-' as int] + Digits(-n)) && (n >= 0 ==> t == Digits(n))
            && (n == 0 ==> t == ['0' as int])
  {
  }

  /** Every unit of a printed text is a printable character of ASCII. */
  lemma {:induction false} PrintedIsAscii(l: Layout)
    requires Tight(l)
    ensures IsAscii(TextOf(l))
  {
    hide IsAscii, QuotedText, ShowsAll, Decimal;
    MarksAreAscii();
    match l
    case Quoted(spelling) => QuotedIsAscii(Chars(spelling));
    case Number(n, _) => DecimalIsAscii(n);
    case Brackets(open, items) =>
      var rest := if items.NoItems? then [']' as int] else ItemsText(items);
      if items.Item? {
        ItemsAreAscii(items);
      }
      assert open + rest == rest;
      AsciiJoins(['[' as int], rest);
    case Braces(open, members) =>
      var rest := if members.NoMembers? then ['}' as int] else MembersText(members);
      if members.Member? {
        MembersAreAscii(members);
      }
      assert open + rest == rest;
      AsciiJoins(['{' as int], rest);
    case _ =>
  }

  lemma {:induction false} ItemsAreAscii(items: Items)
    requires items.Item? && TightItems(items)
    ensures IsAscii(ItemsText(items))
  {
    hide IsAscii, TextOf, Tight;
    MarksAreAscii();
    PrintedIsAscii(items.value);
    ItemsTextTight(items.value, items.rest);
    if items.rest.NoItems? {
      AsciiJoins(TextOf(items.value), [']' as int]);
    } else {
      ItemsAreAscii(items.rest);
      AsciiJoins([',' as int], ItemsText(items.rest));
      AsciiJoins(TextOf(items.value), [',' as int] + ItemsText(items.rest));
    }
  }

  lemma {:induction false} MembersAreAscii(members: Members)
    requires members.Member? && TightMembers(members)
    ensures IsAscii(MembersText(members))
  {
    hide IsAscii, TextOf, Tight, QuotedText, ShowsAll;
    MarksAreAscii();
    var key, v, rest := Chars(members.key), members.value, members.rest;
    QuotedIsAscii(key);
    PrintedIsAscii(v);
    MembersTextTight(key, v, rest);
    AsciiJoins(QuotedText(ShowsAll(key)), [':' as int]);
    AsciiJoins(QuotedText(ShowsAll(key)) + [':' as int], TextOf(v));
    if rest.NoMembers? {
      AsciiJoins(PairText((key, v)), ['}' as int]);
    } else {
      MembersAreAscii(rest);
      AsciiJoins([',' as int], MembersText(rest));
      AsciiJoins(PairText((key, v)), [',' as int] + MembersText(rest));
    }
  }

  // ----- layouts of containers from those of their parts

  function ItemsFrom(ls: seq<Layout>): (items: Items)
    ensures items.Item? <==> |ls| > 0
  {
    if |ls| == 0 then NoItems else Item(ls[0], [], [], ItemsFrom(ls[1..]))
  }

  function MembersFrom(ms: seq<(Text, Layout)>): (members: Members)
    ensures members.Member? <==> |ms| > 0
  {
    if |ms| == 0 then NoMembers else Member(ShowsAll(ms[0].0), [], [], ms[0].1, [], [], MembersFrom(ms[1..]))
  }

  /** Texts with a comma between each two. */
  function Joined(ts: seq<Text>): Text {
    if |ts| == 0 then [] else if |ts| == 1 then ts[0] else Joined(ts[..|ts| - 1]) + [',' as int] + ts[|ts| - 1]
  }

  lemma {:induction false} JoinedFront(ts: seq<Text>)
    requires |ts| > 1
    ensures Joined(ts) == ts[0] + ([',' as int] + Joined(ts[1..]))
  {
    if |ts| > 2 {
      JoinedFront(ts[..|ts| - 1]);
      assert ts[..|ts| - 1][1..] == ts[1..][..|ts| - 2];
    } else {
      assert ts[..1] == [ts[0]] && ts[1..] == [ts[1]];
    }
  }

  function ItemTexts(ls: seq<Layout>): (ts: seq<Text>)
    ensures |ts| == |ls|
  {
    seq(|ls|, i requires 0 <= i < |ls| => TextOf(ls[i]))
  }

  function PairText(m: (Text, Layout)): Text {
    QuotedText(ShowsAll(m.0)) + [':' as int] + TextOf(m.1)
  }

  function PairTexts(ms: seq<(Text, Layout)>): (ts: seq<Text>)
    ensures |ts| == |ms|
  {
    seq(|ms|, i requires 0 <= i < |ms| => PairText(ms[i]))
  }

  lemma ItemsTextTight(v: Layout, rest: Items)
    ensures ItemsText(Item(v, [], [], rest)) ==
            TextOf(v) + (if rest.NoItems? then [']' as int] else [',' as int] + ItemsText(rest))
  {
    hide TextOf;
  }

  lemma MembersTextTight(key: Text, v: Layout, rest: Members)
    ensures MembersText(Member(ShowsAll(key), [], [], v, [], [], rest)) ==
            PairText((key, v)) + (if rest.NoMembers? then ['}' as int] else [',' as int] + MembersText(rest))
  {
    hide TextOf, QuotedText, ShowsAll;
  }

  lemma {:induction false} ItemsJoin(ls: seq<Layout>)
    requires |ls| > 0
    ensures ItemsText(ItemsFrom(ls)) == Joined(ItemTexts(ls)) + [']' as int]
  {
    hide TextOf, ItemsText;
    var ts := ItemTexts(ls);
    ItemsTextTight(ls[0], ItemsFrom(ls[1..]));
    if |ls| <= 1 {
    } else {
      hide Joined;
      assert ItemTexts(ls[1..]) == ts[1..];
      ItemsJoin(ls[1..]);
      JoinedFront(ts);
    }
  }

  lemma {:induction false} MembersJoin(ms: seq<(Text, Layout)>)
    requires |ms| > 0
    ensures MembersText(MembersFrom(ms)) == Joined(PairTexts(ms)) + ['}' as int]
  {
    hide PairText, MembersText;
    var ts := PairTexts(ms);
    MembersTextTight(ms[0].0, ms[0].1, MembersFrom(ms[1..]));
    if |ms| <= 1 {
    } else {
      hide Joined;
      assert PairTexts(ms[1..]) == ts[1..];
      MembersJoin(ms[1..]);
      JoinedFront(ts);
    }
  }

  // ----- the object of a container laid out part by part

  lemma {:induction false} ItemsStandFor(ls: seq<Layout>, vs: seq<Object>, acc: seq<Object>)
    requires |ls| == |vs| && forall i :: 0 <= i < |ls| ==> Prints(vs[i], ls[i])
    ensures var items := ItemsFrom(ls);
            && ItemsOf(items, acc) == acc + vs
            && DistinctInItems(items) && NarrowItems(items) && TightItems(items)
  {
    hide ObjectOf, DistinctKeys, Narrow, Tight;
    if |ls| == 0 {
    } else {
      assert Prints(vs[0], ls[0]);
      ItemsStandFor(ls[1..], vs[1..], acc + [vs[0]]);
      assert acc + [vs[0]] + vs[1..] == acc + vs;
    }
  }

  /** The keys of `ms` are distinct, and are those that `entries` has beside `acc`. */
  ghost predicate Lists(ms: seq<(Text, Layout)>, entries: map<Text, Object>, acc: set<Text>) {
    && (forall i, j :: 0 <= i < j < |ms| ==> ms[i].0 != ms[j].0)
    && (forall i :: 0 <= i < |ms| ==> ms[i].0 in entries && ms[i].0 !in acc && Prints(entries[ms[i].0], ms[i].1))
    && acc <= entries.Keys
    && (forall k :: k in entries && k !in acc ==> exists i :: 0 <= i < |ms| && ms[i].0 == k)
  }

  lemma ListsRest(ms: seq<(Text, Layout)>, entries: map<Text, Object>, acc: set<Text>)
    requires Lists(ms, entries, acc) && |ms| > 0
    ensures Lists(ms[1..], entries, acc + {ms[0].0})
  {
    hide Prints;
    var rest := ms[1..];
    forall k | k in entries && k !in acc + {ms[0].0}
      ensures exists i :: 0 <= i < |rest| && rest[i].0 == k
    {
      var i :| 0 <= i < |ms| && ms[i].0 == k;
      assert rest[i - 1].0 == k;
    }
  }

  lemma {:induction false} MembersStandFor(ms: seq<(Text, Layout)>, entries: map<Text, Object>, acc: map<Text, Object>)
    requires Lists(ms, entries, acc.Keys) && forall k :: k in acc ==> acc[k] == entries[k]
    ensures var members := MembersFrom(ms);
            && MembersOf(members, acc) == entries
            && DistinctInMembers(members, acc.Keys) && NarrowMembers(members) && TightMembers(members)
  {
    hide ObjectOf, DistinctKeys, Narrow, Tight;
    if |ms| > 0 {
      var (k, l) := ms[0];
      ShownChars(k);
      assert Prints(entries[k], l);
      ListsRest(ms, entries, acc.Keys);
      var more := acc[k := entries[k]];
      assert more.Keys == acc.Keys + {k};
      hide Lists;
      MembersStandFor(ms[1..], entries, more);
    } else {
      assert acc == entries;
    }
  }

  lemma BracketsText(open: Blanks, items: Items)
    ensures TextOf(Brackets(open, items)) ==
            ['[' as int] + (open + (if items.NoItems? then [']' as int] else ItemsText(items)))
  {
  }

  lemma BracesText(open: Blanks, members: Members)
    ensures TextOf(Braces(open, members)) ==
            ['{' as int] + (open + (if members.NoMembers? then ['}' as int] else MembersText(members)))
  {
  }

  lemma BracketsPrint(ls: seq<Layout>, vs: seq<Object>)
    requires |ls| == |vs| && forall i :: 0 <= i < |ls| ==> Prints(vs[i], ls[i])
    ensures Prints(Array(vs), Brackets([], ItemsFrom(ls)))
  {
    hide ItemsFrom, ItemsOf, DistinctInItems, NarrowItems, TightItems;
    ItemsStandFor(ls, vs, []);
    assert [] + vs == vs;
  }

  lemma BracketsShow(ls: seq<Layout>)
    ensures TextOf(Brackets([], ItemsFrom(ls))) == ['[' as int] + Joined(ItemTexts(ls)) + [']' as int]
  {
    hide TextOf, ItemsText, ItemsFrom, ItemTexts;
    BracketsText([], ItemsFrom(ls));
    if |ls| > 0 {
      hide Joined;
      ItemsJoin(ls);
    }
  }

  lemma BracesPrint(ms: seq<(Text, Layout)>, entries: map<Text, Object>)
    requires Lists(ms, entries, {})
    ensures Prints(Dictionary(entries), Braces([], MembersFrom(ms)))
  {
    hide MembersFrom, MembersOf, DistinctInMembers, NarrowMembers, TightMembers, Lists;
    var none: map<Text, Object> := map[];
    assert none.Keys == {};
    MembersStandFor(ms, entries, none);
  }

  lemma BracesShow(ms: seq<(Text, Layout)>)
    ensures TextOf(Braces([], MembersFrom(ms))) == ['{' as int] + Joined(PairTexts(ms)) + ['}' as int]
  {
    hide TextOf, MembersText, MembersFrom, PairTexts;
    BracesText([], MembersFrom(ms));
    if |ms| > 0 {
      hide Joined;
      MembersJoin(ms);
    }
  }

  // ----- the methods

  lemma {:induction false} ShowsMore(chars: Text, ch: UChar)
    ensures SpelledText(ShowsAll(chars + [ch])) == SpelledText(ShowsAll(chars)) + CharacterText(Shows(ch))
  {
    hide CharacterText, Shows;
    if |chars| == 0 {
    } else {
      assert (chars + [ch])[1..] == chars[1..] + [ch];
      ShowsMore(chars[1..], ch);
    }
  }

  /** The characters of a string as a text shows them between quotes. */
  method JSStringFromString(str: Text) returns (result: Text)
    ensures result == SpelledText(ShowsAll(str)) && IsAscii(result)
  {
    hide SpelledText, ShowsAll;
    result := [];
    NothingShown();
    assert str[..0] == [];
    for i := 0 to |str|
      invariant result == SpelledText(ShowsAll(str[..i]))
    {
      var ch := str[i];
      ShowsMore(str[..i], ch);
      assert str[..i] + [ch] == str[..i + 1];
      var shown := ShowCharacter(ch);
      result := result + shown;
    }
    assert str[..|str|] == str;
    StringIsAscii(str);
  }

  lemma NothingShown()
    ensures SpelledText(ShowsAll([])) == []
  {
  }

  method ShowCharacter(ch: UChar) returns (shown: Text)
    ensures shown == CharacterText(Shows(ch))
  {
    if IsPlain(ch) {
      shown := [ch];
    } else if ch == 0x22 || ch == 0x2F || ch == 0x5C {
      shown := [0x5C, ch];
    } else {
      shown :=
        [0x5C, 'u' as int, LowerHex(ch / 4096), LowerHex(ch / 256 % 16), LowerHex(ch / 16 % 16), LowerHex(ch % 16)];
    }
  }

  /** The keys of a dictionary, each once, in no particular order. */
  method AllKeys(entries: map<Text, Object>) returns (keys: seq<Text>)
    ensures forall i, j :: 0 <= i < j < |keys| ==> keys[i] != keys[j]
    ensures forall k :: k in keys <==> k in entries
  {
    keys := [];
    var left := entries.Keys;
    while left != {}
      invariant forall i, j :: 0 <= i < j < |keys| ==> keys[i] != keys[j]
      invariant left <= entries.Keys
      invariant forall k :: k in keys <==> k in entries && k !in left
      decreases left
    {
      var k :| k in left;
      keys := keys + [k];
      left := left - {k};
    }
  }

  method AppendQuoted(chars: Text, text: MutableString)
    modifies text
    ensures text.chars == old(text.chars) + QuotedText(ShowsAll(chars))
  {
    hide SpelledText, ShowsAll;
    text.AppendString([0x22]);
    var escaped := JSStringFromString(chars);
    text.AppendString(escaped);
    text.AppendString([0x22]);
  }

  /** Appends the text of an object, and tells the layout it has. */
  method AppendStringFromObject(value: Object, text: MutableString) returns (ghost l: Layout)
    requires Printable(value)
    modifies text
    ensures Prints(value, l) && text.chars == old(text.chars) + TextOf(l)
    decreases value, 2
  {
    match value
    case String(chars) =>
      AppendQuoted(chars, text);
      l := Quoted(ShowsAll(chars));
      ShownChars(chars);
    case Boolean(b) =>
      text.AppendString(if b then TRUE else FALSE);
      l := Truth(b);
    case Integer(n, kind) =>
      text.AppendString(Decimal(n));
      l := Number(n, kind);
    case Null =>
      text.AppendString(NULL);
      l := Nil;
    case Array(items) =>
      l := AppendArray(value, text);
    case Dictionary(entries) =>
      l := AppendDictionary(value, text);
    case Double(_) =>
  }

  lemma JoinedGrows(ts: seq<Text>, t: Text)
    ensures Joined(ts + [t]) == Joined(ts) + (if |ts| == 0 then [] else [',' as int]) + t
  {
    assert (ts + [t])[..|ts|] == ts;
  }

  lemma ItemsGrow(ls: seq<Layout>, l: Layout)
    ensures Joined(ItemTexts(ls + [l])) == Joined(ItemTexts(ls)) + Comma(|ls| == 0) + TextOf(l)
  {
    hide TextOf;
    assert ItemTexts(ls + [l]) == ItemTexts(ls) + [TextOf(l)];
    hide Joined;
    JoinedGrows(ItemTexts(ls), TextOf(l));
  }

  lemma PairsGrow(ms: seq<(Text, Layout)>, m: (Text, Layout))
    ensures Joined(PairTexts(ms + [m])) == Joined(PairTexts(ms)) + Comma(|ms| == 0) + PairText(m)
  {
    hide PairText;
    assert PairTexts(ms + [m]) == PairTexts(ms) + [PairText(m)];
    hide Joined;
    JoinedGrows(PairTexts(ms), PairText(m));
  }

  method AppendArray(list: Object, text: MutableString) returns (ghost l: Layout)
    requires list.Array? && forall i :: 0 <= i < |list.items| ==> Printable(list.items[i])
    modifies text
    ensures Prints(list, l) && text.chars == old(text.chars) + TextOf(l)
    decreases list, 1
  {
    hide Prints, TextOf, Printable, Joined, ItemTexts, ItemsFrom;
    text.AppendString(['[' as int]);
    ghost var ls := AppendItems(list, text);
    text.AppendString([']' as int]);
    l := Brackets([], ItemsFrom(ls));
    BracketsPrint(ls, list.items);
    BracketsShow(ls);
  }

  method AppendDictionary(dict: Object, text: MutableString) returns (ghost l: Layout)
    requires dict.Dictionary? && forall k :: k in dict.entries ==> Printable(dict.entries[k])
    modifies text
    ensures Prints(dict, l) && text.chars == old(text.chars) + TextOf(l)
    decreases dict, 1
  {
    hide Prints, TextOf, Printable, Joined, PairTexts, MembersFrom, Lists;
    text.AppendString(['{' as int]);
    ghost var ms := AppendMembers(dict, text);
    text.AppendString(['}' as int]);
    l := Braces([], MembersFrom(ms));
    BracesPrint(ms, dict.entries);
    BracesShow(ms);
  }

  function Comma(first: bool): Text {
    if first then [] else [',' as int]
  }

  method AppendComma(first: bool, text: MutableString)
    modifies text
    ensures text.chars == old(text.chars) + Comma(first)
  {
    if !first {
      text.AppendString([',' as int]);
    }
  }

  ghost predicate ItemsLaid(ls: seq<Layout>, items: seq<Object>) {
    |ls| <= |items| && forall j :: 0 <= j < |ls| ==> Prints(items[j], ls[j])
  }

  ghost predicate MembersLaid(ms: seq<(Text, Layout)>, keys: seq<Text>, entries: map<Text, Object>) {
    && |ms| <= |keys|
    && forall j :: 0 <= j < |ms| ==> ms[j].0 == keys[j] && keys[j] in entries && Prints(entries[keys[j]], ms[j].1)
  }

  lemma NothingLaid(items: seq<Object>)
    ensures ItemsLaid([], items) && Joined(ItemTexts([])) == []
  {
  }

  lemma NothingListed(keys: seq<Text>, entries: map<Text, Object>)
    ensures MembersLaid([], keys, entries) && Joined(PairTexts([])) == []
  {
  }

  lemma ItemLaid(ls: seq<Layout>, items: seq<Object>, l: Layout)
    requires ItemsLaid(ls, items) && |ls| < |items| && Prints(items[|ls|], l)
    ensures ItemsLaid(ls + [l], items)
  {
    hide Prints;
  }

  lemma MemberLaid(ms: seq<(Text, Layout)>, keys: seq<Text>, entries: map<Text, Object>, m: (Text, Layout))
    requires MembersLaid(ms, keys, entries) && |ms| < |keys|
    requires m.0 == keys[|ms|] && m.0 in entries && Prints(entries[m.0], m.1)
    ensures MembersLaid(ms + [m], keys, entries)
  {
    hide Prints;
  }

  /** The items of an array, with a comma before each but the first. */
  method AppendItems(list: Object, text: MutableString) returns (ghost ls: seq<Layout>)
    requires list.Array? && forall i :: 0 <= i < |list.items| ==> Printable(list.items[i])
    modifies text
    ensures ItemsLaid(ls, list.items) && |ls| == |list.items|
    ensures text.chars == old(text.chars) + Joined(ItemTexts(ls))
    decreases list, 0
  {
    hide *;
    ls := [];
    NothingLaid(list.items);
    var items := list.items;
    ghost var start := text.chars;
    var first := true;
    for i := 0 to |items|
      invariant |ls| == i && first == (i == 0) && ItemsLaid(ls, items)
      invariant text.chars == start + Joined(ItemTexts(ls))
    {
      AppendComma(first, text);
      first := false;
      ghost var l := AppendStringFromObject(items[i], text);
      ItemsGrow(ls, l);
      ItemLaid(ls, items, l);
      ls := ls + [l];
    }
  }

  lemma ListsAll(ms: seq<(Text, Layout)>, keys: seq<Text>, entries: map<Text, Object>)
    requires |ms| == |keys| && MembersLaid(ms, keys, entries)
    requires forall k :: k in keys <==> k in entries
    requires forall i, j :: 0 <= i < j < |keys| ==> keys[i] != keys[j]
    ensures Lists(ms, entries, {})
  {
    hide Prints;
  }

  /** The members of a dictionary, with a comma before each but the first. */
  method AppendMembers(dict: Object, text: MutableString) returns (ghost ms: seq<(Text, Layout)>)
    requires dict.Dictionary? && forall k :: k in dict.entries ==> Printable(dict.entries[k])
    modifies text
    ensures Lists(ms, dict.entries, {})
    ensures text.chars == old(text.chars) + Joined(PairTexts(ms))
    decreases dict, 0
  {
    hide *;
    var entries := dict.entries;
    var keys := AllKeys(entries);
    ms := [];
    NothingListed(keys, entries);
    ghost var start := text.chars;
    var first := true;
    for i := 0 to |keys|
      invariant |ms| == i && first == (i == 0) && MembersLaid(ms, keys, entries)
      invariant text.chars == start + Joined(PairTexts(ms))
    {
      AppendComma(first, text);
      first := false;
      ghost var m := AppendMember(keys[i], entries[keys[i]], text);
      PairsGrow(ms, m);
      MemberLaid(ms, keys, entries, m);
      ms := ms + [m];
    }
    ListsAll(ms, keys, entries);
  }

  method AppendMember(key: Text, value: Object, text: MutableString) returns (ghost m: (Text, Layout))
    requires Printable(value)
    modifies text
    ensures m.0 == key && Prints(value, m.1)
    ensures text.chars == old(text.chars) + PairText(m)
    decreases value, 3
  {
    hide Prints, TextOf, Printable, QuotedText;
    AppendQuoted(key, text);
    text.AppendString([':' as int]);
    ghost var l := AppendStringFromObject(value, text);
    m := (key, l);
  }

  method StringFromObject(value: Object) returns (result: Text, ghost l: Layout)
    requires Printable(value)
    ensures Prints(value, l) && result == TextOf(l)
  {
    var text := new MutableString();
    l := AppendStringFromObject(value, text);
    result := text.chars;
    assert [] + TextOf(l) == TextOf(l);
  }

  method ReadObject(str: Text) returns (result: Option<Object>)
    ensures result == ObjectFromString(str)
  {
    var parser := new JSONParser();
    parser.SetContent(str);
    var ok := parser.Parse();
    result := parser.mResult;
  }

  // ----- printing and reading

  /** Every number is a long long. */
  predicate HoldsLongLongs(v: Object) {
    match v
    case Integer(n, kind) => kind == LongLong && Fits(n, kind)
    case Array(items) => forall i :: 0 <= i < |items| ==> HoldsLongLongs(items[i])
    case Dictionary(entries) => forall k :: k in entries ==> HoldsLongLongs(entries[k])
    case _ => true
  }

  predicate ItemsHoldLongLongs(items: seq<Object>) {
    forall i :: 0 <= i < |items| ==> HoldsLongLongs(items[i])
  }

  predicate EntriesHoldLongLongs(entries: map<Text, Object>) {
    forall k :: k in entries ==> HoldsLongLongs(entries[k])
  }

  lemma {:induction false} LongLongsAgree(l: Layout)
    requires DistinctKeys(l)
    ensures AllLongLong(l) <==> HoldsLongLongs(ObjectOf(l))
  {
    match l
    case Brackets(_, items) =>
      LongLongItemsAgree(items, []);
    case Braces(_, members) =>
      var none: map<Text, Object> := map[];
      assert none.Keys == {};
      LongLongMembersAgree(members, none);
    case _ =>
  }

  lemma {:induction false} LongLongItemsAgree(items: Items, acc: seq<Object>)
    requires DistinctInItems(items)
    ensures ItemsHoldLongLongs(ItemsOf(items, acc)) <==> ItemsHoldLongLongs(acc) && LongLongItems(items)
  {
    hide HoldsLongLongs;
    if items.NoItems? {
    } else {
      var x := ObjectOf(items.value);
      LongLongsAgree(items.value);
      LongLongItemsAgree(items.rest, acc + [x]);
      assert ItemsHoldLongLongs(acc + [x]) <==> ItemsHoldLongLongs(acc) && HoldsLongLongs(x) by {
        assert forall i :: 0 <= i < |acc| ==> (acc + [x])[i] == acc[i];
        assert (acc + [x])[|acc|] == x;
      }
    }
  }

  lemma {:induction false} LongLongMembersAgree(members: Members, acc: map<Text, Object>)
    requires DistinctInMembers(members, acc.Keys)
    ensures EntriesHoldLongLongs(MembersOf(members, acc)) <==> EntriesHoldLongLongs(acc) && LongLongMembers(members)
  {
    hide HoldsLongLongs;
    if members.NoMembers? {
    } else {
      var k, x := Chars(members.key), ObjectOf(members.value);
      LongLongsAgree(members.value);
      var more := acc[k := x];
      assert more.Keys == acc.Keys + {k};
      LongLongMembersAgree(members.rest, more);
      assert EntriesHoldLongLongs(more) <==> EntriesHoldLongLongs(acc) && HoldsLongLongs(x) by {
        assert forall j :: j in acc ==> more[j] == acc[j];
        assert k in more && more[k] == x;
      }
    }
  }

  /**
    Printing and reading back gives an equal object exactly for one that is no bare keyword and whose
    numbers are all long longs.
   */
  lemma PrintedReadsBackIff(v: Object, l: Layout)
    requires Prints(v, l)
    ensures ObjectFromString(TextOf(l)) == Some(v) <==> !v.Boolean? && !v.Null? && HoldsLongLongs(v)
  {
    hide HoldsLongLongs, AllLongLong, DistinctKeys, Narrow, Tight, TextOf, ObjectFromString;
    assert [] + TextOf(l) == TextOf(l);
    ReadsBack(l, []);
    LongLongsAgree(l);
  }
}

/**
  The language that the parser of MCJSONParser.cpp accepts, as texts of forms, and the proof that it reads
  exactly these: every text of a form to the object the form stands for, and nothing else.
 */
module JsonGrammar {
  import opened Basics
  import opened JsonSyntax
  import opened JsonNumbers
  import opened JsonStrings

  type Blanks = s: Text | forall ch :: ch in s ==> IsBlank(ch)

  // ----- forms

  /** A value with everything that its text shows; for a number, with what the C library takes it for. */
  datatype Form =
    | StringForm(quote: UChar, pieces: seq<Piece>)
    | NumberForm(text: Text, value: Object)
    | BooleanForm(b: bool)
    | NullForm
    | ArrayForm(open: Blanks, elements: Elements)
    | DictionaryForm(open: Blanks, pairs: Pairs)

  datatype Elements =
    | NoElements
    | Element(value: Form, after: Blanks, gap: Blanks, rest: Elements)

  datatype Pairs =
    | NoPairs
    | Pair(quote: UChar, key: seq<Piece>, before: Blanks, gap: Blanks,
           value: Form, after: Blanks, next: Blanks, rest: Pairs)

  function FormText(f: Form): Text {
    match f
    case StringForm(quote, pieces) => StringText(quote, pieces)
    case NumberForm(text, _) => text
    case BooleanForm(b) => if b then TRUE else FALSE
    case NullForm => NULL
    case ArrayForm(open, elements) => ['[' as int] + (open + ElementsText(elements))
    case DictionaryForm(open, pairs) => ['{' as int] + (open + PairsText(pairs))
  }

  /** The elements with commas between them, and the bracket that closes them. */
  function ElementsText(elements: Elements): Text {
    if elements.NoElements? then [']' as int]
    else FormText(elements.value) + (elements.after + AfterElement(elements))
  }

  function AfterElement(elements: Elements): Text
    requires elements.Element?
    decreases elements, 0
  {
    if elements.rest.NoElements? then [']' as int] else [',' as int] + (elements.gap + ElementsText(elements.rest))
  }

  /** A key, a colon and a value. */
  function PairText(pair: Pairs): Text
    requires pair.Pair?
    decreases pair, 0
  {
    StringText(pair.quote, pair.key) + (pair.before + ([':' as int] + (pair.gap + FormText(pair.value))))
  }

  function PairsText(pairs: Pairs): Text
    decreases pairs, 1
  {
    if pairs.NoPairs? then ['}' as int] else PairText(pairs) + (pairs.after + AfterPair(pairs))
  }

  function AfterPair(pairs: Pairs): Text
    requires pairs.Pair?
    decreases pairs, 0
  {
    if pairs.rest.NoPairs? then ['}' as int] else [',' as int] + (pairs.next + PairsText(pairs.rest))
  }

  function FormObject(f: Form): Object {
    match f
    case StringForm(_, pieces) => String(PiecesChars(pieces))
    case NumberForm(_, value) => value
    case BooleanForm(b) => Boolean(b)
    case NullForm => Null
    case ArrayForm(_, elements) => Array(ElementObjects(elements, []))
    case DictionaryForm(_, pairs) => Dictionary(PairObjects(pairs, map[]))
  }

  function ElementObjects(elements: Elements, acc: seq<Object>): seq<Object> {
    if elements.NoElements? then acc else ElementObjects(elements.rest, acc + [FormObject(elements.value)])
  }

  /** Of two values for a key the later one stays. */
  function PairObjects(pairs: Pairs, acc: map<Text, Object>): map<Text, Object> {
    if pairs.NoPairs? then acc else PairObjects(pairs.rest, acc[PiecesChars(pairs.key) := FormObject(pairs.value)])
  }

  /**
    Strings are made of pieces, and numbers are what the C library takes, no longer than the 50 units
    that are looked at.
   */
  ghost predicate IsForm(f: Form) {
    match f
    case StringForm(quote, pieces) => IsString(quote, pieces)
    case NumberForm(text, value) => 0 < |text| <= 50 && !IsBlank(text[0]) && StandsFor(text, value)
    case ArrayForm(_, elements) => AreElements(elements)
    case DictionaryForm(_, pairs) => ArePairs(pairs)
    case _ => true
  }

  ghost predicate AreElements(elements: Elements) {
    elements.Element? ==> IsForm(elements.value) && AreElements(elements.rest)
  }

  ghost predicate ArePairs(pairs: Pairs) {
    pairs.Pair? ==> IsString(pairs.quote, pairs.key) && IsForm(pairs.value) && ArePairs(pairs.rest)
  }

  /**
    A form that stands at `p` ends with its text: a number goes on for no longer, and a keyword is not
    the end of the content.
   */
  ghost predicate EndsThere(f: Form, c: Text, p: nat) {
    match f
    case NumberForm(text, _) => p <= |c| && IsLongestNumeral(Window(c, p), |text|)
    case BooleanForm(_) => p + |FormText(f)| < |c|
    case NullForm => p + |FormText(f)| < |c|
    case _ => true
  }

  // ----- blanks, separators and keywords

  /** Blanks are skipped up to what follows them. */
  lemma {:induction false} SkipsBlanks(c: Text, p: nat, blanks: Blanks)
    requires At(c, p, blanks)
    requires p + |blanks| == |c| || !IsBlank(c[p + |blanks|])
    ensures SkipBlank(c, p) == p + |blanks|
    decreases |blanks|
  {
    if |blanks| == 0 {
    } else {
      assert c[p] == blanks[0] by { AtHead(c, p, blanks); }
      assert blanks[0] in blanks;
      assert c[p + 1..p + |blanks|] == c[p..p + |blanks|][1..];
      SkipsBlanks(c, p + 1, blanks[1..]);
    }
  }

  /** The characters that end a key, an item or a member. */
  predicate IsSeparator(ch: UChar) {
    ch in [',' as int, ':' as int, ']' as int, '}' as int]
  }

  lemma NoKeyword(c: Text, p: nat, keyword: Text)
    requires p < |c| && |keyword| > 0 && c[p] != keyword[0]
    ensures !ScanKeyword(c, keyword, p)
  {
    if p + |keyword| < |c| {
      assert c[p..p + |keyword|][0] == c[p];
    }
  }

  lemma NoKeywords(c: Text, p: nat)
    requires p < |c| && c[p] != 't' as int && c[p] != 'f' as int && c[p] != 'n' as int
    ensures ParseBoolean(c, p) == None && ParseNull(c, p) == None
  {
    hide ScanKeyword;
    NoKeyword(c, p, TRUE);
    NoKeyword(c, p, FALSE);
    NoKeyword(c, p, NULL);
  }

  lemma NoContainers(c: Text, p: nat)
    requires p < |c| && c[p] != '[' as int && c[p] != '{' as int
    ensures ParseArray(c, p) == None && ParseDictionary(c, p) == None
  {
  }

  /** Blanks after an opening character or a separator lead to the text that follows them. */
  lemma LeadsTo(c: Text, p: nat, mark: UChar, gap: Blanks, rest: Text)
    requires At(c, p, [mark] + (gap + rest)) && |rest| > 0 && !IsBlank(rest[0])
    ensures ScanCharacter(c, mark, p)
    ensures SkipBlank(c, p + 1) == p + 1 + |gap| < |c|
    ensures At(c, p + 1 + |gap|, rest) && c[p + 1 + |gap|] == rest[0]
  {
    AtHead(c, p, [mark] + (gap + rest));
    AtSplits(c, p, [mark], gap + rest);
    AtSplits(c, p + 1, gap, rest);
    AtHead(c, p + 1 + |gap|, rest);
    hide At;
    SkipsBlanks(c, p + 1, gap);
  }

  // ----- steps of the parser

  lemma OnlyArray(c: Text, p: nat)
    requires p <= |c| && ParseArray(c, p).Some?
    ensures ParseValue(c, p) == ParseArray(c, p)
  {
    hide ParseElements, ParseBoolean, ParseNull, ParseFloat, ParseString;
  }

  lemma OnlyDictionary(c: Text, p: nat)
    requires p <= |c| && ParseDictionary(c, p).Some?
    ensures ParseValue(c, p) == ParseDictionary(c, p)
  {
    hide ParseMembers, ParseArray, ParseBoolean, ParseNull, ParseFloat, ParseString;
  }

  /** A value that is read, and what the separator behind it leads to. */
  lemma ElementRead(c: Text, p: nat, acc: seq<Object>, value: Object, q: nat)
    requires p <= |c| && ParseValue(c, p) == Some((value, q))
    ensures var e := SkipBlank(c, q);
            && (ScanCharacter(c, ']' as int, e) ==> ParseElements(c, p, acc) == Some((Array(acc + [value]), e + 1)))
            && (ScanCharacter(c, ',' as int, e) ==>
                  ParseElements(c, p, acc) == ParseElements(c, SkipBlank(c, e + 1), acc + [value]))
  {
    hide ParseValue, SkipBlank;
  }

  lemma MembersStep(c: Text, p: nat, acc: map<Text, Object>, key: Text, value: Object, q: nat)
    requires p <= |c| && ParseMember(c, p) == Some(((key, value), q)) && SkipBlank(c, q) < |c|
    ensures var e := SkipBlank(c, q);
            && (c[e] == '}' as int ==> ParseMembers(c, p, acc) == Some((Dictionary(acc[key := value]), e + 1)))
            && (c[e] == ',' as int ==>
                  ParseMembers(c, p, acc) == ParseMembers(c, SkipBlank(c, e + 1), acc[key := value]))
  {
    hide ParseMember;
  }

  // ----- where forms begin

  lemma NumberBegins(c: Text, p: nat)
    requires p <= |c| && ParseFloat(c, p).Some?
    ensures p < |c| && BeginsNumber(c[p])
    ensures c[p] == 'n' as int ==> p + 1 < |c| && c[p + 1] in ['a' as int, 'A' as int]
  {
    hide IsNumeral, StandsFor, ParseFloat;
    var (v, q) := ParseFloat(c, p).value;
    ParseFloatMeans(c, p, v, q);
    NumeralBegins(Window(c, p), q - p);
  }

  lemma StandsForNumber(t: Text, v: Object)
    requires StandsFor(t, v)
    ensures IsNumeral(t, |t|) && (v.Integer? || v.Double?)
  {
    hide IsNumeralFrom, IsInteger;
  }

  lemma FormBegins(f: Form)
    requires IsForm(f)
    ensures |FormText(f)| > 0 && !IsBlank(FormText(f)[0]) && !IsSeparator(FormText(f)[0])
  {
    hide StandsFor, IsNumeral, PiecesText, ElementsText, PairsText;
    if f.NumberForm? {
      StandsForNumber(f.text, f.value);
      NumeralBegins(f.text, |f.text|);
    }
  }

  // ----- one value

  /** A number is a value, since nothing else begins like one. */
  lemma OnlyNumber(c: Text, p: nat)
    requires p <= |c| && ParseFloat(c, p).Some? && !IsBlank(c[p])
    ensures ParseValue(c, p) == ParseFloat(c, p)
  {
    hide ParseDictionary, ParseArray, ParseBoolean, ParseNull, ParseFloat, ParseString, ScanKeyword;
    NumberBegins(c, p);
    NoContainers(c, p);
    NoBoolean(c, p);
    NullBegins(c, p);
  }

  lemma NoBoolean(c: Text, p: nat)
    requires p < |c| && c[p] != 't' as int && c[p] != 'f' as int
    ensures ParseBoolean(c, p) == None
  {
    hide ScanKeyword;
    NoKeyword(c, p, TRUE);
    NoKeyword(c, p, FALSE);
  }

  lemma NullBegins(c: Text, p: nat)
    ensures ParseNull(c, p).Some? ==> p + 1 < |c| && c[p] == 'n' as int && c[p + 1] == 'u' as int
  {
    if ScanKeyword(c, NULL, p) {
      assert c[p..p + 4][0] == 'n' as int && c[p..p + 4][1] == 'u' as int;
    }
  }

  lemma OnlyString(c: Text, p: nat)
    requires p < |c| && IsQuote(c[p])
    ensures ParseValue(c, p) == ParseString(c, p)
  {
    hide ParseDictionary, ParseArray, ParseBoolean, ParseNull, ParseFloat, ParseString;
    NoContainers(c, p);
    NoKeywords(c, p);
    if ParseFloat(c, p).Some? {
      NumberBegins(c, p);
    }
  }

  lemma KeywordIsRead(c: Text, p: nat, f: Form)
    requires f.BooleanForm? || f.NullForm?
    requires p <= |c| && At(c, p, FormText(f)) && EndsThere(f, c, p)
    ensures ParseValue(c, p) == Some((FormObject(f), p + |FormText(f)|))
  {
    hide ParseDictionary, ParseArray, ParseFloat, ParseString;
    AtHead(c, p, FormText(f));
    NoContainers(c, p);
    if !(f.BooleanForm? && f.b) {
      NoKeyword(c, p, TRUE);
    }
    if f.NullForm? {
      NoKeyword(c, p, FALSE);
    }
  }

  lemma NumberIsRead(c: Text, p: nat, text: Text, value: Object)
    requires p <= |c| && At(c, p, text) && IsForm(NumberForm(text, value)) && EndsThere(NumberForm(text, value), c, p)
    ensures ParseValue(c, p) == Some((value, p + |text|))
  {
    hide At, StandsFor, IsLongestNumeral, ParseValue, ParseFloat;
    AtHead(c, p, text);
    TextAt(c, p, text);
    ParseFloatMeans(c, p, value, p + |text|);
    OnlyNumber(c, p);
  }

  lemma TextAt(c: Text, p: nat, t: Text)
    requires At(c, p, t)
    ensures p + |t| <= |c| && c[p..p + |t|] == t
  {
  }

  /** A number before a blank or a separator goes on for no longer. */
  lemma NumberEnds(c: Text, p: nat, text: Text, value: Object)
    requires At(c, p, text) && IsForm(NumberForm(text, value))
    requires p + |text| < |c| && (IsBlank(c[p + |text|]) || IsSeparator(c[p + |text|]))
    ensures EndsThere(NumberForm(text, value), c, p)
  {
    var w, n := Window(c, p), |text|;
    assert w[..n] == text;
    assert n < |w| ==> w[n] == c[p + n] && !BelongsToNumber(w[n]);
    hide IsNumeral, IsLongestNumeral, StandsFor;
    StandsForNumber(text, value);
    SameNumerals(w, n);
    NumeralEnds(w, n);
  }

  /** Blanks and a separator after a form: it ends there, and the blanks lead to the separator. */
  lemma SeparatorEnds(c: Text, p: nat, f: Form, after: Blanks, rest: Text)
    requires IsForm(f) && At(c, p, FormText(f) + (after + rest)) && |rest| > 0 && IsSeparator(rest[0])
    ensures var q := p + |FormText(f)|;
            && At(c, p, FormText(f)) && EndsThere(f, c, p)
            && SkipBlank(c, q) == q + |after| < |c|
            && At(c, q + |after|, rest) && c[q + |after|] == rest[0]
  {
    hide At, FormText, IsForm, EndsThere, SkipBlank, IsBlank, IsSeparator;
    var q := p + |FormText(f)|;
    AtSplits(c, p, FormText(f), after + rest);
    BlanksAndMark(c, q, after, rest);
    FormEnds(c, p, f);
  }

  /** Blanks that lead to a separator. */
  lemma BlanksAndMark(c: Text, q: nat, after: Blanks, rest: Text)
    requires At(c, q, after + rest) && |rest| > 0 && IsSeparator(rest[0])
    ensures q < |c| && (IsBlank(c[q]) || IsSeparator(c[q]))
    ensures SkipBlank(c, q) == q + |after| < |c|
    ensures At(c, q + |after|, rest) && c[q + |after|] == rest[0]
  {
    hide At, SkipBlank;
    AtHead(c, q, after + rest);
    AtSplits(c, q, after, rest);
    AtHead(c, q + |after|, rest);
    SkipsBlanks(c, q, after);
    assert |after| > 0 ==> after[0] in after;
  }

  lemma FormEnds(c: Text, p: nat, f: Form)
    requires IsForm(f) && At(c, p, FormText(f))
    requires var q := p + |FormText(f)|; q < |c| && (IsBlank(c[q]) || IsSeparator(c[q]))
    ensures EndsThere(f, c, p)
  {
    hide At, FormText, StandsFor, IsLongestNumeral, IsBlank, IsSeparator;
    if f.NumberForm? {
      NumberTextIs(f);
      NumberEnds(c, p, f.text, f.value);
    }
  }

  lemma NumberTextIs(f: Form)
    requires f.NumberForm?
    ensures FormText(f) == f.text
  {
  }

  // ----- every text of a form is read

  /** A form is read where its text stands and ends, to the object that it stands for. */
  lemma {:induction false} FormIsRead(c: Text, p: nat, f: Form)
    requires p <= |c| && IsForm(f) && At(c, p, FormText(f)) && EndsThere(f, c, p)
    ensures ParseValue(c, p) == Some((FormObject(f), p + |FormText(f)|))
    decreases f, 0
  {
    hide At, ParseValue, ParseString, StringText, ElementsText, PairsText, ElementObjects, PairObjects;
    hide AreElements, ArePairs, IsString, StandsFor, IsLongestNumeral, PiecesChars;
    match f
    case StringForm(quote, pieces) =>
      StringIsRead(c, p, quote, pieces);
      StringBegins(quote, pieces);
      AtHead(c, p, FormText(f));
      OnlyString(c, p);
    case NumberForm(text, value) => NumberIsRead(c, p, text, value);
    case BooleanForm(_) => KeywordIsRead(c, p, f);
    case NullForm => KeywordIsRead(c, p, f);
    case ArrayForm(open, elements) => ArrayIsRead(c, p, open, elements);
    case DictionaryForm(open, pairs) => DictionaryIsRead(c, p, open, pairs);
  }

  lemma StringBegins(quote: UChar, pieces: seq<Piece>)
    requires IsString(quote, pieces)
    ensures |StringText(quote, pieces)| > 0 && StringText(quote, pieces)[0] == quote && IsQuote(quote)
    ensures !IsBlank(quote) && !IsSeparator(quote)
  {
    hide PiecesText;
  }

  lemma ElementsBegin(elements: Elements)
    requires AreElements(elements)
    ensures |ElementsText(elements)| > 0 && !IsBlank(ElementsText(elements)[0])
    ensures elements.NoElements? <==> ElementsText(elements)[0] == ']' as int
    ensures elements.NoElements? ==> ElementsText(elements) == [']' as int]
  {
    hide FormText, IsForm;
    if elements.Element? {
      FormBegins(elements.value);
    }
  }

  lemma NothingThere()
    ensures ElementObjects(NoElements, []) == [] && PairObjects(NoPairs, map[]) == map[]
  {
  }

  lemma {:induction false} ArrayIsRead(c: Text, p: nat, open: Blanks, elements: Elements)
    requires p <= |c| && AreElements(elements) && At(c, p, FormText(ArrayForm(open, elements)))
    ensures ParseValue(c, p) ==
            Some((Array(ElementObjects(elements, [])), p + |FormText(ArrayForm(open, elements))|))
    decreases elements, 2
  {
    hide At, ParseValue, ParseElements, ElementsText, ElementObjects, AreElements, IsBlank, SkipBlank;
    ElementsBegin(elements);
    LeadsTo(c, p, '[' as int, open, ElementsText(elements));
    if elements.Element? {
      ElementsAreRead(c, p + 1 + |open|, elements, []);
    } else {
      NothingThere();
    }
    OnlyArray(c, p);
  }

  lemma ElementsUnfold(elements: Elements, acc: seq<Object>)
    requires elements.Element? && AreElements(elements)
    ensures IsForm(elements.value) && AreElements(elements.rest)
    ensures ElementObjects(elements, acc) == ElementObjects(elements.rest, acc + [FormObject(elements.value)])
    ensures ElementObjects(NoElements, acc) == acc
    ensures ElementsText(elements) == FormText(elements.value) + (elements.after + AfterElement(elements))
    ensures |AfterElement(elements)| > 0 && IsSeparator(AfterElement(elements)[0])
    ensures elements.rest.NoElements? ==> AfterElement(elements) == [']' as int]
    ensures elements.rest.Element? ==>
              AfterElement(elements) == [',' as int] + (elements.gap + ElementsText(elements.rest))
  {
    hide FormText, FormObject, IsForm;
  }

  /** Elements are read one after another onto those before them. */
  lemma {:induction false} ElementsAreRead(c: Text, p: nat, elements: Elements, acc: seq<Object>)
    requires p <= |c| && elements.Element? && AreElements(elements) && At(c, p, ElementsText(elements))
    ensures ParseElements(c, p, acc) ==
            Some((Array(ElementObjects(elements, acc)), p + |ElementsText(elements)|))
    decreases elements, 1
  {
    hide At, FormText, FormObject, IsForm, EndsThere, ElementsText, AfterElement, ElementObjects, AreElements;
    hide ParseValue, ParseElements, SkipBlank, IsSeparator, IsBlank;
    var v, rest := elements.value, elements.rest;
    ElementsUnfold(elements, acc);
    SeparatorEnds(c, p, v, elements.after, AfterElement(elements));
    FormIsRead(c, p, v);
    ElementRead(c, p, acc, FormObject(v), p + |FormText(v)|);
    if rest.NoElements? {
      ElementsEnd(acc + [FormObject(v)], rest);
    } else {
      var e := p + |FormText(v)| + |elements.after|;
      ElementsBegin(rest);
      LeadsTo(c, e, ',' as int, elements.gap, ElementsText(rest));
      assert ParseElements(c, p, acc) == ParseElements(c, e + 1 + |elements.gap|, acc + [FormObject(v)]);
      ElementsAreRead(c, e + 1 + |elements.gap|, rest, acc + [FormObject(v)]);
    }
  }

  lemma ElementsEnd(acc: seq<Object>, elements: Elements)
    requires elements.NoElements?
    ensures ElementObjects(elements, acc) == acc
  {
  }

  lemma PairsBegin(pairs: Pairs)
    requires ArePairs(pairs)
    ensures |PairsText(pairs)| > 0 && !IsBlank(PairsText(pairs)[0])
    ensures pairs.NoPairs? <==> PairsText(pairs)[0] == '}' as int
    ensures pairs.NoPairs? ==> PairsText(pairs) == ['}' as int]
  {
    hide FormText, IsForm, StringText, IsString;
    if pairs.Pair? {
      StringBegins(pairs.quote, pairs.key);
    }
  }

  lemma {:induction false} DictionaryIsRead(c: Text, p: nat, open: Blanks, pairs: Pairs)
    requires p <= |c| && ArePairs(pairs) && At(c, p, FormText(DictionaryForm(open, pairs)))
    ensures ParseValue(c, p) ==
            Some((Dictionary(PairObjects(pairs, map[])), p + |FormText(DictionaryForm(open, pairs))|))
    decreases pairs, 2
  {
    hide At, ParseValue, ParseMembers, PairsText, PairObjects, ArePairs, IsBlank, SkipBlank;
    PairsBegin(pairs);
    LeadsTo(c, p, '{' as int, open, PairsText(pairs));
    if pairs.Pair? {
      PairsAreRead(c, p + 1 + |open|, pairs, map[]);
    } else {
      NothingThere();
    }
    OnlyDictionary(c, p);
  }

  lemma PairsUnfold(pairs: Pairs, acc: map<Text, Object>)
    requires pairs.Pair? && ArePairs(pairs)
    ensures ArePairs(pairs.rest)
    ensures PairObjects(pairs, acc) == PairObjects(pairs.rest, acc[PiecesChars(pairs.key) := FormObject(pairs.value)])
    ensures PairObjects(NoPairs, acc) == acc
    ensures PairsText(pairs) == PairText(pairs) + (pairs.after + AfterPair(pairs))
    ensures |AfterPair(pairs)| > 0 && IsSeparator(AfterPair(pairs)[0])
    ensures pairs.rest.NoPairs? ==> AfterPair(pairs) == ['}' as int]
    ensures pairs.rest.Pair? ==> AfterPair(pairs) == [',' as int] + (pairs.next + PairsText(pairs.rest))
  {
    hide FormText, FormObject, IsForm, PairText, IsString;
  }

  /** A key is read, with the colon and the blanks around it. */
  lemma KeyIsRead(c: Text, p: nat, pair: Pairs, rest: Text)
    requires p <= |c| && pair.Pair? && ArePairs(pair)
    requires At(c, p, PairText(pair) + rest)
    ensures var v := p + |PairText(pair)| - |FormText(pair.value)|;
            p <= v <= |c| && ParseKey(c, p) == Some((PiecesChars(pair.key), v)) && At(c, v, FormText(pair.value) + rest)
  {
    hide At, FormText, FormObject, IsForm, StringText, IsString, PiecesChars, ParseValue, ParseString, SkipBlank;
    hide IsBlank;
    var key, v := StringForm(pair.quote, pair.key), pair.value;
    KeyIsForm(pair);
    var more := pair.gap + FormText(v);
    AtSplits(c, p, PairText(pair), rest);
    SeparatorEnds(c, p, key, pair.before, [':' as int] + more);
    StringBegins(pair.quote, pair.key);
    AtHead(c, p, FormText(key));
    OnlyString(c, p);
    StringIsRead(c, p, pair.quote, pair.key);
    FormBegins(v);
    var e := p + |FormText(key)| + |pair.before|;
    LeadsTo(c, e, ':' as int, pair.gap, FormText(v));
    AtJoins(c, e + 1 + |pair.gap|, FormText(v), rest);
  }

  /** A key and a value are read. */
  lemma {:induction false} PairIsRead(c: Text, p: nat, pair: Pairs, rest: Text)
    requires p <= |c| && pair.Pair? && ArePairs(pair)
    requires At(c, p, PairText(pair) + (pair.after + rest)) && |rest| > 0 && IsSeparator(rest[0])
    ensures var q := p + |PairText(pair)|;
            && ParseMember(c, p) == Some(((PiecesChars(pair.key), FormObject(pair.value)), q))
            && SkipBlank(c, q) == q + |pair.after| < |c|
            && At(c, q + |pair.after|, rest) && c[q + |pair.after|] == rest[0]
    decreases pair, 0
  {
    hide At, FormText, FormObject, IsForm, EndsThere, IsString, PiecesChars, ParseKey, ParseValue, SkipBlank, PairText;
    KeyIsForm(pair);
    KeyIsRead(c, p, pair, pair.after + rest);
    var v := p + |PairText(pair)| - |FormText(pair.value)|;
    SeparatorEnds(c, v, pair.value, pair.after, rest);
    FormIsRead(c, v, pair.value);
  }

  lemma KeyIsForm(pair: Pairs)
    requires pair.Pair? && ArePairs(pair)
    ensures var key := StringForm(pair.quote, pair.key);
            && IsForm(key) && IsForm(pair.value)
            && FormText(key) == StringText(pair.quote, pair.key) && FormObject(key) == String(PiecesChars(pair.key))
  {
  }

  /** Pairs are read one after another into the entries before them. */
  lemma {:induction false} PairsAreRead(c: Text, p: nat, pairs: Pairs, acc: map<Text, Object>)
    requires p <= |c| && pairs.Pair? && ArePairs(pairs) && At(c, p, PairsText(pairs))
    ensures ParseMembers(c, p, acc) ==
            Some((Dictionary(PairObjects(pairs, acc)), p + |PairsText(pairs)|))
    decreases pairs, 1
  {
    hide At, FormObject, PairText, PairsText, AfterPair, PairObjects, ArePairs, PiecesChars;
    hide ParseMember, ParseMembers, SkipBlank, IsSeparator, IsBlank;
    var rest := pairs.rest;
    PairsUnfold(pairs, acc);
    PairIsRead(c, p, pairs, AfterPair(pairs));
    var q := p + |PairText(pairs)|;
    var more := acc[PiecesChars(pairs.key) := FormObject(pairs.value)];
    MembersStep(c, p, acc, PiecesChars(pairs.key), FormObject(pairs.value), q);
    if rest.NoPairs? {
      PairsEnd(more, rest);
    } else {
      PairsBegin(rest);
      LeadsTo(c, q + |pairs.after|, ',' as int, pairs.next, PairsText(rest));
      PairsAreRead(c, q + |pairs.after| + 1 + |pairs.next|, rest, more);
    }
  }

  lemma PairsEnd(acc: map<Text, Object>, pairs: Pairs)
    requires pairs.NoPairs?
    ensures PairObjects(pairs, acc) == acc
  {
  }

  // ----- and nothing else is read

  lemma {:induction false} SkippedIs(c: Text, p: nat)
    requires p <= |c|
    ensures var q := SkipBlank(c, p);
            && (forall k :: p <= k < q ==> IsBlank(c[k])) && (q < |c| ==> !IsBlank(c[q]))
            && SkipBlank(c, q) == q
    decreases |c| - p
  {
    if p < |c| && IsBlank(c[p]) {
      SkippedIs(c, p + 1);
    }
  }

  /** The blanks that are skipped. */
  ghost function Skipped(c: Text, p: nat): (blanks: Blanks)
    requires p <= |c|
    ensures |blanks| == SkipBlank(c, p) - p && At(c, p, blanks)
  {
    SkippedIs(c, p);
    c[p..SkipBlank(c, p)]
  }

  /** The character at `p`, followed by blanks and by more. */
  lemma MarkAndMore(c: Text, p: nat, mark: UChar, gap: Blanks, more: Text)
    requires p < |c| && c[p] == mark && At(c, p + 1, gap) && At(c, p + 1 + |gap|, more)
    ensures At(c, p, [mark] + (gap + more))
  {
    hide At;
    AtJoins(c, p + 1, gap, more);
    AtSlice(c, p, p + 1);
    assert c[p..p + 1] == [mark];
    AtJoins(c, p, [mark], gap + more);
  }

  /** Three texts one after another. */
  lemma AtThree(c: Text, p: nat, a: Text, b: Text, d: Text)
    requires At(c, p, a) && At(c, p + |a|, b) && At(c, p + |a| + |b|, d)
    ensures At(c, p, a + (b + d)) && |a + (b + d)| == |a| + |b| + |d|
  {
    hide At;
    AtJoins(c, p + |a|, b, d);
    AtJoins(c, p, a, b + d);
  }

  lemma OneMark(c: Text, p: nat)
    requires p < |c|
    ensures At(c, p, [c[p]])
  {
  }

  lemma NumberIsForm(c: Text, p: nat) returns (f: Form)
    requires p <= |c| && ParseFloat(c, p).Some? && !(p < |c| && IsBlank(c[p]))
    ensures IsForm(f) && At(c, p, FormText(f)) && EndsThere(f, c, p)
    ensures ParseFloat(c, p).value == (FormObject(f), p + |FormText(f)|)
  {
    hide StandsFor, IsLongestNumeral, At, ParseFloat;
    var (v, q) := ParseFloat(c, p).value;
    NumberBegins(c, p);
    ParseFloatMeans(c, p, v, q);
    f := NumberForm(c[p..q], v);
    AtSlice(c, p, q);
  }

  lemma KeywordIsForm(c: Text, p: nat) returns (f: Form)
    requires p <= |c| && (ParseBoolean(c, p).Some? || ParseNull(c, p).Some?)
    ensures IsForm(f) && At(c, p, FormText(f)) && EndsThere(f, c, p)
    ensures OrElse(ParseBoolean(c, p), ParseNull(c, p)) == Some((FormObject(f), p + |FormText(f)|))
  {
    if ScanKeyword(c, TRUE, p) {
      f := BooleanForm(true);
    } else if ScanKeyword(c, FALSE, p) {
      f := BooleanForm(false);
    } else {
      f := NullForm;
    }
  }

  lemma StringIsForm(c: Text, p: nat) returns (f: Form)
    requires ParseString(c, p).Some?
    ensures IsForm(f) && At(c, p, FormText(f)) && EndsThere(f, c, p)
    ensures ParseString(c, p).value == (FormObject(f), p + |FormText(f)|)
  {
    hide IsString, StringText, PiecesChars, ParseString, At;
    var quote, pieces := ReadIsString(c, p);
    f := StringForm(quote, pieces);
  }

  /** What is read behind blanks is the text of a form, up to where the form ends. */
  lemma {:induction false} ValueIsForm(c: Text, p: nat) returns (f: Form)
    requires p <= |c| && ParseValue(c, p).Some?
    ensures var s := SkipBlank(c, p);
            && IsForm(f) && At(c, s, FormText(f)) && EndsThere(f, c, s)
            && ParseValue(c, p) == Some((FormObject(f), s + |FormText(f)|))
    decreases |c| - p, 2
  {
    hide IsForm, FormText, FormObject, EndsThere, At, SkipBlank;
    hide ParseDictionary, ParseArray, ParseBoolean, ParseNull, ParseFloat, ParseString;
    var s := SkipBlank(c, p);
    SkippedIs(c, p);
    if ParseDictionary(c, s).Some? {
      f := DictionaryIsForm(c, s);
    } else if ParseArray(c, s).Some? {
      f := ArrayIsForm(c, s);
    } else if ParseBoolean(c, s).Some? || ParseNull(c, s).Some? {
      f := KeywordIsForm(c, s);
    } else if ParseFloat(c, s).Some? {
      f := NumberIsForm(c, s);
    } else {
      f := StringIsForm(c, s);
    }
  }

  lemma ArrayText(open: Blanks, elements: Elements)
    ensures var f := ArrayForm(open, elements);
            && FormText(f) == ['[' as int] + (open + ElementsText(elements))
            && FormObject(f) == Array(ElementObjects(elements, []))
            && (IsForm(f) <==> AreElements(elements)) && (forall c, p :: EndsThere(f, c, p))
  {
  }

  lemma {:induction false} ArrayIsForm(c: Text, p: nat) returns (f: Form)
    requires p <= |c| && ParseArray(c, p).Some?
    ensures IsForm(f) && At(c, p, FormText(f)) && EndsThere(f, c, p)
    ensures ParseArray(c, p).value == (FormObject(f), p + |FormText(f)|)
    decreases |c| - p, 1
  {
    hide IsForm, FormText, FormObject, EndsThere, At, SkipBlank, ElementsText, ElementObjects, AreElements;
    hide ParseElements;
    var q, open := SkipBlank(c, p + 1), Skipped(c, p + 1);
    SkippedIs(c, p + 1);
    var elements: Elements;
    if ScanCharacter(c, ']' as int, q) {
      elements := NoElements;
      NothingThere();
      ElementsStop();
      OneMark(c, q);
    } else {
      elements := ElementsAreForm(c, q, []);
    }
    f := ArrayForm(open, elements);
    ArrayText(open, elements);
    MarkAndMore(c, p, '[' as int, open, ElementsText(elements));
  }

  lemma ElementsStop()
    ensures AreElements(NoElements) && ElementsText(NoElements) == [']' as int]
  {
  }

  /** How reading an array goes on behind an element. */
  lemma ElementsGoOn(c: Text, p: nat, acc: seq<Object>)
    requires p <= |c| && ParseElements(c, p, acc).Some?
    ensures ParseValue(c, p).Some?
    ensures var (value, q) := ParseValue(c, p).value;
            var e := SkipBlank(c, q);
            && p < q <= e < |c|
            && (if c[e] == ',' as int then
                  ParseElements(c, p, acc) == ParseElements(c, SkipBlank(c, e + 1), acc + [value])
                else
                  c[e] == ']' as int && ParseElements(c, p, acc) == Some((Array(acc + [value]), e + 1)))
  {
    hide ParseValue, SkipBlank;
  }

  /** What is read of an array is made of elements with a comma between each two, up to the bracket. */
  lemma {:induction false} ElementsAreForm(c: Text, p: nat, acc: seq<Object>) returns (elements: Elements)
    requires p <= |c| && SkipBlank(c, p) == p && ParseElements(c, p, acc).Some?
    ensures elements.Element? && AreElements(elements) && At(c, p, ElementsText(elements))
    ensures ParseElements(c, p, acc).value == (Array(ElementObjects(elements, acc)), p + |ElementsText(elements)|)
    decreases |c| - p, 3
  {
    hide IsForm, FormText, FormObject, EndsThere, At, SkipBlank, ElementsText, ElementObjects, AreElements, ParseValue;
    hide AfterElement, ParseElements;
    ElementsGoOn(c, p, acc);
    var f := ValueIsForm(c, p);
    var (value, q) := ParseValue(c, p).value;
    var e, after := SkipBlank(c, q), Skipped(c, q);
    if c[e] == ',' as int {
      var g, gap := SkipBlank(c, e + 1), Skipped(c, e + 1);
      SkippedIs(c, e + 1);
      var rest := ElementsAreForm(c, g, acc + [value]);
      elements := Element(f, after, gap, rest);
      MarkAndMore(c, e, ',' as int, gap, ElementsText(rest));
    } else {
      elements := Element(f, after, [], NoElements);
      ElementsStop();
      OneMark(c, e);
    }
    ElementsFold(elements, acc);
    AtThree(c, p, FormText(f), after, AfterElement(elements));
  }

  lemma ElementsFold(elements: Elements, acc: seq<Object>)
    requires elements.Element? && IsForm(elements.value) && AreElements(elements.rest)
    ensures AreElements(elements)
    ensures ElementObjects(elements, acc) == ElementObjects(elements.rest, acc + [FormObject(elements.value)])
    ensures elements.rest == NoElements ==>
              ElementObjects(elements, acc) == acc + [FormObject(elements.value)]
              && AfterElement(elements) == [']' as int]
    ensures elements.rest.Element? ==>
              AfterElement(elements) == [',' as int] + (elements.gap + ElementsText(elements.rest))
    ensures ElementsText(elements) == FormText(elements.value) + (elements.after + AfterElement(elements))
  {
    hide IsForm, FormText, FormObject;
  }

  lemma DictionaryText(open: Blanks, pairs: Pairs)
    ensures var f := DictionaryForm(open, pairs);
            && FormText(f) == ['{' as int] + (open + PairsText(pairs))
            && FormObject(f) == Dictionary(PairObjects(pairs, map[]))
            && (IsForm(f) <==> ArePairs(pairs)) && (forall c, p :: EndsThere(f, c, p))
  {
  }

  lemma {:induction false} DictionaryIsForm(c: Text, p: nat) returns (f: Form)
    requires p <= |c| && ParseDictionary(c, p).Some?
    ensures IsForm(f) && At(c, p, FormText(f)) && EndsThere(f, c, p)
    ensures ParseDictionary(c, p).value == (FormObject(f), p + |FormText(f)|)
    decreases |c| - p, 1
  {
    hide IsForm, FormText, FormObject, EndsThere, At, SkipBlank, PairsText, PairObjects, ArePairs, ParseMembers;
    var q, open := SkipBlank(c, p + 1), Skipped(c, p + 1);
    SkippedIs(c, p + 1);
    var pairs: Pairs;
    if ScanCharacter(c, '}' as int, q) {
      pairs := NoPairs;
      NothingThere();
      PairsStop();
      OneMark(c, q);
    } else {
      pairs := PairsAreForm(c, q, map[]);
    }
    f := DictionaryForm(open, pairs);
    DictionaryText(open, pairs);
    MarkAndMore(c, p, '{' as int, open, PairsText(pairs));
  }

  lemma PairsStop()
    ensures ArePairs(NoPairs) && PairsText(NoPairs) == ['}' as int]
  {
  }

  lemma OnlyStringsAreStrings(f: Form)
    requires IsForm(f) && FormObject(f).String?
    ensures f.StringForm? && IsString(f.quote, f.pieces)
    ensures FormText(f) == StringText(f.quote, f.pieces) && FormObject(f) == String(PiecesChars(f.pieces))
  {
    hide StandsFor, IsString;
    if f.NumberForm? {
      StandsForNumber(f.text, f.value);
    }
  }

  /** What is read for a key and a value is a string, a colon and a form. */
  lemma {:induction false} PairIsForm(c: Text, p: nat) returns (pair: Pairs)
    requires p <= |c| && SkipBlank(c, p) == p && ParseMember(c, p).Some?
    ensures pair.Pair? && IsString(pair.quote, pair.key) && IsForm(pair.value) && At(c, p, PairText(pair))
    ensures ParseMember(c, p).value == ((PiecesChars(pair.key), FormObject(pair.value)), p + |PairText(pair)|)
    decreases |c| - p, 4
  {
    hide IsForm, FormText, FormObject, EndsThere, At, SkipBlank, ParseValue, StringText, IsString, PiecesChars;
    hide ParseKey;
    KeyGoesOn(c, p);
    var k := ValueIsForm(c, p);
    OnlyStringsAreStrings(k);
    var q := ParseValue(c, p).value.1;
    var e, before := SkipBlank(c, q), Skipped(c, q);
    var s, gap := SkipBlank(c, e + 1), Skipped(c, e + 1);
    SkippedIs(c, e + 1);
    var v := ValueIsForm(c, s);
    pair := Pair(k.quote, k.pieces, before, gap, v, [], [], NoPairs);
    MarkAndMore(c, e, ':' as int, gap, FormText(v));
    AtThree(c, p, FormText(k), before, [':' as int] + (gap + FormText(v)));
  }

  /** How reading a pair goes on behind its key. */
  lemma KeyGoesOn(c: Text, p: nat)
    requires p <= |c| && ParseMember(c, p).Some?
    ensures ParseValue(c, p).Some? && ParseValue(c, p).value.0.String?
    ensures var (key, q) := ParseValue(c, p).value;
            var e := SkipBlank(c, q);
            && p < q <= e < |c| && c[e] == ':' as int
            && ParseValue(c, SkipBlank(c, e + 1)).Some?
            && var (value, r) := ParseValue(c, SkipBlank(c, e + 1)).value;
               ParseMember(c, p) == Some(((key.chars, value), r))
  {
    hide ParseValue, SkipBlank;
  }

  /** How reading a dictionary goes on behind a pair. */
  lemma PairsGoOn(c: Text, p: nat, acc: map<Text, Object>)
    requires p <= |c| && ParseMembers(c, p, acc).Some?
    ensures ParseMember(c, p).Some?
    ensures var ((key, value), q) := ParseMember(c, p).value;
            var e, more := SkipBlank(c, q), acc[key := value];
            && p < q <= e < |c|
            && (if c[e] == ',' as int then
                  ParseMembers(c, p, acc) == ParseMembers(c, SkipBlank(c, e + 1), more)
                else
                  c[e] == '}' as int && ParseMembers(c, p, acc) == Some((Dictionary(more), e + 1)))
  {
    hide ParseMember, SkipBlank;
  }

  /** What is read of a dictionary is made of pairs with a comma between each two, up to the brace. */
  lemma {:induction false} PairsAreForm(c: Text, p: nat, acc: map<Text, Object>) returns (pairs: Pairs)
    requires p <= |c| && SkipBlank(c, p) == p && ParseMembers(c, p, acc).Some?
    ensures pairs.Pair? && ArePairs(pairs) && At(c, p, PairsText(pairs))
    ensures ParseMembers(c, p, acc).value == (Dictionary(PairObjects(pairs, acc)), p + |PairsText(pairs)|)
    decreases |c| - p, 5
  {
    hide IsForm, FormObject, At, SkipBlank, PairText, PairsText, PairObjects, ArePairs, ParseMember, AfterPair;
    hide IsString, PiecesChars, ParseMembers;
    PairsGoOn(c, p, acc);
    var one := PairIsForm(c, p);
    var ((key, value), q) := ParseMember(c, p).value;
    var e, after := SkipBlank(c, q), Skipped(c, q);
    if c[e] == ',' as int {
      var g, next := SkipBlank(c, e + 1), Skipped(c, e + 1);
      SkippedIs(c, e + 1);
      var rest := PairsAreForm(c, g, acc[key := value]);
      pairs := one.(after := after, next := next, rest := rest);
      MarkAndMore(c, e, ',' as int, next, PairsText(rest));
    } else {
      pairs := one.(after := after, rest := NoPairs);
      PairsStop();
      OneMark(c, e);
    }
    PairsFold(pairs, one, acc);
    AtThree(c, p, PairText(pairs), after, AfterPair(pairs));
  }

  lemma PairsFold(pairs: Pairs, one: Pairs, acc: map<Text, Object>)
    requires pairs.Pair? && IsString(pairs.quote, pairs.key) && IsForm(pairs.value) && ArePairs(pairs.rest)
    requires one.Pair? && pairs == one.(after := pairs.after, next := pairs.next, rest := pairs.rest)
    ensures ArePairs(pairs) && PairText(pairs) == PairText(one)
    ensures var more := acc[PiecesChars(pairs.key) := FormObject(pairs.value)];
            && PairObjects(pairs, acc) == PairObjects(pairs.rest, more)
            && (pairs.rest == NoPairs ==> PairObjects(pairs, acc) == more && AfterPair(pairs) == ['}' as int])
    ensures pairs.rest.Pair? ==> AfterPair(pairs) == [',' as int] + (pairs.next + PairsText(pairs.rest))
    ensures PairsText(pairs) == PairText(pairs) + (pairs.after + AfterPair(pairs))
  {
    hide IsForm, FormText, FormObject, StringText, IsString;
  }

  /** Between blanks and what follows, a value is read exactly where a form stands and ends, and to its object. */
  lemma ReadsExactlyForms(c: Text, p: nat, v: Object, q: nat)
    requires p <= |c|
    ensures ParseValue(c, p) == Some((v, q)) <==>
            exists f ::
              && IsForm(f) && At(c, SkipBlank(c, p), FormText(f)) && EndsThere(f, c, SkipBlank(c, p))
              && v == FormObject(f) && q == SkipBlank(c, p) + |FormText(f)|
  {
    hide IsForm, At, FormText, EndsThere, FormObject, ParseValue, SkipBlank;
    var s := SkipBlank(c, p);
    SkippedIs(c, p);
    BlanksDoNotMatter(c, p);
    if ParseValue(c, p).Some? {
      var f := ValueIsForm(c, p);
    }
    forall f | IsForm(f) && At(c, s, FormText(f)) && EndsThere(f, c, s)
      ensures ParseValue(c, p) == Some((FormObject(f), s + |FormText(f)|))
    {
      FormIsRead(c, s, f);
    }
  }

  /**
    So a whole text yields an object exactly if it begins, behind blanks, with a form that ends there
    and stands for it.
   */
  lemma TextYieldsIff(c: Text, v: Object)
    ensures ObjectFromString(c) == Some(v) <==>
            exists f ::
              && IsForm(f) && At(c, SkipBlank(c, 0), FormText(f)) && EndsThere(f, c, SkipBlank(c, 0))
              && v == FormObject(f)
  {
    hide IsForm, At, FormText, EndsThere, FormObject, ParseValue, SkipBlank;
    if ParseValue(c, 0).Some? {
      ReadsExactlyForms(c, 0, ParseValue(c, 0).value.0, ParseValue(c, 0).value.1);
    }
    forall f | IsForm(f) && At(c, SkipBlank(c, 0), FormText(f)) && EndsThere(f, c, SkipBlank(c, 0))
      ensures ObjectFromString(c) == Some(FormObject(f))
    {
      ReadsExactlyForms(c, 0, FormObject(f), SkipBlank(c, 0) + |FormText(f)|);
    }
  }

  lemma BlanksDoNotMatter(c: Text, p: nat)
    requires p <= |c|
    ensures ParseValue(c, p) == ParseValue(c, SkipBlank(c, p))
  {
    SkippedIs(c, p);
    hide SkipBlank, ParseDictionary, ParseArray, ParseBoolean, ParseNull, ParseFloat, ParseString;
  }
}

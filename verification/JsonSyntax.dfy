/**
  The texts and objects of MCJSONParser.cpp, and what its parse methods make of a text, as functions
  of the content and a position.
 */
module JsonSyntax {
  import opened Basics

  /** A UTF-16 unit. */
  type UChar = u: int | 0 <= u < 0x1_0000

  type Text = seq<UChar>

  /** The C types of integers; `long` has 64 bits, and a plain `char` may be signed or not. */
  datatype CType =
    | CChar | UnsignedChar | CShort | UnsignedShort | CInt | UnsignedInt
    | CLong | UnsignedLong | LongLong | UnsignedLongLong

  /** Whether a number is one of the type. */
  predicate Fits(n: int, kind: CType) {
    match kind
    case CChar => -0x80 <= n <= 0xFF
    case UnsignedChar => 0 <= n <= 0xFF
    case CShort => -0x8000 <= n <= 0x7FFF
    case UnsignedShort => 0 <= n <= 0xFFFF
    case CInt => -0x8000_0000 <= n <= 0x7FFF_FFFF
    case UnsignedInt => 0 <= n <= 0xFFFF_FFFF
    case CLong => -INT64_MAX - 1 <= n <= INT64_MAX
    case LongLong => -INT64_MAX - 1 <= n <= INT64_MAX
    case _ => 0 <= n <= 2 * INT64_MAX + 1
  }

  /** The objects that can be printed; a double is known by the text that `strtod` accepted. */
  datatype Object =
    | String(chars: Text)
    | Integer(n: int, kind: CType)
    | Double(text: Text)
    | Boolean(b: bool)
    | Null
    | Array(items: seq<Object>)
    | Dictionary(entries: map<Text, Object>)

  /** An object, with the position after it. */
  type Parsed<+T> = Option<(T, nat)>

  // ----- blanks, characters and keywords

  predicate IsBlank(ch: int) {
    ch == 0x20 || ch == 0x09 || ch == 0x0D || ch == 0x0A
  }

  function SkipBlank(c: Text, p: nat): (q: nat)
    ensures p <= q && (p <= |c| ==> q <= |c|)
    decreases |c| - p
  {
    if p < |c| && IsBlank(c[p]) then SkipBlank(c, p + 1) else p
  }

  predicate ScanCharacter(c: Text, ch: UChar, p: nat) {
    p < |c| && c[p] == ch
  }

  const TRUE: Text := ['t' as int, 'r' as int, 'u' as int, 'e' as int]
  const FALSE: Text := ['f' as int, 'a' as int, 'l' as int, 's' as int, 'e' as int]
  const NULL: Text := ['n' as int, 'u' as int, 'l' as int, 'l' as int]

  /** A keyword counts only when something follows it. */
  predicate ScanKeyword(c: Text, keyword: Text, p: nat) {
    p + |keyword| < |c| && c[p..p + |keyword|] == keyword
  }

  // ----- strings

  function HexToInt(ch: UChar): (n: int)
    ensures -1 <= n < 16
  {
    if '0' as int <= ch <= '9' as int then ch - '0' as int
    else if 'a' as int <= ch <= 'f' as int then ch - 'a' as int + 10
    else if 'A' as int <= ch <= 'F' as int then ch - 'A' as int + 10
    else -1
  }

  /** Up to `count` more hexadecimal digits after `value`; nothing if the content ends before. */
  function HexDigits(c: Text, p: nat, count: nat, value: UChar): (r: Parsed<UChar>)
    ensures r.Some? ==> p <= r.value.1 && (p <= |c| ==> r.value.1 <= |c|)
    decreases count
  {
    if count == 0 then Some((value, p))
    else if p >= |c| then None
    else if HexToInt(c[p]) == -1 then Some((value, p))
    else HexDigits(c, p + 1, count - 1, (value * 16 + HexToInt(c[p])) % 0x1_0000)
  }

  /** Up to `count` more octal digits after `value`. */
  function OctalDigits(c: Text, p: nat, count: nat, value: UChar): (r: (UChar, nat))
    ensures p <= r.1 && (p <= |c| ==> r.1 <= |c|)
    decreases count
  {
    if count == 0 || p >= |c| || !('0' as int <= c[p] <= '7' as int) then (value, p)
    else OctalDigits(c, p + 1, count - 1, (value * 8 + (c[p] - '0' as int)) % 0x1_0000)
  }

  /** What follows a backslash, at `p`: the characters it stands for. */
  function Escape(c: Text, p: nat): (r: Parsed<Text>)
    ensures r.Some? ==> p < r.value.1 <= |c|
  {
    if p >= |c| then
      None
    else
      var ch := c[p];
      if '0' as int <= ch <= '7' as int then
        var (value, q) := OctalDigits(c, p + 1, 2, ch - '0' as int);
        Some(([value], q))
      else if ch == 'b' as int then Some(([0x08], p + 1))
      else if ch == 't' as int then Some(([0x09], p + 1))
      else if ch == 'n' as int then Some(([0x0A], p + 1))
      else if ch == 'r' as int then Some(([0x0D], p + 1))
      else if ch == 'f' as int then Some(([0x0C], p + 1))
      else if ch == 'v' as int then Some(([0x0B], p + 1))
      else if ch in [0x22, 0x27, 0x5C, 0x2F] then Some(([ch], p + 1))
      else if ch == 'u' as int || ch == 'x' as int then
        match HexDigits(c, p + 1, if ch == 'u' as int then 4 else 2, 0)
        case None => None
        case Some((value, q)) => Some(([value], q))
      else
        Some(([0x5C, ch], p + 1))
  }

  /** The rest of a string opened by `quote`, with `acc` read so far. */
  function StringRest(c: Text, p: nat, quote: UChar, acc: Text): (r: Parsed<Text>)
    ensures r.Some? ==> p < r.value.1 <= |c|
    decreases |c| - p
  {
    if p >= |c| then
      None
    else if c[p] == 0x5C then
      match Escape(c, p + 1)
      case None => None
      case Some((chars, q)) => StringRest(c, q, quote, acc + chars)
    else if c[p] == quote then
      Some((acc, p + 1))
    else
      StringRest(c, p + 1, quote, acc + [c[p]])
  }

  function ParseString(c: Text, p: nat): (r: Parsed<Object>)
    ensures r.Some? ==> p < r.value.1 <= |c|
  {
    if ScanCharacter(c, 0x22, p) || ScanCharacter(c, 0x27, p) then
      match StringRest(c, p + 1, c[p], [])
      case None => None
      case Some((chars, q)) => Some((String(chars), q))
    else
      None
  }

  // ----- numbers, as the C library reads them

  predicate IsSpace(ch: UChar) {
    ch == 0x20 || 0x09 <= ch <= 0x0D
  }

  predicate IsDigit(ch: UChar) {
    '0' as int <= ch <= '9' as int
  }

  predicate IsOctal(ch: UChar) {
    '0' as int <= ch <= '7' as int
  }

  predicate IsHex(ch: UChar) {
    HexToInt(ch) >= 0
  }

  predicate IsWordCharacter(ch: UChar) {
    IsDigit(ch) || ch == '_' as int || 'a' as int <= ch <= 'z' as int || 'A' as int <= ch <= 'Z' as int
  }

  /** Where the characters of the class `f` that start at `i` end. */
  function Span(w: Text, i: nat, f: UChar -> bool): (j: nat)
    requires i <= |w|
    ensures i <= j <= |w|
    ensures forall k :: i <= k < j ==> f(w[k])
    ensures j < |w| ==> !f(w[j])
    decreases |w| - i
  {
    if i < |w| && f(w[i]) then Span(w, i + 1, f) else i
  }

  predicate Has(w: Text, i: nat, a: UChar, b: UChar) {
    i < |w| && (w[i] == a || w[i] == b)
  }

  /** Past a sign, if there is one. */
  function SignEnd(w: Text, i: nat): (j: nat)
    requires i <= |w|
    ensures i <= j <= |w|
  {
    if Has(w, i, '+' as int, '-' as int) then i + 1 else i
  }

  /** Past the blanks and the sign that `strtod` and `strtoll` both accept first. */
  function NumberStart(w: Text): (i: nat)
    ensures i <= |w|
  {
    SignEnd(w, Span(w, 0, IsSpace))
  }

  predicate IsHexPrefix(w: Text, i: nat) {
    ScanCharacter(w, '0' as int, i) && Has(w, i + 1, 'x' as int, 'X' as int)
  }

  /** Whether `word`, in lower case, stands at `i` in either case. */
  predicate IsWord(w: Text, i: nat, word: string) {
    i + |word| <= |w| && forall k :: 0 <= k < |word| ==> w[i + k] == word[k] as int || w[i + k] == word[k] as int - 32
  }

  /** The end of digits with at most one point among them; `i` itself when there is no digit. */
  function MantissaEnd(w: Text, i: nat, digit: UChar -> bool): (j: nat)
    requires i <= |w|
    ensures i <= j <= |w|
  {
    var a := Span(w, i, digit);
    var b := if ScanCharacter(w, '.' as int, a) then Span(w, a + 1, digit) else a;
    if a == i && b <= a + 1 then i else b
  }

  /** Past an exponent introduced by `mark`, if it is complete. */
  function ExponentEnd(w: Text, i: nat, lower: UChar, upper: UChar): (j: nat)
    requires i <= |w|
    ensures i <= j <= |w|
  {
    if Has(w, i, lower, upper) then
      var s := SignEnd(w, i + 1);
      if Span(w, s, IsDigit) > s then Span(w, s, IsDigit) else i
    else
      i
  }

  /** Past the characters in parentheses that may follow `nan`. */
  function NanEnd(w: Text, i: nat): (j: nat)
    requires i <= |w|
    ensures i <= j <= |w|
  {
    if ScanCharacter(w, '(' as int, i) then
      var e := Span(w, i + 1, IsWordCharacter);
      if ScanCharacter(w, ')' as int, e) then e + 1 else i
    else
      i
  }

  /** The end of what `strtod` converts from the place after the sign on; zero when it converts nothing. */
  function UnsignedEnd(w: Text, i: nat): (n: nat)
    requires i <= |w|
    ensures n <= |w|
  {
    if IsWord(w, i, "infinity") then i + 8
    else if IsWord(w, i, "inf") then i + 3
    else if IsWord(w, i, "nan") then NanEnd(w, i + 3)
    else if IsHexPrefix(w, i) && MantissaEnd(w, i + 2, IsHex) > i + 2 then
      ExponentEnd(w, MantissaEnd(w, i + 2, IsHex), 'p' as int, 'P' as int)
    else if MantissaEnd(w, i, IsDigit) > i then
      ExponentEnd(w, MantissaEnd(w, i, IsDigit), 'e' as int, 'E' as int)
    else
      0
  }

  /** How much of `w` `strtod` converts; zero when it converts nothing. */
  function DoubleEnd(w: Text): (n: nat)
    ensures n <= |w|
  {
    UnsignedEnd(w, NumberStart(w))
  }

  const INT64_MAX := 0x7FFF_FFFF_FFFF_FFFF

  /** What `strtoll` returns for a number out of range. */
  function Saturated(n: int): (r: int)
    ensures -INT64_MAX - 1 <= r <= INT64_MAX
    ensures r == n <==> -INT64_MAX - 1 <= n <= INT64_MAX
  {
    if n > INT64_MAX then INT64_MAX else if n < -INT64_MAX - 1 then -INT64_MAX - 1 else n
  }

  /** The number that digits spell in a base. */
  function NumberOf(digits: Text, base: nat): int {
    if |digits| == 0 then 0
    else NumberOf(digits[..|digits| - 1], base) * base + HexToInt(digits[|digits| - 1])
  }

  /** How much of `w` `strtoll` converts in base 0, and to what. */
  function ReadLong(w: Text): (r: (nat, int))
    ensures r.0 <= |w|
  {
    var i := NumberStart(w);
    var (from, to, base) :=
      if IsHexPrefix(w, i) && Span(w, i + 2, IsHex) > i + 2 then (i + 2, Span(w, i + 2, IsHex), 16)
      else if ScanCharacter(w, '0' as int, i) then (i, Span(w, i, IsOctal), 8)
      else (i, Span(w, i, IsDigit), 10);
    var n := NumberOf(w[from..to], base);
    if from == to then (0, 0)
    else (to, Saturated(if i > 0 && w[i - 1] == '-' as int then -n else n))
  }

  /** A number is looked for in a window of at most this many units. */
  const WINDOW: nat := 50

  function Window(c: Text, p: nat): Text
    requires p <= |c|
  {
    if |c| > p + WINDOW then c[p..p + WINDOW] else c[p..]
  }

  /** A long long when `strtoll` stops where `strtod` does, a double otherwise. */
  function ParseFloat(c: Text, p: nat): (r: Parsed<Object>)
    requires p <= |c|
    ensures r.Some? ==> p < r.value.1 <= |c|
  {
    var w := Window(c, p);
    var n := DoubleEnd(w);
    if n == 0 then None
    else if ReadLong(w).0 == n then Some((Integer(ReadLong(w).1, LongLong), p + n))
    else Some((Double(w[..n]), p + n))
  }

  // ----- keywords and containers

  function ParseBoolean(c: Text, p: nat): (r: Parsed<Object>)
    ensures r.Some? ==> p < r.value.1 <= |c|
  {
    if ScanKeyword(c, TRUE, p) then Some((Boolean(true), p + |TRUE|))
    else if ScanKeyword(c, FALSE, p) then Some((Boolean(false), p + |FALSE|))
    else None
  }

  function ParseNull(c: Text, p: nat): (r: Parsed<Object>)
    ensures r.Some? ==> p < r.value.1 <= |c|
  {
    if ScanKeyword(c, NULL, p) then Some((Null, p + |NULL|)) else None
  }

  /** The rest of an array whose elements so far are `acc`, from an element on. */
  function ParseElements(c: Text, p: nat, acc: seq<Object>): (r: Parsed<Object>)
    requires p <= |c|
    ensures r.Some? ==> p < r.value.1 <= |c|
    decreases |c| - p, 3
  {
    match ParseValue(c, p)
    case None => None
    case Some((value, q)) =>
      var e := SkipBlank(c, q);
      if ScanCharacter(c, ',' as int, e) then ParseElements(c, SkipBlank(c, e + 1), acc + [value])
      else if ScanCharacter(c, ']' as int, e) then Some((Array(acc + [value]), e + 1))
      else None
  }

  function ParseArray(c: Text, p: nat): (r: Parsed<Object>)
    ensures r.Some? ==> p < r.value.1 <= |c|
    decreases |c| - p, 1
  {
    if !ScanCharacter(c, '[' as int, p) then None
    else
      var q := SkipBlank(c, p + 1);
      if ScanCharacter(c, ']' as int, q) then Some((Array([]), q + 1)) else ParseElements(c, q, [])
  }

  /** The rest of a dictionary whose entries so far are `acc`, from a key on; the last value for a key stays. */
  function ParseMembers(c: Text, p: nat, acc: map<Text, Object>): (r: Parsed<Object>)
    requires p <= |c|
    ensures r.Some? ==> p < r.value.1 <= |c|
    decreases |c| - p, 5
  {
    match ParseMember(c, p)
    case None => None
    case Some(((key, value), q)) =>
      var e, entries := SkipBlank(c, q), acc[key := value];
      if ScanCharacter(c, ',' as int, e) then ParseMembers(c, SkipBlank(c, e + 1), entries)
      else if ScanCharacter(c, '}' as int, e) then Some((Dictionary(entries), e + 1))
      else None
  }

  function ParseMember(c: Text, p: nat): (r: Parsed<(Text, Object)>)
    requires p <= |c|
    ensures r.Some? ==> p < r.value.1 <= |c|
    decreases |c| - p, 4
  {
    match ParseKey(c, p)
    case None => None
    case Some((key, q)) =>
      match ParseValue(c, q)
      case None => None
      case Some((value, v)) => Some(((key, value), v))
  }

  /** A key, with the position after the colon and the blanks that follow it. */
  function ParseKey(c: Text, p: nat): (r: Parsed<Text>)
    requires p <= |c|
    ensures r.Some? ==> p < r.value.1 <= |c|
    decreases |c| - p, 3
  {
    match ParseValue(c, p)
    case None => None
    case Some((key, q)) =>
      var e := SkipBlank(c, q);
      if key.String? && ScanCharacter(c, ':' as int, e) then Some((key.chars, SkipBlank(c, e + 1))) else None
  }

  function ParseDictionary(c: Text, p: nat): (r: Parsed<Object>)
    ensures r.Some? ==> p < r.value.1 <= |c|
    decreases |c| - p, 1
  {
    if !ScanCharacter(c, '{' as int, p) then None
    else
      var q := SkipBlank(c, p + 1);
      if ScanCharacter(c, '}' as int, q) then Some((Dictionary(map[]), q + 1)) else ParseMembers(c, q, map[])
  }

  function OrElse(a: Parsed<Object>, b: Parsed<Object>): Parsed<Object> {
    if a.Some? then a else b
  }

  /** Blanks, then the first of the forms that is there. */
  function ParseValue(c: Text, p: nat): (r: Parsed<Object>)
    requires p <= |c|
    ensures r.Some? ==> p < r.value.1 <= |c|
    decreases |c| - p, 2
  {
    var q := SkipBlank(c, p);
    OrElse(ParseDictionary(c, q), OrElse(ParseArray(c, q), OrElse(ParseBoolean(c, q),
      OrElse(ParseNull(c, q), OrElse(ParseFloat(c, q), ParseString(c, q))))))
  }

  /** What `objectFromString` makes of a text. */
  function ObjectFromString(c: Text): Option<Object> {
    match ParseValue(c, 0)
    case None => None
    case Some((value, _)) => Some(value)
  }

  // ----- a text at a position

  ghost predicate At(c: Text, p: nat, t: Text) {
    p + |t| <= |c| && c[p..p + |t|] == t
  }

  lemma AtSplits(c: Text, p: nat, a: Text, b: Text)
    requires At(c, p, a + b)
    ensures At(c, p, a) && At(c, p + |a|, b)
  {
    var t := c[p..p + |a + b|];
    assert c[p..p + |a|] == t[..|a|] == a;
    assert c[p + |a|..p + |a| + |b|] == t[|a|..] == b;
  }

  lemma AtHead(c: Text, p: nat, t: Text)
    requires At(c, p, t) && |t| > 0
    ensures p < |c| && c[p] == t[0]
  {
    assert c[p] == c[p..p + |t|][0];
  }

  lemma AtIndex(c: Text, p: nat, t: Text, k: nat)
    requires At(c, p, t) && k < |t|
    ensures p + k < |c| && c[p + k] == t[k]
  {
    assert c[p + k] == c[p..p + |t|][k];
  }
}

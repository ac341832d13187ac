/**
  The strings that the parser of MCJSONParser.cpp accepts: between two quotes of either kind, characters
  that stand for themselves and escapes, of which the parser knows more than section 7 of RFC 8259.
 */
module JsonStrings {
  import opened Basics
  import opened JsonSyntax

  // ----- the grammar

  /** The letter that stands for a character after a backslash, or 0. */
  function Letter(ch: UChar): UChar {
    if ch == 0x08 then 'b' as int
    else if ch == 0x09 then 't' as int
    else if ch == 0x0A then 'n' as int
    else if ch == 0x0B then 'v' as int
    else if ch == 0x0C then 'f' as int
    else if ch == 0x0D then 'r' as int
    else if ch in [0x22, 0x27, 0x2F, 0x5C] then ch
    else 0
  }

  /**
    A part of a string: a character that stands for itself, or behind a backslash its letter, octal digits,
    hexadecimal digits after a mark, or any other character, which then stays together with the backslash.
   */
  datatype Piece =
    | Plain(ch: UChar)
    | ByLetter(ch: UChar)
    | Octal(digits: Text)
    | Hex(mark: UChar, digits: Text)
    | Other(ch: UChar)

  /** The most hexadecimal digits that follow a mark. */
  function MostDigits(mark: UChar): nat {
    if mark == 'u' as int then 4 else if mark == 'x' as int then 2 else 0
  }

  predicate AllAre(t: Text, f: UChar -> bool) {
    forall k :: 0 <= k < |t| ==> f(t[k])
  }

  predicate IsPiece(piece: Piece, quote: UChar) {
    match piece
    case Plain(ch) => ch != 0x5C && ch != quote
    case ByLetter(ch) => Letter(ch) != 0
    case Octal(digits) => 1 <= |digits| <= 3 && AllAre(digits, IsOctal)
    case Hex(mark, digits) => MostDigits(mark) > 0 && |digits| <= MostDigits(mark) && AllAre(digits, IsHex)
    case Other(ch) =>
      !IsOctal(ch) && MostDigits(ch) == 0 && forall d :: 0 <= d < 0x80 ==> Letter(d) == 0 || Letter(d) != ch
  }

  function PieceText(piece: Piece): (t: Text)
    ensures |t| > 0
  {
    match piece
    case Plain(ch) => [ch]
    case ByLetter(ch) => [0x5C, Letter(ch)]
    case Octal(digits) => [0x5C] + digits
    case Hex(mark, digits) => [0x5C, mark] + digits
    case Other(ch) => [0x5C, ch]
  }

  function PieceChars(piece: Piece): Text {
    match piece
    case Plain(ch) => [ch]
    case ByLetter(ch) => [ch]
    case Octal(digits) => [NumberOf(digits, 8) % 0x1_0000]
    case Hex(_, digits) => [NumberOf(digits, 16) % 0x1_0000]
    case Other(ch) => [0x5C, ch]
  }

  /** The digits of a piece do not go on with the unit that follows it. */
  predicate IsClosed(piece: Piece, next: UChar) {
    match piece
    case Octal(digits) => |digits| < 3 ==> !IsOctal(next)
    case Hex(mark, digits) => |digits| < MostDigits(mark) ==> !IsHex(next)
    case _ => true
  }

  function PiecesText(pieces: seq<Piece>): Text {
    if |pieces| == 0 then [] else PieceText(pieces[0]) + PiecesText(pieces[1..])
  }

  function PiecesChars(pieces: seq<Piece>): Text {
    if |pieces| == 0 then [] else PieceChars(pieces[0]) + PiecesChars(pieces[1..])
  }

  /** The unit after a piece: the first one of the next piece, or the closing quote. */
  function FirstUnit(pieces: seq<Piece>, quote: UChar): UChar {
    if |pieces| == 0 then quote else PieceText(pieces[0])[0]
  }

  predicate ArePieces(pieces: seq<Piece>, quote: UChar) {
    |pieces| > 0 ==>
      && IsPiece(pieces[0], quote) && IsClosed(pieces[0], FirstUnit(pieces[1..], quote))
      && ArePieces(pieces[1..], quote)
  }

  // ----- digits

  lemma NumberGrows(digits: Text, ch: UChar, base: nat)
    ensures NumberOf(digits + [ch], base) == NumberOf(digits, base) * base + HexToInt(ch)
  {
    assert (digits + [ch])[..|digits|] == digits;
  }

  lemma Wraps(a: int, base: nat, d: int)
    ensures (a % 0x1_0000 * base + d) % 0x1_0000 == (a * base + d) % 0x1_0000
  {
    var q, r := a / 0x1_0000, a % 0x1_0000;
    assert a * base + d == r * base + d + 0x1_0000 * (q * base);
    Multiples(r * base + d, q * base);
  }

  lemma Multiples(a: int, q: int)
    ensures (a + 0x1_0000 * q) % 0x1_0000 == a % 0x1_0000
  {
  }

  lemma OneMore(c: Text, p: nat, q: nat, before: Text, f: UChar -> bool)
    requires p < q <= |c|
    ensures c[p..q] == [c[p]] + c[p + 1..q] && before + c[p..q] == before + [c[p]] + c[p + 1..q]
    ensures AllAre(c[p..q], f) <==> f(c[p]) && AllAre(c[p + 1..q], f)
  {
    var t, u := c[p..q], c[p + 1..q];
    assert t == [c[p]] + u;
    assert forall k :: 0 <= k < |u| ==> u[k] == t[k + 1];
  }

  /** At most `count` octal digits are read, and fewer only where they end. */
  lemma {:induction false} OctalDigitsAre(c: Text, p: nat, count: nat, value: UChar, before: Text)
    requires p <= |c| && value == NumberOf(before, 8) % 0x1_0000
    ensures var (v, q) := OctalDigits(c, p, count, value);
            && p <= q <= |c| && q - p <= count && AllAre(c[p..q], IsOctal)
            && (q - p < count && q < |c| ==> !IsOctal(c[q]))
            && v == NumberOf(before + c[p..q], 8) % 0x1_0000
    decreases count
  {
    hide NumberOf, AllAre;
    if count == 0 || p >= |c| || !IsOctal(c[p]) {
      NoDigits(c, p, before, IsOctal);
    } else {
      var d := HexToInt(c[p]);
      NumberGrows(before, c[p], 8);
      Wraps(NumberOf(before, 8), 8, d);
      hide HexToInt;
      OctalDigitsAre(c, p + 1, count - 1, (value * 8 + d) % 0x1_0000, before + [c[p]]);
      OneMore(c, p, OctalDigits(c, p, count, value).1, before, IsOctal);
    }
  }

  lemma NoDigits(c: Text, p: nat, before: Text, f: UChar -> bool)
    requires p <= |c|
    ensures AllAre(c[p..p], f) && before + c[p..p] == before
    ensures p == |c| ==> AllAre(c[p..], f)
  {
  }

  /** At most `count` hexadecimal digits are read, and fewer only where they end within the content. */
  lemma {:induction false} HexDigitsAre(c: Text, p: nat, count: nat, value: UChar, before: Text)
    requires p <= |c| && value == NumberOf(before, 16) % 0x1_0000
    ensures match HexDigits(c, p, count, value)
            case None => |c| - p < count && AllAre(c[p..], IsHex)
            case Some((v, q)) =>
              && p <= q <= |c| && q - p <= count && AllAre(c[p..q], IsHex)
              && (q - p < count ==> q < |c| && !IsHex(c[q]))
              && v == NumberOf(before + c[p..q], 16) % 0x1_0000
    decreases count
  {
    hide NumberOf, AllAre, HexToInt;
    if count == 0 || p >= |c| || !IsHex(c[p]) {
      NoDigits(c, p, before, IsHex);
    } else {
      var d := HexToInt(c[p]);
      NumberGrows(before, c[p], 16);
      Wraps(NumberOf(before, 16), 16, d);
      HexDigitsAre(c, p + 1, count - 1, (value * 16 + d) % 0x1_0000, before + [c[p]]);
      match HexDigits(c, p, count, value)
      case Some((_, q)) => OneMore(c, p, q, before, IsHex);
      case None =>
        OneMore(c, p, |c|, before, IsHex);
        assert c[p..|c|] == c[p..] && c[p + 1..|c|] == c[p + 1..];
    }
  }

  // ----- what follows a backslash

  /** The digits or letters of a piece stand at `p`, behind its backslash, and it ends at `q`. */
  ghost predicate IsEscape(c: Text, p: nat, piece: Piece, q: nat) {
    && !piece.Plain? && At(c, p, PieceText(piece)[1..]) && q == p + |PieceText(piece)| - 1
    && q < |c| && IsClosed(piece, c[q])
  }

  lemma OneDigit(ch: UChar, base: nat)
    requires IsHex(ch) || IsOctal(ch)
    ensures NumberOf([ch], base) == HexToInt(ch) && NumberOf([], base) == 0
    ensures IsOctal(ch) ==> NumberOf([ch], base) == ch - '0' as int && 0 <= ch - '0' as int < 8
  {
    assert [ch][..0] == [];
    assert NumberOf([], base) == 0;
  }

  lemma NothingSpelled(base: nat)
    ensures NumberOf([], base) == 0
  {
  }

  lemma EscapeOfOctal(c: Text, p: nat)
    requires p < |c| && IsOctal(c[p])
    ensures 0 <= c[p] - '0' as int < 8
    ensures var (v, q) := OctalDigits(c, p + 1, 2, c[p] - '0' as int); Escape(c, p) == Some(([v], q))
  {
  }

  lemma EscapeOfHex(c: Text, p: nat)
    requires p < |c| && MostDigits(c[p]) > 0
    ensures Escape(c, p) == match HexDigits(c, p + 1, MostDigits(c[p]), 0)
                            case None => None
                            case Some((value, q)) => Some(([value], q))
  {
  }

  lemma AtSlice(c: Text, p: nat, q: nat)
    requires p <= q <= |c|
    ensures At(c, p, c[p..q]) && |c[p..q]| == q - p
  {
  }

  lemma OctalEscapes(c: Text, p: nat, quote: UChar)
    requires p < |c| && IsOctal(c[p]) && Escape(c, p).value.1 < |c|
    ensures p < Escape(c, p).value.1
    ensures var q := Escape(c, p).value.1;
            var piece := Octal(c[p..q]);
            IsPiece(piece, quote) && IsEscape(c, p, piece, q) && Escape(c, p).value.0 == PieceChars(piece)
  {
    hide NumberOf, AllAre, OctalDigits, Escape, At;
    EscapeOfOctal(c, p);
    OneDigit(c[p], 8);
    OctalDigitsAre(c, p + 1, 2, c[p] - '0' as int, [c[p]]);
    var q := Escape(c, p).value.1;
    OneMore(c, p, q, [], IsOctal);
    AtSlice(c, p, q);
    assert PieceText(Octal(c[p..q]))[1..] == c[p..q];
  }

  lemma HexEscapes(c: Text, p: nat, quote: UChar)
    requires p < |c| && MostDigits(c[p]) > 0 && Escape(c, p).Some? && Escape(c, p).value.1 < |c|
    ensures p + 1 <= Escape(c, p).value.1
    ensures var q := Escape(c, p).value.1;
            var piece := Hex(c[p], c[p + 1..q]);
            IsPiece(piece, quote) && IsEscape(c, p, piece, q) && Escape(c, p).value.0 == PieceChars(piece)
  {
    hide NumberOf, AllAre, HexDigits, Escape, At, HexToInt;
    EscapeOfHex(c, p);
    NothingSpelled(16);
    HexDigitsAre(c, p + 1, MostDigits(c[p]), 0, []);
    var q := Escape(c, p).value.1;
    assert c[p..q] == [c[p]] + c[p + 1..q];
    AtSlice(c, p, q);
    assert [] + c[p + 1..q] == c[p + 1..q];
    assert PieceText(Hex(c[p], c[p + 1..q]))[1..] == c[p..q];
  }

  lemma LetterEscapes(c: Text, p: nat, ch: UChar)
    requires p < |c| && Letter(ch) != 0 && c[p] == Letter(ch)
    ensures Escape(c, p) == Some(([ch], p + 1))
  {
    hide HexToInt, HexDigits, OctalDigits;
  }

  lemma OtherEscapes(c: Text, p: nat)
    requires p < |c| && IsPiece(Other(c[p]), 0)
    ensures Escape(c, p) == Some(([0x5C, c[p]], p + 1))
  {
    assert Letter(0x08) == 'b' as int && Letter(0x09) == 't' as int && Letter(0x0A) == 'n' as int;
    assert Letter(0x0B) == 'v' as int && Letter(0x0C) == 'f' as int && Letter(0x0D) == 'r' as int;
    assert Letter(0x22) == 0x22 && Letter(0x27) == 0x27 && Letter(0x2F) == 0x2F && Letter(0x5C) == 0x5C;
    hide HexToInt, HexDigits, OctalDigits;
  }

  /** What is read behind a backslash is a piece, which ends there. */
  lemma EscapeIsPiece(c: Text, p: nat, quote: UChar) returns (piece: Piece)
    requires Escape(c, p).Some? && Escape(c, p).value.1 < |c|
    ensures IsPiece(piece, quote) && IsEscape(c, p, piece, Escape(c, p).value.1)
    ensures Escape(c, p).value.0 == PieceChars(piece)
  {
    var ch := c[p];
    if IsOctal(ch) {
      piece := Octal(c[p..Escape(c, p).value.1]);
      OctalEscapes(c, p, quote);
    } else if MostDigits(ch) > 0 {
      piece := Hex(ch, c[p + 1..Escape(c, p).value.1]);
      HexEscapes(c, p, quote);
    } else if d: UChar :| 0 <= d < 0x80 && Letter(d) != 0 && Letter(d) == ch {
      piece := ByLetter(d);
      LetterEscapes(c, p, d);
    } else {
      piece := Other(ch);
      OtherEscapes(c, p);
    }
  }

  /** Digits that end where they say are those that are read. */
  lemma SameEnd(c: Text, p: nat, digits: Text, most: nat, q: nat, f: UChar -> bool)
    requires At(c, p, digits) && p + |digits| < |c| && |digits| <= most && AllAre(digits, f)
    requires |digits| < most ==> !f(c[p + |digits|])
    requires p <= q <= |c| && q - p <= most && AllAre(c[p..q], f) && (q - p < most && q < |c| ==> !f(c[q]))
    ensures q == p + |digits| && c[p..q] == digits
  {
    var e := p + |digits|;
    assert c[p..e] == digits;
    AreWithin(c, p, e, f);
    AreWithin(c, p, q, f);
  }

  lemma AreWithin(c: Text, p: nat, q: nat, f: UChar -> bool)
    requires p <= q <= |c| && AllAre(c[p..q], f)
    ensures forall k :: p <= k < q ==> f(c[k])
  {
    assert forall k :: p <= k < q ==> c[k] == c[p..q][k - p];
  }

  lemma HexFound(c: Text, p: nat, digits: Text, most: nat)
    requires At(c, p, digits) && p + |digits| < |c| && |digits| <= most
    requires |digits| < most ==> !IsHex(c[p + |digits|])
    ensures !(|c| - p < most && AllAre(c[p..], IsHex))
  {
    assert c[p..][|digits|] == c[p + |digits|];
  }

  /** And every piece is read, where its digits end. */
  lemma PieceIsRead(c: Text, p: nat, piece: Piece, quote: UChar, q: nat)
    requires IsPiece(piece, quote) && IsEscape(c, p, piece, q)
    ensures Escape(c, p) == Some((PieceChars(piece), q))
  {
    hide NumberOf, AllAre, HexDigits, OctalDigits, Escape, At, Letter;
    var t := PieceText(piece)[1..];
    match piece
    case ByLetter(ch) =>
      AtIndex(c, p, t, 0);
      LetterEscapes(c, p, ch);
    case Other(ch) =>
      AtIndex(c, p, t, 0);
      OtherEscapes(c, p);
    case Octal(digits) =>
      OctalIsRead(c, p, digits);
      assert t == digits;
    case Hex(mark, digits) =>
      AtIndex(c, p, t, 0);
      assert t == [mark] + digits;
      AtSplits(c, p, [mark], digits);
      HexIsRead(c, p, digits);
  }

  lemma OctalIsRead(c: Text, p: nat, digits: Text)
    requires 1 <= |digits| <= 3 && AllAre(digits, IsOctal) && At(c, p, digits)
    requires p + |digits| < |c| && IsClosed(Octal(digits), c[p + |digits|])
    ensures Escape(c, p) == Some((PieceChars(Octal(digits)), p + |digits|))
  {
    hide NumberOf, AllAre, OctalDigits, Escape, At, HexToInt;
    AtIndex(c, p, digits, 0);
    FirstOf(digits, IsOctal);
    EscapeOfOctal(c, p);
    OneDigit(c[p], 8);
    var (v, q) := OctalDigits(c, p + 1, 2, c[p] - '0' as int);
    OctalDigitsAre(c, p + 1, 2, c[p] - '0' as int, [c[p]]);
    OneMore(c, p, q, [], IsOctal);
    SameEnd(c, p, digits, 3, q, IsOctal);
  }

  lemma FirstOf(t: Text, f: UChar -> bool)
    requires |t| > 0 && AllAre(t, f)
    ensures f(t[0])
  {
  }

  lemma HexIsRead(c: Text, p: nat, digits: Text)
    requires p < |c| && MostDigits(c[p]) > 0
    requires |digits| <= MostDigits(c[p]) && AllAre(digits, IsHex) && At(c, p + 1, digits)
    requires p + 1 + |digits| < |c| && IsClosed(Hex(c[p], digits), c[p + 1 + |digits|])
    ensures Escape(c, p) == Some((PieceChars(Hex(c[p], digits)), p + 1 + |digits|))
  {
    hide NumberOf, AllAre, HexDigits, Escape, At;
    EscapeOfHex(c, p);
    NothingSpelled(16);
    HexDigitsAre(c, p + 1, MostDigits(c[p]), 0, []);
    HexFound(c, p + 1, digits, MostDigits(c[p]));
    var q := HexDigits(c, p + 1, MostDigits(c[p]), 0).value.1;
    SameEnd(c, p + 1, digits, MostDigits(c[p]), q, IsHex);
    assert [] + digits == digits;
  }

  // ----- whole strings

  predicate IsQuote(ch: UChar) {
    ch == 0x22 || ch == 0x27
  }

  lemma PiecesFirst(pieces: seq<Piece>, quote: UChar)
    requires |pieces| > 0
    ensures PiecesText(pieces) + [quote] == PieceText(pieces[0]) + (PiecesText(pieces[1..]) + [quote])
    ensures PiecesChars(pieces) == PieceChars(pieces[0]) + PiecesChars(pieces[1..])
  {
    hide PieceText, PieceChars;
  }

  lemma FirstUnitIs(pieces: seq<Piece>, quote: UChar)
    ensures (PiecesText(pieces) + [quote])[0] == FirstUnit(pieces, quote)
    ensures IsQuote(quote) && ArePieces(pieces, quote) && |pieces| > 0 ==>
              (FirstUnit(pieces, quote) == 0x5C <==> !pieces[0].Plain?) && FirstUnit(pieces, quote) != quote
  {
  }

  /** One step over a string that goes on. */
  lemma StringGoesOn(c: Text, p: nat, quote: UChar, acc: Text)
    requires p < |c| && c[p] != quote
    ensures c[p] != 0x5C ==> StringRest(c, p, quote, acc) == StringRest(c, p + 1, quote, acc + [c[p]])
    ensures c[p] == 0x5C ==>
              StringRest(c, p, quote, acc) == match Escape(c, p + 1)
                                              case None => None
                                              case Some((chars, q)) => StringRest(c, q, quote, acc + chars)
  {
    hide Escape;
  }

  lemma StringStops(c: Text, p: nat, quote: UChar, acc: Text)
    requires IsQuote(quote)
    ensures p >= |c| ==> StringRest(c, p, quote, acc) == None
    ensures p < |c| && c[p] == quote ==> StringRest(c, p, quote, acc) == Some((acc, p + 1))
  {
    hide Escape;
  }

  /** Every string of pieces is read to their characters. */
  lemma {:induction false} PiecesAreRead(c: Text, p: nat, quote: UChar, pieces: seq<Piece>, acc: Text)
    requires IsQuote(quote) && ArePieces(pieces, quote) && At(c, p, PiecesText(pieces) + [quote])
    ensures StringRest(c, p, quote, acc) == Some((acc + PiecesChars(pieces), p + |PiecesText(pieces)| + 1))
    decreases |pieces|
  {
    hide At, PieceText, PieceChars, PiecesText, PiecesChars, StringRest, Escape, IsPiece, IsClosed, FirstUnit;
    AtIndex(c, p, PiecesText(pieces) + [quote], 0);
    FirstUnitIs(pieces, quote);
    if |pieces| == 0 {
      NoPieces(quote);
      assert pieces == [] && acc + [] == acc;
      StringStops(c, p, quote, acc);
    } else {
      var piece, rest := pieces[0], pieces[1..];
      PiecesFirst(pieces, quote);
      AtSplits(c, p, PieceText(piece), PiecesText(rest) + [quote]);
      var q := p + |PieceText(piece)|;
      AtIndex(c, q, PiecesText(rest) + [quote], 0);
      FirstUnitIs(rest, quote);
      PiecesAreRead(c, q, quote, rest, acc + PieceChars(piece));
      StringGoesOn(c, p, quote, acc);
      PieceGoesOn(c, p, piece, quote, q);
      assert acc + PieceChars(piece) + PiecesChars(rest) == acc + PiecesChars(pieces);
    }
  }

  lemma NoPieces(quote: UChar)
    ensures PiecesText([]) == [] && PiecesChars([]) == [] && FirstUnit([], quote) == quote && ArePieces([], quote)
  {
  }

  /** Where a piece stands, it is read: itself, or behind its backslash. */
  lemma PieceGoesOn(c: Text, p: nat, piece: Piece, quote: UChar, q: nat)
    requires IsPiece(piece, quote) && At(c, p, PieceText(piece)) && q == p + |PieceText(piece)| < |c|
    requires IsClosed(piece, c[q])
    ensures p < |c| && (piece.Plain? <==> c[p] != 0x5C)
    ensures piece.Plain? ==> PieceChars(piece) == [c[p]] && q == p + 1
    ensures !piece.Plain? ==> Escape(c, p + 1) == Some((PieceChars(piece), q))
  {
    hide At, Escape, PieceChars;
    AtIndex(c, p, PieceText(piece), 0);
    if piece.Plain? {
      PlainChars(piece);
    } else {
      assert PieceText(piece) == [0x5C] + PieceText(piece)[1..];
      AtSplits(c, p, [0x5C], PieceText(piece)[1..]);
      PieceIsRead(c, p + 1, piece, quote, q);
    }
  }

  lemma PlainChars(piece: Piece)
    requires piece.Plain?
    ensures PieceText(piece) == PieceChars(piece) == [piece.ch]
  {
  }

  lemma AtJoins(c: Text, p: nat, a: Text, b: Text)
    requires At(c, p, a) && At(c, p + |a|, b)
    ensures At(c, p, a + b)
  {
    assert c[p..p + |a + b|] == c[p..p + |a|] + c[p + |a|..p + |a| + |b|];
  }

  /** And whatever is read is a string of pieces, with the quote that opened it at its end. */
  lemma {:induction false} StringIsPieces(c: Text, p: nat, quote: UChar, acc: Text) returns (pieces: seq<Piece>)
    requires IsQuote(quote) && StringRest(c, p, quote, acc).Some?
    ensures ArePieces(pieces, quote) && At(c, p, PiecesText(pieces) + [quote])
    ensures StringRest(c, p, quote, acc).value == (acc + PiecesChars(pieces), p + |PiecesText(pieces)| + 1)
    decreases |c| - p
  {
    hide At, PieceText, PieceChars, PiecesText, PiecesChars, StringRest, Escape, IsPiece, IsClosed, FirstUnit;
    StringStops(c, p, quote, acc);
    if c[p] == quote {
      pieces := [];
      NoPieces(quote);
      AtSlice(c, p, p + 1);
      assert [] + [quote] == [quote] == c[p..p + 1];
      assert acc + [] == acc;
    } else {
      StringGoesOn(c, p, quote, acc);
      var piece, q := FirstPiece(c, p, quote, acc);
      var rest := StringIsPieces(c, q, quote, acc + PieceChars(piece));
      pieces := [piece] + rest;
      AtIndex(c, q, PiecesText(rest) + [quote], 0);
      FirstUnitIs(rest, quote);
      PiecesFirst(pieces, quote);
      AtJoins(c, p, PieceText(piece), PiecesText(rest) + [quote]);
      assert acc + PieceChars(piece) + PiecesChars(rest) == acc + PiecesChars(pieces);
    }
  }

  /** The first piece of a string that is read and not empty. */
  lemma FirstPiece(c: Text, p: nat, quote: UChar, acc: Text) returns (piece: Piece, q: nat)
    requires IsQuote(quote) && p < |c| && c[p] != quote && StringRest(c, p, quote, acc).Some?
    ensures IsPiece(piece, quote) && At(c, p, PieceText(piece)) && q == p + |PieceText(piece)| < |c|
    ensures IsClosed(piece, c[q])
    ensures StringRest(c, p, quote, acc) == StringRest(c, q, quote, acc + PieceChars(piece))
  {
    hide At, StringRest, Escape;
    StringGoesOn(c, p, quote, acc);
    if c[p] != 0x5C {
      piece, q := Plain(c[p]), p + 1;
      AtSlice(c, p, p + 1);
      assert c[p..p + 1] == [c[p]];
      StringStops(c, q, quote, acc + [c[p]]);
    } else {
      q := Escape(c, p + 1).value.1;
      StringStops(c, q, quote, acc + Escape(c, p + 1).value.0);
      piece := EscapeIsPiece(c, p + 1, quote);
      EscapeText(c, p, piece, q);
    }
  }

  lemma EscapeText(c: Text, p: nat, piece: Piece, q: nat)
    requires p < |c| && c[p] == 0x5C && IsEscape(c, p + 1, piece, q)
    ensures At(c, p, PieceText(piece)) && q == p + |PieceText(piece)| < |c| && IsClosed(piece, c[q])
  {
    hide At;
    var t := PieceText(piece);
    AtSlice(c, p, p + 1);
    assert c[p..p + 1] == [0x5C] && t == [0x5C] + t[1..];
    AtJoins(c, p, [0x5C], t[1..]);
  }

  /** Pieces between two quotes alike. */
  function StringText(quote: UChar, pieces: seq<Piece>): Text {
    [quote] + (PiecesText(pieces) + [quote])
  }

  predicate IsString(quote: UChar, pieces: seq<Piece>) {
    IsQuote(quote) && ArePieces(pieces, quote)
  }

  /** A string is read exactly where pieces stand between quotes, and to their characters. */
  lemma StringIsRead(c: Text, p: nat, quote: UChar, pieces: seq<Piece>)
    requires IsString(quote, pieces) && At(c, p, StringText(quote, pieces))
    ensures ParseString(c, p) == Some((String(PiecesChars(pieces)), p + |StringText(quote, pieces)|))
  {
    hide At, PiecesText, PiecesChars, StringRest;
    AtIndex(c, p, StringText(quote, pieces), 0);
    AtSplits(c, p, [quote], PiecesText(pieces) + [quote]);
    PiecesAreRead(c, p + 1, quote, pieces, []);
    assert [] + PiecesChars(pieces) == PiecesChars(pieces);
  }

  lemma ReadIsString(c: Text, p: nat) returns (quote: UChar, pieces: seq<Piece>)
    requires ParseString(c, p).Some?
    ensures IsString(quote, pieces) && At(c, p, StringText(quote, pieces))
    ensures ParseString(c, p).value == (String(PiecesChars(pieces)), p + |StringText(quote, pieces)|)
  {
    hide At, PiecesText, PiecesChars, StringRest;
    quote := c[p];
    pieces := StringIsPieces(c, p + 1, quote, []);
    AtSlice(c, p, p + 1);
    assert c[p..p + 1] == [quote];
    AtJoins(c, p, [quote], PiecesText(pieces) + [quote]);
    assert [] + PiecesChars(pieces) == PiecesChars(pieces);
  }
}

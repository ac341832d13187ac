/**
  What `strtod` and `strtoll` take for a number, as a grammar (section 7.22.1 of the C standard of 2011):
  the longest beginning of a text that is one. `JsonSyntax.DoubleEnd` finds its end, and
  `JsonSyntax.ReadLong` reads it where it is an integer.
 */
module JsonNumbers {
  import opened Basics
  import opened JsonSyntax

  // ----- the grammar, on the units from one position to another

  predicate AllIn(w: Text, i: nat, j: nat, f: UChar -> bool) {
    i <= j <= |w| && forall k :: i <= k < j ==> f(w[k])
  }

  predicate IsSign(w: Text, i: nat, j: nat) {
    i == j || (j == i + 1 && Has(w, i, '+' as int, '-' as int))
  }

  /** Digits with at most one point among them. */
  ghost predicate IsMantissa(w: Text, i: nat, j: nat, digit: UChar -> bool) {
    || (i < j && AllIn(w, i, j, digit))
    || (i + 1 < j <= |w| &&
        exists a :: i <= a < j && AllIn(w, i, a, digit) && w[a] == '.' as int && AllIn(w, a + 1, j, digit))
  }

  /** Nothing, or the mark, a sign or none, and decimal digits. */
  ghost predicate IsExponent(w: Text, i: nat, j: nat, lower: UChar, upper: UChar) {
    i == j || (Has(w, i, lower, upper) && exists s :: i + 1 <= s < j && IsSign(w, i + 1, s) && AllIn(w, s, j, IsDigit))
  }

  ghost predicate IsDecimal(w: Text, i: nat, j: nat) {
    exists k :: i <= k <= j && IsMantissa(w, i, k, IsDigit) && IsExponent(w, k, j, 'e' as int, 'E' as int)
  }

  ghost predicate IsHexadecimal(w: Text, i: nat, j: nat) {
    && IsHexPrefix(w, i)
    && var from := i + 2;
       exists k :: from <= k <= j && IsMantissa(w, from, k, IsHex) && IsExponent(w, k, j, 'p' as int, 'P' as int)
  }

  /** The letters `nan` in either case, with word characters in parentheses or without. */
  predicate IsNan(w: Text, i: nat, j: nat) {
    && IsWord(w, i, "nan")
    && (|| j == i + 3
        || (i + 4 < j <= |w| && w[i + 3] == '(' as int && w[j - 1] == ')' as int
            && AllIn(w, i + 4, j - 1, IsWordCharacter)))
  }

  ghost predicate IsUnsigned(w: Text, i: nat, j: nat) {
    || (IsWord(w, i, "infinity") && j == i + 8)
    || (IsWord(w, i, "inf") && j == i + 3)
    || IsNan(w, i, j) || IsDecimal(w, i, j) || IsHexadecimal(w, i, j)
  }

  /** Spaces, a sign or none, and a number without sign from `j` on. */
  ghost predicate IsNumeralFrom(w: Text, j: nat, n: nat) {
    exists i :: 0 <= i <= j && AllIn(w, 0, i, IsSpace) && IsSign(w, i, j) && j < n <= |w| && IsUnsigned(w, j, n)
  }

  /** The first `n` units of a text are a number. */
  ghost predicate IsNumeral(w: Text, n: nat) {
    exists j :: 0 <= j < n && IsNumeralFrom(w, j, n)
  }

  ghost predicate IsLongestNumeral(w: Text, n: nat) {
    IsNumeral(w, n) && forall m :: n < m ==> !IsNumeral(w, m)
  }

  // ----- where it starts

  lemma SpanIs(w: Text, i: nat, j: nat, f: UChar -> bool)
    requires AllIn(w, i, j, f) && (j == |w| || !f(w[j]))
    ensures Span(w, i, f) == j
  {
  }

  lemma SpanHolds(w: Text, i: nat, f: UChar -> bool)
    requires i <= |w|
    ensures AllIn(w, i, Span(w, i, f), f)
  {
  }

  lemma SpanIsLongest(w: Text, i: nat, j: nat, f: UChar -> bool)
    requires AllIn(w, i, j, f)
    ensures j <= Span(w, i, f)
  {
  }

  /** A number without sign begins with a digit, a point or the first letter of a word. */
  predicate StartsUnsigned(ch: UChar) {
    IsDigit(ch) || ch in ['.' as int, 'i' as int, 'I' as int, 'n' as int, 'N' as int]
  }

  lemma WordStarts(w: Text, i: nat, word: string)
    requires IsWord(w, i, word) && |word| > 0
    ensures i < |w| && (w[i] == word[0] as int || w[i] == word[0] as int - 32)
  {
    assert w[i + 0] == word[0] as int || w[i + 0] == word[0] as int - 32;
  }

  lemma UnsignedStarts(w: Text, i: nat, j: nat)
    requires IsUnsigned(w, i, j) && j <= |w|
    ensures i < j && StartsUnsigned(w[i])
  {
    if IsWord(w, i, "infinity") {
      WordStarts(w, i, "infinity");
    } else if IsWord(w, i, "inf") {
      WordStarts(w, i, "inf");
    } else if IsNan(w, i, j) {
      WordStarts(w, i, "nan");
    }
  }

  lemma NumeralStarts(w: Text, j: nat, n: nat)
    requires IsNumeralFrom(w, j, n)
    ensures j == NumberStart(w) && IsUnsigned(w, j, n) && j < n <= |w|
  {
    hide IsUnsigned, Span;
    var i :| 0 <= i <= j && AllIn(w, 0, i, IsSpace) && IsSign(w, i, j) && j < n <= |w| && IsUnsigned(w, j, n);
    UnsignedStarts(w, j, n);
    SpanIs(w, 0, i, IsSpace);
  }

  lemma NumeralFromStart(w: Text, n: nat)
    requires NumberStart(w) < n <= |w| && IsUnsigned(w, NumberStart(w), n)
    ensures IsNumeral(w, n)
  {
    hide IsUnsigned, Span;
    var i := Span(w, 0, IsSpace);
    SpanHolds(w, 0, IsSpace);
    assert IsSign(w, i, NumberStart(w));
    assert IsNumeralFrom(w, NumberStart(w), n);
  }

  // ----- its parts

  lemma MantissaEnds(w: Text, i: nat, j: nat, digit: UChar -> bool)
    requires IsMantissa(w, i, j, digit) && !digit('.' as int)
    ensures i < j <= MantissaEnd(w, i, digit)
    ensures j < |w| && !digit(w[j]) && w[j] != '.' as int ==> j == MantissaEnd(w, i, digit)
  {
  }

  lemma MantissaIs(w: Text, i: nat, digit: UChar -> bool)
    requires i <= |w| && MantissaEnd(w, i, digit) > i
    ensures IsMantissa(w, i, MantissaEnd(w, i, digit), digit)
  {
  }

  lemma ExponentEnds(w: Text, i: nat, j: nat, lower: UChar, upper: UChar)
    requires i <= |w| && IsExponent(w, i, j, lower, upper)
    ensures j <= ExponentEnd(w, i, lower, upper)
  {
  }

  lemma ExponentIs(w: Text, i: nat, lower: UChar, upper: UChar)
    requires i <= |w|
    ensures IsExponent(w, i, ExponentEnd(w, i, lower, upper), lower, upper)
  {
    hide Span;
    if Has(w, i, lower, upper) {
      var s := SignEnd(w, i + 1);
      SpanHolds(w, s, IsDigit);
      assert IsSign(w, i + 1, s);
    }
  }

  lemma NoPointInDigits()
    ensures !IsDigit('.' as int) && !IsHex('.' as int)
    ensures !IsHex('p' as int) && !IsHex('P' as int) && !IsDigit('e' as int) && !IsDigit('E' as int)
  {
  }

  lemma DecimalEnds(w: Text, i: nat, j: nat)
    requires i <= |w| && IsDecimal(w, i, j)
    ensures MantissaEnd(w, i, IsDigit) > i
    ensures j <= ExponentEnd(w, MantissaEnd(w, i, IsDigit), 'e' as int, 'E' as int)
  {
    hide IsMantissa, IsExponent, MantissaEnd, ExponentEnd, IsDigit, IsHex;
    NoPointInDigits();
    var k :| i <= k <= j && IsMantissa(w, i, k, IsDigit) && IsExponent(w, k, j, 'e' as int, 'E' as int);
    MantissaEnds(w, i, k, IsDigit);
    MarkFollows(w, k, j, 'e' as int, 'E' as int);
    ExponentEnds(w, MantissaEnd(w, i, IsDigit), MantissaEnd(w, i, IsDigit), 'e' as int, 'E' as int);
    if k == MantissaEnd(w, i, IsDigit) {
      ExponentEnds(w, k, j, 'e' as int, 'E' as int);
    }
  }

  lemma MarkFollows(w: Text, k: nat, j: nat, lower: UChar, upper: UChar)
    requires IsExponent(w, k, j, lower, upper)
    ensures k == j || (k < |w| && (w[k] == lower || w[k] == upper))
    ensures IsExponent(w, j, j, lower, upper)
  {
  }

  lemma HexadecimalEnds(w: Text, i: nat, j: nat)
    requires i <= |w| && IsHexadecimal(w, i, j)
    ensures IsHexPrefix(w, i) && MantissaEnd(w, i + 2, IsHex) > i + 2
    ensures j <= ExponentEnd(w, MantissaEnd(w, i + 2, IsHex), 'p' as int, 'P' as int)
  {
    hide IsMantissa, IsExponent, MantissaEnd, ExponentEnd, IsDigit, IsHex;
    NoPointInDigits();
    var from := i + 2;
    var k :| from <= k <= j && IsMantissa(w, from, k, IsHex) && IsExponent(w, k, j, 'p' as int, 'P' as int);
    MantissaEnds(w, from, k, IsHex);
    MarkFollows(w, k, j, 'p' as int, 'P' as int);
    ExponentEnds(w, MantissaEnd(w, from, IsHex), MantissaEnd(w, from, IsHex), 'p' as int, 'P' as int);
    if k == MantissaEnd(w, from, IsHex) {
      ExponentEnds(w, k, j, 'p' as int, 'P' as int);
    }
  }

  // ----- the units of a number

  /** What may begin a number. */
  predicate BeginsNumber(ch: UChar) {
    IsSpace(ch) || ch == '+' as int || ch == '-' as int || StartsUnsigned(ch)
  }

  lemma NumeralBegins(w: Text, n: nat)
    requires IsNumeral(w, n)
    ensures 0 < n <= |w| && BeginsNumber(w[0])
    ensures w[0] == 'n' as int ==> n > 1 && w[1] in ['a' as int, 'A' as int]
  {
    hide IsUnsigned, IsNumeralFrom;
    StartOfNumeral(w, n);
    NumeralFromBegins(w, NumberStart(w), n);
  }

  lemma NumeralFromBegins(w: Text, j: nat, n: nat)
    requires IsNumeralFrom(w, j, n)
    ensures 0 < n <= |w| && BeginsNumber(w[0])
    ensures w[0] == 'n' as int ==> n > 1 && w[1] in ['a' as int, 'A' as int]
  {
    hide IsUnsigned;
    UnsignedStarts(w, j, n);
    if j == 0 && w[0] == 'n' as int {
      OnlyNanBegins(w, n);
    }
  }

  lemma OnlyNanBegins(w: Text, n: nat)
    requires 0 < n <= |w| && IsUnsigned(w, 0, n) && w[0] == 'n' as int
    ensures n > 1 && w[1] in ['a' as int, 'A' as int]
  {
    hide IsWord, IsDecimal, IsHexadecimal;
    if IsDecimal(w, 0, n) || IsHexadecimal(w, 0, n) {
      HexIsPrefixed(w, 0, n);
      DecimalStarts(w, 0, n);
      assert false;
    } else if IsWord(w, 0, "infinity") {
      WordStarts(w, 0, "infinity");
      assert false;
    } else if IsWord(w, 0, "inf") {
      WordStarts(w, 0, "inf");
      assert false;
    } else {
      NanLetters(w, 0, n);
    }
  }

  lemma HexIsPrefixed(w: Text, i: nat, j: nat)
    requires IsDecimal(w, i, j) || IsHexadecimal(w, i, j)
    ensures IsDecimal(w, i, j) || IsHexPrefix(w, i)
  {
  }

  lemma NanLetters(w: Text, i: nat, j: nat)
    requires IsNan(w, i, j)
    ensures i + 1 < j && i + 1 < |w| && w[i + 1] in ['a' as int, 'A' as int]
  {
    assert IsWord(w, i, "nan");
    assert w[i + 1] == "nan"[1] as int || w[i + 1] == "nan"[1] as int - 32;
  }

  /** What a number is made of behind its leading spaces. */
  predicate BelongsToNumber(ch: UChar) {
    IsWordCharacter(ch) || ch in ['+' as int, '-' as int, '.' as int, '(' as int, ')' as int]
  }

  lemma MantissaBelongs(w: Text, i: nat, j: nat, f: UChar -> bool)
    requires IsMantissa(w, i, j, f) && forall ch :: f(ch) ==> BelongsToNumber(ch)
    ensures j <= |w| && AllIn(w, i, j, BelongsToNumber)
  {
  }

  lemma ExponentBelongs(w: Text, i: nat, j: nat, lower: UChar, upper: UChar)
    requires IsExponent(w, i, j, lower, upper) && BelongsToNumber(lower) && BelongsToNumber(upper)
    ensures i < j ==> j <= |w| && AllIn(w, i, j, BelongsToNumber)
  {
  }

  lemma {:induction false} WordBelongs(w: Text, i: nat, word: string)
    requires IsWord(w, i, word) && forall k :: 0 <= k < |word| ==> 'a' <= word[k] <= 'z'
    ensures AllIn(w, i, i + |word|, BelongsToNumber)
  {
    forall k | i <= k < i + |word|
      ensures BelongsToNumber(w[k])
    {
      assert w[i + (k - i)] == word[k - i] as int || w[i + (k - i)] == word[k - i] as int - 32;
    }
  }

  lemma DecimalBelongs(w: Text, i: nat, j: nat)
    requires i < j <= |w| && (IsDecimal(w, i, j) || IsHexadecimal(w, i, j))
    ensures AllIn(w, i, j, BelongsToNumber)
  {
    hide IsMantissa, IsExponent;
    assert forall ch :: IsDigit(ch) || IsHex(ch) ==> BelongsToNumber(ch);
    if IsDecimal(w, i, j) {
      var k :| i <= k <= j && IsMantissa(w, i, k, IsDigit) && IsExponent(w, k, j, 'e' as int, 'E' as int);
      MantissaBelongs(w, i, k, IsDigit);
      ExponentBelongs(w, k, j, 'e' as int, 'E' as int);
    } else {
      var from := i + 2;
      var k :| from <= k <= j && IsMantissa(w, from, k, IsHex) && IsExponent(w, k, j, 'p' as int, 'P' as int);
      MantissaBelongs(w, from, k, IsHex);
      ExponentBelongs(w, k, j, 'p' as int, 'P' as int);
    }
  }

  lemma UnsignedBelongs(w: Text, i: nat, j: nat)
    requires i < j <= |w| && IsUnsigned(w, i, j)
    ensures AllIn(w, i, j, BelongsToNumber)
  {
    hide IsDecimal, IsHexadecimal, IsWord;
    if IsDecimal(w, i, j) || IsHexadecimal(w, i, j) {
      DecimalBelongs(w, i, j);
    } else if IsWord(w, i, "infinity") && j == i + 8 {
      WordBelongs(w, i, "infinity");
    } else if IsWord(w, i, "inf") && j == i + 3 {
      WordBelongs(w, i, "inf");
    } else {
      WordBelongs(w, i, "nan");
    }
  }

  /** A number is the longest wherever it is followed by something that does not belong to one. */
  lemma NumeralEnds(w: Text, n: nat)
    requires IsNumeral(w, n) && (n == |w| || !BelongsToNumber(w[n]))
    ensures IsLongestNumeral(w, n)
  {
    hide IsNumeral, IsUnsigned, NumberStart;
    StartOfNumeral(w, n);
    forall m | n < m
      ensures !IsNumeral(w, m)
    {
      if IsNumeral(w, m) {
        StartOfNumeral(w, m);
        NumeralSplits(w, m);
        UnsignedBelongs(w, NumberStart(w), m);
      }
    }
  }

  // ----- the longest number

  lemma DecimalStarts(w: Text, i: nat, j: nat)
    requires i <= |w| && (IsDecimal(w, i, j) || IsHexPrefix(w, i))
    ensures i < |w| && (IsDigit(w[i]) || w[i] == '.' as int)
  {
  }

  lemma NanEnds(w: Text, i: nat, j: nat)
    requires IsNan(w, i, j)
    ensures j <= NanEnd(w, i + 3)
  {
    if j > i + 3 {
      SpanIs(w, i + 4, j - 1, IsWordCharacter);
    }
  }

  lemma NanIs(w: Text, i: nat)
    requires IsWord(w, i, "nan")
    ensures i + 3 <= |w| && IsNan(w, i, NanEnd(w, i + 3))
  {
    if ScanCharacter(w, '(' as int, i + 3) {
      SpanHolds(w, i + 4, IsWordCharacter);
    }
  }

  /** The digits before an `x` are a single zero. */
  lemma DecimalBeforeX(w: Text, i: nat)
    requires IsHexPrefix(w, i)
    ensures ExponentEnd(w, MantissaEnd(w, i, IsDigit), 'e' as int, 'E' as int) == i + 1
  {
    SpanIs(w, i, i + 1, IsDigit);
  }

  lemma UnsignedEnds(w: Text, i: nat, j: nat)
    requires i <= |w| && IsUnsigned(w, i, j)
    ensures 0 < UnsignedEnd(w, i) && j <= UnsignedEnd(w, i)
  {
    hide IsDecimal, IsHexadecimal, IsNan, IsWord, NanEnd, MantissaEnd, ExponentEnd, IsHexPrefix;
    WordsApart(w, i);
    if IsNan(w, i, j) {
      NanEnds(w, i, j);
      NanIsWord(w, i, j);
    }
    if IsDecimal(w, i, j) {
      DecimalStarts(w, i, j);
      DecimalEnds(w, i, j);
      if IsHexPrefix(w, i) {
        DecimalBeforeX(w, i);
      }
    }
    if IsHexadecimal(w, i, j) {
      HexadecimalEnds(w, i, j);
      DecimalStarts(w, i, j);
    }
  }

  lemma NanIsWord(w: Text, i: nat, j: nat)
    requires IsNan(w, i, j)
    ensures IsWord(w, i, "nan")
  {
  }

  /** No two of the words stand in one place but `inf` in `infinity`, and none where there is a digit or a point. */
  lemma WordsApart(w: Text, i: nat)
    ensures IsWord(w, i, "infinity") || IsWord(w, i, "inf") ==> !IsWord(w, i, "nan")
    ensures i < |w| && (IsDigit(w[i]) || w[i] == '.' as int) ==>
              !IsWord(w, i, "infinity") && !IsWord(w, i, "inf") && !IsWord(w, i, "nan")
  {
    hide IsWord;
    if IsWord(w, i, "infinity") {
      WordStarts(w, i, "infinity");
    }
    if IsWord(w, i, "inf") {
      WordStarts(w, i, "inf");
    }
    if IsWord(w, i, "nan") {
      WordStarts(w, i, "nan");
    }
  }

  lemma UnsignedIs(w: Text, i: nat)
    requires i <= |w| && UnsignedEnd(w, i) > 0
    ensures UnsignedEnd(w, i) <= |w| && IsUnsigned(w, i, UnsignedEnd(w, i))
  {
    hide IsMantissa, IsExponent, IsNan, NanEnd, MantissaEnd, ExponentEnd, IsHexPrefix;
    if IsWord(w, i, "infinity") || IsWord(w, i, "inf") {
    } else if IsWord(w, i, "nan") {
      NanIs(w, i);
    } else if IsHexPrefix(w, i) && MantissaEnd(w, i + 2, IsHex) > i + 2 {
      MantissaIs(w, i + 2, IsHex);
      ExponentIs(w, MantissaEnd(w, i + 2, IsHex), 'p' as int, 'P' as int);
    } else {
      MantissaIs(w, i, IsDigit);
      ExponentIs(w, MantissaEnd(w, i, IsDigit), 'e' as int, 'E' as int);
    }
  }

  /** `strtod` takes the longest number that a text begins with, and nothing exactly if it begins with none. */
  lemma DoubleEndIsLongest(w: Text, n: nat)
    requires n > 0
    ensures DoubleEnd(w) == n <==> IsLongestNumeral(w, n)
    ensures DoubleEnd(w) == 0 <==> forall m :: !IsNumeral(w, m)
  {
    hide IsNumeral, UnsignedEnd;
    var i, d := NumberStart(w), DoubleEnd(w);
    if d > 0 {
      UnsignedIs(w, i);
      UnsignedStarts(w, i, d);
      NumeralFromStart(w, d);
    }
    forall m | IsNumeral(w, m)
      ensures 0 < d && m <= d
    {
      NumeralSplits(w, m);
      UnsignedEnds(w, i, m);
    }
  }

  lemma NumeralSplits(w: Text, n: nat)
    requires IsNumeral(w, n)
    ensures IsUnsigned(w, NumberStart(w), n) && n <= |w|
  {
    hide IsUnsigned, IsNumeralFrom;
    var j :| 0 <= j < n && IsNumeralFrom(w, j, n);
    NumeralStarts(w, j, n);
  }

  // ----- integers

  function DigitOf(base: nat): UChar -> bool {
    if base == 16 then IsHex else if base == 8 then IsOctal else IsDigit
  }

  /** The digits from `from` up to `n`, the sign coming before `j`: the base is told by how they start. */
  ghost predicate IsInteger(w: Text, j: nat, n: nat, from: nat, base: nat) {
    && j <= from < n <= |w| && AllIn(w, from, n, DigitOf(base))
    && (|| (base == 16 && from == j + 2 && IsHexPrefix(w, j))
        || (base == 8 && from == j && w[j] == '0' as int)
        || (base == 10 && from == j && w[j] != '0' as int))
  }

  /** The number, at most the largest and at least the smallest of 64 bits. */
  ghost function IntegerValue(w: Text, j: nat, n: nat, from: nat, base: nat): int
    requires IsInteger(w, j, n, from, base)
  {
    var m := NumberOf(w[from..n], base);
    Saturated(if j > 0 && w[j - 1] == '-' as int then -m else m)
  }

  lemma PartsCover(w: Text, i: nat, digit: UChar -> bool)
    requires i <= |w|
    ensures i <= Span(w, i, digit) <= MantissaEnd(w, i, digit)
    ensures i <= ExponentEnd(w, i, 'e' as int, 'E' as int) && i <= ExponentEnd(w, i, 'p' as int, 'P' as int)
  {
  }

  lemma HexDigitsAreTaken(w: Text, i: nat)
    requires i <= |w| && IsHexPrefix(w, i) && Span(w, i + 2, IsHex) > i + 2
    ensures Span(w, i + 2, IsHex) <= UnsignedEnd(w, i)
  {
    hide IsWord, Span, MantissaEnd, ExponentEnd, NanEnd;
    WordsApart(w, i);
    PartsCover(w, i + 2, IsHex);
    PartsCover(w, MantissaEnd(w, i + 2, IsHex), IsHex);
  }

  lemma DigitsAreTaken(w: Text, i: nat)
    requires i < |w| && IsDigit(w[i])
    ensures Span(w, i, IsDigit) <= UnsignedEnd(w, i) || IsHexPrefix(w, i)
    ensures IsHexPrefix(w, i) ==> Span(w, i, IsDigit) == i + 1
    ensures i + 1 <= UnsignedEnd(w, i)
  {
    hide IsWord, MantissaEnd, ExponentEnd, NanEnd;
    WordsApart(w, i);
    PartsCover(w, i, IsDigit);
    PartsCover(w, MantissaEnd(w, i, IsDigit), IsDigit);
    if IsHexPrefix(w, i) {
      SpanIs(w, i, i + 1, IsDigit);
      if MantissaEnd(w, i + 2, IsHex) > i + 2 {
        PartsCover(w, MantissaEnd(w, i + 2, IsHex), IsHex);
      }
    }
    assert Span(w, i, IsDigit) >= i + 1;
  }

  /** Where the digits start that `strtoll` reads, and in which base. */
  ghost function LongStart(w: Text, i: nat): (r: (nat, nat))
    requires i <= |w|
    ensures i <= r.0 <= |w|
  {
    if IsHexPrefix(w, i) && Span(w, i + 2, IsHex) > i + 2 then (i + 2, 16)
    else if ScanCharacter(w, '0' as int, i) then (i, 8)
    else (i, 10)
  }

  lemma ReadLongIs(w: Text)
    ensures var i := NumberStart(w);
            var (from, base) := LongStart(w, i);
            var to := Span(w, from, DigitOf(base));
            if from == to then ReadLong(w) == (0, 0)
            else IsInteger(w, i, to, from, base) && ReadLong(w) == (to, IntegerValue(w, i, to, from, base))
  {
    hide NumberOf, Saturated, NumberStart, Span;
    var i := NumberStart(w);
    var (from, base) := LongStart(w, i);
    SpanHolds(w, from, DigitOf(base));
  }

  lemma OctalDigitsAreDigits(w: Text, i: nat)
    requires i <= |w|
    ensures Span(w, i, IsOctal) <= Span(w, i, IsDigit)
  {
    hide Span;
    SpanHolds(w, i, IsOctal);
    SpanIsLongest(w, i, Span(w, i, IsOctal), IsDigit);
  }

  /** An integer that `strtod` takes ends where its digits do. */
  lemma IntegerEnds(w: Text, i: nat, from: nat, base: nat)
    requires i <= |w| && IsInteger(w, i, UnsignedEnd(w, i), from, base)
    ensures LongStart(w, i) == (from, base) && Span(w, from, DigitOf(base)) == UnsignedEnd(w, i)
  {
    hide Span, UnsignedEnd;
    var n := UnsignedEnd(w, i);
    SpanIsLongest(w, from, n, DigitOf(base));
    if IsHexPrefix(w, i) && Span(w, i + 2, IsHex) > i + 2 {
      HexDigitsAreTaken(w, i);
      assert base == 8 ==> !IsOctal(w[i + 1]);
    } else {
      DigitsAreTaken(w, i);
      OctalDigitsAreDigits(w, i);
    }
  }

  /**
    Where what `strtod` takes is an integer, `strtoll` takes just as much and reads its value; elsewhere
    it does not.
   */
  lemma ReadLongMeans(w: Text, from: nat, base: nat)
    requires DoubleEnd(w) > 0
    ensures var i, n := NumberStart(w), DoubleEnd(w);
            && (IsInteger(w, i, n, from, base) ==> ReadLong(w) == (n, IntegerValue(w, i, n, from, base)))
            && (ReadLong(w).0 == n ==>
                  IsInteger(w, i, n, LongStart(w, i).0, LongStart(w, i).1))
  {
    hide Span, UnsignedEnd, IntegerValue, ReadLong, LongStart, IsInteger;
    var i, n := NumberStart(w), DoubleEnd(w);
    ReadLongIs(w);
    if IsInteger(w, i, n, from, base) {
      IntegerEnds(w, i, from, base);
      IntegerHasDigits(w, i, n, from, base);
    }
  }

  lemma IntegerHasDigits(w: Text, i: nat, n: nat, from: nat, base: nat)
    requires IsInteger(w, i, n, from, base)
    ensures from < n
  {
  }

  // ----- numbers by their text alone

  /** A number, whose sign ends at `j`, stands for a long long if it is an integer and for a double otherwise. */
  ghost predicate StandsForFrom(t: Text, j: nat, v: Object) {
    && IsNumeralFrom(t, j, |t|)
    && match v
       case Integer(n, kind) =>
         && kind == LongLong
         && exists from, base :: IsInteger(t, j, |t|, from, base) && n == IntegerValue(t, j, |t|, from, base)
       case Double(text) => text == t && forall from, base :: !IsInteger(t, j, |t|, from, base)
       case _ => false
  }

  ghost predicate StandsFor(t: Text, v: Object) {
    exists j :: 0 <= j < |t| && StandsForFrom(t, j, v)
  }

  lemma SameWord(w: Text, n: nat, i: nat, word: string)
    requires n <= |w| && i + |word| <= n
    ensures IsWord(w, i, word) <==> IsWord(w[..n], i, word)
  {
    assert forall k :: 0 <= k < n ==> w[k] == w[..n][k];
  }

  lemma SameDigits(w: Text, n: nat, i: nat, j: nat, f: UChar -> bool)
    requires n <= |w| && j <= n
    ensures AllIn(w, i, j, f) <==> AllIn(w[..n], i, j, f)
  {
    assert forall k :: 0 <= k < n ==> w[k] == w[..n][k];
  }

  lemma SameMantissa(w: Text, n: nat, i: nat, j: nat, f: UChar -> bool)
    requires n <= |w| && j <= n
    ensures IsMantissa(w, i, j, f) <==> IsMantissa(w[..n], i, j, f)
  {
    hide AllIn;
    SameDigits(w, n, i, j, f);
    forall a: nat | a < j
      ensures w[a] == w[..n][a]
      ensures AllIn(w, i, a, f) <==> AllIn(w[..n], i, a, f)
      ensures AllIn(w, a + 1, j, f) <==> AllIn(w[..n], a + 1, j, f)
    {
      SameDigits(w, n, i, a, f);
      SameDigits(w, n, a + 1, j, f);
    }
  }

  lemma SameExponent(w: Text, n: nat, i: nat, j: nat, lower: UChar, upper: UChar)
    requires n <= |w| && j <= n
    ensures IsExponent(w, i, j, lower, upper) <==> IsExponent(w[..n], i, j, lower, upper)
  {
    hide AllIn;
    forall s: nat | i + 1 <= s < j
      ensures IsSign(w, i + 1, s) <==> IsSign(w[..n], i + 1, s)
      ensures AllIn(w, s, j, IsDigit) <==> AllIn(w[..n], s, j, IsDigit)
      ensures Has(w, i, lower, upper) <==> Has(w[..n], i, lower, upper)
    {
      SameDigits(w, n, s, j, IsDigit);
    }
  }

  lemma SameDecimal(w: Text, n: nat, i: nat, j: nat)
    requires n <= |w| && j <= n
    ensures IsDecimal(w, i, j) <==> IsDecimal(w[..n], i, j)
  {
    hide IsMantissa, IsExponent;
    forall k: nat | k <= j
      ensures IsMantissa(w, i, k, IsDigit) <==> IsMantissa(w[..n], i, k, IsDigit)
      ensures IsExponent(w, k, j, 'e' as int, 'E' as int) <==> IsExponent(w[..n], k, j, 'e' as int, 'E' as int)
    {
      SameMantissa(w, n, i, k, IsDigit);
      SameExponent(w, n, k, j, 'e' as int, 'E' as int);
    }
  }

  lemma SameHexadecimal(w: Text, n: nat, i: nat, j: nat)
    requires n <= |w| && j <= n
    ensures IsHexadecimal(w, i, j) <==> IsHexadecimal(w[..n], i, j)
  {
    hide IsMantissa, IsExponent;
    var from := i + 2;
    forall k: nat | k <= j
      ensures IsMantissa(w, from, k, IsHex) <==> IsMantissa(w[..n], from, k, IsHex)
      ensures IsMantissa(w, from, k, IsHex) ==> from < k
      ensures IsExponent(w, k, j, 'p' as int, 'P' as int) <==> IsExponent(w[..n], k, j, 'p' as int, 'P' as int)
    {
      SameMantissa(w, n, from, k, IsHex);
      if IsMantissa(w, from, k, IsHex) {
        MantissaIsSome(w, from, k, IsHex);
      }
      SameExponent(w, n, k, j, 'p' as int, 'P' as int);
    }
  }

  lemma MantissaIsSome(w: Text, i: nat, j: nat, f: UChar -> bool)
    requires IsMantissa(w, i, j, f)
    ensures i < j
  {
  }

  lemma SameNan(w: Text, n: nat, i: nat, j: nat)
    requires n <= |w| && j <= n
    ensures IsNan(w, i, j) <==> IsNan(w[..n], i, j)
  {
    hide IsWord, AllIn;
    if i + 3 <= n {
      SameWord(w, n, i, "nan");
    }
    if i + 4 < j {
      SameDigits(w, n, i + 4, j - 1, IsWordCharacter);
    }
  }

  lemma SameUnsigned(w: Text, n: nat, i: nat, j: nat)
    requires n <= |w| && i < j <= n
    ensures IsUnsigned(w, i, j) <==> IsUnsigned(w[..n], i, j)
  {
    hide IsWord, IsDecimal, IsHexadecimal, IsNan;
    if j == i + 8 {
      SameWord(w, n, i, "infinity");
    }
    if j == i + 3 {
      SameWord(w, n, i, "inf");
    }
    SameNan(w, n, i, j);
    SameDecimal(w, n, i, j);
    SameHexadecimal(w, n, i, j);
  }

  lemma SameNumeral(w: Text, n: nat, j: nat)
    requires n <= |w|
    ensures IsNumeralFrom(w, j, n) <==> IsNumeralFrom(w[..n], j, n)
  {
    hide IsUnsigned, AllIn;
    if j < n {
      SameUnsigned(w, n, j, n);
      forall i: nat | i <= j
        ensures AllIn(w, 0, i, IsSpace) <==> AllIn(w[..n], 0, i, IsSpace)
        ensures IsSign(w, i, j) <==> IsSign(w[..n], i, j)
      {
        SameDigits(w, n, 0, i, IsSpace);
      }
    }
  }

  lemma SameInteger(w: Text, n: nat, j: nat, from: nat, base: nat)
    requires n <= |w|
    ensures IsInteger(w, j, n, from, base) <==> IsInteger(w[..n], j, n, from, base)
    ensures IsInteger(w, j, n, from, base) ==>
              IntegerValue(w, j, n, from, base) == IntegerValue(w[..n], j, n, from, base)
  {
    hide AllIn, NumberOf, Saturated;
    SameDigits(w, n, from, n, DigitOf(base));
    if j <= from <= n {
      assert w[from..n] == w[..n][from..n];
    }
  }

  lemma StartOfNumeral(w: Text, n: nat)
    requires IsNumeral(w, n)
    ensures IsNumeralFrom(w, NumberStart(w), n) && NumberStart(w) < n
  {
    hide IsUnsigned, IsNumeralFrom;
    var j :| 0 <= j < n && IsNumeralFrom(w, j, n);
    NumeralStarts(w, j, n);
  }

  /** What a numeral stands for, from the place after its sign. */
  lemma StandsForFromIff(w: Text, v: Object)
    requires DoubleEnd(w) > 0
    ensures var n := DoubleEnd(w);
            StandsForFrom(w[..n], NumberStart(w), v) <==>
            v == if ReadLong(w).0 == n then Integer(ReadLong(w).1, LongLong) else Double(w[..n])
  {
    hide IsNumeralFrom, IsInteger, IntegerValue, ReadLong, DoubleEnd, NumberStart, IsNumeral, LongStart;
    var n, i := DoubleEnd(w), NumberStart(w);
    var t := w[..n];
    DoubleEndIsLongest(w, n);
    StartOfNumeral(w, n);
    SameNumeral(w, n, i);
    forall from, base
      ensures IsInteger(w, i, n, from, base) <==> IsInteger(t, i, n, from, base)
      ensures IsInteger(w, i, n, from, base) ==>
                IsInteger(t, i, n, from, base) && ReadLong(w) == (n, IntegerValue(t, i, n, from, base))
    {
      SameInteger(w, n, i, from, base);
      ReadLongMeans(w, from, base);
    }
    if ReadLong(w).0 == n {
      var (from, base) := LongStart(w, i);
      ReadLongMeans(w, from, base);
      assert IsInteger(t, i, |t|, from, base);
    } else {
      assert forall from, base :: !IsInteger(t, i, |t|, from, base);
    }
  }

  /** What a numeral stands for is what is read, whatever follows it. */
  lemma StandsForIff(w: Text, v: Object)
    requires DoubleEnd(w) > 0
    ensures var n := DoubleEnd(w);
            StandsFor(w[..n], v) <==>
            v == if ReadLong(w).0 == n then Integer(ReadLong(w).1, LongLong) else Double(w[..n])
  {
    hide IsNumeralFrom, StandsForFrom, ReadLong, DoubleEnd, NumberStart, IsNumeral;
    var n, i := DoubleEnd(w), NumberStart(w);
    DoubleEndIsLongest(w, n);
    StartOfNumeral(w, n);
    StandsForFromIff(w, v);
    forall j: nat | j < n && StandsForFrom(w[..n], j, v)
      ensures j == i
    {
      StandsForNumeral(w[..n], j, v);
      SameNumeral(w, n, j);
      NumeralStarts(w, j, n);
    }
  }

  lemma StandsForNumeral(t: Text, j: nat, v: Object)
    requires StandsForFrom(t, j, v)
    ensures IsNumeralFrom(t, j, |t|)
  {
  }

  /**
    A number is read exactly as the longest one that stands at a place, within the units looked at, and to
    what its text stands for.
   */
  lemma ParseFloatMeans(c: Text, p: nat, v: Object, q: nat)
    requires p <= |c|
    ensures ParseFloat(c, p) == Some((v, q)) <==>
            && p < q <= p + |Window(c, p)|
            && IsLongestNumeral(Window(c, p), q - p) && StandsFor(c[p..q], v)
  {
    hide IsLongestNumeral, StandsFor, ReadLong, DoubleEnd;
    var w := Window(c, p);
    if DoubleEnd(w) > 0 {
      var n := DoubleEnd(w);
      assert w[..n] == c[p..p + n];
      StandsForIff(w, v);
      DoubleEndIsLongest(w, n);
    }
    if p < q {
      DoubleEndIsLongest(w, q - p);
    }
  }

  lemma SameNumerals(w: Text, n: nat)
    requires n <= |w|
    ensures IsNumeral(w, n) <==> IsNumeral(w[..n], n)
  {
    hide IsNumeralFrom;
    forall j: nat
      ensures IsNumeralFrom(w, j, n) <==> IsNumeralFrom(w[..n], j, n)
    {
      SameNumeral(w, n, j);
    }
  }
}

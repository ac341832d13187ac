/** How ConvertUTF.c recognizes, reads and writes one character of UTF-8. */
module Utf8Syntax {
  import opened Unicode

  /** The table of trailing byte counts, by first byte. */
  function TrailingBytesForUTF8(b: UTF8): (n: nat)
    ensures n <= 5
  {
    if b < 0xC0 then 0 else if b < 0xE0 then 1 else if b < 0xF0 then 2
    else if b < 0xF8 then 3 else if b < 0xFC then 4 else 5
  }

  /** The magic values subtracted after the bytes have been added up. */
  function OffsetsFromUTF8(n: nat): UTF32
    requires n <= 5
  {
    match n
    case 0 => 0
    case 1 => 0x00003080
    case 2 => 0x000E2080
    case 3 => 0x03C82080
    case 4 => 0xFA082080
    case 5 => 0x82082080
  }

  function FirstByteMark(n: nat): UTF8
    requires n <= 6
  {
    match n
    case 0 => 0x00
    case 1 => 0x00
    case 2 => 0xC0
    case 3 => 0xE0
    case 4 => 0xF0
    case 5 => 0xF8
    case 6 => 0xFC
  }

  /** `isLegalUTF8`: the cases fall through from the last byte to the first. */
  predicate IsLegalUTF8(s: seq<UTF8>, length: nat)
    requires 1 <= length <= |s|
  {
    && length <= 4
    && (length >= 4 ==> 0x80 <= s[3] <= 0xBF)
    && (length >= 3 ==> 0x80 <= s[2] <= 0xBF)
    && (length >= 2 ==>
          && 0x80 <= s[1] <= 0xBF
          && (match s[0]
              case 0xE0 => s[1] >= 0xA0
              case 0xED => s[1] <= 0x9F
              case 0xF0 => s[1] >= 0x90
              case 0xF4 => s[1] <= 0x8F
              case _ => s[1] >= 0x80))
    && !(0x80 <= s[0] < 0xC2)
    && s[0] <= 0xF4
  }

  /** `ch <<= 6; ch += *source++` */
  function Shifted(ch: UTF32, b: UTF8): UTF32 {
    (ch << 6) + (b as UTF32)
  }

  /** The bytes added up with shifts of six, less the offset. */
  function Accumulate(s: seq<UTF8>, extra: nat): UTF32
    requires extra < |s|
  {
    if extra == 0 then s[0] as UTF32 else Shifted(Accumulate(s, extra - 1), s[extra])
  }

  function WithoutOffset(ch: UTF32, extra: nat): UTF32
    requires extra <= 5
  {
    ch - OffsetsFromUTF8(extra)
  }

  function Read8(s: seq<UTF8>, extra: nat): UTF32
    requires extra < |s| && extra <= 5
  {
    WithoutOffset(Accumulate(s, extra), extra)
  }

  /** How many bytes a value takes, and the value written, which replaces anything too large. */
  function BytesToWrite(ch: UTF32): (n: nat)
    ensures 1 <= n <= 4
  {
    if ch < 0x80 then 1 else if ch < 0x800 then 2 else if ch < 0x10000 then 3 else if ch < 0x110000 then 4 else 3
  }

  /** `(UTF8)((ch | byteMark) & byteMask)` */
  function MaskedByte(ch: UTF32): UTF8 {
    ((ch | 0x80) & 0xBF) as UTF8
  }

  /** `(UTF8)(ch | firstByteMark[n])` */
  function MarkedByte(ch: UTF32, n: nat): UTF8
    requires n <= 6
  {
    ((ch | (FirstByteMark(n) as UTF32)) & 0xFF) as UTF8
  }

  /** The bytes written back to front for `n` bytes of `ch`, the first of them marked for `total`. */
  function Written(ch: UTF32, n: nat, total: nat): (s: seq<UTF8>)
    requires 1 <= n <= total <= 4
    ensures |s| == n
  {
    if n == 1 then [MarkedByte(ch, total)] else Written(ch >> 6, n - 1, total) + [MaskedByte(ch)]
  }

  lemma WrittenUnfolds(ch: UTF32, total: nat)
    requires 1 <= total <= 4
    ensures Written(ch, 1, total) == [MarkedByte(ch, total)]
    ensures total >= 2 ==> Written(ch, 2, total) == [MarkedByte(ch >> 6, total), MaskedByte(ch)]
    ensures total >= 3 ==>
              Written(ch, 3, total) == [MarkedByte(ch >> 6 >> 6, total), MaskedByte(ch >> 6), MaskedByte(ch)]
    ensures total >= 4 ==>
              Written(ch, 4, total) ==
              [MarkedByte(ch >> 6 >> 6 >> 6, total), MaskedByte(ch >> 6 >> 6), MaskedByte(ch >> 6), MaskedByte(ch)]
  {
    hide MarkedByte, MaskedByte;
    if total >= 3 {
      assert Written(ch >> 6, 2, total) == [MarkedByte(ch >> 6 >> 6, total), MaskedByte(ch >> 6)];
    }
    if total >= 4 {
      assert Written(ch >> 6 >> 6, 2, total) == [MarkedByte(ch >> 6 >> 6 >> 6, total), MaskedByte(ch >> 6 >> 6)];
      assert Written(ch >> 6, 3, total) ==
          [MarkedByte(ch >> 6 >> 6 >> 6, total), MaskedByte(ch >> 6 >> 6), MaskedByte(ch >> 6)];
    }
  }

  /** Or-ing with the mark and masking is putting six bits behind the mark of a trailing byte. */
  lemma MasksAreMarks(ch: UTF32)
    ensures MaskedByte(ch) == Trailing(ch, 0) && MaskedByte(ch >> 6) == Trailing(ch, 6)
    ensures MaskedByte(ch >> 6 >> 6) == Trailing(ch, 12)
    ensures ch < 0x80 ==> MarkedByte(ch, 1) == ((ch & 0x7F) as bv8)
    ensures ch < 0x800 ==> MarkedByte(ch >> 6, 2) == 0xC0 | (((ch >> 6) & 0x1F) as bv8)
    ensures ch < 0x10000 ==> MarkedByte(ch >> 6 >> 6, 3) == 0xE0 | (((ch >> 12) & 0x0F) as bv8)
    ensures ch < 0x110000 ==> MarkedByte(ch >> 6 >> 6 >> 6, 4) == 0xF0 | (((ch >> 18) & 0x07) as bv8)
  {
  }

  lemma WrittenIsEncode8(ch: UTF32)
    requires ch <= 0x10FFFF
    ensures Written(ch, BytesToWrite(ch), BytesToWrite(ch)) == Encode8(ch)
  {
    WrittenUnfolds(ch, BytesToWrite(ch));
    MasksAreMarks(ch);
    hide MarkedByte, MaskedByte, Trailing, Written;
  }

  /** The value of up to four bytes, by their number. */
  function ValueOfBytes(bytes: nat, a: UTF8, b: UTF8, c: UTF8, d: UTF8): UTF32
    requires 1 <= bytes <= 4
  {
    match bytes
    case 1 => WithoutOffset(a as UTF32, 0)
    case 2 => WithoutOffset(Shifted(a as UTF32, b), 1)
    case 3 => WithoutOffset(Shifted(Shifted(a as UTF32, b), c), 2)
    case 4 => WithoutOffset(Shifted(Shifted(Shifted(a as UTF32, b), c), d), 3)
  }

  function Byte(s: seq<UTF8>, i: nat): UTF8 {
    if i < |s| then s[i] else 0
  }

  lemma BytesAreEncoded(ch: UTF32)
    requires ch <= 0x10FFFF
    ensures |Encode8(ch)| == BytesToWrite(ch)
  {
  }

  lemma AccumulateUnfolds(s: seq<UTF8>, extra: nat)
    requires extra < |s| && 1 <= extra <= 3
    ensures extra == 1 ==> Accumulate(s, extra) == Shifted(s[0] as UTF32, s[1])
    ensures extra == 2 ==> Accumulate(s, extra) == Shifted(Shifted(s[0] as UTF32, s[1]), s[2])
    ensures extra == 3 ==> Accumulate(s, extra) == Shifted(Shifted(Shifted(s[0] as UTF32, s[1]), s[2]), s[3])
  {
    hide Shifted;
    assert Accumulate(s, 0) == (s[0] as UTF32);
    assert Accumulate(s, 1) == Shifted(Accumulate(s, 0), s[1]);
    if extra >= 2 {
      assert Accumulate(s, 2) == Shifted(Accumulate(s, 1), s[2]);
    }
    if extra == 3 {
      assert Accumulate(s, 3) == Shifted(Accumulate(s, 2), s[3]);
    }
  }

  lemma AccumulateStarts(s: seq<UTF8>)
    requires |s| > 0
    ensures Accumulate(s, 0) == (s[0] as UTF32)
  {
  }

  lemma Read8Unfolds(s: seq<UTF8>, extra: nat)
    requires extra < |s| && extra <= 3
    ensures Read8(s, extra) == ValueOfBytes(extra + 1, s[0], Byte(s, 1), Byte(s, 2), Byte(s, 3))
  {
    hide Shifted, WithoutOffset, Accumulate;
    if extra == 0 {
      AccumulateStarts(s);
    } else {
      AccumulateUnfolds(s, extra);
    }
  }

  /** The bit arithmetic of reading back what was written, without the sequences. */
  lemma ValueOfEncoded1(c: UTF32)
    requires c < 0x80
    ensures ValueOfBytes(1, (c & 0x7F) as bv8, 0, 0, 0) == c
  {
  }

  lemma ValueOfEncoded2(c: UTF32)
    requires 0x80 <= c < 0x800
    ensures ValueOfBytes(2, 0xC0 | (((c >> 6) & 0x1F) as bv8), Trailing(c, 0), 0, 0) == c
  {
  }

  lemma ValueOfEncoded3(c: UTF32)
    requires 0x800 <= c < 0x10000
    ensures ValueOfBytes(3, 0xE0 | (((c >> 12) & 0x0F) as bv8), Trailing(c, 6), Trailing(c, 0), 0) == c
  {
  }

  lemma ValueOfEncoded4(c: UTF32)
    requires 0x10000 <= c <= 0x10FFFF
    ensures ValueOfBytes(4, 0xF0 | (((c >> 18) & 0x07) as bv8), Trailing(c, 12), Trailing(c, 6), Trailing(c, 0)) == c
  {
  }

  /** What is written for a scalar value is legal and reads back as that value. */
  lemma EncodedIsLegal(c: UTF32)
    requires Scalar(c)
    ensures var e := Encode8(c);
            && TrailingBytesForUTF8(e[0]) + 1 == |e|
            && IsLegalUTF8(e, |e|)
            && Read8(e, |e| - 1) == c
  {
    Read8Unfolds(Encode8(c), |Encode8(c)| - 1);
    if c < 0x80 {
      ValueOfEncoded1(c);
    } else if c < 0x800 {
      ValueOfEncoded2(c);
    } else if c < 0x10000 {
      ValueOfEncoded3(c);
    } else {
      ValueOfEncoded4(c);
    }
    hide Read8, ValueOfBytes;
  }

  lemma EncodedOfValue2(a: UTF8, b: UTF8)
    requires 0xC2 <= a <= 0xDF && 0x80 <= b <= 0xBF
    ensures var c := ValueOfBytes(2, a, b, 0, 0);
            0x80 <= c < 0x800 && 0xC0 | (((c >> 6) & 0x1F) as bv8) == a && Trailing(c, 0) == b
  {
  }

  lemma EncodedOfValue3(a: UTF8, b: UTF8, d: UTF8)
    requires 0xE0 <= a <= 0xEF && 0x80 <= b <= 0xBF && 0x80 <= d <= 0xBF
    requires (a == 0xE0 ==> b >= 0xA0) && (a == 0xED ==> b <= 0x9F)
    ensures var c := ValueOfBytes(3, a, b, d, 0);
            && 0x800 <= c < 0x10000 && Scalar(c)
            && 0xE0 | (((c >> 12) & 0x0F) as bv8) == a && Trailing(c, 6) == b && Trailing(c, 0) == d
  {
  }

  /** The low bits of four bytes, side by side. */
  function Joined4(a: UTF8, b: UTF8, d: UTF8, e: UTF8): UTF32 {
    (((a & 0x07) as UTF32) << 18) | (((b & 0x3F) as UTF32) << 12) | (((d & 0x3F) as UTF32) << 6) | ((e & 0x3F) as UTF32)
  }

  lemma Value4Joins(a: UTF8, b: UTF8, d: UTF8, e: UTF8)
    requires 0xF0 <= a <= 0xF4 && 0x80 <= b <= 0xBF && 0x80 <= d <= 0xBF && 0x80 <= e <= 0xBF
    ensures ValueOfBytes(4, a, b, d, e) == Joined4(a, b, d, e)
  {
  }

  lemma Joined4Range(a: UTF8, b: UTF8, d: UTF8, e: UTF8)
    requires 0xF0 <= a <= 0xF4 && 0x80 <= b <= 0xBF
    requires (a == 0xF0 ==> b >= 0x90) && (a == 0xF4 ==> b <= 0x8F)
    ensures 0x10000 <= Joined4(a, b, d, e) <= 0x10FFFF
  {
  }

  lemma EncodedOfValue4(a: UTF8, b: UTF8, d: UTF8, e: UTF8)
    requires 0xF0 <= a <= 0xF4 && 0x80 <= b <= 0xBF && 0x80 <= d <= 0xBF && 0x80 <= e <= 0xBF
    requires (a == 0xF0 ==> b >= 0x90) && (a == 0xF4 ==> b <= 0x8F)
    ensures var c := ValueOfBytes(4, a, b, d, e);
            && 0x10000 <= c <= 0x10FFFF && 0xF0 | (((c >> 18) & 0x07) as bv8) == a
            && Trailing(c, 12) == b && Trailing(c, 6) == d && Trailing(c, 0) == e
  {
    Value4Joins(a, b, d, e);
    Joined4Range(a, b, d, e);
    hide ValueOfBytes;
    assert Trailing(Joined4(a, b, d, e), 12) == b;
    assert Trailing(Joined4(a, b, d, e), 6) == d;
  }

  lemma EncodeOfValue(n: nat, a: UTF8, b: UTF8, d: UTF8, e: UTF8)
    requires 1 <= n <= 4
    requires n == 1 ==> a < 0x80
    requires n == 2 ==> 0xC2 <= a <= 0xDF
    requires n == 3 ==> 0xE0 <= a <= 0xEF && (a == 0xE0 ==> b >= 0xA0) && (a == 0xED ==> b <= 0x9F)
    requires n == 4 ==> 0xF0 <= a <= 0xF4 && (a == 0xF0 ==> b >= 0x90) && (a == 0xF4 ==> b <= 0x8F)
    requires n >= 2 ==> 0x80 <= b <= 0xBF
    requires n >= 3 ==> 0x80 <= d <= 0xBF
    requires n >= 4 ==> 0x80 <= e <= 0xBF
    ensures Scalar(ValueOfBytes(n, a, b, d, e))
    ensures Encode8(ValueOfBytes(n, a, b, d, e)) == [a, b, d, e][..n]
  {
    if n == 1 {
      assert ValueOfBytes(1, a, b, d, e) == (a as UTF32);
    } else if n == 2 {
      EncodedOfValue2(a, b);
      assert ValueOfBytes(2, a, b, d, e) == ValueOfBytes(2, a, b, 0, 0);
    } else if n == 3 {
      EncodedOfValue3(a, b, d);
      assert ValueOfBytes(3, a, b, d, e) == ValueOfBytes(3, a, b, d, 0);
    } else {
      EncodedOfValue4(a, b, d, e);
    }
    hide ValueOfBytes, Trailing;
  }

  /** What is legal is the encoding of the scalar value it reads as. */
  lemma LegalIsEncoded(s: seq<UTF8>)
    requires |s| > 0 && TrailingBytesForUTF8(s[0]) + 1 == |s| && IsLegalUTF8(s, |s|)
    ensures Scalar(Read8(s, |s| - 1)) && Encode8(Read8(s, |s| - 1)) == s
  {
    hide Read8, ValueOfBytes, Scalar, Encode8, IsLegalUTF8, TrailingBytesForUTF8;
    LegalBytes(s);
    Read8Unfolds(s, |s| - 1);
    EncodeOfValue(|s|, s[0], Byte(s, 1), Byte(s, 2), Byte(s, 3));
    assert [s[0], Byte(s, 1), Byte(s, 2), Byte(s, 3)][..|s|] == s;
  }

  lemma LegalBytes(s: seq<UTF8>)
    requires |s| > 0 && TrailingBytesForUTF8(s[0]) + 1 == |s| && IsLegalUTF8(s, |s|)
    ensures var n, a, b := |s|, s[0], Byte(s, 1);
            && n <= 4
            && (n == 1 ==> a < 0x80) && (n == 2 ==> 0xC2 <= a <= 0xDF)
            && (n == 3 ==> 0xE0 <= a <= 0xEF && (a == 0xE0 ==> b >= 0xA0) && (a == 0xED ==> b <= 0x9F))
            && (n == 4 ==> 0xF0 <= a <= 0xF4 && (a == 0xF0 ==> b >= 0x90) && (a == 0xF4 ==> b <= 0x8F))
            && (n >= 2 ==> 0x80 <= b <= 0xBF)
            && (n >= 3 ==> 0x80 <= Byte(s, 2) <= 0xBF) && (n >= 4 ==> 0x80 <= Byte(s, 3) <= 0xBF)
  {
  }

  predicate IsLegalUTF8Sequence(s: seq<UTF8>)
    requires |s| > 0
  {
    TrailingBytesForUTF8(s[0]) + 1 <= |s| && IsLegalUTF8(s, TrailingBytesForUTF8(s[0]) + 1)
  }

  lemma {:induction false} AccumulateOfPrefix(s: seq<UTF8>, t: seq<UTF8>, extra: nat)
    requires extra < |t| && t <= s
    ensures Accumulate(t, extra) == Accumulate(s, extra)
  {
    hide Shifted;
    assert s[extra] == t[extra];
    if extra == 0 {
    } else {
      AccumulateOfPrefix(s, t, extra - 1);
    }
  }

  lemma Read8OfPrefix(s: seq<UTF8>, t: seq<UTF8>, extra: nat)
    requires extra < |t| && extra <= 3 && t <= s
    ensures Read8(t, extra) == Read8(s, extra)
  {
    hide Accumulate, Shifted, WithoutOffset;
    AccumulateOfPrefix(s, t, extra);
  }

  /** The test of the first byte and `isLegalUTF8` finds a scalar value at the front if there is one. */
  lemma LegalStarts(s: seq<UTF8>)
    requires |s| > 0 && IsLegalUTF8Sequence(s)
    ensures var n := TrailingBytesForUTF8(s[0]) + 1;
            n <= 4 && Starts8(s, Read8(s, n - 1)) && Encode8(Read8(s, n - 1)) == s[..n]
  {
    var n := TrailingBytesForUTF8(s[0]) + 1;
    assert IsLegalUTF8(s[..n], n);
    LegalIsEncoded(s[..n]);
    Read8OfPrefix(s, s[..n], n - 1);
    hide Read8, Encode8;
  }

  lemma StartIsLegal(s: seq<UTF8>, c: UTF32)
    requires Starts8(s, c)
    ensures |s| > 0 && IsLegalUTF8Sequence(s)
    ensures |Encode8(c)| == TrailingBytesForUTF8(s[0]) + 1 && c == Read8(s, |Encode8(c)| - 1)
  {
    EncodedIsLegal(c);
    var e := Encode8(c);
    assert forall i :: 0 <= i < |e| ==> s[i] == e[i];
    Read8OfPrefix(s, e, |e| - 1);
    hide Read8, Encode8;
  }

  lemma IllegalIsUnconvertible(s: seq<UTF8>)
    requires |s| > 0 && !IsLegalUTF8Sequence(s)
    ensures Unconvertible8(s)
  {
    forall c
      ensures !Starts8(s, c)
    {
      if Starts8(s, c) {
        StartIsLegal(s, c);
      }
    }
  }

  /** No two scalar values start alike. */
  lemma StartIsUnique(s: seq<UTF8>, c: UTF32, d: UTF32)
    requires Starts8(s, c) && Starts8(s, d)
    ensures c == d
  {
    StartIsLegal(s, c);
    StartIsLegal(s, d);
  }

  /** `findMaximalSubpartOfIllFormedUTF8Sequence`, by the first bytes of well-formed sequences. */
  function FindMaximalSubpart(s: seq<UTF8>): (n: nat)
    requires s == [] || !IsLegalUTF8Sequence(s)
    ensures n <= |s| && (s != [] ==> 1 <= n <= 3)
  {
    if s == [] then
      0
    else
      var b1 := s[0];
      if 0xC2 <= b1 <= 0xDF then
        1
      else if |s| == 1 then
        1
      else
        var b2 := s[1];
        if b1 == 0xE0 then
          if 0xA0 <= b2 <= 0xBF then 2 else 1
        else if 0xE1 <= b1 <= 0xEC then
          if 0x80 <= b2 <= 0xBF then 2 else 1
        else if b1 == 0xED then
          if 0x80 <= b2 <= 0x9F then 2 else 1
        else if 0xEE <= b1 <= 0xEF then
          if 0x80 <= b2 <= 0xBF then 2 else 1
        else if b1 == 0xF0 then
          if 0x90 <= b2 <= 0xBF then ThirdByte(s) else 1
        else if 0xF1 <= b1 <= 0xF3 then
          if 0x80 <= b2 <= 0xBF then ThirdByte(s) else 1
        else if b1 == 0xF4 then
          if 0x80 <= b2 <= 0x8F then ThirdByte(s) else 1
        else
          // the assertion at the end of the function
          assert 0x80 <= b1 <= 0xC1 || b1 >= 0xF5;
          1
  }

  function ThirdByte(s: seq<UTF8>): (n: nat)
    requires |s| >= 2
    ensures n <= |s|
  {
    if |s| == 2 then 2 else if 0x80 <= s[2] <= 0xBF then 3 else 2
  }

  /** The bytes that can come second, third and fourth, by the first. */
  predicate SecondFits(b1: UTF8, b2: UTF8) {
    && 0x80 <= b2 <= 0xBF
    && (b1 == 0xE0 ==> b2 >= 0xA0) && (b1 == 0xED ==> b2 <= 0x9F)
    && (b1 == 0xF0 ==> b2 >= 0x90) && (b1 == 0xF4 ==> b2 <= 0x8F)
  }

  /** A proper initial part of a well-formed sequence, by its bytes. */
  predicate Begins(p: seq<UTF8>) {
    && 1 <= |p| <= 3
    && 0xC2 <= p[0] <= 0xF4
    && |p| <= TrailingBytesForUTF8(p[0])
    && (|p| >= 2 ==> SecondFits(p[0], p[1]))
    && (|p| >= 3 ==> 0x80 <= p[2] <= 0xBF)
  }

  lemma BeginsIsBegun(p: seq<UTF8>)
    requires Begins(p)
    ensures BeginsWellFormed(p)
  {
    hide Read8, Scalar, Encode8, IsLegalUTF8, SecondFits;
    BeginsFacts(p);
    var b2: UTF8 := if |p| >= 2 then p[1] else if p[0] == 0xE0 then 0xA0 else if p[0] == 0xF0 then 0x90 else 0x80;
    var b3: UTF8 := if |p| >= 3 then p[2] else 0x80;
    var n := TrailingBytesForUTF8(p[0]) + 1;
    var e := [p[0], b2, b3, 0x80][..n];
    FilledIsLegal(e, n, p[0], b2, b3);
    LegalIsEncoded(e);
    assert p <= e;
  }

  /** The second byte of an initial part, or one that may follow it. */
  lemma BeginsFacts(p: seq<UTF8>)
    requires Begins(p)
    ensures 2 <= TrailingBytesForUTF8(p[0]) + 1 <= 4 && |p| <= 3
    ensures |p| < 2 ==> SecondFits(p[0], if p[0] == 0xE0 then 0xA0 else if p[0] == 0xF0 then 0x90 else 0x80)
  {
  }

  lemma FilledIsLegal(e: seq<UTF8>, n: nat, b1: UTF8, b2: UTF8, b3: UTF8)
    requires 2 <= n <= 4 && e == [b1, b2, b3, 0x80][..n]
    requires 0xC2 <= b1 <= 0xF4 && SecondFits(b1, b2) && 0x80 <= b3 <= 0xBF
    ensures IsLegalUTF8(e, n)
  {
    assert e[0] == b1 && e[1] == b2;
  }

  lemma BegunBegins(p: seq<UTF8>, c: UTF32)
    requires Scalar(c) && p <= Encode8(c) && p != [] && |p| < |Encode8(c)|
    ensures Begins(p)
  {
    EncodedIsLegal(c);
    var e := Encode8(c);
    assert forall i :: 0 <= i < |p| ==> p[i] == e[i];
    hide Encode8, Read8;
  }

  /** Nothing longer than what is found can begin a well-formed sequence. */
  lemma FoundIsLongest(s: seq<UTF8>, m: nat)
    requires s != [] && !IsLegalUTF8Sequence(s) && FindMaximalSubpart(s) < m <= |s|
    ensures !BeginsWellFormed(s[..m])
  {
    if c :| Scalar(c) && s[..m] <= Encode8(c) {
      if m == |Encode8(c)| {
        assert s[..m] == Encode8(c);
        StartIsLegal(s, c);
        assert false;
      } else {
        BegunBegins(s[..m], c);
        assert false;
      }
    }
  }

  /** The case analysis finds the maximal subpart of definition D93b. */
  lemma FoundIsMaximalSubpart(s: seq<UTF8>)
    requires s != [] && !IsLegalUTF8Sequence(s)
    ensures MaximalSubpart(s, FindMaximalSubpart(s))
  {
    var n := FindMaximalSubpart(s);
    if n > 1 {
      assert Begins(s[..n]);
      BeginsIsBegun(s[..n]);
    }
    forall m | n < m <= |s|
      ensures !BeginsWellFormed(s[..m])
    {
      FoundIsLongest(s, m);
    }
  }
}

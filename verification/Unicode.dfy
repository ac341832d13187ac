/**
  Scalar values and their encodings as UTF-8 (section 3 of RFC 3629) and UTF-16 (section 2.1 of
  RFC 2781): what the converters of ConvertUTF.c are to compute.
 */
module Unicode {
  type UTF8 = bv8
  type UTF16 = bv16
  type UTF32 = bv32

  predicate Scalar(c: UTF32) {
    c <= 0x10FFFF && !(0xD800 <= c <= 0xDFFF)
  }

  predicate Scalars(cs: seq<UTF32>) {
    forall i :: 0 <= i < |cs| ==> Scalar(cs[i])
  }

  /** The six bits of `c` from `shift` on, behind the mark of a trailing byte. */
  function Trailing(c: UTF32, shift: bv5): UTF8 {
    0x80 | (((c >> shift) & 0x3F) as bv8)
  }

  /** Any value up to 0x10FFFF in the shortest form that fits it; for a scalar value its UTF-8. */
  function Encode8(c: UTF32): (s: seq<UTF8>)
    ensures 1 <= |s| <= 4
  {
    if c < 0x80 then
      [(c & 0x7F) as bv8]
    else if c < 0x800 then
      [0xC0 | (((c >> 6) & 0x1F) as bv8), Trailing(c, 0)]
    else if c < 0x10000 then
      [0xE0 | (((c >> 12) & 0x0F) as bv8), Trailing(c, 6), Trailing(c, 0)]
    else
      [0xF0 | (((c >> 18) & 0x07) as bv8), Trailing(c, 12), Trailing(c, 6), Trailing(c, 0)]
  }

  function Encode16(c: UTF32): (s: seq<UTF16>)
    ensures 1 <= |s| <= 2
  {
    if c < 0x10000 then
      [(c & 0xFFFF) as bv16]
    else
      [0xD800 | ((((c - 0x10000) >> 10) & 0x3FF) as bv16), 0xDC00 | (((c - 0x10000) & 0x3FF) as bv16)]
  }

  function EncodeAll8(cs: seq<UTF32>): seq<UTF8> {
    if cs == [] then [] else EncodeAll8(cs[..|cs| - 1]) + Encode8(cs[|cs| - 1])
  }

  function EncodeAll16(cs: seq<UTF32>): seq<UTF16> {
    if cs == [] then [] else EncodeAll16(cs[..|cs| - 1]) + Encode16(cs[|cs| - 1])
  }

  lemma EncodeAllAppend(cs: seq<UTF32>, c: UTF32)
    ensures EncodeAll8(cs + [c]) == EncodeAll8(cs) + Encode8(c)
    ensures EncodeAll16(cs + [c]) == EncodeAll16(cs) + Encode16(c)
  {
    assert (cs + [c])[..|cs|] == cs;
  }

  function ValueOfTwo(a: UTF8, b: UTF8): UTF32 {
    (((a as bv32) - 0xC0) << 6) + ((b as bv32) - 0x80)
  }

  function ValueOfThree(a: UTF8, b: UTF8, d: UTF8): UTF32 {
    (((a as bv32) - 0xE0) << 12) + (((b as bv32) - 0x80) << 6) + ((d as bv32) - 0x80)
  }

  function ValueOfFour(a: UTF8, b: UTF8, d: UTF8, e: UTF8): UTF32 {
    (((a as bv32) - 0xF0) << 18) + (((b as bv32) - 0x80) << 12) + (((d as bv32) - 0x80) << 6) + ((e as bv32) - 0x80)
  }

  /** The value of up to four bytes, their marks taken off (section 3 of RFC 3629). */
  function ValueOf8(s: seq<UTF8>): UTF32
    requires 1 <= |s| <= 4
  {
    if |s| == 1 then s[0] as bv32
    else if |s| == 2 then ValueOfTwo(s[0], s[1])
    else if |s| == 3 then ValueOfThree(s[0], s[1], s[2])
    else ValueOfFour(s[0], s[1], s[2], s[3])
  }

  lemma OneByte(c: UTF32)
    requires c < 0x80
    ensures |Encode8(c)| == 1 && ValueOf8(Encode8(c)) == c
  {
  }

  lemma TwoByteBits(c: UTF32, a: UTF8, b: UTF8)
    requires 0x80 <= c < 0x800 && a == 0xC0 | (((c >> 6) & 0x1F) as bv8) && b == Trailing(c, 0)
    ensures ValueOfTwo(a, b) == c
  {
  }

  lemma TwoBytes(c: UTF32)
    requires 0x80 <= c < 0x800
    ensures |Encode8(c)| == 2 && ValueOf8(Encode8(c)) == c
  {
    hide Trailing, ValueOfTwo;
    TwoByteBits(c, Encode8(c)[0], Encode8(c)[1]);
  }

  lemma ThreeByteBits(c: UTF32, a: UTF8, b: UTF8, d: UTF8)
    requires 0x800 <= c < 0x10000
    requires a == 0xE0 | (((c >> 12) & 0x0F) as bv8) && b == Trailing(c, 6) && d == Trailing(c, 0)
    ensures ValueOfThree(a, b, d) == c
  {
  }

  lemma ThreeBytes(c: UTF32)
    requires 0x800 <= c < 0x10000
    ensures |Encode8(c)| == 3 && ValueOf8(Encode8(c)) == c
  {
    hide Trailing, ValueOfThree;
    ThreeByteBits(c, Encode8(c)[0], Encode8(c)[1], Encode8(c)[2]);
  }

  lemma FourByteBits(c: UTF32, a: UTF8, b: UTF8, d: UTF8, e: UTF8)
    requires 0x10000 <= c <= 0x10FFFF && a == 0xF0 | (((c >> 18) & 0x07) as bv8)
    requires b == Trailing(c, 12) && d == Trailing(c, 6) && e == Trailing(c, 0)
    ensures ValueOfFour(a, b, d, e) == c
  {
  }

  lemma FourBytes(c: UTF32)
    requires 0x10000 <= c <= 0x10FFFF
    ensures |Encode8(c)| == 4 && ValueOf8(Encode8(c)) == c
  {
    hide Trailing, ValueOfFour;
    FourByteBits(c, Encode8(c)[0], Encode8(c)[1], Encode8(c)[2], Encode8(c)[3]);
  }

  /** The first byte and the trailing ones hold the bits of a value, highest first, in as few bytes as it takes. */
  lemma Encode8Means(c: UTF32)
    requires c <= 0x10FFFF
    ensures |Encode8(c)| == if c < 0x80 then 1 else if c < 0x800 then 2 else if c < 0x10000 then 3 else 4
    ensures ValueOf8(Encode8(c)) == c
  {
    hide Encode8, ValueOf8;
    if c < 0x80 {
      OneByte(c);
    } else if c < 0x800 {
      TwoBytes(c);
    } else if c < 0x10000 {
      ThreeBytes(c);
    } else {
      FourBytes(c);
    }
  }

  function ValueOfPair(high: UTF16, low: UTF16): UTF32 {
    (((high as bv32) - 0xD800) << 10) + ((low as bv32) - 0xDC00) + 0x10000
  }

  /** A unit holds a value, or two of them hold ten bits each (section 2.1 of RFC 2781). */
  function ValueOf16(s: seq<UTF16>): UTF32
    requires 1 <= |s| <= 2
  {
    if |s| == 1 then s[0] as bv32 else ValueOfPair(s[0], s[1])
  }

  lemma PairBits(c: UTF32, high: UTF16, low: UTF16)
    requires 0x10000 <= c <= 0x10FFFF
    requires high == 0xD800 | ((((c - 0x10000) >> 10) & 0x3FF) as bv16)
    requires low == 0xDC00 | (((c - 0x10000) & 0x3FF) as bv16)
    ensures ValueOfPair(high, low) == c
  {
  }

  lemma OneUnit(c: UTF32)
    requires c < 0x10000
    ensures |Encode16(c)| == 1 && ValueOf16(Encode16(c)) == c
  {
  }

  lemma TwoUnits(c: UTF32)
    requires 0x10000 <= c <= 0x10FFFF
    ensures |Encode16(c)| == 2 && ValueOf16(Encode16(c)) == c
  {
    hide ValueOfPair;
    PairBits(c, Encode16(c)[0], Encode16(c)[1]);
  }

  lemma Encode16Means(c: UTF32)
    requires c <= 0x10FFFF
    ensures |Encode16(c)| == (if c < 0x10000 then 1 else 2) && ValueOf16(Encode16(c)) == c
  {
    hide Encode16, ValueOf16;
    if c < 0x10000 {
      OneUnit(c);
    } else {
      TwoUnits(c);
    }
  }

  lemma Regrouped<T>(a: seq<T>, b: seq<T>, c: seq<T>)
    ensures a + b + c == a + (b + c)
  {
  }

  lemma LastApart<T>(a: seq<T>, b: seq<T>)
    requires |b| > 0
    ensures a + b == a + b[..|b| - 1] + [b[|b| - 1]]
    ensures b == b[..|b| - 1] + [b[|b| - 1]]
  {
  }

  lemma {:induction false} EncodeAll8Concat(cs: seq<UTF32>, ds: seq<UTF32>)
    ensures EncodeAll8(cs + ds) == EncodeAll8(cs) + EncodeAll8(ds)
  {
    hide Encode8, Encode16;
    if |ds| == 0 {
      assert cs + ds == cs;
    } else {
      hide EncodeAll8, EncodeAll16;
      var n := |ds| - 1;
      EncodeAll8Concat(cs, ds[..n]);
      EncodeAllAppend(cs + ds[..n], ds[n]);
      EncodeAllAppend(ds[..n], ds[n]);
      LastApart(cs, ds);
      Regrouped(EncodeAll8(cs), EncodeAll8(ds[..n]), Encode8(ds[n]));
    }
  }

  lemma {:induction false} EncodeAll16Concat(cs: seq<UTF32>, ds: seq<UTF32>)
    ensures EncodeAll16(cs + ds) == EncodeAll16(cs) + EncodeAll16(ds)
  {
    hide Encode8, Encode16;
    if |ds| == 0 {
      assert cs + ds == cs;
    } else {
      hide EncodeAll8, EncodeAll16;
      var n := |ds| - 1;
      EncodeAll16Concat(cs, ds[..n]);
      EncodeAllAppend(cs + ds[..n], ds[n]);
      EncodeAllAppend(ds[..n], ds[n]);
      LastApart(cs, ds);
      Regrouped(EncodeAll16(cs), EncodeAll16(ds[..n]), Encode16(ds[n]));
    }
  }

  /** `c` comes first in `s`. */
  predicate Starts8(s: seq<UTF8>, c: UTF32) {
    Scalar(c) && Encode8(c) <= s
  }

  predicate Starts16(s: seq<UTF16>, c: UTF32) {
    Scalar(c) && Encode16(c) <= s
  }

  /** No scalar value comes first in `s`: its offset is unconvertible. */
  ghost predicate Unconvertible8(s: seq<UTF8>) {
    forall c :: !Starts8(s, c)
  }

  ghost predicate Unconvertible16(s: seq<UTF16>) {
    forall c :: !Starts16(s, c)
  }

  /** `p` is an initial part of a well-formed sequence. */
  ghost predicate BeginsWellFormed(p: seq<UTF8>) {
    exists c :: Scalar(c) && p <= Encode8(c)
  }

  /**
    The first `n` bytes of `s` are the maximal subpart of an ill-formed subsequence, as definition
    D93b of the Unicode Standard 6.3 puts it: the longest initial part of a well-formed sequence, or
    one byte.
   */
  ghost predicate MaximalSubpart(s: seq<UTF8>, n: nat) {
    && 1 <= n <= |s|
    && (n == 1 || BeginsWellFormed(s[..n]))
    && forall m :: n < m <= |s| ==> !BeginsWellFormed(s[..m])
  }

  lemma MaximalSubpartIsUnique(s: seq<UTF8>, m: nat, n: nat)
    requires MaximalSubpart(s, m) && MaximalSubpart(s, n)
    ensures m == n
  {
  }
}

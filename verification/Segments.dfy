/** What a conversion makes of its source, as a list of segments. */
module Segments {
  import opened Unicode
  import opened Utf8Syntax

  datatype ConversionResult = ConversionOK | SourceExhausted | TargetExhausted | SourceIllegal
  datatype ConversionFlags = StrictConversion | LenientConversion

  const UNI_REPLACEMENT_CHAR: UTF32 := 0xFFFD

  /** A character, or `n` units that are none and give `value` instead. */
  datatype Segment = Good(c: UTF32) | Bad(n: nat, replacement: UTF32)

  function Value(seg: Segment): UTF32 {
    match seg
    case Good(c) => c
    case Bad(_, v) => v
  }

  function Values(segs: seq<Segment>): (vs: seq<UTF32>)
    ensures |vs| == |segs|
  {
    seq(|segs|, i requires 0 <= i < |segs| => Value(segs[i]))
  }

  ghost predicate AllGood(segs: seq<Segment>) {
    forall i :: 0 <= i < |segs| ==> segs[i].Good?
  }

  lemma ValuesAppend(segs: seq<Segment>, seg: Segment)
    ensures Values(segs + [seg]) == Values(segs) + [Value(seg)]
    ensures AllGood(segs + [seg]) <==> AllGood(segs) && seg.Good?
  {
    assert (segs + [seg])[|segs|] == seg;
    assert AllGood(segs + [seg]) ==> forall i :: 0 <= i < |segs| ==> (segs + [seg])[i] == segs[i];
  }

  // ----- a UTF-8 source

  function Length8(seg: Segment): nat {
    match seg
    case Good(c) => |Encode8(c)|
    case Bad(n, _) => n
  }

  /** `seg` comes first in `s`: a character, or else a maximal subpart to be replaced. */
  ghost predicate Comes8(s: seq<UTF8>, seg: Segment) {
    match seg
    case Good(c) => Starts8(s, c)
    case Bad(n, v) => Unconvertible8(s) && MaximalSubpart(s, n) && v == 0xFFFD
  }

  lemma Comes8Fits(s: seq<UTF8>, seg: Segment)
    requires Comes8(s, seg)
    ensures 1 <= Length8(seg) <= |s|
  {
  }

  /** `segs` make up `s` from its start up to `end`. */
  ghost predicate Segments8(s: seq<UTF8>, segs: seq<Segment>, end: nat)
    decreases |segs|
  {
    && end <= |s|
    && if segs == [] then
         end == 0
       else
         var n := |segs| - 1;
         && Length8(segs[n]) <= end
         && Segments8(s, segs[..n], end - Length8(segs[n]))
         && Comes8(s[end - Length8(segs[n])..], segs[n])
  }

  lemma Segments8Append(s: seq<UTF8>, segs: seq<Segment>, end: nat, seg: Segment)
    requires Segments8(s, segs, end) && Comes8(s[end..], seg)
    ensures end + Length8(seg) <= |s| && Segments8(s, segs + [seg], end + Length8(seg))
  {
    hide Comes8;
    Comes8Fits(s[end..], seg);
    assert (segs + [seg])[..|segs|] == segs;
    hide Length8;
  }

  /** The bytes of a truncated character: fewer are left than the first one announces. */
  predicate Truncated8(s: seq<UTF8>) {
    |s| > 0 && TrailingBytesForUTF8(s[0]) >= |s|
  }

  /** The tests of the first bytes of `rest`, in the terms of the segments. */
  lemma WhatComes(rest: seq<UTF8>)
    requires |rest| > 0
    ensures var extra := TrailingBytesForUTF8(rest[0]);
            if extra >= |rest| then Truncated8(rest)
            else if IsLegalUTF8(rest, extra + 1) then
              var c := Read8(rest, extra);
              !Truncated8(rest) && Comes8(rest, Good(c)) && Starts8(rest, c) && Scalar(c) &&
              Length8(Good(c)) == extra + 1
            else
              !Truncated8(rest) && !IsLegalUTF8Sequence(rest) && Unconvertible8(rest) &&
              Comes8(rest, Bad(FindMaximalSubpart(rest), UNI_REPLACEMENT_CHAR))
  {
    var extra := TrailingBytesForUTF8(rest[0]);
    if extra < |rest| {
      if IsLegalUTF8(rest, extra + 1) {
        LegalStarts(rest);
      } else {
        FoundIsMaximalSubpart(rest);
        IllegalIsUnconvertible(rest);
      }
    }
  }

  // ----- a UTF-16 source

  predicate IsHigh(u: UTF16) {
    0xD800 <= u <= 0xDBFF
  }

  predicate IsLow(u: UTF16) {
    0xDC00 <= u <= 0xDFFF
  }

  /** `((ch - UNI_SUR_HIGH_START) << halfShift) + (ch2 - UNI_SUR_LOW_START) + halfBase` */
  function Paired(high: UTF16, low: UTF16): UTF32 {
    (((high as UTF32) - 0xD800) << 10) + ((low as UTF32) - 0xDC00) + 0x0010000
  }

  /** Only the first half of a surrogate pair is left. */
  predicate Truncated16(s: seq<UTF16>) {
    |s| == 1 && IsHigh(s[0])
  }

  function Length16(seg: Segment): nat {
    match seg
    case Good(c) => |Encode16(c)|
    case Bad(n, _) => n
  }

  /** `seg` comes first in `s`: a character, or else a lone surrogate passed on as it is. */
  ghost predicate Comes16(s: seq<UTF16>, seg: Segment) {
    match seg
    case Good(c) => Starts16(s, c)
    case Bad(n, v) => |s| > 0 && Unconvertible16(s) && !Truncated16(s) && n == 1 && v == (s[0] as UTF32)
  }

  ghost predicate Segments16(s: seq<UTF16>, segs: seq<Segment>, end: nat)
    decreases |segs|
  {
    && end <= |s|
    && if segs == [] then
         end == 0
       else
         var n := |segs| - 1;
         && Length16(segs[n]) <= end
         && Segments16(s, segs[..n], end - Length16(segs[n]))
         && Comes16(s[end - Length16(segs[n])..], segs[n])
  }

  lemma Segments16Append(s: seq<UTF16>, segs: seq<Segment>, end: nat, seg: Segment)
    requires end <= |s| && Segments16(s, segs, end) && Comes16(s[end..], seg)
    ensures 1 <= Length16(seg) && end + Length16(seg) <= |s| && Segments16(s, segs + [seg], end + Length16(seg))
  {
    assert (segs + [seg])[..|segs|] == segs;
  }

  lemma PairedIsEncoded(high: UTF16, low: UTF16)
    requires IsHigh(high) && IsLow(low)
    ensures 0x10000 <= Paired(high, low) <= 0x10FFFF
    ensures Encode16(Paired(high, low)) == [high, low]
  {
    hide Paired, IsHigh, IsLow;
    PairedBits(high, low);
  }

  lemma PairedBits(high: UTF16, low: UTF16)
    requires IsHigh(high) && IsLow(low)
    ensures 0x10000 <= Paired(high, low) <= 0x10FFFF
    ensures 0xD800 | ((((Paired(high, low) - 0x10000) >> 10) & 0x3FF) as bv16) == high
    ensures 0xDC00 | (((Paired(high, low) - 0x10000) & 0x3FF) as bv16) == low
  {
  }

  /** How the first unit of the encoding tells the two forms apart. */
  lemma Encode16Shape(c: UTF32)
    requires Scalar(c)
    ensures var e := Encode16(c);
            if |e| == 1 then !IsHigh(e[0]) && !IsLow(e[0]) && c == (e[0] as UTF32)
            else IsHigh(e[0]) && IsLow(e[1]) && c == Paired(e[0], e[1])
  {
    if c < 0x10000 {
      SingleBits(c);
    } else {
      EncodedBits(c);
    }
    hide Paired, IsHigh, IsLow;
  }

  lemma SingleBits(c: UTF32)
    requires Scalar(c) && c < 0x10000
    ensures var u := (c & 0xFFFF) as bv16;
            !IsHigh(u) && !IsLow(u) && c == (u as UTF32)
  {
  }

  lemma EncodedBits(c: UTF32)
    requires 0x10000 <= c <= 0x10FFFF
    ensures var high, low := 0xD800 | ((((c - 0x10000) >> 10) & 0x3FF) as bv16),
                             0xDC00 | (((c - 0x10000) & 0x3FF) as bv16);
            IsHigh(high) && IsLow(low) && Paired(high, low) == c
  {
  }

  lemma Start16Shape(s: seq<UTF16>, c: UTF32)
    requires Starts16(s, c)
    ensures 1 <= |Encode16(c)| <= |s|
    ensures if |Encode16(c)| == 1 then !IsHigh(s[0]) && !IsLow(s[0]) && c == (s[0] as UTF32)
            else IsHigh(s[0]) && IsLow(s[1]) && c == Paired(s[0], s[1])
  {
    Encode16Shape(c);
    assert Encode16(c)[0] == s[0];
    assert |Encode16(c)| == 2 ==> Encode16(c)[1] == s[1];
    hide Encode16, Paired;
  }

  lemma Start16IsUnique(s: seq<UTF16>, c: UTF32, d: UTF32)
    requires Starts16(s, c) && Starts16(s, d)
    ensures c == d
  {
    Start16Shape(s, c);
    Start16Shape(s, d);
    hide Encode16, Paired;
  }

  /** The tests of the first units of `rest`, in the terms of the segments. */
  lemma WhatComes16(rest: seq<UTF16>)
    requires |rest| > 0
    ensures if IsHigh(rest[0]) && |rest| == 1 then Truncated16(rest)
            else if IsHigh(rest[0]) && IsLow(rest[1]) then
              var c := Paired(rest[0], rest[1]);
              Comes16(rest, Good(c)) && Scalar(c) && Length16(Good(c)) == 2
            else if IsHigh(rest[0]) || IsLow(rest[0]) then
              !Truncated16(rest) && Unconvertible16(rest) && Comes16(rest, Bad(1, rest[0] as UTF32))
            else
              var c := rest[0] as UTF32;
              Comes16(rest, Good(c)) && Scalar(c) && Length16(Good(c)) == 1
  {
    if IsHigh(rest[0]) && |rest| > 1 && IsLow(rest[1]) {
      PairedIsEncoded(rest[0], rest[1]);
      assert rest[..2] == [rest[0], rest[1]];
    } else if IsHigh(rest[0]) || IsLow(rest[0]) {
      forall c
        ensures !Starts16(rest, c)
      {
        if Starts16(rest, c) {
          Start16Shape(rest, c);
        }
      }
    }
  }

  /** The result a conversion carries along while it goes on. */
  ghost function SoFar(segs: seq<Segment>): ConversionResult {
    if AllGood(segs) then ConversionOK else SourceIllegal
  }

  lemma SoFarGrows(segs: seq<Segment>, seg: Segment)
    ensures SoFar(segs + [seg]) == if seg.Good? then SoFar(segs) else SourceIllegal
    ensures AllGood(segs + [seg]) <==> AllGood(segs) && seg.Good?
  {
    ValuesAppend(segs, seg);
  }
}

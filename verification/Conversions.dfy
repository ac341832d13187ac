/** What the converters of ConvertUTF.c do together. */
module Conversions {
  import opened Unicode
  import opened Utf8Syntax
  import opened Segments
  import opened Targets
  import Utf8to16
  import Utf8to32
  import Utf16to8
  import Utf16to32
  import Utf32to8
  import Utf32to16
  import Utf32Source
  import Utf16Source

  ghost predicate WellFormed8(s: seq<UTF8>) {
    exists cs :: Scalars(cs) && s == EncodeAll8(cs)
  }

  ghost predicate WellFormed16(s: seq<UTF16>) {
    exists cs :: Scalars(cs) && s == EncodeAll16(cs)
  }

  // ----- reading what has been encoded

  lemma NothingEncoded8()
    ensures EncodeAll8([]) == []
  {
  }

  lemma EncodeAll8First(cs: seq<UTF32>)
    requires |cs| > 0
    ensures EncodeAll8(cs) == Encode8(cs[0]) + EncodeAll8(cs[1..])
  {
    hide *;
    EncodeAllAppend([], cs[0]);
    NothingEncoded8();
    assert [] + [cs[0]] == [cs[0]];
    EncodeAll8Concat([cs[0]], cs[1..]);
    assert cs == [cs[0]] + cs[1..];
  }

  /** After the first `n` characters comes the next one, or the end. */
  lemma Rest8(cs: seq<UTF32>, n: nat)
    requires n <= |cs|
    ensures |EncodeAll8(cs[..n])| <= |EncodeAll8(cs)|
    ensures EncodeAll8(cs)[|EncodeAll8(cs[..n])|..] == EncodeAll8(cs[n..])
  {
    hide *;
    assert cs == cs[..n] + cs[n..];
    EncodeAll8Concat(cs[..n], cs[n..]);
  }

  lemma Next8(cs: seq<UTF32>, n: nat)
    requires Scalars(cs) && n <= |cs|
    ensures n < |cs| ==> Starts8(EncodeAll8(cs[n..]), cs[n])
    ensures n == |cs| ==> EncodeAll8(cs[n..]) == []
  {
    if n < |cs| {
      EncodeAll8First(cs[n..]);
      assert cs[n..][0] == cs[n];
      hide Encode8, EncodeAll8;
    }
  }

  /** The last segment, and the ones before it. */
  lemma LastSegment8(s: seq<UTF8>, segs: seq<Segment>, end: nat)
    requires Segments8(s, segs, end) && segs != []
    ensures var n, seg := |segs| - 1, segs[|segs| - 1];
            && 0 <= end - Length8(seg) <= end <= |s|
            && Segments8(s, segs[..n], end - Length8(seg)) && Comes8(s[end - Length8(seg)..], seg)
            && Values(segs) == Values(segs[..n]) + [Value(seg)]
            && (AllGood(segs) ==> AllGood(segs[..n]) && seg.Good?)
  {
    var n := |segs| - 1;
    assert segs == segs[..n] + [segs[n]];
    ValuesAppend(segs[..n], segs[n]);
    hide Length8, Comes8, Values;
  }

  /** Good segments of encoded text are its first characters, and end between two of them. */
  lemma {:induction false} GoodSegmentsFollow8(cs: seq<UTF32>, segs: seq<Segment>, s: nat)
    requires Scalars(cs) && Segments8(EncodeAll8(cs), segs, s) && AllGood(segs)
    ensures |segs| <= |cs| && Values(segs) == cs[..|segs|] && s == |EncodeAll8(cs[..|segs|])|
    decreases |segs|
  {
    var source := EncodeAll8(cs);
    hide EncodeAll8, Encode8, Scalars, Segments8, AllGood, Values;
    if segs != [] {
      LastSegment8(source, segs, s);
      var n, c := |segs| - 1, segs[|segs| - 1].c;
      var before := s - |Encode8(c)|;
      GoodSegmentsFollow8(cs, segs[..n], before);
      Rest8(cs, n);
      Next8(cs, n);
      NextIs8(source[before..], cs, n, c);
      assert cs[..n + 1][..n] == cs[..n];
      assert cs[..n + 1] == cs[..n] + [cs[n]];
      EncodeAllAppend(cs[..n], cs[n]);
    } else {
      NoSegments8(source, s);
    }
  }

  lemma NextIs8(rest: seq<UTF8>, cs: seq<UTF32>, n: nat, c: UTF32)
    requires n <= |cs| && Starts8(rest, c)
    requires if n < |cs| then Starts8(rest, cs[n]) else rest == []
    ensures n < |cs| && cs[n] == c
  {
    if n < |cs| {
      StartIsUnique(rest, c, cs[n]);
    }
  }

  lemma NoSegments8(source: seq<UTF8>, s: nat)
    requires Segments8(source, [], s)
    ensures s == 0 && Values([]) == [] && EncodeAll8([]) == [] && AllGood([])
  {
  }

  /** Good segments are the encoding of their characters. */
  lemma {:induction false} GoodSegmentsEncode8(source: seq<UTF8>, segs: seq<Segment>, s: nat)
    requires Segments8(source, segs, s) && AllGood(segs)
    ensures s <= |source| && Scalars(Values(segs)) && source[..s] == EncodeAll8(Values(segs))
    decreases |segs|
  {
    hide EncodeAll8, Encode8, Segments8, AllGood, Values;
    if segs != [] {
      LastSegment8(source, segs, s);
      var n, c := |segs| - 1, segs[|segs| - 1].c;
      var before := s - |Encode8(c)|;
      GoodSegmentsEncode8(source, segs[..n], before);
      EncodeAllAppend(Values(segs[..n]), c);
      assert source[..s] == source[..before] + source[before..][..|Encode8(c)|];
    } else {
      NoSegments8(source, s);
    }
  }

  lemma NothingEncoded16()
    ensures EncodeAll16([]) == []
  {
  }

  lemma EncodeAll16First(cs: seq<UTF32>)
    requires |cs| > 0
    ensures EncodeAll16(cs) == Encode16(cs[0]) + EncodeAll16(cs[1..])
  {
    hide *;
    EncodeAllAppend([], cs[0]);
    NothingEncoded16();
    assert [] + [cs[0]] == [cs[0]];
    EncodeAll16Concat([cs[0]], cs[1..]);
    assert cs == [cs[0]] + cs[1..];
  }

  /** After the first `n` characters comes the next one, or the end. */
  lemma Rest16(cs: seq<UTF32>, n: nat)
    requires n <= |cs|
    ensures |EncodeAll16(cs[..n])| <= |EncodeAll16(cs)|
    ensures EncodeAll16(cs)[|EncodeAll16(cs[..n])|..] == EncodeAll16(cs[n..])
  {
    hide *;
    assert cs == cs[..n] + cs[n..];
    EncodeAll16Concat(cs[..n], cs[n..]);
  }

  lemma Next16(cs: seq<UTF32>, n: nat)
    requires Scalars(cs) && n <= |cs|
    ensures n < |cs| ==> Starts16(EncodeAll16(cs[n..]), cs[n])
    ensures n == |cs| ==> EncodeAll16(cs[n..]) == []
  {
    if n < |cs| {
      EncodeAll16First(cs[n..]);
      assert cs[n..][0] == cs[n];
      hide Encode16, EncodeAll16;
    }
  }

  /** The last segment, and the ones before it. */
  lemma LastSegment16(s: seq<UTF16>, segs: seq<Segment>, end: nat)
    requires Segments16(s, segs, end) && segs != []
    ensures var n, seg := |segs| - 1, segs[|segs| - 1];
            && 0 <= end - Length16(seg) <= end <= |s|
            && Segments16(s, segs[..n], end - Length16(seg)) && Comes16(s[end - Length16(seg)..], seg)
            && Values(segs) == Values(segs[..n]) + [Value(seg)]
            && (AllGood(segs) ==> AllGood(segs[..n]) && seg.Good?)
  {
    var n := |segs| - 1;
    assert segs == segs[..n] + [segs[n]];
    ValuesAppend(segs[..n], segs[n]);
    hide Length16, Comes16, Values;
  }

  /** Good segments of encoded text are its first characters, and end between two of them. */
  lemma {:induction false} GoodSegmentsFollow16(cs: seq<UTF32>, segs: seq<Segment>, s: nat)
    requires Scalars(cs) && Segments16(EncodeAll16(cs), segs, s) && AllGood(segs)
    ensures |segs| <= |cs| && Values(segs) == cs[..|segs|] && s == |EncodeAll16(cs[..|segs|])|
    decreases |segs|
  {
    var source := EncodeAll16(cs);
    hide EncodeAll16, Encode16, Scalars, Segments16, AllGood, Values;
    if segs != [] {
      LastSegment16(source, segs, s);
      var n, c := |segs| - 1, segs[|segs| - 1].c;
      var before := s - |Encode16(c)|;
      GoodSegmentsFollow16(cs, segs[..n], before);
      Rest16(cs, n);
      Next16(cs, n);
      NextIs16(source[before..], cs, n, c);
      assert cs[..n + 1][..n] == cs[..n];
      assert cs[..n + 1] == cs[..n] + [cs[n]];
      EncodeAllAppend(cs[..n], cs[n]);
    } else {
      NoSegments16(source, s);
    }
  }

  lemma NextIs16(rest: seq<UTF16>, cs: seq<UTF32>, n: nat, c: UTF32)
    requires n <= |cs| && Starts16(rest, c)
    requires if n < |cs| then Starts16(rest, cs[n]) else rest == []
    ensures n < |cs| && cs[n] == c
  {
    if n < |cs| {
      Start16IsUnique(rest, c, cs[n]);
    }
  }

  lemma NoSegments16(source: seq<UTF16>, s: nat)
    requires Segments16(source, [], s)
    ensures s == 0 && Values([]) == [] && EncodeAll16([]) == [] && AllGood([])
  {
  }

  /** Good segments are the encoding of their characters. */
  lemma {:induction false} GoodSegmentsEncode16(source: seq<UTF16>, segs: seq<Segment>, s: nat)
    requires Segments16(source, segs, s) && AllGood(segs)
    ensures s <= |source| && Scalars(Values(segs)) && source[..s] == EncodeAll16(Values(segs))
    decreases |segs|
  {
    hide EncodeAll16, Encode16, Segments16, AllGood, Values;
    if segs != [] {
      LastSegment16(source, segs, s);
      var n, c := |segs| - 1, segs[|segs| - 1].c;
      var before := s - |Encode16(c)|;
      GoodSegmentsEncode16(source, segs[..n], before);
      EncodeAllAppend(Values(segs[..n]), c);
      assert source[..s] == source[..before] + source[before..][..|Encode16(c)|];
    } else {
      NoSegments16(source, s);
    }
  }

  // ----- strict conversion of well-formed text

  lemma OnlyStart8(rest: seq<UTF8>, c: UTF32)
    requires Starts8(rest, c)
    ensures forall d :: Starts8(rest, d) ==> d == c
  {
    forall d | Starts8(rest, d)
      ensures d == c
    {
      StartIsUnique(rest, c, d);
    }
  }

  lemma OnlyStart16(rest: seq<UTF16>, c: UTF32)
    requires Starts16(rest, c)
    ensures forall d :: Starts16(rest, d) ==> d == c
  {
    forall d | Starts16(rest, d)
      ensures d == c
    {
      Start16IsUnique(rest, c, d);
    }
  }

  lemma Start16IsNotTruncated(rest: seq<UTF16>, c: UTF32)
    requires Starts16(rest, c)
    ensures |rest| > 0 && !Truncated16(rest)
  {
    Start16Shape(rest, c);
  }

  /** Strict conversion of well-formed UTF-8 stops between two characters, and only for want of room. */
  lemma Piece8to16(cs: seq<UTF32>, result: ConversionResult, s: nat, segs: seq<Segment>, written: seq<UTF16>, room: nat)
    requires Scalars(cs) && s <= |EncodeAll8(cs)|
    requires Utf8to16.Between(EncodeAll8(cs), s, segs, written, room, true)
    requires Utf8to16.Ends(result, true, room, segs, EncodeAll8(cs)[s..])
    ensures var k := |segs|;
            && k <= |cs| && s == |EncodeAll8(cs[..k])| && written == EncodeAll16(cs[..k])
            && (if k == |cs| then result == ConversionOK else result == TargetExhausted && room < |Encode16(cs[k])|)
  {
    var k, rest := |segs|, EncodeAll8(cs)[s..];
    hide Scalars, EncodeAll8, EncodeAll16, Encode8, Encode16, Segments8, Starts8, AllGood, Values;
    GoodSegmentsFollow8(cs, segs, s);
    Rest8(cs, k);
    Next8(cs, k);
    if k < |cs| {
      StartIsLegal(rest, cs[k]);
      assert !Unconvertible8(rest);
      OnlyStart8(rest, cs[k]);
    }
  }

  /** Strict conversion of well-formed UTF-8 stops between two characters, and only for want of room. */
  lemma Piece8to32(cs: seq<UTF32>, result: ConversionResult, s: nat, segs: seq<Segment>, written: seq<UTF32>, room: nat)
    requires Scalars(cs) && s <= |EncodeAll8(cs)|
    requires Utf8to32.Between(EncodeAll8(cs), s, segs, written, room, true)
    requires Utf8to32.Ends(result, true, false, room, segs, EncodeAll8(cs)[s..])
    ensures var k := |segs|;
            && k <= |cs| && s == |EncodeAll8(cs[..k])| && written == cs[..k]
            && (if k == |cs| then result == ConversionOK else result == TargetExhausted && room == 0)
  {
    var k, rest := |segs|, EncodeAll8(cs)[s..];
    hide Scalars, EncodeAll8, EncodeAll16, Encode8, Encode16, Segments8, Starts8, AllGood, Values;
    GoodSegmentsFollow8(cs, segs, s);
    Rest8(cs, k);
    Next8(cs, k);
    if k < |cs| {
      StartIsLegal(rest, cs[k]);
      assert !Unconvertible8(rest);
      OnlyStart8(rest, cs[k]);
    }
  }

  /** Strict conversion of well-formed UTF-16 stops between two characters, and only for want of room. */
  lemma Piece16to8(cs: seq<UTF32>, result: ConversionResult, s: nat, segs: seq<Segment>, written: seq<UTF8>, room: nat)
    requires Scalars(cs) && s <= |EncodeAll16(cs)|
    requires Utf16to8.Between(EncodeAll16(cs), s, segs, written, true)
    requires Utf16to8.Ends(result, true, room, EncodeAll16(cs)[s..])
    ensures var k := |segs|;
            && k <= |cs| && s == |EncodeAll16(cs[..k])| && written == EncodeAll8(cs[..k])
            && (if k == |cs| then result == ConversionOK else result == TargetExhausted && room < |Encode8(cs[k])|)
  {
    var k, rest := |segs|, EncodeAll16(cs)[s..];
    hide Scalars, EncodeAll8, EncodeAll16, Encode8, Encode16, Segments16, Starts16, AllGood, Values;
    GoodSegmentsFollow16(cs, segs, s);
    Rest16(cs, k);
    Next16(cs, k);
    if k < |cs| {
      Start16IsNotTruncated(rest, cs[k]);
      assert !Unconvertible16(rest);
      OnlyStart16(rest, cs[k]);
    }
  }

  /** Strict conversion of well-formed UTF-16 stops between two characters, and only for want of room. */
  lemma Piece16to32(cs: seq<UTF32>, result: ConversionResult, s: nat, segs: seq<Segment>, written: seq<UTF32>,
                    room: nat)
    requires Scalars(cs) && s <= |EncodeAll16(cs)|
    requires Utf16to32.Between(EncodeAll16(cs), s, segs, written, true)
    requires Utf16to32.Ends(result, true, room, EncodeAll16(cs)[s..])
    ensures var k := |segs|;
            && k <= |cs| && s == |EncodeAll16(cs[..k])| && written == cs[..k]
            && (if k == |cs| then result == ConversionOK else result == TargetExhausted && room == 0)
  {
    var k, rest := |segs|, EncodeAll16(cs)[s..];
    hide Scalars, EncodeAll8, EncodeAll16, Encode8, Encode16, Segments16, Starts16, AllGood, Values;
    GoodSegmentsFollow16(cs, segs, s);
    Rest16(cs, k);
    Next16(cs, k);
    if k < |cs| {
      Start16IsNotTruncated(rest, cs[k]);
      assert !Unconvertible16(rest);
      OnlyStart16(rest, cs[k]);
    }
  }

  lemma {:induction false} ScalarsEmitted16(cs: seq<UTF32>)
    requires Scalars(cs)
    ensures Utf32to16.EmittedAll(cs, true) == cs
  {
    if |cs| == 0 {
    } else {
      var n := |cs| - 1;
      ScalarsEmitted16(cs[..n]);
      assert cs == cs[..n] + [cs[n]];
    }
  }

  lemma Piece32to16(cs: seq<UTF32>, result: ConversionResult, s: nat, written: seq<UTF16>, room: nat)
    requires Scalars(cs) && Utf32to16.Between(cs, s, written, true) && Utf32to16.Ends(result, true, room, cs, s)
    ensures s <= |cs| && written == EncodeAll16(cs[..s])
    ensures if s == |cs| then result == ConversionOK else result == TargetExhausted && room < |Encode16(cs[s])|
  {
    ScalarsEmitted16(cs[..s]);
    Utf32Source.WellFormedUnits(cs);
    hide EncodeAll16, Utf32to16.EmittedAll;
    if s < |cs| {
      assert Scalar(cs[s]);
    }
  }

  lemma {:induction false} ScalarsEmitted8(cs: seq<UTF32>)
    requires Scalars(cs)
    ensures Utf32to8.EmittedAll(cs) == cs
  {
    if |cs| == 0 {
    } else {
      var n := |cs| - 1;
      ScalarsEmitted8(cs[..n]);
      assert cs == cs[..n] + [cs[n]];
    }
  }

  lemma Piece32to8(cs: seq<UTF32>, result: ConversionResult, s: nat, written: seq<UTF8>, room: nat)
    requires Scalars(cs) && Utf32to8.Between(cs, s, written, true) && Utf32to8.Ends(result, true, room, cs, s)
    ensures s <= |cs| && written == EncodeAll8(cs[..s])
    ensures if s == |cs| then result == ConversionOK else result == TargetExhausted && room < |Encode8(cs[s])|
  {
    ScalarsEmitted8(cs[..s]);
    Utf32Source.WellFormedUnits(cs);
    hide EncodeAll8, Utf32to8.EmittedAll, Encode8;
    if s < |cs| {
      assert Scalar(cs[s]);
    }
  }

  // ----- sizes

  lemma {:induction false} Sizes(cs: seq<UTF32>)
    requires Scalars(cs)
    ensures |cs| <= |EncodeAll16(cs)| <= |EncodeAll8(cs)| <= 3 * |EncodeAll16(cs)|
  {
    if |cs| == 0 {
    } else {
      var n := |cs| - 1;
      Sizes(cs[..n]);
      SizesOfOne(cs[n]);
      hide Encode8, Encode16;
    }
  }

  lemma SizesOfOne(c: UTF32)
    requires Scalar(c)
    ensures |Encode16(c)| <= |Encode8(c)| <= 3 * |Encode16(c)|
  {
  }

  /** What is written before the next character and that character fit in what the whole takes. */
  lemma PrefixSizes(cs: seq<UTF32>, k: nat)
    requires k < |cs|
    ensures |EncodeAll8(cs[..k])| + |Encode8(cs[k])| <= |EncodeAll8(cs)|
    ensures |EncodeAll16(cs[..k])| + |Encode16(cs[k])| <= |EncodeAll16(cs)|
  {
    hide *;
    Rest8(cs, k + 1);
    Rest16(cs, k + 1);
    assert cs[..k + 1] == cs[..k] + [cs[k]];
    EncodeAllAppend(cs[..k], cs[k]);
  }

  // ----- strict conversion in one call

  lemma WellFormedSegments16(source: seq<UTF16>, segs: seq<Segment>)
    requires Segments16(source, segs, |source|) && AllGood(segs)
    ensures WellFormed16(source)
  {
    GoodSegmentsEncode16(source, segs, |source|);
    assert source[..|source|] == source;
  }

  lemma WellFormedSegments8(source: seq<UTF8>, segs: seq<Segment>)
    requires Segments8(source, segs, |source|) && AllGood(segs)
    ensures WellFormed8(source)
  {
    GoodSegmentsEncode8(source, segs, |source|);
    assert source[..|source|] == source;
  }

  lemma OneShot16to8(cs: seq<UTF32>, result: ConversionResult, s: nat, segs: seq<Segment>, written: seq<UTF8>,
                     room: nat)
    requires Scalars(cs) && s <= |EncodeAll16(cs)|
    requires Utf16to8.Between(EncodeAll16(cs), s, segs, written, true)
    requires Utf16to8.Ends(result, true, room, EncodeAll16(cs)[s..])
    requires |EncodeAll8(cs)| <= |written| + room
    ensures result == ConversionOK && s == |EncodeAll16(cs)| && written == EncodeAll8(cs)
  {
    hide *;
    Piece16to8(cs, result, s, segs, written, room);
    assert cs[..|cs|] == cs;
    if |segs| < |cs| {
      PrefixSizes(cs, |segs|);
    }
  }

  lemma OkIsWellFormed16to8(source: seq<UTF16>, s: nat, segs: seq<Segment>, written: seq<UTF8>, room: nat)
    requires s <= |source| && Utf16to8.Between(source, s, segs, written, true)
    requires Utf16to8.Ends(ConversionOK, true, room, source[s..])
    ensures WellFormed16(source)
  {
    WellFormedSegments16(source, segs);
  }

  /** Strict conversion succeeds exactly on well-formed UTF-16, and gives its characters in UTF-8. */
  method StrictUtf16ToUtf8(source: seq<UTF16>) returns (ok: bool, converted: seq<UTF8>)
    ensures ok <==> WellFormed16(source)
    ensures forall cs :: Scalars(cs) && source == EncodeAll16(cs) ==> converted == EncodeAll8(cs)
  {
    var size := 3 * |source|;
    var buffer := new UTF8[size];
    var out := new Target(buffer, 0, size);
    var result, s, segs := Utf16to8.ConvertUTF16toUTF8(source, out, StrictConversion);
    converted := buffer[..out.target];
    ok := result == ConversionOK;
    ghost var room := out.Room();
    assert converted == out.written && |out.written| + room == size;
    forall cs | Scalars(cs) && source == EncodeAll16(cs)
      ensures converted == EncodeAll8(cs) && ok
    {
      Sizes(cs);
      OneShot16to8(cs, result, s, segs, converted, room);
    }
    if ok {
      OkIsWellFormed16to8(source, s, segs, converted, room);
    }
  }

  lemma OneShot8to16(cs: seq<UTF32>, result: ConversionResult, s: nat, segs: seq<Segment>, written: seq<UTF16>,
                     room: nat)
    requires Scalars(cs) && s <= |EncodeAll8(cs)|
    requires Utf8to16.Between(EncodeAll8(cs), s, segs, written, room, true)
    requires Utf8to16.Ends(result, true, room, segs, EncodeAll8(cs)[s..])
    requires |EncodeAll16(cs)| <= |written| + room
    ensures result == ConversionOK && s == |EncodeAll8(cs)| && written == EncodeAll16(cs)
  {
    hide *;
    Piece8to16(cs, result, s, segs, written, room);
    assert cs[..|cs|] == cs;
    if |segs| < |cs| {
      PrefixSizes(cs, |segs|);
    }
  }

  lemma OkIsWellFormed8to16(source: seq<UTF8>, s: nat, segs: seq<Segment>, written: seq<UTF16>, room: nat)
    requires s <= |source| && Utf8to16.Between(source, s, segs, written, room, true)
    requires Utf8to16.Ends(ConversionOK, true, room, segs, source[s..])
    ensures WellFormed8(source)
  {
    WellFormedSegments8(source, segs);
  }

  /** Strict conversion succeeds exactly on well-formed UTF-8, and gives its characters in UTF-16. */
  method StrictUtf8ToUtf16(source: seq<UTF8>) returns (ok: bool, converted: seq<UTF16>)
    ensures ok <==> WellFormed8(source)
    ensures forall cs :: Scalars(cs) && source == EncodeAll8(cs) ==> converted == EncodeAll16(cs)
  {
    var size := |source|;
    var buffer := new UTF16[size];
    var out := new Target(buffer, 0, size);
    var result, s, segs := Utf8to16.ConvertUTF8toUTF16(source, out, StrictConversion);
    converted := buffer[..out.target];
    ok := result == ConversionOK;
    ghost var room := out.Room();
    assert converted == out.written && |out.written| + room == size;
    forall cs | Scalars(cs) && source == EncodeAll8(cs)
      ensures converted == EncodeAll16(cs) && ok
    {
      Sizes(cs);
      OneShot8to16(cs, result, s, segs, converted, room);
    }
    if ok {
      OkIsWellFormed8to16(source, s, segs, converted, room);
    }
  }

  lemma OneShot8to32(cs: seq<UTF32>, result: ConversionResult, s: nat, segs: seq<Segment>, written: seq<UTF32>,
                     room: nat)
    requires Scalars(cs) && s <= |EncodeAll8(cs)|
    requires Utf8to32.Between(EncodeAll8(cs), s, segs, written, room, true)
    requires Utf8to32.Ends(result, true, false, room, segs, EncodeAll8(cs)[s..])
    requires |cs| <= |written| + room
    ensures result == ConversionOK && s == |EncodeAll8(cs)| && written == cs
  {
    hide *;
    Piece8to32(cs, result, s, segs, written, room);
    assert cs[..|cs|] == cs;
  }

  lemma OkIsWellFormed8to32(source: seq<UTF8>, s: nat, segs: seq<Segment>, written: seq<UTF32>, room: nat)
    requires s <= |source| && Utf8to32.Between(source, s, segs, written, room, true)
    requires Utf8to32.Ends(ConversionOK, true, false, room, segs, source[s..])
    ensures WellFormed8(source)
  {
    WellFormedSegments8(source, segs);
  }

  /** Strict conversion succeeds exactly on well-formed UTF-8, and gives its characters in UTF-32. */
  method StrictUtf8ToUtf32(source: seq<UTF8>) returns (ok: bool, converted: seq<UTF32>)
    ensures ok <==> WellFormed8(source)
    ensures forall cs :: Scalars(cs) && source == EncodeAll8(cs) ==> converted == cs
  {
    var size := |source|;
    var buffer := new UTF32[size];
    var out := new Target(buffer, 0, size);
    var result, s, segs := Utf8to32.ConvertUTF8toUTF32(source, out, StrictConversion);
    converted := buffer[..out.target];
    ok := result == ConversionOK;
    ghost var room := out.Room();
    assert converted == out.written && |out.written| + room == size;
    forall cs | Scalars(cs) && source == EncodeAll8(cs)
      ensures converted == cs && ok
    {
      Sizes(cs);
      OneShot8to32(cs, result, s, segs, converted, room);
    }
    if ok {
      OkIsWellFormed8to32(source, s, segs, converted, room);
    }
  }

  lemma OneShot16to32(cs: seq<UTF32>, result: ConversionResult, s: nat, segs: seq<Segment>, written: seq<UTF32>,
                      room: nat)
    requires Scalars(cs) && s <= |EncodeAll16(cs)|
    requires Utf16to32.Between(EncodeAll16(cs), s, segs, written, true)
    requires Utf16to32.Ends(result, true, room, EncodeAll16(cs)[s..])
    requires |cs| <= |written| + room
    ensures result == ConversionOK && s == |EncodeAll16(cs)| && written == cs
  {
    hide *;
    Piece16to32(cs, result, s, segs, written, room);
    assert cs[..|cs|] == cs;
  }

  lemma OkIsWellFormed16to32(source: seq<UTF16>, s: nat, segs: seq<Segment>, written: seq<UTF32>, room: nat)
    requires s <= |source| && Utf16to32.Between(source, s, segs, written, true)
    requires Utf16to32.Ends(ConversionOK, true, room, source[s..])
    ensures WellFormed16(source)
  {
    WellFormedSegments16(source, segs);
  }

  /** Strict conversion succeeds exactly on well-formed UTF-16, and gives its characters in UTF-32. */
  method StrictUtf16ToUtf32(source: seq<UTF16>) returns (ok: bool, converted: seq<UTF32>)
    ensures ok <==> WellFormed16(source)
    ensures forall cs :: Scalars(cs) && source == EncodeAll16(cs) ==> converted == cs
  {
    var size := |source|;
    var buffer := new UTF32[size];
    var out := new Target(buffer, 0, size);
    var result, s, segs := Utf16to32.ConvertUTF16toUTF32(source, out, StrictConversion);
    converted := buffer[..out.target];
    ok := result == ConversionOK;
    ghost var room := out.Room();
    assert converted == out.written && |out.written| + room == size;
    forall cs | Scalars(cs) && source == EncodeAll16(cs)
      ensures converted == cs && ok
    {
      Sizes(cs);
      OneShot16to32(cs, result, s, segs, converted, room);
    }
    if ok {
      OkIsWellFormed16to32(source, s, segs, converted, room);
    }
  }

  lemma OneShot32to16(cs: seq<UTF32>, result: ConversionResult, s: nat, written: seq<UTF16>, room: nat)
    requires Scalars(cs) && s <= |cs|
    requires Utf32to16.Between(cs, s, written, true)
    requires Utf32to16.Ends(result, true, room, cs, s)
    requires |EncodeAll16(cs)| <= |written| + room
    ensures result == ConversionOK && s == |cs| && written == EncodeAll16(cs)
  {
    hide *;
    Piece32to16(cs, result, s, written, room);
    assert cs[..|cs|] == cs;
    if s < |cs| {
      PrefixSizes(cs, s);
    }
  }

  lemma OkIsWellFormed32to16(source: seq<UTF32>, s: nat, written: seq<UTF16>, room: nat)
    requires s <= |source| && Utf32to16.Between(source, s, written, true)
    requires Utf32to16.Ends(ConversionOK, true, room, source, s)
    ensures Scalars(source)
  {
    assert source[..|source|] == source;
    Utf32Source.WellFormedUnits(source);
  }

  /** Strict conversion succeeds exactly on well-formed UTF-32, and gives its characters in UTF-16. */
  method StrictUtf32ToUtf16(source: seq<UTF32>) returns (ok: bool, converted: seq<UTF16>)
    ensures ok <==> Scalars(source)
    ensures Scalars(source) ==> converted == EncodeAll16(source)
  {
    var size := 2 * |source|;
    var buffer := new UTF16[size];
    var out := new Target(buffer, 0, size);
    var result, s := Utf32to16.ConvertUTF32toUTF16(source, out, StrictConversion);
    converted := buffer[..out.target];
    ok := result == ConversionOK;
    ghost var room := out.Room();
    assert converted == out.written && |out.written| + room == size;
    if Scalars(source) {
      Sizes32(source);
      OneShot32to16(source, result, s, converted, room);
    }
    if ok {
      OkIsWellFormed32to16(source, s, converted, room);
    }
  }

  lemma OneShot32to8(cs: seq<UTF32>, result: ConversionResult, s: nat, written: seq<UTF8>, room: nat)
    requires Scalars(cs) && s <= |cs|
    requires Utf32to8.Between(cs, s, written, true)
    requires Utf32to8.Ends(result, true, room, cs, s)
    requires |EncodeAll8(cs)| <= |written| + room
    ensures result == ConversionOK && s == |cs| && written == EncodeAll8(cs)
  {
    hide *;
    Piece32to8(cs, result, s, written, room);
    assert cs[..|cs|] == cs;
    if s < |cs| {
      PrefixSizes(cs, s);
    }
  }

  lemma OkIsWellFormed32to8(source: seq<UTF32>, s: nat, written: seq<UTF8>, room: nat)
    requires s <= |source| && Utf32to8.Between(source, s, written, true)
    requires Utf32to8.Ends(ConversionOK, true, room, source, s)
    ensures Scalars(source)
  {
    assert source[..|source|] == source;
    Utf32Source.WellFormedUnits(source);
  }

  /** Strict conversion succeeds exactly on well-formed UTF-32, and gives its characters in UTF-8. */
  method StrictUtf32ToUtf8(source: seq<UTF32>) returns (ok: bool, converted: seq<UTF8>)
    ensures ok <==> Scalars(source)
    ensures Scalars(source) ==> converted == EncodeAll8(source)
  {
    var size := 4 * |source|;
    var buffer := new UTF8[size];
    var out := new Target(buffer, 0, size);
    var result, s := Utf32to8.ConvertUTF32toUTF8(source, out, StrictConversion);
    converted := buffer[..out.target];
    ok := result == ConversionOK;
    ghost var room := out.Room();
    assert converted == out.written && |out.written| + room == size;
    if Scalars(source) {
      Sizes32(source);
      OneShot32to8(source, result, s, converted, room);
    }
    if ok {
      OkIsWellFormed32to8(source, s, converted, room);
    }
  }

  lemma {:induction false} Sizes32(cs: seq<UTF32>)
    ensures |EncodeAll16(cs)| <= 2 * |cs| && |EncodeAll8(cs)| <= 4 * |cs|
  {
    if |cs| == 0 {
    } else {
      Sizes32(cs[..|cs| - 1]);
      hide Encode8, Encode16;
    }
  }

  // ----- round trips

  /** From UTF-16 to UTF-8 and back. */
  method RoundTrip16(source: seq<UTF16>) returns (ok: bool, back: seq<UTF16>)
    ensures ok <==> WellFormed16(source)
    ensures ok ==> back == source
  {
    var bytes;
    ok, bytes := StrictUtf16ToUtf8(source);
    back := [];
    if ok {
      var again;
      again, back := StrictUtf8ToUtf16(bytes);
      hide *;
      ghost var cs := Decoded16(source);
      assert bytes == EncodeAll8(cs) && back == EncodeAll16(cs);
    }
  }

  ghost function Decoded16(source: seq<UTF16>): (cs: seq<UTF32>)
    requires WellFormed16(source)
    ensures Scalars(cs) && source == EncodeAll16(cs)
  {
    var cs :| Scalars(cs) && source == EncodeAll16(cs);
    cs
  }

  ghost function Decoded8(source: seq<UTF8>): (cs: seq<UTF32>)
    requires WellFormed8(source)
    ensures Scalars(cs) && source == EncodeAll8(cs)
  {
    var cs :| Scalars(cs) && source == EncodeAll8(cs);
    cs
  }

  /** From UTF-8 to UTF-16 and back. */
  method RoundTrip8(source: seq<UTF8>) returns (ok: bool, back: seq<UTF8>)
    ensures ok <==> WellFormed8(source)
    ensures ok ==> back == source
  {
    var units;
    ok, units := StrictUtf8ToUtf16(source);
    back := [];
    if ok {
      var again;
      again, back := StrictUtf16ToUtf8(units);
      hide *;
      ghost var cs := Decoded8(source);
      assert units == EncodeAll16(cs) && back == EncodeAll8(cs);
    }
  }

  /** From UTF-8 to UTF-16 directly, and by way of UTF-32. */
  method TwoWays(source: seq<UTF8>) returns (ok: bool, direct: seq<UTF16>, detour: seq<UTF16>)
    ensures ok <==> WellFormed8(source)
    ensures ok ==> direct == detour
  {
    ok, direct := StrictUtf8ToUtf16(source);
    detour := [];
    if ok {
      var first, scalars := StrictUtf8ToUtf32(source);
      var second;
      second, detour := StrictUtf32ToUtf16(scalars);
      hide *;
      ghost var cs := Decoded8(source);
      assert scalars == cs;
    }
  }
}

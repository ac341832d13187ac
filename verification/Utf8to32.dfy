/** `ConvertUTF8toUTF32Impl` of ConvertUTF.c, and its two callers. */
module Utf8to32 {
  import opened Unicode
  import opened Utf8Syntax
  import opened Segments
  import opened Targets

  /** How a conversion may end before `rest`; `partial` input may end inside a character. */
  ghost predicate Ends(result: ConversionResult, strict: bool, partial: bool, room: nat, segs: seq<Segment>,
                       rest: seq<UTF8>)
  {
    match result
    case ConversionOK => rest == [] && AllGood(segs)
    case SourceExhausted => (strict || partial) && Truncated8(rest)
    case SourceIllegal =>
      if strict then rest != [] && !Truncated8(rest) && Unconvertible8(rest) else rest == [] && !AllGood(segs)
    case TargetExhausted => strict && room == 0 && rest != [] && !Truncated8(rest)
  }

  /** What the loop keeps: the segments passed and what has been written for them. */
  ghost predicate Between(source: seq<UTF8>, s: nat, segs: seq<Segment>, written: seq<UTF32>, room: nat, strict: bool) {
    && Segments8(source, segs, s)
    && written == Values(segs)
    && (if strict then AllGood(segs) else |source| <= |written| + room)
  }

  lemma BetweenGrows(source: seq<UTF8>, s: nat, segs: seq<Segment>, written: seq<UTF32>, room: nat, strict: bool,
                     seg: Segment)
    requires s <= |source| && Between(source, s, segs, written, room, strict)
    requires Comes8(source[s..], seg) && (strict ==> seg.Good?) && room > 0
    ensures s + Length8(seg) <= |source|
    ensures Between(source, s + Length8(seg), segs + [seg], written + [Value(seg)], room - 1, strict)
  {
    Segments8Append(source, segs, s, seg);
    ValuesAppend(segs, seg);
    hide Segments8, Comes8, Value, Values, Length8;
  }

  /** There are no more segments than bytes. */
  lemma {:induction false} SegmentsAreFewer(s: seq<UTF8>, segs: seq<Segment>, end: nat)
    requires Segments8(s, segs, end)
    ensures |segs| <= end
    decreases |segs|
  {
    if |segs| == 0 {
    } else {
      var seg := segs[|segs| - 1];
      SegmentsAreFewer(s, segs[..|segs| - 1], end - Length8(seg));
      Comes8Fits(s[end - Length8(seg)..], seg);
    }
  }

  /** So a lenient conversion into a buffer with a unit for every byte never lacks room. */
  lemma LenientHasRoom(source: seq<UTF8>, s: nat, segs: seq<Segment>, written: seq<UTF32>, room: nat)
    requires s < |source| && Between(source, s, segs, written, room, false)
    ensures room > 0
  {
    SegmentsAreFewer(source, segs, s);
  }

  /** The lenient turn over an ill-formed subsequence: a replacement character for its maximal subpart. */
  method Replace(source: seq<UTF8>, s0: nat, out: Target<UTF32>, ghost segs0: seq<Segment>)
      returns (s: nat, ghost segs: seq<Segment>)
    requires out.Valid() && s0 < |source| && Between(source, s0, segs0, out.written, out.Room(), false)
    requires !IsLegalUTF8Sequence(source[s0..])
    modifies out, out.buffer
    ensures out.Valid() && s0 < s <= |source| && Between(source, s, segs, out.written, out.Room(), false)
    ensures SoFar(segs) == SourceIllegal
  {
    FoundIsMaximalSubpart(source[s0..]);
    IllegalIsUnconvertible(source[s0..]);
    var n := FindMaximalSubpart(source[s0..]);
    ghost var seg := Bad(n, UNI_REPLACEMENT_CHAR);
    hide Between, Unconvertible8, MaximalSubpart, SoFar, IsLegalUTF8Sequence, FindMaximalSubpart;
    hide Target.Valid, Target.Room;
    LenientHasRoom(source, s0, segs0, out.written, out.Room());
    BetweenGrows(source, s0, segs0, out.written, out.Room(), false, seg);
    out.Put(UNI_REPLACEMENT_CHAR);
    SoFarGrows(segs0, seg);
    s, segs := s0 + n, segs0 + [seg];
  }

  lemma GoodValue(ch: UTF32)
    ensures Value(Good(ch)) == ch
  {
  }

  /**
    The turn over a legal sequence. The tests for surrogates and for values past 0x10FFFF cannot
    succeed here (`LegalStarts`).
   */
  method Take(source: seq<UTF8>, s0: nat, out: Target<UTF32>, ghost strict: bool, ghost segs0: seq<Segment>)
      returns (s: nat, ghost segs: seq<Segment>)
    requires out.Valid() && out.Room() > 0 && s0 < |source|
    requires Between(source, s0, segs0, out.written, out.Room(), strict)
    requires TrailingBytesForUTF8(source[s0]) < |source| - s0
    requires IsLegalUTF8(source[s0..], TrailingBytesForUTF8(source[s0]) + 1)
    modifies out, out.buffer
    ensures out.Valid() && s0 < s <= |source| && Between(source, s, segs, out.written, out.Room(), strict)
    ensures SoFar(segs) == SoFar(segs0) && (AllGood(segs) <==> AllGood(segs0))
  {
    hide *;
    hide Target.Valid, Target.Room;
    WhatComes(source[s0..]);
    var extra := TrailingBytesForUTF8(source[s0]);
    var ch := Read8(source[s0..], extra);
    ghost var seg := Good(ch);
    assert Value(seg) == ch by { GoodValue(ch); }
    BetweenGrows(source, s0, segs0, out.written, out.Room(), strict, seg);
    out.Put(ch);
    SoFarGrows(segs0, seg);
    s, segs := s0 + extra + 1, segs0 + [seg];
  }

  lemma EndsThere(strict: bool, partial: bool, room: nat, segs: seq<Segment>, rest: seq<UTF8>)
    ensures Truncated8(rest) && (strict || partial) ==> Ends(SourceExhausted, strict, partial, room, segs, rest)
    ensures |rest| > 0 && !Truncated8(rest) && Unconvertible8(rest) ==>
              Ends(SourceIllegal, true, partial, room, segs, rest)
    ensures |rest| > 0 && !Truncated8(rest) && room == 0 ==> Ends(TargetExhausted, true, partial, room, segs, rest)
    ensures rest == [] && (strict ==> AllGood(segs)) ==> Ends(SoFar(segs), strict, partial, room, segs, rest)
    ensures Truncated8(rest) ==> !IsLegalUTF8Sequence(rest)
  {
  }

  method ConvertUTF8toUTF32Impl(source: seq<UTF8>, out: Target<UTF32>, flags: ConversionFlags, inputIsPartial: bool)
      returns (result: ConversionResult, s: nat, ghost segs: seq<Segment>)
    requires out.Valid() && out.written == []
    requires flags == LenientConversion ==> |source| <= out.Room()
    modifies out, out.buffer
    ensures out.Valid()
    ensures s <= |source| && Between(source, s, segs, out.written, out.Room(), flags == StrictConversion)
    ensures Ends(result, flags == StrictConversion, inputIsPartial, out.Room(), segs, source[s..])
  {
    ghost var strict := flags == StrictConversion;
    result, s, segs := ConversionOK, 0, [];
    assert Between(source, s, segs, out.written, out.Room(), strict) && AllGood(segs) && SoFar(segs) == ConversionOK;
    hide *;
    hide Target.Valid, Target.Room;
    while s < |source|
      invariant out.Valid() && s <= |source| && Between(source, s, segs, out.written, out.Room(), strict)
      invariant result == SoFar(segs) && (strict ==> AllGood(segs))
    {
      WhatComes(source[s..]);
      EndsThere(strict, inputIsPartial, out.Room(), segs, source[s..]);
      var extra := TrailingBytesForUTF8(source[s]);
      if extra >= |source| - s {
        if flags == StrictConversion || inputIsPartial {
          result := SourceExhausted;
          return;
        }
        result := SourceIllegal;
        s, segs := Replace(source, s, out, segs);
        continue;
      }
      var full := out.IsFull();
      if full {
        if flags == LenientConversion {
          LenientHasRoom(source, s, segs, out.written, out.Room());
        }
        result := TargetExhausted;
        return;
      }
      if !IsLegalUTF8(source[s..], extra + 1) {
        result := SourceIllegal;
        if flags == StrictConversion {
          return;
        }
        s, segs := Replace(source, s, out, segs);
        continue;
      }
      s, segs := Take(source, s, out, strict, segs);
    }
    EndsThere(strict, inputIsPartial, out.Room(), segs, source[s..]);
  }

  method ConvertUTF8toUTF32Partial(source: seq<UTF8>, out: Target<UTF32>, flags: ConversionFlags)
      returns (result: ConversionResult, s: nat, ghost segs: seq<Segment>)
    requires out.Valid() && out.written == []
    requires flags == LenientConversion ==> |source| <= out.Room()
    modifies out, out.buffer
    ensures out.Valid()
    ensures s <= |source| && Between(source, s, segs, out.written, out.Room(), flags == StrictConversion)
    ensures Ends(result, flags == StrictConversion, true, out.Room(), segs, source[s..])
  {
    result, s, segs := ConvertUTF8toUTF32Impl(source, out, flags, true);
  }

  method ConvertUTF8toUTF32(source: seq<UTF8>, out: Target<UTF32>, flags: ConversionFlags)
      returns (result: ConversionResult, s: nat, ghost segs: seq<Segment>)
    requires out.Valid() && out.written == []
    requires flags == LenientConversion ==> |source| <= out.Room()
    modifies out, out.buffer
    ensures out.Valid()
    ensures s <= |source| && Between(source, s, segs, out.written, out.Room(), flags == StrictConversion)
    ensures Ends(result, flags == StrictConversion, false, out.Room(), segs, source[s..])
  {
    result, s, segs := ConvertUTF8toUTF32Impl(source, out, flags, false);
  }
}

/** `ConvertUTF8toUTF16` of ConvertUTF.c. */
module Utf8to16 {
  import opened Unicode
  import opened Utf8Syntax
  import opened Segments
  import opened Targets

  /** How a conversion from UTF-8 may end before `rest`, by its result. */
  ghost predicate Ends(result: ConversionResult, strict: bool, room: nat, segs: seq<Segment>, rest: seq<UTF8>) {
    match result
    case ConversionOK => rest == [] && AllGood(segs)
    case SourceExhausted => Truncated8(rest)
    case SourceIllegal =>
      if strict then rest != [] && !Truncated8(rest) && Unconvertible8(rest) else rest == [] && !AllGood(segs)
    case TargetExhausted => strict && exists c :: Starts8(rest, c) && room < |Encode16(c)|
  }

  /** What the loop keeps: the segments passed and what has been written for them. */
  ghost predicate Between(source: seq<UTF8>, s: nat, segs: seq<Segment>, written: seq<UTF16>, room: nat, strict: bool) {
    && Segments8(source, segs, s)
    && written == EncodeAll16(Values(segs))
    && (if strict then AllGood(segs) else |source| <= |written| + room)
  }

  lemma BetweenGrows(source: seq<UTF8>, s: nat, segs: seq<Segment>, written: seq<UTF16>, room: nat, strict: bool,
                     seg: Segment)
    requires s <= |source| && Between(source, s, segs, written, room, strict)
    requires Comes8(source[s..], seg) && (strict ==> seg.Good?)
    requires |Encode16(Value(seg))| <= room
    ensures s + Length8(seg) <= |source|
    ensures Between(source, s + Length8(seg), segs + [seg],
                    written + Encode16(Value(seg)), room - |Encode16(Value(seg))|, strict)
    ensures AllGood(segs + [seg]) <==> AllGood(segs) && seg.Good?
  {
    Segments8Append(source, segs, s, seg);
    ValuesAppend(segs, seg);
    EncodeAllAppend(Values(segs), Value(seg));
    hide Encode16, EncodeAll16, Segments8, Comes8, Value, Values, Length8;
  }

  /** Each segment gives no more units of UTF-16 than it has bytes. */
  lemma {:induction false} Utf16IsNoLonger(s: seq<UTF8>, segs: seq<Segment>, end: nat)
    requires Segments8(s, segs, end)
    ensures |EncodeAll16(Values(segs))| <= end
    decreases |segs|
  {
    hide Encode16, Encode8, Length8, Comes8, Value;
    if |segs| == 0 {
    } else {
      var n := |segs| - 1;
      var seg := segs[n];
      Utf16IsNoLonger(s, segs[..n], end - Length8(seg));
      ValuesAppend(segs[..n], seg);
      EncodeAllAppend(Values(segs[..n]), Value(seg));
      assert segs == segs[..n] + [seg];
      SegmentIsNoLonger(s[end - Length8(seg)..], seg);
    }
  }

  lemma SegmentIsNoLonger(s: seq<UTF8>, seg: Segment)
    requires Comes8(s, seg)
    ensures |Encode16(Value(seg))| <= Length8(seg) <= |s|
  {
  }

  /** So a lenient conversion into a buffer as long as its source, as its callers make it, never lacks room. */
  lemma LenientHasRoom(source: seq<UTF8>, s: nat, segs: seq<Segment>, written: seq<UTF16>, room: nat, seg: Segment)
    requires s <= |source| && Between(source, s, segs, written, room, false)
    requires Comes8(source[s..], seg)
    ensures |Encode16(Value(seg))| <= room
  {
    Utf16IsNoLonger(source, segs, s);
    SegmentIsNoLonger(source[s..], seg);
    hide Encode16, EncodeAll16, Comes8, Segments8;
  }

  /** Emits the segment that comes next. */
  method Emit(source: seq<UTF8>, s: nat, out: Target<UTF16>, ch: UTF32, ghost seg: Segment, ghost segs: seq<Segment>,
              ghost strict: bool)
    requires out.Valid() && s <= |source| && Between(source, s, segs, out.written, out.Room(), strict)
    requires Comes8(source[s..], seg) && (strict ==> seg.Good?) && Value(seg) == ch && ch <= 0x10FFFF
    requires |Encode16(ch)| <= out.Room()
    modifies out, out.buffer
    ensures out.Valid() && s + Length8(seg) <= |source|
    ensures Between(source, s + Length8(seg), segs + [seg], out.written, out.Room(), strict)
    ensures AllGood(segs + [seg]) <==> AllGood(segs) && seg.Good?
  {
    BetweenGrows(source, s, segs, out.written, out.Room(), strict, seg);
    hide *;
    hide Target.Valid, Target.Room;
    Write16(out, ch);
  }

  lemma LegalIsChecked(rest: seq<UTF8>)
    requires |rest| > 0
    ensures !Truncated8(rest) <==> TrailingBytesForUTF8(rest[0]) < |rest|
    ensures !Truncated8(rest) ==>
              (IsLegalUTF8Sequence(rest) <==> IsLegalUTF8(rest, TrailingBytesForUTF8(rest[0]) + 1))
  {
    hide IsLegalUTF8, TrailingBytesForUTF8;
  }

  lemma ReplacementIs(n: nat, segs: seq<Segment>)
    ensures var seg := Bad(n, UNI_REPLACEMENT_CHAR);
            && Value(seg) == UNI_REPLACEMENT_CHAR <= 0x10FFFF && Length8(seg) == n
            && SoFar(segs + [seg]) == SourceIllegal
  {
    SoFarGrows(segs, Bad(n, UNI_REPLACEMENT_CHAR));
  }

  /** The lenient turn over an ill-formed subsequence: a replacement character for its maximal subpart. */
  method Replace(source: seq<UTF8>, s0: nat, out: Target<UTF16>, ghost segs0: seq<Segment>)
      returns (s: nat, ghost segs: seq<Segment>)
    requires out.Valid() && s0 < |source| && Between(source, s0, segs0, out.written, out.Room(), false)
    requires !Truncated8(source[s0..]) && !IsLegalUTF8Sequence(source[s0..])
    modifies out, out.buffer
    ensures out.Valid() && s0 < s <= |source| && Between(source, s, segs, out.written, out.Room(), false)
    ensures SoFar(segs) == SourceIllegal
  {
    hide *;
    hide Target.Valid, Target.Room;
    WhatComes(source[s0..]);
    LegalIsChecked(source[s0..]);
    var n := FindMaximalSubpart(source[s0..]);
    ghost var seg := Bad(n, UNI_REPLACEMENT_CHAR);
    ReplacementIs(n, segs0);
    LenientHasRoom(source, s0, segs0, out.written, out.Room(), seg);
    Emit(source, s0, out, UNI_REPLACEMENT_CHAR, seg, segs0, false);
    s, segs := s0 + n, segs0 + [seg];
  }

  lemma EndsThere(strict: bool, room: nat, segs: seq<Segment>, rest: seq<UTF8>)
    ensures Truncated8(rest) ==> Ends(SourceExhausted, strict, room, segs, rest)
    ensures |rest| > 0 && !Truncated8(rest) && Unconvertible8(rest) ==> Ends(SourceIllegal, true, room, segs, rest)
    ensures rest == [] && (strict ==> AllGood(segs)) ==> Ends(SoFar(segs), strict, room, segs, rest)
  {
  }

  lemma EndsFull(room: nat, segs: seq<Segment>, rest: seq<UTF8>, c: UTF32)
    requires Starts8(rest, c) && room < |Encode16(c)|
    ensures Ends(TargetExhausted, true, room, segs, rest)
  {
  }

  lemma GoodNeeds(ch: UTF32)
    requires Scalar(ch)
    ensures Value(Good(ch)) == ch <= 0x10FFFF && |Encode16(ch)| == if ch <= 0xFFFF then 1 else 2
  {
  }

  /**
    The turn over a legal sequence. The tests for surrogates and for values past 0x10FFFF cannot
    succeed here (`LegalStarts`).
   */
  method Take(source: seq<UTF8>, s0: nat, out: Target<UTF16>, flags: ConversionFlags, ghost segs0: seq<Segment>)
      returns (full: bool, s: nat, ghost segs: seq<Segment>)
    requires out.Valid() && s0 < |source|
    requires Between(source, s0, segs0, out.written, out.Room(), flags == StrictConversion)
    requires TrailingBytesForUTF8(source[s0]) < |source| - s0
    requires IsLegalUTF8(source[s0..], TrailingBytesForUTF8(source[s0]) + 1)
    modifies out, out.buffer
    ensures out.Valid() && s0 <= s <= |source|
    ensures Between(source, s, segs, out.written, out.Room(), flags == StrictConversion)
    ensures full ==> s == s0 && Ends(TargetExhausted, flags == StrictConversion, out.Room(), segs, source[s..])
    ensures !full ==> s0 < s && SoFar(segs) == SoFar(segs0) && (AllGood(segs) <==> AllGood(segs0))
  {
    hide *;
    hide Target.Valid, Target.Room;
    ghost var rest := source[s0..];
    WhatComes(rest);
    s, segs := s0, segs0;
    var extra := TrailingBytesForUTF8(source[s]);
    var ch := Read8(source[s..], extra);
    if flags == LenientConversion {
      LenientHasRoom(source, s, segs, out.written, out.Room(), Good(ch));
    }
    GoodNeeds(ch);
    full := out.LacksRoomFor(if ch <= 0xFFFF then 1 else 2);
    if full {
      EndsFull(out.Room(), segs, rest, ch);
      return;
    }
    Emit(source, s, out, ch, Good(ch), segs, flags == StrictConversion);
    SoFarGrows(segs, Good(ch));
    s, segs := s + extra + 1, segs + [Good(ch)];
  }

  method ConvertUTF8toUTF16(source: seq<UTF8>, out: Target<UTF16>, flags: ConversionFlags)
      returns (result: ConversionResult, s: nat, ghost segs: seq<Segment>)
    requires out.Valid() && out.written == []
    requires flags == LenientConversion ==> |source| <= out.Room()
    modifies out, out.buffer
    ensures out.Valid()
    ensures s <= |source| && Between(source, s, segs, out.written, out.Room(), flags == StrictConversion)
    ensures Ends(result, flags == StrictConversion, out.Room(), segs, source[s..])
  {
    ghost var strict := flags == StrictConversion;
    result, s, segs := ConversionOK, 0, [];
    assert Between(source, s, segs, out.written, out.Room(), strict) && AllGood(segs) && SoFar(segs) == ConversionOK;
    hide *;
    hide Target.Valid, Target.Room;
    while s < |source|
      invariant out.Valid() && s <= |source| && Between(source, s, segs, out.written, out.Room(), strict)
      invariant result == SoFar(segs) && (strict ==> AllGood(segs))
    {
      WhatComes(source[s..]);
      EndsThere(strict, out.Room(), segs, source[s..]);
      var extra := TrailingBytesForUTF8(source[s]);
      if extra >= |source| - s {
        result := SourceExhausted;
        return;
      }
      if !IsLegalUTF8(source[s..], extra + 1) {
        result := SourceIllegal;
        if flags == StrictConversion {
          return;
        }
        s, segs := Replace(source, s, out, segs);
        continue;
      }
      var full;
      full, s, segs := Take(source, s, out, flags, segs);
      if full {
        result := TargetExhausted;
        return;
      }
    }
    EndsThere(strict, out.Room(), segs, source[s..]);
  }
}

/** Conversions in several calls, lenient conversion of a whole input, and `isLegalUTF8String`. */
module ConversionRuns {
  import opened Unicode
  import opened Utf8Syntax
  import opened Segments
  import opened Targets
  import opened Conversions
  import Utf8to16
  import Utf8to32
  import Utf16to8
  import Utf16to32
  import Utf32to16
  import Utf32to8

  lemma EncodingsAreShort(c: UTF32)
    ensures |Encode16(c)| <= 2 && |Encode8(c)| <= 4
  {
  }

  // ----- strict conversion in several calls

  /** UTF-32 is its own encoding. */
  function Plain(cs: seq<UTF32>): seq<UTF32> {
    cs
  }

  lemma PlainIs()
    ensures forall cs :: Plain(cs) == cs
  {
  }

  /** An encoding character by character: what comes after what is encoded does not matter. */
  ghost predicate ByCharacter<U(!new)>(encode: seq<UTF32> -> seq<U>) {
    && encode([]) == []
    && (forall cs, ds :: encode(cs + ds) == encode(cs) + encode(ds))
    && (forall cs :: |encode(cs)| == 0 ==> |cs| == 0)
  }

  lemma EncodingsAreByCharacter()
    ensures ByCharacter(EncodeAll8) && ByCharacter(EncodeAll16) && ByCharacter(Plain)
  {
    forall cs, ds
      ensures EncodeAll8(cs + ds) == EncodeAll8(cs) + EncodeAll8(ds)
      ensures EncodeAll16(cs + ds) == EncodeAll16(cs) + EncodeAll16(ds)
    {
      EncodeAll8Concat(cs, ds);
      EncodeAll16Concat(cs, ds);
    }
    hide Encode8, Encode16;
  }

  /**
    A conversion from one encoding to another has come past `k` characters: the source stands between
    two characters, and so does the target.
   */
  ghost predicate Converted<S(!new), T(!new)>(from: seq<UTF32> -> seq<S>, to: seq<UTF32> -> seq<T>,
                                              source: seq<S>, cs: seq<UTF32>, k: nat, s: nat, units: seq<T>) {
    && Scalars(cs) && source == from(cs)
    && k <= |cs| && s == |from(cs[..k])| && s <= |source| && units == to(cs[..k])
  }

  lemma Start<S(!new), T(!new)>(from: seq<UTF32> -> seq<S>, to: seq<UTF32> -> seq<T>, cs: seq<UTF32>)
    requires ByCharacter(from) && ByCharacter(to) && Scalars(cs)
    ensures Converted(from, to, from(cs), cs, 0, 0, [])
  {
    assert cs[..0] == [];
  }

  /** What is left of the source is the encoding of what is left of the characters. */
  lemma Left<S(!new), T(!new)>(from: seq<UTF32> -> seq<S>, to: seq<UTF32> -> seq<T>,
                               source: seq<S>, cs: seq<UTF32>, k: nat, s: nat, units: seq<T>)
    requires ByCharacter(from) && Converted(from, to, source, cs, k, s, units)
    ensures k <= |cs| && s <= |source|
    ensures Scalars(cs[k..]) && source[s..] == from(cs[k..])
    ensures s == |source| <==> k == |cs|
    ensures k == |cs| ==> units == to(cs)
  {
    assert cs == cs[..k] + cs[k..] && cs[..|cs|] == cs;
    assert source == from(cs[..k]) + from(cs[k..]);
  }

  /** A call on what is left of the source adds its characters. */
  lemma Resume<S(!new), T(!new)>(from: seq<UTF32> -> seq<S>, to: seq<UTF32> -> seq<T>,
                                 source: seq<S>, cs: seq<UTF32>, k: nat, s: nat, units: seq<T>,
                                 j: nat, n: nat, piece: seq<T>)
    requires ByCharacter(from) && ByCharacter(to) && Converted(from, to, source, cs, k, s, units)
    requires Converted(from, to, source[s..], cs[k..], j, n, piece)
    ensures Converted(from, to, source, cs, k + j, s + n, units + piece)
  {
    assert cs[..k + j] == cs[..k] + cs[k..][..j];
  }

  lemma NothingYet<S(!new), T(!new)>(from: seq<UTF32> -> seq<S>, to: seq<UTF32> -> seq<T>,
                                     source: seq<S>, cs: seq<UTF32>, k: nat, s: nat, units: seq<T>)
    requires ByCharacter(to) && Converted(from, to, source, cs, k, s, units)
    ensures k == 0 ==> units == []
  {
    assert k == 0 ==> cs[..k] == [];
  }

  lemma IsConverted<S(!new), T(!new)>(from: seq<UTF32> -> seq<S>, to: seq<UTF32> -> seq<T>,
                                      source: seq<S>, cs: seq<UTF32>, k: nat, s: nat, units: seq<T>)
    requires Scalars(cs) && source == from(cs)
    requires k <= |cs| && s == |from(cs[..k])| && s <= |source| && units == to(cs[..k])
    ensures Converted(from, to, source, cs, k, s, units)
  {
  }

  /** A whole buffer and its target. */
  lemma TargetHolds<U>(out: Target<U>, size: nat)
    requires out.Valid() && out.start == 0 && out.end == size
    ensures out.target <= out.buffer.Length && out.buffer[..out.target] == out.written
    ensures |out.written| + out.Room() == size
  {
  }

  // ----- from UTF-8 to UTF-16

  /** One call on what is left, into a new buffer of `size` units. */
  method Piece8to16(source: seq<UTF8>, size: nat, ghost cs: seq<UTF32>)
      returns (units: seq<UTF16>, s: nat, ghost k: nat)
    requires Scalars(cs) && source == EncodeAll8(cs)
    ensures Converted(EncodeAll8, EncodeAll16, source, cs, k, s, units)
    ensures size >= 2 && |cs| > 0 ==> k > 0
  {
    hide *;
    var buffer := new UTF16[size];
    var out := new Target(buffer, 0, size);
    var result, n, segs := Utf8to16.ConvertUTF8toUTF16(source, out, StrictConversion);
    TargetHolds(out, size);
    units, s, k := buffer[..out.target], n, |segs|;
    Conversions.Piece8to16(cs, result, n, segs, units, out.Room());
    Rest8(cs, k);
    IsConverted(EncodeAll8, EncodeAll16, source, cs, k, s, units);
    EncodingsAreByCharacter();
    NothingYet(EncodeAll8, EncodeAll16, source, cs, k, s, units);
    if k == 0 && |cs| > 0 {
      EncodingsAreShort(cs[0]);
    }
  }

  /**
    Calls with buffers of the given sizes, the pieces put together: always whole characters, and the
    one-shot output once the source is used up, which enough buffers of 2 units achieve.
   */
  method InPieces8to16(source: seq<UTF8>, sizes: seq<nat>, ghost cs: seq<UTF32>)
      returns (units: seq<UTF16>, s: nat, ghost k: nat)
    requires Scalars(cs) && source == EncodeAll8(cs)
    ensures Converted(EncodeAll8, EncodeAll16, source, cs, k, s, units)
    ensures s == |source| ==> units == EncodeAll16(cs)
    ensures |sizes| >= |cs| && (forall i :: 0 <= i < |sizes| ==> sizes[i] >= 2) ==> s == |source|
  {
    hide *;
    units, s, k := [], 0, 0;
    EncodingsAreByCharacter();
    Start(EncodeAll8, EncodeAll16, cs);
    for i := 0 to |sizes|
      invariant Converted(EncodeAll8, EncodeAll16, source, cs, k, s, units)
      invariant (forall j :: 0 <= j < i ==> sizes[j] >= 2) ==> k >= i || k == |cs|
    {
      Left(EncodeAll8, EncodeAll16, source, cs, k, s, units);
      var piece, n, j := Piece8to16(source[s..], sizes[i], cs[k..]);
      Left(EncodeAll8, EncodeAll16, source[s..], cs[k..], j, n, piece);
      Resume(EncodeAll8, EncodeAll16, source, cs, k, s, units, j, n, piece);
      units, s, k := units + piece, s + n, k + j;
    }
    Left(EncodeAll8, EncodeAll16, source, cs, k, s, units);
  }

  // ----- from UTF-16 to UTF-8

  /** One call on what is left, into a new buffer of `size` units. */
  method Piece16to8(source: seq<UTF16>, size: nat, ghost cs: seq<UTF32>)
      returns (units: seq<UTF8>, s: nat, ghost k: nat)
    requires Scalars(cs) && source == EncodeAll16(cs)
    ensures Converted(EncodeAll16, EncodeAll8, source, cs, k, s, units)
    ensures size >= 4 && |cs| > 0 ==> k > 0
  {
    hide *;
    var buffer := new UTF8[size];
    var out := new Target(buffer, 0, size);
    var result, n, segs := Utf16to8.ConvertUTF16toUTF8(source, out, StrictConversion);
    TargetHolds(out, size);
    units, s, k := buffer[..out.target], n, |segs|;
    Conversions.Piece16to8(cs, result, n, segs, units, out.Room());
    Rest16(cs, k);
    IsConverted(EncodeAll16, EncodeAll8, source, cs, k, s, units);
    EncodingsAreByCharacter();
    NothingYet(EncodeAll16, EncodeAll8, source, cs, k, s, units);
    if k == 0 && |cs| > 0 {
      EncodingsAreShort(cs[0]);
    }
  }

  /**
    Calls with buffers of the given sizes, the pieces put together: always whole characters, and the
    one-shot output once the source is used up, which enough buffers of 4 units achieve.
   */
  method InPieces16to8(source: seq<UTF16>, sizes: seq<nat>, ghost cs: seq<UTF32>)
      returns (units: seq<UTF8>, s: nat, ghost k: nat)
    requires Scalars(cs) && source == EncodeAll16(cs)
    ensures Converted(EncodeAll16, EncodeAll8, source, cs, k, s, units)
    ensures s == |source| ==> units == EncodeAll8(cs)
    ensures |sizes| >= |cs| && (forall i :: 0 <= i < |sizes| ==> sizes[i] >= 4) ==> s == |source|
  {
    hide *;
    units, s, k := [], 0, 0;
    EncodingsAreByCharacter();
    Start(EncodeAll16, EncodeAll8, cs);
    for i := 0 to |sizes|
      invariant Converted(EncodeAll16, EncodeAll8, source, cs, k, s, units)
      invariant (forall j :: 0 <= j < i ==> sizes[j] >= 4) ==> k >= i || k == |cs|
    {
      Left(EncodeAll16, EncodeAll8, source, cs, k, s, units);
      var piece, n, j := Piece16to8(source[s..], sizes[i], cs[k..]);
      Left(EncodeAll16, EncodeAll8, source[s..], cs[k..], j, n, piece);
      Resume(EncodeAll16, EncodeAll8, source, cs, k, s, units, j, n, piece);
      units, s, k := units + piece, s + n, k + j;
    }
    Left(EncodeAll16, EncodeAll8, source, cs, k, s, units);
  }

  // ----- from UTF-8 to UTF-32

  /** One call on what is left, into a new buffer of `size` units. */
  method Piece8to32(source: seq<UTF8>, size: nat, ghost cs: seq<UTF32>)
      returns (units: seq<UTF32>, s: nat, ghost k: nat)
    requires Scalars(cs) && source == EncodeAll8(cs)
    ensures Converted(EncodeAll8, Plain, source, cs, k, s, units)
    ensures size >= 1 && |cs| > 0 ==> k > 0
  {
    hide *;
    PlainIs();
    var buffer := new UTF32[size];
    var out := new Target(buffer, 0, size);
    var result, n, segs := Utf8to32.ConvertUTF8toUTF32(source, out, StrictConversion);
    TargetHolds(out, size);
    units, s, k := buffer[..out.target], n, |segs|;
    Conversions.Piece8to32(cs, result, n, segs, units, out.Room());
    Rest8(cs, k);
    IsConverted(EncodeAll8, Plain, source, cs, k, s, units);
    EncodingsAreByCharacter();
    NothingYet(EncodeAll8, Plain, source, cs, k, s, units);
    if k == 0 && |cs| > 0 {
      EncodingsAreShort(cs[0]);
    }
  }

  /**
    Calls with buffers of the given sizes, the pieces put together: always whole characters, and the
    one-shot output once the source is used up, which enough buffers of 1 unit achieve.
   */
  method InPieces8to32(source: seq<UTF8>, sizes: seq<nat>, ghost cs: seq<UTF32>)
      returns (units: seq<UTF32>, s: nat, ghost k: nat)
    requires Scalars(cs) && source == EncodeAll8(cs)
    ensures Converted(EncodeAll8, Plain, source, cs, k, s, units)
    ensures s == |source| ==> units == Plain(cs)
    ensures |sizes| >= |cs| && (forall i :: 0 <= i < |sizes| ==> sizes[i] >= 1) ==> s == |source|
  {
    hide *;
    units, s, k := [], 0, 0;
    EncodingsAreByCharacter();
    Start(EncodeAll8, Plain, cs);
    for i := 0 to |sizes|
      invariant Converted(EncodeAll8, Plain, source, cs, k, s, units)
      invariant (forall j :: 0 <= j < i ==> sizes[j] >= 1) ==> k >= i || k == |cs|
    {
      Left(EncodeAll8, Plain, source, cs, k, s, units);
      var piece, n, j := Piece8to32(source[s..], sizes[i], cs[k..]);
      Left(EncodeAll8, Plain, source[s..], cs[k..], j, n, piece);
      Resume(EncodeAll8, Plain, source, cs, k, s, units, j, n, piece);
      units, s, k := units + piece, s + n, k + j;
    }
    Left(EncodeAll8, Plain, source, cs, k, s, units);
  }

  // ----- from UTF-16 to UTF-32

  /** One call on what is left, into a new buffer of `size` units. */
  method Piece16to32(source: seq<UTF16>, size: nat, ghost cs: seq<UTF32>)
      returns (units: seq<UTF32>, s: nat, ghost k: nat)
    requires Scalars(cs) && source == EncodeAll16(cs)
    ensures Converted(EncodeAll16, Plain, source, cs, k, s, units)
    ensures size >= 1 && |cs| > 0 ==> k > 0
  {
    hide *;
    PlainIs();
    var buffer := new UTF32[size];
    var out := new Target(buffer, 0, size);
    var result, n, segs := Utf16to32.ConvertUTF16toUTF32(source, out, StrictConversion);
    TargetHolds(out, size);
    units, s, k := buffer[..out.target], n, |segs|;
    Conversions.Piece16to32(cs, result, n, segs, units, out.Room());
    Rest16(cs, k);
    IsConverted(EncodeAll16, Plain, source, cs, k, s, units);
    EncodingsAreByCharacter();
    NothingYet(EncodeAll16, Plain, source, cs, k, s, units);
    if k == 0 && |cs| > 0 {
      EncodingsAreShort(cs[0]);
    }
  }

  /**
    Calls with buffers of the given sizes, the pieces put together: always whole characters, and the
    one-shot output once the source is used up, which enough buffers of 1 unit achieve.
   */
  method InPieces16to32(source: seq<UTF16>, sizes: seq<nat>, ghost cs: seq<UTF32>)
      returns (units: seq<UTF32>, s: nat, ghost k: nat)
    requires Scalars(cs) && source == EncodeAll16(cs)
    ensures Converted(EncodeAll16, Plain, source, cs, k, s, units)
    ensures s == |source| ==> units == Plain(cs)
    ensures |sizes| >= |cs| && (forall i :: 0 <= i < |sizes| ==> sizes[i] >= 1) ==> s == |source|
  {
    hide *;
    units, s, k := [], 0, 0;
    EncodingsAreByCharacter();
    Start(EncodeAll16, Plain, cs);
    for i := 0 to |sizes|
      invariant Converted(EncodeAll16, Plain, source, cs, k, s, units)
      invariant (forall j :: 0 <= j < i ==> sizes[j] >= 1) ==> k >= i || k == |cs|
    {
      Left(EncodeAll16, Plain, source, cs, k, s, units);
      var piece, n, j := Piece16to32(source[s..], sizes[i], cs[k..]);
      Left(EncodeAll16, Plain, source[s..], cs[k..], j, n, piece);
      Resume(EncodeAll16, Plain, source, cs, k, s, units, j, n, piece);
      units, s, k := units + piece, s + n, k + j;
    }
    Left(EncodeAll16, Plain, source, cs, k, s, units);
  }

  // ----- from UTF-32 to UTF-16

  /** One call on what is left, into a new buffer of `size` units. */
  method Piece32to16(source: seq<UTF32>, size: nat, ghost cs: seq<UTF32>)
      returns (units: seq<UTF16>, s: nat, ghost k: nat)
    requires Scalars(cs) && source == Plain(cs)
    ensures Converted(Plain, EncodeAll16, source, cs, k, s, units)
    ensures size >= 2 && |cs| > 0 ==> k > 0
  {
    hide *;
    PlainIs();
    var buffer := new UTF16[size];
    var out := new Target(buffer, 0, size);
    var result, n := Utf32to16.ConvertUTF32toUTF16(source, out, StrictConversion);
    TargetHolds(out, size);
    units, s, k := buffer[..out.target], n, n;
    Conversions.Piece32to16(cs, result, n, units, out.Room());
    IsConverted(Plain, EncodeAll16, source, cs, k, s, units);
    EncodingsAreByCharacter();
    NothingYet(Plain, EncodeAll16, source, cs, k, s, units);
    if k == 0 && |cs| > 0 {
      EncodingsAreShort(cs[0]);
    }
  }

  /**
    Calls with buffers of the given sizes, the pieces put together: always whole characters, and the
    one-shot output once the source is used up, which enough buffers of 2 units achieve.
   */
  method InPieces32to16(source: seq<UTF32>, sizes: seq<nat>, ghost cs: seq<UTF32>)
      returns (units: seq<UTF16>, s: nat, ghost k: nat)
    requires Scalars(cs) && source == Plain(cs)
    ensures Converted(Plain, EncodeAll16, source, cs, k, s, units)
    ensures s == |source| ==> units == EncodeAll16(cs)
    ensures |sizes| >= |cs| && (forall i :: 0 <= i < |sizes| ==> sizes[i] >= 2) ==> s == |source|
  {
    hide *;
    units, s, k := [], 0, 0;
    EncodingsAreByCharacter();
    Start(Plain, EncodeAll16, cs);
    for i := 0 to |sizes|
      invariant Converted(Plain, EncodeAll16, source, cs, k, s, units)
      invariant (forall j :: 0 <= j < i ==> sizes[j] >= 2) ==> k >= i || k == |cs|
    {
      Left(Plain, EncodeAll16, source, cs, k, s, units);
      var piece, n, j := Piece32to16(source[s..], sizes[i], cs[k..]);
      Left(Plain, EncodeAll16, source[s..], cs[k..], j, n, piece);
      Resume(Plain, EncodeAll16, source, cs, k, s, units, j, n, piece);
      units, s, k := units + piece, s + n, k + j;
    }
    Left(Plain, EncodeAll16, source, cs, k, s, units);
  }

  // ----- from UTF-32 to UTF-8

  /** One call on what is left, into a new buffer of `size` units. */
  method Piece32to8(source: seq<UTF32>, size: nat, ghost cs: seq<UTF32>)
      returns (units: seq<UTF8>, s: nat, ghost k: nat)
    requires Scalars(cs) && source == Plain(cs)
    ensures Converted(Plain, EncodeAll8, source, cs, k, s, units)
    ensures size >= 4 && |cs| > 0 ==> k > 0
  {
    hide *;
    PlainIs();
    var buffer := new UTF8[size];
    var out := new Target(buffer, 0, size);
    var result, n := Utf32to8.ConvertUTF32toUTF8(source, out, StrictConversion);
    TargetHolds(out, size);
    units, s, k := buffer[..out.target], n, n;
    Conversions.Piece32to8(cs, result, n, units, out.Room());
    IsConverted(Plain, EncodeAll8, source, cs, k, s, units);
    EncodingsAreByCharacter();
    NothingYet(Plain, EncodeAll8, source, cs, k, s, units);
    if k == 0 && |cs| > 0 {
      EncodingsAreShort(cs[0]);
    }
  }

  /**
    Calls with buffers of the given sizes, the pieces put together: always whole characters, and the
    one-shot output once the source is used up, which enough buffers of 4 units achieve.
   */
  method InPieces32to8(source: seq<UTF32>, sizes: seq<nat>, ghost cs: seq<UTF32>)
      returns (units: seq<UTF8>, s: nat, ghost k: nat)
    requires Scalars(cs) && source == Plain(cs)
    ensures Converted(Plain, EncodeAll8, source, cs, k, s, units)
    ensures s == |source| ==> units == EncodeAll8(cs)
    ensures |sizes| >= |cs| && (forall i :: 0 <= i < |sizes| ==> sizes[i] >= 4) ==> s == |source|
  {
    hide *;
    units, s, k := [], 0, 0;
    EncodingsAreByCharacter();
    Start(Plain, EncodeAll8, cs);
    for i := 0 to |sizes|
      invariant Converted(Plain, EncodeAll8, source, cs, k, s, units)
      invariant (forall j :: 0 <= j < i ==> sizes[j] >= 4) ==> k >= i || k == |cs|
    {
      Left(Plain, EncodeAll8, source, cs, k, s, units);
      var piece, n, j := Piece32to8(source[s..], sizes[i], cs[k..]);
      Left(Plain, EncodeAll8, source[s..], cs[k..], j, n, piece);
      Resume(Plain, EncodeAll8, source, cs, k, s, units, j, n, piece);
      units, s, k := units + piece, s + n, k + j;
    }
    Left(Plain, EncodeAll8, source, cs, k, s, units);
  }

  // ----- lenient conversion of a whole input

  /** What comes first is determined, so there is one way to cut a text in segments. */
  lemma ComesIsUnique(s: seq<UTF8>, seg: Segment, other: Segment)
    requires Comes8(s, seg) && Comes8(s, other)
    ensures seg == other
  {
    if seg.Good? && other.Good? {
      StartIsUnique(s, seg.c, other.c);
    } else if seg.Bad? && other.Bad? {
      MaximalSubpartIsUnique(s, seg.n, other.n);
    }
  }

  lemma {:induction false} SegmentsAreUnique(s: seq<UTF8>, segs: seq<Segment>, m: nat, ts: seq<Segment>, n: nat)
    requires Segments8(s, segs, m) && Segments8(s, ts, n) && |segs| == |ts|
    ensures segs == ts && m == n
    decreases |segs|
  {
    hide *;
    if segs == [] {
      assert ts == [];
      NoSegments8(s, m);
      NoSegments8(s, n);
    } else {
      LastSegment8(s, segs, m);
      LastSegment8(s, ts, n);
      var k := |segs| - 1;
      SegmentsAreUnique(s, segs[..k], m - Length8(segs[k]), ts[..k], n - Length8(ts[k]));
      ComesIsUnique(s[m - Length8(segs[k])..], segs[k], ts[k]);
      assert segs == segs[..k] + [segs[k]] && ts == ts[..k] + [ts[k]];
    }
  }

  /** Dropping the last segments leaves a shorter part. */
  lemma {:induction false} SegmentsPrefix(s: seq<UTF8>, segs: seq<Segment>, m: nat, k: nat) returns (end: nat)
    requires Segments8(s, segs, m) && k <= |segs|
    ensures end <= m && Segments8(s, segs[..k], end) && (k < |segs| ==> end < m)
    decreases |segs|
  {
    hide *;
    if k == |segs| {
      assert segs[..k] == segs;
      end := m;
    } else {
      LastSegment8(s, segs, m);
      var n := |segs| - 1;
      Comes8Fits(s[m - Length8(segs[n])..], segs[n]);
      end := SegmentsPrefix(s, segs[..n], m - Length8(segs[n]), k);
      assert segs[..n][..k] == segs[..k];
    }
  }

  /** The segments of a whole text are unique. */
  lemma WholeSegmentsAreUnique(s: seq<UTF8>, segs: seq<Segment>, ts: seq<Segment>)
    requires Segments8(s, segs, |s|) && Segments8(s, ts, |s|)
    ensures segs == ts
  {
    hide *;
    if |segs| <= |ts| {
      NoMoreSegments(s, segs, ts);
    } else {
      NoMoreSegments(s, ts, segs);
    }
  }

  lemma NoMoreSegments(s: seq<UTF8>, segs: seq<Segment>, ts: seq<Segment>)
    requires Segments8(s, segs, |s|) && Segments8(s, ts, |s|) && |segs| <= |ts|
    ensures segs == ts
  {
    hide *;
    var end := SegmentsPrefix(s, ts, |s|, |segs|);
    SegmentsAreUnique(s, segs, |s|, ts[..|segs|], end);
  }

  /** A well-formed text has good segments only. */
  lemma WellFormedHasGoodSegments(cs: seq<UTF32>) returns (segs: seq<Segment>)
    requires Scalars(cs)
    ensures Segments8(EncodeAll8(cs), segs, |EncodeAll8(cs)|) && AllGood(segs)
  {
    segs := [];
    assert cs[..0] == [] && EncodeAll8([]) == [];
    assert Segments8(EncodeAll8(cs), segs, 0) && AllGood(segs);
    hide *;
    for k := 0 to |cs|
      invariant Segments8(EncodeAll8(cs), segs, |EncodeAll8(cs[..k])|) && AllGood(segs)
    {
      OneMoreGood(cs, k, segs);
      segs := segs + [Good(cs[k])];
    }
    assert cs[..|cs|] == cs;
  }

  lemma OneMoreGood(cs: seq<UTF32>, k: nat, segs: seq<Segment>)
    requires Scalars(cs) && k < |cs|
    requires Segments8(EncodeAll8(cs), segs, |EncodeAll8(cs[..k])|) && AllGood(segs)
    ensures Segments8(EncodeAll8(cs), segs + [Good(cs[k])], |EncodeAll8(cs[..k + 1])|)
    ensures AllGood(segs + [Good(cs[k])])
  {
    hide *;
    Rest8(cs, k);
    Next8(cs, k);
    GoodComes(EncodeAll8(cs)[|EncodeAll8(cs[..k])|..], cs[k]);
    Segments8Append(EncodeAll8(cs), segs, |EncodeAll8(cs[..k])|, Good(cs[k]));
    SoFarGrows(segs, Good(cs[k]));
    assert cs[..k + 1] == cs[..k] + [cs[k]];
    EncodeAllAppend(cs[..k], cs[k]);
  }

  lemma GoodComes(rest: seq<UTF8>, c: UTF32)
    requires Starts8(rest, c)
    ensures Comes8(rest, Good(c)) && Length8(Good(c)) == |Encode8(c)|
  {
  }

  /**
    The whole of any byte string, with a buffer of a unit for each byte: every character is kept and
    every maximal ill-formed subpart gives one replacement character.
   */
  method LenientUtf8ToUtf32(source: seq<UTF8>) returns (illegal: bool, values: seq<UTF32>)
    ensures exists segs :: Segments8(source, segs, |source|) && values == Values(segs)
    ensures forall segs :: Segments8(source, segs, |source|) ==> values == Values(segs)
    ensures illegal <==> !WellFormed8(source)
  {
    var buffer := new UTF32[|source|];
    var out := new Target(buffer, 0, |source|);
    assert out.Room() == |source|;
    var result, s, segs := Utf8to32.ConvertUTF8toUTF32(source, out, LenientConversion);
    illegal, values := result == SourceIllegal, buffer[..out.target];
    assert values == out.written;
    LenientOutcome(source, result, s, segs, values, out.Room());
    forall ts | Segments8(source, ts, |source|)
      ensures values == Values(ts)
    {
      WholeSegmentsAreUnique(source, segs, ts);
    }
  }

  lemma LenientOutcome(source: seq<UTF8>, result: ConversionResult, s: nat, segs: seq<Segment>, values: seq<UTF32>,
                       room: nat)
    requires s <= |source| && Utf8to32.Between(source, s, segs, values, room, false)
    requires Utf8to32.Ends(result, false, false, room, segs, source[s..])
    ensures Segments8(source, segs, |source|) && values == Values(segs)
    ensures result == SourceIllegal <==> !WellFormed8(source)
  {
    assert s == |source|;
    hide Segments8, Values, EncodeAll8;
    if AllGood(segs) {
      WellFormedSegments8(source, segs);
    } else if WellFormed8(source) {
      var cs := Decoded8(source);
      var good := WellFormedHasGoodSegments(cs);
      WholeSegmentsAreUnique(source, segs, good);
    }
  }

  // ----- isLegalUTF8String

  /** Whether the whole text is well-formed, and how far it is. */
  method IsLegalUTF8String(source: seq<UTF8>) returns (legal: bool, s: nat, ghost segs: seq<Segment>)
    ensures legal <==> WellFormed8(source)
    ensures s <= |source| && Segments8(source, segs, s) && AllGood(segs)
    ensures legal <==> s == |source|
    ensures !legal ==> Unconvertible8(source[s..])
  {
    hide *;
    s, segs := 0, [];
    NoSegments(source);
    while s != |source|
      invariant s <= |source| && Segments8(source, segs, s) && AllGood(segs)
      decreases |source| - s
    {
      var rest := source[s..];
      WhatComes(rest);
      WhatIsMissing(rest);
      var length := TrailingBytesForUTF8(source[s]) + 1;
      if length > |source| - s || !IsLegalUTF8(source[s..], length) {
        NotWellFormed(source, s, segs);
        return false, s, segs;
      }
      ghost var seg := Good(Read8(rest, length - 1));
      Segments8Append(source, segs, s, seg);
      ValuesAppend(segs, seg);
      s, segs := s + length, segs + [seg];
    }
    WellFormedSegments8(source, segs);
    legal := true;
  }

  lemma NoSegments(source: seq<UTF8>)
    ensures Segments8(source, [], 0) && AllGood([])
  {
  }

  lemma WhatIsMissing(rest: seq<UTF8>)
    requires |rest| > 0
    ensures Truncated8(rest) ==> Unconvertible8(rest)
  {
    if Truncated8(rest) {
      IllegalIsUnconvertible(rest);
    }
  }

  lemma NotWellFormed(source: seq<UTF8>, s: nat, segs: seq<Segment>)
    requires s < |source| && Segments8(source, segs, s) && AllGood(segs) && Unconvertible8(source[s..])
    ensures !WellFormed8(source)
  {
    hide Segments8, EncodeAll8, AllGood, Starts8, Values;
    if WellFormed8(source) {
      var cs := Decoded8(source);
      GoodSegmentsFollow8(cs, segs, s);
      Rest8(cs, |segs|);
      Next8(cs, |segs|);
    }
  }
}

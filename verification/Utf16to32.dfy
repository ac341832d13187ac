/** `ConvertUTF16toUTF32` of ConvertUTF.c. */
module Utf16to32 {
  import opened Unicode
  import opened Segments
  import opened Targets
  import opened Utf16Source

  /** How the conversion may end before `rest`, by its result. */
  ghost predicate Ends(result: ConversionResult, strict: bool, room: nat, rest: seq<UTF16>) {
    match result
    case ConversionOK => rest == []
    case TargetExhausted => room == 0 && exists seg :: Comes16(rest, seg) && (strict ==> seg.Good?)
    case _ => StopsReading(result, strict, rest)
  }

  /** What the loop keeps: the segments passed and what has been written for them. */
  ghost predicate Between(source: seq<UTF16>, s: nat, segs: seq<Segment>, written: seq<UTF32>, strict: bool) {
    && Segments16(source, segs, s)
    && written == Values(segs)
    && (strict ==> AllGood(segs))
  }

  lemma BetweenGrows(source: seq<UTF16>, s: nat, segs: seq<Segment>, written: seq<UTF32>, strict: bool, seg: Segment)
    requires s <= |source| && Between(source, s, segs, written, strict)
    requires Comes16(source[s..], seg) && (strict ==> seg.Good?)
    ensures s < s + Length16(seg) <= |source|
    ensures Between(source, s + Length16(seg), segs + [seg], written + [Value(seg)], strict)
  {
    Segments16Append(source, segs, s, seg);
    ValuesAppend(segs, seg);
    hide Segments16, Comes16, Value, Values, Length16;
  }

  lemma EndsThere(result: ConversionResult, strict: bool, room: nat, rest: seq<UTF16>)
    ensures StopsReading(result, strict, rest) ==> Ends(result, strict, room, rest)
    ensures rest == [] ==> Ends(ConversionOK, strict, room, rest)
  {
  }

  lemma EndsFull(strict: bool, room: nat, rest: seq<UTF16>, seg: Segment)
    requires Comes16(rest, seg) && (strict ==> seg.Good?) && room == 0
    ensures Ends(TargetExhausted, strict, room, rest)
  {
  }

  method ConvertUTF16toUTF32(source: seq<UTF16>, out: Target<UTF32>, flags: ConversionFlags)
      returns (result: ConversionResult, s: nat, ghost segs: seq<Segment>)
    requires out.Valid() && out.written == []
    modifies out, out.buffer
    ensures out.Valid()
    ensures s <= |source| && Between(source, s, segs, out.written, flags == StrictConversion)
    ensures Ends(result, flags == StrictConversion, out.Room(), source[s..])
  {
    ghost var strict := flags == StrictConversion;
    result, s, segs := ConversionOK, 0, [];
    assert Between(source, s, segs, out.written, strict);
    hide *;
    hide Target.Valid, Target.Room;
    while s < |source|
      invariant out.Valid() && s <= |source| && Between(source, s, segs, out.written, strict)
      invariant result == ConversionOK
    {
      var stop, why, ch, n, seg := ReadUnits(source, s, flags);
      if stop {
        result := why;
        EndsThere(result, strict, out.Room(), source[s..]);
        return;
      }
      var full := out.IsFull();
      if full {
        EndsFull(strict, out.Room(), source[s..], seg);
        result := TargetExhausted;
        return;
      }
      BetweenGrows(source, s, segs, out.written, strict, seg);
      out.Put(ch);
      s, segs := s + n, segs + [seg];
    }
    EndsThere(result, strict, out.Room(), source[s..]);
  }
}

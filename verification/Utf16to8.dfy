/** `ConvertUTF16toUTF8` of ConvertUTF.c. */
module Utf16to8 {
  import opened Unicode
  import opened Utf8Syntax
  import opened Segments
  import opened Targets
  import opened Utf16Source

  /** How the conversion may end before `rest`, by its result. */
  ghost predicate Ends(result: ConversionResult, strict: bool, room: nat, rest: seq<UTF16>) {
    match result
    case ConversionOK => rest == []
    case TargetExhausted => exists seg :: Comes16(rest, seg) && (strict ==> seg.Good?) && room < |Encode8(Value(seg))|
    case _ => StopsReading(result, strict, rest)
  }

  /** What the loop keeps: the segments passed and what has been written for them. */
  ghost predicate Between(source: seq<UTF16>, s: nat, segs: seq<Segment>, written: seq<UTF8>, strict: bool) {
    && Segments16(source, segs, s)
    && written == EncodeAll8(Values(segs))
    && (strict ==> AllGood(segs))
  }

  lemma BetweenStarts(source: seq<UTF16>, strict: bool)
    ensures Between(source, 0, [], [], strict)
  {
  }

  lemma BetweenGrows(source: seq<UTF16>, s: nat, segs: seq<Segment>, written: seq<UTF8>, strict: bool, seg: Segment)
    requires s <= |source| && Between(source, s, segs, written, strict)
    requires Comes16(source[s..], seg) && (strict ==> seg.Good?)
    ensures s < s + Length16(seg) <= |source|
    ensures Between(source, s + Length16(seg), segs + [seg], written + Encode8(Value(seg)), strict)
  {
    Segments16Append(source, segs, s, seg);
    ValuesAppend(segs, seg);
    EncodeAllAppend(Values(segs), Value(seg));
    hide Encode8, EncodeAll8, Segments16, Comes16, Value, Values, Length16;
  }

  lemma EndsThere(result: ConversionResult, strict: bool, room: nat, rest: seq<UTF16>)
    ensures StopsReading(result, strict, rest) ==> Ends(result, strict, room, rest)
    ensures rest == [] ==> Ends(ConversionOK, strict, room, rest)
  {
  }

  lemma EndsFull(strict: bool, room: nat, rest: seq<UTF16>, seg: Segment)
    requires Comes16(rest, seg) && (strict ==> seg.Good?) && room < |Encode8(Value(seg))|
    ensures Ends(TargetExhausted, strict, room, rest)
  {
  }

  method ConvertUTF16toUTF8(source: seq<UTF16>, out: Target<UTF8>, flags: ConversionFlags)
      returns (result: ConversionResult, s: nat, ghost segs: seq<Segment>)
    requires out.Valid() && out.written == []
    modifies out, out.buffer
    ensures out.Valid()
    ensures s <= |source| && Between(source, s, segs, out.written, flags == StrictConversion)
    ensures Ends(result, flags == StrictConversion, out.Room(), source[s..])
  {
    hide *;
    hide Target.Valid, Target.Room;
    ghost var strict := flags == StrictConversion;
    result, s, segs := ConversionOK, 0, [];
    BetweenStarts(source, strict);
    while s < |source|
      invariant out.Valid() && s <= |source| && Between(source, s, segs, out.written, strict)
      invariant result == ConversionOK
    {
      var stop, why, ch, n, seg := ReadUnits(source, s, flags);
      if stop {
        result := why;
        EndsThere(result, strict, out.Room(), source[s..]);
        return;
      }
      var bytesToWrite := BytesToWrite(ch);
      var full := out.LacksRoomFor(bytesToWrite);
      BytesAreEncoded(ch);
      if full {
        EndsFull(strict, out.Room(), source[s..], seg);
        result := TargetExhausted;
        return;
      }
      BetweenGrows(source, s, segs, out.written, strict, seg);
      Write8(out, ch);
      s, segs := s + n, segs + [seg];
    }
    EndsThere(result, strict, out.Room(), source[s..]);
  }
}

/** The converters of ConvertUTF.c that read UTF-16: what they share. */
module Utf16Source {
  import opened Unicode
  import opened Segments

  /** Nothing can be read before `rest`: it is truncated, or a lone surrogate in strict mode. */
  ghost predicate StopsReading(result: ConversionResult, strict: bool, rest: seq<UTF16>) {
    match result
    case SourceExhausted => Truncated16(rest)
    case SourceIllegal => strict && rest != [] && !Truncated16(rest) && Unconvertible16(rest)
    case _ => false
  }

  /** What may be read, or why not, of units that are not all gone. */
  lemma WhatIsRead(rest: seq<UTF16>, strict: bool)
    requires |rest| > 0
    ensures Truncated16(rest) ==> StopsReading(SourceExhausted, strict, rest)
    ensures !Truncated16(rest) && Unconvertible16(rest) && strict ==> StopsReading(SourceIllegal, strict, rest)
    ensures Length16(Bad(1, rest[0] as UTF32)) == 1 && (rest[0] as UTF32) <= 0x10FFFF
  {
    hide Unconvertible16, Truncated16;
  }

  /** The value read with its number of units, or the reason to stop: the first half of the loop. */
  method ReadUnits(source: seq<UTF16>, s: nat, flags: ConversionFlags)
      returns (stop: bool, result: ConversionResult, ch: UTF32, n: nat, ghost seg: Segment)
    requires s < |source|
    ensures stop ==> StopsReading(result, flags == StrictConversion, source[s..])
    ensures !stop ==> Comes16(source[s..], seg) && Length16(seg) == n && Value(seg) == ch && ch <= 0x10FFFF
    ensures !stop && flags == StrictConversion ==> seg.Good?
  {
    hide StopsReading, Truncated16, Unconvertible16, Starts16, Comes16, Length16, Paired, IsHigh, IsLow, Encode16;
    ghost var rest := source[s..];
    WhatComes16(rest);
    WhatIsRead(rest, flags == StrictConversion);
    stop, result, ch, n := false, ConversionOK, source[s] as UTF32, 1;
    seg := if IsHigh(source[s]) || IsLow(source[s]) then Bad(1, ch) else Good(ch);
    if IsHigh(source[s]) {
      if s + 1 < |source| {
        var ch2 := source[s + 1];
        if IsLow(ch2) {
          ch := Paired(source[s], ch2);
          n, seg := 2, Good(ch);
        } else if flags == StrictConversion {
          stop, result := true, SourceIllegal;
        }
      } else {
        stop, result := true, SourceExhausted;
      }
    } else if flags == StrictConversion {
      if IsLow(source[s]) {
        stop, result := true, SourceIllegal;
      }
    }
  }
}

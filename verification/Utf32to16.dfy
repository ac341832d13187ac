/** `ConvertUTF32toUTF16` of ConvertUTF.c. */
module Utf32to16 {
  import opened Unicode
  import opened Segments
  import opened Targets
  import opened Utf32Source

  /** What is written for one unit, as values: strict conversion drops what is too large. */
  function Emitted(u: UTF32, strict: bool): seq<UTF32> {
    if IsSurrogate(u) then [0xFFFD]
    else if TooLarge(u) then (if strict then [] else [0xFFFD])
    else [u]
  }

  function EmittedAll(us: seq<UTF32>, strict: bool): seq<UTF32> {
    if us == [] then [] else EmittedAll(us[..|us| - 1], strict) + Emitted(us[|us| - 1], strict)
  }

  ghost predicate Between(source: seq<UTF32>, s: nat, written: seq<UTF16>, strict: bool) {
    && s <= |source|
    && written == EncodeAll16(EmittedAll(source[..s], strict))
    && (strict ==> NoSurrogate(source[..s]))
  }

  ghost function SoFar(us: seq<UTF32>, strict: bool): ConversionResult {
    if strict && SomeTooLarge(us) then SourceIllegal else ConversionOK
  }

  /** How the conversion may end with `s` units read. */
  ghost predicate Ends(result: ConversionResult, strict: bool, room: nat, source: seq<UTF32>, s: nat) {
    && s <= |source|
    && if s == |source| then
         result == SoFar(source, strict)
       else
         match result
         case TargetExhausted => room == 0 || (0xFFFF < source[s] <= 0x10FFFF && room < 2)
         case SourceIllegal => strict && IsSurrogate(source[s])
         case _ => false
  }

  lemma BetweenGrows(source: seq<UTF32>, s: nat, written: seq<UTF16>, strict: bool)
    requires s < |source| && Between(source, s, written, strict) && !(strict && IsSurrogate(source[s]))
    ensures Between(source, s + 1, written + EncodeAll16(Emitted(source[s], strict)), strict)
    ensures SoFar(source[..s + 1], strict) ==
            if strict && TooLarge(source[s]) then SourceIllegal else SoFar(source[..s], strict)
  {
    hide Emitted, EncodeAll16, SomeTooLarge, TooLarge, IsSurrogate;
    assert source[..s + 1][..s] == source[..s];
    EncodeAll16Concat(EmittedAll(source[..s], strict), Emitted(source[s], strict));
    SomeTooLargeStep(source, s);
  }

  lemma OneEncoded(c: UTF32)
    ensures EncodeAll16([c]) == Encode16(c)
  {
    assert [c][..0] == [];
    assert EncodeAll16([]) == [];
    hide Encode16;
  }

  /** What one unit of the source is converted to. */
  lemma EmittedIs(u: UTF32, strict: bool)
    ensures IsSurrogate(u) && !strict ==> EncodeAll16(Emitted(u, strict)) == [0xFFFD]
    ensures TooLarge(u) ==> EncodeAll16(Emitted(u, strict)) == if strict then [] else [0xFFFD]
    ensures !IsSurrogate(u) && !TooLarge(u) ==> EncodeAll16(Emitted(u, strict)) == Encode16(u)
  {
    OneEncoded(u);
    OneEncoded(UNI_REPLACEMENT_CHAR);
    ReplacementUnit();
  }

  /** The turn over one unit when there is room for it. */
  method Turn(source: seq<UTF32>, s: nat, out: Target<UTF16>, flags: ConversionFlags, result0: ConversionResult)
      returns (stop: bool, result: ConversionResult)
    requires s < |source| && out.Valid() && out.Room() > 0
    requires Between(source, s, out.written, flags == StrictConversion)
    requires result0 == SoFar(source[..s], flags == StrictConversion)
    modifies out, out.buffer
    ensures out.Valid()
    ensures stop ==> Between(source, s, out.written, flags == StrictConversion) &&
                     Ends(result, flags == StrictConversion, out.Room(), source, s)
    ensures !stop ==> Between(source, s + 1, out.written, flags == StrictConversion) &&
                      result == SoFar(source[..s + 1], flags == StrictConversion)
  {
    hide Between, SoFar, EncodeAll16, Emitted, SomeTooLarge, Encode16;
    hide Target.Valid, Target.Room;
    stop, result := false, result0;
    var ch := source[s];
    ghost var strict := flags == StrictConversion;
    EmittedIs(ch, strict);
    if !(strict && IsSurrogate(ch)) {
      BetweenGrows(source, s, out.written, strict);
    }
    if ch <= 0xFFFF {
      if IsSurrogate(ch) {
        if flags == StrictConversion {
          stop, result := true, SourceIllegal;
        } else {
          out.Put(0xFFFD);
        }
      } else {
        SurrogatesAreEncode16(ch);
        out.Put(ch as UTF16);
      }
    } else if ch > 0x10FFFF {
      if flags == StrictConversion {
        result := SourceIllegal;
        assert out.written + [] == out.written;
      } else {
        out.Put(0xFFFD);
      }
    } else {
      SurrogatesAreEncode16(ch);
      var full := out.LacksRoomFor(2);
      if full {
        stop, result := true, TargetExhausted;
      } else {
        Write16(out, ch);
      }
    }
  }

  lemma ReplacementUnit()
    ensures Encode16(UNI_REPLACEMENT_CHAR) == [0xFFFD]
  {
  }

  method ConvertUTF32toUTF16(source: seq<UTF32>, out: Target<UTF16>, flags: ConversionFlags)
      returns (result: ConversionResult, s: nat)
    requires out.Valid() && out.written == []
    modifies out, out.buffer
    ensures out.Valid()
    ensures Between(source, s, out.written, flags == StrictConversion)
    ensures Ends(result, flags == StrictConversion, out.Room(), source, s)
  {
    ghost var strict := flags == StrictConversion;
    result, s := ConversionOK, 0;
    assert Between(source, s, out.written, strict) && SoFar(source[..0], strict) == ConversionOK;
    hide Between, SoFar, EncodeAll16, SomeTooLarge, Encode16;
    hide Target.Valid, Target.Room;
    while s < |source|
      invariant out.Valid() && s <= |source| && Between(source, s, out.written, strict)
      invariant result == SoFar(source[..s], strict)
    {
      var full := out.IsFull();
      if full {
        result := TargetExhausted;
        return;
      }
      var stop;
      stop, result := Turn(source, s, out, flags, result);
      if stop {
        return;
      }
      s := s + 1;
    }
    assert source[..s] == source;
  }
}

/** `ConvertUTF32toUTF8` of ConvertUTF.c. */
module Utf32to8 {
  import opened Unicode
  import opened Utf8Syntax
  import opened Segments
  import opened Targets
  import opened Utf32Source

  /** The value written for a unit: what is too large is replaced in either mode. */
  function Emitted(u: UTF32): (c: UTF32)
    ensures c <= 0x10FFFF
  {
    if TooLarge(u) then 0xFFFD else u
  }

  function EmittedAll(us: seq<UTF32>): (cs: seq<UTF32>)
    ensures |cs| == |us|
  {
    if us == [] then [] else EmittedAll(us[..|us| - 1]) + [Emitted(us[|us| - 1])]
  }

  ghost predicate Between(source: seq<UTF32>, s: nat, written: seq<UTF8>, strict: bool) {
    && s <= |source|
    && written == EncodeAll8(EmittedAll(source[..s]))
    && (strict ==> NoSurrogate(source[..s]))
  }

  ghost function SoFar(us: seq<UTF32>): ConversionResult {
    if SomeTooLarge(us) then SourceIllegal else ConversionOK
  }

  /** How the conversion may end with `s` units read. */
  ghost predicate Ends(result: ConversionResult, strict: bool, room: nat, source: seq<UTF32>, s: nat) {
    && s <= |source|
    && if s == |source| then
         result == SoFar(source)
       else
         match result
         case TargetExhausted => room < |Encode8(Emitted(source[s]))|
         case SourceIllegal => strict && IsSurrogate(source[s])
         case _ => false
  }

  lemma BetweenGrows(source: seq<UTF32>, s: nat, written: seq<UTF8>, strict: bool)
    requires s < |source| && Between(source, s, written, strict) && !(strict && IsSurrogate(source[s]))
    ensures Between(source, s + 1, written + Encode8(Emitted(source[s])), strict)
    ensures SoFar(source[..s + 1]) == if TooLarge(source[s]) then SourceIllegal else SoFar(source[..s])
  {
    hide Emitted, EncodeAll8, SomeTooLarge, Encode8;
    assert source[..s + 1][..s] == source[..s];
    EncodeAllAppend(EmittedAll(source[..s]), Emitted(source[s]));
    SomeTooLargeStep(source, s);
  }

  lemma Starts(source: seq<UTF32>, strict: bool)
    ensures Between(source, 0, [], strict) && SoFar(source[..0]) == ConversionOK
  {
  }

  method ConvertUTF32toUTF8(source: seq<UTF32>, out: Target<UTF8>, flags: ConversionFlags)
      returns (result: ConversionResult, s: nat)
    requires out.Valid() && out.written == []
    modifies out, out.buffer
    ensures out.Valid()
    ensures Between(source, s, out.written, flags == StrictConversion)
    ensures Ends(result, flags == StrictConversion, out.Room(), source, s)
  {
    hide Between, SoFar, EncodeAll8, SomeTooLarge, Encode8;
    hide Target.Valid, Target.Room;
    ghost var strict := flags == StrictConversion;
    result, s := ConversionOK, 0;
    Starts(source, strict);
    while s < |source|
      invariant out.Valid() && s <= |source| && Between(source, s, out.written, strict)
      invariant result == SoFar(source[..s])
    {
      var ch := source[s];
      if flags == StrictConversion {
        if IsSurrogate(ch) {
          result := SourceIllegal;
          return;
        }
      }
      var bytesToWrite := BytesToWrite(ch);
      ghost var tooLarge := TooLarge(ch);
      if ch > 0x10FFFF {
        ch := UNI_REPLACEMENT_CHAR;
        result := SourceIllegal;
      }
      BytesAreEncoded(ch);
      var full := out.LacksRoomFor(bytesToWrite);
      if full {
        result := TargetExhausted;
        return;
      }
      BetweenGrows(source, s, out.written, strict);
      Write8(out, ch);
      s := s + 1;
    }
    assert source[..s] == source;
  }
}

/** The converters of ConvertUTF.c that read UTF-32: what they share. */
module Utf32Source {
  import opened Unicode
  import opened Segments

  predicate IsSurrogate(u: UTF32) {
    0xD800 <= u <= 0xDFFF
  }

  /** Past the last character: such a unit is flagged or replaced, but does not stop a conversion. */
  predicate TooLarge(u: UTF32) {
    u > 0x10FFFF
  }

  predicate SomeTooLarge(us: seq<UTF32>) {
    exists i :: 0 <= i < |us| && TooLarge(us[i])
  }

  lemma SomeTooLargeStep(us: seq<UTF32>, s: nat)
    requires s < |us|
    ensures SomeTooLarge(us[..s + 1]) <==> SomeTooLarge(us[..s]) || TooLarge(us[s])
  {
    assert us[..s + 1] == us[..s] + [us[s]];
    if SomeTooLarge(us[..s]) {
      var i :| 0 <= i < s && TooLarge(us[..s][i]);
      assert TooLarge(us[..s + 1][i]);
    }
    if TooLarge(us[s]) {
      assert TooLarge(us[..s + 1][s]);
    }
  }

  predicate NoSurrogate(us: seq<UTF32>) {
    forall i :: 0 <= i < |us| ==> !IsSurrogate(us[i])
  }

  lemma WellFormedUnits(us: seq<UTF32>)
    ensures Scalars(us) <==> NoSurrogate(us) && !SomeTooLarge(us)
  {
    assert forall i :: 0 <= i < |us| ==> (Scalar(us[i]) <==> !IsSurrogate(us[i]) && !TooLarge(us[i]));
  }
}

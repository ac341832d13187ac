/** The buffer a conversion writes to. */
module Targets {
  import opened Unicode
  import opened Utf8Syntax

  /** The target pointer of a conversion: `buffer` is written from `start` on, never past `end`. */
  class Target<T> {
    const buffer: array<T>
    const start: nat
    const end: nat
    var target: nat
    ghost var written: seq<T>
    ghost const base: seq<T>

    /** What has been written lies from `start` up to `target`; the rest is as it was. */
    ghost predicate Valid()
      reads this, buffer
    {
      && start <= target <= end <= buffer.Length == |base|
      && buffer[start..target] == written
      && buffer[..start] == base[..start] && buffer[target..] == base[target..]
    }

    ghost function Room(): (room: nat)
      reads this, buffer
      requires Valid()
      ensures |written| <= end - start && room == end - start - |written|
    {
      end - target
    }

    constructor (buffer: array<T>, start: nat, end: nat)
      requires start <= end <= buffer.Length
      ensures Valid() && written == []
      ensures this.buffer == buffer && this.start == start && this.end == end && base == buffer[..]
    {
      this.buffer, this.start, this.end := buffer, start, end;
      target := start;
      written := [];
      base := buffer[..];
    }

    /** `target >= targetEnd` */
    method IsFull() returns (full: bool)
      requires Valid()
      ensures full <==> Room() == 0
    {
      full := target >= end;
    }

    /** `target + n > targetEnd` */
    method LacksRoomFor(n: nat) returns (lacks: bool)
      requires Valid()
      ensures lacks <==> Room() < n
    {
      lacks := target + n > end;
    }

    /** `*target++ = unit` */
    method Put(unit: T)
      requires Valid() && Room() > 0
      modifies this, buffer
      ensures Valid() && written == old(written) + [unit]
    {
      ghost var b := buffer[..];
      buffer[target] := unit;
      assert buffer[..] == b[target := unit];
      assert b[target := unit][start..target + 1] == b[start..target] + [unit];
      assert b[target := unit][target + 1..] == b[target..][1..] == base[target..][1..];
      target := target + 1;
      written := written + [unit];
    }

    /** `target += n`, the units stored from the last to the first with `*--target`, `target += n` again */
    method PutBackwards(units: seq<T>)
      requires Valid() && |units| <= Room()
      modifies this, buffer
      ensures Valid() && written == old(written) + units
    {
      var n := |units|;
      StoreBackwards(units);
      assert buffer[start..target + n] == buffer[start..target] + buffer[target..target + n];
      target := target + n;
      written := written + units;
    }

    method StoreBackwards(units: seq<T>)
      requires Valid() && |units| <= Room()
      modifies buffer
      ensures buffer[..start] == base[..start] && buffer[start..target] == written
      ensures buffer[target..target + |units|] == units
      ensures buffer[target + |units|..] == base[target + |units|..]
    {
      assert buffer[target + |units|..] == buffer[target..][|units|..];
      assert base[target + |units|..] == base[target..][|units|..];
      var i := |units|;
      while i > 0
        invariant 0 <= i <= |units|
        invariant buffer[..start] == base[..start] && buffer[start..target] == written
        invariant buffer[target + i..target + |units|] == units[i..]
        invariant buffer[target + |units|..] == base[target + |units|..]
      {
        i := i - 1;
        buffer[target + i] := units[i];
        assert buffer[target + i..target + |units|] == [units[i]] + buffer[target + i + 1..target + |units|];
      }
    }
  }

  /** `(UTF16)((ch >> halfShift) + UNI_SUR_HIGH_START)` after the subtraction of `halfBase` */
  function HighSurrogate(ch: UTF32): UTF16 {
    ((((ch - 0x0010000) >> 10) + 0xD800) & 0xFFFF) as UTF16
  }

  /** `(UTF16)((ch & halfMask) + UNI_SUR_LOW_START)`, likewise */
  function LowSurrogate(ch: UTF32): UTF16 {
    ((((ch - 0x0010000) & 0x3FF) + 0xDC00) & 0xFFFF) as UTF16
  }

  lemma SurrogatesAreEncode16(ch: UTF32)
    requires ch <= 0x10FFFF
    ensures Encode16(ch) == if ch <= 0xFFFF then [ch as UTF16] else [HighSurrogate(ch), LowSurrogate(ch)]
  {
  }

  /** Writes one character as UTF-16; the caller has made sure of the room. */
  method Write16(out: Target<UTF16>, ch: UTF32)
    requires out.Valid() && ch <= 0x10FFFF && |Encode16(ch)| <= out.Room()
    modifies out, out.buffer
    ensures out.Valid() && out.written == old(out.written) + Encode16(ch)
  {
    SurrogatesAreEncode16(ch);
    hide Encode16, HighSurrogate, LowSurrogate;
    hide Target.Valid;
    if ch <= 0xFFFF {
      out.Put(ch as UTF16);
    } else {
      out.Put(HighSurrogate(ch));
      out.Put(LowSurrogate(ch));
    }
  }

  /** Writes the bytes of one character; the caller has made sure of the room. */
  method Write8(out: Target<UTF8>, ch: UTF32)
    requires out.Valid() && ch <= 0x10FFFF && BytesToWrite(ch) <= out.Room()
    modifies out, out.buffer
    ensures out.Valid() && out.written == old(out.written) + Encode8(ch)
  {
    WrittenIsEncode8(ch);
    hide Encode8;
    out.PutBackwards(Written(ch, BytesToWrite(ch), BytesToWrite(ch)));
  }
}

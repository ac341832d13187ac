/**
  The MD5 streaming of MCMD5.cpp on a little-endian machine: a block buffer, a bit counter in two
  words, and the padding. The transform of one block is a parameter.
 */
module Md5 {
  type Byte = b: int | 0 <= b < 256
  type Word = w: int | 0 <= w < 0x1_0000_0000

  datatype State = State(a: Word, b: Word, c: Word, d: Word)

  /** The state after one block of 64 bytes. */
  type Transform = (State, seq<Byte>) -> State

  const INIT := State(0x67452301, 0xEFCDAB89, 0x98BADCFE, 0x10325476)
  const WORDS := 0x1_0000_0000
  const LONGS := 0x1_0000_0000_0000_0000

  // ----- what the digest of a message is

  /** The state after whole blocks, one after another. */
  function Fold(f: Transform, s: State, blocks: seq<Byte>): State
    requires |blocks| % 64 == 0
    decreases |blocks|
  {
    if |blocks| == 0 then s else Fold(f, f(s, blocks[..64]), blocks[64..])
  }

  lemma {:induction false} FoldAppends(f: Transform, s: State, a: seq<Byte>, b: seq<Byte>)
    requires |a| % 64 == 0 && |b| % 64 == 0
    ensures |a + b| % 64 == 0 && Fold(f, s, a + b) == Fold(f, Fold(f, s, a), b)
    decreases |a|
  {
    if |a| == 0 {
      assert a + b == b;
    } else {
      FoldAppends(f, f(s, a[..64]), a[64..], b);
      assert (a + b)[..64] == a[..64] && (a + b)[64..] == a[64..] + b;
    }
  }

  lemma FoldOne(f: Transform, s: State, a: seq<Byte>, block: seq<Byte>)
    requires |a| % 64 == 0 && |block| == 64
    ensures |a + block| % 64 == 0 && Fold(f, s, a + block) == f(Fold(f, s, a), block)
  {
    FoldAppends(f, s, a, block);
    assert block[..64] == block && block[64..] == [];
  }

  function WordBytes(w: Word): (bs: seq<Byte>)
    ensures |bs| == 4
  {
    [w % 256, w / 256 % 256, w / 65536 % 256, w / 16777216]
  }

  function Zeros(n: nat): (bs: seq<Byte>)
    ensures |bs| == n
  {
    seq(n, i => 0)
  }

  /** The zeros between the end mark of a message of `n` bytes and its length. */
  function ZerosAfter(n: nat): (k: nat)
    ensures (n + 1 + k) % 64 == 56 && k < 64
  {
    if n % 64 <= 55 then 55 - n % 64 else 119 - n % 64
  }

  /** The length of a message in bits, in eight bytes, least significant first. */
  function LengthBytes(n: nat): (bs: seq<Byte>)
    ensures |bs| == 8
  {
    WordBytes(8 * n % WORDS) + WordBytes(8 * n % LONGS / WORDS)
  }

  function Padding(n: nat): (bs: seq<Byte>)
    ensures (n + |bs|) % 64 == 0
  {
    var k := ZerosAfter(n);
    assert (n + 1 + k + 8) % 64 == 0;
    [0x80] + Zeros(k) + LengthBytes(n)
  }

  function Padded(msg: seq<Byte>): (bs: seq<Byte>)
    ensures |bs| % 64 == 0
  {
    msg + Padding(|msg|)
  }

  function StateBytes(s: State): (bs: seq<Byte>)
    ensures |bs| == 16
  {
    WordBytes(s.a) + WordBytes(s.b) + WordBytes(s.c) + WordBytes(s.d)
  }

  /** The transform folded over the padded message. */
  function Digest(f: Transform, msg: seq<Byte>): (bs: seq<Byte>)
    ensures |bs| == 16
  {
    StateBytes(Fold(f, INIT, Padded(msg)))
  }

  /** The number that four bytes stand for, the low-order byte first. */
  function WordOf(bs: seq<Byte>): nat
    requires |bs| == 4
  {
    var a: nat, b: nat, c: nat, d: nat := bs[0], bs[1], bs[2], bs[3];
    a + 0x100 * b + 0x1_0000 * c + 0x100_0000 * d
  }

  /** The bytes of a word come low-order first (section 2 of RFC 1321). */
  lemma WordBytesMean(w: Word)
    ensures WordOf(WordBytes(w)) == w
  {
    Assembles(w);
  }

  lemma WordOfBytes(v: Word, w: Word)
    requires WordBytes(v) == WordBytes(w)
    ensures v == w
  {
    hide WordBytes, WordOf;
    WordBytesMean(v);
    WordBytesMean(w);
  }

  lemma Assembles(v: Word)
    ensures v == v % 256 + 256 * (v / 256 % 256) + 65536 * (v / 65536 % 256) + 16777216 * (v / 16777216)
  {
    assert v / 65536 == v / 256 / 256 && v / 16777216 == v / 65536 / 256;
  }

  lemma LengthParts(n: nat)
    ensures LengthBytes(n)[..4] == WordBytes(8 * n % WORDS)
    ensures LengthBytes(n)[4..] == WordBytes(8 * n % LONGS / WORDS)
  {
  }

  /** The length field is the number of bits modulo 2^64, low-order byte first (section 3.2 of RFC 1321). */
  lemma LengthBytesMean(n: nat)
    ensures var bs := LengthBytes(n); WordOf(bs[..4]) + WORDS * WordOf(bs[4..]) == 8 * n % LONGS
  {
    hide WordBytes, LengthBytes, WordOf;
    LengthParts(n);
    WordBytesMean(8 * n % WORDS);
    WordBytesMean(8 * n % LONGS / WORDS);
    LongParts(8 * n);
  }

  lemma LongParts(a: nat)
    ensures a % WORDS + WORDS * (a % LONGS / WORDS) == a % LONGS
  {
    var r := a % LONGS;
    assert a == r + WORDS * (WORDS * (a / LONGS));
    WordsDropOut(r, WORDS * (a / LONGS));
  }

  lemma WordsDropOut(r: nat, q: nat)
    ensures (r + WORDS * q) % WORDS == r % WORDS
  {
  }

  /** The first state, byte by byte (section 3.3 of RFC 1321). */
  lemma InitMeans()
    ensures StateBytes(INIT) ==
            [0x01, 0x23, 0x45, 0x67, 0x89, 0xAB, 0xCD, 0xEF] + [0xFE, 0xDC, 0xBA, 0x98, 0x76, 0x54, 0x32, 0x10]
  {
  }

  /**
    The digest shows the four words of a state in order, each with its low-order byte first (section 3.5
    of RFC 1321).
   */
  lemma StateBytesMean(s: State)
    ensures var bs := StateBytes(s);
            && WordOf(bs[..4]) == s.a && WordOf(bs[4..8]) == s.b
            && WordOf(bs[8..12]) == s.c && WordOf(bs[12..]) == s.d
  {
    hide WordBytes, WordOf;
    WordBytesMean(s.a);
    WordBytesMean(s.b);
    WordBytesMean(s.c);
    WordBytesMean(s.d);
    var bs := StateBytes(s);
    assert bs[..4] == WordBytes(s.a) && bs[4..8] == WordBytes(s.b);
    assert bs[8..12] == WordBytes(s.c) && bs[12..] == WordBytes(s.d);
  }

  /**
    The message, one bit that is set, as few bits that are not as it takes, and the length: whole blocks
    (sections 3.1 and 3.2 of RFC 1321).
   */
  lemma PaddedIs(msg: seq<Byte>)
    ensures var p, n := Padded(msg), |msg|;
            && |p| % 64 == 0 && n + 9 <= |p| < n + 9 + 64
            && p[..n] == msg && p[n] == 0x80
            && (forall i :: n < i < |p| - 8 ==> p[i] == 0)
            && WordOf(p[|p| - 8..|p| - 4]) + WORDS * WordOf(p[|p| - 4..]) == 8 * n % LONGS
  {
    hide LengthBytes, WordOf;
    PaddedEnds(msg);
    LengthBytesMean(|msg|);
    var p := Padded(msg);
    var bs := p[|p| - 8..];
    assert bs[..4] == p[|p| - 8..|p| - 4] && bs[4..] == p[|p| - 4..];
    assert p == msg + ([0x80] + Zeros(ZerosAfter(|msg|)) + LengthBytes(|msg|));
  }

  lemma LengthOfBytes(m: nat, n: nat)
    requires LengthBytes(m) == LengthBytes(n) && m < LONGS / 8 && n < LONGS / 8
    ensures m == n
  {
    hide WordBytes, LengthBytes;
    LengthParts(m);
    LengthParts(n);
    WordOfBytes(8 * m % WORDS, 8 * n % WORDS);
    WordOfBytes(8 * m % LONGS / WORDS, 8 * n % LONGS / WORDS);
  }

  lemma PaddedEnds(a: seq<Byte>)
    ensures |a| + 9 <= |Padded(a)|
    ensures Padded(a)[|Padded(a)| - 8..] == LengthBytes(|a|)
    ensures Padded(a)[..|a|] == a
  {
    hide LengthBytes, ZerosAfter;
  }

  /** Messages of less than 2^61 bytes that are padded alike are alike. */
  lemma PaddedDiffer(a: seq<Byte>, b: seq<Byte>)
    requires |a| < LONGS / 8 && |b| < LONGS / 8
    requires Padded(a) == Padded(b)
    ensures a == b
  {
    hide Padded, LengthBytes;
    PaddedEnds(a);
    PaddedEnds(b);
    LengthOfBytes(|a|, |b|);
  }

  // ----- the counter

  /** Adding a length in bits to a counter in two words, with the carry as the code takes it. */
  function AddLow(low: Word, len: nat): Word {
    (low + 8 * len % WORDS) % WORDS
  }

  function AddHigh(low: Word, high: Word, len: nat): Word {
    var carried := if AddLow(low, len) < low then (high + 1) % WORDS else high;
    (carried + len / 0x2000_0000) % WORDS
  }

  /** What the carry and the high word lose is a multiple of 2^64. */
  lemma SplitSum(low: Word, high: Word, len: nat)
    ensures exists k :: AddLow(low, len) + WORDS * AddHigh(low, high, len) == low + WORDS * high + 8 * len - LONGS * k
  {
    var lo, hi := 8 * len % WORDS, len / 0x2000_0000;
    assert 8 * len == lo + WORDS * hi;
    var c := if low + lo >= WORDS then 1 else 0;
    assert AddLow(low, len) == low + lo - WORDS * c;
    CarryOnce(high, c, hi);
    var k := (high + c + hi) / WORDS;
    assert AddLow(low, len) + WORDS * AddHigh(low, high, len) == low + WORDS * high + 8 * len - LONGS * k;
  }

  lemma CarryOnce(high: Word, c: nat, hi: nat)
    requires c <= 1
    ensures ((if c == 1 then (high + 1) % WORDS else high) + hi) % WORDS ==
            (high + c + hi) - WORDS * ((high + c + hi) / WORDS)
  {
  }

  lemma OnlyRemainder(x: int, r: int, k: int)
    requires x == r + LONGS * k && 0 <= r < LONGS
    ensures r == x % LONGS
  {
  }

  /** The two words count bits modulo 2^64. */
  lemma Counts(low: Word, high: Word, n: nat, len: nat)
    requires low + WORDS * high == 8 * n % LONGS
    ensures AddLow(low, len) + WORDS * AddHigh(low, high, len) == 8 * (n + len) % LONGS
  {
    hide AddLow, AddHigh;
    SplitSum(low, high, len);
    var r := AddLow(low, len) + WORDS * AddHigh(low, high, len);
    var k :| r == low + WORDS * high + 8 * len - LONGS * k;
    OnlyRemainder(8 * (n + len), r, k + 8 * n / LONGS);
  }

  lemma CountsInBlock(low: Word, high: Word, n: nat)
    requires low + WORDS * high == 8 * n % LONGS
    ensures low == 8 * n % WORDS && low / 8 % 64 == n % 64
    ensures high == 8 * n % LONGS / WORDS
  {
    var q := high + WORDS * (8 * n / LONGS);
    assert 8 * n == low + WORDS * q;
    LowPart(low, q, n);
    HighPart(low, high, 8 * n % LONGS);
  }

  lemma HighPart(low: Word, high: Word, x: nat)
    requires low + WORDS * high == x
    ensures high == x / WORDS
  {
  }

  lemma LowPart(low: Word, q: int, n: nat)
    requires 8 * n == low + WORDS * q
    ensures low == 8 * n % WORDS && low / 8 % 64 == n % 64
  {
    var k := n - 0x2000_0000 * q;
    assert low == 8 * k && low / 8 == k;
    assert 8 * n % WORDS == low by { SameRemainder(8 * n, low, q); }
    ModOf(k, 0x80_0000 * q);
    assert n == k + 64 * (0x80_0000 * q);
  }

  lemma SameRemainder(a: int, low: Word, q: int)
    requires a == low + WORDS * q
    ensures a % WORDS == low
  {
  }

  lemma ModOf(k: int, q: int)
    ensures (k + 64 * q) % 64 == k % 64
  {
  }

  // ----- whole blocks and the rest

  /** The whole blocks at the start of a message. */
  function Whole(msg: seq<Byte>): (w: seq<Byte>)
    ensures |w| % 64 == 0
  {
    msg[..|msg| / 64 * 64]
  }

  /** What follows the whole blocks. */
  function Rest(msg: seq<Byte>): (r: seq<Byte>)
    ensures |r| == |msg| % 64
  {
    msg[|msg| / 64 * 64..]
  }

  lemma StaysInBlock(msg: seq<Byte>, more: seq<Byte>)
    requires |Rest(msg)| + |more| < 64
    ensures Whole(msg + more) == Whole(msg) && Rest(msg + more) == Rest(msg) + more
  {
    assert |msg + more| / 64 == |msg| / 64;
  }

  lemma FillsBlock(msg: seq<Byte>, more: seq<Byte>)
    requires |Rest(msg)| + |more| == 64
    ensures |msg + more| % 64 == 0 && msg + more == Whole(msg) + (Rest(msg) + more)
  {
  }

  lemma NothingLeft(msg: seq<Byte>)
    requires |msg| % 64 == 0
    ensures Whole(msg) == msg && Rest(msg) == []
  {
  }

  lemma OneBlock(msg: seq<Byte>)
    requires |Rest(msg)| <= 55
    ensures msg + ([0x80] + Zeros(55 - |Rest(msg)|)) + LengthBytes(|msg|) == Padded(msg)
  {
    hide LengthBytes;
  }

  lemma TwoBlocks(msg: seq<Byte>)
    requires |Rest(msg)| > 55
    ensures msg + ([0x80] + Zeros(63 - |Rest(msg)|)) + Zeros(56) + LengthBytes(|msg|) == Padded(msg)
  {
    hide LengthBytes;
    assert Zeros(63 - |Rest(msg)|) + Zeros(56) == Zeros(119 - |Rest(msg)|);
  }

  // ----- the context

  class MD5Context {
    const transform: Transform
    var buf: State
    var bits0: Word
    var bits1: Word
    const block: array<Byte>

    constructor (transform: Transform)
      ensures this.transform == transform && fresh(block)
      ensures Absorbed([])
    {
      this.transform := transform;
      buf := INIT;
      bits0, bits1 := 0, 0;
      block := new Byte[64];
    }

    /** The state and the block are where the message `msg` leaves them, the counter aside. */
    ghost predicate Holds(msg: seq<Byte>)
      reads this`buf, block
    {
      && block.Length == 64
      && buf == Fold(transform, INIT, Whole(msg))
      && block[..|Rest(msg)|] == Rest(msg)
    }

    /** The context stands where the message `msg` leaves it, whatever pieces it came in. */
    ghost predicate Absorbed(msg: seq<Byte>)
      reads this, block
    {
      bits0 + WORDS * bits1 == 8 * |msg| % LONGS && Holds(msg)
    }

    /** Copies bytes into the block. */
    method Copy(at: nat, bytes: seq<Byte>)
      requires at + |bytes| <= block.Length
      modifies block
      ensures block[..at] == old(block[..at])
      ensures block[at..at + |bytes|] == bytes
      ensures block[at + |bytes|..] == old(block[at + |bytes|..])
    {
      for i := 0 to |bytes|
        invariant block[..at] == old(block[..at])
        invariant block[at..at + i] == bytes[..i]
        invariant block[at + i..] == old(block[at + i..])
      {
        block[at + i] := bytes[i];
      }
      assert bytes[..|bytes|] == bytes;
    }

    /** Bytes that do not fill the block are kept in it. */
    method Keep(t: nat, more: seq<Byte>, ghost msg: seq<Byte>)
      requires Holds(msg) && t == |Rest(msg)| && t + |more| < 64
      modifies block
      ensures Holds(msg + more)
    {
      hide Fold, Whole, Rest;
      StaysInBlock(msg, more);
      Copy(t, more);
      assert block[..|Rest(msg) + more|] == Rest(msg) + more;
    }

    /** The transform of a full block, which holds the rest of `msg` and `more`. */
    method TransformBlock(ghost msg: seq<Byte>, ghost more: seq<Byte>)
      requires block.Length == 64 && block[..] == Rest(msg) + more
      requires buf == Fold(transform, INIT, Whole(msg))
      modifies this`buf
      ensures Holds(msg + more) && |msg + more| % 64 == 0
    {
      hide Fold, Whole, Rest;
      buf := transform(buf, block[..]);
      FillsBlock(msg, more);
      FoldOne(transform, INIT, Whole(msg), Rest(msg) + more);
      NothingLeft(msg + more);
    }

    /** Bytes that fill the block are taken into the state with those before them. */
    method Take(t: nat, more: seq<Byte>, ghost msg: seq<Byte>)
      requires Holds(msg) && t == |Rest(msg)| && t + |more| == 64
      modifies this`buf, block
      ensures Holds(msg + more) && |msg + more| % 64 == 0
    {
      hide Fold, Whole, Rest;
      Copy(t, more);
      assert block[..] == Rest(msg) + more;
      TransformBlock(msg, more);
    }

    /** Takes whole blocks, then keeps what is left. */
    method TakeBlocks(data: seq<Byte>, ghost msg: seq<Byte>)
      requires Holds(msg) && |msg| % 64 == 0
      modifies this`buf, block
      ensures Holds(msg + data)
    {
      hide *;
      var left := data;
      ghost var done := msg;
      while |left| >= 64
        invariant done + left == msg + data
        invariant Holds(done) && |done| % 64 == 0
      {
        Take(0, left[..64], done);
        done := done + left[..64];
        left := left[64..];
      }
      Keep(0, left, done);
    }

    method Update(data: seq<Byte>, ghost msg: seq<Byte>)
      requires Absorbed(msg) && |data| < WORDS
      modifies this, block
      ensures Absorbed(msg + data)
    {
      hide Holds;
      Counts(bits0, bits1, |msg|, |data|);
      CountsInBlock(bits0, bits1, |msg|);
      var t := bits0;
      bits0 := (t + 8 * |data| % WORDS) % WORDS;
      if bits0 < t {
        bits1 := (bits1 + 1) % WORDS;
      }
      bits1 := (bits1 + |data| / 0x2000_0000) % WORDS;
      TakeAll(t / 8 % 64, data, msg);
    }

    /** The bytes first fill a block begun earlier, if there is one. */
    method TakeAll(t: nat, data: seq<Byte>, ghost msg: seq<Byte>)
      requires Holds(msg) && t == |msg| % 64
      modifies this`buf, block
      ensures Holds(msg + data)
    {
      hide *;
      if t > 0 {
        var room := 64 - t;
        if |data| < room {
          Keep(t, data, msg);
          return;
        }
        Take(t, data[..room], msg);
        assert msg + data[..room] + data[room..] == msg + data;
        TakeBlocks(data[room..], msg + data[..room]);
      } else {
        TakeBlocks(data, msg);
      }
    }

    /** Closes a block with the mark and zeros up to `end`. */
    method Mark(count: nat, end: nat, ghost msg: seq<Byte>)
      requires Holds(msg) && count == |Rest(msg)| < end <= 64
      modifies block
      ensures block[..end] == Rest(msg) + [0x80] + Zeros(end - count - 1)
    {
      hide Fold, Whole, Rest, Zeros;
      Copy(count, [0x80]);
      Copy(count + 1, Zeros(end - count - 1));
      assert block[..count] == Rest(msg) && block[count] == 0x80;
    }

    /** The mark and zeros, up to the place of the length in the last block. */
    method PadToLength(count: nat, ghost msg: seq<Byte>) returns (ghost done: seq<Byte>, ghost tail: seq<Byte>)
      requires Holds(msg) && count == |Rest(msg)|
      modifies this`buf, block
      ensures block.Length == 64 && buf == Fold(transform, INIT, Whole(done))
      ensures block[..56] == Rest(done) + tail
      ensures done + tail + LengthBytes(|msg|) == Padded(msg)
    {
      hide Fold, Whole, Rest, Padded, Zeros;
      if 63 - count < 8 {
        Mark(count, 64, msg);
        ghost var more := [0x80] + Zeros(63 - count);
        assert block[..] == block[..64] == Rest(msg) + more;
        TransformBlock(msg, more);
        done, tail := msg + more, Zeros(56);
        Copy(0, Zeros(56));
        assert block[..56] == block[0..56];
        NothingLeft(done);
        TwoBlocks(msg);
      } else {
        Mark(count, 56, msg);
        done, tail := msg, [0x80] + Zeros(55 - count);
        OneBlock(msg);
      }
    }

    /** The padding, in one block or in two. */
    method Pad(count: nat, ghost msg: seq<Byte>)
      requires Holds(msg) && count == |Rest(msg)|
      requires WordBytes(bits0) + WordBytes(bits1) == LengthBytes(|msg|)
      modifies this`buf, block
      ensures block.Length == 64 && buf == Fold(transform, INIT, Padded(msg))
    {
      hide Fold, Whole, Rest, Padded, LengthBytes, WordBytes;
      ghost var length := LengthBytes(|msg|);
      ghost var done, tail := PadToLength(count, msg);
      Copy(56, WordBytes(bits0) + WordBytes(bits1));
      assert block[..] == block[..56] + block[56..64];
      assert block[..] == Rest(done) + (tail + length);
      assert done + tail + length == done + (tail + length);
      TransformBlock(done, tail + length);
      NothingLeft(Padded(msg));
    }

    method Final(ghost msg: seq<Byte>) returns (digest: seq<Byte>)
      requires Absorbed(msg)
      modifies this, block
      ensures digest == Digest(transform, msg)
      ensures buf == State(0, 0, 0, 0) && bits0 == bits1 == 0 && block[..] == Zeros(64)
    {
      hide Fold, Padded, Holds, Zeros, WordBytes;
      CountsInBlock(bits0, bits1, |msg|);
      Pad(bits0 / 8 % 64, msg);
      digest := StateBytes(buf);
      Copy(0, Zeros(64));
      buf := State(0, 0, 0, 0);
      bits0, bits1 := 0, 0;
      assert block[..] == block[0..64];
    }
  }

  /** The MD5 digest of a message. */
  method Md5Data(transform: Transform, data: seq<Byte>) returns (result: seq<Byte>)
    requires |data| < WORDS
    ensures result == Digest(transform, data)
  {
    var ctx := new MD5Context(transform);
    ctx.Update(data, []);
    assert [] + data == data;
    result := ctx.Final(data);
  }
}

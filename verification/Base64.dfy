/** The Base64 encoder and decoder of MCBase64.c, bit for bit, with the buffers they allocate. */
module Base64 {
  import opened Basics

  type Byte = bv8

  /** A character of a text; those that a signed `char` shows as negative are 0x80 and above. */
  type Char = bv8

  const PAD: Char := 0x3D
  const PLUS: Char := 0x2B
  const SPACE: Char := 0x20

  // ----- the alphabet of section 4 of RFC 4648

  /** The table `basis_64`. */
  function Basis(v: bv8): (c: Char)
    requires v < 64
  {
    if v < 26 then 0x41 + v
    else if v < 52 then 0x61 + (v - 26)
    else if v < 62 then 0x30 + (v - 52)
    else if v == 62 then 0x2B
    else 0x2F
  }

  const ALPHABET: string := "ABCDEFGHIJKLMNOPQRSTUVWXYZ" + "abcdefghijklmnopqrstuvwxyz" + "0123456789" + "+/"

  lemma UpperCase(k: nat)
    requires k < 26
    ensures "ABCDEFGHIJKLMNOPQRSTUVWXYZ"[k] as int == 0x41 + k
  {
  }

  lemma LowerCase(k: nat)
    requires k < 26
    ensures "abcdefghijklmnopqrstuvwxyz"[k] as int == 0x61 + k
  {
  }

  lemma Numerals(k: nat)
    requires k < 10
    ensures "0123456789"[k] as int == 0x30 + k
  {
  }

  /** The table lists the alphabet in its order. */
  lemma BasisIsAlphabet(v: bv8)
    requires v < 64
    ensures |ALPHABET| == 64 && ALPHABET[v as nat] as int == Basis(v) as int
  {
    var k := v as nat;
    if v < 26 {
      UpperCase(k);
    } else if v < 52 {
      LowerCase(k - 26);
    } else if v < 62 {
      Numerals(k - 52);
    }
  }

  /** The table `index_64` behind its range check; 0xFF for what is not in the alphabet. */
  function Char64(c: Char): bv8 {
    if 0x41 <= c <= 0x5A then c - 0x41
    else if 0x61 <= c <= 0x7A then c - 0x61 + 26
    else if 0x30 <= c <= 0x39 then c - 0x30 + 52
    else if c == 0x2B then 62
    else if c == 0x2F then 63
    else 0xFF
  }

  predicate InAlphabet(c: Char) {
    Char64(c) != 0xFF
  }

  /** The two tables are inverse, and neither padding nor a blank is in the alphabet. */
  lemma TablesAgree(v: bv8, c: Char)
    ensures v < 64 ==> Char64(Basis(v)) == v
    ensures InAlphabet(c) ==> Char64(c) < 64 && Basis(Char64(c)) == c
    ensures !InAlphabet(PAD) && !InAlphabet(SPACE)
  {
  }

  // ----- groups

  /** The four six-bit indices of three bytes. */
  function First(a: Byte): (v: bv8)
    ensures v < 64
  {
    a >> 2
  }

  function Second(a: Byte, b: Byte): (v: bv8)
    ensures v < 64
  {
    ((a << 4) & 0x30) | (b >> 4)
  }

  function Third(b: Byte, c: Byte): (v: bv8)
    ensures v < 64
  {
    ((b << 2) & 0x3C) | (c >> 6)
  }

  function Fourth(c: Byte): (v: bv8)
    ensures v < 64
  {
    c & 0x3F
  }

  /** Three bytes as four characters, most significant bits first. */
  function EncodeThree(a: Byte, b: Byte, c: Byte): (t: seq<Char>)
    ensures |t| == 4
  {
    [Basis(First(a)), Basis(Second(a, b)), Basis(Third(b, c)), Basis(Fourth(c))]
  }

  /** The 24 bits of three bytes are those of the four indices. */
  lemma SixBitsEach(a: Byte, b: Byte, c: Byte)
    ensures ((a as bv32) << 16) | ((b as bv32) << 8) | (c as bv32) ==
            ((First(a) as bv32) << 18) | ((Second(a, b) as bv32) << 12)
            | ((Third(b, c) as bv32) << 6) | (Fourth(c) as bv32)
  {
  }

  /** One or two bytes as two or three characters, and padding. */
  function EncodeRest(bytes: seq<Byte>): (t: seq<Char>)
    requires |bytes| < 3
    ensures |t| == if |bytes| == 0 then 0 else 4
  {
    if |bytes| == 0 then []
    else if |bytes| == 1 then [Basis(First(bytes[0])), Basis(Second(bytes[0], 0)), PAD, PAD]
    else [Basis(First(bytes[0])), Basis(Second(bytes[0], bytes[1])), Basis(Third(bytes[1], 0)), PAD]
  }

  function Encode(bytes: seq<Byte>): (t: seq<Char>)
    ensures |t| == (|bytes| + 2) / 3 * 4
  {
    if |bytes| < 3 then EncodeRest(bytes) else EncodeThree(bytes[0], bytes[1], bytes[2]) + Encode(bytes[3..])
  }

  predicate ValidGroup(c1: Char, c2: Char, c3: Char, c4: Char) {
    InAlphabet(c1) && InAlphabet(c2) && (c3 == PAD || InAlphabet(c3)) && (c4 == PAD || InAlphabet(c4))
  }

  /** The three bytes of four indices. */
  function Byte1(v1: bv8, v2: bv8): Byte {
    (v1 << 2) | (v2 >> 4)
  }

  function Byte2(v2: bv8, v3: bv8): Byte {
    ((v2 << 4) & 0xF0) | (v3 >> 2)
  }

  function Byte3(v3: bv8, v4: bv8): Byte {
    ((v3 << 6) & 0xC0) | v4
  }

  /** The bytes of four characters: one if the third is padding, two if only the fourth is, three otherwise. */
  function DecodeFour(c1: Char, c2: Char, c3: Char, c4: Char): (bs: seq<Byte>)
    ensures 1 <= |bs| <= 3
  {
    [Byte1(Char64(c1), Char64(c2))] +
    (if c3 == PAD then []
     else [Byte2(Char64(c2), Char64(c3))] + (if c4 == PAD then [] else [Byte3(Char64(c3), Char64(c4))]))
  }

  /** The first `n` groups of a text, or nothing if one of them is not valid. */
  function DecodeGroups(t: seq<Char>, n: nat): (r: Option<seq<Byte>>)
    requires 4 * n <= |t|
    ensures r.Some? ==> |r.value| <= 3 * n
  {
    if n == 0 then Some([])
    else if !ValidGroup(t[0], t[1], t[2], t[3]) then None
    else
      match DecodeGroups(t[4..], n - 1)
      case None => None
      case Some(rest) => Some(DecodeFour(t[0], t[1], t[2], t[3]) + rest)
  }

  /** Whole groups; what is left over at the end is not looked at. */
  function Decode(t: seq<Char>): Option<seq<Byte>> {
    DecodeGroups(t, |t| / 4)
  }

  // ----- decoding undoes encoding

  /** Padding only in the last group, and no bits set beyond the last byte. */
  predicate Canonical(t: seq<Char>) {
    if |t| == 0 then true
    else if |t| < 4 then false
    else if |t| == 4 && t[3] == PAD then
      InAlphabet(t[0]) && InAlphabet(t[1])
      && (if t[2] == PAD then Char64(t[1]) & 0x0F == 0 else InAlphabet(t[2]) && Char64(t[2]) & 0x03 == 0)
    else
      InAlphabet(t[0]) && InAlphabet(t[1]) && InAlphabet(t[2]) && InAlphabet(t[3]) && Canonical(t[4..])
  }

  lemma BitsOfBytes(a: Byte, b: Byte, c: Byte)
    ensures Byte1(First(a), Second(a, b)) == a
    ensures Byte2(Second(a, b), Third(b, c)) == b
    ensures Byte3(Third(b, c), Fourth(c)) == c
    ensures Second(a, 0) & 0x0F == 0 && Third(b, 0) & 0x03 == 0
  {
  }

  lemma BitsOfIndices(v1: bv8, v2: bv8, v3: bv8, v4: bv8)
    requires v1 < 64 && v2 < 64 && v3 < 64 && v4 < 64
    ensures First(Byte1(v1, v2)) == v1
    ensures Second(Byte1(v1, v2), Byte2(v2, v3)) == v2
    ensures Third(Byte2(v2, v3), Byte3(v3, v4)) == v3
    ensures Fourth(Byte3(v3, v4)) == v4
    ensures v2 & 0x0F == 0 ==> Second(Byte1(v1, v2), 0) == v2
    ensures v3 & 0x03 == 0 ==> Third(Byte2(v2, v3), 0) == v3
  {
  }

  /** The character of an index, read back. */
  lemma BasisReads(v: bv8)
    requires v < 64
    ensures Char64(Basis(v)) == v && InAlphabet(Basis(v)) && Basis(v) != PAD
  {
  }

  /** Three bytes become four characters of the alphabet; one or two become two or three, and `=` up to four. */
  lemma EncodeMeans(bytes: seq<Byte>)
    ensures var t, n := Encode(bytes), |bytes|;
            && (n >= 3 ==>
                  && t[4..] == Encode(bytes[3..])
                  && t[..4] == [Basis(First(bytes[0])), Basis(Second(bytes[0], bytes[1])),
                                Basis(Third(bytes[1], bytes[2])), Basis(Fourth(bytes[2]))])
            && (n == 2 ==>
                  t == [Basis(First(bytes[0])), Basis(Second(bytes[0], bytes[1])), Basis(Third(bytes[1], 0)), 0x3D])
            && (n == 1 ==> t == [Basis(First(bytes[0])), Basis(Second(bytes[0], 0)), 0x3D, 0x3D])
            && (n == 0 ==> t == [])
  {
    hide Basis, First, Second, Third, Fourth;
    if |bytes| >= 3 {
      var three := EncodeThree(bytes[0], bytes[1], bytes[2]);
      assert Encode(bytes) == three + Encode(bytes[3..]);
      assert Encode(bytes)[..4] == three && Encode(bytes)[4..] == Encode(bytes[3..]);
    }
  }

  lemma ThreeAgree(a: Byte, b: Byte, c: Byte)
    ensures var t := EncodeThree(a, b, c);
            && ValidGroup(t[0], t[1], t[2], t[3]) && DecodeFour(t[0], t[1], t[2], t[3]) == [a, b, c]
            && (forall k :: 0 <= k < 4 ==> InAlphabet(t[k])) && t[3] != PAD
  {
    hide Basis, Char64, InAlphabet, First, Second, Third, Fourth, Byte1, Byte2, Byte3;
    BasisReads(First(a));
    BasisReads(Second(a, b));
    BasisReads(Third(b, c));
    BasisReads(Fourth(c));
    BitsOfBytes(a, b, c);
  }

  lemma RestAgrees(bytes: seq<Byte>)
    requires 0 < |bytes| < 3
    ensures var t := EncodeRest(bytes);
            ValidGroup(t[0], t[1], t[2], t[3]) && DecodeFour(t[0], t[1], t[2], t[3]) == bytes && Canonical(t)
  {
    hide Basis, Char64, InAlphabet, First, Second, Third, Fourth, Byte1, Byte2, Byte3;
    BasisReads(First(bytes[0]));
    if |bytes| == 1 {
      BasisReads(Second(bytes[0], 0));
      BitsOfBytes(bytes[0], 0, 0);
    } else {
      BasisReads(Second(bytes[0], bytes[1]));
      BasisReads(Third(bytes[1], 0));
      BitsOfBytes(bytes[0], bytes[1], 0);
    }
  }

  /** Decoding an encoded byte string gives it back; encoded texts are canonical. */
  lemma {:induction false} DecodesEncoded(bytes: seq<Byte>)
    ensures Decode(Encode(bytes)) == Some(bytes) && Canonical(Encode(bytes))
  {
    hide Basis, Char64, ValidGroup, DecodeFour, EncodeThree, EncodeRest, InAlphabet;
    var t := Encode(bytes);
    if |bytes| == 0 {
    } else if |bytes| < 3 {
      RestAgrees(bytes);
      assert Decode(t) == DecodeGroups(t, 1) && DecodeGroups(t[4..], 0) == Some([]);
      assert bytes + [] == bytes;
    } else {
      ThreeAgree(bytes[0], bytes[1], bytes[2]);
      DecodesEncoded(bytes[3..]);
      assert t[..4] == EncodeThree(bytes[0], bytes[1], bytes[2]) && t[4..] == Encode(bytes[3..]);
      assert [bytes[0], bytes[1], bytes[2]] + bytes[3..] == bytes;
    }
  }

  // ----- and encoding undoes decoding

  lemma IndexReads(c: Char)
    requires InAlphabet(c)
    ensures Char64(c) < 64 && Basis(Char64(c)) == c && c != PAD
  {
  }

  lemma FourAgree(t: seq<Char>)
    requires |t| == 4 && forall k :: 0 <= k < 4 ==> InAlphabet(t[k])
    ensures ValidGroup(t[0], t[1], t[2], t[3]) && |DecodeFour(t[0], t[1], t[2], t[3])| == 3
    ensures var bs := DecodeFour(t[0], t[1], t[2], t[3]); EncodeThree(bs[0], bs[1], bs[2]) == t
  {
    hide Basis, Char64, InAlphabet, First, Second, Third, Fourth, Byte1, Byte2, Byte3;
    IndexReads(t[0]);
    IndexReads(t[1]);
    IndexReads(t[2]);
    IndexReads(t[3]);
    BitsOfIndices(Char64(t[0]), Char64(t[1]), Char64(t[2]), Char64(t[3]));
  }

  lemma LastAgrees(t: seq<Char>)
    requires |t| == 4 && t[3] == PAD && Canonical(t)
    ensures ValidGroup(t[0], t[1], t[2], t[3]) && |DecodeFour(t[0], t[1], t[2], t[3])| < 3
    ensures EncodeRest(DecodeFour(t[0], t[1], t[2], t[3])) == t
  {
    hide Basis, Char64, InAlphabet, First, Second, Third, Fourth, Byte1, Byte2, Byte3;
    IndexReads(t[0]);
    IndexReads(t[1]);
    if t[2] == PAD {
      BitsOfIndices(Char64(t[0]), Char64(t[1]), 0, 0);
    } else {
      IndexReads(t[2]);
      BitsOfIndices(Char64(t[0]), Char64(t[1]), Char64(t[2]), 0);
    }
  }

  /** Encoding what a canonical text decodes to gives that text. */
  lemma {:induction false} EncodesDecoded(t: seq<Char>)
    requires Canonical(t)
    ensures |t| % 4 == 0 && Decode(t).Some? && Encode(Decode(t).value) == t
  {
    hide Basis, Char64, ValidGroup, DecodeFour, EncodeThree, EncodeRest, InAlphabet, Decode, Encode;
    if |t| == 0 {
      NothingDecodes(t);
    } else if |t| == 4 && t[3] == PAD {
      LastAgrees(t);
      OneGroup(t);
    } else {
      FourAgree(t[..4]);
      EncodesDecoded(t[4..]);
      assert t == t[..4] + t[4..];
      OneGroupMore(t);
    }
  }

  lemma NothingDecodes(t: seq<Char>)
    requires |t| == 0
    ensures Decode(t) == Some([]) && Encode([]) == t
  {
  }

  lemma OneGroup(t: seq<Char>)
    requires |t| == 4 && ValidGroup(t[0], t[1], t[2], t[3])
    ensures var bs := DecodeFour(t[0], t[1], t[2], t[3]);
            Decode(t) == Some(bs) && (|bs| < 3 ==> Encode(bs) == EncodeRest(bs))
  {
    hide ValidGroup, DecodeFour, EncodeThree, EncodeRest;
    assert DecodeGroups(t[4..], 0) == Some([]);
    var bs := DecodeFour(t[0], t[1], t[2], t[3]);
    assert bs + [] == bs;
  }

  lemma OneGroupMore(t: seq<Char>)
    requires |t| >= 4 && ValidGroup(t[0], t[1], t[2], t[3]) && Decode(t[4..]).Some?
    ensures Decode(t).Some?
    ensures var bs := DecodeFour(t[0], t[1], t[2], t[3]);
            |bs| == 3 ==> Encode(Decode(t).value) == EncodeThree(bs[0], bs[1], bs[2]) + Encode(Decode(t[4..]).value)
  {
    hide ValidGroup, DecodeFour, EncodeThree, EncodeRest;
    var bs, rest := DecodeFour(t[0], t[1], t[2], t[3]), Decode(t[4..]).value;
    assert (bs + rest)[|bs|..] == rest;
  }

  /** The canonical texts are exactly the encodings. */
  lemma CanonicalIff(t: seq<Char>)
    ensures Canonical(t) <==> exists bytes :: Encode(bytes) == t
  {
    if Canonical(t) {
      EncodesDecoded(t);
    } else {
      forall bytes
        ensures Encode(bytes) != t
      {
        DecodesEncoded(bytes);
      }
    }
  }

  // ----- the encoder and the decoder

  lemma EncodeFirst(bytes: seq<Byte>)
    ensures |bytes| >= 3 ==> Encode(bytes) == EncodeThree(bytes[0], bytes[1], bytes[2]) + Encode(bytes[3..])
    ensures |bytes| < 3 ==> Encode(bytes) == EncodeRest(bytes)
  {
  }

  lemma {:induction false} EncodeSteps(bytes: seq<Byte>, k: nat)
    requires 3 * k + 3 <= |bytes|
    ensures Encode(bytes[..3 * k + 3]) ==
            Encode(bytes[..3 * k]) + EncodeThree(bytes[3 * k], bytes[3 * k + 1], bytes[3 * k + 2])
    decreases k
  {
    hide EncodeThree, EncodeRest, Encode;
    var n := 3 * k;
    EncodeFirst(bytes[..n]);
    EncodeFirst(bytes[..n + 3]);
    if k == 0 {
      assert bytes[..3][3..] == [] == bytes[..0];
      RestOfNothing();
    } else {
      EncodeSteps(bytes[3..], k - 1);
      assert bytes[3..][..n] == bytes[..n + 3][3..] && bytes[3..][..n - 3] == bytes[..n][3..];
    }
  }

  lemma {:induction false} EncodeEnds(bytes: seq<Byte>, k: nat)
    requires 3 * k <= |bytes| < 3 * k + 3
    ensures Encode(bytes) == Encode(bytes[..3 * k]) + EncodeRest(bytes[3 * k..])
    decreases k
  {
    hide EncodeThree, EncodeRest, Encode;
    var n := 3 * k;
    EncodeFirst(bytes);
    EncodeFirst(bytes[..n]);
    if k == 0 {
      assert bytes[..0] == [] && bytes[0..] == bytes;
      RestOfNothing();
    } else {
      EncodeEnds(bytes[3..], k - 1);
      assert bytes[3..][..n - 3] == bytes[..n][3..] && bytes[3..][n - 3..] == bytes[n..];
    }
  }

  lemma RestOfNothing()
    ensures EncodeRest([]) == [] == Encode([])
  {
  }

  /** Writes characters one after another. */
  method Write(output: array<Char>, at: nat, t: seq<Char>)
    requires at + |t| <= output.Length
    modifies output
    ensures output[..at + |t|] == old(output[..at]) + t
  {
    for i := 0 to |t|
      invariant output[..at + i] == old(output[..at]) + t[..i]
    {
      output[at + i] := t[i];
    }
    assert t[..|t|] == t;
  }

  /** Encodes bytes into a buffer that is just large enough for the text and a zero. */
  method MCEncodeBase64(bytes: seq<Byte>) returns (output: array<Char>)
    ensures output[..] == Encode(bytes) + [0]
  {
    hide *;
    var outLen := (|bytes| + 2) / 3 * 4 + 1;
    output := new Char[outLen];
    var len, uin, tmp := |bytes|, 0, 0;
    EncodeNothing(bytes);
    while len >= 3
      invariant 0 <= len && 0 <= uin && uin + len == |bytes| && uin % 3 == 0 && tmp == uin / 3 * 4
      invariant output[..tmp] == Encode(bytes[..uin])
    {
      EncodeSteps(bytes, uin / 3);
      Write(output, tmp, EncodeThree(bytes[uin], bytes[uin + 1], bytes[uin + 2]));
      tmp, uin, len := tmp + 4, uin + 3, len - 3;
    }
    EncodeEnds(bytes, uin / 3);
    var rest := EncodeRest(bytes[uin..]);
    Write(output, tmp, rest);
    tmp := tmp + |rest|;
    output[tmp] := 0;
  }

  lemma EncodeNothing(bytes: seq<Byte>)
    ensures Encode(bytes[..0]) == []
  {
  }

  /** A text whose beginning is skipped. */
  predicate HasPrefix(text: seq<Char>) {
    |text| >= 2 && text[0] == PLUS && text[1] == SPACE
  }

  /**
    The memory from a text of `len` characters on, as far as the decoder reads: two characters further
    behind the prefix.
   */
  predicate Readable(text: seq<Char>, len: nat) {
    len <= |text| && (HasPrefix(text) ==> 2 + len / 4 * 4 <= |text|)
  }

  /** What is decoded of a text of `len` characters and what lies behind it in memory. */
  function Decoded(text: seq<Char>, len: nat): (r: Option<seq<Byte>>)
    requires Readable(text, len)
    ensures r.Some? ==> |r.value| <= len / 4 * 3
  {
    DecodeGroups(if HasPrefix(text) then text[2..] else text, len / 4)
  }

  lemma {:induction false} GroupsReadNoMore(t: seq<Char>, n: nat, m: nat)
    requires 4 * n <= m <= |t|
    ensures DecodeGroups(t[..m], n) == DecodeGroups(t, n)
  {
    hide ValidGroup, DecodeFour;
    if n == 0 {
    } else {
      GroupsReadNoMore(t[4..], n - 1, m - 4);
      assert t[4..][..m - 4] == t[..m][4..];
    }
  }

  /** The whole groups of the text are decoded; behind the prefix, as many groups as if it were not there. */
  lemma DecodedIs(text: seq<Char>, len: nat)
    requires Readable(text, len)
    ensures !HasPrefix(text) ==> Decoded(text, len) == Decode(text[..len])
    ensures HasPrefix(text) ==> Decoded(text, len) == Decode(text[2..2 + len / 4 * 4])
    ensures HasPrefix(text) && len % 4 >= 2 ==> Decoded(text, len) == Decode(text[2..len])
    ensures HasPrefix(text) && len >= 2 && Canonical(text[2..len]) ==> Decoded(text, len) == Decode(text[2..len])
  {
    hide DecodeGroups, Canonical;
    if !HasPrefix(text) {
      GroupsReadNoMore(text, len / 4, len);
    } else {
      BehindPrefix(text, len, 2 + len / 4 * 4);
      if len >= 2 && Canonical(text[2..len]) {
        EncodesDecoded(text[2..len]);
      }
      if len >= 2 && (len - 2) / 4 == len / 4 {
        BehindPrefix(text, len, len);
      }
    }
  }

  lemma BehindPrefix(text: seq<Char>, len: nat, end: nat)
    requires Readable(text, len) && HasPrefix(text) && 2 <= end <= |text| && (end - 2) / 4 == len / 4
    ensures Decoded(text, len) == Decode(text[2..end])
  {
    hide DecodeGroups;
    assert text[2..][..end - 2] == text[2..end];
    GroupsReadNoMore(text[2..], len / 4, end - 2);
  }

  /** The groups behind the prefix lie inside the text, or there are none. */
  predicate StaysInside(len: nat) {
    len < 4 || len % 4 >= 2
  }

  /** A text of valid groups behind the prefix, but for its last character. */
  function Prefixed(n: nat, last: Char): (text: seq<Char>)
    requires n > 0
    ensures |text| == 2 + 4 * n && HasPrefix(text)
  {
    [PLUS, SPACE] + seq(4 * n - 1, _ => 0x41) + [last]
  }

  lemma {:induction false} ValidGroupsDecode(t: seq<Char>, n: nat)
    requires 4 * n <= |t| && forall k :: 0 <= k < 4 * n ==> InAlphabet(t[k])
    ensures DecodeGroups(t, n).Some?
  {
    hide InAlphabet, DecodeFour;
    if n == 0 {
    } else {
      ValidGroupsDecode(t[4..], n - 1);
    }
  }

  /** The character just behind the text decides. */
  lemma LastDecides(n: nat)
    requires n > 0
    ensures Decoded(Prefixed(n, 0x41), 4 * n).Some? && Decoded(Prefixed(n, 0), 4 * n).None?
  {
    hide Basis, DecodeFour, DecodeGroups, Prefixed;
    assert InAlphabet(0x41) && !ValidGroup(0x41, 0x41, 0x41, 0);
    PrefixedAt(n, 0x41);
    PrefixedAt(n, 0);
    ValidGroupsDecode(Prefixed(n, 0x41)[2..], n);
    GroupsStep(Prefixed(n, 0)[2..], n - 1);
  }

  lemma PrefixedAt(n: nat, last: Char)
    requires n > 0
    ensures var t := Prefixed(n, last)[2..];
            && |t| == 4 * n && t[4 * n - 1] == last && (forall k :: 0 <= k < 4 * n - 1 ==> t[k] == 0x41)
  {
  }

  /** Exactly for such lengths what is decoded depends on the text alone, and not on what lies behind it. */
  lemma DependsOnTextIff(len: nat)
    ensures StaysInside(len) <==>
            forall s, t ::
              Readable(s, len) && Readable(t, len) && s[..len] == t[..len] ==> Decoded(s, len) == Decoded(t, len)
  {
    hide Canonical, Decode, DecodeGroups;
    if StaysInside(len) {
      forall s, t | Readable(s, len) && Readable(t, len) && s[..len] == t[..len]
        ensures Decoded(s, len) == Decoded(t, len)
      {
        SameText(s, t, len);
      }
    } else {
      var n := len / 4;
      var s, t := Prefixed(n, 0x41), Prefixed(n, 0);
      LastDecides(n);
      assert Decoded(s, len) == Decoded(s, 4 * n) && Decoded(t, len) == Decoded(t, 4 * n);
      assert s[..len] == t[..len];
    }
  }

  lemma SameText(s: seq<Char>, t: seq<Char>, len: nat)
    requires StaysInside(len) && Readable(s, len) && Readable(t, len) && s[..len] == t[..len]
    ensures Decoded(s, len) == Decoded(t, len)
  {
    hide Canonical, Decode;
    if len < 4 {
      assert len / 4 == 0;
    } else {
      DecodedIs(s, len);
      DecodedIs(t, len);
      assert s[0] == s[..len][0] && s[1] == s[..len][1] && t[0] == t[..len][0] && t[1] == t[..len][1];
      assert s[2..len] == s[..len][2..] && t[2..len] == t[..len][2..];
    }
  }

  /** Four characters whose decoding depends on the two behind them: `+ AA` followed by `AA`, or by a zero and `A`. */
  lemma ReadsBehindText()
    ensures Decoded([PLUS, SPACE, 0x41, 0x41, 0x41, 0x41], 4) == Some([0, 0, 0])
    ensures Decoded([PLUS, SPACE, 0x41, 0x41, 0, 0x41], 4) == None
  {
    var s: seq<Char>, t: seq<Char> := [PLUS, SPACE, 0x41, 0x41, 0x41, 0x41], [PLUS, SPACE, 0x41, 0x41, 0, 0x41];
    assert s[2..] == [0x41, 0x41, 0x41, 0x41] && t[2..] == [0x41, 0x41, 0, 0x41];
    NoGroups(s[2..]);
    NoGroups(t[2..]);
    GroupsStep(s[2..], 0);
    GroupsStep(t[2..], 0);
    var none: seq<Byte> := [];
    assert Char64(0x41) == 0 && DecodeFour(0x41, 0x41, 0x41, 0x41) == [0, 0, 0];
    assert none + [0, 0, 0] == [0, 0, 0];
    assert s[2..][0..4] == [0x41, 0x41, 0x41, 0x41];
    assert DecodeGroups(s[2..], 1) == Some([0, 0, 0]);
    assert Decoded(s, 4) == DecodeGroups(s[2..], 1);
  }

  lemma {:induction false} GroupsStep(t: seq<Char>, n: nat)
    requires 4 * (n + 1) <= |t|
    ensures var c := t[4 * n..4 * n + 4];
            DecodeGroups(t, n + 1) ==
            if DecodeGroups(t, n).None? || !ValidGroup(c[0], c[1], c[2], c[3]) then None
            else Some(DecodeGroups(t, n).value + DecodeFour(c[0], c[1], c[2], c[3]))
  {
    hide ValidGroup, DecodeFour;
    if n == 0 {
      assert DecodeGroups(t[4..], 0) == Some([]);
      assert DecodeFour(t[0], t[1], t[2], t[3]) + [] == [] + DecodeFour(t[0], t[1], t[2], t[3]);
    } else {
      GroupsStep(t[4..], n - 1);
      var c := t[4 * n..4 * n + 4];
      assert t[4..][4 * (n - 1)..4 * (n - 1) + 4] == c;
      if DecodeGroups(t, n).Some? {
        var first, rest := DecodeFour(t[0], t[1], t[2], t[3]), DecodeGroups(t[4..], n - 1).value;
        var last := DecodeFour(c[0], c[1], c[2], c[3]);
        assert first + (rest + last) == first + rest + last;
      }
    }
  }

  lemma {:induction false} FailureStays(t: seq<Char>, n: nat, m: nat)
    requires n <= m && 4 * m <= |t| && DecodeGroups(t, n).None?
    ensures DecodeGroups(t, m).None?
    decreases m
  {
    if n >= m {
    } else {
      FailureStays(t, n, m - 1);
      GroupsStep(t, m - 1);
    }
  }

  /**
    Decodes a text into a buffer; `output` is the start of what was decoded and `outlen` its length, or
    nothing is returned.
   */
  method MCDecodeBase64(text: seq<Char>, len: nat) returns (output: array?<Byte>, outlen: nat)
    requires Readable(text, len)
    ensures output == null <==> Decoded(text, len).None?
    ensures output != null ==>
      output.Length == (len + 3) * 4 / 3 + 1 && outlen < output.Length
      && Decoded(text, len) == Some(output[..outlen]) && output[outlen] == 0
  {
    hide DecodeGroups, ValidGroup, DecodeFour;
    var maxOutLen := (len + 3) * 4 / 3 + 1;
    output := new Byte[maxOutLen];
    outlen := 0;
    var t := if HasPrefix(text) then text[2..] else text;
    assert DecodeGroups(t, 0) == Some([]) by { NoGroups(t); }
    for i := 0 to len / 4
      invariant output != null && fresh(output) && output.Length == maxOutLen
      invariant outlen <= 3 * i && DecodeGroups(t, i) == Some(output[..outlen])
    {
      var c1, c2, c3, c4 := t[4 * i], t[4 * i + 1], t[4 * i + 2], t[4 * i + 3];
      GroupsStep(t, i);
      if !ValidGroup(c1, c2, c3, c4) {
        FailureStays(t, i + 1, len / 4);
        return null, outlen;
      }
      var bytes := DecodeFour(c1, c2, c3, c4);
      Write(output, outlen, bytes);
      outlen := outlen + |bytes|;
    }
    output[outlen] := 0;
  }

  /** Groups decode exactly when every character is in the alphabet, or is padding in the third or the fourth place. */
  lemma {:induction false} DecodesIff(t: seq<Char>, n: nat)
    requires 4 * n <= |t|
    ensures DecodeGroups(t, n).Some? <==>
            forall k :: 0 <= k < 4 * n ==> InAlphabet(t[k]) || (k % 4 >= 2 && t[k] == PAD)
  {
    hide InAlphabet, DecodeFour;
    if n == 0 {
    } else {
      DecodesIff(t[4..], n - 1);
      forall k | 0 <= k < 4 * n
        ensures k >= 4 ==> t[k] == t[4..][k - 4] && k % 4 == (k - 4) % 4
      {
      }
      if forall k :: 0 <= k < 4 * n ==> InAlphabet(t[k]) || (k % 4 >= 2 && t[k] == PAD) {
        forall k | 0 <= k < 4 * (n - 1)
          ensures InAlphabet(t[4..][k]) || (k % 4 >= 2 && t[4..][k] == PAD)
        {
          assert t[4..][k] == t[k + 4] && (k + 4) % 4 == k % 4;
        }
        assert ValidGroup(t[0], t[1], t[2], t[3]);
      }
    }
  }

  lemma NoGroups(t: seq<Char>)
    ensures DecodeGroups(t, 0) == Some([])
  {
  }
}

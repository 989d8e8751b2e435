/** The UTF-8 byte tables of utils/src/unicode_text.cpp and the code-point level
    meaning every byte-scanning loop of the repository is compared with. */
module Utf8 {

  type Byte = b: int | 0 <= b < 256
  type Bytes = seq<Byte>

  /** A Unicode scalar value. */
  type Scalar = c: int | 0 <= c < 0xD800 || 0xE000 <= c < 0x110000

  // ----- the tables -----

  /** `utf8_prefix_sizes[b].utf8` */
  function PrefixSize8(b: Byte): (n: nat)
  {
    if b <= 0x7F then 1
    else if 0xC0 <= b <= 0xDF then 2
    else if 0xE0 <= b <= 0xEF then 3
    else if 0xF0 <= b <= 0xF7 then 4
    else 0
  }

  /** `utf8_prefix_sizes[b].utf16` */
  function PrefixSize16(b: Byte): (n: nat)
  {
    if b <= 0x7F || 0xC0 <= b <= 0xEF then 1
    else if 0xF0 <= b <= 0xF7 then 2
    else 0
  }

  datatype PrefixRange = PrefixRange(fl: Byte, fh: Byte, sl: Byte, sh: Byte)

  const PREFIX_RANGES: seq<PrefixRange> := [
    PrefixRange(0xC2, 0xDF, 0x80, 0xBF),
    PrefixRange(0xE0, 0xE0, 0xA0, 0xBF),
    PrefixRange(0xE1, 0xEC, 0x80, 0xBF),
    PrefixRange(0xED, 0xED, 0x80, 0x9F),
    PrefixRange(0xEE, 0xEF, 0x80, 0xBF),
    PrefixRange(0xF0, 0xF0, 0x90, 0xBF),
    PrefixRange(0xF1, 0xF3, 0x80, 0xBF),
    PrefixRange(0xF4, 0xF4, 0x80, 0x8F)
  ]

  /** The bit the table keeps for a first and a second byte. */
  function BitId(first: Byte, second: Byte): (bit: int)
    requires first >= 0xC0
    ensures 0 <= bit < 1024
  {
    (first - 0xC0) * 16 + second / 16
  }

  /** What one call of `update_range` sets. */
  predicate RangeSets(r: PrefixRange, bit: int)
  {
    r.fl - 0xC0 <= bit / 16 <= r.fh - 0xC0 && r.sl / 16 <= bit % 16 <= r.sh / 16
  }

  predicate TableBit(bit: int)
  {
    TableBitFrom(0, bit)
  }

  /** Do the `update_range` calls from the i-th on set the bit? */
  predicate TableBitFrom(i: nat, bit: int)
    requires i <= |PREFIX_RANGES|
    decreases |PREFIX_RANGES| - i
  {
    i < |PREFIX_RANGES| && (RangeSets(PREFIX_RANGES[i], bit) || TableBitFrom(i + 1, bit))
  }

  /** `utf8_valid_multibyte_prefix`: the table lookup. */
  predicate ValidMultibytePrefix(first: Byte, second: Byte)
  {
    first >= 0xC0 && TableBit(BitId(first, second))
  }

  /** One `update_range` call: every pair of the rectangle switches its bit on. */
  method UpdateRange(table: array<bool>, r: PrefixRange)
    requires table.Length == 1024
    requires 0xC0 <= r.fl <= r.fh && r.sl <= r.sh
    modifies table
    ensures forall bit | 0 <= bit < 1024 :: table[bit] == (old(table[bit]) || RangeSets(r, bit))
  {
    var f := r.fl as int;
    while f <= r.fh
      invariant r.fl <= f <= r.fh + 1
      invariant forall bit | 0 <= bit < 1024 ::
          table[bit] == (old(table[bit]) || (RangeSets(r, bit) && bit / 16 < f - 0xC0))
    {
      var s := r.sl as int;
      while s <= r.sh
        invariant r.sl <= s <= r.sh + 1
        invariant forall bit | 0 <= bit < 1024 ::
            table[bit] == (old(table[bit]) || (RangeSets(r, bit) && bit / 16 < f - 0xC0)
                           || (bit / 16 == f - 0xC0 && s > r.sl && r.sl / 16 <= bit % 16 <= (s - 1) / 16))
      {
        var bit := BitId(f, s);
        assert bit / 16 == f - 0xC0 && bit % 16 == s / 16;
        table[bit] := true;
        s := s + 1;
      }
      f := f + 1;
    }
  }

  /** The table built at start-up holds exactly the bits `TableBit` describes. */
  method BuildPrefixTable() returns (table: array<bool>)
    ensures table.Length == 1024
    ensures forall bit | 0 <= bit < 1024 :: table[bit] == TableBit(bit)
  {
    table := new bool[1024](_ => false);
    var i := 0;
    while i < |PREFIX_RANGES|
      invariant 0 <= i <= |PREFIX_RANGES|
      invariant forall bit | 0 <= bit < 1024 :: (table[bit] || TableBitFrom(i, bit)) == TableBit(bit)
    {
      assert 0xC0 <= PREFIX_RANGES[i].fl <= PREFIX_RANGES[i].fh && PREFIX_RANGES[i].sl <= PREFIX_RANGES[i].sh;
      UpdateRange(table, PREFIX_RANGES[i]);
      i := i + 1;
    }
  }

  /** The lookup accepts exactly the first two bytes that section 4 of RFC 3629 allows. */
  lemma ValidPrefixMeansRfc3629(first: Byte, second: Byte)
    ensures ValidMultibytePrefix(first, second) <==>
            || (0xC2 <= first <= 0xDF && 0x80 <= second <= 0xBF)
            || (first == 0xE0 && 0xA0 <= second <= 0xBF)
            || (0xE1 <= first <= 0xEC && 0x80 <= second <= 0xBF)
            || (first == 0xED && 0x80 <= second <= 0x9F)
            || (0xEE <= first <= 0xEF && 0x80 <= second <= 0xBF)
            || (first == 0xF0 && 0x90 <= second <= 0xBF)
            || (0xF1 <= first <= 0xF3 && 0x80 <= second <= 0xBF)
            || (first == 0xF4 && 0x80 <= second <= 0x8F)
  {
    if first >= 0xC0 {
      var bit := BitId(first, second);
      assert bit / 16 == first - 0xC0 && bit % 16 == second / 16;
      var rs := PREFIX_RANGES;
      assert TableBitFrom(6, bit) <==> RangeSets(rs[6], bit) || RangeSets(rs[7], bit);
      assert TableBitFrom(4, bit) <==> RangeSets(rs[4], bit) || RangeSets(rs[5], bit) || TableBitFrom(6, bit);
      assert TableBitFrom(2, bit) <==> RangeSets(rs[2], bit) || RangeSets(rs[3], bit) || TableBitFrom(4, bit);
      assert TableBit(bit) <==> RangeSets(rs[0], bit) || RangeSets(rs[1], bit) || TableBitFrom(2, bit);
    }
  }

  // ----- characters -----

  predicate IsContinuation(b: Byte) { 0x80 <= b < 0xC0 }

  /** The test the scanning loops share: the front of `s` announces `PrefixSize8` bytes,
      they are all there, and the table and the continuation bits accept them. */
  predicate MultibyteAt(s: Bytes)
    requires s != []
  {
    var n := PrefixSize8(s[0]);
    2 <= n <= |s| && ValidMultibytePrefix(s[0], s[1]) && forall i | 2 <= i < n :: IsContinuation(s[i])
  }

  /** Length of the well-formed character at the front of `s`; 0 when there is none. */
  function CharLen(s: Bytes): (n: nat)
    ensures n <= |s| && n <= 4
  {
    if s == [] then 0
    else if s[0] < 0x80 then 1
    else if MultibyteAt(s) then PrefixSize8(s[0])
    else 0
  }

  function EncodeScalar(c: Scalar): (s: Bytes)
    ensures 1 <= |s| <= 4
  {
    if c < 0x80 then [c]
    else if c < 0x800 then [0xC0 + c / 64, 0x80 + c % 64]
    else if c < 0x10000 then [0xE0 + c / 4096, 0x80 + c / 64 % 64, 0x80 + c % 64]
    else [0xF0 + c / 262144, 0x80 + c / 4096 % 64, 0x80 + c / 64 % 64, 0x80 + c % 64]
  }

  function Bits2(b0: int, b1: int): int { b0 % 64 * 64 + b1 % 64 }
  function Bits3(b0: int, b1: int, b2: int): int { (b0 % 32 * 64 + b1 % 64) * 64 + b2 % 64 }
  function Bits4(b0: int, b1: int, b2: int, b3: int): int
  {
    ((b0 % 16 * 64 + b1 % 64) * 64 + b2 % 64) * 64 + b3 % 64
  }

  /** The bits the sanitizer collects from the character at the front. */
  function CombinedBits(s: Bytes): (c: int)
    requires CharLen(s) > 0
  {
    match CharLen(s)
    case 1 => s[0]
    case 2 => Bits2(s[0], s[1])
    case 3 => Bits3(s[0], s[1], s[2])
    case _ => Bits4(s[0], s[1], s[2], s[3])
  }

  lemma TwoBytes(b0: int, b1: int)
    requires 0xC2 <= b0 <= 0xDF && 0x80 <= b1 <= 0xBF
    ensures var c := Bits2(b0, b1); 0x80 <= c < 0x800 && b0 == 0xC0 + c / 64 && b1 == 0x80 + c % 64
  {
  }

  lemma ThreeBytes(b0: int, b1: int, b2: int)
    requires 0xE0 <= b0 <= 0xEF && 0x80 <= b1 <= 0xBF && 0x80 <= b2 <= 0xBF
    requires (b0 == 0xE0 ==> 0xA0 <= b1) && (b0 == 0xED ==> b1 <= 0x9F)
    ensures var c := Bits3(b0, b1, b2);
            0x800 <= c < 0x10000 && (c < 0xD800 || 0xE000 <= c)
            && b0 == 0xE0 + c / 4096 && b1 == 0x80 + c / 64 % 64 && b2 == 0x80 + c % 64
  {
    var u, v, w := b0 - 0xE0, b1 - 0x80, b2 - 0x80;
    LowBits(b0);
    LowBits(b1);
    LowBits(b2);
    assert Bits3(b0, b1, b2) == (u * 64 + v) * 64 + w;
    ThreeDigits(u, v, w);
  }

  /** The bits behind the marker of a byte. */
  lemma LowBits(b: int)
    ensures 0x80 <= b <= 0xBF ==> b % 64 == b - 0x80
    ensures 0xE0 <= b <= 0xEF ==> b % 32 == b - 0xE0
    ensures 0xF0 <= b <= 0xFF ==> b % 16 == b - 0xF0
  {
  }

  /** The base-64 digits of a three-byte character. */
  lemma ThreeDigits(u: int, v: int, w: int)
    requires 0 <= u && 0 <= v < 64 && 0 <= w < 64
    ensures var c := (u * 64 + v) * 64 + w; c / 4096 == u && c / 64 % 64 == v && c % 64 == w
  {
    var p := u * 64 + v;
    var c := p * 64 + w;
    assert c / 64 == p && c % 64 == w;
    assert p / 64 == u && p % 64 == v;
    SplitBits(c);
  }

  lemma FourBytes(b0: int, b1: int, b2: int, b3: int)
    requires 0xF0 <= b0 <= 0xF4 && 0x80 <= b1 <= 0xBF && 0x80 <= b2 <= 0xBF && 0x80 <= b3 <= 0xBF
    requires (b0 == 0xF0 ==> 0x90 <= b1) && (b0 == 0xF4 ==> b1 <= 0x8F)
    ensures var c := Bits4(b0, b1, b2, b3);
            0x10000 <= c < 0x110000
            && b0 == 0xF0 + c / 262144 && b1 == 0x80 + c / 4096 % 64 && b2 == 0x80 + c / 64 % 64 && b3 == 0x80 + c % 64
  {
    var u, v, w, x := b0 - 0xF0, b1 - 0x80, b2 - 0x80, b3 - 0x80;
    LowBits(b0);
    LowBits(b1);
    LowBits(b2);
    LowBits(b3);
    FourDigits(u, v, w, x);
  }

  /** The base-64 digits of a four-byte character. */
  lemma FourDigits(u: int, v: int, w: int, x: int)
    requires 0 <= u && 0 <= v < 64 && 0 <= w < 64 && 0 <= x < 64
    ensures var c := ((u * 64 + v) * 64 + w) * 64 + x;
            c / 262144 == u && c / 4096 % 64 == v && c / 64 % 64 == w && c % 64 == x
  {
    var p := u * 64 + v;
    var q := p * 64 + w;
    var c := q * 64 + x;
    assert c / 64 == q && c % 64 == x;
    assert q / 64 == p && q % 64 == w;
    assert p / 64 == u && p % 64 == v;
    SplitBits(c);
  }

  /** The shifted digits of a code point are the digits of its shifted value. */
  lemma SplitBits(c: nat)
    ensures c / 4096 == c / 64 / 64 && c / 262144 == c / 64 / 64 / 64
  {
  }

  /** The combined bits are a scalar value, and its encoding is the character scanned. */
  lemma CombinedBitsDecode(s: Bytes)
    requires CharLen(s) > 0
    ensures CombinedBits(s) < 0xD800 || 0xE000 <= CombinedBits(s) < 0x110000
    ensures 0 <= CombinedBits(s)
    ensures EncodeScalar(CombinedBits(s)) == s[..CharLen(s)]
  {
    match CharLen(s)
    case 1 => assert s[..1] == [s[0]];
    case 2 => DecodeTwo(s);
    case 3 => DecodeThree(s);
    case _ => DecodeFour(s);
  }

  lemma DecodeTwo(s: Bytes)
    requires CharLen(s) == 2
    ensures var c := Bits2(s[0], s[1]); 0x80 <= c < 0x800 && EncodeScalar(c) == s[..2]
  {
    ValidPrefixMeansRfc3629(s[0], s[1]);
    TwoBytes(s[0], s[1]);
    assert s[..2] == [s[0], s[1]];
  }

  lemma EncodesToThree(c: Scalar, b0: Byte, b1: Byte, b2: Byte)
    requires 0x800 <= c < 0x10000
    requires b0 == 0xE0 + c / 4096 && b1 == 0x80 + c / 64 % 64 && b2 == 0x80 + c % 64
    ensures EncodeScalar(c) == [b0, b1, b2]
  {
  }

  lemma DecodeThree(s: Bytes)
    requires CharLen(s) == 3
    ensures var c := Bits3(s[0], s[1], s[2]);
            0x800 <= c < 0x10000 && (c < 0xD800 || 0xE000 <= c) && EncodeScalar(c) == s[..3]
  {
    var b0, b1, b2 := s[0], s[1], s[2];
    assert 0xE0 <= b0 <= 0xEF && 0x80 <= b1 <= 0xBF && 0x80 <= b2 <= 0xBF
           && (b0 == 0xE0 ==> 0xA0 <= b1) && (b0 == 0xED ==> b1 <= 0x9F) by {
      ValidPrefixMeansRfc3629(b0, b1);
      assert IsContinuation(s[2]);
    }
    ThreeBytes(b0, b1, b2);
    EncodesToThree(Bits3(b0, b1, b2), b0, b1, b2);
    assert s[..3] == [b0, b1, b2];
  }

  lemma EncodesToFour(c: Scalar, b0: Byte, b1: Byte, b2: Byte, b3: Byte)
    requires 0x10000 <= c
    requires b0 == 0xF0 + c / 262144 && b1 == 0x80 + c / 4096 % 64 && b2 == 0x80 + c / 64 % 64 && b3 == 0x80 + c % 64
    ensures EncodeScalar(c) == [b0, b1, b2, b3]
  {
  }

  lemma DecodeFour(s: Bytes)
    requires CharLen(s) == 4
    ensures var c := Bits4(s[0], s[1], s[2], s[3]); 0x10000 <= c < 0x110000 && EncodeScalar(c) == s[..4]
  {
    var b0, b1, b2, b3 := s[0], s[1], s[2], s[3];
    assert 0xF0 <= b0 <= 0xF4 && 0x80 <= b1 <= 0xBF && 0x80 <= b2 <= 0xBF && 0x80 <= b3 <= 0xBF
           && (b0 == 0xF0 ==> 0x90 <= b1) && (b0 == 0xF4 ==> b1 <= 0x8F) by {
      ValidPrefixMeansRfc3629(b0, b1);
      assert IsContinuation(s[2]) && IsContinuation(s[3]);
    }
    FourBytes(b0, b1, b2, b3);
    EncodesToFour(Bits4(b0, b1, b2, b3), b0, b1, b2, b3);
    assert s[..4] == [b0, b1, b2, b3];
  }

  /** The scalar value the front of `s` encodes. */
  ghost function DecodeChar(s: Bytes): (c: Scalar)
    requires CharLen(s) > 0
    ensures EncodeScalar(c) == s[..CharLen(s)]
  {
    CombinedBitsDecode(s);
    assert exists c: Scalar :: EncodeScalar(c) == s[..CharLen(s)];
    var c: Scalar :| EncodeScalar(c) == s[..CharLen(s)];
    c
  }

  /** The source's bit arithmetic computes that scalar value. */
  lemma CombinedBitsAreTheScalar(s: Bytes)
    requires CharLen(s) > 0
    ensures CombinedBits(s) == DecodeChar(s)
  {
    CombinedBitsDecode(s);
    EncodedCarries(CombinedBits(s));
    EncodedCarries(DecodeChar(s));
  }

  lemma LeadOfThree(c: Scalar)
    requires 0x800 <= c < 0x10000
    ensures var b0, b1 := 0xE0 + c / 4096, 0x80 + c / 64 % 64;
            0xE0 <= b0 <= 0xEF && 0x80 <= b1 <= 0xBF
            && (b0 == 0xE0 ==> 0xA0 <= b1) && (b0 == 0xED ==> b1 <= 0x9F)
  {
    SplitBits(c);
    var q := c / 64;
    assert q == q / 64 * 64 + q % 64;
  }

  lemma LeadOfFour(c: Scalar)
    requires 0x10000 <= c
    ensures var b0, b1 := 0xF0 + c / 262144, 0x80 + c / 4096 % 64;
            0xF0 <= b0 <= 0xF4 && 0x80 <= b1 <= 0xBF
            && (b0 == 0xF0 ==> 0x90 <= b1) && (b0 == 0xF4 ==> b1 <= 0x8F)
  {
    SplitBits(c);
    var q := c / 64 / 64;
    assert q == q / 64 * 64 + q % 64;
  }

  /** The bytes of a multi-byte scalar value pass the scan's tests. */
  lemma EncodedBytes(c: Scalar)
    requires c >= 0x80
    ensures var e := EncodeScalar(c);
            2 <= |e| == PrefixSize8(e[0]) && e[0] >= 0x80 && ValidMultibytePrefix(e[0], e[1])
            && forall i | 2 <= i < |e| :: IsContinuation(e[i])
  {
    var e := EncodeScalar(c);
    if c >= 0x10000 {
      LeadOfFour(c);
    } else if c >= 0x800 {
      LeadOfThree(c);
    }
    ValidPrefixMeansRfc3629(e[0], e[1]);
  }

  lemma EncodedIsScanned(c: Scalar, rest: Bytes)
    ensures CharLen(EncodeScalar(c) + rest) == |EncodeScalar(c)|
  {
    var e := EncodeScalar(c);
    var s := e + rest;
    if c >= 0x80 {
      EncodedBytes(c);
      assert s[0] == e[0] && s[1] == e[1];
      forall i | 2 <= i < |e| ensures IsContinuation(s[i]) { assert s[i] == e[i]; }
    } else {
      assert e == [c];
    }
  }

  /** The number the bytes of an encoded scalar value carry. */
  function Carried(e: Bytes): int
  {
    var d := seq(|e|, i requires 0 <= i < |e| => e[i] as int);
    if |d| == 1 then d[0]
    else if |d| == 2 then (d[0] - 0xC0) * 64 + (d[1] - 0x80)
    else if |d| == 3 then (d[0] - 0xE0) * 4096 + (d[1] - 0x80) * 64 + (d[2] - 0x80)
    else if |d| == 4 then (d[0] - 0xF0) * 262144 + (d[1] - 0x80) * 4096 + (d[2] - 0x80) * 64 + (d[3] - 0x80)
    else 0
  }

  lemma EncodedCarries(c: Scalar)
    ensures Carried(EncodeScalar(c)) == c
  {
    SplitBits(c);
  }

  /** The scan recognises every encoded scalar value and reads it back. */
  lemma CharLenOfEncoded(c: Scalar, rest: Bytes)
    ensures CharLen(EncodeScalar(c) + rest) == |EncodeScalar(c)|
    ensures DecodeChar(EncodeScalar(c) + rest) == c
  {
    EncodedIsScanned(c, rest);
    var s := EncodeScalar(c) + rest;
    assert s[..CharLen(s)] == EncodeScalar(c);
    EncodedCarries(DecodeChar(s));
    EncodedCarries(c);
  }

  // ----- texts -----

  function Encode(cs: seq<Scalar>): (s: Bytes)
  {
    if cs == [] then [] else EncodeScalar(cs[0]) + Encode(cs[1..])
  }

  /** Well-formed UTF-8: the encoding of some sequence of scalar values. */
  ghost predicate WellFormed(s: Bytes)
  {
    exists cs :: Encode(cs) == s
  }

  /** The scalar values a well-formed text encodes. */
  ghost function Decode(s: Bytes): (cs: seq<Scalar>)
    requires WellFormed(s)
    ensures Encode(cs) == s
  {
    var cs :| Encode(cs) == s;
    cs
  }

  lemma {:induction false} EncodeInjective(a: seq<Scalar>, b: seq<Scalar>)
    requires Encode(a) == Encode(b)
    ensures a == b
  {
    if a == [] || b == [] {
    } else {
      var ra, rb := Encode(a[1..]), Encode(b[1..]);
      CharLenOfEncoded(a[0], ra);
      CharLenOfEncoded(b[0], rb);
      assert ra == (EncodeScalar(a[0]) + ra)[|EncodeScalar(a[0])|..];
      assert rb == (EncodeScalar(b[0]) + rb)[|EncodeScalar(b[0])|..];
      EncodeInjective(a[1..], b[1..]);
    }
  }

  /** Encoding yields well-formed bytes that decode to the same scalar values. */
  lemma EncodeDecodes(cs: seq<Scalar>)
    ensures WellFormed(Encode(cs)) && Decode(Encode(cs)) == cs
  {
    EncodeInjective(Decode(Encode(cs)), cs);
  }

  lemma PrependScalar(c: Scalar, rest: Bytes)
    requires WellFormed(rest)
    ensures WellFormed(EncodeScalar(c) + rest)
    ensures Decode(EncodeScalar(c) + rest) == [c] + Decode(rest)
  {
    var cs := [c] + Decode(rest);
    assert cs[1..] == Decode(rest);
    EncodeDecodes(cs);
  }

  /** Well-formedness can be decided by scanning one character at a time. */
  lemma WellFormedFront(s: Bytes)
    requires s != []
    ensures WellFormed(s) <==> CharLen(s) > 0 && WellFormed(s[CharLen(s)..])
    ensures WellFormed(s) ==> Decode(s) == [DecodeChar(s)] + Decode(s[CharLen(s)..])
  {
    if WellFormed(s) {
      var cs := Decode(s);
      var rest := Encode(cs[1..]);
      CharLenOfEncoded(cs[0], rest);
      assert s[CharLen(s)..] == rest;
      EncodeDecodes(cs[1..]);
    } else if CharLen(s) > 0 && WellFormed(s[CharLen(s)..]) {
      assert s == s[..CharLen(s)] + s[CharLen(s)..];
      PrependScalar(DecodeChar(s), s[CharLen(s)..]);
    }
  }

  lemma EmptyIsWellFormed()
    ensures WellFormed([]) && Decode([]) == []
  {
    EncodeDecodes([]);
  }

  lemma {:induction false} EncodeAppend(a: seq<Scalar>, b: seq<Scalar>)
    ensures Encode(a + b) == Encode(a) + Encode(b)
  {
    if a == [] {
      assert a + b == b;
    } else {
      assert (a + b)[1..] == a[1..] + b;
      EncodeAppend(a[1..], b);
    }
  }

  lemma DecodeAppend(a: Bytes, b: Bytes)
    requires WellFormed(a) && WellFormed(b)
    ensures WellFormed(a + b) && Decode(a + b) == Decode(a) + Decode(b)
  {
    EncodeAppend(Decode(a), Decode(b));
    EncodeDecodes(Decode(a) + Decode(b));
  }

  /** Scanning over encoded characters leaves the verdict to what follows. */
  lemma {:induction false} EncodedPrefix(cs: seq<Scalar>, b: Bytes)
    requires WellFormed(Encode(cs) + b)
    ensures WellFormed(b)
  {
    if cs == [] {
      assert Encode(cs) + b == b;
    } else {
      var e, rest := EncodeScalar(cs[0]), Encode(cs[1..]) + b;
      assert Encode(cs) + b == e + rest;
      CharLenOfEncoded(cs[0], rest);
      WellFormedFront(e + rest);
      assert (e + rest)[|e|..] == rest;
      EncodedPrefix(cs[1..], b);
    }
  }

  lemma WellFormedAppend(a: Bytes, b: Bytes)
    requires WellFormed(a)
    ensures WellFormed(a + b) <==> WellFormed(b)
  {
    if WellFormed(b) { DecodeAppend(a, b); }
    if WellFormed(a + b) { EncodedPrefix(Decode(a), b); }
  }
}

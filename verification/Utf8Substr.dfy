/** `substr_step` and what is built on it: slicing, resizing and measuring UTF-8
    text in code points (utils/src/unicode_text.cpp). */
module Utf8Substr {
  import opened Basics
  import opened Utf8

  /** Length of a text in UTF-16 code units. */
  ghost function Utf16Length(cs: seq<Scalar>): (n: nat)
  {
    if cs == [] then 0 else (if cs[0] < 0x10000 then 1 else 2) + Utf16Length(cs[1..])
  }

  lemma {:induction false} Utf16LengthAppend(a: seq<Scalar>, b: seq<Scalar>)
    ensures Utf16Length(a + b) == Utf16Length(a) + Utf16Length(b)
  {
    if a == [] {
      assert a + b == b;
    } else {
      assert (a + b)[1..] == a[1..] + b;
      Utf16LengthAppend(a[1..], b);
    }
  }

  /** The first byte announces the length of the character in both encodings. */
  lemma PrefixSizesOfChar(s: Bytes)
    requires CharLen(s) > 0
    ensures PrefixSize8(s[0]) == CharLen(s)
    ensures PrefixSize16(s[0]) == if DecodeChar(s) < 0x10000 then 1 else 2
  {
    assert |EncodeScalar(DecodeChar(s))| == CharLen(s);
    if CharLen(s) > 1 { ValidPrefixMeansRfc3629(s[0], s[1]); }
  }

  /** The announced sizes go by the bit pattern of the first byte: `0xxxxxxx`, `110xxxxx`,
      `1110xxxx` and `11110xxx` announce characters, of which the last take two UTF-16 units. */
  lemma SizesByPattern(b: Byte)
    ensures PrefixSize8(b) ==
            if b / 0x80 == 0 then 1 else if b / 0x20 == 6 then 2 else if b / 0x10 == 14 then 3
            else if b / 8 == 30 then 4 else 0
    ensures PrefixSize16(b) == [0, 1, 1, 1, 2][PrefixSize8(b)]
  {
  }

  lemma SingleChar(s: Bytes)
    requires CharLen(s) > 0
    ensures var e := s[..CharLen(s)]; WellFormed(e) && Decode(e) == [DecodeChar(s)]
  {
    EmptyIsWellFormed();
    PrependScalar(DecodeChar(s), []);
    assert s[..CharLen(s)] + [] == s[..CharLen(s)];
  }

  /** `a` is the text of exactly `chars` code points in `units` UTF-16 units. */
  ghost predicate Measures(a: Bytes, chars: nat, units: nat)
  {
    WellFormed(a) && |Decode(a)| == chars && Utf16Length(Decode(a)) == units
  }

  /** Reading one more character at position `k`. */
  lemma MeasuresOneMore(s: Bytes, k: nat, chars: nat, units: nat)
    requires k <= |s| && Measures(s[..k], chars, units) && CharLen(s[k..]) > 0
    ensures PrefixSize8(s[k]) == CharLen(s[k..])
    ensures Measures(s[..k + CharLen(s[k..])], chars + 1, units + PrefixSize16(s[k]))
  {
    hide CharLen, PrefixSize8, PrefixSize16, WellFormed, Utf16Length;
    var n := CharLen(s[k..]);
    var e := s[k..][..n];
    assert s[..k + n] == s[..k] + e;
    SingleChar(s[k..]);
    DecodeAppend(s[..k], e);
    Utf16LengthAppend(Decode(s[..k]), Decode(e));
    PrefixSizesOfChar(s[k..]);
    UnitsOfOne(DecodeChar(s[k..]));
  }

  lemma UnitsOfOne(c: Scalar)
    ensures Utf16Length([c]) == if c < 0x10000 then 1 else 2
  {
    assert [c][1..] == [];
  }

  lemma MeasuredIsWellFormed(a: Bytes, chars: nat, units: nat)
    requires Measures(a, chars, units)
    ensures WellFormed(a) && |Decode(a)| == chars && Utf16Length(Decode(a)) == units
  {
  }

  lemma NothingMeasured()
    ensures Measures([], 0, 0)
  {
    EmptyIsWellFormed();
  }

  // ----- text that is not validated -----

  /** What is left of a text, what is left of the number, and both lengths passed by. */
  datatype Walk = Walk(rest: Bytes, left: nat, count: nat, units: nat)

  /** The announced sizes of the next `chars` characters stay inside the text. */
  predicate Walkable(s: Bytes, chars: nat)
    decreases chars
  {
    chars == 0 || s == [] || (PrefixSize8(s[0]) <= |s| && Walkable(s[PrefixSize8(s[0])..], chars - 1))
  }

  /** `chars` steps by announced sizes. */
  function Walked(s: Bytes, chars: nat): (w: Walk)
    requires Walkable(s, chars)
    ensures |w.rest| <= |s| && w.rest == s[|s| - |w.rest|..]
    ensures w.count + w.left == chars && (w.left > 0 ==> w.rest == [])
    decreases chars
  {
    if chars == 0 || s == [] then Walk(s, chars, 0, 0)
    else
      var k := PrefixSize8(s[0]);
      var w := Walked(s[k..], chars - 1);
      SuffixOfSuffix(s, k, w.rest);
      w.(count := w.count + 1, units := w.units + PrefixSize16(s[0]))
  }

  lemma SuffixOfSuffix(s: Bytes, k: nat, rest: Bytes)
    requires k <= |s| && |rest| <= |s| - k && rest == s[k..][|s| - k - |rest|..]
    ensures rest == s[|s| - |rest|..]
  {
  }

  /** The same walk after a part that was passed before. */
  function Ahead(w: Walk, count: nat, units: nat): (r: Walk)
  {
    w.(count := count + w.count, units := units + w.units)
  }

  lemma {:induction false} WellFormedWalks(s: Bytes, chars: nat)
    requires WellFormed(s)
    ensures Walkable(s, chars)
    decreases chars
  {
    hide WellFormed, CharLen, PrefixSize8, Walkable;
    if chars > 0 && s != [] {
      WellFormedFront(s);
      PrefixSizesOfChar(s);
      WellFormedWalks(s[CharLen(s)..], chars - 1);
      WalkOn(s, chars);
    } else {
      WalkEnds(s, chars);
    }
  }

  /** A byte that starts nothing is counted again and again, and never passed. */
  lemma {:induction false} WalkStopsAtStray(a: Bytes, rest: Bytes, chars: nat, m: nat, u: nat)
    requires Measures(a, m, u) && m <= chars
    requires rest != [] && PrefixSize8(rest[0]) == 0
    ensures Walkable(a + rest, chars) && Walked(a + rest, chars) == Walk(rest, 0, chars, u)
    decreases chars
  {
    hide Measures, CharLen, Walked, Walkable, PrefixSize8, PrefixSize16;
    if a == [] {
      assert a + rest == rest;
      NothingMeasured();
      MeasuredOnce(a, m, u, 0, 0);
      StrayStays(rest, chars);
    } else {
      MeasuresOneLess(a, m, u);
      var n := CharLen(a);
      assert (a + rest)[n..] == a[n..] + rest;
      WalkStopsAtStray(a[n..], rest, chars - 1, m - 1, u - PrefixSize16(a[0]));
      WalkOn(a + rest, chars);
    }
  }

  lemma MeasuredOnce(a: Bytes, m: nat, u: nat, m': nat, u': nat)
    requires Measures(a, m, u) && Measures(a, m', u')
    ensures m == m' && u == u'
  {
  }

  lemma {:induction false} StrayStays(rest: Bytes, chars: nat)
    requires rest != [] && PrefixSize8(rest[0]) == 0
    ensures Walkable(rest, chars) && Walked(rest, chars) == Walk(rest, 0, chars, 0)
    decreases chars
  {
    hide Walkable, Walked;
    if chars > 0 {
      assert rest[PrefixSize8(rest[0])..] == rest;
      StrayStays(rest, chars - 1);
      WalkOn(rest, chars);
    } else {
      WalkEnds(rest, 0);
    }
  }

  /** One step of the walk. */
  lemma WalkOn(s: Bytes, chars: nat)
    requires s != [] && chars > 0
    ensures Walkable(s, chars) <==> PrefixSize8(s[0]) <= |s| && Walkable(s[PrefixSize8(s[0])..], chars - 1)
    ensures Walkable(s, chars) ==>
              Walked(s, chars) == Ahead(Walked(s[PrefixSize8(s[0])..], chars - 1), 1, PrefixSize16(s[0]))
  {
  }

  lemma WalkEnds(s: Bytes, chars: nat)
    requires s == [] || chars == 0
    ensures Walkable(s, chars) && Walked(s, chars) == Walk(s, chars, 0, 0)
  {
  }

  lemma FrontChar(s: Bytes)
    requires s != []
    ensures CharLen(s) > 0 <==> s[0] < 0x80 || MultibyteAt(s)
    ensures CharLen(s) > 0 ==> PrefixSize8(s[0]) == CharLen(s)
  {
    if CharLen(s) > 0 { PrefixSizesOfChar(s); }
  }

  lemma MeasuresOneLess(a: Bytes, m: nat, u: nat)
    requires a != [] && Measures(a, m, u)
    ensures CharLen(a) == PrefixSize8(a[0]) > 0 && m > 0 && PrefixSize16(a[0]) <= u
    ensures Measures(a[CharLen(a)..], m - 1, u - PrefixSize16(a[0]))
  {
    WellFormedFront(a);
    PrefixSizesOfChar(a);
    var cs := Decode(a);
    assert cs[0] == DecodeChar(a) && cs[1..] == Decode(a[CharLen(a)..]);
  }

  /** Where the loop of `substr_step` stands `k` bytes into the text. */
  ghost predicate Passed(s: Bytes, chars: nat, validate: bool, k: nat, left: nat, count: nat, units: nat)
  {
    && k <= |s| && count + left == chars
    && (validate || WellFormed(s) ==> Measures(s[..k], count, units))
    && (WellFormed(s) ==> WellFormed(s[k..]))
    && (!validate ==>
          && Walkable(s, chars) && Walkable(s[k..], left)
          && Walked(s, chars) == Ahead(Walked(s[k..], left), count, units))
  }

  lemma PassedNothing(s: Bytes, chars: nat, validate: bool)
    requires validate || Walkable(s, chars)
    ensures Passed(s, chars, validate, 0, chars, 0, 0)
  {
    hide Walkable, Walked, Measures, WellFormed;
    NothingMeasured();
    assert s[..0] == [] && s[0..] == s;
  }

  lemma PassedOneMore(s: Bytes, chars: nat, validate: bool, k: nat, left: nat, count: nat, units: nat)
    requires Passed(s, chars, validate, k, left, count, units) && left > 0 && k < |s|
    requires validate ==> CharLen(s[k..]) > 0
    ensures k + PrefixSize8(s[k]) <= |s|
    ensures Passed(s, chars, validate, k + PrefixSize8(s[k]), left - 1, count + 1, units + PrefixSize16(s[k]))
  {
    hide Walkable, Walked, Measures, WellFormed, CharLen, PrefixSize8, PrefixSize16, Ahead;
    if WellFormed(s) { FrontOfWellFormed(s, k); }
    if validate || WellFormed(s) { MeasuresOneMore(s, k, count, units); }
    if !validate { WalkOneMore(s, k, left, Walked(s, chars), count, units); }
  }

  lemma FrontOfWellFormed(s: Bytes, k: nat)
    requires k < |s| && WellFormed(s[k..])
    ensures CharLen(s[k..]) == PrefixSize8(s[k]) > 0 && k + PrefixSize8(s[k]) <= |s|
    ensures WellFormed(s[k + PrefixSize8(s[k])..])
  {
    hide WellFormed, CharLen, PrefixSize8;
    var rest := s[k..];
    WellFormedFront(rest);
    PrefixSizesOfChar(rest);
    assert rest[CharLen(rest)..] == s[k + CharLen(rest)..];
  }

  lemma WalkOneMore(s: Bytes, k: nat, left: nat, w: Walk, count: nat, units: nat)
    requires k < |s| && left > 0 && Walkable(s[k..], left) && w == Ahead(Walked(s[k..], left), count, units)
    ensures var j := k + PrefixSize8(s[k]);
            && j <= |s| && Walkable(s[j..], left - 1)
            && w == Ahead(Walked(s[j..], left - 1), count + 1, units + PrefixSize16(s[k]))
  {
    hide Walkable, Walked, PrefixSize8, PrefixSize16;
    var rest := s[k..];
    WalkOn(rest, left);
    assert rest[PrefixSize8(s[k])..] == s[k + PrefixSize8(s[k])..];
  }

  /** `substr_step<validate>`. The view shrinks from the front until `chars` characters are
      gone or it is empty; `ok` is false where the source throws `utf8_error`. Without
      validation the announced sizes have to stay inside the text. */
  method SubstrStep(s: Bytes, chars: nat, validate: bool)
    returns (ok: bool, rest: Bytes, left: nat, count: nat, units: nat)
    requires validate || Walkable(s, chars)
    ensures |rest| <= |s| && rest == s[|s| - |rest|..]
    ensures validate || WellFormed(s) ==> Measures(s[..|s| - |rest|], count, units)
    ensures ok ==> count + left == chars && (left > 0 ==> rest == [])
    ensures !ok ==> validate && count < chars && rest != [] && CharLen(rest) == 0
    ensures !validate ==> Walk(rest, left, count, units) == Walked(s, chars)
  {
    hide Walkable, Walked, Measures, CharLen, MultibyteAt, WellFormed, Passed;
    ok, rest, left, count, units := true, s, chars, 0, 0;
    ghost var k := 0;
    PassedNothing(s, chars, validate);
    while left != 0
      invariant ok && 0 <= k <= |s| && rest == s[k..]
      invariant Passed(s, chars, validate, k, left, count, units)
    {
      if rest == [] {
        break;
      }
      var c := rest[0];
      FrontChar(rest);
      if c >= 0x80 && validate && !MultibyteAt(rest) {
        ok := false;
        break;
      }
      PassedOneMore(s, chars, validate, k, left, count, units);
      var cs := PrefixSize8(c);
      k := k + cs;
      left, count, units, rest := left - 1, count + 1, units + PrefixSize16(c), rest[cs..];
    }
    PassedAll(s, chars, validate, k, left, count, units);
  }

  lemma PassedAll(s: Bytes, chars: nat, validate: bool, k: nat, left: nat, count: nat, units: nat)
    requires Passed(s, chars, validate, k, left, count, units)
    ensures count + left == chars
    ensures validate || WellFormed(s) ==> Measures(s[..k], count, units)
    ensures !validate && (left == 0 || k == |s|) ==> Walked(s, chars) == Walk(s[k..], left, count, units)
  {
    hide Walkable, Walked, Measures, WellFormed;
    if left == 0 || k == |s| { WalkEnds(s[k..], left); }
  }

  /** A well-formed prefix of measured length is the encoding of that many leading code points. */
  lemma MeasuredPrefix(s: Bytes, a: Bytes, rest: Bytes, chars: nat, units: nat)
    requires WellFormed(s) && s == a + rest && Measures(a, chars, units)
    ensures chars <= |Decode(s)|
    ensures Decode(a) == Decode(s)[..chars] && units == Utf16Length(Decode(s)[..chars])
    ensures WellFormed(rest) && Decode(rest) == Decode(s)[chars..]
  {
    WellFormedAppend(a, rest);
    DecodeAppend(a, rest);
  }

  /** A text that parses up to a byte no character starts with is not well-formed. */
  lemma StuckMeansMalformed(s: Bytes, a: Bytes, rest: Bytes)
    requires s == a + rest && WellFormed(a) && rest != [] && CharLen(rest) == 0
    ensures !WellFormed(s)
  {
    WellFormedAppend(a, rest);
    WellFormedFront(rest);
  }

  /** `utf8_substr_result` */
  datatype Substr = Substr(str: Bytes, charCount: nat, utf16Len: nat, offsetValid: bool)

  /** The code-point slice [off, off + len) cut to the text. */
  ghost function Slice(cs: seq<Scalar>, off: nat, len: nat): (r: seq<Scalar>)
    requires off <= |cs|
  {
    if off + len <= |cs| then cs[off..off + len] else cs[off..]
  }

  /** What `utf8_substr` means on code points: nothing when the offset lies past the end,
      otherwise the encoded slice with its two lengths. */
  ghost function SubstrOf(cs: seq<Scalar>, off: nat, len: nat): (r: Substr)
  {
    if off > |cs| then Substr([], 0, 0, false)
    else var cut := Slice(cs, off, len); Substr(Encode(cut), |cut|, Utf16Length(cut), true)
  }

  lemma OffsetPastEnd(s: Bytes, head: Bytes, tail: Bytes, off: nat, len: nat, skipped: nat, u: nat)
    requires WellFormed(s) && s == head + tail && Measures(head, skipped, u)
    requires skipped < off && tail == []
    ensures SubstrOf(Decode(s), off, len) == Substr([], 0, 0, false)
  {
    assert s == head;
  }

  lemma SlicePieces(s: Bytes, head: Bytes, tail: Bytes, str: Bytes, end: Bytes,
                    off: nat, len: nat, u: nat, left: nat, chars: nat, units: nat)
    requires WellFormed(s) && s == head + tail && tail == str + end
    requires Measures(head, off, u) && Measures(str, chars, units)
    requires chars + left == len && (left > 0 ==> end == [])
    ensures SubstrOf(Decode(s), off, len) == Substr(str, chars, units, true)
  {
    var cs := Decode(s);
    MeasuredPrefix(s, head, tail, off, u);
    MeasuredPrefix(tail, str, end, chars, units);
    if end == [] { assert str == tail; }
    assert Decode(tail)[..chars] == Slice(cs, off, len);
  }

  /** The announced sizes stay inside the text over a slice. */
  predicate SliceWalkable(s: Bytes, offset: nat, length: nat)
  {
    Walkable(s, offset) && Walkable(Walked(s, offset).rest, length)
  }

  /** The slice by announced sizes. */
  function WalkedSlice(s: Bytes, offset: nat, length: nat): (r: Substr)
    requires SliceWalkable(s, offset, length)
  {
    var h := Walked(s, offset);
    var w := Walked(h.rest, length);
    if h.left > 0 then Substr([], 0, 0, false)
    else Substr(h.rest[..|h.rest| - |w.rest|], w.count, w.units, true)
  }

  lemma WalkedSliceParts(s: Bytes, offset: nat, length: nat)
    requires SliceWalkable(s, offset, length)
    ensures Walkable(s, offset)
    ensures var h := Walked(s, offset);
            && Walkable(h.rest, length)
            && WalkedSlice(s, offset, length)
               == if h.left > 0 then Substr([], 0, 0, false)
                  else
                    var w := Walked(h.rest, length);
                    Substr(h.rest[..|h.rest| - |w.rest|], w.count, w.units, true)
  {
  }

  lemma WellFormedSliceWalks(s: Bytes, offset: nat, length: nat)
    requires WellFormed(s)
    ensures SliceWalkable(s, offset, length)
  {
    WellFormedWalks(s, offset);
    WellFormedRest(s, offset);
    WellFormedWalks(Walked(s, offset).rest, length);
  }

  lemma {:induction false} WellFormedRest(s: Bytes, chars: nat)
    requires WellFormed(s) && Walkable(s, chars)
    ensures WellFormed(Walked(s, chars).rest)
    decreases chars
  {
    hide WellFormed, CharLen, PrefixSize8;
    if chars > 0 && s != [] {
      WellFormedFront(s);
      PrefixSizesOfChar(s);
      WellFormedRest(s[CharLen(s)..], chars - 1);
    }
  }

  /** Where a step got stuck, the text is malformed. */
  lemma StuckAt(s: Bytes, rest: Bytes, count: nat, units: nat)
    requires |rest| <= |s| && rest == s[|s| - |rest|..] && Measures(s[..|s| - |rest|], count, units)
    requires rest != [] && CharLen(rest) == 0
    ensures !WellFormed(s)
  {
    hide CharLen;
    var a := s[..|s| - |rest|];
    MeasuredIsWellFormed(a, count, units);
    assert s == a + rest;
    StuckMeansMalformed(s, a, rest);
  }

  /** Behind a measured prefix the rest decides. */
  lemma RestDecides(s: Bytes, rest: Bytes, count: nat, units: nat)
    requires |rest| <= |s| && rest == s[|s| - |rest|..] && Measures(s[..|s| - |rest|], count, units)
    ensures WellFormed(s) <==> WellFormed(rest)
  {
    var a := s[..|s| - |rest|];
    MeasuredIsWellFormed(a, count, units);
    assert s == a + rest;
    WellFormedAppend(a, rest);
  }

  lemma PastEnd(s: Bytes, off: nat, len: nat, skipped: nat, u: nat)
    requires WellFormed(s) && Measures(s, skipped, u) && skipped < off
    ensures SubstrOf(Decode(s), off, len) == Substr([], 0, 0, false)
  {
    assert s + [] == s;
    OffsetPastEnd(s, s, [], off, len, skipped, u);
  }

  lemma SliceMeans(s: Bytes, tail: Bytes, end: Bytes, off: nat, len: nat, u: nat, left: nat, chars: nat, units: nat)
    requires WellFormed(s) && |tail| <= |s| && tail == s[|s| - |tail|..] && Measures(s[..|s| - |tail|], off, u)
    requires |end| <= |tail| && end == tail[|tail| - |end|..] && Measures(tail[..|tail| - |end|], chars, units)
    requires chars + left == len && (left > 0 ==> end == [])
    ensures SubstrOf(Decode(s), off, len) == Substr(tail[..|tail| - |end|], chars, units, true)
  {
    hide Measures, SubstrOf;
    var head, str := s[..|s| - |tail|], tail[..|tail| - |end|];
    assert s == head + tail && tail == str + end;
    SlicePieces(s, head, tail, str, end, off, len, u, left, chars, units);
  }

  /** `utf8_substr<validate>`; `None` where the source throws. On well-formed text the result
      is exactly the encoded code-point slice. */
  method Utf8SubstrBytes(s: Bytes, offset: nat, length: nat, validate: bool) returns (r: Option<Substr>)
    requires validate || SliceWalkable(s, offset, length)
    ensures WellFormed(s) ==> r == Some(SubstrOf(Decode(s), offset, length))
    ensures r.None? ==> validate && !WellFormed(s)
    ensures !validate ==> r == Some(WalkedSlice(s, offset, length))
  {
    hide Measures, SubstrOf, CharLen, WellFormed, Walkable, Walked, SliceWalkable, WalkedSlice, Decode;
    if !validate { WalkedSliceParts(s, offset, length); }
    var ok, tail, missing, skipped, u := SubstrStep(s, offset, validate);
    if !ok {
      StuckAt(s, tail, skipped, u);
      return None;
    }
    if validate || WellFormed(s) { RestDecides(s, tail, skipped, u); }
    if missing != 0 {
      assert s[..|s| - |tail|] == s;
      if WellFormed(s) { PastEnd(s, offset, length, skipped, u); }
      return Some(Substr([], 0, 0, false));
    }
    var ok2, end, left, chars, units := SubstrStep(tail, length, validate);
    if !ok2 {
      StuckAt(tail, end, chars, units);
      return None;
    }
    if WellFormed(s) { SliceMeans(s, tail, end, offset, length, u, left, chars, units); }
    r := Some(Substr(tail[..|tail| - |end|], chars, units, true));
  }

  function Pads(n: nat, pad: Byte): (r: Bytes)
    ensures |r| == n && forall i | 0 <= i < n :: r[i] == pad
  {
    seq(n, _ => pad)
  }

  lemma {:induction false} PadsDecode(n: nat, pad: Byte)
    requires pad < 0x80
    ensures WellFormed(Pads(n, pad)) && Decode(Pads(n, pad)) == seq(n, _ => pad)
    decreases n
  {
    var cs: seq<Scalar> := seq(n, _ => pad as Scalar);
    PadsEncode(n, pad);
    EncodeDecodes(cs);
  }

  lemma {:induction false} PadsEncode(n: nat, pad: Byte)
    requires pad < 0x80
    ensures Encode(seq(n, _ => pad as Scalar)) == Pads(n, pad)
    decreases n
  {
    var cs: seq<Scalar> := seq(n, _ => pad as Scalar);
    if n > 0 {
      assert cs[1..] == seq(n - 1, _ => pad as Scalar);
      PadsEncode(n - 1, pad);
      assert Pads(n, pad) == [pad] + Pads(n - 1, pad);
    }
  }

  /** Cutting keeps the leading code points. */
  lemma CutDecodes(s: Bytes, count: nat)
    requires WellFormed(s) && count <= |Decode(s)|
    ensures var e := Encode(Decode(s)[..count]); e <= s && WellFormed(e) && Decode(e) == Decode(s)[..count]
  {
    var cs := Decode(s);
    assert cs == cs[..count] + cs[count..];
    EncodeAppend(cs[..count], cs[count..]);
    EncodeDecodes(cs[..count]);
  }

  lemma PaddingDecodes(s: Bytes, n: nat, pad: Byte)
    requires WellFormed(s) && pad < 0x80
    ensures WellFormed(s + Pads(n, pad)) && Decode(s + Pads(n, pad)) == Decode(s) + seq(n, _ => pad)
  {
    PadsDecode(n, pad);
    DecodeAppend(s, Pads(n, pad));
  }

  /** `utf8_resize`: cut to, or pad up to, exactly `count` code points. The source takes the
      unvalidated slice in both instantiations. */
  method Utf8Resize(s: Bytes, count: nat, pad: Byte) returns (r: Bytes)
    requires Walkable(s, count)
    ensures WellFormed(s) && |Decode(s)| >= count ==> WellFormed(r) && Decode(r) == Decode(s)[..count]
    ensures WellFormed(s) && |Decode(s)| < count ==> r == s + Pads(count - |Decode(s)|, pad)
    ensures WellFormed(s) && |Decode(s)| < count && pad < 0x80 ==>
              WellFormed(r) && Decode(r) == Decode(s) + seq(count - |Decode(s)|, _ => pad)
    ensures var w := Walked(s, count); r == if w.left == 0 then s[..|s| - |w.rest|] else s + Pads(w.left, pad)
  {
    hide WellFormed, CharLen;
    assert Walked(s, 0) == Walk(s, 0, 0, 0);
    var res := Utf8SubstrBytes(s, 0, count, false);
    if WellFormed(s) { ResizedText(s, count, pad); }
    if res.value.charCount >= count {
      r := s[..|res.value.str|];
    } else {
      r := s + Pads(count - res.value.charCount, pad);
    }
  }

  /** What resizing makes of well-formed text. */
  lemma ResizedText(s: Bytes, count: nat, pad: Byte)
    requires WellFormed(s)
    ensures var sub := SubstrOf(Decode(s), 0, count);
            if |Decode(s)| >= count
            then sub.charCount == count && sub.str <= s && WellFormed(sub.str) && Decode(sub.str) == Decode(s)[..count]
            else
              && sub.charCount == |Decode(s)|
              && (pad < 0x80 ==>
                    var r := s + Pads(count - |Decode(s)|, pad);
                    WellFormed(r) && Decode(r) == Decode(s) + seq(count - |Decode(s)|, _ => pad))
  {
    var cs := Decode(s);
    if |cs| >= count {
      assert Slice(cs, 0, count) == cs[..count];
      CutDecodes(s, count);
    } else if pad < 0x80 {
      PaddingDecodes(s, count - |cs|, pad);
    }
  }

  /** Largest `size_t`; no C++ string is longer. */
  const SIZE_MAX: nat := 0xFFFF_FFFF_FFFF_FFFF

  /** `length_utf16` and `length_utf32` in one pass, with and without validation; `None` where
      they throw, which is exactly on malformed text. */
  method Lengths(s: Bytes, validate: bool) returns (r: Option<(nat, nat)>)
    requires |s| <= SIZE_MAX
    requires validate || Walkable(s, SIZE_MAX)
    ensures validate ==> (r.Some? <==> WellFormed(s))
    ensures WellFormed(s) ==> r == Some((Utf16Length(Decode(s)), |Decode(s)|))
    ensures !validate ==> r == Some((Walked(s, SIZE_MAX).units, Walked(s, SIZE_MAX).count))
  {
    hide WellFormed, CharLen, Walked, Walkable;
    var ok, rest, left, chars, units := SubstrStep(s, SIZE_MAX, validate);
    ghost var a := s[..|s| - |rest|];
    assert s == a + rest;
    if validate || WellFormed(s) { MeasuredIsWellFormed(a, chars, units); }
    if !ok {
      StuckMeansMalformed(s, a, rest);
      return None;
    }
    if validate || WellFormed(s) {
      DecodeNotLonger(a);
      assert a == s;
    }
    r := Some((units, chars));
  }

  lemma {:induction false} DecodeNotLonger(s: Bytes)
    requires WellFormed(s)
    ensures |Decode(s)| <= |s|
    decreases |s|
  {
    if s == [] {
      EmptyIsWellFormed();
    } else {
      WellFormedFront(s);
      DecodeNotLonger(s[CharLen(s)..]);
    }
  }

  /** Both lengths add over concatenation. */
  lemma LengthsAdd(a: Bytes, b: Bytes)
    requires WellFormed(a) && WellFormed(b)
    ensures WellFormed(a + b)
    ensures |Decode(a + b)| == |Decode(a)| + |Decode(b)|
    ensures Utf16Length(Decode(a + b)) == Utf16Length(Decode(a)) + Utf16Length(Decode(b))
  {
    DecodeAppend(a, b);
    Utf16LengthAppend(Decode(a), Decode(b));
  }
}

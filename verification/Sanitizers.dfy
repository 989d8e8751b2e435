/** `replace_non_utf8_chars` and `append_utf8_sanitized`: byte-level repair of
    arbitrary input (utils/src/unicode_text.cpp). */
module Sanitizers {
  import opened Utf8

  // ----- replace_non_utf8_chars -----

  const REPLACEMENT: Bytes := [0xEF, 0xBF, 0xBD]

  /** Characters are kept; every other byte becomes U+FFFD. */
  function Replaced(text: Bytes): (r: Bytes)
    decreases |text|
  {
    if text == [] then []
    else if CharLen(text) > 0 then text[..CharLen(text)] + Replaced(text[CharLen(text)..])
    else REPLACEMENT + Replaced(text[1..])
  }

  method ReplaceNonUtf8Chars(text: Bytes) returns (ret: Bytes)
    ensures ret == Replaced(text)
  {
    ret := [];
    var rest := text;
    while rest != []
      invariant ret + Replaced(rest) == Replaced(text)
      decreases |rest|
    {
      var cs, piece := 1, REPLACEMENT;
      if rest[0] < 0x80 {
        piece := rest[..1];
      } else if MultibyteAt(rest) {
        cs := PrefixSize8(rest[0]);
        piece := rest[..cs];
      }
      Regroup(ret, piece, Replaced(rest[cs..]));
      ret, rest := ret + piece, rest[cs..];
    }
    assert ret + [] == ret;
  }

  lemma Regroup(a: Bytes, b: Bytes, c: Bytes)
    ensures (a + b) + c == a + (b + c)
  {
  }

  /** The result is well-formed UTF-8 and at most three times as long. */
  lemma {:induction false} ReplacedIsWellFormed(text: Bytes)
    ensures WellFormed(Replaced(text)) && |Replaced(text)| <= 3 * |text|
    decreases |text|
  {
    hide WellFormed, CharLen, EncodeScalar;
    if text == [] {
      EmptyIsWellFormed();
    } else if CharLen(text) > 0 {
      var rest := text[CharLen(text)..];
      ReplacedIsWellFormed(rest);
      PrependScalar(DecodeChar(text), Replaced(rest));
    } else {
      ReplacedIsWellFormed(text[1..]);
      ReplacementSpelled();
      PrependScalar(0xFFFD, Replaced(text[1..]));
    }
  }

  lemma ReplacementSpelled()
    ensures EncodeScalar(0xFFFD) == REPLACEMENT
  {
  }

  /** Well-formed input comes back unchanged. */
  lemma {:induction false} ReplacedKeepsWellFormed(text: Bytes)
    requires WellFormed(text)
    ensures Replaced(text) == text
    decreases |text|
  {
    if text != [] {
      WellFormedFront(text);
      var n := CharLen(text);
      ReplacedKeepsWellFormed(text[n..]);
      assert text == text[..n] + text[n..];
    }
  }

  /** Replacing is the identity exactly on well-formed text, and doing it twice changes nothing. */
  lemma ReplacedIsRepair(text: Bytes)
    ensures Replaced(text) == text <==> WellFormed(text)
    ensures Replaced(Replaced(text)) == Replaced(text)
  {
    ReplacedIsWellFormed(text);
    ReplacedKeepsWellFormed(Replaced(text));
    if WellFormed(text) { ReplacedKeepsWellFormed(text); }
  }

  // ----- append_utf8_sanitized -----

  /** A noncharacter: the last two code points of a plane, or U+FDD0..U+FDEF. */
  predicate IsNoncharacter(c: Scalar)
  {
    c % 0x10000 >= 0xFFFE || 0xFDD0 <= c <= 0xFDEF
  }

  /** What sanitized text may hold. */
  predicate IsPresentable(c: Scalar)
  {
    !(c <= 0x1F || c == 0x7F || 0x8D <= c <= 0x9F || IsNoncharacter(c))
  }

  predicate IsPrintableAscii(b: Byte) { 0x20 <= b < 0x7F }

  /** The source's test of the combined bits of a multi-byte character;
      `(0xfffe & c) != 0xfffe` compares bits 1 to 15. */
  predicate CombinedAccepted(c: int)
  {
    c < 0x8D || (c > 0x9F && c / 2 % 0x8000 != 0x7FFF && (c < 0xFDD0 || c > 0xFDEF))
  }

  function HexDigit(d: int): (b: Byte)
    requires 0 <= d < 16
    ensures IsPrintableAscii(b)
  {
    if d < 10 then 48 + d else 55 + d
  }

  /** The visible stand-in for a rejected byte: its hexadecimal value in angle brackets. */
  function Shown(b: Byte): (s: Bytes)
  {
    [60, HexDigit(b / 16), HexDigit(b % 16), 62]
  }

  /** Is the front of `s` copied unchanged? */
  ghost predicate FrontKept(s: Bytes)
    requires s != []
  {
    CharLen(s) > 0 && IsPresentable(DecodeChar(s))
  }

  ghost function Sanitized(s: Bytes): (r: Bytes)
    decreases |s|
  {
    if s == [] then []
    else if FrontKept(s) then s[..CharLen(s)] + Sanitized(s[CharLen(s)..])
    else Shown(s[0]) + Sanitized(s[1..])
  }

  /** `(0xfffe & c) != 0xfffe` looks at bits 1 to 15. */
  lemma NoncharacterBits(c: nat)
    ensures c / 2 % 0x8000 == 0x7FFF <==> c % 0x10000 >= 0xFFFE
  {
    assert c == c / 0x10000 * 0x10000 + c % 0x10000;
    assert c / 2 == c / 0x10000 * 0x8000 + c % 0x10000 / 2;
  }

  /** The test the source makes on the raw bits is the test on the scalar value. */
  lemma CombinedAcceptedMeansPresentable(s: Bytes)
    requires CharLen(s) > 1
    ensures CombinedAccepted(CombinedBits(s)) <==> IsPresentable(DecodeChar(s))
  {
    var c := DecodeChar(s);
    assert c >= 0x80 by { assert |EncodeScalar(c)| > 1; }
    CombinedBitsAreTheScalar(s);
    NoncharacterBits(c);
  }

  /** The ASCII run at the front, as `std::find_if` delimits it. */
  function AsciiRun(s: Bytes): (n: nat)
    ensures n <= |s|
    ensures forall i | 0 <= i < n :: IsPrintableAscii(s[i])
    ensures n < |s| ==> !IsPrintableAscii(s[n])
  {
    if s == [] || !IsPrintableAscii(s[0]) then 0 else 1 + AsciiRun(s[1..])
  }

  lemma AsciiFrontKept(s: Bytes)
    requires s != [] && s[0] < 0x80
    ensures CharLen(s) == 1 && DecodeChar(s) == s[0]
    ensures FrontKept(s) <==> IsPrintableAscii(s[0])
  {
  }

  lemma SanitizedAsciiFront(s: Bytes)
    requires s != [] && IsPrintableAscii(s[0])
    ensures Sanitized(s) == [s[0]] + Sanitized(s[1..])
  {
    AsciiFrontKept(s);
  }

  lemma {:induction false} SanitizedSkipsAscii(a: Bytes, rest: Bytes)
    requires forall i | 0 <= i < |a| :: IsPrintableAscii(a[i])
    ensures Sanitized(a + rest) == a + Sanitized(rest)
  {
    if a == [] {
      assert a + rest == rest;
    } else {
      SanitizedAsciiFront(a + rest);
      assert (a + rest)[1..] == a[1..] + rest;
      SanitizedSkipsAscii(a[1..], rest);
      assert a == [a[0]] + a[1..];
      Regroup([a[0]], a[1..], Sanitized(rest));
    }
  }

  lemma {:induction false} SanitizedGrows(s: Bytes)
    ensures |Sanitized(s)| >= |s|
    decreases |s|
  {
    if s != [] {
      if FrontKept(s) { SanitizedGrows(s[CharLen(s)..]); } else { SanitizedGrows(s[1..]); }
    }
  }

  ghost predicate AllPresentable(s: Bytes)
  {
    WellFormed(s) && forall c | c in Decode(s) :: IsPresentable(c)
  }

  lemma AllPresentableFront(s: Bytes)
    requires CharLen(s) > 0
    ensures AllPresentable(s) <==> IsPresentable(DecodeChar(s)) && AllPresentable(s[CharLen(s)..])
  {
    WellFormedFront(s);
  }

  lemma {:induction false} RunIsPresentable(a: Bytes, rest: Bytes)
    requires forall i | 0 <= i < |a| :: IsPrintableAscii(a[i])
    ensures AllPresentable(a + rest) <==> AllPresentable(rest)
  {
    if a == [] {
      assert a + rest == rest;
    } else {
      assert (a + rest)[1..] == a[1..] + rest;
      AsciiFrontKept(a + rest);
      AllPresentableFront(a + rest);
      RunIsPresentable(a[1..], rest);
    }
  }

  /** What the loop may conclude from the ASCII run it copies. */
  lemma SanitizedRun(s: Bytes, n: nat)
    requires n == AsciiRun(s)
    ensures Sanitized(s) == s[..n] + Sanitized(s[n..])
    ensures AllPresentable(s) <==> AllPresentable(s[n..])
  {
    assert s == s[..n] + s[n..];
    SanitizedSkipsAscii(s[..n], s[n..]);
    RunIsPresentable(s[..n], s[n..]);
  }

  /** One step of the loop after the ASCII run: what is appended, what is consumed, and
      what the step says about the whole text. */
  lemma SanitizedStep(s: Bytes)
    requires s != [] && !IsPrintableAscii(s[0])
    ensures FrontKept(s) <==> MultibyteAt(s) && s[0] >= 0x80 && CombinedAccepted(CombinedBits(s))
    ensures MultibyteAt(s) ==> s[0] >= 0x80 && CharLen(s) == PrefixSize8(s[0])
    ensures Sanitized(s) == if FrontKept(s) then s[..CharLen(s)] + Sanitized(s[CharLen(s)..])
                            else Shown(s[0]) + Sanitized(s[1..])
    ensures AllPresentable(s) <==> FrontKept(s) && AllPresentable(s[CharLen(s)..])
  {
    if s[0] < 0x80 {
      AsciiFrontKept(s);
    } else if MultibyteAt(s) {
      CombinedAcceptedMeansPresentable(s);
    }
    if CharLen(s) > 0 { AllPresentableFront(s); } else { WellFormedFront(s); }
  }

  /** The scanning loop: `out` grows, `rest` shrinks, `replaced` is the returned flag. */
  method AppendUtf8Sanitized(result: Bytes, str: Bytes) returns (out: Bytes, replaced: bool)
    ensures out == result + Sanitized(str)
    ensures !replaced <==> Sanitized(str) == str
    ensures !replaced <==> AllPresentable(str)
  {
    out, replaced := result, false;
    var rest := str;
    EmptyIsWellFormed();
    while true
      invariant out + Sanitized(rest) == result + Sanitized(str)
      invariant AllPresentable(str) <==> !replaced && AllPresentable(rest)
      decreases |rest|
    {
      var n := AsciiRun(rest);
      SanitizedRun(rest, n);
      Regroup(out, rest[..n], Sanitized(rest[n..]));
      out, rest := out + rest[..n], rest[n..];
      if rest == [] {
        break;
      }
      SanitizedStep(rest);
      var cs, piece := 1, Shown(rest[0]);
      if MultibyteAt(rest) && CombinedAccepted(CombinedBits(rest)) {
        cs := PrefixSize8(rest[0]);
        piece := rest[..cs];
      } else {
        replaced := true;
      }
      Regroup(out, piece, Sanitized(rest[cs..]));
      out, rest := out + piece, rest[cs..];
    }
    SanitizedIdentity(str);
  }

  /** Pieces of equal length match exactly when their halves do. */
  lemma SplitEqual(s: Bytes, n: nat, tail: Bytes)
    requires n <= |s|
    ensures s[..n] + tail == s <==> tail == s[n..]
  {
    if s[..n] + tail == s { assert (s[..n] + tail)[n..] == tail; }
  }

  /** Nothing changes exactly when the text is well-formed and fully presentable. */
  lemma {:induction false} SanitizedIdentity(s: Bytes)
    ensures Sanitized(s) == s <==> AllPresentable(s)
    decreases |s|
  {
    if s == [] {
      EmptyIsWellFormed();
    } else {
      var n := CharLen(s);
      if n > 0 { AllPresentableFront(s); } else { WellFormedFront(s); }
      if FrontKept(s) {
        SanitizedIdentity(s[n..]);
        SplitEqual(s, n, Sanitized(s[n..]));
      } else {
        SanitizedGrows(s[1..]);
      }
    }
  }

  lemma KeptIsPresentable(c: Scalar, rest: Bytes)
    requires IsPresentable(c) && AllPresentable(rest)
    ensures AllPresentable(EncodeScalar(c) + rest)
  {
    PrependScalar(c, rest);
  }

  lemma PresentableAscii(b: Byte, rest: Bytes)
    requires IsPrintableAscii(b) && AllPresentable(rest)
    ensures AllPresentable([b] + rest)
  {
    KeptIsPresentable(b, rest);
  }

  lemma ShownIsPresentable(b: Byte, rest: Bytes)
    requires AllPresentable(rest)
    ensures AllPresentable(Shown(b) + rest)
  {
    var hi, lo := HexDigit(b / 16), HexDigit(b % 16);
    PresentableAscii(62, rest);
    PresentableAscii(lo, [62] + rest);
    PresentableAscii(hi, [lo] + ([62] + rest));
    PresentableAscii(60, [hi] + ([lo] + ([62] + rest)));
    assert Shown(b) + rest == [60] + ([hi] + ([lo] + ([62] + rest)));
  }

  /** Whatever the input, the appended text is well-formed and every code point is presentable. */
  lemma {:induction false} SanitizedIsPresentable(s: Bytes)
    ensures AllPresentable(Sanitized(s))
    decreases |s|
  {
    if s == [] {
      EmptyIsWellFormed();
    } else {
      if FrontKept(s) {
        SanitizedIsPresentable(s[CharLen(s)..]);
        KeptIsPresentable(DecodeChar(s), Sanitized(s[CharLen(s)..]));
      } else {
        SanitizedIsPresentable(s[1..]);
        ShownIsPresentable(s[0], Sanitized(s[1..]));
      }
    }
  }

  /** Sanitizing sanitized text changes nothing. */
  lemma SanitizedIdempotent(s: Bytes)
    ensures Sanitized(Sanitized(s)) == Sanitized(s)
  {
    SanitizedIsPresentable(s);
    SanitizedIdentity(Sanitized(s));
  }
}

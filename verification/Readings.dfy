/** What the sanitizers make of arbitrary bytes, told by their one reading as well-formed
    characters and stray bytes. */
module Readings {
  import opened Utf8
  import opened Sanitizers

  datatype Piece = Character(c: Scalar) | Stray(b: Byte)

  function PieceBytes(p: Piece): (s: Bytes)
    ensures s != []
  {
    match p
    case Character(c) => EncodeScalar(c)
    case Stray(b) => [b]
  }

  function Spelled(ps: seq<Piece>): (s: Bytes)
  {
    if ps == [] then [] else PieceBytes(ps[0]) + Spelled(ps[1..])
  }

  /** No scalar value is encoded at the front. */
  ghost predicate StartsNothing(s: Bytes)
  {
    forall c: Scalar :: !(EncodeScalar(c) <= s)
  }

  /** The pieces spell the bytes, and a byte is stray only where no character begins. */
  ghost predicate Reading(ps: seq<Piece>, s: Bytes)
  {
    Spelled(ps) == s && forall i | 0 <= i < |ps| && ps[i].Stray? :: StartsNothing(Spelled(ps[i..]))
  }

  lemma StartsNothingIff(s: Bytes)
    ensures StartsNothing(s) <==> CharLen(s) == 0
  {
    hide EncodeScalar, CharLen;
    if CharLen(s) > 0 {
      assert EncodeScalar(DecodeChar(s)) <= s;
    } else {
      forall c: Scalar ensures !(EncodeScalar(c) <= s) {
        if EncodeScalar(c) <= s { EncodedStarts(c, s); }
      }
    }
  }

  lemma EncodedStarts(c: Scalar, s: Bytes)
    requires EncodeScalar(c) <= s
    ensures CharLen(s) > 0
  {
    hide EncodeScalar, CharLen;
    CharLenOfEncoded(c, s[|EncodeScalar(c)|..]);
    assert EncodeScalar(c) + s[|EncodeScalar(c)|..] == s;
  }

  /** The rest of a reading reads the rest. */
  lemma ReadingRest(ps: seq<Piece>, s: Bytes)
    requires Reading(ps, s) && ps != []
    ensures s == PieceBytes(ps[0]) + Spelled(ps[1..]) && Reading(ps[1..], Spelled(ps[1..]))
    ensures ps[0].Stray? ==> StartsNothing(s)
  {
    hide StartsNothing, Spelled;
    assert ps[0..] == ps;
    forall i | 0 <= i < |ps| - 1 && ps[1..][i].Stray? ensures StartsNothing(Spelled(ps[1..][i..])) {
      assert ps[1..][i..] == ps[i + 1..] && ps[i + 1].Stray?;
    }
    SpelledFirst(ps);
  }

  lemma SpelledFirst(ps: seq<Piece>)
    requires ps != []
    ensures Spelled(ps) == PieceBytes(ps[0]) + Spelled(ps[1..])
  {
  }

  /** What stands at the front of the bytes when the first piece is known. */
  lemma FrontOfReading(ps: seq<Piece>, s: Bytes)
    requires Reading(ps, s) && ps != []
    ensures s != [] && |PieceBytes(ps[0])| <= |s| && s[|PieceBytes(ps[0])|..] == Spelled(ps[1..])
    ensures s[..|PieceBytes(ps[0])|] == PieceBytes(ps[0])
    ensures match ps[0]
            case Character(c) => CharLen(s) == |EncodeScalar(c)| && DecodeChar(s) == c
            case Stray(b) => CharLen(s) == 0 && s[0] == b
  {
    hide EncodeScalar, CharLen, Spelled, Reading, StartsNothing;
    ReadingRest(ps, s);
    match ps[0]
    case Character(c) => CharLenOfEncoded(c, Spelled(ps[1..]));
    case Stray(b) => StartsNothingIff(s);
  }

  /** All bytes have a reading. */
  lemma {:induction false} ReadingExists(s: Bytes) returns (ps: seq<Piece>)
    ensures Reading(ps, s)
    decreases |s|
  {
    hide EncodeScalar, CharLen, StartsNothing;
    if s == [] {
      ps := [];
    } else if CharLen(s) > 0 {
      var rest := ReadingExists(s[CharLen(s)..]);
      ps := ReadingPrepend(Character(DecodeChar(s)), rest, s[CharLen(s)..]);
      assert s == s[..CharLen(s)] + s[CharLen(s)..];
    } else {
      StartsNothingIff(s);
      var rest := ReadingExists(s[1..]);
      assert s == [s[0]] + s[1..];
      ps := ReadingPrepend(Stray(s[0]), rest, s[1..]);
    }
  }

  lemma ReadingPrepend(p: Piece, rest: seq<Piece>, s: Bytes) returns (ps: seq<Piece>)
    requires Reading(rest, s) && (p.Stray? ==> StartsNothing(PieceBytes(p) + s))
    ensures ps == [p] + rest && Reading(ps, PieceBytes(p) + s)
  {
    hide EncodeScalar, StartsNothing;
    ps := [p] + rest;
    assert ps[1..] == rest && ps[0..] == ps;
    forall i | 0 <= i < |ps| && ps[i].Stray? ensures StartsNothing(Spelled(ps[i..])) {
      if i > 0 { assert ps[i..] == rest[i - 1..] && rest[i - 1].Stray?; }
    }
  }

  /** And only one. */
  lemma {:induction false} ReadingIsOne(ps: seq<Piece>, qs: seq<Piece>, s: Bytes)
    requires Reading(ps, s) && Reading(qs, s)
    ensures ps == qs
  {
    hide EncodeScalar, CharLen, Spelled, Reading, StartsNothing;
    if ps == [] || qs == [] {
      SpelledEmpty(ps, s);
      SpelledEmpty(qs, s);
    } else {
      ReadingRest(ps, s);
      ReadingRest(qs, s);
      FrontOfReading(ps, s);
      FrontOfReading(qs, s);
      ReadingIsOne(ps[1..], qs[1..], Spelled(ps[1..]));
    }
  }

  lemma SpelledEmpty(ps: seq<Piece>, s: Bytes)
    requires Reading(ps, s)
    ensures s == [] <==> ps == []
  {
  }

  // ----- replace_non_utf8_chars -----

  /** The code points of a reading, with U+FFFD for each stray byte. */
  function Repaired(ps: seq<Piece>): (cs: seq<Scalar>)
  {
    if ps == [] then [] else [if ps[0].Character? then ps[0].c else 0xFFFD] + Repaired(ps[1..])
  }

  function Strays(ps: seq<Piece>): (n: nat)
  {
    if ps == [] then 0 else (if ps[0].Stray? then 1 else 0) + Strays(ps[1..])
  }

  lemma ReplacedFirst(s: Bytes)
    requires s != []
    ensures Replaced(s) == if CharLen(s) > 0 then s[..CharLen(s)] + Replaced(s[CharLen(s)..])
                           else REPLACEMENT + Replaced(s[1..])
  {
  }

  /** The result decodes to the characters of the text with U+FFFD in place of every stray byte;
      each of these makes it two bytes longer, and nothing is ever lost. */
  lemma {:induction false} ReplacedReads(ps: seq<Piece>, s: Bytes)
    requires Reading(ps, s)
    ensures WellFormed(Replaced(s)) && Decode(Replaced(s)) == Repaired(ps)
    ensures |Replaced(s)| == |s| + 2 * Strays(ps)
    decreases ps
  {
    hide EncodeScalar, CharLen, Spelled, Reading, StartsNothing, WellFormed;
    SpelledEmpty(ps, s);
    if ps == [] {
      EmptyIsWellFormed();
      assert Replaced([]) == [];
    } else {
      var rest := Spelled(ps[1..]);
      ReadingRest(ps, s);
      FrontOfReading(ps, s);
      ReplacedReads(ps[1..], rest);
      ReplacedFirst(s);
      match ps[0]
      case Character(c) => PrependScalar(c, Replaced(rest));
      case Stray(b) =>
        ReplacementSpelled();
        PrependScalar(0xFFFD, Replaced(rest));
    }
  }

  /** A stray byte behind well-formed text becomes U+FFFD, and the rest is replaced on its own. */
  lemma {:induction false} ReplacedAroundStray(a: Bytes, b: Byte, c: Bytes)
    requires WellFormed(a) && StartsNothing([b] + c)
    ensures WellFormed(Replaced(a + [b] + c)) && WellFormed(Replaced(c))
    ensures Decode(Replaced(a + [b] + c)) == Decode(a) + [0xFFFD] + Decode(Replaced(c))
    decreases |a|
  {
    hide EncodeScalar, CharLen, WellFormed, StartsNothing;
    ReplacedIsWellFormed(c);
    var s := a + [b] + c;
    if a == [] {
      EmptyIsWellFormed();
      assert s == [b] + c && s[1..] == c;
      StartsNothingIff(s);
      ReplacementSpelled();
      PrependScalar(0xFFFD, Replaced(c));
      assert Decode(a) + [0xFFFD] + Decode(Replaced(c)) == [0xFFFD] + Decode(Replaced(c));
    } else {
      WellFormedFront(a);
      var n := CharLen(a);
      var first, rest := DecodeChar(a), a[n..];
      ReplacedAroundStray(rest, b, c);
      CharLenOfEncoded(first, rest + [b] + c);
      assert s == EncodeScalar(first) + (rest + [b] + c) by { assert a == a[..n] + rest; }
      assert s[..n] == EncodeScalar(first) && s[n..] == rest + [b] + c;
      ReplacedFirst(s);
      PrependScalar(first, Replaced(rest + [b] + c));
      assert [first] + (Decode(rest) + [0xFFFD] + Decode(Replaced(c)))
          == ([first] + Decode(rest)) + [0xFFFD] + Decode(Replaced(c));
    }
  }

  // ----- append_utf8_sanitized -----

  const HEX_DIGITS := "0123456789ABCDEF"

  /** The byte in angle brackets, first its high digit, then its low one. */
  lemma ShownIs(b: Byte)
    ensures Shown(b) == ['<' as int, HEX_DIGITS[b / 16] as int, HEX_DIGITS[b % 16] as int, '>' as int]
  {
    DigitIs(b / 16);
    DigitIs(b % 16);
    hide HEX_DIGITS, Sanitizers.HexDigit;
  }

  lemma DigitIs(d: nat)
    requires d < 16
    ensures |HEX_DIGITS| == 16 && HEX_DIGITS[d] as int == Sanitizers.HexDigit(d)
  {
  }

  /** The code points that are passed on as they are. */
  predicate Passes(c: Scalar)
  {
    || 0x20 <= c <= 0x7E
    || 0x80 <= c <= 0x8C
    || (0xA0 <= c && !(0xFDD0 <= c <= 0xFDEF) && c % 0x10000 != 0xFFFE && c % 0x10000 != 0xFFFF)
  }

  function ShownAll(s: Bytes): (r: Bytes)
  {
    if s == [] then [] else Shown(s[0]) + ShownAll(s[1..])
  }

  /** Characters that pass are kept; of every other character and stray byte all bytes are shown. */
  function Presented(ps: seq<Piece>): (r: Bytes)
  {
    if ps == [] then []
    else (if ps[0].Character? && Passes(ps[0].c) then EncodeScalar(ps[0].c) else ShownAll(PieceBytes(ps[0])))
         + Presented(ps[1..])
  }

  lemma PassesIff(c: Scalar)
    ensures Passes(c) <==> IsPresentable(c)
  {
  }

  lemma SanitizedFirst(s: Bytes)
    requires s != []
    ensures Sanitized(s) == if FrontKept(s) then s[..CharLen(s)] + Sanitized(s[CharLen(s)..])
                            else Shown(s[0]) + Sanitized(s[1..])
  {
  }

  lemma ContinuationStartsNothing(s: Bytes)
    requires s != [] && IsContinuation(s[0])
    ensures CharLen(s) == 0
  {
  }

  /** Continuation bytes at the front are shown one by one. */
  lemma {:induction false} ContinuationsShown(t: Bytes, rest: Bytes)
    requires forall i | 0 <= i < |t| :: IsContinuation(t[i])
    ensures Sanitized(t + rest) == ShownAll(t) + Sanitized(rest)
  {
    hide CharLen, Shown, IsContinuation, FrontKept;
    if t == [] {
      assert t + rest == rest;
    } else {
      var s := t + rest;
      ContinuationStartsNothing(s);
      NotKept(s);
      SanitizedFirst(s);
      assert s[1..] == t[1..] + rest;
      ContinuationsShown(t[1..], rest);
      Sanitizers.Regroup(Shown(t[0]), ShownAll(t[1..]), Sanitized(rest));
    }
  }

  lemma NotKept(s: Bytes)
    requires s != [] && CharLen(s) == 0
    ensures !FrontKept(s)
  {
  }

  lemma EncodedTail(c: Scalar)
    ensures var e := EncodeScalar(c); forall i | 1 <= i < |e| :: IsContinuation(e[i])
  {
    if c >= 0x80 {
      EncodedBytes(c);
      ValidPrefixMeansRfc3629(EncodeScalar(c)[0], EncodeScalar(c)[1]);
    }
  }

  /** A character that does not pass is shown as all its bytes. */
  lemma RejectedShown(c: Scalar, rest: Bytes)
    requires !Passes(c)
    ensures Sanitized(EncodeScalar(c) + rest) == ShownAll(EncodeScalar(c)) + Sanitized(rest)
  {
    hide EncodeScalar, CharLen, Shown, IsContinuation, Passes, IsPresentable;
    var e := EncodeScalar(c);
    var s := e + rest;
    CharLenOfEncoded(c, rest);
    PassesIff(c);
    SanitizedFirst(s);
    EncodedTail(c);
    assert s[0] == e[0] && s[1..] == e[1..] + rest;
    ContinuationsShown(e[1..], rest);
    Sanitizers.Regroup(Shown(e[0]), ShownAll(e[1..]), Sanitized(rest));
  }

  /** What is appended for any bytes. */
  lemma {:induction false} SanitizedReads(ps: seq<Piece>, s: Bytes)
    requires Reading(ps, s)
    ensures Sanitized(s) == Presented(ps)
    decreases ps
  {
    hide EncodeScalar, CharLen, Spelled, Reading, StartsNothing, Shown, Passes, IsPresentable;
    SpelledEmpty(ps, s);
    if ps == [] {
      assert Sanitized([]) == [];
    } else {
      var rest := Spelled(ps[1..]);
      ReadingRest(ps, s);
      FrontOfReading(ps, s);
      SanitizedReads(ps[1..], rest);
      SanitizedFirst(s);
      match ps[0]
      case Character(c) =>
        PassesIff(c);
        if !Passes(c) { RejectedShown(c, rest); }
      case Stray(b) => OneShown(b);
    }
  }

  lemma OneShown(b: Byte)
    ensures ShownAll([b]) == Shown(b)
  {
    assert [b][1..] == [] && ShownAll([]) == [];
  }
}

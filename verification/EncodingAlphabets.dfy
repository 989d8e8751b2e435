/** What the percent-encoders write, character by character, in terms of the alphabets that
    utils/src/encoding.cpp lists, and what an encoded text stands for. */
module EncodingAlphabets {
  import opened Basics
  import opened Utf8
  import opened Encoding
  import opened EncodingLaws

  // ----- the alphabets -----

  const LOWER := "abcdefghijklmnopqrstuvwxyz"
  const UPPER := "ABCDEFGHIJKLMNOPQRSTUVWXYZ"
  const DIGITS := "0123456789"
  const HEX := "0123456789ABCDEF"
  const COMPONENT_MARKS := "-._~"
  const PATH_MARKS := "-._~/*?"

  /** A letter or digit of the alphabets, or one of the marks. */
  predicate IsOneOf(c: char, marks: string)
  {
    c in LOWER || c in UPPER || c in DIGITS || c in marks
  }

  lemma LowerAt(i: nat)
    requires i < 26
    ensures |LOWER| == 26 && LOWER[i] as int == i + 'a' as int
  {
  }

  lemma UpperAt(i: nat)
    requires i < 26
    ensures |UPPER| == 26 && UPPER[i] as int == i + 'A' as int
  {
  }

  lemma HexAt(i: nat)
    requires i < 16
    ensures |HEX| == 16 && HEX[i] == HexDigit(i)
  {
  }

  lemma LowerIs(c: char)
    ensures c in LOWER <==> 'a' <= c <= 'z'
  {
    hide LOWER;
    LowerAt(0);
    if 'a' <= c <= 'z' { LowerAt(c as int - 'a' as int); }
    if c in LOWER {
      var i :| 0 <= i < |LOWER| && LOWER[i] == c;
      LowerAt(i);
    }
  }

  lemma UpperIs(c: char)
    ensures c in UPPER <==> 'A' <= c <= 'Z'
  {
    hide UPPER;
    UpperAt(0);
    if 'A' <= c <= 'Z' { UpperAt(c as int - 'A' as int); }
    if c in UPPER {
      var i :| 0 <= i < |UPPER| && UPPER[i] == c;
      UpperAt(i);
    }
  }

  lemma DigitIs(c: char)
    ensures c in DIGITS <==> '0' <= c <= '9'
  {
    if '0' <= c <= '9' { assert DIGITS[c as int - '0' as int] == c; }
  }

  lemma MarkIs(c: char)
    ensures c in COMPONENT_MARKS <==> c == '-' || c == '.' || c == '_' || c == '~'
    ensures c in PATH_MARKS <==> c in COMPONENT_MARKS || c == '/' || c == '*' || c == '?'
  {
  }

  function Marks(keepPath: bool): string { if keepPath then PATH_MARKS else COMPONENT_MARKS }

  lemma KeptIsListed(c: char, keepPath: bool)
    ensures IsOneOf(c, Marks(keepPath)) <==> if keepPath then IsTolerable(c) else IsUnreserved(c)
  {
    hide LOWER, UPPER, DIGITS, COMPONENT_MARKS, PATH_MARKS;
    LowerIs(c);
    UpperIs(c);
    DigitIs(c);
    MarkIs(c);
  }

  lemma EscapeDigits(c: char, b: Byte)
    requires c as int == b
    ensures Escape(c) == ['%', HEX[b / 16], HEX[b % 16]]
  {
    EscapeIs(c, b);
    HexAt(b / 16);
    HexAt(b % 16);
    hide HEX, HexDigit, Escape;
  }

  lemma EscapeIs(c: char, b: Byte)
    requires c as int == b
    ensures Escape(c) == ['%', HexDigit(b / 16), HexDigit(b % 16)]
  {
    hide HexDigit;
    assert c as int % 256 == b;
  }

  /** Exactly the listed characters are kept, and every other byte becomes `%` with its two
      hexadecimal digits in upper case. */
  lemma PushedChar(c: char, keepPath: bool)
    ensures IsOneOf(c, Marks(keepPath)) ==> UriChar(c, keepPath) == [c]
    ensures !IsOneOf(c, Marks(keepPath)) && (c as int) < 256 ==>
              UriChar(c, keepPath) == ['%', HEX[c as int / 16], HEX[c as int % 16]]
  {
    hide HEX, IsOneOf, Escape;
    KeptIsListed(c, keepPath);
    if (c as int) < 256 { EscapeDigits(c, c as int); }
  }

  // ----- percent_encode_component and percent_encode_path -----

  /** What the laws say of the characters of an encoded text: only listed ones and `%`, which is
      followed by two digits in upper case. */
  predicate InAlphabet(r: string, marks: string)
  {
    forall i | 0 <= i < |r| ::
      IsOneOf(r[i], marks) || (r[i] == '%' && i + 2 < |r| && r[i + 1] in HEX && r[i + 2] in HEX)
  }

  lemma HexIsListed(c: char, marks: string)
    requires c in HEX
    ensures IsOneOf(c, marks)
  {
    var i :| 0 <= i < |HEX| && HEX[i] == c;
    HexAt(i);
    hide HEX, LOWER, UPPER, DIGITS;
    UpperIs(c);
    DigitIs(c);
  }

  lemma PieceInAlphabet(c: char, keepPath: bool)
    requires (c as int) < 256
    ensures InAlphabet(UriChar(c, keepPath), Marks(keepPath))
  {
    hide LOWER, UPPER, DIGITS, COMPONENT_MARKS, PATH_MARKS, Marks, UriChar, IsOneOf;
    PushedChar(c, keepPath);
    if !IsOneOf(c, Marks(keepPath)) {
      DigitPairInAlphabet(HEX[c as int / 16], HEX[c as int % 16], Marks(keepPath));
    }
  }

  lemma DigitPairInAlphabet(hi: char, lo: char, marks: string)
    requires hi in HEX && lo in HEX
    ensures InAlphabet(['%', hi, lo], marks)
  {
    HexIsListed(hi, marks);
    HexIsListed(lo, marks);
    hide HEX, IsOneOf;
    var r := ['%', hi, lo];
    forall i | 0 <= i < |r|
      ensures IsOneOf(r[i], marks) || (r[i] == '%' && i + 2 < |r| && r[i + 1] in HEX && r[i + 2] in HEX)
    {
      assert i == 0 || i == 1 || i == 2;
    }
  }

  lemma AlphabetAppend(a: string, b: string, marks: string)
    requires InAlphabet(a, marks) && InAlphabet(b, marks)
    ensures InAlphabet(a + b, marks)
  {
    hide HEX, IsOneOf;
    var r := a + b;
    forall i | 0 <= i < |r|
      ensures IsOneOf(r[i], marks) || (r[i] == '%' && i + 2 < |r| && r[i + 1] in HEX && r[i + 2] in HEX)
    {
      if i >= |a| { assert r[i] == b[i - |a|]; }
    }
  }

  /** Whatever is encoded, only listed characters and groups in upper case come out. */
  lemma {:induction false} EncodedInAlphabet(s: string, keepPath: bool)
    requires IsByteString(s)
    ensures InAlphabet(EncodedBytewise(s, keepPath), Marks(keepPath))
  {
    hide InAlphabet, UriChar;
    if s == "" {
      EmptyInAlphabet(Marks(keepPath));
    } else {
      var c := if keepPath then Slashed(s[0]) else s[0];
      EncodedInAlphabet(s[1..], keepPath);
      PieceInAlphabet(c, keepPath);
      AlphabetAppend(UriChar(c, keepPath), EncodedBytewise(s[1..], keepPath), Marks(keepPath));
    }
  }

  lemma EmptyInAlphabet(marks: string)
    ensures InAlphabet("", marks)
  {
  }

  /** A component that was encoded is one segment of a path, and no part of a query, a fragment
      or an authority begins in it. */
  lemma ComponentIsSegment(s: string)
    requires IsByteString(s)
    ensures var r := EncodedBytewise(s, false);
            '/' !in r && '\\' !in r && '?' !in r && '*' !in r && '#' !in r && ':' !in r && '@' !in r
  {
    var r := EncodedBytewise(s, false);
    EncodedInAlphabet(s, false);
    hide EncodedBytewise, HEX;
    forall i | 0 <= i < |r| ensures r[i] != '/' && r[i] != '\\' && r[i] != '?' && r[i] != '*'
                                    && r[i] != '#' && r[i] != ':' && r[i] != '@'
    {
      NoDelimiter(r[i]);
    }
  }

  lemma NoDelimiter(c: char)
    requires IsOneOf(c, COMPONENT_MARKS) || c == '%'
    ensures c != '/' && c != '\\' && c != '?' && c != '*' && c != '#' && c != ':' && c != '@'
  {
    hide LOWER, UPPER, DIGITS, COMPONENT_MARKS, PATH_MARKS;
    LowerIs(c);
    UpperIs(c);
    DigitIs(c);
    MarkIs(c);
  }

  predicate AllListed(s: string, marks: string)
  {
    forall i | 0 <= i < |s| :: IsOneOf(s[i], marks)
  }

  lemma {:induction false} BytewiseGrows(s: string, keepPath: bool)
    ensures |EncodedBytewise(s, keepPath)| >= |s|
  {
    if s != "" { BytewiseGrows(s[1..], keepPath); }
  }

  lemma PieceLength(c: char, keepPath: bool)
    requires (c as int) < 256
    ensures if IsOneOf(c, Marks(keepPath)) then UriChar(c, keepPath) == [c] else |UriChar(c, keepPath)| == 3
  {
    hide HEX, IsOneOf, UriChar;
    PushedChar(c, keepPath);
  }

  /** The text as the encoder looks at it. */
  function Seen(s: string, keepPath: bool): (r: string)
    ensures |r| == |s|
  {
    if keepPath then Slashes(s) else s
  }

  lemma SeenCons(s: string, keepPath: bool)
    requires s != ""
    ensures Seen(s, keepPath) == [if keepPath then Slashed(s[0]) else s[0]] + Seen(s[1..], keepPath)
  {
    if keepPath { SlashesCons(s); }
  }

  /** Encoding leaves exactly the texts of listed characters alone; in a path a backslash counts
      as the slash it becomes. */
  lemma {:induction false} EncodedUnchangedIff(s: string, keepPath: bool)
    requires IsByteString(s)
    ensures EncodedBytewise(s, keepPath) == Seen(s, keepPath) <==> AllListed(Seen(s, keepPath), Marks(keepPath))
  {
    hide UriChar, Marks, IsOneOf, Seen;
    if s != "" {
      var c := if keepPath then Slashed(s[0]) else s[0];
      var tail := EncodedBytewise(s[1..], keepPath);
      EncodedUnchangedIff(s[1..], keepPath);
      SeenCons(s, keepPath);
      PieceLength(c, keepPath);
      BytewiseGrows(s[1..], keepPath);
      ListedCons(c, Seen(s[1..], keepPath), Marks(keepPath));
      if IsOneOf(c, Marks(keepPath)) { CancelFront([c], tail, Seen(s[1..], keepPath)); }
    }
  }

  lemma ListedCons(c: char, s: string, marks: string)
    ensures AllListed([c] + s, marks) <==> IsOneOf(c, marks) && AllListed(s, marks)
  {
    hide IsOneOf;
    var t := [c] + s;
    if AllListed(t, marks) {
      assert t[0] == c && forall i | 0 <= i < |s| :: s[i] == t[i + 1];
    }
  }

  // ----- percent_encode_path_and_ignore_utf8 -----

  function AsChars(b: Bytes): (s: string)
    ensures |s| == |b|
  {
    seq(|b|, i requires 0 <= i < |b| => b[i] as char)
  }

  /** What a text stands for: the bytes of the characters that are spelled in groups, and every
      other byte itself, a backslash as a slash. */
  function Meant(s: string): (r: string)
    decreases |s|
  {
    if s == "" then ""
    else if CharLen(Groups(s)) > 0
    then AsChars(Groups(s)[..CharLen(Groups(s))]) + Meant(s[3 * CharLen(Groups(s))..])
    else [if s[0] == '\\' then '/' else s[0]] + Meant(s[1..])
  }

  /** Spelled groups in front of a text decode to the bytes they spell. */
  lemma {:induction false} GroupsDecode(s: string, n: nat, x: string)
    requires n <= |Groups(s)| && 3 * n <= |s| && Decodable(x)
    ensures Decodable(Upper(s[..3 * n]) + x)
    ensures Chars(Upper(s[..3 * n]) + x) == AsChars(Groups(s)[..n]) + Chars(x)
    decreases n
  {
    hide Groups, Upper, ToUpper, HexByte, Chars, Decodable;
    if n == 0 {
      UpperOfNothing();
      assert s[..0] == "" && "" + x == x;
      assert AsChars(Groups(s)[..0]) + Chars(x) == Chars(x);
    } else {
      UpperFirstGroup(s, n);
      var head, tail := ['%', ToUpper(s[1]), ToUpper(s[2])], Upper(s[3..][..3 * (n - 1)]);
      GroupsDecode(s[3..], n - 1, x);
      DecodeTriple(ToUpper(s[1]), ToUpper(s[2]), Groups(s)[0], tail + x);
      Encoding.Regroup(head, tail, x);
      AsCharsCons(Groups(s)[0], Groups(s[3..]), n);
      Encoding.Regroup([Groups(s)[0] as char], AsChars(Groups(s[3..])[..n - 1]), Chars(x));
    }
  }

  lemma AsCharsCons(b: Byte, g: Bytes, n: nat)
    requires 1 <= n <= |g| + 1
    ensures AsChars(([b] + g)[..n]) == [b as char] + AsChars(g[..n - 1])
  {
  }

  lemma MeantFirst(s: string)
    requires s != ""
    ensures EncodedSize(s) > 0 ==>
              Meant(s) == AsChars(Groups(s)[..EncodedSize(s)]) + Meant(s[3 * EncodedSize(s)..])
    ensures EncodedSize(s) == 0 ==> Meant(s) == [Slashed(s[0])] + Meant(s[1..])
  {
  }

  lemma NothingMeant()
    ensures Meant("") == ""
  {
  }

  /** An encoded text decodes to what the original stands for. */
  lemma {:induction false} EncodingKeepsMeaning(s: string)
    requires IsByteString(s)
    ensures Decodable(Encoded(s)) && Chars(Encoded(s)) == Meant(s)
    decreases |s|
  {
    hide Groups, EncodedSize, Upper, UriChar, Chars, Decodable, AsChars, Meant, Encoded;
    if s == "" {
      EncodedEmpty();
      NothingDecodes();
      NothingMeant();
    } else {
      var k, piece := EncodedFirst(s);
      EncodingKeepsMeaning(s[k..]);
      MeantFirst(s);
      if EncodedSize(s) > 0 {
        GroupsDecode(s, EncodedSize(s), Encoded(s[k..]));
      } else {
        DecodePushed(Slashed(s[0]), true, Encoded(s[1..]));
      }
    }
  }

  lemma UpperDigitListed(c: char)
    requires HexValue(c).Some?
    ensures ToUpper(c) in HEX
  {
    HexAt(HexValue(c).value);
    hide HEX;
  }

  lemma {:induction false} UpperInAlphabet(s: string, n: nat, marks: string)
    requires n <= |Groups(s)| && 3 * n <= |s|
    ensures InAlphabet(Upper(s[..3 * n]), marks)
    decreases n
  {
    hide Groups, Upper, ToUpper, HexValue, InAlphabet;
    if n == 0 {
      UpperOfNothing();
      EmptyInAlphabet(marks);
      assert s[..0] == "";
    } else {
      UpperFirstGroup(s, n);
      GroupsFront(s);
      UpperInAlphabet(s[3..], n - 1, marks);
      UpperDigitListed(s[1]);
      UpperDigitListed(s[2]);
      DigitPairInAlphabet(ToUpper(s[1]), ToUpper(s[2]), marks);
      AlphabetAppend(['%', ToUpper(s[1]), ToUpper(s[2])], Upper(s[3..][..3 * (n - 1)]), marks);
    }
  }

  /** It holds only what a path may hold unencoded, and groups in upper case. */
  lemma {:induction false} EncodedPathInAlphabet(s: string)
    requires IsByteString(s)
    ensures InAlphabet(Encoded(s), PATH_MARKS)
    decreases |s|
  {
    hide Groups, EncodedSize, Upper, UriChar, InAlphabet, Encoded;
    if s == "" {
      EncodedEmpty();
      EmptyInAlphabet(PATH_MARKS);
    } else {
      var k, piece := EncodedFirst(s);
      EncodedPathInAlphabet(s[k..]);
      if EncodedSize(s) > 0 {
        EncodedSizeFits(s);
        UpperInAlphabet(s, EncodedSize(s), PATH_MARKS);
      } else {
        PieceInAlphabet(Slashed(s[0]), true);
      }
      AlphabetAppend(piece, Encoded(s[k..]), PATH_MARKS);
    }
  }

  lemma EncodedSizeFits(s: string)
    ensures EncodedSize(s) <= |Groups(s)| && 3 * EncodedSize(s) <= |s|
  {
  }

  /** Without a `%` nothing is spelled, and the text is encoded byte by byte. */
  lemma {:induction false} EncodedWithoutGroups(s: string)
    requires '%' !in s
    ensures Encoded(s) == EncodedBytewise(s, true)
  {
    hide UriChar, Upper;
    if s != "" {
      NoGroup(s);
      EncodedWithoutGroups(s[1..]);
    }
  }

  /** Every well-formed text that is spelled out in groups is kept as it is. */
  lemma {:induction false} SpelledIsKept(t: string)
    requires IsByteString(t) && WellFormed(AsBytes(t))
    ensures Encoded(Escapes(t)) == Escapes(t)
    decreases |t|
  {
    hide Encoded, Escapes, CharLen;
    if t == "" {
      EncodedEmpty();
      EscapesEmpty();
    } else {
      WellFormedFront(AsBytes(t));
      var n := CharLen(AsBytes(t));
      AsBytesFront(t, n);
      CharLenOfPrefix(AsBytes(t), n, []);
      assert AsBytes(t[..n]) + [] == AsBytes(t[..n]);
      SpelledIsKept(t[n..]);
      EscapesAgain(t[..n], Escapes(t[n..]));
      EscapesSplit(t, n);
    }
  }

  lemma EscapesEmpty()
    ensures Escapes("") == ""
  {
  }

  lemma {:induction false} EscapesSplit(t: string, n: nat)
    requires n <= |t|
    ensures Escapes(t) == Escapes(t[..n]) + Escapes(t[n..])
    decreases n
  {
    if n == 0 {
      assert t[..0] == "" && t[0..] == t && "" + Escapes(t) == Escapes(t);
    } else {
      EscapesSplit(t[1..], n - 1);
      assert t[..n][0] == t[0] && t[..n][1..] == t[1..][..n - 1] && t[n..] == t[1..][n - 1..];
      Encoding.Regroup(Escape(t[0]), Escapes(t[1..][..n - 1]), Escapes(t[n..]));
    }
  }

  // ----- percent_decode -----

  const LOWER_HEX := "0123456789abcdef"

  lemma LowerHexAt(i: nat)
    requires i < 16
    ensures |LOWER_HEX| == 16 && HexValue(LOWER_HEX[i]) == Some(i)
  {
  }

  /** The digits of both cases, and their values. */
  lemma HexValueIs(c: char)
    ensures HexValue(c).Some? <==> c in HEX || c in LOWER_HEX
    ensures forall i | 0 <= i < 16 :: HexValue(HEX[i]) == Some(i) && HexValue(LOWER_HEX[i]) == Some(i)
  {
    HexAt(0);
    LowerHexAt(0);
    forall i | 0 <= i < 16 ensures HexValue(HEX[i]) == Some(i) && HexValue(LOWER_HEX[i]) == Some(i) {
      HexAt(i);
      LowerHexAt(i);
    }
    if HexValue(c).Some? { DigitOfValue(c); }
    hide HEX, LOWER_HEX, HexValue;
    if c in HEX {
      var i :| 0 <= i < |HEX| && HEX[i] == c;
    } else if c in LOWER_HEX {
      var i :| 0 <= i < |LOWER_HEX| && LOWER_HEX[i] == c;
    }
  }

  lemma DigitOfValue(c: char)
    requires HexValue(c).Some?
    ensures c in HEX || c in LOWER_HEX
  {
    var v := HexValue(c).value;
    HexAt(v);
    LowerHexSpelled(v);
    hide HEX, LOWER_HEX;
  }

  lemma LowerHexSpelled(v: nat)
    requires v < 16
    ensures |LOWER_HEX| == 16
    ensures LOWER_HEX[v] as int == if v < 10 then '0' as int + v else 'a' as int + v - 10
  {
  }

  /** A `%` that is followed by two digits. */
  predicate GroupAt(s: string, i: nat)
    requires i < |s|
  {
    i + 2 < |s| && (s[i + 1] in HEX || s[i + 1] in LOWER_HEX) && (s[i + 2] in HEX || s[i + 2] in LOWER_HEX)
  }

  predicate AllGrouped(s: string)
  {
    forall i | 0 <= i < |s| && s[i] == '%' :: GroupAt(s, i)
  }

  /** Decoding fails exactly if some `%` is not followed by two digits. */
  lemma {:induction false} DecodableIff(s: string)
    ensures Decodable(s) <==> AllGrouped(s)
    decreases |s|
  {
    hide HEX, LOWER_HEX, HexValue;
    if s == "" {
    } else if s[0] != '%' {
      DecodableIff(s[1..]);
      GroupedRest(s, 1);
    } else {
      GroupDecodes(s);
      if |s| >= 3 {
        HexValueIs(s[1]);
        HexValueIs(s[2]);
        PercentIsNoDigit();
        DecodableIff(s[3..]);
        GroupedRest(s, 3);
      }
    }
  }

  lemma PercentIsNoDigit()
    ensures '%' !in HEX && '%' !in LOWER_HEX
  {
  }

  lemma GroupedRest(s: string, n: nat)
    requires n <= |s|
    ensures AllGrouped(s[n..]) <==> forall i | n <= i < |s| && s[i] == '%' :: GroupAt(s, i)
  {
    hide HEX, LOWER_HEX;
    var r := s[n..];
    assert forall i | 0 <= i < |r| :: r[i] == s[n + i] && (GroupAt(r, i) <==> GroupAt(s, n + i));
    if AllGrouped(r) {
      forall i | n <= i < |s| && s[i] == '%' ensures GroupAt(s, i) { assert GroupAt(r, i - n); }
    }
  }
}

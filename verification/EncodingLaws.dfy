/** Laws of percent-coding: when encoding twice equals encoding once, and decoding as the
    inverse of encoding. */
module EncodingLaws {
  import opened Basics
  import opened Utf8
  import opened Encoding

  // ----- groups of concatenated texts -----

  lemma GroupsOfTriple(hi: char, lo: char, x: string)
    requires HexByte(hi, lo).Some?
    ensures Groups(['%', hi, lo] + x) == [HexByte(hi, lo).value] + Groups(x)
  {
    var s := ['%', hi, lo] + x;
    assert s[3..] == x;
    assert Group(s, 0) == HexByte(hi, lo);
  }

  lemma EscapeForm(c: char) returns (hi: char, lo: char)
    requires (c as int) < 256
    ensures Escape(c) == ['%', hi, lo] && HexByte(hi, lo) == Some(c as int)
  {
    var b: Byte := c as int;
    DigitsOfByte(b);
    hi, lo := HexDigit(b / 16), HexDigit(b % 16);
    assert c as int % 256 == b;
  }

  lemma GroupsOfEscape(c: char, x: string)
    requires (c as int) < 256
    ensures Groups(Escape(c) + x) == [c as int] + Groups(x)
  {
    var hi, lo := EscapeForm(c);
    GroupsOfTriple(hi, lo, x);
  }

  lemma UpperOfEscape(c: char)
    ensures Upper(Escape(c)) == Escape(c)
  {
    assert ToUpper('%') == '%';
  }

  lemma UpperFirstGroup(s: string, n: nat)
    requires 1 <= n <= |Groups(s)|
    ensures 3 * n <= |s|
    ensures Upper(s[..3 * n]) == ['%', ToUpper(s[1]), ToUpper(s[2])] + Upper(s[3..][..3 * (n - 1)])
    ensures HexByte(ToUpper(s[1]), ToUpper(s[2])) == Some(Groups(s)[0])
    ensures Groups(s) == [Groups(s)[0]] + Groups(s[3..])
  {
    GroupsFront(s);
    hide Groups, HexByte, ToUpper, Upper;
    var rest := s[3..][..3 * (n - 1)];
    SplitTriple(s, 3 * n);
    UpperAppend(s[..3], rest);
    UpperOfTriple(s);
    UpperHex(s[1], s[2]);
  }

  lemma SplitTriple(s: string, m: nat)
    requires 3 <= m <= |s|
    ensures s[..m] == s[..3] + s[3..][..m - 3]
  {
  }

  lemma GroupsFront(s: string)
    requires Groups(s) != []
    ensures |s| >= 3 && s[0] == '%' && HexByte(s[1], s[2]) == Some(Groups(s)[0])
    ensures Groups(s) == [Groups(s)[0]] + Groups(s[3..])
  {
    hide HexByte;
  }

  lemma UpperOfTriple(s: string)
    requires |s| >= 3 && s[0] == '%'
    ensures Upper(s[..3]) == ['%', ToUpper(s[1]), ToUpper(s[2])]
  {
  }

  lemma UpperHex(hi: char, lo: char)
    ensures HexByte(ToUpper(hi), ToUpper(lo)) == HexByte(hi, lo)
  {
    hide HexValue, ToUpper;
  }

  /** Putting one more group in front. */
  lemma GroupsStep(head: string, tail: string, x: string, b: Byte, a: Bytes, g: Bytes)
    requires Groups(head + (tail + x)) == [b] + Groups(tail + x)
    requires Groups(tail + x) == a + g
    ensures Groups((head + tail) + x) == ([b] + a) + g
  {
    Encoding.Regroup(head, tail, x);
  }

  /** Upper-casing spelled groups keeps the bytes they spell. */
  lemma {:induction false} GroupsOfUpper(s: string, n: nat, x: string)
    requires n <= |Groups(s)|
    ensures 3 * n <= |s| && Groups(Upper(s[..3 * n]) + x) == Groups(s)[..n] + Groups(x)
    decreases n
  {
    hide Groups, Upper, ToUpper, HexByte;
    if n == 0 {
      UpperOfNothing();
      assert s[..0] == "" && "" + x == x;
    } else {
      UpperFirstGroup(s, n);
      var head, tail := ['%', ToUpper(s[1]), ToUpper(s[2])], Upper(s[3..][..3 * (n - 1)]);
      GroupsOfUpper(s[3..], n - 1, x);
      GroupsOfTriple(ToUpper(s[1]), ToUpper(s[2]), tail + x);
      GroupsStep(head, tail, x, Groups(s)[0], Groups(s[3..])[..n - 1], Groups(x));
      assert Groups(s)[..n] == [Groups(s)[0]] + Groups(s[3..])[..n - 1];
    }
  }

  /** The length of the front character depends on its own bytes only. */
  lemma CharLenOfPrefix(g: Bytes, n: nat, rest: Bytes)
    requires n == CharLen(g) > 0
    ensures CharLen(g[..n] + rest) == n
  {
    CharLenOfEncoded(DecodeChar(g), rest);
  }

  // ----- one step of the second pass -----

  lemma UpperTwice(s: string)
    ensures Upper(Upper(s)) == Upper(s)
  {
  }

  /** A kept character is kept again. */
  lemma KeptAgain(s: string, x: string)
    requires EncodedSize(s) > 0
    ensures var u := Upper(s[..3 * EncodedSize(s)]); Encoded(u + x) == u + Encoded(x)
  {
    var n := EncodedSize(s);
    var u := Upper(s[..3 * n]);
    GroupsOfUpper(s, n, x);
    CharLenOfPrefix(Groups(s), n, Groups(x));
    assert (u + x)[..3 * n] == u && (u + x)[3 * n..] == x;
    UpperTwice(s[..3 * n]);
  }

  lemma NoGroup(s: string)
    requires s != "" && s[0] != '%'
    ensures EncodedSize(s) == 0
  {
    assert Group(s, 0) == None;
  }

  /** A pushed ASCII character is reproduced by the second pass. */
  lemma PushedAgain(c: char, x: string)
    requires (c as int) < 128 && c != '\\'
    ensures Encoded(UriChar(c, true) + x) == UriChar(c, true) + Encoded(x)
  {
    var p := UriChar(c, true);
    var s := p + x;
    if IsTolerable(c) {
      NoGroup(s);
      assert s[1..] == x;
    } else {
      GroupsOfEscape(c, x);
      UpperOfEscape(c);
      assert CharLen(Groups(s)) == 1;
      assert s[..3] == p && s[3..] == x;
    }
  }

  // ----- runs of raw bytes -----

  function Escapes(t: string): (r: string)
    ensures |r| == 3 * |t|
  {
    if t == "" then "" else Escape(t[0]) + Escapes(t[1..])
  }

  lemma AsBytesCons(t: string)
    requires IsByteString(t) && t != ""
    ensures AsBytes(t) == [t[0] as int] + AsBytes(t[1..])
  {
  }

  lemma {:induction false} GroupsOfEscapes(t: string, x: string)
    requires IsByteString(t)
    ensures Groups(Escapes(t) + x) == AsBytes(t) + Groups(x)
  {
    if t == "" {
      assert Escapes(t) + x == x;
    } else {
      var head, tail := Escape(t[0]), Escapes(t[1..]);
      GroupsOfEscapes(t[1..], x);
      GroupsOfEscape(t[0], tail + x);
      GroupsStep(head, tail, x, t[0] as int, AsBytes(t[1..]), Groups(x));
      AsBytesCons(t);
    }
  }

  lemma {:induction false} UpperOfEscapes(t: string)
    ensures Upper(Escapes(t)) == Escapes(t)
  {
    if t != "" {
      UpperOfEscape(t[0]);
      UpperOfEscapes(t[1..]);
      UpperAppend(Escape(t[0]), Escapes(t[1..]));
    }
  }

  /** A raw byte of a non-ASCII character is escaped. */
  lemma RawStep(s: string)
    requires s != "" && s[0] as int >= 128
    ensures Encoded(s) == Escape(s[0]) + Encoded(s[1..])
  {
    NoGroup(s);
    assert !IsTolerable(s[0]);
  }

  /** Raw bytes of non-ASCII characters are escaped one by one. */
  lemma {:induction false} EncodedRaw(t: string, rest: string)
    requires forall i | 0 <= i < |t| :: t[i] as int >= 128
    ensures Encoded(t + rest) == Escapes(t) + Encoded(rest)
  {
    if t == "" {
      assert t + rest == rest;
    } else {
      RawStep(t + rest);
      assert (t + rest)[1..] == t[1..] + rest;
      EncodedRaw(t[1..], rest);
      Encoding.Regroup(Escape(t[0]), Escapes(t[1..]), Encoded(rest));
    }
  }

  lemma {:induction false} EncodedGrows(s: string)
    ensures |Encoded(s)| >= |s|
    decreases |s|
  {
    if s != "" {
      if EncodedSize(s) > 0 { EncodedGrows(s[3 * EncodedSize(s)..]); } else { EncodedGrows(s[1..]); }
    }
  }

  /** A continuation byte at the front of the output is a raw one of the input. */
  lemma FirstEscapedIsRaw(t: string)
    requires IsByteString(t) && Groups(Encoded(t)) != [] && IsContinuation(Groups(Encoded(t))[0])
    ensures t != "" && Groups(Encoded(t)) == [t[0] as int] + Groups(Encoded(t[1..]))
  {
    hide Groups, IsContinuation, Upper;
    if t == "" {
      EncodedEmpty();
      NoGroups();
    } else if EncodedSize(t) > 0 {
      KeptCharIsNoContinuation(t);
    } else {
      var k, piece := EncodedFirst(t);
      if IsTolerable(Slashed(t[0])) {
        NoGroup(Encoded(t));
        NoGroupsWithout(Encoded(t));
      } else {
        GroupsOfEscape(t[0], Encoded(t[1..]));
      }
    }
  }

  lemma NoGroups()
    ensures Groups("") == []
  {
  }

  lemma NoGroupsWithout(s: string)
    requires Group(s, 0) == None
    ensures Groups(s) == []
  {
  }

  lemma KeptCharIsNoContinuation(t: string)
    requires EncodedSize(t) > 0
    ensures Groups(Encoded(t)) != [] && !IsContinuation(Groups(Encoded(t))[0])
  {
    GroupsOfUpper(t, EncodedSize(t), Encoded(t[3 * EncodedSize(t)..]));
    assert Groups(Encoded(t))[0] == Groups(t)[0];
  }

  /** Escaped continuation bytes at the front of the output come from raw ones of the input. */
  lemma {:induction false} ContinuationsComeFromRaw(t: string, k: nat)
    requires IsByteString(t) && k <= |Groups(Encoded(t))|
    requires forall i | 0 <= i < k :: IsContinuation(Groups(Encoded(t))[i])
    ensures k <= |t| && AsBytes(t)[..k] == Groups(Encoded(t))[..k]
    decreases k
  {
    if k > 0 {
      hide Groups, Encoded, AsBytes, IsContinuation;
      var g, h := Groups(Encoded(t)), Groups(Encoded(t[1..]));
      FirstEscapedIsRaw(t);
      RestContinues(t[0] as int, g, h, k);
      ContinuationsComeFromRaw(t[1..], k - 1);
      ConsTake(t[0] as int, AsBytes(t[1..]), h, k);
      AsBytesCons(t);
    }
  }

  lemma RestContinues(b: Byte, g: Bytes, h: Bytes, k: nat)
    requires g == [b] + h && 1 <= k <= |g| && forall i | 0 <= i < k :: IsContinuation(g[i])
    ensures k - 1 <= |h| && forall i | 0 <= i < k - 1 :: IsContinuation(h[i])
  {
    forall i | 0 <= i < k - 1 ensures IsContinuation(h[i]) { assert h[i] == g[i + 1]; }
  }

  lemma ConsTake(b: Byte, u: Bytes, v: Bytes, k: nat)
    requires 1 <= k <= |u| + 1 && k <= |v| + 1 && u[..k - 1] == v[..k - 1]
    ensures ([b] + u)[..k] == ([b] + v)[..k]
  {
    assert ([b] + u)[..k] == [b] + u[..k - 1];
    assert ([b] + v)[..k] == [b] + v[..k - 1];
  }

  // ----- encoding twice -----

  lemma AsBytesFront(s: string, n: nat)
    requires IsByteString(s) && n <= |s|
    ensures AsBytes(s)[..n] == AsBytes(s[..n]) && AsBytes(s)[n..] == AsBytes(s[n..])
  {
  }

  lemma {:induction false} AsciiIsWellFormed(b: Bytes)
    requires forall i | 0 <= i < |b| :: b[i] < 128
    ensures WellFormed(b)
  {
    if b == [] {
      EmptyIsWellFormed();
    } else {
      AsciiIsWellFormed(b[1..]);
      PrependScalar(b[0], b[1..]);
      assert b == EncodeScalar(b[0]) + b[1..];
    }
  }

  lemma DropAscii(s: string, n: nat)
    requires IsByteString(s) && n <= |s| && forall i | 0 <= i < n :: (s[i] as int) < 128
    ensures WellFormed(AsBytes(s)) <==> WellFormed(AsBytes(s[n..]))
  {
    AsBytesFront(s, n);
    AsciiIsWellFormed(AsBytes(s)[..n]);
    WellFormedAppend(AsBytes(s)[..n], AsBytes(s)[n..]);
    assert AsBytes(s) == AsBytes(s)[..n] + AsBytes(s)[n..];
  }

  lemma GroupsAreAscii(s: string, n: nat)
    requires IsByteString(s) && n <= |Groups(s)|
    ensures 3 * n <= |s| && forall i | 0 <= i < 3 * n :: (s[i] as int) < 128
  {
    forall i | 0 <= i < 3 * n ensures (s[i] as int) < 128 {
      GroupsRead(s, i / 3);
      assert i == 3 * (i / 3) || i == 3 * (i / 3) + 1 || i == 3 * (i / 3) + 2;
    }
  }

  lemma CancelFront(a: string, b: string, c: string)
    ensures a + b == a + c <==> b == c
  {
    if a + b == a + c { assert b == (a + b)[|a|..] == (a + c)[|a|..] == c; }
  }

  lemma TransferChar(g: Bytes, b: Bytes, n: nat)
    requires n == CharLen(g) > 0 && n <= |b| && g[..n] == b[..n]
    ensures CharLen(b) == n
  {
    CharLenOfPrefix(g, n, b[n..]);
    assert g[..n] + b[n..] == b;
  }

  /** The groups written for a stray byte and what follows spell no character. */
  lemma StrayGroups(s: string)
    requires IsByteString(s) && s != "" && s[0] as int >= 128 && CharLen(AsBytes(s)) == 0
    ensures CharLen([s[0] as int] + Groups(Encoded(s[1..]))) == 0
  {
    var h := Groups(Encoded(s[1..]));
    var g: Bytes := [s[0] as int] + h;
    var n := CharLen(g);
    if n > 0 {
      FollowersContinue(g);
      assert forall i | 0 <= i < n - 1 :: h[i] == g[i + 1];
      ContinuationsComeFromRaw(s[1..], n - 1);
      ConsTake(s[0] as int, AsBytes(s[1..]), h, n);
      AsBytesCons(s);
      TransferChar(g, AsBytes(s), n);
    }
  }

  /** A stray byte is escaped by the first pass and its `%` again by the second. */
  lemma StrayByte(s: string)
    requires IsByteString(s) && s != "" && s[0] as int >= 128 && CharLen(AsBytes(s)) == 0
    ensures Encoded(Encoded(s)) != Encoded(s)
  {
    hide Groups, CharLen;
    var x := Encoded(s[1..]);
    var e := Escape(s[0]) + x;
    RawStep(s);
    GroupsOfEscape(s[0], x);
    StrayGroups(s);
    assert e[0] == '%' && !IsTolerable('%');
    EncodedGrows(e[1..]);
    assert Encoded(e) == Escape('%') + Encoded(e[1..]);
  }

  lemma FollowersContinue(g: Bytes)
    requires CharLen(g) > 0 && g[0] >= 128
    ensures CharLen(g) >= 2 && forall i | 1 <= i < CharLen(g) :: IsContinuation(g[i])
  {
    ValidPrefixMeansRfc3629(g[0], g[1]);
  }

  /** The raw bytes of the front character: all above ASCII, and a character on their own. */
  lemma RawCharBytes(s: string, n: nat)
    requires IsByteString(s) && n == CharLen(AsBytes(s)) > 0 && s[0] as int >= 128
    ensures IsByteString(s[..n]) && CharLen(AsBytes(s[..n])) == n
    ensures forall i | 0 <= i < n :: s[..n][i] as int >= 128
  {
    FollowersContinue(AsBytes(s));
    assert forall i | 0 <= i < n :: s[i] as int == AsBytes(s)[i];
    AsBytesFront(s, n);
    CharLenOfPrefix(AsBytes(s), n, []);
    assert AsBytes(s[..n]) + [] == AsBytes(s[..n]);
  }

  /** The escapes of a whole character are kept by the second pass. */
  lemma EscapesAgain(t: string, x: string)
    requires IsByteString(t) && t != "" && CharLen(AsBytes(t)) == |t|
    ensures Encoded(Escapes(t) + x) == Escapes(t) + Encoded(x)
  {
    var e, n := Escapes(t) + x, |t|;
    GroupsOfEscapes(t, x);
    UpperOfEscapes(t);
    CharLenOfPrefix(AsBytes(t), n, Groups(x));
    assert AsBytes(t)[..n] == AsBytes(t);
    assert e[..3 * n] == Escapes(t) && e[3 * n..] == x;
  }

  /** A raw multi-byte character is escaped by the first pass and kept by the second. */
  lemma RawPieceAgain(t: string, rest: string)
    requires IsByteString(t) && t != "" && CharLen(AsBytes(t)) == |t|
    requires forall i | 0 <= i < |t| :: t[i] as int >= 128
    ensures Encoded(t + rest) == Escapes(t) + Encoded(rest)
    ensures Encoded(Encoded(t + rest)) == Escapes(t) + Encoded(Encoded(rest))
  {
    EncodedRaw(t, rest);
    EscapesAgain(t, Encoded(rest));
  }

  /** What encoding `s` twice comes down to when the first piece `u` survives the second pass. */
  ghost predicate PieceSurvives(s: string, u: string, k: nat)
  {
    k <= |s| && Encoded(s) == u + Encoded(s[k..]) && Encoded(Encoded(s)) == u + Encoded(Encoded(s[k..]))
  }

  lemma AsciiPiece(s: string) returns (u: string, k: nat)
    requires IsByteString(s) && s != "" && (s[0] as int) < 128
    ensures 1 <= k && PieceSurvives(s, u, k)
    ensures WellFormed(AsBytes(s)) <==> WellFormed(AsBytes(s[k..]))
  {
    var n := EncodedSize(s);
    if n > 0 {
      k, u := 3 * n, Upper(s[..3 * n]);
      KeptAgain(s, Encoded(s[k..]));
      GroupsAreAscii(s, n);
    } else {
      k, u := 1, UriChar(Slashed(s[0]), true);
      PushedAgain(Slashed(s[0]), Encoded(s[1..]));
    }
    DropAscii(s, k);
  }

  lemma RawPiece(s: string) returns (u: string, k: nat)
    requires IsByteString(s) && s != "" && s[0] as int >= 128 && CharLen(AsBytes(s)) > 0
    ensures 1 <= k && PieceSurvives(s, u, k)
    ensures WellFormed(AsBytes(s)) <==> WellFormed(AsBytes(s[k..]))
  {
    hide Encoded, Escapes, CharLen;
    k := CharLen(AsBytes(s));
    u := Escapes(s[..k]);
    RawCharBytes(s, k);
    RawPieceAgain(s[..k], s[k..]);
    assert s == s[..k] + s[k..];
    RawFront(s, k);
  }

  lemma RawFront(s: string, k: nat)
    requires IsByteString(s) && s != "" && k == CharLen(AsBytes(s)) > 0
    ensures WellFormed(AsBytes(s)) <==> WellFormed(AsBytes(s[k..]))
  {
    WellFormedFront(AsBytes(s));
    AsBytesFront(s, k);
  }

  /** Encoding an encoded text changes nothing exactly when the raw bytes of the original are
      well-formed UTF-8; in particular for every ASCII text. */
  lemma {:induction false} EncodedTwice(s: string)
    requires IsByteString(s)
    ensures Encoded(Encoded(s)) == Encoded(s) <==> WellFormed(AsBytes(s))
    decreases |s|
  {
    if s == "" {
      EmptyIsWellFormed();
      assert AsBytes(s) == [];
    } else if s[0] as int >= 128 && CharLen(AsBytes(s)) == 0 {
      StrayByte(s);
      WellFormedFront(AsBytes(s));
    } else {
      var u, k;
      if s[0] as int < 128 {
        u, k := AsciiPiece(s);
      } else {
        u, k := RawPiece(s);
      }
      EncodedTwice(s[k..]);
      CancelFront(u, Encoded(Encoded(s[k..])), Encoded(s[k..]));
    }
  }

  /** A byte no UTF-8 text holds, as the simplest text that encoding changes twice. */
  lemma StrayByteEncodedTwice()
    ensures IsByteString([0xFF as char]) && !WellFormed(AsBytes([0xFF as char]))
    ensures Encoded(Encoded([0xFF as char])) != Encoded([0xFF as char])
  {
    var s := [0xFF as char];
    WellFormedFront(AsBytes(s));
    assert AsBytes(s)[0] == 0xFF;
    EncodedTwice(s);
  }

  // ----- decoding -----

  /** `percent_decode`: the decoded text, or nothing when a `%` is not followed by two digits. */
  function Decoded(s: string): (r: string)
  {
    if Decodable(s) then Chars(s) else ""
  }

  /** Every `%` starts a group. */
  predicate Decodable(s: string)
    decreases |s|
  {
    if s == "" then true
    else if s[0] == '%' then Group(s, 0).Some? && Decodable(s[3..])
    else Decodable(s[1..])
  }

  function Chars(s: string): (r: string)
    requires Decodable(s)
    decreases |s|
  {
    if s == "" then ""
    else if s[0] == '%' then [Group(s, 0).value as char] + Chars(s[3..])
    else [s[0]] + Chars(s[1..])
  }

  lemma NothingDecodes()
    ensures Decodable("") && Chars("") == ""
  {
  }

  /** A `%` at the front. */
  lemma GroupDecodes(s: string)
    requires s != "" && s[0] == '%'
    ensures Decodable(s) <==>
            |s| >= 3 && HexValue(s[1]).Some? && HexValue(s[2]).Some? && Decodable(s[3..])
    ensures Decodable(s) ==>
              Chars(s) == [(HexValue(s[1]).value * 16 + HexValue(s[2]).value) as char] + Chars(s[3..])
  {
  }

  lemma LiteralStep(c: char, x: string)
    requires c != '%'
    ensures Decodable([c] + x) <==> Decodable(x)
    ensures Decodable(x) ==> Chars([c] + x) == [c] + Chars(x)
  {
    assert ([c] + x)[1..] == x;
  }

  /** The run of literal characters in front of the next `%`. */
  lemma {:induction false} LiteralRun(a: string, rest: string)
    requires '%' !in a
    ensures Decodable(a + rest) <==> Decodable(rest)
    ensures Decodable(rest) ==> Chars(a + rest) == a + Chars(rest)
  {
    if a == "" {
      assert a + rest == rest;
    } else {
      LiteralRun(a[1..], rest);
      LiteralStep(a[0], a[1..] + rest);
      assert [a[0]] + (a[1..] + rest) == a + rest;
      if Decodable(rest) {
        Encoding.Regroup([a[0]], a[1..], Chars(rest));
        assert [a[0]] + a[1..] == a;
      }
    }
  }

  method PercentDecode(s: string) returns (result: string)
    ensures result == Decoded(s)
  {
    hide Decodable, Chars, HexByte, IndexOf;
    result := "";
    var rest := s;
    if Decodable(s) { assert "" + Chars(s) == Chars(s); }
    while true
      invariant Decodable(s) <==> Decodable(rest)
      invariant Decodable(rest) ==> Chars(s) == result + Chars(rest)
      decreases |rest|
    {
      var n := IndexOf(rest, '%');
      IndexOfPasses(rest, '%');
      LiteralRun(rest[..n], rest[n..]);
      assert rest == rest[..n] + rest[n..];
      if Decodable(rest[n..]) { Encoding.Regroup(result, rest[..n], Chars(rest[n..])); }
      result := result + rest[..n];
      if n == |rest| {
        NothingDecodes();
        break;
      }
      rest := rest[n..];
      GroupDecodes(rest);
      if |rest| < 3 {
        return "";
      }
      var hi, lo := HexValue(rest[1]), HexValue(rest[2]);
      if hi == None || lo == None {
        return "";
      }
      if Decodable(rest[3..]) {
        Encoding.Regroup(result, [(hi.value * 16 + lo.value) as char], Chars(rest[3..]));
      }
      result := result + [(hi.value * 16 + lo.value) as char];
      rest := rest[3..];
    }
  }

  /** `percent_encode_component` and `percent_encode_path`: every byte on its own. */
  function EncodedBytewise(s: string, keepPath: bool): (r: string)
  {
    if s == "" then ""
    else UriChar(if keepPath then Slashed(s[0]) else s[0], keepPath) + EncodedBytewise(s[1..], keepPath)
  }

  method PercentEncode(s: string, keepPath: bool) returns (uri: string)
    ensures uri == EncodedBytewise(s, keepPath)
  {
    uri := "";
    var i := 0;
    while i < |s|
      invariant 0 <= i <= |s|
      invariant uri + EncodedBytewise(s[i..], keepPath) == EncodedBytewise(s, keepPath)
    {
      var c := if keepPath then Slashed(s[i]) else s[i];
      Encoding.Regroup(uri, UriChar(c, keepPath), EncodedBytewise(s[i..][1..], keepPath));
      assert s[i..][1..] == s[i + 1..];
      uri := uri + UriChar(c, keepPath);
      i := i + 1;
    }
    assert uri + "" == uri;
  }

  lemma DecodeTriple(hi: char, lo: char, b: Byte, x: string)
    requires HexByte(hi, lo) == Some(b) && Decodable(x)
    ensures Decodable(['%', hi, lo] + x) && Chars(['%', hi, lo] + x) == [b as char] + Chars(x)
  {
    var s := ['%', hi, lo] + x;
    assert s[3..] == x;
    assert Group(s, 0) == HexByte(s[1], s[2]) == Some(b);
  }

  lemma DecodePushed(c: char, keepPath: bool, x: string)
    requires (c as int) < 256 && Decodable(x)
    ensures Decodable(UriChar(c, keepPath) + x) && Chars(UriChar(c, keepPath) + x) == [c] + Chars(x)
  {
    if UriChar(c, keepPath) == [c] {
      LiteralStep(c, x);
    } else {
      var hi, lo := EscapeForm(c);
      DecodeTriple(hi, lo, c as int, x);
    }
  }

  lemma SlashesCons(s: string)
    requires s != ""
    ensures Slashes(s) == [Slashed(s[0])] + Slashes(s[1..])
  {
  }

  /** Decoding undoes both encoders on every byte string; the path encoder turns `\\` into `/`. */
  lemma {:induction false} DecodingUndoesEncoding(s: string, keepPath: bool)
    requires IsByteString(s)
    ensures Decodable(EncodedBytewise(s, keepPath))
    ensures Chars(EncodedBytewise(s, keepPath)) == if keepPath then Slashes(s) else s
    ensures Decoded(EncodedBytewise(s, keepPath)) == if keepPath then Slashes(s) else s
  {
    if s != "" {
      DecodingUndoesEncoding(s[1..], keepPath);
      var c := if keepPath then Slashed(s[0]) else s[0];
      DecodePushed(c, keepPath, EncodedBytewise(s[1..], keepPath));
      SlashesCons(s);
    }
  }
}

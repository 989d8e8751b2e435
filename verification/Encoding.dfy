/** Percent-coding (utils/src/encoding.cpp). */
module Encoding {
  import opened Basics
  import opened Utf8

  /** Every C++ `char` is one byte. */
  predicate IsByteString(s: string)
  {
    forall i | 0 <= i < |s| :: (s[i] as int) < 256
  }

  function AsBytes(s: string): (b: Bytes)
    requires IsByteString(s)
    ensures |b| == |s|
  {
    seq(|s|, i requires 0 <= i < |s| => s[i] as int)
  }

  /** `get_hex` */
  function HexValue(c: char): (v: Option<int>)
    ensures v.Some? ==> 0 <= v.value < 16
  {
    if '0' <= c <= '9' then Some(c as int - '0' as int)
    else if 'A' <= c <= 'F' then Some(c as int - 'A' as int + 10)
    else if 'a' <= c <= 'f' then Some(c as int - 'a' as int + 10)
    else None
  }

  function HexDigit(v: int): (c: char)
    requires 0 <= v < 16
    ensures HexValue(c) == Some(v)
    ensures ToUpper(c) == c
  {
    if v < 10 then ('0' as int + v) as char else ('A' as int + v - 10) as char
  }

  /** `std::toupper` in the C locale. */
  function ToUpper(c: char): (u: char)
    ensures HexValue(u) == HexValue(c)
    ensures !('a' <= u <= 'z')
  {
    if 'a' <= c <= 'z' then (c as int - 32) as char else c
  }

  /** `get_utf_8_byte` */
  function HexByte(hi: char, lo: char): (b: Option<Byte>)
  {
    if HexValue(hi).Some? && HexValue(lo).Some?
    then Some(HexValue(hi).value * 16 + HexValue(lo).value) else None
  }

  // ----- the encoder -----

  /** The byte written as the i-th `%XX` group at the front of `s`. */
  function Group(s: string, i: nat): (b: Option<Byte>)
  {
    if 3 * i + 3 <= |s| && s[3 * i] == '%' then HexByte(s[3 * i + 1], s[3 * i + 2]) else None
  }

  /** The bytes of the leading `%XX` groups. */
  function Groups(s: string): (b: Bytes)
    ensures 3 * |b| <= |s|
  {
    if Group(s, 0) == None then [] else [Group(s, 0).value] + Groups(s[3..])
  }

  /** The groups are read one by one up to the first that is missing or malformed. */
  lemma {:induction false} GroupsRead(s: string, i: nat)
    ensures i < |Groups(s)| ==> Group(s, i) == Some(Groups(s)[i])
    ensures i == |Groups(s)| ==> Group(s, i) == None
    decreases i
  {
    hide HexByte;
    if i > 0 && Group(s, 0).Some? {
      GroupsRead(s[3..], i - 1);
      assert Group(s, i) == Group(s[3..], i - 1);
    }
  }

  /** How many groups at the front spell one well-formed UTF-8 character. */
  function EncodedSize(s: string): (n: nat)
    ensures n <= |Groups(s)| && 3 * n <= |s|
  {
    CharLen(Groups(s))
  }

  predicate PercentAt(s: string, i: nat)
  {
    3 * i < |s| && s[3 * i] == '%'
  }

  /** `has_percents_in_place` */
  method HasPercentsInPlace(s: string, cs: nat) returns (r: bool)
    requires 3 * cs <= |s|
    ensures r <==> forall i | 0 <= i < cs :: PercentAt(s, i)
  {
    var i := 0;
    while i < cs
      invariant 0 <= i <= cs && forall k | 0 <= k < i :: PercentAt(s, k)
    {
      if s[i * 3] != '%' {
        assert !PercentAt(s, i);
        return false;
      }
      i := i + 1;
    }
    r := true;
  }

  /** The first group that is missing or malformed ends the run of groups. */
  lemma GroupsStop(s: string, i: nat)
    requires Group(s, i) == None
    ensures |Groups(s)| <= i
  {
    GroupsRead(s, i);
  }

  lemma GroupsReach(s: string, i: nat)
    requires |Groups(s)| >= i && Group(s, i).Some?
    ensures |Groups(s)| > i && Groups(s)[i] == Group(s, i).value
  {
    GroupsRead(s, i);
  }

  /** The run of groups spells a character of `cs` bytes. */
  predicate RunOf(gs: Bytes, cs: nat)
  {
    2 <= cs <= |gs| && ValidMultibytePrefix(gs[0], gs[1]) && forall i | 2 <= i < cs :: IsContinuation(gs[i])
  }

  /** The continuation bytes, read from the text one group at a time. */
  method ContinuationGroups(s: string, cs: nat) returns (ok: bool)
    requires 3 * cs <= |s| && |Groups(s)| >= 2
    requires forall i | 0 <= i < cs :: PercentAt(s, i)
    ensures ok <==> cs <= 2 || (|Groups(s)| >= cs && forall i | 2 <= i < cs :: IsContinuation(Groups(s)[i]))
  {
    var i := 2;
    while i < cs
      invariant 2 <= i && (i <= cs || cs < 2) && |Groups(s)| >= i
      invariant forall k | 2 <= k < i :: IsContinuation(Groups(s)[k])
    {
      assert PercentAt(s, i);
      var next := HexByte(s[3 * i + 1], s[3 * i + 2]);
      assert Group(s, i) == next;
      if next == None {
        GroupsStop(s, i);
        return false;
      }
      GroupsReach(s, i);
      if !IsContinuation(next.value) {
        return false;
      }
      i := i + 1;
    }
    ok := true;
  }

  /** The part of `get_already_encoded_size` after the first group announced `cs` bytes. */
  method FollowingGroups(s: string, first: Byte, cs: nat) returns (ok: bool)
    requires |Groups(s)| >= 1 && Groups(s)[0] == first && 2 <= cs
    ensures ok <==> RunOf(Groups(s), cs)
  {
    if |s| < cs * 3 {
      return false;
    }
    var inPlace := HasPercentsInPlace(s, cs);
    if !inPlace {
      ghost var i :| 0 <= i < cs && !PercentAt(s, i);
      GroupsStop(s, i);
      return false;
    }
    assert PercentAt(s, 1);
    var second := HexByte(s[4], s[5]);
    assert Group(s, 1) == second;
    if second == None {
      GroupsStop(s, 1);
      return false;
    }
    GroupsReach(s, 1);
    if !ValidMultibytePrefix(first, second.value) {
      return false;
    }
    ok := ContinuationGroups(s, cs);
  }

  lemma EncodedSizeByRun(s: string)
    requires Groups(s) != []
    ensures var cs := PrefixSize8(Groups(s)[0]);
            EncodedSize(s) == if cs <= 1 || RunOf(Groups(s), cs) then cs else 0
  {
  }

  /** `get_already_encoded_size` looks at the text directly. */
  method GetAlreadyEncodedSize(s: string) returns (cs: nat)
    ensures cs == EncodedSize(s)
  {
    if s == "" || s[0] != '%' || |s| < 3 {
      GroupsStop(s, 0);
      return 0;
    }
    var first := HexByte(s[1], s[2]);
    assert Group(s, 0) == first;
    if first == None {
      GroupsStop(s, 0);
      return 0;
    }
    GroupsReach(s, 0);
    EncodedSizeByRun(s);
    cs := PrefixSize8(first.value);
    if cs == 0 || cs == 1 {
      return;
    }
    var ok := FollowingGroups(s, first.value, cs);
    if !ok {
      cs := 0;
    }
  }

  // ----- percent_encode_path_and_ignore_utf8 -----

  predicate IsAlnum(c: char)
  {
    'a' <= c <= 'z' || 'A' <= c <= 'Z' || '0' <= c <= '9'
  }

  /** `unreserved`: kept by the component encoder. */
  predicate IsUnreserved(c: char) { IsAlnum(c) || c == '-' || c == '.' || c == '_' || c == '~' }

  /** `path_tolerable`: kept by the path encoders. */
  predicate IsTolerable(c: char) { IsUnreserved(c) || c == '/' || c == '*' || c == '?' }

  /** `%XX` for one byte. */
  function Escape(c: char): (s: string)
    ensures |s| == 3
  {
    var b := c as int % 256;
    ['%', HexDigit(b / 16), HexDigit(b % 16)]
  }

  lemma DigitsOfByte(b: Byte)
    ensures HexByte(HexDigit(b / 16), HexDigit(b % 16)) == Some(b)
  {
  }

  /** `push_uri_char` with either keep table. */
  function UriChar(c: char, keepPath: bool): (s: string)
  {
    if (if keepPath then IsTolerable(c) else IsUnreserved(c)) then [c] else Escape(c)
  }

  function Slashed(c: char): char { if c == '\\' then '/' else c }

  /** `std::ranges::replace` of every backslash. */
  function Slashes(s: string): (r: string)
    ensures |r| == |s|
  {
    seq(|s|, i requires 0 <= i < |s| => Slashed(s[i]))
  }

  function Upper(s: string): (u: string)
    ensures |u| == |s|
  {
    seq(|s|, i requires 0 <= i < |s| => ToUpper(s[i]))
  }

  /** What the encoder produces: spelled characters are kept in upper case, everything else
      is pushed byte by byte. */
  function Encoded(s: string): (r: string)
    decreases |s|
  {
    if s == "" then ""
    else if EncodedSize(s) > 0 then Upper(s[..3 * EncodedSize(s)]) + Encoded(s[3 * EncodedSize(s)..])
    else UriChar(Slashed(s[0]), true) + Encoded(s[1..])
  }

  lemma EncodedEmpty()
    ensures Encoded("") == ""
  {
  }

  /** What is encoded first: a character that is spelled already, or one byte. */
  lemma EncodedFirst(s: string) returns (k: nat, piece: string)
    requires s != ""
    ensures 0 < k <= |s| && Encoded(s) == piece + Encoded(s[k..])
    ensures EncodedSize(s) > 0 ==> k == 3 * EncodedSize(s) && piece == Upper(s[..k])
    ensures EncodedSize(s) == 0 ==> k == 1 && piece == UriChar(Slashed(s[0]), true)
  {
    hide EncodedSize, Upper, UriChar;
    var n := EncodedSize(s);
    k := if n > 0 then 3 * n else 1;
    piece := if n > 0 then Upper(s[..k]) else UriChar(Slashed(s[0]), true);
  }

  lemma Regroup(a: string, b: string, c: string)
    ensures (a + b) + c == a + (b + c)
  {
  }

  /** `try_to_parse_encoded`: copies one spelled character and shortens the view. */
  method TryToParseEncoded(out: string, s: string) returns (ok: bool, out': string, s': string)
    ensures ok <==> EncodedSize(s) > 0
    ensures !ok ==> out' == out && s' == s
    ensures ok ==> out' == out + Upper(s[..3 * EncodedSize(s)]) && s' == s[3 * EncodedSize(s)..]
  {
    hide Groups, Upper, ToUpper;
    out', s' := out, s;
    var size: nat := GetAlreadyEncodedSize(s);
    ok := size != 0;
    ghost var n, k: nat, end := size, 0, 0;
    UpperOfNothing();
    assert s[..0] == "" && out + "" == out;
    while size > 0
      invariant k + size == n <= |Groups(s)| && end == 3 * k <= |s|
      invariant s' == s[end..]
      invariant out' == out + Upper(s[..end])
    {
      UpperStep(s, k);
      Regroup(out, Upper(s[..end]), [s'[0], ToUpper(s'[1]), ToUpper(s'[2])]);
      assert s[end..][3..] == s[end + 3..];
      out' := out' + [s'[0], ToUpper(s'[1]), ToUpper(s'[2])];
      s' := s'[3..];
      size, k, end := size - 1, k + 1, end + 3;
    }
  }

  lemma UpperOfNothing()
    ensures Upper("") == ""
  {
  }

  lemma UpperStep(s: string, k: nat)
    requires k < |Groups(s)|
    ensures 3 * k + 3 <= |s|
    ensures Upper(s[..3 * k + 3]) == Upper(s[..3 * k]) + [s[3 * k], ToUpper(s[3 * k + 1]), ToUpper(s[3 * k + 2])]
  {
    GroupsRead(s, k);
    UpperAppend(s[..3 * k], s[3 * k..3 * k + 3]);
    assert s[..3 * k + 3] == s[..3 * k] + s[3 * k..3 * k + 3];
    assert Upper(s[3 * k..3 * k + 3]) == ['%', ToUpper(s[3 * k + 1]), ToUpper(s[3 * k + 2])];
  }

  lemma UpperAppend(a: string, b: string)
    ensures Upper(a + b) == Upper(a) + Upper(b)
  {
  }

  method PercentEncodePathAndIgnoreUtf8(s: string) returns (uri: string)
    ensures uri == Encoded(s)
  {
    uri := "";
    var rest := s;
    while rest != ""
      invariant uri + Encoded(rest) == Encoded(s)
      decreases |rest|
    {
      var ok, uri', rest' := TryToParseEncoded(uri, rest);
      if ok {
        Regroup(uri, Upper(rest[..3 * EncodedSize(rest)]), Encoded(rest'));
        uri, rest := uri', rest';
        continue;
      }
      var piece := UriChar(Slashed(rest[0]), true);
      Regroup(uri, piece, Encoded(rest[1..]));
      uri, rest := uri + piece, rest[1..];
    }
    assert uri + "" == uri;
  }
}

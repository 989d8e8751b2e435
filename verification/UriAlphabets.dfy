/** What `dissect_uri` accepts, in terms of the alphabets that utils/src/path_conversions.cpp
    lists, and the delimiters between the parts of a URI. */
module UriAlphabets {
  import opened Basics
  import opened Encoding
  import opened EncodingAlphabets
  import opened UriSyntax
  import opened UriLaws

  // ----- character classes -----

  const SCHEME_MARKS := "+-."
  const HOST_MARKS := "-._~!$&'()*+,;="
  const USER_MARKS := "-._~!$&'()*+,;=:"
  const PATH_QUERY_MARKS := "-._~!$&'()*+,;=@:/?"

  predicate Listed(c: char, t: CharClass)
  {
    match t
    case Alpha => c in LOWER || c in UPPER
    case Num => c in DIGITS
    case HexNum => c in HEX || c in LOWER_HEX
    case Scheme => IsOneOf(c, SCHEME_MARKS)
    case UserInfo => IsOneOf(c, USER_MARKS)
    case Host => IsOneOf(c, HOST_MARKS)
    case PathQuery => IsOneOf(c, PATH_QUERY_MARKS)
  }

  lemma MarksAre(c: char)
    ensures c in SCHEME_MARKS <==> c == '+' || c == '-' || c == '.'
    ensures c in USER_MARKS <==> c in HOST_MARKS || c == ':'
    ensures c in PATH_QUERY_MARKS <==> c in HOST_MARKS || c == '@' || c == ':' || c == '/' || c == '?'
  {
  }

  lemma HostMarksAre(c: char)
    ensures c in HOST_MARKS || IsAlnum(c) <==> IsSubdelim(c)
  {
  }

  /** The table lookup accepts exactly the listed characters. */
  lemma InClassIff(c: char, t: CharClass)
    ensures InClass(c, t) <==> Listed(c, t)
  {
    MarksAre(c);
    HostMarksAre(c);
    LowerIs(c);
    UpperIs(c);
    DigitIs(c);
    HexValueIs(c);
    hide LOWER, UPPER, DIGITS, HEX, LOWER_HEX, SCHEME_MARKS, HOST_MARKS, USER_MARKS, PATH_QUERY_MARKS;
    hide IsSubdelim, HexValue;
  }

  /** A listed character, or a `%` with two digits behind it. */
  predicate Fine(s: string, i: nat, t: CharClass, pct: bool)
    requires i < |s|
  {
    Listed(s[i], t) || (pct && s[i] == '%' && GroupAt(s, i))
  }

  predicate AllFine(s: string, t: CharClass, pct: bool)
  {
    forall i | 0 <= i < |s| :: Fine(s, i, t, pct)
  }

  lemma DigitsAreListed(c: char, t: CharClass)
    requires c in HEX || c in LOWER_HEX
    requires t.UserInfo? || t.Host? || t.PathQuery?
    ensures Listed(c, t)
  {
    InClassIff(c, t);
    HexValueIs(c);
    hide HEX, LOWER_HEX;
  }

  lemma FineRest(s: string, n: nat, t: CharClass, pct: bool)
    requires n <= |s|
    ensures AllFine(s[n..], t, pct) <==> forall i | n <= i < |s| :: Fine(s, i, t, pct)
  {
    hide HEX, LOWER_HEX, Listed;
    var r := s[n..];
    assert forall i | 0 <= i < |r| :: r[i] == s[n + i] && (Fine(r, i, t, pct) <==> Fine(s, n + i, t, pct));
    if AllFine(r, t, pct) {
      forall i | n <= i < |s| ensures Fine(s, i, t, pct) { assert Fine(r, i - n, t, pct); }
    }
  }

  /** `is_valid` accepts exactly the texts all of whose characters are fine. */
  lemma {:induction false} ValidTextIff(s: string, t: CharClass, pct: bool)
    requires pct ==> t.UserInfo? || t.Host? || t.PathQuery?
    ensures ValidText(s, t, pct) <==> AllFine(s, t, pct)
    decreases |s|
  {
    hide HEX, LOWER_HEX, Listed, InClass;
    if s != "" {
      InClassIff(s[0], t);
      assert AllFine(s, t, pct) ==> Fine(s, 0, t, pct);
      if InClass(s[0], t) {
        ValidTextIff(s[1..], t, pct);
        FineRest(s, 1, t, pct);
      } else if pct && s[0] == '%' && |s| >= 3 {
        HexClass(s[1]);
        HexClass(s[2]);
        if InClass(s[1], HexNum) && InClass(s[2], HexNum) {
          ValidTextIff(s[3..], t, pct);
          FineRest(s, 3, t, pct);
          DigitsAreListed(s[1], t);
          DigitsAreListed(s[2], t);
          assert Fine(s, 0, t, pct) && Fine(s, 1, t, pct) && Fine(s, 2, t, pct);
        }
      }
    }
  }

  lemma HexClass(c: char)
    ensures InClass(c, HexNum) <==> c in HEX || c in LOWER_HEX
  {
    InClassIff(c, HexNum);
  }

  /** What `validate_or_reset` lets through, character by character. */
  lemma AcceptedIff(d: Uri)
    ensures Accepted(d) <==>
            && |d.scheme| > 1 && (d.scheme[0] in LOWER || d.scheme[0] in UPPER)
            && (forall c | c in d.scheme :: IsOneOf(c, SCHEME_MARKS))
            && (d.auth.Some? ==> AuthorityFine(d.auth.value))
            && AllFine(d.path, PathQuery, true)
            && (d.query.Some? ==> AllFine(d.query.value, PathQuery, true))
            && (d.fragment.Some? ==> AllFine(d.fragment.value, PathQuery, true))
  {
    hide LOWER, UPPER, DIGITS, HEX, LOWER_HEX, ValidText, InClass, AllFine, AuthorityFine, AuthorityAccepted;
    if d.scheme != "" { InClassIff(d.scheme[0], Alpha); }
    ValidTextIff(d.scheme, Scheme, false);
    PlainFine(d.scheme, Scheme);
    if d.auth.Some? { AuthorityIff(d.auth.value); }
    ValidTextIff(d.path, PathQuery, true);
    if d.query.Some? { ValidTextIff(d.query.value, PathQuery, true); }
    if d.fragment.Some? { ValidTextIff(d.fragment.value, PathQuery, true); }
  }

  lemma PlainFine(s: string, t: CharClass)
    ensures AllFine(s, t, false) <==> forall c | c in s :: Listed(c, t)
  {
    hide Listed;
    if AllFine(s, t, false) {
      forall c | c in s ensures Listed(c, t) {
        var i :| 0 <= i < |s| && s[i] == c;
        assert Fine(s, i, t, false);
      }
    }
  }

  /** The host is in brackets, or begins and ends with a digit, or holds only fine characters. */
  predicate HostFine(host: string)
  {
    || (host != "" && host[0] == '[' && host[|host| - 1] == ']')
    || (|host| >= 2 && host[0] in DIGITS && host[|host| - 1] in DIGITS)
    || AllFine(host, Host, true)
  }

  predicate AuthorityFine(a: Authority)
  {
    && (a.userInfo.Some? ==> AllFine(a.userInfo.value, UserInfo, true))
    && (a.port.Some? ==> forall c | c in a.port.value :: c in DIGITS)
    && HostFine(a.host)
  }

  lemma AuthorityIff(a: Authority)
    ensures AuthorityAccepted(a) <==> AuthorityFine(a)
  {
    hide LOWER, UPPER, DIGITS, HEX, LOWER_HEX, ValidText, InClass, AllFine, HostFine, HostAccepted;
    if a.userInfo.Some? { ValidTextIff(a.userInfo.value, UserInfo, true); }
    if a.port.Some? {
      ValidTextIff(a.port.value, Num, false);
      PlainFine(a.port.value, Num);
    }
    HostIff(a.host);
  }

  lemma HostIff(host: string)
    ensures HostAccepted(host) <==> HostFine(host)
  {
    hide DIGITS, HEX, LOWER_HEX, ValidText, InClass, AllFine;
    ValidTextIff(host, Host, true);
    if host != "" {
      Bracketed(host);
      InClassIff(host[0], Num);
      InClassIff(host[|host| - 1], Num);
    }
  }

  lemma Bracketed(host: string)
    requires host != ""
    ensures StartsWith(host, "[") && EndsWith(host, "]") <==> host[0] == '[' && host[|host| - 1] == ']'
  {
    assert host[|host| - 1..] == [host[|host| - 1]];
  }

  // ----- the delimiters -----

  /** A URI with every part of section 3 of RFC 3986 dissects into these parts. */
  lemma FullDissects(d: Uri)
    requires WellFormedUri(d) && d.auth.Some? && d.auth.value.userInfo.Some? && d.auth.value.port.Some?
    requires d.query.Some? && d.fragment.Some?
    ensures var a := d.auth.value;
            Dissect(d.scheme + "://" + a.userInfo.value + "@" + a.host + ":" + a.port.value + d.path
                    + "?" + d.query.value + "#" + d.fragment.value) == Some(d)
  {
    hide Dissect, WellFormedUri;
    var a := d.auth.value;
    FullText(d.scheme, a.userInfo.value, a.host, a.port.value, d.path, d.query.value, d.fragment.value);
    PrintedDissects(d);
  }

  lemma FullText(scheme: string, user: string, host: string, port: string, path: string, query: string,
                 fragment: string)
    ensures Text(Uri(scheme, Some(Authority(Some(user), host, Some(port))), path, Some(query), Some(fragment)))
            == scheme + "://" + user + "@" + host + ":" + port + path + "?" + query + "#" + fragment
  {
    var a := Authority(Some(user), host, Some(port));
    Joined4("//", user + "@", host, ":" + port);
    assert AuthorityText(a) == (user + "@") + (host + (":" + port));
    assert HierText(Some(a), path) == "//" + AuthorityText(a) + path;
    assert TailText(Some(query), Some(fragment)) == ("?" + query) + ("#" + fragment);
    Flattened(scheme, user, host, port, path, query, fragment);
  }

  lemma Joined4(a: string, b: string, c: string, d: string)
    ensures a + (b + (c + d)) == a + b + c + d
  {
  }

  lemma Flattened(scheme: string, user: string, host: string, port: string, path: string, query: string,
                  fragment: string)
    ensures scheme + ":" + ((("//" + ((user + "@") + (host + (":" + port)))) + path)
                            + (("?" + query) + ("#" + fragment)))
            == scheme + "://" + user + "@" + host + ":" + port + path + "?" + query + "#" + fragment
  {
    var l := scheme + "://" + user + "@" + host + ":" + port + path + "?" + query + "#" + fragment;
    var tail := ("?" + query) + ("#" + fragment);
    assert "://" == ":" + "//";
    assert l == scheme + "://" + user + "@" + host + ":" + port + path + tail;
    assert scheme + "://" + user + "@" + host + ":" + port
        == scheme + ":" + ("//" + ((user + "@") + (host + (":" + port))));
  }

  /** Without authority, query and fragment only the scheme and the path are left. */
  lemma PlainDissects(scheme: string, path: string)
    requires WellFormedUri(Uri(scheme, None, path, None, None))
    ensures Dissect(scheme + ":" + path) == Some(Uri(scheme, None, path, None, None))
  {
    hide Dissect, WellFormedUri;
    var d := Uri(scheme, None, path, None, None);
    assert HierText(None, path) + TailText(None, None) == path;
    PrintedDissects(d);
  }
}

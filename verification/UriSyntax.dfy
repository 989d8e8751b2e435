/** `dissect_uri` and `reconstruct_uri`: parser and printer of URIs
    (utils/src/path_conversions.cpp). */
module UriSyntax {
  import opened Basics
  import opened Encoding

  datatype Authority = Authority(userInfo: Option<string>, host: string, port: Option<string>)

  /** `dissected_uri_view` */
  datatype Uri = Uri(scheme: string, auth: Option<Authority>, path: string,
                     query: Option<string>, fragment: Option<string>)

  // ----- character classes -----

  datatype CharClass = Alpha | Num | HexNum | Scheme | UserInfo | Host | PathQuery

  predicate IsAlpha(c: char) { 'a' <= c <= 'z' || 'A' <= c <= 'Z' }

  predicate IsSubdelim(c: char)
  {
    || IsUnreserved(c) || c == '!' || c == '$' || c == '&' || c == '\'' || c == '(' || c == ')'
    || c == '*' || c == '+' || c == ',' || c == ';' || c == '='
  }

  /** `is_valid(c, type)`: the table lookup. */
  predicate InClass(c: char, t: CharClass)
  {
    match t
    case Alpha => IsAlpha(c)
    case Num => '0' <= c <= '9'
    case HexNum => HexValue(c).Some?
    case Scheme => IsAlnum(c) || c == '+' || c == '-' || c == '.'
    case UserInfo => IsSubdelim(c) || c == ':'
    case Host => IsSubdelim(c)
    case PathQuery => IsSubdelim(c) || c == '@' || c == ':' || c == '/' || c == '?'
  }

  /** Characters of the class, with `%XX` allowed in between when `pct` is set. */
  predicate ValidText(s: string, t: CharClass, pct: bool)
    decreases |s|
  {
    if s == "" then true
    else if InClass(s[0], t) then ValidText(s[1..], t, pct)
    else
      pct && s[0] == '%' && |s| >= 3 && InClass(s[1], HexNum) && InClass(s[2], HexNum) && ValidText(s[3..], t, pct)
  }

  /** `is_valid(s, type, allow_pct)`: the index loop. */
  method IsValid(s: string, t: CharClass, pct: bool) returns (ok: bool)
    ensures ok == ValidText(s, t, pct)
  {
    var i := 0;
    while i < |s|
      invariant 0 <= i <= |s|
      invariant ValidText(s, t, pct) == ValidText(s[i..], t, pct)
    {
      ghost var rest := s[i..];
      assert rest[1..] == s[i + 1..];
      if InClass(s[i], t) {
        i := i + 1;
        continue;
      }
      if !pct || s[i] != '%' || |s| - i < 3 {
        return false;
      }
      if !InClass(s[i + 1], HexNum) || !InClass(s[i + 2], HexNum) {
        return false;
      }
      assert rest[3..] == s[i + 3..];
      i := i + 3;
    }
    ok := true;
  }

  // ----- validation -----

  /** The three kinds of host `validate_or_reset` lets through. */
  predicate HostAccepted(host: string)
  {
    || (StartsWith(host, "[") && EndsWith(host, "]"))
    || (|host| >= 2 && InClass(host[0], Num) && InClass(host[|host| - 1], Num))
    || ValidText(host, Host, true)
  }

  predicate AuthorityAccepted(a: Authority)
  {
    && (a.userInfo.Some? ==> ValidText(a.userInfo.value, UserInfo, true))
    && (a.port.Some? ==> ValidText(a.port.value, Num, false))
    && HostAccepted(a.host)
  }

  /** `validate_or_reset` keeps the value. */
  predicate Accepted(d: Uri)
  {
    && |d.scheme| > 1 && InClass(d.scheme[0], Alpha) && ValidText(d.scheme, Scheme, false)
    && (d.auth.Some? ==> AuthorityAccepted(d.auth.value))
    && ValidText(d.path, PathQuery, true)
    && (d.query.Some? ==> ValidText(d.query.value, PathQuery, true))
    && (d.fragment.Some? ==> ValidText(d.fragment.value, PathQuery, true))
  }

  // ----- printing -----

  function Optional(prefix: string, s: Option<string>): (r: string)
  {
    if s.Some? then prefix + s.value else ""
  }

  function HostPort(host: string, port: Option<string>): (r: string)
  {
    host + Optional(":", port)
  }

  function AuthorityText(a: Authority): (r: string)
  {
    (if a.userInfo.Some? then a.userInfo.value + "@" else "") + HostPort(a.host, a.port)
  }

  function HierText(auth: Option<Authority>, path: string): (r: string)
  {
    (if auth.Some? then "//" + AuthorityText(auth.value) else "") + path
  }

  function TailText(query: Option<string>, fragment: Option<string>): (r: string)
  {
    Optional("?", query) + Optional("#", fragment)
  }

  /** The text of a URI, after section 5.3 of RFC 3986. */
  function Text(d: Uri): (r: string)
  {
    d.scheme + ":" + (HierText(d.auth, d.path) + TailText(d.query, d.fragment))
  }

  function Length(s: Option<string>): (n: nat) { if s.Some? then 1 + |s.value| else 0 }

  /** `reconstruct_uri_size` */
  method ReconstructUriSize(d: Uri, extraPath: string) returns (size: nat)
    ensures size == |Text(d.(path := d.path + extraPath))|
  {
    size := |d.scheme|;
    size := size + 1;
    if d.auth.Some? {
      size := size + 2;
      if d.auth.value.userInfo.Some? {
        size := size + |d.auth.value.userInfo.value|;
        size := size + 1;
      }
      size := size + |d.auth.value.host|;
      if d.auth.value.port.Some? {
        size := size + 1;
        size := size + |d.auth.value.port.value|;
      }
    }
    size := size + |d.path|;
    size := size + |extraPath|;
    if d.query.Some? {
      size := size + 1;
      size := size + |d.query.value|;
    }
    if d.fragment.Some? {
      size := size + 1;
      size := size + |d.fragment.value|;
    }
  }

  /** `reconstruct_uri`, up to the path. */
  method AppendAuthority(buffer: string, auth: Option<Authority>) returns (uri: string)
    ensures uri == buffer + HierText(auth, "")
  {
    uri := buffer;
    if auth.Some? {
      var a := auth.value;
      uri := uri + "//";
      if a.userInfo.Some? {
        uri := uri + a.userInfo.value + "@";
      }
      uri := uri + a.host;
      if a.port.Some? {
        uri := uri + ":" + a.port.value;
      }
    }
  }

  /** `reconstruct_uri`, after the path. */
  method AppendTail(buffer: string, query: Option<string>, fragment: Option<string>) returns (uri: string)
    ensures uri == buffer + TailText(query, fragment)
  {
    uri := buffer;
    if query.Some? {
      uri := uri + "?" + query.value;
    }
    if fragment.Some? {
      uri := uri + "#" + fragment.value;
    }
  }

  /** `reconstruct_uri`: appends piece by piece into a buffer of the announced size. */
  method ReconstructUri(d: Uri, extraPath: string) returns (uri: string)
    ensures uri == Text(d.(path := d.path + extraPath))
  {
    uri := AppendAuthority(d.scheme + ":", d.auth);
    RegroupText(d.scheme + ":", HierText(d.auth, ""), d.path, extraPath, TailText(d.query, d.fragment));
    assert HierText(d.auth, d.path + extraPath) == HierText(d.auth, "") + (d.path + extraPath);
    uri := uri + d.path;
    uri := uri + extraPath;
    uri := AppendTail(uri, d.query, d.fragment);
  }

  lemma RegroupText(a: string, b: string, c: string, d: string, e: string)
    ensures (((a + b) + c) + d) + e == a + ((b + (c + d)) + e)
  {
  }

  // ----- parsing -----

  /** Where query and fragment begin. */
  function SplitTail(s: string): (r: (string, Option<string>, Option<string>))
  {
    var cut := IndexOfEither(s, '?', '#');
    if cut == |s| then (s, None, None)
    else if s[cut] == '#' then (s[..cut], None, Some(s[cut + 1..]))
    else
      var q := s[cut + 1..];
      var f := IndexOf(q, '#');
      (s[..cut], Some(q[..f]), if f < |q| then Some(q[f + 1..]) else None)
  }

  function SplitHostPort(s: string): (r: Option<(string, Option<string>)>)
  {
    if StartsWith(s, "[") then
      var rb := IndexOf(s, ']');
      if rb == |s| then None
      else
        var rest := s[rb + 1..];
        if rest == "" then Some((s[..rb + 1], None))
        else if rest[0] != ':' then None
        else Some((s[..rb + 1], Some(rest[1..])))
    else
      var port := LastIndexOf(s, ':');
      if port < |s| then Some((s[..port], Some(s[port + 1..]))) else Some((s, None))
  }

  function SplitAuthority(s: string): (r: Option<Authority>)
  {
    var at := IndexOf(s, '@');
    var userInfo := if at < |s| then Some(s[..at]) else None;
    var hp := SplitHostPort(if at < |s| then s[at + 1..] else s);
    if hp.None? then None else Some(Authority(userInfo, hp.value.0, hp.value.1))
  }

  function SplitHier(s: string): (r: Option<(Option<Authority>, string)>)
  {
    if !StartsWith(s, "//") then Some((None, s))
    else
      var rest := s[2..];
      var p := IndexOf(rest, '/');
      var a := SplitAuthority(rest[..p]);
      if a.None? then None else Some((a, rest[p..]))
  }

  function Split(uri: string): (r: Option<Uri>)
  {
    var colon := IndexOf(uri, ':');
    if colon == |uri| || colon <= 1 then None else SplitRest(uri[..colon], uri[colon + 1..])
  }

  function SplitRest(scheme: string, rest: string): (r: Option<Uri>)
  {
    var t := SplitTail(rest);
    Assembled(scheme, SplitHier(t.0), t.1, t.2)
  }

  function Assembled(scheme: string, hier: Option<(Option<Authority>, string)>,
                     query: Option<string>, fragment: Option<string>): (r: Option<Uri>)
  {
    if hier.None? then None else Some(Uri(scheme, hier.value.0, hier.value.1, query, fragment))
  }

  /** What `dissect_uri` yields. */
  function Dissect(uri: string): (r: Option<Uri>)
  {
    var d := Split(uri);
    if d.Some? && Accepted(d.value) then d else None
  }

  /** `validate_or_reset` */
  method ValidateOrReset(d: Uri) returns (r: Option<Uri>)
    ensures r == if Accepted(d) then Some(d) else None
  {
    if |d.scheme| <= 1 || !InClass(d.scheme[0], Alpha) {
      return None;
    }
    var ok := IsValid(d.scheme, Scheme, false);
    if !ok {
      return None;
    }
    if d.auth.Some? {
      if d.auth.value.userInfo.Some? {
        ok := IsValid(d.auth.value.userInfo.value, UserInfo, true);
        if !ok {
          return None;
        }
      }
      if d.auth.value.port.Some? {
        ok := IsValid(d.auth.value.port.value, Num, false);
        if !ok {
          return None;
        }
      }
      var host := d.auth.value.host;
      if StartsWith(host, "[") && EndsWith(host, "]") {
      } else if |host| >= 2 && InClass(host[0], Num) && InClass(host[|host| - 1], Num) {
      } else {
        ok := IsValid(host, Host, true);
        if !ok {
          return None;
        }
      }
    }
    ok := IsValid(d.path, PathQuery, true);
    if !ok {
      return None;
    }
    if d.query.Some? {
      ok := IsValid(d.query.value, PathQuery, true);
      if !ok {
        return None;
      }
    }
    if d.fragment.Some? {
      ok := IsValid(d.fragment.value, PathQuery, true);
      if !ok {
        return None;
      }
    }
    r := Some(d);
  }

  /** `dissect_uri`, query and fragment: cut off the end of the view. */
  method DissectTail(s: string) returns (uri: string, query: Option<string>, fragment: Option<string>)
    ensures (uri, query, fragment) == SplitTail(s)
  {
    uri, query, fragment := s, None, None;
    var rest := IndexOfEither(uri, '?', '#');
    if rest < |uri| {
      if uri[rest] == '#' {
        fragment := Some(uri[rest + 1..]);
      } else {
        ghost var q := uri[rest + 1..];
        var f := rest + 1 + IndexOf(uri[rest + 1..], '#');
        if f == |uri| {
          query := Some(uri[rest + 1..]);
        } else {
          query := Some(uri[rest + 1..f]);
          fragment := Some(uri[f + 1..]);
          assert q[f - rest - 1 + 1..] == fragment.value;
        }
        assert q[..f - rest - 1] == query.value;
      }
      uri := uri[..rest];
    }
  }

  /** `dissect_uri`, user info, host and port; `None` where the result is reset. */
  method DissectAuthority(s: string) returns (r: Option<Authority>)
    ensures r == SplitAuthority(s)
  {
    var uri := s;
    var userInfo: Option<string> := None;
    var at := IndexOf(uri, '@');
    if at < |uri| {
      userInfo := Some(uri[..at]);
      uri := uri[at + 1..];
    }
    var host, port: Option<string> := uri, None;
    if StartsWith(uri, "[") {
      var endRb := IndexOf(uri, ']');
      if endRb == |uri| {
        return None;
      }
      host := uri[..endRb + 1];
      uri := uri[endRb + 1..];
      if uri != "" {
        if uri[0] != ':' {
          return None;
        }
        port := Some(uri[1..]);
      }
    } else {
      var p := LastIndexOf(uri, ':');
      if p < |uri| {
        port := Some(uri[p + 1..]);
        host := uri[..p];
      }
    }
    r := Some(Authority(userInfo, host, port));
  }

  /** `dissect_uri`, between scheme and query. */
  method DissectHier(s: string) returns (r: Option<(Option<Authority>, string)>)
    ensures r == SplitHier(s)
  {
    if !StartsWith(s, "//") {
      return Some((None, s));
    }
    var uri := s[2..];
    var path := "";
    var pstart := IndexOf(uri, '/');
    if pstart < |uri| {
      path := uri[pstart..];
    }
    assert path == uri[pstart..];
    var auth := DissectAuthority(uri[..pstart]);
    if auth == None {
      return None;
    }
    r := Some((auth, path));
  }

  /** `dissect_uri` after the scheme, before the validation. */
  method DissectRest(scheme: string, rest: string) returns (r: Option<Uri>)
    ensures r == SplitRest(scheme, rest)
  {
    var uri, query, fragment := DissectTail(rest);
    var hier := DissectHier(uri);
    r := Assembled(scheme, hier, query, fragment);
  }

  /** `dissect_uri` before the validation: fills the fields while removing prefixes of the view. */
  method DissectFields(text: string) returns (r: Option<Uri>)
    ensures r == Split(text)
  {
    var colon := IndexOf(text, ':');
    if colon == |text| || colon <= 1 {
      return None;
    }
    r := DissectRest(text[..colon], text[colon + 1..]);
  }

  /** `dissect_uri` */
  method DissectUri(text: string) returns (r: Option<Uri>)
    ensures r == Dissect(text)
  {
    r := DissectFields(text);
    if r.Some? {
      r := ValidateOrReset(r.value);
    }
  }
}

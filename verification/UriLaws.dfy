/** Parsing and printing of URIs are inverse to each other (sections 3 and 5.3 of RFC 3986). */
module UriLaws {
  import opened Basics
  import opened Encoding
  import opened UriSyntax

  // ----- what validity excludes -----

  /** No valid text holds a character outside the class, `%` apart. */
  lemma {:induction false} ValidTextExcludes(s: string, t: CharClass, pct: bool, c: char)
    requires ValidText(s, t, pct) && !InClass(c, t) && c != '%' && HexValue(c).None?
    ensures c !in s
    decreases |s|
  {
    if s != "" {
      if InClass(s[0], t) {
        ValidTextExcludes(s[1..], t, pct, c);
      } else {
        ValidTextExcludes(s[3..], t, pct, c);
      }
    }
  }

  // ----- host and port -----

  /** Hosts that the authority syntax keeps apart from the port. */
  predicate HostSeparable(host: string, port: Option<string>)
  {
    if StartsWith(host, "[") then IndexOf(host, ']') == |host| - 1
    else port.None? ==> ':' !in host
  }

  lemma BracketedHost(s: string, rb: nat)
    requires rb == IndexOf(s, ']') < |s|
    ensures IndexOf(s[..rb + 1], ']') == rb
  {
    IndexOfPasses(s, ']');
    assert s[..rb + 1] == s[..rb] + [']'] + "";
    IndexOfSplit(s[..rb], ']', "");
  }

  lemma SplitHostPortPrints(s: string)
    requires SplitHostPort(s).Some?
    ensures var r := SplitHostPort(s).value;
            HostPort(r.0, r.1) == s && HostSeparable(r.0, r.1)
  {
    hide IndexOf, LastIndexOf;
    if StartsWith(s, "[") {
      var rb := IndexOf(s, ']');
      BracketedHost(s, rb);
      assert s[..rb + 1] + s[rb + 1..] == s;
      if s[rb + 1..] != "" { assert s[rb + 1..] == ":" + s[rb + 2..]; }
    } else {
      var i := LastIndexOf(s, ':');
      LastIndexOfPasses(s, ':');
      if i < |s| { assert s == s[..i] + (":" + s[i + 1..]); } else { assert s + "" == s; }
    }
  }

  lemma BracketsSplit(host: string, port: Option<string>)
    requires StartsWith(host, "[") && IndexOf(host, ']') == |host| - 1
    ensures SplitHostPort(HostPort(host, port)) == Some((host, port))
  {
    hide IndexOf, LastIndexOf;
    var s, rb, tail := HostPort(host, port), |host| - 1, Optional(":", port);
    IndexOfPasses(host, ']');
    assert host[rb] == ']' && s == host + tail;
    assert s == host[..rb] + [']'] + tail;
    IndexOfSplit(host[..rb], ']', tail);
    assert s[..rb + 1] == host && s[rb + 1..] == tail && s[0] == host[0];
    if port.Some? { assert tail[0] == ':' && tail[1..] == port.value; }
  }

  lemma PortSplits(host: string, port: string)
    requires !StartsWith(host, "[") && ':' !in port
    ensures SplitHostPort(HostPort(host, Some(port))) == Some((host, Some(port)))
  {
    hide IndexOf, LastIndexOf, StartsWith;
    var s := HostPort(host, Some(port));
    AroundColon(host, port);
    LastIndexOfSplit(host, ':', port);
  }

  lemma AroundColon(host: string, port: string)
    ensures var s := HostPort(host, Some(port));
            && s == host + [':'] + port && s[..|host|] == host && s[|host| + 1..] == port
            && (StartsWith(s, "[") <==> StartsWith(host, "["))
  {
    var s := host + [':'] + port;
    assert HostPort(host, Some(port)) == s;
    assert s[0] == if host == "" then ':' else host[0];
  }

  lemma HostPortSplits(host: string, port: Option<string>)
    requires HostSeparable(host, port)
    requires port.Some? ==> ':' !in port.value
    ensures SplitHostPort(HostPort(host, port)) == Some((host, port))
  {
    if StartsWith(host, "[") {
      BracketsSplit(host, port);
    } else if port.Some? {
      PortSplits(host, port.value);
    } else {
      assert HostPort(host, port) == host + "" == host;
      LastIndexOfAbsent(host, ':');
    }
  }

  // ----- authority -----

  /** What makes an authority readable back from its text, beyond the validation. */
  predicate AuthoritySeparable(a: Authority)
  {
    && HostSeparable(a.host, a.port)
    && (a.userInfo.None? ==> '@' !in a.host)
    && '/' !in a.host && '?' !in a.host && '#' !in a.host
  }

  /** Everything `dissect_uri` can produce as an authority. */
  predicate WellFormedAuthority(a: Authority)
  {
    AuthorityAccepted(a) && AuthoritySeparable(a)
  }

  lemma HostInText(a: Authority)
    ensures forall c | c in a.host :: c in HostPort(a.host, a.port) && c in AuthorityText(a)
  {
  }

  lemma SplitAround(s: string, at: nat)
    requires at < |s|
    ensures s == s[..at] + [s[at]] + s[at + 1..]
  {
  }

  lemma SplitAuthorityPrints(s: string)
    requires SplitAuthority(s).Some?
    ensures var a := SplitAuthority(s).value;
            AuthorityText(a) == s && HostSeparable(a.host, a.port)
            && (a.userInfo.None? ==> '@' !in a.host)
  {
    var at := IndexOf(s, '@');
    var a := SplitAuthority(s).value;
    if at < |s| {
      SplitAround(s, at);
      SplitHostPortPrints(s[at + 1..]);
    } else {
      IndexOfPasses(s, '@');
      assert s[..at] == s;
      SplitHostPortPrints(s);
      HostInText(a);
    }
  }

  lemma AuthoritySplits(a: Authority)
    requires WellFormedAuthority(a)
    ensures SplitAuthority(AuthorityText(a)) == Some(a)
  {
    hide SplitHostPort, HostAccepted, HostSeparable, IndexOf, ValidText;
    var hp := HostPort(a.host, a.port);
    if a.port.Some? {
      ValidTextExcludes(a.port.value, Num, false, ':');
      ValidTextExcludes(a.port.value, Num, false, '@');
    }
    HostPortSplits(a.host, a.port);
    if a.userInfo.Some? {
      ValidTextExcludes(a.userInfo.value, UserInfo, true, '@');
      IndexOfSplit(a.userInfo.value, '@', hp);
      var s := a.userInfo.value + ['@'] + hp;
      assert AuthorityText(a) == s;
      assert s[..|a.userInfo.value|] == a.userInfo.value && s[|a.userInfo.value| + 1..] == hp;
    } else {
      assert AuthorityText(a) == hp;
      assert '@' !in hp;
      IndexOfAbsent(hp, '@');
    }
  }

  /** The text of an authority stops before path, query and fragment. */
  lemma AuthorityTextExcludes(a: Authority, c: char)
    requires WellFormedAuthority(a) && (c == '/' || c == '?' || c == '#')
    ensures c !in AuthorityText(a)
  {
    if a.userInfo.Some? { ValidTextExcludes(a.userInfo.value, UserInfo, true, c); }
    if a.port.Some? { ValidTextExcludes(a.port.value, Num, false, c); }
  }

  // ----- hierarchy -----

  /** Which path goes with which authority (section 3.3 of RFC 3986). */
  predicate PathFits(auth: Option<Authority>, path: string)
  {
    if auth.Some? then path == "" || path[0] == '/' else !StartsWith(path, "//")
  }

  /** The facts about an authority that its text alone decides. */
  ghost predicate ReadFrom(a: Authority, text: string)
  {
    && AuthorityText(a) == text && HostSeparable(a.host, a.port)
    && (a.userInfo.None? ==> '@' !in a.host)
  }

  lemma HierTextOf(s: string, p: nat, a: Authority)
    requires StartsWith(s, "//") && p <= |s| - 2 && AuthorityText(a) == s[2..2 + p]
    ensures HierText(Some(a), s[2 + p..]) == s
  {
    assert s == ("//" + s[2..2 + p]) + s[2 + p..];
  }

  /** One step of `SplitHier` for a text with an authority. */
  lemma SplitHierStep(s: string) returns (p: nat)
    requires StartsWith(s, "//")
    ensures p == IndexOf(s[2..], '/') <= |s| - 2
    ensures var a := SplitAuthority(s[2..2 + p]);
            SplitHier(s) == if a.None? then None else Some((a, s[2 + p..]))
  {
    p := IndexOf(s[2..], '/');
    assert s[2..][..p] == s[2..2 + p] && s[2..][p..] == s[2 + p..];
  }

  lemma SplitHierPrints(s: string)
    requires SplitHier(s).Some?
    ensures var r := SplitHier(s).value; HierText(r.0, r.1) == s && PathFits(r.0, r.1)
    ensures var r := SplitHier(s).value; r.0.Some? ==>
              '/' !in AuthorityText(r.0.value) && ReadFrom(r.0.value, AuthorityText(r.0.value))
  {
    hide SplitAuthority, AuthorityText, IndexOf, HostSeparable;
    if StartsWith(s, "//") {
      var p := SplitHierStep(s);
      SplitAuthorityPrints(s[2..2 + p]);
      HierTextOf(s, p, SplitAuthority(s[2..2 + p]).value);
      IndexOfPasses(s[2..], '/');
      assert s[2..][..p] == s[2..2 + p];
    }
  }

  /** The path begins at the first slash after the authority. */
  lemma PathStart(text: string, path: string)
    requires '/' !in text && (path == "" || path[0] == '/')
    ensures IndexOf(text + path, '/') == |text|
    ensures (text + path)[..|text|] == text && (text + path)[|text|..] == path
  {
    if path == "" {
      assert text + path == text;
      IndexOfAbsent(text, '/');
    } else {
      assert text + path == text + ['/'] + path[1..];
      IndexOfSplit(text, '/', path[1..]);
    }
  }

  lemma HierSplits(auth: Option<Authority>, path: string)
    requires PathFits(auth, path)
    requires auth.Some? ==> WellFormedAuthority(auth.value)
    ensures SplitHier(HierText(auth, path)) == Some((auth, path))
  {
    hide SplitAuthority, AuthorityText, IndexOf, WellFormedAuthority;
    if auth.Some? {
      var text := AuthorityText(auth.value);
      var s := HierText(auth, path);
      AuthorityTextExcludes(auth.value, '/');
      AuthoritySplits(auth.value);
      PathStart(text, path);
      assert s[2..] == text + path;
      var p := SplitHierStep(s);
      assert s[2..2 + p] == text && s[2 + p..] == path;
    } else {
      assert HierText(auth, path) == path;
    }
  }

  // ----- query and fragment -----

  lemma QueryPrints(q: string)
    ensures var f := IndexOf(q, '#');
            "?" + q == TailText(Some(q[..f]), if f < |q| then Some(q[f + 1..]) else None)
  {
    hide IndexOf;
    var f := IndexOf(q, '#');
    if f < |q| {
      SplitAround(q, f);
      assert "?" + q == ("?" + q[..f]) + ("#" + q[f + 1..]);
    } else {
      assert q[..f] == q && ("?" + q) + "" == "?" + q;
    }
  }

  lemma FragmentPrints(f: string)
    ensures TailText(None, Some(f)) == "#" + f && TailText(None, None) == ""
  {
  }

  lemma SplitTailPrints(s: string)
    ensures var t := SplitTail(s);
            t.0 + TailText(t.1, t.2) == s && '?' !in t.0 && '#' !in t.0
  {
    hide IndexOf, TailText;
    var cut := IndexOfEither(s, '?', '#');
    IndexOfEitherPasses(s, '?', '#');
    if cut == |s| {
      assert s[..cut] + "" == s;
      FragmentPrints("");
    } else {
      var rest := s[cut + 1..];
      assert s == s[..cut] + ([s[cut]] + rest);
      QueryPrints(rest);
      FragmentPrints(rest);
    }
  }

  lemma TailSplits(body: string, query: Option<string>, fragment: Option<string>)
    requires '?' !in body && '#' !in body
    requires query.Some? ==> '#' !in query.value
    ensures SplitTail(body + TailText(query, fragment)) == (body, query, fragment)
  {
    hide IndexOf, IndexOfEither, TailText, SplitTail;
    var tail := TailText(query, fragment);
    TailMark(query, fragment);
    if tail == "" {
      assert body + tail == body;
      IndexOfEitherAbsent(body, '?', '#');
      SplitNoTail(body);
    } else {
      AroundMark(body, tail);
      IndexOfEitherSplit(body, '?', '#', tail[0], tail[1..]);
      SplitAtMark(body + tail, |body|);
      QueryFragmentSplit(query, fragment);
    }
  }

  lemma SplitNoTail(s: string)
    requires IndexOfEither(s, '?', '#') == |s|
    ensures SplitTail(s) == (s, None, None)
  {
  }

  /** What the first mark makes of the rest. */
  lemma SplitAtMark(s: string, cut: nat)
    requires IndexOfEither(s, '?', '#') == cut < |s|
    ensures var rest := s[cut + 1..];
            SplitTail(s) == if s[cut] == '#' then (s[..cut], None, Some(rest))
                            else
                              var f := IndexOf(rest, '#');
                              (s[..cut], Some(rest[..f]), if f < |rest| then Some(rest[f + 1..]) else None)
  {
    hide IndexOf, IndexOfEither;
  }

  lemma TailMark(query: Option<string>, fragment: Option<string>)
    ensures var tail := TailText(query, fragment);
            if query.Some? then tail != "" && tail[0] == '?'
            else if fragment.Some? then tail != "" && tail[0] == '#'
            else tail == ""
  {
  }

  lemma AroundMark(body: string, tail: string)
    requires tail != ""
    ensures var s := body + tail;
            s == body + [tail[0]] + tail[1..] && s[..|body|] == body && s[|body|..] == tail
            && s[|body| + 1..] == tail[1..] && s[|body|] == tail[0]
  {
  }

  lemma QueryFragmentSplit(query: Option<string>, fragment: Option<string>)
    requires query.Some? ==> '#' !in query.value
    ensures query.None? && fragment.Some? ==> TailText(query, fragment) == "#" + fragment.value
    ensures query.Some? ==>
              var q := query.value + Optional("#", fragment);
              TailText(query, fragment) == "?" + q
              && IndexOf(q, '#') == |query.value| && q[..|query.value|] == query.value
              && (fragment.Some? <==> |query.value| < |q|)
              && (fragment.Some? ==> q[|query.value| + 1..] == fragment.value)
  {
    if query.Some? {
      var f := Optional("#", fragment);
      var q := query.value + f;
      assert TailText(query, fragment) == "?" + q by {
        assert ("?" + query.value) + f == "?" + q;
      }
      HashAfterQuery(query.value, fragment);
    }
  }

  lemma HashAfterQuery(query: string, fragment: Option<string>)
    requires '#' !in query
    ensures var q := query + Optional("#", fragment);
            IndexOf(q, '#') == |query| && q[..|query|] == query
            && (fragment.Some? ==> q[|query| + 1..] == fragment.value)
  {
    if fragment.Some? {
      assert query + Optional("#", fragment) == query + ['#'] + fragment.value;
      IndexOfSplit(query, '#', fragment.value);
    } else {
      assert query + Optional("#", fragment) == query;
      IndexOfAbsent(query, '#');
    }
  }

  // ----- the whole URI -----

  /** Exactly the values that come out of `dissect_uri`. */
  predicate WellFormedUri(d: Uri)
  {
    && Accepted(d)
    && PathFits(d.auth, d.path) && '?' !in d.path
    && (d.auth.Some? ==> AuthoritySeparable(d.auth.value))
  }

  lemma PartsOfHier(auth: Option<Authority>, path: string)
    ensures forall c | c in path :: c in HierText(auth, path)
    ensures auth.Some? ==> forall c | c in auth.value.host :: c in HierText(auth, path)
  {
    if auth.Some? { HostInText(auth.value); }
  }

  /** Printing what was parsed gives the text back, and what was parsed is well-formed. */
  lemma DissectedTextReturns(u: string)
    requires Dissect(u).Some?
    ensures Text(Dissect(u).value) == u && WellFormedUri(Dissect(u).value)
  {
    hide SplitTail, SplitHier, ValidText, TailText, HierText, HostSeparable, HostPort, IndexOf;
    var colon := IndexOf(u, ':');
    var d := Dissect(u).value;
    var t := SplitTail(u[colon + 1..]);
    SplitTailPrints(u[colon + 1..]);
    SplitHierPrints(t.0);
    SplitAround(u, colon);
    PartsOfHier(d.auth, d.path);
    if d.auth.Some? { HostInText(d.auth.value); }
  }

  lemma BodyExcludes(d: Uri, c: char)
    requires WellFormedUri(d) && (c == '?' || c == '#')
    ensures c !in HierText(d.auth, d.path)
  {
    if c == '#' { ValidTextExcludes(d.path, PathQuery, true, c); }
    if d.auth.Some? { AuthorityTextExcludes(d.auth.value, c); }
  }

  /** Parsing what was printed gives the value back. */
  lemma PrintedDissects(d: Uri)
    requires WellFormedUri(d)
    ensures Dissect(Text(d)) == Some(d)
  {
    hide SplitTail, SplitHier, ValidText, TailText, HierText, HostSeparable, HostPort, IndexOf;
    var body := HierText(d.auth, d.path);
    var rest := body + TailText(d.query, d.fragment);
    var u := d.scheme + [':'] + rest;
    assert Text(d) == u;
    ValidTextExcludes(d.scheme, Scheme, false, ':');
    IndexOfSplit(d.scheme, ':', rest);
    assert u[..|d.scheme|] == d.scheme && u[|d.scheme| + 1..] == rest;
    BodyExcludes(d, '?');
    BodyExcludes(d, '#');
    if d.query.Some? { ValidTextExcludes(d.query.value, PathQuery, true, '#'); }
    TailSplits(body, d.query, d.fragment);
    HierSplits(d.auth, d.path);
  }

  /** The parser is exactly the inverse of the printer: it accepts a text, with result `d`,
      if and only if `d` is well-formed and prints as that text. */
  lemma DissectInvertsText(u: string, d: Uri)
    ensures Dissect(u) == Some(d) <==> WellFormedUri(d) && Text(d) == u
  {
    if Dissect(u) == Some(d) { DissectedTextReturns(u); }
    if WellFormedUri(d) && Text(d) == u { PrintedDissects(d); }
  }
}

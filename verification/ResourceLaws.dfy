/** `lexically_normal` is idempotent on URIs, and where it is not. */
module ResourceLaws {
  import opened Basics
  import opened Encoding
  import opened EncodingLaws
  import opened UriSyntax
  import opened UriLaws
  import opened PathTokens
  import opened NormalizePath
  import opened NormalizeLaws
  import opened EncodedPaths
  import opened ResourceLocation

  // ----- the parts of a normal form -----

  lemma {:induction false} LowerIsScheme(s: string)
    requires ValidText(s, Scheme, false)
    ensures ValidText(Lower(s), Scheme, false)
  {
    if s != "" {
      LowerIsScheme(s[1..]);
      assert Lower(s)[1..] == Lower(s[1..]);
    }
  }

  lemma LowerTwice(s: string)
    ensures Lower(Lower(s)) == Lower(s)
  {
  }

  /** Normalizing and encoding a path keeps its place next to the authority. */
  lemma NormalPathFits(auth: Option<Authority>, path: string)
    requires PathFits(auth, path) && '\\' !in path
    ensures PathFits(auth, Encoded(Normalized(path)))
  {
    if path == "" {
      NormalizedOfEmpty();
    } else {
      var names, slash := NormalizedIsNormal(path);
      var absolute := path[0] == '/';
      EncodedPathText(absolute, names, slash);
      EncodedNormalNames(names, slash, absolute);
      NoDoubleSlash(absolute, EncodedNames(names), slash);
    }
  }

  lemma NoDoubleSlash(absolute: bool, names: seq<string>, slash: bool)
    requires AllNames(names)
    ensures var t := PathText(absolute, names, slash);
            !StartsWith(t, "//") && (absolute ==> t != "" && t[0] == '/')
  {
    if names != [] {
      assert IsName(names[0]) && names[0][0] in names[0];
      var t := PathText(absolute, names, slash);
      assert t[if absolute then 1 else 0] == names[0][0];
    }
  }

  lemma NormalPathExcludes(path: string, c: char)
    requires '\\' !in path && c !in path && (c == '?' || c == '\\')
    ensures c !in Encoded(Normalized(path))
  {
    NormalizedChars(path);
    EncodedChars(Normalized(path));
    assert HexValue('?') == None && HexValue('\\') == None && !IsTolerable('\\');
  }

  /** The normal form of a well-formed URI is well-formed. */
  lemma NormalPartsWellFormed(d: Uri)
    requires WellFormedUri(d) && '\\' !in d.path
    ensures WellFormedUri(NormalParts(d))
  {
    LowerIsScheme(d.scheme);
    EncodedIsValid(Normalized(d.path));
    NormalPathFits(d.auth, d.path);
    NormalPathExcludes(d.path, '?');
  }

  lemma NormalizedIsAscii(path: string)
    requires ValidText(path, PathQuery, true)
    ensures IsAscii(Normalized(path))
  {
    var n := Normalized(path);
    ValidIsAscii(path);
    NormalizedChars(path);
    forall i | 0 <= i < |n| ensures (n[i] as int) < 128 {
      assert n[i] in n;
      if n[i] in path { var k :| 0 <= k < |path| && path[k] == n[i]; }
    }
  }

  /** The path of a normal form is normal: normalizing and encoding it again changes nothing. */
  lemma NormalPathStays(path: string)
    requires ValidText(path, PathQuery, true) && '\\' !in path
    ensures Encoded(Normalized(Encoded(Normalized(path)))) == Encoded(Normalized(path))
  {
    NormalizedIsAscii(path);
    AsciiEncodedTwice(Normalized(path));
    if path == "" {
      NormalizedOfEmpty();
    } else {
      var absolute := path[0] == '/';
      var names, slash := NormalizedIsNormal(path);
      EncodedPathText(absolute, names, slash);
      EncodedNormalNames(names, slash, absolute);
      NormalTextStays(EncodedNames(names), slash, absolute);
    }
  }

  lemma NormalPartsTwice(d: Uri)
    requires ValidText(d.path, PathQuery, true) && '\\' !in d.path
    ensures NormalParts(NormalParts(d)) == NormalParts(d)
  {
    LowerTwice(d.scheme);
    NormalPathStays(d.path);
  }

  // ----- backslashes -----

  /** No part of the URI holds the character. */
  predicate PartsExclude(d: Uri, c: char)
  {
    && c !in d.scheme && c !in d.path
    && (d.auth.Some? ==> c !in AuthorityText(d.auth.value))
    && (d.query.Some? ==> c !in d.query.value)
    && (d.fragment.Some? ==> c !in d.fragment.value)
  }

  lemma TextExcludes(d: Uri, c: char)
    requires c !in ":/?#"
    ensures c !in Text(d) <==> PartsExclude(d, c)
  {
    hide AuthorityText;
    var h, t := HierText(d.auth, d.path), TailText(d.query, d.fragment);
    assert c in h <==> c in d.path || (d.auth.Some? && c in AuthorityText(d.auth.value));
    assert c in t <==> (d.query.Some? && c in d.query.value) || (d.fragment.Some? && c in d.fragment.value);
    assert Text(d) == d.scheme + ":" + (h + t);
  }

  lemma NoBackslash(s: string)
    ensures '\\' !in Slashes(s)
  {
  }

  lemma NormalPartsExclude(d: Uri)
    requires PartsExclude(d, '\\')
    ensures PartsExclude(NormalParts(d), '\\')
  {
    NormalPathExcludes(d.path, '\\');
    assert forall i | 0 <= i < |d.scheme| :: d.scheme[i] in d.scheme;
  }

  // ----- idempotence -----

  /** The normal form of a text that dissects (after the backslashes are replaced). */
  lemma NormalOfUri(uri: string) returns (d: Uri)
    requires Dissect(Slashes(uri)).Some?
    requires Dissect(Slashes(uri)).value.path != "" || '\\' in uri
    ensures d == Dissect(Slashes(uri)).value
    ensures LexicallyNormal(uri) == Text(NormalParts(d))
    ensures WellFormedUri(d) && PartsExclude(d, '\\')
    ensures '\\' !in LexicallyNormal(uri) && Dissect(LexicallyNormal(uri)) == Some(NormalParts(d))
  {
    var u := Slashes(uri);
    d := Dissect(u).value;
    NoBackslash(uri);
    DissectedTextReturns(u);
    TextExcludes(d, '\\');
    NormalPartsWellFormed(d);
    PrintedDissects(NormalParts(d));
    NormalPartsExclude(d);
    TextExcludes(NormalParts(d), '\\');
  }

  /** Normalizing the normal form of a URI changes nothing. */
  lemma LexicallyNormalTwice(uri: string)
    requires Dissect(Slashes(uri)).Some?
    ensures LexicallyNormal(LexicallyNormal(uri)) == LexicallyNormal(uri)
  {
    if Dissect(Slashes(uri)).value.path == "" && '\\' !in uri {
      assert LexicallyNormal(uri) == uri;
    } else {
      var d := NormalOfUri(uri);
      NormalAgain(d);
    }
  }

  lemma NormalAgain(d: Uri)
    requires WellFormedUri(d) && PartsExclude(d, '\\')
    requires '\\' !in Text(NormalParts(d)) && Dissect(Text(NormalParts(d))) == Some(NormalParts(d))
    ensures LexicallyNormal(Text(NormalParts(d))) == Text(NormalParts(d))
  {
    SlashesOfClean(Text(NormalParts(d)));
    NormalPartsTwice(d);
  }

  /** A URI that is its own normal form, seen through its parts. */
  predicate NormalUri(d: Uri)
  {
    d.path == "" || NormalParts(d) == d
  }

  /** Texts that are no URIs are normalized as plain paths; the result may read as a URI. */
  lemma PlainNormalTwice(u: string, uri: string)
    requires u == Slashes(uri) && Dissect(u).None?
    ensures LexicallyNormal(LexicallyNormal(uri)) == LexicallyNormal(uri) <==>
            Dissect(Normalized(u)).None? || NormalUri(Dissect(Normalized(u)).value)
  {
    var r := Normalized(u);
    NoBackslash(uri);
    NormalizedChars(u);
    NormalizedTwice(u);
    SlashesOfClean(r);
    if Dissect(r).Some? {
      var d := Dissect(r).value;
      DissectedTextReturns(r);
      if d.path != "" {
        TextExcludes(d, '\\');
        NormalPartsWellFormed(d);
        PrintedDissects(NormalParts(d));
      }
    }
  }

  // ----- an accepted URI whose normal form is not normal -----

  /** The host swallows the backslashes: it begins and ends with a digit. */
  function SwallowingUri(): (d: Uri)
  {
    Uri("aa", Some(Authority(None, "1 \\..\\..\\bb:1", Some("2"))), "", None, None)
  }

  const SWALLOWING := "aa://1 \\..\\..\\bb:1:2"

  lemma TextWithPort(scheme: string, host: string, port: string)
    ensures Text(Uri(scheme, Some(Authority(None, host, Some(port))), "", None, None))
            == scheme + ":" + ("//" + (host + ":" + port))
  {
    var a := Authority(None, host, Some(port));
    assert HostPort(host, Some(port)) == host + (":" + port) == host + ":" + port;
    assert AuthorityText(a) == HostPort(host, Some(port));
    assert HierText(Some(a), "") + TailText(None, None) == "//" + AuthorityText(a);
  }

  lemma SwallowingText()
    ensures Text(SwallowingUri()) == SWALLOWING
  {
    hide Text;
    TextWithPort("aa", "1 \\..\\..\\bb:1", "2");
  }

  lemma ShortTextsValid()
    ensures ValidText("aa", Scheme, false) && ValidText("bb", Scheme, false)
    ensures ValidText("2", Num, false) && ValidText("", PathQuery, true) && ValidText("1:2", PathQuery, true)
  {
    assert "aa"[1..] == "a" && "a"[1..] == "" && "bb"[1..] == "b" && "b"[1..] == "";
    assert "2"[1..] == "" && "1:2"[1..] == ":2" && ":2"[1..] == "2";
  }

  lemma SwallowingHost()
    ensures WellFormedAuthority(SwallowingUri().auth.value)
  {
    hide ValidText, IndexOf;
    ShortTextsValid();
    LegalHost(SwallowingUri().auth.value.host);
  }

  lemma LegalHost(host: string)
    requires host == "1 \\..\\..\\bb:1"
    ensures HostAccepted(host) && !StartsWith(host, "[")
    ensures '@' !in host && '/' !in host && '?' !in host && '#' !in host
  {
    hide ValidText;
    assert host[0] == '1' && host[|host| - 1] == '1';
  }

  lemma SwallowingAccepted()
    ensures Dissect(SWALLOWING) == Some(SwallowingUri())
  {
    hide ValidText, AuthorityAccepted, AuthoritySeparable, Dissect, Text;
    ShortTextsValid();
    SwallowingHost();
    SwallowingText();
    PrintedDissects(SwallowingUri());
  }

  lemma SwallowingSlashed()
    ensures Slashes(SWALLOWING) == "aa://1 /../../bb:1:2"
  {
  }

  lemma SlashedHier()
    ensures SplitHier("//1 /../../bb:1:2") == Some((Some(Authority(None, "1 ", None)), "/../../bb:1:2"))
  {
    hide SplitAuthority, IndexOf;
    var rest := "//1 /../../bb:1:2";
    var p := SplitHierStep(rest);
    PathStart("1 ", "/../../bb:1:2");
    assert rest[2..] == "1 " + "/../../bb:1:2" && rest[2..2 + 2] == "1 " && rest[2 + 2..] == "/../../bb:1:2";
    PlainAuthority();
  }

  lemma SlashedTail()
    ensures SplitTail("//1 /../../bb:1:2") == ("//1 /../../bb:1:2", None, None)
  {
    IndexOfEitherAbsent("//1 /../../bb:1:2", '?', '#');
  }

  lemma SlashedSplit()
    ensures Split("aa://1 /../../bb:1:2")
            == Some(Uri("aa", Some(Authority(None, "1 ", None)), "/../../bb:1:2", None, None))
  {
    hide SplitHier, SplitTail, IndexOf;
    var u := "aa://1 /../../bb:1:2";
    var rest := "//1 /../../bb:1:2";
    assert u == "aa" + [':'] + rest;
    IndexOfSplit("aa", ':', rest);
    assert u[..2] == "aa" && u[3..] == rest;
    SlashedTail();
    SlashedHier();
  }

  lemma SlashedRejected()
    ensures Dissect("aa://1 /../../bb:1:2") == None
  {
    hide Split, AuthorityAccepted, ValidText;
    SlashedSplit();
    SpaceRejected();
  }

  lemma PlainAuthority()
    ensures SplitAuthority("1 ") == Some(Authority(None, "1 ", None))
  {
    IndexOfAbsent("1 ", '@');
    LastIndexOfAbsent("1 ", ':');
  }

  lemma SpaceRejected()
    ensures !AuthorityAccepted(Authority(None, "1 ", None))
  {
    assert "1 "[1..] == " ";
  }

  lemma TailStep(name: string, names: seq<string>)
    ensures Tail([name] + names, false) == "/" + (name + Tail(names, false))
  {
    assert ([name] + names)[1..] == names;
  }

  lemma SwallowedTail()
    ensures Tail(["1 ", "..", "..", "bb:1:2"], false) == "/1 /../../bb:1:2"
  {
    hide Tail;
    TailStep("bb:1:2", []);
    TailStep("..", ["bb:1:2"]);
    TailStep("..", ["..", "bb:1:2"]);
    TailStep("1 ", ["..", "..", "bb:1:2"]);
    TailEmpty();
    assert ["bb:1:2"] + [] == ["bb:1:2"] && [".."] + ["bb:1:2"] == ["..", "bb:1:2"];
    assert [".."] + ["..", "bb:1:2"] == ["..", "..", "bb:1:2"];
    assert ["1 "] + ["..", "..", "bb:1:2"] == ["1 ", "..", "..", "bb:1:2"];
  }

  lemma TailEmpty()
    ensures Tail([], false) == ""
  {
  }

  lemma SwallowedTokens()
    ensures Tokens("aa://1 /../../bb:1:2") == ["aa:"] + ["1 ", "..", "..", "bb:1:2"]
  {
    hide Tokens, Tail;
    SwallowedTail();
    assert IsName("1 ") && IsName("..") && IsName("bb:1:2") && IsName("aa:");
    DoubledTokens("aa:", ["1 ", "..", "..", "bb:1:2"]);
    assert "aa:" + ("/" + "/1 /../../bb:1:2") == "aa://1 /../../bb:1:2";
  }

  /** A doubled slash between a first name and the others. */
  lemma DoubledTokens(name: string, names: seq<string>)
    requires IsName(name) && AllNames(names) && names != []
    ensures Tokens(name + ("/" + Tail(names, false))) == [name] + names
  {
    hide Segments, IsName;
    var t := Tail(names, false);
    SegmentsOfTail(names, false);
    SegmentsExtraSlash(t);
    SegmentsOfName(name, "/" + t);
    NameStartsPlain(name, "/" + t);
    assert names + [] == names;
  }

  lemma NameStartsPlain(name: string, rest: string)
    requires IsName(name)
    ensures name + rest != "" && !IsSlash((name + rest)[0])
  {
    assert (name + rest)[0] == name[0] && name[0] in name;
  }

  lemma SwallowedResolved()
    ensures Resolved([], ["aa:"] + ["1 ", "..", "..", "bb:1:2"], false) == ["bb:1:2"]
  {
    var n1 := ["1 ", "..", "..", "bb:1:2"];
    var n2, n3, n4 := ["..", "..", "bb:1:2"], ["..", "bb:1:2"], ["bb:1:2"];
    assert (["aa:"] + n1)[1..] == n1 && n1[1..] == n2 && n2[1..] == n3 && n3[1..] == n4 && n4[1..] == [];
    assert Resolved(["aa:", "1 "], n2, false) == Resolved(["aa:"], n3, false) == Resolved([], n4, false);
    assert [] + ["aa:"] == ["aa:"] && ["aa:"] + ["1 "] == ["aa:", "1 "];
    assert Resolved([], ["aa:"] + n1, false) == Resolved(["aa:"], n1, false) == Resolved(["aa:", "1 "], n2, false);
  }

  lemma SwallowedNormalized()
    ensures Normalized("aa://1 /../../bb:1:2") == "bb:1:2"
  {
    hide Tokens, Resolved, Normalized;
    var u := "aa://1 /../../bb:1:2";
    var names := ["aa:"] + ["1 ", "..", "..", "bb:1:2"];
    SwallowedTokens();
    SwallowedResolved();
    assert IsName("1 ") && IsName("..") && IsName("bb:1:2") && IsName("aa:");
    assert Root(false) + (names + Mark(false)) == names;
    NormalizedElements(u, names, false, false);
    assert ["bb:1:2"][1..] == [];
    assert u[|u| - 1..] == "2";
  }

  lemma ColonTexts()
    ensures Text(Uri("bb", None, "1:2", None, None)) == "bb:1:2"
    ensures Text(Uri("bb", None, "1%3A2", None, None)) == "bb:1%3A2"
  {
    assert HierText(None, "1:2") + TailText(None, None) == "1:2";
    assert HierText(None, "1%3A2") + TailText(None, None) == "1%3A2";
  }

  lemma SwallowedAgain()
    ensures LexicallyNormal("bb:1:2") == "bb:1%3A2"
  {
    hide ValidText, Dissect, Text, Encoded, Normalized;
    var d := Uri("bb", None, "1:2", None, None);
    ColonTexts();
    ShortTextsValid();
    assert '?' !in "1:2" && '\\' !in "bb:1:2";
    PrintedDissects(d);
    SlashesOfClean("bb:1:2");
    ColonEncoded();
    assert Lower("bb") == "bb";
  }

  lemma ColonNormalized()
    ensures Normalized("1:2") == "1:2"
  {
    hide Normalized, Tokens;
    TokensOfRel(["1:2"], false);
    assert ["1:2"][1..] == [];
    assert "1:2" == RelText(["1:2"], false);
    assert Root(false) + (["1:2"] + Mark(false)) == ["1:2"];
    NormalizedElements("1:2", ["1:2"], false, false);
    assert "1:2"[2..] == "2";
  }

  lemma EncodedStep(c: char, rest: string)
    requires c != '%' && c != '\\'
    ensures Encoded([c] + rest) == UriChar(c, true) + Encoded(rest)
  {
    NoGroup([c] + rest);
    assert ([c] + rest)[1..] == rest;
  }

  lemma ColonEncoded()
    ensures Encoded(Normalized("1:2")) == "1%3A2"
  {
    hide Encoded, Normalized;
    ColonNormalized();
    EncodedStep('1', ":2");
    EncodedStep(':', "2");
    EncodedStep('2', "");
    EncodedEmpty();
    assert "1:2" == ['1'] + ":2" && ":2" == [':'] + "2" && "2" == ['2'] + "";
    assert UriChar(':', true) == "%3A";
  }

  /** `dissect_uri` accepting a text is not enough for idempotence: a backslash in the host is
      replaced before the text is dissected a second time. */
  lemma AcceptedNotNormalTwice()
    ensures Dissect(SWALLOWING).Some?
    ensures LexicallyNormal(LexicallyNormal(SWALLOWING)) != LexicallyNormal(SWALLOWING)
  {
    hide Dissect, Normalized, Text;
    SwallowingAccepted();
    SwallowingSlashed();
    SlashedRejected();
    SwallowedNormalized();
    SwallowedAgain();
    assert LexicallyNormal(SWALLOWING) == "bb:1:2";
    assert "bb:1%3A2"[4] != "bb:1:2"[4];
  }
}

/** Locations that are no URIs: `lexically_normal` treats them as plain paths, and the result may
    read as a URI the next time. When it does, and when that changes it, in terms of the text. */
module PlainLocations {
  import opened Basics
  import opened Encoding
  import opened EncodingLaws
  import opened UriSyntax
  import opened UriLaws
  import opened PathPieces
  import opened PathTokens
  import opened NormalizePath
  import opened NormalizeLaws
  import opened EncodedPaths
  import opened ResourceLocation
  import opened ResourceLaws

  // ----- texts that encoding leaves alone -----

  /** Tolerable characters, and upper-case groups that spell characters. */
  predicate AlreadyEncoded(s: string)
    decreases |s|
  {
    if s == "" then true
    else
      var n := 3 * EncodedSize(s);
      if n > 0 then Upper(s[..n]) == s[..n] && AlreadyEncoded(s[n..])
      else IsTolerable(s[0]) && AlreadyEncoded(s[1..])
  }

  lemma SameFront(a: string, b: string, c: string, d: string)
    requires |a| == |c|
    ensures a + b == c + d <==> a == c && b == d
  {
    assert (a + b)[..|a|] == a && (a + b)[|a|..] == b && (c + d)[..|c|] == c && (c + d)[|c|..] == d;
  }

  lemma {:induction false} EncodedFixedIff(s: string)
    ensures Encoded(s) == s <==> AlreadyEncoded(s)
    decreases |s|
  {
    hide EncodedSize, Encoded, Upper, UriChar, IsTolerable;
    if s == "" {
      EncodedEmpty();
    } else {
      var k, piece := EncodedFirst(s);
      EncodedFixedIff(s[k..]);
      assert s == s[..k] + s[k..];
      if EncodedSize(s) > 0 {
        SameFront(piece, Encoded(s[k..]), s[..k], s[k..]);
      } else if IsTolerable(s[0]) {
        TolerableStays(s[0]);
        SameFront(piece, Encoded(s[k..]), s[..k], s[k..]);
      } else {
        EscapedDiffers(s);
      }
    }
  }

  lemma TolerableStays(c: char)
    requires IsTolerable(c)
    ensures UriChar(Slashed(c), true) == [c]
  {
    assert !IsTolerable('\\');
  }

  /** A character that is not kept makes the text longer, or becomes a slash. */
  lemma EscapedDiffers(s: string)
    requires s != "" && EncodedSize(s) == 0 && !IsTolerable(s[0])
    ensures Encoded(s) != s
  {
    hide Encoded;
    var k, piece := EncodedFirst(s);
    EncodedGrows(s[1..]);
    if s[0] == '\\' { assert Encoded(s)[0] == '/'; } else { assert |piece| == 3; }
  }

  // ----- texts that normalizing leaves alone -----

  /** The names between the slashes, and whether a slash comes last. */
  function NamesIn(p: string): (r: (seq<string>, bool))
  {
    var ps := Pieces(p);
    var body := if p != "" && p[0] == '/' then ps[1..] else ps;
    if body == [] then ([], false)
    else if body[|body| - 1] == "" then (body[..|body| - 1], true)
    else (body, false)
  }

  /** No doubled slash, no dot segment but one leading `..` of a relative path, and a final slash
      whenever the last name ends in a dot. */
  ghost predicate NormalText(p: string)
  {
    p == "" || NormalNames(NamesIn(p).0, NamesIn(p).1, p[0] == '/')
  }

  lemma SplitMark(names: seq<string>, slash: bool)
    requires AllNames(names) && (names != [] || slash)
    ensures var body := names + Mark(slash);
            body != [] && (body[|body| - 1] == "" <==> slash)
            && (slash ==> body[..|body| - 1] == names) && (!slash ==> body == names)
  {
    if !slash { assert IsName(names[|names| - 1]); }
  }

  /** The names of a text that was made of names. */
  lemma NamesInText(absolute: bool, names: seq<string>, slash: bool)
    requires AllNames(names) && (absolute || names != [])
    ensures var p := PathText(absolute, names, slash);
            p != "" && (p[0] == '/' <==> absolute) && NamesIn(p) == (names, slash || names == [])
  {
    hide Pieces, Tail;
    var p := PathText(absolute, names, slash);
    if absolute {
      AbsIsTail(names, slash);
      PiecesOfTail(names, slash || names == []);
      SlashInFront(p);
      SplitMark(names, slash || names == []);
    } else {
      var rest := Tail(names[1..], slash);
      assert names[0][0] in names[0] && p[0] == names[0][0];
      assert IsName(names[0]);
      PiecesInFront(names[0], rest);
      RestOfNames(names, slash);
      SplitMark(names, slash);
    }
  }

  lemma AbsIsTail(names: seq<string>, slash: bool)
    ensures AbsText(names, slash) == Tail(names, slash || names == [])
  {
  }

  lemma RestOfNames(names: seq<string>, slash: bool)
    requires AllNames(names) && names != []
    ensures var rest := Tail(names[1..], slash);
            (if rest == "" then [names[0]] else [names[0]] + Pieces(rest[1..])) == names + Mark(slash)
  {
    var rest := Tail(names[1..], slash);
    assert names == [names[0]] + names[1..];
    if rest != "" {
      PiecesOfTail(names[1..], slash);
    } else {
      assert names[1..] == [] && !slash;
    }
  }

  lemma MarkedBody(body: seq<string>) returns (names: seq<string>, slash: bool)
    requires body != []
    ensures slash <==> body[|body| - 1] == ""
    ensures names == (if slash then body[..|body| - 1] else body) && body == names + Mark(slash)
  {
    slash := body[|body| - 1] == "";
    names := if slash then body[..|body| - 1] else body;
  }

  /** A text whose pieces are names is the text of these names. */
  lemma TextOfNamesIn(p: string)
    requires p != "" && AllNames(NamesIn(p).0)
    ensures p == PathText(p[0] == '/', NamesIn(p).0, NamesIn(p).1)
    ensures p[0] != '/' ==> NamesIn(p).0 != []
  {
    if p[0] == '/' {
      SlashInFront(p);
      var names, slash := MarkedBody(Pieces(p[1..]));
      TailOfPieces(p, names, slash);
      if names == [] { assert Pieces(p[1..]) == Mark(slash) && slash; }
    } else {
      var names, slash := MarkedBody(Pieces(p));
      BareText(p, names, slash);
    }
  }

  lemma BareText(p: string, names: seq<string>, slash: bool)
    requires p != "" && p[0] != '/' && AllNames(names) && Pieces(p) == names + Mark(slash)
    ensures names != [] && p == RelText(names, slash)
  {
    var i := IndexOf(p, '/');
    if i == |p| {
      SingleMarked(names, slash, p);
      assert names[1..] == [] && p + "" == p;
    } else {
      var rest := p[i..];
      assert rest[1..] == p[i + 1..] && p == p[..i] + rest;
      FirstOfMarked(names, slash, p[..i], Pieces(rest[1..]));
      TailOfPieces(rest, names[1..], slash);
    }
  }

  /** Normalizing changes nothing exactly on normal texts. */
  lemma NormalizedFixedIff(p: string)
    requires '\\' !in p
    ensures Normalized(p) == p <==> NormalText(p)
  {
    hide NamesIn, Normalized, PathText, NormalNames;
    if p == "" {
      NormalizedOfEmpty();
    } else {
      var names, slash := NormalizedIsNormal(p);
      var absolute := p[0] == '/';
      NormalAreNames(names, slash, absolute);
      if Normalized(p) == p {
        if !absolute && names == [] { NoText(slash); } else {
          NamesInText(absolute, names, slash);
          EmptyIsNormal(names, slash, absolute);
        }
      }
      if NormalText(p) {
        NormalAreNames(NamesIn(p).0, NamesIn(p).1, absolute);
        TextOfNamesIn(p);
        NormalTextStays(NamesIn(p).0, NamesIn(p).1, absolute);
      }
    }
  }

  lemma NormalAreNames(names: seq<string>, slash: bool, absolute: bool)
    requires NormalNames(names, slash, absolute)
    ensures AllNames(names)
  {
  }

  lemma NoText(slash: bool)
    ensures PathText(false, [], slash) == ""
  {
  }

  lemma EmptyIsNormal(names: seq<string>, slash: bool, absolute: bool)
    requires NormalNames(names, slash, absolute)
    ensures NormalNames(names, slash || names == [], absolute)
  {
  }

  // ----- URIs that are their own normal form -----

  predicate LowerCase(s: string) { forall i | 0 <= i < |s| :: !('A' <= s[i] <= 'Z') }

  /** The URI that normalizing leaves alone, read off its parts. */
  ghost predicate SettledUri(d: Uri)
  {
    d.path == "" || (LowerCase(d.scheme) && NormalText(d.path) && AlreadyEncoded(d.path))
  }

  lemma LowerFixedIff(s: string)
    ensures Lower(s) == s <==> LowerCase(s)
  {
    if Lower(s) == s {
      assert forall i | 0 <= i < |s| :: LowerChar(s[i]) == Lower(s)[i] == s[i];
    }
  }

  /** The path is left alone by both steps. */
  lemma PathFixedIff(path: string)
    requires ValidText(path, PathQuery, true) && '\\' !in path
    ensures Encoded(Normalized(path)) == path <==> Normalized(path) == path && Encoded(path) == path
  {
    if path == "" {
      NormalizedOfEmpty();
    } else {
      var absolute := path[0] == '/';
      var names, slash := NormalizedIsNormal(path);
      hide Encoded, Normalized, PathText;
      NormalizedIsAscii(path);
      AsciiEncodedTwice(Normalized(path));
      EncodedPathText(absolute, names, slash);
      EncodedNormalNames(names, slash, absolute);
      NormalTextStays(EncodedNames(names), slash, absolute);
    }
  }

  lemma NormalUriIff(d: Uri)
    requires ValidText(d.path, PathQuery, true) && '\\' !in d.path
    ensures NormalUri(d) <==> SettledUri(d)
  {
    hide Encoded, Normalized, NormalText, AlreadyEncoded, Lower, LowerCase;
    LowerFixedIff(d.scheme);
    PathFixedIff(d.path);
    NormalizedFixedIff(d.path);
    EncodedFixedIff(d.path);
  }

  // ----- what a plain normal form reads as -----

  /** The URI that the plain normal form of `u` reads as: the scheme is what stands before the
      first `:` of the first resolved name; there is never an authority. */
  function PlainUri(u: string): (d: Option<Uri>)
  {
    if u == "" || u[0] == '/' then None
    else
      var ns := Resolved([], NamesAlong(u), false);
      if ns == [] then None else NameUri(ns[0], Tail(ns[1..], EndsWith(u, "/") || EndsWith(u, ".")))
  }

  function NameUri(name: string, tail: string): (d: Option<Uri>)
  {
    var colon := IndexOf(name, ':');
    if colon == |name| || colon <= 1 then None
    else
      var t := SplitTail(name[colon + 1..] + tail);
      var d := Uri(name[..colon], None, t.0, t.1, t.2);
      if Accepted(d) then Some(d) else None
  }

  lemma SlashBeforeColon(name: string, tail: string, n: nat)
    requires ':' !in name && (tail == "" || tail[0] == '/')
    requires n < |name + tail| && (name + tail)[n] == ':'
    ensures '/' in (name + tail)[..n]
  {
    var r := name + tail;
    assert forall k :: 0 <= k < |name| ==> r[k] == name[k];
    assert r[|name|] == tail[0];
    assert r[..n][|name|] == '/';
  }

  /** The `:` behind a scheme comes before the first slash. */
  lemma ColonlessIsNoUri(name: string, tail: string)
    requires ':' !in name && (tail == "" || tail[0] == '/')
    ensures Dissect(name + tail) == None
  {
    hide Dissect, ValidText, HierText, TailText;
    var r := name + tail;
    if Dissect(r).Some? {
      DissectedTextReturns(r);
      var d := Dissect(r).value;
      SchemeInFront(d);
      SlashBeforeColon(name, tail, |d.scheme|);
      ValidTextExcludes(d.scheme, Scheme, false, '/');
    }
  }

  lemma SchemeInFront(d: Uri)
    ensures |d.scheme| < |Text(d)| && Text(d)[|d.scheme|] == ':' && Text(d)[..|d.scheme|] == d.scheme
  {
    hide HierText, TailText;
    assert Text(d) == d.scheme + (":" + (HierText(d.auth, d.path) + TailText(d.query, d.fragment)));
  }

  lemma SlashedIsNoUri(r: string)
    requires r == "" || r[0] == '/'
    ensures Dissect(r) == None
  {
    assert "" + r == r;
    ColonlessIsNoUri("", r);
  }

  /** The path of such a URI never begins with a doubled slash. */
  lemma NoAuthority(rest: string)
    requires !StartsWith(rest, "//")
    ensures !StartsWith(SplitTail(rest).0, "//")
  {
    var t := SplitTail(rest);
    assert t.0 <= rest;
    if StartsWith(t.0, "//") { PrefixOfPrefix("//", t.0, rest); }
  }

  lemma PrefixOfPrefix(a: string, b: string, c: string)
    requires a <= b && b <= c
    ensures a <= c
  {
  }

  lemma NameReadsAs(name: string, tail: string)
    requires (tail == "" || tail[0] == '/') && !StartsWith(tail, "//") && '/' !in name
    ensures Dissect(name + tail) == NameUri(name, tail)
  {
    hide Dissect, Accepted, SplitTail, IndexOf, StartsWith;
    var colon := IndexOf(name, ':');
    IndexOfPasses(name, ':');
    if colon == |name| {
      assert name[..colon] == name;
      ColonlessIsNoUri(name, tail);
    } else {
      var scheme, rest := name[..colon], name[colon + 1..] + tail;
      assert name + tail == scheme + [':'] + rest;
      RestIsPlain(name, colon, tail);
      DissectsAs(scheme, rest);
    }
  }

  /** A scheme and a rest without an authority. */
  lemma DissectsAs(scheme: string, rest: string)
    requires ':' !in scheme && !StartsWith(rest, "//")
    ensures var t := SplitTail(rest);
            var d := Uri(scheme, None, t.0, t.1, t.2);
            Dissect(scheme + [':'] + rest) == if |scheme| > 1 && Accepted(d) then Some(d) else None
  {
    hide Accepted, SplitTail, IndexOf;
    var r := scheme + [':'] + rest;
    IndexOfSplit(scheme, ':', rest);
    assert r[..|scheme|] == scheme && r[|scheme| + 1..] == rest;
    NoAuthority(rest);
  }

  lemma RestIsPlain(name: string, colon: nat, tail: string)
    requires colon < |name| && '/' !in name && !StartsWith(tail, "//")
    ensures !StartsWith(name[colon + 1..] + tail, "//")
  {
    var m := name[colon + 1..];
    if m == "" {
      assert m + tail == tail;
    } else {
      assert (m + tail)[0] == name[colon + 1] && name[colon + 1] in name;
    }
  }

  lemma TailIsUndoubled(names: seq<string>, slash: bool)
    requires AllNames(names)
    ensures !StartsWith(Tail(names, slash), "//")
  {
    if names != [] {
      assert IsName(names[0]) && Tail(names, slash)[1] == names[0][0] && names[0][0] in names[0];
    }
  }

  /** The elements of a relative path are its names and a mark. */
  lemma RelativeElementsOf(u: string)
    requires u != "" && u[0] != '/' && '\\' !in u
    ensures AllNames(NamesAlong(u)) && NamesAlong(u) != []
    ensures Tokens(u) == Root(false) + (NamesAlong(u) + Mark(EndsWith(u, "/")))
  {
    hide Segments, EndsWith;
    var names, slash, absolute := ElementsOfPath(u);
    assert u[0] in u;
    SplitMark(names, slash);
    assert [] + (names + Mark(slash)) == names + Mark(slash);
    assert Segments(u) == names + Mark(slash);
    if |u| == 1 { OneChar(u); }
  }

  lemma OneChar(u: string)
    requires |u| == 1 && u[0] != '/'
    ensures !EndsWith(u, "/")
  {
    assert u[0..] == u;
  }

  /** How a plain normal form reads. */
  lemma PlainReadsAs(u: string)
    requires '\\' !in u
    ensures Dissect(Normalized(u)) == PlainUri(u)
  {
    hide Dissect, Tokens, Segments, NamesAlong, NameUri, Normalized, Tail, Resolved, EndsWith;
    if u == "" {
      NormalizedOfEmpty();
      SlashedIsNoUri("");
    } else if u[0] == '/' {
      var names, slash := NormalizedIsNormal(u);
      SlashedIsNoUri(Normalized(u));
    } else {
      RelativeElementsOf(u);
      NormalizedElements(u, NamesAlong(u), EndsWith(u, "/"), false);
      var ns := Resolved([], NamesAlong(u), false);
      if ns == [] {
        SlashedIsNoUri("");
      } else {
        var tail := Tail(ns[1..], EndsWith(u, "/") || EndsWith(u, "."));
        assert IsName(ns[0]);
        TailIsUndoubled(ns[1..], EndsWith(u, "/") || EndsWith(u, "."));
        NameReadsAs(ns[0], tail);
      }
    }
  }

  // ----- idempotence on every text -----

  /** A second call of `lexically_normal` changes nothing if and only if the text is a URI once its
      backslashes are replaced, or its first resolved name does not make it one, or what it makes
      of it has a lower-case scheme and a path that is normal and encoded already. */
  lemma LexicallyNormalTwiceIff(uri: string)
    ensures LexicallyNormal(LexicallyNormal(uri)) == LexicallyNormal(uri) <==>
            || Dissect(Slashes(uri)).Some?
            || PlainUri(Slashes(uri)).None?
            || SettledUri(PlainUri(Slashes(uri)).value)
  {
    hide LexicallyNormal, Dissect, PlainUri, SettledUri, NormalUri;
    if Dissect(Slashes(uri)).Some? {
      LexicallyNormalTwice(uri);
    } else {
      var u := Slashes(uri);
      NoBackslash(uri);
      PlainNormalTwice(u, uri);
      PlainReadsAs(u);
      if PlainUri(u).Some? {
        var d := PlainUri(u).value;
        DissectedTextReturns(Normalized(u));
        NormalizedChars(u);
        TextExcludes(d, '\\');
        NormalUriIff(d);
      }
    }
  }

  /** A URI that `dissect_uri` accepts holds backslashes only in its host, so that without them
      there its normal form is normal. */
  lemma AcceptedBackslashes(uri: string)
    requires Dissect(uri).Some?
    ensures var d := Dissect(uri).value;
            '\\' in uri <==> d.auth.Some? && '\\' in d.auth.value.host
    ensures '\\' !in uri ==> LexicallyNormal(LexicallyNormal(uri)) == LexicallyNormal(uri)
  {
    hide LexicallyNormal, Dissect;
    DissectedTextReturns(uri);
    var d := Dissect(uri).value;
    TextExcludes(d, '\\');
    ValidPartsExclude(d);
    if '\\' !in uri {
      SlashesOfClean(uri);
      LexicallyNormalTwice(uri);
    }
  }

  lemma ValidPartsExclude(d: Uri)
    requires WellFormedUri(d)
    ensures PartsExclude(d, '\\') <==> !(d.auth.Some? && '\\' in d.auth.value.host)
  {
    ValidTextExcludes(d.scheme, Scheme, false, '\\');
    ValidTextExcludes(d.path, PathQuery, true, '\\');
    if d.query.Some? { ValidTextExcludes(d.query.value, PathQuery, true, '\\'); }
    if d.fragment.Some? { ValidTextExcludes(d.fragment.value, PathQuery, true, '\\'); }
    if d.auth.Some? {
      var a := d.auth.value;
      if a.userInfo.Some? { ValidTextExcludes(a.userInfo.value, UserInfo, true, '\\'); }
      if a.port.Some? { ValidTextExcludes(a.port.value, Num, false, '\\'); }
      HostInText(a);
    }
  }
}

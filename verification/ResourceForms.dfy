/** What `lexically_normal`, `join` and `lexically_relative` keep and replace, part by part. */
module ResourceForms {
  import opened Basics
  import opened Encoding
  import opened EncodingAlphabets
  import opened UriSyntax
  import opened UriLaws
  import opened UriAlphabets
  import opened PathTokens
  import opened NormalizePath
  import opened EncodedPaths
  import opened ResourceLocation
  import opened ResourceLaws

  // ----- lexically_normal -----

  /** Every capital becomes the small letter at its place in the alphabet; nothing else changes. */
  lemma LowerCharIs(c: char)
    ensures forall i | 0 <= i < 26 :: LowerChar(UPPER[i]) == LOWER[i]
    ensures c !in UPPER ==> LowerChar(c) == c
    ensures LowerChar(c) !in UPPER
  {
    forall i | 0 <= i < 26 ensures |UPPER| == |LOWER| == 26 && LowerChar(UPPER[i]) == LOWER[i] {
      UpperAt(i);
      LowerAt(i);
    }
    UpperIs(c);
    UpperIs(LowerChar(c));
    UpperAt(0);
    LowerAt(0);
    hide UPPER, LOWER;
  }

  /** The same letter, or the small letter for a capital one. */
  predicate Lowered(c: char, l: char)
  {
    if c in UPPER then |LOWER| == |UPPER| && exists i | 0 <= i < |UPPER| :: UPPER[i] == c && LOWER[i] == l else l == c
  }

  lemma LowerCharLowers(c: char)
    ensures Lowered(c, LowerChar(c)) && LowerChar(c) !in UPPER
  {
    LowerCharIs(c);
    UpperAt(0);
    LowerAt(0);
    hide UPPER, LOWER, LowerChar;
    if c in UPPER { var i :| 0 <= i < |UPPER| && UPPER[i] == c; }
  }

  /** The normal form of a URI reads as the same URI with its scheme in small letters and its
      path normalized and encoded: authority, query and fragment stay. */
  lemma NormalKeepsParts(uri: string)
    requires Dissect(Slashes(uri)).Some?
    requires Dissect(Slashes(uri)).value.path != "" || '\\' in uri
    ensures var d, r := Dissect(Slashes(uri)).value, Dissect(LexicallyNormal(uri));
            && r.Some? && r.value.auth == d.auth && r.value.query == d.query && r.value.fragment == d.fragment
            && r.value.path == Encoded(Normalized(d.path))
            && |r.value.scheme| == |d.scheme|
            && forall i | 0 <= i < |d.scheme| ::
                 Lowered(d.scheme[i], r.value.scheme[i]) && r.value.scheme[i] !in UPPER
  {
    hide Dissect, Encoded, Normalized, LexicallyNormal, UPPER, LOWER, Lowered, LowerChar;
    var d := NormalOfUri(uri);
    forall i | 0 <= i < |d.scheme|
      ensures Lowered(d.scheme[i], Lower(d.scheme)[i]) && Lower(d.scheme)[i] !in UPPER
    {
      LowerCharLowers(d.scheme[i]);
    }
  }

  /** A URI without a path and without backslashes stays as it is, its scheme included. */
  lemma NormalOfEmptyPath(uri: string)
    requires Dissect(uri).Some? && Dissect(uri).value.path == "" && '\\' !in uri
    ensures LexicallyNormal(uri) == uri
  {
    hide Dissect;
    SlashesOfClean(uri);
  }

  /** No normal form holds a backslash. */
  lemma NormalHoldsNoBackslash(uri: string)
    ensures '\\' !in LexicallyNormal(uri)
  {
    hide Dissect, Encoded, Normalized;
    var u := Slashes(uri);
    NoBackslash(uri);
    if Dissect(u).None? {
      NormalizedChars(u);
    } else if Dissect(u).value.path == "" && '\\' !in uri {
    } else {
      var d := NormalOfUri(uri);
    }
  }

  // ----- join -----

  /** A text that begins with a slash is no URI. */
  lemma SlashIsNoUri(s: string)
    requires StartsWith(s, "/")
    ensures Dissect(s).None?
  {
    var colon := IndexOf(s, ':');
    if 1 < colon < |s| { assert s[..colon][0] == '/'; }
  }

  /** A URI replaces whatever it is joined to. */
  lemma JoinUri(rl: string, other: string)
    requires Dissect(other).Some?
    ensures Join(rl, other) == other
  {
  }

  /** An absolute path replaces the path of a URI; everything else stays. */
  lemma JoinAbsolute(d: Uri, other: string)
    requires WellFormedUri(d) && StartsWith(other, "/")
    ensures Join(Text(d), other) == Text(d.(path := other))
    ensures WellFormedUri(d.(path := other)) ==> Dissect(Join(Text(d), other)) == Some(d.(path := other))
  {
    hide Dissect, WellFormedUri, Text;
    SlashIsNoUri(other);
    PrintedDissects(d);
    if WellFormedUri(d.(path := other)) { PrintedDissects(d.(path := other)); }
  }

  /** Joined to a text that is no URI, it stands behind the colon of an empty scheme. */
  lemma JoinAbsoluteToPlain(rl: string, other: string)
    requires Dissect(rl).None? && StartsWith(other, "/")
    ensures Join(rl, other) == ":" + other
  {
    hide Dissect, Text;
    SlashIsNoUri(other);
    PlainText(other);
  }

  lemma PlainText(path: string)
    ensures Text(NO_URI.(path := path)) == ":" + path
  {
    hide IndexOf;
    assert HierText(None, path) == path && TailText(None, None) == "";
    assert "" + ":" == ":" && path + "" == path;
  }

  /** Appending in terms of both texts: one slash in between, whatever stood there. */
  function WithoutLast(s: string): (r: string)
  {
    if s != "" && (s[|s| - 1] == '/' || s[|s| - 1] == '\\') then s[..|s| - 1] else s
  }

  function WithoutFirst(s: string): (r: string)
  {
    if s != "" && s[0] == '/' then s[1..] else s
  }

  lemma AppendedIs(uri: string, r: string)
    ensures Appended(uri, r) == if uri == "" then r else WithoutLast(uri) + "/" + WithoutFirst(r)
  {
    if uri != "" && uri[|uri| - 1] == '/' { assert uri == uri[..|uri| - 1] + "/"; }
  }

  /** Any other text goes behind the path of a URI, with one slash in between, and behind a text
      that is no URI in the same way. */
  lemma JoinRelative(d: Uri, other: string)
    requires WellFormedUri(d) && Dissect(other).None? && !StartsWith(other, "/")
    ensures Join(Text(d), other) == Text(d.(path := WithoutLast(d.path) + "/" + other))
  {
    hide Dissect, WellFormedUri, Text;
    PrintedDissects(d);
    AppendedIs(if d.path == "" then "/" else d.path, other);
    assert WithoutFirst(other) == other && WithoutLast("/") == "";
  }

  lemma JoinRelativeToPlain(rl: string, other: string)
    requires Dissect(rl).None? && Dissect(other).None? && !StartsWith(other, "/")
    ensures Join(rl, other) == if rl == "" then other else WithoutLast(rl) + "/" + other
  {
    hide Dissect;
    AppendedIs(rl, other);
    assert WithoutFirst(other) == other;
  }

  // ----- joining absolute paths one after the other -----

  /** The text can stand for the path of the URI. */
  predicate FitsAsPath(d: Uri, x: string)
  {
    AllFine(x, PathQuery, true) && '?' !in x && (d.auth.None? ==> !StartsWith(x, "//"))
  }

  lemma FitsIff(d: Uri, x: string)
    requires WellFormedUri(d) && StartsWith(x, "/")
    ensures FitsAsPath(d, x) <==> WellFormedUri(d.(path := x))
  {
    hide ValidText, AllFine, AuthorityAccepted, AuthoritySeparable;
    ValidTextIff(x, PathQuery, true);
  }

  lemma PathLength(d: Uri, x: string)
    ensures |Text(d.(path := x))| == |Text(d)| - |d.path| + |x|
  {
    hide AuthorityText, TailText;
  }

  /** Both replaced paths leave equally long texts only if the path that was read back is as long
      as the one that was written. */
  lemma ReplacedTwiceLength(d: Uri, x: string, e: Uri, y: string)
    requires Text(e) == Text(d.(path := x)) && Text(e.(path := y)) == Text(d.(path := y))
    ensures |e.path| == |x|
  {
    hide Text;
    PathLength(d, x);
    PathLength(d, y);
    PathLength(e, y);
  }

  /** Where a text with a query or fragment mark is cut. */
  lemma CutAtMark(body: string, tail: string, k: nat)
    requires k < |body| && (body[k] == '?' || body[k] == '#')
    requires '?' !in body[..k] && '#' !in body[..k]
    ensures SplitTail(body + tail).0 == body[..k]
  {
    hide IndexOf, IndexOfEither;
    var s := body + tail;
    assert s == body[..k] + [body[k]] + (body[k + 1..] + tail);
    IndexOfEitherSplit(body[..k], '?', '#', body[k], body[k + 1..] + tail);
    assert s[..k] == body[..k];
  }

  lemma FirstMark(x: string) returns (k: nat)
    requires '?' in x || '#' in x
    ensures k < |x| && (x[k] == '?' || x[k] == '#') && '?' !in x[..k] && '#' !in x[..k]
  {
    k := IndexOfEither(x, '?', '#');
    IndexOfEitherPasses(x, '?', '#');
    assert x[..|x|] == x;
  }

  lemma HierPrefix(auth: Option<Authority>, x: string, k: nat)
    requires k <= |x|
    ensures var n := |HierText(auth, "")|;
            HierText(auth, x)[..n + k] == HierText(auth, x[..k]) && |HierText(auth, x)| == n + |x|
            && forall i | 0 <= i < |x| :: HierText(auth, x)[n + i] == x[i]
  {
    var h := HierText(auth, "");
    assert HierText(auth, x) == h + x && HierText(auth, x[..k]) == h + x[..k];
  }

  /** A path with a mark is read back shorter than it was written. */
  lemma MarkCutsPath(d: Uri, x: string, tail: string)
    requires WellFormedUri(d) && StartsWith(x, "/") && ('?' in x || '#' in x)
    ensures var h := SplitHier(SplitTail(HierText(d.auth, x) + tail).0); h.Some? ==> |h.value.1| < |x|
  {
    hide SplitHier, SplitTail, HierText, TailText, ValidText, AuthorityText;
    var k := FirstMark(x);
    var n := |HierText(d.auth, "")|;
    HierPrefix(d.auth, x, k);
    HierPrefix(d.auth, "", 0);
    AuthExcludes(d, x[..k]);
    CutAtMark(HierText(d.auth, x), tail, n + k);
    CutHier(d.auth, x[..k]);
  }

  lemma AuthExcludes(d: Uri, x: string)
    requires WellFormedUri(d) && '?' !in x && '#' !in x
    ensures '?' !in HierText(d.auth, x) && '#' !in HierText(d.auth, x)
  {
    hide AuthorityText, ValidText;
    if d.auth.Some? {
      AuthorityTextExcludes(d.auth.value, '?');
      AuthorityTextExcludes(d.auth.value, '#');
    }
  }

  lemma CutHier(auth: Option<Authority>, x: string)
    requires auth.Some? ==> WellFormedAuthority(auth.value)
    requires x == "" || x[0] == '/'
    ensures var h := SplitHier(HierText(auth, x)); h.Some? ==> |h.value.1| <= |x|
  {
    hide SplitHier, AuthorityText, WellFormedAuthority;
    if auth.Some? {
      HierSplits(auth, x);
    } else {
      assert HierText(auth, x) == x;
      if SplitHier(x).Some? { SplitHierPrints(x); }
    }
  }

  /** How the text of a URI with another path is read, up to the validation. */
  lemma ReplacedSplit(d: Uri, x: string)
    requires WellFormedUri(d)
    ensures Split(Text(d.(path := x))) == SplitRest(d.scheme, HierText(d.auth, x) + TailText(d.query, d.fragment))
  {
    hide SplitRest, ValidText, TailText, HierText, HostSeparable, HostPort, IndexOf, AuthorityAccepted;
    var rest := HierText(d.auth, x) + TailText(d.query, d.fragment);
    var u := d.scheme + [':'] + rest;
    assert Text(d.(path := x)) == u;
    ValidTextExcludes(d.scheme, Scheme, false, ':');
    IndexOfSplit(d.scheme, ':', rest);
    assert u[..|d.scheme|] == d.scheme && u[|d.scheme| + 1..] == rest;
  }

  lemma RestAssembled(scheme: string, rest: string, e: Uri)
    requires SplitRest(scheme, rest) == Some(e)
    ensures SplitHier(SplitTail(rest).0) == Some((e.auth, e.path))
    ensures SplitTail(rest).1 == e.query && SplitTail(rest).2 == e.fragment
  {
    hide SplitHier, SplitTail;
  }

  lemma DoubledSlashRead(x: string)
    requires StartsWith(x, "//")
    ensures SplitHier(x).Some? ==> |SplitHier(x).value.1| < |x|
  {
    hide SplitAuthority, IndexOf;
    var p := SplitHierStep(x);
  }

  lemma TailRead(d: Uri, x: string)
    requires WellFormedUri(d) && '?' !in x && '#' !in x
    ensures SplitTail(HierText(d.auth, x) + TailText(d.query, d.fragment)).0 == HierText(d.auth, x)
  {
    hide SplitTail, HierText, TailText, ValidText;
    AuthExcludes(d, x);
    if d.query.Some? { ValidTextExcludes(d.query.value, PathQuery, true, '#'); }
    TailSplits(HierText(d.auth, x), d.query, d.fragment);
  }

  /** A text that does not fit is not read back as the path. */
  lemma MisfitReadShorter(d: Uri, x: string, e: Uri)
    requires WellFormedUri(d) && StartsWith(x, "/") && Dissect(Text(d.(path := x))) == Some(e)
    ensures |e.path| < |x| || FitsAsPath(d, x)
  {
    hide SplitHier, SplitTail, HierText, TailText, ValidText, AllFine, Text, AuthorityAccepted, AuthoritySeparable;
    var tail := TailText(d.query, d.fragment);
    ReplacedSplit(d, x);
    RestAssembled(d.scheme, HierText(d.auth, x) + tail, e);
    if '?' in x || '#' in x {
      MarkCutsPath(d, x, tail);
    } else {
      TailRead(d, x);
      ValidTextIff(x, PathQuery, true);
      if d.auth.None? && StartsWith(x, "//") {
        NoAuthorityText(x);
        DoubledSlashRead(x);
      } else {
        HierSplits(d.auth, x);
      }
    }
  }

  lemma NoAuthorityText(x: string)
    ensures HierText(None, x) == x
  {
  }

  lemma ColonIsNoUri(x: string)
    ensures Dissect(":" + x).None?
  {
    assert ":" + x == "" + [':'] + x;
    IndexOfSplit("", ':', x);
  }

  lemma SchemeInFront(d: Uri, y: string)
    requires WellFormedUri(d)
    ensures Text(d.(path := y)) != ":" + y
  {
    hide ValidText, HierText, TailText;
    assert Text(d.(path := y))[0] == d.scheme[0] != ':';
  }

  /** Of two absolute paths joined one after the other the second alone counts, exactly if the
      base is no URI or the first can stand for its path. */
  lemma AbsoluteAbsorbs(rl: string, x: string, y: string)
    requires StartsWith(x, "/") && StartsWith(y, "/")
    ensures Join(Join(rl, x), y) == Join(rl, y) <==> Dissect(rl).None? || FitsAsPath(Dissect(rl).value, x)
  {
    hide Dissect, WellFormedUri, Text, FitsAsPath, Join;
    if Dissect(rl).None? {
      JoinAbsoluteToPlain(rl, x);
      JoinAbsoluteToPlain(rl, y);
      ColonIsNoUri(x);
      JoinAbsoluteToPlain(":" + x, y);
    } else {
      AbsoluteAbsorbsUri(rl, Dissect(rl).value, x, y);
    }
  }

  lemma AbsoluteAbsorbsUri(rl: string, d: Uri, x: string, y: string)
    requires StartsWith(x, "/") && StartsWith(y, "/") && Dissect(rl) == Some(d)
    ensures Join(Join(rl, x), y) == Join(rl, y) <==> FitsAsPath(d, x)
  {
    hide Dissect, WellFormedUri, Text, FitsAsPath, Join;
    DissectedTextReturns(rl);
    JoinAbsolute(d, x);
    JoinAbsolute(d, y);
    FitsIff(d, x);
    var r := Text(d.(path := x));
    if FitsAsPath(d, x) {
      JoinAbsolute(d.(path := x), y);
    } else if Dissect(r).None? {
      JoinAbsoluteToPlain(r, y);
      SchemeInFront(d, y);
    } else {
      var e := Dissect(r).value;
      DissectedTextReturns(r);
      JoinAbsolute(e, y);
      MisfitReadShorter(d, x, e);
      if Text(e.(path := y)) == Text(d.(path := y)) { ReplacedTwiceLength(d, x, e, y); }
    }
  }

  lemma ShortParts()
    ensures ValidText("ab", Scheme, false) && ValidText("/", PathQuery, true)
  {
    assert "ab"[1..] == "b" && "b"[1..] == "" && "/"[1..] == "";
  }

  /** An absolute path with a query leaves its query behind. */
  lemma QueryStays()
    ensures Dissect("ab:/") == Some(Uri("ab", None, "/", None, None))
    ensures Join(Join("ab:/", "/?"), "/") != Join("ab:/", "/")
  {
    hide ValidText, Dissect, Join, AllFine;
    ShortParts();
    PlainDissects("ab", "/");
    assert "ab" + ":" + "/" == "ab:/";
    assert "/?"[1] == '?';
    AbsoluteAbsorbs("ab:/", "/?", "/");
  }

  // ----- lexically_relative -----

  /** There is no way from one scheme to another. */
  lemma SchemesDiffer(uri: string, base: string)
    requires Dissect(uri).Some? && Dissect(base).Some?
    requires Dissect(uri).value.scheme != Dissect(base).value.scheme
    ensures LexicallyRelative(uri, base) == ""
  {
    hide RelativeElements, Tokens, Accepted, SplitRest, IndexOf;
    var i, j := IndexOf(uri, ':'), IndexOf(base, ':');
    SchemeIsFront(uri);
    SchemeIsFront(base);
    if |base| >= i + 1 && uri[..i + 1] == base[..i + 1] {
      assert base == uri[..i] + [':'] + base[i + 1..];
      IndexOfPasses(uri, ':');
      IndexOfSplit(uri[..i], ':', base[i + 1..]);
    }
  }

  lemma SchemeIsFront(u: string)
    requires Dissect(u).Some?
    ensures IndexOf(u, ':') < |u| && Dissect(u).value.scheme == u[..IndexOf(u, ':')]
  {
    hide Accepted, IndexOf;
  }

  /** And none from a text that does not begin with the same characters up to the colon. */
  lemma OtherFront(uri: string, base: string)
    requires IndexOf(uri, ':') < |uri| && !StartsWith(base, uri[..IndexOf(uri, ':') + 1])
    ensures LexicallyRelative(uri, base) == ""
  {
    hide RelativeElements, Tokens;
  }

  /** How far the elements lead down: each name one step, each `..` one step back. */
  function Depth(es: seq<string>): (n: int)
  {
    var m := multiset(es);
    |es| - m[""] - m["."] - 2 * m[".."]
  }

  lemma DepthStep(es: seq<string>)
    requires es != []
    ensures Depth(es) == Depth(es[1..]) + (if es[0] == ".." then -1 else if es[0] == "" || es[0] == "." then 0 else 1)
  {
    assert es == [es[0]] + es[1..];
    assert multiset(es) == multiset{es[0]} + multiset(es[1..]);
  }

  lemma WrapSum(m: int, d: int)
    requires -1 <= d <= 1
    ensures Wrap16(Wrap16(m) + d) == Wrap16(m + d)
  {
  }

  /** The counter of directories to return is that depth, in 16 bits. */
  lemma {:induction false} CounterIsDepth(m: int, es: seq<string>)
    ensures DirsToReturn(Wrap16(m), es) == Wrap16(m + Depth(es))
    decreases |es|
  {
    hide Wrap16, Depth;
    if es == [] {
      DepthOfNothing();
    } else {
      DepthStep(es);
      var d := if es[0] == ".." then -1 else if es[0] == "" || es[0] == "." then 0 else 1;
      WrapSum(m, d);
      CounterIsDepth(m + d, es[1..]);
    }
  }

  /** From a base that leads above the place where both locations part, there is no way. */
  lemma NoWayFromAbove(uri: string, base: string)
    requires var k := SchemeEnd(uri); k <= |base| && uri[..k] == base[..k]
    requires var r := Tokens(base[SchemeEnd(uri)..]);
             -32768 <= Depth(r[Mismatch(Tokens(uri[SchemeEnd(uri)..]), r)..]) < 0
    ensures LexicallyRelative(uri, base) == ""
  {
    hide Tokens, Depth, Mismatch, DirsToReturn;
    var k := SchemeEnd(uri);
    var l, r := Tokens(uri[k..]), Tokens(base[k..]);
    var m := Mismatch(l, r);
    CounterIsDepth(0, r[m..]);
    assert Wrap16(0) == 0;
    DepthOfNothing();
    assert r[|r|..] == [];
  }

  lemma DepthOfNothing()
    ensures Depth([]) == 0
  {
  }
}

/** Going from a base to a location by its relative form, and when that arrives. */
module RelativeLaws {
  import opened Basics
  import opened Encoding
  import opened UriSyntax
  import opened UriLaws
  import opened PathTokens
  import opened NormalizePath
  import opened NormalizeLaws
  import opened EncodedPaths
  import opened ResourceLocation
  import opened ResourceLaws

  // ----- normal absolute locations -----

  /** A location in normal form with an absolute path and neither query nor fragment. */
  ghost predicate NormalAbsolute(x: string)
  {
    && LexicallyNormal(x) == x && Dissect(x).Some?
    && var d := Dissect(x).value;
       d.path != "" && d.path[0] == '/' && d.query.None? && d.fragment.None?
  }

  /** Names that are normal and stay as they are when encoded. */
  ghost predicate FixedNames(names: seq<string>)
  {
    Settled(names, true) && EncodedNames(names) == names
  }

  lemma NormalFormHasNoBackslash(x: string)
    requires LexicallyNormal(x) == x
    ensures '\\' !in x
  {
    NoBackslash(x);
    if Dissect(Slashes(x)).None? {
      NormalizedChars(Slashes(x));
    } else if '\\' in x {
      var d := NormalOfUri(x);
    }
  }

  /** Its path is the text of fixed names. */
  lemma NormalAbsoluteNames(x: string) returns (d: Uri, names: seq<string>, slash: bool)
    requires NormalAbsolute(x)
    ensures Dissect(x) == Some(d) && WellFormedUri(d) && Text(d) == x
    ensures '\\' !in x && PartsExclude(d, '\\') && Lower(d.scheme) == d.scheme
    ensures d.path == AbsText(names, slash) && FixedNames(names)
  {
    NormalFormHasNoBackslash(x);
    SlashesOfClean(x);
    d := NormalOfUri(x);
    DissectedTextReturns(x);
    assert d == NormalParts(d);
    var raw;
    raw, slash := NormalizedIsNormal(d.path);
    EncodedPathText(true, raw, slash);
    EncodedNormalNames(raw, slash, true);
    names := EncodedNames(raw);
    NormalizedIsAscii(d.path);
    FixedByEncoding(raw, slash);
  }

  lemma {:induction false} TailHoldsNames(names: seq<string>, slash: bool, i: nat)
    requires i < |names|
    ensures forall c | c in names[i] :: c in Tail(names, slash)
  {
    if i > 0 { TailHoldsNames(names[1..], slash, i - 1); }
  }

  lemma {:induction false} TailCharsAreNames(names: seq<string>, slash: bool)
    ensures forall c | c in Tail(names, slash) :: c == '/' || exists i | 0 <= i < |names| :: c in names[i]
  {
    if names != [] {
      TailCharsAreNames(names[1..], slash);
      forall c | c in Tail(names, slash) ensures c == '/' || exists i | 0 <= i < |names| :: c in names[i] {
        if c in names[0] {
        } else if i :| 0 <= i < |names[1..]| && c in names[1..][i] {
          assert c in names[i + 1];
        }
      }
    }
  }

  /** ASCII names stay as they are once encoded. */
  lemma FixedByEncoding(raw: seq<string>, slash: bool)
    requires IsAscii(AbsText(raw, slash))
    ensures EncodedNames(EncodedNames(raw)) == EncodedNames(raw)
  {
    forall i | 0 <= i < |raw| ensures Encoded(Encoded(raw[i])) == Encoded(raw[i]) {
      TailHoldsNames(raw, slash, i);
      forall k | 0 <= k < |raw[i]| ensures (raw[i][k] as int) < 128 {
        assert raw[i][k] in raw[i];
        var t := Tail(raw, slash);
        var j :| 0 <= j < |t| && t[j] == raw[i][k];
      }
      AsciiEncodedTwice(raw[i]);
    }
  }

  // ----- the elements of a location after its scheme -----

  lemma SchemeOf(d: Uri)
    requires WellFormedUri(d)
    ensures SchemeEnd(Text(d)) == |d.scheme| + 1
    ensures Text(d)[..|d.scheme| + 1] == d.scheme + ":"
    ensures Text(d)[|d.scheme| + 1..] == HierText(d.auth, d.path) + TailText(d.query, d.fragment)
  {
    var rest := HierText(d.auth, d.path) + TailText(d.query, d.fragment);
    ValidTextExcludes(d.scheme, Scheme, false, ':');
    IndexOfSplit(d.scheme, ':', rest);
    assert Text(d) == d.scheme + [':'] + rest;
  }

  /** The elements both locations share: the root, then the authority when it shows. */
  function Shared(auth: Option<Authority>): (r: seq<string>)
  {
    ["/"] + (if auth.Some? && AuthorityText(auth.value) != "" then [AuthorityText(auth.value)] else [])
  }

  /** The mark of a final slash; the bare root shows as one behind an authority. */
  function EndMark(auth: Option<Authority>, names: seq<string>, slash: bool): (m: bool)
  {
    if names == [] then auth.Some? else slash
  }

  lemma SegmentsOfAbs(names: seq<string>, slash: bool)
    requires AllNames(names)
    ensures Segments(AbsText(names, slash)) == names + Mark(names == [] || slash)
  {
    if names == [] {
      SegmentsOfTail([], true);
    } else {
      SegmentsOfTail(names, slash);
    }
  }

  lemma TokensOfHier(auth: Option<Authority>, names: seq<string>, slash: bool)
    requires AllNames(names)
    requires auth.Some? ==> '/' !in AuthorityText(auth.value) && '\\' !in AuthorityText(auth.value)
    ensures Tokens(HierText(auth, AbsText(names, slash)))
            == Shared(auth) + (names + Mark(EndMark(auth, names, slash)))
  {
    hide Tokens, Segments, AbsText, AuthorityText;
    var path := AbsText(names, slash);
    if auth.None? {
      TokensOfAbs(names, slash);
      assert HierText(auth, path) == path;
      assert Shared(auth) + (names + Mark(EndMark(auth, names, slash)))
          == ["/"] + names + (if names == [] then [] else Mark(slash));
    } else {
      var a := AuthorityText(auth.value);
      SegmentsOfAbs(names, slash);
      assert HierText(auth, path) == "/" + ("/" + (a + path));
      TokensAfterSlash("/" + (a + path));
      if a == "" {
        assert a + path == path;
        SegmentsExtraSlash(path);
      } else {
        SegmentsSkipSlash(a, path);
        assert ["/"] + ([a] + (names + Mark(names == [] || slash))) == ["/"] + [a] + (names + Mark(names
           == [] || slash));
      }
    }
  }

  /** The elements a normal absolute location is compared by. */
  lemma ElementsOfLocation(d: Uri, names: seq<string>, slash: bool)
    requires WellFormedUri(d) && d.query.None? && d.fragment.None? && PartsExclude(d, '\\')
    requires d.path == AbsText(names, slash) && AllNames(names)
    ensures SchemeEnd(Text(d)) == |d.scheme| + 1 && Text(d)[..|d.scheme| + 1] == d.scheme + ":"
    ensures Tokens(Text(d)[|d.scheme| + 1..]) == Shared(d.auth) + (names + Mark(EndMark(d.auth, names, slash)))
  {
    SchemeOf(d);
    assert HierText(d.auth, d.path) + TailText(d.query, d.fragment) == HierText(d.auth, d.path);
    if d.auth.Some? { AuthorityTextExcludes(d.auth.value, '/'); }
    TokensOfHier(d.auth, names, slash);
  }

  // ----- the relative form -----

  lemma {:induction false} MismatchShared(p: seq<string>, l: seq<string>, r: seq<string>)
    ensures Mismatch(p + l, p + r) == |p| + Mismatch(l, r)
  {
    if p == [] {
      assert p + l == l && p + r == r;
    } else {
      assert (p + l)[1..] == p[1..] + l && (p + r)[1..] == p[1..] + r;
      MismatchShared(p[1..], l, r);
    }
  }

  /** Where two lists of names part. */
  lemma {:induction false} MismatchParts(nx: seq<string>, nb: seq<string>)
    ensures nx != nb ==> Mismatch(nx, nb) < |nx| || Mismatch(nx, nb) < |nb|
    ensures nx == nb ==> Mismatch(nx, nb) == |nx|
    ensures nx[..Mismatch(nx, nb)] == nb[..Mismatch(nx, nb)]
  {
    if nx != [] && nb != [] && nx[0] == nb[0] {
      MismatchParts(nx[1..], nb[1..]);
      assert nx == [nx[0]] + nx[1..] && nb == [nb[0]] + nb[1..];
      var k := Mismatch(nx[1..], nb[1..]);
      assert nx[..k + 1] == [nx[0]] + nx[1..][..k] && nb[..k + 1] == [nb[0]] + nb[1..][..k];
    }
  }

  /** Final marks never match a name, so the names decide where the elements part. */
  lemma MismatchFirst(l: seq<string>, r: seq<string>)
    requires l != [] && r != []
    ensures Mismatch(l, r) == if l[0] == r[0] then 1 + Mismatch(l[1..], r[1..]) else 0
  {
  }

  lemma FrontOfMarked(names: seq<string>, mark: bool)
    requires names != []
    ensures var l := names + Mark(mark); l[0] == names[0] && l[1..] == names[1..] + Mark(mark)
    ensures names == [names[0]] + names[1..]
  {
  }

  lemma {:induction false} MismatchNames(nx: seq<string>, mx: bool, nb: seq<string>, mb: bool)
    requires AllNames(nx) && AllNames(nb)
    ensures Mismatch(nx + Mark(mx), nb + Mark(mb)) ==
            Mismatch(nx, nb) + (if nx == nb && mx && mb then 1 else 0)
  {
    hide Mismatch, IsName;
    if nx == [] || nb == [] {
      MismatchMarks(nx, mx, nb, mb);
    } else {
      FrontOfMarked(nx, mx);
      FrontOfMarked(nb, mb);
      MismatchFirst(nx, nb);
      MismatchFirst(nx + Mark(mx), nb + Mark(mb));
      if nx[0] == nb[0] { MismatchNames(nx[1..], mx, nb[1..], mb); }
    }
  }

  lemma MismatchMarks(nx: seq<string>, mx: bool, nb: seq<string>, mb: bool)
    requires AllNames(nx) && AllNames(nb) && (nx == [] || nb == [])
    ensures Mismatch(nx + Mark(mx), nb + Mark(mb)) == if nx == nb && mx && mb then 1 else 0
  {
    var l, r := nx + Mark(mx), nb + Mark(mb);
    if nx != [] {
      assert IsName(nx[0]) && l[0] == nx[0];
    } else if nb != [] {
      assert IsName(nb[0]) && r[0] == nb[0];
    } else {
      assert l == Mark(mx) && r == Mark(mb);
    }
  }

  lemma WrapStep(m: nat)
    ensures Wrap16(Wrap16(m) + 1) == Wrap16(m + 1)
  {
  }

  /** The 16-bit counter over remaining names. */
  lemma {:induction false} CountNames(m: nat, names: seq<string>, mark: bool)
    requires Settled(names, true)
    ensures DirsToReturn(Wrap16(m), names + Mark(mark)) == Wrap16(m + |names|)
    decreases |names|
  {
    hide Wrap16;
    var es := names + Mark(mark);
    if names == [] {
      if mark { assert es == [""] && es[1..] == []; } else { assert es == []; }
    } else {
      assert es[0] == names[0] && es[1..] == names[1..] + Mark(mark);
      assert IsName(names[0]) && names[0] != "." && names[0] != "..";
      SettledTail(names);
      WrapStep(m);
      CountNames(m + 1, names[1..], mark);
    }
  }

  lemma SettledTail(names: seq<string>)
    requires Settled(names, true) && names != []
    ensures Settled(names[1..], true)
  {
  }

  lemma SettledDrop(names: seq<string>, k: nat)
    requires Settled(names, true) && k <= |names|
    ensures Settled(names[k..], true) && Settled(names[..k], true)
  {
  }

  /** The names `join` puts behind the base, with the mark of a final slash. */
  function Extra(nx: seq<string>, mx: bool, nb: seq<string>): (r: (seq<string>, bool))
  {
    var k := Mismatch(nx, nb);
    var w := Wrap16(|nb| - k);
    if nx == nb then (["."], false)
    else if w < 0 then ([], true)
    else if w == 0 && k == |nx| then (["."], false)
    else (Dots(w) + nx[k..], mx)
  }

  /** The elements of a location: a shared part, names, and the mark of a final slash. */
  predicate Lists(l: seq<string>, p: seq<string>, names: seq<string>, mark: bool)
  {
    l == p + (names + Mark(mark))
  }

  /** Where the elements part, when the names differ. */
  lemma PartingOf(l: seq<string>, r: seq<string>, p: seq<string>, nx: seq<string>, mx: bool, nb: seq<string>, mb: bool)
    requires Lists(l, p, nx, mx) && Lists(r, p, nb, mb) && AllNames(nx) && AllNames(nb) && nx != nb
    ensures var m := |p| + Mismatch(nx, nb); Mismatch(l, r) == m && (m < |l| || m < |r|)
  {
    hide Mismatch, IsName, Mark;
    MismatchShared(p, nx + Mark(mx), nb + Mark(mb));
    MismatchNames(nx, mx, nb, mb);
    MismatchParts(nx, nb);
  }

  lemma RestFrom(l: seq<string>, p: seq<string>, ns: seq<string>, mark: bool, k: nat)
    requires Lists(l, p, ns, mark) && k <= |ns|
    ensures |p| + k <= |l| && l[|p| + k..] == ns[k..] + Mark(mark)
  {
  }

  lemma CountRest(r: seq<string>, p: seq<string>, nb: seq<string>, mb: bool, k: nat)
    requires Lists(r, p, nb, mb) && Settled(nb, true) && k <= |nb|
    ensures |p| + k <= |r| && DirsToReturn(0, r[|p| + k..]) == Wrap16(|nb| - k)
  {
    hide Wrap16, Settled, DirsToReturn, Mark, Lists;
    RestFrom(r, p, nb, mb, k);
    SettledDrop(nb, k);
    WrapZero();
    CountNames(0, nb[k..], mb);
  }

  /** The relative form of one list of names against another. */
  lemma RelativeOf(p: seq<string>, nx: seq<string>, mx: bool, nb: seq<string>, mb: bool)
    requires Settled(nx, true) && Settled(nb, true)
    ensures RelativeElements(p + (nx + Mark(mx)), p + (nb + Mark(mb)))
            == RelText(Extra(nx, mx, nb).0, Extra(nx, mx, nb).1)
  {
    hide AppendedAll, RelText, Wrap16, Mismatch, DirsToReturn, Settled, Dots;
    DotText();
    if nx == nb {
      EqualNames(p, nx, mx, mb);
    } else {
      var l, r, k := p + (nx + Mark(mx)), p + (nb + Mark(mb)), Mismatch(nx, nb);
      SettledNames(nx);
      SettledNames(nb);
      PartingOf(l, r, p, nx, mx, nb, mb);
      RestFrom(l, p, nx, mx, k);
      NextElement(l, p, nx, mx, k);
      CountRest(r, p, nb, mb, k);
      var w := Wrap16(|nb| - k);
      if w >= 0 && !(w == 0 && k == |nx|) {
        SettledDrop(nx, k);
        SettledNames(nx[k..]);
        RelativeText(w, nx[k..], mx);
        assert Dots(w) + (nx[k..] + Mark(mx)) == (Dots(w) + nx[k..]) + Mark(mx);
      }
    }
  }

  lemma WrapZero()
    ensures Wrap16(0) == 0
  {
  }

  lemma DotText()
    ensures RelText(["."], false) == "." && RelText([], true) == ""
  {
    assert ["."][1..] == [];
  }

  /** The element of the location where the comparison stops. */
  lemma NextElement(l: seq<string>, p: seq<string>, nx: seq<string>, mx: bool, k: nat)
    requires Lists(l, p, nx, mx) && k <= |nx| && AllNames(nx)
    ensures |p| + k <= |l| && (|p| + k == |l| || l[|p| + k] == "" <==> k == |nx|)
  {
    if k < |nx| { assert l[|p| + k] == nx[k] && IsName(nx[k]); }
  }

  lemma EqualNames(p: seq<string>, n: seq<string>, mx: bool, mb: bool)
    requires Settled(n, true)
    ensures RelativeElements(p + (n + Mark(mx)), p + (n + Mark(mb))) == "."
  {
    var l, r := p + (n + Mark(mx)), p + (n + Mark(mb));
    MismatchShared(p, n + Mark(mx), n + Mark(mb));
    MismatchNames(n, mx, n, mb);
    MismatchParts(n, n);
    var m := Mismatch(l, r);
    if !(mx && mb) {
      assert r[m..] == [] + Mark(mb);
      CountNames(0, [], mb);
      NextElement(l, p, n, mx, |n|);
    } else {
      assert m == |l| == |r|;
    }
  }

  lemma RelativeText(w: nat, xr: seq<string>, mx: bool)
    requires AllNames(xr) && (w > 0 || xr != [])
    ensures AppendedAll("", (Dots(w) + xr) + Mark(mx)) == RelText(Dots(w) + xr, mx)
    ensures AllNames(Dots(w) + xr)
  {
    var ns := Dots(w) + xr;
    assert IsName("..");
    PrintedNames("", ns, mx);
  }

  // ----- joining -----

  lemma {:induction false} TailAppend(a: seq<string>, b: seq<string>, slash: bool)
    ensures Tail(a + b, slash) == Tail(a, false) + Tail(b, slash)
  {
    if a == [] {
      assert a + b == b;
    } else {
      assert (a + b)[1..] == a[1..] + b;
      TailAppend(a[1..], b, slash);
      assert "/" + (a[0] + (Tail(a[1..], false) + Tail(b, slash)))
          == ("/" + (a[0] + Tail(a[1..], false))) + Tail(b, slash);
    }
  }

  /** Appending a relative text to an absolute one puts the names behind each other. */
  lemma AppendRelative(nb: seq<string>, sb: bool, m: seq<string>, mark: bool)
    requires AllNames(nb) && AllNames(m) && (m == [] ==> mark)
    ensures Appended(AbsText(nb, sb), RelText(m, mark)) == AbsText(nb + m, mark)
  {
    hide Appended, EndsWith, EndsPlain;
    if m == [] {
      AppendEmpty(true, nb, sb);
      assert nb + [] == nb;
    } else {
      var rel := RelText(m, mark);
      RelStartsPlain(m, mark);
      assert Tail(m, mark) == "/" + rel;
      TailAppend(nb, m, mark);
      if nb == [] {
        AppendPlain("", rel, true);
        assert "" + "/" == "/" && "" + ("/" + rel) == "/" + rel;
        assert nb + m == m;
      } else {
        LastOfText(true, nb, false);
        TailWithSlash(nb);
        AppendPlain(Tail(nb, false), rel, sb);
        assert Tail(nb, sb) == Tail(nb, false) + (if sb then "/" else "");
        assert AbsText(nb + m, mark) == Tail(nb + m, mark);
      }
    }
  }

  lemma RelStartsPlain(m: seq<string>, mark: bool)
    requires AllNames(m) && m != []
    ensures var rel := RelText(m, mark); rel != "" && rel[0] != '/'
  {
    assert IsName(m[0]) && RelText(m, mark)[0] == m[0][0] && m[0][0] in m[0];
  }

  lemma AppendPlain(text: string, rel: string, slash: bool)
    requires rel != "" && rel[0] != '/' && (slash || EndsPlain(text))
    ensures Appended(text + (if slash then "/" else ""), rel) == text + ("/" + rel)
  {
    hide EndsPlain;
    if slash {
      AppendBehindSlash(text, rel);
    } else {
      assert text + "" == text;
      AppendBehindName(text, rel);
    }
  }

  lemma AppendBehindSlash(text: string, rel: string)
    requires rel != "" && rel[0] != '/'
    ensures Appended(text + "/", rel) == text + ("/" + rel)
  {
    var t := text + "/";
    assert t[|t| - 1] == '/';
    assert t + rel == text + ("/" + rel);
  }

  lemma AppendBehindName(text: string, rel: string)
    requires rel != "" && rel[0] != '/' && EndsPlain(text)
    ensures Appended(text, rel) == text + ("/" + rel)
  {
    assert (text + "/") + rel == text + ("/" + rel);
  }

  lemma DotsAreNames()
    ensures IsName(".") && IsName("..")
  {
  }

  lemma ExtraParts(nx: seq<string>, mx: bool, nb: seq<string>)
    ensures var (m, mark) := Extra(nx, mx, nb);
            (m == [] ==> mark) && forall i | 0 <= i < |m| :: m[i] == "." || m[i] == ".." || m[i] in nx
  {
    hide Mismatch;
    var k := Mismatch(nx, nb);
    assert forall i | 0 <= i < |nx[k..]| :: nx[k..][i] in nx;
  }

  lemma ExtraNames(nx: seq<string>, mx: bool, nb: seq<string>)
    requires FixedNames(nx) && FixedNames(nb)
    ensures var (m, mark) := Extra(nx, mx, nb);
            AllNames(m) && EncodedNames(m) == m && (m == [] ==> mark)
            && forall i | 0 <= i < |m| :: m[i] == "." || m[i] == ".." || m[i] in nx
  {
    hide Encoded, Extra, IsName;
    EncodedDotText();
    DotsAreNames();
    ExtraParts(nx, mx, nb);
    var (m, mark) := Extra(nx, mx, nb);
    forall i | 0 <= i < |m| ensures Encoded(m[i]) == m[i] && IsName(m[i]) {
      if m[i] != "." && m[i] != ".." {
        var j :| 0 <= j < |nx| && nx[j] == m[i];
        assert EncodedNames(nx)[j] == nx[j];
      }
    }
  }

  /** A relative form never looks like a URI or an absolute path. */
  lemma RelativeIsPlain(m: seq<string>, mark: bool)
    requires AllNames(m) && EncodedNames(m) == m
    ensures Dissect(RelText(m, mark)).None? && !StartsWith(RelText(m, mark), "/")
  {
    var rel := RelText(m, mark);
    if m != [] {
      assert IsName(m[0]) && rel[0] == m[0][0] && m[0][0] in m[0];
      EncodedPathText(false, m, mark);
      EncodedChars(rel);
      assert !IsTolerable(':') && HexValue(':') == None;
      assert ':' !in rel;
      IndexOfAbsent(rel, ':');
    } else {
      IndexOfAbsent("", ':');
    }
  }

  // ----- the way back -----

  lemma {:induction false} ResolvedDots(stack: seq<string>, w: nat)
    requires w <= |stack|
    ensures Resolved(stack, Dots(w), true) == stack[..|stack| - w]
    decreases w
  {
    if w > 0 {
      assert Dots(w)[1..] == Dots(w - 1);
      ResolvedDots(stack[..|stack| - 1], w - 1);
    } else {
      assert Dots(0) == [];
    }
  }

  /** The names the joined path denotes. */
  function Arrived(nx: seq<string>, nb: seq<string>): (r: seq<string>)
  {
    var k := Mismatch(nx, nb);
    var w := Wrap16(|nb| - k);
    if nx == nb || w < 0 || (w == 0 && k == |nx|) then nb
    else if w <= |nb| then nb[..|nb| - w] + nx[k..]
    else []
  }

  lemma WrapBelow(n: nat)
    ensures Wrap16(n) <= n
    ensures Wrap16(n) == n <==> n < 32768
  {
  }

  lemma ResolvedBehind(nb: seq<string>, m: seq<string>)
    requires Settled(nb, true)
    ensures Resolved([], nb + m, true) == Resolved(nb, m, true)
  {
    SettledResolves([], nb, true);
    assert [] + nb == nb;
    ResolvedAppend([], nb, m, true);
  }

  lemma ResolvedStay(nb: seq<string>)
    ensures Resolved(nb, ["."], true) == nb && Resolved(nb, [], true) == nb
  {
    assert ["."][1..] == [];
  }

  lemma ResolvedUpDown(nb: seq<string>, w: nat, x: seq<string>)
    requires w <= |nb| && Settled(nb, true) && Settled(x, true)
    ensures Resolved(nb, Dots(w) + x, true) == nb[..|nb| - w] + x
  {
    hide Resolved, IsName;
    ResolvedAppend(nb, Dots(w), x, true);
    ResolvedDots(nb, w);
    SettledResolves(nb[..|nb| - w], x, true);
  }

  lemma ResolvedJoined(nx: seq<string>, mx: bool, nb: seq<string>)
    requires Settled(nx, true) && Settled(nb, true)
    ensures Resolved([], nb + Extra(nx, mx, nb).0, true) == Arrived(nx, nb)
  {
    hide Wrap16, Resolved, Settled, Dots;
    var k := Mismatch(nx, nb);
    var w := Wrap16(|nb| - k);
    ResolvedBehind(nb, Extra(nx, mx, nb).0);
    ResolvedStay(nb);
    WrapBelow(|nb| - k);
    if !(nx == nb || w < 0 || (w == 0 && k == |nx|)) {
      SettledDrop(nx, k);
      ResolvedUpDown(nb, w, nx[k..]);
    }
  }

  /** The way back arrives exactly when the 16-bit counter did not overflow. */
  lemma ArrivesIff(nx: seq<string>, nb: seq<string>)
    ensures Arrived(nx, nb) == nx <==> |nb| - Mismatch(nx, nb) < 32768
  {
    hide Wrap16, Mismatch;
    var k := Mismatch(nx, nb);
    var w := Wrap16(|nb| - k);
    WrapBelow(|nb| - k);
    MismatchParts(nx, nb);
    if |nb| - k < 32768 {
      assert w == |nb| - k;
      assert nb[..|nb| - w] + nx[k..] == nx[..k] + nx[k..] == nx;
      if w == 0 && k == |nx| { assert nx[..k] == nx && nb[..k] == nb; }
    } else {
      OverflowMisses(nx, nb, k, w);
    }
  }

  /** A counter that lost a multiple of 65536 leaves too many names. */
  lemma OverflowMisses(nx: seq<string>, nb: seq<string>, k: nat, w: int)
    requires k <= |nb| && k <= |nx| && |nb| - k >= 32768 && w < |nb| - k
    ensures nx != nb ==> w >= 0 ==> |nb[..|nb| - w] + nx[k..]| > |nx|
    ensures k == |nx| ==> nb != nx
  {
  }

  // ----- the way back, in full -----

  /** A location without the slash at its end. */
  function TrimSlash(s: string): (r: string)
  {
    if EndsWith(s, "/") then s[..|s| - 1] else s
  }

  /** The names on the path of a location, without the mark of a final slash. */
  function NamesOf(uri: string): (r: seq<string>)
    requires Dissect(uri).Some?
  {
    PlainNames(Tokens(Dissect(uri).value.path))
  }

  function PlainNames(ts: seq<string>): (r: seq<string>)
  {
    if ts == [] then []
    else if ts[|ts| - 1] == "" && |ts| > 1 then ts[1..|ts| - 1]
    else ts[1..]
  }

  lemma NamesOfText(d: Uri, names: seq<string>, slash: bool)
    requires AllNames(names) && d.path == AbsText(names, slash)
    ensures PlainNames(Tokens(d.path)) == names
  {
    hide Tokens, AbsText;
    TokensOfAbs(names, slash);
    if names != [] {
      var ts := ["/"] + names + Mark(slash);
      assert IsName(names[|names| - 1]);
      if slash {
        assert ts[1..|ts| - 1] == names;
      } else {
        assert ts == ["/"] + names && ts[|ts| - 1] == names[|names| - 1] && ts[1..] == names;
      }
    } else {
      assert (["/"] + names + [])[1..] == [];
    }
  }

  /** What stands in front of the path. */
  function Front(d: Uri): (r: string)
  {
    d.scheme + ":" + HierText(d.auth, "")
  }

  lemma TextOfFront(d: Uri)
    requires d.query.None? && d.fragment.None?
    ensures Text(d) == Front(d) + d.path
  {
    hide AuthorityText;
    var h := HierText(d.auth, "");
    assert HierText(d.auth, d.path) == h + d.path;
    assert Text(d) == d.scheme + ":" + ((h + d.path) + "");
  }

  lemma TrimAdded(s: string)
    ensures TrimSlash(s + "/") == s
  {
    assert (s + "/")[|s|..] == "/";
  }

  lemma TrimPlain(front: string, t: string)
    requires EndsPlain(t)
    ensures TrimSlash(front + t) == front + t
  {
    var s := front + t;
    assert s[|s| - 1] == t[|t| - 1] && s[|s| - 1..] == [t[|t| - 1]];
  }

  lemma TrimmedText(front: string, names: seq<string>, slash: bool)
    requires AllNames(names)
    ensures TrimSlash(front + AbsText(names, slash)) == front + Tail(names, false)
  {
    hide TrimSlash, EndsWith;
    if names == [] {
      TrimAdded(front);
      assert front + Tail([], false) == front;
    } else if slash {
      TailWithSlash(names);
      TrimAdded(front + Tail(names, false));
      assert front + (Tail(names, false) + "/") == (front + Tail(names, false)) + "/";
    } else {
      LastOfText(true, names, false);
      TrimPlain(front, Tail(names, false));
    }
  }

  lemma TailInjective(front: string, a: seq<string>, b: seq<string>)
    requires AllNames(a) && AllNames(b)
    ensures front + Tail(a, false) == front + Tail(b, false) <==> a == b
  {
    var l, r := front + Tail(a, false), front + Tail(b, false);
    assert l[|front|..] == Tail(a, false) && r[|front|..] == Tail(b, false);
    SegmentsOfTail(a, false);
    SegmentsOfTail(b, false);
    assert a + [] == a && b + [] == b;
  }

  /** Names that may stand in the path of a URI as they are. */
  ghost predicate PathNames(names: seq<string>)
  {
    && AllNames(names) && EncodedNames(names) == names
    && forall i | 0 <= i < |names| :: '?' !in names[i]
  }

  lemma PathOfNames(d: Uri, names: seq<string>, slash: bool)
    requires WellFormedUri(d) && PartsExclude(d, '\\') && PathNames(names)
    ensures WellFormedUri(d.(path := AbsText(names, slash)))
    ensures PartsExclude(d.(path := AbsText(names, slash)), '\\')
  {
    var path := AbsText(names, slash);
    EncodedPathText(true, names, slash);
    EncodedIsValid(path);
    NoDoubleSlash(true, names, slash);
    TailCharsAreNames(names, slash);
    assert forall i | 0 <= i < |names| :: IsName(names[i]);
    assert '?' !in path && '\\' !in path;
  }

  lemma NormalizedOfNames(names: seq<string>, mark: bool) returns (slash: bool)
    requires AllNames(names)
    ensures Normalized(AbsText(names, mark)) == AbsText(Resolved([], names, true), slash)
  {
    hide Normalized, Tokens, AbsText, Resolved;
    var m := names != [] && mark;
    TokensOfAbs(names, mark);
    assert ["/"] + names + Mark(m) == Root(true) + (names + Mark(m));
    NormalizedElements(AbsText(names, mark), names, m, true);
    slash := m || EndsWith(AbsText(names, mark), ".");
  }

  /** Normalizing a location made of path names resolves the names. */
  lemma NormalOfJoined(d: Uri, names: seq<string>, mark: bool) returns (slash: bool)
    requires WellFormedUri(d) && PartsExclude(d, '\\') && Lower(d.scheme) == d.scheme
    requires PathNames(names) && d.path == AbsText(names, mark)
    requires EncodedNames(Resolved([], names, true)) == Resolved([], names, true)
    ensures LexicallyNormal(Text(d)) == Text(d.(path := AbsText(Resolved([], names, true), slash)))
  {
    hide Normalized, Resolved, AbsText, WellFormedUri, PartsExclude, Text, Dissect, Encoded;
    slash := NormalizedOfNames(names, mark);
    EncodedPathText(true, Resolved([], names, true), slash);
    PrintedDissects(d);
    TextExcludes(d, '\\');
    SlashesOfClean(Text(d));
    AbsTextFilled(names, mark);
  }

  lemma AbsTextFilled(names: seq<string>, mark: bool)
    ensures AbsText(names, mark) != ""
  {
  }

  lemma JoinedNames(nx: seq<string>, mx: bool, nb: seq<string>)
    requires FixedNames(nx) && FixedNames(nb) && PathNames(nx) && PathNames(nb)
    ensures PathNames(nb + Extra(nx, mx, nb).0)
  {
    ExtraNames(nx, mx, nb);
    var m := Extra(nx, mx, nb).0;
    var all := nb + m;
    EncodedDotText();
    forall i | 0 <= i < |all|
      ensures IsName(all[i]) && Encoded(all[i]) == all[i] && '?' !in all[i]
    {
      if i < |nb| {
        assert all[i] == nb[i] && EncodedNames(nb)[i] == nb[i];
      } else {
        assert all[i] == m[i - |nb|] && EncodedNames(m)[i - |nb|] == m[i - |nb|];
      }
    }
  }

  lemma ArrivedNames(nx: seq<string>, nb: seq<string>)
    requires FixedNames(nx) && FixedNames(nb)
    ensures AllNames(Arrived(nx, nb)) && EncodedNames(Arrived(nx, nb)) == Arrived(nx, nb)
  {
    var a := Arrived(nx, nb);
    forall i | 0 <= i < |a| ensures IsName(a[i]) && Encoded(a[i]) == a[i] {
      assert a[i] in nx || a[i] in nb;
      if a[i] in nb {
        var j :| 0 <= j < |nb| && nb[j] == a[i];
        assert EncodedNames(nb)[j] == nb[j];
      } else {
        var j :| 0 <= j < |nx| && nx[j] == a[i];
        assert EncodedNames(nx)[j] == nx[j];
      }
    }
  }

  lemma NormalPathNames(d: Uri, names: seq<string>, slash: bool)
    requires WellFormedUri(d) && d.path == AbsText(names, slash) && FixedNames(names)
    ensures PathNames(names)
  {
    forall i | 0 <= i < |names| ensures '?' !in names[i] {
      TailHoldsNames(names, slash, i);
    }
  }

  /** The relative form between two normal locations with the same scheme and authority. */
  lemma RelativeForm(dx: Uri, nx: seq<string>, sx: bool, db: Uri, nb: seq<string>, sb: bool)
    requires WellFormedUri(dx) && dx.query.None? && dx.fragment.None? && PartsExclude(dx, '\\')
    requires WellFormedUri(db) && db.query.None? && db.fragment.None? && PartsExclude(db, '\\')
    requires dx.scheme == db.scheme && dx.auth == db.auth
    requires dx.path == AbsText(nx, sx) && Settled(nx, true)
    requires db.path == AbsText(nb, sb) && Settled(nb, true)
    ensures var e := Extra(nx, EndMark(dx.auth, nx, sx), nb);
            LexicallyRelative(Text(dx), Text(db)) == RelText(e.0, e.1)
  {
    hide Tokens, RelativeElements, Text, WellFormedUri, PartsExclude, AbsText, Shared, Extra, RelText;
    ElementsOfLocation(dx, nx, sx);
    ElementsOfLocation(db, nb, sb);
    RelativeOf(Shared(dx.auth), nx, EndMark(dx.auth, nx, sx), nb, EndMark(db.auth, nb, sb));
  }

  /** Joining the relative form to the base. */
  lemma JoinedForm(d: Uri, nb: seq<string>, sb: bool, m: seq<string>, mark: bool)
    requires WellFormedUri(d) && d.path == AbsText(nb, sb) && AllNames(nb)
    requires AllNames(m) && EncodedNames(m) == m && (m == [] ==> mark)
    ensures Join(Text(d), RelText(m, mark)) == Text(d.(path := AbsText(nb + m, mark)))
  {
    hide WellFormedUri, Text, AbsText, RelText, Dissect;
    RelativeIsPlain(m, mark);
    PrintedDissects(d);
    AppendRelative(nb, sb, m, mark);
    AbsTextFilled(nb, sb);
  }

  /** Where a normal location is reached from a base by its relative form. */
  lemma ArrivesAt(dx: Uri, nx: seq<string>, sx: bool, db: Uri, nb: seq<string>, sb: bool) returns (slash: bool)
    requires WellFormedUri(dx) && dx.query.None? && dx.fragment.None? && PartsExclude(dx, '\\')
    requires WellFormedUri(db) && db.query.None? && db.fragment.None? && PartsExclude(db, '\\')
    requires dx.scheme == db.scheme && dx.auth == db.auth && Lower(db.scheme) == db.scheme
    requires dx.path == AbsText(nx, sx) && FixedNames(nx)
    requires db.path == AbsText(nb, sb) && FixedNames(nb)
    ensures LexicallyNormal(Join(Text(db), LexicallyRelative(Text(dx), Text(db))))
            == Text(db.(path := AbsText(Arrived(nx, nb), slash)))
  {
    hide WellFormedUri, PartsExclude, Text, AbsText, RelText, Join, LexicallyRelative, LexicallyNormal;
    hide Extra, Arrived, PathNames, Resolved, Settled;
    var mx := EndMark(dx.auth, nx, sx);
    var e := Extra(nx, mx, nb);
    RelativeForm(dx, nx, sx, db, nb, sb);
    ExtraNames(nx, mx, nb);
    SettledNames(nb);
    JoinedForm(db, nb, sb, e.0, e.1);
    NormalPathNames(dx, nx, sx);
    NormalPathNames(db, nb, sb);
    JoinedNames(nx, mx, nb);
    var joined := db.(path := AbsText(nb + e.0, e.1));
    PathOfNames(db, nb + e.0, e.1);
    ResolvedJoined(nx, mx, nb);
    ArrivedNames(nx, nb);
    slash := NormalOfJoined(joined, nb + e.0, e.1);
  }

  lemma SettledNames(names: seq<string>)
    requires Settled(names, true)
    ensures AllNames(names)
  {
  }

  /** Going from a normal base along the relative form of a normal location arrives at that
      location, up to a final slash, if and only if fewer than 32768 names of the base lie
      below the common names: the counter of directories to return has 16 bits. */
  lemma RelativeArrives(x: string, base: string)
    requires NormalAbsolute(x) && NormalAbsolute(base)
    requires Dissect(x).value.scheme == Dissect(base).value.scheme
    requires Dissect(x).value.auth == Dissect(base).value.auth
    ensures TrimSlash(LexicallyNormal(Join(base, LexicallyRelative(x, base)))) == TrimSlash(x) <==>
            |NamesOf(base)| - Mismatch(NamesOf(x), NamesOf(base)) < 32768
  {
    hide WellFormedUri, PartsExclude, Text, AbsText, Tail, Join, LexicallyRelative, LexicallyNormal, Arrived;
    hide Mismatch, Settled, TrimSlash, Front, PlainNames, Tokens;
    var dx, nx, sx := NormalAbsoluteNames(x);
    var db, nb, sb := NormalAbsoluteNames(base);
    SettledNames(nx);
    SettledNames(nb);
    NamesOfText(dx, nx, sx);
    NamesOfText(db, nb, sb);
    var slash := ArrivesAt(dx, nx, sx, db, nb, sb);
    var a := Arrived(nx, nb);
    var dr := db.(path := AbsText(a, slash));
    ArrivedNames(nx, nb);
    TextOfFront(dx);
    TextOfFront(dr);
    SameFront(dx, dr);
    TrimmedText(Front(dx), nx, sx);
    TrimmedText(Front(dx), a, slash);
    TailInjective(Front(dx), a, nx);
    ArrivesIff(nx, nb);
  }

  lemma SameFront(a: Uri, b: Uri)
    requires a.scheme == b.scheme && a.auth == b.auth
    ensures Front(a) == Front(b)
  {
  }

  // ----- a base too deep to leave -----

  /** A location `n` names deep. */
  function Deep(n: nat): (d: Uri)
  {
    Uri("ab", None, AbsText(seq(n, _ => "a"), false), None, None)
  }

  lemma LetterIsFixed()
    ensures Encoded("a") == "a"
  {
    hide Encoded;
    EncodedStep('a', "");
    EncodedEmpty();
    assert ['a'] + "" == "a";
  }

  lemma {:induction false} LettersValid(names: seq<string>)
    requires forall i | 0 <= i < |names| :: names[i] == "a"
    ensures ValidText(Tail(names, false), PathQuery, true) && '?' !in Tail(names, false)
  {
    hide ValidText, Tail;
    if names != [] {
      LettersValid(names[1..]);
      assert names == ["a"] + names[1..];
      TailStep("a", names[1..]);
      SlashLetter(Tail(names[1..], false));
    } else {
      TailEmpty();
      NothingIsValid();
    }
  }

  lemma SlashLetter(x: string)
    requires ValidText(x, PathQuery, true) && '?' !in x
    ensures ValidText("/" + ("a" + x), PathQuery, true) && '?' !in "/" + ("a" + x)
  {
    assert ("a" + x)[1..] == x && ("/" + ("a" + x))[1..] == "a" + x;
  }

  lemma DeepWellFormed(n: nat)
    ensures WellFormedUri(Deep(n)) && '?' !in Deep(n).path && '\\' !in Text(Deep(n))
  {
    hide ValidText;
    DeepPath(n);
    SchemeValid();
    NoBackslashInScheme();
    ValidTextExcludes(Deep(n).path, PathQuery, true, '\\');
    hide AbsText, Text;
    TextExcludes(Deep(n), '\\');
  }

  lemma SchemeValid()
    ensures ValidText("ab", Scheme, false)
  {
    assert "ab"[1..] == "b" && "b"[1..] == "";
  }

  lemma NoBackslashInScheme()
    ensures '\\' !in "ab"
  {
  }

  lemma DeepPath(n: nat)
    ensures var path := Deep(n).path; ValidText(path, PathQuery, true) && '?' !in path && !StartsWith(path, "//")
  {
    hide ValidText, Tail;
    var names := seq(n, _ => "a");
    LettersValid(names);
    if n > 0 {
      assert names == ["a"] + names[1..];
      TailStep("a", names[1..]);
      assert Deep(n).path[1] == 'a';
    } else {
      SlashValid();
      assert Deep(n).path == "/";
    }
  }

  lemma SlashValid()
    ensures ValidText("/", PathQuery, true)
  {
    assert "/"[1..] == "";
  }

  lemma DeepPathIsNormal(n: nat)
    ensures Normalized(Deep(n).path) == Deep(n).path && Encoded(Deep(n).path) == Deep(n).path
  {
    hide Normalized, Encoded, AbsText, NormalNames, EncodedNames;
    var names := seq(n, _ => "a");
    LettersNormal(names);
    NormalTextStays(names, false, true);
    EncodedPathText(true, names, false);
  }

  lemma LettersNormal(names: seq<string>)
    requires forall i | 0 <= i < |names| :: names[i] == "a"
    ensures NormalNames(names, false, true) && EncodedNames(names) == names
  {
    hide Encoded, EndsWith;
    LetterIsFixed();
    LetterHasNoDot();
  }

  lemma LetterHasNoDot()
    ensures !EndsWith("a", ".")
  {
    assert "a"[0..] == "a";
  }

  /** Such locations are normal. */
  lemma DeepIsNormal(n: nat)
    ensures NormalAbsolute(Text(Deep(n))) && Dissect(Text(Deep(n))) == Some(Deep(n))
  {
    hide WellFormedUri, Text, AbsText, Dissect, Normalized, Encoded, Tokens;
    var d := Deep(n);
    DeepWellFormed(n);
    DeepPathIsNormal(n);
    assert NormalParts(d) == d by { assert Lower("ab") == "ab"; }
    SlashesOfClean(Text(d));
    PrintedDissects(d);
  }

  lemma DeepNames(n: nat)
    ensures PlainNames(Tokens(Deep(n).path)) == seq(n, _ => "a")
  {
    hide AbsText, Tokens;
    NamesOfText(Deep(n), seq(n, _ => "a"), false);
  }

  /** A base 32768 names deep: the way from it to the root location is lost. */
  lemma DeepBaseIsNotLeft()
    ensures NormalAbsolute("ab:/") && NormalAbsolute(Text(Deep(32768)))
    ensures TrimSlash(LexicallyNormal(Join(Text(Deep(32768)), LexicallyRelative("ab:/", Text(Deep(32768))))))
            != TrimSlash("ab:/")
  {
    hide NormalAbsolute, Text, TrimSlash, LexicallyNormal, Join, LexicallyRelative, Dissect, Tokens, AbsText;
    hide PlainNames;
    DeepIsNormal(0);
    DeepIsNormal(32768);
    DeepNames(0);
    DeepNames(32768);
    RootLocation();
    RelativeArrives("ab:/", Text(Deep(32768)));
  }

  lemma RootLocation()
    ensures Text(Deep(0)) == "ab:/"
  {
    assert HierText(None, "/") + TailText(None, None) == "/";
    assert AbsText(seq(0, _ => "a"), false) == "/";
  }
}

/** Percent-encoding a normalized path works name by name, keeps it normalized and makes it a
    valid URI path. */
module EncodedPaths {
  import opened Basics
  import opened Utf8
  import opened Encoding
  import opened EncodingLaws
  import opened UriSyntax
  import opened UriLaws
  import opened PathTokens
  import opened NormalizePath
  import opened NormalizeLaws

  // ----- encoding across a slash -----

  /** No group reaches across a slash. */
  lemma {:induction false} GroupsBeforeSlash(a: string, b: string)
    requires b != "" && b[0] == '/'
    ensures Groups(a + b) == Groups(a)
    decreases |a|
  {
    var s := a + b;
    if |a| >= 3 {
      assert Group(s, 0) == Group(a, 0);
      assert s[3..] == a[3..] + b;
      GroupsBeforeSlash(a[3..], b);
    } else {
      NoGroupAcross(a, b);
    }
  }

  lemma NoGroupAcross(a: string, b: string)
    requires b != "" && b[0] == '/' && |a| < 3
    ensures Group(a + b, 0) == None && Group(a, 0) == None
  {
    assert (a + b)[|a|] == '/';
    assert HexValue('/') == None;
  }

  lemma {:induction false} EncodedBeforeSlash(a: string, b: string)
    requires b != "" && b[0] == '/'
    ensures Encoded(a + b) == Encoded(a) + Encoded(b)
    decreases |a|
  {
    hide Encoded, Groups, CharLen, UriChar, Upper;
    if a == "" {
      assert a + b == b && "" + Encoded(b) == Encoded(b);
      EncodedEmpty();
    } else {
      GroupsBeforeSlash(a, b);
      var k, piece := EncodedFirst(a);
      var k', piece' := EncodedFirst(a + b);
      FrontOfSum(a, b, k);
      EncodedBeforeSlash(a[k..], b);
      Encoding.Regroup(piece, Encoded(a[k..]), Encoded(b));
    }
  }

  lemma FrontOfSum(a: string, b: string, k: nat)
    requires 0 < k <= |a|
    ensures (a + b)[..k] == a[..k] && (a + b)[k..] == a[k..] + b && (a + b)[0] == a[0]
  {
  }

  lemma EncodedSlash(x: string)
    ensures Encoded("/" + x) == "/" + Encoded(x)
  {
    NoGroup("/" + x);
    assert ("/" + x)[1..] == x;
  }

  // ----- names -----

  function EncodedNames(names: seq<string>): (r: seq<string>)
    ensures |r| == |names| && forall i | 0 <= i < |names| :: r[i] == Encoded(names[i])
  {
    seq(|names|, i requires 0 <= i < |names| => Encoded(names[i]))
  }

  lemma {:induction false} EncodedTail(names: seq<string>, slash: bool)
    ensures Encoded(Tail(names, slash)) == Tail(EncodedNames(names), slash)
  {
    if names == [] {
      if slash {
        EncodedSlash("");
        assert "/" + "" == "/";
      }
    } else {
      var rest := Tail(names[1..], slash);
      EncodedTail(names[1..], slash);
      EncodedSlash(names[0] + rest);
      EncodedFront(names[0], rest);
      assert EncodedNames(names)[1..] == EncodedNames(names[1..]);
    }
  }

  lemma EncodedFront(name: string, rest: string)
    requires rest != "" ==> rest[0] == '/'
    ensures Encoded(name + rest) == Encoded(name) + Encoded(rest)
  {
    if rest == "" {
      assert name + rest == name && Encoded(name) + "" == Encoded(name);
    } else {
      EncodedBeforeSlash(name, rest);
    }
  }

  /** Encoding a path encodes its names. */
  lemma EncodedPathText(absolute: bool, names: seq<string>, slash: bool)
    ensures Encoded(PathText(absolute, names, slash)) == PathText(absolute, EncodedNames(names), slash)
  {
    if names == [] {
      if absolute {
        EncodedSlash("");
        assert "/" + "" == "/";
      }
    } else if absolute {
      EncodedTail(names, slash);
    } else {
      EncodedTail(names[1..], slash);
      EncodedFront(names[0], Tail(names[1..], slash));
      assert EncodedNames(names)[1..] == EncodedNames(names[1..]);
    }
  }

  /** The characters of a piece of output. */
  lemma UpperChars(s: string, n: nat)
    requires n <= |Groups(s)|
    ensures 3 * n <= |s| && forall c | c in Upper(s[..3 * n]) :: c == '%' || HexValue(c).Some?
  {
    var u := Upper(s[..3 * n]);
    forall i | 0 <= i < |u| ensures u[i] == '%' || HexValue(u[i]).Some? {
      GroupsRead(s, i / 3);
      assert i == 3 * (i / 3) || i == 3 * (i / 3) + 1 || i == 3 * (i / 3) + 2;
    }
  }

  /** Apart from `%` and digits only kept characters of the input appear. */
  lemma {:induction false} EncodedChars(s: string)
    ensures forall c | c in Encoded(s) ::
              c == '%' || HexValue(c).Some? || (IsTolerable(c) && (c in s || (c == '/' && '\\' in s)))
    decreases |s|
  {
    hide Encoded, Groups, CharLen, UriChar, Upper;
    if s != "" {
      var k, piece := EncodedFirst(s);
      EncodedChars(s[k..]);
      if EncodedSize(s) > 0 { UpperChars(s, EncodedSize(s)); }
      assert forall c | c in s[k..] :: c in s;
      PieceChars(s, EncodedSize(s));
    } else {
      EncodedEmpty();
    }
  }

  lemma PieceChars(s: string, n: nat)
    requires s != "" && n == EncodedSize(s)
    ensures n == 0 ==> forall c | c in UriChar(Slashed(s[0]), true) ::
              c == '%' || HexValue(c).Some? || (IsTolerable(c) && (c in s || (c == '/' && '\\' in s)))
  {
    assert s[0] in s;
  }

  /** An encoded name is a name. */
  lemma EncodedName(name: string)
    requires IsName(name)
    ensures IsName(Encoded(name))
  {
    EncodedChars(name);
    EncodedGrows(name);
    assert HexValue('/') == None && HexValue('\\') == None && !IsTolerable('\\');
  }

  /** Where an encoded text ends in a dot, the text does. */
  lemma {:induction false} EncodedLast(s: string)
    requires s != ""
    ensures Encoded(s) != ""
    ensures Encoded(s)[|Encoded(s)| - 1] == '.' ==> s[|s| - 1] == '.'
    decreases |s|
  {
    hide Encoded, Groups, CharLen, UriChar, Upper;
    var k, piece := EncodedFirst(s);
    if s[k..] == "" {
      EncodedEmpty();
      assert piece + "" == piece;
      LastOfPiece(s, k, piece);
    } else {
      EncodedLast(s[k..]);
      assert Encoded(s)[|Encoded(s)| - 1] == Encoded(s[k..])[|Encoded(s[k..])| - 1];
      assert s[|s| - 1] == s[k..][|s| - k - 1];
    }
  }

  lemma LastOfPiece(s: string, k: nat, piece: string)
    requires s != ""
    requires EncodedSize(s) > 0 ==> k == 3 * EncodedSize(s) <= |s| && piece == Upper(s[..k])
    requires EncodedSize(s) == 0 ==> |s| == 1 && piece == UriChar(Slashed(s[0]), true)
    ensures piece != "" && (piece[|piece| - 1] == '.' ==> s[|s| - 1] == '.')
  {
    hide Groups, CharLen;
    if EncodedSize(s) > 0 {
      UpperChars(s, EncodedSize(s));
      assert piece[|piece| - 1] in piece && HexValue('.') == None;
    }
  }

  /** Dot names come only from dot names. */
  lemma EncodedDots(name: string)
    requires IsName(name)
    ensures Encoded(name) == "." <==> name == "."
    ensures Encoded(name) == ".." <==> name == ".."
    ensures EndsWith(Encoded(name), ".") ==> EndsWith(name, ".")
  {
    EncodedGrows(name);
    EncodedLast(name);
    EncodedDotText();
    var e := Encoded(name);
    if EndsWith(e, ".") {
      assert e[|e| - 1..] == [e[|e| - 1]] && name[|name| - 1..] == [name[|name| - 1]];
    }
    if e == ".." { ShortOutput(name); }
    if e == "." { assert |name| == 1; }
  }

  lemma EncodedDotText()
    ensures Encoded(".") == "." && Encoded("..") == ".."
  {
    NoGroup(".");
    NoGroup("..");
    assert "."[1..] == "" && ".."[1..] == ".";
  }

  /** Two characters of output without an escape are two kept characters. */
  lemma ShortOutput(name: string)
    requires IsName(name) && Encoded(name) == ".."
    ensures name == ".."
  {
    KeptIsLong(name);
    var c, rest := name[0], name[1..];
    assert c in name;
    assert UriChar(Slashed(c), true) == "." by { assert Encoded(name)[0] == '.'; }
    assert c == '.';
    assert Encoded(rest) == "." by { assert ("." + Encoded(rest))[1..] == Encoded(rest); }
    EncodedGrows(rest);
    assert rest != "";
    EncodedLast(rest);
    assert rest == ".";
  }

  lemma KeptIsLong(s: string)
    ensures EncodedSize(s) > 0 ==> |Encoded(s)| >= 3
  {
  }

  /** Encoded normal names are normal. */
  lemma EncodedNormalNames(names: seq<string>, slash: bool, absolute: bool)
    requires NormalNames(names, slash, absolute)
    ensures NormalNames(EncodedNames(names), slash, absolute)
  {
    hide Encoded, EndsWith, IsName;
    var e := EncodedNames(names);
    forall i | 0 <= i < |names|
      ensures IsName(e[i]) && (e[i] == "." <==> names[i] == ".") && (e[i] == ".." <==> names[i] == "..")
      ensures EndsWith(e[i], ".") ==> EndsWith(names[i], ".")
    {
      assert IsName(names[i]);
      EncodedName(names[i]);
      EncodedDots(names[i]);
    }
  }

  // ----- validity -----

  lemma {:induction false} ValidAppend(a: string, b: string, t: CharClass)
    requires ValidText(a, t, true) && ValidText(b, t, true) && !InClass('%', t)
    ensures ValidText(a + b, t, true)
    decreases |a|
  {
    hide InClass;
    if a == "" {
      assert a + b == b;
    } else if InClass(a[0], t) {
      assert (a + b)[1..] == a[1..] + b;
      ValidAppend(a[1..], b, t);
    } else {
      assert (a + b)[3..] == a[3..] + b;
      ValidAppend(a[3..], b, t);
    }
  }

  lemma TripleIsValid(hi: char, lo: char, x: string)
    requires HexValue(hi).Some? && HexValue(lo).Some? && ValidText(x, PathQuery, true)
    ensures ValidText(['%', hi, lo] + x, PathQuery, true)
  {
    assert (['%', hi, lo] + x)[3..] == x;
  }

  lemma {:induction false} UpperIsValid(s: string, n: nat)
    requires n <= |Groups(s)|
    ensures 3 * n <= |s| && ValidText(Upper(s[..3 * n]), PathQuery, true)
    decreases n
  {
    if n > 0 {
      UpperFirstGroup(s, n);
      UpperIsValid(s[3..], n - 1);
      TripleIsValid(ToUpper(s[1]), ToUpper(s[2]), Upper(s[3..][..3 * (n - 1)]));
    }
  }

  lemma PushedIsValid(c: char)
    ensures ValidText(UriChar(c, true), PathQuery, true)
  {
    var p := UriChar(c, true);
    if |p| == 1 {
      assert p[1..] == "";
    } else {
      TripleIsValid(p[1], p[2], "");
      assert ['%', p[1], p[2]] + "" == p;
    }
  }

  /** Whatever is encoded is a valid path, query or fragment text. */
  lemma {:induction false} EncodedIsValid(s: string)
    ensures ValidText(Encoded(s), PathQuery, true)
    decreases |s|
  {
    hide Encoded, Groups, CharLen, UriChar, Upper, ValidText;
    if s != "" {
      var k, piece := EncodedFirst(s);
      if EncodedSize(s) > 0 { UpperIsValid(s, EncodedSize(s)); } else { PushedIsValid(Slashed(s[0])); }
      EncodedIsValid(s[k..]);
      ValidAppend(piece, Encoded(s[k..]), PathQuery);
    } else {
      EncodedEmpty();
      NothingIsValid();
    }
  }

  lemma NothingIsValid()
    ensures ValidText("", PathQuery, true)
  {
  }

  predicate IsAscii(s: string) { forall i | 0 <= i < |s| :: (s[i] as int) < 128 }

  lemma ValidIsAscii(s: string)
    requires ValidText(s, PathQuery, true)
    ensures IsAscii(s)
  {
    forall i | 0 <= i < |s| ensures (s[i] as int) < 128 {
      assert s[i] in s;
      if s[i] as int >= 128 { ValidTextExcludes(s, PathQuery, true, s[i]); }
    }
  }

  /** Encoding ASCII text a second time changes nothing. */
  lemma AsciiEncodedTwice(s: string)
    requires IsAscii(s)
    ensures Encoded(Encoded(s)) == Encoded(s)
  {
    assert IsByteString(s);
    assert forall i | 0 <= i < |s| :: AsBytes(s)[i] < 128;
    AsciiIsWellFormed(AsBytes(s));
    EncodedTwice(s);
  }

  // ----- the characters of a normalized path -----

  lemma {:induction false} SegmentsChars(v: string)
    ensures forall t, c | t in Segments(v) && c in t :: c in v
    decreases |v|
  {
    if FirstNotSlash(v) < |v| {
      var b, e := FirstName(v);
      SegmentsChars(v[e..]);
      assert forall c | c in v[e..] :: c in v;
      assert forall c | c in v[b..e] :: c in v;
    }
  }

  lemma TokensChars(p: string)
    ensures forall t, c | t in Tokens(p) && c in t :: c in p
  {
    if p != "" {
      if IsSlash(p[0]) {
        SegmentsChars(p[1..]);
        assert forall c | c in p[1..] :: c in p;
      } else {
        SegmentsChars(p);
      }
    }
  }

  lemma {:induction false} PushedAllFrom(elements: seq<string>, ts: seq<string>, first: bool)
    ensures forall e | e in PushedAll(elements, ts, first) :: e in elements || e in ts || e == "/"
    decreases |ts|
  {
    if ts != [] { PushedAllFrom(Pushed(elements, ts[0], first), ts[1..], false); }
  }

  lemma AppendedChars(uri: string, r: string)
    ensures forall c | c in Appended(uri, r) :: c in uri || c in r || c == '/'
  {
  }

  lemma {:induction false} AppendedAllChars(uri: string, es: seq<string>)
    ensures forall c | c in AppendedAll(uri, es) :: c in uri || c == '/' || exists i | 0 <= i < |es| :: c in es[i]
    decreases |es|
  {
    if es != [] {
      AppendedChars(uri, es[0]);
      AppendedAllChars(Appended(uri, es[0]), es[1..]);
      forall c | c in AppendedAll(uri, es)
        ensures c in uri || c == '/' || exists i | 0 <= i < |es| :: c in es[i]
      {
        if c in es[0] {
        } else if i :| 0 <= i < |es[1..]| && c in es[1..][i] {
          assert c in es[i + 1];
        }
      }
    }
  }

  /** Normalizing invents no characters but slashes. */
  lemma NormalizedChars(p: string)
    ensures forall c | c in Normalized(p) :: c in p || c == '/'
  {
    hide Tokens, AppendedAll, PushedAll;
    var es := PushedAll([], Tokens(p), true);
    TokensChars(p);
    PushedAllFrom([], Tokens(p), true);
    AppendedAllChars("", es);
    AppendedChars(AppendedAll("", es), "");
    forall i, c | 0 <= i < |es| && c in es[i] ensures c in p || c == '/' {
      assert es[i] in es;
    }
  }
}

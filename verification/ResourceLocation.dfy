/** `lexically_normal`, `lexically_relative` and `join` on platforms other than Windows
    (utils/src/resource_location.cpp). A location is its URI text; the empty text stands for
    the empty location. */
module ResourceLocation {
  import opened Basics
  import opened Encoding
  import E = EncodingLaws
  import opened UriSyntax
  import opened PathTokens
  import N = NormalizePath

  // ----- lexically_normal -----

  function LowerChar(c: char): (l: char)
  {
    if 'A' <= c <= 'Z' then (c as int + 32) as char else c
  }

  function Lower(s: string): (r: string)
    ensures |r| == |s|
  {
    seq(|s|, i requires 0 <= i < |s| => LowerChar(s[i]))
  }

  /** The normal form of a dissected URI. */
  function NormalParts(d: Uri): (r: Uri)
  {
    d.(scheme := Lower(d.scheme), path := Encoded(N.Normalized(d.path)))
  }

  function LexicallyNormal(uri: string): (r: string)
  {
    var u := Slashes(uri);
    var d := Dissect(u);
    if d.None? then N.Normalized(u)
    else if d.value.path == "" && '\\' !in uri then uri
    else Text(NormalParts(d.value))
  }

  method LexicallyNormalOf(uri: string) returns (r: string)
    ensures r == LexicallyNormal(uri)
  {
    var buffered := IndexOf(uri, '\\') < |uri|;
    IndexOfPasses(uri, '\\');
    var view := uri;
    if buffered {
      view := Slashes(uri);
    } else {
      assert uri[..|uri|] == uri;
      SlashesOfClean(uri);
    }
    var d := DissectUri(view);
    if d.None? {
      r := N.NormalizePathOf(view);
      return;
    }
    if d.value.path == "" && !buffered {
      return uri;
    }
    var scheme := Lower(d.value.scheme);
    var path := N.NormalizePathOf(d.value.path);
    path := PercentEncodePathAndIgnoreUtf8(path);
    r := ReconstructUri(d.value.(scheme := scheme, path := path), "");
    assert path + "" == path;
  }

  lemma SlashesOfClean(s: string)
    requires '\\' !in s
    ensures Slashes(s) == s
  {
  }

  // ----- lexically_relative -----

  /** A value kept in an `int16_t`. */
  function Wrap16(n: int): (r: int)
    ensures -32768 <= r < 32768
  {
    (n + 32768) % 65536 - 32768
  }

  /** Where two element sequences part. */
  function Mismatch(l: seq<string>, r: seq<string>): (m: nat)
    ensures m <= |l| && m <= |r|
  {
    if l == [] || r == [] || l[0] != r[0] then 0 else 1 + Mismatch(l[1..], r[1..])
  }

  /** The counter over the remaining base elements. */
  function DirsToReturn(n: int, es: seq<string>): (r: int)
    decreases |es|
  {
    if es == [] then n
    else
      DirsToReturn(if es[0] == ".." then Wrap16(n - 1)
                   else if es[0] != "" && es[0] != "." then Wrap16(n + 1)
                   else n, es[1..])
  }

  function Dots(n: nat): (r: seq<string>)
    ensures |r| == n && forall i | 0 <= i < n :: r[i] == ".."
  {
    seq(n, _ => "..")
  }

  /** The scheme up to and including the colon; nothing when there is none. */
  function SchemeEnd(uri: string): (k: nat)
    ensures k <= |uri|
  {
    var i := IndexOf(uri, ':');
    if i == |uri| then 0 else i + 1
  }

  function RelativeElements(l: seq<string>, r: seq<string>): (s: string)
  {
    var m := Mismatch(l, r);
    if m == |l| && m == |r| then "."
    else
      var n := DirsToReturn(0, r[m..]);
      if n < 0 then ""
      else if n == 0 && (m == |l| || l[m] == "") then "."
      else N.AppendedAll("", Dots(n) + l[m..])
  }

  function LexicallyRelative(uri: string, base: string): (r: string)
  {
    var k := SchemeEnd(uri);
    if |base| < k || uri[..k] != base[..k] then ""
    else RelativeElements(Tokens(uri[k..]), Tokens(base[k..]))
  }

  /** The iterator stands at element `k` of `es`, or past the end. */
  ghost predicate At(it: UriPathIterator, es: seq<string>, k: nat)
    reads it
  {
    && it.Valid() && k <= |es| && it.Pending() == es[k..]
    && (it.ended <==> k == |es|) && (!it.ended ==> it.element == es[k])
  }

  method Begin(it: UriPathIterator)
    requires it.Valid() && !it.ended
    modifies it
    ensures At(it, old(it.Rest()), 0)
  {
    it.Next();
    assert old(it.Rest())[0..] == old(it.Rest());
  }

  method Advance(it: UriPathIterator, ghost es: seq<string>, ghost k: nat)
    requires At(it, es, k) && k < |es|
    modifies it
    ensures At(it, es, k + 1)
  {
    assert es[k..][1..] == es[k + 1..];
    it.Next();
  }

  /** `std::ranges::mismatch` over both iterators. */
  method MismatchIterators(l: UriPathIterator, r: UriPathIterator)
    requires l != r && l.Valid() && r.Valid() && !l.ended && !r.ended
    modifies l, r
    ensures var m := Mismatch(old(l.Rest()), old(r.Rest()));
            At(l, old(l.Rest()), m) && At(r, old(r.Rest()), m)
  {
    hide Tokens, Segments, FirstNotSlash, Mismatch, UriPathIterator.Rest, UriPathIterator.Pending;
    hide UriPathIterator.Valid;
    ghost var ls, rs := l.Rest(), r.Rest();
    ghost var k := 0;
    Begin(l);
    Begin(r);
    MismatchFrom(ls, rs, 0);
    while !l.ended && !r.ended && l.element == r.element
      invariant At(l, ls, k) && At(r, rs, k)
      invariant k <= Mismatch(ls, rs)
      decreases |ls| - k
    {
      MismatchFrom(ls, rs, k);
      Advance(l, ls, k);
      Advance(r, rs, k);
      k := k + 1;
    }
    MismatchFrom(ls, rs, k);
  }

  /** Elements before the mismatch agree; at the mismatch they do not. */
  lemma {:induction false} MismatchFrom(ls: seq<string>, rs: seq<string>, k: nat)
    requires k <= Mismatch(ls, rs)
    ensures k < |ls| && k < |rs| && ls[k] == rs[k] <==> k < Mismatch(ls, rs)
    decreases k
  {
    if k > 0 { MismatchFrom(ls[1..], rs[1..], k - 1); }
  }

  /** The loop over the rest of the base. */
  method CountDirs(r: UriPathIterator, ghost es: seq<string>, ghost m: nat) returns (n: int)
    requires At(r, es, m)
    modifies r
    ensures n == DirsToReturn(0, es[m..])
  {
    hide Tokens, Segments, FirstNotSlash, UriPathIterator.Rest, UriPathIterator.Pending, UriPathIterator.Valid;
    n := 0;
    ghost var k := m;
    while !r.ended
      invariant At(r, es, k)
      invariant DirsToReturn(n, es[k..]) == DirsToReturn(0, es[m..])
      decreases |es| - k
    {
      assert es[k..][1..] == es[k + 1..];
      if r.element == ".." {
        n := Wrap16(n - 1);
      } else if r.element != "" && r.element != "." {
        n := Wrap16(n + 1);
      }
      Advance(r, es, k);
      k := k + 1;
    }
  }

  /** The loop that appends the rest of the path. */
  method AppendRest(prefix: string, l: UriPathIterator, ghost es: seq<string>, ghost m: nat) returns (ret: string)
    requires At(l, es, m)
    modifies l
    ensures ret == N.AppendedAll(prefix, es[m..])
  {
    hide Tokens, Segments, FirstNotSlash, UriPathIterator.Rest, UriPathIterator.Pending, UriPathIterator.Valid;
    ret := prefix;
    ghost var k := m;
    while !l.ended
      invariant At(l, es, k)
      invariant N.AppendedAll(ret, es[k..]) == N.AppendedAll(prefix, es[m..])
      decreases |es| - k
    {
      assert es[k..][1..] == es[k + 1..];
      ret := N.UriAppend(ret, l.element);
      Advance(l, es, k);
      k := k + 1;
    }
  }

  method AppendDots(n: nat) returns (ret: string)
    ensures ret == N.AppendedAll("", Dots(n))
  {
    ret := "";
    var left: nat := n;
    while left != 0
      invariant left <= n
      invariant N.AppendedAll(ret, Dots(left)) == N.AppendedAll("", Dots(n))
    {
      assert Dots(left)[1..] == Dots(left - 1);
      ret := N.UriAppend(ret, "..");
      left := left - 1;
    }
    assert Dots(0) == [];
  }

  lemma {:induction false} AppendedAllSplit(uri: string, a: seq<string>, b: seq<string>)
    ensures N.AppendedAll(uri, a + b) == N.AppendedAll(N.AppendedAll(uri, a), b)
    decreases |a|
  {
    if a == [] {
      assert a + b == b;
    } else {
      assert (a + b)[1..] == a[1..] + b;
      AppendedAllSplit(N.Appended(uri, a[0]), a[1..], b);
    }
  }

  method LexicallyRelativeOf(uri: string, base: string) returns (r: string)
    ensures r == LexicallyRelative(uri, base)
  {
    var k := SchemeEnd(uri);
    if |base| < k || uri[..k] != base[..k] {
      return "";
    }
    var lIt := new UriPathIterator(uri[k..]);
    var rIt := new UriPathIterator(base[k..]);
    ghost var ls, rs := Tokens(uri[k..]), Tokens(base[k..]);
    ghost var m := Mismatch(ls, rs);
    MismatchIterators(lIt, rIt);
    if lIt.ended && rIt.ended {
      return ".";
    }
    var n := CountDirs(rIt, rs, m);
    if n < 0 {
      return "";
    }
    if n == 0 && (lIt.ended || lIt.element == "") {
      return ".";
    }
    r := AppendDots(n);
    AppendedAllSplit("", Dots(n), ls[m..]);
    r := AppendRest(r, lIt, ls, m);
  }

  // ----- join -----

  const NO_URI := Uri("", None, "", None, None)

  function Join(rl: string, other: string): (r: string)
  {
    var d := Dissect(rl);
    if Dissect(other).Some? then other
    else if StartsWith(other, "/") then Text((if d.Some? then d.value else NO_URI).(path := other))
    else if d.Some? then
      Text(d.value.(path := N.Appended(if d.value.path == "" then "/" else d.value.path, other)))
    else N.Appended(rl, other)
  }

  method JoinOf(rl: string, other: string) returns (r: string)
    ensures r == Join(rl, other)
  {
    var o := DissectUri(other);
    if o.Some? {
      return other;
    }
    var d := DissectUri(rl);
    if StartsWith(other, "/") {
      if d.None? {
        d := Some(NO_URI);
      }
      r := ReconstructUri(d.value.(path := other), "");
      assert other + "" == other;
    } else if d.Some? {
      var path := d.value.path;
      if path == "" {
        path := "/";
      }
      path := N.UriAppend(path, other);
      r := ReconstructUri(d.value.(path := path), "");
      assert path + "" == path;
    } else {
      r := N.UriAppend(rl, other);
    }
  }
}

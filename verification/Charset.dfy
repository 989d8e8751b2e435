/** The conversion loop works on bytes; it substitutes code points, and for the Nordic pages
    going there and back is the identity exactly where the two tables allow it
    (language_server/src/pseudo_convertors.cpp). */
module Charset {
  import opened Basics
  import opened Utf8
  import opened CharsetTables

  // ----- the loop -----

  /** The first conversion whose source starts the text. */
  function MatchAt(p: seq<Conversion>, s: Bytes): (r: Option<Conversion>)
    ensures r.Some? ==> EncodeScalar(r.value.0) <= s
  {
    if p == [] then None else if EncodeScalar(p[0].0) <= s then Some(p[0]) else MatchAt(p[1..], s)
  }

  /** Replacing matches from left to right, byte by byte. */
  function Converted(p: seq<Conversion>, s: Bytes): (r: Bytes)
    decreases |s|
  {
    if s == [] then []
    else
      var m := MatchAt(p, s);
      if m.Some? then EncodeScalar(m.value.1) + Converted(p, s[|EncodeScalar(m.value.0)|..])
      else [s[0]] + Converted(p, s[1..])
  }

  ghost predicate PrefixesOf(prefixes: seq<Byte>, p: seq<Conversion>)
  {
    forall i | 0 <= i < |p| :: EncodeScalar(p[i].0)[0] in prefixes
  }

  /** `src.find_first_of(prefixes, idx)` */
  function FirstOf(src: Bytes, prefixes: seq<Byte>, idx: nat): (n: nat)
    requires idx <= |src|
    ensures idx <= n <= |src|
    ensures forall k | idx <= k < n :: src[k] !in prefixes
    ensures n < |src| ==> src[n] in prefixes
    decreases |src| - idx
  {
    if idx == |src| || src[idx] in prefixes then idx else FirstOf(src, prefixes, idx + 1)
  }

  lemma {:induction false} NoMatchAt(prefixes: seq<Byte>, p: seq<Conversion>, s: Bytes)
    requires PrefixesOf(prefixes, p) && (s == [] || s[0] !in prefixes)
    ensures MatchAt(p, s) == None
  {
    if p != [] {
      assert EncodeScalar(p[0].0)[0] in prefixes;
      NoMatchAt(prefixes, p[1..], s);
    }
  }

  /** The search over the conversions. */
  method FindConversion(p: seq<Conversion>, s: Bytes) returns (k: nat)
    ensures k <= |p|
    ensures MatchAt(p, s) == if k == |p| then None else Some(p[k])
  {
    k := 0;
    while k < |p| && !(EncodeScalar(p[k].0) <= s)
      invariant k <= |p| && MatchAt(p, s) == MatchAt(p[k..], s)
    {
      assert p[k..][1..] == p[k + 1..];
      k := k + 1;
    }
  }

  /** `r` holds what the bytes before `idx` become. */
  ghost predicate Done(dst: Bytes, src: Bytes, p: seq<Conversion>, r: Bytes, idx: nat)
    requires idx <= |src|
  {
    r + Converted(p, src[idx..]) == dst + Converted(p, src)
  }

  /** `convert` between the two sides of the conversions. */
  method Convert(dst: Bytes, src: Bytes, prefixes: seq<Byte>, p: seq<Conversion>) returns (r: Bytes)
    requires PrefixesOf(prefixes, p)
    ensures r == dst + Converted(p, src)
  {
    hide Done, Converted, MatchAt, PrefixesOf;
    r := dst;
    var idx := 0;
    NothingDone(dst, src, p);
    while true
      invariant idx <= |src| && Done(dst, src, p, r, idx)
      decreases |src| - idx
    {
      var next := FirstOf(src, prefixes, idx);
      if next == |src| {
        AllDone(dst, src, prefixes, p, r, idx);
        break;
      }
      var c := FindConversion(p, src[next..]);
      if c == |p| {
        OneDone(dst, src, prefixes, p, r, idx, next);
        r := r + src[idx..next + 1];
        idx := next + 1;
        continue;
      }
      MatchDone(dst, src, prefixes, p, r, idx, next, p[c]);
      r := r + src[idx..next];
      r := r + EncodeScalar(p[c].1);
      idx := next + |EncodeScalar(p[c].0)|;
    }
    r := r + src[idx..];
  }

  lemma NothingDone(dst: Bytes, src: Bytes, p: seq<Conversion>)
    ensures Done(dst, src, p, dst, 0)
  {
    assert src[0..] == src;
  }

  lemma AllDone(dst: Bytes, src: Bytes, prefixes: seq<Byte>, p: seq<Conversion>, r: Bytes, idx: nat)
    requires idx <= |src| && Done(dst, src, p, r, idx) && PrefixesOf(prefixes, p)
    requires forall k | idx <= k < |src| :: src[k] !in prefixes
    ensures r + src[idx..] == dst + Converted(p, src)
  {
    CopiedUpTo(prefixes, p, src, idx, |src|);
    NothingMore(p);
    assert src[|src|..] == [] && src[idx..|src|] == src[idx..];
    assert src[idx..] + [] == src[idx..];
  }

  lemma OneDone(dst: Bytes, src: Bytes, prefixes: seq<Byte>, p: seq<Conversion>, r: Bytes, idx: nat, next: nat)
    requires idx <= next < |src| && Done(dst, src, p, r, idx) && PrefixesOf(prefixes, p)
    requires (forall k | idx <= k < next :: src[k] !in prefixes) && MatchAt(p, src[next..]) == None
    ensures Done(dst, src, p, r + src[idx..next + 1], next + 1)
  {
    hide Converted;
    CopiedUpTo(prefixes, p, src, idx, next);
    OneCopied(p, src, next);
    var rest := Converted(p, src[next + 1..]);
    assert src[idx..next + 1] == src[idx..next] + [src[next]];
    assert r + (src[idx..next] + ([src[next]] + rest)) == (r + (src[idx..next] + [src[next]])) + rest;
  }

  lemma MatchDone(dst: Bytes, src: Bytes, prefixes: seq<Byte>, p: seq<Conversion>, r: Bytes,
                  idx: nat, next: nat, m: Conversion)
    requires idx <= next < |src| && Done(dst, src, p, r, idx) && PrefixesOf(prefixes, p)
    requires (forall k | idx <= k < next :: src[k] !in prefixes) && MatchAt(p, src[next..]) == Some(m)
    ensures next + |EncodeScalar(m.0)| <= |src|
    ensures Done(dst, src, p, (r + src[idx..next]) + EncodeScalar(m.1), next + |EncodeScalar(m.0)|)
  {
    hide Converted, EncodeScalar, MatchAt;
    CopiedUpTo(prefixes, p, src, idx, next);
    MatchConverted(p, src, next, m);
    hide PrefixesOf;
    Joined4(r, src[idx..next], EncodeScalar(m.1), Converted(p, src[next + |EncodeScalar(m.0)|..]));
  }

  lemma Joined4(a: Bytes, b: Bytes, c: Bytes, d: Bytes)
    ensures a + (b + (c + d)) == ((a + b) + c) + d
  {
  }

  lemma MatchConverted(p: seq<Conversion>, src: Bytes, next: nat, m: Conversion)
    requires next < |src| && MatchAt(p, src[next..]) == Some(m)
    ensures next + |EncodeScalar(m.0)| <= |src|
    ensures Converted(p, src[next..]) == EncodeScalar(m.1) + Converted(p, src[next + |EncodeScalar(m.0)|..])
  {
    hide EncodeScalar;
    assert src[next..][|EncodeScalar(m.0)|..] == src[next + |EncodeScalar(m.0)|..];
  }

  /** Bytes that start no conversion are copied. */
  lemma {:induction false} CopiedUpTo(prefixes: seq<Byte>, p: seq<Conversion>, src: Bytes, idx: nat, next: nat)
    requires PrefixesOf(prefixes, p) && idx <= next <= |src| && forall k | idx <= k < next :: src[k] !in prefixes
    ensures Converted(p, src[idx..]) == src[idx..next] + Converted(p, src[next..])
    decreases next - idx
  {
    hide Converted;
    if idx < next {
      NoMatchAt(prefixes, p, src[idx..]);
      OneCopied(p, src, idx);
      CopiedUpTo(prefixes, p, src, idx + 1, next);
      var rest := Converted(p, src[next..]);
      assert src[idx..next] == [src[idx]] + src[idx + 1..next];
      assert [src[idx]] + (src[idx + 1..next] + rest) == ([src[idx]] + src[idx + 1..next]) + rest;
    } else {
      assert src[idx..next] == [];
    }
  }

  lemma OneCopied(p: seq<Conversion>, src: Bytes, next: nat)
    requires next < |src| && MatchAt(p, src[next..]) == None
    ensures Converted(p, src[next..]) == [src[next]] + Converted(p, src[next + 1..])
  {
    assert src[next..][1..] == src[next + 1..];
  }

  lemma NothingMore(p: seq<Conversion>)
    ensures Converted(p, []) == []
  {
  }

  // ----- substitution of code points -----

  function Substituted(p: seq<Conversion>, c: Scalar): (d: Scalar)
  {
    if Find(p, c).Some? then Find(p, c).value else c
  }

  function SubstitutedAll(p: seq<Conversion>, cs: seq<Scalar>): (ds: seq<Scalar>)
    ensures |ds| == |cs|
  {
    seq(|cs|, i requires 0 <= i < |cs| => Substituted(p, cs[i]))
  }

  lemma PrefixIsSame(f: Scalar, c: Scalar, rest: Bytes)
    ensures EncodeScalar(f) <= EncodeScalar(c) + rest <==> f == c
  {
    hide CharLen, DecodeChar;
    var s := EncodeScalar(c) + rest;
    CharLenOfEncoded(c, rest);
    if EncodeScalar(f) <= s {
      assert s == EncodeScalar(f) + s[|EncodeScalar(f)|..];
      CharLenOfEncoded(f, s[|EncodeScalar(f)|..]);
    }
  }

  /** A conversion matches in front of a character exactly if it converts that character. */
  lemma {:induction false} MatchIsFind(p: seq<Conversion>, c: Scalar, rest: Bytes)
    ensures MatchAt(p, EncodeScalar(c) + rest) == if Find(p, c).Some? then Some((c, Find(p, c).value)) else None
  {
    if p != [] {
      PrefixIsSame(p[0].0, c, rest);
      MatchIsFind(p[1..], c, rest);
    }
  }

  lemma FirstByte(c: Scalar)
    ensures !IsContinuation(EncodeScalar(c)[0])
  {
  }

  lemma {:induction false} NoMatchInside(p: seq<Conversion>, s: Bytes)
    requires s != [] && IsContinuation(s[0])
    ensures MatchAt(p, s) == None
  {
    if p != [] {
      FirstByte(p[0].0);
      NoMatchInside(p[1..], s);
    }
  }

  /** The inner bytes of a character are copied. */
  lemma {:induction false} InnerCopied(p: seq<Conversion>, x: Bytes, rest: Bytes)
    requires forall i | 0 <= i < |x| :: IsContinuation(x[i])
    ensures Converted(p, x + rest) == x + Converted(p, rest)
  {
    hide Converted, MatchAt, IsContinuation;
    if x == [] {
      assert x + rest == rest && [] + Converted(p, rest) == Converted(p, rest);
    } else {
      NoMatchInside(p, x + rest);
      UnmatchedByte(p, x + rest);
      assert (x + rest)[1..] == x[1..] + rest;
      InnerCopied(p, x[1..], rest);
      assert [x[0]] + (x[1..] + Converted(p, rest)) == x + Converted(p, rest);
    }
  }

  lemma UnmatchedByte(p: seq<Conversion>, s: Bytes)
    requires s != [] && MatchAt(p, s) == None
    ensures Converted(p, s) == [s[0]] + Converted(p, s[1..])
  {
    hide MatchAt;
  }

  lemma InnerBytes(c: Scalar)
    ensures forall i | 1 <= i < |EncodeScalar(c)| :: IsContinuation(EncodeScalar(c)[i])
  {
  }

  /** One character is replaced by what the conversions have for it. */
  lemma OneConverted(p: seq<Conversion>, c: Scalar, rest: Bytes)
    ensures Converted(p, EncodeScalar(c) + rest) == EncodeScalar(Substituted(p, c)) + Converted(p, rest)
  {
    hide EncodeScalar;
    var e := EncodeScalar(c);
    var s := e + rest;
    MatchIsFind(p, c, rest);
    if Find(p, c).Some? {
      assert s[|e|..] == rest;
    } else {
      InnerBytes(c);
      var x := e[1..];
      assert s[1..] == x + rest;
      InnerCopied(p, x, rest);
      assert [s[0]] + (x + Converted(p, rest)) == e + Converted(p, rest);
    }
  }

  /** On well-formed UTF-8 the loop substitutes code point by code point. */
  lemma {:induction false} ConvertSubstitutes(p: seq<Conversion>, cs: seq<Scalar>)
    ensures Converted(p, Encode(cs)) == Encode(SubstitutedAll(p, cs))
  {
    hide EncodeScalar, Converted;
    if cs == [] {
      NothingMore(p);
    } else {
      OneConverted(p, cs[0], Encode(cs[1..]));
      ConvertSubstitutes(p, cs[1..]);
      assert SubstitutedAll(p, cs)[1..] == SubstitutedAll(p, cs[1..]);
    }
  }

  // ----- the conversions of a code page -----

  /** From a Nordic page to IBM-1148; the same list serves the way back with its sides swapped. */
  function Conversions(cs: Charset): (p: seq<Conversion>)
  {
    Pairs(Table(cs), Table(Ibm1148))
  }

  ghost predicate Difference(f: seq<CodeUnit>, t: seq<CodeUnit>, m: Conversion)
    requires |f| == |t|
  {
    exists i | 0 <= i < |f| :: f[i] != t[i] && m == (f[i], t[i])
  }

  lemma {:induction false} PairsAreDifferences(f: seq<CodeUnit>, t: seq<CodeUnit>, k: nat)
    requires k <= |f| == |t|
    ensures forall m | m in PairsTo(f, t, k) :: Difference(f, t, m)
  {
    if k > 0 {
      PairsAreDifferences(f, t, k - 1);
      if f[k - 1] != t[k - 1] { assert Difference(f, t, (f[k - 1], t[k - 1])); }
    }
  }

  lemma PrefixesOfPairs(f: seq<CodeUnit>, t: seq<CodeUnit>, prefixes: seq<Byte>)
    requires |f| == |t|
    requires forall b: Byte :: b in prefixes <==> exists i | 0 <= i < |f| :: f[i] != t[i] && EncodeScalar(f[i])[0] == b
    ensures PrefixesOf(prefixes, Pairs(f, t))
  {
    hide EncodeScalar;
    var p := Pairs(f, t);
    PairsAreDifferences(f, t, |f|);
    forall k | 0 <= k < |p| ensures EncodeScalar(p[k].0)[0] in prefixes {
      assert p[k] in p;
      var i :| 0 <= i < |f| && f[i] != t[i] && p[k] == (f[i], t[i]);
    }
  }

  lemma {:induction false} SwappedPairs(f: seq<CodeUnit>, t: seq<CodeUnit>, k: nat)
    requires k <= |f| == |t|
    ensures Swapped(PairsTo(f, t, k)) == PairsTo(t, f, k)
  {
    if k > 0 { SwappedPairs(f, t, k - 1); }
  }

  /** `from` */
  method From(cs: Charset, dst: Bytes, src: Bytes) returns (r: Bytes)
    ensures r == dst + Converted(Conversions(cs), src)
  {
    hide Converted, Table, PairsTo;
    var f, t := Table(cs), Table(Ibm1148);
    var prefixes := EnumerateUniquePrefixes(f, t);
    var conversions := GenerateConversions(f, t);
    PrefixesOfPairs(f, t, prefixes);
    r := Convert(dst, src, prefixes, conversions);
  }

  /** `to` */
  method To(cs: Charset, dst: Bytes, src: Bytes) returns (r: Bytes)
    ensures r == dst + Converted(Swapped(Conversions(cs)), src)
  {
    hide Converted, Table, PairsTo;
    var f, t := Table(cs), Table(Ibm1148);
    var prefixes := EnumerateUniquePrefixes(t, f);
    var conversions := GenerateConversions(f, t);
    SwappedPairs(f, t, |f|);
    PrefixesOfPairs(t, f, prefixes);
    r := Convert(dst, src, prefixes, Swapped(conversions));
  }

  // ----- the Nordic pages -----

  function Euro(cs: Charset): (c: CodeUnit)
    requires !cs.Ibm1148?
  {
    if cs.Ibm1143? then 0x20AC else 0xA4
  }

  function Exchanges(euro: CodeUnit, n: nat): (p: seq<Conversion>)
  {
    if n == 0 then [] else Exchanges(euro, n - 1) + RowExchanges(euro, n - 1)
  }

  lemma {:induction false} RowsDiffer(cs: Charset, n: nat)
    requires !cs.Ibm1148? && n <= 16
    ensures PairsTo(Rows(cs, n), Rows(Ibm1148, n), 16 * n) == Exchanges(Euro(cs), n)
  {
    hide PairsTo, RowNordic, Row1148, RowExchanges;
    if n > 0 {
      RowsDiffer(cs, n - 1);
      var f, t := Row(cs, n - 1), Row(Ibm1148, n - 1);
      RowDiffers(Euro(cs), n - 1);
      PairsSplit(Rows(cs, n - 1), f, Rows(Ibm1148, n - 1), t, 16);
    } else {
      NoPairs();
    }
  }

  lemma NoPairs()
    ensures PairsTo([], [], 0) == []
  {
  }

  /** What a Nordic page has for a code point of its own. */
  function Forth(euro: CodeUnit, c: Scalar): (r: Option<CodeUnit>)
  {
    if c == 0x7B then Some(0xE4)
    else if c == 0x7D then Some(0xE5)
    else if c == 0xA7 then Some(0x5B)
    else if c == 0x60 then Some(0xE9)
    else if c == euro then Some(0x5D)
    else if c == 0xC5 then Some(0x24)
    else if c == 0x23 then Some(0xC4)
    else if c == 0x24 then Some(0xC5)
    else if c == 0xF6 then Some(0xA6)
    else if c == 0x5C then Some(0xC9)
    else if c == 0xE9 then Some(0x60)
    else if c == 0xC4 then Some(0x23)
    else if c == 0xD6 then Some(0x40)
    else if c == 0x5D then Some(0x20AC)
    else if c == 0xFC then Some(0x7E)
    else if c == 0x5B then Some(0xA7)
    else if c == 0xE4 then Some(0x7B)
    else if c == 0xA6 then Some(0xF6)
    else if c == 0xE5 then Some(0x7D)
    else if c == 0x7E then Some(0xFC)
    else if c == 0xC9 then Some(0x5C)
    else if c == 0x40 then Some(0xD6)
    else None
  }

  /** The other way round: every exchange works both ways, but for the euro entry and `]`. */
  function Back(euro: CodeUnit, c: Scalar): (r: Option<CodeUnit>)
  {
    if c == 0x5D then Some(euro)
    else if c == 0x20AC then Some(0x5D)
    else if c == euro then None
    else Forth(euro, c)
  }

  /** `Find` for short lists. */
  function FindFour(p: seq<Conversion>, c: Scalar): (o: Option<CodeUnit>)
  {
    if |p| > 0 && p[0].0 == c then Some(p[0].1)
    else if |p| > 1 && p[1].0 == c then Some(p[1].1)
    else if |p| > 2 && p[2].0 == c then Some(p[2].1)
    else if |p| > 3 && p[3].0 == c then Some(p[3].1)
    else None
  }

  lemma FindShort(p: seq<Conversion>, c: Scalar)
    requires |p| <= 4
    ensures Find(p, c) == FindFour(p, c)
  {
    if |p| > 0 {
      var q := p[1..];
      if |q| > 0 {
        var u := q[1..];
        if |u| > 0 {
          var v := u[1..];
          if |v| > 0 { assert v[1..] == []; }
        }
      }
    }
  }

  lemma RowsAreShort(euro: CodeUnit, r: nat)
    ensures |RowExchanges(euro, r)| <= 4
  {
  }

  /** What the first `n` rows have for a code point. */
  function ForthTo(euro: CodeUnit, n: nat, c: Scalar): (o: Option<CodeUnit>)
  {
    if n == 0 then None
    else if ForthTo(euro, n - 1, c).Some? then ForthTo(euro, n - 1, c)
    else FindFour(RowExchanges(euro, n - 1), c)
  }

  lemma {:induction false} FindInRows(euro: CodeUnit, n: nat, c: Scalar)
    ensures Find(Exchanges(euro, n), c) == ForthTo(euro, n, c)
  {
    hide RowExchanges, FindFour, Find;
    if n > 0 {
      var row := RowExchanges(euro, n - 1);
      FindInRows(euro, n - 1, c);
      RowsAreShort(euro, n - 1);
      FindShort(row, c);
      FindSplit(Exchanges(euro, n - 1), row, c);
    } else {
      FindNothing(c);
    }
  }

  lemma FindNothing(c: Scalar)
    ensures Find([], c) == None
  {
  }

  lemma FewRows(euro: CodeUnit, c: Scalar)
    ensures ForthTo(euro, 4, c) == None
  {
    assert ForthTo(euro, 1, c) == None;
    assert ForthTo(euro, 2, c) == None;
  }

  /** The first value there is. */
  function Or(a: Option<CodeUnit>, b: Option<CodeUnit>): (o: Option<CodeUnit>)
  {
    if a.Some? then a else b
  }

  /** What one row has for a code point. */
  function RowHas(euro: CodeUnit, r: nat, c: Scalar): (o: Option<CodeUnit>)
  {
    FindFour(RowExchanges(euro, r), c)
  }

  function LowRows(euro: CodeUnit, c: Scalar): (o: Option<CodeUnit>)
  {
    Or(RowHas(euro, 4, c), Or(RowHas(euro, 5, c), Or(RowHas(euro, 6, c), RowHas(euro, 7, c))))
  }

  function HighRows(euro: CodeUnit, c: Scalar): (o: Option<CodeUnit>)
  {
    Or(RowHas(euro, 9, c), Or(RowHas(euro, 10, c), Or(RowHas(euro, 11, c),
      Or(RowHas(euro, 12, c), Or(RowHas(euro, 13, c), RowHas(euro, 14, c))))))
  }

  lemma ForthNext(euro: CodeUnit, n: nat, c: Scalar)
    ensures ForthTo(euro, n + 1, c) == Or(ForthTo(euro, n, c), RowHas(euro, n, c))
  {
    hide FindFour, RowExchanges;
  }

  lemma EmptyRows(euro: CodeUnit, c: Scalar)
    ensures RowHas(euro, 8, c) == None && RowHas(euro, 15, c) == None
  {
  }

  lemma ForthByRows(euro: CodeUnit, c: Scalar)
    ensures ForthTo(euro, 16, c) == Or(LowRows(euro, c), HighRows(euro, c))
  {
    hide ForthTo, RowHas;
    FewRows(euro, c);
    EmptyRows(euro, c);
    forall n | 4 <= n < 16 ensures ForthTo(euro, n + 1, c) == Or(ForthTo(euro, n, c), RowHas(euro, n, c)) {
      ForthNext(euro, n, c);
    }
    assert ForthTo(euro, 8, c) == LowRows(euro, c) by {
      assert ForthTo(euro, 5, c) == RowHas(euro, 4, c);
      assert ForthTo(euro, 6, c) == Or(ForthTo(euro, 5, c), RowHas(euro, 5, c));
      assert ForthTo(euro, 7, c) == Or(ForthTo(euro, 6, c), RowHas(euro, 6, c));
    }
    var low := ForthTo(euro, 8, c);
    var o10, o11, o12, o13 := ForthTo(euro, 10, c), ForthTo(euro, 11, c), ForthTo(euro, 12, c), ForthTo(euro, 13, c);
    assert ForthTo(euro, 9, c) == low && o10 == Or(low, RowHas(euro, 9, c)) && o11 == Or(o10, RowHas(euro, 10, c));
    assert o12 == Or(o11, RowHas(euro, 11, c)) && o13 == Or(o12, RowHas(euro, 12, c));
    assert ForthTo(euro, 14, c) == Or(o13, RowHas(euro, 13, c));
    assert ForthTo(euro, 15, c) == Or(ForthTo(euro, 14, c), RowHas(euro, 14, c));
  }

  lemma ForthIs(euro: CodeUnit, c: Scalar)
    ensures ForthTo(euro, 16, c) == Forth(euro, c)
  {
    hide ForthTo;
    ForthByRows(euro, c);
  }

  // ----- the way back -----

  lemma {:induction false} FindMeansIn(p: seq<Conversion>, c: Scalar)
    ensures Find(p, c).Some? ==> (c, Find(p, c).value) in p
    ensures forall m | m in p && m.0 == c :: Find(p, c).Some?
  {
    if p != [] {
      FindMeansIn(p[1..], c);
      assert p == [p[0]] + p[1..];
    }
  }

  lemma InSwapped(p: seq<Conversion>, m: Conversion)
    ensures m in Swapped(p) <==> (m.1, m.0) in p
  {
    if m in Swapped(p) {
      var i :| 0 <= i < |p| && Swapped(p)[i] == m;
      assert p[i] == (m.1, m.0);
    }
    if (m.1, m.0) in p {
      var i :| 0 <= i < |p| && p[i] == (m.1, m.0);
      assert Swapped(p)[i] == m;
    }
  }

  /** What an exchange puts in place is taken back. */
  predicate TakenBack(euro: CodeUnit, p: seq<Conversion>)
  {
    forall i | 0 <= i < |p| :: Back(euro, p[i].1) == Some(p[i].0)
  }

  lemma RowTakenBack(euro: CodeUnit, r: nat)
    requires euro == 0x20AC || euro == 0xA4
    ensures TakenBack(euro, RowExchanges(euro, r))
  {
  }

  lemma {:induction false} RowsTakenBack(euro: CodeUnit, n: nat)
    requires euro == 0x20AC || euro == 0xA4
    ensures TakenBack(euro, Exchanges(euro, n))
  {
    hide RowExchanges, Back;
    if n > 0 {
      RowsTakenBack(euro, n - 1);
      RowTakenBack(euro, n - 1);
    }
  }

  lemma BackMeansForth(euro: CodeUnit, c: Scalar)
    requires euro == 0x20AC || euro == 0xA4
    ensures Back(euro, c).Some? ==> Forth(euro, Back(euro, c).value) == Some(c)
  {
  }

  /** Searching the swapped list undoes searching the list. */
  lemma FindBack(euro: CodeUnit, p: seq<Conversion>, c: Scalar)
    requires euro == 0x20AC || euro == 0xA4
    requires TakenBack(euro, p) && forall d: Scalar :: Find(p, d) == Forth(euro, d)
    ensures Find(Swapped(p), c) == Back(euro, c)
  {
    hide Find, Forth, Back, Swapped;
    var q := Swapped(p);
    FindMeansIn(q, c);
    if Find(q, c).Some? {
      InSwapped(p, (c, Find(q, c).value));
    } else if Back(euro, c).Some? {
      var d := Back(euro, c).value;
      BackMeansForth(euro, c);
      FindMeansIn(p, d);
      InSwapped(p, (c as CodeUnit, d));
    }
  }

  /** What the generated conversions do to every code point, in both directions. */
  lemma PageSubstitutes(cs: Charset, c: Scalar)
    requires !cs.Ibm1148?
    ensures Find(Conversions(cs), c) == Forth(Euro(cs), c)
    ensures Find(Swapped(Conversions(cs)), c) == Back(Euro(cs), c)
  {
    hide Conversions, Forth, Back, Find, Exchanges, TakenBack, Swapped;
    ConversionsAre(cs);
    RowsTakenBack(Euro(cs), 16);
    forall d: Scalar ensures Find(Exchanges(Euro(cs), 16), d) == Forth(Euro(cs), d) {
      FindExchanged(Euro(cs), d);
    }
    FindBack(Euro(cs), Exchanges(Euro(cs), 16), c);
  }

  lemma ConversionsAre(cs: Charset)
    requires !cs.Ibm1148?
    ensures Conversions(cs) == Exchanges(Euro(cs), 16)
  {
    hide PairsTo, Exchanges, Rows;
    RowsDiffer(cs, 16);
  }

  lemma FindExchanged(euro: CodeUnit, c: Scalar)
    ensures Find(Exchanges(euro, 16), c) == Forth(euro, c)
  {
    hide Forth, ForthTo, Find, Exchanges;
    FindInRows(euro, 16, c);
    ForthIs(euro, c);
  }

  lemma ForthAndBack(euro: CodeUnit, c: Scalar)
    requires euro == 0x20AC || euro == 0xA4
    ensures var d := if Forth(euro, c).Some? then Forth(euro, c).value else c;
            (if Back(euro, d).Some? then Back(euro, d).value else d) == c <==> euro == 0x20AC || c != 0x20AC
  {
  }

  lemma BackAndForth(euro: CodeUnit, c: Scalar)
    requires euro == 0x20AC || euro == 0xA4
    ensures var d := if Back(euro, c).Some? then Back(euro, c).value else c;
            (if Forth(euro, d).Some? then Forth(euro, d).value else d) == c <==> euro == 0x20AC || c != 0xA4
  {
  }

  /** Substituting along `p` and then along `q` restores the code point. */
  ghost predicate Restores(p: seq<Conversion>, q: seq<Conversion>, c: Scalar)
  {
    Substituted(q, Substituted(p, c)) == c
  }

  lemma FromThenTo(cs: Charset, c: Scalar)
    requires !cs.Ibm1148?
    ensures Restores(Conversions(cs), Swapped(Conversions(cs)), c) <==> cs.Ibm1143? || c != 0x20AC
  {
    hide Forth, Back, Find, Conversions, Swapped;
    PageSubstitutes(cs, c);
    PageSubstitutes(cs, Substituted(Conversions(cs), c));
    ForthAndBack(Euro(cs), c);
  }

  lemma ToThenFrom(cs: Charset, c: Scalar)
    requires !cs.Ibm1148?
    ensures Restores(Swapped(Conversions(cs)), Conversions(cs), c) <==> cs.Ibm1143? || c != 0xA4
  {
    hide Forth, Back, Find, Conversions, Swapped;
    PageSubstitutes(cs, c);
    PageSubstitutes(cs, Substituted(Swapped(Conversions(cs)), c));
    BackAndForth(Euro(cs), c);
  }

  lemma RestoredText(p: seq<Conversion>, q: seq<Conversion>, text: seq<Scalar>, end: seq<Scalar>)
    requires |end| == |text| && forall i | 0 <= i < |text| :: end[i] == Substituted(q, Substituted(p, text[i]))
    ensures end == text <==> forall c | c in text :: Restores(p, q, c)
  {
    hide Substituted;
    assert forall i | 0 <= i < |text| :: text[i] in text;
    if end == text {
      forall c | c in text ensures Restores(p, q, c) {
        var i :| 0 <= i < |text| && text[i] == c;
      }
    }
  }

  lemma ThereAndBack(p: seq<Conversion>, q: seq<Conversion>, text: seq<Scalar>)
    ensures Converted(q, Converted(p, Encode(text))) == Encode(text) <==> forall c | c in text :: Restores(p, q, c)
  {
    hide Converted, Substituted, Encode, Restores;
    var mid := SubstitutedAll(p, text);
    var end := SubstitutedAll(q, mid);
    ConvertSubstitutes(p, text);
    ConvertSubstitutes(q, mid);
    RestoredText(p, q, text, end);
    if Encode(end) == Encode(text) { EncodeInjective(end, text); }
  }

  /** Text decoded from a Nordic page comes back, unless the page is IBM-278 and the text holds a
      euro sign: the page has none, and the sign turns up in place of `]`. */
  lemma FromThenToIsIdentity(cs: Charset, text: seq<Scalar>)
    requires !cs.Ibm1148?
    ensures Converted(Swapped(Conversions(cs)), Converted(Conversions(cs), Encode(text))) == Encode(text) <==>
            cs.Ibm1143? || 0x20AC !in text
  {
    hide Converted, Conversions, Swapped, Restores;
    ThereAndBack(Conversions(cs), Swapped(Conversions(cs)), text);
    forall c: Scalar ensures Restores(Conversions(cs), Swapped(Conversions(cs)), c) <==> cs.Ibm1143? || c != 0x20AC {
      FromThenTo(cs, c);
    }
  }

  /** Text encoded for a Nordic page comes back, unless the page is IBM-278 and the text holds a
      currency sign. */
  lemma ToThenFromIsIdentity(cs: Charset, text: seq<Scalar>)
    requires !cs.Ibm1148?
    ensures Converted(Conversions(cs), Converted(Swapped(Conversions(cs)), Encode(text))) == Encode(text) <==>
            cs.Ibm1143? || 0xA4 !in text
  {
    hide Converted, Conversions, Swapped, Restores;
    ThereAndBack(Swapped(Conversions(cs)), Conversions(cs), text);
    forall c: Scalar ensures Restores(Swapped(Conversions(cs)), Conversions(cs), c) <==> cs.Ibm1143? || c != 0xA4 {
      ToThenFrom(cs, c);
    }
  }

  /** The two texts of one character that IBM-278 does not give back. */
  lemma SignsLost()
    ensures Converted(Swapped(Conversions(Ibm278)), Converted(Conversions(Ibm278), Encode([0x20AC])))
            != Encode([0x20AC])
    ensures Converted(Conversions(Ibm278), Converted(Swapped(Conversions(Ibm278)), Encode([0xA4]))) != Encode([0xA4])
  {
    hide Converted, Conversions, Swapped, Encode;
    FromThenToIsIdentity(Ibm278, [0x20AC]);
    ToThenFromIsIdentity(Ibm278, [0xA4]);
  }
}

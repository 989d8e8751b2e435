/** `remove_dot_segments` (utils/src/resource_location.cpp), the algorithm of section 5.2.4 of
    RFC 3986, and how far `normalize_path` agrees with it. */
module RemoveDots {
  import opened Basics
  import opened PathPieces
  import opened PathTokens
  import opened NormalizePath
  import opened NormalizeLaws

  // ----- the code -----

  function Popped(elements: seq<string>): (r: seq<string>)
  {
    if elements == [] then [] else elements[..|elements| - 1]
  }

  predicate IsFinal(path: string)
  {
    path == "." || path == ".." || path == "/." || path == "/.."
  }

  /** End of the first segment: the first slash at index 1 or later. */
  function SegmentEnd(path: string): (e: nat)
    requires path != ""
    ensures 1 <= e <= |path|
  {
    IndexFrom(path, '/', '/', 1)
  }

  /** The loop: the elements collected and the path it stops with. */
  function DotLoop(path: string, elements: seq<string>): (r: (seq<string>, string))
    decreases |path|
  {
    if path == "" then (elements, "")
    else if StartsWith(path, "../") then DotLoop(path[3..], elements)
    else if StartsWith(path, "./") then DotLoop(path[2..], elements)
    else if StartsWith(path, "/./") then DotLoop(path[2..], elements)
    else if IsFinal(path) then (if path == "/.." then Popped(elements) else elements, path)
    else if StartsWith(path, "/../") then DotLoop(path[3..], Popped(elements))
    else DotLoop(path[SegmentEnd(path)..], elements + [path[..SegmentEnd(path)]])
  }

  function Concat(elements: seq<string>): (r: string)
  {
    if elements == [] then "" else elements[0] + Concat(elements[1..])
  }

  /** `remove_dot_segments` */
  function Removed(p: string): (r: string)
  {
    var (elements, last) := DotLoop(p, []);
    if last == "/." || last == "/.." then Appended(Concat(elements), "/") else Concat(elements)
  }

  method CollectSegments(p: string) returns (elements: seq<string>, last: string)
    ensures (elements, last) == DotLoop(p, [])
  {
    elements := [];
    var path := p;
    while path != ""
      invariant DotLoop(path, elements) == DotLoop(p, [])
      decreases |path|
    {
      if StartsWith(path, "../") {
        path := path[3..];
      } else if StartsWith(path, "./") {
        path := path[2..];
      } else if StartsWith(path, "/./") {
        path := path[2..];
      } else if path == "." || path == ".." || path == "/." || path == "/.." {
        if elements != [] && path == "/.." {
          elements := elements[..|elements| - 1];
        }
        return elements, path;
      } else if StartsWith(path, "/../") {
        path := path[3..];
        if elements != [] {
          elements := elements[..|elements| - 1];
        }
      } else {
        var firstSlash := SegmentEnd(path);
        elements := elements + [path[..firstSlash]];
        path := path[firstSlash..];
      }
    }
    last := path;
  }

  method RemoveDotSegments(p: string) returns (ret: string)
    ensures ret == Removed(p)
  {
    var elements, last := CollectSegments(p);
    ret := "";
    var i := 0;
    while i < |elements|
      invariant 0 <= i <= |elements|
      invariant ret + Concat(elements[i..]) == Concat(elements)
    {
      assert elements[i..][1..] == elements[i + 1..];
      ret := ret + elements[i];
      i := i + 1;
    }
    assert ret + "" == ret;
    if last == "/." || last == "/.." {
      ret := UriAppend(ret, "/");
    }
  }

  // ----- section 5.2.4 of RFC 3986 -----

  /** The output without its last segment and the slash before it, if any. */
  function WithoutLast(output: string): (r: string)
  {
    var i := LastIndexOf(output, '/');
    if i == |output| then "" else output[..i]
  }

  /** Steps 2A to 2E until the input buffer is empty. */
  function Rfc(input: string, output: string): (r: string)
    decreases |input|
  {
    if input == "" then output
    else if StartsWith(input, "../") then Rfc(input[3..], output)                       // 2A
    else if StartsWith(input, "./") then Rfc(input[2..], output)                        // 2A
    else if StartsWith(input, "/./") then Rfc(input[2..], output)                       // 2B
    else if input == "/." then Rfc("/", output)                                         // 2B
    else if StartsWith(input, "/../") then Rfc(input[3..], WithoutLast(output))         // 2C
    else if input == "/.." then Rfc("/", WithoutLast(output))                           // 2C
    else if input == "." || input == ".." then output                                   // 2D
    else Rfc(input[SegmentEnd(input)..], output + input[..SegmentEnd(input)])           // 2E
  }

  // ----- the code against the standard -----

  /** Elements as the loop collects them: only the first may lack its slash. */
  predicate IsElement(e: string, first: bool)
  {
    e != "" && '/' !in e[1..] && (first || e[0] == '/')
  }

  predicate AllElements(elements: seq<string>)
  {
    forall i | 0 <= i < |elements| :: IsElement(elements[i], i == 0)
  }

  lemma {:induction false} ConcatAppend(a: seq<string>, b: seq<string>)
    ensures Concat(a + b) == Concat(a) + Concat(b)
  {
    if a == [] {
      assert a + b == b;
    } else {
      assert (a + b)[1..] == a[1..] + b;
      ConcatAppend(a[1..], b);
      assert a[0] + (Concat(a[1..]) + Concat(b)) == (a[0] + Concat(a[1..])) + Concat(b);
    }
  }

  lemma ConcatPush(elements: seq<string>, e: string)
    ensures Concat(elements + [e]) == Concat(elements) + e
  {
    ConcatAppend(elements, [e]);
    assert Concat([e]) == e + "" == e;
  }

  /** Dropping the last element is the standard's removal from the output buffer. */
  lemma PopIsWithoutLast(elements: seq<string>)
    requires AllElements(elements)
    ensures WithoutLast(Concat(elements)) == Concat(Popped(elements))
  {
    if elements == [] {
      LastIndexOfAbsent("", '/');
    } else {
      var n := |elements| - 1;
      var e, before := elements[n], Concat(elements[..n]);
      assert IsElement(e, n == 0);
      assert elements == elements[..n] + [e];
      ConcatPush(elements[..n], e);
      if e[0] == '/' {
        assert before + e == before + ['/'] + e[1..];
        LastIndexOfSplit(before, '/', e[1..]);
        assert (before + e)[..|before|] == before;
      } else {
        assert n == 0 && before == "" && before + e == e;
        assert '/' !in e by { assert e == [e[0]] + e[1..]; }
        LastIndexOfAbsent(e, '/');
      }
    }
  }

  lemma SegmentIsElement(path: string, first: bool)
    requires path != "" && (first || path[0] == '/')
    ensures IsElement(path[..SegmentEnd(path)], first)
    ensures SegmentEnd(path) < |path| ==> path[SegmentEnd(path)] == '/'
  {
    PassedOver(path, '/', '/', 1);
  }

  /** One more slash at the end is what the standard adds for a final dot segment. */
  function FinalSlash(last: string): (r: string)
  {
    if last == "/." || last == "/.." then "/" else ""
  }

  lemma RfcOfSlash(output: string)
    ensures Rfc("/", output) == output + "/"
  {
    assert SegmentEnd("/") == 1;
    assert "/"[1..] == "" && "/"[..1] == "/";
  }

  /** The loop with its element stack computes the standard's algorithm on text buffers. */
  lemma {:induction false} LoopIsRfc(path: string, elements: seq<string>)
    requires AllElements(elements) && (elements != [] && path != "" ==> path[0] == '/')
    ensures var (es, last) := DotLoop(path, elements);
            AllElements(es) && Rfc(path, Concat(elements)) == Concat(es) + FinalSlash(last)
    decreases |path|
  {
    hide Concat, WithoutLast, SegmentEnd;
    if path == "" {
      assert Concat(elements) + "" == Concat(elements);
    } else if StartsWith(path, "../") {
      LoopIsRfc(path[3..], elements);
    } else if StartsWith(path, "./") {
      LoopIsRfc(path[2..], elements);
    } else if StartsWith(path, "/./") {
      LoopIsRfc(path[2..], elements);
    } else if IsFinal(path) {
      PopIsWithoutLast(elements);
      RfcOfSlash(Concat(elements));
      RfcOfSlash(Concat(Popped(elements)));
      assert Concat(elements) + "" == Concat(elements);
    } else if StartsWith(path, "/../") {
      PopIsWithoutLast(elements);
      LoopIsRfc(path[3..], Popped(elements));
    } else {
      var e := SegmentEnd(path);
      SegmentIsElement(path, elements == []);
      ConcatPush(elements, path[..e]);
      LoopIsRfc(path[e..], elements + [path[..e]]);
    }
  }

  /** How the outcome of the loop decides. */
  lemma OutcomeIsRfc(p: string)
    ensures var (es, last) := DotLoop(p, []);
            Removed(p) == Rfc(p, "") <==>
            !(FinalSlash(last) == "/" && (EndsWith(Concat(es), "/") || EndsWith(Concat(es), "\\")))
  {
    var (es, last) := DotLoop(p, []);
    LoopIsRfc(p, []);
    assert Concat([]) == "";
    var c := Concat(es);
    if FinalSlash(last) == "/" {
      FinalAppend(c);
    } else {
      assert c + "" == c;
    }
  }

  lemma FinalAppend(c: string)
    ensures Appended(c, "/") == c + "/" <==> !(EndsWith(c, "/") || EndsWith(c, "\\"))
  {
    if c != "" {
      assert c[|c| - 1..] == [c[|c| - 1]];
      assert "/"[1..] == "";
    }
  }

  // ----- the condition on the path -----

  /** The path without the `../` and `./` it begins with. */
  function Stripped(p: string): (q: string)
    decreases |p|
  {
    if StartsWith(p, "../") then Stripped(p[3..])
    else if StartsWith(p, "./") then Stripped(p[2..])
    else p
  }

  predicate IsDot(piece: string) { piece == "." || piece == ".." }

  /** The pieces that count: the one before a leading slash does not. */
  function Counted(q: string): (r: seq<string>)
  {
    var ps := Pieces(q);
    if ps[0] == "" then ps[1..] else ps
  }

  /** A dot segment behind a slash ends the path. */
  predicate EndsInDotSegment(p: string)
  {
    var ps := Pieces(Stripped(p));
    |ps| > 1 && IsDot(ps[|ps| - 1])
  }

  /** The pieces that are left when dot segments are resolved; empty ones count. */
  function KeptPieces(p: string): (r: seq<string>)
  {
    Resolved([], Counted(Stripped(p)), true)
  }

  /** The slash that a final dot segment leaves behind runs into a slash or a backslash. */
  predicate MergesSlash(p: string)
  {
    && EndsInDotSegment(p) && KeptPieces(p) != []
    && var last := KeptPieces(p)[|KeptPieces(p)| - 1]; last == "" || EndsWith(last, "\\")
  }

  /** The elements on the stack are the pieces with their slash; the first may lack it. */
  predicate Spells(elements: seq<string>, pieces: seq<string>)
  {
    && |elements| == |pieces|
    && (forall i | 0 <= i < |pieces| :: '/' !in pieces[i] && !IsDot(pieces[i]))
    && forall i | 0 <= i < |pieces| :: elements[i] == "/" + pieces[i] || (i == 0 && elements[0] == pieces[0] != "")
  }

  function FinalOf(piece: string): (last: string) { if IsDot(piece) then "/" + piece else "" }

  /** A segment at the front of a path that begins with a slash. */
  lemma SegmentInFront(t: string, rest: string)
    requires '/' !in t && (rest == "" || rest[0] == '/')
    ensures var v := "/" + (t + rest); SegmentEnd(v) == 1 + |t| && v[..1 + |t|] == "/" + t && v[1 + |t|..] == rest
  {
    var v := "/" + (t + rest);
    assert forall j | 1 <= j < 1 + |t| :: v[j] == t[j - 1] && v[j] in t;
    if rest == "" {
      NoneBehind(v, 1);
    } else {
      assert v[1 + |t|] == '/';
      FirstAt(v, '/', '/', 1, 1 + |t|);
    }
  }

  lemma {:induction false} NoneBehind(s: string, from: nat)
    requires from <= |s| && forall j | from <= j < |s| :: s[j] != '/'
    ensures IndexFrom(s, '/', '/', from) == |s|
    decreases |s| - from
  {
    if from < |s| { NoneBehind(s, from + 1); }
  }

  /** The first piece of a text is determined by the text. */
  lemma FirstPieceUnique(t: string, rest: string, d: string, more: string)
    requires '/' !in t && (rest == "" || rest[0] == '/')
    requires '/' !in d && (more == "" || more[0] == '/')
    requires t + rest == d + more
    ensures t == d && rest == more
  {
    hide IndexOf;
    FirstSlashBehind(t, rest);
    FirstSlashBehind(d, more);
  }

  /** What one piece does to the loop. */
  lemma LoopPiece(t: string, rest: string, elements: seq<string>)
    requires '/' !in t && (rest == "" || rest[0] == '/')
    ensures DotLoop("/" + (t + rest), elements) ==
            if t == "." then (if rest == "" then (elements, "/.") else DotLoop(rest, elements))
            else if t == ".." then (if rest == "" then (Popped(elements), "/..") else DotLoop(rest, Popped(elements)))
            else DotLoop(rest, elements + ["/" + t])
  {
    hide SegmentEnd, StartsWith;
    var v := "/" + (t + rest);
    SegmentInFront(t, rest);
    NotAtSlash(v);
    DotTests(t, rest, ".");
    DotTests(t, rest, "..");
    assert "/" + "." == "/." && "/" + ".." == "/.." && "/" + "." + "/" == "/./" && "/" + ".." + "/" == "/../";
    if rest != "" { AfterDots(t, rest); }
  }

  lemma NotAtSlash(v: string)
    requires v != "" && v[0] == '/'
    ensures !StartsWith(v, "../") && !StartsWith(v, "./") && v != "." && v != ".."
  {
  }

  lemma AfterDots(t: string, rest: string)
    ensures ("/" + (t + rest))[1 + |t|..] == rest
  {
  }

  /** Which test of the loop a first piece meets. */
  lemma DotTests(t: string, rest: string, d: string)
    requires '/' !in t && (rest == "" || rest[0] == '/') && '/' !in d
    ensures var v := "/" + (t + rest);
            && (StartsWith(v, "/" + d + "/") <==> t == d && rest != "")
            && (v == "/" + d <==> t == d && rest == "")
  {
    var v := "/" + (t + rest);
    assert v[1..] == t + rest;
    if t == d && rest != "" {
      assert v == ("/" + d + "/") + rest[1..];
    } else if StartsWith(v, "/" + d + "/") {
      var more := "/" + v[|d| + 2..];
      assert v == ("/" + d + "/") + v[|d| + 2..];
      assert v[1..] == d + more;
      FirstPieceUnique(t, rest, d, more);
    }
    if v == "/" + d {
      assert v[1..] == d + "";
      FirstPieceUnique(t, rest, d, "");
    } else if t == d {
      assert rest == "" ==> t + rest == t;
    }
  }

  lemma SpellsPush(elements: seq<string>, pieces: seq<string>, t: string)
    requires Spells(elements, pieces) && '/' !in t && !IsDot(t)
    ensures Spells(elements + ["/" + t], pieces + [t])
  {
  }

  lemma SpellsPop(elements: seq<string>, pieces: seq<string>)
    requires Spells(elements, pieces)
    ensures Spells(Popped(elements), if pieces == [] then [] else pieces[..|pieces| - 1])
  {
  }

  /** The loop resolves the pieces. */
  lemma {:induction false} LoopResolvesPieces(v: string, elements: seq<string>, pieces: seq<string>)
    requires v != "" && v[0] == '/' && Spells(elements, pieces)
    ensures var ps := Pieces(v[1..]);
            var (es, last) := DotLoop(v, elements);
            Spells(es, Resolved(pieces, ps, true)) && last == FinalOf(ps[|ps| - 1])
    decreases |v|
  {
    hide DotLoop, Spells, SegmentEnd, IndexOf, Pieces, FinalOf;
    var w := v[1..];
    var t, rest := FirstPiece(w);
    assert v == "/" + (t + rest);
    PiecesInFront(t, rest);
    LoopPiece(t, rest, elements);
    if !IsDot(t) { SpellsPush(elements, pieces, t); }
    SpellsPop(elements, pieces);
    FinalOfDots(t);
    if rest == "" {
      ResolvedOne(pieces, t, true);
      LoopOfNothing(elements + ["/" + t]);
    } else {
      var ps := Pieces(rest[1..]);
      ResolvedCons(pieces, t, ps, true);
      LastPiece(t, ps);
      var es := if t == "." then elements else if t == ".." then Popped(elements) else elements + ["/" + t];
      LoopResolvesPieces(rest, es, Stepped(pieces, t, true));
    }
  }

  lemma FinalOfDots(t: string)
    ensures FinalOf(".") == "/." && FinalOf("..") == "/.." && (!IsDot(t) ==> FinalOf(t) == "")
  {
  }

  lemma LoopOfNothing(elements: seq<string>)
    ensures DotLoop("", elements) == (elements, "")
  {
  }

  lemma {:induction false} LoopOfStripped(p: string, elements: seq<string>)
    ensures DotLoop(p, elements) == DotLoop(Stripped(p), elements)
    ensures !StartsWith(Stripped(p), "../") && !StartsWith(Stripped(p), "./")
    decreases |p|
  {
    if StartsWith(p, "../") {
      LoopOfStripped(p[3..], elements);
    } else if StartsWith(p, "./") {
      LoopOfStripped(p[2..], elements);
    }
  }

  // ----- when the code follows the standard -----

  /** What the loop leaves, in terms of the path. */
  ghost predicate LoopLeaves(p: string, es: seq<string>)
  {
    && DotLoop(p, []).0 == es && FinalSlash(DotLoop(p, []).1) == (if EndsInDotSegment(p) then "/" else "")
    && Spells(es, KeptPieces(p))
  }

  lemma LoopOfRooted(q: string)
    requires q != "" && q[0] == '/'
    ensures var ps := Pieces(q);
            |ps| > 1 && Spells(DotLoop(q, []).0, Resolved([], Counted(q), true))
            && DotLoop(q, []).1 == FinalOf(ps[|ps| - 1])
  {
    hide DotLoop, FinalOf, Pieces, Resolved, Spells;
    SlashInFront(q);
    LastPiece("", Pieces(q[1..]));
    NothingSpelled();
    LoopResolvesPieces(q, [], []);
  }

  lemma NothingSpelled()
    ensures Spells([], [])
  {
  }

  lemma LoopOfBare(q: string)
    requires q != "" && q[0] != '/' && q != "." && q != ".." && !StartsWith(q, "../") && !StartsWith(q, "./")
    ensures var ps := Pieces(q);
            && Spells(DotLoop(q, []).0, Resolved([], Counted(q), true))
            && DotLoop(q, []).1 == (if |ps| > 1 then FinalOf(ps[|ps| - 1]) else "")
  {
    hide DotLoop, FinalOf, IndexOf, SegmentEnd, Pieces, Resolved;
    var t, rest := FirstPiece(q);
    BareIsNoDot(q, t, rest);
    assert t != "";
    BareSegment(t, rest);
    PiecesInFront(t, rest);
    var one: seq<string> := [t];
    assert [] + one == one && Stepped([], t, true) == one;
    if rest == "" {
      LoopOfNothing(one);
      ResolvedOne([], t, true);
    } else {
      var ps := Pieces(rest[1..]);
      LastPiece(t, ps);
      ResolvedCons([], t, ps, true);
      LoopResolvesPieces(rest, one, one);
    }
  }

  lemma BareIsNoDot(q: string, t: string, rest: string)
    requires q == t + rest && (rest == "" || rest[0] == '/')
    requires q != "." && q != ".." && !StartsWith(q, "../") && !StartsWith(q, "./")
    ensures !IsDot(t)
  {
    if rest == "" {
      assert q == t;
    } else {
      assert q == (t + "/") + rest[1..];
      assert "." + "/" == "./" && ".." + "/" == "../";
    }
  }

  lemma BareSegment(t: string, rest: string)
    requires t != "" && '/' !in t && (rest == "" || rest[0] == '/') && !IsDot(t)
    requires !StartsWith(t + rest, "../") && !StartsWith(t + rest, "./")
    ensures DotLoop(t + rest, []) == DotLoop(rest, [t])
  {
    var q := t + rest;
    assert forall j | 0 <= j < |t| :: q[j] == t[j] && t[j] in t;
    if rest == "" {
      assert q == t;
      NoneBehind(q, 1);
    } else {
      assert q[|t|] == '/';
      FirstAt(q, '/', '/', 1, |t|);
    }
    assert q[0] == t[0] != '/';
    assert q != "." && q != ".." by {
      if rest == "" { assert q == t; } else { assert '/' == q[|t|]; }
    }
    assert q[..|t|] == t && q[|t|..] == rest;
    var one: seq<string> := [t];
    assert [] + one == one;
  }

  lemma LoopOutcome(p: string) returns (es: seq<string>)
    ensures LoopLeaves(p, es)
  {
    hide DotLoop, Spells;
    var q := Stripped(p);
    LoopOfStripped(p, []);
    es := DotLoop(p, []).0;
    if q == "" || q == "." || q == ".." {
      LoopOfShort(q);
    } else if q[0] == '/' {
      LoopOfRooted(q);
    } else {
      LoopOfBare(q);
    }
  }

  lemma LoopOfShort(q: string)
    requires q == "" || q == "." || q == ".."
    ensures DotLoop(q, []) == ([], q) && Pieces(q) == [q] && Spells([], [])
    ensures Resolved([], Counted(q), true) == []
  {
    hide Resolved;
    if q == "" {
      NoPieces();
      ResolvedNothing([], true);
      assert Counted(q) == [];
    } else {
      ResolvedOne([], q, true);
      assert Pieces(q)[0] == q && Counted(q) == [q];
    }
    IndexOfAbsent(q, '/');
    if q == ".." { assert q[1] == '.'; }
    assert !StartsWith(q, "../") && !StartsWith(q, "./") && !StartsWith(q, "/./");
  }

  lemma LastOfConcat(es: seq<string>)
    requires es != []
    ensures Concat(es) == Concat(es[..|es| - 1]) + es[|es| - 1]
  {
    assert es == es[..|es| - 1] + [es[|es| - 1]];
    ConcatPush(es[..|es| - 1], es[|es| - 1]);
  }

  /** The last character of the text of a stack. */
  lemma EndOfText(es: seq<string>, pieces: seq<string>)
    requires Spells(es, pieces) && pieces != []
    ensures var piece, c := pieces[|pieces| - 1], Concat(es);
            c != "" && c[|c| - 1] == if piece == "" then '/' else piece[|piece| - 1]
  {
    hide Concat;
    var n := |pieces| - 1;
    var e, piece, c := es[n], pieces[n], Concat(es);
    LastOfConcat(es);
    assert e == "/" + piece || e == piece != "";
    assert c[|c| - 1] == e[|e| - 1];
  }

  lemma EndsInChar(s: string, c: char)
    ensures EndsWith(s, [c]) <==> s != "" && s[|s| - 1] == c
  {
    if s != "" { assert s[|s| - 1..] == [s[|s| - 1]]; }
  }

  /** How the text of a stack ends. */
  lemma EndOfSpelled(es: seq<string>, pieces: seq<string>)
    requires Spells(es, pieces)
    ensures EndsWith(Concat(es), "/") || EndsWith(Concat(es), "\\") <==>
            pieces != [] && (pieces[|pieces| - 1] == "" || EndsWith(pieces[|pieces| - 1], "\\"))
  {
    hide EndsWith, Concat;
    EndsInChar(Concat(es), '/');
    EndsInChar(Concat(es), '\\');
    if pieces != [] {
      var piece := pieces[|pieces| - 1];
      EndOfText(es, pieces);
      EndsInChar(piece, '\\');
      if piece != "" { assert piece[|piece| - 1] in piece; }
    } else {
      NoPieces();
    }
  }

  /** `remove_dot_segments` returns what section 5.2.4 of RFC 3986 asks for, except when a
      trailing dot segment leaves an empty segment or a backslash in front of it: `uri_append`
      then merges the final slash into what stands there. */
  lemma RemovedIsRfc(p: string)
    ensures Removed(p) == Rfc(p, "") <==> !MergesSlash(p)
  {
    hide DotLoop, Spells, Removed, Rfc, KeptPieces, EndsInDotSegment;
    var es := LoopOutcome(p);
    OutcomeIsRfc(p);
    if EndsInDotSegment(p) { EndOfSpelled(es, KeptPieces(p)); }
  }

  /** The shortest path on which they differ. */
  lemma DoubledSlashDiffers()
    ensures MergesSlash("//.") && Removed("//.") != Rfc("//.", "")
  {
    hide Pieces, Resolved;
    var p := "//.";
    assert p[0] == '/';
    assert Stripped(p) == p;
    DoubledSlashPieces();
    assert ["", "", "."][1..] == ["", "."];
    DoubledSlashKept();
    RemovedIsRfc(p);
  }

  lemma DoubledSlashPieces()
    ensures Pieces("//.") == ["", "", "."]
  {
    hide Pieces;
    PiecesInFront(".", "");
    PiecesInFront("", "/.");
    PiecesInFront("", "//.");
    assert "." + "" == "." && "" + "/." == "/." && "" + "//." == "//.";
    assert "//."[1..] == "/." && "/."[1..] == ".";
  }

  lemma DoubledSlashKept()
    ensures Resolved([], ["", "."], true) == [""]
  {
    ResolvedCons([], "", ["."], true);
    assert [] + [""] == [""] && [""] + ["."] == ["", "."];
    ResolvedOne([""], ".", true);
  }

  // ----- paths without empty segments -----

  predicate Undoubled(p: string)
  {
    forall i | 0 < i < |p| :: !(p[i - 1] == '/' && p[i] == '/')
  }

  lemma UndoubledSuffix(p: string, n: nat)
    requires Undoubled(p) && n <= |p|
    ensures Undoubled(p[n..])
  {
    var q := p[n..];
    forall i | 0 < i < |q| ensures !(q[i - 1] == '/' && q[i] == '/') {
      assert q[i - 1] == p[n + i - 1] && q[i] == p[n + i];
    }
  }

  lemma {:induction false} StrippedUndoubled(p: string)
    requires Undoubled(p)
    ensures Undoubled(Stripped(p))
    decreases |p|
  {
    if StartsWith(p, "../") {
      UndoubledSuffix(p, 3);
      StrippedUndoubled(p[3..]);
    } else if StartsWith(p, "./") {
      UndoubledSuffix(p, 2);
      StrippedUndoubled(p[2..]);
    }
  }

  predicate Filled(pieces: seq<string>) { forall i | 0 <= i < |pieces| :: pieces[i] != "" }

  predicate InnerFilled(pieces: seq<string>) { forall i | 0 < i < |pieces| - 1 :: pieces[i] != "" }

  lemma NotDoubled(s: string, k: nat)
    requires Undoubled(s) && k + 1 < |s| && s[k] == '/'
    ensures s[k + 1] != '/'
  {
    assert s[k + 1 - 1] == '/';
  }

  lemma FirstPieceFilled(s: string)
    requires s != "" && s[0] != '/'
    ensures Pieces(s)[0] != ""
  {
  }

  /** Only the first and the last piece can be empty. */
  lemma {:induction false} InnerPiecesFilled(s: string)
    requires Undoubled(s)
    ensures InnerFilled(Pieces(s))
    decreases |s|
  {
    var k := IndexOf(s, '/');
    if k < |s| {
      var rest := s[k + 1..];
      var ps := Pieces(rest);
      UndoubledSuffix(s, k + 1);
      InnerPiecesFilled(rest);
      if rest == "" {
        OnePieceOfNothing();
      } else {
        NotDoubled(s, k);
        FirstPieceFilled(rest);
      }
      assert forall i | 0 < i < |ps| + 1 :: ([s[..k]] + ps)[i] == ps[i - 1];
    }
  }

  lemma OnePieceOfNothing()
    ensures |Pieces("")| == 1
  {
  }

  lemma {:induction false} ResolvedFilled(stack: seq<string>, pieces: seq<string>)
    requires Filled(stack) && Filled(pieces)
    ensures Filled(Resolved(stack, pieces, true))
    decreases |pieces|
  {
    if pieces != [] { ResolvedFilled(Stepped(stack, pieces[0], true), pieces[1..]); }
  }

  lemma CountedFilled(q: string)
    requires InnerFilled(Pieces(q)) && Pieces(q)[|Pieces(q)| - 1] != ""
    ensures Filled(Counted(q))
  {
    hide Pieces;
    var ps := Pieces(q);
    assert forall i | 0 <= i < |ps| - 1 :: ps[1..][i] == ps[i + 1];
  }

  /** On a path without empty segments only a backslash can be merged. */
  lemma UndoubledIsRfcIff(p: string)
    requires Undoubled(p)
    ensures Removed(p) == Rfc(p, "") <==>
            !(EndsInDotSegment(p) && KeptPieces(p) != [] && EndsWith(KeptPieces(p)[|KeptPieces(p)| - 1], "\\"))
  {
    hide Removed, Rfc, Resolved, Pieces, EndsWith;
    RemovedIsRfc(p);
    if EndsInDotSegment(p) {
      var ps := Pieces(Stripped(p));
      StrippedUndoubled(p);
      InnerPiecesFilled(Stripped(p));
      assert ps[|ps| - 1] != "";
      CountedFilled(Stripped(p));
      ResolvedFilled([], Counted(Stripped(p)));
    }
  }

  // ----- dot segments that are left -----

  lemma {:induction false} PiecesOfSpelled(es: seq<string>, pieces: seq<string>)
    requires Spells(es, pieces)
    ensures Pieces(Concat(es)) == pieces || Pieces(Concat(es)) == [""] + pieces
  {
    hide Concat, Pieces, IndexOf;
    if es == [] {
      NoPieces();
    } else {
      var n := |es| - 1;
      LastOfConcat(es);
      assert pieces == pieces[..n] + [pieces[n]];
      if es[n] == "/" + pieces[n] {
        SpellsPop(es, pieces);
        PiecesOfSpelled(es[..n], pieces[..n]);
        PiecesAppend(Concat(es[..n]), pieces[n]);
        assert ([""] + pieces[..n]) + [pieces[n]] == [""] + (pieces[..n] + [pieces[n]]);
      } else {
        BareText(es, pieces);
      }
    }
  }

  lemma NoPieces()
    ensures Concat([]) == "" && Pieces("") == [""]
  {
    IndexOfAbsent("", '/');
  }

  lemma BareText(es: seq<string>, pieces: seq<string>)
    requires |es| == |pieces| == 1 && es[0] == pieces[0] && '/' !in pieces[0]
    ensures Concat(es) == pieces[0] && Pieces(pieces[0]) == pieces
  {
    assert es[1..] == [] && es[0] + "" == es[0];
    IndexOfAbsent(pieces[0], '/');
  }

  predicate HasDot(pieces: seq<string>) { exists i | 0 <= i < |pieces| :: IsDot(pieces[i]) }

  lemma HasDotAppend(pieces: seq<string>, t: string)
    ensures HasDot(pieces + [t]) <==> HasDot(pieces) || IsDot(t)
  {
    var all := pieces + [t];
    assert all[|pieces|] == t;
    if i :| 0 <= i < |pieces| && IsDot(pieces[i]) { assert all[i] == pieces[i]; }
  }

  lemma SpelledHasNoDot(es: seq<string>, pieces: seq<string>)
    requires Spells(es, pieces)
    ensures !HasDot(Pieces(Concat(es)))
  {
    PiecesOfSpelled(es, pieces);
    assert forall i | 0 <= i < |pieces| :: !IsDot(pieces[i]);
    assert forall i | 0 <= i < |[""] + pieces| :: ([""] + pieces)[i] == if i == 0 then "" else pieces[i - 1];
  }

  /** The text without its final backslash. */
  lemma TrimmedHasDot(es: seq<string>, pieces: seq<string>)
    requires Spells(es, pieces) && pieces != [] && EndsWith(pieces[|pieces| - 1], "\\")
    ensures var c := Concat(es);
            c != "" && (HasDot(Pieces(c[..|c| - 1])) <==>
                        pieces[|pieces| - 1] == ".\\" || pieces[|pieces| - 1] == "..\\")
  {
    hide Concat, Pieces, HasDot, EndsWith, IsDot;
    var n := |pieces| - 1;
    var piece, c := pieces[n], Concat(es);
    var m := WithoutBackslash(piece);
    LastOfConcat(es);
    if es[n] == "/" + piece {
      var front := Concat(es[..n]);
      SpellsPop(es, pieces);
      SpelledHasNoDot(es[..n], pieces[..n]);
      assert c == (front + ("/" + m)) + "\\";
      assert c[..|c| - 1] == front + ("/" + m);
      PiecesAppend(front, m);
      HasDotAppend(Pieces(front), m);
    } else {
      BareText(es, pieces);
      assert c[..|c| - 1] == m;
      OnePiece(m);
    }
  }

  lemma WithoutBackslash(piece: string) returns (m: string)
    requires EndsWith(piece, "\\") && '/' !in piece
    ensures piece == m + "\\" && '/' !in m
    ensures IsDot(m) <==> piece == ".\\" || piece == "..\\"
  {
    m := piece[..|piece| - 1];
    assert piece == m + "\\" && forall x | x in m :: x in piece;
    if piece == ".\\" { assert |m| == 1 && m[0] == '.'; }
    if piece == "..\\" { assert |m| == 2 && m[0] == '.' && m[1] == '.'; }
  }

  lemma OnePiece(m: string)
    requires '/' !in m
    ensures HasDot(Pieces(m)) <==> IsDot(m)
  {
    IndexOfAbsent(m, '/');
    assert Pieces(m) == [m];
    assert Pieces(m)[0] == m;
  }

  lemma SlashHasDot(c: string)
    ensures HasDot(Pieces(c + "/")) <==> HasDot(Pieces(c))
  {
    assert "/" + "" == "/";
    PiecesAppend(c, "");
    HasDotAppend(Pieces(c), "");
  }

  /** The final slash, appended to the text of the kept pieces. */
  lemma AppendedHasDot(es: seq<string>, pieces: seq<string>)
    requires Spells(es, pieces)
    ensures HasDot(Pieces(Appended(Concat(es), "/"))) <==>
            pieces != [] && (pieces[|pieces| - 1] == ".\\" || pieces[|pieces| - 1] == "..\\")
  {
    hide Pieces, HasDot, Spells;
    var c := Concat(es);
    SpelledHasNoDot(es, pieces);
    SlashHasDot(c);
    FinalAppend(c);
    EndOfSpelled(es, pieces);
    BackslashEnd(es, pieces);
    if c != "" && c[|c| - 1] == '\\' {
      TrimmedHasDot(es, pieces);
      SlashHasDot(c[..|c| - 1]);
      assert "/"[1..] == "" && Appended(c, "/") == (c[..|c| - 1] + "/") + "" == c[..|c| - 1] + "/";
    } else if c != "" && c[|c| - 1] == '/' {
      assert Appended(c, "/") == c + "" == c;
    } else {
      assert c != "" ==> c[|c| - 1..] == [c[|c| - 1]];
    }
  }

  lemma BackslashEnd(es: seq<string>, pieces: seq<string>)
    requires Spells(es, pieces)
    ensures var c := Concat(es);
            c != "" && c[|c| - 1] == '\\' <==> pieces != [] && EndsWith(pieces[|pieces| - 1], "\\")
  {
    hide EndsWith, Concat;
    if pieces != [] {
      EndOfText(es, pieces);
      EndsInChar(pieces[|pieces| - 1], '\\');
    } else {
      NoPieces();
    }
  }

  /** Whatever the path, no `.` and no `..` is left between the slashes, except when a trailing dot
      segment comes behind `.\` or `..\`: `uri_append` then turns the backslash into the final slash
      and uncovers the dots. */
  lemma DotSegmentLeftIff(p: string)
    ensures HasDot(Pieces(Removed(p))) <==>
            && EndsInDotSegment(p) && KeptPieces(p) != []
            && (KeptPieces(p)[|KeptPieces(p)| - 1] == ".\\" || KeptPieces(p)[|KeptPieces(p)| - 1] == "..\\")
  {
    hide DotLoop, Spells, KeptPieces, EndsInDotSegment, HasDot, Pieces;
    var es := LoopOutcome(p);
    if EndsInDotSegment(p) {
      AppendedHasDot(es, KeptPieces(p));
    } else {
      SpelledHasNoDot(es, KeptPieces(p));
    }
  }

  /** Such a path. */
  lemma DotUncovered()
    ensures Removed("/.\\/.") == "/./"
  {
    hide DotLoop, Removed;
    BackslashLoop();
    assert "/." + "\\" == "/.\\" && "/." + "/" == "/./";
    BackslashRemoved("/.\\/.", "/.");
  }

  lemma BackslashLoop()
    ensures DotLoop("/.\\/.", []) == (["/.\\"], "/.")
  {
    hide DotLoop;
    var t := ".\\";
    assert t[1] == '\\' && '/' !in t && "/" + t == "/.\\";
    assert "/" + ("." + "") == "/." && "/" + (t + "/.") == "/.\\/.";
    LoopPiece(t, "/.", []);
    LoopPiece(".", "", [] + ["/" + t]);
    assert [] + ["/" + t] == ["/" + t];
  }

  lemma BackslashRemoved(p: string, s: string)
    requires DotLoop(p, []) == ([s + "\\"], "/.")
    ensures Removed(p) == s + "/"
  {
    hide DotLoop, Concat, Appended;
    ConcatPush([], s + "\\");
    NoPieces();
    assert [] + [s + "\\"] == [s + "\\"] && "" + (s + "\\") == s + "\\";
    SlashForBackslash(s);
  }

  lemma SlashForBackslash(s: string)
    ensures Appended(s + "\\", "/") == s + "/"
  {
    var c := s + "\\";
    assert c[|c| - 1] == '\\' && c[..|c| - 1] == s && "/"[1..] == "" && (s + "/") + "" == s + "/";
  }
}

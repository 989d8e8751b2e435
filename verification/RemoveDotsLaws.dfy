/** What `remove_dot_segments` makes of absolute paths and of paths without backslashes, and on
    which absolute paths it agrees with `normalize_path`. */
module RemoveDotsLaws {
  import opened Basics
  import opened PathPieces
  import opened PathTokens
  import opened NormalizePath
  import opened NormalizeLaws
  import opened RemoveDots

  /** No empty segment (a slash at the very end is allowed) and no backslash. */
  predicate Clean(p: string)
  {
    '\\' !in p && Undoubled(p)
  }

  // ----- paths without backslashes -----

  predicate Excludes(pieces: seq<string>, c: char)
  {
    forall i | 0 <= i < |pieces| :: c !in pieces[i]
  }

  lemma {:induction false} PiecesExclude(s: string, c: char)
    requires c !in s
    ensures Excludes(Pieces(s), c)
    decreases |s|
  {
    hide Pieces;
    var t, rest := FirstPiece(s);
    PiecesInFront(t, rest);
    assert forall x | x in t || x in rest :: x in s;
    if rest != "" {
      assert forall x | x in rest[1..] :: x in rest;
      PiecesExclude(rest[1..], c);
    }
  }

  lemma {:induction false} ResolvedExclude(stack: seq<string>, pieces: seq<string>, c: char)
    requires Excludes(stack, c) && Excludes(pieces, c)
    ensures Excludes(Resolved(stack, pieces, true), c)
    decreases |pieces|
  {
    hide Resolved;
    if pieces != [] {
      assert pieces == [pieces[0]] + pieces[1..];
      ResolvedCons(stack, pieces[0], pieces[1..], true);
      ResolvedExclude(Stepped(stack, pieces[0], true), pieces[1..], c);
    } else {
      ResolvedNothing(stack, true);
    }
  }

  lemma {:induction false} StrippedExcludes(p: string, c: char)
    requires c !in p
    ensures c !in Stripped(p)
    decreases |p|
  {
    if StartsWith(p, "../") {
      StrippedExcludes(p[3..], c);
    } else if StartsWith(p, "./") {
      StrippedExcludes(p[2..], c);
    }
  }

  lemma KeptExclude(p: string, c: char)
    requires c !in p
    ensures Excludes(KeptPieces(p), c)
  {
    hide Pieces, Resolved, Stripped;
    StrippedExcludes(p, c);
    PiecesExclude(Stripped(p), c);
    ResolvedExclude([], Counted(Stripped(p)), c);
  }

  lemma NoFinalBackslash(pieces: seq<string>)
    requires Excludes(pieces, '\\') && pieces != []
    ensures !EndsWith(pieces[|pieces| - 1], "\\")
    ensures pieces[|pieces| - 1] != ".\\" && pieces[|pieces| - 1] != "..\\"
  {
    var last := pieces[|pieces| - 1];
    EndsInChar(last, '\\');
    if last != "" { assert last[|last| - 1] in last; }
    assert ".\\"[1..] == "\\" && "..\\"[2..] == "\\";
  }

  /** On a clean path the code is the standard's algorithm, trailing dot segments included. */
  lemma CleanRemovedIsRfc(p: string)
    requires Clean(p)
    ensures Removed(p) == Rfc(p, "")
  {
    hide Removed, Rfc, Undoubled, KeptPieces, EndsInDotSegment, EndsWith, Excludes;
    UndoubledIsRfcIff(p);
    KeptExclude(p, '\\');
    if KeptPieces(p) != [] { NoFinalBackslash(KeptPieces(p)); }
  }

  lemma {:induction false} ConcatExcludes(es: seq<string>, c: char)
    requires Excludes(es, c)
    ensures c !in Concat(es)
  {
    if es != [] { ConcatExcludes(es[1..], c); }
  }

  lemma AppendedExcludes(s: string, c: char)
    requires c !in s && c != '/'
    ensures c !in Appended(s, "/")
  {
  }

  lemma SpelledExclude(es: seq<string>, pieces: seq<string>)
    requires Spells(es, pieces) && Excludes(pieces, '\\')
    ensures Excludes(es, '\\')
  {
    forall i | 0 <= i < |es| ensures '\\' !in es[i] {
      assert es[i] == "/" + pieces[i] || es[i] == pieces[i];
    }
  }

  lemma RemovedExcludes(p: string)
    requires '\\' !in p
    ensures '\\' !in Removed(p)
  {
    hide DotLoop, Spells, KeptPieces, EndsInDotSegment, Excludes, Concat, Appended;
    var es := LoopOutcome(p);
    KeptExclude(p, '\\');
    SpelledExclude(es, KeptPieces(p));
    ConcatExcludes(es, '\\');
    AppendedExcludes(Concat(es), '\\');
  }

  /** Every element is the root, a piece, or the mark of a final slash. */
  predicate FromPieces(ts: seq<string>, pieces: seq<string>)
  {
    forall i | 0 <= i < |ts| :: ts[i] == "" || ts[i] in pieces
  }

  lemma FromFewer(ts: seq<string>, pieces: seq<string>, t: string)
    requires FromPieces(ts, pieces)
    ensures FromPieces(ts, [t] + pieces) && FromPieces([t] + ts, [t] + pieces)
  {
  }

  lemma {:induction false} SegmentsFromPieces(v: string)
    requires '\\' !in v
    ensures FromPieces(Segments(v), Pieces(v))
    decreases |v|
  {
    hide Segments, Pieces, FromPieces;
    var t, rest := FirstPiece(v);
    PiecesInFront(t, rest);
    assert forall x | x in t || x in rest :: x in v;
    if rest == "" {
      assert t == v;
      LastSegments(v);
    } else {
      var w := rest[1..];
      assert rest == "/" + w && forall x | x in w :: x in rest;
      SegmentsFromPieces(w);
      SlashedSegments(w);
      if w == "" { SlashIsMark(Pieces(w)); }
      FromFewer(Segments(rest), Pieces(w), t);
      if t == "" { assert v == rest; } else { SegmentsOfName(t, rest); }
    }
  }

  lemma LastSegments(v: string)
    requires '\\' !in v && '/' !in v
    ensures FromPieces(Segments(v), [v])
  {
    if v == "" {
      NoSegments();
    } else {
      SegmentsOfName(v, "");
      NoSegments();
      assert v + "" == v;
    }
  }

  /** A slash in front of a text adds nothing but a mark to the empty text. */
  lemma SlashedSegments(w: string)
    requires '\\' !in w
    ensures Segments("/" + w) == if w == "" then [""] else Segments(w)
  {
    hide Segments;
    if w == "" {
      SegmentsOfTail([], true);
      assert "/" + "" == "/";
    } else if w[0] == '/' {
      SegmentsExtraSlash(w);
    } else {
      var t, rest := FirstPiece(w);
      assert t != "" && forall x | x in t :: x in w;
      SegmentsOfName(t, rest);
      SegmentsSkipSlash(t, rest);
    }
  }

  lemma SlashIsMark(pieces: seq<string>)
    ensures FromPieces([""], pieces)
  {
  }

  lemma TokensFromPieces(p: string)
    requires '\\' !in p
    ensures forall t | t in Tokens(p) :: t == "/" || t == "" || t in Pieces(p)
  {
    hide Segments, Pieces;
    if p != "" && p[0] == '/' {
      SlashInFront(p);
      assert forall x | x in p[1..] :: x in p;
      SegmentsFromPieces(p[1..]);
      FromFewer(Segments(p[1..]), Pieces(p[1..]), "");
    } else {
      if p != "" { assert p[0] in p; }
      SegmentsFromPieces(p);
    }
  }

  /** No `.` and no `..` is left on a path without backslashes. */
  lemma NoDotSegmentLeft(p: string)
    requires '\\' !in p
    ensures "." !in Tokens(Removed(p)) && ".." !in Tokens(Removed(p))
  {
    hide Removed, Tokens, Pieces, KeptPieces, EndsInDotSegment, Excludes;
    var r := Removed(p);
    RemovedExcludes(p);
    KeptExclude(p, '\\');
    if KeptPieces(p) != [] { NoFinalBackslash(KeptPieces(p)); }
    DotSegmentLeftIff(p);
    TokensFromPieces(r);
    if "." in Pieces(r) { DotPieces(Pieces(r), "."); }
    if ".." in Pieces(r) { DotPieces(Pieces(r), ".."); }
  }

  lemma DotPieces(pieces: seq<string>, d: string)
    requires d in pieces && IsDot(d)
    ensures HasDot(pieces)
  {
    var i :| 0 <= i < |pieces| && pieces[i] == d;
    assert IsDot(pieces[i]);
  }

  // ----- the text of an absolute path -----

  /** All elements on the stack carry their slash. */
  predicate AllRooted(es: seq<string>)
  {
    forall i | 0 <= i < |es| :: es[i] != "" && es[i][0] == '/'
  }

  lemma {:induction false} RootedStays(v: string, elements: seq<string>)
    requires (v == "" || v[0] == '/') && AllRooted(elements)
    ensures AllRooted(DotLoop(v, elements).0)
    decreases |v|
  {
    hide DotLoop;
    if v == "" {
      LoopOfNothing(elements);
    } else {
      var t, rest := FirstPiece(v[1..]);
      assert v == "/" + (t + rest);
      LoopPiece(t, rest, elements);
      RootedStays(rest, elements);
      RootedStays(rest, Popped(elements));
      RootedStays(rest, elements + ["/" + t]);
    }
  }

  lemma {:induction false} ConcatIsTail(es: seq<string>, pieces: seq<string>)
    requires |es| == |pieces| && forall i | 0 <= i < |es| :: es[i] == "/" + pieces[i]
    ensures Concat(es) == Tail(pieces, false)
  {
    if es != [] {
      ConcatIsTail(es[1..], pieces[1..]);
      assert ("/" + pieces[0]) + Tail(pieces[1..], false) == "/" + (pieces[0] + Tail(pieces[1..], false));
    }
  }

  lemma RootedSpells(es: seq<string>, pieces: seq<string>)
    requires Spells(es, pieces) && AllRooted(es)
    ensures forall i | 0 <= i < |es| :: es[i] == "/" + pieces[i]
  {
    forall i | 0 <= i < |es| ensures es[i] == "/" + pieces[i] {
      assert es[i][0] == '/' && '/' !in pieces[i];
    }
  }

  /** The pieces of the result of an absolute path, and whether it ends in a slash. */
  function RemovedPieces(p: string): (r: (seq<string>, bool))
  {
    var kept := KeptPieces(p);
    if kept == [] then ([], true)
    else
      var front, last := kept[..|kept| - 1], kept[|kept| - 1];
      if last == "" then (front, true)
      else if !EndsInDotSegment(p) then (kept, false)
      else if EndsWith(last, "\\") then (front + [last[..|last| - 1]], true)
      else (kept, true)
  }

  lemma TailPush(pieces: seq<string>, t: string)
    ensures Tail(pieces + [t], false) == Tail(pieces, false) + ("/" + t)
    decreases |pieces|
  {
    if pieces == [] {
      assert [t][1..] == [] && [] + [t] == [t] && t + "" == t;
    } else {
      TailPush(pieces[1..], t);
      assert (pieces + [t])[1..] == pieces[1..] + [t];
      assert "/" + (pieces[0] + (Tail(pieces[1..], false) + ("/" + t)))
          == ("/" + (pieces[0] + Tail(pieces[1..], false))) + ("/" + t);
    }
  }

  /** What appending the final slash makes of the text of pieces. */
  lemma SlashedTail(front: seq<string>, last: string)
    ensures var c := Tail(front + [last], false);
            Appended(c, "/") ==
            if last == "" then Tail(front, true)
            else if EndsWith(last, "\\") then Tail(front + [last[..|last| - 1]], true)
            else if last[|last| - 1] == '/' then c
            else Tail(front + [last], true)
  {
    hide Tail, EndsWith;
    var f, c := Tail(front, false), Tail(front + [last], false);
    TailPush(front, last);
    TailWithSlash(front);
    TailWithSlash(front + [last]);
    SlashTo(c);
    if last == "" {
      assert c == f + "/";
    } else {
      assert c[|c| - 1] == last[|last| - 1];
      EndsInChar(last, '\\');
      var m := last[..|last| - 1];
      TailPush(front, m);
      TailWithSlash(front + [m]);
      assert c[..|c| - 1] == f + ("/" + m);
    }
  }

  lemma SlashTo(c: string)
    requires c != ""
    ensures Appended(c, "/") == if c[|c| - 1] == '\\' then c[..|c| - 1] + "/"
                                else if c[|c| - 1] == '/' then c
                                else c + "/"
  {
    assert "/"[1..] == "" && c + "" == c && (c + "/") + "" == c + "/";
    assert (c[..|c| - 1] + "/") + "" == c[..|c| - 1] + "/";
  }

  lemma RemovedText(p: string)
    requires p != "" && p[0] == '/'
    ensures Removed(p) == Tail(RemovedPieces(p).0, RemovedPieces(p).1)
  {
    hide DotLoop, Spells, EndsInDotSegment, Tail, Concat, Appended, KeptPieces, Pieces;
    var es := LoopOutcome(p);
    var kept := KeptPieces(p);
    RootedStays(p, []);
    RootedSpells(es, kept);
    SpelledLength(es, kept);
    ConcatIsTail(es, kept);
    if kept == [] {
      NothingKept(p);
      RootTail();
    } else {
      var front, last := kept[..|kept| - 1], kept[|kept| - 1];
      assert kept == front + [last];
      SlashedTail(front, last);
      TailPush(front, last);
      TailWithSlash(front);
      if last != "" { assert last[|last| - 1] in last; }
      SpelledHoldsNoSlash(es, kept);
      if last == "" { assert "/" + "" == "/"; }
    }
  }

  lemma SpelledLength(es: seq<string>, pieces: seq<string>)
    requires Spells(es, pieces)
    ensures |es| == |pieces|
  {
  }

  lemma SpelledHoldsNoSlash(es: seq<string>, pieces: seq<string>)
    requires Spells(es, pieces)
    ensures AllPieces(pieces)
  {
  }

  lemma RootTail()
    ensures Tail([], false) == "" && Tail([], true) == "/" && Appended("", "/") == "/"
  {
  }

  /** An absolute path that keeps nothing ends in a dot segment. */
  lemma NothingKept(p: string)
    requires p != "" && p[0] == '/' && KeptPieces(p) == []
    ensures EndsInDotSegment(p)
  {
    hide Pieces, KeptPieces, EndsInDotSegment;
    LastOfAbsolute(p, Pieces(p)[|Pieces(p)| - 1]);
  }

  lemma LastIsKept(stack: seq<string>, pieces: seq<string>)
    requires pieces != [] && !IsDot(pieces[|pieces| - 1])
    ensures var kept := Resolved(stack, pieces, true); kept != [] && kept[|kept| - 1] == pieces[|pieces| - 1]
  {
    ResolvedLast(stack, pieces, true);
  }

  // ----- against the other normalizer -----

  /** The names that `normalize_path` resolves an absolute path to. */
  function NormalizedNames(p: string): (r: seq<string>)
    requires p != ""
  {
    Resolved([], NamesAlong(p[1..]), true)
  }

  lemma NormalizedText(p: string) returns (mark: bool)
    requires p != "" && p[0] == '/'
    ensures AllNames(NormalizedNames(p))
    ensures Normalized(p) == Tail(NormalizedNames(p), mark)
    ensures mark <==> EndsInSlash(p) || EndsWith(p, ".") || NormalizedNames(p) == []
  {
    hide Segments, Resolved, Normalized, EndsWith;
    var v := p[1..];
    var names := SegmentsAreNames(v);
    NamesAreAlong(v, names);
    assert p[..1] == "/" && Root(true) + (names + Mark(EndsInSlash(v))) == ["/"] + Segments(v);
    NormalizedElements(p, names, EndsInSlash(v), true);
    mark := EndsInSlash(p) || EndsWith(p, ".") || NormalizedNames(p) == [];
    if v == "" {
      ResolvedNothing([], true);
      NoSegments();
    } else {
      assert v[|v| - 1] == p[|p| - 1];
    }
  }

  lemma NamesAreAlong(v: string, names: seq<string>)
    requires AllNames(names) && Segments(v) == names + Mark(EndsInSlash(v))
    ensures NamesAlong(v) == names
  {
    if !EndsInSlash(v) && names != [] { assert IsName(names[|names| - 1]); }
  }

  /** The last piece ends the text, behind the last slash. */
  lemma {:induction false} LastPieceEnds(s: string) returns (last: string)
    ensures last == Pieces(s)[|Pieces(s)| - 1] && '/' !in last && EndsWith(s, last)
    ensures |Pieces(s)| > 1 <==> '/' in s
    ensures if |Pieces(s)| > 1 then EndsWith(s, "/" + last) else last == s
    decreases |s|
  {
    hide Pieces, EndsWith;
    var t, rest := FirstPiece(s);
    PiecesInFront(t, rest);
    if rest == "" {
      last := t;
      assert s == t && "" + t == t;
      BehindSlash("", t, t);
    } else {
      var w := rest[1..];
      last := LastPieceEnds(w);
      LastPiece(t, Pieces(w));
      assert s == (t + "/") + w && s[|t|] == '/';
      BehindSlash(t + "/", w, last);
      if |Pieces(w)| > 1 {
        BehindSlash(t + "/", w, "/" + last);
      } else {
        assert s == t + ("/" + w);
        BehindSlash(t, "/" + w, "/" + w);
      }
    }
  }

  lemma BehindSlash(t: string, w: string, last: string)
    requires EndsWith(w, last) || w == last
    ensures EndsWith(t + w, last)
  {
    if w == last { assert w[0..] == w; }
    assert (t + w)[|t + w| - |last|..] == w[|w| - |last|..];
  }

  lemma SlashInLonger(p: string, a: string, b: string)
    requires EndsWith(p, "/" + a) && EndsWith(p, "/" + b) && |a| < |b|
    ensures '/' in b
  {
    var k := |p| - 1 - |a|;
    assert ("/" + a)[0] == p[k];
    assert p[k] == ("/" + b)[|b| - |a|];
    assert b[|b| - |a| - 1] == '/';
  }

  /** A dot segment at the end, seen from the end of the text. */
  lemma DotSegmentEnds(p: string)
    requires p != "" && p[0] == '/'
    ensures EndsInDotSegment(p) <==> EndsWith(p, "/.") || EndsWith(p, "/..")
  {
    hide Pieces, EndsWith;
    var last := LastPieceEnds(p);
    assert p[0] in p && Stripped(p) == p;
    assert "/" + "." == "/." && "/" + ".." == "/..";
    if EndsWith(p, "/.") { EndIs(p, last, "."); }
    if EndsWith(p, "/..") { EndIs(p, last, ".."); }
  }

  lemma EndIs(p: string, a: string, b: string)
    requires EndsWith(p, "/" + a) && EndsWith(p, "/" + b) && '/' !in a && '/' !in b
    ensures a == b
  {
    assert ("/" + a)[1..] == a && ("/" + b)[1..] == b;
    if |a| < |b| { SlashInLonger(p, a, b); }
    if |b| < |a| { SlashInLonger(p, b, a); }
  }

  /** The text of pieces determines the pieces, against a text of names. */
  lemma TailsAgree(a: seq<string>, m: bool, b: seq<string>, n: bool)
    requires AllPieces(a) && AllNames(b) && (a == [] ==> m) && (b == [] ==> n)
    requires a != [] && !m ==> a[|a| - 1] != ""
    ensures Tail(a, m) == Tail(b, n) <==> a == b && m == n
  {
    hide Pieces;
    assert forall i | 0 <= i < |b| :: IsName(b[i]);
    PiecesOfTail(a, m);
    PiecesOfTail(b, n);
    hide Tail;
    if Tail(a, m) == Tail(b, n) {
      var x, y := a + Mark(m), b + Mark(n);
      assert x == y && x[|x| - 1] == y[|y| - 1];
      assert m == n;
      assert a == x[..|a|] && b == y[..|b|];
    }
  }

  lemma RemovedPiecesShape(p: string)
    requires p != "" && p[0] == '/'
    ensures var (a, m) := RemovedPieces(p); AllPieces(a) && (a == [] ==> m) && (a != [] && !m ==> a[|a| - 1] != "")
  {
    hide DotLoop, KeptPieces, EndsInDotSegment, EndsWith, Spells;
    var es := LoopOutcome(p);
    SpelledHoldsNoSlash(es, KeptPieces(p));
  }

  /** When the names are the same, only a dot at the end of the last name makes a difference. */
  lemma MarksAgree(p: string, mark: bool)
    requires p != "" && p[0] == '/' && RemovedPieces(p).0 == NormalizedNames(p) && AllNames(NormalizedNames(p))
    requires mark <==> EndsInSlash(p) || EndsWith(p, ".") || NormalizedNames(p) == []
    ensures RemovedPieces(p).1 == mark <==> (EndsWith(p, ".") ==> EndsInDotSegment(p))
  {
    hide Pieces, Resolved, NormalizedNames, EndsWith, KeptPieces, EndsInDotSegment;
    var last := LastPieceEnds(p);
    assert p[0] in p;
    EndOfLast(p, last);
    LastOfAbsolute(p, last);
    if !IsDot(last) && last != "" {
      var kept := KeptPieces(p);
      assert IsName(kept[|kept| - 1]);
      assert last[|last| - 1] in last;
    }
  }

  /** The last character of a text, by its last piece. */
  lemma EndOfLast(p: string, last: string)
    requires EndsWith(p, "/" + last)
    ensures p != "" && p[|p| - 1] == if last == "" then '/' else last[|last| - 1]
    ensures EndsWith(p, ".") <==> last != "" && last[|last| - 1] == '.'
  {
    var t := "/" + last;
    assert p[|p| - 1] == t[|t| - 1];
    EndsInChar(p, '.');
  }

  /** The last piece of an absolute path is kept unless it is a dot segment. */
  lemma LastOfAbsolute(p: string, last: string)
    requires p != "" && p[0] == '/' && last == Pieces(p)[|Pieces(p)| - 1]
    ensures EndsInDotSegment(p) <==> IsDot(last)
    ensures !IsDot(last) ==> var kept := KeptPieces(p); kept != [] && kept[|kept| - 1] == last
  {
    hide Pieces, Resolved;
    var ps := Pieces(p[1..]);
    SlashInFront(p);
    LastPiece("", ps);
    assert Stripped(p) == p && Counted(p) == ps;
    if !IsDot(last) { LastIsKept([], ps); }
  }

  /** On an absolute path the two normalizers agree if and only if the pieces that
      `remove_dot_segments` keeps are the names that `normalize_path` resolves, and a dot at the end
      belongs to a dot segment. */
  lemma NormalizersAgreeIff(p: string)
    requires p != "" && p[0] == '/'
    ensures Normalized(p) == Removed(p) <==>
            RemovedPieces(p).0 == NormalizedNames(p) && (EndsWith(p, ".") ==> EndsInDotSegment(p))
  {
    hide Normalized, Removed, RemovedPieces, NormalizedNames, Tail, EndsInDotSegment, EndsWith;
    RemovedText(p);
    RemovedPiecesShape(p);
    var mark := NormalizedText(p);
    TailsAgree(RemovedPieces(p).0, RemovedPieces(p).1, NormalizedNames(p), mark);
    if RemovedPieces(p).0 == NormalizedNames(p) { MarksAgree(p, mark); }
  }

  // ----- clean paths -----

  /** The pieces of a clean absolute path are names. */
  lemma CleanPieces(p: string) returns (names: seq<string>, slash: bool)
    requires Clean(p) && p != "" && p[0] == '/'
    ensures AllNames(names) && Pieces(p[1..]) == names + Mark(slash) && (names == [] ==> slash)
  {
    hide Pieces, Undoubled;
    var ps := Pieces(p[1..]);
    SlashInFront(p);
    InnerPiecesFilled(p);
    PiecesHoldNoSlash(p);
    PiecesExclude(p, '\\');
    assert forall i | 0 <= i < |ps| :: ps[i] == Pieces(p)[i + 1];
    slash := ps[|ps| - 1] == "";
    names := if slash then ps[..|ps| - 1] else ps;
  }

  lemma AlongNames(names: seq<string>, slash: bool)
    requires AllNames(names) && (names == [] ==> slash)
    ensures NamesAlong(Tail(names, slash)[1..]) == names
  {
    hide Segments;
    var v := Tail(names, slash)[1..];
    if names == [] {
      NoSegments();
      assert v == "";
    } else {
      assert IsName(names[0]) && v == names[0] + Tail(names[1..], slash);
      SegmentsOfName(names[0], Tail(names[1..], slash));
      SegmentsOfTail(names[1..], slash);
      assert names == [names[0]] + names[1..] && Segments(v) == names + Mark(slash);
      if !slash { assert IsName(names[|names| - 1]); }
    }
  }

  lemma ResolvedMarked(names: seq<string>, slash: bool)
    ensures Resolved([], names + Mark(slash), true) == Resolved([], names, true) + Mark(slash)
  {
    hide Resolved;
    ResolvedAppend([], names, Mark(slash), true);
    var stack := Resolved([], names, true);
    if slash { ResolvedOne(stack, "", true); } else { ResolvedNothing(stack, true); }
  }

  lemma CleanNames(p: string)
    requires Clean(p) && p != "" && p[0] == '/'
    ensures RemovedPieces(p).0 == NormalizedNames(p)
  {
    hide Pieces, Resolved, EndsInDotSegment, Undoubled, NamesAlong, Tail;
    var names, slash := CleanPieces(p);
    SlashInFront(p);
    assert Stripped(p) == p && Counted(p) == Pieces(p[1..]);
    TailOfPieces(p, names, slash);
    AlongNames(names, slash);
    ResolvedMarked(names, slash);
    var res := Resolved([], names, true);
    ResolvedAreNames(names);
    if slash {
      assert (res + [""])[..|res|] == res;
    } else if res != [] {
      assert res + [] == res && IsName(res[|res| - 1]);
      NameEndsPlain(res[|res| - 1]);
    }
  }

  lemma ResolvedAreNames(names: seq<string>)
    requires AllNames(names)
    ensures AllNames(Resolved([], names, true))
  {
    StackResolves([], names, true);
  }

  lemma NameEndsPlain(name: string)
    requires IsName(name)
    ensures name != "" && !EndsWith(name, "\\")
  {
    assert name[|name| - 1] in name;
    EndsInChar(name, '\\');
  }

  /** The two normalizers agree on a clean absolute path if and only if its last segment is
      `.`, is `..`, or does not end in a dot. */
  lemma NormalizersAgree(p: string)
    requires Clean(p) && p != "" && p[0] == '/'
    ensures Normalized(p) == Removed(p) <==>
            !EndsWith(p, ".") || EndsWith(p, "/.") || EndsWith(p, "/..")
  {
    hide Normalized, Removed, RemovedPieces, NormalizedNames, EndsInDotSegment, EndsWith, Undoubled;
    NormalizersAgreeIff(p);
    CleanNames(p);
    DotSegmentEnds(p);
  }

  /** A final name that ends in a dot. */
  lemma NormalizersDiffer()
    ensures Normalized("/a.") != Removed("/a.")
  {
    hide Normalized, Removed;
    var p := "/a.";
    assert p[2..] == "." && p[1..] == "a." && p[0..] == "/a.";
    NormalizersAgree(p);
  }

  /** A backslash: a separator for `normalize_path`, a character for `remove_dot_segments`. */
  lemma BackslashDiffers()
    ensures Normalized("/a\\b") != Removed("/a\\b")
  {
    hide Normalized, Removed;
    var t := "a\\b";
    assert t[1] == '\\' && "/" + t == "/a\\b";
    EndsInChar(t, '\\');
    OneOddName(t);
  }

  /** A single piece with a backslash inside. */
  lemma OneOddName(t: string)
    requires '\\' in t && '/' !in t && t != "" && !IsDot(t) && !EndsWith(t, "\\")
    ensures Normalized("/" + t) != Removed("/" + t)
  {
    hide Normalized, Removed, NormalizedNames, EndsInDotSegment, KeptPieces;
    var p := "/" + t;
    OneKept(t);
    var mark := NormalizedText(p);
    var names := NormalizedNames(p);
    assert names != [] ==> IsName(names[|names| - 1]);
    NormalizersAgreeIff(p);
  }

  lemma OneKept(t: string)
    requires '/' !in t && !IsDot(t)
    ensures KeptPieces("/" + t) == [t] && !EndsInDotSegment("/" + t)
  {
    hide Pieces, Resolved;
    var p := "/" + t;
    assert p[1..] == t && t + "" == t;
    PiecesInFront(t, "");
    SlashInFront(p);
    assert Stripped(p) == p && Counted(p) == [t];
    ResolvedOne([], t, true);
    assert [] + [t] == [t];
    LastOfAbsolute(p, t);
  }
}

/** The pieces between the slashes of a path, empty ones included, as section 5.2.4 of RFC 3986
    sees them. */
module PathPieces {
  import opened Basics
  import opened PathTokens

  /** What lies between the slashes of a path, empty pieces included. */
  function Pieces(s: string): (r: seq<string>)
    ensures |r| >= 1
    decreases |s|
  {
    var i := IndexOf(s, '/');
    if i == |s| then [s] else [s[..i]] + Pieces(s[i + 1..])
  }

  lemma LastPiece(a: string, rest: seq<string>)
    requires rest != []
    ensures ([a] + rest)[|[a] + rest| - 1] == rest[|rest| - 1]
  {
  }

  /** No piece holds a slash. */
  lemma {:induction false} PiecesHoldNoSlash(s: string)
    ensures forall i | 0 <= i < |Pieces(s)| :: '/' !in Pieces(s)[i]
    decreases |s|
  {
    var i := IndexOf(s, '/');
    IndexOfPasses(s, '/');
    if i == |s| {
      assert s[..i] == s;
    } else {
      PiecesHoldNoSlash(s[i + 1..]);
    }
  }

  lemma FirstSlashBehind(t: string, rest: string)
    requires '/' !in t && (rest == "" || rest[0] == '/')
    ensures IndexOf(t + rest, '/') == |t| && (t + rest)[..|t|] == t && (t + rest)[|t|..] == rest
  {
    if rest == "" {
      assert t + rest == t;
      IndexOfAbsent(t, '/');
    } else {
      assert t + rest == t + ['/'] + rest[1..];
      IndexOfSplit(t, '/', rest[1..]);
    }
  }

  lemma PiecesInFront(t: string, rest: string)
    requires '/' !in t && (rest == "" || rest[0] == '/')
    ensures rest == "" ==> Pieces(t + rest) == [t]
    ensures rest != "" ==> Pieces(t + rest) == [t] + Pieces(rest[1..])
  {
    hide IndexOf;
    FirstSlashBehind(t, rest);
    if rest != "" { assert (t + rest)[|t| + 1..] == rest[1..]; } else { assert t + rest == t; }
  }

  lemma FirstPiece(w: string) returns (t: string, rest: string)
    ensures w == t + rest && '/' !in t && (rest == "" || rest[0] == '/') && |rest| <= |w|
  {
    var i := IndexOf(w, '/');
    IndexOfPasses(w, '/');
    t, rest := w[..i], w[i..];
  }

  lemma PiecesOfNothing()
    ensures Pieces("") == [""]
  {
    IndexOfAbsent("", '/');
  }

  /** The pieces of a text with one more piece behind a slash. */
  lemma {:induction false} PiecesAppend(s: string, t: string)
    requires '/' !in t
    ensures Pieces(s + ("/" + t)) == Pieces(s) + [t]
    decreases |s|
  {
    hide IndexOf, Pieces;
    var a, rest := FirstPiece(s);
    PiecesInFront(a, rest);
    assert s + ("/" + t) == a + (rest + ("/" + t));
    PiecesInFront(a, rest + ("/" + t));
    if rest == "" {
      assert rest + ("/" + t) == "/" + t && ("/" + t)[1..] == t && t + "" == t;
      PiecesInFront(t, "");
    } else {
      assert (rest + ("/" + t))[1..] == rest[1..] + ("/" + t);
      PiecesAppend(rest[1..], t);
    }
  }

  predicate AllPieces(ps: seq<string>)
  {
    forall i | 0 <= i < |ps| :: '/' !in ps[i]
  }

  /** The pieces of a text that was made of pieces. */
  lemma {:induction false} PiecesOfTail(ps: seq<string>, slash: bool)
    requires AllPieces(ps) && Tail(ps, slash) != ""
    ensures Pieces(Tail(ps, slash)[1..]) == ps + Mark(slash)
  {
    hide IndexOf, Pieces;
    if ps == [] {
      assert Tail([], slash)[1..] == "";
      PiecesOfNothing();
    } else {
      var rest := Tail(ps[1..], slash);
      assert Tail(ps, slash)[1..] == ps[0] + rest;
      PiecesInFront(ps[0], rest);
      assert ps == [ps[0]] + ps[1..];
      if rest != "" {
        PiecesOfTail(ps[1..], slash);
      } else {
        assert ps[1..] == [] && !slash;
      }
    }
  }

  /** The first of several pieces is a name. */
  lemma FirstOfMarked(names: seq<string>, slash: bool, x: string, ps: seq<string>)
    requires names + Mark(slash) == [x] + ps && |ps| >= 1
    ensures names != [] && names[0] == x && names[1..] + Mark(slash) == ps
  {
    assert ([x] + ps)[1..] == ps && ([x] + ps)[0] == x;
    assert names != [];
    assert (names + Mark(slash))[1..] == names[1..] + Mark(slash);
  }

  lemma SingleMarked(names: seq<string>, slash: bool, x: string)
    requires names + Mark(slash) == [x]
    ensures (names == [x] && !slash) || (names == [] && slash && x == "")
  {
    if slash { assert (names + [""])[|names|] == ""; }
  }

  lemma SlashInFront(p: string)
    requires p != "" && p[0] == '/'
    ensures Pieces(p) == [""] + Pieces(p[1..]) && Pieces(p)[1..] == Pieces(p[1..])
  {
    assert p == "" + ['/'] + p[1..];
    IndexOfSplit("", '/', p[1..]);
    assert p[..0] == "" && ([""] + Pieces(p[1..]))[1..] == Pieces(p[1..]);
  }

  /** A text behind a slash is the tail of its pieces. */
  lemma {:induction false} TailOfPieces(v: string, names: seq<string>, slash: bool)
    requires v != "" && v[0] == '/' && Pieces(v[1..]) == names + Mark(slash)
    ensures v == Tail(names, slash)
    decreases |v|
  {
    var w := v[1..];
    var i := IndexOf(w, '/');
    assert v == "/" + w;
    if i == |w| {
      SingleMarked(names, slash, w);
      if !slash { assert names[1..] == [] && w + "" == w; }
    } else {
      var rest := w[i..];
      assert rest[1..] == w[i + 1..] && w == w[..i] + rest;
      FirstOfMarked(names, slash, w[..i], Pieces(rest[1..]));
      TailOfPieces(rest, names[1..], slash);
    }
  }
}

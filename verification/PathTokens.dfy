/** `uri_path_iterator`: the elements of a path, cut off one by one from a shared view
    (utils/src/resource_location.cpp). */
module PathTokens {
  import opened Basics

  predicate IsSlash(c: char) { c == '/' || c == '\\' }

  function FirstSlash(s: string): (i: nat) ensures i <= |s| { IndexOfEither(s, '/', '\\') }

  function FirstNotSlash(s: string): (i: nat) ensures i <= |s| { IndexOfNeither(s, '/', '\\') }

  /** The elements that follow a first one: the names between runs of slashes, and an empty
      element for slashes at the very end. */
  function Segments(v: string): (r: seq<string>)
    decreases |v|
  {
    var b := FirstNotSlash(v);
    if b == |v| then (if v == "" then [] else [""])
    else
      var e := b + FirstSlash(v[b..]);
      FirstSlashAfterName(v, b);
      [v[b..e]] + Segments(v[e..])
  }

  lemma FirstSlashAfterName(v: string, b: nat)
    requires b < |v| && !IsSlash(v[b])
    ensures FirstSlash(v[b..]) > 0
  {
    assert v[b..][0] == v[b];
  }

  lemma NoSegments()
    ensures Segments("") == []
  {
  }

  /** One step of the element search. */
  lemma FirstCut(v: string, b: nat, e: nat)
    requires b == FirstNotSlash(v) < |v| && e == b + FirstSlash(v[b..])
    ensures e <= |v| && Segments(v) == [v[b..e]] + Segments(v[e..])
  {
    hide FirstSlash, FirstNotSlash;
  }

  predicate EndsInSlash(v: string) { v != "" && IsSlash(v[|v| - 1]) }

  lemma OnlySlashes(v: string)
    requires FirstNotSlash(v) == |v| && v != ""
    ensures EndsInSlash(v) && IsSlash(v[0]) && Segments(v) == [""]
  {
    PassedOverNeither(v, '/', '\\', 0);
  }

  lemma FirstBehind(v: string)
    requires FirstNotSlash(v) < |v|
    ensures !IsSlash(v[FirstNotSlash(v)])
  {
  }

  /** All elements of a path; a leading slash is an element of its own. */
  function Tokens(p: string): (r: seq<string>)
  {
    if p == "" then []
    else if IsSlash(p[0]) then [p[..1]] + Segments(p[1..])
    else Segments(p)
  }

  class UriPathIterator {
    var ended: bool
    var view: string
    var element: string
    var started: bool

    constructor (path: string)
      ensures Valid() && !ended && Rest() == Tokens(path)
    {
      ended, view, element, started := false, path, "", path == "";
    }

    ghost predicate Valid()
      reads this
    {
      && (!ended && started && element == "" ==> FirstNotSlash(view) == |view|)
      && (!ended && !started ==> view != "")
    }

    /** The elements still to come. */
    ghost function Rest(): (r: seq<string>)
      reads this
    {
      if ended then []
      else if !started then Tokens(view)
      else if element == "" then []
      else Segments(view)
    }

    /** The current element and everything after it. */
    ghost function Pending(): (r: seq<string>)
      reads this
    {
      if ended then [] else [element] + Rest()
    }

    /** `next_element`: one more element of the rest becomes the current one. */
    method Next()
      requires Valid() && !ended
      modifies this
      ensures Valid() && Pending() == old(Rest())
    {
      hide Segments, FirstSlash, FirstNotSlash;
      NoSegments();
      if view != "" && FirstNotSlash(view) == |view| { OnlySlashes(view); }
      if !started && view != "" && (view[0] == '/' || view[0] == '\\') {
        element := view[..1];
        view := view[1..];
        started := true;
        return;
      }
      started := true;
      var notSlash := FirstNotSlash(view);
      if notSlash < |view| {
        FirstBehind(view);
        FirstSlashAfterName(view, notSlash);
        var nextSlash := notSlash + FirstSlash(view[notSlash..]);
        FirstCut(view, notSlash, nextSlash);
        element := view[notSlash..nextSlash];
        view := view[nextSlash..];
      } else if view != "" && element != "" {
        element := "";
      } else {
        ended := true;
      }
    }
  }

  // ----- the inverse: texts with known elements -----

  /** A name between slashes. */
  predicate IsName(s: string)
  {
    s != "" && '/' !in s && '\\' !in s
  }

  predicate AllNames(names: seq<string>)
  {
    forall i | 0 <= i < |names| :: IsName(names[i])
  }

  /** Names behind slashes, with an optional slash at the end. */
  function Tail(names: seq<string>, slash: bool): (r: string)
    ensures r != "" ==> r[0] == '/'
  {
    if names == [] then (if slash then "/" else "") else "/" + (names[0] + Tail(names[1..], slash))
  }

  /** The text of an absolute path. */
  function AbsText(names: seq<string>, slash: bool): (r: string)
    ensures r != "" && r[0] == '/'
  {
    if names == [] then "/" else Tail(names, slash)
  }

  /** The text of a relative path. */
  function RelText(names: seq<string>, slash: bool): (r: string)
  {
    if names == [] then "" else names[0] + Tail(names[1..], slash)
  }

  function Mark(slash: bool): (r: seq<string>) { if slash then [""] else [] }

  lemma NameThenSlash(name: string, rest: string)
    requires IsName(name) && (rest == "" || rest[0] == '/')
    ensures FirstSlash(name + rest) == |name| && FirstNotSlash(name + rest) == 0
  {
    if rest == "" {
      assert name + rest == name;
      IndexOfEitherAbsent(name, '/', '\\');
    } else {
      assert name + rest == name + ['/'] + rest[1..];
      IndexOfEitherSplit(name, '/', '\\', '/', rest[1..]);
    }
    assert (name + rest)[0] in name;
  }

  lemma SegmentsOfName(name: string, rest: string)
    requires IsName(name) && (rest == "" || rest[0] == '/')
    ensures Segments(name + rest) == [name] + Segments(rest)
  {
    NameThenSlash(name, rest);
    var v := name + rest;
    assert v[0..] == v && v[0..|name|] == name && v[|name|..] == rest;
  }

  /** A single slash in front of a name is skipped. */
  lemma SegmentsSkipSlash(name: string, rest: string)
    requires IsName(name) && (rest == "" || rest[0] == '/')
    ensures Segments("/" + (name + rest)) == [name] + Segments(rest)
  {
    hide FirstNotSlash, FirstSlash;
    var w := name + rest;
    var v := "/" + w;
    NameThenSlash(name, rest);
    SlashThenName(name, w);
    assert v[1..] == w && v[1..1 + |name|] == name && v[1 + |name|..] == rest;
  }

  lemma SlashThenName(name: string, w: string)
    requires IsName(name) && name <= w
    ensures FirstNotSlash("/" + w) == 1
  {
    var v := "/" + w;
    assert v[1] == name[0] && name[0] in name;
    assert IndexOfNeitherFrom(v, '/', '\\', 1) == 1;
  }

  lemma {:induction false} SegmentsOfTail(names: seq<string>, slash: bool)
    requires AllNames(names)
    ensures Segments(Tail(names, slash)) == names + Mark(slash)
  {
    hide Segments;
    if names == [] {
      NoSegments();
      SlashIsSegment();
    } else {
      SegmentsOfTail(names[1..], slash);
      SegmentsSkipSlash(names[0], Tail(names[1..], slash));
      assert names == [names[0]] + names[1..];
    }
  }

  lemma SlashIsSegment()
    ensures Segments("/") == [""]
  {
    assert FirstNotSlash("/") == 1;
  }

  lemma TokensAfterSlash(rest: string)
    ensures Tokens("/" + rest) == ["/"] + Segments(rest)
  {
    assert ("/" + rest)[1..] == rest && ("/" + rest)[..1] == "/";
  }

  /** Reading back the text of an absolute path. */
  lemma TokensOfAbs(names: seq<string>, slash: bool)
    requires AllNames(names)
    ensures Tokens(AbsText(names, slash)) == ["/"] + names + (if names == [] then [] else Mark(slash))
  {
    hide Tokens, Segments;
    if names == [] {
      TokensAfterSlash("");
      SegmentsOfTail([], false);
      assert "/" + "" == "/";
    } else {
      var rest := names[0] + Tail(names[1..], slash);
      TokensAfterSlash(rest);
      SegmentsOfName(names[0], Tail(names[1..], slash));
      SegmentsOfTail(names[1..], slash);
      assert names == [names[0]] + names[1..];
    }
  }

  lemma TokensOfRel(names: seq<string>, slash: bool)
    requires AllNames(names) && names != []
    ensures Tokens(RelText(names, slash)) == names + Mark(slash)
  {
    hide Segments, Tail;
    var t := Tail(names[1..], slash);
    assert IsName(names[0]);
    SegmentsOfName(names[0], t);
    SegmentsOfTail(names[1..], slash);
    assert names == [names[0]] + names[1..];
    assert (names[0] + t)[0] == names[0][0] && names[0][0] in names[0];
  }

  // ----- the elements of an arbitrary text -----

  /** The first name of a text that has one. */
  lemma FirstName(v: string) returns (b: nat, e: nat)
    requires FirstNotSlash(v) < |v|
    ensures b < e <= |v| && IsName(v[b..e]) && Segments(v) == [v[b..e]] + Segments(v[e..])
    ensures b == FirstNotSlash(v) && (e < |v| ==> IsSlash(v[e]))
  {
    hide Segments, FirstSlash, FirstNotSlash;
    b := FirstNotSlash(v);
    var rest := v[b..];
    var n := FirstSlash(rest);
    e := b + n;
    assert rest[0] == v[b];
    FirstBehind(v);
    FirstSlashAfterName(v, b);
    NameBeforeSlash(rest);
    FirstCut(v, b, e);
    assert v[b..e] == rest[..n];
    if e < |v| { assert v[e] == rest[n]; }
  }

  lemma NameBeforeSlash(s: string)
    ensures '/' !in s[..FirstSlash(s)] && '\\' !in s[..FirstSlash(s)]
    ensures FirstSlash(s) < |s| ==> IsSlash(s[FirstSlash(s)])
  {
    IndexOfEitherPasses(s, '/', '\\');
  }

  lemma ShiftedSuffix(v: string, e: nat, last: string)
    requires e <= |v| && EndsWith(v[e..], last)
    ensures EndsWith(v, last)
  {
    assert v[|v| - |last|..] == v[e..][|v| - e - |last|..];
  }

  lemma NoNames()
    ensures AllNames([])
  {
  }

  lemma ConsNames(name: string, more: seq<string>)
    requires IsName(name) && AllNames(more)
    ensures AllNames([name] + more)
  {
  }

  /** Every text yields names, then the mark of a final slash. */
  lemma {:induction false} SegmentsAreNames(v: string) returns (names: seq<string>)
    ensures AllNames(names) && Segments(v) == names + Mark(EndsInSlash(v))
    ensures names != [] && !EndsInSlash(v) ==> EndsWith(v, names[|names| - 1])
    ensures names == [] && v != "" ==> EndsInSlash(v)
    ensures v != "" && !IsSlash(v[0]) ==> names != []
    decreases |v|
  {
    hide Segments, EndsWith, AllNames, FirstNotSlash;
    NoNames();
    if v == "" {
      NoSegments();
      names := [];
    } else if FirstNotSlash(v) == |v| {
      OnlySlashes(v);
      names := [];
    } else {
      var b, e := FirstName(v);
      var more := SegmentsAreNames(v[e..]);
      names := [v[b..e]] + more;
      ConsNames(v[b..e], more);
      if e == |v| {
        assert v[b..e] == v[b..];
        LastNameEnds(v, b);
        NoSegments();
      } else {
        assert v[e..][|v| - e - 1] == v[|v| - 1];
        if !EndsInSlash(v) { ShiftedSuffix(v, e, more[|more| - 1]); }
      }
    }
  }

  lemma LastNameEnds(v: string, b: nat)
    requires b < |v| && IsName(v[b..])
    ensures !EndsInSlash(v) && EndsWith(v, v[b..])
  {
    assert v[b..][|v| - b - 1] == v[|v| - 1] && v[|v| - 1] in v[b..];
  }

  // ----- doubled slashes -----

  /** A second slash in front changes nothing. */
  lemma SegmentsExtraSlash(v: string)
    requires v != "" && v[0] == '/'
    ensures Segments("/" + v) == Segments(v)
  {
    hide Segments, FirstSlash, FirstNotSlash;
    var w := "/" + v;
    assert w[1..] == v;
    var b := FirstNotSlash(v);
    ExtraSlashSearch(v);
    if b < |v| {
      assert w[b + 1..] == v[b..];
      var e := b + FirstSlash(v[b..]);
      FirstCut(v, b, e);
      FirstCut(w, b + 1, e + 1);
      assert w[b + 1..e + 1] == v[b..e] && w[e + 1..] == v[e..];
    } else {
      OnlySlashes(v);
      OnlySlashes(w);
    }
  }

  lemma ExtraSlashSearch(v: string)
    requires v != "" && v[0] == '/'
    ensures FirstNotSlash("/" + v) == 1 + FirstNotSlash(v)
  {
    assert ("/" + v)[1..] == v;
    ShiftedSearch("/" + v, 0);
  }

  lemma {:induction false} ShiftedSearch(w: string, from: nat)
    requires w != "" && from <= |w| - 1
    ensures IndexOfNeitherFrom(w, '/', '\\', from + 1) == 1 + IndexOfNeitherFrom(w[1..], '/', '\\', from)
    decreases |w| - from
  {
    if from < |w| - 1 { ShiftedSearch(w, from + 1); }
  }

  // ----- names along a path -----

  /** The names among the elements behind the root. */
  function NamesAlong(v: string): (r: seq<string>)
  {
    var ts := Segments(v);
    if ts != [] && ts[|ts| - 1] == "" then ts[..|ts| - 1] else ts
  }
}

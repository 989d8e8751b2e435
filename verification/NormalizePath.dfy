/** `uri_append` and `normalize_path` on platforms other than Windows
    (utils/src/resource_location.cpp), and what normalization means for the names of a path. */
module NormalizePath {
  import opened Basics
  import opened PathTokens

  // ----- the code -----

  /** `uri_append` */
  function Appended(uri: string, r: string): (s: string)
  {
    if uri == "" then r
    else
      var base := if uri[|uri| - 1] == '\\' then uri[..|uri| - 1] + "/"
                  else if uri[|uri| - 1] != '/' then uri + "/"
                  else uri;
      base + (if StartsWith(r, "/") then r[1..] else r)
  }

  method UriAppend(uri: string, r: string) returns (s: string)
    ensures s == Appended(uri, r)
  {
    s := uri;
    var rest := r;
    if s != "" {
      if s[|s| - 1] == '\\' {
        s := s[|s| - 1 := '/'];
        assert s == uri[..|uri| - 1] + "/";
      } else if s[|s| - 1] != '/' {
        s := s + "/";
      }
      if StartsWith(rest, "/") {
        rest := rest[1..];
      }
    }
    s := s + rest;
  }

  /** One round of the element loop. */
  function Pushed(elements: seq<string>, t: string, isFirst: bool): (r: seq<string>)
  {
    if t == "." then elements
    else if t == ".." then
      if elements == [] then [t]
      else if |elements| > 1 || (elements[0] != "/" && elements[0] != "\\") then elements[..|elements| - 1]
      else elements
    else if elements == [] && t == "" then
      if isFirst then ["/"] else elements
    else elements + [t]
  }

  function PushedAll(elements: seq<string>, ts: seq<string>, isFirst: bool): (r: seq<string>)
    decreases |ts|
  {
    if ts == [] then elements else PushedAll(Pushed(elements, ts[0], isFirst), ts[1..], false)
  }

  function AppendedAll(uri: string, elements: seq<string>): (r: string)
    decreases |elements|
  {
    if elements == [] then uri else AppendedAll(Appended(uri, elements[0]), elements[1..])
  }

  /** `normalize_path` */
  function Normalized(p: string): (r: string)
  {
    var ret := AppendedAll("", PushedAll([], Tokens(p), true));
    if EndsWith(p, "/.") || EndsWith(p, "/..") || EndsWith(p, ".") || EndsWith(p, "..")
    then Appended(ret, "") else ret
  }

  method NormalizeElements(path: string) returns (elements: seq<string>)
    ensures elements == PushedAll([], Tokens(path), true)
  {
    elements := [];
    var first := true;
    var it := new UriPathIterator(path);
    it.Next();
    while !it.ended
      invariant it.Valid()
      invariant PushedAll(elements, it.Pending(), first) == PushedAll([], Tokens(path), true)
      invariant fresh(it)
      decreases |it.Pending()|
    {
      var isFirst := first;
      first := false;
      var element := it.element;
      ghost var before, was := elements, it.Pending();
      if element == "." {
      } else if element == ".." {
        if elements == [] {
          elements := elements + [element];
        } else if |elements| > 1 || (elements[0] != "/" && elements[0] != "\\") {
          elements := elements[..|elements| - 1];
        }
      } else if elements == [] && element == "" {
        if isFirst {
          elements := elements + ["/"];
        }
      } else {
        elements := elements + [element];
      }
      assert elements == Pushed(before, element, isFirst);
      it.Next();
      assert it.Pending() == was[1..];
    }
    EmptyFlag(elements, first);
  }

  lemma EmptyFlag(elements: seq<string>, first: bool)
    ensures PushedAll(elements, [], first) == elements
  {
  }

  /** `normalize_path`: collects elements in a stack, then appends them. */
  method NormalizePathOf(origPath: string) returns (ret: string)
    ensures ret == Normalized(origPath)
  {
    var elements := NormalizeElements(origPath);
    ret := "";
    var i := 0;
    while i < |elements|
      invariant 0 <= i <= |elements|
      invariant AppendedAll(ret, elements[i..]) == AppendedAll("", elements)
    {
      assert elements[i..][1..] == elements[i + 1..];
      ret := UriAppend(ret, elements[i]);
      i := i + 1;
    }
    if EndsWith(origPath, "/.") || EndsWith(origPath, "/..") || EndsWith(origPath, ".") || EndsWith(origPath, "..") {
      ret := UriAppend(ret, "");
    }
  }

  // ----- the meaning: resolving names -----

  /** What one name does to the names before it. */
  function Stepped(stack: seq<string>, t: string, absolute: bool): (r: seq<string>)
  {
    if t == "." then stack
    else if t != ".." then stack + [t]
    else if stack != [] then stack[..|stack| - 1]
    else if absolute then stack
    else [t]
  }

  /** The names a path denotes: `.` stays, `..` goes up. An absolute path cannot go above its
      root; a relative one starts again from `..` and forgets it at the next `..`. */
  function Resolved(stack: seq<string>, names: seq<string>, absolute: bool): (r: seq<string>)
    decreases |names|
  {
    if names == [] then stack else Resolved(Stepped(stack, names[0], absolute), names[1..], absolute)
  }

  lemma ResolvedNothing(stack: seq<string>, absolute: bool)
    ensures Resolved(stack, [], absolute) == stack
  {
  }

  lemma ResolvedCons(stack: seq<string>, t: string, names: seq<string>, absolute: bool)
    ensures Resolved(stack, [t] + names, absolute) == Resolved(Stepped(stack, t, absolute), names, absolute)
  {
    assert ([t] + names)[1..] == names;
  }

  lemma ResolvedOne(stack: seq<string>, t: string, absolute: bool)
    ensures Resolved(stack, [t], absolute) == Stepped(stack, t, absolute)
  {
    ResolvedCons(stack, t, [], absolute);
    assert [t] + [] == [t];
  }

  lemma {:induction false} ResolvedAppend(stack: seq<string>, a: seq<string>, b: seq<string>, absolute: bool)
    ensures Resolved(stack, a + b, absolute) == Resolved(Resolved(stack, a, absolute), b, absolute)
    decreases |a|
  {
    hide Resolved, Stepped;
    if a == [] {
      assert a + b == b;
      ResolvedNothing(stack, absolute);
    } else {
      assert a == [a[0]] + a[1..] && a + b == [a[0]] + (a[1..] + b);
      ResolvedCons(stack, a[0], a[1..], absolute);
      ResolvedCons(stack, a[0], a[1..] + b, absolute);
      ResolvedAppend(Stepped(stack, a[0], absolute), a[1..], b, absolute);
    }
  }

  /** Names that resolving leaves alone. */
  predicate Settled(names: seq<string>, absolute: bool)
  {
    && AllNames(names)
    && forall i | 0 <= i < |names| :: names[i] != "." && (names[i] == ".." ==> i == 0 && !absolute)
  }

  lemma {:induction false} ResolvedIsSettled(stack: seq<string>, names: seq<string>, absolute: bool)
    requires Settled(stack, absolute) && AllNames(names)
    ensures Settled(Resolved(stack, names, absolute), absolute)
    decreases |names|
  {
    if names != [] { ResolvedIsSettled(Stepped(stack, names[0], absolute), names[1..], absolute); }
  }

  /** Settled names are pushed one after the other. */
  lemma {:induction false} SettledResolves(stack: seq<string>, names: seq<string>, absolute: bool)
    requires Settled(stack + names, absolute)
    ensures Resolved(stack, names, absolute) == stack + names
    decreases |names|
  {
    if names != [] {
      assert (stack + names)[|stack|] == names[0];
      assert (stack + [names[0]]) + names[1..] == stack + names;
      if names[0] == ".." {
        assert stack == [];
        assert stack + names == [names[0]] + names[1..];
        SettledResolves([names[0]], names[1..], absolute);
      } else {
        SettledResolves(stack + [names[0]], names[1..], absolute);
      }
    }
  }

  /** The stack of the code: a root element for an absolute path, then the resolved names. */
  function Root(absolute: bool): (r: seq<string>) { if absolute then ["/"] else [] }

  lemma {:induction false} StackResolves(stack: seq<string>, names: seq<string>, absolute: bool)
    requires AllNames(stack) && AllNames(names)
    ensures PushedAll(Root(absolute) + stack, names, false) == Root(absolute) + Resolved(stack, names, absolute)
    ensures AllNames(Resolved(stack, names, absolute))
    decreases |names|
  {
    if names != [] {
      hide Pushed;
      PushedName(stack, names[0], absolute, false);
      StackResolves(Stepped(stack, names[0], absolute), names[1..], absolute);
    }
  }

  lemma PushedName(stack: seq<string>, t: string, absolute: bool, isFirst: bool)
    requires AllNames(stack) && IsName(t)
    ensures Pushed(Root(absolute) + stack, t, isFirst) == Root(absolute) + Stepped(stack, t, absolute)
  {
    var e := Root(absolute) + stack;
    if t == ".." && stack != [] {
      assert e[..|e| - 1] == Root(absolute) + stack[..|stack| - 1];
      if !absolute { assert IsName(stack[0]) && e[0] == stack[0]; }
    } else if t != "." && t != ".." {
      assert e + [t] == Root(absolute) + (stack + [t]);
    }
  }

  lemma {:induction false} PushedAllSplit(elements: seq<string>, a: seq<string>, b: seq<string>, isFirst: bool)
    ensures PushedAll(elements, a + b, isFirst) == PushedAll(PushedAll(elements, a, isFirst), b, isFirst && a == [])
    decreases |a|
  {
    if a == [] {
      assert a + b == b;
    } else {
      assert (a + b)[1..] == a[1..] + b;
      PushedAllSplit(Pushed(elements, a[0], isFirst), a[1..], b, false);
    }
  }

  /** The elements collected from a list of path elements. */
  lemma ElementsOf(names: seq<string>, slash: bool, absolute: bool)
    requires AllNames(names) && (absolute || names != [])
    ensures var res := Resolved([], names, absolute);
            PushedAll([], Root(absolute) + (names + Mark(slash)), true)
            == Root(absolute) + res + (if absolute || res != [] then Mark(slash) else [])
  {
    var res := Resolved([], names, absolute);
    var ts := names + Mark(slash);
    if absolute {
      assert (["/"] + ts)[1..] == ts;
      assert Pushed([], "/", true) == ["/"];
      StackResolves([], names, true);
      assert ["/"] + [] == ["/"];
      PushedAllSplit(["/"], names, Mark(slash), false);
    } else {
      FirstFlagIrrelevant(names);
      StackResolves([], names, false);
      assert Root(false) + [] == [];
      PushedAllSplit([], names, Mark(slash), true);
      assert Root(false) + ts == ts;
    }
    PushedMark(Root(absolute) + res, slash);
  }

  /** The very first element of a non-empty path is never empty. */
  lemma FirstFlagIrrelevant(names: seq<string>)
    requires AllNames(names)
    ensures PushedAll([], names, true) == PushedAll([], names, false)
  {
    if names != [] { assert IsName(names[0]); }
  }

  lemma PushedMark(elements: seq<string>, slash: bool)
    ensures PushedAll(elements, Mark(slash), false) == elements + (if elements != [] then Mark(slash) else [])
  {
    if slash {
      assert Mark(true)[1..] == [];
    } else {
      assert elements + [] == elements;
    }
  }

  // ----- printing the elements -----

  predicate EndsPlain(uri: string)
  {
    uri != "" && !IsSlash(uri[|uri| - 1])
  }

  lemma AppendName(uri: string, name: string)
    requires IsName(name)
    ensures EndsPlain(uri) ==> Appended(uri, name) == uri + ("/" + name)
    ensures EndsWith(uri, "/") ==> Appended(uri, name) == uri + name
    ensures uri == "" ==> Appended(uri, name) == name
    ensures EndsPlain(Appended(uri, name))
  {
    assert name[0] in name && name[|name| - 1] in name;
    assert Appended(uri, name)[|Appended(uri, name)| - 1] == name[|name| - 1];
  }

  lemma {:induction false} AppendTail(uri: string, names: seq<string>, slash: bool)
    requires EndsPlain(uri) && AllNames(names)
    ensures AppendedAll(uri, names + Mark(slash)) == uri + Tail(names, slash)
    decreases |names|
  {
    if names == [] {
      assert names + Mark(slash) == Mark(slash);
      if slash { assert Mark(true)[1..] == []; }
    } else {
      AppendName(uri, names[0]);
      var next := uri + ("/" + names[0]);
      assert (names + Mark(slash))[1..] == names[1..] + Mark(slash);
      AppendTail(next, names[1..], slash);
      assert next + Tail(names[1..], slash) == uri + Tail(names, slash);
    }
  }

  /** The text of a path from its names. */
  function PathText(absolute: bool, names: seq<string>, slash: bool): (r: string)
  {
    if absolute then AbsText(names, slash) else RelText(names, slash)
  }

  lemma AppendedAllCons(uri: string, e: string, es: seq<string>)
    ensures AppendedAll(uri, [e] + es) == AppendedAll(Appended(uri, e), es)
  {
    assert ([e] + es)[1..] == es;
  }

  /** Elements after the root, or after nothing. */
  lemma PrintedNames(uri: string, names: seq<string>, slash: bool)
    requires AllNames(names) && names != [] && (uri == "" || uri == "/")
    ensures AppendedAll(uri, names + Mark(slash)) == uri + (names[0] + Tail(names[1..], slash))
  {
    hide AppendedAll, Tail;
    AppendName(uri, names[0]);
    SlashEnds("");
    assert "" + "/" == "/" && "" + names[0] == names[0];
    assert Appended(uri, names[0]) == uri + names[0];
    AppendTail(uri + names[0], names[1..], slash);
    AppendedAllCons(uri, names[0], names[1..] + Mark(slash));
    assert names + Mark(slash) == [names[0]] + (names[1..] + Mark(slash));
    assert (uri + names[0]) + Tail(names[1..], slash) == uri + (names[0] + Tail(names[1..], slash));
  }

  lemma PrintedRoot(slash: bool)
    ensures AppendedAll("/", Mark(slash)) == "/"
  {
    AppendedAllCons("/", "", []);
  }

  lemma PrintedElements(names: seq<string>, slash: bool, absolute: bool)
    requires AllNames(names)
    ensures AppendedAll("", Root(absolute) + names + (if absolute || names != [] then Mark(slash) else []))
            == PathText(absolute, names, slash)
  {
    hide AppendedAll;
    var es := names + Mark(slash);
    if absolute {
      AppendedAllCons("", "/", es);
      assert Root(true) + names + Mark(slash) == ["/"] + es;
      if names == [] {
        assert es == Mark(slash);
        PrintedRoot(slash);
      } else {
        PrintedNames("/", names, slash);
      }
    } else if names != [] {
      assert Root(false) + names + Mark(slash) == es;
      PrintedNames("", names, slash);
    } else {
      assert Root(false) + names + [] == [];
      NothingPrinted();
    }
  }

  lemma NothingPrinted()
    ensures AppendedAll("", []) == ""
  {
  }

  lemma AppendEmpty(absolute: bool, names: seq<string>, slash: bool)
    requires AllNames(names)
    ensures Appended(PathText(absolute, names, slash), "") == PathText(absolute, names, true)
  {
    if names != [] {
      LastOfText(absolute, names, slash);
      MarkedText(absolute, names);
    }
  }

  lemma MarkedText(absolute: bool, names: seq<string>)
    requires names != []
    ensures PathText(absolute, names, true) == PathText(absolute, names, false) + "/"
  {
    if absolute {
      TailWithSlash(names);
    } else {
      TailWithSlash(names[1..]);
    }
  }

  lemma {:induction false} TailWithSlash(names: seq<string>)
    ensures Tail(names, true) == Tail(names, false) + "/"
  {
    if names != [] {
      TailWithSlash(names[1..]);
      assert ("/" + (names[0] + Tail(names[1..], false))) + "/" == "/" + (names[0] + (Tail(names[1..], false) + "/"));
    }
  }

  /** What a suffix says about the end of a text. */
  lemma SuffixEnds(head: string, rest: string, suffix: string)
    requires EndsWith(rest, suffix)
    ensures EndsWith(head + rest, suffix)
  {
    var t := head + rest;
    assert t[|t| - |suffix|..] == rest[|rest| - |suffix|..];
  }

  lemma NameEndsText(head: string, name: string)
    requires IsName(name)
    ensures EndsWith(head + name, name) && EndsPlain(head + name)
  {
    var t := head + name;
    assert t[|head|..] == name && t[|t| - 1] == name[|name| - 1] && name[|name| - 1] in name;
  }

  lemma PlainKept(head: string, rest: string)
    requires EndsPlain(rest)
    ensures EndsPlain(head + rest)
  {
  }

  lemma TailOfOne(name: string)
    ensures Tail([name], false) == "/" + name && Tail([name][1..], false) == ""
  {
    assert [name][1..] == [] && name + "" == name;
  }

  /** A tail ends in its last name. */
  lemma {:induction false} LastOfTail(names: seq<string>)
    requires AllNames(names) && names != []
    ensures var t := Tail(names, false); EndsPlain(t) && EndsWith(t, names[|names| - 1])
  {
    hide EndsWith, EndsPlain, IsName;
    if |names| == 1 {
      assert names == [names[0]] && IsName(names[0]);
      TailOfOne(names[0]);
      NameEndsText("/", names[0]);
    } else {
      var rest := Tail(names[1..], false);
      LastOfTail(names[1..]);
      SuffixEnds("/" + names[0], rest, names[|names| - 1]);
      PlainKept("/" + names[0], rest);
      assert ("/" + names[0]) + rest == "/" + (names[0] + rest);
    }
  }

  /** A text with names ends in its last name, or in a slash when it is marked. */
  lemma LastOfText(absolute: bool, names: seq<string>, slash: bool)
    requires AllNames(names) && names != []
    ensures var t := PathText(absolute, names, slash);
            if slash then EndsWith(t, "/") else EndsPlain(t) && EndsWith(t, names[|names| - 1])
  {
    hide EndsWith, EndsPlain, IsName, Tail;
    if slash {
      MarkedText(absolute, names);
      SlashEnds(PathText(absolute, names, false));
    } else if absolute {
      LastOfTail(names);
    } else if |names| == 1 {
      assert names == [names[0]] && IsName(names[0]);
      TailOfOne(names[0]);
      NameEndsText("", names[0]);
      assert names[0] + "" == names[0] == "" + names[0];
    } else {
      LastOfTail(names[1..]);
      SuffixEnds(names[0], Tail(names[1..], false), names[|names| - 1]);
      PlainKept(names[0], Tail(names[1..], false));
    }
  }

  lemma SlashEnds(t: string)
    ensures EndsWith(t + "/", "/")
  {
    assert (t + "/")[|t|..] == "/";
  }
}

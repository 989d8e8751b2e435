/** Laws of path normalization: its result in terms of names, and idempotence. The only
    caller replaces every backslash before, so the paths here hold none. */
module NormalizeLaws {
  import opened Basics
  import opened PathTokens
  import opened NormalizePath

  lemma DotSuffixes(p: string)
    ensures EndsWith(p, "/.") || EndsWith(p, "/..") || EndsWith(p, ".") || EndsWith(p, "..") <==> EndsWith(p, ".")
  {
    if EndsWith(p, "/.") || EndsWith(p, "/..") || EndsWith(p, "..") {
      assert p[|p| - 1] == '.';
      assert p[|p| - 1..] == ".";
    }
  }

  /** The result for a path whose elements are known. */
  lemma NormalizedElements(p: string, names: seq<string>, slash: bool, absolute: bool)
    requires AllNames(names) && (absolute || names != [])
    requires Tokens(p) == Root(absolute) + (names + Mark(slash))
    ensures Normalized(p) == PathText(absolute, Resolved([], names, absolute), slash || EndsWith(p, "."))
    ensures AllNames(Resolved([], names, absolute))
  {
    hide AppendedAll, PushedAll, Tokens, PathText, EndsWith, Appended;
    var res := Resolved([], names, absolute);
    StackResolves([], names, absolute);
    ElementsOf(names, slash, absolute);
    PrintedElements(res, slash, absolute);
    AppendEmpty(absolute, res, slash);
    DotSuffixes(p);
  }

  /** The elements of a path without backslashes. */
  lemma ElementsOfPath(p: string) returns (names: seq<string>, slash: bool, absolute: bool)
    requires p != "" && '\\' !in p
    ensures absolute == (p[0] == '/')
    ensures AllNames(names) && (absolute || names != [])
    ensures Tokens(p) == Root(absolute) + (names + Mark(slash))
    ensures slash ==> EndsWith(p, "/")
    ensures !slash && names != [] ==> EndsWith(p, names[|names| - 1])
    ensures !slash && names == [] ==> p == "/"
    ensures |p| > 1 ==> slash == EndsWith(p, "/")
  {
    hide Segments;
    assert p[0] in p;
    absolute := p[0] == '/';
    var v := if absolute then p[1..] else p;
    names := SegmentsAreNames(v);
    slash := EndsInSlash(v);
    if v != "" {
      assert v[|v| - 1] == p[|p| - 1] && p[|p| - 1] in p;
      assert p[|p| - 1..] == [p[|p| - 1]];
      if !slash && absolute { ShiftedSuffix(p, 1, names[|names| - 1]); }
    }
    assert absolute ==> p[..1] == "/";
    assert Root(absolute) + (names + Mark(slash)) == Root(absolute) + Segments(v);
  }

  lemma {:induction false} ResolvedLast(stack: seq<string>, names: seq<string>, absolute: bool)
    requires names != [] && names[|names| - 1] != "." && names[|names| - 1] != ".."
    ensures var res := Resolved(stack, names, absolute); res != [] && res[|res| - 1] == names[|names| - 1]
    decreases |names|
  {
    if |names| > 1 {
      ResolvedLast(Stepped(stack, names[0], absolute), names[1..], absolute);
    } else {
      assert names[1..] == [];
    }
  }

  // ----- the rules of resolving -----
  //
  // Together with `SettledResolves` they determine the result for every list of names.

  /** A `.` has no effect anywhere. */
  lemma DotDropped(a: seq<string>, b: seq<string>, absolute: bool)
    ensures Resolved([], a + ["."] + b, absolute) == Resolved([], a + b, absolute)
  {
    hide Resolved;
    ResolvedAppend([], a + ["."], b, absolute);
    ResolvedAppend([], a, ["."], absolute);
    ResolvedAppend([], a, b, absolute);
    ResolvedOne(Resolved([], a, absolute), ".", absolute);
  }

  /** A name and the `..` behind it cancel each other. */
  lemma NameCancelled(a: seq<string>, t: string, b: seq<string>, absolute: bool)
    requires t != "." && t != ".."
    ensures Resolved([], a + [t, ".."] + b, absolute) == Resolved([], a + b, absolute)
  {
    hide Resolved;
    var stack := Resolved([], a, absolute);
    ResolvedAppend([], a + [t, ".."], b, absolute);
    ResolvedAppend([], a, [t, ".."], absolute);
    ResolvedAppend([], a, b, absolute);
    assert [t, ".."] == [t] + [".."];
    ResolvedCons(stack, t, [".."], absolute);
    ResolvedOne(stack + [t], "..", absolute);
    assert (stack + [t])[..|stack|] == stack;
  }

  /** In front of an absolute path `..` has no effect; in front of a relative one it stays, but two
      of them cancel each other. */
  lemma DotsInFront(b: seq<string>)
    ensures Resolved([], [".."] + b, true) == Resolved([], b, true)
    ensures Resolved([], ["..", ".."] + b, false) == Resolved([], b, false)
    ensures Resolved([], [".."], false) == [".."]
  {
    hide Resolved;
    ResolvedCons([], "..", b, true);
    assert ["..", ".."] + b == [".."] + ([".."] + b);
    ResolvedCons([], "..", [".."] + b, false);
    ResolvedCons([".."], "..", b, false);
    ResolvedOne([], "..", false);
    assert [".."][..0] == [];
  }

  /** A list of names as normalization leaves it: settled, and with a final slash whenever the
      last name ends in a dot. */
  ghost predicate NormalNames(names: seq<string>, slash: bool, absolute: bool)
  {
    && Settled(names, absolute)
    && (names == [] || slash || !EndsWith(names[|names| - 1], "."))
  }

  lemma EndsInDot(t: string, suffix: string)
    requires EndsWith(t, suffix) && suffix != ""
    ensures EndsWith(t, ".") <==> EndsWith(suffix, ".")
  {
    assert t[|t| - 1] == suffix[|suffix| - 1];
    assert t[|t| - 1..] == [t[|t| - 1]] && suffix[|suffix| - 1..] == [suffix[|suffix| - 1]];
  }

  lemma DotsEndInDot(name: string)
    requires !EndsWith(name, ".")
    ensures name != "." && name != ".."
  {
  }

  /** A last name that does not end in a dot survives as the last name. */
  lemma LastNameSurvives(names: seq<string>, absolute: bool)
    requires names != [] && !EndsWith(names[|names| - 1], ".")
    ensures var res := Resolved([], names, absolute); res != [] && !EndsWith(res[|res| - 1], ".")
  {
    DotsEndInDot(names[|names| - 1]);
    ResolvedLast([], names, absolute);
  }

  /** Every normalized path is the text of normal names; it is absolute when the path was. */
  lemma NormalizedIsNormal(p: string) returns (names: seq<string>, slash: bool)
    requires p != "" && '\\' !in p
    ensures NormalNames(names, slash, p[0] == '/')
    ensures Normalized(p) == PathText(p[0] == '/', names, slash)
  {
    hide Normalized, PathText, Tokens, Resolved, EndsWith, AllNames;
    var raw, mark, absolute := ElementsOfPath(p);
    NormalizedElements(p, raw, mark, absolute);
    names, slash := Resolved([], raw, absolute), mark || EndsWith(p, ".");
    EmptySettled(absolute);
    ResolvedIsSettled([], raw, absolute);
    if !slash {
      if raw == [] {
        ResolvedNothing([], absolute);
      } else {
        var last := raw[|raw| - 1];
        NamesNonEmpty(raw);
        EndsInDot(p, last);
        LastNameSurvives(raw, absolute);
      }
    }
  }

  lemma EmptySettled(absolute: bool)
    ensures Settled([], absolute)
  {
  }

  lemma NamesNonEmpty(names: seq<string>)
    requires AllNames(names) && names != []
    ensures names[|names| - 1] != ""
  {
    assert IsName(names[|names| - 1]);
  }

  lemma RootStays()
    ensures Normalized("/") == "/"
  {
    hide Tokens, Normalized, Resolved;
    TokensOfAbs([], false);
    assert Root(true) + ([] + Mark(false)) == ["/"] + [] + [];
    NormalizedElements("/", [], false, true);
    ResolvedNothing([], true);
  }

  lemma EmptyTexts(slash: bool)
    ensures AbsText([], slash) == "/" && RelText([], slash) == ""
  {
  }

  lemma TokensOfText(absolute: bool, names: seq<string>, slash: bool)
    requires AllNames(names) && names != []
    ensures Tokens(PathText(absolute, names, slash)) == Root(absolute) + (names + Mark(slash))
  {
    hide Tokens, AbsText, RelText;
    if absolute {
      TokensOfAbs(names, slash);
    } else {
      TokensOfRel(names, slash);
      assert [] + (names + Mark(slash)) == names + Mark(slash);
    }
  }

  /** The text of normal names is normalized already. */
  lemma NormalTextStays(names: seq<string>, slash: bool, absolute: bool)
    requires NormalNames(names, slash, absolute)
    ensures Normalized(PathText(absolute, names, slash)) == PathText(absolute, names, slash)
  {
    hide Tokens, Normalized, EndsWith, AbsText, RelText;
    var t := PathText(absolute, names, slash);
    SettledResolves([], names, absolute);
    assert [] + names == names;
    if names == [] {
      if absolute { RootStays(); } else { NormalizedOfEmpty(); }
      EmptyTexts(slash);
    } else {
      TokensOfText(absolute, names, slash);
      NormalizedElements(t, names, slash, absolute);
      LastOfText(absolute, names, slash);
      EndsInDot(t, if slash then "/" else names[|names| - 1]);
    }
  }

  lemma NormalizedOfEmpty()
    ensures Normalized("") == ""
  {
  }

  /** Normalizing a normalized path changes nothing. */
  lemma NormalizedTwice(p: string)
    requires '\\' !in p
    ensures Normalized(Normalized(p)) == Normalized(p)
  {
    if p == "" {
      NormalizedOfEmpty();
    } else {
      var names, slash := NormalizedIsNormal(p);
      NormalTextStays(names, slash, p[0] == '/');
    }
  }
}

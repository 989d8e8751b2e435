/** Optional values, and the string searches of `std::string_view`. A search that finds
    nothing yields the length of the text, the index just past its end. Characters of a
    `string` stand for the bytes of a C++ `char` sequence. */
module Basics {

  datatype Option<+T> = None | Some(value: T)

  /** `find(c)` */
  function IndexOf(s: string, c: char): (i: nat)
    ensures i <= |s| && (i < |s| ==> s[i] == c)
  {
    IndexFrom(s, c, c, 0)
  }

  /** `find_first_of` with a set of two characters. */
  function IndexOfEither(s: string, c: char, d: char): (i: nat)
    ensures i <= |s| && (i < |s| ==> s[i] == c || s[i] == d)
  {
    IndexFrom(s, c, d, 0)
  }

  function IndexFrom(s: string, c: char, d: char, from: nat): (i: nat)
    requires from <= |s|
    ensures from <= i <= |s| && (i < |s| ==> s[i] == c || s[i] == d)
    decreases |s| - from
  {
    if from == |s| || s[from] == c || s[from] == d then from else IndexFrom(s, c, d, from + 1)
  }

  /** `find_first_not_of` with a set of two characters. */
  function IndexOfNeither(s: string, c: char, d: char): (i: nat)
    ensures i <= |s| && (i < |s| ==> s[i] != c && s[i] != d)
  {
    IndexOfNeitherFrom(s, c, d, 0)
  }

  function IndexOfNeitherFrom(s: string, c: char, d: char, from: nat): (i: nat)
    requires from <= |s|
    ensures from <= i <= |s| && (i < |s| ==> s[i] != c && s[i] != d)
    decreases |s| - from
  {
    if from == |s| || (s[from] != c && s[from] != d) then from else IndexOfNeitherFrom(s, c, d, from + 1)
  }

  /** `rfind(c)` */
  function LastIndexOf(s: string, c: char): (i: nat)
    ensures i <= |s| && (i < |s| ==> s[i] == c)
  {
    LastIndexBefore(s, c, |s|)
  }

  function LastIndexBefore(s: string, c: char, end: nat): (i: nat)
    requires end <= |s|
    ensures i < end || i == |s|
    ensures i < |s| ==> s[i] == c
  {
    if end == 0 then |s|
    else if s[end - 1] == c then end - 1
    else LastIndexBefore(s, c, end - 1)
  }

  // What the searches pass over.

  lemma {:induction false} PassedOver(s: string, c: char, d: char, from: nat)
    requires from <= |s|
    ensures forall j | from <= j < IndexFrom(s, c, d, from) :: s[j] != c && s[j] != d
    decreases |s| - from
  {
    if from < |s| && s[from] != c && s[from] != d { PassedOver(s, c, d, from + 1); }
  }

  lemma IndexOfPasses(s: string, c: char)
    ensures c !in s[..IndexOf(s, c)]
  {
    PassedOver(s, c, c, 0);
  }

  lemma IndexOfEitherPasses(s: string, c: char, d: char)
    ensures c !in s[..IndexOfEither(s, c, d)] && d !in s[..IndexOfEither(s, c, d)]
  {
    PassedOver(s, c, d, 0);
  }

  lemma {:induction false} PassedOverNeither(s: string, c: char, d: char, from: nat)
    requires from <= |s|
    ensures forall j | from <= j < IndexOfNeitherFrom(s, c, d, from) :: s[j] == c || s[j] == d
    decreases |s| - from
  {
    if from < |s| && (s[from] == c || s[from] == d) { PassedOverNeither(s, c, d, from + 1); }
  }

  lemma {:induction false} PassedOverLast(s: string, c: char, end: nat)
    requires end <= |s|
    ensures var i := LastIndexBefore(s, c, end);
            forall j | 0 <= j < end && s[j] == c :: i < end && j <= i
  {
    if end > 0 && s[end - 1] != c { PassedOverLast(s, c, end - 1); }
  }

  lemma LastIndexOfPasses(s: string, c: char)
    ensures var i := LastIndexOf(s, c); if i < |s| then c !in s[i + 1..] else c !in s
  {
    PassedOverLast(s, c, |s|);
  }

  predicate StartsWith(s: string, p: string) { p <= s }

  predicate EndsWith(s: string, suffix: string)
  {
    |suffix| <= |s| && s[|s| - |suffix|..] == suffix
  }

  // A first or last occurrence is determined by what it separates.

  lemma {:induction false} FirstAt(s: string, c: char, d: char, from: nat, n: nat)
    requires from <= n < |s| && (s[n] == c || s[n] == d)
    requires forall j | from <= j < n :: s[j] != c && s[j] != d
    ensures IndexFrom(s, c, d, from) == n
    decreases n - from
  {
    if from < n { FirstAt(s, c, d, from + 1, n); }
  }

  lemma {:induction false} NoneFrom(s: string, c: char, d: char, from: nat)
    requires from <= |s| && c !in s && d !in s
    ensures IndexFrom(s, c, d, from) == |s|
    decreases |s| - from
  {
    if from < |s| { NoneFrom(s, c, d, from + 1); }
  }

  lemma {:induction false} LastAt(s: string, c: char, end: nat, n: nat)
    requires n < end <= |s| && s[n] == c && forall j | n < j < end :: s[j] != c
    ensures LastIndexBefore(s, c, end) == n
    decreases end
  {
    if n < end - 1 { LastAt(s, c, end - 1, n); }
  }

  lemma IndexOfSplit(a: string, c: char, b: string)
    requires c !in a
    ensures IndexOf(a + [c] + b, c) == |a|
  {
    var s := a + [c] + b;
    assert s[|a|] == c;
    assert forall j | 0 <= j < |a| :: s[j] == a[j];
    FirstAt(s, c, c, 0, |a|);
  }

  lemma IndexOfAbsent(a: string, c: char)
    requires c !in a
    ensures IndexOf(a, c) == |a|
  {
    NoneFrom(a, c, c, 0);
  }

  lemma IndexOfEitherSplit(a: string, c: char, d: char, x: char, b: string)
    requires c !in a && d !in a && (x == c || x == d)
    ensures IndexOfEither(a + [x] + b, c, d) == |a|
  {
    var s := a + [x] + b;
    assert s[|a|] == x;
    assert forall j | 0 <= j < |a| :: s[j] == a[j];
    FirstAt(s, c, d, 0, |a|);
  }

  lemma IndexOfEitherAbsent(a: string, c: char, d: char)
    requires c !in a && d !in a
    ensures IndexOfEither(a, c, d) == |a|
  {
    NoneFrom(a, c, d, 0);
  }

  lemma LastIndexOfSplit(a: string, c: char, b: string)
    requires c !in b
    ensures LastIndexOf(a + [c] + b, c) == |a|
  {
    var s := a + [c] + b;
    assert s[|a|] == c;
    assert forall j | |a| < j < |s| :: s[j] == b[j - |a| - 1];
    LastAt(s, c, |s|, |a|);
  }

  lemma LastIndexOfAbsent(a: string, c: char)
    requires c !in a
    ensures LastIndexOf(a, c) == |a|
  {
  }
}

/** The conversion of texts that need not be well-formed UTF-8
    (language_server/src/pseudo_convertors.cpp). */
module CharsetReadings {
  import opened Basics
  import opened Utf8
  import opened CharsetTables
  import opened Charset
  import opened Readings

  /** Every character is substituted, every stray byte stays. */
  function ConvertedPieces(p: seq<Conversion>, ps: seq<Piece>): (qs: seq<Piece>)
    ensures |qs| == |ps|
  {
    seq(|ps|, i requires 0 <= i < |ps| =>
      if ps[i].Character? then Character(if Find(p, ps[i].c).Some? then Find(p, ps[i].c).value else ps[i].c) else ps[i])
  }

  lemma {:induction false} StrayMatchesNothing(p: seq<Conversion>, s: Bytes)
    requires StartsNothing(s)
    ensures MatchAt(p, s) == None
  {
    if p != [] { StrayMatchesNothing(p[1..], s); }
  }

  /** On arbitrary bytes the loop substitutes the characters and copies the bytes in between. */
  lemma {:induction false} ConvertedReads(p: seq<Conversion>, ps: seq<Piece>, s: Bytes)
    requires Reading(ps, s)
    ensures Converted(p, s) == Spelled(ConvertedPieces(p, ps))
    decreases ps
  {
    hide EncodeScalar, CharLen, Spelled, Reading, StartsNothing, Converted, MatchAt, Find;
    var qs := ConvertedPieces(p, ps);
    SpelledEmpty(ps, s);
    if ps == [] {
      NothingMore(p);
      NothingSpelled(qs);
    } else {
      var rest := Spelled(ps[1..]);
      ReadingRest(ps, s);
      FrontOfReading(ps, s);
      ConvertedReads(p, ps[1..], rest);
      assert qs[1..] == ConvertedPieces(p, ps[1..]);
      SpelledFirst(qs);
      match ps[0]
      case Character(c) => OneConverted(p, c, rest);
      case Stray(b) =>
        StrayMatchesNothing(p, s);
        UnmatchedByte(p, s);
    }
  }

  lemma NothingSpelled(qs: seq<Piece>)
    requires qs == []
    ensures Spelled(qs) == []
  {
  }
}

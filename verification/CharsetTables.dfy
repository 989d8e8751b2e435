/** The EBCDIC code pages of the repository as tables, and the conversions generated from them
    (language_server/src/pseudo_convertors.cpp). */
module CharsetTables {
  import opened Basics
  import opened Utf8

  /** A table entry: every one of them is a scalar value below the surrogates. */
  type CodeUnit = c: int | 0 <= c < 0xD800

  /** `pseudo_charsets` */
  datatype Charset = Ibm1148 | Ibm1143 | Ibm278

  /** `ibm1148_charset`, one row of sixteen at a time. */
  function Row1148(r: nat): (row: seq<CodeUnit>)
    requires r < 16
    ensures |row| == 16
  {
    match r
    case 0 => [0x00, 0x01, 0x02, 0x03, 0x9C, 0x09, 0x86, 0x7F, 0x97, 0x8D, 0x8E, 0x0B, 0x0C, 0x0D, 0x0E, 0x0F]
    case 1 => [0x10, 0x11, 0x12, 0x13, 0x9D, 0x85, 0x08, 0x87, 0x18, 0x19, 0x92, 0x8F, 0x1C, 0x1D, 0x1E, 0x1F]
    case 2 => [0x80, 0x81, 0x82, 0x83, 0x84, 0x0A, 0x17, 0x1B, 0x88, 0x89, 0x8A, 0x8B, 0x8C, 0x05, 0x06, 0x07]
    case 3 => [0x90, 0x91, 0x16, 0x93, 0x94, 0x95, 0x96, 0x04, 0x98, 0x99, 0x9A, 0x9B, 0x14, 0x15, 0x9E, 0x1A]
    case 4 => [0x20, 0xA0, 0xE2, 0xE4, 0xE0, 0xE1, 0xE3, 0xE5, 0xE7, 0xF1, 0x5B, 0x2E, 0x3C, 0x28, 0x2B, 0x21]
    case 5 => [0x26, 0xE9, 0xEA, 0xEB, 0xE8, 0xED, 0xEE, 0xEF, 0xEC, 0xDF, 0x5D, 0x24, 0x2A, 0x29, 0x3B, 0x5E]
    case 6 => [0x2D, 0x2F, 0xC2, 0xC4, 0xC0, 0xC1, 0xC3, 0xC5, 0xC7, 0xD1, 0xA6, 0x2C, 0x25, 0x5F, 0x3E, 0x3F]
    case 7 => [0xF8, 0xC9, 0xCA, 0xCB, 0xC8, 0xCD, 0xCE, 0xCF, 0xCC, 0x60, 0x3A, 0x23, 0x40, 0x27, 0x3D, 0x22]
    case 8 => [0xD8, 0x61, 0x62, 0x63, 0x64, 0x65, 0x66, 0x67, 0x68, 0x69, 0xAB, 0xBB, 0xF0, 0xFD, 0xFE, 0xB1]
    case 9 => [0xB0, 0x6A, 0x6B, 0x6C, 0x6D, 0x6E, 0x6F, 0x70, 0x71, 0x72, 0xAA, 0xBA, 0xE6, 0xB8, 0xC6, 0x20AC]
    case 10 => [0xB5, 0x7E, 0x73, 0x74, 0x75, 0x76, 0x77, 0x78, 0x79, 0x7A, 0xA1, 0xBF, 0xD0, 0xDD, 0xDE, 0xAE]
    case 11 => [0xA2, 0xA3, 0xA5, 0xB7, 0xA9, 0xA7, 0xB6, 0xBC, 0xBD, 0xBE, 0xAC, 0x7C, 0xAF, 0xA8, 0xB4, 0xD7]
    case 12 => [0x7B, 0x41, 0x42, 0x43, 0x44, 0x45, 0x46, 0x47, 0x48, 0x49, 0xAD, 0xF4, 0xF6, 0xF2, 0xF3, 0xF5]
    case 13 => [0x7D, 0x4A, 0x4B, 0x4C, 0x4D, 0x4E, 0x4F, 0x50, 0x51, 0x52, 0xB9, 0xFB, 0xFC, 0xF9, 0xFA, 0xFF]
    case 14 => [0x5C, 0xF7, 0x53, 0x54, 0x55, 0x56, 0x57, 0x58, 0x59, 0x5A, 0xB2, 0xD4, 0xD6, 0xD2, 0xD3, 0xD5]
    case _ => [0x30, 0x31, 0x32, 0x33, 0x34, 0x35, 0x36, 0x37, 0x38, 0x39, 0xB3, 0xDB, 0xDC, 0xD9, 0xDA, 0x9F]
  }

  /** `ibm1143_charset` and `ibm278_charset`: the same rows but for the entry 0x5A, the euro sign in
      one and the currency sign in the other. */
  function RowNordic(euro: CodeUnit, r: nat): (row: seq<CodeUnit>)
    requires r < 16
    ensures |row| == 16
  {
    match r
    case 0 => [0x00, 0x01, 0x02, 0x03, 0x9C, 0x09, 0x86, 0x7F, 0x97, 0x8D, 0x8E, 0x0B, 0x0C, 0x0D, 0x0E, 0x0F]
    case 1 => [0x10, 0x11, 0x12, 0x13, 0x9D, 0x85, 0x08, 0x87, 0x18, 0x19, 0x92, 0x8F, 0x1C, 0x1D, 0x1E, 0x1F]
    case 2 => [0x80, 0x81, 0x82, 0x83, 0x84, 0x0A, 0x17, 0x1B, 0x88, 0x89, 0x8A, 0x8B, 0x8C, 0x05, 0x06, 0x07]
    case 3 => [0x90, 0x91, 0x16, 0x93, 0x94, 0x95, 0x96, 0x04, 0x98, 0x99, 0x9A, 0x9B, 0x14, 0x15, 0x9E, 0x1A]
    case 4 => [0x20, 0xA0, 0xE2, 0x7B, 0xE0, 0xE1, 0xE3, 0x7D, 0xE7, 0xF1, 0xA7, 0x2E, 0x3C, 0x28, 0x2B, 0x21]
    case 5 => [0x26, 0x60, 0xEA, 0xEB, 0xE8, 0xED, 0xEE, 0xEF, 0xEC, 0xDF, euro, 0xC5, 0x2A, 0x29, 0x3B, 0x5E]
    case 6 => [0x2D, 0x2F, 0xC2, 0x23, 0xC0, 0xC1, 0xC3, 0x24, 0xC7, 0xD1, 0xF6, 0x2C, 0x25, 0x5F, 0x3E, 0x3F]
    case 7 => [0xF8, 0x5C, 0xCA, 0xCB, 0xC8, 0xCD, 0xCE, 0xCF, 0xCC, 0xE9, 0x3A, 0xC4, 0xD6, 0x27, 0x3D, 0x22]
    case 8 => [0xD8, 0x61, 0x62, 0x63, 0x64, 0x65, 0x66, 0x67, 0x68, 0x69, 0xAB, 0xBB, 0xF0, 0xFD, 0xFE, 0xB1]
    case 9 => [0xB0, 0x6A, 0x6B, 0x6C, 0x6D, 0x6E, 0x6F, 0x70, 0x71, 0x72, 0xAA, 0xBA, 0xE6, 0xB8, 0xC6, 0x5D]
    case 10 => [0xB5, 0xFC, 0x73, 0x74, 0x75, 0x76, 0x77, 0x78, 0x79, 0x7A, 0xA1, 0xBF, 0xD0, 0xDD, 0xDE, 0xAE]
    case 11 => [0xA2, 0xA3, 0xA5, 0xB7, 0xA9, 0x5B, 0xB6, 0xBC, 0xBD, 0xBE, 0xAC, 0x7C, 0xAF, 0xA8, 0xB4, 0xD7]
    case 12 => [0xE4, 0x41, 0x42, 0x43, 0x44, 0x45, 0x46, 0x47, 0x48, 0x49, 0xAD, 0xF4, 0xA6, 0xF2, 0xF3, 0xF5]
    case 13 => [0xE5, 0x4A, 0x4B, 0x4C, 0x4D, 0x4E, 0x4F, 0x50, 0x51, 0x52, 0xB9, 0xFB, 0x7E, 0xF9, 0xFA, 0xFF]
    case 14 => [0xC9, 0xF7, 0x53, 0x54, 0x55, 0x56, 0x57, 0x58, 0x59, 0x5A, 0xB2, 0xD4, 0x40, 0xD2, 0xD3, 0xD5]
    case _ => [0x30, 0x31, 0x32, 0x33, 0x34, 0x35, 0x36, 0x37, 0x38, 0x39, 0xB3, 0xDB, 0xDC, 0xD9, 0xDA, 0x9F]
  }

  function Row(cs: Charset, r: nat): (row: seq<CodeUnit>)
    requires r < 16
    ensures |row| == 16
  {
    match cs
    case Ibm1148 => Row1148(r)
    case Ibm1143 => RowNordic(0x20AC, r)
    case Ibm278 => RowNordic(0xA4, r)
  }

  /** The first rows of a table. */
  function Rows(cs: Charset, n: nat): (t: seq<CodeUnit>)
    requires n <= 16
    ensures |t| == 16 * n
  {
    if n == 0 then [] else Rows(cs, n - 1) + Row(cs, n - 1)
  }

  function Table(cs: Charset): (t: seq<CodeUnit>)
    ensures |t| == 256
  {
    Rows(cs, 16)
  }

  // ----- conversions -----

  type Conversion = (CodeUnit, CodeUnit)

  function PairOf(b: CodeUnit, d: CodeUnit): (r: seq<Conversion>)
  {
    if b == d then [] else [(b, d)]
  }

  /** The places among the first `k` where the tables differ. */
  function PairsTo(f: seq<CodeUnit>, t: seq<CodeUnit>, k: nat): (r: seq<Conversion>)
    requires k <= |f| == |t|
  {
    if k == 0 then [] else PairsTo(f, t, k - 1) + PairOf(f[k - 1], t[k - 1])
  }

  function Pairs(f: seq<CodeUnit>, t: seq<CodeUnit>): (r: seq<Conversion>)
    requires |f| == |t|
  {
    PairsTo(f, t, |f|)
  }

  /** `generate_conversions` */
  method GenerateConversions(f: seq<CodeUnit>, t: seq<CodeUnit>) returns (result: seq<Conversion>)
    requires |f| == |t|
    ensures result == Pairs(f, t)
  {
    result := [];
    for k := 0 to |f|
      invariant result == PairsTo(f, t, k)
    {
      if f[k] == t[k] {
        assert PairsTo(f, t, k) + [] == PairsTo(f, t, k);
        continue;
      }
      result := result + [(f[k], t[k])];
    }
  }

  /** `unique_utf8_prefixes` and `enumerate_unique_prefixes`: the first bytes of the entries that
      are converted. */
  method EnumerateUniquePrefixes(f: seq<CodeUnit>, t: seq<CodeUnit>) returns (result: seq<Byte>)
    requires |f| == |t|
    ensures forall b: Byte :: b in result <==> exists i | 0 <= i < |f| :: f[i] != t[i] && EncodeScalar(f[i])[0] == b
  {
    var indicators := new bool[256](_ => false);
    for k := 0 to |f|
      invariant forall b | 0 <= b < 256 ::
                  indicators[b] <==> exists i | 0 <= i < k :: f[i] != t[i] && EncodeScalar(f[i])[0] == b
    {
      if f[k] == t[k] {
        continue;
      }
      indicators[EncodeScalar(f[k])[0]] := true;
    }
    result := [];
    for b := 0 to 256
      invariant forall c: Byte :: c in result <==> c < b && indicators[c]
    {
      if indicators[b] {
        result := result + [b];
      }
    }
  }

  /** The value a list of conversions has for a code point: the first match counts. */
  function Find(p: seq<Conversion>, c: Scalar): (r: Option<CodeUnit>)
  {
    if p == [] then None else if p[0].0 == c then Some(p[0].1) else Find(p[1..], c)
  }

  function Swapped(p: seq<Conversion>): (r: seq<Conversion>)
    ensures |r| == |p|
  {
    seq(|p|, i requires 0 <= i < |p| => (p[i].1, p[i].0))
  }

  lemma {:induction false} FindSplit(a: seq<Conversion>, b: seq<Conversion>, c: Scalar)
    ensures Find(a + b, c) == if Find(a, c).Some? then Find(a, c) else Find(b, c)
  {
    if a == [] {
      assert a + b == b;
    } else {
      assert (a + b)[1..] == a[1..] + b;
      FindSplit(a[1..], b, c);
    }
  }

  lemma PairsOnce(f: seq<CodeUnit>, t: seq<CodeUnit>, k: nat)
    requires k < |f| == |t|
    ensures PairsTo(f, t, k + 1) == PairsTo(f, t, k) + PairOf(f[k], t[k])
  {
  }

  lemma Regrouped(x: seq<Conversion>, y: seq<Conversion>, z: seq<Conversion>)
    ensures (x + y) + z == x + (y + z)
  {
  }

  lemma {:induction false} PairsFrom(f: seq<CodeUnit>, t: seq<CodeUnit>, n: nat, k: nat)
    requires n + k <= |f| == |t|
    ensures PairsTo(f, t, n + k) == PairsTo(f, t, n) + PairsTo(f[n..], t[n..], k)
    decreases k
  {
    if k > 0 {
      PairsFrom(f, t, n, k - 1);
      PairsOnce(f, t, n + k - 1);
      PairsOnce(f[n..], t[n..], k - 1);
      hide PairsTo, PairOf;
      Regrouped(PairsTo(f, t, n), PairsTo(f[n..], t[n..], k - 1), PairOf(f[n + k - 1], t[n + k - 1]));
    }
  }

  lemma PairsSplit(a: seq<CodeUnit>, b: seq<CodeUnit>, c: seq<CodeUnit>, d: seq<CodeUnit>, k: nat)
    requires |a| == |c| && k <= |b| == |d|
    ensures PairsTo(a + b, c + d, |a| + k) == PairsTo(a, c, |a|) + PairsTo(b, d, k)
  {
    hide PairsTo;
    PairsFrom(a + b, c + d, |a|, k);
    PairsPrefix(a, b, c, d, |a|);
    assert (a + b)[|a|..] == b && (c + d)[|a|..] == d;
  }

  lemma {:induction false} PairsPrefix(a: seq<CodeUnit>, b: seq<CodeUnit>, c: seq<CodeUnit>, d: seq<CodeUnit>, k: nat)
    requires |a| == |c| && k <= |a| && |b| == |d|
    ensures PairsTo(a + b, c + d, k) == PairsTo(a, c, k)
  {
    if k > 0 {
      PairsPrefix(a, b, c, d, k - 1);
      assert (a + b)[k - 1] == a[k - 1] && (c + d)[k - 1] == c[k - 1];
    }
  }

  // ----- the conversions of the two Nordic pages -----

  /** The entries of row `r` that differ from IBM-1148. */
  function RowExchanges(euro: CodeUnit, r: nat): (p: seq<Conversion>)
  {
    match r
    case 4 => [(0x7B, 0xE4), (0x7D, 0xE5), (0xA7, 0x5B)]
    case 5 => [(0x60, 0xE9), (euro, 0x5D), (0xC5, 0x24)]
    case 6 => [(0x23, 0xC4), (0x24, 0xC5), (0xF6, 0xA6)]
    case 7 => [(0x5C, 0xC9), (0xE9, 0x60), (0xC4, 0x23), (0xD6, 0x40)]
    case 9 => [(0x5D, 0x20AC)]
    case 10 => [(0xFC, 0x7E)]
    case 11 => [(0x5B, 0xA7)]
    case 12 => [(0xE4, 0x7B), (0xA6, 0xF6)]
    case 13 => [(0xE5, 0x7D), (0x7E, 0xFC)]
    case 14 => [(0xC9, 0x5C), (0x40, 0xD6)]
    case _ => []
  }

  // Place `k` uses up the next conversion of `p` if the tables differ there; a place that does not
  // fit uses up more than there are.
  function Used(f: seq<CodeUnit>, t: seq<CodeUnit>, p: seq<Conversion>, k: nat, m: nat): (r: nat)
    requires k < |f| == |t|
  {
    if f[k] == t[k] then m
    else if m < |p| && p[m].0 == f[k] && p[m].1 == t[k] then m + 1
    else |p| + 1
  }

  /** Four neighbouring places. */
  function UsedByQuad(f: seq<CodeUnit>, t: seq<CodeUnit>, p: seq<Conversion>, k: nat, m: nat): (r: nat)
    requires k + 4 <= |f| == |t|
  {
    Used(f, t, p, k + 3, Used(f, t, p, k + 2, Used(f, t, p, k + 1, Used(f, t, p, k, m))))
  }

  function UsedByRow(f: seq<CodeUnit>, t: seq<CodeUnit>, p: seq<Conversion>): (r: nat)
    requires |f| == |t| == 16
  {
    UsedByQuad(f, t, p, 12, UsedByQuad(f, t, p, 8, UsedByQuad(f, t, p, 4, UsedByQuad(f, t, p, 0, 0))))
  }

  /** What has been used up are the pairs of the places so far. */
  predicate Uses(f: seq<CodeUnit>, t: seq<CodeUnit>, p: seq<Conversion>, k: nat, m: nat)
    requires k <= |f| == |t|
  {
    m <= |p| ==> PairsTo(f, t, k) == p[..m]
  }

  lemma UsedStep(f: seq<CodeUnit>, t: seq<CodeUnit>, p: seq<Conversion>, k: nat, m: nat)
    requires k < |f| == |t| && Uses(f, t, p, k, m)
    ensures Uses(f, t, p, k + 1, Used(f, t, p, k, m))
  {
    if m < |p| { assert p[..m + 1] == p[..m] + [p[m]]; }
  }

  lemma UsedQuadStep(f: seq<CodeUnit>, t: seq<CodeUnit>, p: seq<Conversion>, k: nat, m: nat)
    requires k + 4 <= |f| == |t| && Uses(f, t, p, k, m)
    ensures Uses(f, t, p, k + 4, UsedByQuad(f, t, p, k, m))
  {
    hide Uses, Used;
    var m1 := Used(f, t, p, k, m);
    var m2 := Used(f, t, p, k + 1, m1);
    UsedStep(f, t, p, k, m);
    UsedStep(f, t, p, k + 1, m1);
    UsedStep(f, t, p, k + 2, m2);
    UsedStep(f, t, p, k + 3, Used(f, t, p, k + 2, m2));
  }

  lemma UsedUp(f: seq<CodeUnit>, t: seq<CodeUnit>, p: seq<Conversion>)
    requires |f| == |t| == 16 && UsedByRow(f, t, p) == |p|
    ensures Pairs(f, t) == p
  {
    hide UsedByQuad;
    var m1 := UsedByQuad(f, t, p, 0, 0);
    var m2 := UsedByQuad(f, t, p, 4, m1);
    UsedQuadStep(f, t, p, 0, 0);
    UsedQuadStep(f, t, p, 4, m1);
    UsedQuadStep(f, t, p, 8, m2);
    UsedQuadStep(f, t, p, 12, UsedByQuad(f, t, p, 8, m2));
    assert p[..|p|] == p;
  }

  predicate RowFits(euro: CodeUnit, r: nat)
    requires r < 16
  {
    UsedByRow(RowNordic(euro, r), Row1148(r), RowExchanges(euro, r)) == |RowExchanges(euro, r)|
  }

  lemma Rows4To5(euro: CodeUnit, r: nat)
    requires 4 <= r <= 5 && euro != 0x5D
    ensures RowFits(euro, r)
  {
  }

  lemma Rows6To7(euro: CodeUnit, r: nat)
    requires 6 <= r <= 7 && euro != 0x5D
    ensures RowFits(euro, r)
  {
  }

  lemma Rows9To10(euro: CodeUnit, r: nat)
    requires 9 <= r <= 10
    ensures RowFits(euro, r)
  {
  }

  lemma Rows11To12(euro: CodeUnit, r: nat)
    requires 11 <= r <= 12
    ensures RowFits(euro, r)
  {
  }

  lemma Rows13To14(euro: CodeUnit, r: nat)
    requires 13 <= r <= 14
    ensures RowFits(euro, r)
  {
  }

  lemma OtherRows(euro: CodeUnit, r: nat)
    requires r < 4 || r == 8 || r == 15
    ensures Pairs(RowNordic(euro, r), Row1148(r)) == RowExchanges(euro, r)
  {
    hide Pairs;
    SameRow(Row1148(r));
  }

  lemma SameRow(f: seq<CodeUnit>)
    ensures Pairs(f, f) == []
  {
    SamePlaces(f, |f|);
  }

  lemma {:induction false} SamePlaces(f: seq<CodeUnit>, k: nat)
    requires k <= |f|
    ensures PairsTo(f, f, k) == []
  {
    if k > 0 { SamePlaces(f, k - 1); }
  }

  /** What row `r` contributes. */
  lemma RowDiffers(euro: CodeUnit, r: nat)
    requires r < 16 && euro != 0x5D
    ensures Pairs(RowNordic(euro, r), Row1148(r)) == RowExchanges(euro, r)
  {
    hide Pairs, RowNordic, Row1148, RowExchanges, UsedByRow;
    if r < 4 || r == 8 || r == 15 {
      OtherRows(euro, r);
    } else {
      if r <= 5 { Rows4To5(euro, r); }
      else if r <= 7 { Rows6To7(euro, r); }
      else if r <= 10 { Rows9To10(euro, r); }
      else if r <= 12 { Rows11To12(euro, r); }
      else { Rows13To14(euro, r); }
      UsedUp(RowNordic(euro, r), Row1148(r), RowExchanges(euro, r));
    }
  }
}

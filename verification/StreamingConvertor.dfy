/** Conversion of fixed-length records, as a whole and in a stream
    (clients/vscode-hlasmplugin/src/conversions.ts, FBStreamingConvertor.ts). Bytes are compared
    before they are decoded to text. */
module StreamingConvertor {
  import opened Utf8
  import opened CharsetTables

  /** The conversion table, the bytes of an end of line, and the record length. */
  datatype Format = Format(table: seq<Bytes>, eol: Bytes, lrecl: nat)

  /** One entry for every byte value, each one to three bytes long, and records are not empty. */
  predicate FormatOk(f: Format)
  {
    |f.table| == 256 && f.lrecl > 0 && forall b: Byte :: 1 <= |f.table[b]| <= 3
  }

  /** `convertTable`: the code page, with private-use characters in place of carriage return and
      line feed. */
  function ConvertTable(cs: Charset): (t: seq<Bytes>)
  {
    seq(256, b requires 0 <= b < 256 =>
      EncodeScalar(if b == 0x0D then 0xE00D else if b == 0x25 then 0xE025 else Table(cs)[b]))
  }

  /** No entry takes more than the three bytes the size of the buffer allows for. */
  lemma ConvertTableFits(cs: Charset, eol: Bytes, lrecl: nat)
    requires lrecl > 0
    ensures FormatOk(Format(ConvertTable(cs), eol, lrecl))
  {
    hide Table;
    var t := ConvertTable(cs);
    forall b: Byte ensures 1 <= |t[b]| <= 3 {
      assert t[b] == EncodeScalar(if b == 0x0D then 0xE00D else if b == 0x25 then 0xE025 else Table(cs)[b]);
    }
  }

  // ----- the conversion of a whole buffer -----

  /** The byte at position `k`, and an end of line behind the last byte of a record. */
  function Piece(f: Format, buffer: Bytes, k: nat): (r: Bytes)
    requires FormatOk(f) && k < |buffer|
  {
    f.table[buffer[k]] + (if k % f.lrecl == f.lrecl - 1 then f.eol else [])
  }

  function ConvTo(f: Format, buffer: Bytes, k: nat): (r: Bytes)
    requires FormatOk(f) && k <= |buffer|
  {
    if k == 0 then [] else ConvTo(f, buffer, k - 1) + Piece(f, buffer, k - 1)
  }

  function Conv(f: Format, buffer: Bytes): (r: Bytes)
    requires FormatOk(f)
  {
    ConvTo(f, buffer, |buffer|)
  }

  /** The size of the ends of lines behind `k` bytes. */
  function Ends(k: nat, d: nat, e: nat): (size: nat)
    requires d > 0
  {
    k / d * e
  }

  function Bound(f: Format, n: nat): (size: nat)
    requires FormatOk(f)
  {
    3 * n + Ends(n + f.lrecl - 1, f.lrecl, |f.eol|)
  }

  lemma MulMonotone(a: nat, b: nat, e: nat)
    requires a <= b
    ensures a * e <= b * e
  {
  }

  lemma Distribute(q: nat, e: nat)
    ensures (q + 1) * e == q * e + e
  {
  }

  lemma DivMonotone(a: nat, b: nat, d: nat)
    requires a <= b && d > 0
    ensures a / d <= b / d
  {
    if a / d > b / d {
      Distribute(b / d, d);
      MulMonotone(b / d + 1, a / d, d);
    }
  }

  lemma DivStep(k: nat, d: nat)
    requires d > 0
    ensures (k + 1) / d == k / d + (if k % d == d - 1 then 1 else 0)
  {
    var q, r := k / d, k % d;
    assert k == q * d + r;
    if r == d - 1 {
      assert k + 1 == (q + 1) * d;
      DivExact(k + 1, q + 1, 0, d);
    } else {
      assert k + 1 == q * d + (r + 1);
      DivExact(k + 1, q, r + 1, d);
    }
  }

  lemma DivExact(n: nat, q: nat, r: nat, d: nat)
    requires n == q * d + r && r < d
    ensures n / d == q && n % d == r
  {
    var q' := n / d;
    assert n == q' * d + n % d;
    if q' < q {
      Distribute(q', d);
      MulMonotone(q' + 1, q, d);
    } else if q' > q {
      Distribute(q, d);
      MulMonotone(q + 1, q', d);
    }
  }

  /** The bytes a text is made of, without ends of lines. */
  function Weight(f: Format, buffer: Bytes): (w: nat)
    requires FormatOk(f)
  {
    if buffer == [] then 0 else Weight(f, buffer[..|buffer| - 1]) + |f.table[buffer[|buffer| - 1]]|
  }

  lemma {:induction false} WeightTo(f: Format, buffer: Bytes, k: nat)
    requires FormatOk(f) && k <= |buffer|
    ensures |ConvTo(f, buffer, k)| == Weight(f, buffer[..k]) + Ends(k, f.lrecl, |f.eol|)
    ensures k <= Weight(f, buffer[..k]) <= 3 * k
  {
    hide Weight, ConvTo, Ends;
    if k > 0 {
      WeightTo(f, buffer, k - 1);
      WeightStep(f, buffer, k - 1);
      EolStep(k - 1, f.lrecl, |f.eol|);
    } else {
      assert buffer[..0] == [];
      NothingWeighs(f, buffer);
    }
  }

  lemma NothingWeighs(f: Format, buffer: Bytes)
    requires FormatOk(f)
    ensures ConvTo(f, buffer, 0) == [] && Weight(f, []) == 0 && Ends(0, f.lrecl, |f.eol|) == 0
  {
    ZeroRecords(f.lrecl);
  }

  lemma EolStep(k: nat, d: nat, e: nat)
    requires d > 0
    ensures Ends(k + 1, d, e) == Ends(k, d, e) + (if k % d == d - 1 then e else 0)
  {
    DivStep(k, d);
    Distribute(k / d, e);
  }

  /** What one byte adds. */
  lemma WeightStep(f: Format, buffer: Bytes, k: nat)
    requires FormatOk(f) && k < |buffer|
    ensures f.lrecl > 0 && 1 <= |f.table[buffer[k]]| <= 3
    ensures Weight(f, buffer[..k + 1]) == Weight(f, buffer[..k]) + |f.table[buffer[k]]|
    ensures |ConvTo(f, buffer, k + 1)| == |ConvTo(f, buffer, k)| + |f.table[buffer[k]]|
                                          + (if k % f.lrecl == f.lrecl - 1 then |f.eol| else 0)
  {
    assert buffer[..k + 1][..k] == buffer[..k];
  }

  lemma ZeroRecords(d: nat)
    requires d > 0
    ensures 0 / d == 0
  {
    DivExact(0, 0, 0, d);
  }

  /** The size of a converted buffer: three bytes at most for each byte, and an end of line for
      every complete record; it never exceeds what has been allocated. */
  lemma ConvFits(f: Format, buffer: Bytes, k: nat)
    requires FormatOk(f) && k <= |buffer|
    ensures |ConvTo(f, buffer, k)| <= Bound(f, |buffer|)
  {
    hide Weight, ConvTo, Ends;
    WeightTo(f, buffer, k);
    EndsMonotone(k, |buffer| + f.lrecl - 1, f.lrecl, |f.eol|);
  }

  lemma EndsMonotone(a: nat, b: nat, d: nat, e: nat)
    requires d > 0 && a <= b
    ensures Ends(a, d, e) <= Ends(b, d, e)
  {
    DivMonotone(a, b, d);
    MulMonotone(a / d, b / d, e);
  }

  /** `result.set(bytes, pos)` */
  method Set(result: array<Byte>, bytes: Bytes, pos: nat)
    requires pos + |bytes| <= result.Length
    modifies result
    ensures result[..pos + |bytes|] == old(result[..pos]) + bytes
  {
    for k := 0 to |bytes|
      invariant result[..pos + k] == old(result[..pos]) + bytes[..k]
    {
      result[pos + k] := bytes[k];
      assert bytes[..k + 1] == bytes[..k] + [bytes[k]];
      assert result[..pos + k + 1] == result[..pos + k] + [bytes[k]];
    }
    assert bytes[..|bytes|] == bytes;
  }

  lemma ConvStep(f: Format, buffer: Bytes, k: nat)
    requires FormatOk(f) && k < |buffer|
    ensures ConvTo(f, buffer, k + 1) ==
            if k % f.lrecl == f.lrecl - 1 then (ConvTo(f, buffer, k) + f.table[buffer[k]]) + f.eol
            else ConvTo(f, buffer, k) + f.table[buffer[k]]
  {
  }

  /** `convertBuffer`: every byte written lies inside the array allocated beforehand. */
  method ConvertBuffer(f: Format, buffer: Bytes) returns (r: Bytes)
    requires FormatOk(f)
    ensures r == Conv(f, buffer)
  {
    hide Bound, ConvTo;
    var result := new Byte[Bound(f, |buffer|)](_ => 0);
    var pos: nat := 0;
    NothingWeighs(f, buffer);
    for i := 0 to |buffer|
      invariant pos <= result.Length && result[..pos] == ConvTo(f, buffer, i)
    {
      var v := buffer[i];
      ConvFits(f, buffer, i + 1);
      ConvStep(f, buffer, i);
      Set(result, f.table[v], pos);
      pos := pos + |f.table[v]|;
      if i % f.lrecl == f.lrecl - 1 {
        Set(result, f.eol, pos);
        pos := pos + |f.eol|;
      }
    }
    r := result[..pos];
  }

  // ----- the stream -----

  lemma ModOfSum(a: nat, k: nat, d: nat)
    requires d > 0 && a % d == 0
    ensures (a + k) % d == k % d && (a + k) / d == a / d + k / d
  {
    var q := a / d;
    assert a == q * d;
    assert k == k / d * d + k % d;
    assert a + k == (q + k / d) * d + k % d;
    DivExact(a + k, q + k / d, k % d, d);
  }

  /** Behind complete records the conversion starts afresh. */
  lemma {:induction false} ConvSplit(f: Format, a: Bytes, b: Bytes, k: nat)
    requires FormatOk(f) && |a| % f.lrecl == 0 && k <= |b|
    ensures ConvTo(f, a + b, |a| + k) == Conv(f, a) + ConvTo(f, b, k)
    decreases k
  {
    if k == 0 {
      ConvPrefix(f, a, b, |a|);
    } else {
      ConvSplit(f, a, b, k - 1);
      ModOfSum(|a|, k - 1, f.lrecl);
      assert (a + b)[|a| + k - 1] == b[k - 1];
      assert Piece(f, a + b, |a| + k - 1) == Piece(f, b, k - 1);
    }
  }

  lemma {:induction false} ConvPrefix(f: Format, a: Bytes, b: Bytes, k: nat)
    requires FormatOk(f) && k <= |a|
    ensures ConvTo(f, a + b, k) == ConvTo(f, a, k)
  {
    if k > 0 { ConvPrefix(f, a, b, k - 1); }
  }

  lemma ConvOfSum(f: Format, a: Bytes, b: Bytes)
    requires FormatOk(f) && |a| % f.lrecl == 0
    ensures Conv(f, a + b) == Conv(f, a) + Conv(f, b)
  {
    ConvSplit(f, a, b, |b|);
  }

  function Joined(chunks: seq<Bytes>): (r: Bytes)
  {
    if chunks == [] then [] else Joined(chunks[..|chunks| - 1]) + chunks[|chunks| - 1]
  }

  /** A write loses the pending bytes when it does not bring enough to complete the record. */
  predicate Loses(f: Format, pending: nat, chunk: nat)
  {
    pending > 0 && pending + chunk < f.lrecl
  }

  /** What the convertor holds on to: complete records, and the bytes behind them. */
  function Kept(f: Format, chunks: seq<Bytes>): (r: (Bytes, Bytes))
    requires FormatOk(f)
    ensures |r.0| % f.lrecl == 0 && |r.1| < f.lrecl
  {
    if chunks == [] then ([], [])
    else
      var (done, pending) := Kept(f, chunks[..|chunks| - 1]);
      var chunk := chunks[|chunks| - 1];
      if Loses(f, |pending|, |chunk|) then (done, chunk)
      else
        var all := pending + chunk;
        var use := |all| - |all| % f.lrecl;
        UsePart(|done|, |all|, f.lrecl);
        (done + all[..use], all[use..])
  }

  lemma UsePart(done: nat, all: nat, d: nat)
    requires d > 0 && done % d == 0
    ensures var use := all - all % d; 0 <= use <= all && use % d == 0 && (done + use) % d == 0 && all - use < d
  {
    var use := all - all % d;
    assert use == all / d * d;
    DivExact(use, all / d, 0, d);
    ModOfSum(done, use, d);
  }

  /** The record that a chunk completes. */
  function Completed(lrecl: nat, pending: Bytes, chunk: Bytes): (r: Bytes)
    requires |pending| < lrecl
  {
    if |pending| > 0 && |pending| + |chunk| >= lrecl then pending + chunk[..lrecl - |pending|] else []
  }

  /** What is left of the chunk. */
  function Remaining(lrecl: nat, pending: Bytes, chunk: Bytes): (r: Bytes)
    requires |pending| < lrecl
  {
    if |pending| > 0 && |pending| + |chunk| >= lrecl then chunk[lrecl - |pending|..] else chunk
  }

  /** How a write cuts what it has. */
  lemma WriteParts(lrecl: nat, pending: Bytes, chunk: Bytes)
    requires |pending| < lrecl
    ensures var front, rest := Completed(lrecl, pending, chunk), Remaining(lrecl, pending, chunk);
            var use := |rest| - |rest| % lrecl;
            && |front| % lrecl == 0 && 0 <= use <= |rest| && |rest| - use < lrecl
            && (|pending| > 0 && |pending| + |chunk| < lrecl ==>
                  front == [] && rest[..use] == [] && rest[use..] == chunk)
            && (!(|pending| > 0 && |pending| + |chunk| < lrecl) ==>
                  var all := pending + chunk;
                  var cut := |all| - |all| % lrecl;
                  0 <= cut <= |all| && all[..cut] == front + rest[..use] && all[cut..] == rest[use..])
  {
    var front, rest := Completed(lrecl, pending, chunk), Remaining(lrecl, pending, chunk);
    var use := |rest| - |rest| % lrecl;
    UsePart(0, |rest|, lrecl);
    WholeRecord(lrecl, |front|);
    if |pending| > 0 && |pending| + |chunk| < lrecl {
      SmallMod(|chunk|, lrecl);
    } else {
      var all := pending + chunk;
      assert all == front + rest;
      ModOfSum(|front|, |rest|, lrecl);
      assert all[..|front| + use] == front + rest[..use] && all[|front| + use..] == rest[use..];
    }
  }

  lemma WholeRecord(lrecl: nat, n: nat)
    requires lrecl > 0 && (n == 0 || n == lrecl)
    ensures n % lrecl == 0
  {
    DivExact(n, if n == 0 then 0 else 1, 0, lrecl);
  }

  class FBStreamingConvertor {
    const format: Format
    var pending: Bytes
    var resultChunks: seq<Bytes>

    constructor (f: Format)
      requires FormatOk(f)
      ensures format == f && pending == [] && Joined(resultChunks) == [] && resultChunks == []
    {
      format, pending, resultChunks := f, [], [];
    }

    method ProcessBlock(b: Bytes)
      requires FormatOk(format)
      modifies this`resultChunks
      ensures Joined(resultChunks) == Joined(old(resultChunks)) + Conv(format, b)
    {
      var converted := ConvertBuffer(format, b);
      resultChunks := resultChunks + [converted];
      assert resultChunks[..|resultChunks| - 1] == old(resultChunks);
    }

    /** `write`: with the pending bytes kept, everything up to the last complete record is
        converted; otherwise the chunk takes the place of the pending bytes. */
    method Write(chunk: Bytes)
      requires FormatOk(format) && |pending| < format.lrecl
      modifies this
      ensures |pending| < format.lrecl
      ensures Loses(format, |old(pending)|, |chunk|) ==>
                pending == chunk && Joined(resultChunks) == Joined(old(resultChunks))
      ensures !Loses(format, |old(pending)|, |chunk|) ==>
                var all := old(pending) + chunk;
                var use := |all| - |all| % format.lrecl;
                pending == all[use..] && Joined(resultChunks) == Joined(old(resultChunks)) + Conv(format, all[..use])
    {
      hide Joined, Conv;
      var rest := chunk;
      var lrecl := format.lrecl;
      ghost var was, kept, front := Joined(resultChunks), pending, Completed(lrecl, pending, chunk);
      NothingConverted(format);
      assert was + [] == was;
      if |pending| > 0 && |pending| + |rest| >= lrecl {
        var missing := lrecl - |pending|;
        ProcessBlock(pending + rest[..missing]);
        rest := rest[missing..];
      }
      assert Joined(resultChunks) == was + Conv(format, front);
      UsePart(0, |rest|, lrecl);
      var use := |rest| - |rest| % lrecl;
      ProcessBlock(rest[..use]);
      pending := rest[use..];
      WriteParts(lrecl, kept, chunk);
      ConvOfSum(format, front, rest[..use]);
      assert (was + Conv(format, front)) + Conv(format, rest[..use])
          == was + (Conv(format, front) + Conv(format, rest[..use]));
    }

    /** `getResult` */
    method GetResult() returns (result: Bytes)
      requires FormatOk(format)
      modifies this
      ensures result == Joined(old(resultChunks)) + Conv(format, old(pending)) && pending == []
    {
      if |pending| > 0 {
        ProcessBlock(pending);
        pending := [];
      } else {
        assert Conv(format, []) == [];
      }
      if |resultChunks| != 1 {
        resultChunks := [Joined(resultChunks)];
      }
      assert resultChunks[..0] == [];
      result := resultChunks[0];
    }
  }

  lemma SmallMod(n: nat, d: nat)
    requires n < d
    ensures n % d == n
  {
  }

  // ----- stream and batch -----

  function All(kept: (Bytes, Bytes)): (r: Bytes) { kept.0 + kept.1 }

  /** Every write that finds pending bytes brings enough to complete their record. */
  predicate Steady(f: Format, chunks: seq<Bytes>)
    requires f.lrecl > 0
  {
    chunks == [] ||
    var front := chunks[..|chunks| - 1];
    Steady(f, front) && !Loses(f, |Joined(front)| % f.lrecl, |chunks[|chunks| - 1]|)
  }

  lemma KeptStep(f: Format, front: seq<Bytes>, chunk: Bytes)
    requires FormatOk(f)
    ensures var (done, pending) := Kept(f, front);
            All(Kept(f, front + [chunk])) ==
            if Loses(f, |pending|, |chunk|) then done + chunk else (done + pending) + chunk
  {
    var chunks := front + [chunk];
    assert chunks[..|chunks| - 1] == front;
    var (done, pending) := Kept(f, front);
    if !Loses(f, |pending|, |chunk|) {
      var all := pending + chunk;
      var use := |all| - |all| % f.lrecl;
      UsePart(|done|, |all|, f.lrecl);
      assert (done + all[..use]) + all[use..] == done + all;
      assert done + all == (done + pending) + chunk;
    }
  }

  lemma JoinedStep(front: seq<Bytes>, chunk: Bytes)
    ensures Joined(front + [chunk]) == Joined(front) + chunk
  {
    assert (front + [chunk])[..|front|] == front;
  }

  /** The pending bytes are what is left of the length. */
  lemma PendingLength(f: Format, done: Bytes, pending: Bytes)
    requires f.lrecl > 0 && |done| % f.lrecl == 0 && |pending| < f.lrecl
    ensures |done + pending| % f.lrecl == |pending|
  {
    ModOfSum(|done|, |pending|, f.lrecl);
    SmallMod(|pending|, f.lrecl);
  }

  lemma SteadyStep(f: Format, front: seq<Bytes>, chunk: Bytes)
    requires f.lrecl > 0
    ensures Steady(f, front + [chunk]) <==> Steady(f, front) && !Loses(f, |Joined(front)| % f.lrecl, |chunk|)
  {
    assert (front + [chunk])[..|front|] == front;
  }

  lemma {:induction false} SteadyKeepsAll(f: Format, chunks: seq<Bytes>)
    requires FormatOk(f) && Steady(f, chunks)
    ensures All(Kept(f, chunks)) == Joined(chunks)
  {
    if chunks == [] {
      assert All(([], [])) == [];
    } else {
      var front, chunk := chunks[..|chunks| - 1], chunks[|chunks| - 1];
      assert chunks == front + [chunk];
      hide Kept, Joined, Steady;
      SteadyStep(f, front, chunk);
      SteadyKeepsAll(f, front);
      KeptStep(f, front, chunk);
      JoinedStep(front, chunk);
      PendingLength(f, Kept(f, front).0, Kept(f, front).1);
    }
  }

  lemma {:induction false} WeightSplit(f: Format, a: Bytes, b: Bytes)
    requires FormatOk(f)
    ensures Weight(f, a + b) == Weight(f, a) + Weight(f, b)
  {
    if b == [] {
      assert a + b == a;
    } else {
      assert (a + b)[..|a + b| - 1] == a + b[..|b| - 1];
      WeightSplit(f, a, b[..|b| - 1]);
    }
  }

  lemma WeightPositive(f: Format, b: Bytes)
    requires FormatOk(f) && b != []
    ensures Weight(f, b) > 0
  {
  }

  /** A lost byte never comes back. */
  lemma {:induction false} LossShortens(f: Format, chunks: seq<Bytes>)
    requires FormatOk(f)
    ensures |All(Kept(f, chunks))| <= |Joined(chunks)|
    ensures Weight(f, All(Kept(f, chunks))) <= Weight(f, Joined(chunks))
    ensures !Steady(f, chunks) ==> Weight(f, All(Kept(f, chunks))) < Weight(f, Joined(chunks))
  {
    if chunks == [] {
      assert All(([], [])) == [];
    } else {
      var front, chunk := chunks[..|chunks| - 1], chunks[|chunks| - 1];
      assert chunks == front + [chunk];
      hide Kept, Joined, Steady, Weight;
      LossShortens(f, front);
      LossStep(f, front, chunk);
    }
  }

  lemma LossStep(f: Format, front: seq<Bytes>, chunk: Bytes)
    requires FormatOk(f)
    requires |All(Kept(f, front))| <= |Joined(front)|
    requires Weight(f, All(Kept(f, front))) <= Weight(f, Joined(front))
    requires !Steady(f, front) ==> Weight(f, All(Kept(f, front))) < Weight(f, Joined(front))
    ensures var chunks := front + [chunk];
            && |All(Kept(f, chunks))| <= |Joined(chunks)|
            && Weight(f, All(Kept(f, chunks))) <= Weight(f, Joined(chunks))
            && (!Steady(f, chunks) ==> Weight(f, All(Kept(f, chunks))) < Weight(f, Joined(chunks)))
  {
    hide Kept, Joined, Steady, Weight;
    var (done, pending) := Kept(f, front);
    SteadyStep(f, front, chunk);
    KeptStep(f, front, chunk);
    JoinedStep(front, chunk);
    PendingLength(f, done, pending);
    WeightSplit(f, done, pending);
    WeightSplit(f, done, chunk);
    WeightSplit(f, done + pending, chunk);
    WeightSplit(f, Joined(front), chunk);
    if pending != [] { WeightPositive(f, pending); }
    if Steady(f, front) { SteadyKeepsAll(f, front); }
  }

  lemma WholeSize(f: Format, buffer: Bytes)
    requires FormatOk(f)
    ensures |Conv(f, buffer)| == Weight(f, buffer) + Ends(|buffer|, f.lrecl, |f.eol|)
  {
    hide Weight, ConvTo, Ends;
    WeightTo(f, buffer, |buffer|);
    assert buffer[..|buffer|] == buffer;
  }

  /** The stream yields what the batch form yields if and only if every write that finds pending
      bytes completes their record. */
  lemma StreamIsBatchIff(f: Format, chunks: seq<Bytes>)
    requires FormatOk(f)
    ensures Conv(f, All(Kept(f, chunks))) == Conv(f, Joined(chunks)) <==> Steady(f, chunks)
  {
    hide Kept, Joined, Steady, Weight, Conv, Ends;
    var kept, all := All(Kept(f, chunks)), Joined(chunks);
    if Steady(f, chunks) {
      SteadyKeepsAll(f, chunks);
    } else {
      LossShortens(f, chunks);
      WholeSize(f, kept);
      WholeSize(f, all);
      EndsMonotone(|kept|, |all|, f.lrecl, |f.eol|);
    }
  }

  /** Two writes of one byte each, into records of three bytes or more, lose the first byte. */
  lemma ShortWriteLoses(f: Format, b: Byte)
    requires FormatOk(f) && f.lrecl > 2
    ensures Conv(f, All(Kept(f, [[b], [b]]))) != Conv(f, Joined([[b], [b]]))
  {
    hide Kept, Joined, Conv, Steady;
    assert [[b]] + [[b]] == [[b], [b]] && [] + [[b]] == [[b]] && [] + [b] == [b];
    JoinedStep([], [b]);
    assert Joined([]) == [] by { JoinedOfNothing(); }
    SmallMod(1, f.lrecl);
    SteadyStep(f, [[b]], [b]);
    StreamIsBatchIff(f, [[b], [b]]);
  }

  lemma JoinedOfNothing()
    ensures Joined([]) == []
  {
  }

  lemma KeptUnfold(f: Format, chunks: seq<Bytes>, k: nat)
    requires FormatOk(f) && k < |chunks|
    ensures var (done, pending) := Kept(f, chunks[..k]);
            var all := pending + chunks[k];
            var use := |all| - |all| % f.lrecl;
            0 <= use <= |all| && Kept(f, chunks[..k + 1]) ==
            (if Loses(f, |pending|, |chunks[k]|) then (done, chunks[k]) else (done + all[..use], all[use..]))
  {
    hide Loses;
    var front := chunks[..k + 1];
    assert front[..|front| - 1] == chunks[..k] && front[|front| - 1] == chunks[k];
    var all := Kept(f, chunks[..k]).1 + chunks[k];
    UsePart(0, |all|, f.lrecl);
  }

  /** One write, seen from what is kept. */
  lemma KeptNext(f: Format, chunks: seq<Bytes>, k: nat)
    requires FormatOk(f) && k < |chunks|
    ensures var (done, pending) := Kept(f, chunks[..k]);
            var all := pending + chunks[k];
            var use := |all| - |all| % f.lrecl;
            && f.lrecl > 0 && |pending| < f.lrecl && 0 <= use <= |all|
            && Kept(f, chunks[..k + 1]) ==
               (if Loses(f, |pending|, |chunks[k]|) then (done, chunks[k]) else (done + all[..use], all[use..]))
            && Conv(f, done + all[..use]) == Conv(f, done) + Conv(f, all[..use])
  {
    hide Conv, Kept, Loses;
    KeptUnfold(f, chunks, k);
    var (done, pending) := Kept(f, chunks[..k]);
    var all := pending + chunks[k];
    ConvOfSum(f, done, all[..|all| - |all| % f.lrecl]);
  }

  /** All writes, then `getResult`. */
  method Stream(f: Format, chunks: seq<Bytes>) returns (result: Bytes)
    requires FormatOk(f)
    ensures result == Conv(f, All(Kept(f, chunks)))
  {
    hide Conv, Kept, Joined, FormatOk;
    var convertor := new FBStreamingConvertor(f);
    NothingConverted(f);
    NothingKept(f, chunks);
    for k := 0 to |chunks|
      invariant fresh(convertor) && convertor.format == f
      invariant convertor.pending == Kept(f, chunks[..k]).1
      invariant Joined(convertor.resultChunks) == Conv(f, Kept(f, chunks[..k]).0)
    {
      KeptNext(f, chunks, k);
      convertor.Write(chunks[k]);
    }
    assert chunks[..|chunks|] == chunks;
    ConvOfSum(f, Kept(f, chunks).0, Kept(f, chunks).1);
    result := convertor.GetResult();
  }

  lemma NothingKept(f: Format, chunks: seq<Bytes>)
    requires FormatOk(f)
    ensures Kept(f, chunks[..0]) == ([], [])
  {
  }

  lemma NothingConverted(f: Format)
    requires FormatOk(f)
    ensures Conv(f, []) == []
  {
  }
}

/** What the record conversion writes: the characters of each byte, the marks for carriage return
    and line feed, and where the ends of lines stand
    (clients/vscode-hlasmplugin/src/conversions.ts). */
module ConvertedRecords {
  import opened Utf8
  import opened CharsetTables
  import opened StreamingConvertor

  // ----- the code pages -----

  lemma {:induction false} RowsEntry(cs: Charset, n: nat, r: nat, c: nat)
    requires r < n <= 16 && c < 16
    ensures Rows(cs, n)[16 * r + c] == Row(cs, r)[c]
    decreases n
  {
    hide Row;
    if r < n - 1 { RowsEntry(cs, n - 1, r, c); }
  }

  lemma TableEntry(cs: Charset, r: nat, c: nat)
    requires r < 16 && c < 16
    ensures 16 * r + c < 256 && Table(cs)[16 * r + c] == Row(cs, r)[c]
  {
    hide Row, Rows;
    RowsEntry(cs, 16, r, c);
  }

  /** Letters and digits stand where every EBCDIC page has them. */
  lemma CapitalLetters(cs: Charset, i: nat)
    requires i < 9
    ensures Table(cs)[0xC1 + i] == 'A' as int + i && Table(cs)[0xD1 + i] == 'J' as int + i
    ensures i < 8 ==> Table(cs)[0xE2 + i] == 'S' as int + i
  {
    hide Table, Row;
    TableEntry(cs, 12, 1 + i);
    TableEntry(cs, 13, 1 + i);
    Row12(cs, i);
    Row13(cs, i);
    if i < 8 {
      TableEntry(cs, 14, 2 + i);
      Row14(cs, i);
    }
  }

  lemma Row12(cs: Charset, i: nat)
    requires i < 9
    ensures Row(cs, 12)[1 + i] == 'A' as int + i
  {
  }

  lemma Row13(cs: Charset, i: nat)
    requires i < 9
    ensures Row(cs, 13)[1 + i] == 'J' as int + i
  {
  }

  lemma Row14(cs: Charset, i: nat)
    requires i < 8
    ensures Row(cs, 14)[2 + i] == 'S' as int + i
  {
  }

  lemma SmallLetters(cs: Charset, i: nat)
    requires i < 9
    ensures Table(cs)[0x81 + i] == 'a' as int + i && Table(cs)[0x91 + i] == 'j' as int + i
    ensures i < 8 ==> Table(cs)[0xA2 + i] == 's' as int + i
  {
    hide Table, Row;
    TableEntry(cs, 8, 1 + i);
    TableEntry(cs, 9, 1 + i);
    Row8(cs, i);
    Row9(cs, i);
    if i < 8 {
      TableEntry(cs, 10, 2 + i);
      Row10(cs, i);
    }
  }

  lemma Row8(cs: Charset, i: nat)
    requires i < 9
    ensures Row(cs, 8)[1 + i] == 'a' as int + i
  {
  }

  lemma Row9(cs: Charset, i: nat)
    requires i < 9
    ensures Row(cs, 9)[1 + i] == 'j' as int + i
  {
  }

  lemma Row10(cs: Charset, i: nat)
    requires i < 8
    ensures Row(cs, 10)[2 + i] == 's' as int + i
  {
  }

  lemma Digits(cs: Charset, i: nat)
    requires i < 10
    ensures Table(cs)[0xF0 + i] == '0' as int + i
  {
    hide Table, Row;
    TableEntry(cs, 15, i);
    Row15(cs, i);
  }

  lemma Row15(cs: Charset, i: nat)
    requires i < 10
    ensures Row(cs, 15)[i] == '0' as int + i
  {
  }

  // ----- line breaks in the data -----

  /** Line feed and carriage return stand at one place each. */
  lemma BreaksInRow(cs: Charset, r: nat, c: nat)
    requires r < 16 && c < 16
    ensures Row(cs, r)[c] == 0x0A <==> r == 2 && c == 5
    ensures Row(cs, r)[c] == 0x0D <==> r == 0 && c == 13
  {
    hide Row;
    if r < 2 { Rows0To1(cs, r, c); }
    else if r < 4 { Rows2To3(cs, r, c); }
    else if r < 6 { Rows4To5(cs, r, c); }
    else if r < 8 { Rows6To7(cs, r, c); }
    else if r < 10 { Rows8To9(cs, r, c); }
    else if r < 12 { Rows10To11(cs, r, c); }
    else if r < 14 { Rows12To13(cs, r, c); }
    else { Rows14To15(cs, r, c); }
  }

  lemma Rows0To1(cs: Charset, r: nat, c: nat)
    requires r < 2 && c < 16
    ensures Row(cs, r)[c] != 0x0A && (Row(cs, r)[c] == 0x0D <==> r == 0 && c == 13)
  {
  }

  lemma Rows2To3(cs: Charset, r: nat, c: nat)
    requires 2 <= r < 4 && c < 16
    ensures Row(cs, r)[c] != 0x0D && (Row(cs, r)[c] == 0x0A <==> r == 2 && c == 5)
  {
  }

  lemma Rows4To5(cs: Charset, r: nat, c: nat)
    requires 4 <= r < 6 && c < 16
    ensures Row(cs, r)[c] >= 0x20
  {
  }

  lemma Rows6To7(cs: Charset, r: nat, c: nat)
    requires 6 <= r < 8 && c < 16
    ensures Row(cs, r)[c] >= 0x20
  {
  }

  lemma Rows8To9(cs: Charset, r: nat, c: nat)
    requires 8 <= r < 10 && c < 16
    ensures Row(cs, r)[c] >= 0x20
  {
  }

  lemma Rows10To11(cs: Charset, r: nat, c: nat)
    requires 10 <= r < 12 && c < 16
    ensures Row(cs, r)[c] >= 0x20
  {
  }

  lemma Rows12To13(cs: Charset, r: nat, c: nat)
    requires 12 <= r < 14 && c < 16
    ensures Row(cs, r)[c] >= 0x20
  {
    if r == 12 { Entries12(cs, c); } else { Entries13(cs, c); }
    hide Row;
  }

  lemma Entries12(cs: Charset, c: nat)
    requires c < 16
    ensures Row(cs, 12)[c] >= 0x20
  {
  }

  lemma Entries13(cs: Charset, c: nat)
    requires c < 16
    ensures Row(cs, 13)[c] >= 0x20
  {
  }

  lemma Rows14To15(cs: Charset, r: nat, c: nat)
    requires 14 <= r < 16 && c < 16
    ensures Row(cs, r)[c] >= 0x20
  {
  }

  lemma NoBreak(c: Scalar)
    requires c != 0x0A && c != 0x0D
    ensures 0x0A !in EncodeScalar(c) && 0x0D !in EncodeScalar(c)
  {
  }

  lemma MarkBytes()
    ensures EncodeScalar(0xE00D) == [0xEE, 0x80, 0x8D] && EncodeScalar(0xE025) == [0xEE, 0x80, 0xA5]
  {
  }

  lemma EntryIs(cs: Charset, b: Byte)
    ensures |ConvertTable(cs)| == 256
    ensures b == 0x0D ==> ConvertTable(cs)[b] == EncodeScalar(0xE00D)
    ensures b == 0x25 ==> ConvertTable(cs)[b] == EncodeScalar(0xE025)
    ensures b != 0x0D && b != 0x25 ==> ConvertTable(cs)[b] == EncodeScalar(Table(cs)[b])
  {
    hide Table, EncodeScalar;
  }

  lemma BreaksInTable(cs: Charset, b: Byte)
    ensures Table(cs)[b] == 0x0A <==> b == 0x25
    ensures Table(cs)[b] == 0x0D <==> b == 0x0D
  {
    hide Table, Row;
    var r, c := b / 16, b % 16;
    TableEntry(cs, r, c);
    BreaksInRow(cs, r, c);
    assert b == 16 * r + c;
  }

  /** The bytes for carriage return and line feed become U+E00D and U+E025, so no byte of the data
      breaks a line. */
  lemma BreaksReplaced(cs: Charset, b: Byte)
    ensures |ConvertTable(cs)| == 256
    ensures b == 0x0D ==> ConvertTable(cs)[b] == [0xEE, 0x80, 0x8D]
    ensures b == 0x25 ==> ConvertTable(cs)[b] == [0xEE, 0x80, 0xA5]
    ensures b != 0x0D && b != 0x25 ==> ConvertTable(cs)[b] == EncodeScalar(Table(cs)[b])
    ensures 0x0A !in ConvertTable(cs)[b] && 0x0D !in ConvertTable(cs)[b]
  {
    hide Table, EncodeScalar, ConvertTable;
    EntryIs(cs, b);
    MarkBytes();
    BreaksInTable(cs, b);
    NoBreak(if b == 0x0D then 0xE00D else if b == 0x25 then 0xE025 else Table(cs)[b]);
  }

  // ----- records -----

  /** The characters of bytes, one after the other. */
  function Plain(f: Format, a: Bytes): (r: Bytes)
    requires FormatOk(f)
  {
    if a == [] then [] else f.table[a[0]] + Plain(f, a[1..])
  }

  lemma {:induction false} PlainSnoc(f: Format, a: Bytes, b: Byte)
    requires FormatOk(f)
    ensures Plain(f, a + [b]) == Plain(f, a) + f.table[b]
  {
    if a == [] {
      assert [] + [b] == [b] && [b][1..] == [] && f.table[b] + [] == f.table[b];
    } else {
      assert (a + [b])[1..] == a[1..] + [b];
      PlainSnoc(f, a[1..], b);
      assert f.table[a[0]] + (Plain(f, a[1..]) + f.table[b]) == (f.table[a[0]] + Plain(f, a[1..])) + f.table[b];
    }
  }

  /** Within a record only the characters are written. */
  lemma {:induction false} WithinRecord(f: Format, a: Bytes, k: nat)
    requires FormatOk(f) && k <= |a| && k < f.lrecl
    ensures ConvTo(f, a, k) == Plain(f, a[..k])
  {
    if k > 0 {
      WithinRecord(f, a, k - 1);
      SmallMod(k - 1, f.lrecl);
      ConvStep(f, a, k - 1);
      PlainSnoc(f, a[..k - 1], a[k - 1]);
      assert a[..k] == a[..k - 1] + [a[k - 1]];
    } else {
      assert a[..0] == [];
    }
  }

  /** A complete record is written with an end of line behind it, and the rest follows as if it
      stood alone. */
  lemma RecordConverted(f: Format, record: Bytes, rest: Bytes)
    requires FormatOk(f) && |record| == f.lrecl
    ensures Conv(f, record + rest) == Plain(f, record) + f.eol + Conv(f, rest)
  {
    hide ConvTo, Plain;
    var last := f.lrecl - 1;
    WholeRecord(f.lrecl, f.lrecl);
    ConvOfSum(f, record, rest);
    WithinRecord(f, record, last);
    SmallMod(last, f.lrecl);
    ConvStep(f, record, last);
    PlainSnoc(f, record[..last], record[last]);
    assert record == record[..last] + [record[last]];
  }

  /** Bytes that make up no record are written without one. */
  lemma RestConverted(f: Format, rest: Bytes)
    requires FormatOk(f) && |rest| < f.lrecl
    ensures Conv(f, rest) == Plain(f, rest)
  {
    WithinRecord(f, rest, |rest|);
    assert rest[..|rest|] == rest;
  }
}

/** Reading gives back what was written, whatever the messages and however the bytes arrive. */
module FramingLaws {
  import opened Basics
  import opened Framing
  import opened Deframer

  // ----- header lines -----

  lemma {:induction false} WordEndAt(s: string, b: nat, n: nat)
    requires b <= n < |s| && s[n] == '\n' && forall i | b <= i < n :: s[i] != '\n'
    ensures WordEnd(s, b) == n
    decreases n - b
  {
    if b < n { WordEndAt(s, b + 1, n); }
  }

  /** One header line in front of the stream. */
  lemma HeadersOfLine(line: string, more: string, length: nat)
    requires line != "" && '\n' !in line
    ensures Headers(line + ("\n" + more), length) ==
            if StartsWith(line, CONTENT_LENGTH) then Headers("\n" + more, FromChars(line[|CONTENT_LENGTH|..], length))
            else if line == "\r" then Some((length, more))
            else Headers("\n" + more, length)
  {
    var s := line + ("\n" + more);
    assert s[0] == line[0] && line[0] in line;
    assert forall i | 0 <= i < |line| :: s[i] == line[i] && line[i] in line;
    WordEndAt(s, 0, |line|);
    assert s[0..|line|] == line && s[|line|..] == "\n" + more && s[|line| + 1..] == more;
  }

  /** One round of the header loop. */
  lemma HeadersStep(s: string, length: nat, b: nat, e: nat)
    requires b == WordStart(s) < |s| && e == WordEnd(s, b)
    ensures Headers(s, length) ==
            if e == |s| then None
            else if StartsWith(s[b..e], CONTENT_LENGTH) then
              Headers(s[e..], FromChars(s[b..e][|CONTENT_LENGTH|..], length))
            else if s[b..e] == "\r" then Some((length, s[e + 1..]))
            else Headers(s[e..], length)
  {
    hide WordStart, WordEnd, FromChars;
  }

  lemma HeadersOfNothing(s: string, length: nat)
    requires WordStart(s) == |s|
    ensures Headers(s, length) == None
  {
  }

  lemma NewlineSlices(more: string, b: nat, e: nat)
    requires b <= e <= |more|
    ensures var s := "\n" + more;
            s[b + 1..e + 1] == more[b..e] && s[e + 1..] == more[e..] && (e < |more| ==> s[e + 2..] == more[e + 1..])
  {
  }

  lemma WordBehindNewline(more: string)
    ensures var s := "\n" + more; WordStart(s) == WordStart(more) + 1
    ensures WordStart(more) < |more| ==>
              WordEnd("\n" + more, WordStart(more) + 1) == WordEnd(more, WordStart(more)) + 1
  {
    hide WordEnd;
    StartBehindNewline(more);
    hide WordStart;
    var s := "\n" + more;
    assert s[1..] == more;
    if WordStart(more) < |more| { WordEndShift(s, 1, WordStart(more)); }
  }

  lemma StartBehindNewline(more: string)
    ensures WordStart("\n" + more) == WordStart(more) + 1
  {
    assert ("\n" + more)[1..] == more;
  }

  lemma HeadersSkipNewline(more: string, length: nat)
    ensures Headers("\n" + more, length) == Headers(more, length)
  {
    hide Headers, WordEnd, WordStart, FromChars, StartsWith;
    var s := "\n" + more;
    var b := WordStart(more);
    WordBehindNewline(more);
    if b < |more| {
      var e := WordEnd(more, b);
      HeadersStep(more, length, b, e);
      HeadersStep(s, length, b + 1, e + 1);
      NewlineSlices(more, b, e);
    } else {
      HeadersOfNothing(more, length);
      HeadersOfNothing(s, length);
    }
  }

  lemma LineOfLength(n: nat)
    ensures var line := CONTENT_LENGTH + Decimal(n) + "\r";
            line != "" && '\n' !in line && StartsWith(line, CONTENT_LENGTH)
            && line[|CONTENT_LENGTH|..] == Decimal(n) + "\r"
  {
    var line := CONTENT_LENGTH + Decimal(n) + "\r";
    assert line == CONTENT_LENGTH + (Decimal(n) + "\r");
    assert forall i | 0 <= i < |Decimal(n)| :: IsDigit(Decimal(n)[i]);
    assert forall i | 0 <= i < |CONTENT_LENGTH| :: CONTENT_LENGTH[i] != '\n';
    assert forall i | 0 <= i < |line| :: line[i] != '\n';
  }

  /** A header that neither ends the headers nor gives the length has no effect. */
  lemma OtherHeaderIgnored(line: string, more: string, length: nat)
    requires line != "" && '\n' !in line && line != "\r" && !StartsWith(line, CONTENT_LENGTH)
    ensures Headers(line + ("\n" + more), length) == Headers(more, length)
  {
    hide Headers;
    HeadersOfLine(line, more, length);
    HeadersSkipNewline(more, length);
  }

  // ----- the round trip -----

  lemma Regrouped(a: string, b: string, c: string, e: string, f: string)
    ensures ((a + (b + (c + (b + c)))) + e) + f == (a + b) + (c + (b + (c + (e + f))))
  {
  }

  lemma FramedLines(msg: string, rest: string)
    ensures Framed(msg) + rest == (CONTENT_LENGTH + Decimal(|msg|) + "\r") + ("\n" + ("\r" + ("\n" + (msg + rest))))
  {
    hide Decimal;
    HeaderEndParts();
    Regrouped(CONTENT_LENGTH + Decimal(|msg|), "\r", "\n", msg, rest);
  }

  lemma HeaderEndParts()
    ensures HEADER_END == "\r" + ("\n" + ("\r" + "\n"))
  {
  }

  /** One written message is read back, and the stream stands right behind it. */
  lemma ReadFramed(msg: string, rest: string)
    requires 1 <= |msg| <= MESSAGE_SIZE_LIMIT
    ensures ReadFrom(Framed(msg) + rest) == Message(msg, rest)
  {
    hide Headers, FromChars;
    var last := "\r" + ("\n" + (msg + rest));
    FramedLines(msg, rest);
    LineOfLength(|msg|);
    HeadersOfLine(CONTENT_LENGTH + Decimal(|msg|) + "\r", last, 0);
    FromDecimal(|msg|, "\r", 0);
    HeadersSkipNewline(last, |msg|);
    HeadersOfLine("\r", msg + rest, |msg|);
    assert (msg + rest)[..|msg|] == msg && (msg + rest)[|msg|..] == rest;
  }

  /** Every list of messages between 1 and 2^30 bytes comes back exactly as it was written. */
  lemma {:induction false} WrittenIsDelivered(msgs: seq<string>)
    requires forall i | 0 <= i < |msgs| :: 1 <= |msgs[i]| <= MESSAGE_SIZE_LIMIT
    ensures Delivered(FramedAll(msgs)) == msgs
  {
    hide Headers;
    if msgs == [] {
      NothingDelivered();
    } else {
      ReadFramed(msgs[0], FramedAll(msgs[1..]));
      WrittenIsDelivered(msgs[1..]);
    }
  }

  lemma NothingDelivered()
    ensures Delivered("") == []
  {
  }

  /** Outside these sizes a message is lost: an empty one is refused, and so is a longer one. */
  lemma OtherSizesRefused(msg: string, rest: string)
    requires |msg| == 0 || MESSAGE_SIZE_LIMIT < |msg| < SIZE_T
    ensures ReadFrom(Framed(msg) + rest) == Refused(msg + rest)
  {
    hide Headers, FromChars;
    var last := "\r" + ("\n" + (msg + rest));
    FramedLines(msg, rest);
    LineOfLength(|msg|);
    HeadersOfLine(CONTENT_LENGTH + Decimal(|msg|) + "\r", last, 0);
    FromDecimal(|msg|, "\r", 0);
    HeadersSkipNewline(last, |msg|);
    HeadersOfLine("\r", msg + rest, |msg|);
  }

  lemma {:induction false} DeliveredSizes(s: string)
    ensures forall i | 0 <= i < |Delivered(s)| :: AllowedSize(|Delivered(s)[i]|)
    decreases |s|
  {
    var r := ReadFrom(s);
    if r.Message? || r.Refused? { DeliveredSizes(r.rest); }
  }

  /** The round trip holds for exactly the lists whose messages have between 1 and 2^30 bytes. */
  lemma WrittenIsDeliveredIff(msgs: seq<string>)
    ensures Delivered(FramedAll(msgs)) == msgs <==> forall i | 0 <= i < |msgs| :: 1 <= |msgs[i]| <= 0x4000_0000
  {
    hide Delivered, FramedAll;
    assert forall i | 0 <= i < |msgs| :: AllowedSize(|msgs[i]|) <==> 1 <= |msgs[i]| <= 0x4000_0000;
    DeliveredSizes(FramedAll(msgs));
    if forall i | 0 <= i < |msgs| :: AllowedSize(|msgs[i]|) { WrittenIsDelivered(msgs); }
  }

  // ----- the wire -----

  /** The bytes of a message, spelled out. */
  lemma WireFormat(msg: string)
    ensures Framed(msg) == "Content-Length: " + Decimal(|msg|) + "\r\n\r\n" + msg
  {
    hide Decimal;
  }

  /** Decimal digits, the last one first. */
  lemma DecimalIs(n: nat)
    ensures Decimal(n) == (if n < 10 then "" else Decimal(n / 10)) + ["0123456789"[n % 10]]
  {
    DigitAt(n % 10);
    assert n < 10 ==> "" + [(n + '0' as int) as char] == [(n + '0' as int) as char];
  }

  lemma DigitAt(d: nat)
    requires d < 10
    ensures "0123456789"[d] as int == d + '0' as int
  {
  }

  lemma LengthLine(text: string)
    requires '\n' !in text
    ensures var line := "Content-Length: " + text;
            line != "" && '\n' !in line && StartsWith(line, CONTENT_LENGTH) && line[|CONTENT_LENGTH|..] == text
  {
    NameHasNoReturn();
    var line := CONTENT_LENGTH + text;
    assert forall i | 0 <= i < |line| ::
             line[i] == if i < |CONTENT_LENGTH| then CONTENT_LENGTH[i] else text[i - |CONTENT_LENGTH|];
    forall i | 0 <= i < |line| ensures line[i] != '\n' {
      if i >= |CONTENT_LENGTH| { assert text[i - |CONTENT_LENGTH|] in text; }
    }
  }

  /** Of several lengths the last one counts, whatever follows its digits on the line. */
  lemma LastLengthCounts(n: nat, junk: string, more: string, length: nat)
    requires n < 0x1_0000_0000_0000_0000 && '\n' !in junk && (junk == "" || !('0' <= junk[0] <= '9'))
    ensures Headers("Content-Length: " + (Decimal(n) + junk) + ("\n" + more), length) == Headers(more, n)
  {
    hide Headers, Decimal, FromChars;
    DecimalHasNoNewline(n, junk);
    LengthLine(Decimal(n) + junk);
    HeadersOfLine("Content-Length: " + (Decimal(n) + junk), more, length);
    FromDecimal(n, junk, length);
    HeadersSkipNewline(more, n);
  }

  lemma DecimalHasNoNewline(n: nat, junk: string)
    requires '\n' !in junk
    ensures '\n' !in Decimal(n) + junk
  {
    var d := Decimal(n);
    assert forall i | 0 <= i < |d| :: IsDigit(d[i]);
  }

  /** A length that is no number, or does not fit into 64 bits, changes nothing. */
  lemma BadLengthIgnored(text: string, more: string, length: nat)
    requires '\n' !in text
    requires text == "" || !('0' <= text[0] <= '9')
             || exists n: nat, junk :: text == Decimal(n) + junk && n >= 0x1_0000_0000_0000_0000
                                  && (junk == "" || !('0' <= junk[0] <= '9'))
    ensures Headers("Content-Length: " + text + ("\n" + more), length) == Headers(more, length)
  {
    hide Headers, Decimal;
    LengthLine(text);
    HeadersOfLine("Content-Length: " + text, more, length);
    if text != "" && '0' <= text[0] <= '9' {
      var n: nat, junk :| text == Decimal(n) + junk && n >= SIZE_T && (junk == "" || !('0' <= junk[0] <= '9'));
      TooLong(n, junk, length);
    }
    HeadersSkipNewline(more, length);
  }

  lemma TooLong(n: nat, junk: string, length: nat)
    requires n >= SIZE_T && (junk == "" || !IsDigit(junk[0]))
    ensures FromChars(Decimal(n) + junk, length) == length
  {
    DigitsThen(Decimal(n), junk);
    ValueOfDecimal(n);
    assert (Decimal(n) + junk)[..|Decimal(n)|] == Decimal(n);
  }

  /** The empty line ends the headers. */
  lemma EmptyLineEnds(more: string, length: nat)
    ensures Headers("\r\n" + more, length) == Some((length, more))
  {
    hide Headers;
    HeadersOfLine("\r", more, length);
    assert "\r" + ("\n" + more) == "\r\n" + more;
  }

  lemma UnfinishedLine(s: string, length: nat)
    requires '\n' !in s
    ensures Headers(s, length) == None
  {
    if s != "" {
      assert s[0] in s;
      NoWordEnd(s, 0);
    }
  }

  lemma {:induction false} NoWordEnd(s: string, b: nat)
    requires '\n' !in s && b <= |s|
    ensures WordEnd(s, b) == |s|
    decreases |s| - b
  {
    if b < |s| { NoWordEnd(s, b + 1); }
  }

  /** The line with the length has arrived, and of what follows it only a part. */
  lemma TruncatedBehindLine(msg: string, part: string)
    requires 1 <= |msg| <= MESSAGE_SIZE_LIMIT
    requires part == "" || part == "\r" || (StartsWith(part, "\r\n") && |part| < |msg| + 2)
    ensures ReadFrom((CONTENT_LENGTH + Decimal(|msg|) + "\r") + ("\n" + part)) == Ended
  {
    hide Headers, FromChars;
    LineOfLength(|msg|);
    HeadersOfLine(CONTENT_LENGTH + Decimal(|msg|) + "\r", part, 0);
    FromDecimal(|msg|, "\r", 0);
    HeadersSkipNewline(part, |msg|);
    if StartsWith(part, "\r\n") {
      assert part == "\r\n" + part[2..];
      EmptyLineEnds(part[2..], |msg|);
    } else {
      UnfinishedLine(part, |msg|);
    }
  }

  /** Of a message that was cut off nothing is delivered: the stream has ended. */
  lemma TruncatedEnds(msg: string, k: nat)
    requires 1 <= |msg| <= 0x4000_0000 && k < |Framed(msg)|
    ensures ReadFrom(Framed(msg)[..k]) == Ended
  {
    hide Headers, Decimal, ReadFrom;
    var line := CONTENT_LENGTH + Decimal(|msg|) + "\r";
    var back := "\r" + ("\n" + msg);
    FramedLines(msg, "");
    assert Framed(msg) + "" == Framed(msg) && msg + "" == msg;
    LineOfLength(|msg|);
    if k <= |line| {
      assert Framed(msg)[..k] == line[..k];
      UnfinishedLine(line[..k], 0);
      EndedWithoutHeaders(line[..k]);
    } else {
      var j := k - |line| - 1;
      assert Framed(msg)[..k] == line + ("\n" + back[..j]);
      FrontOfBack(msg, j);
      TruncatedBehindLine(msg, back[..j]);
    }
  }

  lemma EndedWithoutHeaders(s: string)
    requires Headers(s, 0) == None
    ensures ReadFrom(s) == Ended
  {
  }

  lemma FrontOfBack(msg: string, j: nat)
    requires j < |msg| + 2
    ensures var part := ("\r" + ("\n" + msg))[..j];
            part == "" || part == "\r" || (StartsWith(part, "\r\n") && |part| < |msg| + 2)
  {
    var part := ("\r" + ("\n" + msg))[..j];
    if j == 1 { assert part == "\r"; }
    if j >= 2 { assert part[..2] == "\r\n"; }
  }

  // ----- the incremental reader -----

  lemma {:induction false} FindInMore(s: string, p: string, t: string, i: nat)
    requires i <= |s| && p != ""
    ensures Find(s, p, i) < |s| ==> Find(s + t, p, i) == Find(s, p, i)
    decreases |s| - i
  {
    if i < |s| {
      if p <= s[i..] {
        assert (s + t)[i..] == s[i..] + t;
      } else if Find(s, p, i) < |s| {
        FindInMore(s, p, t, i + 1);
        FoundLater(s, p, t, i);
      }
    }
  }

  /** A match that reaches into the added bytes does not hide one that lies before. */
  lemma FoundLater(s: string, p: string, t: string, i: nat)
    requires i < |s| && p != "" && !(p <= s[i..]) && Find(s, p, i) < |s|
    ensures !(p <= (s + t)[i..])
  {
    var j := Find(s, p, i);
    FindFits(s, p, i);
    FindAfter(s, p, i);
    assert |s| - i > |p|;
    assert (s + t)[i..][..|p|] == s[i..][..|p|];
  }

  lemma FindAfter(s: string, p: string, i: nat)
    requires i < |s| && !(p <= s[i..])
    ensures Find(s, p, i) > i
  {
  }

  lemma {:induction false} DigitsInFull(s: string)
    ensures Digits(s) == |s| <==> forall i | 0 <= i < |s| :: IsDigit(s[i])
  {
    if s != "" && IsDigit(s[0]) {
      DigitsInFull(s[1..]);
      assert forall i | 0 < i < |s| :: s[i] == s[1..][i - 1];
    }
  }

  /** More bytes do not change a decision that has been made. */
  lemma RoundStays(s: string, t: string)
    ensures var r := RoundOf(s);
            match r {
              case Wait => true
              case Unmodelled => RoundOf(s + t).Unmodelled?
              case Frame(header, payload, rest) => RoundOf(s + t) == Frame(header, payload, rest + t)
            }
  {
    hide Find, Number, StartsWith;
    if !RoundOf(s).Wait? {
      FindInMore(s, LINE_END, t, 0);
      FindInMore(s, HEADER_END, t, 0);
      FindPlaces(s);
      var endOfLine := Find(s, LINE_END, 0);
      var dataStart := Find(s, HEADER_END, 0) + |HEADER_END|;
      StartsInMore(s, t, CONTENT_LENGTH);
      SlicesOfMore(s, t, |CONTENT_LENGTH|, endOfLine);
      var n := Number(s[|CONTENT_LENGTH|..endOfLine]);
      if RoundOf(s).Frame? { SlicesOfMore(s, t, dataStart, dataStart + n.value); }
    }
  }

  lemma StartsInMore(s: string, t: string, p: string)
    requires StartsWith(s, p)
    ensures StartsWith(s + t, p)
  {
  }

  lemma SlicesOfMore(s: string, t: string, a: nat, b: nat)
    requires a <= b <= |s|
    ensures (s + t)[a..b] == s[a..b] && (s + t)[..a] == s[..a] && (s + t)[b..] == s[b..] + t
  {
  }

  /** Cutting frames off as chunks arrive is cutting them off the whole. */
  lemma {:induction false} FramesOfMore(s: string, t: string)
    ensures var (frames, rest) := Frames(s);
            Frames(s + t) == (frames + Frames(rest + t).0, Frames(rest + t).1)
    decreases |s|
  {
    hide RoundOf;
    var round := RoundOf(s);
    RoundStays(s, t);
    if round.Frame? {
      FramesOfMore(round.rest, t);
      var (frames, rest) := Frames(round.rest);
      var frame := (round.header, round.payload);
      assert [frame] + (frames + Frames(rest + t).0) == ([frame] + frames) + Frames(rest + t).0;
    } else {
      assert [] + Frames(s + t).0 == Frames(s + t).0;
    }
  }

  lemma PayloadsOfMore(a: seq<(string, string)>, b: seq<(string, string)>)
    ensures Payloads(a + b) == Payloads(a) + Payloads(b)
  {
  }

  function Joined(chunks: seq<string>): (s: string)
  {
    if chunks == [] then "" else Joined(chunks[..|chunks| - 1]) + chunks[|chunks| - 1]
  }

  /** A handler that has received the chunks, in this order and nothing else, has committed the
      frames of the whole stream and keeps its remainder: how the stream was cut is invisible. */
  method Receive(chunks: seq<string>) returns (h: StdinHandler)
    ensures fresh(h)
    ensures h.queue == Payloads(Frames(Joined(chunks)).0) && h.buffer == Frames(Joined(chunks)).1
  {
    h := new StdinHandler();
    EmptyFrames();
    for k := 0 to |chunks|
      invariant fresh(h)
      invariant h.queue == Payloads(Frames(Joined(chunks[..k])).0) && h.buffer == Frames(Joined(chunks[..k])).1
    {
      ghost var s := Joined(chunks[..k]);
      assert chunks[..k + 1][..k] == chunks[..k];
      FramesOfMore(s, chunks[k]);
      PayloadsOfMore(Frames(s).0, Frames(Frames(s).1 + chunks[k]).0);
      var modelled := h.DataEventHandler(chunks[k]);
    }
    assert chunks[..|chunks|] == chunks;
  }

  lemma EmptyFrames()
    ensures Frames("") == ([], "")
  {
  }

  function Bytes(frames: seq<(string, string)>): (s: string)
  {
    if frames == [] then "" else frames[0].0 + frames[0].1 + Bytes(frames[1..])
  }

  /** No byte is lost or doubled: committed frames and buffer make up what was received. */
  lemma {:induction false} FramesConserve(s: string)
    ensures Bytes(Frames(s).0) + Frames(s).1 == s
    decreases |s|
  {
    hide RoundOf;
    var round := RoundOf(s);
    if round.Frame? {
      FramesConserve(round.rest);
      var frames := Frames(round.rest).0;
      var frame := (round.header, round.payload);
      assert ([frame] + frames)[1..] == frames;
      assert (round.header + round.payload + Bytes(frames)) + Frames(s).1
          == round.header + round.payload + (Bytes(frames) + Frames(s).1);
    }
  }

  // ----- the round trip through the incremental reader -----

  lemma {:induction false} FirstFound(s: string, p: string, i: nat, n: nat)
    requires i <= n < |s| && p <= s[n..] && forall k | i <= k < n :: !(p <= s[k..])
    ensures Find(s, p, i) == n
    decreases n - i
  {
    if i < n { FirstFound(s, p, i + 1, n); }
  }

  /** Header and length hold no line end, so the first one is the one written there. */
  lemma FirstReturn(front: string, p: string, back: string)
    requires forall i | 0 <= i < |front| :: front[i] != '\r'
    requires p != "" && p[0] == '\r' && p <= back
    ensures Find(front + back, p, 0) == |front|
  {
    var s := front + back;
    assert s[|front|..] == back;
    forall k | 0 <= k < |front| ensures !(p <= s[k..]) {
      assert s[k..][0] == front[k];
    }
    FirstFound(s, p, 0, |front|);
  }

  lemma FrontHasNoReturn(n: nat)
    ensures var front := CONTENT_LENGTH + Decimal(n); forall i | 0 <= i < |front| :: front[i] != '\r'
  {
    NameHasNoReturn();
    var d := Decimal(n);
    assert forall i | 0 <= i < |d| :: IsDigit(d[i]);
  }

  /** Where the parts of a written message lie in the buffer. */
  lemma FramedPlaces(front: string, d: string, msg: string, rest: string)
    requires front == CONTENT_LENGTH + d && forall i | 0 <= i < |front| :: front[i] != '\r'
    ensures var s := front + (HEADER_END + (msg + rest));
            && StartsWith(s, CONTENT_LENGTH)
            && Find(s, LINE_END, 0) == |front| && Find(s, HEADER_END, 0) == |front|
            && s[|CONTENT_LENGTH|..|front|] == d
  {
    hide Find;
    var back := HEADER_END + (msg + rest);
    assert HEADER_END == LINE_END + LINE_END;
    FirstReturn(front, LINE_END, back);
    FirstReturn(front, HEADER_END, back);
  }

  lemma FramedSlices(a: string, msg: string, rest: string)
    ensures var s := a + (msg + rest);
            s[..|a|] == a && s[|a|..|a| + |msg|] == msg && s[|a| + |msg|..] == rest
  {
  }

  lemma NumberOfDecimal(n: nat)
    ensures Number(Decimal(n)) == Some(n)
  {
    DigitsThen(Decimal(n), "");
    assert Decimal(n) + "" == Decimal(n);
    ValueOfDecimal(n);
  }

  lemma RoundAt(s: string, e: nat, n: nat)
    requires StartsWith(s, CONTENT_LENGTH) && |CONTENT_LENGTH| <= e < |s|
    requires Find(s, LINE_END, 0) == e && Find(s, HEADER_END, 0) == e
    requires Number(s[|CONTENT_LENGTH|..e]) == Some(n) && e + 4 + n <= |s|
    ensures RoundOf(s) == Frame(s[..e + 4], s[e + 4..e + 4 + n], s[e + 4 + n..])
  {
    hide Find, Number, StartsWith;
  }

  lemma Associated(a: string, b: string, c: string, d: string, e: string)
    ensures (a + b) + (c + (d + e)) == (a + b + c) + (d + e) == (a + b + c + d) + e
  {
  }

  /** The text of a written message, grouped for the search. */
  lemma FramedGroups(msg: string, rest: string)
    ensures var front := CONTENT_LENGTH + Decimal(|msg|);
            && Framed(msg) + rest == front + (HEADER_END + (msg + rest))
            && Framed(msg) + rest == (front + HEADER_END) + (msg + rest)
            && |front + HEADER_END| == |front| + 4
  {
    hide Decimal;
    Associated(CONTENT_LENGTH, Decimal(|msg|), HEADER_END, msg, rest);
  }

  lemma RoundOfFramed(msg: string, rest: string)
    ensures RoundOf(Framed(msg) + rest) == Frame(CONTENT_LENGTH + Decimal(|msg|) + HEADER_END, msg, rest)
  {
    hide Decimal, Number, Find, RoundOf, StartsWith, Framed;
    var front := CONTENT_LENGTH + Decimal(|msg|);
    var s := Framed(msg) + rest;
    FramedGroups(msg, rest);
    FrontHasNoReturn(|msg|);
    FramedPlaces(front, Decimal(|msg|), msg, rest);
    NumberOfDecimal(|msg|);
    RoundAt(s, |front|, |msg|);
    FramedSlices(front + HEADER_END, msg, rest);
  }

  /** Written messages of any length come out of the incremental reader, in order, and nothing
      stays in the buffer. */
  lemma {:induction false} WrittenIsFramed(msgs: seq<string>)
    ensures Payloads(Frames(FramedAll(msgs)).0) == msgs && Frames(FramedAll(msgs)).1 == ""
  {
    hide RoundOf;
    if msgs == [] {
      EmptyFrames();
    } else {
      RoundOfFramed(msgs[0], FramedAll(msgs[1..]));
      WrittenIsFramed(msgs[1..]);
      var frames := Frames(FramedAll(msgs[1..])).0;
      PayloadsOfMore([(CONTENT_LENGTH + Decimal(|msgs[0]|) + HEADER_END, msgs[0])], frames);
      assert [msgs[0]] + msgs[1..] == msgs;
    }
  }
}

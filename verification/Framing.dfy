/** Messages behind `Content-Length` headers: the writer and the reader over a stream
    (language_server/src/base_protocol_channel.cpp, with the newline-only white space of
    language_server/src/stream_helper.cpp). */
module Framing {
  import opened Basics

  const CONTENT_LENGTH := "Content-Length: "
  const HEADER_END := "\r\n\r\n"
  const MESSAGE_SIZE_LIMIT := 0x4000_0000
  const SIZE_T := 0x1_0000_0000_0000_0000

  // ----- decimal numbers -----

  predicate IsDigit(c: char) { '0' <= c <= '9' }

  /** `std::to_string` */
  function Decimal(n: nat): (s: string)
    ensures s != "" && forall i | 0 <= i < |s| :: IsDigit(s[i])
  {
    if n < 10 then [(n + '0' as int) as char] else Decimal(n / 10) + [(n % 10 + '0' as int) as char]
  }

  function Value(s: string): (n: nat)
    requires forall i | 0 <= i < |s| :: IsDigit(s[i])
  {
    if s == "" then 0
    else assert IsDigit(s[|s| - 1]); 10 * Value(s[..|s| - 1]) + (s[|s| - 1] as int - '0' as int)
  }

  /** How many digits the text begins with. */
  function Digits(s: string): (k: nat)
    ensures k <= |s| && forall i | 0 <= i < k :: IsDigit(s[i])
  {
    if s == "" || !IsDigit(s[0]) then 0 else 1 + Digits(s[1..])
  }

  /** `std::from_chars` into a `size_t`: a value that does not fit leaves the old one. */
  function FromChars(s: string, old_: nat): (n: nat)
  {
    if Digits(s) == 0 || Value(s[..Digits(s)]) >= SIZE_T then old_ else Value(s[..Digits(s)])
  }

  lemma {:induction false} ValueOfDecimal(n: nat)
    ensures Value(Decimal(n)) == n
  {
    if n >= 10 {
      ValueOfDecimal(n / 10);
      assert Decimal(n)[..|Decimal(n)| - 1] == Decimal(n / 10);
    } else {
      assert Decimal(n)[..0] == "";
    }
  }

  lemma {:induction false} DigitsThen(d: string, rest: string)
    requires (forall i | 0 <= i < |d| :: IsDigit(d[i])) && (rest == "" || !IsDigit(rest[0]))
    ensures Digits(d + rest) == |d|
  {
    if d == "" {
      assert d + rest == rest;
    } else {
      assert (d + rest)[1..] == d[1..] + rest;
      DigitsThen(d[1..], rest);
    }
  }

  /** Reading back a written length. */
  lemma FromDecimal(n: nat, rest: string, old_: nat)
    requires n < SIZE_T && (rest == "" || !IsDigit(rest[0]))
    ensures FromChars(Decimal(n) + rest, old_) == n
  {
    DigitsThen(Decimal(n), rest);
    ValueOfDecimal(n);
    assert (Decimal(n) + rest)[..|Decimal(n)|] == Decimal(n);
  }

  // ----- the writer -----

  /** The bytes of one message on the wire. */
  function Framed(msg: string): (s: string)
  {
    CONTENT_LENGTH + Decimal(|msg|) + HEADER_END + msg
  }

  function FramedAll(msgs: seq<string>): (s: string)
  {
    if msgs == [] then "" else Framed(msgs[0]) + FramedAll(msgs[1..])
  }

  class OutputStream {
    var data: string
    var good: bool

    constructor ()
      ensures data == "" && good
    {
      data, good := "", true;
    }

    method Write(s: string)
      modifies this`data
      ensures data == old(data) + s
    {
      data := data + s;
    }

    /** `write_message` */
    method WriteMessage(msg: string)
      modifies this`data
      ensures data == if good then old(data) + Framed(msg) else old(data)
    {
      if !good {
        return;
      }
      Write(CONTENT_LENGTH);
      Write(Decimal(|msg|));
      Write(HEADER_END);
      Write(msg);
    }
  }

  // ----- the reader, as a function of the bytes to come -----

  /** The next word begins behind the newlines. */
  function WordStart(s: string): (b: nat)
    ensures b <= |s| && (b < |s| ==> s[b] != '\n')
  {
    if s == "" || s[0] != '\n' then 0 else 1 + WordStart(s[1..])
  }

  function WordEnd(s: string, b: nat): (e: nat)
    requires b <= |s|
    ensures b <= e <= |s| && (e < |s| ==> s[e] == '\n') && (b < |s| && s[b] != '\n' ==> b < e)
    decreases |s| - b
  {
    if b == |s| || s[b] == '\n' then b else WordEnd(s, b + 1)
  }

  lemma {:induction false} WordEndShift(s: string, b: nat, k: nat)
    requires b <= |s| && k <= |s| - b
    ensures WordEnd(s, b + k) == b + WordEnd(s[b..], k)
    decreases |s| - b - k
  {
    if b + k < |s| && s[b + k] != '\n' { WordEndShift(s, b, k + 1); }
  }

  lemma SameWord(s: string, b: nat)
    requires b <= |s|
    ensures var e := WordEnd(s, b);
            WordEnd(s[b..], 0) == e - b && s[b..][..e - b] == s[b..e] && s[b..][e - b..] == s[e..]
  {
    WordEndShift(s, b, 0);
  }

  /** What the header loop arrives at: the length and the bytes behind the empty line, or the end
      of the stream. */
  function Headers(s: string, length: nat): (r: Option<(nat, string)>)
    ensures r.Some? ==> |r.value.1| < |s|
    decreases |s|
  {
    var b := WordStart(s);
    if b == |s| then None
    else
      var e := WordEnd(s, b);
      var line := s[b..e];
      if e == |s| then None
      else if StartsWith(line, CONTENT_LENGTH) then Headers(s[e..], FromChars(line[|CONTENT_LENGTH|..], length))
      else if line == "\r" then Some((length, s[e + 1..]))
      else Headers(s[e..], length)
  }

  /** The length when the stream ends inside the line break that would end the headers: the loop
      is left all the same. */
  function CutAtReturn(s: string, length: nat): (n: Option<nat>)
    decreases |s|
  {
    var b := WordStart(s);
    if b == |s| then None
    else
      var e := WordEnd(s, b);
      var line := s[b..e];
      if e == |s| then (if !StartsWith(line, CONTENT_LENGTH) && line == "\r" then Some(length) else None)
      else if StartsWith(line, CONTENT_LENGTH) then CutAtReturn(s[e..], FromChars(line[|CONTENT_LENGTH|..], length))
      else if line == "\r" then None
      else CutAtReturn(s[e..], length)
  }

  predicate AllowedSize(n: nat)
  {
    1 <= n <= MESSAGE_SIZE_LIMIT
  }

  /** `out.resize(n)` */
  function Resized(out: string, n: nat): (r: string)
    ensures |r| == n
  {
    if n <= |out| then out[..n] else out + seq(n - |out|, _ => 0 as char)
  }

  /** What stands in the output buffer after a failed read. */
  function Leftover(s: string, out: string): (r: string)
  {
    match Headers(s, 0)
    case Some((n, rest)) =>
      if AllowedSize(n) && |rest| < n then rest + Resized(out, n)[|rest|..] else out
    case None =>
      var n := CutAtReturn(s, 0);
      if n.Some? && AllowedSize(n.value) then Resized(out, n.value) else out
  }

  /** What one `read_message` does: deliver a message, refuse one while the stream stays good, or
      run into the end of the stream. */
  datatype Reading = Message(msg: string, rest: string) | Refused(rest: string) | Ended

  function ReadFrom(s: string): (r: Reading)
    ensures r.Message? ==> |r.rest| < |s|
    ensures r.Refused? ==> |r.rest| < |s|
  {
    var h := Headers(s, 0);
    if h.None? then Ended
    else
      var (n, rest) := h.value;
      if n > MESSAGE_SIZE_LIMIT || n == 0 then Refused(rest)
      else if n > |rest| then Ended
      else Message(rest[..n], rest[n..])
  }

  /** All messages `read` gets to see until the stream ends. */
  function Delivered(s: string): (msgs: seq<string>)
    decreases |s|
  {
    match ReadFrom(s)
    case Message(msg, rest) => [msg] + Delivered(rest)
    case Refused(rest) => Delivered(rest)
    case Ended => []
  }

  lemma DeliveredFirst(s: string)
    ensures match ReadFrom(s) {
              case Message(msg, rest) => |rest| < |s| && Delivered(s) == [msg] + Delivered(rest)
              case Refused(rest) => |rest| < |s| && Delivered(s) == Delivered(rest)
              case Ended => Delivered(s) == []
            }
  {
    hide ReadFrom;
  }

  // ----- the reader -----

  /** A stream over bytes, with the flags of `std::istream`. */
  class InputStream {
    var rest: string
    var eof: bool
    var fail: bool

    constructor (data: string)
      ensures rest == data && !eof && !fail
    {
      rest, eof, fail := data, false, false;
    }

    /** `input >> line` */
    method ReadWord(line: string) returns (word: string)
      modifies this
      ensures old(eof || fail) ==> fail && word == line && rest == old(rest) && eof == old(eof)
      ensures !old(eof || fail) && WordStart(old(rest)) == |old(rest)| ==>
                eof && fail && word == line && rest == ""
      ensures !old(eof || fail) && WordStart(old(rest)) < |old(rest)| ==>
                var b := WordStart(old(rest));
                var e := WordEnd(old(rest), b);
                !fail && word == old(rest)[b..e] && rest == old(rest)[e..] && (eof <==> e == |old(rest)|)
    {
      word := line;
      if eof || fail {
        fail := true;
        return;
      }
      SkipNewlines();
      if rest == "" {
        eof, fail := true, true;
        return;
      }
      word := TakeWord();
      ghost var b := WordStart(old(rest));
      SameWord(old(rest), b);
      if rest == "" {
        eof := true;
      }
    }

    method SkipNewlines()
      modifies this`rest
      ensures rest == old(rest)[WordStart(old(rest))..]
    {
      while rest != "" && rest[0] == '\n'
        invariant |rest| <= |old(rest)| && rest == old(rest)[|old(rest)| - |rest|..]
        invariant WordStart(old(rest)) == |old(rest)| - |rest| + WordStart(rest)
        decreases |rest|
      {
        rest := rest[1..];
      }
    }

    method TakeWord() returns (word: string)
      modifies this`rest
      ensures word == old(rest)[..WordEnd(old(rest), 0)] && rest == old(rest)[WordEnd(old(rest), 0)..]
    {
      word := "";
      while rest != "" && rest[0] != '\n'
        invariant |word| + |rest| == |old(rest)| && word == old(rest)[..|word|] && rest == old(rest)[|word|..]
        invariant WordEnd(old(rest), 0) == WordEnd(old(rest), |word|)
        decreases |rest|
      {
        assert old(rest)[|word|] == rest[0];
        word := word + [rest[0]];
        rest := rest[1..];
      }
    }

    /** `input.ignore()` */
    method Ignore()
      modifies this
      ensures old(eof || fail) ==> fail && rest == old(rest) && eof == old(eof)
      ensures !old(eof || fail) && old(rest) != "" ==> !fail && !eof && rest == old(rest)[1..]
      ensures !old(eof || fail) && old(rest) == "" ==> eof && rest == ""
    {
      if eof || fail {
        fail := true;
      } else if rest == "" {
        eof := true;
      } else {
        rest := rest[1..];
      }
    }

    /** `input.read`: the bytes there are, up to `n`. */
    method Read(n: nat) returns (bytes: string)
      modifies this
      ensures old(eof || fail) ==> bytes == "" && fail && rest == old(rest) && eof == old(eof)
      ensures !old(eof || fail) && n <= |old(rest)| ==>
                !eof && !fail && bytes == old(rest)[..n] && rest == old(rest)[n..]
      ensures !old(eof || fail) && n > |old(rest)| ==> eof && fail && bytes == old(rest) && rest == ""
    {
      if eof || fail {
        fail := true;
        return "";
      }
      if n <= |rest| {
        bytes, rest := rest[..n], rest[n..];
      } else {
        bytes, rest, eof, fail := rest, "", true, true;
      }
    }

    /** The header loop of `read_message`; `ok` unless the stream ended. */
    method ReadHeaders() returns (ok: bool, contentLength: nat)
      modifies this
      ensures !old(eof || fail) ==>
                var h := Headers(old(rest), 0);
                if h.None? then eof || fail else ok && contentLength == h.value.0 && rest == h.value.1 && !eof && !fail
      ensures !old(eof || fail) && Headers(old(rest), 0).None? ==>
                (if ok then Some(contentLength) else None) == CutAtReturn(old(rest), 0)
      ensures old(eof || fail) ==> !ok && (eof || fail)
    {
      ok, contentLength := false, 0;
      var line := "";
      ghost var s, bad := rest, eof || fail;
      while true
        invariant contentLength < SIZE_T && line != "\r"
        invariant !bad && !(eof || fail) ==> Headers(rest, contentLength) == Headers(s, 0)
        invariant !bad && (eof || fail) ==> Headers(s, 0).None? && CutAtReturn(s, 0).None?
        invariant !bad && !(eof || fail) ==> CutAtReturn(rest, contentLength) == CutAtReturn(s, 0)
        invariant bad ==> eof || fail
        decreases !(eof || fail), |rest|
      {
        if eof || fail {
          return;
        }
        line := ReadWord(line);
        if StartsWith(line, CONTENT_LENGTH) {
          contentLength := FromChars(line[|CONTENT_LENGTH|..], contentLength);
          continue;
        } else if line == "\r" {
          Ignore();
          ok := true;
          return;
        }
      }
    }

    /** `read_message` */
    method ReadMessage(out: string) returns (ok: bool, msg: string)
      modifies this
      ensures !old(eof || fail) ==>
                match ReadFrom(old(rest)) {
                  case Message(m, r) => ok && msg == m && rest == r && !eof && !fail
                  case Refused(r) => !ok && rest == r && !eof && !fail
                  case Ended => !ok && (eof || fail)
                }
      ensures !old(eof || fail) && !ok ==> msg == Leftover(old(rest), out)
      ensures old(eof || fail) ==> !ok && (eof || fail) && msg == out
    {
      hide Headers, CutAtReturn;
      msg := out;
      var contentLength;
      ok, contentLength := ReadHeaders();
      if !ok {
        return;
      }
      if contentLength > MESSAGE_SIZE_LIMIT || contentLength == 0 {
        ok := false;
        return;
      }
      ghost var s, good := rest, !eof && !fail;
      msg := Resized(out, contentLength);
      ghost var blank := msg;
      var pos := 0;
      while pos < contentLength
        invariant pos <= contentLength == |msg|
        invariant good && !(eof || fail) ==> msg[..pos] + rest == s && (pos == 0 || pos == contentLength)
        invariant good && (eof || fail) ==> |s| == pos < contentLength && msg[..pos] == s
        invariant !good ==> (eof || fail) && pos == 0
        invariant msg[pos..] == blank[pos..]
        decreases !(eof || fail), contentLength - pos
      {
        var read := Read(contentLength - pos);
        if read == "" {
          return false, msg;
        }
        msg, pos := msg[..pos] + read + msg[pos + |read|..], pos + |read|;
      }
    }

    /** `read` without the JSON parser: messages until the stream has ended. */
    method ReadAll() returns (msgs: seq<string>)
      requires !eof && !fail
      modifies this
      ensures msgs == Delivered(old(rest))
    {
      hide Delivered, ReadFrom, Leftover;
      msgs := [];
      ghost var s := rest;
      assert [] + Delivered(s) == Delivered(s);
      while !fail && !eof
        invariant Delivered(s) == if !fail && !eof then msgs + Delivered(rest) else msgs
        decreases !(eof || fail), |rest|
      {
        ghost var before := rest;
        DeliveredFirst(before);
        var ok, msg := ReadMessage("");
        if ok {
          assert msgs + ([msg] + Delivered(rest)) == (msgs + [msg]) + Delivered(rest);
          msgs := msgs + [msg];
        } else if eof || fail {
          assert msgs + [] == msgs;
        }
      }
    }
  }
}

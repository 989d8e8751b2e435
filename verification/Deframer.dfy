/** The handler of the `data` event that cuts messages out of incoming chunks
    (language_server/src/emscripten_server_streams.cpp). */
module Deframer {
  import opened Basics
  import opened Framing

  const LINE_END := "\r\n"

  /** `buffer.indexOf(p)` from position `i`; the length of the buffer when there is none. */
  function Find(s: string, p: string, i: nat): (j: nat)
    requires i <= |s|
    ensures i <= j <= |s|
    decreases |s| - i
  {
    if i == |s| || p <= s[i..] then i else Find(s, p, i + 1)
  }

  /** `+text` for a text of digits. What other texts convert to is not part of this model. */
  function Number(text: string): (n: Option<nat>)
  {
    if Digits(text) == |text| then Some(Value(text)) else None
  }

  /** What one round of the loop does with the buffer. */
  datatype Round = Wait | Unmodelled | Frame(header: string, payload: string, rest: string)

  function RoundOf(buffer: string): (r: Round)
    ensures r.Frame? ==> buffer == r.header + r.payload + r.rest && r.header != ""
  {
    if !StartsWith(buffer, CONTENT_LENGTH) then Wait
    else
      var endOfLine := Find(buffer, LINE_END, 0);
      var endOfHeaders := Find(buffer, HEADER_END, 0);
      if endOfLine == |buffer| || endOfHeaders == |buffer| then Wait
      else
        FindPlaces(buffer);
        var n := Number(buffer[|CONTENT_LENGTH|..endOfLine]);
        var dataStart := endOfHeaders + |HEADER_END|;
        if n.None? then Unmodelled
        else if dataStart + n.value > |buffer| then Wait
        else Frame(buffer[..dataStart], buffer[dataStart..dataStart + n.value], buffer[dataStart + n.value..])
  }

  lemma {:induction false} FindFits(s: string, p: string, i: nat)
    requires i <= |s| && p != "" && Find(s, p, i) < |s|
    ensures p <= s[Find(s, p, i)..] && Find(s, p, i) + |p| <= |s|
    decreases |s| - i
  {
    if !(p <= s[i..]) { FindFits(s, p, i + 1); }
  }

  /** The line ends behind the header name, and the headers end inside the buffer. */
  lemma FindPlaces(buffer: string)
    requires StartsWith(buffer, CONTENT_LENGTH)
    requires Find(buffer, LINE_END, 0) < |buffer| && Find(buffer, HEADER_END, 0) < |buffer|
    ensures |CONTENT_LENGTH| <= Find(buffer, LINE_END, 0)
    ensures Find(buffer, HEADER_END, 0) + |HEADER_END| <= |buffer|
  {
    hide Find;
    var e := Find(buffer, LINE_END, 0);
    FindFits(buffer, LINE_END, 0);
    FindFits(buffer, HEADER_END, 0);
    assert buffer[e] == LINE_END[0];
    NameHasNoReturn();
    assert forall i | 0 <= i < |CONTENT_LENGTH| :: buffer[i] == CONTENT_LENGTH[i];
  }

  lemma NameHasNoReturn()
    ensures forall i | 0 <= i < |CONTENT_LENGTH| :: CONTENT_LENGTH[i] != '\r' && CONTENT_LENGTH[i] != '\n'
  {
  }

  // ----- what a round cuts off -----

  /** The text stands at position `i` and nowhere before. */
  ghost predicate StandsFirst(s: string, p: string, i: nat)
  {
    i + |p| <= |s| && p <= s[i..] && forall j | 0 <= j < i :: !(p <= s[j..])
  }

  lemma {:induction false} FindIsFirst(s: string, p: string, i: nat)
    requires p != "" && i <= |s| && forall j | 0 <= j < i :: !(p <= s[j..])
    ensures Find(s, p, i) < |s| ==> StandsFirst(s, p, Find(s, p, i))
    ensures Find(s, p, i) == |s| ==> forall j | 0 <= j < |s| :: !(p <= s[j..])
    decreases |s| - i
  {
    if i < |s| && !(p <= s[i..]) { FindIsFirst(s, p, i + 1); }
  }

  lemma FirstIsFound(s: string, p: string, i: nat)
    requires p != ""
    ensures StandsFirst(s, p, i) <==> i == Find(s, p, 0) < |s|
  {
    hide Find;
    FindIsFirst(s, p, 0);
    var f := Find(s, p, 0);
    if StandsFirst(s, p, i) {
      assert i < |s| && p <= s[i..];
    }
  }

  /** A frame in front of the buffer: the header names the length, the empty line ends it. */
  ghost predicate CutsInto(buffer: string, header: string, payload: string, rest: string)
  {
    && buffer == header + payload + rest && StartsWith(buffer, CONTENT_LENGTH)
    && |header| >= |HEADER_END| && StandsFirst(buffer, HEADER_END, |header| - |HEADER_END|)
    && exists e: nat :: |CONTENT_LENGTH| <= e && StandsFirst(buffer, LINE_END, e)
                        && Number(buffer[|CONTENT_LENGTH|..e]) == Some(|payload|)
  }

  /** A round cuts a frame off if and only if there is one in front, and it is that frame. */
  lemma FrameIff(buffer: string, header: string, payload: string, rest: string)
    ensures RoundOf(buffer) == Frame(header, payload, rest) <==> CutsInto(buffer, header, payload, rest)
  {
    hide Find, Number;
    var e, h := Find(buffer, LINE_END, 0), Find(buffer, HEADER_END, 0);
    FirstIsFound(buffer, LINE_END, e);
    FirstIsFound(buffer, HEADER_END, h);
    if RoundOf(buffer) == Frame(header, payload, rest) {
      FindPlaces(buffer);
      assert |header| == h + |HEADER_END|;
    } else if CutsInto(buffer, header, payload, rest) {
      FirstIsFound(buffer, HEADER_END, |header| - |HEADER_END|);
      var e': nat :| |CONTENT_LENGTH| <= e' && StandsFirst(buffer, LINE_END, e')
                     && Number(buffer[|CONTENT_LENGTH|..e']) == Some(|payload|);
      FirstIsFound(buffer, LINE_END, e');
      PartsOf(buffer, header, payload, rest);
    }
  }

  lemma PartsOf(buffer: string, header: string, payload: string, rest: string)
    requires buffer == header + payload + rest
    ensures |header| + |payload| <= |buffer|
    ensures buffer[..|header|] == header && buffer[|header|..|header| + |payload|] == payload
    ensures buffer[|header| + |payload|..] == rest
  {
  }

  /** Header and payload of the frames cut off the front, and the buffer that remains. */
  function Frames(buffer: string): (r: (seq<(string, string)>, string))
    ensures |r.1| <= |buffer|
    decreases |buffer|
  {
    var round := RoundOf(buffer);
    if round.Frame? then
      var (frames, rest) := Frames(round.rest);
      ([(round.header, round.payload)] + frames, rest)
    else ([], buffer)
  }

  function Payloads(frames: seq<(string, string)>): (r: seq<string>)
    ensures |r| == |frames|
  {
    seq(|frames|, i requires 0 <= i < |frames| => frames[i].1)
  }

  /** One round of the loop of `data_event_handler`. */
  method CutFrame(buffer: string) returns (round: Round)
    ensures round == RoundOf(buffer)
    ensures round.Frame? ==> CutsInto(buffer, round.header, round.payload, round.rest)
    ensures !round.Frame? ==> forall header, payload, rest :: !CutsInto(buffer, header, payload, rest)
  {
    hide Find, Number, CutsInto;
    forall header, payload, rest
      ensures RoundOf(buffer) == Frame(header, payload, rest) <==> CutsInto(buffer, header, payload, rest)
    {
      FrameIff(buffer, header, payload, rest);
    }
    if !StartsWith(buffer, CONTENT_LENGTH) {
      return Wait;
    }
    var endOfLine := Find(buffer, LINE_END, 0);
    if endOfLine == |buffer| {
      return Wait;
    }
    var endOfHeaders := Find(buffer, HEADER_END, 0);
    if endOfHeaders == |buffer| {
      return Wait;
    }
    FindPlaces(buffer);
    var length := Number(buffer[|CONTENT_LENGTH|..endOfLine]);
    if length.None? {
      return Unmodelled;
    }
    var dataStart := endOfHeaders + |HEADER_END|;
    var dataEnd := dataStart + length.value;
    if dataEnd > |buffer| {
      return Wait;
    }
    round := Frame(buffer[..dataStart], buffer[dataStart..dataEnd], buffer[dataEnd..]);
  }

  lemma FrameDone(done: seq<(string, string)>, frame: (string, string), more: seq<(string, string)>)
    ensures done + ([frame] + more) == (done + [frame]) + more
    ensures Payloads(done + [frame]) == Payloads(done) + [frame.1]
  {
  }

  class StdinHandler {
    var buffer: string
    /** The messages committed to the queue of the server. */
    var queue: seq<string>

    constructor ()
      ensures buffer == "" && queue == []
    {
      buffer, queue := "", [];
    }

    /** `data_event_handler`; `modelled` is false where the length is no plain number. */
    method DataEventHandler(data: string) returns (modelled: bool)
      modifies this
      ensures buffer == Frames(old(buffer) + data).1
      ensures queue == old(queue) + Payloads(Frames(old(buffer) + data).0)
      ensures modelled <==> !RoundOf(buffer).Unmodelled?
    {
      hide RoundOf;
      buffer := buffer + data;
      ghost var done: seq<(string, string)> := [];
      assert done + Frames(buffer).0 == Frames(buffer).0;
      assert queue == old(queue) + Payloads(done);
      while true
        invariant Frames(old(buffer) + data) == (done + Frames(buffer).0, Frames(buffer).1)
        invariant queue == old(queue) + Payloads(done)
        decreases |buffer|
      {
        var round := CutFrame(buffer);
        if !round.Frame? {
          assert done + [] == done;
          return !round.Unmodelled?;
        }
        ghost var frame := (round.header, round.payload);
        FrameDone(done, frame, Frames(round.rest).0);
        done := done + [frame];
        queue := queue + [round.payload];
        buffer := round.rest;
      }
    }
  }
}

/** `external_file_reader`: requests of worker threads, responses on other threads, and threads
    that register and unregister, interleaved at the mutex
    (language_server/src/external_file_reader.cpp). */
module ExternalReader {

  /** Where a thread stands: asking for a file or directory, it holds an id; after
      `enqueue_message` it has a message to send or an error to report. Writing a response, it
      holds an extracted handler, then the thread to wake. */
  datatype Pc =
    | Idle
    | HasId(id: nat, content: nat) | Failed(id: nat, content: nat) | Sending(id: nat)
    | Handling(id: nat, content: nat, tid: nat, response: nat) | Waking(tid: nat)

  /** A pending request: the thread that asked, and the handler, known by its response object. */
  datatype Request = Request(tid: nat, content: nat)

  /** A call of a handler: for which request, on which response object, by which response. */
  datatype Call = Call(id: nat, content: nat, response: nat)

  datatype State = State(nextId: nat, pending: map<nat, Request>, registered: set<nat>, pcs: map<nat, Pc>,
                         contents: map<nat, nat>, sent: seq<nat>,
                         failed: seq<nat>, handled: seq<Call>, dropped: set<nat>)

  const INITIAL := State(1, map[], {}, map[], map[], [], [], [], {})

  function PcOf(s: State, t: nat): (pc: Pc)
  {
    if t in s.pcs then s.pcs[t] else Idle
  }

  /** The pending requests of a thread. */
  function RequestsOf(s: State, t: nat): (ids: set<nat>)
  {
    set id | id in s.pending && s.pending[id].tid == t
  }

  datatype Label =
    | Register(t: nat)
    | Unregister(t: nat)
    | Ask(t: nat, content: nat)
    | Enqueue(t: nat)
    | Send(t: nat)
    | Fail(t: nat)
    | Respond(t: nat, id: nat)
    | Handle(t: nat)
    | Wake(t: nat)

  predicate Step(s: State, l: Label, r: State)
  {
    match l
    case Register(t) => PcOf(s, t).Idle? && t !in s.registered && r == s.(registered := s.registered + {t})
    // The destructor of the registration, on the thread it belongs to.
    case Unregister(t) =>
      && PcOf(s, t).Idle? && t in s.registered
      && r == s.(registered := s.registered - {t}, pending := s.pending - RequestsOf(s, t),
                 dropped := s.dropped + RequestsOf(s, t))
    // `m_next_id.fetch_add`
    case Ask(t, content) =>
      && PcOf(s, t).Idle?
      && r == s.(nextId := s.nextId + 1, contents := s.contents[s.nextId := content],
                 pcs := s.pcs[t := HasId(s.nextId, content)])
    // `enqueue_message` under the mutex
    case Enqueue(t) =>
      && PcOf(s, t).HasId?
      && var (id, content) := (PcOf(s, t).id, PcOf(s, t).content);
         r == if t in s.registered then
                s.(pending := if id in s.pending then s.pending else s.pending[id := Request(t, content)],
                   pcs := s.pcs[t := Sending(id)])
              else s.(pcs := s.pcs[t := Failed(id, content)])
    case Send(t) => PcOf(s, t).Sending? && r == s.(sent := s.sent + [PcOf(s, t).id], pcs := s.pcs[t := Idle])
    case Fail(t) => PcOf(s, t).Failed? && r == s.(failed := s.failed + [PcOf(s, t).id], pcs := s.pcs[t := Idle])
    // `write`: the client may send any id, 0 stands for none.
    case Respond(t, id) =>
      && PcOf(s, t).Idle?
      && r == if id in s.pending then
                s.(pending := s.pending - {id},
                   pcs := s.pcs[t := Handling(id, s.pending[id].content, s.pending[id].tid, id)])
              else s
    case Handle(t) =>
      && PcOf(s, t).Handling?
      && r == s.(handled := s.handled + [Call(PcOf(s, t).id, PcOf(s, t).content, PcOf(s, t).response)],
                 pcs := s.pcs[t := Waking(PcOf(s, t).tid)])
    case Wake(t) => PcOf(s, t).Waking? && r == s.(pcs := s.pcs[t := Idle])
  }

  // ----- invariants -----

  /** The thread has the request in its hands. */
  predicate Carries(s: State, t: nat, id: nat)
  {
    var pc := PcOf(s, t);
    (pc.HasId? || pc.Failed? || pc.Handling?) && pc.id == id
  }

  predicate HandledIn(calls: seq<Call>, id: nat) { exists i | 0 <= i < |calls| :: calls[i].id == id }

  predicate Ended(s: State, id: nat)
  {
    id in s.failed || HandledIn(s.handled, id) || id in s.dropped
  }

  predicate Distinct(xs: seq<nat>)
  {
    forall i, j | 0 <= i < j < |xs| :: xs[i] != xs[j]
  }

  predicate DistinctCalls(xs: seq<Call>)
  {
    forall i, j | 0 <= i < j < |xs| :: xs[i].id != xs[j].id
  }

  predicate Issued(s: State, id: nat) { 1 <= id < s.nextId }

  /** Pending requests belong to registered threads. */
  ghost predicate PendingInv(s: State)
  {
    forall id | id in s.pending :: s.pending[id].tid in s.registered && Issued(s, id)
  }

  /** Every issued id is in exactly one place: carried by one thread, pending, or ended; and it
      ends once. */
  ghost predicate PlaceInv(s: State)
  {
    && (forall t: nat, id: nat | Carries(s, t, id) :: Issued(s, id) && id !in s.pending && !Ended(s, id))
    && (forall t: nat, u: nat, id: nat | Carries(s, t, id) && Carries(s, u, id) :: t == u)
    && (forall id | id in s.pending :: !Ended(s, id))
    && (forall id: nat | Ended(s, id) :: Issued(s, id))
    && (forall id: nat | Issued(s, id) :: id in s.pending || Ended(s, id) || exists t: nat :: Carries(s, t, id))
  }

  ghost predicate OnceInv(s: State)
  {
    && Distinct(s.failed) && DistinctCalls(s.handled)
    && (forall id | id in s.failed :: !HandledIn(s.handled, id) && id !in s.dropped)
    && (forall id | id in s.dropped :: !HandledIn(s.handled, id))
  }

  /** Handlers stay with the ids they were enqueued under. */
  ghost predicate ContentInv(s: State)
  {
    && PendingContent(s)
    && (forall t: nat :: PcOk(s.contents, PcOf(s, t)))
    && (forall i | 0 <= i < |s.handled| :: CallOk(s.contents, s.handled[i]))
  }

  ghost predicate Inv(s: State)
  {
    s.nextId >= 1 && PendingInv(s) && PlaceInv(s) && OnceInv(s) && ContentInv(s)
  }

  // ----- one step -----

  lemma PendingStep(s: State, l: Label, r: State)
    requires Inv(s) && Step(s, l, r)
    ensures PendingInv(r) && r.nextId >= 1
  {
    hide OnceInv, ContentInv;
    if l.Enqueue? { assert Carries(s, l.t, PcOf(s, l.t).id); }
  }

  /** Only the thread of the step moves. */
  lemma Frame(s: State, l: Label, r: State)
    requires Step(s, l, r)
    ensures forall u: nat | u != l.t :: PcOf(r, u) == PcOf(s, u)
  {
  }

  ghost predicate PendingContent(s: State)
  {
    && (forall id: nat :: id in s.contents <==> Issued(s, id))
    && (forall id | id in s.pending :: id in s.contents && s.pending[id].content == s.contents[id])
  }

  /** What a thread holds is what belongs to the id. */
  predicate PcOk(contents: map<nat, nat>, pc: Pc)
  {
    && (pc.HasId? ==> pc.id in contents && contents[pc.id] == pc.content)
    && (pc.Handling? ==> pc.id in contents && contents[pc.id] == pc.content && pc.response == pc.id)
  }

  predicate CallOk(contents: map<nat, nat>, call: Call)
  {
    call.id in contents && contents[call.id] == call.content && call.response == call.id
  }

  lemma ContentStep(s: State, l: Label, r: State)
    requires s.nextId >= 1 && ContentInv(s) && Step(s, l, r)
    ensures ContentInv(r)
  {
    Frame(s, l, r);
    ContentGrows(s, l, r);
    PcStaysOk(s, l, r);
    CallsStayOk(s, l, r);
  }

  lemma ContentGrows(s: State, l: Label, r: State)
    requires s.nextId >= 1 && Step(s, l, r) && PendingContent(s) && forall t: nat :: PcOk(s.contents, PcOf(s, t))
    ensures PendingContent(r)
    ensures forall id | id in s.contents :: id in r.contents && r.contents[id] == s.contents[id]
  {
    assert PcOk(s.contents, PcOf(s, l.t));
  }

  lemma PcStaysOk(s: State, l: Label, r: State)
    requires Step(s, l, r) && PendingContent(s) && forall t: nat :: PcOk(s.contents, PcOf(s, t))
    requires forall u: nat | u != l.t :: PcOf(r, u) == PcOf(s, u)
    requires forall id | id in s.contents :: id in r.contents && r.contents[id] == s.contents[id]
    ensures forall t: nat :: PcOk(r.contents, PcOf(r, t))
  {
    assert PcOk(s.contents, PcOf(s, l.t));
    assert PcOk(r.contents, PcOf(r, l.t));
    forall t: nat ensures PcOk(r.contents, PcOf(r, t)) {
      if t != l.t { assert PcOk(s.contents, PcOf(s, t)); }
    }
  }

  lemma CallsStayOk(s: State, l: Label, r: State)
    requires Step(s, l, r) && forall t: nat :: PcOk(s.contents, PcOf(s, t))
    requires forall i | 0 <= i < |s.handled| :: CallOk(s.contents, s.handled[i])
    requires forall id | id in s.contents :: id in r.contents && r.contents[id] == s.contents[id]
    ensures forall i | 0 <= i < |r.handled| :: CallOk(r.contents, r.handled[i])
  {
    assert PcOk(s.contents, PcOf(s, l.t));
  }

  // ----- where the ids are -----

  /** The places of all ids but `id0` stay, and `id0` is in exactly one place afterwards. */
  lemma PlaceMoves(s: State, r: State, t: nat, id0: nat)
    requires PlaceInv(s) && Carries(s, t, id0) && r.nextId == s.nextId
    requires forall u: nat | u != t :: PcOf(r, u) == PcOf(s, u)
    requires forall id: nat :: Carries(r, t, id) ==> id == id0
    requires forall id | id != id0 :: (id in r.pending <==> id in s.pending) && (Ended(r, id) <==> Ended(s, id))
    requires (if Carries(r, t, id0) then 1 else 0) + (if id0 in r.pending then 1 else 0)
             + (if Ended(r, id0) then 1 else 0) == 1
    ensures PlaceInv(r)
  {
    hide Ended, PcOf;
    assert forall u: nat | Carries(s, u, id0) :: u == t;
    assert forall u: nat, id: nat | u != t :: Carries(r, u, id) <==> Carries(s, u, id);
    forall id: nat | Issued(r, id) ensures id in r.pending || Ended(r, id) || exists u: nat :: Carries(r, u, id) {
      if id == id0 {
        if id !in r.pending && !Ended(r, id) { assert Carries(r, t, id); }
      } else if id !in s.pending && !Ended(s, id) {
        var u: nat :| Carries(s, u, id);
        assert Carries(r, u, id);
      }
    }
  }

  /** Threads and ids stay where they are. */
  lemma PlaceStays(s: State, r: State)
    requires PlaceInv(s) && r.nextId == s.nextId
    requires forall u: nat, id: nat :: Carries(r, u, id) <==> Carries(s, u, id)
    requires forall id: nat :: (id in r.pending <==> id in s.pending) && (Ended(r, id) <==> Ended(s, id))
    ensures PlaceInv(r)
  {
    hide Ended, Carries;
    forall id: nat | Issued(r, id) ensures id in r.pending || Ended(r, id) || exists u: nat :: Carries(r, u, id) {
      if id !in s.pending && !Ended(s, id) {
        var u: nat :| Carries(s, u, id);
        assert Carries(r, u, id);
      }
    }
  }

  lemma AskPlaces(s: State, t: nat, content: nat, r: State)
    requires PlaceInv(s) && PendingInv(s) && Step(s, Ask(t, content), r) && s.nextId >= 1
    ensures PlaceInv(r)
  {
    var id0 := s.nextId;
    assert !Issued(s, id0) && id0 !in s.pending && !Ended(s, id0);
    Frame(s, Ask(t, content), r);
    assert forall u: nat, id: nat :: Carries(r, u, id) <==> Carries(s, u, id) || (u == t && id == id0);
    assert forall id: nat :: Ended(r, id) <==> Ended(s, id);
    forall id: nat | Issued(r, id) ensures id in r.pending || Ended(r, id) || exists u: nat :: Carries(r, u, id) {
      if id == id0 {
        assert Carries(r, t, id);
      } else if id !in s.pending && !Ended(s, id) {
        var u: nat :| Carries(s, u, id);
        assert Carries(r, u, id);
      }
    }
  }

  lemma UnregisterPlaces(s: State, t: nat, r: State)
    requires PlaceInv(s) && PendingInv(s) && Step(s, Unregister(t), r)
    ensures PlaceInv(r)
  {
    assert forall u: nat, id: nat :: Carries(r, u, id) <==> Carries(s, u, id);
    assert forall id: nat :: Ended(r, id) <==> Ended(s, id) || id in RequestsOf(s, t);
    forall id: nat | Issued(r, id) ensures id in r.pending || Ended(r, id) || exists u: nat :: Carries(r, u, id) {
      if id !in s.pending && !Ended(s, id) {
        var u: nat :| Carries(s, u, id);
        assert Carries(r, u, id);
      }
    }
  }

  lemma RespondPlaces(s: State, t: nat, id0: nat, r: State)
    requires PlaceInv(s) && PendingInv(s) && Step(s, Respond(t, id0), r)
    ensures PlaceInv(r)
  {
    if id0 in s.pending {
      Frame(s, Respond(t, id0), r);
      assert forall u: nat, id: nat :: Carries(r, u, id) <==> Carries(s, u, id) || (u == t && id == id0);
      assert forall id: nat :: Ended(r, id) <==> Ended(s, id);
      forall id: nat | Issued(r, id) ensures id in r.pending || Ended(r, id) || exists u: nat :: Carries(r, u, id) {
        if id == id0 {
          assert Carries(r, t, id);
        } else if id !in s.pending && !Ended(s, id) {
          var u: nat :| Carries(s, u, id);
          assert Carries(r, u, id);
        }
      }
    }
  }

  lemma HandledGrows(calls: seq<Call>, call: Call)
    ensures forall id: nat :: HandledIn(calls + [call], id) <==> HandledIn(calls, id) || id == call.id
  {
    var more := calls + [call];
    assert more[|calls|] == call;
    forall id: nat | HandledIn(calls, id) ensures HandledIn(more, id) {
      var i :| 0 <= i < |calls| && calls[i].id == id;
      assert more[i].id == id;
    }
  }

  lemma PlaceStep(s: State, l: Label, r: State)
    requires Inv(s) && Step(s, l, r)
    ensures PlaceInv(r)
  {
    hide OnceInv, ContentInv;
    match l
    case Ask(t, content) => AskPlaces(s, t, content, r);
    case Unregister(t) => UnregisterPlaces(s, t, r);
    case Respond(t, id) => RespondPlaces(s, t, id, r);
    case Enqueue(t) => Frame(s, l, r); PlaceMoves(s, r, t, PcOf(s, t).id);
    case Fail(t) => Frame(s, l, r); PlaceMoves(s, r, t, PcOf(s, t).id);
    case Handle(t) => HandlePlaces(s, t, r);
    case _ => Frame(s, l, r); QuietPlaces(s, l, r);
  }

  lemma HandlePlaces(s: State, t: nat, r: State)
    requires PlaceInv(s) && Step(s, Handle(t), r)
    ensures PlaceInv(r)
  {
    hide HandledIn;
    Frame(s, Handle(t), r);
    HandledGrows(s.handled, r.handled[|s.handled|]);
    PlaceMoves(s, r, t, PcOf(s, t).id);
  }

  lemma QuietPlaces(s: State, l: Label, r: State)
    requires PlaceInv(s) && Step(s, l, r) && (l.Register? || l.Send? || l.Wake?)
    ensures PlaceInv(r)
  {
    Frame(s, l, r);
    assert forall u: nat, id: nat :: Carries(r, u, id) <==> Carries(s, u, id);
    PlaceStays(s, r);
  }

  lemma OnceStep(s: State, l: Label, r: State)
    requires Inv(s) && Step(s, l, r)
    ensures OnceInv(r)
  {
    hide ContentInv;
    match l
    case Unregister(t) =>
      assert forall id | id in RequestsOf(s, t) :: !Ended(s, id);
    case Fail(t) =>
      assert Carries(s, t, PcOf(s, t).id);
    case Handle(t) => HandleOnce(s, t, r);
    case _ =>
  }

  lemma HandleOnce(s: State, t: nat, r: State)
    requires PlaceInv(s) && OnceInv(s) && Step(s, Handle(t), r)
    ensures OnceInv(r)
  {
    var id0 := PcOf(s, t).id;
    assert Carries(s, t, id0) && !Ended(s, id0);
    HandledGrows(s.handled, r.handled[|s.handled|]);
    assert forall i | 0 <= i < |s.handled| :: HandledIn(s.handled, s.handled[i].id);
  }

  lemma StepKeeps(s: State, l: Label, r: State)
    requires Inv(s) && Step(s, l, r)
    ensures Inv(r)
  {
    hide PendingInv, PlaceInv, OnceInv, ContentInv, Step;
    PendingStep(s, l, r);
    PlaceStep(s, l, r);
    OnceStep(s, l, r);
    ContentStep(s, l, r);
  }

  // ----- runs -----

  ghost predicate Run(states: seq<State>, labels: seq<Label>)
  {
    && |states| == |labels| + 1 && states[0] == INITIAL
    && forall i | 0 <= i < |labels| :: Step(states[i], labels[i], states[i + 1])
  }

  lemma InitialInv()
    ensures Inv(INITIAL)
  {
  }

  lemma {:induction false} RunKeeps(states: seq<State>, labels: seq<Label>, n: nat)
    requires Run(states, labels) && n <= |labels|
    ensures |states| == |labels| + 1 && Inv(states[n])
  {
    hide Inv;
    if n == 0 {
      InitialInv();
    } else {
      RunKeeps(states, labels, n - 1);
      assert Step(states[n - 1], labels[n - 1], states[n]);
      StepKeeps(states[n - 1], labels[n - 1], states[n]);
    }
  }

  /** Every pending id belongs to a registered thread. */
  lemma PendingAreRegistered(states: seq<State>, labels: seq<Label>, n: nat, id: nat)
    requires Run(states, labels) && n <= |labels| && id in states[n].pending
    ensures states[n].pending[id].tid in states[n].registered && id >= 1
  {
    hide Run, PlaceInv, OnceInv, ContentInv;
    RunKeeps(states, labels, n);
  }

  /** How many times the request has ended, by error, by call or by drop. */
  function Ends(s: State, id: nat): (n: nat)
  {
    Count(s.failed, id) + CountCalls(s.handled, id) + (if id in s.dropped then 1 else 0)
  }

  function Count(xs: seq<nat>, id: nat): (n: nat)
  {
    if xs == [] then 0 else Count(xs[..|xs| - 1], id) + (if xs[|xs| - 1] == id then 1 else 0)
  }

  function CountCalls(xs: seq<Call>, id: nat): (n: nat)
  {
    if xs == [] then 0 else CountCalls(xs[..|xs| - 1], id) + (if xs[|xs| - 1].id == id then 1 else 0)
  }

  lemma {:induction false} CountDistinct(xs: seq<nat>, id: nat)
    requires Distinct(xs)
    ensures Count(xs, id) == if id in xs then 1 else 0
  {
    if xs != [] {
      var front := xs[..|xs| - 1];
      CountDistinct(front, id);
      assert xs == front + [xs[|xs| - 1]];
      assert forall i | 0 <= i < |front| :: front[i] == xs[i] && front[i] != xs[|xs| - 1];
    }
  }

  lemma {:induction false} CountDistinctCalls(xs: seq<Call>, id: nat)
    requires DistinctCalls(xs)
    ensures CountCalls(xs, id) == if HandledIn(xs, id) then 1 else 0
  {
    if xs != [] {
      var front, last := xs[..|xs| - 1], xs[|xs| - 1];
      CountDistinctCalls(front, id);
      HandledGrows(front, last);
      assert xs == front + [last];
      assert forall i | 0 <= i < |front| :: front[i] == xs[i] && front[i].id != last.id;
    }
  }

  /** A request ends at most once, and one that has neither ended nor is pending is in the hands of
      a thread. */
  lemma EndsAtMostOnce(states: seq<State>, labels: seq<Label>, n: nat, id: nat)
    requires Run(states, labels) && n <= |labels|
    ensures Ends(states[n], id) <= 1
    ensures 1 <= id < states[n].nextId ==>
              (Ends(states[n], id) == 0 <==> id in states[n].pending || exists t: nat :: Carries(states[n], t, id))
  {
    hide Run, PendingInv, ContentInv, Carries, HandledIn;
    RunKeeps(states, labels, n);
    var s := states[n];
    CountDistinct(s.failed, id);
    CountDistinctCalls(s.handled, id);
  }

  /** A handler is called for the id it was enqueued under, by a response that bears this id. */
  lemma ResponsesReachTheirOwn(states: seq<State>, labels: seq<Label>, n: nat, i: nat)
    requires Run(states, labels) && n <= |labels| && i < |states[n].handled|
    ensures var s, call := states[n], states[n].handled[i];
            call.id in s.contents && call.content == s.contents[call.id] && call.response == call.id && call.id >= 1
  {
    hide Run, PendingInv, PlaceInv, OnceInv;
    RunKeeps(states, labels, n);
    assert CallOk(states[n].contents, states[n].handled[i]);
  }

  /** Ids count up from 1, so a response without an id, which reads as 0, reaches nobody. */
  lemma NoIdReachesNobody(states: seq<State>, labels: seq<Label>, n: nat, t: nat)
    requires Run(states, labels) && n < |labels| && labels[n] == Respond(t, 0)
    ensures states[n + 1] == states[n]
  {
    hide PlaceInv, OnceInv, ContentInv;
    RunKeeps(states, labels, n);
    assert Step(states[n], labels[n], states[n + 1]);
  }

  /** When a thread has unregistered, none of its requests is left pending. */
  lemma UnregisteredLeavesNothing(states: seq<State>, labels: seq<Label>, n: nat, t: nat)
    requires Run(states, labels) && n < |labels| && labels[n] == Unregister(t)
    ensures RequestsOf(states[n + 1], t) == {} && RequestsOf(states[n], t) <= states[n + 1].dropped
    ensures forall id | id in states[n].pending && states[n].pending[id].tid != t ::
              id in states[n + 1].pending && states[n + 1].pending[id] == states[n].pending[id]
  {
    assert Step(states[n], labels[n], states[n + 1]);
  }

  // ----- what is sent -----

  /** The thread is between asking and sending, or between asking and reporting an error. */
  predicate Claims(s: State, t: nat, id: nat)
  {
    var pc := PcOf(s, t);
    (pc.HasId? || pc.Failed? || pc.Sending?) && pc.id == id
  }

  /** Every request is on its way with one thread, or sent, or reported as failed. */
  ghost predicate SentInv(s: State)
  {
    && Distinct(s.sent)
    && (forall t: nat, u: nat, id: nat | Claims(s, t, id) && Claims(s, u, id) :: t == u)
    && (forall t: nat, id: nat | Claims(s, t, id) :: Issued(s, id) && id !in s.sent && id !in s.failed)
    && (forall id | id in s.sent :: Issued(s, id) && id !in s.failed)
    && (forall id | id in s.failed :: Issued(s, id))
  }

  lemma ClaimsMove(s: State, l: Label, r: State)
    requires Step(s, l, r)
    ensures forall u: nat, id: nat | u != l.t :: Claims(r, u, id) <==> Claims(s, u, id)
    ensures forall id: nat | Claims(r, l.t, id) :: Claims(s, l.t, id) || (l.Ask? && id == s.nextId)
    ensures l.Ask? ==> Claims(r, l.t, s.nextId) && r.nextId == s.nextId + 1
    ensures !l.Ask? ==> r.nextId == s.nextId
  {
    Frame(s, l, r);
  }

  lemma DistinctMore(xs: seq<nat>, x: nat)
    requires Distinct(xs) && x !in xs
    ensures Distinct(xs + [x])
  {
    assert forall i | 0 <= i < |xs| :: (xs + [x])[i] == xs[i] && xs[i] != x;
  }

  lemma SentStep(s: State, l: Label, r: State)
    requires s.nextId >= 1 && SentInv(s) && Step(s, l, r)
    ensures SentInv(r)
  {
    ClaimsMove(s, l, r);
    if l.Send? || l.Fail? {
      var id := PcOf(s, l.t).id;
      assert Claims(s, l.t, id) && !Claims(r, l.t, id);
      if l.Send? { DistinctMore(s.sent, id); }
    }
  }

  lemma {:induction false} SentRun(states: seq<State>, labels: seq<Label>, n: nat)
    requires Run(states, labels) && n <= |labels|
    ensures |states| == |labels| + 1 && SentInv(states[n])
  {
    hide SentInv, Step, Inv;
    if n == 0 {
      NothingSent();
    } else {
      SentRun(states, labels, n - 1);
      StepAt(states, labels, n - 1);
      RunKeeps(states, labels, n - 1);
      NextIdPositive(states[n - 1]);
      SentStep(states[n - 1], labels[n - 1], states[n]);
    }
  }

  lemma NothingSent()
    ensures SentInv(INITIAL)
  {
  }

  lemma NextIdPositive(s: State)
    requires Inv(s)
    ensures s.nextId >= 1
  {
  }

  /** No request is sent twice, and none that was reported as failed. */
  lemma SentOnce(states: seq<State>, labels: seq<Label>, n: nat, id: nat)
    requires Run(states, labels) && n <= |labels|
    ensures Distinct(states[n].sent) && !(id in states[n].sent && id in states[n].failed)
  {
    hide Run;
    SentRun(states, labels, n);
  }

  /** Enqueuing makes the request pending and ready to be sent exactly if its thread is registered;
      otherwise an error is going to be reported, and nothing is pending. */
  lemma EnqueueDecides(states: seq<State>, labels: seq<Label>, n: nat, t: nat)
    requires Run(states, labels) && n < |labels| && labels[n] == Enqueue(t)
    ensures PcOf(states[n], t).HasId?
    ensures var s, r, pc := states[n], states[n + 1], PcOf(states[n], t);
            && pc.id !in s.pending
            && if t in s.registered
               then r.pending == s.pending[pc.id := Request(t, pc.content)] && PcOf(r, t) == Sending(pc.id)
               else r.pending == s.pending && PcOf(r, t) == Failed(pc.id, pc.content)
  {
    hide Run, OnceInv, ContentInv, PendingInv;
    RunKeeps(states, labels, n);
    StepAt(states, labels, n);
    assert Carries(states[n], t, PcOf(states[n], t).id);
  }

  /** A response to a pending request takes it, and its handler is called next by the same thread;
      any other response changes nothing. */
  lemma ResponseTakes(states: seq<State>, labels: seq<Label>, n: nat, t: nat, id: nat)
    requires Run(states, labels) && n < |labels| && labels[n] == Respond(t, id)
    ensures var s, r := states[n], states[n + 1];
            if id in s.pending
            then r.pending == s.pending - {id}
                 && PcOf(r, t) == Handling(id, s.pending[id].content, s.pending[id].tid, id)
            else r == s
  {
    hide Run;
    StepAt(states, labels, n);
  }

  // ----- handlers and unregistering -----

  /** Step `j` gave the id to thread `t`. */
  ghost predicate AskedAt(states: seq<State>, labels: seq<Label>, j: nat, t: nat, id: nat)
    requires j < |labels| && j < |states|
  {
    labels[j].Ask? && labels[j].t == t && states[j].nextId == id
  }

  /** The request of thread `t` stays with `t` until a response takes it. */
  ghost predicate OwnedBy(s: State, t: nat, id: nat)
  {
    && Issued(s, id)
    && (id in s.pending ==> s.pending[id].tid == t)
    && (forall u: nat | PcOf(s, u).HasId? && PcOf(s, u).id == id :: u == t)
    && (forall u: nat | PcOf(s, u).Handling? && PcOf(s, u).id == id :: PcOf(s, u).tid == t)
  }

  lemma OwnerStep(s: State, l: Label, r: State, t: nat, id: nat)
    requires Step(s, l, r) && OwnedBy(s, t, id)
    ensures OwnedBy(r, t, id)
  {
    Frame(s, l, r);
  }

  lemma {:induction false} OwnerStays(states: seq<State>, labels: seq<Label>, j: nat, n: nat, t: nat, id: nat)
    requires Run(states, labels) && j < n <= |labels| && AskedAt(states, labels, j, t, id)
    ensures OwnedBy(states[n], t, id)
    decreases n
  {
    hide Run, OnceInv, ContentInv;
    RunKeeps(states, labels, n - 1);
    StepAt(states, labels, n - 1);
    Frame(states[n - 1], labels[n - 1], states[n]);
    if n - 1 == j {
      AskOwns(states[j], labels[j], states[n], t, id);
    } else {
      OwnerStays(states, labels, j, n - 1, t, id);
      OwnerStep(states[n - 1], labels[n - 1], states[n], t, id);
    }
  }

  lemma StepAt(states: seq<State>, labels: seq<Label>, n: nat)
    requires Run(states, labels) && n < |labels|
    ensures |states| == |labels| + 1 && Step(states[n], labels[n], states[n + 1])
  {
  }

  lemma AskOwns(s: State, l: Label, r: State, t: nat, id: nat)
    requires PendingInv(s) && PlaceInv(s) && s.nextId >= 1 && Step(s, l, r)
    requires l.Ask? && l.t == t && s.nextId == id
    ensures OwnedBy(r, t, id)
  {
    Frame(s, l, r);
    assert !Issued(s, id);
    forall u: nat | u != t && (PcOf(r, u).HasId? || PcOf(r, u).Handling?) ensures PcOf(r, u).id != id {
      assert Carries(s, u, PcOf(s, u).id);
    }
  }

  /** No response can take the request any more. */
  ghost predicate OutOfReach(s: State, id: nat)
  {
    Issued(s, id) && id !in s.pending && forall u: nat | PcOf(s, u).HasId? :: PcOf(s, u).id != id
  }

  /** Whoever handles such a request has had it in hands all the time. */
  lemma OutOfReachStep(s: State, l: Label, r: State, id: nat)
    requires Step(s, l, r) && OutOfReach(s, id)
    ensures OutOfReach(r, id)
    ensures forall u: nat | PcOf(r, u).Handling? && PcOf(r, u).id == id :: PcOf(s, u) == PcOf(r, u)
  {
    Frame(s, l, r);
  }

  /** A continuation from some state. */
  ghost predicate Path(states: seq<State>, labels: seq<Label>)
  {
    && |states| == |labels| + 1
    && forall i | 0 <= i < |labels| :: Step(states[i], labels[i], states[i + 1])
  }

  lemma {:induction false} NoNewHandler(states: seq<State>, labels: seq<Label>, k: nat, u: nat, id: nat)
    requires Path(states, labels) && k <= |labels| && OutOfReach(states[0], id)
    ensures OutOfReach(states[k], id)
    ensures PcOf(states[k], u).Handling? && PcOf(states[k], u).id == id ==> PcOf(states[0], u) == PcOf(states[k], u)
  {
    if k > 0 {
      NoNewHandler(states, labels, k - 1, u, id);
      assert Step(states[k - 1], labels[k - 1], states[k]);
      hide Step, OutOfReach;
      OutOfReachStep(states[k - 1], labels[k - 1], states[k], id);
    }
  }

  /** The thread holds the handler of this request: its response has been extracted, and the
      handler has not been called. */
  predicate Holds(s: State, u: nat, id: nat, t: nat)
  {
    PcOf(s, u).Handling? && PcOf(s, u).id == id && PcOf(s, u).tid == t
  }

  /** The step calls the handler of the request. */
  predicate Calls(s: State, l: Label, id: nat)
  {
    l.Handle? && PcOf(s, l.t).Handling? && PcOf(s, l.t).id == id
  }

  /** Some continuation calls the handler of the request. */
  ghost predicate CalledLater(s: State, id: nat)
  {
    exists states, labels, k: nat ::
      Path(states, labels) && states[0] == s && k < |labels| && Calls(states[k], labels[k], id)
  }

  lemma UnregisterPutsOutOfReach(s: State, r: State, t: nat, id: nat)
    requires Step(s, Unregister(t), r) && OwnedBy(s, t, id)
    ensures OutOfReach(r, id) && forall u: nat :: PcOf(r, u) == PcOf(s, u)
  {
    assert forall u: nat :: PcOf(r, u) == PcOf(s, u);
    assert forall u: nat | PcOf(s, u).HasId? :: PcOf(s, u).id != id;
  }

  /** After a thread has unregistered, the handler of a request of its own can still be called if
      and only if another thread held it at that moment: its response had been extracted, and the
      handler had not been called. */
  lemma CalledAfterUnregisteringIff(states: seq<State>, labels: seq<Label>, j: nat, n: nat, t: nat, id: nat)
    requires Run(states, labels) && j < n < |labels|
    requires AskedAt(states, labels, j, t, id) && labels[n] == Unregister(t)
    ensures CalledLater(states[n + 1], id) <==> exists u: nat :: Holds(states[n], u, id, t)
  {
    hide Run, Path;
    OwnerStays(states, labels, j, n, t, id);
    StepAt(states, labels, n);
    UnregisterPutsOutOfReach(states[n], states[n + 1], t, id);
    if CalledLater(states[n + 1], id) {
      OnlyHolderCalls(states[n], states[n + 1], t, id);
    }
    if u: nat :| Holds(states[n], u, id, t) {
      HolderMayCall(states[n + 1], u, id);
    }
  }

  lemma OnlyHolderCalls(s: State, r: State, t: nat, id: nat)
    requires OwnedBy(s, t, id) && OutOfReach(r, id) && CalledLater(r, id)
    requires forall u: nat :: PcOf(r, u) == PcOf(s, u)
    ensures exists u: nat :: Holds(s, u, id, t)
  {
    hide OutOfReach;
    var states: seq<State>, labels: seq<Label>, k: nat :|
      Path(states, labels) && states[0] == r && k < |labels| && Calls(states[k], labels[k], id);
    NoNewHandler(states, labels, k, labels[k].t, id);
    assert Holds(s, labels[k].t, id, t);
  }

  lemma HolderMayCall(s: State, u: nat, id: nat)
    requires PcOf(s, u).Handling? && PcOf(s, u).id == id
    ensures CalledLater(s, id)
  {
    var call := Call(PcOf(s, u).id, PcOf(s, u).content, PcOf(s, u).response);
    var r := s.(handled := s.handled + [call], pcs := s.pcs[u := Waking(PcOf(s, u).tid)]);
    assert Path([s, r], [Handle(u)]) && Calls([s, r][0], [Handle(u)][0], id);
  }

  // ----- what is not promised -----

  ghost predicate Reached(s: State)
  {
    exists states, labels :: Run(states, labels) && states[|labels|] == s
  }

  lemma ReachedOn(s: State, l: Label, t: State)
    requires Reached(s) && Step(s, l, t)
    ensures Reached(t)
  {
    hide Step;
    var states, labels :| Run(states, labels) && states[|labels|] == s;
    var states', labels' := states + [t], labels + [l];
    assert forall i | 0 <= i < |labels'| :: Step(states'[i], labels'[i], states'[i + 1]);
    assert Run(states', labels') && states'[|labels'|] == t;
  }

  lemma StartReached()
    ensures Reached(INITIAL)
  {
    assert Run([INITIAL], []);
  }

  lemma RequestSent() returns (s: State)
    ensures Reached(s) && s.registered == {1} && s.handled == [] && s.contents == map[1 := 7]
    ensures s.pending == map[1 := Request(1, 7)] && s.pcs == map[1 := Idle]
  {
    hide Reached;
    StartReached();
    var s1 := INITIAL.(registered := {1});
    ReachedOn(INITIAL, Register(1), s1);
    var s2 := s1.(nextId := 2, contents := map[1 := 7], pcs := map[1 := HasId(1, 7)]);
    ReachedOn(s1, Ask(1, 7), s2);
    var s3 := s2.(pending := map[1 := Request(1, 7)], pcs := map[1 := Sending(1)]);
    ReachedOn(s2, Enqueue(1), s3);
    s := s3.(sent := [1], pcs := map[1 := Idle]);
    ReachedOn(s3, Send(1), s);
  }

  /** A thread has asked, and the response to it is in the hands of another one. */
  lemma ResponseInHand() returns (s: State)
    ensures Reached(s) && s.registered == {1} && s.handled == [] && s.pending == map[] && s.contents == map[1 := 7]
    ensures s.pcs == map[1 := Idle, 2 := Handling(1, 7, 1, 1)]
  {
    hide Reached;
    var s4 := RequestSent();
    s := s4.(pending := map[], pcs := map[1 := Idle, 2 := Handling(1, 7, 1, 1)]);
    ReachedOn(s4, Respond(2, 1), s);
  }

  /** A response extracted before its thread unregisters is handled after it: unregistering does
      not wait for handlers under way. */
  lemma HandledAfterUnregistering() returns (s: State, t: State)
    ensures Reached(s) && s.registered == {} && s.handled == []
    ensures Step(s, Handle(2), t) && t.handled == [Call(1, 7, 1)] && s.contents == map[1 := 7]
  {
    hide Reached;
    var s5 := ResponseInHand();
    s := s5.(registered := {});
    assert RequestsOf(s5, 1) == {};
    ReachedOn(s5, Unregister(1), s);
    t := s.(handled := [Call(1, 7, 1)], pcs := s.pcs[2 := Waking(1)]);
  }
}

/** The promises of the scheduler over whole runs. */
module SchedulerSafety {
  import opened Basics
  import opened Scheduler
  import opened SchedulerLaws

  /** A run of a manager from its construction. */
  ghost predicate Lifetime(states: seq<State>, labels: seq<Label>)
  {
    Run(states, labels) && states[0] == INITIAL
  }

  /** Step `k` performs (a part of) a file change. */
  ghost predicate Changes(states: seq<State>, labels: seq<Label>, k: nat)
    requires k < |labels| && k < |states|
  {
    labels[k].Perform? && states[k].queue != [] && states[k].queue[0].kind.FileChange?
  }

  ghost predicate NoChange(states: seq<State>, labels: seq<Label>, from: nat, to: nat)
    requires to <= |labels| && to <= |states|
  {
    forall k | from <= k < to :: !Changes(states, labels, k)
  }

  /** Step `m` found no file left to parse. */
  ghost predicate DrainedAt(states: seq<State>, labels: seq<Label>, m: nat)
    requires m < |labels| && m < |states|
  {
    labels[m].Drain? && states[m].backlog == {} && states[m].active.None?
  }

  // ----- parsing before answering -----

  /** The step performs an item whose action marks files that were not marked. */
  predicate Marks(s: State, l: Label)
  {
    l.Perform? && !(l.backlog <= s.backlog)
  }

  ghost predicate NoMarks(states: seq<State>, labels: seq<Label>, from: nat, to: nat)
    requires to <= |labels| && to <= |states|
  {
    forall k | from <= k < to :: !Marks(states[k], labels[k])
  }

  /** Only these items mark files, and none that has been removed; a file change also resets
      `parsing_done`. */
  lemma MarkingKinds(s: State, l: Label, t: State)
    requires Step(s, l, t) && Marks(s, l)
    ensures s.queue != [] && !s.queue[0].removed
    ensures s.queue[0].kind.FileChange? || s.queue[0].kind.WorkspaceOpen? || s.queue[0].kind.WorkspaceClose?
            || s.queue[0].kind.SettingsChange?
    ensures s.queue[0].kind.FileChange? ==> !t.parsingDone
  {
    assert MayMark(s.queue[0], s.backlog, l.backlog);
  }

  /** Step `m` is the last one before `n` that found no file left to parse, and no file change
      has been executed since. */
  ghost predicate LastDrain(states: seq<State>, labels: seq<Label>, m: nat, n: nat)
    requires m < n <= |labels| && n < |states|
  {
    && DrainedAt(states, labels, m) && NoChange(states, labels, m, n)
    && forall k | m < k < n :: !labels[k].Drain?
  }

  lemma DrainDrains(s: State, t: State)
    requires Step(s, Drain, t)
    ensures s.backlog == {} && s.active.None? && t.backlog == {} && !Marks(s, Drain)
  {
  }

  /** One step while `parsing_done` stays set: the backlog is empty afterwards exactly if it was
      and the step marks nothing. */
  lemma BacklogStep(s: State, l: Label, t: State)
    requires Step(s, l, t) && !l.Drain? && !t.place.Outside? && t.parsingDone
    requires s.place.Parsing? ==> !s.parsingDone
    ensures !s.place.Outside? && s.parsingDone && !(l.Perform? && s.queue != [] && s.queue[0].kind.FileChange?)
    ensures t.backlog == {} <==> s.backlog == {} && !Marks(s, l)
  {
  }

  /** Nothing is parsed once `parsing_done` is set. */
  lemma {:induction false} ParsingIsNotDone(states: seq<State>, labels: seq<Label>, n: nat)
    requires Lifetime(states, labels) && n <= |labels| && states[n].place.Parsing?
    ensures !states[n].parsingDone
  {
    if n > 0 {
      StepAt(states, labels, n - 1);
      if states[n - 1].place.Parsing? { ParsingIsNotDone(states, labels, n - 1); }
    }
  }

  /** While `parsing_done` is set, the backlog has been drained since the last file change, and it
      is still empty exactly if nothing has marked a file since. */
  lemma {:induction false} DoneMeansDrained(states: seq<State>, labels: seq<Label>, n: nat) returns (m: nat)
    requires Lifetime(states, labels) && n <= |labels|
    requires !states[n].place.Outside? && states[n].parsingDone
    ensures m < n && LastDrain(states, labels, m, n)
    ensures states[n].backlog == {} <==> NoMarks(states, labels, m, n)
    decreases n
  {
    hide MustRun, MayEnd, MayMark, Step, Marks, Run;
    StepAt(states, labels, n - 1);
    if labels[n - 1].Drain? {
      m := n - 1;
      DrainDrains(states[m], states[n]);
      assert NoChange(states, labels, m, n) && NoMarks(states, labels, m, n);
    } else {
      if states[n - 1].place.Parsing? { ParsingIsNotDone(states, labels, n - 1); }
      BacklogStep(states[n - 1], labels[n - 1], states[n]);
      m := DoneMeansDrained(states, labels, n - 1);
      assert NoMarks(states, labels, m, n) <==>
             NoMarks(states, labels, m, n - 1) && !Marks(states[n - 1], labels[n - 1]);
    }
  }

  /** Step `n` performs a query that is valid and not removed. */
  ghost predicate PerformsLiveQuery(states: seq<State>, labels: seq<Label>, n: nat)
    requires n < |labels| && n < |states|
  {
    && labels[n].Perform? && states[n].queue != [] && states[n].queue[0].kind.Query?
    && states[n].queue[0].valid && !states[n].queue[0].removed
  }

  /** A live query is performed only if the backlog was drained after the last file change that
      was executed, even in part. The backlog is still empty then if and only if no workspace was
      opened or closed and no settings changed with the effect of marking a file since. */
  lemma LiveQueryAfterDrain(states: seq<State>, labels: seq<Label>, n: nat) returns (m: nat)
    requires Lifetime(states, labels) && n < |labels| && PerformsLiveQuery(states, labels, n)
    ensures m < n && LastDrain(states, labels, m, n)
    ensures states[n].backlog == {} <==> NoMarks(states, labels, m, n)
  {
    hide OrderInv, ParseInv, Lifetime, LastDrain, NoMarks;
    LifetimeInv(states, labels, n);
    StepAt(states, labels, n);
    m := DoneMeansDrained(states, labels, n);
  }

  lemma StepAt(states: seq<State>, labels: seq<Label>, n: nat)
    requires Lifetime(states, labels) && n < |labels|
    ensures |states| == |labels| + 1 && Step(states[n], labels[n], states[n + 1])
  {
  }

  lemma LifetimeInv(states: seq<State>, labels: seq<Label>, n: nat)
    requires Lifetime(states, labels) && n <= |labels|
    ensures n < |states| && Inv(states[n])
  {
    hide Inv;
    InitialInv();
    RunKeeps(states, labels, n);
  }

  // ----- no stale parse -----

  /** A task stays active, or has just been created; while one is, no file change runs. */
  lemma ActiveStep(s: State, l: Label, t: State)
    requires Step(s, l, t) && t.active.Some?
    ensures if l.Create? then t.active == Some(Parse(s.parses, l.file))
            else s.active == t.active && !(l.Perform? && s.queue != [] && s.queue[0].kind.FileChange?)
  {
  }

  /** The parse task under way was created at an earlier step; since then it has stayed the
      active one and no file change has been executed, even in part. */
  lemma {:induction false} ActiveSinceCreation(states: seq<State>, labels: seq<Label>, n: nat)
    requires Lifetime(states, labels) && n <= |labels| && states[n].active.Some?
    ensures exists m | 0 <= m < n :: CreatedAt(states, labels, m, n) && NoChange(states, labels, m, n)
    decreases n
  {
    var s, l, t := states[n - 1], labels[n - 1], states[n];
    assert Step(s, l, t);
    ActiveStep(s, l, t);
    hide Step, Run;
    if l.Create? {
      assert CreatedAt(states, labels, n - 1, n);
      assert NoChange(states, labels, n - 1, n);
    } else {
      ActiveSinceCreation(states, labels, n - 1);
      var m :| 0 <= m < n - 1 && CreatedAt(states, labels, m, n - 1) && NoChange(states, labels, m, n - 1);
      assert CreatedAt(states, labels, m, n) && NoChange(states, labels, m, n);
    }
  }

  /** Step `m` created the task that is active at `n`, and it was active all the time between. */
  ghost predicate CreatedAt(states: seq<State>, labels: seq<Label>, m: nat, n: nat)
    requires m < n <= |labels| < |states|
  {
    && labels[m].Create? && states[n].active == Some(Parse(states[m].parses, labels[m].file))
    && forall k | m < k <= n :: states[k].active == states[n].active
  }

  /** Whenever a parse task is resumed, no file change has been executed since its creation, and
      no file change in the queue has been started. */
  lemma NoStaleParse(states: seq<State>, labels: seq<Label>, n: nat)
    requires Lifetime(states, labels) && n < |labels| && labels[n].Resume?
    ensures exists m | 0 <= m < n :: CreatedAt(states, labels, m, n) && NoChange(states, labels, m, n)
    ensures !ChangeStarted(states[n].queue)
  {
    hide OrderInv, Lifetime, CreatedAt, NoChange, ChangeStarted;
    LifetimeInv(states, labels, n);
    StepAt(states, labels, n);
    ActiveSinceCreation(states, labels, n);
  }

  // ----- configuration requests -----

  /** An item with unanswered configuration requests never runs. */
  lemma NothingRunsUnanswered(states: seq<State>, labels: seq<Label>, n: nat)
    requires Lifetime(states, labels) && n < |labels| && labels[n].Perform?
    ensures states[n].queue != [] && states[n].queue[0].pending == []
  {
    hide OrderInv, ParseInv, Lifetime;
    LifetimeInv(states, labels, n);
    StepAt(states, labels, n);
  }

  // ----- order and exactly once -----

  lemma IncreasingParts(a: seq<(nat, Kind)>, b: seq<(nat, Kind)>, bound: nat)
    requires Increasing(a + b, bound)
    ensures Increasing(a, bound) && Increasing(b, bound)
    ensures forall x, y | x in a && y in b :: x.0 < y.0
  {
    var c := a + b;
    assert forall i | 0 <= i < |a| :: c[i] == a[i];
    assert forall i | 0 <= i < |b| :: c[|a| + i] == b[i];
  }

  /** Ordinary items complete in the order in which they were enqueued, none is lost, and what
      is still queued comes after all that has completed. */
  lemma CompletedInOrder(s: State)
    requires Reaches(INITIAL, s)
    ensures EnqueuedIn(s.log) == CompletedIn(s.log) + Ordinary(s.queue)
    ensures Increasing(CompletedIn(s.log), s.lastId) && Increasing(Ordinary(s.queue), s.lastId)
    ensures forall x, y | x in CompletedIn(s.log) && y in Ordinary(s.queue) :: x.0 < y.0
  {
    hide QueueInv, ParseInv;
    ReachableInv(s);
    IncreasingParts(CompletedIn(s.log), Ordinary(s.queue), s.lastId);
  }

  ghost predicate Rising(ids: seq<nat>, bound: int)
  {
    && (forall i | 0 <= i < |ids| :: ids[i] <= bound)
    && (forall i, j | 0 <= i < j < |ids| :: ids[i] < ids[j])
  }

  lemma {:induction false} QueriesRise(items: seq<(nat, Kind)>, bound: nat)
    requires Increasing(items, bound)
    ensures Rising(QueriesOf(items), bound)
  {
    if items != [] {
      var front, last := items[..|items| - 1], items[|items| - 1].0;
      if front == [] {
        assert QueriesOf(front) == [];
      } else {
        assert front[0].0 < last;
        QueriesRise(front, last - 1);
      }
      RisingAppend(QueriesOf(front), last, bound);
    }
  }

  lemma RisingAppend(q: seq<nat>, last: nat, bound: nat)
    requires Rising(q, last - 1) && last <= bound
    ensures Rising(q, bound) && Rising(q + [last], bound)
  {
  }

  /** Every query that was ever enqueued has been answered exactly once or is still waiting, and
      the answers came in the order of the requests. */
  lemma AnsweredExactlyOnce(s: State)
    requires Reaches(INITIAL, s)
    ensures QueriesOf(EnqueuedIn(s.log)) == AnsweredIn(s.log) + QueriesOf(Ordinary(s.queue))
    ensures Rising(QueriesOf(EnqueuedIn(s.log)), s.lastId)
  {
    hide QueueInv, ParseInv, Increasing;
    ReachableInv(s);
    QueriesSplit(CompletedIn(s.log), Ordinary(s.queue));
    QueriesRise(EnqueuedIn(s.log), s.lastId);
  }

  /** A query is answered at the very step that takes it off the queue: with the result only if
      it is live, otherwise with the error that fits. */
  lemma AnsweredAsPopped(states: seq<State>, labels: seq<Label>, n: nat)
    requires Lifetime(states, labels) && n < |labels| && labels[n].Perform?
    requires states[n].queue != [] && states[n].queue[0].kind.Query?
    ensures var item := states[n].queue[0];
            && states[n + 1].queue == states[n].queue[1..]
            && states[n + 1].backlog == states[n].backlog
            && AnsweredIn(states[n + 1].log) == AnsweredIn(states[n].log) + [item.id]
            && Answered(item.id, if !item.valid then Cancelled
                                 else if item.removed then WorkspaceRemoved
                                 else Outcome.Performed) in states[n + 1].log
  {
    hide OrderInv, ParseInv, Lifetime, AnsweredIn;
    LifetimeInv(states, labels, n);
    StepAt(states, labels, n);
    var item, done := states[n].queue[0], labels[n].done;
    assert ItemOk(item);
    PerformOrder(states[n].log, item, done);
    assert PerformEvents(item, done)[0] == Answered(item.id, OutcomeOf(item));
    assert states[n + 1].log[|states[n].log|] == Answered(item.id, OutcomeOf(item));
  }

  // ----- the priority insertion -----

  /** A debugger-configuration request goes right behind the last queued `workspace_open` and in
      front of everything else. */
  lemma InsertedBehindOpens(s: State, t: State) returns (k: nat)
    requires Step(s, Insert, t)
    ensures k <= |s.queue| && |t.queue| == |s.queue| + 1
    ensures t.queue[..k] == s.queue[..k] && t.queue[k + 1..] == s.queue[k..]
    ensures t.queue[k].kind.DcRequest? && t.queue[k].id == t.lastId > s.lastId
    ensures k > 0 ==> s.queue[k - 1].kind.WorkspaceOpen?
    ensures forall i | k <= i < |s.queue| :: !s.queue[i].kind.WorkspaceOpen?
  {
    k := BehindOpens(s.queue);
    BehindOpensIs(s.queue);
  }

  // ----- what is not promised -----

  /** The front item runs to its end. */
  lemma FrontRuns(s: State, t: State, backlog: set<string>, u: State)
    requires Reaches(s, t) && t.place.Top? && t.queue != [] && t.queue[0].pending == []
    requires MustRun(t.queue[0], t.parsingDone) && MayMark(t.queue[0], t.backlog, backlog)
    requires u == PerformedFront(t, backlog, true)
    ensures Reaches(s, u)
  {
    hide Reaches, PerformEvents;
    var chosen, performing := t.(place := Chosen), t.(place := Performing);
    ReachesOn(s, t, Choose, chosen);
    ReachesOn(s, chosen, Proceed, performing);
    ReachesOn(s, performing, Perform(backlog, true), u);
  }

  /** The manager has been opened; a query, a change of settings and another query wait. */
  function Waiting(): (s: State)
  {
    Pushed(Pushed(Pushed(INITIAL, Query, Answering, false), SettingsChange, Starting, false), Query, Answering, false)
  }

  lemma WaitingQueue()
    ensures Reaches(INITIAL, Waiting())
    ensures var s := Waiting();
            && s.queue == [Item(1, WorkspaceOpen, Starting, true, [], false),
                           Item(2, Query, Answering, true, [], false),
                           Item(3, SettingsChange, Starting, true, [], false),
                           Item(4, Query, Answering, true, [], false)]
            && s.place.Outside? && s.active.None? && s.backlog == {}
  {
    hide Reaches;
    var s1 := Pushed(INITIAL, Query, Answering, false);
    var s2 := Pushed(s1, SettingsChange, Starting, false);
    ReachesItself(INITIAL);
    ReachesOn(INITIAL, INITIAL, Push(Query, Answering, false), s1);
    ReachesOn(INITIAL, s1, Push(SettingsChange, Starting, false), s2);
    ReachesOn(INITIAL, s2, Push(Query, Answering, false), Waiting());
  }

  /** Only file changes reset `parsing_done`: files marked by a change of settings in the same
      call are still waiting to be parsed when the next query is performed. */
  lemma QueryMeetsMarkedFiles() returns (s: State)
    ensures Reaches(INITIAL, s) && s.place.Performing? && |s.queue| == 1
    ensures var item := s.queue[0]; item.kind.Query? && item.valid && !item.removed
    ensures s.backlog == {"f"}
  {
    hide Reaches, PerformEvents, INITIAL;
    WaitingQueue();
    var w := Waiting();
    var top := w.(place := Top, parsingDone := false);
    ReachesOn(INITIAL, w, Enter, top);
    var t1 := PerformedFront(top, {}, true);
    FrontRuns(INITIAL, top, {}, t1);
    var chosen, parsing := t1.(place := Chosen), t1.(place := Parsing);
    ReachesOn(INITIAL, t1, Choose, chosen);
    ReachesOn(INITIAL, chosen, StartParsing, parsing);
    var t2 := parsing.(place := Top, parsingDone := true);
    ReachesOn(INITIAL, parsing, Drain, t2);
    var t3 := PerformedFront(t2, {}, true);
    FrontRuns(INITIAL, t2, {}, t3);
    var t4 := PerformedFront(t3, {"f"}, true);
    FrontRuns(INITIAL, t3, {"f"}, t4);
    var last := t4.(place := Chosen);
    ReachesOn(INITIAL, t4, Choose, last);
    s := last.(place := Performing);
    ReachesOn(INITIAL, last, Proceed, s);
  }
}

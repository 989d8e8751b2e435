/** Whose turn it is in the handler: when parsing may go ahead of the queue, what a cancelled
    query waits for, why a call returns, and where the flags of an item come from. */
module SchedulerTurns {
  import opened Basics
  import opened Scheduler
  import opened SchedulerLaws
  import opened SchedulerSafety

  // ----- parsing and the front item -----

  /** Parsing goes ahead of the queue only if nothing has been parsed yet and a query stands in
      front that is neither cancelled nor of a removed workspace. */
  lemma ParsingOvertakes(states: seq<State>, labels: seq<Label>, n: nat)
    requires Lifetime(states, labels) && n < |labels| && labels[n].StartParsing?
    ensures !states[n].parsingDone
    ensures states[n].queue != [] ==>
              var item := states[n].queue[0];
              && item.kind.Query? && item.valid && !item.removed && item.pending == []
              && !item.action.Starting? && !item.action.Running?
  {
    hide OrderInv, ParseInv, Lifetime;
    LifetimeInv(states, labels, n);
    StepAt(states, labels, n);
    if states[n].queue != [] { assert ItemOk(states[n].queue[0]); }
  }

  /** An item that may be performed is, unless it is such a query and parsing comes first. */
  lemma ChosenTurn(states: seq<State>, labels: seq<Label>, n: nat)
    requires Lifetime(states, labels) && n < |labels|
    requires states[n].place.Chosen? && !labels[n].Invalidate?
    ensures states[n].queue != []
    ensures var item := states[n].queue[0];
            if item.kind.Query? && item.valid && !item.removed && !states[n].parsingDone
            then labels[n].StartParsing? else labels[n].Proceed?
  {
    hide OrderInv, ParseInv, Lifetime;
    LifetimeInv(states, labels, n);
    StepAt(states, labels, n);
    assert ItemOk(states[n].queue[0]);
  }

  /** The handler looks at a queue whose front item is a query that was cancelled or whose
      workspace was removed. */
  predicate DeadInFront(s: State)
  {
    && (s.place.Top? || s.place.Chosen? || s.place.Performing?)
    && s.queue != [] && s.queue[0].kind.Query? && (!s.queue[0].valid || s.queue[0].removed)
  }

  lemma DeadStep(s: State, l: Label, t: State)
    requires QueueInv(s) && DeadInFront(s) && Step(s, l, t)
    ensures l.Invalidate? || l.Choose? || l.Proceed? || (l.Perform? && l.done)
    ensures !l.Perform? ==> DeadInFront(t) && t.queue[0].id == s.queue[0].id && |t.queue| == |s.queue|
                            && t.log == s.log && t.active == s.active && t.backlog == s.backlog
  {
    assert ItemOk(s.queue[0]);
  }

  /** From there on the handler does nothing but choose and perform the query: no parse task is
      started, resumed or created, and no call returns, before it has been answered and popped. */
  lemma {:induction false} DeadQueryFirst(states: seq<State>, labels: seq<Label>, n: nat, m: nat)
    requires Lifetime(states, labels) && n <= m < |labels| && DeadInFront(states[n])
    requires forall k | n <= k < m :: !labels[k].Perform?
    ensures labels[m].Invalidate? || labels[m].Choose? || labels[m].Proceed? || (labels[m].Perform? && labels[m].done)
    ensures DeadInFront(states[m]) && states[m].queue[0].id == states[n].queue[0].id
    ensures |states[m].queue| == |states[n].queue| && states[m].log == states[n].log
    ensures states[m].active == states[n].active && states[m].backlog == states[n].backlog
    decreases m
  {
    hide OrderInv, ParseInv, Lifetime, Step, QueueInv, DeadInFront;
    LifetimeInv(states, labels, m);
    StepAt(states, labels, m);
    if n < m {
      DeadQueryFirst(states, labels, n, m - 1);
      StepAt(states, labels, m - 1);
      LifetimeInv(states, labels, m - 1);
      DeadStep(states[m - 1], labels[m - 1], states[m]);
    }
    DeadStep(states[m], labels[m], states[m + 1]);
  }

  /** The step that performs it answers with the error that fits, pops it, and leaves the parse
      task and the marked files alone. */
  lemma DeadQueryAnswered(states: seq<State>, labels: seq<Label>, n: nat, m: nat)
    requires Lifetime(states, labels) && n <= m < |labels| && DeadInFront(states[n])
    requires labels[m].Perform? && forall k | n <= k < m :: !labels[k].Perform?
    ensures states[m].queue != []
    ensures var id, t := states[n].queue[0].id, states[m + 1];
            && t.log == states[n].log
                        + [Answered(id, if !states[m].queue[0].valid then Cancelled else WorkspaceRemoved),
                           Completed(id, Query)]
            && t.queue == states[m].queue[1..] && |t.queue| == |states[n].queue| - 1
            && t.active == states[n].active && t.backlog == states[n].backlog && t.place.Top?
  {
    hide OrderInv, ParseInv, Lifetime;
    DeadQueryFirst(states, labels, n, m);
    LifetimeInv(states, labels, m);
    StepAt(states, labels, m);
    assert ItemOk(states[m].queue[0]);
  }

  // ----- why a call returns -----

  /** A call returns exactly at an item that waits for its configuration, at a task in the queue
      or a parse task that gave way, or with nothing queued. */
  lemma HandlerReturns(states: seq<State>, labels: seq<Label>, n: nat)
    requires Lifetime(states, labels) && n < |labels| && !states[n].place.Outside?
    ensures states[n + 1].place.Outside? <==>
            labels[n].Block? || labels[n].Leave? || (labels[n].Perform? && !labels[n].done)
            || (labels[n].Resume? && !labels[n].done)
    ensures labels[n].Block? ==>
              states[n].queue != [] && states[n].queue[0].pending != [] && states[n].queue[0].valid
    ensures labels[n].Perform? && !labels[n].done ==>
              && states[n].queue != [] && !states[n].queue[0].removed && !states[n].queue[0].action.Plain?
              && !states[n].queue[0].action.Answering?
              && states[n + 1].queue == states[n].queue[0 := states[n].queue[0].(action := Running)]
    ensures labels[n].Resume? && !labels[n].done ==>
              states[n].active.Some? && states[n + 1].active == states[n].active
  {
    StepAt(states, labels, n);
  }

  /** It returns with nothing queued only after the backlog was drained and no file change has
      been executed since. */
  lemma LeavesDrained(states: seq<State>, labels: seq<Label>, n: nat) returns (m: nat)
    requires Lifetime(states, labels) && n < |labels| && labels[n].Leave?
    ensures states[n].queue == []
    ensures m < n && LastDrain(states, labels, m, n)
    ensures states[n].backlog == {} <==> NoMarks(states, labels, m, n)
  {
    hide Lifetime, LastDrain, NoMarks;
    StepAt(states, labels, n);
    m := DoneMeansDrained(states, labels, n);
  }

  // ----- what draining means -----

  /** A parse of the file came to its end at one of these steps. */
  ghost predicate ParsedBetween(states: seq<State>, labels: seq<Label>, f: string, k: nat, m: nat)
    requires k <= m <= |labels| && m <= |states|
  {
    exists j | k <= j < m :: ParsedAt(states[j], labels[j], f)
  }

  predicate ParsedAt(s: State, l: Label, f: string)
  {
    l == Resume(true) && s.active.Some? && s.active.value.file == f
  }

  lemma FileStep(s: State, l: Label, t: State, f: string)
    requires Step(s, l, t) && f in s.backlog
    ensures f in t.backlog || ParsedAt(s, l, f) || (l.Perform? && s.queue != [] && s.queue[0].kind.FileChange?)
    ensures ParsedAt(s, l, f) ==> f !in t.backlog
  {
  }

  /** A file marked for parsing leaves the backlog only by a parse of it that came to its end, as
      long as no file change is executed. */
  lemma {:induction false} MarkedUntilParsed(states: seq<State>, labels: seq<Label>, f: string, k: nat, m: nat)
    requires Lifetime(states, labels) && k <= m <= |labels| && m < |states|
    requires f in states[k].backlog && f !in states[m].backlog && NoChange(states, labels, k, m)
    ensures ParsedBetween(states, labels, f, k, m)
    decreases m - k
  {
    hide Step, Lifetime, ParsedAt;
    StepAt(states, labels, k);
    FileStep(states[k], labels[k], states[k + 1], f);
    if !ParsedAt(states[k], labels[k], f) {
      assert !Changes(states, labels, k);
      MarkedUntilParsed(states, labels, f, k + 1, m);
      var j :| k + 1 <= j < m && ParsedAt(states[j], labels[j], f);
    }
  }

  /** So when a live query is performed, every file marked at an earlier moment since the last
      file change, up to the drain, has been parsed to its end. */
  lemma MarkedIsParsedBeforeQuery(states: seq<State>, labels: seq<Label>, n: nat) returns (m: nat)
    requires Lifetime(states, labels) && n < |labels| && PerformsLiveQuery(states, labels, n)
    ensures m < n && LastDrain(states, labels, m, n)
    ensures forall k: nat, f | k <= m && NoChange(states, labels, k, m) && f in states[k].backlog ::
              ParsedBetween(states, labels, f, k, m)
  {
    hide Lifetime, LastDrain, NoMarks, PerformsLiveQuery, ParsedBetween, NoChange;
    m := LiveQueryAfterDrain(states, labels, n);
    StepAt(states, labels, n);
    LastDrainEmpty(states, labels, m, n);
    forall k: nat, f | k <= m && NoChange(states, labels, k, m) && f in states[k].backlog
      ensures ParsedBetween(states, labels, f, k, m)
    {
      MarkedUntilParsed(states, labels, f, k, m);
    }
  }

  lemma LastDrainEmpty(states: seq<State>, labels: seq<Label>, m: nat, n: nat)
    requires m < n <= |labels| && n < |states| && LastDrain(states, labels, m, n)
    ensures states[m].backlog == {}
  {
  }

  // ----- the flags of an item -----

  /** An item of the queue after a step that was not there before. */
  predicate IsNew(s: State, l: Label, item: Item)
  {
    (l.Push? || l.Insert?) && item.id == s.lastId + 1 && item.valid && !item.removed
    && item.pending == (if l.Push? && l.asks then [item.id + 1] else [])
  }

  /** What a step does to the flags of an item, and to the request it waits for. */
  predicate Carried(l: Label, before: Item, after: Item)
  {
    && after.id == before.id && after.kind == before.kind
    && (after.valid <==> before.valid && !(l.Invalidate? && after.id in l.ids && after.kind.Query?))
    && (after.removed <==> before.removed || (l.Remove? && after.id in l.ids))
  }

  /** Where the item at `i` after a step stood before it. */
  function Before(s: State, l: Label, i: nat): (j: nat)
  {
    if l.Insert? && i > BehindOpens(s.queue) then i - 1 else if l.Perform? && l.done then i + 1 else i
  }

  predicate IsNewPlace(s: State, l: Label, i: nat)
  {
    (l.Push? && i == |s.queue|) || (l.Insert? && i == BehindOpens(s.queue))
  }

  lemma ItemOrigin(s: State, l: Label, t: State, i: nat)
    requires Step(s, l, t) && i < |t.queue|
    ensures if IsNewPlace(s, l, i) then IsNew(s, l, t.queue[i])
            else Before(s, l, i) < |s.queue| && Carried(l, s.queue[Before(s, l, i)], t.queue[i])
  {
    hide Carried, IsNew;
    match l
    case Push(_, _, _) => PushOrigin(s, l, t, i);
    case Insert => InsertOrigin(s, t, i);
    case Respond(id, rid) => RespondOrigin(s, id, rid, i);
    case Invalidate(ids) => InvalidateOrigin(s, ids, i);
    case Remove(ids) => RemoveOrigin(s, ids, i);
    case Perform(_, _) => PerformOrigin(s, l, t, i);
    case _ => QuietOrigin(s, l, t, i);
  }

  lemma PushOrigin(s: State, l: Label, t: State, i: nat)
    requires Step(s, l, t) && l.Push? && i < |t.queue|
    ensures i <= |s.queue| && if i == |s.queue| then IsNew(s, l, t.queue[i]) else Carried(l, s.queue[i], t.queue[i])
  {
  }

  lemma InsertOrigin(s: State, t: State, i: nat)
    requires Step(s, Insert, t) && i < |t.queue|
    ensures if i == BehindOpens(s.queue) then IsNew(s, Insert, t.queue[i])
            else Before(s, Insert, i) < |s.queue| && Carried(Insert, s.queue[Before(s, Insert, i)], t.queue[i])
  {
    hide BehindOpens;
  }

  lemma RespondOrigin(s: State, id: nat, rid: nat, i: nat)
    requires i < |s.queue|
    ensures Carried(Respond(id, rid), s.queue[i], ResolvedAt(s.queue, id, rid)[i])
  {
    hide ItemIndex, Without;
  }

  lemma InvalidateOrigin(s: State, ids: set<nat>, i: nat)
    requires i < |s.queue|
    ensures Carried(Invalidate(ids), s.queue[i], Invalidated(s.queue, ids)[i])
  {
  }

  lemma RemoveOrigin(s: State, ids: set<nat>, i: nat)
    requires i < |s.queue|
    ensures Carried(Remove(ids), s.queue[i], Removed(s.queue, ids)[i])
  {
  }

  lemma PerformOrigin(s: State, l: Label, t: State, i: nat)
    requires Step(s, l, t) && l.Perform? && i < |t.queue|
    ensures Before(s, l, i) < |s.queue| && Carried(l, s.queue[Before(s, l, i)], t.queue[i])
  {
    hide PerformEvents, MayMark, MayEnd;
  }

  lemma QuietOrigin(s: State, l: Label, t: State, i: nat)
    requires Step(s, l, t) && i < |t.queue|
    requires !l.Push? && !l.Insert? && !l.Respond? && !l.Invalidate? && !l.Remove? && !l.Perform?
    ensures t.queue == s.queue && Carried(l, s.queue[i], t.queue[i])
  {
    hide MustRun;
  }

  ghost predicate IdsDistinct(s: State)
  {
    && (forall i | 0 <= i < |s.queue| :: s.queue[i].id <= s.lastId)
    && (forall i, j | 0 <= i < j < |s.queue| :: s.queue[i].id != s.queue[j].id)
  }

  lemma DistinctStep(s: State, l: Label, t: State)
    requires Step(s, l, t) && IdsDistinct(s)
    ensures IdsDistinct(t) && s.lastId <= t.lastId
  {
    LastIdGrows(s, l, t);
    forall i | 0 <= i < |t.queue| ensures t.queue[i].id <= t.lastId {
      DistinctItem(s, l, t, i);
    }
    forall i, j | 0 <= i < j < |t.queue| ensures t.queue[i].id != t.queue[j].id {
      DistinctPair(s, l, t, i, j);
    }
  }

  lemma LastIdGrows(s: State, l: Label, t: State)
    requires Step(s, l, t)
    ensures s.lastId <= t.lastId && (l.Push? || l.Insert? ==> s.lastId < t.lastId)
  {
  }

  lemma DistinctItem(s: State, l: Label, t: State, i: nat)
    requires Step(s, l, t) && IdsDistinct(s) && i < |t.queue|
    ensures t.queue[i].id <= t.lastId
  {
    hide Step;
    LastIdGrows(s, l, t);
    ItemOrigin(s, l, t, i);
  }

  lemma DistinctPair(s: State, l: Label, t: State, i: nat, j: nat)
    requires Step(s, l, t) && IdsDistinct(s) && i < j < |t.queue|
    ensures t.queue[i].id != t.queue[j].id
  {
    hide Step;
    ItemOrigin(s, l, t, i);
    ItemOrigin(s, l, t, j);
  }

  lemma InitialDistinct()
    ensures IdsDistinct(INITIAL)
  {
  }

  lemma {:induction false} DistinctRun(states: seq<State>, labels: seq<Label>, k: nat, n: nat)
    requires Lifetime(states, labels) && k <= n <= |labels|
    ensures |states| == |labels| + 1 && IdsDistinct(states[n]) && states[k].lastId <= states[n].lastId
    decreases n
  {
    hide Step, IdsDistinct, INITIAL;
    if n == 0 {
      InitialDistinct();
    } else {
      DistinctRun(states, labels, if k < n then k else n - 1, n - 1);
      StepAt(states, labels, n - 1);
      DistinctStep(states[n - 1], labels[n - 1], states[n]);
    }
  }

  predicate Waits(s: State, id: nat)
  {
    exists i | 0 <= i < |s.queue| :: s.queue[i].id == id
  }

  /** One of the first `n` steps cancelled the responses of a set with the id, which was queued. */
  ghost predicate WasCancelled(states: seq<State>, labels: seq<Label>, n: nat, id: nat)
    requires n <= |labels| && n <= |states|
  {
    exists m | 0 <= m < n :: CancelsAt(states[m], labels[m], id)
  }

  predicate CancelsAt(s: State, l: Label, id: nat)
  {
    l.Invalidate? && id in l.ids && Waits(s, id)
  }

  ghost predicate WasRemoved(states: seq<State>, labels: seq<Label>, n: nat, id: nat)
    requires n <= |labels| && n <= |states|
  {
    exists m | 0 <= m < n :: RemovesAt(states[m], labels[m], id)
  }

  predicate RemovesAt(s: State, l: Label, id: nat)
  {
    l.Remove? && id in l.ids && Waits(s, id)
  }

  lemma NewWasNotThere(states: seq<State>, labels: seq<Label>, n: nat, item: Item)
    requires Lifetime(states, labels) && n < |labels| < |states| && IsNew(states[n], labels[n], item)
    ensures !WasCancelled(states, labels, n + 1, item.id) && !WasRemoved(states, labels, n + 1, item.id)
  {
    forall m | 0 <= m <= n
      ensures !CancelsAt(states[m], labels[m], item.id) && !RemovesAt(states[m], labels[m], item.id)
    {
      DistinctRun(states, labels, m, n);
      DistinctRun(states, labels, m, m);
    }
  }

  lemma CancelledOneMore(states: seq<State>, labels: seq<Label>, n: nat, id: nat)
    requires n < |labels| < |states|
    ensures WasCancelled(states, labels, n + 1, id)
            <==> WasCancelled(states, labels, n, id) || CancelsAt(states[n], labels[n], id)
    ensures WasRemoved(states, labels, n + 1, id)
            <==> WasRemoved(states, labels, n, id) || RemovesAt(states[n], labels[n], id)
  {
    hide CancelsAt, RemovesAt;
  }

  /** A queued item is invalid exactly if it is a query and has been cancelled while it waited, and
      marked as removed exactly if its workspace has been removed while it waited. */
  lemma {:induction false} FlagsIff(states: seq<State>, labels: seq<Label>, n: nat, i: nat)
    requires Lifetime(states, labels) && n <= |labels| < |states| && i < |states[n].queue|
    ensures var item := states[n].queue[i];
            && (!item.valid <==> item.kind.Query? && WasCancelled(states, labels, n, item.id))
            && (item.removed <==> WasRemoved(states, labels, n, item.id))
    decreases n
  {
    hide Step, WasCancelled, WasRemoved;
    if n == 0 {
      NothingYet(states, labels, states[n].queue[i].id);
    } else {
      StepAt(states, labels, n - 1);
      ItemOrigin(states[n - 1], labels[n - 1], states[n], i);
      if IsNewPlace(states[n - 1], labels[n - 1], i) {
        NewWasNotThere(states, labels, n - 1, states[n].queue[i]);
      } else {
        FlagsIff(states, labels, n - 1, Before(states[n - 1], labels[n - 1], i));
        assert Waits(states[n - 1], states[n].queue[i].id);
        CancelledOneMore(states, labels, n - 1, states[n].queue[i].id);
      }
    }
  }

  lemma NothingYet(states: seq<State>, labels: seq<Label>, id: nat)
    ensures !WasCancelled(states, labels, 0, id) && !WasRemoved(states, labels, 0, id)
  {
  }

  // ----- waiting for settings -----

  lemma {:induction false} ItemIndexIs(queue: seq<Item>, id: nat)
    ensures var k := ItemIndex(queue, id);
            (k < |queue| ==> queue[k].id == id) && forall i | 0 <= i < k :: queue[i].id != id
  {
    if queue != [] && queue[0].id != id {
      ItemIndexIs(queue[1..], id);
      assert forall i | 0 <= i < |queue| - 1 :: queue[1..][i] == queue[i + 1];
    }
  }

  /** An answer to a request takes it from the item it was sent for, and from no other. */
  lemma PendingStep(s: State, l: Label, t: State, i: nat)
    requires Step(s, l, t) && IdsDistinct(s) && i < |t.queue| && !IsNewPlace(s, l, i)
    requires Before(s, l, i) < |s.queue|
    ensures var before := s.queue[Before(s, l, i)];
            t.queue[i].pending ==
            if l.Respond? && l.id == before.id then Without(before.pending, l.rid) else before.pending
  {
    hide Without;
    if l.Respond? { RespondPending(s, l.id, l.rid, i); } else { OtherPending(s, l, t, i); }
  }

  lemma RespondPending(s: State, id: nat, rid: nat, i: nat)
    requires IdsDistinct(s) && i < |s.queue|
    ensures ResolvedAt(s.queue, id, rid)[i].pending ==
            if s.queue[i].id == id then Without(s.queue[i].pending, rid) else s.queue[i].pending
  {
    hide Without, ItemIndex;
    ItemIndexIs(s.queue, id);
  }

  lemma OtherPending(s: State, l: Label, t: State, i: nat)
    requires Step(s, l, t) && !l.Respond? && i < |t.queue| && !IsNewPlace(s, l, i) && Before(s, l, i) < |s.queue|
    ensures t.queue[i].pending == s.queue[Before(s, l, i)].pending
  {
    hide Without, ItemIndex, ResolvedAt, MustRun, MayMark, MayEnd, PerformEvents, BehindOpens;
  }

  /** The item with the id was enqueued together with a request for its settings. */
  ghost predicate HasAsked(states: seq<State>, labels: seq<Label>, n: nat, id: nat)
    requires n <= |labels| && n <= |states|
  {
    exists m | 0 <= m < n :: AsksAt(states[m], labels[m], id)
  }

  predicate AsksAt(s: State, l: Label, id: nat)
  {
    l.Push? && l.asks && id == s.lastId + 1
  }

  /** The request was answered while the item waited. */
  ghost predicate WasAnswered(states: seq<State>, labels: seq<Label>, n: nat, id: nat)
    requires n <= |labels| && n <= |states|
  {
    exists m | 0 <= m < n :: AnswersAt(states[m], labels[m], id)
  }

  predicate AnswersAt(s: State, l: Label, id: nat)
  {
    l.Respond? && l.id == id && l.rid == id + 1 && Waits(s, id)
  }

  lemma AskedOneMore(states: seq<State>, labels: seq<Label>, n: nat, id: nat)
    requires n < |labels| < |states|
    ensures HasAsked(states, labels, n + 1, id)
            <==> HasAsked(states, labels, n, id) || AsksAt(states[n], labels[n], id)
    ensures WasAnswered(states, labels, n + 1, id)
            <==> WasAnswered(states, labels, n, id) || AnswersAt(states[n], labels[n], id)
  {
    hide AsksAt, AnswersAt;
  }

  lemma NewHasNotAsked(states: seq<State>, labels: seq<Label>, n: nat, item: Item)
    requires Lifetime(states, labels) && n < |labels| < |states| && IsNew(states[n], labels[n], item)
    ensures HasAsked(states, labels, n + 1, item.id) <==> item.pending != []
    ensures !WasAnswered(states, labels, n + 1, item.id)
  {
    forall m | 0 <= m <= n
      ensures !AnswersAt(states[m], labels[m], item.id)
      ensures m < n ==> !AsksAt(states[m], labels[m], item.id)
    {
      DistinctRun(states, labels, m, n);
      DistinctRun(states, labels, m, m);
      if m < n {
        StepAt(states, labels, m);
        LastIdGrows(states[m], labels[m], states[m + 1]);
        DistinctRun(states, labels, m + 1, n);
      }
    }
    AskedOneMore(states, labels, n, item.id);
  }

  lemma WithoutOne(id: nat, rid: nat)
    ensures Without([id], rid) == if rid == id then [] else [id]
    ensures Without([], rid) == []
  {
  }

  /** What a queued item waits for: the one request that was sent with it, until it is answered. */
  lemma {:induction false} PendingIff(states: seq<State>, labels: seq<Label>, n: nat, i: nat)
    requires Lifetime(states, labels) && n <= |labels| < |states| && i < |states[n].queue|
    ensures var item := states[n].queue[i];
            item.pending == if HasAsked(states, labels, n, item.id) && !WasAnswered(states, labels, n, item.id)
                            then [item.id + 1] else []
    decreases n
  {
    hide Step, HasAsked, WasAnswered, Without, IdsDistinct;
    if n == 0 {
      NothingAsked(states, labels, states[n].queue[i].id);
    } else {
      var s, l, t := states[n - 1], labels[n - 1], states[n];
      StepAt(states, labels, n - 1);
      ItemOrigin(s, l, t, i);
      if IsNewPlace(s, l, i) {
        NewHasNotAsked(states, labels, n - 1, t.queue[i]);
      } else {
        var j := Before(s, l, i);
        PendingIff(states, labels, n - 1, j);
        DistinctRun(states, labels, n - 1, n - 1);
        PendingStep(s, l, t, i);
        assert Waits(s, t.queue[i].id);
        AskedOneMore(states, labels, n - 1, t.queue[i].id);
        if l.Respond? { WithoutOne(t.queue[i].id + 1, l.rid); }
        OldHasAsked(s, l, j);
      }
    }
  }

  lemma OldHasAsked(s: State, l: Label, j: nat)
    requires IdsDistinct(s) && j < |s.queue|
    ensures !AsksAt(s, l, s.queue[j].id)
  {
  }

  lemma NothingAsked(states: seq<State>, labels: seq<Label>, id: nat)
    ensures !HasAsked(states, labels, 0, id) && !WasAnswered(states, labels, 0, id)
  {
  }
}

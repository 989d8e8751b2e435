/** What every run of the scheduler keeps. */
module SchedulerLaws {
  import opened Basics
  import opened Scheduler

  lemma LastOf(log: seq<Event>, e: Event)
    ensures (log + [e])[|log + [e]| - 1] == e && (log + [e])[..|log + [e]| - 1] == log
  {
  }

  // ----- the order of items -----

  /** Items other than debugger-configuration requests, in the order of a list. */
  function Ordinary(queue: seq<Item>): (r: seq<(nat, Kind)>)
  {
    if queue == [] then []
    else Ordinary(queue[..|queue| - 1])
         + (if queue[|queue| - 1].kind.DcRequest? then [] else [(queue[|queue| - 1].id, queue[|queue| - 1].kind)])
  }

  function EnqueuedIn(log: seq<Event>): (r: seq<(nat, Kind)>)
  {
    if log == [] then []
    else
      var e := log[|log| - 1];
      EnqueuedIn(log[..|log| - 1]) + (if e.Enqueued? && !e.kind.DcRequest? then [(e.id, e.kind)] else [])
  }

  function CompletedIn(log: seq<Event>): (r: seq<(nat, Kind)>)
  {
    if log == [] then []
    else
      var e := log[|log| - 1];
      CompletedIn(log[..|log| - 1]) + (if e.Completed? && !e.kind.DcRequest? then [(e.id, e.kind)] else [])
  }

  /** The queries that have been answered, in order. */
  function AnsweredIn(log: seq<Event>): (r: seq<nat>)
  {
    if log == [] then []
    else
      var e := log[|log| - 1];
      AnsweredIn(log[..|log| - 1]) + (if e.Answered? then [e.id] else [])
  }

  function QueriesOf(items: seq<(nat, Kind)>): (r: seq<nat>)
  {
    if items == [] then []
    else
      var e := items[|items| - 1];
      QueriesOf(items[..|items| - 1]) + (if e.1.Query? then [e.0] else [])
  }

  ghost predicate Increasing(items: seq<(nat, Kind)>, bound: nat)
  {
    && (forall i | 0 <= i < |items| :: items[i].0 <= bound)
    && (forall i, j | 0 <= i < j < |items| :: items[i].0 < items[j].0)
  }

  lemma {:induction false} OrdinarySplit(a: seq<Item>, b: seq<Item>)
    ensures Ordinary(a + b) == Ordinary(a) + Ordinary(b)
  {
    if b == [] {
      assert a + b == a;
    } else {
      assert (a + b)[..|a + b| - 1] == a + b[..|b| - 1];
      OrdinarySplit(a, b[..|b| - 1]);
    }
  }

  lemma {:induction false} QueriesSplit(a: seq<(nat, Kind)>, b: seq<(nat, Kind)>)
    ensures QueriesOf(a + b) == QueriesOf(a) + QueriesOf(b)
  {
    if b == [] {
      assert a + b == a;
    } else {
      assert (a + b)[..|a + b| - 1] == a + b[..|b| - 1];
      QueriesSplit(a, b[..|b| - 1]);
    }
  }

  lemma OrdinaryOne(item: Item)
    ensures Ordinary([item]) == if item.kind.DcRequest? then [] else [(item.id, item.kind)]
  {
    assert [item][..0] == [];
  }

  /** Changing items without touching id and kind changes no order. */
  lemma {:induction false} OrdinarySame(a: seq<Item>, b: seq<Item>)
    requires |a| == |b| && forall i | 0 <= i < |a| :: a[i].id == b[i].id && a[i].kind == b[i].kind
    ensures Ordinary(a) == Ordinary(b)
  {
    if a != [] { OrdinarySame(a[..|a| - 1], b[..|b| - 1]); }
  }

  // ----- started items -----

  /** Only debugger-configuration requests stand in front of an item that has been started. */
  ghost predicate StartedInFront(queue: seq<Item>)
  {
    forall i, j | 0 <= j < i < |queue| && queue[i].action.Running? :: queue[j].kind.DcRequest?
  }

  predicate ChangeStarted(queue: seq<Item>)
  {
    exists i | 0 <= i < |queue| :: queue[i].kind.FileChange? && queue[i].action.Running?
  }

  ghost predicate ItemsOk(queue: seq<Item>)
  {
    forall i | 0 <= i < |queue| :: ItemOk(queue[i])
  }

  // ----- the invariant -----

  ghost predicate QueueInv(s: State)
  {
    && ItemsOk(s.queue) && StartedInFront(s.queue)
    && (s.place.Chosen? || s.place.Performing? ==> s.queue != [] && s.queue[0].pending == [])
    && (s.place.Parsing? && s.queue != [] ==> s.queue[0].kind.Query?)
    && (s.place.Performing? && s.queue[0].kind.Query? && s.queue[0].valid && !s.queue[0].removed ==> s.parsingDone)
  }

  ghost predicate OrderInv(s: State)
  {
    && EnqueuedIn(s.log) == CompletedIn(s.log) + Ordinary(s.queue)
    && Increasing(EnqueuedIn(s.log), s.lastId)
    && AnsweredIn(s.log) == QueriesOf(CompletedIn(s.log))
  }

  ghost predicate ParseInv(s: State)
  {
    s.active.Some? ==> !ChangeStarted(s.queue)
  }

  ghost predicate Inv(s: State) { QueueInv(s) && OrderInv(s) && ParseInv(s) }

  // ----- the queue -----

  lemma ResolvedKeeps(queue: seq<Item>, id: nat, rid: nat)
    requires ItemsOk(queue) && StartedInFront(queue)
    ensures var q := ResolvedAt(queue, id, rid);
            && ItemsOk(q) && StartedInFront(q) && (ChangeStarted(q) ==> ChangeStarted(queue))
            && Ordinary(q) == Ordinary(queue)
  {
    var q := ResolvedAt(queue, id, rid);
    assert forall i | 0 <= i < |q| :: q[i] == queue[i] || q[i] == queue[i].(pending := Without(queue[i].pending, rid));
    OrdinarySame(q, queue);
    if i :| 0 <= i < |q| && q[i].kind.FileChange? && q[i].action.Running? {
      assert queue[i].kind.FileChange? && queue[i].action.Running?;
    }
  }

  lemma InvalidatedKeeps(queue: seq<Item>, ids: set<nat>)
    requires ItemsOk(queue) && StartedInFront(queue)
    ensures var q := Invalidated(queue, ids);
            && ItemsOk(q) && StartedInFront(q) && (ChangeStarted(q) ==> ChangeStarted(queue))
            && Ordinary(q) == Ordinary(queue)
  {
    var q := Invalidated(queue, ids);
    assert forall i | 0 <= i < |q| :: q[i] == queue[i] || (queue[i].kind.Query? && q[i] == queue[i].(valid := false));
    OrdinarySame(q, queue);
  }

  lemma RemovedKeeps(queue: seq<Item>, ids: set<nat>)
    requires ItemsOk(queue) && StartedInFront(queue)
    ensures var q := Removed(queue, ids);
            && ItemsOk(q) && StartedInFront(q) && (ChangeStarted(q) ==> ChangeStarted(queue))
            && Ordinary(q) == Ordinary(queue)
  {
    var q := Removed(queue, ids);
    assert forall i | 0 <= i < |q| :: q[i] == queue[i] || q[i] == queue[i].(removed := true);
    OrdinarySame(q, queue);
    if i :| 0 <= i < |q| && q[i].kind.FileChange? && q[i].action.Running? {
      assert queue[i].kind.FileChange? && queue[i].action.Running?;
    }
  }

  lemma PushedOrder(queue: seq<Item>, item: Item)
    requires !item.kind.DcRequest?
    ensures Ordinary(queue + [item]) == Ordinary(queue) + [(item.id, item.kind)]
  {
    OrdinarySplit(queue, [item]);
    OrdinaryOne(item);
  }

  lemma PushedKeeps(queue: seq<Item>, item: Item)
    requires ItemsOk(queue) && StartedInFront(queue) && ItemOk(item) && !item.action.Running?
    ensures var q := queue + [item];
            ItemsOk(q) && StartedInFront(q) && (ChangeStarted(q) ==> ChangeStarted(queue))
  {
    hide ItemOk;
    var q := queue + [item];
    assert forall i | 0 <= i < |queue| :: q[i] == queue[i];
    if i :| 0 <= i < |q| && q[i].kind.FileChange? && q[i].action.Running? {
      assert q[i] == queue[i];
    }
  }

  /** The priority insertion goes right behind the last queued `workspace_open`. */
  lemma {:induction false} BehindOpensIs(queue: seq<Item>)
    ensures var k := BehindOpens(queue);
            && (k > 0 ==> queue[k - 1].kind.WorkspaceOpen?)
            && forall i | k <= i < |queue| :: !queue[i].kind.WorkspaceOpen?
  {
    if queue != [] && !queue[|queue| - 1].kind.WorkspaceOpen? {
      var front := queue[..|queue| - 1];
      BehindOpensIs(front);
      assert forall i | 0 <= i < |front| :: queue[i] == front[i];
    }
  }

  lemma InsertedOrder(queue: seq<Item>, k: nat, item: Item)
    requires k <= |queue| && item.kind.DcRequest?
    ensures Ordinary(queue[..k] + [item] + queue[k..]) == Ordinary(queue)
  {
    hide Ordinary;
    OrdinarySplit(queue[..k] + [item], queue[k..]);
    OrdinarySplit(queue[..k], [item]);
    OrdinarySplit(queue[..k], queue[k..]);
    OrdinaryOne(item);
    assert queue[..k] + queue[k..] == queue;
  }

  lemma InsertedKeeps(queue: seq<Item>, k: nat, item: Item)
    requires ItemsOk(queue) && StartedInFront(queue) && k <= |queue|
    requires ItemOk(item) && !item.action.Running? && item.kind.DcRequest?
    ensures var q := queue[..k] + [item] + queue[k..];
            ItemsOk(q) && StartedInFront(q) && (ChangeStarted(q) ==> ChangeStarted(queue))
  {
    hide ItemOk;
    var q := queue[..k] + [item] + queue[k..];
    assert forall i | 0 <= i < |q| :: q[i] == if i < k then queue[i] else if i == k then item else queue[i - 1];
    if i :| 0 <= i < |q| && q[i].kind.FileChange? && q[i].action.Running? {
      assert q[i] == queue[if i < k then i else i - 1];
    }
  }

  lemma PoppedKeeps(queue: seq<Item>)
    requires ItemsOk(queue) && StartedInFront(queue) && queue != []
    ensures var q := queue[1..];
            ItemsOk(q) && StartedInFront(q) && (ChangeStarted(q) ==> ChangeStarted(queue))
            && Ordinary(queue) == Ordinary([queue[0]]) + Ordinary(q)
  {
    var q := queue[1..];
    OrdinarySplit([queue[0]], q);
    assert [queue[0]] + q == queue;
    assert forall i | 0 <= i < |q| :: q[i] == queue[i + 1];
    if i :| 0 <= i < |q| && q[i].kind.FileChange? && q[i].action.Running? {
      assert queue[i + 1] == q[i];
    }
  }

  lemma StartedKeeps(queue: seq<Item>)
    requires ItemsOk(queue) && StartedInFront(queue) && queue != [] && IsTask(queue[0])
    ensures var q := AfterPerform(queue, false);
            ItemsOk(q) && StartedInFront(q) && Ordinary(q) == Ordinary(queue)
            && (ChangeStarted(q) ==> ChangeStarted(queue) || queue[0].kind.FileChange?)
  {
    var q := AfterPerform(queue, false);
    OrdinarySame(q, queue);
    assert forall i | 0 < i < |q| :: q[i] == queue[i];
    if i :| 0 <= i < |q| && q[i].kind.FileChange? && q[i].action.Running? {
      if i > 0 { assert q[i] == queue[i]; }
    }
  }

  /** Where parsing is reached, no file change is under way. */
  lemma ParsingSeesNoChange(s: State)
    requires QueueInv(s) && s.place.Parsing?
    ensures !ChangeStarted(s.queue)
  {
    assert forall i | 0 <= i < |s.queue| && s.queue[i].action.Running? :: i == 0 || s.queue[0].kind.DcRequest?;
  }

  // ----- one step -----

  lemma EmptyChange(log: seq<Event>, e: Event)
    ensures EnqueuedIn(log + [e]) == EnqueuedIn(log) + (if e.Enqueued?
            && !e.kind.DcRequest? then [(e.id, e.kind)] else [])
    ensures CompletedIn(log + [e]) == CompletedIn(log) + (if e.Completed?
            && !e.kind.DcRequest? then [(e.id, e.kind)] else [])
    ensures AnsweredIn(log + [e]) == AnsweredIn(log) + (if e.Answered? then [e.id] else [])
  {
    LastOf(log, e);
  }

  lemma IncreasingAppend(items: seq<(nat, Kind)>, bound: nat, id: nat, kind: Kind, bound': nat)
    requires Increasing(items, bound) && bound < id <= bound'
    ensures Increasing(items + [(id, kind)], bound')
  {
  }

  lemma IncreasingWeaker(items: seq<(nat, Kind)>, bound: nat, bound': nat)
    requires Increasing(items, bound) && bound <= bound'
    ensures Increasing(items, bound')
  {
  }

  lemma PushKeeps(s: State, kind: Kind, action: Action, asks: bool)
    requires Inv(s) && s.place.Outside? && MayPush(kind, action, asks)
    ensures Inv(Pushed(s, kind, action, asks))
  {
    hide Increasing, Ordinary, EnqueuedIn, CompletedIn, AnsweredIn, QueriesOf, ItemsOk, StartedInFront, ChangeStarted;
    var t := Pushed(s, kind, action, asks);
    var item := t.queue[|s.queue|];
    var e := Enqueued(item.id, kind);
    PushedOrder(s.queue, item);
    PushedKeeps(s.queue, item);
    EmptyChange(s.log, e);
    IncreasingAppend(EnqueuedIn(s.log), s.lastId, item.id, kind, t.lastId);
    assert (CompletedIn(s.log) + Ordinary(s.queue)) + [(item.id, kind)]
       == CompletedIn(s.log) + (Ordinary(s.queue) + [(item.id, kind)]);
    assert CompletedIn(s.log) + [] == CompletedIn(s.log) && AnsweredIn(s.log) + [] == AnsweredIn(s.log);
  }

  lemma InsertKeeps(s: State)
    requires Inv(s) && s.place.Outside?
    ensures Inv(Inserted(s))
  {
    hide Increasing, Ordinary, EnqueuedIn, CompletedIn, AnsweredIn, QueriesOf, ItemsOk, StartedInFront, ChangeStarted;
    var t := Inserted(s);
    var k := BehindOpens(s.queue);
    var item := t.queue[k];
    var e := Enqueued(item.id, DcRequest);
    InsertedOrder(s.queue, k, item);
    InsertedKeeps(s.queue, k, item);
    EmptyChange(s.log, e);
    IncreasingWeaker(EnqueuedIn(s.log), s.lastId, t.lastId);
    assert EnqueuedIn(s.log) + [] == EnqueuedIn(s.log) && CompletedIn(s.log) + [] == CompletedIn(s.log)
        && AnsweredIn(s.log) + [] == AnsweredIn(s.log);
  }

  /** What performing an item adds to the order of items. */
  lemma PerformOrder(log: seq<Event>, item: Item, done: bool)
    requires ItemOk(item) && MayEnd(item, done)
    ensures var more := log + PerformEvents(item, done);
            && EnqueuedIn(more) == EnqueuedIn(log)
            && CompletedIn(more) == CompletedIn(log)
                                    + (if done && !item.kind.DcRequest? then [(item.id, item.kind)] else [])
            && AnsweredIn(more) == AnsweredIn(log) + (if item.kind.Query? then [item.id] else [])
  {
    hide EnqueuedIn, CompletedIn, AnsweredIn;
    var l1 := if item.kind.Query? then log + [Answered(item.id, OutcomeOf(item))] else log;
    EmptyChange(log, Answered(item.id, OutcomeOf(item)));
    EmptyChange(l1, Completed(item.id, item.kind));
    var l2 := if done then l1 + [Completed(item.id, item.kind)] else l1;
    assert log + PerformEvents(item, done) == l2;
  }

  lemma PerformQueue(queue: seq<Item>, done: bool)
    requires ItemsOk(queue) && StartedInFront(queue) && queue != [] && MayEnd(queue[0], done)
    ensures var q := AfterPerform(queue, done);
            && ItemsOk(q) && StartedInFront(q)
            && (ChangeStarted(q) ==> ChangeStarted(queue) || queue[0].kind.FileChange?)
            && Ordinary(queue) ==
               (if done && !queue[0].kind.DcRequest? then [(queue[0].id, queue[0].kind)] else []) + Ordinary(q)
  {
    hide Ordinary;
    if done {
      PoppedKeeps(queue);
      OrdinaryOne(queue[0]);
    } else {
      StartedKeeps(queue);
    }
  }

  lemma PerformOrderKeeps(s: State, backlog: set<string>, done: bool)
    requires QueueInv(s) && OrderInv(s) && s.place.Performing? && MayEnd(s.queue[0], done)
    ensures OrderInv(PerformedFront(s, backlog, done))
  {
    hide Increasing, Ordinary, EnqueuedIn, CompletedIn, AnsweredIn, QueriesOf, StartedInFront, ChangeStarted;
    var item := s.queue[0];
    assert ItemOk(item);
    PerformOrder(s.log, item, done);
    PerformQueue(s.queue, done);
    var one := if done && !item.kind.DcRequest? then [(item.id, item.kind)] else [];
    var rest := Ordinary(AfterPerform(s.queue, done));
    assert CompletedIn(s.log) + (one + rest) == (CompletedIn(s.log) + one) + rest;
    QueriesSplit(CompletedIn(s.log), one);
    QueriesOne(item.id, item.kind);
    if one == [] { QueriesNone(); }
  }

  lemma QueriesOne(id: nat, kind: Kind)
    ensures QueriesOf([(id, kind)]) == if kind.Query? then [id] else []
  {
    assert [(id, kind)][..0] == [];
  }

  lemma QueriesNone()
    ensures QueriesOf([]) == []
  {
  }

  lemma PerformKeeps(s: State, backlog: set<string>, done: bool)
    requires Inv(s) && s.place.Performing? && MayEnd(s.queue[0], done)
    ensures Inv(PerformedFront(s, backlog, done))
  {
    hide OrderInv, Ordinary, StartedInFront;
    var item := s.queue[0];
    assert ItemOk(item);
    PerformOrderKeeps(s, backlog, done);
    PerformQueue(s.queue, done);
  }

  // ----- the parse part -----

  lemma OrderSame(s: State, t: State)
    requires OrderInv(s) && t.log == s.log && Ordinary(t.queue) == Ordinary(s.queue) && t.lastId == s.lastId
    ensures OrderInv(t)
  {
  }

  lemma ResumeKeeps(s: State, done: bool)
    requires Inv(s) && s.place.Parsing? && s.active.Some?
    ensures Inv(ResumedParse(s, done))
  {
    hide ItemsOk, StartedInFront, ChangeStarted;
    OrderSame(s, ResumedParse(s, done));
  }

  lemma CreateKeeps(s: State, file: string)
    requires Inv(s) && s.place.Parsing? && s.active.None?
    ensures Inv(s.(active := Some(Parse(s.parses, file)), parses := s.parses + 1))
  {
    hide ItemsOk, StartedInFront, ChangeStarted;
    OrderSame(s, s.(active := Some(Parse(s.parses, file)), parses := s.parses + 1));
    ParsingSeesNoChange(s);
  }

  // ----- the rest of the environment -----

  lemma QueueChangeKeeps(s: State, queue: seq<Item>)
    requires Inv(s) && QueueInv(s.(queue := queue))
    requires Ordinary(queue) == Ordinary(s.queue) && (ChangeStarted(queue) ==> ChangeStarted(s.queue))
    ensures Inv(s.(queue := queue))
  {
    hide OrderInv, QueueInv, Ordinary, ChangeStarted;
    OrderSame(s, s.(queue := queue));
  }

  lemma InvalidateKeeps(s: State, ids: set<nat>)
    requires Inv(s)
    ensures Inv(s.(queue := Invalidated(s.queue, ids)))
  {
    hide OrderInv, ParseInv, ItemsOk, StartedInFront, ChangeStarted, Ordinary;
    var q := Invalidated(s.queue, ids);
    InvalidatedKeeps(s.queue, ids);
    if q != [] { assert q[0] == s.queue[0] || q[0] == s.queue[0].(valid := false); }
    QueueChangeKeeps(s, q);
  }

  lemma RemoveKeeps(s: State, ids: set<nat>)
    requires Inv(s) && s.place.Outside?
    ensures Inv(s.(queue := Removed(s.queue, ids)))
  {
    hide OrderInv, ParseInv, ItemsOk, StartedInFront, ChangeStarted, Ordinary;
    RemovedKeeps(s.queue, ids);
    QueueChangeKeeps(s, Removed(s.queue, ids));
  }

  lemma RespondKeeps(s: State, id: nat, rid: nat)
    requires Inv(s) && s.place.Outside?
    ensures Inv(s.(queue := ResolvedAt(s.queue, id, rid)))
  {
    hide OrderInv, ParseInv, ItemsOk, StartedInFront, ChangeStarted, Ordinary;
    ResolvedKeeps(s.queue, id, rid);
    QueueChangeKeeps(s, ResolvedAt(s.queue, id, rid));
  }

  /** Moves that change neither queue nor log. */
  lemma MoveKeeps(s: State, t: State)
    requires Inv(s) && t == s.(place := t.place, parsingDone := t.parsingDone, backlog := t.backlog) && QueueInv(t)
    ensures Inv(t)
  {
    hide QueueInv, OrderInv, ChangeStarted;
    OrderSame(s, t);
  }

  /** Every step keeps the invariant. */
  lemma StepKeeps(s: State, l: Label, t: State)
    requires Inv(s) && Step(s, l, t)
    ensures Inv(t)
  {
    hide OrderInv, ParseInv, ItemsOk, StartedInFront;
    match l
    case Push(kind, action, asks) => PushKeeps(s, kind, action, asks);
    case Insert => InsertKeeps(s);
    case Respond(id, rid) => RespondKeeps(s, id, rid);
    case Invalidate(ids) => InvalidateKeeps(s, ids);
    case Remove(ids) => RemoveKeeps(s, ids);
    case Choose => ChooseMove(s, t);
    case Proceed => ProceedMove(s, t);
    case Perform(backlog, done) => PerformKeeps(s, backlog, done);
    case StartParsing => StartMove(s, t);
    case Resume(done) => ResumeKeeps(s, done);
    case Create(file) => CreateKeeps(s, file);
    case _ => MoveKeeps(s, t);
  }

  lemma ChooseMove(s: State, t: State)
    requires Inv(s) && Step(s, Choose, t)
    ensures Inv(t)
  {
    assert ItemOk(s.queue[0]);
    MoveKeeps(s, t);
  }

  lemma ProceedMove(s: State, t: State)
    requires Inv(s) && Step(s, Proceed, t)
    ensures Inv(t)
  {
    assert ItemOk(s.queue[0]);
    MoveKeeps(s, t);
  }

  lemma StartMove(s: State, t: State)
    requires Inv(s) && Step(s, StartParsing, t)
    ensures Inv(t)
  {
    MoveKeeps(s, t);
  }

  lemma InitialInv()
    ensures Inv(INITIAL)
  {
    var empty := State([], None, {}, 0, 0, Outside, false, []);
    PushKeeps(empty, WorkspaceOpen, Starting, false);
  }

  /** Every state of every run keeps the invariant. */
  lemma {:induction false} RunKeeps(states: seq<State>, labels: seq<Label>, n: nat)
    requires Run(states, labels) && Inv(states[0]) && n <= |labels|
    ensures Inv(states[n])
  {
    hide Inv, Step;
    if n > 0 {
      RunKeeps(states, labels, n - 1);
      StepKeeps(states[n - 1], labels[n - 1], states[n]);
    }
  }

  lemma ReachableInv(s: State)
    requires Reaches(INITIAL, s)
    ensures Inv(s)
  {
    hide Inv, Step;
    var states, labels :| Run(states, labels) && states[0] == INITIAL && states[|labels|] == s;
    InitialInv();
    RunKeeps(states, labels, |labels|);
  }
}

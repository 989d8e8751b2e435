/** The work queue of the workspace manager as a state machine
    (parser_library/src/workspace_manager.cpp). One step is one decision of `idle_handler`, one
    request from a client, or one cancellation arriving from another thread. */
module Scheduler {
  import opened Basics

  // ----- state -----

  /** `work_item_type` */
  datatype Kind = WorkspaceOpen | WorkspaceClose | SettingsChange | FileChange | Query | DcRequest

  /** The alternatives of `work_item::action`. `Running` is a task that has been started; how
      often it still has to be resumed is up to the environment. */
  datatype Action = Plain | Answering | Starting | Running

  /** `work_item`; `valid` is what its validator would say. */
  datatype Item = Item(id: nat, kind: Kind, action: Action, valid: bool, pending: seq<nat>, removed: bool)

  predicate IsTask(item: Item) { item.action.Starting? || item.action.Running? }

  /** How a response is resolved by `response_handle`. */
  datatype Outcome = Cancelled | WorkspaceRemoved | Performed

  /** The history of items: into the queue, out of the queue, and responses resolved. */
  datatype Event =
    | Enqueued(id: nat, kind: Kind)
    | Completed(id: nat, kind: Kind)
    | Answered(id: nat, outcome: Outcome)

  /** A parse task and the file it parses. */
  datatype Parse = Parse(number: nat, file: string)

  /** Where `idle_handler` stands: not running, at the top of its loop, past the check for
      unanswered configuration requests, about to perform the front item, or in the parse part. */
  datatype Place = Outside | Top | Chosen | Performing | Parsing

  /** `parsingDone` is the local flag of `idle_handler`. */
  datatype State = State(queue: seq<Item>, active: Option<Parse>, backlog: set<string>,
                         lastId: nat, parses: nat, place: Place, parsingDone: bool, log: seq<Event>)

  /** The items as the methods of the manager create them. */
  predicate ItemOk(item: Item)
  {
    && (item.kind.Query? <==> item.action.Answering?)
    && (!item.valid ==> item.kind.Query?)
    && (item.pending != [] ==> item.kind.WorkspaceOpen? || item.kind.SettingsChange?)
    && (item.kind.DcRequest? ==> IsTask(item))
  }

  // ----- requests from clients -----

  /** `emplace_back` of a new item; a configuration request takes an id of its own. */
  function Pushed(s: State, kind: Kind, action: Action, asks: bool): (t: State)
  {
    var id := s.lastId + 1;
    var pending := if asks then [id + 1] else [];
    s.(queue := s.queue + [Item(id, kind, action, true, pending, false)],
       lastId := if asks then id + 1 else id,
       log := s.log + [Enqueued(id, kind)])
  }

  predicate MayPush(kind: Kind, action: Action, asks: bool)
  {
    match kind
    case FileChange => (action.Plain? || action.Starting?) && !asks
    case WorkspaceOpen => action.Starting?
    case SettingsChange => action.Starting?
    case WorkspaceClose => action.Plain? && !asks
    case Query => action.Answering? && !asks
    case DcRequest => false
  }

  /** The place behind the last queued `workspace_open`; the front when there is none. */
  function BehindOpens(queue: seq<Item>): (k: nat)
    ensures k <= |queue|
  {
    if queue == [] then 0
    else if queue[|queue| - 1].kind.WorkspaceOpen? then |queue|
    else BehindOpens(queue[..|queue| - 1])
  }

  /** `provide_debugger_configuration`: a priority insertion. */
  function Inserted(s: State): (t: State)
  {
    var k := BehindOpens(s.queue);
    var item := Item(s.lastId + 1, DcRequest, Starting, true, [], false);
    s.(queue := s.queue[..k] + [item] + s.queue[k..],
       lastId := s.lastId + 1,
       log := s.log + [Enqueued(item.id, DcRequest)])
  }

  /** `remove_pending_request` on the item that waits for it. */
  function Without(pending: seq<nat>, rid: nat): (r: seq<nat>)
    ensures |r| <= |pending|
  {
    if pending == [] then []
    else if pending[0] == rid then pending[1..]
    else [pending[0]] + Without(pending[1..], rid)
  }

  /** `find_work_item` */
  function ItemIndex(queue: seq<Item>, id: nat): (k: nat)
    ensures k <= |queue|
  {
    if queue == [] || queue[0].id == id then 0 else 1 + ItemIndex(queue[1..], id)
  }

  function ResolvedAt(queue: seq<Item>, id: nat, rid: nat): (r: seq<Item>)
    ensures |r| == |queue|
  {
    var k := ItemIndex(queue, id);
    if k == |queue| then queue else queue[k := queue[k].(pending := Without(queue[k].pending, rid))]
  }

  /** Cancelling clients turn their responses invalid, from any thread at any time. */
  function Invalidated(queue: seq<Item>, ids: set<nat>): (r: seq<Item>)
    ensures |r| == |queue|
  {
    seq(|queue|, i requires 0 <= i < |queue| =>
      if queue[i].id in ids && queue[i].kind.Query? then queue[i].(valid := false) else queue[i])
  }

  /** The flag `workspace_removed` goes up. */
  function Removed(queue: seq<Item>, ids: set<nat>): (r: seq<Item>)
    ensures |r| == |queue|
  {
    seq(|queue|, i requires 0 <= i < |queue| =>
      if queue[i].id in ids then queue[i].(removed := true) else queue[i])
  }

  // ----- idle_handler -----

  predicate MustRun(item: Item, parsingDone: bool)
  {
    IsTask(item) || item.removed || !item.valid || parsingDone || !item.kind.Query?
  }

  /** What performing an item may do to the files marked for parsing. */
  predicate MayMark(item: Item, before: set<string>, after: set<string>)
  {
    if item.removed || item.kind.Query? || item.kind.DcRequest? then after == before
    else item.kind.FileChange? || before <= after
  }

  /** `response_handle` */
  function OutcomeOf(item: Item): (o: Outcome)
  {
    if !item.valid then Cancelled else if item.removed then WorkspaceRemoved else Performed
  }

  /** Whether `perform_action` may report that the item is (not) done. */
  predicate MayEnd(item: Item, done: bool)
  {
    done || (IsTask(item) && !item.removed)
  }

  /** The front item is performed: the queue afterwards. */
  function AfterPerform(queue: seq<Item>, done: bool): (r: seq<Item>)
    requires queue != []
  {
    if done then queue[1..] else queue[0 := queue[0].(action := Running)]
  }

  function PerformEvents(item: Item, done: bool): (es: seq<Event>)
  {
    (if item.action.Answering? then [Answered(item.id, OutcomeOf(item))] else [])
    + (if done then [Completed(item.id, item.kind)] else [])
  }

  function PerformedFront(s: State, backlog: set<string>, done: bool): (t: State)
    requires s.queue != []
  {
    var item := s.queue[0];
    s.(queue := AfterPerform(s.queue, done),
       active := if item.kind.FileChange? then None else s.active,
       parsingDone := done && s.parsingDone && !item.kind.FileChange?,
       backlog := backlog,
       place := if done then Top else Outside,
       log := s.log + PerformEvents(item, done))
  }

  /** `run_active_task` */
  function ResumedParse(s: State, done: bool): (t: State)
    requires s.active.Some?
  {
    s.(active := if done then None else s.active,
       backlog := if done then s.backlog - {s.active.value.file} else s.backlog,
       place := if done then Parsing else Outside,
       parsingDone := done && s.parsingDone)
  }

  /** `idle_handler` returns; its local flag ends with it. */
  function Left(s: State): (t: State)
  {
    s.(place := Outside, parsingDone := false)
  }

  // ----- steps -----

  datatype Label =
    | Push(kind: Kind, action: Action, asks: bool)
    | Insert
    | Respond(id: nat, rid: nat)
    | Mark(files: set<string>)
    | Invalidate(ids: set<nat>)
    | Remove(ids: set<nat>)
    | Enter
    | Block
    | Choose
    | Proceed
    | Perform(backlog: set<string>, done: bool)
    | StartParsing
    | Resume(done: bool)
    | Create(file: string)
    | Drain
    | Leave

  ghost predicate Step(s: State, l: Label, t: State)
  {
    match l
    case Push(kind, action, asks) =>
      s.place.Outside? && MayPush(kind, action, asks) && t == Pushed(s, kind, action, asks)
    case Insert => s.place.Outside? && t == Inserted(s)
    case Respond(id, rid) => s.place.Outside? && t == s.(queue := ResolvedAt(s.queue, id, rid))
    case Mark(files) => s.place.Outside? && t == s.(backlog := s.backlog + files)
    case Invalidate(ids) => t == s.(queue := Invalidated(s.queue, ids))
    case Remove(ids) => s.place.Outside? && t == s.(queue := Removed(s.queue, ids))
    case Enter => s.place.Outside? && t == s.(place := Top, parsingDone := false)
    case Block => s.place.Top? && s.queue != [] && s.queue[0].pending != [] && s.queue[0].valid && t == Left(s)
    case Choose =>
      && s.place.Top? && s.queue != [] && (s.queue[0].pending == [] || !s.queue[0].valid)
      && t == s.(place := Chosen)
    case Proceed =>
      s.place.Chosen? && s.queue != [] && MustRun(s.queue[0], s.parsingDone) && t == s.(place := Performing)
    case Perform(backlog, done) =>
      && s.place.Performing? && s.queue != []
      && MayMark(s.queue[0], s.backlog, backlog) && MayEnd(s.queue[0], done)
      && t == PerformedFront(s, backlog, done)
    case StartParsing =>
      && (if s.queue == [] then s.place.Top? && !s.parsingDone
          else s.place.Chosen? && !MustRun(s.queue[0], s.parsingDone))
      && t == s.(place := Parsing)
    case Resume(done) => s.place.Parsing? && s.active.Some? && t == ResumedParse(s, done)
    case Create(file) =>
      && s.place.Parsing? && s.active.None? && file in s.backlog
      && t == s.(active := Some(Parse(s.parses, file)), parses := s.parses + 1)
    case Drain =>
      && s.place.Parsing? && s.active.None? && s.backlog == {}
      && t == s.(place := Top, parsingDone := true)
    case Leave => s.place.Top? && s.queue == [] && s.parsingDone && t == Left(s)
  }

  /** A new manager: the implicit workspace is about to be opened. */
  const INITIAL := Pushed(State([], None, {}, 0, 0, Outside, false, []), WorkspaceOpen, Starting, false)

  /** A finite run between two states. */
  ghost predicate Run(states: seq<State>, labels: seq<Label>)
  {
    && |states| == |labels| + 1
    && forall i | 0 <= i < |labels| :: Step(states[i], labels[i], states[i + 1])
  }

  ghost predicate Reaches(s: State, t: State)
  {
    exists states, labels :: Run(states, labels) && states[0] == s && states[|labels|] == t
  }

  lemma ReachesItself(s: State)
    ensures Reaches(s, s)
  {
    assert Run([s], []);
  }

  lemma ReachesOn(s: State, t: State, l: Label, u: State)
    requires Reaches(s, t) && Step(t, l, u)
    ensures Reaches(s, u)
  {
    hide Step;
    var states, labels :| Run(states, labels) && states[0] == s && states[|labels|] == t;
    var states', labels' := states + [u], labels + [l];
    assert forall i | 0 <= i < |labels'| :: Step(states'[i], labels'[i], states'[i + 1]);
    assert Run(states', labels') && states'[0] == s && states'[|labels'|] == u;
  }

  // ----- one call of idle_handler -----

  /** Steps of the handler itself, and cancellations that arrive while it runs. */
  predicate Own(l: Label)
  {
    !l.Push? && !l.Insert? && !l.Respond? && !l.Mark? && !l.Remove?
  }

  /** A call of the handler that began in `s` has come to `t` without returning. */
  ghost predicate Working(s: State, t: State)
  {
    exists states: seq<State>, labels: seq<Label> ::
      && Run(states, labels) && states[0] == s && states[|labels|] == t
      && labels != [] && labels[0].Enter?
      && (forall i | 0 <= i < |labels| :: Own(labels[i]))
      && (forall i | 1 <= i <= |labels| :: !states[i].place.Outside?)
  }

  /** One complete call of the handler leads from `s` to `t`. */
  ghost predicate Calls(s: State, t: State)
  {
    t.place.Outside? && exists m, l :: Working(s, m) && Own(l) && Step(m, l, t)
  }

  lemma WorkBegins(s: State, t: State)
    requires s.place.Outside? && Step(s, Enter, t)
    ensures Working(s, t)
  {
    hide Step;
    assert Run([s, t], [Enter]);
    EnterMoves(s, t);
  }

  lemma EnterMoves(s: State, t: State)
    requires Step(s, Enter, t)
    ensures t.place.Top?
  {
  }

  lemma WorkGoesOn(s: State, t: State, l: Label, u: State)
    requires Working(s, t) && Own(l) && Step(t, l, u) && !u.place.Outside?
    ensures Working(s, u)
  {
    hide Step, Own;
    var states: seq<State>, labels: seq<Label> :|
      && Run(states, labels) && states[0] == s && states[|labels|] == t
      && labels != [] && labels[0].Enter?
      && (forall i | 0 <= i < |labels| :: Own(labels[i]))
      && (forall i | 1 <= i <= |labels| :: !states[i].place.Outside?);
    var states', labels' := states + [u], labels + [l];
    assert forall i | 0 <= i < |labels'| :: Step(states'[i], labels'[i], states'[i + 1]);
    assert Run(states', labels') && states'[0] == s && states'[|labels'|] == u;
  }

  lemma WorkReturns(s: State, t: State, l: Label, u: State)
    requires Working(s, t) && Own(l) && Step(t, l, u) && u.place.Outside?
    ensures Calls(s, u)
  {
  }

  /** A call is a run. */
  lemma CallReaches(s: State, t: State)
    requires Calls(s, t)
    ensures Reaches(s, t)
  {
    hide Step, Own, Run;
    var m, l :| Working(s, m) && Own(l) && Step(m, l, t);
    assert Reaches(s, m);
    ReachesOn(s, m, l, t);
  }
}

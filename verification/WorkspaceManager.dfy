/** The workspace manager with its fields: every method is a run of the scheduler, and
    `idle_handler` comes to an end (parser_library/src/workspace_manager.cpp). Actions do not
    enqueue anything while they run. */
module WorkspaceManager {
  import opened Basics
  import opened Scheduler

  /** A change of settings for the implicit workspace, then one for each open workspace. */
  function SettingsPushed(s: State, workspaces: nat, asks: bool): (t: State)
  {
    if workspaces == 0 then Pushed(s, SettingsChange, Starting, false)
    else Pushed(SettingsPushed(s, workspaces - 1, asks), SettingsChange, Starting, asks)
  }

  lemma {:induction false} SettingsReached(s: State, workspaces: nat, asks: bool)
    requires s.place.Outside?
    ensures Reaches(s, SettingsPushed(s, workspaces, asks)) && SettingsPushed(s, workspaces, asks).place.Outside?
  {
    hide Pushed, Reaches;
    if workspaces == 0 {
      ReachesItself(s);
      SettingsStep(s, false);
      ReachesOn(s, s, Push(SettingsChange, Starting, false), SettingsPushed(s, 0, asks));
    } else {
      var t := SettingsPushed(s, workspaces - 1, asks);
      SettingsReached(s, workspaces - 1, asks);
      SettingsStep(t, asks);
      ReachesOn(s, t, Push(SettingsChange, Starting, asks), SettingsPushed(s, workspaces, asks));
    }
  }

  lemma SettingsStep(s: State, asks: bool)
    requires s.place.Outside?
    ensures Step(s, Push(SettingsChange, Starting, asks), Pushed(s, SettingsChange, Starting, asks))
    ensures Pushed(s, SettingsChange, Starting, asks).place.Outside?
  {
  }

  /** All of them stand at the end of the queue, and only those for open workspaces wait. */
  lemma {:induction false} SettingsQueued(s: State, workspaces: nat, asks: bool)
    ensures var q := SettingsPushed(s, workspaces, asks).queue;
            && |q| == |s.queue| + 1 + workspaces && q[..|s.queue|] == s.queue
            && forall i | |s.queue| <= i < |q| ::
                 q[i].kind.SettingsChange? && (i > |s.queue| && asks <==> q[i].pending != [])
  {
    if workspaces > 0 { SettingsQueued(s, workspaces - 1, asks); }
  }

  class Manager {
    var workQueue: seq<Item>
    var activeTask: Option<Parse>
    var backlog: set<string>
    var uniqueIdSequence: nat
    var parses: nat
    ghost var log: seq<Event>

    ghost function At(place: Place, parsingDone: bool): (s: State)
      reads this
    {
      State(workQueue, activeTask, backlog, uniqueIdSequence, parses, place, parsingDone, log)
    }

    /** The state between calls. */
    ghost function Now(): (s: State)
      reads this
    {
      At(Outside, false)
    }

    constructor ()
      ensures Now() == INITIAL
    {
      workQueue := [Item(1, WorkspaceOpen, Starting, true, [], false)];
      activeTask, backlog, uniqueIdSequence, parses := None, {}, 1, 0;
      log := [Enqueued(1, WorkspaceOpen)];
    }

    // ----- requests -----

    method NextUniqueId() returns (id: nat)
      modifies this`uniqueIdSequence
      ensures id == uniqueIdSequence == old(uniqueIdSequence) + 1
    {
      uniqueIdSequence := uniqueIdSequence + 1;
      id := uniqueIdSequence;
    }

    /** `emplace_back`, then `attach_configuration_request` when the item asks for its settings. */
    method EmplaceBack(kind: Kind, action: Action, asks: bool)
      requires MayPush(kind, action, asks)
      modifies this
      ensures Now() == Pushed(old(Now()), kind, action, asks)
    {
      var id := NextUniqueId();
      var item := Item(id, kind, action, true, [], false);
      if asks {
        var request := NextUniqueId();
        item := item.(pending := item.pending + [request]);
        assert item.pending == [request];
      }
      workQueue := workQueue + [item];
      log := log + [Enqueued(id, kind)];
    }

    /** `did_open_file`, `did_change_file` and `did_close_file`: one item for the file manager,
        one task for the workspace. */
    method DidChangeFile()
      modifies this
      ensures Now() == Pushed(Pushed(old(Now()), FileChange, Plain, false), FileChange, Starting, false)
    {
      EmplaceBack(FileChange, Plain, false);
      EmplaceBack(FileChange, Starting, false);
    }

    /** `did_change_watched_files` */
    method DidChangeWatchedFiles()
      modifies this
      ensures Now() == Pushed(Pushed(old(Now()), FileChange, Starting, false), FileChange, Starting, false)
    {
      EmplaceBack(FileChange, Starting, false);
      EmplaceBack(FileChange, Starting, false);
    }

    /** `handle_request` */
    method HandleRequest()
      modifies this
      ensures Now() == Pushed(old(Now()), Query, Answering, false)
    {
      EmplaceBack(Query, Answering, false);
    }

    /** `add_workspace` */
    method AddWorkspace(hasRequests: bool)
      modifies this
      ensures Now() == Pushed(old(Now()), WorkspaceOpen, Starting, hasRequests)
    {
      EmplaceBack(WorkspaceOpen, Starting, hasRequests);
    }

    /** `remove_workspace` of a known workspace */
    method RemoveWorkspace()
      modifies this
      ensures Now() == Pushed(old(Now()), WorkspaceClose, Plain, false)
    {
      EmplaceBack(WorkspaceClose, Plain, false);
    }

    /** `configuration_changed`: one item for the implicit workspace, one for each open one. */
    method ConfigurationChanged(workspaces: nat, hasRequests: bool)
      modifies this
      ensures Now() == SettingsPushed(old(Now()), workspaces, hasRequests) && Reaches(old(Now()), Now())
      ensures |workQueue| == |old(workQueue)| + 1 + workspaces && workQueue[..|old(workQueue)|] == old(workQueue)
      ensures forall i | |old(workQueue)| <= i < |workQueue| ::
                workQueue[i].kind.SettingsChange?
                && (i > |old(workQueue)| && hasRequests <==> workQueue[i].pending != [])
    {
      hide Pushed, Reaches, Step;
      ghost var s := Now();
      EmplaceBack(SettingsChange, Starting, false);
      for n := 0 to workspaces
        invariant Now() == SettingsPushed(s, n, hasRequests)
      {
        EmplaceBack(SettingsChange, Starting, hasRequests);
      }
      SettingsReached(s, workspaces, hasRequests);
      SettingsQueued(s, workspaces, hasRequests);
    }

    /** `provide_debugger_configuration`: the reverse search for the last `workspace_open`. */
    method ProvideDebuggerConfiguration()
      modifies this
      ensures Now() == Inserted(old(Now()))
    {
      var k := |workQueue|;
      assert workQueue[..k] == workQueue;
      while k > 0 && workQueue[k - 1].kind != WorkspaceOpen
        invariant 0 <= k <= |workQueue|
        invariant BehindOpens(workQueue[..k]) == BehindOpens(workQueue)
      {
        assert workQueue[..k][..k - 1] == workQueue[..k - 1];
        k := k - 1;
      }
      var id := NextUniqueId();
      workQueue := workQueue[..k] + [Item(id, DcRequest, Starting, true, [], false)] + workQueue[k..];
      log := log + [Enqueued(id, DcRequest)];
    }

    /** An answer to a configuration request: `find_work_item`, `remove_pending_request`. */
    method ResolveRequest(workItemId: nat, requestId: nat)
      modifies this`workQueue
      ensures Now() == old(Now()).(queue := ResolvedAt(old(workQueue), workItemId, requestId))
    {
      var k := 0;
      while k < |workQueue| && workQueue[k].id != workItemId
        invariant 0 <= k <= |workQueue|
        invariant ItemIndex(workQueue, workItemId) == k + ItemIndex(workQueue[k..], workItemId)
      {
        assert workQueue[k..][1..] == workQueue[k + 1..];
        k := k + 1;
      }
      if k < |workQueue| {
        var item := workQueue[k];
        var pending := RemovePendingRequest(item.pending, requestId);
        workQueue := workQueue[k := item.(pending := pending)];
      }
    }

    // ----- the handler -----

    /** Clients on other threads may cancel queries at any moment. */
    method Cancellations(ghost s: State, ghost place: Place, ghost parsingDone: bool) returns (ids: set<nat>)
      requires Working(s, At(place, parsingDone))
      modifies this`workQueue
      ensures Working(s, At(place, parsingDone))
      ensures workQueue == Invalidated(old(workQueue), ids)
    {
      ids := *;
      ghost var t := At(place, parsingDone);
      workQueue := Invalidated(workQueue, ids);
      StillWorking(s, t);
      WorkGoesOn(s, t, Invalidate(ids), At(place, parsingDone));
    }

    /** What an action does to the files marked for parsing. */
    method RunAction(item: Item)
      modifies this`backlog
      ensures !item.removed ==> MayMark(item, old(backlog), backlog)
    {
      var marked: set<string>, unmarked: set<string> := *, *;
      if item.kind == FileChange {
        backlog := backlog - unmarked;
      }
      if item.kind != Query && item.kind != DcRequest {
        backlog := backlog + marked;
      }
    }

    /** `perform_action` on the front item: whether it is done. */
    method PerformAction() returns (done: bool)
      requires workQueue != []
      modifies this`workQueue, this`backlog, this`log
      ensures MayMark(old(workQueue[0]), old(backlog), backlog) && MayEnd(old(workQueue[0]), done)
      ensures done ==> workQueue != [] && workQueue[1..] == old(workQueue[1..])
                       && workQueue[0].id == old(workQueue[0].id) && workQueue[0].kind == old(workQueue[0].kind)
      ensures !done ==> workQueue == AfterPerform(old(workQueue), false)
      ensures log == old(log) + (if old(workQueue[0]).action.Answering?
                                 then [Answered(old(workQueue[0]).id, OutcomeOf(old(workQueue[0])))] else [])
    {
      var item := workQueue[0];
      done := true;
      match item.action {
        case Plain =>
          if !item.removed {
            RunAction(item);
          }
        case Answering =>
          log := log + [Answered(item.id, OutcomeOf(item))];
        case Starting =>
          if item.removed {
            return;
          }
          RunAction(item);
          var valid: bool := *;
          if !valid {
            return;
          }
          workQueue := workQueue[0 := item.(action := Running)];
          done := *;
        case Running =>
          if item.removed {
            return;
          }
          RunAction(item);
          done := *;
      }
    }

    /** The front item runs; a finished one leaves the queue. */
    method PerformFront(parsingDone: bool) returns (done: bool, parsingDone': bool)
      requires workQueue != []
      modifies this
      ensures Step(old(At(Performing, parsingDone)), Perform(backlog, done),
                   At(if done then Top else Outside, done && parsingDone'))
      ensures parsingDone' == (parsingDone && !old(workQueue[0]).kind.FileChange?)
      ensures done ==> |workQueue| == |old(workQueue)| - 1
      ensures !done ==> workQueue != [] && workQueue[0].action.Running?
    {
      parsingDone' := parsingDone;
      var item := workQueue[0];
      if item.kind == FileChange {
        parsingDone' := false;
        activeTask := None;
      }
      done := PerformAction();
      if done {
        workQueue := workQueue[1..];
        log := log + [Completed(item.id, item.kind)];
      }
      assert log == old(log) + PerformEvents(item, done);
    }

    /** `run_active_task`: whether the task has finished. */
    method RunActiveTask() returns (done: bool)
      requires activeTask.Some?
      modifies this
      ensures forall p :: Step(old(At(Parsing, p)), Resume(done), At(if done then Parsing else Outside, done && p))
      ensures workQueue == old(workQueue)
      ensures done ==> activeTask.None? && backlog == old(backlog) - {old(activeTask).value.file}
      ensures !done ==> activeTask.Some?
    {
      done := *;
      if !done {
        return;
      }
      backlog := backlog - {activeTask.value.file};
      activeTask := None;
    }

    /** `run_parse_loop`: whether something is left to do. */
    method RunParseLoop(ghost s: State) returns (more: bool)
      requires activeTask.None? && Working(s, At(Parsing, false))
      modifies this
      ensures more ==> Calls(s, Now()) && activeTask.Some?
      ensures !more ==> Working(s, At(Parsing, false)) && activeTask.None? && backlog == {}
      ensures workQueue == old(workQueue)
    {
      hide Step, Working, Calls;
      while backlog != {}
        invariant activeTask.None? && Working(s, At(Parsing, false)) && workQueue == old(workQueue)
        decreases |backlog|
      {
        ghost var t := At(Parsing, false);
        var file :| file in backlog;
        activeTask := Some(Parse(parses, file));
        parses := parses + 1;
        CreateStep(t, file);
        WorkGoesOn(s, t, Create(file), At(Parsing, false));
        ghost var u := At(Parsing, false);
        var done := RunActiveTask();
        if !done {
          WorkReturns(s, u, Resume(false), Now());
          return true;
        }
        WorkGoesOn(s, u, Resume(true), At(Parsing, false));
      }
      more := false;
    }

    /** The parse part of `idle_handler`: the task under way, then `run_parse_loop`. */
    method RunParsing(ghost s: State) returns (more: bool)
      requires Working(s, At(Parsing, false))
      modifies this
      ensures more ==> Calls(s, Now()) && activeTask.Some?
      ensures !more ==> Working(s, At(Parsing, false)) && activeTask.None? && backlog == {}
      ensures workQueue == old(workQueue)
    {
      hide Step, Working, Calls;
      if activeTask.Some? {
        ghost var t := At(Parsing, false);
        var done := RunActiveTask();
        if !done {
          WorkReturns(s, t, Resume(false), Now());
          return true;
        }
        WorkGoesOn(s, t, Resume(true), At(Parsing, false));
      }
      more := RunParseLoop(s);
    }

    /** `idle_handler`. Every call is one complete call of the scheduler and comes to an end: with nothing
        queued, at an item that waits for its configuration, at a started item, or at a parse
        task that gave way. Of the queries only a live one may be left in front, and only there. */
    method IdleHandler()
      modifies this
      ensures Calls(old(Now()), Now())
      ensures workQueue == [] || workQueue[0].pending != [] || workQueue[0].action.Running? || activeTask.Some?
      ensures workQueue != [] && workQueue[0].action.Answering? && workQueue[0].pending == [] ==>
                activeTask.Some? && workQueue[0].kind.Query? && workQueue[0].valid && !workQueue[0].removed
    {
      hide Step, Working, Calls, Invalidated, PerformedFront, ResumedParse, MayEnd, MayMark, AfterPerform;
      hide PerformEvents, OutcomeOf, ItemOk, Without;
      ghost var s := Now();
      var parsingDone := false;
      EnterStep(s);
      WorkBegins(s, At(Top, false));
      while true
        invariant Working(s, At(Top, parsingDone))
        decreases 2 * |workQueue| + (if parsingDone then 0 else 1)
      {
        var ids := Cancellations(s, Top, parsingDone);
        ghost var t := At(Top, parsingDone);
        if workQueue != [] {
          if workQueue[0].pending != [] && workQueue[0].valid {
            BlockStep(t);
            WorkReturns(s, t, Block, Now());
            return;
          }
          ChooseStep(t);
          WorkGoesOn(s, t, Choose, At(Chosen, parsingDone));
          ids := Cancellations(s, Chosen, parsingDone);
          t := At(Chosen, parsingDone);
          var item := workQueue[0];
          if IsTask(item) || item.removed || !item.valid || parsingDone || item.kind != Query {
            ProceedStep(t);
            WorkGoesOn(s, t, Proceed, At(Performing, parsingDone));
            ids := Cancellations(s, Performing, parsingDone);
            t := At(Performing, parsingDone);
            var done;
            done, parsingDone := PerformFront(parsingDone);
            if !done {
              WorkReturns(s, t, Perform(backlog, false), Now());
              return;
            }
            WorkGoesOn(s, t, Perform(backlog, true), At(Top, parsingDone));
            continue;
          }
        } else if parsingDone {
          LeaveStep(t);
          WorkReturns(s, t, Leave, Now());
          return;
        }
        StartStep(t);
        WorkGoesOn(s, t, StartParsing, At(Parsing, false));
        var more := RunParsing(s);
        if more {
          return;
        }
        t := At(Parsing, false);
        parsingDone := true;
        DrainStep(t);
        WorkGoesOn(s, t, Drain, At(Top, true));
      }
    }
  }

  /** `remove_pending_request`: the first entry with the id goes. */
  method RemovePendingRequest(pending: seq<nat>, rid: nat) returns (r: seq<nat>)
    ensures r == Without(pending, rid)
  {
    hide Without;
    var k := 0;
    assert pending[0..] == pending && [] + Without(pending, rid) == Without(pending, rid);
    while k < |pending| && pending[k] != rid
      invariant 0 <= k <= |pending|
      invariant Without(pending, rid) == pending[..k] + Without(pending[k..], rid)
    {
      WithoutFirst(pending, k, rid);
      assert pending[..k + 1] == pending[..k] + [pending[k]];
      assert pending[..k] + ([pending[k]] + Without(pending[k + 1..], rid))
          == (pending[..k] + [pending[k]]) + Without(pending[k + 1..], rid);
      k := k + 1;
    }
    WithoutFirst(pending, k, rid);
    if k == |pending| {
      assert pending[..k] + [] == pending;
      return pending;
    }
    r := pending[..k] + pending[k + 1..];
  }

  /** It is the first one, and everything else stays. */
  lemma {:induction false} WithoutTakesFirst(a: seq<nat>, rid: nat, b: seq<nat>)
    requires rid !in a
    ensures Without(a, rid) == a && Without(a + [rid] + b, rid) == a + b
  {
    var s := a + [rid] + b;
    if a == [] {
      assert s == [rid] + b && s[1..] == b;
    } else {
      assert s[0] == a[0] && s[1..] == a[1..] + [rid] + b;
      WithoutTakesFirst(a[1..], rid, b);
      assert [a[0]] + (a[1..] + b) == a + b && [a[0]] + a[1..] == a;
    }
  }

  lemma WithoutFirst(pending: seq<nat>, k: nat, rid: nat)
    requires k <= |pending|
    ensures Without(pending[k..], rid) ==
            if k == |pending| then []
            else if pending[k] == rid then pending[k + 1..]
            else [pending[k]] + Without(pending[k + 1..], rid)
  {
    if k < |pending| { assert pending[k..][1..] == pending[k + 1..]; }
  }

  // The single steps of the handler.

  lemma StillWorking(s: State, t: State)
    requires Working(s, t)
    ensures !t.place.Outside?
  {
  }

  lemma EnterStep(s: State)
    requires s.place.Outside?
    ensures Step(s, Enter, s.(place := Top, parsingDone := false))
  {
  }

  lemma BlockStep(s: State)
    requires s.place.Top? && s.queue != [] && s.queue[0].pending != [] && s.queue[0].valid
    ensures Step(s, Block, Left(s))
  {
  }

  lemma ChooseStep(s: State)
    requires s.place.Top? && s.queue != [] && (s.queue[0].pending == [] || !s.queue[0].valid)
    ensures Step(s, Choose, s.(place := Chosen))
  {
  }

  lemma ProceedStep(s: State)
    requires s.place.Chosen? && s.queue != [] && MustRun(s.queue[0], s.parsingDone)
    ensures Step(s, Proceed, s.(place := Performing))
  {
  }

  lemma LeaveStep(s: State)
    requires s.place.Top? && s.queue == [] && s.parsingDone
    ensures Step(s, Leave, Left(s))
  {
  }

  lemma StartStep(s: State)
    requires if s.queue == [] then s.place.Top? && !s.parsingDone
             else s.place.Chosen? && !MustRun(s.queue[0], s.parsingDone)
    ensures Step(s, StartParsing, s.(place := Parsing))
  {
  }

  lemma CreateStep(s: State, file: string)
    requires s.place.Parsing? && s.active.None? && file in s.backlog
    ensures Step(s, Create(file), s.(active := Some(Parse(s.parses, file)), parses := s.parses + 1))
  {
  }

  lemma DrainStep(s: State)
    requires s.place.Parsing? && s.active.None? && s.backlog == {}
    ensures Step(s, Drain, s.(place := Top, parsingDone := true))
  {
  }
}

/** `blocking_queue`: producers, terminators and readers as threads that interleave at every
    lock, flag and notification (language_server/src/blocking_queue.h). */
module BlockingQueue {
  import opened Basics

  /** The template arguments: what termination does to queued elements, and the only thread that
      may pop when there is one reader. */
  datatype Config = Config(process: bool, reader: Option<nat>)

  /** Where a thread stands. `Waiting` threads want the mutex. */
  datatype Pc<T> =
    | Idle
    | PushWaiting(x: T) | PushIn(x: T) | PushAdded(notify: bool) | PushFlagged(notify: bool)
    | TerminateWaiting | TerminateIn | TerminateFlagged
    | Notifying
    | PopWaiting(sure: bool) | PopTesting(sure: bool) | Asleep | PopIn
    | PopTaken(result: Option<T>) | PopFlagged(result: Option<T>)

  /** The fields of the queue, with the history of what went in and out. */
  datatype Fields<T> = Fields(mutex: Option<nat>, queue: seq<T>, terminated: bool, hasElements: bool,
                              accepted: seq<T>, popped: seq<T>)

  datatype State<T> = State(fields: Fields<T>, pcs: map<nat, Pc<T>>)

  function PcOf<T>(s: State<T>, t: nat): (pc: Pc<T>)
  {
    if t in s.pcs then s.pcs[t] else Idle
  }

  /** One step of thread `t` inside a call: the fields and its place afterwards. */
  function Next<T>(c: Config, f: Fields<T>, t: nat, pc: Pc<T>): (r: (Fields<T>, Pc<T>))
  {
    match pc
    case PushWaiting(x) => (f.(mutex := Some(t)), PushIn(x))
    case PushIn(x) =>
      if f.terminated then (f.(mutex := None), Idle)
      else (f.(queue := f.queue + [x], accepted := f.accepted + [x]), PushAdded(|f.queue| == 0))
    case PushAdded(notify) => (f.(hasElements := true), PushFlagged(notify))
    case PushFlagged(notify) => (f.(mutex := None), if notify then Notifying else Idle)
    case TerminateWaiting => (f.(mutex := Some(t)), TerminateIn)
    case TerminateIn => (f.(terminated := true), TerminateFlagged)
    case TerminateFlagged => (f.(mutex := None), Notifying)
    case PopWaiting(sure) => (f.(mutex := Some(t)), PopTesting(sure))
    case PopTesting(_) =>
      if |f.queue| > 0 || f.terminated then (f, PopIn) else (f.(mutex := None), Asleep)
    case PopIn =>
      if (!c.process && f.terminated) || (c.process && |f.queue| == 0) then (f.(mutex := None), Idle)
      else if |f.queue| == 0 then (f, pc)
      else (f.(queue := f.queue[1..], popped := f.popped + [f.queue[0]]), PopTaken(Some(f.queue[0])))
    case PopTaken(result) => (f.(hasElements := f.hasElements && |f.queue| > 0), PopFlagged(result))
    case PopFlagged(_) => (f.(mutex := None), Idle)
    case _ => (f, pc)
  }

  /** Threads that wait for the mutex only go on while it is free. */
  predicate MayAdvance<T>(f: Fields<T>, pc: Pc<T>)
  {
    match pc
    case PushWaiting(_) => f.mutex.None?
    case TerminateWaiting => f.mutex.None?
    case PopWaiting(_) => f.mutex.None?
    case _ => !pc.Idle? && !pc.Asleep? && !pc.Notifying?
  }

  datatype Label<T> =
    | Push(t: nat, x: T)
    | Terminate(t: nat)
    | Pop(t: nat, sure: bool)
    | Advance(t: nat)
    | Notify(t: nat, woken: nat)
    | NotifyNobody(t: nat)
    | WakeUp(t: nat)

  /** `will_block` */
  predicate WillBlock<T>(f: Fields<T>) { !f.terminated && !f.hasElements }

  ghost predicate Step<T>(c: Config, s: State<T>, l: Label<T>, r: State<T>)
  {
    var f := s.fields;
    match l
    case Push(t, x) => PcOf(s, t).Idle? && r == State(f, s.pcs[t := PushWaiting(x)])
    case Terminate(t) => PcOf(s, t).Idle? && r == State(f, s.pcs[t := TerminateWaiting])
    // A pop that comes after `will_block` said no is `sure`.
    case Pop(t, sure) =>
      && PcOf(s, t).Idle? && (c.reader.Some? ==> t == c.reader.value) && (sure ==> c.reader.Some? && !WillBlock(f))
      && r == State(f, s.pcs[t := PopWaiting(sure)])
    case Advance(t) =>
      && MayAdvance(f, PcOf(s, t))
      && var n := Next(c, f, t, PcOf(s, t)); r == State(n.0, s.pcs[t := n.1])
    // `notify_one` wakes one sleeper if there is any.
    case Notify(t, woken) =>
      && PcOf(s, t).Notifying? && PcOf(s, woken).Asleep?
      && r == State(f, s.pcs[t := Idle][woken := PopWaiting(false)])
    case NotifyNobody(t) =>
      && PcOf(s, t).Notifying? && (forall u: nat :: !PcOf(s, u).Asleep?)
      && r == State(f, s.pcs[t := Idle])
    // A sleeper may also wake up for no reason.
    case WakeUp(t) => PcOf(s, t).Asleep? && r == State(f, s.pcs[t := PopWaiting(false)])
  }

  function Initial<T>(): (s: State<T>)
  {
    State(Fields(None, [], false, false, [], []), map[])
  }

  ghost predicate Run<T>(c: Config, states: seq<State<T>>, labels: seq<Label<T>>)
  {
    && |states| == |labels| + 1 && states[0] == Initial()
    && forall i | 0 <= i < |labels| :: Step(c, states[i], labels[i], states[i + 1])
  }

  // ----- what one thread sees -----

  /** The thread holds the mutex. */
  predicate Inside<T>(pc: Pc<T>)
  {
    pc.PushIn? || pc.PushAdded? || pc.PushFlagged? || pc.TerminateIn? || pc.TerminateFlagged?
    || pc.PopTesting? || pc.PopIn? || pc.PopTaken? || pc.PopFlagged?
  }

  predicate Reading<T>(pc: Pc<T>)
  {
    pc.PopWaiting? || pc.PopTesting? || pc.Asleep? || pc.PopIn? || pc.PopTaken? || pc.PopFlagged?
  }

  /** The thread is going to call `notify_one`. */
  predicate WillNotify<T>(pc: Pc<T>)
  {
    (pc.PushAdded? && pc.notify) || (pc.PushFlagged? && pc.notify) || pc.TerminateFlagged? || pc.Notifying?
  }

  predicate Sure<T>(pc: Pc<T>)
  {
    (pc.PopWaiting? && pc.sure) || (pc.PopTesting? && pc.sure)
  }

  /** The flag mirrors the queue, unless the holder of the mutex stands between changing one and
      the other; a thread that decided to pop finds an element or the end. */
  predicate HolderOk<T>(f: Fields<T>, pc: Pc<T>)
  {
    if pc.PushAdded? then |f.queue| > 0
    else if pc.PopTaken? then f.hasElements
    else f.hasElements == (|f.queue| > 0) && (pc.PopIn? ==> |f.queue| > 0 || f.terminated)
  }

  predicate FreeOk<T>(f: Fields<T>) { f.hasElements == (|f.queue| > 0) }

  predicate Something<T>(f: Fields<T>) { |f.queue| > 0 || f.terminated }

  /** One step of a thread, seen from the thread. */
  lemma NextKeeps<T>(c: Config, f: Fields<T>, t: nat, pc: Pc<T>)
    requires MayAdvance(f, pc) && (Inside(pc) <==> f.mutex == Some(t))
    requires if Inside(pc) then HolderOk(f, pc) else FreeOk(f)
    ensures var (g, pc') := Next(c, f, t, pc);
            && (if Inside(pc') then g.mutex == Some(t) && HolderOk(g, pc') else g.mutex.None? && FreeOk(g))
            && (WillNotify(pc) ==> WillNotify(pc'))
            && (Something(g) && !Something(f) ==> WillNotify(pc'))
            && (pc'.Asleep? ==> !Something(g))
            && (Reading(pc') ==> Reading(pc)) && (Sure(pc') ==> Sure(pc))
            && (!Reading(pc) && (f.hasElements || f.terminated) ==> g.hasElements || g.terminated)
            && (f.terminated ==> g.terminated && g.accepted == f.accepted)
  {
  }

  lemma NextIsFifo<T>(c: Config, f: Fields<T>, t: nat, pc: Pc<T>)
    requires f.accepted == f.popped + f.queue
    ensures var g := Next(c, f, t, pc).0; g.accepted == g.popped + g.queue && f.popped <= g.popped
  {
    if pc.PopIn? && |f.queue| > 0 {
      assert f.queue == [f.queue[0]] + f.queue[1..];
      assert f.popped + ([f.queue[0]] + f.queue[1..]) == (f.popped + [f.queue[0]]) + f.queue[1..];
    } else if pc.PushIn? {
      assert f.popped + (f.queue + [pc.x]) == (f.popped + f.queue) + [pc.x];
    }
  }

  // ----- invariants of all threads -----

  ghost predicate MutexInv<T>(s: State<T>)
  {
    && (forall t: nat :: Inside(PcOf(s, t)) <==> s.fields.mutex == Some(t))
    && (if s.fields.mutex.None? then FreeOk(s.fields) else HolderOk(s.fields, PcOf(s, s.fields.mutex.value)))
  }

  /** Values leave in the order in which they were accepted. */
  ghost predicate FifoInv<T>(s: State<T>)
  {
    s.fields.accepted == s.fields.popped + s.fields.queue
  }

  ghost predicate ReaderInv<T>(c: Config, s: State<T>)
  {
    c.reader.Some? ==> forall t: nat :: Reading(PcOf(s, t)) ==> t == c.reader.value
  }

  /** Nobody sleeps over an element or over the end unless a notification is on its way. */
  ghost predicate WakeInv<T>(s: State<T>)
  {
    forall r: nat :: PcOf(s, r).Asleep? && Something(s.fields) ==> exists t: nat :: WillNotify(PcOf(s, t))
  }

  /** A pop that was told it will not block still finds something. */
  ghost predicate SureInv<T>(s: State<T>)
  {
    forall t: nat :: Sure(PcOf(s, t)) ==> s.fields.hasElements || s.fields.terminated
  }

  lemma MutexStep<T>(c: Config, s: State<T>, l: Label<T>, r: State<T>)
    requires MutexInv(s) && Step(c, s, l, r)
    ensures MutexInv(r)
  {
    if l.Advance? {
      hide Next, MayAdvance, HolderOk, Inside;
      AdvanceMutex(c, s, l.t, r);
    } else {
      QuietMutex(c, s, l, r);
    }
  }

  lemma AdvanceMutex<T>(c: Config, s: State<T>, t: nat, r: State<T>)
    requires MutexInv(s) && Step(c, s, Advance(t), r)
    ensures MutexInv(r)
  {
    hide Next, HolderOk;
    NextKeeps(c, s.fields, t, PcOf(s, t));
    assert forall u: nat :: PcOf(r, u) == if u == t then Next(c, s.fields, t, PcOf(s, t)).1 else PcOf(s, u);
  }

  lemma QuietMutex<T>(c: Config, s: State<T>, l: Label<T>, r: State<T>)
    requires MutexInv(s) && Step(c, s, l, r) && !l.Advance?
    ensures MutexInv(r)
  {
    hide HolderOk, Inside;
    forall u: nat ensures Inside(PcOf(r, u)) <==> Inside(PcOf(s, u)) { QuietInside(c, s, l, r, u); }
    QuietInside(c, s, l, r, 0);
    hide Step, PcOf;
    if s.fields.mutex.Some? { QuietInside(c, s, l, r, s.fields.mutex.value); }
  }

  /** Threads inside the lock move by `Advance` only. */
  lemma QuietInside<T>(c: Config, s: State<T>, l: Label<T>, r: State<T>, u: nat)
    requires Step(c, s, l, r) && !l.Advance?
    ensures r.fields == s.fields && (Inside(PcOf(r, u)) <==> Inside(PcOf(s, u)))
    ensures Inside(PcOf(s, u)) ==> PcOf(r, u) == PcOf(s, u)
  {
  }

  lemma FifoStep<T>(c: Config, s: State<T>, l: Label<T>, r: State<T>)
    requires FifoInv(s) && Step(c, s, l, r)
    ensures FifoInv(r) && s.fields.popped <= r.fields.popped
  {
    hide Next, MayAdvance;
    if l.Advance? { NextIsFifo(c, s.fields, l.t, PcOf(s, l.t)); }
  }

  lemma QuietSees<T>(c: Config, s: State<T>, l: Label<T>, r: State<T>)
    requires Step(c, s, l, r) && !l.Advance?
    ensures r.fields == s.fields
    ensures forall u: nat :: Reading(PcOf(r, u)) ==> Reading(PcOf(s, u)) || (l.Pop? && u == l.t)
    ensures forall u: nat :: Sure(PcOf(r, u)) ==> Sure(PcOf(s, u)) || (l.Pop? && u == l.t && l.sure)
  {
  }

  lemma ReaderStep<T>(c: Config, s: State<T>, l: Label<T>, r: State<T>)
    requires MutexInv(s) && ReaderInv(c, s) && Step(c, s, l, r)
    ensures ReaderInv(c, r)
  {
    hide Next, MayAdvance, HolderOk, Reading;
    if l.Advance? {
      AdvanceSees(c, s, l.t, r);
      assert forall u: nat :: Reading(PcOf(r, u)) ==> Reading(PcOf(s, u));
    } else {
      QuietSees(c, s, l, r);
    }
  }

  /** The effects of one advance on all threads. */
  lemma AdvanceSees<T>(c: Config, s: State<T>, t: nat, r: State<T>)
    requires MutexInv(s) && Step(c, s, Advance(t), r)
    ensures forall u: nat | u != t :: PcOf(r, u) == PcOf(s, u)
    ensures var f, g, pc, pc' := s.fields, r.fields, PcOf(s, t), PcOf(r, t);
            && (WillNotify(pc) ==> WillNotify(pc'))
            && (Something(g) && !Something(f) ==> WillNotify(pc'))
            && (pc'.Asleep? ==> !Something(g))
            && (Reading(pc') ==> Reading(pc)) && (Sure(pc') ==> Sure(pc))
            && (!Reading(pc) && (f.hasElements || f.terminated) ==> g.hasElements || g.terminated)
            && (f.terminated ==> g.terminated && g.accepted == f.accepted)
  {
    hide Next, HolderOk, WillNotify, Sure;
    NextKeeps(c, s.fields, t, PcOf(s, t));
  }

  lemma WakeStep<T>(c: Config, s: State<T>, l: Label<T>, r: State<T>)
    requires c.reader.Some? && MutexInv(s) && ReaderInv(c, s) && WakeInv(s) && Step(c, s, l, r)
    ensures WakeInv(r)
  {
    hide Next, MayAdvance, HolderOk, MutexInv, WillNotify, Something;
    if l.Advance? {
      AdvanceSees(c, s, l.t, r);
      forall u: nat | PcOf(r, u).Asleep? && Something(r.fields) ensures exists t: nat :: WillNotify(PcOf(r, t)) {
        AdvanceWakes(s, l.t, r, u);
      }
    } else if l.Notify? || l.NotifyNobody? {
      NotifyLeavesNoSleeper(c, s, l, r);
    } else {
      forall u: nat | PcOf(r, u).Asleep? && Something(r.fields) ensures exists t: nat :: WillNotify(PcOf(r, t)) {
        QuietWakes(c, s, l, r, u);
      }
    }
  }

  /** The one reader is the only thread that can be asleep. */
  lemma NotifyLeavesNoSleeper<T>(c: Config, s: State<T>, l: Label<T>, r: State<T>)
    requires c.reader.Some? && ReaderInv(c, s) && Step(c, s, l, r) && (l.Notify? || l.NotifyNobody?)
    ensures forall u: nat :: !PcOf(r, u).Asleep?
  {
    assert forall u: nat | PcOf(s, u).Asleep? :: Reading(PcOf(s, u)) && u == c.reader.value;
    if l.Notify? {
      assert PcOf(s, l.woken).Asleep? && l.woken == c.reader.value;
      assert forall u: nat | u != l.woken && u != l.t :: PcOf(r, u) == PcOf(s, u);
    } else {
      assert forall u: nat | u != l.t :: PcOf(r, u) == PcOf(s, u);
    }
  }

  lemma AdvanceWakes<T>(s: State<T>, t: nat, r: State<T>, u: nat)
    requires WakeInv(s) && PcOf(r, u).Asleep? && Something(r.fields)
    requires forall v: nat | v != t :: PcOf(r, v) == PcOf(s, v)
    requires WillNotify(PcOf(s, t)) ==> WillNotify(PcOf(r, t))
    requires !Something(s.fields) ==> WillNotify(PcOf(r, t))
    requires PcOf(r, t).Asleep? ==> !Something(r.fields)
    ensures exists v: nat :: WillNotify(PcOf(r, v))
  {
    hide WillNotify, Something;
    if Something(s.fields) {
      assert PcOf(s, u).Asleep?;
      var v: nat :| WillNotify(PcOf(s, v));
      assert WillNotify(PcOf(r, v));
    }
  }

  lemma QuietWakes<T>(c: Config, s: State<T>, l: Label<T>, r: State<T>, u: nat)
    requires WakeInv(s) && Step(c, s, l, r) && !l.Advance? && !l.Notify? && !l.NotifyNobody?
    requires PcOf(r, u).Asleep? && Something(r.fields)
    ensures exists v: nat :: WillNotify(PcOf(r, v))
  {
    hide Something;
    assert PcOf(s, u).Asleep?;
    var v: nat :| WillNotify(PcOf(s, v));
    assert PcOf(r, v) == PcOf(s, v);
  }

  lemma SureReads<T>(s: State<T>)
    ensures forall u: nat :: Sure(PcOf(s, u)) ==> Reading(PcOf(s, u))
  {
  }

  lemma SureStep<T>(c: Config, s: State<T>, l: Label<T>, r: State<T>)
    requires MutexInv(s) && ReaderInv(c, s) && SureInv(s) && Step(c, s, l, r)
    requires c.reader.Some? || forall t: nat :: !Sure(PcOf(s, t))
    ensures SureInv(r)
    ensures c.reader.Some? || forall t: nat :: !Sure(PcOf(r, t))
  {
    hide Next, MayAdvance, HolderOk, WillNotify, Sure;
    if l.Advance? {
      AdvanceSees(c, s, l.t, r);
      SureReads(s);
      forall u: nat | Sure(PcOf(r, u)) ensures r.fields.hasElements || r.fields.terminated {
        assert Sure(PcOf(s, u));
        if u == l.t { SureAdvance(c, s, l.t, r); }
      }
    } else {
      QuietSees(c, s, l, r);
    }
  }

  /** A sure reader on its way to the test changes neither flag. */
  lemma SureAdvance<T>(c: Config, s: State<T>, t: nat, r: State<T>)
    requires Step(c, s, Advance(t), r) && Sure(PcOf(s, t))
    ensures r.fields.hasElements == s.fields.hasElements && r.fields.terminated == s.fields.terminated
  {
  }

  // ----- runs -----

  ghost predicate Inv<T>(c: Config, s: State<T>)
  {
    && MutexInv(s) && FifoInv(s) && ReaderInv(c, s) && SureInv(s)
    && (c.reader.Some? ==> WakeInv(s))
    && (c.reader.Some? || forall t: nat :: !Sure(PcOf(s, t)))
  }

  lemma StepKeeps<T>(c: Config, s: State<T>, l: Label<T>, r: State<T>)
    requires Inv(c, s) && Step(c, s, l, r)
    ensures Inv(c, r)
  {
    hide Step, MutexInv, FifoInv, ReaderInv, SureInv, WakeInv, Sure;
    MutexStep(c, s, l, r);
    FifoStep(c, s, l, r);
    ReaderStep(c, s, l, r);
    SureStep(c, s, l, r);
    if c.reader.Some? { WakeStep(c, s, l, r); }
  }

  lemma {:induction false} RunKeeps<T>(c: Config, states: seq<State<T>>, labels: seq<Label<T>>, n: nat)
    requires Run(c, states, labels) && n <= |labels|
    ensures |states| == |labels| + 1 && Inv(c, states[n])
  {
    hide Step;
    if n > 0 {
      hide Inv;
      RunKeeps(c, states, labels, n - 1);
      StepKeeps(c, states[n - 1], labels[n - 1], states[n]);
    }
  }

  /** With one reader no wakeup is lost: whenever the mutex is free and the reader sleeps over an
      element or over the end, some thread stands between its unlock and its `notify_one`. */
  lemma NoLostWakeup<T>(c: Config, states: seq<State<T>>, labels: seq<Label<T>>, n: nat, reader: nat)
    requires Run(c, states, labels) && n <= |labels| && c.reader.Some?
    requires states[n].fields.mutex.None? && PcOf(states[n], reader).Asleep?
    requires states[n].fields.queue != [] || states[n].fields.terminated
    ensures exists t: nat :: PcOf(states[n], t).Notifying?
  {
    hide Run, Step, FifoInv, ReaderInv, SureInv;
    RunKeeps(c, states, labels, n);
    var t: nat :| WillNotify(PcOf(states[n], t));
    assert !Inside(PcOf(states[n], t));
    assert PcOf(states[n], t).Notifying?;
  }

  /** Some thread stands between changing the queue and changing the flag. */
  ghost predicate BetweenQueueAndFlag<T>(s: State<T>)
  {
    exists t: nat :: PcOf(s, t).PushAdded? || PcOf(s, t).PopTaken?
  }

  /** Popped values are a prefix of the accepted ones, in order, and the flag mirrors the queue
      but for the moments between changing one and the other. */
  lemma FirstInFirstOut<T>(c: Config, states: seq<State<T>>, labels: seq<Label<T>>, n: nat)
    requires Run(c, states, labels) && n <= |labels|
    ensures states[n].fields.accepted == states[n].fields.popped + states[n].fields.queue
    ensures states[n].fields.mutex.None? || !BetweenQueueAndFlag(states[n]) ==>
              (states[n].fields.hasElements <==> states[n].fields.queue != [])
  {
    hide Run, Step, ReaderInv, SureInv, WakeInv;
    RunKeeps(c, states, labels, n);
  }

  /** A reader that was told `will_block` is false does not fall asleep in the pop that follows. */
  lemma SurePopStaysAwake<T>(c: Config, states: seq<State<T>>, labels: seq<Label<T>>, n: nat, t: nat)
    requires Run(c, states, labels) && n < |labels| && labels[n] == Advance(t)
    requires PcOf(states[n], t).PopTesting? && PcOf(states[n], t).sure
    ensures PcOf(states[n + 1], t).PopIn?
  {
    hide Run, ReaderInv, WakeInv, FifoInv;
    RunKeeps(c, states, labels, n);
    StepAt(c, states, labels, n);
    var s := states[n];
    assert Inside(PcOf(s, t)) && Sure(PcOf(s, t));
    assert HolderOk(s.fields, PcOf(s, t));
  }

  lemma StepAt<T>(c: Config, states: seq<State<T>>, labels: seq<Label<T>>, n: nat)
    requires Run(c, states, labels) && n < |labels|
    ensures |states| == |labels| + 1 && Step(c, states[n], labels[n], states[n + 1])
  {
  }

  /** Step `n` makes thread `t` return nothing from `pop`. */
  ghost predicate ReturnsNothing<T>(states: seq<State<T>>, labels: seq<Label<T>>, n: nat, t: nat)
    requires n < |labels| && n + 1 < |states|
  {
    labels[n] == Advance(t) && PcOf(states[n], t).PopIn? && PcOf(states[n + 1], t).Idle?
  }

  /** A queue that processes its elements returns nothing only at the very end: it has been
      terminated and everything that is ever accepted has been popped. */
  lemma NothingAtTheEnd<T>(c: Config, states: seq<State<T>>, labels: seq<Label<T>>, n: nat, t: nat, m: nat)
    requires Run(c, states, labels) && n < |labels| && ReturnsNothing(states, labels, n, t) && c.process
    requires n <= m <= |labels|
    ensures states[m].fields.terminated
    ensures states[m].fields.accepted == states[m].fields.popped == states[n].fields.popped
  {
    hide Run, ReaderInv, WakeInv, SureInv;
    RunKeeps(c, states, labels, n);
    StepAt(c, states, labels, n);
    var f := states[n].fields;
    assert Inside(PcOf(states[n], t));
    assert |f.queue| == 0 && f.terminated;
    TerminatedAcceptsNothing(c, states, labels, n, m);
  }

  lemma {:induction false} TerminatedAcceptsNothing<T>(c: Config, states: seq<State<T>>, labels: seq<Label<T>>,
                                                         n: nat, m: nat)
    requires Run(c, states, labels) && n <= m <= |labels| && states[n].fields.terminated
    ensures states[m].fields.terminated && states[m].fields.accepted == states[n].fields.accepted
    ensures states[n].fields.popped <= states[m].fields.popped
    ensures states[m].fields.accepted == states[m].fields.popped + states[m].fields.queue
    decreases m - n
  {
    hide Run, ReaderInv, WakeInv, SureInv, Next, HolderOk, MayAdvance;
    RunKeeps(c, states, labels, m);
    if n < m {
      TerminatedAcceptsNothing(c, states, labels, n, m - 1);
      RunKeeps(c, states, labels, m - 1);
      StepAt(c, states, labels, m - 1);
      FifoStep(c, states[m - 1], labels[m - 1], states[m]);
      if labels[m - 1].Advance? { AdvanceSees(c, states[m - 1], labels[m - 1].t, states[m]); }
    }
  }

  /** A queue that drops its elements returns nothing if and only if it has been terminated when
      the reader gets to it. */
  lemma DropReturnsNothingIff<T>(c: Config, states: seq<State<T>>, labels: seq<Label<T>>, n: nat, t: nat)
    requires Run(c, states, labels) && n < |labels| && !c.process
    requires labels[n] == Advance(t) && PcOf(states[n], t).PopIn?
    ensures ReturnsNothing(states, labels, n, t) <==> states[n].fields.terminated
    ensures !states[n].fields.terminated ==>
              states[n].fields.queue != [] && PcOf(states[n + 1], t) == PopTaken(Some(states[n].fields.queue[0]))
  {
    hide Run, ReaderInv, WakeInv, SureInv, FifoInv;
    RunKeeps(c, states, labels, n);
    StepAt(c, states, labels, n);
    assert Inside(PcOf(states[n], t));
  }

  // ----- what single steps do -----

  /** A push is accepted, at the end of the queue, unless the queue has been terminated; it will
      notify exactly if the queue was empty. */
  lemma PushAccepts<T>(c: Config, states: seq<State<T>>, labels: seq<Label<T>>, n: nat, t: nat)
    requires Run(c, states, labels) && n < |labels|
    requires labels[n] == Advance(t) && PcOf(states[n], t).PushIn?
    ensures var f, g, x := states[n].fields, states[n + 1].fields, PcOf(states[n], t).x;
            if f.terminated
            then g.queue == f.queue && g.accepted == f.accepted && PcOf(states[n + 1], t).Idle?
            else g.queue == f.queue + [x] && g.accepted == f.accepted + [x]
                 && (WillNotify(PcOf(states[n + 1], t)) <==> f.queue == [])
  {
    hide Run;
    StepAt(c, states, labels, n);
  }

  /** What a pop returns is the front element, and the one recorded as popped; when the elements of
      a terminated queue are processed, nothing is returned exactly if none is left. */
  lemma PopTakesFront<T>(c: Config, states: seq<State<T>>, labels: seq<Label<T>>, n: nat, t: nat)
    requires Run(c, states, labels) && n < |labels|
    requires labels[n] == Advance(t) && PcOf(states[n], t).PopIn?
    ensures c.process ==> (ReturnsNothing(states, labels, n, t) <==> states[n].fields.queue == [])
    ensures !ReturnsNothing(states, labels, n, t) ==>
              var f, g := states[n].fields, states[n + 1].fields;
              && f.queue != [] && g.queue == f.queue[1..] && g.popped == f.popped + [f.queue[0]]
              && PcOf(states[n + 1], t) == PopTaken(Some(f.queue[0]))
  {
    hide Run, ReaderInv, WakeInv, SureInv, FifoInv;
    RunKeeps(c, states, labels, n);
    StepAt(c, states, labels, n);
    assert Inside(PcOf(states[n], t));
  }

  /** Termination takes effect, and the queue stays as it is. */
  lemma TerminateTerminates<T>(c: Config, states: seq<State<T>>, labels: seq<Label<T>>, n: nat, t: nat)
    requires Run(c, states, labels) && n < |labels|
    requires labels[n] == Advance(t) && PcOf(states[n], t).TerminateIn?
    ensures states[n + 1].fields == states[n].fields.(terminated := true) && WillNotify(PcOf(states[n + 1], t))
  {
    hide Run;
    StepAt(c, states, labels, n);
  }

  /** While no thread holds the mutex, `will_block` says yes exactly if a pop would fall asleep. */
  lemma WillBlockIff<T>(c: Config, states: seq<State<T>>, labels: seq<Label<T>>, n: nat)
    requires Run(c, states, labels) && n <= |labels| && states[n].fields.mutex.None?
    ensures WillBlock(states[n].fields) <==> states[n].fields.queue == [] && !states[n].fields.terminated
  {
    hide Run, ReaderInv, WakeInv, SureInv, FifoInv;
    RunKeeps(c, states, labels, n);
  }

  // ----- two readers -----

  ghost predicate Reached<T(!new)>(c: Config, s: State<T>)
  {
    exists states, labels :: Run<T>(c, states, labels) && states[|labels|] == s
  }

  lemma ReachedOn<T(!new)>(c: Config, s: State<T>, l: Label<T>, r: State<T>)
    requires Reached(c, s) && Step(c, s, l, r)
    ensures Reached(c, r)
  {
    hide Step;
    var states, labels :| Run<T>(c, states, labels) && states[|labels|] == s;
    var states', labels' := states + [r], labels + [l];
    assert forall i | 0 <= i < |labels'| :: Step(c, states'[i], labels'[i], states'[i + 1]);
    assert Run(c, states', labels') && states'[|labels'|] == r;
  }

  /** Thread `t` goes on alone. */
  lemma Moves<T(!new)>(c: Config, s: State<T>, t: nat, f: Fields<T>, pc: Pc<T>)
    requires Reached(c, s) && MayAdvance(s.fields, PcOf(s, t)) && Next(c, s.fields, t, PcOf(s, t)) == (f, pc)
    ensures Reached(c, State(f, s.pcs[t := pc]))
  {
    ReachedOn(c, s, Advance(t), State(f, s.pcs[t := pc]));
  }

  lemma UpdatedTwice<T>(m: map<nat, Pc<T>>, t: nat, a: Pc<T>, b: Pc<T>)
    ensures m[t := a][t := b] == m[t := b]
  {
  }

  /** A reader finds the queue empty and falls asleep. */
  lemma FallsAsleep<T(!new)>(c: Config, s: State<T>, t: nat)
    requires Reached(c, s) && PcOf(s, t).Idle? && c.reader.None?
    requires s.fields.mutex.None? && s.fields.queue == [] && !s.fields.terminated
    ensures Reached(c, State(s.fields, s.pcs[t := Asleep]))
  {
    hide Reached;
    var f, m := s.fields, s.pcs;
    ReachedOn(c, s, Pop(t, false), State(f, m[t := PopWaiting(false)]));
    var g := f.(mutex := Some(t));
    Moves(c, State(f, m[t := PopWaiting(false)]), t, g, PopTesting(false));
    UpdatedTwice(m, t, PopWaiting(false), PopTesting(false));
    Moves(c, State(g, m[t := PopTesting(false)]), t, f, Asleep);
    UpdatedTwice(m, t, PopTesting(false), Asleep);
  }

  /** A producer pushes up to its notification. */
  lemma Pushes<T(!new)>(c: Config, s: State<T>, t: nat, x: T)
    requires Reached(c, s) && PcOf(s, t).Idle? && s.fields.mutex.None? && !s.fields.terminated
    ensures var f := s.fields;
            Reached(c, State(f.(queue := f.queue + [x], accepted := f.accepted + [x], hasElements := true),
                             s.pcs[t := if f.queue == [] then Notifying else Idle]))
  {
    hide Reached;
    var f, m := s.fields, s.pcs;
    ReachedOn(c, s, Push(t, x), State(f, m[t := PushWaiting(x)]));
    var notify := f.queue == [];
    var g := f.(mutex := Some(t));
    var h := g.(queue := f.queue + [x], accepted := f.accepted + [x]);
    var pc1, pc2, pc3, pc4: Pc<T> := PushWaiting(x), PushIn(x), PushAdded(notify), PushFlagged(notify);
    var pc5: Pc<T> := if notify then Notifying else Idle;
    UpdatedTwice(m, t, pc1, pc2);
    UpdatedTwice(m, t, pc2, pc3);
    UpdatedTwice(m, t, pc3, pc4);
    UpdatedTwice(m, t, pc4, pc5);
    Moves(c, State(f, m[t := pc1]), t, g, pc2);
    Moves(c, State(g, m[t := pc2]), t, h, pc3);
    Moves(c, State(h, m[t := pc3]), t, h.(hasElements := true), pc4);
    Moves(c, State(h.(hasElements := true), m[t := pc4]), t, h.(hasElements := true, mutex := None), pc5);
  }

  /** A woken reader takes the front element. */
  lemma Takes<T(!new)>(c: Config, s: State<T>, t: nat)
    requires Reached(c, s) && PcOf(s, t) == PopWaiting(false) && s.fields.mutex.None? && !s.fields.terminated
    requires |s.fields.queue| > 1 && s.fields.hasElements
    ensures var f := s.fields;
            Reached(c, State(f.(queue := f.queue[1..], popped := f.popped + [f.queue[0]]), s.pcs[t := Idle]))
  {
    hide Reached;
    var f, m := s.fields, s.pcs;
    var g := f.(mutex := Some(t));
    var h := g.(queue := f.queue[1..], popped := f.popped + [f.queue[0]]);
    var pc2, pc3, pc4: Pc<T> := PopTesting(false), PopIn, PopTaken(Some(f.queue[0]));
    var pc5: Pc<T> := PopFlagged(Some(f.queue[0]));
    Moves(c, s, t, g, pc2);
    Moves(c, State(g, m[t := pc2]), t, g, pc3);
    UpdatedTwice(m, t, pc2, pc3);
    UpdatedTwice(m, t, pc3, pc4);
    UpdatedTwice(m, t, pc4, pc5);
    UpdatedTwice(m, t, pc5, Idle);
    Moves(c, State(g, m[t := pc3]), t, h, pc4);
    Moves(c, State(h, m[t := pc4]), t, h, pc5);
    Moves(c, State(h, m[t := pc5]), t, h.(mutex := None), Idle);
  }

  /** A reader sleeps over an element or over the end, and nobody is going to notify. */
  ghost predicate WakeupLost<T>(s: State<T>)
  {
    && s.fields.mutex.None? && (s.fields.queue != [] || s.fields.terminated)
    && (exists sleeper: nat :: PcOf(s, sleeper).Asleep?)
    && forall t: nat :: !PcOf(s, t).Notifying?
  }

  /** With two readers a wakeup can be lost: two elements are pushed, only the first push
      notifies, one reader takes an element and leaves, and the other one sleeps on over the
      second element while nobody is going to notify. */
  lemma TwoReadersLoseWakeup<T(!new)>(c: Config, x: T, y: T) returns (s: State<T>, sleeper: nat)
    requires c.reader.None?
    ensures Reached(c, s)
    ensures PcOf(s, sleeper).Asleep? && s.fields.queue == [y] && s.fields.mutex.None? && !s.fields.terminated
    ensures forall t: nat :: t != sleeper ==> PcOf(s, t).Idle?
  {
    hide Reached;
    var s0: State<T> := Initial();
    StartReached<T>(c);
    assert [] + [x] == [x] && [x] + [y] == [x, y] && [x, y][1..] == [y];
    FallsAsleep(c, s0, 1);
    var s1 := State(s0.fields, s0.pcs[1 := Asleep]);
    FallsAsleep(c, s1, 2);
    var s2 := State(s1.fields, s1.pcs[2 := Asleep]);
    Pushes(c, s2, 3, x);
    var s3 := State(s2.fields.(queue := [x], accepted := [x], hasElements := true), s2.pcs[3 := Notifying]);
    Pushes(c, s3, 4, y);
    var s4 := State(s3.fields.(queue := [x, y], accepted := [x, y]), s3.pcs[4 := Idle]);
    var s5 := State(s4.fields, s4.pcs[3 := Idle][1 := PopWaiting(false)]);
    ReachedOn(c, s4, Notify(3, 1), s5);
    Takes(c, s5, 1);
    s := State(s5.fields.(queue := [y], popped := [x]), s5.pcs[1 := Idle]);
    sleeper := 2;
  }

  lemma StartReached<T(!new)>(c: Config)
    ensures Reached<T>(c, Initial())
  {
    assert Run<T>(c, [Initial()], []);
  }

  /** Whatever becomes of queued elements, no run ever loses a wakeup if and only if there is
      one reader. */
  lemma NoWakeupLostIff<T(!new)>(c: Config, x: T)
    ensures (forall s: State<T> :: Reached(c, s) ==> !WakeupLost(s)) <==> c.reader.Some?
  {
    if c.reader.Some? {
      forall s: State<T> | Reached(c, s) ensures !WakeupLost(s) { ReachedKeepsWakeups(c, s); }
    } else {
      var s, sleeper := TwoReadersLoseWakeup(c, x, x);
      assert WakeupLost(s);
    }
  }

  lemma ReachedKeepsWakeups<T(!new)>(c: Config, s: State<T>)
    requires Reached(c, s) && c.reader.Some?
    ensures !WakeupLost(s)
  {
    var states, labels :| Run<T>(c, states, labels) && states[|labels|] == s;
    hide Run;
    if s.fields.mutex.None? && (s.fields.queue != [] || s.fields.terminated) {
      forall sleeper: nat | PcOf(s, sleeper).Asleep? ensures exists t: nat :: PcOf(s, t).Notifying? {
        NoLostWakeup(c, states, labels, |labels|, sleeper);
      }
    }
  }
}

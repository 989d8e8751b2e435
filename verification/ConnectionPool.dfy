/** `AsyncSemaphore` and `ConnectionPool` (clients/vscode-hlasmplugin/src/asyncMutex.ts and
    connectionPool.ts). A step is what runs between two awaits of one call, or one of the events
    that may come in between. `close` and `reusable` do not throw; `create` and the action may. */
module ConnectionPool {

  /** Where a call of `withClient` stands: queued for a slot; woken with a slot; waiting for
      `create`; with a client, from the pool or new; running its action under the generation
      it has read; done with the client but not with the slot; finished. */
  datatype Pc =
    | Queued | Granted | Creating | Fetched(client: nat) | Using(client: nat, generation: nat) | Returning | Finished

  datatype State = State(slots: nat, available: nat, queue: seq<nat>, calls: map<nat, Pc>,
                         pooled: seq<nat>, timer: bool, disposed: bool, generation: nat,
                         created: nat, closed: seq<nat>, arrived: seq<nat>, granted: seq<nat>)

  /** `new ConnectionPool(details, limit, timeout)` */
  function Initial(limit: nat): (s: State)
  {
    State(limit, limit, [], map[], [], false, false, 0, 0, [], [], [])
  }

  /** `create` has come back with a client; the call has not gone on yet. */
  function Created(s: State, c: nat): (t: State)
  {
    s.(created := s.created + 1, calls := s.calls[c := Fetched(s.created)])
  }

  /** The slot is held: `getClient` runs up to its await. */
  function Started(s: State, c: nat): (t: State)
  {
    if |s.pooled| == 0 then s.(timer := false, calls := s.calls[c := Creating])
    else s.(timer := false, calls := s.calls[c := Fetched(s.pooled[0])], pooled := s.pooled[1..])
  }

  /** `locked` up to its first await. */
  function Arrived(s: State, c: nat): (t: State)
  {
    if s.available > 0 then
      Started(s.(available := s.available - 1, arrived := s.arrived + [c], granted := s.granted + [c]), c)
    else s.(queue := s.queue + [c], arrived := s.arrived + [c], calls := s.calls[c := Queued])
  }

  /** The `finally` block of `locked`: the slot goes to the first waiter or back. */
  function Released(s: State, c: nat): (t: State)
  {
    if |s.queue| > 0 then
      s.(calls := s.calls[c := Finished][s.queue[0] := Granted], queue := s.queue[1..],
         granted := s.granted + [s.queue[0]])
    else s.(calls := s.calls[c := Finished], available := s.available + 1)
  }

  /** `closeClients` */
  function Emptied(s: State): (t: State)
  {
    s.(generation := s.generation + 1, closed := s.closed + s.pooled, pooled := [])
  }

  /** The action has ended; the client goes back to the pool or is closed. */
  function Ended(s: State, c: nat, client: nat, reuse: bool): (t: State)
  {
    if reuse then s.(calls := s.calls[c := Returning], pooled := s.pooled + [client], timer := true)
    else s.(calls := s.calls[c := Returning], closed := s.closed + [client])
  }

  datatype Label =
    | Arrive(c: nat) | Resume(c: nat) | Create(c: nat) | FailToCreate(c: nat) | Fetch(c: nat)
    | End(c: nat, ok: bool, reusable: bool) | Release(c: nat)
    | CloseClients | TimeOut | Dispose

  predicate Is(s: State, c: nat, pc: Pc) { c in s.calls && s.calls[c] == pc }

  predicate Step(s: State, l: Label, t: State)
  {
    match l
    case Arrive(c) => c !in s.calls && t == Arrived(s, c)
    case Resume(c) => Is(s, c, Granted) && t == Started(s, c)
    case Create(c) => Is(s, c, Creating) && t == Created(s, c)
    case FailToCreate(c) => Is(s, c, Creating) && t == s.(calls := s.calls[c := Returning])
    case Fetch(c) =>
      && c in s.calls && s.calls[c].Fetched?
      && t == s.(calls := s.calls[c := Using(s.calls[c].client, s.generation)])
    case End(c, ok, reusable) =>
      && c in s.calls && s.calls[c].Using?
      && t == Ended(s, c, s.calls[c].client, ok && s.calls[c].generation == s.generation && !s.disposed && reusable)
    case Release(c) => Is(s, c, Returning) && t == Released(s, c)
    case CloseClients => t == Emptied(s)
    case TimeOut => s.timer && t == Emptied(s.(timer := false))
    case Dispose => t == Emptied(s.(disposed := true, timer := false))
  }

  // ----- the semaphore -----

  /** The call holds a slot. */
  predicate Holding(pc: Pc) { !pc.Queued? && !pc.Finished? }

  function Holders(s: State): (h: set<nat>)
  {
    set c | c in s.calls && Holding(s.calls[c])
  }

  predicate Distinct(xs: seq<nat>)
  {
    forall i, j | 0 <= i < j < |xs| :: xs[i] != xs[j]
  }

  /** Slots are granted or available; callers wait only while none is available, and they are
      served in the order of their arrival. */
  ghost predicate SemaphoreInv(s: State)
  {
    SlotsInv(s) && QueueInv(s)
  }

  ghost predicate SlotsInv(s: State)
  {
    |Holders(s)| + s.available == s.slots && (|s.queue| > 0 ==> s.available == 0)
  }

  ghost predicate QueueInv(s: State)
  {
    s.arrived == s.granted + s.queue && Distinct(s.queue) && forall c: nat :: c in s.queue <==> Is(s, c, Queued)
  }

  lemma HoldersChange(s: State, t: State, c: nat)
    requires forall d: nat | d != c :: d in t.calls <==> d in s.calls
    requires forall d: nat | d != c && d in s.calls :: Holding(t.calls[d]) == Holding(s.calls[d])
    requires c in t.calls
    ensures Holding(t.calls[c]) ==> Holders(t) == Holders(s) + {c}
    ensures !Holding(t.calls[c]) ==> Holders(t) == Holders(s) - {c}
  {
  }

  lemma StartedHolds(s: State, c: nat)
    ensures Holders(Started(s, c)) == Holders(s) + {c}
  {
    HoldersChange(s, Started(s, c), c);
  }

  lemma GrantTakesSlot(s: State, c: nat)
    requires SlotsInv(s) && c !in s.calls && s.available > 0
    ensures SlotsInv(Arrived(s, c))
  {
    var u := s.(available := s.available - 1, arrived := s.arrived + [c], granted := s.granted + [c]);
    StartedHolds(u, c);
    assert Holders(u) == Holders(s) && c !in Holders(s);
  }

  lemma GrantKeeps(s: State, c: nat)
    requires SemaphoreInv(s) && c !in s.calls && s.available > 0
    ensures SemaphoreInv(Arrived(s, c))
  {
    hide Holders;
    var t := Arrived(s, c);
    GrantTakesSlot(s, c);
    assert s.queue == [] && t.queue == [] && s.granted + [] == s.granted;
    assert t.granted + [] == t.granted;
    assert forall d: nat :: Is(t, d, Queued) <==> d != c && Is(s, d, Queued);
  }

  lemma QueueKeeps(s: State, c: nat)
    requires SemaphoreInv(s) && c !in s.calls && s.available == 0
    ensures SemaphoreInv(Arrived(s, c))
  {
    var t := Arrived(s, c);
    assert SlotsInv(t) by {
      HoldersChange(s, t, c);
      assert Holders(t) == Holders(s);
    }
    hide Holders;
    assert forall d: nat :: Is(t, d, Queued) <==> d == c || Is(s, d, Queued);
    assert c !in s.queue;
    assert (s.granted + s.queue) + [c] == s.granted + (s.queue + [c]);
  }

  lemma ArriveKeeps(s: State, c: nat)
    requires SemaphoreInv(s) && c !in s.calls
    ensures SemaphoreInv(Arrived(s, c))
  {
    hide SemaphoreInv;
    if s.available > 0 { GrantKeeps(s, c); } else { QueueKeeps(s, c); }
  }

  lemma QueueHead(q: seq<nat>)
    requires |q| > 0 && Distinct(q)
    ensures Distinct(q[1..]) && q[0] !in q[1..] && q == [q[0]] + q[1..]
    ensures forall d :: d in q <==> d == q[0] || d in q[1..]
  {
    assert forall i | 0 <= i < |q| - 1 :: q[1..][i] == q[i + 1];
  }

  lemma HandOver(s: State, c: nat)
    requires SemaphoreInv(s) && Is(s, c, Returning) && |s.queue| > 0
    ensures SemaphoreInv(Released(s, c))
  {
    var t, w := Released(s, c), s.queue[0];
    QueueHead(s.queue);
    assert w in s.queue && Is(s, w, Queued) && w != c;
    HandOverHolders(s, t, c, w);
    assert s.granted + ([w] + t.queue) == (s.granted + [w]) + t.queue;
    assert forall d: nat :: Is(t, d, Queued) <==> d != w && Is(s, d, Queued);
  }

  lemma HandOverHolders(s: State, t: State, c: nat, w: nat)
    requires Is(s, c, Returning) && Is(s, w, Queued) && t.calls == s.calls[c := Finished][w := Granted]
    ensures |Holders(t)| == |Holders(s)|
  {
    var u := s.(calls := s.calls[c := Finished]);
    HoldersChange(s, u, c);
    HoldersChange(u, t, w);
    assert c in Holders(s) && w !in Holders(u);
    hide Holders;
    assert |Holders(u)| == |Holders(s)| - 1 && |Holders(t)| == |Holders(u)| + 1;
  }

  lemma GiveBack(s: State, c: nat)
    requires SemaphoreInv(s) && Is(s, c, Returning) && |s.queue| == 0
    ensures SemaphoreInv(Released(s, c))
  {
    var t := Released(s, c);
    HoldersChange(s, t, c);
    assert c in Holders(s) && Holders(t) == Holders(s) - {c};
    assert forall d: nat :: Is(t, d, Queued) <==> Is(s, d, Queued);
  }

  lemma ReleaseKeeps(s: State, c: nat)
    requires SemaphoreInv(s) && Is(s, c, Returning)
    ensures SemaphoreInv(Released(s, c))
  {
    hide SemaphoreInv;
    if |s.queue| > 0 { HandOver(s, c); } else { GiveBack(s, c); }
  }

  /** A holder of a slot moves on. */
  lemma HolderMoves(s: State, t: State, c: nat)
    requires SemaphoreInv(s) && c in s.calls && Holding(s.calls[c]) && c in t.calls && Holding(t.calls[c])
    requires t.calls == s.calls[c := t.calls[c]]
    requires t.slots == s.slots && t.available == s.available && t.queue == s.queue && t.arrived == s.arrived
             && t.granted == s.granted
    ensures SemaphoreInv(t)
  {
    HoldersChange(s, t, c);
    assert Holders(t) == Holders(s);
    assert forall d: nat :: Is(t, d, Queued) <==> Is(s, d, Queued);
  }

  lemma SemaphoreStep(s: State, l: Label, t: State)
    requires SemaphoreInv(s) && Step(s, l, t)
    ensures SemaphoreInv(t)
  {
    hide SemaphoreInv;
    match l
    case Arrive(c) => ArriveKeeps(s, c);
    case Resume(c) => HolderMoves(s, t, c);
    case Create(c) => HolderMoves(s, t, c);
    case FailToCreate(c) => HolderMoves(s, t, c);
    case Fetch(c) => HolderMoves(s, t, c);
    case End(c, _, _) => HolderMoves(s, t, c);
    case Release(c) => ReleaseKeeps(s, c);
    case _ => SameCalls(s, t);
  }

  lemma SameCalls(s: State, t: State)
    requires SemaphoreInv(s) && t.calls == s.calls && t.slots == s.slots && t.available == s.available
    requires t.queue == s.queue && t.arrived == s.arrived && t.granted == s.granted
    ensures SemaphoreInv(t)
  {
    assert Holders(t) == Holders(s);
    assert forall d: nat :: Is(t, d, Queued) <==> Is(s, d, Queued);
  }

  // ----- the clients -----

  predicate HasClient(pc: Pc) { pc.Fetched? || pc.Using? }

  predicate Uses(s: State, c: nat, k: nat)
  {
    c in s.calls && HasClient(s.calls[c]) && s.calls[c].client == k
  }

  /** Every client ever created is in exactly one place: pooled, with one call, or closed. */
  ghost predicate ClientInv(s: State)
  {
    && Distinct(s.pooled) && Distinct(s.closed)
    && (forall k | k in s.pooled :: k < s.created && k !in s.closed)
    && (forall k | k in s.closed :: k < s.created)
    && (forall c: nat, k: nat | Uses(s, c, k) :: k < s.created && k !in s.pooled && k !in s.closed)
    && (forall c: nat, d: nat, k: nat | Uses(s, c, k) && Uses(s, d, k) :: c == d)
    && (forall k: nat | k < s.created :: k in s.pooled || k in s.closed || exists c: nat :: Uses(s, c, k))
    && (s.disposed ==> s.pooled == [] && !s.timer)
  }

  lemma DistinctAppend(xs: seq<nat>, ys: seq<nat>)
    requires Distinct(xs) && Distinct(ys) && forall x | x in xs :: x !in ys
    ensures Distinct(xs + ys)
  {
    var zs := xs + ys;
    forall i, j | 0 <= i < j < |zs| ensures zs[i] != zs[j] {
      if i < |xs| <= j { assert xs[i] in xs && ys[j - |xs|] in ys; }
    }
  }

  /** The calls use the same clients as before. */
  lemma SameUses(s: State, t: State)
    requires ClientInv(s) && forall c: nat, k: nat :: Uses(t, c, k) <==> Uses(s, c, k)
    requires t.pooled == s.pooled && t.closed == s.closed && t.created == s.created
    requires t.disposed ==> t.pooled == [] && !t.timer
    ensures ClientInv(t)
  {
    forall k: nat | k < t.created ensures k in t.pooled || k in t.closed || exists c: nat :: Uses(t, c, k) {
      if k !in s.pooled && k !in s.closed {
        var c: nat :| Uses(s, c, k);
        assert Uses(t, c, k);
      }
    }
  }

  lemma EmptiedKeeps(s: State)
    requires ClientInv(s)
    ensures ClientInv(Emptied(s))
  {
    var t := Emptied(s);
    assert forall k | k in s.closed :: k !in s.pooled;
    DistinctAppend(s.closed, s.pooled);
    assert forall c: nat, k: nat :: Uses(t, c, k) <==> Uses(s, c, k);
    forall k: nat | k < t.created ensures k in t.pooled || k in t.closed || exists c: nat :: Uses(t, c, k) {
      if k !in s.pooled && k !in s.closed {
        var c: nat :| Uses(s, c, k);
        assert Uses(t, c, k);
      }
    }
  }

  /** A client leaves the pool with a call. */
  lemma StartedKeeps(s: State, c: nat)
    requires ClientInv(s) && forall k: nat :: !Uses(s, c, k)
    ensures ClientInv(Started(s, c))
  {
    var t := Started(s, c);
    if |s.pooled| == 0 {
      SameUses(s, t);
    } else {
      var k0 := s.pooled[0];
      QueueHead(s.pooled);
      assert forall d: nat, k: nat :: Uses(t, d, k) <==> Uses(s, d, k) || (d == c && k == k0);
      forall k: nat | k < t.created ensures k in t.pooled || k in t.closed || exists d: nat :: Uses(t, d, k) {
        if k == k0 {
          assert Uses(t, c, k);
        } else if k !in s.pooled && k !in s.closed {
          var d: nat :| Uses(s, d, k);
          assert Uses(t, d, k);
        }
      }
    }
  }

  lemma CreateKeeps(s: State, c: nat)
    requires ClientInv(s) && Is(s, c, Creating)
    ensures ClientInv(Created(s, c))
  {
    var t := Created(s, c);
    assert forall d: nat, k: nat :: Uses(t, d, k) <==> Uses(s, d, k) || (d == c && k == s.created);
    forall k: nat | k < t.created ensures k in t.pooled || k in t.closed || exists d: nat :: Uses(t, d, k) {
      if k == s.created {
        assert Uses(t, c, k);
      } else if k !in s.pooled && k !in s.closed {
        var d: nat :| Uses(s, d, k);
        assert Uses(t, d, k);
      }
    }
  }

  /** A client comes back from its call: into the pool, or closed for good. */
  lemma EndedKeeps(s: State, c: nat, k0: nat, reuse: bool)
    requires ClientInv(s) && Uses(s, c, k0) && (reuse ==> !s.disposed)
    ensures ClientInv(Ended(s, c, k0, reuse))
  {
    var t := Ended(s, c, k0, reuse);
    DistinctAppend(s.pooled, [k0]);
    DistinctAppend(s.closed, [k0]);
    assert forall d: nat, k: nat :: Uses(t, d, k) <==> Uses(s, d, k) && d != c;
    assert forall d: nat, k: nat | Uses(t, d, k) :: k != k0;
    forall k: nat | k < t.created ensures k in t.pooled || k in t.closed || exists d: nat :: Uses(t, d, k) {
      if k == k0 {
        assert if reuse then k in t.pooled else k in t.closed;
      } else if k !in s.pooled && k !in s.closed {
        var d: nat :| Uses(s, d, k);
        assert Uses(t, d, k);
      } else {
        assert k in s.pooled ==> k in t.pooled;
        assert k in s.closed ==> k in t.closed;
      }
    }
  }

  lemma ClientStep(s: State, l: Label, t: State)
    requires SemaphoreInv(s) && ClientInv(s) && Step(s, l, t)
    ensures ClientInv(t)
  {
    hide SemaphoreInv, ClientInv;
    match l
    case Arrive(c) => ArriveClients(s, c);
    case Resume(c) => StartedKeeps(s, c);
    case Create(c) => CreateKeeps(s, c);
    case End(c, ok, reusable) =>
      EndedKeeps(s, c, s.calls[c].client, ok && s.calls[c].generation == s.generation && !s.disposed && reusable);
    case FailToCreate(c) => QuietClients(s, l, t);
    case Fetch(c) => QuietClients(s, l, t);
    case Release(c) => ReleaseClients(s, c);
    case CloseClients => EmptiedKeeps(s);
    case TimeOut => TimeOutClients(s); EmptiedKeeps(s.(timer := false));
    case Dispose => EmptiedKeeps(s); DisposeClients(s);
  }

  lemma ArriveClients(s: State, c: nat)
    requires ClientInv(s) && c !in s.calls
    ensures ClientInv(Arrived(s, c))
  {
    if s.available > 0 {
      var u := s.(available := s.available - 1, arrived := s.arrived + [c], granted := s.granted + [c]);
      SameUses(s, u);
      StartedKeeps(u, c);
    } else {
      SameUses(s, Arrived(s, c));
    }
  }

  lemma QuietClients(s: State, l: Label, t: State)
    requires ClientInv(s) && Step(s, l, t) && (l.FailToCreate? || l.Fetch?)
    ensures ClientInv(t)
  {
    assert t.disposed ==> t.pooled == [] && !t.timer;
    SameUses(s, t);
  }

  lemma ReleaseClients(s: State, c: nat)
    requires SemaphoreInv(s) && ClientInv(s) && Is(s, c, Returning)
    ensures ClientInv(Released(s, c))
  {
    if |s.queue| > 0 { assert s.queue[0] in s.queue && Is(s, s.queue[0], Queued); }
    SameUses(s, Released(s, c));
  }

  lemma TimeOutClients(s: State)
    requires ClientInv(s)
    ensures ClientInv(s.(timer := false))
  {
    SameUses(s, s.(timer := false));
  }

  lemma DisposeClients(s: State)
    requires ClientInv(s)
    ensures ClientInv(Emptied(s.(disposed := true, timer := false)))
  {
    EmptiedKeeps(s);
    SameUses(Emptied(s), Emptied(s.(disposed := true, timer := false)));
  }

  // ----- the limit -----

  predicate Busy(pc: Pc) { pc.Creating? || pc.Fetched? || pc.Using? }

  /** The calls that have a client or are getting one. */
  function Out(s: State): (o: set<nat>)
  {
    set c | c in s.calls && Busy(s.calls[c])
  }

  ghost predicate LimitInv(s: State)
  {
    |s.pooled| + |Out(s)| <= s.slots
  }

  lemma OutIsHeld(s: State)
    ensures Out(s) <= Holders(s) && |Out(s)| <= |Holders(s)|
  {
    assert Out(s) <= Holders(s);
    SubsetSize(Out(s), Holders(s));
  }

  lemma {:induction false} SubsetSize(a: set<nat>, b: set<nat>)
    requires a <= b
    ensures |a| <= |b|
  {
    if a != {} {
      var x :| x in a;
      SubsetSize(a - {x}, b - {x});
    }
  }

  lemma OutChange(s: State, t: State, c: nat)
    requires forall d: nat | d != c :: d in t.calls <==> d in s.calls
    requires forall d: nat | d != c && d in s.calls :: Busy(t.calls[d]) == Busy(s.calls[d])
    requires c in t.calls
    ensures Busy(t.calls[c]) ==> Out(t) == Out(s) + {c}
    ensures !Busy(t.calls[c]) ==> Out(t) == Out(s) - {c}
  {
  }

  /** A new client is only created for an empty pool, so the slots bound them all. */
  lemma StartedLimit(s: State, c: nat)
    requires LimitInv(s) && c !in Out(s) && |Holders(Started(s, c))| <= s.slots
    ensures LimitInv(Started(s, c))
  {
    var t := Started(s, c);
    OutChange(s, t, c);
    OutIsHeld(t);
    assert Out(t) == Out(s) + {c} && |Out(t)| == |Out(s)| + 1;
  }

  lemma HoldersBound(s: State)
    requires SemaphoreInv(s)
    ensures |Holders(s)| <= s.slots
  {
  }

  lemma ArriveLimit(s: State, c: nat)
    requires LimitInv(s) && c !in s.calls && |Holders(Arrived(s, c))| <= s.slots
    ensures LimitInv(Arrived(s, c))
  {
    if s.available > 0 {
      var u := s.(available := s.available - 1, arrived := s.arrived + [c], granted := s.granted + [c]);
      assert Out(u) == Out(s);
      StartedLimit(u, c);
    } else {
      OutChange(s, Arrived(s, c), c);
      assert Out(Arrived(s, c)) == Out(s);
    }
  }

  /** The call goes on with its client, or comes back without it. */
  lemma MoveLimit(s: State, t: State, c: nat)
    requires LimitInv(s) && c in s.calls && Busy(s.calls[c]) && t.slots == s.slots
    requires c in t.calls && t.calls == s.calls[c := t.calls[c]]
    requires |t.pooled| <= |s.pooled| + (if Busy(t.calls[c]) then 0 else 1)
    ensures LimitInv(t)
  {
    OutChange(s, t, c);
    if Busy(t.calls[c]) { assert Out(t) == Out(s); } else { OutShrinks(s, t, c); }
  }

  lemma LimitStep(s: State, l: Label, t: State)
    requires SemaphoreInv(s) && LimitInv(s) && Step(s, l, t)
    ensures LimitInv(t)
  {
    SemaphoreStep(s, l, t);
    HoldersBound(t);
    hide Distinct, SemaphoreInv, LimitInv, Holders, Out;
    match l
    case Arrive(c) => ArriveLimit(s, c);
    case Resume(c) => ResumeLimit(s, c);
    case Create(c) => MoveLimit(s, t, c);
    case FailToCreate(c) => MoveLimit(s, t, c);
    case Fetch(c) => MoveLimit(s, t, c);
    case End(c, _, _) => MoveLimit(s, t, c);
    case Release(c) => ReleaseLimit(s, c);
    case _ => EmptiedLimit(s, t);
  }

  lemma ResumeLimit(s: State, c: nat)
    requires LimitInv(s) && Is(s, c, Granted) && |Holders(Started(s, c))| <= s.slots
    ensures LimitInv(Started(s, c))
  {
    StartedLimit(s, c);
  }

  lemma ReleaseLimit(s: State, c: nat)
    requires SemaphoreInv(s) && LimitInv(s) && Is(s, c, Returning)
    ensures LimitInv(Released(s, c))
  {
    ReleaseOut(s, c);
  }

  lemma EmptiedLimit(s: State, t: State)
    requires LimitInv(s) && t.calls == s.calls && t.slots == s.slots && t.pooled == []
    ensures LimitInv(t)
  {
    assert Out(t) == Out(s);
  }

  lemma OutShrinks(s: State, t: State, c: nat)
    requires c in Out(s) && Out(t) == Out(s) - {c}
    ensures |Out(t)| == |Out(s)| - 1
  {
  }

  lemma ReleaseOut(s: State, c: nat)
    requires SemaphoreInv(s) && Is(s, c, Returning)
    ensures Out(Released(s, c)) == Out(s)
  {
    if |s.queue| > 0 { assert s.queue[0] in s.queue && Is(s, s.queue[0], Queued); }
  }

  // ----- runs -----

  ghost predicate Run(limit: nat, states: seq<State>, labels: seq<Label>)
  {
    && |states| == |labels| + 1 && states[0] == Initial(limit)
    && forall i | 0 <= i < |labels| :: Step(states[i], labels[i], states[i + 1])
  }

  lemma InitialOk(limit: nat)
    ensures SemaphoreInv(Initial(limit)) && ClientInv(Initial(limit)) && LimitInv(Initial(limit))
  {
    assert Holders(Initial(limit)) == {} && Out(Initial(limit)) == {};
  }

  lemma {:induction false} RunKeeps(limit: nat, states: seq<State>, labels: seq<Label>, n: nat)
    requires Run(limit, states, labels) && n <= |labels|
    ensures |states| == |labels| + 1
    ensures SemaphoreInv(states[n]) && ClientInv(states[n]) && LimitInv(states[n]) && states[n].slots == limit
  {
    hide SemaphoreInv, ClientInv, LimitInv;
    if n == 0 {
      InitialOk(limit);
    } else {
      RunKeeps(limit, states, labels, n - 1);
      assert Step(states[n - 1], labels[n - 1], states[n]);
      SemaphoreStep(states[n - 1], labels[n - 1], states[n]);
      ClientStep(states[n - 1], labels[n - 1], states[n]);
      LimitStep(states[n - 1], labels[n - 1], states[n]);
    }
  }

  /** Granted and available slots make up all slots, callers wait only while no slot is available,
      and slots are granted in the order of arrival. */
  lemma SlotsAndOrder(limit: nat, states: seq<State>, labels: seq<Label>, n: nat)
    requires Run(limit, states, labels) && n <= |labels|
    ensures |Holders(states[n])| + states[n].available == limit
    ensures states[n].queue != [] ==> states[n].available == 0
    ensures states[n].arrived == states[n].granted + states[n].queue
  {
    hide ClientInv, LimitInv, Run;
    RunKeeps(limit, states, labels, n);
  }

  /** Every client created so far is in exactly one place, and closed at most once. */
  lemma EveryClientInOnePlace(limit: nat, states: seq<State>, labels: seq<Label>, n: nat, k: nat)
    requires Run(limit, states, labels) && n <= |labels| && k < states[n].created
    ensures var s := states[n];
            && Distinct(s.pooled) && Distinct(s.closed)
            && (k in s.pooled || k in s.closed || exists c: nat :: Uses(s, c, k))
            && !(k in s.pooled && k in s.closed)
            && (forall c: nat | Uses(s, c, k) :: k !in s.pooled && k !in s.closed)
            && (forall c: nat, d: nat | Uses(s, c, k) && Uses(s, d, k) :: c == d)
  {
    hide SemaphoreInv, LimitInv, Run;
    RunKeeps(limit, states, labels, n);
  }

  /** Clients in the pool and calls with a client, or with one being created, never exceed the
      limit. */
  lemma ClientsWithinLimit(limit: nat, states: seq<State>, labels: seq<Label>, n: nat)
    requires Run(limit, states, labels) && n <= |labels|
    ensures |states[n].pooled| + |Out(states[n])| <= limit
  {
    hide SemaphoreInv, ClientInv, Run;
    RunKeeps(limit, states, labels, n);
  }

  /** A call that gets its slot takes the client that has been in the pool for the longest time; only
      if there is none, one is created. Clients come back behind all others. */
  lemma PoolIsFifo(limit: nat, states: seq<State>, labels: seq<Label>, n: nat)
    requires Run(limit, states, labels) && n < |labels|
    ensures var s, l, t := states[n], labels[n], states[n + 1];
            && (Starts(s, l) ==>
                  && l.c in t.calls && t.created == s.created
                  && if s.pooled == [] then t.calls[l.c].Creating? && t.pooled == []
                     else t.calls[l.c] == Fetched(s.pooled[0]) && t.pooled == s.pooled[1..])
            && (Reuses(s, l) ==> t.pooled == s.pooled + [s.calls[l.c].client])
            && (!Starts(s, l) && !Reuses(s, l) ==> t.pooled == if Closes(l) then [] else s.pooled)
  {
    assert Step(states[n], labels[n], states[n + 1]);
  }

  /** Once disposed, the pool stays empty and no timer runs. */
  lemma {:induction false} DisposedStaysEmpty(limit: nat, states: seq<State>, labels: seq<Label>, m: nat, n: nat)
    requires Run(limit, states, labels) && m < n <= |labels| && labels[m].Dispose?
    ensures states[n].disposed && states[n].pooled == [] && !states[n].timer
    decreases n
  {
    hide SemaphoreInv, LimitInv;
    RunKeeps(limit, states, labels, n);
    assert Step(states[n - 1], labels[n - 1], states[n]);
    if m < n - 1 { DisposedStaysEmpty(limit, states, labels, m, n - 1); }
  }

  /** The event closes the pooled clients. */
  predicate Closes(l: Label) { l.CloseClients? || l.TimeOut? || l.Dispose? }

  ghost predicate Unclosed(labels: seq<Label>, m: nat, n: nat)
    requires n <= |labels|
  {
    forall i | m <= i < n :: !Closes(labels[i])
  }

  lemma {:induction false} GenerationCounts(limit: nat, states: seq<State>, labels: seq<Label>, m: nat, n: nat)
    requires Run(limit, states, labels) && m <= n <= |labels|
    ensures states[m].generation <= states[n].generation
    ensures states[m].generation == states[n].generation <==> Unclosed(labels, m, n)
    decreases n - m
  {
    if m < n {
      GenerationCounts(limit, states, labels, m, n - 1);
      assert Step(states[n - 1], labels[n - 1], states[n]);
      assert Unclosed(labels, m, n) <==> Unclosed(labels, m, n - 1) && !Closes(labels[n - 1]);
    }
  }

  /** A call keeps its client and the generation it has read until its action ends. */
  lemma {:induction false} UseStays(limit: nat, states: seq<State>, labels: seq<Label>, m: nat, n: nat, c: nat)
    requires Run(limit, states, labels) && m < n <= |labels| && labels[m] == Fetch(c)
    requires forall i | m < i < n :: !(labels[i].End? && labels[i].c == c)
    ensures c in states[n].calls && states[n].calls[c].Using? && states[n].calls[c].generation == states[m].generation
    ensures c in states[m + 1].calls && states[n].calls[c] == states[m + 1].calls[c]
    decreases n
  {
    hide SemaphoreInv, ClientInv, LimitInv;
    assert Step(states[n - 1], labels[n - 1], states[n]);
    if m < n - 1 {
      UseStays(limit, states, labels, m, n - 1, c);
      RunKeeps(limit, states, labels, n - 1);
      OthersStay(states[n - 1], labels[n - 1], states[n], c);
    }
  }

  lemma OthersStay(s: State, l: Label, t: State, c: nat)
    requires SemaphoreInv(s) && Step(s, l, t) && c in s.calls && s.calls[c].Using? && !(l.End? && l.c == c)
    ensures c in t.calls && t.calls[c] == s.calls[c]
  {
    if l.Release? && |s.queue| > 0 { assert s.queue[0] in s.queue && Is(s, s.queue[0], Queued); }
  }

  /** A client returns to the pool exactly when its action succeeded, it is reusable, the pool has
      not been disposed, and nothing has closed the pooled clients since the call read the
      generation; otherwise it is closed. */
  lemma ReturnsToPoolIff(limit: nat, states: seq<State>, labels: seq<Label>, m: nat, n: nat, c: nat,
                         ok: bool, reusable: bool)
    requires Run(limit, states, labels) && m < n < |labels| && labels[m] == Fetch(c)
    requires labels[n] == End(c, ok, reusable) && forall i | m < i < n :: !(labels[i].End? && labels[i].c == c)
    ensures c in states[n].calls && states[n].calls[c].Using?
    ensures var k := states[n].calls[c].client;
            && (k in states[n + 1].pooled <==> ok && reusable && !states[n].disposed && Unclosed(labels, m + 1, n))
            && (k in states[n + 1].closed <==> k !in states[n + 1].pooled)
  {
    hide SemaphoreInv, LimitInv;
    RunKeeps(limit, states, labels, n);
    UseStays(limit, states, labels, m, n, c);
    GenerationCounts(limit, states, labels, m + 1, n);
    SameGeneration(limit, states, labels, m, c);
    assert Step(states[n], labels[n], states[n + 1]);
    assert Uses(states[n], c, states[n].calls[c].client);
  }

  lemma SameGeneration(limit: nat, states: seq<State>, labels: seq<Label>, m: nat, c: nat)
    requires Run(limit, states, labels) && m < |labels| && labels[m] == Fetch(c)
    ensures states[m + 1].generation == states[m].generation
  {
    assert Step(states[m], labels[m], states[m + 1]);
  }

  // ----- the timer -----

  /** The step puts a client back into the pool, which starts the timer anew. */
  predicate Reuses(s: State, l: Label)
  {
    && l.End? && l.c in s.calls && s.calls[l.c].Using?
    && l.ok && s.calls[l.c].generation == s.generation && !s.disposed && l.reusable
  }

  /** The step gives a call its slot, and `getClient` stops the timer. */
  predicate Starts(s: State, l: Label)
  {
    l.Resume? || (l.Arrive? && s.available > 0)
  }

  predicate Stops(s: State, l: Label) { Starts(s, l) || l.TimeOut? || l.Dispose? }

  /** Step `m` put a client back, and nothing has stopped the timer since. */
  ghost predicate TimerFrom(states: seq<State>, labels: seq<Label>, m: nat, n: nat)
    requires m < n <= |labels| && n < |states|
  {
    Reuses(states[m], labels[m]) && forall k | m < k < n :: !Stops(states[k], labels[k])
  }

  /** The timer runs exactly if a client has come back to the pool and since then no call has
      started, the timer has not fired and the pool has not been disposed. */
  lemma {:induction false} TimerRunsIff(limit: nat, states: seq<State>, labels: seq<Label>, n: nat)
    requires Run(limit, states, labels) && n <= |labels|
    ensures states[n].timer <==> exists m :: 0 <= m < n && TimerFrom(states, labels, m, n)
  {
    if n > 0 {
      var s, l, t := states[n - 1], labels[n - 1], states[n];
      assert Step(s, l, t);
      TimerRunsIff(limit, states, labels, n - 1);
      assert t.timer <==> Reuses(s, l) || (s.timer && !Stops(s, l));
      if Reuses(s, l) {
        assert TimerFrom(states, labels, n - 1, n);
      } else if t.timer {
        var m :| 0 <= m < n - 1 && TimerFrom(states, labels, m, n - 1);
        TimerGoesOn(states, labels, m, n);
      } else if m :| 0 <= m < n && TimerFrom(states, labels, m, n) {
        assert m < n - 1;
        TimerGoesOn(states, labels, m, n);
      }
    }
  }

  lemma TimerGoesOn(states: seq<State>, labels: seq<Label>, m: nat, n: nat)
    requires m < n - 1 && n <= |labels| && n < |states|
    ensures TimerFrom(states, labels, m, n) <==>
            TimerFrom(states, labels, m, n - 1) && !Stops(states[n - 1], labels[n - 1])
  {
  }

  /** Step `m` is the last one that put a client back; nothing has closed the pool since. */
  ghost predicate LastReuse(states: seq<State>, labels: seq<Label>, m: nat, n: nat)
    requires m < n <= |labels| && n < |states|
  {
    && Reuses(states[m], labels[m])
    && forall k | m < k < n :: !Reuses(states[k], labels[k]) && !Closes(labels[k])
  }

  lemma {:induction false} PooledWasReused(limit: nat, states: seq<State>, labels: seq<Label>, n: nat) returns (m: nat)
    requires Run(limit, states, labels) && n <= |labels| && states[n].pooled != []
    ensures m < n && LastReuse(states, labels, m, n)
    decreases n
  {
    var s, l, t := states[n - 1], labels[n - 1], states[n];
    assert Step(s, l, t);
    if Reuses(s, l) {
      m := n - 1;
    } else {
      m := PooledWasReused(limit, states, labels, n - 1);
    }
  }

  /** Clients in the pool are without a timer exactly if a call has started since the last client
      came back. */
  lemma PooledWithoutTimerIff(limit: nat, states: seq<State>, labels: seq<Label>, n: nat) returns (m: nat)
    requires Run(limit, states, labels) && n <= |labels| && states[n].pooled != []
    ensures m < n && LastReuse(states, labels, m, n)
    ensures !states[n].timer <==> exists k | m < k < n :: Starts(states[k], labels[k])
  {
    m := PooledWasReused(limit, states, labels, n);
    TimerRunsIff(limit, states, labels, n);
    if states[n].timer {
      var j :| 0 <= j < n && TimerFrom(states, labels, j, n);
      assert j <= m;
    } else {
      assert !TimerFrom(states, labels, m, n);
    }
  }

  // ----- what is not promised -----

  ghost predicate Reached(limit: nat, s: State)
  {
    exists states, labels :: Run(limit, states, labels) && states[|labels|] == s
  }

  lemma ReachedOn(limit: nat, s: State, l: Label, t: State)
    requires Reached(limit, s) && Step(s, l, t)
    ensures Reached(limit, t)
  {
    hide Step;
    var states, labels :| Run(limit, states, labels) && states[|labels|] == s;
    var states', labels' := states + [t], labels + [l];
    assert forall i | 0 <= i < |labels'| :: Step(states'[i], labels'[i], states'[i + 1]);
    assert Run(limit, states', labels') && states'[|labels'|] == t;
  }

  lemma InitialReached(limit: nat)
    ensures Reached(limit, Initial(limit))
  {
    assert Run(limit, [Initial(limit)], []);
  }

  /** A client is created and its call goes on at once. */
  lemma NewClient(limit: nat, s: State, c: nat)
    requires Reached(limit, s) && Is(s, c, Creating)
    ensures Reached(limit, s.(created := s.created + 1, calls := s.calls[c := Using(s.created, s.generation)]))
  {
    hide Reached;
    ReachedOn(limit, s, Create(c), Created(s, c));
    var t := s.(created := s.created + 1, calls := s.calls[c := Using(s.created, s.generation)]);
    assert t.calls == Created(s, c).calls[c := Using(s.created, s.generation)];
    ReachedOn(limit, Created(s, c), Fetch(c), t);
  }

  /** A call creates a client and leaves it in the pool. */
  lemma OnePooled() returns (s: State)
    ensures Reached(1, s) && s.pooled == [0] && s.closed == [] && s.created == 1 && s.available == 1 && s.queue == []
    ensures s.calls == map[0 := Finished] && s.generation == 0 && !s.disposed
  {
    hide Reached;
    InitialReached(1);
    var s0 := Initial(1);
    var s1 := Arrived(s0, 0);
    ReachedOn(1, s0, Arrive(0), s1);
    NewClient(1, s1, 0);
    var s2 := s1.(created := 1, calls := s1.calls[0 := Using(0, 0)]);
    var s3 := Ended(s2, 0, 0, true);
    ReachedOn(1, s2, End(0, true, true), s3);
    s := Released(s3, 0);
    ReachedOn(1, s3, Release(0), s);
    assert [] + [0] == [0];
  }

  /** The generation is read only after the client has been taken: `closeClients` in between is
      missed, and a client created before it is pooled again after it. */
  lemma OldClientReturns() returns (before: State, s: State)
    ensures Reached(1, before) && before.created == 1
    ensures Reached(1, Emptied(before)) && Reached(1, s) && s.generation == before.generation + 1
    ensures s.pooled == [0] && s.closed == []
  {
    hide Reached;
    var p := OnePooled();
    before := Arrived(p, 1);
    ReachedOn(1, p, Arrive(1), before);
    assert [0][1..] == [];
    var s1 := Emptied(before);
    ReachedOn(1, before, CloseClients, s1);
    assert s1.calls[1] == Fetched(0);
    var s2 := s1.(calls := s1.calls[1 := Using(0, 1)]);
    ReachedOn(1, s1, Fetch(1), s2);
    s := Ended(s2, 1, 0, true);
    ReachedOn(1, s2, End(1, true, true), s);
    assert [] + [0] == [0];
  }

  lemma OneCreated() returns (s: State)
    ensures Reached(1, s) && s.created == 1 && s.pooled == [] && s.closed == [] && !s.disposed
    ensures s.generation == 0 && s.calls == map[0 := Fetched(0)]
  {
    hide Reached;
    InitialReached(1);
    var s0 := Initial(1);
    var s1 := Arrived(s0, 0);
    ReachedOn(1, s0, Arrive(0), s1);
    s := Created(s1, 0);
    ReachedOn(1, s1, Create(0), s);
  }

  /** The same happens to a client that has just been created. */
  lemma FreshClientReturns() returns (before: State, s: State)
    ensures Reached(1, before) && before.created == 1 && before.pooled == []
    ensures Reached(1, Emptied(before)) && Reached(1, s) && s.generation == before.generation + 1
    ensures s.pooled == [0] && s.closed == []
  {
    hide Reached;
    before := OneCreated();
    var s2 := Emptied(before);
    ReachedOn(1, before, CloseClients, s2);
    assert s2.calls[0] == Fetched(0);
    var s3 := s2.(calls := s2.calls[0 := Using(0, 1)]);
    ReachedOn(1, s2, Fetch(0), s3);
    s := Ended(s3, 0, 0, true);
    ReachedOn(1, s3, End(0, true, true), s);
    assert [] + [0] == [0];
  }

  /** Two calls at a time, each with a client of its own. */
  lemma TwoInUse() returns (s: State)
    ensures Reached(2, s) && !s.disposed && s.generation == 0 && s.pooled == [] && s.closed == []
    ensures s.available == 0 && s.queue == [] && s.calls == map[0 := Using(0, 0), 1 := Using(1, 0)]
  {
    hide Reached;
    InitialReached(2);
    var s0 := Initial(2);
    var s1 := Arrived(s0, 0);
    ReachedOn(2, s0, Arrive(0), s1);
    var s2 := Arrived(s1, 1);
    ReachedOn(2, s1, Arrive(1), s2);
    NewClient(2, s2, 0);
    var s3 := s2.(created := 1, calls := s2.calls[0 := Using(0, 0)]);
    NewClient(2, s3, 1);
    s := s3.(created := 2, calls := s3.calls[1 := Using(1, 0)]);
  }

  /** They leave two clients in the pool. */
  lemma TwoPooled() returns (s: State)
    ensures Reached(2, s) && !s.disposed && s.pooled == [0, 1] && s.closed == [] && s.available == 2 && s.queue == []
    ensures s.calls == map[0 := Finished, 1 := Finished]
  {
    hide Reached;
    var s4 := TwoInUse();
    var s5 := Ended(s4, 0, 0, true);
    ReachedOn(2, s4, End(0, true, true), s5);
    var s6 := Ended(s5, 1, 1, true);
    ReachedOn(2, s5, End(1, true, true), s6);
    var s7 := Released(s6, 0);
    ReachedOn(2, s6, Release(0), s7);
    s := Released(s7, 1);
    ReachedOn(2, s7, Release(1), s);
    assert [] + [0] == [0] && [0] + [1] == [0, 1];
    assert s7.calls == map[0 := Finished, 1 := Returning];
  }

  /** Taking a client stops the timer, and only a client that comes back starts it again: after a
      failed action the clients left in the pool have no timer that would close them. */
  lemma IdleClientWithoutTimer() returns (s: State)
    ensures Reached(2, s) && s.pooled == [1] && !s.timer && !s.disposed
    ensures forall c | c in s.calls :: s.calls[c].Finished?
  {
    hide Reached;
    var p := TwoPooled();
    var s1 := Arrived(p, 2);
    ReachedOn(2, p, Arrive(2), s1);
    assert [0, 1][1..] == [1] && s1.calls[2] == Fetched(0);
    var s2 := s1.(calls := s1.calls[2 := Using(0, s1.generation)]);
    ReachedOn(2, s1, Fetch(2), s2);
    var s3 := Ended(s2, 2, 0, false);
    ReachedOn(2, s2, End(2, false, true), s3);
    s := Released(s3, 2);
    ReachedOn(2, s3, Release(2), s);
  }
}

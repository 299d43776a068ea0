/** Every interleaving of the lane factory's clients and background goroutines (scoped.go). */
module LaneProtocol {
  import opened LaneSections

  /** A goroutine in `acquire` is about to enter the mutex or blocked in the select; one that has a
      lane will release it; one in `Close` waits for the lanes it saw. */
  datatype Thread =
    | Acquiring(key: Key, cancelled: bool)
    | Blocked(key: Key, channel: nat, retry: bool, cancelled: bool)
    | Holding(id: nat)
    | Ended
    | CallingClose
    | AwaitingLanes(ids: set<nat>)
    | CloseReturned

  /** A `retire` goroutine of a lane, before or after `pool.Close` has returned. */
  datatype Retirer = Retirer(key: Key, poolClosed: bool)

  /** `retired` holds the lanes whose `retired` channel is closed. The history variable `accounted`
      holds the lanes present, frozen when the factory closes. */
  datatype State = State(
    pool: Pool,
    threads: map<nat, Thread>,
    retirers: map<nat, Retirer>,
    retired: set<nat>,
    accounted: set<nat>)

  datatype Step =
    | Call(t: nat, thread: Thread)
    | Cancel(t: nat)
    | Try(t: nat)
    | WakeUp(t: nat)
    | ReleaseLane(t: nat)
    | ClosePool(id: nat)
    | RemoveLane(id: nat)
    | CloseScope(t: nat)
    | CloseDone(t: nat)
    | PoolDrift(id: nat, inUse: nat, conns: nat)

  /** The select of `acquire` returns: the context is done, the captured channel is closed, or the
      retry timer, armed only for pending cleanup, fires. */
  predicate CanWake(s: State, thread: Thread)
    requires thread.Blocked?
  {
    thread.cancelled || thread.channel < s.pool.gen || thread.retry
  }

  function After(key: Key, cancelled: bool, outcome: Outcome): Thread {
    match outcome
    case Cancelled => Ended
    case ScopeClosed => Ended
    case Leased(id) => Holding(id)
    case Wait(channel, retry) => Blocked(key, channel, retry, cancelled)
  }

  function LaneKey(p: Pool, id: nat): Key {
    if id < |p.all| then p.all[id].key else ""
  }

  function Tried(s: State, t: nat): State
    requires Consistent(s.pool) && t in s.threads && s.threads[t].Acquiring?
  {
    var thread := s.threads[t];
    var (pool, outcome, victim) := Attempt(s.pool, thread.key, thread.cancelled);
    s.(pool := pool,
       threads := s.threads[t := After(thread.key, thread.cancelled, outcome)],
       retirers := if victim.None? then s.retirers
         else s.retirers[victim.value := Retirer(LaneKey(s.pool, victim.value), false)],
       accounted := if outcome.Leased? then s.accounted + {outcome.id} else s.accounted)
  }

  ghost predicate Active(p: Pool, id: nat) {
    Present(p, id) && !p.all[id].retiring
  }

  ghost function ClosedBy(s: State, t: nat): State
    requires forall k :: k in s.pool.lanes ==> s.pool.lanes[k] < |s.pool.all|
  {
    s.(pool := CloseAll(s.pool),
       threads := s.threads[t := AwaitingLanes(s.pool.lanes.Values)],
       retirers := s.retirers + map id | 0 <= id < |s.pool.all|
         && Active(s.pool, id) :: Retirer(s.pool.all[id].key, false))
  }

  function WithThread(s: State, t: nat, thread: Thread): State {
    s.(threads := s.threads[t := thread])
  }

  function Released(s: State, t: nat): State
    requires t in s.threads && s.threads[t].Holding? && s.threads[t].id < |s.pool.all|
  {
    s.(threads := s.threads[t := Ended], pool := Release(s.pool, s.threads[t].id))
  }

  function PoolClosedIn(s: State, id: nat): State
    requires id in s.retirers && id < |s.pool.all|
  {
    s.(pool := PoolClosed(s.pool, id), retirers := s.retirers[id := s.retirers[id].(poolClosed := true)])
  }

  function Removed(s: State, id: nat): State
    requires id in s.retirers
  {
    s.(pool := Remove(s.pool, s.retirers[id].key),
       retirers := s.retirers - {id},
       retired := s.retired + {id},
       accounted := if s.pool.closed then s.accounted else s.accounted - {id})
  }

  function DriftedTo(s: State, id: nat, inUse: nat, conns: nat): State
    requires id < |s.pool.all|
  {
    s.(pool := Drifted(s.pool, id, inUse, conns))
  }

  /** One step of one goroutine. The two sections that walk the map are only described on a consistent
      pool: were it ever inconsistent, anything could follow. */
  ghost predicate Next(s: State, step: Step, s': State) {
    match step
    case Call(t, thread) =>
      t !in s.threads && (thread == CallingClose || (thread.Acquiring? && !thread.cancelled))
        && s' == WithThread(s, t, thread)
    case Cancel(t) =>
      && t in s.threads && (s.threads[t].Acquiring? || s.threads[t].Blocked?)
      && s' == WithThread(s, t, s.threads[t].(cancelled := true))
    case Try(t) =>
      t in s.threads && s.threads[t].Acquiring? && (Consistent(s.pool) ==> s' == Tried(s, t))
    case WakeUp(t) =>
      && t in s.threads && s.threads[t].Blocked? && CanWake(s, s.threads[t])
      && s' == WithThread(s, t, Acquiring(s.threads[t].key, s.threads[t].cancelled))
    case ReleaseLane(t) =>
      t in s.threads && s.threads[t].Holding? && s.threads[t].id < |s.pool.all| && s' == Released(s, t)
    case ClosePool(id) =>
      id in s.retirers && !s.retirers[id].poolClosed && id < |s.pool.all| && s' == PoolClosedIn(s, id)
    case RemoveLane(id) =>
      id in s.retirers && s.retirers[id].poolClosed && s' == Removed(s, id)
    case CloseScope(t) =>
      t in s.threads && s.threads[t] == CallingClose && (Consistent(s.pool) ==> s' == ClosedBy(s, t))
    case CloseDone(t) =>
      && t in s.threads && s.threads[t].AwaitingLanes? && s.threads[t].ids <= s.retired
      && s' == WithThread(s, t, CloseReturned)
    case PoolDrift(id, inUse, conns) =>
      id < |s.pool.all| && Drift(s.pool, id, inUse, conns) && s' == DriftedTo(s, id, inUse, conns)
  }

  ghost predicate Init(s: State) {
    && s.pool.laneCap >= 1
    && s.pool.lanes == map[] && s.pool.all == [] && s.pool.order == [] && !s.pool.closed && s.pool.used == map[]
    && s.threads == map[] && s.retirers == map[] && s.retired == {} && s.accounted == {}
  }

  // ----- The invariant

  ghost function Holders(threads: map<nat, Thread>, id: nat): set<nat> {
    set t | t in threads && threads[t] == Holding(id)
  }

  /** A lane in the map is retiring exactly while one goroutine retires it; a lane outside the map has
      been retired by that goroutine, once. */
  ghost predicate RetireOk(s: State) {
    && (forall id :: id in s.retirers ==>
          Present(s.pool, id) && s.pool.all[id].retiring
          && s.retirers[id].key == s.pool.all[id].key && s.retirers[id].poolClosed == !s.pool.all[id].poolOpen)
    && (forall id :: 0 <= id < |s.pool.all| && Present(s.pool, id) && s.pool.all[id].retiring ==> id in s.retirers)
    && (forall id :: 0 <= id < |s.pool.all| && !Present(s.pool, id) ==>
          s.pool.all[id].retiring && !s.pool.all[id].poolOpen && id in s.retired)
    && (forall id :: id in s.retired ==> id < |s.pool.all| && !Present(s.pool, id))
    && (forall id :: 0 <= id < |s.pool.all| && !s.pool.all[id].retiring ==> s.pool.all[id].poolOpen)
  }

  /** Lease counts are the numbers of holders. */
  ghost predicate LeaseOk(s: State) {
    && (forall id :: 0 <= id < |s.pool.all| ==> s.pool.all[id].leases == |Holders(s.threads, id)|)
    && (forall t :: t in s.threads && s.threads[t].Holding? ==> s.threads[t].id < |s.pool.all|)
  }

  /** Until Close is called only unleased, clean lanes retire; afterwards every lane does. */
  ghost predicate CloseOk(s: State) {
    && (!s.pool.closed ==> forall id :: 0 <= id < |s.pool.all| && s.pool.all[id].retiring ==>
          s.pool.all[id].leases == 0 && s.pool.all[id].inUse == 0)
    && (s.pool.closed ==> forall id :: 0 <= id < |s.pool.all| ==> s.pool.all[id].retiring)
    && (forall t :: t in s.threads && s.threads[t].AwaitingLanes? ==>
          s.pool.closed
          && (forall k :: k in s.pool.lanes ==> s.pool.lanes[k] in s.threads[t].ids)
          && (forall id :: id in s.threads[t].ids ==> id in s.retired || Present(s.pool, id)))
    && (forall t :: t in s.threads && s.threads[t] == CloseReturned ==> s.pool.closed && s.pool.lanes == map[])
  }

  /** A lane that will notify: someone holds it, or a goroutine is retiring it. */
  ghost predicate WillNotify(p: Pool, id: nat) {
    Present(p, id) && (p.all[id].retiring || p.all[id].leases > 0)
  }

  ghost predicate WaitOk(s: State) {
    forall t :: t in s.threads && s.threads[t].Blocked? ==>
      && s.threads[t].channel <= s.pool.gen
      && (s.threads[t].channel == s.pool.gen && !s.threads[t].retry ==> exists id :: WillNotify(s.pool, id))
  }

  /** Only accounted lanes have open sockets. */
  ghost predicate SocketsOk(s: State) {
    forall id :: 0 <= id < |s.pool.all| ==>
      && s.pool.all[id].inUse <= s.pool.all[id].conns <= s.pool.perLaneMax
      && (!s.pool.all[id].poolOpen ==> s.pool.all[id].conns == s.pool.all[id].inUse)
      && (s.pool.all[id].conns > 0 ==> id in s.accounted)
  }

  /** At most `laneCap` lanes are accounted. */
  ghost predicate AccountedOk(s: State) {
    && (forall id :: Present(s.pool, id) ==> id in s.accounted)
    && |s.accounted| <= s.pool.laneCap
    && (!s.pool.closed ==> |s.accounted| == |s.pool.lanes| && forall id :: id in s.accounted <==> Present(s.pool, id))
  }

  ghost predicate ConnOk(s: State) {
    SocketsOk(s) && AccountedOk(s)
  }

  ghost predicate Inv(s: State) {
    && s.pool.laneCap >= 1
    && Consistent(s.pool)
    && RetireOk(s) && LeaseOk(s) && CloseOk(s) && WaitOk(s) && ConnOk(s)
  }

  lemma HoldersAfter(threads: map<nat, Thread>, t: nat, thread: Thread, id: nat)
    ensures Holders(threads[t := thread], id)
            == Holders(threads, id) - {t} + (if thread == Holding(id) then {t} else {})
  {
  }

  lemma HoldersSteady(threads: map<nat, Thread>, t: nat, thread: Thread)
    requires t in threads ==> !threads[t].Holding?
    requires !thread.Holding?
    ensures forall id :: Holders(threads[t := thread], id) == Holders(threads, id)
  {
    forall id ensures Holders(threads[t := thread], id) == Holders(threads, id) {
      HoldersAfter(threads, t, thread, id);
      assert t !in Holders(threads, id);
    }
  }

  lemma InitInv(s: State)
    requires Init(s)
    ensures Inv(s)
  {
  }

  // ----- Every step keeps it

  /** Steps that change one thread and nothing else. */
  lemma ThreadStepInv(s: State, t: nat, thread: Thread)
    requires Inv(s)
    requires t in s.threads ==> !s.threads[t].Holding?
    requires thread.Acquiring? || thread == CallingClose || thread == Ended
             || (thread.Blocked? && t in s.threads && s.threads[t].Blocked? && thread.channel == s.threads[t].channel
                 && thread.retry == s.threads[t].retry)
    ensures Inv(WithThread(s, t, thread))
  {
    var s' := s.(threads := s.threads[t := thread]);
    hide Consistent, RetireOk, ConnOk, Present;
    assert LeaseOk(s') by {
      hide CloseOk, WaitOk;
      HoldersSteady(s.threads, t, thread);
      hide Holders;
    }
    assert CloseOk(s') by { hide LeaseOk, WaitOk; }
    assert WaitOk(s') by { hide LeaseOk, CloseOk; }
    assert RetireOk(s') by { RetireFrame(s, s'); }
    assert ConnOk(s') by { ConnFrame(s, s'); }
  }

  lemma RetireFrame(s: State, s': State)
    requires RetireOk(s) && s'.pool == s.pool && s'.retirers == s.retirers && s'.retired == s.retired
    ensures RetireOk(s')
  {
  }

  lemma ConnFrame(s: State, s': State)
    requires ConnOk(s) && s'.pool == s.pool && s'.accounted == s.accounted
    ensures ConnOk(s')
  {
  }

  lemma CloseDoneInv(s: State, t: nat)
    requires Inv(s) && t in s.threads && s.threads[t].AwaitingLanes? && s.threads[t].ids <= s.retired
    ensures Inv(WithThread(s, t, CloseReturned))
  {
    HoldersSteady(s.threads, t, CloseReturned);
    forall k | k in s.pool.lanes ensures false {
      assert s.pool.lanes[k] in s.threads[t].ids;
      assert Present(s.pool, s.pool.lanes[k]);
    }
  }
}

/** What the lane factory guarantees over every run, however its goroutines interleave (scoped.go). */
module LaneRuns {
  import opened Basics
  import opened LaneSections
  import opened LaneProtocol
  import opened LaneSteps
  import opened PoolBudget

  ghost predicate IsRun(states: seq<State>, steps: seq<Step>) {
    && |states| == |steps| + 1
    && Init(states[0])
    && forall i :: 0 <= i < |steps| ==> Next(states[i], steps[i], states[i + 1])
  }

  lemma RunStep(states: seq<State>, steps: seq<Step>, i: nat)
    requires IsRun(states, steps) && i < |steps|
    ensures Next(states[i], steps[i], states[i + 1])
  {
    hide Next, Init;
  }

  lemma CancelInv(s: State, t: nat)
    requires Inv(s) && t in s.threads && (s.threads[t].Acquiring? || s.threads[t].Blocked?)
    ensures Inv(WithThread(s, t, s.threads[t].(cancelled := true)))
  {
    hide Inv, WithThread;
    ThreadStepInv(s, t, s.threads[t].(cancelled := true));
  }

  lemma NextInv(s: State, step: Step, s': State)
    requires Inv(s) && Next(s, step, s')
    ensures Inv(s')
  {
    hide Inv, Consistent, Drift, CanWake, Tried, ClosedBy, WithThread, Released, PoolClosedIn, Removed, DriftedTo;
    InvConsistent(s);
    match step
    case Call(t, thread) => ThreadStepInv(s, t, thread);
    case Cancel(t) => CancelInv(s, t);
    case Try(t) => TryInv(s, t);
    case WakeUp(t) => ThreadStepInv(s, t, Acquiring(s.threads[t].key, s.threads[t].cancelled));
    case ReleaseLane(t) => ReleaseInv(s, t);
    case ClosePool(id) => ClosePoolInv(s, id);
    case RemoveLane(id) => RemoveInv(s, id);
    case CloseScope(t) => CloseScopeInv(s, t);
    case CloseDone(t) => CloseDoneInv(s, t);
    case PoolDrift(id, inUse, conns) => DriftInv(s, id, inUse, conns);
  }

  lemma {:induction false} RunInv(states: seq<State>, steps: seq<Step>, i: nat)
    requires IsRun(states, steps) && i < |states|
    ensures Inv(states[i])
  {
    hide Inv, Next, Init;
    if i == 0 {
      InitInv(states[0]);
    } else {
      RunInv(states, steps, i - 1);
      NextInv(states[i - 1], steps[i - 1], states[i]);
    }
  }

  // ----- What only grows

  /** Nothing that was ever said is taken back: closed channels, retired lanes and Close stay, lanes keep
      their keys, and the plan is fixed. */
  ghost predicate Evolves(s: State, s': State) {
    && s'.pool.laneCap == s.pool.laneCap && s'.pool.perLaneMax == s.pool.perLaneMax
    && s.pool.gen <= s'.pool.gen && (s.pool.closed ==> s'.pool.closed)
    && s.retired <= s'.retired
    && |s.pool.all| <= |s'.pool.all|
    && forall i :: 0 <= i < |s.pool.all| ==> s'.pool.all[i].key == s.pool.all[i].key
  }

  lemma TryEvolves(s: State, t: nat)
    requires Consistent(s.pool) && t in s.threads && s.threads[t].Acquiring?
    ensures Evolves(s, Tried(s, t))
  {
    hide ByUse, Victim, Touch;
  }

  lemma CloseEvolves(s: State, t: nat)
    requires Consistent(s.pool)
    ensures Evolves(s, ClosedBy(s, t))
  {
    CloseRetiresPresent(s.pool);
    hide Present, ByUse;
  }

  lemma ThreadEvolves(s: State, t: nat, thread: Thread)
    ensures Evolves(s, WithThread(s, t, thread))
  {
  }

  lemma ReleaseEvolves(s: State, t: nat)
    requires t in s.threads && s.threads[t].Holding? && s.threads[t].id < |s.pool.all|
    ensures Evolves(s, Released(s, t))
  {
  }

  lemma PoolClosedEvolves(s: State, id: nat)
    requires id in s.retirers && id < |s.pool.all|
    ensures Evolves(s, PoolClosedIn(s, id))
  {
  }

  lemma RemovedEvolves(s: State, id: nat)
    requires id in s.retirers
    ensures Evolves(s, Removed(s, id))
  {
    hide Without;
  }

  lemma DriftEvolves(s: State, id: nat, inUse: nat, conns: nat)
    requires id < |s.pool.all|
    ensures Evolves(s, DriftedTo(s, id, inUse, conns))
  {
  }

  lemma StepEvolves(s: State, step: Step, s': State)
    requires Inv(s) && Next(s, step, s')
    ensures Evolves(s, s')
  {
    hide Inv, Consistent, Evolves, Drift, CanWake, Tried, ClosedBy, WithThread, Released, PoolClosedIn, Removed,
         DriftedTo;
    InvConsistent(s);
    match step
    case Call(t, thread) => ThreadEvolves(s, t, thread);
    case Cancel(t) => ThreadEvolves(s, t, s.threads[t].(cancelled := true));
    case Try(t) => TryEvolves(s, t);
    case WakeUp(t) => ThreadEvolves(s, t, Acquiring(s.threads[t].key, s.threads[t].cancelled));
    case ReleaseLane(t) => ReleaseEvolves(s, t);
    case ClosePool(id) => PoolClosedEvolves(s, id);
    case RemoveLane(id) => RemovedEvolves(s, id);
    case CloseScope(t) => CloseEvolves(s, t);
    case CloseDone(t) => ThreadEvolves(s, t, CloseReturned);
    case PoolDrift(id, inUse, conns) => DriftEvolves(s, id, inUse, conns);
  }

  lemma {:induction false} RunEvolves(states: seq<State>, steps: seq<Step>, i: nat, j: nat)
    requires IsRun(states, steps) && i <= j < |states|
    ensures Evolves(states[i], states[j])
  {
    hide Inv, Next, Init;
    if i < j {
      RunEvolves(states, steps, i, j - 1);
      RunInv(states, steps, j - 1);
      StepEvolves(states[j - 1], steps[j - 1], states[j]);
    }
  }

  // ----- The use order

  /** Through every touch, eviction and retirement the use order lists the map's keys, each exactly once,
      least recently used first. */
  lemma OrderListsKeys(states: seq<State>, steps: seq<Step>, i: nat)
    requires IsRun(states, steps) && i < |states|
    ensures var p := states[i].pool;
            && (forall k :: k in p.order <==> k in p.lanes) && |p.order| == |p.lanes|
            && (forall a, b :: 0 <= a < b < |p.order| ==> p.order[a] != p.order[b])
            && ByUse(p.order, p.used)
  {
    RunInv(states, steps, i);
    var p := states[i].pool;
    hide IsRun, RetireOk, LeaseOk, CloseOk, WaitOk, ConnOk;
    forall a, b | 0 <= a < b < |p.order| ensures p.order[a] != p.order[b] {
      assert p.used[p.order[a]] < p.used[p.order[b]];
    }
    OrderSize(p.order, p.lanes.Keys);
  }

  lemma {:induction false} OrderSize(order: seq<Key>, keys: set<Key>)
    requires forall k :: k in order <==> k in keys
    requires forall a, b :: 0 <= a < b < |order| ==> order[a] != order[b]
    ensures |order| == |keys|
    decreases |order|
  {
    if order == [] {
      assert keys == {};
    } else {
      assert order == [order[0]] + order[1..];
      OrderSize(order[1..], keys - {order[0]});
    }
  }

  // ----- Lease safety

  /** Until Close is called, a lane that someone holds is in the map under its own key, not retiring, its
      pool open; no lease count is ever negative, and each is the number of holders. */
  lemma LeaseSafety(states: seq<State>, steps: seq<Step>, i: nat)
    requires IsRun(states, steps) && i < |states|
    ensures var s := states[i];
            && (forall t :: t in s.threads && s.threads[t].Holding? ==>
                  var id := s.threads[t].id;
                  && id < |s.pool.all| && s.pool.all[id].leases >= 1
                  && (!s.pool.closed ==>
                        Present(s.pool, id) && !s.pool.all[id].retiring && s.pool.all[id].poolOpen && id !in s.retired))
            && forall id :: 0 <= id < |s.pool.all| ==> s.pool.all[id].leases == |Holders(s.threads, id)|
  {
    RunInv(states, steps, i);
    var s := states[i];
    hide IsRun, WaitOk, ConnOk, Consistent;
    forall t | t in s.threads && s.threads[t].Holding?
      ensures var id := s.threads[t].id;
              && id < |s.pool.all| && s.pool.all[id].leases >= 1
              && (!s.pool.closed ==>
                    Present(s.pool, id) && !s.pool.all[id].retiring && s.pool.all[id].poolOpen && id !in s.retired)
    {
      HeldLane(s, t);
    }
  }

  lemma HeldLane(s: State, t: nat)
    requires RetireOk(s) && LeaseOk(s) && CloseOk(s) && t in s.threads && s.threads[t].Holding?
    ensures s.threads[t].id < |s.pool.all| && s.pool.all[s.threads[t].id].leases >= 1
    ensures !s.pool.closed ==> Present(s.pool, s.threads[t].id) && !s.pool.all[s.threads[t].id].retiring
                               && s.pool.all[s.threads[t].id].poolOpen && s.threads[t].id !in s.retired
  {
    assert t in Holders(s.threads, s.threads[t].id);
    hide Present;
  }

  /** A caller is only ever given the lane of the key it asked for, and that lane's key never changes. */
  lemma CallersGetTheirLane(states: seq<State>, steps: seq<Step>, i: nat, j: nat, t: nat)
    requires IsRun(states, steps) && i < |steps| && i < j < |states|
    requires steps[i] == Try(t) && t in states[i + 1].threads && states[i + 1].threads[t].Holding?
    ensures t in states[i].threads && states[i].threads[t].Acquiring?
    ensures states[i + 1].threads[t].id < |states[j].pool.all|
    ensures states[j].pool.all[states[i + 1].threads[t].id].key == states[i].threads[t].key
  {
    RunInv(states, steps, i);
    RunEvolves(states, steps, i + 1, j);
    assert Next(states[i], steps[i], states[i + 1]);
    hide IsRun, Init, Next, RetireOk, LeaseOk, CloseOk, WaitOk, ConnOk;
    TryGivesOwnLane(states[i], t);
  }

  lemma TryGivesOwnLane(s: State, t: nat)
    requires Consistent(s.pool) && t in s.threads && s.threads[t].Acquiring? && Tried(s, t).threads[t].Holding?
    ensures var s' := Tried(s, t);
            s'.threads[t].id < |s'.pool.all| && s'.pool.all[s'.threads[t].id].key == s.threads[t].key
  {
    hide ByUse, Victim, Touch;
  }

  lemma RemovalRecorded(states: seq<State>, steps: seq<Step>, j: nat, id: nat)
    requires IsRun(states, steps) && j < |steps|
    ensures steps[j] == RemoveLane(id) ==> id in states[j + 1].retired
  {
    RunStep(states, steps, j);
    hide IsRun;
  }

  lemma RemoverRetires(s: State, id: nat, s': State)
    requires Inv(s) && Next(s, RemoveLane(id), s')
    ensures id in s.retirers && s.retirers[id].key in s.pool.lanes && s.pool.lanes[s.retirers[id].key] == id
    ensures id !in s.retired
  {
    hide LeaseOk, CloseOk, WaitOk, ConnOk, Consistent, Present;
    RemoveTakesItsLane(s, id);
  }

  /** A lane retires once: its `retired` channel is never closed twice, and the map entry taken away with
      it is its own. */
  lemma RetiredOnce(states: seq<State>, steps: seq<Step>, i: nat, id: nat)
    requires IsRun(states, steps) && i < |steps| && steps[i] == RemoveLane(id)
    ensures id in states[i].retirers && states[i].retirers[id].key in states[i].pool.lanes
    ensures states[i].pool.lanes[states[i].retirers[id].key] == id
    ensures forall j :: 0 <= j < i ==> steps[j] != RemoveLane(id)
  {
    hide Next, Inv, Init;
    RunInv(states, steps, i);
    RunStep(states, steps, i);
    RemoverRetires(states[i], id, states[i + 1]);
    forall j | 0 <= j < i ensures steps[j] != RemoveLane(id) {
      RemovalRecorded(states, steps, j, id);
      RunEvolves(states, steps, j + 1, i);
    }
  }

  // ----- No lost wakeup

  predicate Notifies(step: Step) {
    step.ReleaseLane? || step.RemoveLane? || step.CloseScope?
  }

  /** The caller, holder or closer whose step it is. */
  function Actor(step: Step): Option<nat> {
    match step
    case Call(t, _) => Some(t)
    case Cancel(t) => Some(t)
    case Try(t) => Some(t)
    case WakeUp(t) => Some(t)
    case ReleaseLane(t) => Some(t)
    case CloseScope(t) => Some(t)
    case CloseDone(t) => Some(t)
    case _ => None
  }

  /** A step leaves every thread but its own alone. */
  lemma OthersStay(s: State, step: Step, s': State, t: nat)
    requires Consistent(s.pool) && Next(s, step, s') && t in s.threads && Actor(step) != Some(t)
    ensures t in s'.threads && s'.threads[t] == s.threads[t]
  {
    hide Consistent, Attempt, Drift, CanWake, Release, PoolClosed, Remove, CloseAll, Drifted;
  }

  lemma NotificationsCount(s: State, step: Step, s': State)
    requires Consistent(s.pool) && Next(s, step, s') && Notifies(step)
    ensures s.pool.gen < s'.pool.gen
  {
    hide Consistent, Tried, Drift, CanWake, Without;
  }

  /** A blocked caller stays blocked on its channel until it wakes up itself. */
  lemma BlockedStays(s: State, step: Step, s': State, t: nat)
    requires Inv(s) && Next(s, step, s') && step != WakeUp(t)
    requires t in s.threads && s.threads[t].Blocked?
    ensures t in s'.threads && s'.threads[t].Blocked? && s'.threads[t].channel == s.threads[t].channel
    ensures s.pool.gen <= s'.pool.gen && (Notifies(step) ==> s.pool.gen < s'.pool.gen)
    ensures s.threads[t].cancelled ==> s'.threads[t].cancelled
  {
    hide Inv, Consistent, Tried, Drift, CanWake, ClosedBy, Released, PoolClosedIn, Removed, DriftedTo;
    InvConsistent(s);
    StepEvolves(s, step, s');
    if Notifies(step) { NotificationsCount(s, step, s'); }
    if step != Cancel(t) { OthersStay(s, step, s', t); }
  }

  /** A notification after a caller has captured its channel is never lost: the caller can wake up, at
      once and at any later time, until it does. */
  lemma {:induction false} NoLostWakeup(states: seq<State>, steps: seq<Step>, i: nat, k: nat, j: nat, t: nat)
    requires IsRun(states, steps) && i <= k < j < |states|
    requires t in states[i].threads && states[i].threads[t].Blocked?
    requires Notifies(steps[k]) && forall m :: i <= m < j ==> steps[m] != WakeUp(t)
    ensures t in states[j].threads && states[j].threads[t].Blocked? && CanWake(states[j], states[j].threads[t])
  {
    WaitsOn(states, steps, i, k, t);
    WaitsOn(states, steps, i, k + 1, t);
    WaitsOn(states, steps, k + 1, j, t);
    RunInv(states, steps, k);
    assert Next(states[k], steps[k], states[k + 1]);
    BlockedStays(states[k], steps[k], states[k + 1], t);
    assert states[k].threads[t].channel <= states[k].pool.gen by {
      hide IsRun, Next, RetireOk, LeaseOk, CloseOk, ConnOk, Consistent;
    }
    RunEvolves(states, steps, k + 1, j);
  }

  lemma {:induction false} WaitsOn(states: seq<State>, steps: seq<Step>, i: nat, j: nat, t: nat)
    requires IsRun(states, steps) && i <= j < |states| == |steps| + 1
    requires t in states[i].threads && states[i].threads[t].Blocked?
    requires forall m :: i <= m < j ==> steps[m] != WakeUp(t)
    ensures t in states[j].threads && states[j].threads[t].Blocked?
    ensures states[j].threads[t].channel == states[i].threads[t].channel
  {
    hide Inv, Next, IsRun, CanWake;
    if i < j {
      WaitsOn(states, steps, i, j - 1, t);
      RunInv(states, steps, j - 1);
      RunStep(states, steps, j - 1);
      BlockedStays(states[j - 1], steps[j - 1], states[j], t);
    }
  }

  /** Whoever is blocked has captured the channel that was current at its last try, and only a notification
      replaces it. */
  ghost predicate CapturedAt(states: seq<State>, steps: seq<Step>, i: nat, j: nat, t: nat)
    requires |states| == |steps| + 1 && i < j < |states|
  {
    steps[i] == Try(t) && forall m :: i < m < j ==> steps[m] != WakeUp(t) && steps[m] != Try(t)
  }

  lemma TryCaptures(s: State, t: nat)
    requires Consistent(s.pool) && t in s.threads && s.threads[t].Acquiring?
    ensures var s' := Tried(s, t);
            s'.pool.gen == s.pool.gen && t in s'.threads
            && (s'.threads[t].Blocked? ==> s'.threads[t].channel == s.pool.gen)
  {
    hide ByUse, Victim, Touch;
  }

  lemma QuietSteps(s: State, step: Step, s': State)
    requires Consistent(s.pool) && Next(s, step, s') && !Notifies(step)
    ensures s'.pool.gen == s.pool.gen
  {
    if step.Try? { TryCaptures(s, step.t); }
    hide Consistent, Tried, Drift, CanWake;
  }

  lemma {:induction false} GenerationStays(states: seq<State>, steps: seq<Step>, i: nat, j: nat)
    requires IsRun(states, steps) && i <= j < |states| && forall m :: i <= m < j ==> !Notifies(steps[m])
    ensures states[j].pool.gen == states[i].pool.gen
  {
    hide Init, Next, Inv, Consistent;
    if i < j {
      GenerationStays(states, steps, i, j - 1);
      RunInv(states, steps, j - 1);
      InvConsistent(states[j - 1]);
      QuietSteps(states[j - 1], steps[j - 1], states[j]);
    }
  }

  /** Nobody wakes up for nothing: between the try that blocked a caller and its wakeup there is a notification,
      unless the caller is cancelled or waits with the retry timer. */
  lemma WakesForACause(states: seq<State>, steps: seq<Step>, i: nat, j: nat, t: nat)
    requires IsRun(states, steps) && i < j < |steps| && CapturedAt(states, steps, i, j, t) && steps[j] == WakeUp(t)
    ensures t in states[j].threads && states[j].threads[t].Blocked?
    ensures states[j].threads[t].cancelled || states[j].threads[t].retry || exists k :: i < k < j && Notifies(steps[k])
  {
    RunInv(states, steps, i);
    InvConsistent(states[i]);
    RunStep(states, steps, i);
    RunStep(states, steps, j);
    assert t in states[i].threads && states[i].threads[t].Acquiring? && states[i + 1] == Tried(states[i], t);
    assert t in states[j].threads && states[j].threads[t].Blocked? && CanWake(states[j], states[j].threads[t]);
    TryCaptures(states[i], t);
    hide IsRun, Inv, Consistent, Next, Tried;
    if forall k :: i < k < j ==> !Notifies(steps[k]) {
      GenerationStays(states, steps, i + 1, j);
      StaysBlocked(states, steps, i + 1, j, t);
    }
  }

  lemma OthersWere(s: State, step: Step, s': State, t: nat)
    requires Consistent(s.pool) && Next(s, step, s') && Actor(step) != Some(t) && t in s'.threads
    ensures t in s.threads && s.threads[t] == s'.threads[t]
  {
    hide Consistent, Attempt, Drift, CanWake, Release, PoolClosed, Remove, CloseAll, Drifted;
  }

  lemma WasBlocked(s: State, step: Step, s': State, t: nat)
    requires Inv(s) && Next(s, step, s') && step != Try(t)
    requires t in s'.threads && s'.threads[t].Blocked?
    ensures t in s.threads && s.threads[t].Blocked? && s.threads[t].channel == s'.threads[t].channel
  {
    InvConsistent(s);
    hide Inv, Consistent, Attempt, Drift, CanWake, ClosedBy, Released, PoolClosedIn, Removed, DriftedTo;
    if Actor(step) == Some(t) {
      hide Tried;
    } else {
      OthersWere(s, step, s', t);
    }
  }

  /** A caller blocked now has been blocked on the same channel since its last try. */
  lemma {:induction false} StaysBlocked(states: seq<State>, steps: seq<Step>, i: nat, j: nat, t: nat)
    requires IsRun(states, steps) && i <= j < |states| && forall m :: i <= m < j ==> steps[m] != Try(t)
    requires t in states[j].threads && states[j].threads[t].Blocked?
    ensures t in states[i].threads && states[i].threads[t].Blocked?
    ensures states[i].threads[t].channel == states[j].threads[t].channel
    decreases j
  {
    hide Init, Next, Inv;
    if i < j {
      RunInv(states, steps, j - 1);
      WasBlocked(states[j - 1], steps[j - 1], states[j], t);
      StaysBlocked(states, steps, i, j - 1, t);
    }
  }

  // ----- No stuck waiter

  ghost predicate Path(s: State, steps: seq<Step>, s': State)
    decreases |steps|
  {
    if steps == [] then s' == s else exists m :: Next(s, steps[0], m) && Path(m, steps[1..], s')
  }

  lemma Prepend(s: State, step: Step, m: State, path: seq<Step>, s': State)
    requires Next(s, step, m) && Path(m, path, s')
    ensures Path(s, [step] + path, s')
  {
    hide Next;
    var longer := [step] + path;
    assert longer[1..] == path;
    assert Next(s, longer[0], m) && Path(m, longer[1..], s');
  }

  lemma OneStep(s: State, step: Step, s': State)
    requires Next(s, step, s')
    ensures Path(s, [step], s')
  {
    Prepend(s, step, s', [], s');
    assert [step] + [] == [step];
  }

  ghost predicate Woken(s: State, t: nat) {
    t in s.threads && s.threads[t].Blocked? && CanWake(s, s.threads[t])
  }

  /** Whoever cannot wake up yet waits for somebody: a holder of some lane, whose release wakes it, or a
      goroutine retiring one, which needs at most two steps of its own. */
  lemma NoStuckWaiter(states: seq<State>, steps: seq<Step>, i: nat, t: nat)
    requires IsRun(states, steps) && i < |states|
    requires t in states[i].threads && states[i].threads[t].Blocked? && !CanWake(states[i], states[i].threads[t])
    ensures exists path, s' ::
              && Path(states[i], path, s') && Woken(s', t)
              && ((exists h :: path == [ReleaseLane(h)])
                  || exists id :: path == [RemoveLane(id)] || path == [ClosePool(id), RemoveLane(id)])
  {
    hide IsRun, Inv, Woken, Path;
    var s := states[i];
    RunInv(states, steps, i);
    var id := AwaitedLane(s, t);
    if id in s.retirers {
      RetirementWakes(s, t, id);
    } else {
      var h :| h in Holders(s.threads, id);
      var s' := ReleaseWakes(s, t, h);
    }
  }

  lemma AwaitedLane(s: State, t: nat) returns (id: nat)
    requires Inv(s) && t in s.threads && s.threads[t].Blocked? && !CanWake(s, s.threads[t])
    ensures id in s.retirers || Holders(s.threads, id) != {}
  {
    hide Consistent, ConnOk, CloseOk, Holders;
    id :| WillNotify(s.pool, id);
    PresentInRange(s.pool, id);
  }

  lemma ReleaseIsStep(s: State, h: nat)
    requires h in s.threads && s.threads[h].Holding? && s.threads[h].id < |s.pool.all|
    ensures Next(s, ReleaseLane(h), Released(s, h))
  {
    hide Tried, ClosedBy, Drift, Consistent;
  }

  lemma ClosePoolIsStep(s: State, id: nat)
    requires id in s.retirers && !s.retirers[id].poolClosed && id < |s.pool.all|
    ensures Next(s, ClosePool(id), PoolClosedIn(s, id))
  {
    hide Tried, ClosedBy, Drift, Consistent;
  }

  lemma RemoveIsStep(s: State, id: nat)
    requires id in s.retirers && s.retirers[id].poolClosed
    ensures Next(s, RemoveLane(id), Removed(s, id))
  {
    hide Tried, ClosedBy, Drift, Consistent;
  }

  lemma ReleaseWakes(s: State, t: nat, h: nat) returns (s': State)
    requires Inv(s) && t in s.threads && s.threads[t].Blocked? && h in s.threads && s.threads[h].Holding?
    ensures Path(s, [ReleaseLane(h)], s') && Woken(s', t)
  {
    hide Inv, Path, Next;
    ReleaseInv(s, h);
    ChannelKnown(s, t);
    s' := Released(s, h);
    ReleaseIsStep(s, h);
    OneStep(s, ReleaseLane(h), s');
  }

  lemma ChannelKnown(s: State, t: nat)
    requires Inv(s) && t in s.threads && s.threads[t].Blocked?
    ensures s.threads[t].channel <= s.pool.gen
  {
    hide RetireOk, LeaseOk, CloseOk, ConnOk, Consistent;
  }

  lemma RemovalWakes(s: State, t: nat, id: nat) returns (s': State)
    requires Inv(s) && t in s.threads && s.threads[t].Blocked? && id in s.retirers && s.retirers[id].poolClosed
    ensures Path(s, [RemoveLane(id)], s') && Woken(s', t)
  {
    hide Inv, Path, Next;
    ChannelKnown(s, t);
    s' := Removed(s, id);
    RemoveIsStep(s, id);
    OneStep(s, RemoveLane(id), s');
  }

  lemma RetirementWakes(s: State, t: nat, id: nat)
    requires Inv(s) && t in s.threads && s.threads[t].Blocked? && id in s.retirers
    ensures exists path, s' ::
              Path(s, path, s') && Woken(s', t) && (path == [RemoveLane(id)] || path == [ClosePool(id), RemoveLane(id)])
  {
    hide Inv, Path, Woken, Next;
    if s.retirers[id].poolClosed {
      var s' := RemovalWakes(s, t, id);
    } else {
      ClosePoolInv(s, id);
      var m := PoolClosedIn(s, id);
      ClosePoolIsStep(s, id);
      var s' := RemovalWakes(m, t, id);
      Prepend(s, ClosePool(id), m, [RemoveLane(id)], s');
      assert [ClosePool(id)] + [RemoveLane(id)] == [ClosePool(id), RemoveLane(id)];
    }
  }

  // ----- Close

  /** Once Close has returned, every later state has an empty map and refuses whoever tries to acquire. */
  lemma ClosedForGood(states: seq<State>, steps: seq<Step>, i: nat, j: nat, c: nat)
    requires IsRun(states, steps) && i <= j < |states|
    requires Returned(states[i], c)
    ensures states[j].pool.closed && states[j].pool.lanes == map[]
    ensures j < |steps| && steps[j].Try? ==>
              var t := steps[j].t;
              t in states[j + 1].threads && states[j + 1].threads[t] == Ended && states[j + 1].pool == states[j].pool
  {
    ReturnedStays(states, steps, i, j, c);
    RunInv(states, steps, j);
    assert states[j].pool.closed && states[j].pool.lanes == map[] by {
      hide IsRun, Consistent, RetireOk, LeaseOk, WaitOk, ConnOk;
    }
    if j < |steps| && steps[j].Try? {
      assert Next(states[j], steps[j], states[j + 1]);
      InvConsistent(states[j]);
      hide IsRun, Inv, Consistent, Victim;
    }
  }

  lemma ReturnedStep(s: State, step: Step, s': State, c: nat)
    requires Inv(s) && Next(s, step, s') && Returned(s, c)
    ensures Returned(s', c)
  {
    InvConsistent(s);
    hide Inv, Consistent, Tried, Drift, CanWake, ClosedBy, Released, PoolClosedIn, Removed, DriftedTo, WithThread;
    OthersStay(s, step, s', c);
  }

  predicate Returned(s: State, c: nat) {
    c in s.threads && s.threads[c] == CloseReturned
  }

  lemma {:induction false} ReturnedStays(states: seq<State>, steps: seq<Step>, i: nat, j: nat, c: nat)
    requires IsRun(states, steps) && i <= j < |states| == |steps| + 1 && Returned(states[i], c)
    ensures Returned(states[j], c)
  {
    hide IsRun, Inv, Next, Returned;
    if i < j {
      ReturnedStays(states, steps, i, j - 1, c);
      RunInv(states, steps, j - 1);
      RunStep(states, steps, j - 1);
      ReturnedStep(states[j - 1], steps[j - 1], states[j], c);
    }
  }

  /** A call of Close is never stuck: after its own section the retiring goroutines alone, two steps each, bring
      it to return. */
  lemma NoStuckClose(states: seq<State>, steps: seq<Step>, i: nat, c: nat)
    requires IsRun(states, steps) && i < |states|
    requires c in states[i].threads && (states[i].threads[c] == CallingClose || states[i].threads[c].AwaitingLanes?)
    ensures exists path: seq<Step>, s': State ::
              && Path(states[i], path, s') && Returned(s', c)
              && forall k :: 0 <= k < |path| - 1 ==>
                   path[k].ClosePool? || path[k].RemoveLane? || (k == 0 && path[k] == CloseScope(c))
  {
    RunInv(states, steps, i);
    hide IsRun, Inv, Path, Next, ClosedBy, Returned;
    if states[i].threads[c] == CallingClose {
      var path, s' := CloseFromCall(states[i], c);
    } else {
      var path, s' := CloseFinishes(states[i], c);
    }
  }

  lemma CloseFromCall(s: State, c: nat) returns (path: seq<Step>, s': State)
    requires Inv(s) && c in s.threads && s.threads[c] == CallingClose
    ensures Path(s, path, s') && Returned(s', c) && path != [] && path[0] == CloseScope(c)
    ensures forall k :: 1 <= k < |path| - 1 ==> path[k].ClosePool? || path[k].RemoveLane?
  {
    hide Inv, Path, Next, ClosedBy, Returned;
    CloseIsStep(s, c);
    var m := ClosedBy(s, c);
    CloseScopeInv(s, c);
    var rest;
    rest, s' := CloseFinishes(m, c);
    Prepend(s, CloseScope(c), m, rest, s');
    path := [CloseScope(c)] + rest;
  }

  lemma CloseIsStep(s: State, c: nat)
    requires Inv(s) && c in s.threads && s.threads[c] == CallingClose
    ensures forall k :: k in s.pool.lanes ==> s.pool.lanes[k] < |s.pool.all|
    ensures Next(s, CloseScope(c), ClosedBy(s, c))
    ensures c in ClosedBy(s, c).threads && ClosedBy(s, c).threads[c].AwaitingLanes?
  {
    hide Inv, Consistent, Tried, Drift, CanWake, ClosedBy;
    MappedInRange(s.pool) by { InvConsistent(s); }
    CloserAwaits(s, c);
  }

  lemma CloserAwaits(s: State, c: nat)
    requires forall k :: k in s.pool.lanes ==> s.pool.lanes[k] < |s.pool.all|
    ensures c in ClosedBy(s, c).threads && ClosedBy(s, c).threads[c] == AwaitingLanes(s.pool.lanes.Values)
  {
    hide CloseAll, Active;
  }

  lemma MappedInRange(p: Pool)
    requires Consistent(p)
    ensures forall k :: k in p.lanes ==> p.lanes[k] < |p.all|
  {
  }

  lemma CloseDoneIsStep(s: State, c: nat)
    requires c in s.threads && s.threads[c].AwaitingLanes? && s.threads[c].ids <= s.retired
    ensures Next(s, CloseDone(c), WithThread(s, c, CloseReturned))
  {
    hide Tried, ClosedBy, Drift, Consistent;
  }

  lemma AwaitedRetires(s: State, c: nat, id: nat)
    requires Inv(s) && c in s.threads && s.threads[c].AwaitingLanes? && id in s.threads[c].ids && id !in s.retired
    ensures id in s.retirers
  {
    hide Consistent, LeaseOk, WaitOk, ConnOk;
    PresentInRange(s.pool, id);
    hide Present;
  }

  ghost function OpenRetirers(s: State): set<nat> {
    set id | id in s.retirers && !s.retirers[id].poolClosed
  }

  lemma {:induction false} CloseFinishes(s: State, c: nat) returns (path: seq<Step>, s': State)
    requires Inv(s) && c in s.threads && s.threads[c].AwaitingLanes?
    ensures Path(s, path, s') && Returned(s', c)
    ensures forall k :: 0 <= k < |path| - 1 ==> path[k].ClosePool? || path[k].RemoveLane?
    ensures path != []
    decreases |s.threads[c].ids - s.retired|, |OpenRetirers(s)|
  {
    hide Inv, Path, Next;
    var ids := s.threads[c].ids;
    if ids <= s.retired {
      s' := WithThread(s, c, CloseReturned);
      CloseDoneIsStep(s, c);
      OneStep(s, CloseDone(c), s');
      path := [CloseDone(c)];
    } else {
      var id: nat :| id in ids && id !in s.retired;
      AwaitedRetires(s, c, id);
      var step, m;
      if s.retirers[id].poolClosed {
        step, m := RemoveLane(id), Removed(s, id);
        RemoveInv(s, id);
        RemoveIsStep(s, id);
        assert ids - m.retired < ids - s.retired;
        Fewer(ids - m.retired, ids - s.retired);
      } else {
        ClosePoolInv(s, id);
        step, m := ClosePool(id), PoolClosedIn(s, id);
        ClosePoolIsStep(s, id);
        assert OpenRetirers(m) == OpenRetirers(s) - {id} && id in OpenRetirers(s);
        Fewer(OpenRetirers(m), OpenRetirers(s));
      }
      var rest;
      rest, s' := CloseFinishes(m, c);
      Prepend(s, step, m, rest, s');
      path := [step] + rest;
    }
  }

  lemma Fewer(a: set<nat>, b: set<nat>)
    requires a < b
    ensures |a| < |b|
  {
    assert b == a + (b - a);
  }

  // ----- Capacity

  function OpenConnections(all: seq<Lane>): nat {
    if all == [] then 0 else OpenConnections(all[..|all| - 1]) + all[|all| - 1].conns
  }

  lemma OneMoreLane(n: nat, x: nat)
    ensures (n + 1) * x == n * x + x
  {
  }

  lemma {:induction false} ConnectionsBound(all: seq<Lane>, accounted: set<nat>, perLaneMax: nat)
    requires forall id :: 0 <= id < |all| ==> all[id].conns <= perLaneMax && (all[id].conns > 0 ==> id in accounted)
    ensures OpenConnections(all) <= |accounted| * perLaneMax
    decreases |all|
  {
    if all == [] {
    } else {
      var last := |all| - 1;
      var shorter := all[..last];
      if last in accounted {
        ConnectionsBound(shorter, accounted - {last}, perLaneMax);
        assert |accounted| == |accounted - {last}| + 1;
        OneMoreLane(|accounted - {last}|, perLaneMax);
      } else {
        ConnectionsBound(shorter, accounted, perLaneMax);
      }
    }
  }

  /** On every run, retiring lanes included, the map never outgrows its cap and the open connections of all
      lanes ever created stay within cap times connections per lane. */
  lemma CapacityKept(states: seq<State>, steps: seq<Step>, i: nat)
    requires IsRun(states, steps) && i < |states|
    ensures var p := states[i].pool;
            |p.lanes| <= p.laneCap && OpenConnections(p.all) <= p.laneCap * p.perLaneMax
  {
    RunInv(states, steps, i);
    var s := states[i];
    hide IsRun, RetireOk, LeaseOk, CloseOk, WaitOk, Present, ByUse;
    ConnectionsBound(s.pool.all, s.accounted, s.pool.perLaneMax);
    ProductOfNats(|s.accounted|, s.pool.laneCap, s.pool.perLaneMax);
  }

  lemma ProductOfNats(x: nat, y: nat, z: nat)
    requires x <= y
    ensures x * z <= y * z
  {
  }

  /** A plan that startup accepted, and that is a 64-bit number, is never exceeded: on every run the lanes
      and the process pool together stay strictly below what the server can give. */
  lemma BudgetKept(states: seq<State>, steps: seq<Step>, i: nat, b: ConnectionBudget,
                   processConnections: nat, maxConnections: int64, reserved: int64)
    requires IsRun(states, steps) && i < |states|
    requires states[0].pool.laneCap == b.laneCap as int && states[0].pool.perLaneMax == b.perLaneMax as int
    requires processConnections <= b.processPool as int
    requires 0 <= maxConnections && 0 <= reserved && Fits(b, maxConnections, reserved) && FitsInt64(TruePeak(b))
    ensures OpenConnections(states[i].pool.all) + processConnections
            <= Peak(b) as int < maxConnections as int - reserved as int
  {
    RunInv(states, steps, 0);
    RunEvolves(states, steps, 0, i);
    CapacityKept(states, steps, i);
    hide IsRun, Inv, Wrapped;
    AcceptedPlansFit(b, maxConnections, reserved);
    PeakIsExact(b);
    hide Peak;
  }
}

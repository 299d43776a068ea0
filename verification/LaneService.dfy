/** From wherever a run of the lane factory has come, an uncancelled caller can still be given its lane:
    nothing but steps of the others' own, and its own wakeups and tries, stands between (scoped.go). */
module LaneService {
  import opened Basics
  import opened LaneSections
  import opened LaneProtocol
  import opened LaneSteps
  import opened LaneRuns

  /** A release, a connection moving, a half of a retirement, or a step of the caller itself. Nobody has to
      call, cancel or close. */
  predicate Serves(step: Step, t: nat) {
    step.ReleaseLane? || step.PoolDrift? || step.ClosePool? || step.RemoveLane? || step == Try(t) || step == WakeUp(t)
  }

  ghost predicate Leads(s: State, path: seq<Step>, s': State, t: nat) {
    Path(s, path, s') && forall k :: 0 <= k < |path| ==> Serves(path[k], t)
  }

  lemma {:induction false} PathsJoin(s: State, first: seq<Step>, m: State, second: seq<Step>, s': State)
    requires Path(s, first, m) && Path(m, second, s')
    ensures Path(s, first + second, s')
    decreases |first|
  {
    hide Next;
    if first == [] {
      assert first + second == second;
    } else {
      var n :| Next(s, first[0], n) && Path(n, first[1..], m);
      PathsJoin(n, first[1..], m, second, s');
      Prepend(s, first[0], n, first[1..] + second, s');
      assert [first[0]] + (first[1..] + second) == first + second;
    }
  }

  lemma Joined(s: State, first: seq<Step>, m: State, second: seq<Step>, s': State, t: nat)
    requires Leads(s, first, m, t) && Leads(m, second, s', t)
    ensures Leads(s, first + second, s', t)
  {
    hide Path;
    PathsJoin(s, first, m, second, s');
  }

  lemma Alone(s: State, step: Step, s': State, t: nat)
    requires Next(s, step, s') && Serves(step, t)
    ensures Leads(s, [step], s', t)
  {
    hide Next, Path;
    OneStep(s, step, s');
  }

  lemma Nowhere(s: State, t: nat)
    ensures Leads(s, [], s, t)
  {
  }

  // ----- What the others can do

  /** A retirement under way can always finish: it takes its lane out of the map and wakes everyone. */
  lemma FinishRetirement(s: State, id: nat, t: nat) returns (path: seq<Step>, s': State)
    requires Inv(s) && id in s.retirers
    ensures Leads(s, path, s', t) && Inv(s') && s'.threads == s.threads && s'.pool.closed == s.pool.closed
    ensures s'.pool.lanes == s.pool.lanes - {s.retirers[id].key} && s'.pool.laneCap == s.pool.laneCap
    ensures s'.pool.gen == s.pool.gen + 1
  {
    hide Inv, Path, Next, Leads;
    var m;
    if s.retirers[id].poolClosed {
      path, m := [], s;
      Nowhere(s, t);
    } else {
      ClosePoolInv(s, id);
      ClosePoolIsStep(s, id);
      path, m := [ClosePool(id)], PoolClosedIn(s, id);
      Alone(s, ClosePool(id), m, t);
    }
    RemoveInv(m, id);
    RemoveIsStep(m, id);
    s' := Removed(m, id);
    Alone(m, RemoveLane(id), s', t);
    Joined(s, path, m, [RemoveLane(id)], s', t);
    path := path + [RemoveLane(id)];
  }

  /** The same map, order and flags, and the same lanes but for their use counts. */
  ghost predicate SameLanes(p: Pool, q: Pool) {
    SameFlags(p, q) && p.order == q.order
  }

  /** Everyone who holds a lane releases it. The caller, who holds none, is left where it is. */
  lemma {:induction false} ReleaseAll(s: State, id: nat, t: nat) returns (path: seq<Step>, s': State)
    requires Inv(s) && id < |s.pool.all| && t in s.threads && !s.threads[t].Holding?
    ensures Leads(s, path, s', t) && Inv(s') && SameLanes(s.pool, s'.pool) && s'.retirers == s.retirers
    ensures t in s'.threads && s'.threads[t] == s.threads[t]
    ensures Holders(s'.threads, id) == {}
    decreases |Holders(s.threads, id)|
  {
    hide Inv, Path, Next, Leads, Holders;
    if Holders(s.threads, id) == {} {
      Nowhere(s, t);
      path, s' := [], s;
    } else {
      var h :| h in Holders(s.threads, id);
      var m := OneRelease(s, id, h, t);
      var rest;
      rest, s' := ReleaseAll(m, id, t);
      Joined(s, [ReleaseLane(h)], m, rest, s', t);
      path := [ReleaseLane(h)] + rest;
    }
  }

  lemma OneRelease(s: State, id: nat, h: nat, t: nat) returns (m: State)
    requires Inv(s) && id < |s.pool.all| && h in Holders(s.threads, id) && t in s.threads && !s.threads[t].Holding?
    ensures Leads(s, [ReleaseLane(h)], m, t) && Inv(m) && SameLanes(s.pool, m.pool) && m.retirers == s.retirers
    ensures t in m.threads && m.threads[t] == s.threads[t]
    ensures |Holders(m.threads, id)| < |Holders(s.threads, id)|
  {
    hide Inv, Path, Next, Leads;
    m := Released(s, h);
    ReleaseInv(s, h);
    ReleaseIsStep(s, h);
    Alone(s, ReleaseLane(h), m, t);
    HoldersAfter(s.threads, h, Ended, id);
    Fewer(Holders(m.threads, id), Holders(s.threads, id));
  }

  /** A lane nobody holds gives back its checked-out connections. */
  lemma Settles(s: State, id: nat, t: nat) returns (s': State)
    requires Inv(s) && id < |s.pool.all| && Holders(s.threads, id) == {} && !s.pool.all[id].retiring
    ensures Leads(s, [PoolDrift(id, 0, s.pool.all[id].conns)], s', t) && Inv(s') && SameLanes(s.pool, s'.pool)
    ensures s'.retirers == s.retirers && s'.threads == s.threads
    ensures Evictable(s'.pool.all[id])
  {
    hide Path, Next, Leads, Inv, Holders;
    var conns := s.pool.all[id].conns;
    IdleMayDrift(s, id);
    DriftInv(s, id, 0, conns);
    DriftIsStep(s, id, 0, conns);
    s' := DriftedTo(s, id, 0, conns);
    Alone(s, PoolDrift(id, 0, conns), s', t);
  }

  lemma IdleMayDrift(s: State, id: nat)
    requires Inv(s) && id < |s.pool.all| && Holders(s.threads, id) == {} && !s.pool.all[id].retiring
    ensures s.pool.all[id].leases == 0 && Drift(s.pool, id, 0, s.pool.all[id].conns)
  {
    hide CloseOk, WaitOk, Consistent, Holders, Present;
  }

  lemma DriftIsStep(s: State, id: nat, inUse: nat, conns: nat)
    requires id < |s.pool.all| && Drift(s.pool, id, inUse, conns)
    ensures Next(s, PoolDrift(id, inUse, conns), DriftedTo(s, id, inUse, conns))
  {
    hide Tried, ClosedBy, Drift, Consistent;
  }

  // ----- What the caller can do

  /** An uncancelled caller at the mutex of an open factory. */
  ghost predicate Wants(s: State, t: nat, key: Key) {
    Inv(s) && !s.pool.closed && t in s.threads && s.threads[t] == Acquiring(key, false)
  }

  /** The caller holds the mapped, open lane of its key. */
  ghost predicate Served(s: State, t: nat, key: Key) {
    && t in s.threads && s.threads[t].Holding? && s.threads[t].id < |s.pool.all|
    && s.pool.all[s.threads[t].id].key == key && s.pool.all[s.threads[t].id].poolOpen
    && Present(s.pool, s.threads[t].id)
  }

  lemma TryIsStep(s: State, t: nat)
    requires Consistent(s.pool) && t in s.threads && s.threads[t].Acquiring?
    ensures Next(s, Try(t), Tried(s, t))
  {
    hide Tried, ClosedBy, Drift, Consistent;
  }

  lemma WakeUpIsStep(s: State, t: nat)
    requires t in s.threads && s.threads[t].Blocked? && CanWake(s, s.threads[t])
    ensures Next(s, WakeUp(t), WithThread(s, t, Acquiring(s.threads[t].key, s.threads[t].cancelled)))
  {
    hide Tried, ClosedBy, Drift, Consistent, CanWake;
  }

  lemma Wakes(s: State, t: nat) returns (s': State)
    requires Inv(s) && !s.pool.closed && t in s.threads && s.threads[t].Blocked? && !s.threads[t].cancelled
    requires CanWake(s, s.threads[t])
    ensures Leads(s, [WakeUp(t)], s', t) && Wants(s', t, s.threads[t].key) && s'.pool == s.pool
  {
    hide Path, Next, Leads, Inv, CanWake;
    var thread := Acquiring(s.threads[t].key, false);
    WakeUpIsStep(s, t);
    ThreadStepInv(s, t, thread);
    s' := WithThread(s, t, thread);
    Alone(s, WakeUp(t), s', t);
  }

  lemma HeldIsOpen(s: State, t: nat)
    requires Inv(s) && !s.pool.closed && t in s.threads && s.threads[t].Holding?
    ensures s.threads[t].id < |s.pool.all| && Present(s.pool, s.threads[t].id) && s.pool.all[s.threads[t].id].poolOpen
  {
    hide RetireOk, LeaseOk, CloseOk, WaitOk, ConnOk, Consistent, Present;
    HeldLane(s, t);
  }

  /** With its lane in the map and not retiring, or with room for a new one, the caller is served at once. */
  lemma ServedAtOnce(s: State, t: nat, key: Key) returns (s': State)
    requires Wants(s, t, key)
    requires if key in s.pool.lanes then s.pool.lanes[key] < |s.pool.all| && !s.pool.all[s.pool.lanes[key]].retiring
             else |s.pool.lanes| < s.pool.laneCap
    ensures Leads(s, [Try(t)], s', t) && Served(s', t, key)
  {
    hide Path, Next, Leads, Inv, Consistent, Touch, Victim, Present;
    InvConsistent(s);
    TryIsStep(s, t);
    s' := Tried(s, t);
    Alone(s, Try(t), s', t);
    assert s'.threads[t].Holding?;
    TryGivesOwnLane(s, t);
    TryInv(s, t);
    HeldIsOpen(s', t);
  }

  /** With the least recently used lane evictable, a caller that finds the map full starts its retirement
      and waits for it. */
  lemma TryEvicts(s: State, t: nat, key: Key) returns (s': State)
    requires Wants(s, t, key) && key !in s.pool.lanes && |s.pool.lanes| >= s.pool.laneCap
    requires Consistent(s.pool) && s.pool.order != [] && Evictable(s.pool.all[LaneInPlace(s.pool, 0)])
    ensures Leads(s, [Try(t)], s', t) && Inv(s') && !s'.pool.closed
    ensures t in s'.threads && s'.threads[t] == Blocked(key, s'.pool.gen, false, false)
    ensures s'.pool.lanes == s.pool.lanes && s'.pool.laneCap == s.pool.laneCap
    ensures exists id :: id in s'.retirers && s'.retirers[id].key in s.pool.lanes
  {
    hide Path, Next, Leads, Inv, Consistent;
    TryInv(s, t);
    TryIsStep(s, t);
    s' := Tried(s, t);
    Alone(s, Try(t), s', t);
    var id := LaneInPlace(s.pool, 0);
    assert Victim(s.pool, 0) == (false, Some(id));
    assert s'.retirers[id].key == s.pool.all[id].key;
    OwnKey(s.pool, s.pool.order[0]);
  }

  lemma OwnKey(p: Pool, key: Key)
    requires Consistent(p) && key in p.lanes
    ensures p.lanes[key] < |p.all| && p.all[p.lanes[key]].key == key
  {
  }

  /** A mapped lane that retires has its retirement under way. */
  lemma RetiringHasRetirer(s: State, key: Key)
    requires Inv(s) && key in s.pool.lanes && s.pool.lanes[key] < |s.pool.all| && s.pool.all[s.pool.lanes[key]].retiring
    ensures s.pool.lanes[key] in s.retirers && s.retirers[s.pool.lanes[key]].key == key
  {
    OwnKey(s.pool, key);
    assert Present(s.pool, s.pool.lanes[key]);
    hide LeaseOk, CloseOk, WaitOk, ConnOk, Consistent;
  }

  lemma SmallerThanCap(p: Pool, q: Pool, key: Key)
    requires Consistent(p) && key in p.lanes && q.lanes == p.lanes - {key} && q.laneCap == p.laneCap
    ensures |q.lanes| < q.laneCap
  {
    SmallerMap(p.lanes, key);
  }

  /** Finishing a retirement makes room and leaves the caller at the mutex. */
  lemma RetirementMakesRoom(s: State, t: nat, key: Key, id: nat) returns (path: seq<Step>, s': State)
    requires Wants(s, t, key) && id in s.retirers && s.retirers[id].key in s.pool.lanes
    requires key in s.pool.lanes ==> s.retirers[id].key == key
    ensures Leads(s, path, s', t) && Wants(s', t, key) && key !in s'.pool.lanes && |s'.pool.lanes| < s'.pool.laneCap
  {
    hide Leads, Inv, Consistent;
    InvConsistent(s);
    path, s' := FinishRetirement(s, id, t);
    SmallerThanCap(s.pool, s'.pool, s.retirers[id].key);
  }

  /** A caller that waits for a retirement it has started comes back to the mutex with room to spare. */
  lemma WaitedForRoom(s: State, t: nat, key: Key, id: nat) returns (path: seq<Step>, s': State)
    requires Inv(s) && !s.pool.closed && t in s.threads && s.threads[t] == Blocked(key, s.pool.gen, false, false)
    requires id in s.retirers && s.retirers[id].key in s.pool.lanes && key !in s.pool.lanes
    ensures Leads(s, path, s', t) && Wants(s', t, key) && key !in s'.pool.lanes && |s'.pool.lanes| < s'.pool.laneCap
  {
    hide Leads, Inv, Consistent;
    InvConsistent(s);
    var m;
    path, m := FinishRetirement(s, id, t);
    SmallerThanCap(s.pool, m.pool, s.retirers[id].key);
    s' := Wakes(m, t);
    Joined(s, path, m, [WakeUp(t)], s', t);
    path := path + [WakeUp(t)];
  }

  /** A full map can always make room for the caller: its least recently used lane is emptied, if it does not
      retire already, and retired. */
  lemma MakesRoom(s: State, t: nat, key: Key) returns (path: seq<Step>, s': State)
    requires Wants(s, t, key) && key !in s.pool.lanes && |s.pool.lanes| >= s.pool.laneCap
    ensures Leads(s, path, s', t) && Wants(s', t, key) && key !in s'.pool.lanes && |s'.pool.lanes| < s'.pool.laneCap
  {
    hide Leads, Inv, Consistent, SameFlags, Evictable, Holders;
    InvConsistent(s);
    HasCap(s);
    FullMapHasPlace(s.pool);
    var id := LaneInPlace(s.pool, 0);
    if s.pool.all[id].retiring {
      RetiringHasRetirer(s, s.pool.order[0]);
      path, s' := RetirementMakesRoom(s, t, key, id);
    } else {
      var path1, m1 := ReleaseAll(s, id, t);
      SameFirst(s.pool, m1.pool, id);
      var m2 := Settles(m1, id, t);
      SameFirst(m1.pool, m2.pool, id);
      var path2 := path1 + [PoolDrift(id, 0, m1.pool.all[id].conns)];
      Joined(s, path1, m1, [PoolDrift(id, 0, m1.pool.all[id].conns)], m2, t);
      InvConsistent(m2);
      var m3 := TryEvicts(m2, t, key);
      Joined(s, path2, m2, [Try(t)], m3, t);
      var r :| r in m3.retirers && m3.retirers[r].key in m2.pool.lanes;
      var rest;
      rest, s' := WaitedForRoom(m3, t, key, r);
      path := path2 + [Try(t)] + rest;
      Joined(s, path2 + [Try(t)], m3, rest, s', t);
    }
  }

  lemma HasCap(s: State)
    requires Inv(s)
    ensures s.pool.laneCap >= 1
  {
  }

  lemma SameFirst(p: Pool, q: Pool, id: nat)
    requires SameLanes(p, q) && id < |p.all|
    ensures |q.all| == |p.all| && q.lanes == p.lanes && q.order == p.order && q.laneCap == p.laneCap
    ensures q.closed == p.closed
    ensures q.all[id].retiring == p.all[id].retiring
  {
  }

  // ----- The caller is served

  lemma ServedFromMutex(s: State, t: nat, key: Key) returns (path: seq<Step>, s': State)
    requires Wants(s, t, key)
    ensures Leads(s, path, s', t) && Served(s', t, key)
  {
    hide Leads, Inv, Consistent, Served;
    InvConsistent(s);
    var m := s;
    path := [];
    Nowhere(s, t);
    if key in s.pool.lanes {
      OwnKey(s.pool, key);
      if s.pool.all[s.pool.lanes[key]].retiring {
        RetiringHasRetirer(s, key);
        path, m := RetirementMakesRoom(s, t, key, s.pool.lanes[key]);
      }
    } else if |s.pool.lanes| >= s.pool.laneCap {
      path, m := MakesRoom(s, t, key);
    }
    s' := ServedAtOnce(m, t, key);
    Joined(s, path, m, [Try(t)], s', t);
    path := path + [Try(t)];
  }

  /** A blocked caller gets back to the mutex. */
  lemma BackToMutex(s: State, t: nat) returns (path: seq<Step>, s': State)
    requires Inv(s) && !s.pool.closed && t in s.threads && s.threads[t].Blocked? && !s.threads[t].cancelled
    ensures Leads(s, path, s', t) && Wants(s', t, s.threads[t].key)
  {
    hide Leads, Inv, Holders;
    ChannelKnown(s, t);
    var m := s;
    path := [];
    Nowhere(s, t);
    if !CanWake(s, s.threads[t]) {
      var id := AwaitedLane(s, t);
      if id in s.retirers {
        path, m := FinishRetirement(s, id, t);
      } else {
        path, m := ReleaseOf(s, t, id);
      }
    }
    s' := Wakes(m, t);
    Joined(s, path, m, [WakeUp(t)], s', t);
    path := path + [WakeUp(t)];
  }

  lemma ReleaseOf(s: State, t: nat, id: nat) returns (path: seq<Step>, s': State)
    requires Inv(s) && t in s.threads && !s.threads[t].Holding? && Holders(s.threads, id) != {}
    ensures Leads(s, path, s', t) && Inv(s') && s'.pool.closed == s.pool.closed && s'.pool.gen == s.pool.gen + 1
    ensures t in s'.threads && s'.threads[t] == s.threads[t]
  {
    hide Leads, Inv, Next;
    var h :| h in Holders(s.threads, id);
    ReleaseInv(s, h);
    s' := Released(s, h);
    ReleaseIsStep(s, h);
    Alone(s, ReleaseLane(h), s', t);
    path := [ReleaseLane(h)];
  }

  predicate Waits(thread: Thread, key: Key) {
    (thread.Acquiring? || thread.Blocked?) && thread.key == key && !thread.cancelled
  }

  /** From every state of every run, while the factory is open, an uncancelled caller of `acquire` can be
      given the lane of its key by releases, connections moving and retirements finishing, and by its own
      wakeups and tries: no state is a dead end for it. */
  lemma CallerCanBeServed(states: seq<State>, steps: seq<Step>, i: nat, t: nat, key: Key)
    requires IsRun(states, steps) && i < |states| && !states[i].pool.closed
    requires t in states[i].threads && Waits(states[i].threads[t], key)
    ensures exists path, s' :: Leads(states[i], path, s', t) && Served(s', t, key)
  {
    hide IsRun, Leads, Inv, Served;
    RunInv(states, steps, i);
    var s := states[i];
    if s.threads[t].Acquiring? {
      var path, s' := ServedFromMutex(s, t, key);
    } else {
      var path, m := BackToMutex(s, t);
      var rest, s' := ServedFromMutex(m, t, key);
      Joined(s, path, m, rest, s', t);
    }
  }

  // ----- Anybody may come, and anybody may leave

  /** Every plan with room for a lane is a state runs start from, open for business. */
  lemma FactoryStarts(laneCap: nat, perLaneMax: nat, gen: nat, clock: nat)
    requires laneCap >= 1
    ensures var s := State(Pool(laneCap, perLaneMax, map[], [], [], false, gen, map[], clock), map[], map[], {}, {});
            Init(s) && !s.pool.closed
  {
  }

  lemma CallIsStep(s: State, t: nat, thread: Thread)
    requires t !in s.threads && (thread == CallingClose || (thread.Acquiring? && !thread.cancelled))
    ensures Next(s, Call(t, thread), WithThread(s, t, thread))
  {
    hide Tried, ClosedBy, Drift, Consistent, CanWake;
  }

  lemma CancelIsStep(s: State, t: nat)
    requires t in s.threads && (s.threads[t].Acquiring? || s.threads[t].Blocked?)
    ensures Next(s, Cancel(t), WithThread(s, t, s.threads[t].(cancelled := true)))
  {
    hide Tried, ClosedBy, Drift, Consistent, CanWake;
  }

  /** Whoever comes to the open factory, in whatever state and with whatever key, can be served. */
  lemma NewcomerCanBeServed(states: seq<State>, steps: seq<Step>, i: nat, t: nat, key: Key)
    requires IsRun(states, steps) && i < |states| && !states[i].pool.closed && t !in states[i].threads
    ensures exists m, path, s' ::
              Next(states[i], Call(t, Acquiring(key, false)), m) && Leads(m, path, s', t) && Served(s', t, key)
  {
    RunInv(states, steps, i);
    hide IsRun, Leads, Inv, Served, Next;
    var s := states[i];
    CallIsStep(s, t, Acquiring(key, false));
    ThreadStepInv(s, t, Acquiring(key, false));
    var path, s' := ServedFromMutex(WithThread(s, t, Acquiring(key, false)), t, key);
  }

  /** The caller has given up: its thread is over and nothing else has changed. */
  ghost predicate GaveUp(s: State, t: nat, s': State) {
    s' == WithThread(s, t, Ended)
  }

  /** From every state a caller of `acquire` can be cancelled, and by its own steps alone is then out again with
      the factory as it was. */
  lemma CallerCanGiveUp(states: seq<State>, steps: seq<Step>, i: nat, t: nat)
    requires IsRun(states, steps) && i < |states|
    requires t in states[i].threads && (states[i].threads[t].Acquiring? || states[i].threads[t].Blocked?)
    ensures exists path, s' ::
              && Path(states[i], path, s') && GaveUp(states[i], t, s')
              && (path == [Cancel(t), Try(t)] || path == [Cancel(t), WakeUp(t), Try(t)])
  {
    RunInv(states, steps, i);
    hide IsRun, Inv, Path, GaveUp, Next;
    if states[i].threads[t].Acquiring? {
      var s' := GivesUpAtMutex(states[i], t);
    } else {
      var s' := GivesUpBlocked(states[i], t);
    }
  }

  lemma GivesUpAtMutex(s: State, t: nat) returns (s': State)
    requires Inv(s) && t in s.threads && s.threads[t].Acquiring?
    ensures Path(s, [Cancel(t), Try(t)], s') && GaveUp(s, t, s')
  {
    hide Inv, Path, Next;
    CancelIsStep(s, t);
    CancelInv(s, t);
    var m := WithThread(s, t, Acquiring(s.threads[t].key, true));
    s' := CancelledEnds(m, t);
    Prepend(s, Cancel(t), m, [Try(t)], s');
    assert [Cancel(t)] + [Try(t)] == [Cancel(t), Try(t)];
  }

  lemma GivesUpBlocked(s: State, t: nat) returns (s': State)
    requires Inv(s) && t in s.threads && s.threads[t].Blocked?
    ensures Path(s, [Cancel(t), WakeUp(t), Try(t)], s') && GaveUp(s, t, s')
  {
    hide Inv, Path, Next;
    CancelIsStep(s, t);
    CancelInv(s, t);
    var thread := s.threads[t];
    var m := WithThread(s, t, Blocked(thread.key, thread.channel, thread.retry, true));
    WakeUpIsStep(m, t);
    var awake := WithThread(m, t, Acquiring(thread.key, true));
    ThreadStepInv(m, t, Acquiring(thread.key, true));
    s' := CancelledEnds(awake, t);
    Prepend(m, WakeUp(t), awake, [Try(t)], s');
    Prepend(s, Cancel(t), m, [WakeUp(t)] + [Try(t)], s');
    assert [Cancel(t)] + ([WakeUp(t)] + [Try(t)]) == [Cancel(t), WakeUp(t), Try(t)];
  }

  lemma CancelledEnds(s: State, t: nat) returns (s': State)
    requires Inv(s) && t in s.threads && s.threads[t].Acquiring? && s.threads[t].cancelled
    ensures Path(s, [Try(t)], s') && s' == WithThread(s, t, Ended)
  {
    InvConsistent(s);
    hide Inv, Consistent, Path, Next;
    TryIsStep(s, t);
    s' := Tried(s, t);
    OneStep(s, Try(t), s');
  }
}

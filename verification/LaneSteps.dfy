/** Each step of the lane factory's goroutines keeps each part of the invariant. */
module LaneSteps {
  import opened Basics
  import opened LaneSections
  import opened LaneProtocol

  // ----- Steps that leave the map and the lanes' flags alone

  /** The same lanes, with the same flags, in the same map. */
  ghost predicate SameFlags(p: Pool, q: Pool) {
    && p.lanes == q.lanes && |p.all| == |q.all| && p.closed == q.closed && p.laneCap == q.laneCap
    && p.perLaneMax == q.perLaneMax
    && forall i :: 0 <= i < |p.all| ==>
         p.all[i].key == q.all[i].key && p.all[i].retiring == q.all[i].retiring
           && p.all[i].poolOpen == q.all[i].poolOpen
  }

  ghost predicate SameConnections(p: Pool, q: Pool)
    requires |p.all| == |q.all|
  {
    forall i :: 0 <= i < |p.all| ==> p.all[i].inUse == q.all[i].inUse && p.all[i].conns == q.all[i].conns
  }

  ghost predicate SameLeases(p: Pool, q: Pool)
    requires |p.all| == |q.all|
  {
    forall i :: 0 <= i < |p.all| ==> p.all[i].leases == q.all[i].leases
  }

  lemma RetireStays(s: State, s': State)
    requires RetireOk(s) && SameFlags(s.pool, s'.pool) && s'.retirers == s.retirers && s'.retired == s.retired
    ensures RetireOk(s')
  {
  }

  lemma PresentStays(p: Pool, q: Pool)
    requires SameFlags(p, q)
    ensures forall id :: Present(q, id) <==> Present(p, id)
  {
  }

  lemma ConnStays(s: State, s': State)
    requires ConnOk(s) && SameFlags(s.pool, s'.pool) && SameConnections(s.pool, s'.pool) && s'.accounted == s.accounted
    ensures ConnOk(s')
  {
    PresentStays(s.pool, s'.pool);
    hide Present;
  }

  lemma LeaseStays(s: State, s': State)
    requires LeaseOk(s) && |s.pool.all| == |s'.pool.all| && SameLeases(s.pool, s'.pool) && s'.threads == s.threads
    ensures LeaseOk(s')
  {
    hide Holders;
  }

  /** Lanes that will notify are not lost while lease counts and retirements only grow. */
  lemma WaitStays(s: State, s': State)
    requires WaitOk(s) && s'.pool.gen == s.pool.gen
    requires forall t :: t in s'.threads && s'.threads[t].Blocked? ==> t in s.threads && s'.threads[t] == s.threads[t]
    requires |s.pool.all| <= |s'.pool.all|
    requires forall id :: Present(s.pool, id) ==> Present(s'.pool, id)
    requires forall id :: 0 <= id < |s.pool.all| ==>
               s'.pool.all[id].leases >= s.pool.all[id].leases && (s.pool.all[id].retiring ==> s'.pool.all[id].retiring)
    ensures WaitOk(s')
  {
    if id :| WillNotify(s.pool, id) {
      assert WillNotify(s'.pool, id);
    }
  }

  /** Nobody waits on a channel that a notification has just replaced. */
  lemma WaitAfterNotify(s: State, s': State)
    requires WaitOk(s) && s'.pool.gen == s.pool.gen + 1
    requires forall t :: t in s'.threads && s'.threads[t].Blocked? ==> t in s.threads && s'.threads[t] == s.threads[t]
    ensures WaitOk(s')
  {
  }

  // ----- `release`

  lemma ReleaseLeases(s: State, t: nat)
    requires LeaseOk(s) && t in s.threads && s.threads[t].Holding?
    ensures s.pool.all[s.threads[t].id].leases >= 1
    ensures LeaseOk(Released(s, t))
  {
    var id := s.threads[t].id;
    var s' := Released(s, t);
    assert t in Holders(s.threads, id);
    forall i | 0 <= i < |s.pool.all|
      ensures |Holders(s'.threads, i)| == |Holders(s.threads, i)| - (if i == id then 1 else 0)
    {
      HoldersAfter(s.threads, t, Ended, i);
    }
    hide Holders;
  }

  lemma ReleaseClose(s: State, t: nat)
    requires CloseOk(s) && t in s.threads && s.threads[t].Holding? && s.threads[t].id < |s.pool.all|
    requires s.pool.all[s.threads[t].id].leases >= 1
    ensures CloseOk(Released(s, t))
  {
    PresentStays(s.pool, Released(s, t).pool);
    hide Present;
  }

  lemma ReleaseInv(s: State, t: nat)
    requires Inv(s) && t in s.threads && s.threads[t].Holding?
    ensures s.threads[t].id < |s.pool.all|
    ensures Inv(Released(s, t))
  {
    ReleaseLeases(s, t);
    hide RetireOk, LeaseOk, CloseOk, WaitOk, ConnOk, Consistent, Present, Holders;
    var s' := Released(s, t);
    ReleaseClose(s, t);
    ReleaseSame(s.pool, s.threads[t].id);
    RetireStays(s, s');
    ConnStays(s, s');
    WaitAfterNotify(s, s');
  }

  lemma ReleaseSame(p: Pool, id: nat)
    requires Consistent(p) && id < |p.all|
    ensures Consistent(Release(p, id)) && SameFlags(p, Release(p, id)) && SameConnections(p, Release(p, id))
  {
    hide ByUse;
  }

  // ----- `pool.Close` returns

  lemma ClosePoolRetire(s: State, id: nat)
    requires RetireOk(s) && id in s.retirers
    ensures id < |s.pool.all| && s.pool.all[id].retiring && RetireOk(PoolClosedIn(s, id))
    ensures forall i :: Present(PoolClosedIn(s, id).pool, i) <==> Present(s.pool, i)
  {
    var p, q := s.pool, PoolClosedIn(s, id).pool;
    assert p.lanes == q.lanes && forall i :: 0 <= i < |p.all| ==> q.all[i].key == p.all[i].key;
    assert forall i :: Present(q, i) <==> Present(p, i);
    hide Present;
  }

  lemma ClosePoolClose(s: State, id: nat)
    requires CloseOk(s) && id in s.retirers && id < |s.pool.all|
    requires forall i :: Present(PoolClosedIn(s, id).pool, i) <==> Present(s.pool, i)
    ensures CloseOk(PoolClosedIn(s, id))
  {
    hide Present;
  }

  lemma ClosePoolConn(s: State, id: nat)
    requires ConnOk(s) && id in s.retirers && id < |s.pool.all|
    requires forall i :: Present(PoolClosedIn(s, id).pool, i) <==> Present(s.pool, i)
    ensures ConnOk(PoolClosedIn(s, id))
  {
    hide Present;
  }

  lemma ClosePoolInv(s: State, id: nat)
    requires Inv(s) && id in s.retirers && !s.retirers[id].poolClosed
    ensures id < |s.pool.all|
    ensures Inv(PoolClosedIn(s, id))
  {
    hide RetireOk, LeaseOk, CloseOk, WaitOk, ConnOk, Consistent, Present;
    ClosePoolRetire(s, id);
    var s' := PoolClosedIn(s, id);
    ClosePoolClose(s, id);
    ClosePoolConn(s, id);
    UpdateConsistent(s.pool, id, s'.pool.all[id]);
    LeaseStays(s, s');
    WaitStays(s, s');
  }

  // ----- Connections move on their own

  lemma DriftConn(s: State, id: nat, inUse: nat, conns: nat)
    requires ConnOk(s) && id < |s.pool.all| && Drift(s.pool, id, inUse, conns)
    requires s.pool.all[id].poolOpen ==> Present(s.pool, id)
    ensures ConnOk(DriftedTo(s, id, inUse, conns))
  {
    PresentStays(s.pool, Drifted(s.pool, id, inUse, conns));
    hide Present;
  }

  lemma DriftClose(s: State, id: nat, inUse: nat, conns: nat)
    requires CloseOk(s) && id < |s.pool.all| && Drift(s.pool, id, inUse, conns)
    ensures CloseOk(DriftedTo(s, id, inUse, conns))
  {
    PresentStays(s.pool, Drifted(s.pool, id, inUse, conns));
    hide Present;
  }

  lemma OpenIsPresent(s: State, id: nat)
    requires RetireOk(s) && id < |s.pool.all| && s.pool.all[id].poolOpen
    ensures Present(s.pool, id)
  {
  }

  lemma DriftSame(p: Pool, id: nat, inUse: nat, conns: nat)
    requires Consistent(p) && id < |p.all|
    ensures Consistent(Drifted(p, id, inUse, conns))
    ensures SameFlags(p, Drifted(p, id, inUse, conns)) && SameLeases(p, Drifted(p, id, inUse, conns))
  {
    hide ByUse;
  }

  lemma DriftInv(s: State, id: nat, inUse: nat, conns: nat)
    requires Inv(s) && id < |s.pool.all| && Drift(s.pool, id, inUse, conns)
    ensures Inv(DriftedTo(s, id, inUse, conns))
  {
    var s' := DriftedTo(s, id, inUse, conns);
    hide RetireOk, LeaseOk, CloseOk, WaitOk, ConnOk, Consistent, Drift;
    if s.pool.all[id].poolOpen { OpenIsPresent(s, id); }
    hide Present;
    DriftConn(s, id, inUse, conns);
    DriftClose(s, id, inUse, conns);
    DriftSame(s.pool, id, inUse, conns);
    PresentStays(s.pool, s'.pool);
    RetireStays(s, s');
    LeaseStays(s, s');
    WaitStays(s, s');
  }

  // ----- `retire` removes its lane

  /** The key under which a lane retires still leads to that very lane, and to no newer one. */
  lemma RemoveTakesItsLane(s: State, id: nat)
    requires RetireOk(s) && id in s.retirers
    ensures s.retirers[id].key in s.pool.lanes && s.pool.lanes[s.retirers[id].key] == id && id !in s.retired
    ensures forall i :: Present(Removed(s, id).pool, i) <==> Present(s.pool, i) && i != id
  {
  }

  lemma RemoveRetire(s: State, id: nat)
    requires RetireOk(s) && id in s.retirers && s.retirers[id].poolClosed
    ensures RetireOk(Removed(s, id))
  {
    RemoveTakesItsLane(s, id);
    hide Present;
  }

  lemma RemoveClose(s: State, id: nat)
    requires CloseOk(s) && id in s.retirers && Consistent(s.pool)
    requires forall i :: Present(Removed(s, id).pool, i) <==> Present(s.pool, i) && i != id
    ensures CloseOk(Removed(s, id))
  {
    hide Present, Consistent, Without;
  }

  lemma RemoveConn(s: State, id: nat)
    requires ConnOk(s) && id in s.retirers && Present(s.pool, id)
    requires forall i :: Present(Removed(s, id).pool, i) <==> Present(s.pool, i) && i != id
    requires |Removed(s, id).pool.lanes| == |s.pool.lanes| - 1
    requires s.pool.all[id].retiring && (!s.pool.closed ==> s.pool.all[id].conns == 0)
    ensures ConnOk(Removed(s, id))
  {
    hide Present, Without;
  }

  /** Before Close, a lane leaves the map with all its sockets closed. */
  lemma RetiredPoolsAreEmpty(s: State, id: nat)
    requires RetireOk(s) && CloseOk(s) && ConnOk(s) && id in s.retirers && s.retirers[id].poolClosed
    ensures Present(s.pool, id) && s.pool.all[id].retiring
    ensures !s.pool.closed ==> s.pool.all[id].conns == 0
  {
    hide Present;
    assert id < |s.pool.all| by { PresentInRange(s.pool, id); }
  }

  lemma PresentInRange(p: Pool, id: nat)
    requires Present(p, id)
    ensures id < |p.all|
  {
  }

  lemma RemoveInv(s: State, id: nat)
    requires Inv(s) && id in s.retirers && s.retirers[id].poolClosed
    ensures Inv(Removed(s, id))
  {
    var s' := Removed(s, id);
    hide RetireOk, LeaseOk, CloseOk, WaitOk, ConnOk, Consistent, Present, Without;
    RemoveConsistent(s.pool, s.retirers[id].key);
    RemoveTakesItsLane(s, id);
    RetiredPoolsAreEmpty(s, id);
    RemoveRetire(s, id);
    RemoveClose(s, id);
    RemoveConn(s, id);
    LeaseStays(s, s');
    WaitAfterNotify(s, s');
  }

  // ----- `Close`

  /** `q` is `p` with every lane of the map retiring. */
  ghost predicate AllRetire(p: Pool, q: Pool) {
    && |q.all| == |p.all|
    && forall i :: 0 <= i < |p.all| ==> q.all[i] == if Present(p, i) then p.all[i].(retiring := true) else p.all[i]
  }

  lemma RetireAll(s: State, s': State)
    requires RetireOk(s) && AllRetire(s.pool, s'.pool) && s'.retired == s.retired
    requires forall i :: Present(s'.pool, i) <==> Present(s.pool, i)
    requires forall id :: id in s'.retirers <==> id in s.retirers || (0 <= id < |s.pool.all| && Active(s.pool, id))
    requires forall id :: id in s'.retirers ==>
               s'.retirers[id] == if id in s.retirers then s.retirers[id] else Retirer(s.pool.all[id].key, false)
    ensures RetireOk(s')
  {
    assert forall i: nat :: Present(s.pool, i) ==> i < |s.pool.all|;
    hide Present;
  }

  lemma CloseScopeRetire(s: State, t: nat)
    requires RetireOk(s) && Consistent(s.pool)
    ensures RetireOk(ClosedBy(s, t))
  {
    CloseKeepsPresent(s.pool);
    CloseRetiresPresent(s.pool);
    assert forall id :: id in s.retirers ==> !Active(s.pool, id);
    hide Consistent, Present, CloseAll, RetireOk, AllRetire;
    RetireAll(s, ClosedBy(s, t));
  }

  lemma CloseKeepsPresent(p: Pool)
    requires Consistent(p)
    ensures forall i :: Present(CloseAll(p), i) <==> Present(p, i)
  {
  }

  lemma CloseRetiresPresent(p: Pool)
    requires Consistent(p)
    ensures AllRetire(p, CloseAll(p))
  {
  }

  lemma CloseScopeClose(s: State, t: nat)
    requires RetireOk(s) && CloseOk(s) && Consistent(s.pool)
    ensures CloseOk(ClosedBy(s, t))
  {
    CloseKeepsPresent(s.pool);
    hide ByUse;
  }

  lemma CloseScopeLease(s: State, t: nat)
    requires LeaseOk(s) && Consistent(s.pool) && t in s.threads && s.threads[t] == CallingClose
    ensures LeaseOk(ClosedBy(s, t))
  {
    hide ByUse;
    var s' := ClosedBy(s, t);
    HoldersSteady(s.threads, t, s'.threads[t]);
    hide Holders;
  }

  lemma CloseScopeSockets(s: State, t: nat)
    requires SocketsOk(s) && Consistent(s.pool)
    ensures SocketsOk(ClosedBy(s, t))
  {
    CloseRetiresPresent(s.pool);
    hide Present, ByUse, CloseAll;
  }

  lemma CloseScopeConn(s: State, t: nat)
    requires ConnOk(s) && Consistent(s.pool)
    ensures ConnOk(ClosedBy(s, t))
  {
    assert SocketsOk(ClosedBy(s, t)) by { CloseScopeSockets(s, t); }
    CloseKeepsPresent(s.pool);
    hide SocketsOk, Present, Consistent;
  }

  lemma CloseScopeInv(s: State, t: nat)
    requires Inv(s) && t in s.threads && s.threads[t] == CallingClose
    ensures Inv(ClosedBy(s, t))
  {
    hide RetireOk, LeaseOk, CloseOk, WaitOk, ConnOk, ByUse, Present;
    CloseAllConsistent(s.pool);
    CloseScopeRetire(s, t);
    CloseScopeClose(s, t);
    CloseScopeLease(s, t);
    CloseScopeConn(s, t);
    WaitAfterNotify(s, ClosedBy(s, t));
  }

  // ----- `acquire` leases the lane of its key

  ghost function LeaseTaken(s: State, t: nat, key: Key): State
    requires Consistent(s.pool) && key in s.pool.lanes
  {
    s.(pool := Lease(s.pool, key), threads := s.threads[t := Holding(s.pool.lanes[key])])
  }

  lemma LeaseSame(p: Pool, key: Key)
    requires Consistent(p) && key in p.lanes
    ensures SameFlags(p, Lease(p, key)) && SameConnections(p, Lease(p, key)) && Lease(p, key).gen == p.gen
    ensures forall i :: 0 <= i < |p.all| ==>
              Lease(p, key).all[i].leases == p.all[i].leases + if i == p.lanes[key] then 1 else 0
  {
    hide ByUse, Touch;
  }

  lemma LeaseTakenLeases(s: State, t: nat, key: Key)
    requires LeaseOk(s) && Consistent(s.pool) && key in s.pool.lanes && t in s.threads && s.threads[t].Acquiring?
    ensures LeaseOk(LeaseTaken(s, t, key))
  {
    hide ByUse, Lease, Holders;
    LeaseSame(s.pool, key);
    OneMoreHolder(s.threads, t, s.pool.lanes[key]);
    assert s.pool.lanes[key] < |s.pool.all|;
    hide Consistent;
  }

  lemma OneMoreHolder(threads: map<nat, Thread>, t: nat, id: nat)
    requires t in threads && !threads[t].Holding?
    ensures forall i: nat :: |Holders(threads[t := Holding(id)], i)| == |Holders(threads, i)| + if i == id then 1 else 0
  {
    forall i: nat ensures |Holders(threads[t := Holding(id)], i)| == |Holders(threads, i)| + if i == id then 1 else 0 {
      HoldersAfter(threads, t, Holding(id), i);
      assert t !in Holders(threads, i);
      assert Holders(threads, i) - {t} == Holders(threads, i);
    }
  }

  lemma LeaseTakenClose(s: State, s': State, t: nat, id: nat)
    requires CloseOk(s) && SameFlags(s.pool, s'.pool) && SameConnections(s.pool, s'.pool) && s'.retired == s.retired
    requires s'.threads == s.threads[t := Holding(id)]
    requires id < |s.pool.all| && !s.pool.all[id].retiring
    requires forall i :: 0 <= i < |s.pool.all| && i != id ==> s'.pool.all[i].leases == s.pool.all[i].leases
    ensures CloseOk(s')
  {
    PresentStays(s.pool, s'.pool);
    hide Present;
  }

  lemma MappedIsAccounted(s: State, key: Key)
    requires Consistent(s.pool) && ConnOk(s) && key in s.pool.lanes
    ensures s.pool.lanes[key] in s.accounted && s.pool.lanes[key] < |s.pool.all|
  {
    assert Present(s.pool, s.pool.lanes[key]);
  }

  lemma LeaseTakenInv(s: State, t: nat, key: Key)
    requires Inv(s) && t in s.threads && s.threads[t].Acquiring?
    requires key in s.pool.lanes && !s.pool.all[s.pool.lanes[key]].retiring
    ensures Inv(LeaseTaken(s, t, key))
    ensures s.pool.lanes[key] in s.accounted
  {
    hide RetireOk, LeaseOk, CloseOk, WaitOk, ConnOk, Present, ByUse, Lease, Touch;
    var id := s.pool.lanes[key];
    var s' := LeaseTaken(s, t, key);
    MappedIsAccounted(s, key);
    LeaseConsistent(s.pool, key);
    LeaseSame(s.pool, key);
    LeaseTakenLeases(s, t, key);
    LeaseTakenClose(s, s', t, id);
    RetireStays(s, s');
    ConnStays(s, s');
    PresentStays(s.pool, s'.pool);
    WaitStays(s, s');
  }

  // ----- `acquire` creates a lane

  ghost function LaneCreated(s: State, t: nat, key: Key): State {
    s.(pool := Create(s.pool, key), threads := s.threads[t := Holding(|s.pool.all|)],
       accounted := s.accounted + {|s.pool.all|})
  }

  lemma CreatePresent(p: Pool, key: Key)
    requires Consistent(p) && key !in p.lanes
    ensures forall i: nat :: Present(Create(p, key), i) <==> Present(p, i) || i == |p.all|
    ensures !Present(p, |p.all|)
  {
    hide ByUse;
  }

  lemma CreateRetire(s: State, t: nat, key: Key)
    requires RetireOk(s) && Consistent(s.pool) && key !in s.pool.lanes
    ensures RetireOk(LaneCreated(s, t, key))
  {
    CreatePresent(s.pool, key);
    assert forall i: nat :: Present(s.pool, i) ==> i < |s.pool.all|;
    hide Consistent, Present;
  }

  lemma CreateLeases(s: State, t: nat, key: Key)
    requires LeaseOk(s) && t in s.threads && s.threads[t].Acquiring?
    ensures LeaseOk(LaneCreated(s, t, key))
  {
    var n := |s.pool.all|;
    var s' := LaneCreated(s, t, key);
    forall i: nat
      ensures Holders(s'.threads, i) == if i == n then {t} else Holders(s.threads, i)
    {
      HoldersAfter(s.threads, t, Holding(n), i);
      assert t !in Holders(s.threads, i);
      if i == n { assert Holders(s.threads, i) == {}; }
    }
    hide Holders;
  }

  lemma CreateClose(s: State, t: nat, key: Key)
    requires CloseOk(s) && !s.pool.closed
    ensures CloseOk(LaneCreated(s, t, key))
  {
    hide Present;
  }

  lemma CreateSockets(s: State, t: nat, key: Key)
    requires SocketsOk(s)
    ensures SocketsOk(LaneCreated(s, t, key))
  {
  }

  lemma OneMore(accounted: set<nat>, n: nat)
    requires n !in accounted
    ensures |accounted + {n}| == |accounted| + 1
  {
  }

  lemma OneMoreAccounted(s: State, s': State, n: nat)
    requires AccountedOk(s) && !s.pool.closed && s'.accounted == s.accounted + {n} && s'.pool.laneCap == s.pool.laneCap
    requires forall i: nat :: Present(s'.pool, i) <==> Present(s.pool, i) || i == n
    requires !Present(s.pool, n) && |s'.pool.lanes| == |s.pool.lanes| + 1 <= s.pool.laneCap
    ensures AccountedOk(s')
  {
    hide Present;
    assert n !in s.accounted;
    OneMore(s.accounted, n);
    assert |s'.accounted| == |s'.pool.lanes|;
    forall id ensures id in s'.accounted <==> Present(s'.pool, id) {
      assert id in s'.accounted <==> id in s.accounted || id == n;
    }
  }

  lemma CreateAccounted(s: State, t: nat, key: Key)
    requires AccountedOk(s) && Consistent(s.pool) && !s.pool.closed && key !in s.pool.lanes
    requires |s.pool.lanes| < s.pool.laneCap
    ensures AccountedOk(LaneCreated(s, t, key))
  {
    hide AccountedOk, Consistent, Present;
    CreatePresent(s.pool, key);
    assert |s.pool.lanes[key := |s.pool.all|]| == |s.pool.lanes| + 1;
    OneMoreAccounted(s, LaneCreated(s, t, key), |s.pool.all|);
  }

  lemma CreateConn(s: State, t: nat, key: Key)
    requires ConnOk(s) && Consistent(s.pool) && !s.pool.closed && key !in s.pool.lanes
    requires |s.pool.lanes| < s.pool.laneCap
    ensures ConnOk(LaneCreated(s, t, key))
  {
    hide SocketsOk, AccountedOk, Consistent;
    CreateSockets(s, t, key);
    CreateAccounted(s, t, key);
  }

  lemma LaneCreatedInv(s: State, t: nat, key: Key)
    requires Inv(s) && t in s.threads && s.threads[t].Acquiring?
    requires !s.pool.closed && key !in s.pool.lanes && |s.pool.lanes| < s.pool.laneCap
    ensures Inv(LaneCreated(s, t, key))
  {
    var s' := LaneCreated(s, t, key);
    hide RetireOk, LeaseOk, CloseOk, WaitOk, ConnOk, Present, Consistent;
    CreateConsistent(s.pool, key);
    CreatePresent(s.pool, key);
    CreateRetire(s, t, key);
    CreateLeases(s, t, key);
    CreateClose(s, t, key);
    CreateConn(s, t, key);
    WaitStays(s, s');
  }

  // ----- `acquire` has to wait

  ghost function Waiting(s: State, t: nat, key: Key, retry: bool, cancelled: bool): State {
    s.(threads := s.threads[t := Blocked(key, s.pool.gen, retry, cancelled)])
  }

  lemma WaitingLeases(s: State, s': State, t: nat)
    requires LeaseOk(s) && t in s.threads && s.threads[t].Acquiring?
    requires s'.pool == s.pool && t in s'.threads && s'.threads == s.threads[t := s'.threads[t]]
    requires s'.threads[t].Blocked?
    ensures LeaseOk(s')
  {
    HoldersSteady(s.threads, t, s'.threads[t]);
    hide Holders;
  }

  lemma WaitingClose(s: State, s': State, t: nat)
    requires CloseOk(s) && s'.pool == s.pool && s'.retired == s.retired
    requires t in s'.threads && s'.threads == s.threads[t := s'.threads[t]] && s'.threads[t].Blocked?
    ensures CloseOk(s')
  {
    hide Present;
  }

  lemma WaitingWait(s: State, s': State, t: nat)
    requires WaitOk(s) && s'.pool == s.pool
    requires t in s'.threads && s'.threads == s.threads[t := s'.threads[t]] && s'.threads[t].Blocked?
    requires s'.threads[t].channel == s.pool.gen && (!s'.threads[t].retry ==> exists id :: WillNotify(s.pool, id))
    ensures WaitOk(s')
  {
    hide WillNotify;
  }

  lemma WaitingInv(s: State, t: nat, key: Key, retry: bool, cancelled: bool)
    requires Inv(s) && t in s.threads && s.threads[t].Acquiring?
    requires !retry ==> exists id :: WillNotify(s.pool, id)
    ensures Inv(Waiting(s, t, key, retry, cancelled))
  {
    hide Consistent, RetireOk, LeaseOk, CloseOk, WaitOk, ConnOk, WillNotify;
    var s' := Waiting(s, t, key, retry, cancelled);
    RetireFrame(s, s');
    WaitingLeases(s, s', t);
    WaitingClose(s, s', t);
    WaitingWait(s, s', t);
    ConnFrame(s, s');
  }

  ghost function VictimRetires(s: State, id: nat): State
    requires id < |s.pool.all|
  {
    s.(pool := Retire(s.pool, id), retirers := s.retirers[id := Retirer(s.pool.all[id].key, false)])
  }

  lemma RetirePresent(p: Pool, id: nat)
    requires id < |p.all|
    ensures forall i: nat :: Present(Retire(p, id), i) <==> Present(p, i)
  {
  }

  lemma VictimRetiresRetire(s: State, id: nat)
    requires RetireOk(s) && Present(s.pool, id) && !s.pool.all[id].retiring
    ensures RetireOk(VictimRetires(s, id))
  {
    RetirePresent(s.pool, id);
    assert id < |s.pool.all|;
    hide Present;
  }

  lemma VictimRetiresClose(s: State, id: nat)
    requires CloseOk(s) && id < |s.pool.all| && Evictable(s.pool.all[id])
    ensures CloseOk(VictimRetires(s, id))
  {
    RetirePresent(s.pool, id);
    hide Present;
  }

  lemma VictimRetiresConn(s: State, id: nat)
    requires ConnOk(s) && id < |s.pool.all|
    ensures ConnOk(VictimRetires(s, id))
  {
    RetirePresent(s.pool, id);
    hide Present;
  }

  lemma VictimRetiresOthers(s: State, id: nat)
    requires LeaseOk(s) && WaitOk(s) && Consistent(s.pool) && id < |s.pool.all|
    ensures LeaseOk(VictimRetires(s, id)) && WaitOk(VictimRetires(s, id)) && Consistent(VictimRetires(s, id).pool)
  {
    var s' := VictimRetires(s, id);
    RetirePresent(s.pool, id);
    hide LeaseOk, WaitOk, Consistent, Present;
    UpdateConsistent(s.pool, id, s'.pool.all[id]);
    LeaseStays(s, s');
    WaitStays(s, s');
  }

  lemma VictimRetiresInv(s: State, id: nat)
    requires Inv(s) && Present(s.pool, id) && Evictable(s.pool.all[id])
    ensures Inv(VictimRetires(s, id)) && WillNotify(VictimRetires(s, id).pool, id)
  {
    PresentInRange(s.pool, id);
    hide RetireOk, LeaseOk, CloseOk, WaitOk, ConnOk, Consistent, Present;
    RetirePresent(s.pool, id);
    VictimRetiresRetire(s, id);
    VictimRetiresClose(s, id);
    VictimRetiresConn(s, id);
    VictimRetiresOthers(s, id);
  }

  /** With no victim and no pending cleanup, the full map holds a lane that will notify. */
  lemma FullMapNotifies(s: State)
    requires Inv(s) && |s.pool.lanes| >= s.pool.laneCap && Victim(s.pool, 0) == (false, None)
    ensures exists id :: WillNotify(s.pool, id)
  {
    hide RetireOk, CloseOk, WaitOk, ConnOk, Victim, Holders;
    var p := s.pool;
    VictimIsFirst(p, 0);
    FullMapHasPlace(p);
    var id := LaneInPlace(p, 0);
    InPlaceIsPresent(p, 0);
    hide Consistent, Present;
    assert p.all[id].leases >= 0;
    assert WillNotify(p, id);
  }

  lemma FullMapHasPlace(p: Pool)
    requires Consistent(p) && |p.lanes| >= p.laneCap >= 1
    ensures p.order != []
  {
    hide ByUse;
    assert p.order == [] ==> p.lanes.Keys == {};
    assert |p.lanes| == |p.lanes.Keys|;
  }

  lemma InPlaceIsPresent(p: Pool, i: nat)
    requires Consistent(p) && i < |p.order|
    ensures Present(p, LaneInPlace(p, i))
  {
    hide ByUse;
  }

  lemma VictimIsPresent(p: Pool)
    requires Consistent(p) && Victim(p, 0).1.Some?
    ensures Present(p, Victim(p, 0).1.value) && Evictable(p.all[Victim(p, 0).1.value])
  {
    hide Victim;
    VictimIsFirst(p, 0);
    var j: nat :| IsFirst(p, 0, j, Victim(p, 0).1.value);
    InPlaceIsPresent(p, j);
  }

  // ----- One pass of `acquire`

  lemma TryExisting(s: State, t: nat, key: Key)
    requires Inv(s) && t in s.threads && s.threads[t] == Acquiring(key, false) && !s.pool.closed && key in s.pool.lanes
    ensures Inv(Tried(s, t))
  {
    hide RetireOk, LeaseOk, CloseOk, WaitOk, ConnOk, ByUse, Victim;
    var id := s.pool.lanes[key];
    if s.pool.all[id].retiring {
      assert WillNotify(s.pool, id);
      WaitingInv(s, t, key, false, false);
      assert Tried(s, t) == Waiting(s, t, key, false, false);
    } else {
      LeaseTakenInv(s, t, key);
      assert s.accounted + {id} == s.accounted;
      hide Lease;
      assert Tried(s, t) == LeaseTaken(s, t, key);
    }
  }

  lemma TryFull(s: State, t: nat, key: Key)
    requires Inv(s) && t in s.threads && s.threads[t] == Acquiring(key, false)
    requires !s.pool.closed && key !in s.pool.lanes && |s.pool.lanes| >= s.pool.laneCap
    ensures Inv(Tried(s, t))
  {
    var p := s.pool;
    hide RetireOk, LeaseOk, CloseOk, WaitOk, ConnOk, Victim, WillNotify, Consistent, Present, Evictable;
    var (cleanup, victim) := Victim(p, 0);
    if victim.None? {
      if !cleanup { FullMapNotifies(s); }
      WaitingInv(s, t, key, cleanup, false);
      assert Tried(s, t) == Waiting(s, t, key, cleanup, false);
    } else {
      VictimIsPresent(p);
      VictimRetiresInv(s, victim.value);
      var s1 := VictimRetires(s, victim.value);
      WaitingInv(s1, t, key, cleanup, false);
      assert Tried(s, t) == Waiting(s1, t, key, cleanup, false);
    }
  }

  lemma TryInv(s: State, t: nat)
    requires Inv(s) && t in s.threads && s.threads[t].Acquiring?
    ensures Inv(Tried(s, t))
  {
    var thread := s.threads[t];
    var key := thread.key;
    hide Inv, Consistent, Victim, Create, Lease;
    assert Consistent(s.pool) by { InvConsistent(s); }
    if thread.cancelled || s.pool.closed {
      assert Tried(s, t) == WithThread(s, t, Ended);
      ThreadStepInv(s, t, Ended);
    } else if key in s.pool.lanes {
      TryExisting(s, t, key);
    } else if |s.pool.lanes| < s.pool.laneCap {
      LaneCreatedInv(s, t, key);
      assert Tried(s, t) == LaneCreated(s, t, key);
    } else {
      TryFull(s, t, key);
    }
  }

  lemma InvConsistent(s: State)
    requires Inv(s)
    ensures Consistent(s.pool)
  {
  }
}

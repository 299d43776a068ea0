/** The use order of the lane factory, told from the run itself: by the pass of `acquire` in which each lane
    was last leased (scoped.go). */
module LaneUses {
  import opened Basics
  import opened LaneSections
  import opened LaneProtocol
  import opened LaneSteps
  import opened LaneRuns

  /** The key that step i leases a lane of, to the caller whose step it is. */
  ghost function LeasedBy(states: seq<State>, steps: seq<Step>, i: nat): Option<Key>
    requires |states| == |steps| + 1 && i < |steps|
  {
    match steps[i]
    case Try(t) =>
      if t in states[i].threads && states[i].threads[t].Acquiring?
         && t in states[i + 1].threads && states[i + 1].threads[t].Holding?
      then Some(states[i].threads[t].key) else None
    case _ => None
  }

  /** One more than the last step before state i that leased a lane of this key, or 0. */
  ghost function LastLease(states: seq<State>, steps: seq<Step>, i: nat, key: Key): nat
    requires |states| == |steps| + 1 && i < |states|
  {
    if i == 0 then 0
    else if LeasedBy(states, steps, i - 1) == Some(key) then i
    else LastLease(states, steps, i - 1, key)
  }

  lemma {:induction false} LastLeaseInPast(states: seq<State>, steps: seq<Step>, i: nat, key: Key)
    requires |states| == |steps| + 1 && i < |states|
    ensures LastLease(states, steps, i, key) <= i
  {
    if i > 0 { LastLeaseInPast(states, steps, i - 1, key); }
  }

  ghost function Uses(states: seq<State>, steps: seq<Step>, i: nat): map<Key, nat>
    requires |states| == |steps| + 1 && i < |states|
  {
    map k | k in states[i].pool.order :: LastLease(states, steps, i, k)
  }

  /** What a step does to the use order: a leasing pass puts its key at the end, a removal takes one out, and
      nothing else touches it. */
  ghost predicate OrderMoves(before: seq<Key>, leased: Option<Key>, after: seq<Key>) {
    match leased
    case Some(key) => after == Without(before, key) + [key]
    case None => after == before || exists key :: after == Without(before, key)
  }

  lemma TryMovesOrder(s: State, t: nat)
    requires Consistent(s.pool) && t in s.threads && s.threads[t].Acquiring?
    ensures OrderMoves(s.pool.order, if Tried(s, t).threads[t].Holding? then Some(s.threads[t].key) else None,
                       Tried(s, t).pool.order)
  {
    hide Consistent, Attempt, Without;
    OrderAfterAttempt(s.pool, s.threads[t].key, s.threads[t].cancelled);
  }

  lemma OthersMoveNothing(s: State, step: Step, s': State)
    requires Consistent(s.pool) && Next(s, step, s') && !step.Try?
    ensures OrderMoves(s.pool.order, None, s'.pool.order)
  {
    hide Consistent, Without, Tried, Drift, CanWake;
  }

  lemma StepMovesOrder(states: seq<State>, steps: seq<Step>, i: nat)
    requires IsRun(states, steps) && i < |steps|
    ensures OrderMoves(states[i].pool.order, LeasedBy(states, steps, i), states[i + 1].pool.order)
  {
    RunInv(states, steps, i);
    RunStep(states, steps, i);
    InvConsistent(states[i]);
    hide IsRun, Inv, Consistent, OrderMoves, Tried, ClosedBy, WithThread, Released, PoolClosedIn, Removed, DriftedTo;
    match steps[i] {
      case Try(t) => TryMovesOrder(states[i], t);
      case _ => OthersMoveNothing(states[i], steps[i], states[i + 1]);
    }
  }

  ghost predicate AllLeased(states: seq<State>, steps: seq<Step>, i: nat)
    requires |states| == |steps| + 1 && i < |states|
  {
    forall k :: k in states[i].pool.order ==> 0 < LastLease(states, steps, i, k)
  }

  /** The order lists the mapped keys by the step that last leased each of them. */
  lemma {:induction false} OrderIsByLastLease(states: seq<State>, steps: seq<Step>, i: nat)
    requires IsRun(states, steps) && i < |states|
    ensures ByUse(states[i].pool.order, Uses(states, steps, i)) && AllLeased(states, steps, i)
  {
    hide Init, Next, ByUse;
    if i == 0 {
      StartsEmpty(states[0]);
      EmptyByUse(Uses(states, steps, 0));
    } else {
      OrderIsByLastLease(states, steps, i - 1);
      StepMovesOrder(states, steps, i - 1);
      MovesKeepUse(states, steps, i - 1);
    }
  }

  lemma StartsEmpty(s: State)
    requires Init(s)
    ensures s.pool.order == []
  {
  }

  lemma EmptyByUse(used: map<Key, nat>)
    ensures ByUse([], used)
  {
  }

  lemma SameUse(order: seq<Key>, used: map<Key, nat>, other: map<Key, nat>)
    requires ByUse(order, used) && forall k :: k in order ==> k in used && k in other && other[k] == used[k]
    ensures ByUse(order, other)
  {
    assert forall i :: 0 <= i < |order| ==> order[i] in order;
  }

  lemma MovesKeepUse(states: seq<State>, steps: seq<Step>, i: nat)
    requires |states| == |steps| + 1 && i < |steps|
    requires ByUse(states[i].pool.order, Uses(states, steps, i)) && AllLeased(states, steps, i)
    requires OrderMoves(states[i].pool.order, LeasedBy(states, steps, i), states[i + 1].pool.order)
    ensures ByUse(states[i + 1].pool.order, Uses(states, steps, i + 1)) && AllLeased(states, steps, i + 1)
  {
    hide ByUse, Without, LeasedBy;
    var before, after := states[i].pool.order, states[i + 1].pool.order;
    var was, now := Uses(states, steps, i), Uses(states, steps, i + 1);
    match LeasedBy(states, steps, i) {
      case Some(key) =>
        forall k | k in was ensures was[k] < i + 1 { LastLeaseInPast(states, steps, i, k); }
        TouchKeepsOrder(before, key, was, i + 1);
        WithoutKeepsOrder(before, key, was);
        SameUse(after, was[key := i + 1], now);
      case None =>
        if after != before {
          var key :| after == Without(before, key);
          WithoutKeepsOrder(before, key, was);
        }
        SameUse(after, was, now);
    }
  }

  lemma PlacesByUse(order: seq<Key>, used: map<Key, nat>, a: Key, b: Key)
    requires ByUse(order, used) && a in order && b in order
    ensures Precedes(order, a, b) <==> used[a] < used[b]
    ensures a != b ==> used[a] != used[b]
  {
    var i :| 0 <= i < |order| && order[i] == a;
    var j :| 0 <= j < |order| && order[j] == b;
    if i < j { assert Precedes(order, a, b); }
  }

  /** Through every interleaving: of two mapped keys the one that was last leased later stands later in the use
      order, whether that lease was its first or a repeat; no two were last leased by one step. */
  lemma LaterLeaseStandsLater(states: seq<State>, steps: seq<Step>, i: nat, a: Key, b: Key)
    requires IsRun(states, steps) && i < |states| && a in states[i].pool.lanes && b in states[i].pool.lanes && a != b
    ensures LastLease(states, steps, i, a) != LastLease(states, steps, i, b)
    ensures LastLease(states, steps, i, a) > 0 && LastLease(states, steps, i, b) > 0
    ensures Precedes(states[i].pool.order, a, b) <==> LastLease(states, steps, i, a) < LastLease(states, steps, i, b)
  {
    RunInv(states, steps, i);
    InvConsistent(states[i]);
    assert a in states[i].pool.order && b in states[i].pool.order;
    OrderIsByLastLease(states, steps, i);
    hide IsRun, Inv, Consistent, ByUse;
    PlacesByUse(states[i].pool.order, Uses(states, steps, i), a, b);
  }

  /** A pass of `acquire` that starts to retire a lane has chosen it itself. */
  lemma TryRetiresVictim(s: State, t: nat, id: nat)
    requires Consistent(s.pool) && t in s.threads && s.threads[t].Acquiring?
    requires id < |s.pool.all| && !s.pool.all[id].retiring
    requires id < |Tried(s, t).pool.all| && Tried(s, t).pool.all[id].retiring
    ensures Victim(s.pool, 0).1 == Some(id)
  {
    hide Victim, ByUse, Touch;
  }

  /** The lane that gives way to a caller was last leased before every other lane that could have given way. */
  lemma VictimWasLeasedFirst(states: seq<State>, steps: seq<Step>, i: nat, id: nat, other: Key)
    requires IsRun(states, steps) && i < |steps| && steps[i].Try?
    requires id < |states[i].pool.all| <= |states[i + 1].pool.all|
    requires !states[i].pool.all[id].retiring && states[i + 1].pool.all[id].retiring
    ensures Present(states[i].pool, id) && Evictable(states[i].pool.all[id])
    ensures var p := states[i].pool;
            other in p.lanes && p.lanes[other] != id && p.lanes[other] < |p.all| && Evictable(p.all[p.lanes[other]]) ==>
              LastLease(states, steps, i, p.all[id].key) < LastLease(states, steps, i, other)
  {
    var s, p := states[i], states[i].pool;
    RunInv(states, steps, i);
    RunStep(states, steps, i);
    InvConsistent(s);
    assert steps[i].t in s.threads && s.threads[steps[i].t].Acquiring? && states[i + 1] == Tried(s, steps[i].t);
    TryRetiresVictim(s, steps[i].t, id);
    VictimIsPresent(p);
    if other in p.lanes && p.lanes[other] != id && p.lanes[other] < |p.all| && Evictable(p.all[p.lanes[other]]) {
      VictimStandsFirst(p, other);
      hide Next, Inv, Consistent, Evictable, Victim;
      LaterLeaseStandsLater(states, steps, i, p.all[id].key, other);
    }
  }
}

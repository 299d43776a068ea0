/** The lane factory as an object that updates its fields in place (scoped.go). Every method does to the
    fields what the section of the same name in LaneSections does to their value. */
module LanePool {
  import opened Basics
  import opened LaneSections
  import opened Scopes

  /** A lane with its pool: `poolOpen`, `inUse` and `conns` are the state of the *sql.DB. `id` numbers
      the lanes in order of creation. */
  class ScopedLane {
    const key: Key
    const param: string
    const value: string
    const params: ParamMap
    ghost const id: nat
    var leases: int
    var retiring: bool
    var poolOpen: bool
    var inUse: nat
    var conns: nat

    constructor (h: Handle, params: ParamMap, ghost id: nat)
      requires h.Scoped?
      ensures key == h.key && param == h.param && value == h.value && this.params == params && this.id == id
      ensures Abs() == Lane(h.key, 1, false, true, 0, 0)
    {
      key, param, value, this.params, this.id := h.key, h.param, h.value, params, id;
      leases, retiring, poolOpen, inUse, conns := 1, false, true, 0, 0;
    }

    ghost function Abs(): Lane
      reads this
    {
      Lane(key, leases, retiring, poolOpen, inUse, conns)
    }
  }

  datatype Acquired = Refused(cancelled: bool) | Got(lane: ScopedLane) | MustWait(channel: nat, retry: bool)

  ghost function OutcomeOf(a: Acquired): Outcome {
    match a
    case Refused(cancelled) => if cancelled then Cancelled else ScopeClosed
    case Got(lane) => Leased(lane.id)
    case MustWait(channel, retry) => Wait(channel, retry)
  }

  class Factory {
    const laneCap: nat
    const perLaneMax: nat
    const baseParams: ParamMap
    var lanes: map<Key, ScopedLane>
    var order: seq<Key>
    var closed: bool
    var gen: nat
    ghost var all: seq<ScopedLane>
    ghost var paramMaps: set<ParamMap>
    ghost var used: map<Key, nat>
    ghost var clock: nat

    ghost function Ids(): map<Key, nat>
      reads this`lanes
    {
      map k | k in lanes :: lanes[k].id
    }

    ghost function States(): (s: seq<Lane>)
      reads this, all
      ensures |s| == |all|
    {
      seq(|all|, i requires 0 <= i < |all| reads this, all => all[i].Abs())
    }

    ghost function Abs(): Pool
      reads this, all
    {
      Pool(laneCap, perLaneMax, Ids(), States(), order, closed, gen, used, clock)
    }

    /** The lanes ever created are numbered, the map's among them; each has a parameter map of its own that
        is the tuned base plus exactly its own scope. */
    ghost predicate Registered()
      reads this`lanes, this`all, this`paramMaps, paramMaps, baseParams
    {
      && (forall i :: 0 <= i < |all| ==> all[i].id == i)
      && (forall k :: k in lanes ==> lanes[k] in all)
      && (forall i :: 0 <= i < |all| ==>
            && IsHandle(Scoped(all[i].key, all[i].param, all[i].value))
            && all[i].params in paramMaps && all[i].params != baseParams
            && all[i].params.entries == baseParams.entries[all[i].param := all[i].value])
      && (forall i, j :: 0 <= i < j < |all| ==> all[i].params != all[j].params)
    }

    ghost predicate Valid()
      reads this, all, paramMaps, baseParams
    {
      Registered() && Consistent(Abs())
    }

    twostate lemma NoLaneChanged()
      requires all == old(all) && forall i :: 0 <= i < |all| ==> all[i].Abs() == old(all[i].Abs())
      ensures Abs().all == old(Abs()).all
    {
    }

    twostate lemma RegisteredShrinks()
      requires old(Registered()) && all == old(all) && paramMaps == old(paramMaps)
      requires unchanged(paramMaps) && unchanged(baseParams)
      requires forall k :: k in lanes ==> k in old(lanes) && lanes[k] == old(lanes)[k]
      ensures Registered()
    {
    }

    twostate lemma RegisteredGrows(h: Handle, new lane: ScopedLane)
      requires old(Registered()) && h.Scoped? && IsHandle(h) && lane.params !in old(paramMaps)
      requires lane.params != baseParams
      requires all == old(all) + [lane] && lane.id == |old(all)| && lanes == old(lanes)[h.key := lane]
      requires paramMaps == old(paramMaps) + {lane.params} && unchanged(old(paramMaps)) && unchanged(baseParams)
      requires h == Scoped(lane.key, lane.param, lane.value)
      requires lane.params.entries == baseParams.entries[lane.param := lane.value]
      ensures Registered()
    {
    }

    twostate lemma LaneDropped(key: Key)
      requires lanes == old(lanes) - {key}
      ensures Abs().lanes == old(Abs()).lanes - {key}
    {
    }

    twostate lemma LaneAdded(key: Key, new lane: ScopedLane)
      requires all == old(all) + [lane] && lane.id == |old(all)| && lanes == old(lanes)[key := lane]
      requires forall i :: 0 <= i < |old(all)| ==> all[i].Abs() == old(all[i].Abs())
      requires lane.Abs() == Lane(key, 1, false, true, 0, 0)
      requires order == old(order) + [key] && used == old(used)[key := old(clock) + 1] && clock == old(clock) + 1
      requires closed == old(closed) && gen == old(gen)
      ensures Abs() == Create(old(Abs()), key)
    {
      assert States() == old(States()) + [lane.Abs()];
      assert Ids() == old(Ids())[key := lane.id];
    }

    twostate lemma UseRecorded(key: Key)
      requires all == old(all) && forall i :: 0 <= i < |all| ==> all[i].Abs() == old(all[i].Abs())
      requires lanes == old(lanes) && closed == old(closed) && gen == old(gen)
      requires order == Touch(old(order), key) && used == old(used)[key := old(clock) + 1] && clock == old(clock) + 1
      ensures Abs() == MostRecent(old(Abs()), key)
    {
      hide Touch;
      NoLaneChanged();
    }

    twostate lemma LaneRemoved(key: Key)
      requires all == old(all) && forall i :: 0 <= i < |all| ==> all[i].Abs() == old(all[i].Abs())
      requires lanes == old(lanes) - {key} && order == Without(old(order), key) && gen == old(gen) + 1
      requires closed == old(closed) && used == old(used) && clock == old(clock)
      ensures Abs() == Remove(old(Abs()), key)
    {
      hide Without;
      NoLaneChanged();
      LaneDropped(key);
    }

    /** A change to one lane is a change to one element of the value. */
    twostate lemma OneLaneChanged(lane: ScopedLane)
      requires Registered() && all == old(all) && lane in all
      requires forall i :: 0 <= i < |all| && all[i] != lane ==> all[i].Abs() == old(all[i].Abs())
      ensures lane.id < |all| && all[lane.id] == lane && old(Abs()).all[lane.id] == old(lane.Abs())
      ensures Abs().all == old(Abs()).all[lane.id := lane.Abs()]
      ensures lanes == old(lanes) ==> Abs().lanes == old(Abs()).lanes
    {
    }

    constructor (laneCap: nat, perLaneMax: nat, baseParams: ParamMap)
      ensures Valid() && Abs() == Pool(laneCap, perLaneMax, map[], [], [], false, 0, map[], 0)
      ensures this.laneCap == laneCap && this.perLaneMax == perLaneMax && this.baseParams == baseParams
    {
      this.laneCap, this.perLaneMax, this.baseParams := laneCap, perLaneMax, baseParams;
      lanes, order, closed, gen := map[], [], false, 0;
      all, paramMaps, used, clock := [], {}, map[], 0;
    }

    /** `touch`: moves a key to the most recently used end. */
    method MoveToEnd(key: Key)
      modifies this`order
      ensures order == Touch(old(order), key)
    {
      for i := 0 to |order|
        invariant order == old(order) && key !in order[..i]
      {
        if order[i] == key {
          WithoutSplits(order, key, i);
          order := order[..i] + order[i + 1..] + [key];
          return;
        }
      }
      WithoutAbsent(order, key);
      order := order + [key];
    }

    lemma ValidIsConsistent()
      requires Valid()
      ensures Consistent(Abs())
    {
    }

    lemma LaneInOrder(i: nat)
      requires Valid() && i < |order|
      ensures order[i] in lanes && lanes[order[i]] in all
      ensures var lane := lanes[order[i]];
              && order[i] in Abs().lanes && Abs().lanes[order[i]] == lane.id
              && lane.id < |all| && all[lane.id] == lane && Abs().all[lane.id] == lane.Abs()
    {
      assert order[i] in Abs().order;
    }

    /** `evictForRoom`: marks the first lane in use order that can close. */
    method EvictForRoom() returns (cleanupPending: bool, evicted: Option<ScopedLane>)
      requires Valid()
      modifies all
      ensures Valid() && all == old(all)
      ensures evicted.Some? ==> evicted.value in all
      ensures old(Victim(Abs(), 0)) == (cleanupPending, if evicted.None? then None else Some(evicted.value.id))
      ensures Abs() == if evicted.None? then old(Abs()) else Retire(old(Abs()), evicted.value.id)
    {
      ghost var p := Abs();
      hide Consistent, Victim, Valid, IsHandle, Ids, States;
      assert Consistent(p) by { ValidIsConsistent(); }
      cleanupPending, evicted := false, None;
      for i := 0 to |order|
        invariant Abs() == p && Consistent(p) && Valid() && all == old(all) && order == old(order) && evicted == None
        invariant Victim(p, 0) == (cleanupPending || Victim(p, i).0, Victim(p, i).1)
      {
        LaneInOrder(i);
        var lane := lanes[order[i]];
        VictimStep(p, i);
        if lane.retiring || lane.leases != 0 {
          continue;
        }
        if lane.inUse != 0 {
          cleanupPending := true;
          continue;
        }
        evicted := Some(lane);
        MarkRetiring(lane);
        return;
      }
      VictimStep(p, |order|);
    }

    method MarkRetiring(lane: ScopedLane)
      requires Valid() && lane in all
      modifies lane`retiring
      ensures Valid()
      ensures Abs() == Retire(old(Abs()), lane.id)
    {
      hide Consistent, Registered, Ids, States;
      ghost var p := Abs();
      lane.retiring := true;
      OneLaneChanged(lane);
      UpdateConsistent(p, lane.id, lane.Abs());
    }

    lemma LaneAt(key: Key)
      requires Valid() && key in lanes
      ensures lanes[key] in all && lanes[key].id < |all| && all[lanes[key].id] == lanes[key] && lanes[key].key == key
      ensures key in Abs().lanes && Abs().lanes[key] == lanes[key].id && Abs().all[lanes[key].id] == lanes[key].Abs()
      ensures |Abs().lanes| == |lanes|
    {
      assert Abs().all[Abs().lanes[key]].key == key;
      assert Abs().lanes.Keys == lanes.Keys;
    }

    lemma SameKeys(key: Key)
      requires Valid()
      ensures key in Abs().lanes <==> key in lanes
      ensures |Abs().lanes| == |lanes| && Abs().laneCap == laneCap
    {
      assert Abs().lanes.Keys == lanes.Keys;
    }

    /** The lane found under a handle's key sends that handle's scope. */
    lemma OwnScope(h: Handle)
      requires Valid() && h.Scoped? && IsHandle(h) && h.key in lanes
      ensures lanes[h.key].params in paramMaps
      ensures lanes[h.key].params.entries == baseParams.entries[h.param := h.value]
    {
      hide IsHandle, ByUse;
      LaneAt(h.key);
      var lane := lanes[h.key];
      KeyTellsScope(h, Scoped(lane.key, lane.param, lane.value));
    }

    method CountLease(lane: ScopedLane)
      requires Valid() && lane in all
      modifies lane`leases
      ensures Valid()
      ensures Abs() == Counted(old(Abs()), lane.id)
    {
      hide Consistent, Registered, Ids, States;
      ghost var p := Abs();
      lane.leases := lane.leases + 1;
      OneLaneChanged(lane);
      UpdateConsistent(p, lane.id, lane.Abs());
    }

    method RecordUse(key: Key)
      requires Valid() && key in lanes
      modifies this`order, this`used, this`clock
      ensures Valid()
      ensures Abs() == MostRecent(old(Abs()), key)
    {
      hide Consistent, Registered, Abs, MostRecent;
      SameKeys(key);
      MostRecentConsistent(Abs(), key);
      MoveToEnd(key);
      used, clock := used[key := clock + 1], clock + 1;
      RegisteredShrinks();
      UseRecorded(key);
    }

    method TakeLease(key: Key, lane: ScopedLane)
      requires Valid() && key in lanes && lanes[key] == lane
      modifies this`order, this`used, this`clock, lane`leases
      ensures Valid()
      ensures Abs() == Lease(old(Abs()), key)
    {
      hide Valid, Counted, MostRecent, Consistent, Ids, States;
      LaneAt(key);
      ValidIsConsistent();
      CountLease(lane);
      RecordUse(key);
    }

    /** `laneConfig` and `sql.OpenDB`: the lane's parameters are a fresh copy of the base. */
    method OpenLane(h: Handle) returns (lane: ScopedLane)
      requires h.Scoped?
      ensures fresh(lane) && fresh(lane.params) && h == Scoped(lane.key, lane.param, lane.value) && lane.id == |all|
      ensures lane.Abs() == Lane(h.key, 1, false, true, 0, 0)
      ensures lane.params.entries == baseParams.entries[h.param := h.value]
    {
      var params := CopyWith(baseParams, h.param, h.value);
      lane := new ScopedLane(h, params, |all|);
    }

    method AddLane(h: Handle) returns (lane: ScopedLane)
      requires Valid() && h.Scoped? && IsHandle(h) && h.key !in lanes && |lanes| < laneCap
      modifies this
      ensures Valid() && fresh(lane) && lane.id == |old(all)| && all == old(all) + [lane]
      ensures lanes == old(lanes)[h.key := lane] && lane.params.entries == baseParams.entries[h.param := h.value]
      ensures Abs() == Create(old(Abs()), h.key)
    {
      hide Consistent, IsHandle, Registered, Abs, Create, Ids, States, ScopedLane.Abs;
      SameKeys(h.key);
      CreateConsistent(Abs(), h.key);
      lane := OpenLane(h);
      lanes := lanes[h.key := lane];
      all, paramMaps := all + [lane], paramMaps + {lane.params};
      order := order + [h.key];
      used, clock := used[h.key := clock + 1], clock + 1;
      RegisteredGrows(h, lane);
      LaneAdded(h.key, lane);
    }

    /** One pass of `acquire` through the mutex. A lane that is handed out sends exactly the handle's own
        scope on top of the tuned base, and its key is then the most recently used. */
    method TryAcquire(h: Handle, cancelled: bool) returns (r: Acquired, evicted: Option<ScopedLane>)
      requires Valid() && h.Scoped? && IsHandle(h)
      modifies this, all
      ensures Valid()
      ensures (Abs(), OutcomeOf(r), if evicted.None? then None else Some(evicted.value.id))
              == Attempt(old(Abs()), h.key, cancelled)
      ensures r.Got? ==> r.lane in all && r.lane.params.entries == baseParams.entries[h.param := h.value]
      ensures if r.Got? then UsedLast(old(order), h.key, order) else order == old(order)
    {
      hide Registered, Consistent, IsHandle, Attempt, Victim, Lease, Create, Ids, States, UsedLast;
      evicted := None;
      ghost var p := Abs();
      LeasingIsUsing(p, h.key, cancelled);
      AttemptCases(p, h.key, cancelled);
      SameKeys(h.key);
      if cancelled { return Refused(true), None; }
      if closed { return Refused(false), None; }
      if h.key in lanes {
        LaneAt(h.key);
        var lane := lanes[h.key];
        if !lane.retiring {
          OwnScope(h);
          TakeLease(h.key, lane);
          return Got(lane), None;
        }
        return MustWait(gen, false), None;
      }
      var cleanupPending := false;
      if |lanes| >= laneCap {
        cleanupPending, evicted := EvictForRoom();
      } else {
        var lane := AddLane(h);
        return Got(lane), None;
      }
      r := MustWait(gen, cleanupPending);
    }

    /** `notify` */
    method Notify()
      modifies this`gen
      ensures gen == old(gen) + 1
    {
      gen := gen + 1;
    }

    /** `release` */
    method ReleaseLane(lane: ScopedLane)
      requires Valid() && lane in all
      modifies this`gen, lane`leases
      ensures Valid()
      ensures Abs() == Release(old(Abs()), lane.id)
    {
      ghost var p := Abs();
      hide Consistent, Registered, Ids, States;
      lane.leases := lane.leases - 1;
      Notify();
      OneLaneChanged(lane);
      ReleaseConsistent(p, lane.id);
    }

    /** `pool.Close`, outside the mutex. */
    method ClosePool(lane: ScopedLane)
      requires Valid() && lane in all
      modifies lane`poolOpen, lane`conns
      ensures Valid()
      ensures Abs() == PoolClosed(old(Abs()), lane.id)
    {
      ghost var p := Abs();
      hide Consistent, Registered, Ids, States;
      lane.poolOpen := false;
      lane.conns := lane.inUse;
      OneLaneChanged(lane);
      UpdateConsistent(p, lane.id, lane.Abs());
    }

    /** The loop of `retire` that takes a key out of the use order. */
    method DropFromOrder(key: Key)
      modifies this`order
      ensures order == Without(old(order), key)
    {
      for i := 0 to |order|
        invariant order == old(order) && key !in order[..i]
      {
        if order[i] == key {
          WithoutSplits(order, key, i);
          order := order[..i] + order[i + 1..];
          return;
        }
      }
      WithoutAbsent(order, key);
    }

    /** The second half of `retire`. */
    method RemoveLane(key: Key)
      requires Valid()
      modifies this`lanes, this`order, this`gen
      ensures Valid()
      ensures Abs() == Remove(old(Abs()), key)
    {
      hide Consistent, Without, Registered, Abs, Remove;
      RemoveConsistent(Abs(), key);
      lanes := lanes - {key};
      DropFromOrder(key);
      Notify();
      RegisteredShrinks();
      LaneRemoved(key);
    }

    /** The loop of `Close`: every lane is awaited, and those not yet retiring start to. */
    method RetireEach() returns (awaited: set<ScopedLane>, started: set<ScopedLane>)
      requires Registered()
      modifies all
      ensures Registered() && awaited == lanes.Values
      ensures started == set lane | lane in awaited && !old(lane.retiring)
      ensures forall i :: 0 <= i < |all| ==> all[i].Abs() == Closing(old(all[i].Abs()), all[i] in awaited)
    {
      hide Registered;
      awaited, started := {}, {};
      var rest := lanes.Keys;
      while rest != {}
        invariant rest <= lanes.Keys && Registered()
        invariant awaited == set k | k in lanes && k !in rest :: lanes[k]
        invariant started == set lane | lane in awaited && !old(lane.retiring)
        invariant forall i :: 0 <= i < |all| ==> all[i].Abs() == Closing(old(all[i].Abs()), all[i] in awaited)
        decreases |rest|
      {
        var key :| key in rest;
        rest := rest - {key};
        var lane := lanes[key];
        LaneKnown(key);
        awaited := awaited + {lane};
        if !lane.retiring {
          lane.retiring := true;
          started := started + {lane};
        }
      }
    }

    /** The section of `Close`: visits every lane in the map and starts retiring those that are not. */
    method CloseLanes() returns (awaited: set<ScopedLane>, started: set<ScopedLane>)
      requires Valid()
      modifies this`closed, this`gen, all
      ensures Valid()
      ensures Abs() == CloseAll(old(Abs()))
      ensures awaited == lanes.Values
      ensures started == set lane | lane in awaited && !old(lane.retiring)
    {
      hide Consistent, Registered, Abs;
      closed := true;
      Notify();
      awaited, started := RetireEach();
      LanesClosed();
    }

    lemma LaneKnown(key: Key)
      requires Registered() && key in lanes
      ensures lanes[key] in all
    {
    }

    twostate lemma LanesClosed()
      requires old(Valid()) && all == old(all) && lanes == old(lanes) && order == old(order) && used == old(used)
      requires clock == old(clock)
      requires closed && gen == old(gen) + 1
      requires forall i :: 0 <= i < |all| ==> all[i].Abs() == Closing(old(all[i].Abs()), all[i] in lanes.Values)
      ensures forall k :: k in old(Abs()).lanes ==> old(Abs()).lanes[k] < |old(Abs()).all|
      ensures Abs() == CloseAll(old(Abs())) && Consistent(Abs())
    {
      hide ByUse, IsHandle;
      ghost var p := old(Abs());
      forall i | 0 <= i < |all|
        ensures all[i] in lanes.Values <==> p.all[i].key in p.lanes && p.lanes[p.all[i].key] == i
      {
        if k :| k in lanes && lanes[k] == all[i] { assert p.all[p.lanes[k]].key == k; }
      }
      assert States() == CloseAll(p).all && Ids() == p.lanes;
      CloseAllConsistent(p);
    }
  }

  function Closing(lane: Lane, awaited: bool): Lane {
    if awaited then lane.(retiring := true) else lane
  }

  lemma ReleaseConsistent(p: Pool, id: nat)
    requires Consistent(p) && id < |p.all|
    ensures Consistent(Release(p, id))
  {
    hide ByUse;
  }

  lemma VictimStep(p: Pool, i: nat)
    requires Consistent(p) && i <= |p.order|
    ensures i < |p.order| ==> p.order[i] in p.lanes && p.lanes[p.order[i]] < |p.all|
    ensures Victim(p, i) ==
            if i == |p.order| then (false, None)
            else
              var lane := p.all[p.lanes[p.order[i]]];
              if lane.retiring || lane.leases != 0 then Victim(p, i + 1)
              else if lane.inUse != 0 then (true, Victim(p, i + 1).1)
              else (false, Some(p.lanes[p.order[i]]))
  {
  }
}

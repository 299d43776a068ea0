/** The critical sections of the tenant lane factory (scoped.go) as functions of the state its mutex
    guards. A lane is known by its number: lanes are numbered in the order they were created, and a
    number outlives the lane's removal from the map, as a pointer to it does. */
module LaneSections {
  import opened Basics

  type Key = string

  /** `inUse` is what `pool.Stats` reports; `conns` counts the sockets the pool still holds open. */
  datatype Lane = Lane(key: Key, leases: int, retiring: bool, poolOpen: bool, inUse: nat, conns: nat)

  /** `gen` numbers the broadcast channels: channel g is closed exactly when g < gen. The history
      variable `used` stamps the last use of each key; `clock` is the newest stamp. */
  datatype Pool = Pool(
    laneCap: nat,
    perLaneMax: nat,
    lanes: map<Key, nat>,
    all: seq<Lane>,
    order: seq<Key>,
    closed: bool,
    gen: nat,
    used: map<Key, nat>,
    clock: nat)

  datatype Outcome = Cancelled | ScopeClosed | Leased(id: nat) | Wait(channel: nat, retry: bool)

  // ----- The use order

  function Without(order: seq<Key>, key: Key): seq<Key> {
    if order == [] then [] else if order[0] == key then order[1..] else [order[0]] + Without(order[1..], key)
  }

  /** `touch` */
  function Touch(order: seq<Key>, key: Key): seq<Key> {
    Without(order, key) + [key]
  }

  /** Strictly by last use, which also makes the keys distinct. */
  ghost predicate ByUse(order: seq<Key>, used: map<Key, nat>) {
    && (forall i :: 0 <= i < |order| ==> order[i] in used)
    && forall i, j :: 0 <= i < j < |order| ==> used[order[i]] < used[order[j]]
  }

  /** An order by use is its least recently used key, followed by an order of later ones. */
  lemma HeadAndTail(order: seq<Key>, used: map<Key, nat>)
    requires ByUse(order, used) && order != []
    ensures ByUse(order[1..], used) && order[0] in used
    ensures forall k :: k in order[1..] ==> k in used && used[order[0]] < used[k]
  {
  }

  lemma Prepended(key: Key, rest: seq<Key>, used: map<Key, nat>)
    requires ByUse(rest, used) && key in used && forall k :: k in rest ==> k in used && used[key] < used[k]
    ensures ByUse([key] + rest, used)
  {
  }

  lemma {:induction false} WithoutKeepsOrder(order: seq<Key>, key: Key, used: map<Key, nat>)
    requires ByUse(order, used)
    ensures ByUse(Without(order, key), used)
    ensures forall k :: k in Without(order, key) <==> k in order && k != key
  {
    if order != [] {
      HeadAndTail(order, used);
      assert order == [order[0]] + order[1..];
      hide ByUse;
      if order[0] != key {
        WithoutKeepsOrder(order[1..], key, used);
        Prepended(order[0], Without(order[1..], key), used);
      }
    }
  }

  /** A key used just now goes to the end, and every other key keeps its place. */
  lemma TouchKeepsOrder(order: seq<Key>, key: Key, used: map<Key, nat>, stamp: nat)
    requires ByUse(order, used) && forall k :: k in used ==> used[k] < stamp
    ensures ByUse(Touch(order, key), used[key := stamp])
    ensures forall k :: k in Touch(order, key) <==> k in order || k == key
  {
    WithoutKeepsOrder(order, key, used);
    assert forall i :: 0 <= i < |Without(order, key)| ==> Without(order, key)[i] in Without(order, key);
  }

  lemma {:induction false} WithoutSplits(order: seq<Key>, key: Key, i: nat)
    requires i < |order| && order[i] == key && key !in order[..i]
    ensures Without(order, key) == order[..i] + order[i + 1..]
  {
    if i == 0 {
    } else {
      assert order[0] == order[..i][0];
      assert order[1..][..i - 1] == order[..i][1..];
      WithoutSplits(order[1..], key, i - 1);
      assert order[1..][i..] == order[i + 1..];
    }
  }

  lemma {:induction false} WithoutAbsent(order: seq<Key>, key: Key)
    requires key !in order
    ensures Without(order, key) == order
  {
    if order != [] {
      WithoutAbsent(order[1..], key);
    }
  }

  /** Key `a` stands somewhere before key `b`. */
  ghost predicate Precedes(order: seq<Key>, a: Key, b: Key) {
    exists i, j :: 0 <= i < j < |order| && order[i] == a && order[j] == b
  }

  /** Taking a key out leaves the others in their order. */
  lemma WithoutKeepsPlaces(order: seq<Key>, key: Key, a: Key, b: Key)
    requires a != key && b != key
    ensures Precedes(Without(order, key), a, b) <==> Precedes(order, a, b)
  {
    if key in order {
      var i := FirstPlace(order, key);
      WithoutSplits(order, key, i);
      hide Without;
      if Precedes(order, a, b) {
        var j, k :| 0 <= j < k < |order| && order[j] == a && order[k] == b;
        var rest := order[..i] + order[i + 1..];
        assert rest[if j < i then j else j - 1] == a && rest[if k < i then k else k - 1] == b;
      }
      if Precedes(Without(order, key), a, b) {
        var rest := order[..i] + order[i + 1..];
        var j, k :| 0 <= j < k < |rest| && rest[j] == a && rest[k] == b;
        assert order[if j < i then j else j + 1] == a && order[if k < i then k else k + 1] == b;
      }
    } else {
      WithoutAbsent(order, key);
    }
  }

  lemma {:induction false} FirstPlace(order: seq<Key>, key: Key) returns (i: nat)
    requires key in order
    ensures i < |order| && order[i] == key && key !in order[..i]
  {
    if order[0] == key {
      i := 0;
    } else {
      var j := FirstPlace(order[1..], key);
      i := j + 1;
      assert order[..i] == [order[0]] + order[1..][..j];
    }
  }

  // ----- What holds whenever the mutex is free

  ghost predicate Present(p: Pool, id: nat) {
    id < |p.all| && p.all[id].key in p.lanes && p.lanes[p.all[id].key] == id
  }

  /** The map points at lanes of their own key, at most `laneCap` of them; the use order lists exactly
      its keys, least recently used first. */
  ghost predicate Consistent(p: Pool) {
    && (forall k :: k in p.lanes ==> p.lanes[k] < |p.all| && p.all[p.lanes[k]].key == k)
    && (forall k :: k in p.order <==> k in p.lanes)
    && ByUse(p.order, p.used)
    && (forall k :: k in p.used ==> p.used[k] <= p.clock)
    && |p.lanes| <= p.laneCap
  }

  // ----- Eviction

  predicate Evictable(lane: Lane) {
    !lane.retiring && lane.leases == 0 && lane.inUse == 0
  }

  /** The lane at a place in the use order. */
  function LaneInPlace(p: Pool, i: nat): (id: nat)
    requires Consistent(p) && i < |p.order|
    ensures p.order[i] in p.lanes && id == p.lanes[p.order[i]] < |p.all|
  {
    assert p.order[i] in p.order;
    p.lanes[p.order[i]]
  }

  /** The scan of `evictForRoom` from position `i` on: whether it passed over an unleased lane only
      because a socket is still being cleaned up, and the first lane it can close. */
  function Victim(p: Pool, i: nat): (r: (bool, Option<nat>))
    requires Consistent(p) && i <= |p.order|
    ensures r.1.Some? ==> r.1.value < |p.all|
    decreases |p.order| - i
  {
    if i == |p.order| then (false, None)
    else
      var lane := p.all[LaneInPlace(p, i)];
      if lane.retiring || lane.leases != 0 then Victim(p, i + 1)
      else if lane.inUse != 0 then (true, Victim(p, i + 1).1)
      else (false, Some(LaneInPlace(p, i)))
  }

  /** Places from i on that hold no lane to close. */
  ghost predicate NoneEvictable(p: Pool, i: nat, j: nat)
    requires Consistent(p) && j <= |p.order|
  {
    forall h :: i <= h < j ==> !Evictable(p.all[LaneInPlace(p, h)])
  }

  /** Where the scan finds its victim: at the first place from i on that holds an evictable lane. */
  ghost predicate IsFirst(p: Pool, i: nat, j: nat, id: nat)
    requires Consistent(p)
  {
    i <= j < |p.order| && LaneInPlace(p, j) == id && Evictable(p.all[id]) && NoneEvictable(p, i, j)
  }

  /** The scan finds the first evictable lane if there is one; it reports no cleanup only when every lane it
      passed over is retiring or leased. */
  lemma {:induction false} VictimIsFirst(p: Pool, i: nat)
    requires Consistent(p) && i <= |p.order|
    ensures Victim(p, i).1.Some? ==> exists j: nat :: IsFirst(p, i, j, Victim(p, i).1.value)
    ensures Victim(p, i).1.None? ==> NoneEvictable(p, i, |p.order|)
    ensures Victim(p, i) == (false, None) ==>
              forall h :: i <= h < |p.order| ==>
                  p.all[LaneInPlace(p, h)].retiring || p.all[LaneInPlace(p, h)].leases != 0
    decreases |p.order| - i
  {
    hide Consistent;
    if i < |p.order| {
      VictimIsFirst(p, i + 1);
      var lane := p.all[LaneInPlace(p, i)];
      if Evictable(lane) {
        assert IsFirst(p, i, i, LaneInPlace(p, i));
      } else if Victim(p, i + 1).1.Some? {
        var j: nat :| IsFirst(p, i + 1, j, Victim(p, i + 1).1.value);
        assert IsFirst(p, i, j, Victim(p, i).1.value);
      }
    }
  }

  /** No two places hold one lane, so the place of a key is the place of its lane. */
  lemma PlaceOfKey(p: Pool, k: Key) returns (h: nat)
    requires Consistent(p) && k in p.lanes
    ensures h < |p.order| && p.order[h] == k && LaneInPlace(p, h) == p.lanes[k]
  {
    h :| 0 <= h < |p.order| && p.order[h] == k;
  }

  /** The lane that gives way stands before every other that could. */
  lemma VictimStandsFirst(p: Pool, k: Key)
    requires Consistent(p) && Victim(p, 0).1.Some?
    requires k in p.lanes && Evictable(p.all[p.lanes[k]]) && p.lanes[k] != Victim(p, 0).1.value
    ensures p.all[Victim(p, 0).1.value].key in p.lanes && Precedes(p.order, p.all[Victim(p, 0).1.value].key, k)
    ensures p.all[Victim(p, 0).1.value].key != k
  {
    VictimIsFirst(p, 0);
    hide Victim;
    var id := Victim(p, 0).1.value;
    var j: nat :| IsFirst(p, 0, j, id);
    var h := PlaceOfKey(p, k);
    assert p.order[j] == p.all[id].key;
    assert h > j;
  }

  /** The lane that gives way is the least recently used of all lanes that could. */
  lemma VictimIsLeastRecentlyUsed(p: Pool, k: Key)
    requires Consistent(p) && Victim(p, 0).1.Some?
    requires k in p.lanes && Evictable(p.all[p.lanes[k]]) && p.lanes[k] != Victim(p, 0).1.value
    ensures p.all[Victim(p, 0).1.value].key in p.used && k in p.used
    ensures p.used[p.all[Victim(p, 0).1.value].key] < p.used[k]
  {
    VictimStandsFirst(p, k);
    hide Victim;
  }

  // ----- The sections

  function Update(p: Pool, id: nat, lane: Lane): Pool
    requires id < |p.all|
  {
    p.(all := p.all[id := lane])
  }

  function Retire(p: Pool, id: nat): Pool
    requires id < |p.all|
  {
    Update(p, id, p.all[id].(retiring := true))
  }

  function Counted(p: Pool, id: nat): Pool
    requires id < |p.all|
  {
    Update(p, id, p.all[id].(leases := p.all[id].leases + 1))
  }

  function MostRecent(p: Pool, key: Key): Pool {
    p.(order := Touch(p.order, key), used := p.used[key := p.clock + 1], clock := p.clock + 1)
  }

  function Lease(p: Pool, key: Key): Pool
    requires Consistent(p) && key in p.lanes
  {
    MostRecent(Counted(p, p.lanes[key]), key)
  }

  function Create(p: Pool, key: Key): Pool {
    p.(lanes := p.lanes[key := |p.all|],
       all := p.all + [Lane(key, 1, false, true, 0, 0)],
       order := p.order + [key],
       used := p.used[key := p.clock + 1],
       clock := p.clock + 1)
  }

  /** One pass of `acquire` through the mutex, and the lane whose retirement it has started. */
  function Attempt(p: Pool, key: Key, cancelled: bool): (r: (Pool, Outcome, Option<nat>))
    requires Consistent(p)
  {
    if cancelled then (p, Cancelled, None)
    else if p.closed then (p, ScopeClosed, None)
    else if key in p.lanes && !p.all[p.lanes[key]].retiring then (Lease(p, key), Leased(p.lanes[key]), None)
    else if key in p.lanes then (p, Wait(p.gen, false), None)
    else if |p.lanes| < p.laneCap then (Create(p, key), Leased(|p.all|), None)
    else
      match Victim(p, 0)
      case (cleanup, None) => (p, Wait(p.gen, cleanup), None)
      case (cleanup, Some(id)) => (Retire(p, id), Wait(p.gen, cleanup), Some(id))
  }

  /** `release` */
  function Release(p: Pool, id: nat): Pool
    requires id < |p.all|
  {
    Update(p, id, p.all[id].(leases := p.all[id].leases - 1)).(gen := p.gen + 1)
  }

  /** `pool.Close` has returned: sockets in use stay open until their borrower is done. */
  function PoolClosed(p: Pool, id: nat): Pool
    requires id < |p.all|
  {
    Update(p, id, p.all[id].(poolOpen := false, conns := p.all[id].inUse))
  }

  /** The second half of `retire`, under the mutex. */
  function Remove(p: Pool, key: Key): Pool {
    p.(lanes := p.lanes - {key}, order := Without(p.order, key), gen := p.gen + 1)
  }

  /** The section of `Close`: every lane still in the map retires. */
  function CloseAll(p: Pool): Pool
    requires forall k :: k in p.lanes ==> p.lanes[k] < |p.all|
  {
    p.(closed := true, gen := p.gen + 1,
       all := seq(|p.all|, i requires 0 <= i < |p.all| =>
                  if p.all[i].key in p.lanes && p.lanes[p.all[i].key] == i
                  then p.all[i].(retiring := true) else p.all[i]))
  }

  /** What a pool's connections may do on their own: without a lease none is checked out or opened,
      and a closed pool only ever gives them back. */
  predicate Drift(p: Pool, id: nat, inUse: nat, conns: nat)
    requires id < |p.all|
  {
    var lane := p.all[id];
    && inUse <= conns <= p.perLaneMax
    && (lane.leases <= 0 ==> inUse <= lane.inUse && conns <= lane.conns)
    && (!lane.poolOpen ==> conns == inUse <= lane.inUse)
  }

  function Drifted(p: Pool, id: nat, inUse: nat, conns: nat): Pool
    requires id < |p.all|
  {
    Update(p, id, p.all[id].(inUse := inUse, conns := conns))
  }

  // ----- Every section leaves the shared state consistent

  lemma MostRecentConsistent(p: Pool, key: Key)
    requires Consistent(p) && key in p.lanes
    ensures Consistent(MostRecent(p, key))
  {
    TouchKeepsOrder(p.order, key, p.used, p.clock + 1);
  }

  lemma LeaseConsistent(p: Pool, key: Key)
    requires Consistent(p) && key in p.lanes
    ensures Consistent(Lease(p, key))
  {
    hide ByUse, Touch;
    UpdateConsistent(p, p.lanes[key], Counted(p, p.lanes[key]).all[p.lanes[key]]);
    MostRecentConsistent(Counted(p, p.lanes[key]), key);
  }

  lemma CreateConsistent(p: Pool, key: Key)
    requires Consistent(p) && key !in p.lanes && |p.lanes| < p.laneCap
    ensures Consistent(Create(p, key))
  {
    var q := Create(p, key);
    assert key !in p.order;
    assert forall i :: 0 <= i < |p.order| ==> p.order[i] in p.order;
    assert |q.lanes| == |p.lanes| + 1;
  }

  lemma RemoveConsistent(p: Pool, key: Key)
    requires Consistent(p)
    ensures Consistent(Remove(p, key))
    ensures key in p.lanes ==> |Remove(p, key).lanes| == |p.lanes| - 1
  {
    WithoutKeepsOrder(p.order, key, p.used);
    SmallerMap(p.lanes, key);
  }

  lemma SmallerMap(m: map<Key, nat>, key: Key)
    ensures |m - {key}| == if key in m then |m| - 1 else |m|
  {
    assert (m - {key}).Keys == m.Keys - {key};
  }

  lemma UpdateConsistent(p: Pool, id: nat, lane: Lane)
    requires Consistent(p) && id < |p.all| && lane.key == p.all[id].key
    ensures Consistent(Update(p, id, lane))
  {
  }

  lemma CloseAllConsistent(p: Pool)
    requires Consistent(p)
    ensures Consistent(CloseAll(p))
  {
  }

  lemma AttemptConsistent(p: Pool, key: Key, cancelled: bool)
    requires Consistent(p)
    ensures Consistent(Attempt(p, key, cancelled).0)
  {
    var (q, outcome, victim) := Attempt(p, key, cancelled);
    if victim.Some? {
      UpdateConsistent(p, victim.value, p.all[victim.value].(retiring := true));
    } else if outcome.Leased? {
      if key in p.lanes { LeaseConsistent(p, key); } else { CreateConsistent(p, key); }
    }
  }

  // ----- What a lease does to the use order

  /** Somebody put at the end follows everybody else and leaves their order alone. */
  lemma AppendedPlaces(order: seq<Key>, key: Key, a: Key, b: Key)
    requires a != key && b != key
    ensures Precedes(order + [key], a, b) <==> Precedes(order, a, b)
  {
    if Precedes(order, a, b) {
      var i, j :| 0 <= i < j < |order| && order[i] == a && order[j] == b;
      assert (order + [key])[i] == a && (order + [key])[j] == b;
    }
    if Precedes(order + [key], a, b) {
      var i, j :| 0 <= i < j < |order + [key]| && (order + [key])[i] == a && (order + [key])[j] == b;
      assert order[i] == a && order[j] == b;
    }
  }

  /** `after` is `before` with the key at its end, where it may or may not have stood elsewhere, and all other
      keys in the order they had. */
  ghost predicate UsedLast(before: seq<Key>, key: Key, after: seq<Key>) {
    && after != [] && after[|after| - 1] == key
    && (forall k :: k in after <==> k in before || k == key)
    && forall a, b :: a != key && b != key ==> (Precedes(after, a, b) <==> Precedes(before, a, b))
  }

  lemma MovedToEnd(order: seq<Key>, key: Key, used: map<Key, nat>)
    requires ByUse(order, used)
    ensures UsedLast(order, key, Without(order, key) + [key])
  {
    WithoutKeepsOrder(order, key, used);
    hide Without, ByUse;
    var rest := Without(order, key);
    forall a, b | a != key && b != key ensures Precedes(rest + [key], a, b) <==> Precedes(order, a, b) {
      AppendedPlaces(rest, key, a, b);
      WithoutKeepsPlaces(order, key, a, b);
    }
    hide Precedes;
  }

  lemma AttemptCases(p: Pool, key: Key, cancelled: bool)
    requires Consistent(p)
    ensures cancelled ==> Attempt(p, key, cancelled) == (p, Cancelled, None)
    ensures !cancelled && p.closed ==> Attempt(p, key, cancelled) == (p, ScopeClosed, None)
    ensures !cancelled && !p.closed && key in p.lanes ==>
              Attempt(p, key, cancelled) == if p.all[p.lanes[key]].retiring then (p, Wait(p.gen, false), None)
                                            else (Lease(p, key), Leased(p.lanes[key]), None)
    ensures !cancelled && !p.closed && key !in p.lanes && |p.lanes| < p.laneCap ==>
              Attempt(p, key, cancelled) == (Create(p, key), Leased(|p.all|), None)
    ensures !cancelled && !p.closed && key !in p.lanes && |p.lanes| >= p.laneCap ==>
              var (cleanup, victim) := Victim(p, 0);
              (victim.Some? ==> victim.value < |p.all|)
              && Attempt(p, key, cancelled)
                 == (if victim.None? then p else Retire(p, victim.value), Wait(p.gen, cleanup), victim)
  {
    hide ByUse, Lease, Create;
  }

  /** What an attempt writes to the use order, case by case. */
  lemma OrderAfterAttempt(p: Pool, key: Key, cancelled: bool)
    requires Consistent(p)
    ensures var (q, outcome, _) := Attempt(p, key, cancelled);
            if outcome.Leased?
            then q.order == Without(p.order, key) + [key] && q.used == p.used[key := p.clock + 1]
            else q.order == p.order && q.used == p.used
  {
    AttemptCases(p, key, cancelled);
    if key !in p.lanes {
      assert key !in p.order;
      WithoutAbsent(p.order, key);
    }
    hide Attempt, Consistent, Victim, Without, Touch;
    assert key in p.lanes ==> Lease(p, key).order == Touch(p.order, key);
    assert Touch(p.order, key) == Without(p.order, key) + [key] by { TouchPutsLast(p.order, key); }
    hide Lease, Create;
  }

  lemma TouchPutsLast(order: seq<Key>, key: Key)
    ensures Touch(order, key) == Without(order, key) + [key]
  {
  }

  /** Every pass that leases, a repeat lease no less than a first one, makes its key the most recently used;
      a pass that does not leaves the order alone. */
  lemma LeasingIsUsing(p: Pool, key: Key, cancelled: bool)
    requires Consistent(p)
    ensures var (q, outcome, _) := Attempt(p, key, cancelled);
            if outcome.Leased? then
              && UsedLast(p.order, key, q.order)
              && key in q.used && forall k :: k in q.used && k != key ==> q.used[k] < q.used[key]
            else q.order == p.order && q.used == p.used
  {
    OrderAfterAttempt(p, key, cancelled);
    MovedToEnd(p.order, key, p.used);
    hide Attempt, ByUse, UsedLast, Without;
  }

  // ----- What an attempt decides

  /** A lane that is kept only because a connection of its last user is still being cleaned up. */
  predicate CleaningUp(lane: Lane) {
    !lane.retiring && lane.leases == 0 && lane.inUse != 0
  }

  /** When a caller is served at once, when it has to wait, and for what. It is served exactly when its lane is in
      the map and stays there, or there is room for a new one; a lane is marked to make room exactly when there is
      none and some lane can close; and the retry timer is armed only for a lane that is being cleaned up, and
      always when nothing but such lanes stand in the way. */
  lemma AttemptDecides(p: Pool, key: Key, cancelled: bool)
    requires Consistent(p)
    ensures var (q, outcome, victim) := Attempt(p, key, cancelled);
            && (outcome == Cancelled <==> cancelled)
            && (outcome == ScopeClosed <==> !cancelled && p.closed)
            && (outcome.Leased? <==>
                  && !cancelled && !p.closed
                  && if key in p.lanes then !p.all[p.lanes[key]].retiring else |p.lanes| < p.laneCap)
            && (victim.Some? ==> outcome.Wait? && key !in p.lanes && |p.lanes| >= p.laneCap)
            && (outcome.Wait? && key !in p.lanes && victim.None? ==>
                  forall k :: k in p.lanes ==> !Evictable(p.all[p.lanes[k]]))
            && (outcome.Wait? ==> outcome.channel == p.gen)
            && (outcome.Wait? && outcome.retry ==>
                  key !in p.lanes && exists k :: k in p.lanes && CleaningUp(p.all[p.lanes[k]]))
            && (outcome.Wait? && !outcome.retry && key !in p.lanes && victim.None? ==>
                  forall k :: k in p.lanes ==> !CleaningUp(p.all[p.lanes[k]]))
  {
    AttemptCases(p, key, cancelled);
    if !cancelled && !p.closed && key !in p.lanes && |p.lanes| >= p.laneCap {
      VictimDecides(p);
    }
    hide Attempt, Victim, ByUse, Lease, Create, Evictable, CleaningUp;
  }

  lemma VictimDecides(p: Pool)
    requires Consistent(p)
    ensures Victim(p, 0).1.None? ==> forall k :: k in p.lanes ==> !Evictable(p.all[p.lanes[k]])
    ensures Victim(p, 0).0 ==> exists k :: k in p.lanes && CleaningUp(p.all[p.lanes[k]])
    ensures Victim(p, 0) == (false, None) ==> forall k :: k in p.lanes ==> !CleaningUp(p.all[p.lanes[k]])
  {
    VictimIsFirst(p, 0);
    if Victim(p, 0).0 { var i := CleanupFound(p, 0); }
    hide Victim;
    forall k | k in p.lanes
      ensures Victim(p, 0).1.None? ==> !Evictable(p.all[p.lanes[k]])
      ensures Victim(p, 0) == (false, None) ==> !CleaningUp(p.all[p.lanes[k]])
    {
      var h := PlaceOfKey(p, k);
    }
  }

  lemma {:induction false} CleanupFound(p: Pool, i: nat) returns (j: nat)
    requires Consistent(p) && i <= |p.order| && Victim(p, i).0
    ensures j < |p.order| && p.order[j] in p.lanes && CleaningUp(p.all[p.lanes[p.order[j]]])
    decreases |p.order| - i
  {
    hide Consistent;
    var lane := p.all[LaneInPlace(p, i)];
    if !lane.retiring && lane.leases == 0 { j := i; } else { j := CleanupFound(p, i + 1); }
  }
}

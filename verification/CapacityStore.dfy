/**
 The in-memory capacity-pool store (rust/crates/sutra-channels/src/capacity.rs), one operation at a
 time. Interleavings of the operations' locked sections are the subject of `CapacityProtocol`.
 */
module CapacityStore {
  import opened Basics
  import opened CapacityPools

  datatype Request = Request(pool: string, deployment: string, holder: string, call: string, direction: Direction)

  datatype Acquisition =
    | Acquired
    | AlreadyHeld
    | Exhausted(inbound: nat, outbound: nat)
    | SessionOver
    | UnknownPool

  /** The counts are those of the slots already visited. */
  ghost predicate Counted(s: Slots, pool: string, left: set<SlotKey>, inbound: nat, outbound: nat) {
    inbound == |Held(s, pool, Inbound) - left| && outbound == |Held(s, pool, Outbound) - left|
  }

  lemma CountSlot(s: Slots, pool: string, left: set<SlotKey>, inbound: nat, outbound: nat, k: SlotKey)
    requires Counted(s, pool, left, inbound, outbound) && k in left && k in s
    ensures Counted(s, pool, left - {k}, inbound + (if k.pool == pool && s[k] == Inbound then 1 else 0),
                    outbound + if k.pool == pool && s[k] == Outbound then 1 else 0)
  {
    CountStep(Held(s, pool, Inbound), left, k);
    CountStep(Held(s, pool, Outbound), left, k);
  }

  /** Count a pool's slots in both directions, over the whole table. */
  method UsageOf(s: Slots, pool: string) returns (inbound: nat, outbound: nat)
    ensures inbound == Used(s, pool, Inbound) && outbound == Used(s, pool, Outbound)
  {
    inbound, outbound := 0, 0;
    var left := s.Keys;
    assert Held(s, pool, Inbound) - left == {} && Held(s, pool, Outbound) - left == {};
    while left != {}
      invariant left <= s.Keys && Counted(s, pool, left, inbound, outbound)
      decreases |left|
    {
      var k :| k in left;
      CountSlot(s, pool, left, inbound, outbound, k);
      if k.pool == pool {
        match s[k]
        case Inbound => inbound := inbound + 1;
        case Outbound => outbound := outbound + 1;
      }
      left := left - {k};
    }
    assert Held(s, pool, Inbound) - {} == Held(s, pool, Inbound);
    assert Held(s, pool, Outbound) - {} == Held(s, pool, Outbound);
  }

  /** Striking `k` off the unvisited keys counts it when it is one of `n`. */
  lemma CountStep(n: set<SlotKey>, left: set<SlotKey>, k: SlotKey)
    requires k in left
    ensures |n - (left - {k})| == |n - left| + if k in n then 1 else 0
  {
    if k in n {
      assert n - (left - {k}) == (n - left) + {k};
    } else {
      assert n - (left - {k}) == n - left;
    }
  }

  /** The slots of direction `d` a release names. */
  ghost function Named(s: Slots, deployment: string, holder: string, sel: Selector, d: Direction): set<SlotKey> {
    set k | k in s && Names(deployment, holder, sel, k, s[k]) && s[k] == d
  }

  /** `s'` is `s` without the named slots among those already visited. */
  ghost predicate Retained(s: Slots, left: set<SlotKey>, deployment: string, holder: string, sel: Selector, s': Slots) {
    && (forall k :: k in s' <==> k in s && (k in left || !Names(deployment, holder, sel, k, s[k])))
    && (forall k :: k in s' ==> s'[k] == s[k])
  }

  /** The directions reported are those of the named slots already visited. */
  ghost predicate Tallied(s: Slots, left: set<SlotKey>, deployment: string, holder: string, sel: Selector, released: seq<Direction>) {
    && multiset(released)[Inbound] == |Named(s, deployment, holder, sel, Inbound) - left|
    && multiset(released)[Outbound] == |Named(s, deployment, holder, sel, Outbound) - left|
  }

  lemma TallyStep(s: Slots, left: set<SlotKey>, deployment: string, holder: string, sel: Selector, released: seq<Direction>, k: SlotKey)
    requires Tallied(s, left, deployment, holder, sel, released) && k in left && k in s
    ensures Tallied(s, left - {k}, deployment, holder, sel, if Names(deployment, holder, sel, k, s[k]) then released + [s[k]] else released)
  {
    CountStep(Named(s, deployment, holder, sel, Inbound), left, k);
    CountStep(Named(s, deployment, holder, sel, Outbound), left, k);
    match s[k]
    case Inbound =>
    case Outbound =>
  }

  /** Drop the slots a release names and report their directions. */
  method ReleaseWhere(s: Slots, deployment: string, holder: string, sel: Selector) returns (s': Slots, released: seq<Direction>)
    ensures Released(s, deployment, holder, sel, s')
    ensures Tallied(s, {}, deployment, holder, sel, released)
  {
    s', released := s, [];
    var left := s.Keys;
    while left != {}
      invariant left <= s.Keys
      invariant Retained(s, left, deployment, holder, sel, s')
      invariant Tallied(s, left, deployment, holder, sel, released)
      decreases |left|
    {
      var k :| k in left;
      TallyStep(s, left, deployment, holder, sel, released, k);
      if Names(deployment, holder, sel, k, s[k]) {
        released := released + [s[k]];
        s' := s' - {k};
      }
      left := left - {k};
    }
  }

  lemma {:induction false} TwoDirections(ds: seq<Direction>)
    ensures |ds| == multiset(ds)[Inbound] + multiset(ds)[Outbound]
  {
    if ds != [] {
      TwoDirections(ds[1..]);
      assert ds == [ds[0]] + ds[1..];
      match ds[0]
      case Inbound =>
      case Outbound =>
    }
  }

  /** Re-key one slot at a time: remove it from `from`, and give it to `to` unless `to` has one already. */
  method RebindAll(s: Slots, deployment: string, from: string, to: string) returns (s': Slots)
    ensures Rebound(s, deployment, from, to, s')
  {
    var moved := set k | k in s && HeldBy(k, deployment, from);
    s' := s;
    var left := moved;
    while left != {}
      invariant left <= moved
      invariant forall k :: k in s' <==>
                  Stays(s, deployment, from, k) || k in left
                  || (HeldBy(k, deployment, to) && As(k, from) in moved && As(k, from) !in left)
      invariant forall k :: k in s' ==> s'[k] == if k in s then s[k] else s[As(k, from)]
      decreases |left|
    {
      var k :| k in left;
      var direction := s[k];
      assert forall x :: HeldBy(x, deployment, to) ==> (As(x, from) == k <==> x == As(k, to)) by {
        forall x | HeldBy(x, deployment, to)
          ensures As(x, from) == k <==> x == As(k, to)
        {
          assert x == As(As(x, from), to);
        }
      }
      s' := s' - {k};
      if As(k, to) !in s' {
        s' := s'[As(k, to) := direction];
      }
      left := left - {k};
    }
  }

  // ---- the store -----------------------------------------------------------

  /** Every declared pool is within its size, and within its reserves when its declaration is valid. */
  ghost predicate PoolsKept(pools: map<string, Pool>, s: Slots) {
    forall n :: n in pools ==>
      NotOversubscribed(pools[n], s) && (Validate(pools[n]).None? ==> ReservesKept(pools[n], s))
  }

  ghost predicate WellNamed(pools: map<string, Pool>) {
    forall n :: n in pools ==> pools[n].name == n
  }

  lemma TakeKeepsPools(pools: map<string, Pool>, s: Slots, k: SlotKey, d: Direction)
    requires WellNamed(pools) && PoolsKept(pools, s)
    requires k !in s && k.pool in pools
    requires Room(pools[k.pool], s, d)
    ensures PoolsKept(pools, s[k := d])
  {
    forall n | n in pools
      ensures NotOversubscribed(pools[n], s[k := d]) && (Validate(pools[n]).None? ==> ReservesKept(pools[n], s[k := d]))
    {
      InsertNeverOversubscribes(pools[n], s, k, d);
      if Validate(pools[n]).None? {
        InsertKeepsReserves(pools[n], s, k, d);
      }
    }
  }

  lemma ReleaseKeepsPools(pools: map<string, Pool>, s: Slots, deployment: string, holder: string, sel: Selector, s': Slots)
    requires PoolsKept(pools, s) && Released(s, deployment, holder, sel, s')
    ensures PoolsKept(pools, s')
  {
    forall n | n in pools
      ensures NotOversubscribed(pools[n], s') && (Validate(pools[n]).None? ==> ReservesKept(pools[n], s'))
    {
      ReleaseKeepsReserves(pools[n], s, deployment, holder, sel, s');
    }
  }

  lemma RebindKeepsPools(pools: map<string, Pool>, s: Slots, deployment: string, from: string, to: string, s': Slots)
    requires PoolsKept(pools, s) && Rebound(s, deployment, from, to, s')
    ensures PoolsKept(pools, s')
  {
    forall n | n in pools
      ensures NotOversubscribed(pools[n], s') && (Validate(pools[n]).None? ==> ReservesKept(pools[n], s'))
    {
      RebindKeepsReserves(pools[n], s, deployment, from, to, s');
    }
  }

  lemma EmptyKeepsPools(pools: map<string, Pool>)
    ensures PoolsKept(pools, map[])
  {
  }

  lemma RoomForOne(p: Pool, s: Slots, k: SlotKey, d: Direction)
    requires k !in s && k.pool == p.name
    ensures Admits(p, d, Used(s, p.name, Inbound), Used(s, p.name, Outbound)) <==> Room(p, s, d)
    ensures ReservesKept(p, s) ==> (Room(p, s, d) <==> ReservesKept(p, s[k := d]))
  {
    AdmitsIffRoom(p, s, d);
    if ReservesKept(p, s) {
      AdmitsIffReservesStay(p, s, k, d);
    }
  }

  /** The slot a request is for: one per deployment, holder, pool and call. */
  ghost function Wanted(req: Request): SlotKey {
    SlotKey(req.deployment, req.holder, req.pool, req.call)
  }

  /** An outbound request of a session, or of a call, that is remembered as ended. */
  ghost predicate Ended(req: Request, memory: seq<SessionKey>) {
    && req.direction == Outbound
    && (SessionKey(req.deployment, req.holder, "") in memory || SessionKey(req.deployment, req.holder, req.call) in memory)
  }

  class InMemoryCapacityPools {
    const pools: map<string, Pool>
    var slots: Slots
    /** Finished instances, oldest first. */
    var ended: seq<(string, string)>
    /** Ended sessions, oldest first. */
    var sessionsEnded: seq<SessionKey>

    ghost predicate Valid()
      reads this
    {
      WellNamed(pools) && PoolsKept(pools, slots) && Bounded(ended) && Bounded(sessionsEnded)
    }

    constructor (pools: map<string, Pool>)
      requires WellNamed(pools)
      ensures Valid() && this.pools == pools && slots == map[] && ended == [] && sessionsEnded == []
    {
      this.pools := pools;
      slots, ended, sessionsEnded := map[], [], [];
      EmptyKeepsPools(pools);
    }

    method Acquire(req: Request) returns (r: Acquisition)
      requires Valid()
      modifies this`slots
      ensures Valid()
      ensures r == UnknownPool <==> req.pool !in pools
      ensures r == SessionOver <==> req.pool in pools && Ended(req, sessionsEnded)
      ensures r == AlreadyHeld <==> req.pool in pools && !Ended(req, sessionsEnded) && Wanted(req) in old(slots)
      ensures r.Exhausted? ==>
                r.inbound == Used(old(slots), req.pool, Inbound) && r.outbound == Used(old(slots), req.pool, Outbound)
      ensures r == Acquired <==>
                && req.pool in pools && !Ended(req, sessionsEnded) && Wanted(req) !in old(slots)
                && Room(pools[req.pool], old(slots), req.direction)
      // In a valid pool a slot is refused exactly when taking it would break the reserves.
      ensures req.pool in pools && Validate(pools[req.pool]) == None && !Ended(req, sessionsEnded) && Wanted(req) !in old(slots) ==>
                (r.Exhausted? <==> !ReservesKept(pools[req.pool], old(slots)[Wanted(req) := req.direction]))
      ensures slots == if r == Acquired then old(slots)[Wanted(req) := req.direction] else old(slots)
    {
      if req.pool !in pools {
        return UnknownPool;
      }
      var key := SlotKey(req.deployment, req.holder, req.pool, req.call);
      SessionEndedIff(sessionsEnded, req.deployment, req.holder, req.call);
      if req.direction == Outbound && SessionEnded(sessionsEnded, req.deployment, req.holder, req.call) {
        return SessionOver;
      }
      if key in slots {
        return AlreadyHeld;
      }
      var inbound, outbound := UsageOf(slots, req.pool);
      RoomForOne(pools[req.pool], slots, key, req.direction);
      if !Admits(pools[req.pool], req.direction, inbound, outbound) {
        return Exhausted(inbound, outbound);
      }
      TakeKeepsPools(pools, slots, key, req.direction);
      slots := slots[key := req.direction];
      return Acquired;
    }

    method Rebind(deployment: string, from: string, to: string)
      requires Valid()
      modifies this`slots
      ensures Valid()
      ensures Rebound(old(slots), deployment, from, to, slots)
    {
      var s := RebindAll(slots, deployment, from, to);
      RebindKeepsPools(pools, slots, deployment, from, to, s);
      slots := s;
    }

    method ReleaseCalls(deployment: string, holder: string, sel: Selector) returns (released: seq<Direction>)
      requires Valid()
      modifies this`slots
      ensures Valid()
      ensures Released(old(slots), deployment, holder, sel, slots)
      ensures multiset(released)[Inbound] == |Named(old(slots), deployment, holder, sel, Inbound)|
      ensures multiset(released)[Outbound] == |Named(old(slots), deployment, holder, sel, Outbound)|
    {
      var s;
      s, released := ReleaseWhere(slots, deployment, holder, sel);
      ReleaseKeepsPools(pools, slots, deployment, holder, sel, s);
      slots := s;
    }

    /** The holder instance has finished: remember it, then release everything it holds. */
    method ReleaseEnded(deployment: string, holder: string) returns (count: nat)
      requires Valid()
      modifies this`slots, this`ended
      ensures Valid()
      ensures ended == Remember(old(ended), (deployment, holder)) && (deployment, holder) in ended
      ensures Released(old(slots), deployment, holder, All, slots)
      ensures count == |Named(old(slots), deployment, holder, All, Inbound)| + |Named(old(slots), deployment, holder, All, Outbound)|
    {
      RememberKeepsBounds(ended, (deployment, holder));
      ended := Remember(ended, (deployment, holder));
      var released := ReleaseCalls(deployment, holder, All);
      TwoDirections(released);
      count := |released|;
    }

    /** End the whole session, or one call of it: remember it, then release its slots. */
    method EndSession(deployment: string, holder: string, call: Option<string>) returns (released: seq<Direction>)
      requires Valid()
      modifies this`slots, this`sessionsEnded
      ensures Valid()
      ensures sessionsEnded == Remember(old(sessionsEnded), SessionKey(deployment, holder, if call == None then "" else call.value))
      ensures Released(old(slots), deployment, holder, SelectorOf(call), slots)
      ensures forall k :: k in slots <==>
                k in old(slots) && !(k.deployment == deployment && k.holder == holder && (call == None || call == Some(k.call)))
      ensures multiset(released)[Inbound] == |Named(old(slots), deployment, holder, SelectorOf(call), Inbound)|
      ensures multiset(released)[Outbound] == |Named(old(slots), deployment, holder, SelectorOf(call), Outbound)|
      ensures call != Some("") ==> Quiet(slots, MarkerOf(deployment, holder, call))
    {
      RememberKeepsBounds(sessionsEnded, MarkerOf(deployment, holder, call));
      sessionsEnded := Remember(sessionsEnded, MarkerOf(deployment, holder, call));
      released := ReleaseCalls(deployment, holder, SelectorOf(call));
      EndReleases(old(slots), deployment, holder, call, slots);
      forall k
        ensures k in slots <==>
                  k in old(slots) && !(k.deployment == deployment && k.holder == holder && (call == None || call == Some(k.call)))
      {
        EndFrees(old(slots), deployment, holder, call, slots, k);
      }
    }

    /** Release a call's slots when its holder is remembered as finished; otherwise change nothing. */
    method ReleaseCallIfEnded(deployment: string, holder: string, call: string) returns (count: nat)
      requires Valid()
      modifies this`slots
      ensures Valid()
      ensures (deployment, holder) !in ended ==> count == 0 && slots == old(slots)
      ensures (deployment, holder) in ended ==>
                && Released(old(slots), deployment, holder, OfCall(call), slots)
                && count == |Named(old(slots), deployment, holder, OfCall(call), Inbound)|
                            + |Named(old(slots), deployment, holder, OfCall(call), Outbound)|
                && forall k :: k in slots && HeldBy(k, deployment, holder) ==> k.call != call
    {
      if (deployment, holder) !in ended {
        return 0;
      }
      var released := ReleaseCalls(deployment, holder, OfCall(call));
      TwoDirections(released);
      count := |released|;
    }
  }
}

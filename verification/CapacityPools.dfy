/**
 Capacity pools as values (rust/crates/sutra-channels/src/capacity.rs).

 A pool is a count of slots shared by two directions, each of which may keep a reserve the other may
 not take. A slot is keyed by deployment, holder, pool and call. This module holds the slot table's
 operations as functions and what each does to a pool's usage; the store that runs them and the
 interleaving of its two locks are modelled in `CapacityStore` and `CapacityProtocol`.
 */
module CapacityPools {
  import opened Basics

  datatype Direction = Inbound | Outbound

  /** A declared pool. The source's counts are 32-bit and its sums 64-bit, so no sum here overflows. */
  datatype Pool = Pool(name: string, slots: nat, reserveInbound: nat, reserveOutbound: nat)

  datatype PoolError = BadName | NoSlots | ReservesExceedSlots

  datatype SlotKey = SlotKey(deployment: string, holder: string, pool: string, call: string)

  type Slots = map<SlotKey, Direction>

  // ---- the declaration -----------------------------------------------------

  predicate NameChar(c: char) {
    'a' <= c <= 'z' || '0' <= c <= '9' || c == '-'
  }

  function Validate(p: Pool): Option<PoolError> {
    if p.name == "" || exists i :: 0 <= i < |p.name| && !NameChar(p.name[i]) then Some(BadName)
    else if p.slots == 0 then Some(NoSlots)
    else if p.slots < p.reserveInbound + p.reserveOutbound then Some(ReservesExceedSlots)
    else None
  }

  /** A declaration passes exactly with a name of lower-case letters, digits and dashes, a slot, and reserves that fit. */
  lemma ValidateIff(p: Pool)
    ensures Validate(p) == None <==>
            && p.name != "" && (forall c :: c in p.name ==> 'a' <= c <= 'z' || '0' <= c <= '9' || c == '-')
            && 1 <= p.slots && p.reserveInbound <= p.slots - p.reserveOutbound
    ensures Validate(p) == Some(NoSlots) ==> p.slots == 0
    ensures Validate(p) == Some(ReservesExceedSlots) ==> p.slots < p.reserveInbound + p.reserveOutbound
    ensures Validate(p) == Some(BadName) ==> p.name == "" || exists c :: c in p.name && !('a' <= c <= 'z' || '0' <= c <= '9' || c == '-')
  {
    assert forall c :: c in p.name ==> exists i :: 0 <= i < |p.name| && p.name[i] == c;
    if Validate(p) == Some(BadName) && p.name != "" {
      var i :| 0 <= i < |p.name| && !NameChar(p.name[i]);
      assert p.name[i] in p.name;
    }
  }

  function Reserve(p: Pool, d: Direction): nat {
    match d
    case Inbound => p.reserveInbound
    case Outbound => p.reserveOutbound
  }

  function Other(d: Direction): Direction {
    match d
    case Inbound => Outbound
    case Outbound => Inbound
  }

  /** May `d` take one more slot? The other direction's unused reserve is held back. */
  predicate Admits(p: Pool, d: Direction, inbound: nat, outbound: nat) {
    var otherUsed := if d == Inbound then outbound else inbound;
    var otherReserve := Reserve(p, Other(d));
    var heldBack := if otherReserve < otherUsed then 0 else otherReserve - otherUsed;
    inbound + outbound + 1 + heldBack <= p.slots
  }

  // ---- usage ---------------------------------------------------------------

  /** The slots of `pool` held in direction `d`. */
  ghost function Held(s: Slots, pool: string, d: Direction): set<SlotKey> {
    set k | k in s && k.pool == pool && s[k] == d
  }

  ghost function Used(s: Slots, pool: string, d: Direction): nat {
    |Held(s, pool, d)|
  }

  function Max(a: nat, b: nat): nat {
    if a < b then b else a
  }

  /** Each direction, together with the larger of the other's use and reserve, fits in the pool. */
  ghost predicate ReservesKept(p: Pool, s: Slots) {
    var i, o := Used(s, p.name, Inbound), Used(s, p.name, Outbound);
    i + Max(o, p.reserveOutbound) <= p.slots && o + Max(i, p.reserveInbound) <= p.slots
  }

  ghost predicate NotOversubscribed(p: Pool, s: Slots) {
    Used(s, p.name, Inbound) + Used(s, p.name, Outbound) <= p.slots
  }

  /** With one more slot of `d` there is still room for what the other direction uses or has reserved, whichever is more. */
  ghost predicate Room(p: Pool, s: Slots, d: Direction) {
    match d
    case Inbound => Used(s, p.name, Inbound) + 1 <= p.slots - Max(Used(s, p.name, Outbound), p.reserveOutbound)
    case Outbound => Used(s, p.name, Outbound) + 1 <= p.slots - Max(Used(s, p.name, Inbound), p.reserveInbound)
  }

  /** The source's rule admits exactly where there is room, whatever the declaration. */
  lemma AdmitsIffRoom(p: Pool, s: Slots, d: Direction)
    ensures Admits(p, d, Used(s, p.name, Inbound), Used(s, p.name, Outbound)) <==> Room(p, s, d)
  {
  }

  /** Where the reserves hold, it admits exactly what leaves them holding. */
  lemma AdmitsIffReservesStay(p: Pool, s: Slots, k: SlotKey, d: Direction)
    requires ReservesKept(p, s) && k !in s && k.pool == p.name
    ensures Admits(p, d, Used(s, p.name, Inbound), Used(s, p.name, Outbound)) <==> ReservesKept(p, s[k := d])
    ensures Room(p, s, d) <==> ReservesKept(p, s[k := d])
  {
    UsedAfterInsert(s, k, d, p.name, Inbound);
    UsedAfterInsert(s, k, d, p.name, Outbound);
  }

  /** A direction below its own reserve is always admitted, and nothing is admitted past the pool's size. */
  lemma ReserveIsAvailable(p: Pool, s: Slots, d: Direction)
    requires Validate(p).None? && ReservesKept(p, s)
    ensures NotOversubscribed(p, s)
    ensures Used(s, p.name, d) < Reserve(p, d) ==> Admits(p, d, Used(s, p.name, Inbound), Used(s, p.name, Outbound))
  {
  }

  // ---- taking a slot -------------------------------------------------------

  lemma UsedAfterInsert(s: Slots, k: SlotKey, d: Direction, pool: string, e: Direction)
    requires k !in s
    ensures Used(s[k := d], pool, e) == Used(s, pool, e) + if k.pool == pool && d == e then 1 else 0
  {
    var s' := s[k := d];
    if k.pool == pool && d == e {
      assert Held(s', pool, e) == Held(s, pool, e) + {k};
    } else {
      assert Held(s', pool, e) == Held(s, pool, e);
    }
  }

  /** An admitted insertion keeps every pool's reserves, its own and the others'. */
  lemma InsertKeepsReserves(p: Pool, s: Slots, k: SlotKey, d: Direction)
    requires ReservesKept(p, s)
    requires k !in s
    requires k.pool == p.name ==> Room(p, s, d)
    ensures ReservesKept(p, s[k := d])
  {
    UsedAfterInsert(s, k, d, p.name, Inbound);
    UsedAfterInsert(s, k, d, p.name, Outbound);
  }

  /** Even a pool that was never validated is not oversubscribed. */
  lemma InsertNeverOversubscribes(p: Pool, s: Slots, k: SlotKey, d: Direction)
    requires NotOversubscribed(p, s)
    requires k !in s
    requires k.pool == p.name ==> Room(p, s, d)
    ensures NotOversubscribed(p, s[k := d])
  {
    UsedAfterInsert(s, k, d, p.name, Inbound);
    UsedAfterInsert(s, k, d, p.name, Outbound);
  }

  // ---- releasing -----------------------------------------------------------

  /** Which of a holder's slots a release names. */
  datatype Selector = All | OfCall(call: string) | OfDirection(direction: Direction)

  predicate Selects(sel: Selector, call: string, d: Direction) {
    match sel
    case All => true
    case OfCall(c) => c == call
    case OfDirection(e) => e == d
  }

  predicate Names(deployment: string, holder: string, sel: Selector, k: SlotKey, d: Direction) {
    k.deployment == deployment && k.holder == holder && Selects(sel, k.call, d)
  }

  /** `s'` is `s` without the slots the release names. */
  ghost predicate Released(s: Slots, deployment: string, holder: string, sel: Selector, s': Slots) {
    && (forall k :: k in s' <==> k in s && !Names(deployment, holder, sel, k, s[k]))
    && (forall k :: k in s' ==> s'[k] == s[k])
  }

  /** A release takes the holder's slots that the selector names, by call or direction, and no others. */
  lemma ReleaseFrees(s: Slots, deployment: string, holder: string, sel: Selector, s': Slots, k: SlotKey)
    requires Released(s, deployment, holder, sel, s')
    ensures k in s' <==>
            k in s && !(k.deployment == deployment && k.holder == holder && sel in {All, OfCall(k.call), OfDirection(s[k])})
    ensures k in s' ==> s'[k] == s[k]
  {
  }

  ghost predicate SubTable(s': Slots, s: Slots) {
    forall k :: k in s' ==> k in s && s'[k] == s[k]
  }

  lemma SmallerSet<T>(a: set<T>, b: set<T>)
    requires a <= b
    ensures |a| <= |b|
  {
    assert |b - a| == |b| - |a|;
  }

  lemma UsedInSubTable(s': Slots, s: Slots, pool: string, d: Direction)
    requires SubTable(s', s)
    ensures Used(s', pool, d) <= Used(s, pool, d)
  {
    SmallerSet(Held(s', pool, d), Held(s, pool, d));
  }

  lemma ReleaseKeepsReserves(p: Pool, s: Slots, deployment: string, holder: string, sel: Selector, s': Slots)
    requires Released(s, deployment, holder, sel, s')
    ensures ReservesKept(p, s) ==> ReservesKept(p, s')
    ensures NotOversubscribed(p, s) ==> NotOversubscribed(p, s')
  {
    UsedInSubTable(s', s, p.name, Inbound);
    UsedInSubTable(s', s, p.name, Outbound);
  }

  // ---- rebinding -----------------------------------------------------------

  /** Slot `k` as `holder` would hold it. */
  function As(k: SlotKey, holder: string): SlotKey {
    k.(holder := holder)
  }

  predicate HeldBy(k: SlotKey, deployment: string, holder: string) {
    k.deployment == deployment && k.holder == holder
  }

  predicate Stays(s: Slots, deployment: string, from: string, k: SlotKey) {
    k in s && !HeldBy(k, deployment, from)
  }

  predicate Arrives(s: Slots, deployment: string, from: string, to: string, k: SlotKey) {
    HeldBy(k, deployment, to) && As(k, from) in s
  }

  /** `s'` is `s` with every slot of `from` re-keyed to `to`; a slot `to` already has for the same pool and call wins. */
  ghost predicate Rebound(s: Slots, deployment: string, from: string, to: string, s': Slots) {
    && (forall k :: k in s' <==> Stays(s, deployment, from, k) || Arrives(s, deployment, from, to, k))
    && (forall k :: k in s' ==> s'[k] == if Stays(s, deployment, from, k) then s[k] else s[As(k, from)])
  }

  /** A map that keeps elements of `a` apart and lands in `b` shows `a` is no larger. */
  lemma {:induction false} InjectionBound<T>(a: set<T>, b: set<T>, f: T -> T)
    requires forall x :: x in a ==> f(x) in b
    requires forall x, y :: x in a && y in a && f(x) == f(y) ==> x == y
    ensures |a| <= |b|
  {
    if a != {} {
      var x :| x in a;
      InjectionBound(a - {x}, b - {f(x)}, f);
    }
  }

  /** Where slot `k` of the new table came from. */
  function Origin(s: Slots, deployment: string, from: string, k: SlotKey): SlotKey {
    if Stays(s, deployment, from, k) then k else As(k, from)
  }

  lemma OriginsApart(s: Slots, deployment: string, from: string, to: string, s': Slots, x: SlotKey, y: SlotKey)
    requires Rebound(s, deployment, from, to, s')
    requires x in s' && y in s' && Origin(s, deployment, from, x) == Origin(s, deployment, from, y)
    ensures x == y
  {
  }

  /** A rebind never adds to a direction's use of any pool. */
  lemma ReboundUse(s: Slots, deployment: string, from: string, to: string, s': Slots, pool: string, d: Direction)
    requires Rebound(s, deployment, from, to, s')
    ensures Used(s', pool, d) <= Used(s, pool, d)
  {
    forall x, y | x in Held(s', pool, d) && y in Held(s', pool, d) && Origin(s, deployment, from, x) == Origin(s, deployment, from, y)
      ensures x == y
    {
      OriginsApart(s, deployment, from, to, s', x, y);
    }
    InjectionBound(Held(s', pool, d), Held(s, pool, d), k => Origin(s, deployment, from, k));
  }

  lemma RebindKeepsReserves(p: Pool, s: Slots, deployment: string, from: string, to: string, s': Slots)
    requires Rebound(s, deployment, from, to, s')
    ensures ReservesKept(p, s) ==> ReservesKept(p, s')
    ensures NotOversubscribed(p, s) ==> NotOversubscribed(p, s')
  {
    ReboundUse(s, deployment, from, to, s', p.name, Inbound);
    ReboundUse(s, deployment, from, to, s', p.name, Outbound);
  }

  /** A moved slot finds its place taken. */
  ghost predicate Clash(s: Slots, deployment: string, from: string, to: string, k: SlotKey) {
    from != to && k in s && HeldBy(k, deployment, from) && As(k, to) in s
  }

  ghost predicate NoClash(s: Slots, deployment: string, from: string, to: string, pool: string) {
    forall k: SlotKey :: k.pool == pool ==> !Clash(s, deployment, from, to, k)
  }

  ghost function InPool(s: Slots, pool: string): set<SlotKey> {
    set k | k in s && k.pool == pool
  }

  /** A rebind conserves a pool's slots exactly when no moved slot of that pool finds its place taken. */
  lemma RebindConserves(s: Slots, deployment: string, from: string, to: string, s': Slots, pool: string)
    requires Rebound(s, deployment, from, to, s')
    ensures |InPool(s', pool)| == |InPool(s, pool)| <==> NoClash(s, deployment, from, to, pool)
  {
    if k: SlotKey :| k.pool == pool && Clash(s, deployment, from, to, k) {
      ClashLosesSlot(s, deployment, from, to, s', pool, k);
    } else {
      NoClashKeepsSlots(s, deployment, from, to, s', pool);
    }
  }

  lemma ReboundFits(s: Slots, deployment: string, from: string, to: string, s': Slots, pool: string, b: set<SlotKey>)
    requires Rebound(s, deployment, from, to, s')
    requires forall x :: x in InPool(s', pool) ==> Origin(s, deployment, from, x) in b
    ensures |InPool(s', pool)| <= |b|
  {
    forall x, y | x in InPool(s', pool) && y in InPool(s', pool) && Origin(s, deployment, from, x) == Origin(s, deployment, from, y)
      ensures x == y
    {
      OriginsApart(s, deployment, from, to, s', x, y);
    }
    InjectionBound(InPool(s', pool), b, k => Origin(s, deployment, from, k));
  }

  lemma ClashLosesSlot(s: Slots, deployment: string, from: string, to: string, s': Slots, pool: string, k: SlotKey)
    requires Rebound(s, deployment, from, to, s')
    requires k.pool == pool && Clash(s, deployment, from, to, k)
    ensures |InPool(s', pool)| < |InPool(s, pool)|
  {
    forall x | x in InPool(s', pool)
      ensures Origin(s, deployment, from, x) in InPool(s, pool) - {k}
    {
      // Only `to`'s own slot could stand for `k`, and that one stays.
      assert x == As(As(x, from), x.holder);
      assert As(x, from) == k && x.holder == to ==> x == As(k, to);
    }
    ReboundFits(s, deployment, from, to, s', pool, InPool(s, pool) - {k});
  }

  lemma TargetsApart(s: Slots, deployment: string, from: string, to: string, pool: string, x: SlotKey, y: SlotKey)
    requires NoClash(s, deployment, from, to, pool) && x in InPool(s, pool) && y in InPool(s, pool)
    requires Target(deployment, from, to, x) == Target(deployment, from, to, y)
    ensures x == y
  {
    assert x == As(As(x, to), x.holder) && y == As(As(y, to), y.holder);
    assert !Clash(s, deployment, from, to, x) && !Clash(s, deployment, from, to, y);
  }

  lemma TargetLands(s: Slots, deployment: string, from: string, to: string, s': Slots, pool: string, x: SlotKey)
    requires Rebound(s, deployment, from, to, s') && x in InPool(s, pool)
    ensures Target(deployment, from, to, x) in InPool(s', pool)
  {
    assert As(As(x, to), from) == As(x, from);
    assert HeldBy(x, deployment, from) ==> As(x, from) == x;
  }

  lemma NoClashKeepsSlots(s: Slots, deployment: string, from: string, to: string, s': Slots, pool: string)
    requires Rebound(s, deployment, from, to, s') && NoClash(s, deployment, from, to, pool)
    ensures |InPool(s', pool)| == |InPool(s, pool)|
  {
    ReboundFits(s, deployment, from, to, s', pool, InPool(s, pool));
    TargetsFit(s, deployment, from, to, s', pool);
  }

  lemma TargetsFit(s: Slots, deployment: string, from: string, to: string, s': Slots, pool: string)
    requires Rebound(s, deployment, from, to, s') && NoClash(s, deployment, from, to, pool)
    ensures |InPool(s, pool)| <= |InPool(s', pool)|
  {
    var target := k => Target(deployment, from, to, k);
    forall x, y | x in InPool(s, pool) && y in InPool(s, pool) && target(x) == target(y)
      ensures x == y
    {
      TargetsApart(s, deployment, from, to, pool, x, y);
    }
    forall x | x in InPool(s, pool)
      ensures target(x) in InPool(s', pool)
    {
      TargetLands(s, deployment, from, to, s', pool, x);
    }
    InjectionBound(InPool(s, pool), InPool(s', pool), target);
  }

  function Target(deployment: string, from: string, to: string, k: SlotKey): SlotKey {
    if HeldBy(k, deployment, from) then As(k, to) else k
  }

  /** Two holders with a slot for the same pool and call: after the rebind one of the two is gone. */
  lemma RebindLosesSlot(deployment: string, from: string, to: string, pool: string, call: string) returns (s: Slots, s': Slots)
    requires from != to
    ensures Rebound(s, deployment, from, to, s') && !NoClash(s, deployment, from, to, pool)
    ensures |InPool(s, pool)| == 2 && |InPool(s', pool)| == 1
  {
    var moved, kept := SlotKey(deployment, from, pool, call), SlotKey(deployment, to, pool, call);
    s, s' := map[moved := Inbound, kept := Outbound], map[kept := Outbound];
    assert InPool(s, pool) == {moved, kept} && InPool(s', pool) == {kept};
    assert Clash(s, deployment, from, to, moved);
    forall k
      ensures k in s' <==> Stays(s, deployment, from, k) || Arrives(s, deployment, from, to, k)
    {
      assert Arrives(s, deployment, from, to, k) ==> As(k, from).pool == pool && As(k, from).call == call;
    }
  }

  // ---- ended sessions ------------------------------------------------------

  /** An ended session; an empty `call` stands for the whole of it. */
  datatype SessionKey = SessionKey(deployment: string, holder: string, call: string)

  predicate Covers(m: SessionKey, deployment: string, holder: string, call: string) {
    m.deployment == deployment && m.holder == holder && (m.call == "" || m.call == call)
  }

  predicate SessionEnded(memory: seq<SessionKey>, deployment: string, holder: string, call: string) {
    exists i :: 0 <= i < |memory| && Covers(memory[i], deployment, holder, call)
  }

  /** A call is over exactly when its own end or that of the whole session is remembered. */
  lemma SessionEndedIff(memory: seq<SessionKey>, deployment: string, holder: string, call: string)
    ensures SessionEnded(memory, deployment, holder, call) <==>
            SessionKey(deployment, holder, "") in memory || SessionKey(deployment, holder, call) in memory
  {
    if SessionEnded(memory, deployment, holder, call) {
      var i :| 0 <= i < |memory| && Covers(memory[i], deployment, holder, call);
      assert memory[i] in {SessionKey(deployment, holder, ""), SessionKey(deployment, holder, call)};
    }
  }

  /** No outbound slot the marker covers is held. */
  ghost predicate Quiet(s: Slots, m: SessionKey) {
    forall k :: k in s && Covers(m, k.deployment, k.holder, k.call) ==> s[k] == Inbound
  }

  function MarkerOf(deployment: string, holder: string, call: Option<string>): SessionKey {
    SessionKey(deployment, holder, if call.Some? then call.value else "")
  }

  function SelectorOf(call: Option<string>): Selector {
    if call.Some? then OfCall(call.value) else All
  }

  /** The holder has an outbound slot for a call other than the empty one. */
  ghost predicate HoldsOtherCall(s: Slots, deployment: string, holder: string) {
    exists k :: k in s && HeldBy(k, deployment, holder) && k.call != "" && s[k] == Outbound
  }

  /**
   Ending a session leaves nothing its marker covers, except when the call named is the empty one: that
   marks the whole session but frees only the empty call's slots, so it fails exactly when others are held.
   */
  lemma EndReleases(s: Slots, deployment: string, holder: string, call: Option<string>, s': Slots)
    requires Released(s, deployment, holder, SelectorOf(call), s')
    ensures Quiet(s', MarkerOf(deployment, holder, call)) <==> !(call == Some("") && HoldsOtherCall(s, deployment, holder))
  {
  }

  /** Ending a whole session frees all its slots, ending a call those of the call, in both directions; no other slot moves. */
  lemma EndFrees(s: Slots, deployment: string, holder: string, call: Option<string>, s': Slots, k: SlotKey)
    requires Released(s, deployment, holder, SelectorOf(call), s')
    ensures k in s' <==>
            k in s && !(k.deployment == deployment && k.holder == holder && (call == None || call == Some(k.call)))
    ensures k in s' ==> s'[k] == s[k]
    ensures MarkerOf(deployment, holder, call) == SessionKey(deployment, holder, if call == None then "" else call.value)
  {
  }

  /** Naming the empty call marks the whole session ended but frees only the empty call's slots. */
  lemma EmptyCallLeavesSlots(deployment: string, holder: string, pool: string)
    ensures exists s, s' :: Released(s, deployment, holder, SelectorOf(Some("")), s') && !Quiet(s', MarkerOf(deployment, holder, Some("")))
  {
    var k := SlotKey(deployment, holder, pool, "x");
    var s: Slots := map[k := Outbound];
    assert Released(s, deployment, holder, SelectorOf(Some("")), s);
    assert k in s && Covers(MarkerOf(deployment, holder, Some("")), k.deployment, k.holder, k.call);
  }

  // ---- bounded memories ----------------------------------------------------

  const ENDED_MEMORY: nat := 4096

  /** Remember `key`, forgetting the oldest when full; a key already remembered keeps its place. */
  function Remember<K(==)>(memory: seq<K>, key: K): seq<K> {
    if key in memory then memory
    else (if |memory| >= ENDED_MEMORY then memory[1..] else memory) + [key]
  }

  ghost predicate Bounded<K>(memory: seq<K>) {
    |memory| <= ENDED_MEMORY && Distinct(memory)
  }

  /** The memory stays bounded and duplicate-free, holds the new key, and forgets at most its oldest entry. */
  lemma RememberKeepsBounds<K>(memory: seq<K>, key: K)
    requires Bounded(memory)
    ensures Bounded(Remember(memory, key))
    ensures key in Remember(memory, key)
    ensures forall k :: k in Remember(memory, key) ==> k == key || k in memory
    ensures forall k :: k in memory && k !in Remember(memory, key) ==> |memory| == ENDED_MEMORY && k == memory[0] && key !in memory
    ensures key in memory ==> Remember(memory, key) == memory
    ensures key !in memory ==> exists kept :: Remember(memory, key) == kept + [key] && (kept == memory || [memory[0]] + kept == memory)
  {
  }
}

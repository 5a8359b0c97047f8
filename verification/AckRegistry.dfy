/**
 The deferred-ack registry (rust/crates/sutra-channels/src/ack.rs).

 A bounded queue of broker deliveries whose acknowledgement waits for an instance's terminal event.
 The class models the locked sections: what each method takes out of the queue under the lock. The
 callbacks fire after the lock is released and may call back into the registry, so the protocol part
 keeps the entries that are out of the queue but not yet fired as a separate fate, and lets any
 operation run between a removal and its callback.
 */
module AckRegistry {
  import opened Basics

  /** `token` stands for the pair of callbacks of one accepted registration. */
  datatype Pending = Pending(instance: string, channel: string, registeredAt: nat, token: nat)

  // ---- the queue -----------------------------------------------------------

  ghost predicate DistinctInstances(q: seq<Pending>) {
    forall i, j :: 0 <= i < j < |q| ==> q[i].instance != q[j].instance
  }

  /** Registration times never go down along the queue. */
  ghost predicate Chronological(q: seq<Pending>) {
    forall i, j :: 0 <= i < j < |q| ==> q[i].registeredAt <= q[j].registeredAt
  }

  ghost predicate Holds(q: seq<Pending>, instance: string) {
    exists i :: 0 <= i < |q| && q[i].instance == instance
  }

  function Without(q: seq<Pending>, i: nat): seq<Pending>
    requires i < |q|
  {
    q[..i] + q[i + 1..]
  }

  /** Elapsed time saturates at zero, as the source's clock subtraction does. */
  predicate TimedOut(p: Pending, now: nat, timeout: nat) {
    (if now < p.registeredAt then 0 else now - p.registeredAt) >= timeout
  }

  /** The entry has waited out the timeout by `now`; without a timeout every entry has. */
  ghost predicate Overdue(p: Pending, now: nat, timeout: nat) {
    timeout == 0 || p.registeredAt + timeout <= now
  }

  function Expired(q: seq<Pending>, now: nat, timeout: nat): seq<Pending> {
    if q == [] then []
    else Expired(q[..|q| - 1], now, timeout) + if TimedOut(q[|q| - 1], now, timeout) then [q[|q| - 1]] else []
  }

  function Kept(q: seq<Pending>, now: nat, timeout: nat): seq<Pending> {
    if q == [] then []
    else Kept(q[..|q| - 1], now, timeout) + if TimedOut(q[|q| - 1], now, timeout) then [] else [q[|q| - 1]]
  }

  /** A sweep takes out exactly a prefix: the timed-out entries are the oldest ones. */
  lemma {:induction false} SweepTakesPrefix(q: seq<Pending>, now: nat, timeout: nat)
    requires Chronological(q)
    ensures Expired(q, now, timeout) + Kept(q, now, timeout) == q
    ensures forall p :: p in Expired(q, now, timeout) ==> Overdue(p, now, timeout)
    ensures forall p :: p in Kept(q, now, timeout) ==> !Overdue(p, now, timeout)
  {
    if q != [] {
      var front, last := q[..|q| - 1], q[|q| - 1];
      SweepTakesPrefix(front, now, timeout);
      if TimedOut(last, now, timeout) {
        NoneKept(front, now, timeout);
      }
      JoinLast(Expired(front, now, timeout), Kept(front, now, timeout), last, q);
    }
  }

  lemma JoinLast<T>(a: seq<T>, b: seq<T>, x: T, s: seq<T>)
    requires s != [] && x == s[|s| - 1] && a + b == s[..|s| - 1]
    ensures a + (b + [x]) == s && (b == [] ==> (a + [x]) + b == s)
  {
    assert s == s[..|s| - 1] + [x];
  }

  lemma {:induction false} NoneKept(q: seq<Pending>, now: nat, timeout: nat)
    requires forall i :: 0 <= i < |q| ==> TimedOut(q[i], now, timeout)
    ensures Kept(q, now, timeout) == []
  {
    if q != [] {
      NoneKept(q[..|q| - 1], now, timeout);
    }
  }

  /** Pop the queue front to back, splitting it into timed-out and kept entries. */
  method Split(q: seq<Pending>, now: nat, timeout: nat) returns (timedOut: seq<Pending>, kept: seq<Pending>)
    ensures timedOut == Expired(q, now, timeout) && kept == Kept(q, now, timeout)
  {
    timedOut, kept := [], [];
    var rest := q;
    ghost var n := 0;
    while rest != []
      invariant n <= |q| && rest == q[n..]
      invariant timedOut == Expired(q[..n], now, timeout)
      invariant kept == Kept(q[..n], now, timeout)
      decreases |rest|
    {
      var p := rest[0];
      assert q[..n + 1][..n] == q[..n];
      rest := rest[1..];
      n := n + 1;
      if TimedOut(p, now, timeout) {
        timedOut := timedOut + [p];
      } else {
        kept := kept + [p];
      }
    }
    assert q[..n] == q;
  }

  lemma SuffixKept(q: seq<Pending>, a: seq<Pending>, b: seq<Pending>)
    requires q == a + b && DistinctInstances(q) && Chronological(q)
    ensures DistinctInstances(b) && Chronological(b)
  {
    assert forall i :: 0 <= i < |b| ==> b[i] == q[|a| + i];
  }

  // ---- the locked sections -------------------------------------------------

  /** What registering `p` does to the queue: a duplicate nothing, at capacity the oldest entry leaves. */
  ghost predicate Registered(capacity: nat, q: seq<Pending>, p: Pending, accepted: bool, evicted: Option<Pending>, q': seq<Pending>) {
    && (accepted <==> !Holds(q, p.instance))
    && (!accepted ==> evicted == None && q' == q)
    && (accepted && |q| < capacity ==> evicted == None && q' == q + [p])
    && (accepted && |q| >= capacity ==> q != [] && evicted == Some(q[0]) && q' == q[1..] + [p])
  }

  /** What removing an instance's entry does: nothing without one, otherwise exactly that entry leaves. */
  ghost predicate Removed(q: seq<Pending>, instance: string, removed: Option<Pending>, q': seq<Pending>) {
    match removed
    case None => !Holds(q, instance) && q' == q
    case Some(p) => p.instance == instance && exists i: nat :: i < |q| && q[i] == p && q' == Without(q, i)
  }

  /** What a sweep does: the queue is cut into the timed-out entries and the others. */
  ghost predicate Swept(q: seq<Pending>, now: nat, timeout: nat, timedOut: seq<Pending>, q': seq<Pending>) {
    && timedOut + q' == q
    && (forall p :: p in timedOut ==> Overdue(p, now, timeout))
    && (forall p :: p in q' ==> !Overdue(p, now, timeout))
  }

  class DeferredAckRegistry {
    var entries: seq<Pending>
    const capacity: nat
    const timeout: nat

    ghost predicate Valid()
      reads this
    {
      1 <= capacity && |entries| <= capacity && DistinctInstances(entries) && Chronological(entries)
    }

    /** A zero capacity is clamped to one. */
    constructor (capacity: nat, timeout: nat)
      ensures Valid() && entries == [] && this.timeout == timeout
      ensures this.capacity == if capacity == 0 then 1 else capacity
    {
      entries := [];
      this.capacity := if capacity == 0 then 1 else capacity;
      this.timeout := timeout;
    }

    method Find(instance: string) returns (at: Option<nat>)
      ensures at.None? <==> !Holds(entries, instance)
      ensures at.Some? ==> at.value < |entries| && entries[at.value].instance == instance
    {
      for i := 0 to |entries|
        invariant forall j :: 0 <= j < i ==> entries[j].instance != instance
      {
        if entries[i].instance == instance {
          return Some(i);
        }
      }
      return None;
    }

    /** Accept a registration, evicting the oldest entry at capacity; a duplicate instance changes nothing. */
    method Register(p: Pending) returns (accepted: bool, evicted: Option<Pending>)
      requires Valid()
      requires forall i :: 0 <= i < |entries| ==> entries[i].registeredAt <= p.registeredAt
      modifies this`entries
      ensures Valid()
      ensures Registered(capacity, old(entries), p, accepted, evicted, entries)
    {
      var at := Find(p.instance);
      if at.Some? {
        return false, None;
      }
      evicted := None;
      if |entries| >= capacity {
        evicted := Some(entries[0]);
        entries := entries[1..];
      }
      entries := entries + [p];
      accepted := true;
    }

    /** Take an instance's entry out, if it has one; its ack, its nack or neither is then the caller's to fire. */
    method Remove(instance: string) returns (removed: Option<Pending>)
      requires Valid()
      modifies this`entries
      ensures Valid()
      ensures Removed(old(entries), instance, removed, entries)
      ensures !Holds(entries, instance)
    {
      var at := Find(instance);
      if at.None? {
        return None;
      }
      removed := Some(entries[at.value]);
      entries := Without(entries, at.value);
    }

    /** Rebuild the queue without the timed-out entries, which are to be nacked in order. */
    method SweepTimeouts(now: nat) returns (timedOut: seq<Pending>)
      requires Valid()
      modifies this`entries
      ensures Valid()
      ensures Swept(old(entries), now, timeout, timedOut, entries)
    {
      var kept;
      timedOut, kept := Split(entries, now, timeout);
      SweepTakesPrefix(entries, now, timeout);
      SuffixKept(entries, timedOut, kept);
      entries := kept;
    }
  }
}

/**
 Every run of the deferred-ack registry (rust/crates/sutra-channels/src/ack.rs).

 A registration is numbered when it is accepted, and its number maps to its fate. An operation removes
 entries under the lock and leaves their callbacks due; a separate step fires one due callback, so any
 operation, including one made by another callback, may come between the two.
 */
module AckProtocol {
  import opened Basics
  import opened AckRegistry

  datatype Callback = Ack | Nack

  datatype Fate =
    | Waiting
    | Due(callback: Callback)
    | Fired(callback: Callback)
    | Withdrawn

  datatype Firing = Firing(token: nat, callback: Callback)

  datatype State = State(queue: seq<Pending>, fate: seq<Fate>, fired: seq<Firing>, clock: nat)

  datatype Action =
    | Register(instance: string, channel: string)
    /** `INSTANCE_COMPLETED`, `INSTANCE_FAILED`, or a withdrawal after a failed commit. */
    | Complete(instance: string)
    | Fail(instance: string)
    | Withdraw(instance: string)
    /** The sweep reads its clock before it takes the lock, so `now` may lag. */
    | Sweep(now: nat)
    | Fire(token: nat)
    | Tick(clock: nat)

  ghost predicate HasToken(q: seq<Pending>, t: nat) {
    exists i :: 0 <= i < |q| && q[i].token == t
  }

  /** All listed entries' nacks become due. */
  function NackAll(fate: seq<Fate>, ps: seq<Pending>): (fate': seq<Fate>)
    ensures |fate'| == |fate|
  {
    if ps == [] then fate
    else
      var rest, t := NackAll(fate, ps[..|ps| - 1]), ps[|ps| - 1].token;
      if t < |fate| then rest[t := Due(Nack)] else rest
  }

  /** Taking the entry of `instance` out of the queue, leaving it the fate `f`. */
  ghost predicate TakesOut(s: State, instance: string, f: Fate, s': State) {
    if !Holds(s.queue, instance) then s' == s
    else exists i: nat :: i < |s.queue| && TakesOutAt(s, instance, f, s', i)
  }

  ghost predicate TakesOutAt(s: State, instance: string, f: Fate, s': State, i: nat)
    requires i < |s.queue|
  {
    && s.queue[i].instance == instance && s.queue[i].token < |s.fate|
    && s' == s.(queue := Without(s.queue, i), fate := s.fate[s.queue[i].token := f])
  }

  ghost predicate Next(capacity: nat, timeout: nat, s: State, a: Action, s': State) {
    match a
    case Register(instance, channel) =>
      if Holds(s.queue, instance) then s' == s
      else
        var p := Pending(instance, channel, s.clock, |s.fate|);
        if |s.queue| >= capacity > 0 then
          s' == s.(queue := s.queue[1..] + [p], fate := NackAll(s.fate, [s.queue[0]]) + [Waiting])
        else
          s' == s.(queue := s.queue + [p], fate := s.fate + [Waiting])
    case Complete(instance) => TakesOut(s, instance, Due(Ack), s')
    case Fail(instance) => TakesOut(s, instance, Due(Nack), s')
    case Withdraw(instance) => TakesOut(s, instance, Withdrawn, s')
    case Sweep(now) =>
      now <= s.clock
      && s' == s.(queue := Kept(s.queue, now, timeout), fate := NackAll(s.fate, Expired(s.queue, now, timeout)))
    case Fire(t) =>
      t < |s.fate| && s.fate[t].Due?
      && s' == s.(fate := s.fate[t := Fired(s.fate[t].callback)], fired := s.fired + [Firing(t, s.fate[t].callback)])
    case Tick(clock) => s.clock <= clock && s' == s.(clock := clock)
  }

  ghost predicate Init(s: State) {
    s.queue == [] && s.fate == [] && s.fired == []
  }

  ghost predicate IsRun(capacity: nat, timeout: nat, run: seq<State>, acts: seq<Action>) {
    && |run| == |acts| + 1
    && Init(run[0])
    && forall i :: 0 <= i < |acts| ==> Next(capacity, timeout, run[i], acts[i], run[i + 1])
  }

  // ---- the invariant -------------------------------------------------------

  ghost predicate DistinctTokens(q: seq<Pending>) {
    forall i, j :: 0 <= i < j < |q| ==> q[i].token != q[j].token
  }

  ghost predicate QueueInv(capacity: nat, s: State) {
    && |s.queue| <= capacity
    && DistinctInstances(s.queue) && DistinctTokens(s.queue) && Chronological(s.queue)
    && forall i :: 0 <= i < |s.queue| ==> s.queue[i].registeredAt <= s.clock
  }

  /** The queue holds exactly the waiting registrations. */
  ghost predicate WaitingInv(s: State) {
    && (forall t: nat :: HasToken(s.queue, t) ==> t < |s.fate|)
    && (forall t :: 0 <= t < |s.fate| ==> (s.fate[t] == Waiting <==> HasToken(s.queue, t)))
  }

  ghost predicate FiredAs(fired: seq<Firing>, t: nat, cb: Callback) {
    exists k :: 0 <= k < |fired| && fired[k] == Firing(t, cb)
  }

  /** Every fired callback is the one of its registration's fate, and fired once. */
  ghost predicate FiredInv(s: State) {
    && (forall j, k :: 0 <= j < k < |s.fired| ==> s.fired[j].token != s.fired[k].token)
    && (forall k :: 0 <= k < |s.fired| ==> s.fired[k].token < |s.fate| && s.fate[s.fired[k].token] == Fired(s.fired[k].callback))
    && (forall t :: 0 <= t < |s.fate| && s.fate[t].Fired? ==> FiredAs(s.fired, t, s.fate[t].callback))
  }

  ghost predicate Inv(capacity: nat, s: State) {
    QueueInv(capacity, s) && WaitingInv(s) && FiredInv(s)
  }

  // ---- queue lemmas --------------------------------------------------------

  lemma WithoutTokens(q: seq<Pending>, i: nat, t: nat)
    requires i < |q| && DistinctTokens(q)
    ensures HasToken(Without(q, i), t) <==> HasToken(q, t) && t != q[i].token
  {
    var w := Without(q, i);
    assert forall k :: 0 <= k < |w| ==> w[k] == if k < i then q[k] else q[k + 1];
    if HasToken(q, t) && t != q[i].token {
      var k :| 0 <= k < |q| && q[k].token == t;
      assert w[if k < i then k else k - 1] == q[k];
    }
  }

  lemma WithoutKeeps(capacity: nat, s: State, i: nat)
    requires i < |s.queue| && QueueInv(capacity, s)
    ensures QueueInv(capacity, s.(queue := Without(s.queue, i)))
  {
  }

  lemma SplitTokens(q: seq<Pending>, a: seq<Pending>, b: seq<Pending>, t: nat)
    requires q == a + b && DistinctTokens(q)
    ensures HasToken(b, t) <==> HasToken(q, t) && !HasToken(a, t)
  {
    assert forall i :: 0 <= i < |a| ==> a[i] == q[i];
    assert forall i :: 0 <= i < |b| ==> b[i] == q[|a| + i];
    if HasToken(q, t) && !HasToken(a, t) {
      var i :| 0 <= i < |q| && q[i].token == t;
      assert i >= |a|;
      assert b[i - |a|].token == t;
    }
  }

  lemma SplitKeeps(capacity: nat, s: State, a: seq<Pending>, b: seq<Pending>)
    requires s.queue == a + b && QueueInv(capacity, s)
    ensures QueueInv(capacity, s.(queue := b))
  {
    SuffixKept(s.queue, a, b);
    assert forall i :: 0 <= i < |b| ==> b[i] == s.queue[|a| + i];
  }

  lemma {:induction false} NackedAt(fate: seq<Fate>, ps: seq<Pending>, t: nat)
    requires t < |fate|
    ensures NackAll(fate, ps)[t] == if HasToken(ps, t) then Due(Nack) else fate[t]
  {
    if ps != [] {
      var front := ps[..|ps| - 1];
      NackedAt(fate, front, t);
      assert ps == front + [ps[|ps| - 1]];
      assert ps[|ps| - 1].token == t ==> HasToken(ps, t);
      if HasToken(front, t) {
        var i :| 0 <= i < |front| && front[i].token == t;
        assert ps[i].token == t;
      }
    }
  }

  // ---- every step ----------------------------------------------------------

  /** A prefix leaves the queue to be nacked, the rest stays: the sweep, and eviction. */
  lemma PrefixStep(capacity: nat, s: State, a: seq<Pending>, b: seq<Pending>)
    requires Inv(capacity, s) && s.queue == a + b
    ensures Inv(capacity, s.(queue := b, fate := NackAll(s.fate, a)))
  {
    var s' := s.(queue := b, fate := NackAll(s.fate, a));
    SplitKeeps(capacity, s, a, b);
    forall t: nat
      ensures HasToken(b, t) <==> HasToken(s.queue, t) && !HasToken(a, t)
      ensures HasToken(a, t) ==> HasToken(s.queue, t)
    {
      SplitTokens(s.queue, a, b, t);
      if HasToken(a, t) {
        var i :| 0 <= i < |a| && a[i].token == t;
        assert s.queue[i].token == t;
      }
    }
    forall t | 0 <= t < |s.fate|
      ensures s'.fate[t] == if HasToken(a, t) then Due(Nack) else s.fate[t]
    {
      NackedAt(s.fate, a, t);
    }
  }

  lemma PushStep(capacity: nat, s: State, p: Pending)
    requires Inv(capacity, s) && |s.queue| < capacity
    requires !Holds(s.queue, p.instance) && p.registeredAt == s.clock && p.token == |s.fate|
    ensures Inv(capacity, s.(queue := s.queue + [p], fate := s.fate + [Waiting]))
  {
    var s' := s.(queue := s.queue + [p], fate := s.fate + [Waiting]);
    assert forall i :: 0 <= i < |s.queue| ==> HasToken(s.queue, s.queue[i].token);
    forall t: nat
      ensures HasToken(s'.queue, t) <==> HasToken(s.queue, t) || t == |s.fate|
    {
      assert s'.queue[|s.queue|] == p;
      if HasToken(s.queue, t) {
        var i :| 0 <= i < |s.queue| && s.queue[i].token == t;
        assert s'.queue[i].token == t;
      }
    }
  }

  lemma TakeOutStep(capacity: nat, s: State, instance: string, f: Fate, s': State)
    requires Inv(capacity, s) && TakesOut(s, instance, f, s')
    requires f.Due? || f.Withdrawn?
    ensures Inv(capacity, s')
  {
    if Holds(s.queue, instance) {
      var i: nat :| i < |s.queue| && TakesOutAt(s, instance, f, s', i);
      WithoutKeeps(capacity, s, i);
      assert HasToken(s.queue, s.queue[i].token);
      forall t: nat
        ensures HasToken(s'.queue, t) <==> HasToken(s.queue, t) && t != s.queue[i].token
      {
        WithoutTokens(s.queue, i, t);
      }
    }
  }

  lemma FireStep(capacity: nat, s: State, t: nat)
    requires Inv(capacity, s) && t < |s.fate| && s.fate[t].Due?
    ensures Inv(capacity, s.(fate := s.fate[t := Fired(s.fate[t].callback)], fired := s.fired + [Firing(t, s.fate[t].callback)]))
  {
    var s' := s.(fate := s.fate[t := Fired(s.fate[t].callback)], fired := s.fired + [Firing(t, s.fate[t].callback)]);
    forall u | 0 <= u < |s'.fate| && s'.fate[u].Fired?
      ensures FiredAs(s'.fired, u, s'.fate[u].callback)
    {
      if u == t {
        assert s'.fired[|s.fired|] == Firing(t, s.fate[t].callback);
      } else {
        assert FiredAs(s.fired, u, s.fate[u].callback);
        var k :| 0 <= k < |s.fired| && s.fired[k] == Firing(u, s.fate[u].callback);
        assert s'.fired[k] == s.fired[k];
      }
    }
  }

  lemma RegisterStep(capacity: nat, timeout: nat, s: State, a: Action, s': State)
    requires capacity >= 1 && Inv(capacity, s) && Next(capacity, timeout, s, a, s') && a.Register?
    ensures Inv(capacity, s')
  {
    if !Holds(s.queue, a.instance) {
      var p := Pending(a.instance, a.channel, s.clock, |s.fate|);
      if |s.queue| >= capacity {
        assert s.queue == [s.queue[0]] + s.queue[1..];
        PrefixStep(capacity, s, [s.queue[0]], s.queue[1..]);
        var mid := s.(queue := s.queue[1..], fate := NackAll(s.fate, [s.queue[0]]));
        assert !Holds(mid.queue, p.instance) by {
          assert forall i :: 0 <= i < |mid.queue| ==> mid.queue[i] == s.queue[i + 1];
        }
        PushStep(capacity, mid, p);
      } else {
        PushStep(capacity, s, p);
      }
    }
  }

  lemma InvStep(capacity: nat, timeout: nat, s: State, a: Action, s': State)
    requires capacity >= 1 && Inv(capacity, s) && Next(capacity, timeout, s, a, s')
    ensures Inv(capacity, s')
  {
    match a
    case Register(instance, channel) => RegisterStep(capacity, timeout, s, a, s');
    case Complete(instance) => TakeOutStep(capacity, s, instance, Due(Ack), s');
    case Fail(instance) => TakeOutStep(capacity, s, instance, Due(Nack), s');
    case Withdraw(instance) => TakeOutStep(capacity, s, instance, Withdrawn, s');
    case Sweep(now) =>
      SweepTakesPrefix(s.queue, now, timeout);
      PrefixStep(capacity, s, Expired(s.queue, now, timeout), Kept(s.queue, now, timeout));
    case Fire(t) => FireStep(capacity, s, t);
    case Tick(clock) =>
  }

  // ---- the registry's methods are steps ------------------------------------

  /** What a registration does under the lock is a step, with the evicted entry's nack left due. */
  lemma RegisterIsStep(capacity: nat, timeout: nat, s: State, p: Pending, accepted: bool, evicted: Option<Pending>, queue: seq<Pending>)
    returns (s': State)
    requires capacity >= 1 && Inv(capacity, s) && p.registeredAt == s.clock && p.token == |s.fate|
    requires Registered(capacity, s.queue, p, accepted, evicted, queue)
    ensures Next(capacity, timeout, s, Register(p.instance, p.channel), s') && s'.queue == queue
    ensures accepted ==> |s'.fate| == |s.fate| + 1 && s'.fate[p.token] == Waiting
    ensures evicted.Some? ==> evicted.value.token < |s.fate| && s'.fate[evicted.value.token] == Due(Nack)
  {
    if !accepted {
      s' := s;
    } else if evicted.None? {
      s' := s.(queue := queue, fate := s.fate + [Waiting]);
    } else {
      var oldest := evicted.value;
      s' := s.(queue := queue, fate := NackAll(s.fate, [oldest]) + [Waiting]);
      assert HasToken(s.queue, oldest.token) && HasToken([oldest], oldest.token) by {
        assert [oldest][0].token == oldest.token;
      }
      NackedAt(s.fate, [oldest], oldest.token);
    }
  }

  /** What a removal does under the lock is a completion, a failure or a withdrawal, by what its caller fires. */
  lemma RemoveIsStep(capacity: nat, timeout: nat, s: State, instance: string, removed: Option<Pending>, queue: seq<Pending>, f: Fate)
    returns (s': State)
    requires Inv(capacity, s) && Removed(s.queue, instance, removed, queue)
    ensures TakesOut(s, instance, f, s') && s'.queue == queue
    ensures removed.Some? ==> removed.value.token < |s'.fate| && s'.fate[removed.value.token] == f
  {
    if removed.None? {
      s' := s;
    } else {
      var i: nat :| i < |s.queue| && s.queue[i] == removed.value && queue == Without(s.queue, i);
      assert HasToken(s.queue, s.queue[i].token);
      s' := s.(queue := queue, fate := s.fate[s.queue[i].token := f]);
      assert TakesOutAt(s, instance, f, s', i);
    }
  }

  lemma CutAt(q: seq<Pending>, now: nat, timeout: nat, timedOut: seq<Pending>, kept: seq<Pending>, i: nat)
    requires Swept(q, now, timeout, timedOut, kept) && i < |q|
    ensures Overdue(q[i], now, timeout) <==> i < |timedOut|
  {
  }

  lemma SweptIsSplit(q: seq<Pending>, now: nat, timeout: nat, timedOut: seq<Pending>, kept: seq<Pending>)
    requires Chronological(q) && Swept(q, now, timeout, timedOut, kept)
    ensures timedOut == Expired(q, now, timeout) && kept == Kept(q, now, timeout)
  {
    SweepTakesPrefix(q, now, timeout);
    var e, k := Expired(q, now, timeout), Kept(q, now, timeout);
    var i := if |e| < |timedOut| then |e| else |timedOut|;
    if i < |q| {
      CutAt(q, now, timeout, timedOut, kept, i);
      CutAt(q, now, timeout, e, k, i);
    }
    assert |e| == |timedOut|;
    assert e == q[..i] && timedOut == q[..i] && k == q[i..] && kept == q[i..];
  }

  /** What a sweep does under the lock is a step, with the nacks of the entries taken out left due. */
  lemma SweepIsStep(capacity: nat, timeout: nat, s: State, now: nat, timedOut: seq<Pending>, queue: seq<Pending>) returns (s': State)
    requires Inv(capacity, s) && now <= s.clock && Swept(s.queue, now, timeout, timedOut, queue)
    ensures Next(capacity, timeout, s, Sweep(now), s') && s'.queue == queue && s'.fate == NackAll(s.fate, timedOut)
  {
    SweptIsSplit(s.queue, now, timeout, timedOut, queue);
    s' := s.(queue := queue, fate := NackAll(s.fate, timedOut));
  }

  // ---- every run -----------------------------------------------------------

  /** Every accepted registration has exactly one fate, in every state of every run. */
  lemma {:induction false} EveryRunKeepsInv(capacity: nat, timeout: nat, run: seq<State>, acts: seq<Action>, i: nat)
    requires capacity >= 1 && IsRun(capacity, timeout, run, acts) && i < |run|
    ensures Inv(capacity, run[i])
  {
    if i > 0 {
      EveryRunKeepsInv(capacity, timeout, run, acts, i - 1);
      InvStep(capacity, timeout, run[i - 1], acts[i - 1], run[i]);
    }
  }

  // ---- how a fate comes about ----------------------------------------------

  /** Registration `t` is waiting for `instance`. */
  ghost predicate WaitsFor(q: seq<Pending>, t: nat, instance: string) {
    exists i :: 0 <= i < |q| && q[i].token == t && q[i].instance == instance
  }

  ghost predicate OverdueIn(q: seq<Pending>, t: nat, now: nat, timeout: nat) {
    exists i :: 0 <= i < |q| && q[i].token == t && Overdue(q[i], now, timeout)
  }

  /** The step that may leave registration `t`, until now waiting, with fate `f`. */
  ghost predicate Causes(capacity: nat, timeout: nat, s: State, a: Action, t: nat, f: Fate) {
    match f
    case Due(Ack) => a.Complete? && WaitsFor(s.queue, t, a.instance)
    case Due(Nack) =>
      || (a.Fail? && WaitsFor(s.queue, t, a.instance))
      || (a.Sweep? && OverdueIn(s.queue, t, a.now, timeout))
      || (a.Register? && !Holds(s.queue, a.instance) && |s.queue| == capacity && s.queue != [] && s.queue[0].token == t)
    case Withdrawn => a.Withdraw? && WaitsFor(s.queue, t, a.instance)
    case Waiting => false
    case Fired(_) => false
  }

  /** A fate changes only from waiting by its proper cause, or from due to fired by firing that very callback. */
  lemma FateAdvances(capacity: nat, timeout: nat, s: State, a: Action, s': State, t: nat)
    requires capacity >= 1 && Inv(capacity, s) && Next(capacity, timeout, s, a, s') && t < |s.fate|
    ensures t < |s'.fate|
    ensures || s'.fate[t] == s.fate[t]
            || (s.fate[t] == Waiting && Causes(capacity, timeout, s, a, t, s'.fate[t]))
            || (s.fate[t].Due? && a == Fire(t) && s'.fate[t] == Fired(s.fate[t].callback))
  {
    match a
    case Register(instance, channel) =>
      if !Holds(s.queue, instance) && |s.queue| >= capacity {
        NackedAt(s.fate, [s.queue[0]], t);
        assert HasToken([s.queue[0]], t) <==> s.queue[0].token == t;
        assert HasToken(s.queue, s.queue[0].token);
      }
    case Complete(instance) => TakenOutFate(capacity, s, instance, Due(Ack), s', t);
    case Fail(instance) => TakenOutFate(capacity, s, instance, Due(Nack), s', t);
    case Withdraw(instance) => TakenOutFate(capacity, s, instance, Withdrawn, s', t);
    case Sweep(now) =>
      NackedAt(s.fate, Expired(s.queue, now, timeout), t);
      if HasToken(Expired(s.queue, now, timeout), t) {
        SweepTakesPrefix(s.queue, now, timeout);
        var e := Expired(s.queue, now, timeout);
        var i :| 0 <= i < |e| && e[i].token == t;
        assert s.queue[i] == e[i] && e[i] in e;
        assert HasToken(s.queue, t);
      }
    case Fire(u) =>
    case Tick(clock) =>
  }

  lemma TakenOutFate(capacity: nat, s: State, instance: string, f: Fate, s': State, t: nat)
    requires Inv(capacity, s) && TakesOut(s, instance, f, s') && t < |s.fate|
    ensures |s'.fate| == |s.fate|
    ensures s'.fate[t] == s.fate[t] || (s.fate[t] == Waiting && s'.fate[t] == f && WaitsFor(s.queue, t, instance))
  {
  }

  /** A fired or withdrawn registration never changes again, and a due callback only fires. */
  lemma {:induction false} FatesAreFinal(capacity: nat, timeout: nat, run: seq<State>, acts: seq<Action>, i: nat, j: nat, t: nat)
    requires capacity >= 1 && IsRun(capacity, timeout, run, acts)
    requires i <= j < |run| && t < |run[i].fate|
    ensures t < |run[j].fate|
    ensures run[i].fate[t].Fired? || run[i].fate[t].Withdrawn? ==> run[j].fate[t] == run[i].fate[t]
    ensures run[i].fate[t].Due? ==> run[j].fate[t] == run[i].fate[t] || run[j].fate[t] == Fired(run[i].fate[t].callback)
    decreases j
  {
    if i < j {
      FatesAreFinal(capacity, timeout, run, acts, i, j - 1, t);
      EveryRunKeepsInv(capacity, timeout, run, acts, j - 1);
      FateAdvances(capacity, timeout, run[j - 1], acts[j - 1], run[j], t);
    }
  }

  /** What a registration that has left the queue goes back to. */
  function Reason(f: Fate): Fate {
    if f.Fired? then Due(f.callback) else f
  }

  ghost predicate CausedEarlier(capacity: nat, timeout: nat, run: seq<State>, acts: seq<Action>, j: nat, t: nat, f: Fate) {
    exists i :: 0 <= i < j && i < |acts| && i < |run| && Causes(capacity, timeout, run[i], acts[i], t, f)
  }

  /**
   In every run an ack is due or fired only for a registration whose instance completed while it waited,
   a nack only after a failure, a timeout or an eviction as the oldest, a withdrawal only when withdrawn.
   */
  lemma {:induction false} FatesHaveCauses(capacity: nat, timeout: nat, run: seq<State>, acts: seq<Action>, j: nat, t: nat)
    requires capacity >= 1 && IsRun(capacity, timeout, run, acts)
    requires j < |run| && t < |run[j].fate| && run[j].fate[t] != Waiting
    ensures CausedEarlier(capacity, timeout, run, acts, j, t, Reason(run[j].fate[t]))
    decreases j
  {
    if j > 0 {
      EveryRunKeepsInv(capacity, timeout, run, acts, j - 1);
      var s, a, s' := run[j - 1], acts[j - 1], run[j];
      if t < |s.fate| {
        FateAdvances(capacity, timeout, s, a, s', t);
        if s.fate[t] != Waiting {
          FatesHaveCauses(capacity, timeout, run, acts, j - 1, t);
          var i :| 0 <= i < j - 1 && Causes(capacity, timeout, run[i], acts[i], t, Reason(s.fate[t]));
          assert Reason(s'.fate[t]) == Reason(s.fate[t]);
        }
      }
    }
  }

  // ---- conservation --------------------------------------------------------

  /** The registrations whose fate is `f`. */
  ghost function KindOf(fate: seq<Fate>, f: Fate): set<nat> {
    set t | 0 <= t < |fate| && fate[t] == f
  }

  /** Accepted registrations are conserved: waiting, due, fired and withdrawn add up to all of them. */
  lemma Conservation(capacity: nat, s: State)
    requires Inv(capacity, s)
    ensures |s.fate| == |s.queue| + |KindOf(s.fate, Due(Ack))| + |KindOf(s.fate, Due(Nack))| + |s.fired| + |KindOf(s.fate, Withdrawn)|
  {
    WaitingCount(capacity, s);
    FiredCount(capacity, s);
    FateCount(s.fate);
  }

  lemma WaitingCount(capacity: nat, s: State)
    requires Inv(capacity, s)
    ensures |KindOf(s.fate, Waiting)| == |s.queue|
  {
    var tokens := seq(|s.queue|, i requires 0 <= i < |s.queue| => s.queue[i].token);
    ElemsBound(tokens);
    forall t
      ensures t in KindOf(s.fate, Waiting) <==> t in tokens
    {
      if t in KindOf(s.fate, Waiting) {
        var i :| 0 <= i < |s.queue| && s.queue[i].token == t;
        assert tokens[i] == t;
      }
      if t in tokens {
        var i :| 0 <= i < |tokens| && tokens[i] == t;
        assert s.queue[i].token == t && HasToken(s.queue, t);
      }
    }
    assert KindOf(s.fate, Waiting) == Elems(tokens);
  }

  lemma FiredCount(capacity: nat, s: State)
    requires Inv(capacity, s)
    ensures |KindOf(s.fate, Fired(Ack))| + |KindOf(s.fate, Fired(Nack))| == |s.fired|
  {
    var tokens := seq(|s.fired|, i requires 0 <= i < |s.fired| => s.fired[i].token);
    ElemsBound(tokens);
    forall t
      ensures t in KindOf(s.fate, Fired(Ack)) + KindOf(s.fate, Fired(Nack)) <==> t in tokens
    {
      if t in KindOf(s.fate, Fired(Ack)) + KindOf(s.fate, Fired(Nack)) {
        assert FiredAs(s.fired, t, s.fate[t].callback);
        var k :| 0 <= k < |s.fired| && s.fired[k] == Firing(t, s.fate[t].callback);
        assert tokens[k] == t;
      }
      if t in tokens {
        var k :| 0 <= k < |tokens| && tokens[k] == t;
        assert s.fate[s.fired[k].token] == Fired(s.fired[k].callback);
        match s.fired[k].callback
        case Ack =>
        case Nack =>
      }
    }
    assert KindOf(s.fate, Fired(Ack)) + KindOf(s.fate, Fired(Nack)) == Elems(tokens);
    assert KindOf(s.fate, Fired(Ack)) !! KindOf(s.fate, Fired(Nack));
  }

  lemma {:induction false} FateCount(fate: seq<Fate>)
    ensures |fate| == |KindOf(fate, Waiting)| + |KindOf(fate, Due(Ack))| + |KindOf(fate, Due(Nack))|
                    + |KindOf(fate, Fired(Ack))| + |KindOf(fate, Fired(Nack))| + |KindOf(fate, Withdrawn)|
  {
    if fate != [] {
      var front := fate[..|fate| - 1];
      FateCount(front);
      KindStep(fate, Waiting);
      KindStep(fate, Due(Ack));
      KindStep(fate, Due(Nack));
      KindStep(fate, Fired(Ack));
      KindStep(fate, Fired(Nack));
      KindStep(fate, Withdrawn);
      match fate[|fate| - 1]
      case Waiting =>
      case Due(Ack) =>
      case Due(Nack) =>
      case Fired(Ack) =>
      case Fired(Nack) =>
      case Withdrawn =>
    }
  }

  lemma KindStep(fate: seq<Fate>, f: Fate)
    requires fate != []
    ensures |KindOf(fate, f)| == |KindOf(fate[..|fate| - 1], f)| + if fate[|fate| - 1] == f then 1 else 0
  {
    var front := fate[..|fate| - 1];
    if fate[|fate| - 1] == f {
      assert KindOf(fate, f) == KindOf(front, f) + {|fate| - 1};
    } else {
      assert KindOf(fate, f) == KindOf(front, f);
    }
  }
}

/**
 Interleavings of the capacity store's operations (rust/crates/sutra-channels/src/capacity.rs).

 The store has one lock around the slot table and another around the memory of ended sessions.
 `acquire` holds the slot lock from before it looks at that memory until it has inserted; `end_session`
 first marks the session under the memory's lock alone, then takes the slot lock to release. Every
 other operation is one section under the slot lock. A state records the two shared structures, who
 holds the slot lock, and how far each caller has got.
 */
module CapacityProtocol {
  import opened Basics
  import opened CapacityPools
  import opened CapacityStore

  /** Whoever calls the store: only told apart. */
  type Caller(==, !new)

  datatype Progress =
    | Idle
    /** `acquire` holds the slot lock and has not looked at the ended sessions yet. */
    | Locked(req: Request)
    /** `acquire` still holds the slot lock and was not told its session is over. */
    | Cleared(req: Request)
    /** `end_session` has marked the session and not released its slots yet. */
    | Marked(deployment: string, holder: string, call: Option<string>)

  datatype State = State(slots: Slots, sessions: seq<SessionKey>, lock: Option<Caller>, at: map<Caller, Progress>)

  datatype Action =
    | BeginAcquire(c: Caller, req: Request)
    | CheckSession(c: Caller)
    | FinishAcquire(c: Caller)
    | Mark(c: Caller, deployment: string, holder: string, call: Option<string>)
    | EndRelease(c: Caller)
    | ReleaseSlots(deployment: string, holder: string, sel: Selector)
    | RebindSlots(deployment: string, from: string, to: string)

  function Where(s: State, c: Caller): Progress {
    if c in s.at then s.at[c] else Idle
  }

  predicate InAcquire(p: Progress) {
    p.Locked? || p.Cleared?
  }

  ghost predicate Free(pools: map<string, Pool>, s: State, req: Request)
    requires req.pool in pools
  {
    Wanted(req) !in s.slots && Room(pools[req.pool], s.slots, req.direction)
  }

  /** One locked section of some operation. */
  ghost predicate Next(pools: map<string, Pool>, s: State, a: Action, s': State) {
    match a
    case BeginAcquire(c, req) =>
      Where(s, c) == Idle && s.lock == None && req.pool in pools
      && s' == s.(lock := Some(c), at := s.at[c := Locked(req)])
    case CheckSession(c) =>
      Where(s, c).Locked?
      && (if Ended(s.at[c].req, s.sessions) then s' == s.(lock := None, at := s.at[c := Idle])
          else s' == s.(at := s.at[c := Cleared(s.at[c].req)]))
    case FinishAcquire(c) =>
      Where(s, c).Cleared? && s.at[c].req.pool in pools
      && s'.lock == None && s'.at == s.at[c := Idle] && s'.sessions == s.sessions
      && s'.slots == (if Free(pools, s, s.at[c].req) then s.slots[Wanted(s.at[c].req) := s.at[c].req.direction] else s.slots)
    case Mark(c, deployment, holder, call) =>
      Where(s, c) == Idle
      && s' == s.(sessions := Remember(s.sessions, MarkerOf(deployment, holder, call)), at := s.at[c := Marked(deployment, holder, call)])
    case EndRelease(c) =>
      Where(s, c).Marked? && s.lock == None
      && s'.lock == None && s'.at == s.at[c := Idle] && s'.sessions == s.sessions
      && Released(s.slots, s.at[c].deployment, s.at[c].holder, SelectorOf(s.at[c].call), s'.slots)
    case ReleaseSlots(deployment, holder, sel) =>
      s.lock == None
      && s'.lock == None && s'.at == s.at && s'.sessions == s.sessions
      && Released(s.slots, deployment, holder, sel, s'.slots)
    case RebindSlots(deployment, from, to) =>
      s.lock == None
      && s'.lock == None && s'.at == s.at && s'.sessions == s.sessions
      && Rebound(s.slots, deployment, from, to, s'.slots)
  }

  ghost predicate Init(s: State) {
    s == State(map[], [], None, map[])
  }

  ghost predicate IsRun(pools: map<string, Pool>, run: seq<State>, acts: seq<Action>) {
    && |run| == |acts| + 1
    && Init(run[0])
    && forall i :: 0 <= i < |acts| ==> Next(pools, run[i], acts[i], run[i + 1])
  }

  // ---- what every step keeps -----------------------------------------------

  /** Exactly the callers inside `acquire` hold the slot lock, so at most one. */
  ghost predicate Exclusive(pools: map<string, Pool>, s: State) {
    forall c: Caller ::
      && (InAcquire(Where(s, c)) <==> s.lock == Some(c))
      && (InAcquire(Where(s, c)) ==> Where(s, c).req.pool in pools)
  }

  ghost predicate Inv(pools: map<string, Pool>, s: State) {
    Exclusive(pools, s) && PoolsKept(pools, s.slots) && Bounded(s.sessions)
  }

  lemma InvInit(pools: map<string, Pool>, s: State)
    requires Init(s)
    ensures Inv(pools, s)
  {
    EmptyKeepsPools(pools);
  }

  lemma SlotsStep(pools: map<string, Pool>, s: State, a: Action, s': State)
    requires WellNamed(pools) && Inv(pools, s) && Next(pools, s, a, s')
    ensures PoolsKept(pools, s'.slots)
  {
    match a
    case BeginAcquire(c, req) =>
    case CheckSession(c) =>
    case FinishAcquire(c) =>
      var req := s.at[c].req;
      if Free(pools, s, req) {
        TakeKeepsPools(pools, s.slots, Wanted(req), req.direction);
      }
    case Mark(c, deployment, holder, call) =>
    case EndRelease(c) =>
      ReleaseKeepsPools(pools, s.slots, s.at[c].deployment, s.at[c].holder, SelectorOf(s.at[c].call), s'.slots);
    case ReleaseSlots(deployment, holder, sel) =>
      ReleaseKeepsPools(pools, s.slots, deployment, holder, sel, s'.slots);
    case RebindSlots(deployment, from, to) =>
      RebindKeepsPools(pools, s.slots, deployment, from, to, s'.slots);
  }

  lemma InvStep(pools: map<string, Pool>, s: State, a: Action, s': State)
    requires WellNamed(pools) && Inv(pools, s) && Next(pools, s, a, s')
    ensures Inv(pools, s')
  {
    SlotsStep(pools, s, a, s');
    if a.Mark? {
      RememberKeepsBounds(s.sessions, MarkerOf(a.deployment, a.holder, a.call));
    }
    LockStep(pools, s, a, s');
  }

  lemma LockStep(pools: map<string, Pool>, s: State, a: Action, s': State)
    requires Exclusive(pools, s) && Next(pools, s, a, s')
    ensures Exclusive(pools, s')
  {
    forall c: Caller
      ensures InAcquire(Where(s', c)) <==> s'.lock == Some(c)
      ensures InAcquire(Where(s', c)) ==> Where(s', c).req.pool in pools
    {
      assert InAcquire(Where(s, c)) <==> s.lock == Some(c);
    }
  }

  /** In every state of every run the reserves of all valid pools hold and no pool is oversubscribed. */
  lemma {:induction false} ReservesHoldInEveryRun(pools: map<string, Pool>, run: seq<State>, acts: seq<Action>, i: nat)
    requires WellNamed(pools) && IsRun(pools, run, acts) && i < |run|
    ensures Inv(pools, run[i])
  {
    if i == 0 {
      InvInit(pools, run[0]);
    } else {
      ReservesHoldInEveryRun(pools, run, acts, i - 1);
      InvStep(pools, run[i - 1], acts[i - 1], run[i]);
    }
  }

  /** So at any point of any run a direction below its own reserve would be admitted. */
  lemma ReserveAlwaysAvailable(pools: map<string, Pool>, run: seq<State>, acts: seq<Action>, i: nat, n: string, d: Direction)
    requires WellNamed(pools) && IsRun(pools, run, acts) && i < |run|
    requires n in pools && Validate(pools[n]).None?
    requires Used(run[i].slots, n, d) < Reserve(pools[n], d)
    ensures Admits(pools[n], d, Used(run[i].slots, n, Inbound), Used(run[i].slots, n, Outbound))
  {
    ReservesHoldInEveryRun(pools, run, acts, i);
    ReserveIsAvailable(pools[n], run[i].slots, d);
  }

  /**
   An `acquire` that nobody interrupts is three steps, and what they leave is what the store's method promises: the
   slot taken exactly when the session is not over, the key not held and the direction admitted.
   */
  lemma UninterruptedAcquire(pools: map<string, Pool>, s: State, c: Caller, req: Request) returns (s1: State, s2: State, s3: State)
    requires Where(s, c) == Idle && s.lock == None && req.pool in pools && !Ended(req, s.sessions)
    ensures Next(pools, s, BeginAcquire(c, req), s1) && Next(pools, s1, CheckSession(c), s2) && Next(pools, s2, FinishAcquire(c), s3)
    ensures s3.lock == None && Where(s3, c) == Idle && s3.sessions == s.sessions
    ensures s3.slots == if Free(pools, s, req) then s.slots[Wanted(req) := req.direction] else s.slots
  {
    s1 := s.(lock := Some(c), at := s.at[c := Locked(req)]);
    s2 := s1.(at := s1.at[c := Cleared(req)]);
    s3 := State(if Free(pools, s, req) then s.slots[Wanted(req) := req.direction] else s.slots, s.sessions, None, s2.at[c := Idle]);
  }

  // ---- ended sessions ------------------------------------------------------

  /** The marker is remembered, nothing it covers is held outbound, and nobody is about to take such a slot. */
  ghost predicate Settled(s: State, m: SessionKey) {
    && m in s.sessions
    && Quiet(s.slots, m)
    && forall c: Caller :: Where(s, c).Cleared? && Where(s, c).req.direction == Outbound ==>
         !Covers(m, Where(s, c).req.deployment, Where(s, c).req.holder, Where(s, c).req.call)
  }

  /** The rebind moves an outbound slot onto the marked holder. */
  ghost predicate Disturbs(s: State, a: Action, m: SessionKey) {
    && a.RebindSlots?
    && exists k :: k in s.slots && HeldBy(k, a.deployment, a.from) && s.slots[k] == Outbound && Covers(m, a.deployment, a.to, k.call)
  }

  /** When `end_session` returns with its marker still remembered, the session is settled. */
  lemma EndSettles(pools: map<string, Pool>, s: State, c: Caller, s': State)
    requires Inv(pools, s) && Next(pools, s, EndRelease(c), s')
    requires s.at[c].call != Some("")
    requires MarkerOf(s.at[c].deployment, s.at[c].holder, s.at[c].call) in s.sessions
    ensures Settled(s', MarkerOf(s.at[c].deployment, s.at[c].holder, s.at[c].call))
  {
    EndReleases(s.slots, s.at[c].deployment, s.at[c].holder, s.at[c].call, s'.slots);
    forall d: Caller
      ensures !Where(s', d).Cleared?
    {
      assert InAcquire(Where(s', d)) ==> InAcquire(Where(s, d));
    }
  }

  lemma SettledStep(pools: map<string, Pool>, s: State, a: Action, s': State, m: SessionKey)
    requires Inv(pools, s) && Next(pools, s, a, s')
    requires Settled(s, m)
    requires m in s'.sessions && !Disturbs(s, a, m)
    ensures Settled(s', m)
  {
    SettledSlots(pools, s, a, s', m);
    forall c: Caller | Where(s', c).Cleared? && Where(s', c).req.direction == Outbound
      ensures !Covers(m, Where(s', c).req.deployment, Where(s', c).req.holder, Where(s', c).req.call)
    {
      if !Where(s, c).Cleared? {
        assert a == CheckSession(c) && !Ended(s.at[c].req, s.sessions);
        var i :| 0 <= i < |s.sessions| && s.sessions[i] == m;
      }
    }
  }

  lemma SettledSlots(pools: map<string, Pool>, s: State, a: Action, s': State, m: SessionKey)
    requires Inv(pools, s) && Next(pools, s, a, s')
    requires Settled(s, m)
    requires !Disturbs(s, a, m)
    ensures Quiet(s'.slots, m)
  {
    forall k | k in s'.slots && Covers(m, k.deployment, k.holder, k.call)
      ensures s'.slots[k] == Inbound
    {
      match a
      case BeginAcquire(c, req) =>
      case CheckSession(c) =>
      case FinishAcquire(c) =>
        assert k !in s.slots ==> k == Wanted(Where(s, c).req);
      case Mark(c, deployment, holder, call) =>
      case EndRelease(c) =>
      case ReleaseSlots(deployment, holder, sel) =>
      case RebindSlots(deployment, from, to) =>
        if !Stays(s.slots, deployment, from, k) {
          assert As(k, from) in s.slots && As(k, from).call == k.call && HeldBy(As(k, from), deployment, from);
        }
    }
  }

  /** From state `i` to state `j` the marker is remembered, and no step after the first moves an outbound slot onto its holder. */
  ghost predicate Undisturbed(run: seq<State>, acts: seq<Action>, m: SessionKey, i: nat, j: nat) {
    && j < |run| <= |acts| + 1
    && (forall k :: i <= k <= j ==> m in run[k].sessions)
    && (forall k :: i < k < j ==> !Disturbs(run[k], acts[k], m))
  }

  /** Action `i` of the run is the second half of an `end_session` that marked `m`. */
  ghost predicate Ends(run: seq<State>, acts: seq<Action>, m: SessionKey, i: nat)
    requires i < |acts| && i < |run|
  {
    && acts[i].EndRelease? && Where(run[i], acts[i].c).Marked?
    && var p := Where(run[i], acts[i].c); p.call != Some("") && m == MarkerOf(p.deployment, p.holder, p.call)
  }

  lemma EndOfRunSettles(pools: map<string, Pool>, run: seq<State>, acts: seq<Action>, m: SessionKey, i: nat)
    requires WellNamed(pools) && IsRun(pools, run, acts) && i < |acts|
    requires Ends(run, acts, m, i) && m in run[i].sessions
    ensures Settled(run[i + 1], m)
  {
    ReservesHoldInEveryRun(pools, run, acts, i);
    EndSettles(pools, run[i], acts[i].c, run[i + 1]);
  }

  /**
   Once `end_session` has returned, in every interleaving: while its marker is remembered and no rebind
   moves an outbound slot onto the holder, no outbound slot of that session or call is held.
   */
  lemma {:induction false} EndedSessionStaysQuiet(pools: map<string, Pool>, run: seq<State>, acts: seq<Action>, m: SessionKey, i: nat, j: nat)
    requires WellNamed(pools) && IsRun(pools, run, acts)
    requires i < j < |run|
    requires Ends(run, acts, m, i) && Undisturbed(run, acts, m, i, j)
    ensures Settled(run[j], m)
  {
    if j == i + 1 {
      EndOfRunSettles(pools, run, acts, m, i);
    } else {
      UndisturbedShorter(run, acts, m, i, j);
      EndedSessionStaysQuiet(pools, run, acts, m, i, j - 1);
      StepOfRunSettles(pools, run, acts, m, j - 1);
    }
  }

  lemma UndisturbedShorter(run: seq<State>, acts: seq<Action>, m: SessionKey, i: nat, j: nat)
    requires i + 1 < j && Undisturbed(run, acts, m, i, j)
    ensures Undisturbed(run, acts, m, i, j - 1) && m in run[j].sessions && !Disturbs(run[j - 1], acts[j - 1], m)
  {
  }

  lemma StepOfRunSettles(pools: map<string, Pool>, run: seq<State>, acts: seq<Action>, m: SessionKey, k: nat)
    requires WellNamed(pools) && IsRun(pools, run, acts) && k < |acts|
    requires Settled(run[k], m) && m in run[k + 1].sessions && !Disturbs(run[k], acts[k], m)
    ensures Settled(run[k + 1], m)
  {
    ReservesHoldInEveryRun(pools, run, acts, k);
    SettledStep(pools, run[k], acts[k], run[k + 1], m);
  }

  /** The guarantee is not empty: a caller that marks a session and then releases it, with nothing in between. */
  lemma AnEndedSession(pools: map<string, Pool>, c: Caller, deployment: string, holder: string)
    returns (run: seq<State>, acts: seq<Action>)
    ensures IsRun(pools, run, acts) && |acts| == 2
    ensures var m := MarkerOf(deployment, holder, None); Ends(run, acts, m, 1) && Undisturbed(run, acts, m, 1, 2)
  {
    var m := MarkerOf(deployment, holder, None);
    var start := State(map[], [], None, map[]);
    var marked := start.(sessions := [m], at := map[c := Marked(deployment, holder, None)]);
    var ended := marked.(at := map[c := Idle]);
    run, acts := [start, marked, ended], [Mark(c, deployment, holder, None), EndRelease(c)];
    assert Remember([], m) == [m];
    assert Next(pools, start, acts[0], marked);
    assert Next(pools, marked, acts[1], ended) by {
      assert marked.at[c := Idle] == ended.at;
    }
  }

  // ---- how long an ended session is remembered -----------------------------

  /** A marker is forgotten only as the oldest of a full memory, by another one being marked. */
  lemma ForgottenOnlyWhenFull(pools: map<string, Pool>, s: State, a: Action, s': State, m: SessionKey)
    requires Inv(pools, s) && Next(pools, s, a, s')
    requires m in s.sessions && m !in s'.sessions
    ensures a.Mark? && |s.sessions| == ENDED_MEMORY && m == s.sessions[0] && KeyMarked(a) !in s.sessions
  {
    if a.Mark? {
      RememberKeepsBounds(s.sessions, KeyMarked(a));
    }
  }

  function KeyMarked(a: Action): SessionKey
    requires a.Mark?
  {
    MarkerOf(a.deployment, a.holder, a.call)
  }

  /** The sessions these actions mark. */
  ghost function AllMarked(acts: seq<Action>): set<SessionKey> {
    set i | 0 <= i < |acts| && acts[i].Mark? :: KeyMarked(acts[i])
  }

  /** What the memory holds behind `m` is among these keys. */
  ghost predicate Behind(sessions: seq<SessionKey>, m: SessionKey, keys: set<SessionKey>) {
    forall p, q :: 0 <= p < q < |sessions| && sessions[p] == m ==> sessions[q] in keys
  }

  lemma BehindStep(pools: map<string, Pool>, s: State, a: Action, s': State, m: SessionKey, keys: set<SessionKey>)
    requires Next(pools, s, a, s') && Behind(s.sessions, m, keys) && m in s.sessions
    ensures Behind(s'.sessions, m, keys + if a.Mark? then {KeyMarked(a)} else {})
  {
    if a.Mark? && KeyMarked(a) !in s.sessions {
      var off := if |s.sessions| >= ENDED_MEMORY then 1 else 0;
      assert forall q :: 0 <= q < |s'.sessions| - 1 ==> s'.sessions[q] == s.sessions[q + off];
    }
  }

  lemma MarkedMore(acts: seq<Action>, a: Action)
    ensures AllMarked(acts + [a]) == AllMarked(acts) + if a.Mark? then {KeyMarked(a)} else {}
  {
    var more := acts + [a];
    assert more[|acts|] == a && forall i :: 0 <= i < |acts| ==> more[i] == acts[i];
    forall k | k in AllMarked(acts)
      ensures k in AllMarked(more)
    {
      var i :| 0 <= i < |acts| && acts[i].Mark? && k == KeyMarked(acts[i]);
      assert more[i].Mark?;
    }
  }

  lemma SliceMore(acts: seq<Action>, i: nat, j: nat)
    requires i <= j < |acts|
    ensures acts[i..j + 1] == acts[i..j] + [acts[j]]
  {
  }

  /** Action `i` marks `m`, which was not remembered, and it stays remembered up to state `k`. */
  ghost predicate Remembered(run: seq<State>, acts: seq<Action>, m: SessionKey, i: nat, k: nat) {
    && i < k < |run| == |acts| + 1
    && acts[i].Mark? && KeyMarked(acts[i]) == m && m !in run[i].sessions
    && forall x :: i < x <= k ==> m in run[x].sessions
  }

  lemma {:induction false} NewerWereMarked(pools: map<string, Pool>, run: seq<State>, acts: seq<Action>, m: SessionKey, i: nat, k: nat)
    requires IsRun(pools, run, acts) && Remembered(run, acts, m, i, k)
    ensures Behind(run[k].sessions, m, AllMarked(acts[i + 1..k]))
    decreases k
  {
    if k == i + 1 {
      assert Next(pools, run[i], acts[i], run[k]);
      NewestIsLast(run[i].sessions, m, run[k].sessions, AllMarked(acts[i + 1..k]));
    } else {
      NewerWereMarked(pools, run, acts, m, i, k - 1);
      BehindStep(pools, run[k - 1], acts[k - 1], run[k], m, AllMarked(acts[i + 1..k - 1]));
      MarkedMore(acts[i + 1..k - 1], acts[k - 1]);
      assert acts[i + 1..k] == acts[i + 1..k - 1] + [acts[k - 1]];
    }
  }

  lemma NewestIsLast(memory: seq<SessionKey>, m: SessionKey, memory': seq<SessionKey>, keys: set<SessionKey>)
    requires m !in memory && memory' == Remember(memory, m)
    ensures Behind(memory', m, keys)
  {
    assert forall p :: 0 <= p < |memory'| - 1 ==> memory'[p] in memory;
  }

  lemma FullMemoryIsMarked(memory: seq<SessionKey>, m: SessionKey, key: SessionKey, keys: set<SessionKey>)
    requires Bounded(memory) && |memory| == ENDED_MEMORY && memory[0] == m && Behind(memory, m, keys) && key !in memory
    ensures |keys + {key} - {m}| >= ENDED_MEMORY
  {
    var newer := memory[1..] + [key];
    ElemsBound(newer);
    assert Elems(newer) <= keys + {key} - {m};
    SmallerSet(Elems(newer), keys + {key} - {m});
  }

  lemma ForgettingMarks(pools: map<string, Pool>, run: seq<State>, acts: seq<Action>, m: SessionKey, j: nat)
    requires WellNamed(pools) && IsRun(pools, run, acts) && j < |acts|
    requires m in run[j].sessions && m !in run[j + 1].sessions
    ensures acts[j].Mark? && KeyMarked(acts[j]) !in run[j].sessions
    ensures Bounded(run[j].sessions) && |run[j].sessions| == ENDED_MEMORY && run[j].sessions[0] == m
  {
    ReservesHoldInEveryRun(pools, run, acts, j);
    ForgottenOnlyWhenFull(pools, run[j], acts[j], run[j + 1], m);
  }

  lemma ManyMarked(memory: seq<SessionKey>, m: SessionKey, before: seq<Action>, a: Action, all: seq<Action>)
    requires Bounded(memory) && |memory| == ENDED_MEMORY && memory[0] == m && Behind(memory, m, AllMarked(before))
    requires a.Mark? && KeyMarked(a) !in memory && all == before + [a]
    ensures |AllMarked(all) - {m}| >= ENDED_MEMORY
  {
    FullMemoryIsMarked(memory, m, KeyMarked(a), AllMarked(before));
    MarkedMore(before, a);
  }

  /** Between the action that marks a session and the one that makes the memory forget it, `ENDED_MEMORY` others are marked. */
  lemma ForgottenAfterMany(pools: map<string, Pool>, run: seq<State>, acts: seq<Action>, m: SessionKey, i: nat, j: nat)
    requires WellNamed(pools) && IsRun(pools, run, acts) && Remembered(run, acts, m, i, j)
    requires j < |acts| && m !in run[j + 1].sessions
    ensures |AllMarked(acts[i + 1..j + 1]) - {m}| >= ENDED_MEMORY
  {
    SliceMore(acts, i + 1, j);
    NewerWereMarked(pools, run, acts, m, i, j);
    ManyMarkedInRun(pools, run, acts, m, acts[i + 1..j], j, acts[i + 1..j + 1]);
  }

  lemma ManyMarkedInRun(pools: map<string, Pool>, run: seq<State>, acts: seq<Action>, m: SessionKey,
                        before: seq<Action>, j: nat, all: seq<Action>)
    requires WellNamed(pools) && IsRun(pools, run, acts) && j < |acts|
    requires m in run[j].sessions && m !in run[j + 1].sessions
    requires Behind(run[j].sessions, m, AllMarked(before)) && all == before + [acts[j]]
    ensures |AllMarked(all) - {m}| >= ENDED_MEMORY
  {
    ForgettingMarks(pools, run, acts, m, j);
    ManyMarked(run[j].sessions, m, before, acts[j], all);
  }
}

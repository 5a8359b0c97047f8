/**
 Audit sequence numbers (rust/crates/sutra-channels/src/audit.rs): a listener counts the events of each instance,
 a pass over an instance seeds the count from its snapshot and persists it when it suspends. Passes of one instance
 may run on different lanes, each with its own listener, and listeners are lost when an engine restarts.
 */
module AuditSequence {
  import opened Basics

  type Instance(==, !new)

  type Lane(==, !new)

  // ---- one listener --------------------------------------------------------

  function SeqOf(seqs: map<Instance, nat>, i: Instance): nat {
    if i in seqs then seqs[i] else 0
  }

  function Advanced(seqs: map<Instance, nat>, i: Instance): map<Instance, nat> {
    seqs[i := (SeqOf(seqs, i) + 1) % U32]
  }

  function Seeded(seqs: map<Instance, nat>, i: Instance, count: nat): map<Instance, nat> {
    seqs[i := if SeqOf(seqs, i) < count then count else SeqOf(seqs, i)]
  }

  datatype Event = Event(instance: Instance, number: nat)

  class AuditListener {
    var seqs: map<Instance, nat>
    var sent: seq<Event>

    constructor ()
      ensures seqs == map[] && sent == []
    {
      seqs, sent := map[], [];
    }

    method NextSeq(i: Instance) returns (n: nat)
      modifies `seqs
      ensures seqs == Advanced(old(seqs), i) && n == SeqOf(seqs, i)
    {
      var slot := if i in seqs then seqs[i] else 0;
      seqs := seqs[i := (slot + 1) % U32];
      n := seqs[i];
    }

    method Seed(i: Instance, persisted: nat)
      modifies `seqs
      ensures seqs == Seeded(old(seqs), i, persisted)
      ensures SeqOf(seqs, i) >= persisted && SeqOf(seqs, i) >= SeqOf(old(seqs), i)
    {
      var slot := if i in seqs then seqs[i] else 0;
      seqs := seqs[i := if slot < persisted then persisted else slot];
    }

    method SeqFor(i: Instance) returns (n: nat)
      ensures n == SeqOf(seqs, i)
    {
      n := if i in seqs then seqs[i] else 0;
    }

    method Emit(i: Instance)
      modifies this
      ensures seqs == Advanced(old(seqs), i) && sent == old(sent) + [Event(i, SeqOf(seqs, i))]
    {
      var n := NextSeq(i);
      sent := sent + [Event(i, n)];
    }
  }

  // ---- lanes, passes and restarts ------------------------------------------

  /**
   The listeners of the lanes, the persisted count of each instance, the lane its current pass runs on, and the
   numbers emitted for it so far.
   */
  datatype World = World(
    listeners: map<Lane, map<Instance, nat>>,
    persisted: map<Instance, nat>,
    pass: map<Instance, Lane>,
    emitted: map<Instance, seq<nat>>)

  function Listener(w: World, lane: Lane): map<Instance, nat> {
    if lane in w.listeners then w.listeners[lane] else map[]
  }

  function Slot(w: World, lane: Lane, i: Instance): nat {
    SeqOf(Listener(w, lane), i)
  }

  function Persisted(w: World, i: Instance): nat {
    SeqOf(w.persisted, i)
  }

  function Emitted(w: World, i: Instance): seq<nat> {
    if i in w.emitted then w.emitted[i] else []
  }

  datatype Step =
    | Begin(instance: Instance, lane: Lane)
    | EmitOne(instance: Instance)
    | Finish(instance: Instance)
    | Restart(lane: Lane)

  /** Passes of one instance do not overlap, and a lane restarts between passes. */
  ghost predicate Enabled(w: World, s: Step) {
    match s
    case Begin(i, _) => i !in w.pass
    case EmitOne(i) => i in w.pass
    case Finish(i) => i in w.pass
    case Restart(lane) => forall i :: i in w.pass ==> w.pass[i] != lane
  }

  ghost function Apply(w: World, s: Step): World
    requires Enabled(w, s)
  {
    match s
    case Begin(i, lane) =>
      w.(listeners := w.listeners[lane := Seeded(Listener(w, lane), i, Persisted(w, i))], pass := w.pass[i := lane])
    case EmitOne(i) =>
      var seqs := Advanced(Listener(w, w.pass[i]), i);
      w.(listeners := w.listeners[w.pass[i] := seqs], emitted := w.emitted[i := Emitted(w, i) + [SeqOf(seqs, i)]])
    case Finish(i) =>
      w.(persisted := w.persisted[i := Slot(w, w.pass[i], i)], pass := w.pass - {i})
    case Restart(lane) =>
      w.(listeners := w.listeners - {lane})
  }

  const INITIAL := World(map[], map[], map[], map[])

  ghost predicate IsRun(run: seq<World>, steps: seq<Step>) {
    && |run| == |steps| + 1 && run[0] == INITIAL
    && forall k :: 0 <= k < |steps| ==> Enabled(run[k], steps[k]) && run[k + 1] == Apply(run[k], steps[k])
  }

  // ---- the invariant -------------------------------------------------------

  /** The numbers are 1, 2, 3, ... */
  ghost predicate Consecutive(numbers: seq<nat>) {
    forall k :: 0 <= k < |numbers| ==> numbers[k] == k + 1
  }

  /** The instance's current pass runs on this lane. */
  ghost predicate RunsOn(w: World, i: Instance, lane: Lane) {
    i in w.pass && w.pass[i] == lane
  }

  /**
   The lane of the instance's current pass has counted all its events, and between passes the snapshot has; no other
   lane has counted past the snapshot.
   */
  ghost predicate InvFor(w: World, i: Instance) {
    var n := |Emitted(w, i)|;
    && Consecutive(Emitted(w, i))
    && (forall lane :: RunsOn(w, i, lane) || Slot(w, lane, i) <= Persisted(w, i))
    && Persisted(w, i) <= n
    && (if i in w.pass then Slot(w, w.pass[i], i) == n else Persisted(w, i) == n)
  }

  lemma SlotAfterUpdate(w: World, v: World, lane: Lane, seqs: map<Instance, nat>, other: Lane, i: Instance)
    requires v.listeners == w.listeners[lane := seqs]
    ensures Slot(v, other, i) == if other == lane then SeqOf(seqs, i) else Slot(w, other, i)
  {
  }

  lemma BeginKeeps(w: World, j: Instance, lane: Lane, i: Instance)
    requires Enabled(w, Begin(j, lane)) && InvFor(w, i)
    ensures InvFor(Apply(w, Begin(j, lane)), i)
  {
    var v := Apply(w, Begin(j, lane));
    assert RunsOn(w, i, lane) || Slot(w, lane, i) <= Persisted(w, i);
    forall other
      ensures RunsOn(v, i, other) || Slot(v, other, i) <= Persisted(w, i)
      ensures RunsOn(v, i, other) ==> Slot(v, other, i) == |Emitted(w, i)|
    {
      SlotAfterUpdate(w, v, lane, Seeded(Listener(w, lane), j, Persisted(w, j)), other, i);
      assert RunsOn(w, i, other) || Slot(w, other, i) <= Persisted(w, i);
    }
  }

  lemma EmitKeeps(w: World, j: Instance, i: Instance)
    requires Enabled(w, EmitOne(j)) && InvFor(w, i) && |Emitted(Apply(w, EmitOne(j)), i)| < U32
    ensures InvFor(Apply(w, EmitOne(j)), i)
  {
    var v := Apply(w, EmitOne(j));
    assert |Emitted(v, i)| == |Emitted(w, i)| + if i == j then 1 else 0;
    forall other
      ensures RunsOn(v, i, other) || Slot(v, other, i) <= Persisted(w, i)
      ensures RunsOn(v, i, other) ==> Slot(v, other, i) == |Emitted(v, i)|
    {
      SlotAfterUpdate(w, v, w.pass[j], Advanced(Listener(w, w.pass[j]), j), other, i);
      assert RunsOn(w, i, other) || Slot(w, other, i) <= Persisted(w, i);
    }
  }

  lemma FinishKeeps(w: World, j: Instance, i: Instance)
    requires Enabled(w, Finish(j)) && InvFor(w, i)
    ensures InvFor(Apply(w, Finish(j)), i)
  {
    var v := Apply(w, Finish(j));
    forall lane
      ensures RunsOn(v, i, lane) || Slot(v, lane, i) <= Persisted(v, i)
    {
      assert Slot(v, lane, i) == Slot(w, lane, i);
      assert RunsOn(w, i, lane) || Slot(w, lane, i) <= Persisted(w, i);
    }
  }

  lemma RestartKeeps(w: World, lane: Lane, i: Instance)
    requires Enabled(w, Restart(lane)) && InvFor(w, i)
    ensures InvFor(Apply(w, Restart(lane)), i)
  {
    var v := Apply(w, Restart(lane));
    forall other
      ensures RunsOn(v, i, other) || Slot(v, other, i) <= Persisted(v, i)
      ensures RunsOn(v, i, other) ==> Slot(v, other, i) == Slot(w, other, i)
    {
      assert RunsOn(w, i, other) || Slot(w, other, i) <= Persisted(w, i);
    }
  }

  lemma StepKeepsInv(w: World, s: Step, i: Instance)
    requires Enabled(w, s) && InvFor(w, i) && |Emitted(Apply(w, s), i)| < U32
    ensures InvFor(Apply(w, s), i)
  {
    match s
    case Begin(j, lane) => BeginKeeps(w, j, lane, i);
    case EmitOne(j) => EmitKeeps(w, j, i);
    case Finish(j) => FinishKeeps(w, j, i);
    case Restart(lane) => RestartKeeps(w, lane, i);
  }

  ghost predicate Narrow(numbers: seq<nat>) {
    forall k :: 0 <= k < |numbers| ==> numbers[k] < U32
  }

  lemma StepExtends(w: World, s: Step, i: Instance)
    requires Enabled(w, s) && Narrow(Emitted(w, i))
    ensures Emitted(w, i) <= Emitted(Apply(w, s), i) && Narrow(Emitted(Apply(w, s), i))
  {
  }

  lemma {:induction false} RunKeepsInv(run: seq<World>, steps: seq<Step>, k: nat, i: Instance)
    requires IsRun(run, steps) && k < |run|
    ensures Narrow(Emitted(run[k], i))
    ensures |Emitted(run[k], i)| < U32 ==> InvFor(run[k], i)
    decreases k
  {
    if k > 0 {
      RunKeepsInv(run, steps, k - 1, i);
      StepExtends(run[k - 1], steps[k - 1], i);
      if |Emitted(run[k], i)| < U32 {
        StepKeepsInv(run[k - 1], steps[k - 1], i);
      }
    }
  }

  /**
   Over every run, across lanes and restarts, the numbers emitted for an instance are 1, 2, 3, ... with no gap and
   no repeat, exactly as long as it has fewer than 2^32 events.
   */
  lemma NumbersAreConsecutive(run: seq<World>, steps: seq<Step>, k: nat, i: Instance)
    requires IsRun(run, steps) && k < |run|
    ensures Consecutive(Emitted(run[k], i)) <==> |Emitted(run[k], i)| < U32
  {
    RunKeepsInv(run, steps, k, i);
    if |Emitted(run[k], i)| >= U32 {
      assert Emitted(run[k], i)[U32 - 1] < U32;
    }
  }

  /** A pass that emits `n` events, one after the other. */
  lemma {:induction false} LongPass(i: Instance, lane: Lane, n: nat) returns (run: seq<World>, steps: seq<Step>)
    ensures IsRun(run, steps) && i in run[|steps|].pass && |Emitted(run[|steps|], i)| == n
  {
    if n == 0 {
      run, steps := [INITIAL, Apply(INITIAL, Begin(i, lane))], [Begin(i, lane)];
    } else {
      run, steps := LongPass(i, lane, n - 1);
      var last := run[|steps|];
      run, steps := run + [Apply(last, EmitOne(i))], steps + [EmitOne(i)];
    }
  }

  /** So there are runs whose numbers are not consecutive: the 2^32nd event of an instance is numbered 0. */
  lemma LongPassWraps(i: Instance, lane: Lane) returns (run: seq<World>, steps: seq<Step>)
    ensures IsRun(run, steps) && !Consecutive(Emitted(run[|steps|], i))
  {
    run, steps := LongPass(i, lane, U32);
    NumbersAreConsecutive(run, steps, |steps|, i);
  }

  // ---- why passes must not be lost -----------------------------------------

  /** An engine that dies: the lane's listener is gone, and so are the passes it ran, with nothing of them persisted. */
  ghost function Crash(w: World, lane: Lane): World {
    w.(listeners := w.listeners - {lane}, pass := map j | j in w.pass && w.pass[j] != lane :: w.pass[j])
  }

  lemma LostCount(w: World, i: Instance, lane: Lane)
    requires InvFor(w, i) && i in w.pass
    ensures var v := Apply(Crash(w, w.pass[i]), Begin(i, lane));
            v.pass[i] == lane && Slot(v, lane, i) == Persisted(w, i) && Emitted(v, i) == Emitted(w, i)
  {
    assert RunsOn(w, i, lane) || Slot(w, lane, i) <= Persisted(w, i);
  }

  lemma NextNumber(w: World, i: Instance, n: nat)
    requires i in w.pass && Slot(w, w.pass[i], i) == n && n + 1 < U32
    ensures Emitted(Apply(w, EmitOne(i)), i) == Emitted(w, i) + [n + 1]
  {
  }

  /** After a pass is lost, the next event, on any lane, repeats a number exactly when the lost pass had emitted any. */
  lemma LostPassRepeats(w: World, i: Instance, lane: Lane)
    requires InvFor(w, i) && i in w.pass && |Emitted(w, i)| < U32 - 1
    ensures var v := Apply(Apply(Crash(w, w.pass[i]), Begin(i, lane)), EmitOne(i));
            Consecutive(Emitted(v, i)) <==> Persisted(w, i) == |Emitted(w, i)|
  {
    LostCount(w, i, lane);
    NextNumber(Apply(Crash(w, w.pass[i]), Begin(i, lane)), i, Persisted(w, i));
    SnocConsecutive(Emitted(w, i), Persisted(w, i) + 1);
  }

  lemma SnocConsecutive(numbers: seq<nat>, n: nat)
    requires Consecutive(numbers)
    ensures Consecutive(numbers + [n]) <==> n == |numbers| + 1
  {
    assert (numbers + [n])[|numbers|] == n;
  }
}

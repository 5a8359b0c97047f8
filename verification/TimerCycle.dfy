/**
 Advancing a repeating timer (rust/crates/sutra-bpmn/src/timer.rs). Instants are integer nanoseconds and
 intervals are their parsed lengths; the texts they come from are modelled in `TimerText`.
 */
module TimerCycle {
  import opened Basics

  /** `remaining` counts the fires left including the one at `dueAt`; `None` is unbounded. */
  datatype Advance = Next(dueAt: int, remaining: Option<nat>) | Exhausted

  // ---- arithmetic ----------------------------------------------------------

  lemma MulStep(k: int, interval: int)
    ensures (k + 1) * interval == k * interval + interval
  {
  }

  lemma MulAdd(a: nat, b: nat, interval: nat)
    ensures (a + b) * interval == a * interval + b * interval
  {
  }

  lemma {:induction false} MulMonotone(a: nat, b: nat, interval: nat)
    requires a <= b
    ensures a * interval <= b * interval
  {
  }

  // ---- the closed form -----------------------------------------------------

  /** How many slots a fire at `now` moves on: the least `k >= 1` whose slot lies after `now`. */
  function SlotsOn(firedDue: int, interval: nat, now: int): (k: nat)
    requires interval > 0
    ensures k >= 1
  {
    if now < firedDue + interval then 1 else (now - firedDue) / interval + 1
  }

  lemma SlotsOnIsLeast(firedDue: int, interval: nat, now: int)
    requires interval > 0
    ensures now < firedDue + SlotsOn(firedDue, interval, now) * interval
    ensures forall k: nat :: 1 <= k < SlotsOn(firedDue, interval, now) ==> firedDue + k * interval <= now
  {
    var k := SlotsOn(firedDue, interval, now);
    if k > 1 {
      var q := (now - firedDue) / interval;
      assert q * interval <= now - firedDue < q * interval + interval;
      MulStep(q, interval);
      forall j: nat | 1 <= j < k
        ensures firedDue + j * interval <= now
      {
        MulMonotone(j, q, interval);
      }
    }
  }

  lemma LeastIsUnique(firedDue: int, interval: nat, now: int, k: nat)
    requires interval > 0 && k >= 1
    requires now < firedDue + k * interval
    requires k > 1 ==> firedDue + (k - 1) * interval <= now
    ensures k == SlotsOn(firedDue, interval, now)
  {
    var m := SlotsOn(firedDue, interval, now);
    SlotsOnIsLeast(firedDue, interval, now);
    assert k < m ==> firedDue + k * interval <= now;
    if m < k {
      MulMonotone(m, k - 1, interval);
    }
  }

  /** Slot `k` of the cycle fired at `firedDue` is the first one after `now`. */
  ghost predicate FirstAfter(firedDue: int, interval: nat, now: int, k: nat) {
    k >= 1 && now < firedDue + k * interval && forall j: nat :: 1 <= j < k ==> firedDue + j * interval <= now
  }

  /**
   What the answer must be: the first slot after `now`, with the slots up to it taken off the budget; exhausted
   exactly when the interval is zero or that leaves nothing of the budget.
   */
  ghost predicate Advances(interval: nat, firedDue: int, remaining: Option<nat>, now: int, r: Advance) {
    if interval == 0 then r == Exhausted
    else
      exists k: nat ::
        && FirstAfter(firedDue, interval, now, k)
        && (r == Exhausted <==> remaining.Some? && remaining.value <= k)
        && (r.Next? ==> r.dueAt == firedDue + k * interval)
        && (r.Next? ==> (r.remaining == None <==> remaining == None))
        && (r.Next? && remaining.Some? ==> r.remaining.value + k == remaining.value)
  }

  lemma FirstIsUnique(firedDue: int, interval: nat, now: int, k: nat, m: nat)
    requires FirstAfter(firedDue, interval, now, k) && FirstAfter(firedDue, interval, now, m)
    ensures k == m
  {
    assert k < m ==> firedDue + k * interval <= now;
    assert m < k ==> firedDue + m * interval <= now;
  }

  /** There is exactly one such answer, and the closed form is it. */
  lemma AdvancesIff(interval: nat, firedDue: int, remaining: Option<nat>, now: int, r: Advance)
    ensures Advances(interval, firedDue, remaining, now, r) <==> r == AdvanceTo(interval, firedDue, remaining, now)
  {
    if interval > 0 {
      var m := SlotsOn(firedDue, interval, now);
      SlotsOnIsLeast(firedDue, interval, now);
      assert FirstAfter(firedDue, interval, now, m);
      forall k: nat | FirstAfter(firedDue, interval, now, k)
        ensures k == m
      {
        FirstIsUnique(firedDue, interval, now, k, m);
      }
    }
  }

  /** Where a fired cycle goes next. */
  function AdvanceTo(interval: nat, firedDue: int, remaining: Option<nat>, now: int): Advance {
    if interval == 0 then Exhausted
    else
      var k := SlotsOn(firedDue, interval, now);
      match remaining
      case None => Next(firedDue + k * interval, None)
      case Some(n) => if n > k then Next(firedDue + k * interval, Some(n - k)) else Exhausted
  }

  // ---- the loop ------------------------------------------------------------

  /** Walk the grid past `now`, one repeat per slot, and stop when the budget is spent. */
  method AdvanceCycle(interval: nat, firedDue: int, remaining: Option<nat>, now: int) returns (r: Advance)
    ensures Advances(interval, firedDue, remaining, now, r)
    ensures r == AdvanceTo(interval, firedDue, remaining, now)
  {
    AdvancesIff(interval, firedDue, remaining, now, AdvanceTo(interval, firedDue, remaining, now));
    if interval == 0 {
      return Exhausted;
    }
    var left := remaining;
    if left == Some(0) {
      return Exhausted;
    }
    if left.Some? {
      left := Some(left.value - 1);
    }
    if left == Some(0) {
      return Exhausted;
    }
    var next := firedDue + interval;
    ghost var k := 1;
    while next <= now
      invariant k >= 1 && next == firedDue + k * interval
      invariant k > 1 ==> firedDue + (k - 1) * interval <= now
      invariant remaining.None? ==> left.None?
      invariant remaining.Some? ==> left.Some? && 0 < left.value == remaining.value - k
      decreases now - next
    {
      if left.Some? {
        left := Some(left.value - 1);
      }
      if left == Some(0) {
        BudgetSpent(interval, firedDue, now, k);
        return Exhausted;
      }
      MulStep(k, interval);
      k := k + 1;
      next := next + interval;
    }
    LeastIsUnique(firedDue, interval, now, k);
    return Next(next, left);
  }

  /** A slot at or before `now` is not the next one. */
  lemma BudgetSpent(interval: nat, firedDue: int, now: int, k: nat)
    requires interval > 0 && k >= 1 && firedDue + k * interval <= now
    ensures k < SlotsOn(firedDue, interval, now)
  {
  }

  // ---- whole runs ----------------------------------------------------------

  /** One claimed fire: its due instant, the budget before it, and when it actually fired. */
  datatype Fire = Fire(due: int, remaining: Option<nat>, now: int)

  /** A cycle first due at `first` with budget `total`, and the fires it went through. */
  ghost predicate IsChain(interval: nat, first: int, total: Option<nat>, fires: seq<Fire>) {
    && fires != []
    && fires[0].due == first && fires[0].remaining == total
    && forall j :: 0 <= j < |fires| - 1 ==>
         Advances(interval, fires[j].due, fires[j].remaining, fires[j].now, Next(fires[j + 1].due, fires[j + 1].remaining))
  }

  /** Fire `j` is on slot `s` of the grid, and slots passed plus budget left is the budget given. */
  lemma {:induction false} OnGrid(interval: nat, first: int, total: Option<nat>, fires: seq<Fire>, j: nat) returns (s: nat)
    requires IsChain(interval, first, total, fires) && j < |fires|
    ensures fires[j].due == first + s * interval && j <= s
    ensures total.None? ==> fires[j].remaining.None?
    ensures total.Some? ==> fires[j].remaining.Some? && s + fires[j].remaining.value == total.value
    ensures j > 0 && total.Some? ==> fires[j].remaining.value > 0
  {
    if j == 0 {
      s := 0;
    } else {
      var t := OnGrid(interval, first, total, fires, j - 1);
      var k := NextFire(interval, fires[j - 1], fires[j]);
      s := t + k;
      MulAdd(t, k, interval);
    }
  }

  /** The fire after `f` is `k >= 1` slots on and leaves `k` less of the budget, but some. */
  lemma NextFire(interval: nat, f: Fire, g: Fire) returns (k: nat)
    requires Advances(interval, f.due, f.remaining, f.now, Next(g.due, g.remaining))
    ensures FirstAfter(f.due, interval, f.now, k) && g.due == f.due + k * interval
    ensures f.remaining.None? ==> g.remaining.None?
    ensures f.remaining.Some? ==> g.remaining.Some? && g.remaining.value > 0 && g.remaining.value + k == f.remaining.value
  {
    AdvancesIff(interval, f.due, f.remaining, f.now, Next(g.due, g.remaining));
    SlotsOnIsLeast(f.due, interval, f.now);
    k := SlotsOn(f.due, interval, f.now);
  }

  /** Due instants rise strictly, each past the instant its predecessor fired. */
  lemma DueInstantsRise(interval: nat, first: int, total: Option<nat>, fires: seq<Fire>, j: nat)
    requires IsChain(interval, first, total, fires) && j + 1 < |fires|
    ensures fires[j].due < fires[j + 1].due && fires[j].now < fires[j + 1].due
  {
    var k := NextFire(interval, fires[j], fires[j + 1]);
  }

  /** And no slot in between is passed over: none lies after a fire's instant and before the next due one. */
  lemma NoSlotSkipped(interval: nat, first: int, total: Option<nat>, fires: seq<Fire>, j: nat, s: nat)
    requires IsChain(interval, first, total, fires) && j + 1 < |fires| && s >= 1
    ensures !(fires[j].now < fires[j].due + s * interval < fires[j + 1].due)
  {
    var k := NextFire(interval, fires[j], fires[j + 1]);
    if s >= k {
      MulMonotone(k, s, interval);
    }
  }

  /** No fire is due after the `n`-th slot. */
  ghost predicate WithinSlots(interval: nat, first: int, n: nat, fires: seq<Fire>) {
    forall j :: 0 <= j < |fires| ==> fires[j].due <= first + (n - 1) * interval
  }

  /** An `R<n>` cycle fires at most `n` times and never after its `n`-th slot. */
  lemma AtMostN(interval: nat, first: int, n: nat, fires: seq<Fire>)
    requires n >= 1 && IsChain(interval, first, Some(n), fires)
    ensures |fires| <= n
    ensures WithinSlots(interval, first, n, fires)
  {
    var last := OnGrid(interval, first, Some(n), fires, |fires| - 1);
    forall j | 0 <= j < |fires|
      ensures fires[j].due <= first + (n - 1) * interval
    {
      var s := OnGrid(interval, first, Some(n), fires, j);
      MulMonotone(s, n - 1, interval);
    }
  }

  /** Every fire happens before the slot after it comes round. */
  ghost predicate OnTime(interval: nat, fires: seq<Fire>) {
    forall j :: 0 <= j < |fires| ==> fires[j].now < fires[j].due + interval
  }

  /** With no missed slot an `R<n>` cycle of positive interval that has run out has fired exactly `n` times. */
  lemma ExactlyNWhenOnTime(interval: nat, first: int, n: nat, fires: seq<Fire>)
    requires interval > 0 && n >= 1 && IsChain(interval, first, Some(n), fires) && OnTime(interval, fires)
    requires var f := fires[|fires| - 1]; Advances(interval, f.due, f.remaining, f.now, Exhausted)
    ensures |fires| == n
  {
    OneEach(interval, first, n, fires, |fires| - 1);
    var f := fires[|fires| - 1];
    AdvancesIff(interval, f.due, f.remaining, f.now, Exhausted);
  }

  lemma {:induction false} OneEach(interval: nat, first: int, n: nat, fires: seq<Fire>, j: nat)
    requires interval > 0 && n >= 1 && IsChain(interval, first, Some(n), fires) && OnTime(interval, fires) && j < |fires|
    ensures fires[j].remaining == Some(n - j) && j < n
  {
    if j > 0 {
      OneEach(interval, first, n, fires, j - 1);
      var f := fires[j - 1];
      AdvancesIff(interval, f.due, f.remaining, f.now, Next(fires[j].due, fires[j].remaining));
      assert SlotsOn(f.due, interval, f.now) == 1;
    }
  }
}

/**
 Which waits a run can come to (rust/crates/sutra-executor/src/executor.rs), compared with the load-time test for
 synchronous execution (rust/crates/sutra-bpmn/src/model.rs).

 Each kind of scope has its own runner. The walk of a process, of an embedded, transaction or event-triggered
 sub-process and of a called process takes a token through nodes of every kind; an ad-hoc sub-process runs only its
 task activities; a loop runs its body once per iteration and refuses bodies it does not know. A nested runner drops
 the waits its scope comes to, so what matters is whether it comes to one. Which flows a token takes is not modelled:
 a wait is held when a runner would park on the node once a token is there.
 */
module Runners {
  import opened Basics
  import opened ProcessModel
  import opened Loader
  import opened LoadGate

  /** The processes a call can be resolved to, by name. */
  type Registry = map<string, Process>

  /** The walk parks a token on this node; `retryParks` says whether this walk may park a failed attempt. */
  predicate ParksToken(p: Process, n: Node, retryParks: bool) {
    var b := BindingsFor(p.bindings, n.id);
    || n.User? || n.MessageCatch? || n.Receive? || n.TimerCatch? || IsChannelCall(n)
    || (n.Service? && (b.continueReply || (b.retry && retryParks)))
    || (n.Race? && Leaving(p.flows, n.id) != [])
  }

  /** The walk of `p` can come to a wait, following at most `depth` calls one inside the other. */
  predicate HoldsWait(env: Registry, p: Process, retryParks: bool, depth: nat)
    decreases depth, 1, p, 1
  {
    exists i :: 0 <= i < |p.nodes| && (ParksToken(p, p.nodes[i], retryParks) || WaitBelow(env, p.nodes[i], depth))
  }

  /** What running this node runs in turn can come to a wait. */
  predicate WaitBelow(env: Registry, n: Node, depth: nat)
    decreases depth, 1, n, 1
  {
    match n
    case Scope(_, kind, inner) => ScopeWaits(env, kind, inner, depth)
    case Call(_, targets) => CallWaits(env, targets, depth)
    case Looped(_, body) =>
      (match body
       case Call(_, targets) => CallWaits(env, targets, depth)
       case Scope(_, kind, inner) => kind == Embedded && HoldsWait(env, inner, false, depth)
       case _ => false)
    case _ => false
  }

  predicate ScopeWaits(env: Registry, kind: ScopeKind, inner: Process, depth: nat)
    decreases depth, 1, inner, 2
  {
    match kind
    case Embedded => HoldsWait(env, inner, false, depth)
    case Transaction => HoldsWait(env, inner, true, depth)
    case EventTriggered => HoldsWait(env, inner, true, depth)
    case AdHoc => exists i :: 0 <= i < |inner.nodes| && inner.nodes[i].Call? && CallWaits(env, inner.nodes[i].targets, depth)
  }

  predicate CallWaits(env: Registry, targets: seq<string>, depth: nat)
    decreases depth, 0
  {
    depth > 0 && exists i :: 0 <= i < |targets| && targets[i] in env && HoldsWait(env, env[targets[i]], true, depth - 1)
  }

  /** A user task, receive task or message catch is a wait of any sub-process but an ad-hoc one. */
  lemma ScopeComesToWait(env: Registry, kind: ScopeKind, inner: Process, depth: nat, i: nat)
    requires i < |inner.nodes| && (inner.nodes[i].User? || inner.nodes[i].Receive? || inner.nodes[i].MessageCatch?)
    ensures kind != AdHoc ==> ScopeWaits(env, kind, inner, depth)
    ensures kind == AdHoc && (forall j :: 0 <= j < |inner.nodes| ==> !inner.nodes[j].Call?) ==> !ScopeWaits(env, kind, inner, depth)
  {
    assert ParksToken(inner, inner.nodes[i], true) && ParksToken(inner, inner.nodes[i], false);
  }

  /** An ad-hoc one waits where a process it calls does. */
  lemma AdHocComesToWait(env: Registry, inner: Process, depth: nat, i: nat, callee: string)
    requires i < |inner.nodes| && inner.nodes[i].Call? && callee in inner.nodes[i].targets
    requires callee in env && HoldsWait(env, env[callee], true, depth)
    ensures ScopeWaits(env, AdHoc, inner, depth + 1)
  {
    assert CallWaits(env, inner.nodes[i].targets, depth + 1);
  }

  // ---- where the eligibility test does not look ----------------------------

  /** No wait is held by what `is_wait_state` does not look into: calls, loops, ad-hoc and event-triggered sub-processes. */
  predicate NothingHidden(env: Registry, p: Process, depth: nat)
    decreases p
  {
    forall i :: 0 <= i < |p.nodes| ==> NothingHiddenAt(env, p.nodes[i], depth)
  }

  predicate NothingHiddenAt(env: Registry, n: Node, depth: nat)
    decreases n
  {
    match n
    case Scope(_, kind, inner) =>
      if kind in {Embedded, Transaction} then NothingHidden(env, inner, depth) else !ScopeWaits(env, kind, inner, depth)
    case _ => !WaitBelow(env, n, depth)
  }

  /** An arm of a race is a wait the test sees. */
  lemma RaceArmWaits(p: Process, i: nat)
    requires Gated(p) && i < |p.nodes| && p.nodes[i].Race? && Leaving(p.flows, p.nodes[i].id) != []
    ensures !IsSyncEligible(p)
  {
    assert NodeGate(p.nodes[i], p.nodes, p.flows, p.bindings);
    var f := Leaving(p.flows, p.nodes[i].id)[0];
    LeavingMembers(p.flows, p.nodes[i].id, f);
    assert Parks(p.nodes, f.target);
    var j :| 0 <= j < |p.nodes| && p.nodes[j].id == f.target && StopsToken(p.nodes[j]);
    WaitStateIff(p.nodes[j]);
  }

  /** Where the test says yes, the walk itself parks nowhere in a gated container. */
  lemma EligibleParksNothing(p: Process, i: nat, retryParks: bool)
    requires Gated(p) && IsSyncEligible(p) && i < |p.nodes|
    ensures !ParksToken(p, p.nodes[i], retryParks)
  {
    assert NodeGate(p.nodes[i], p.nodes, p.flows, p.bindings) && !IsWaitState(p.nodes[i]);
    if p.nodes[i].Race? && Leaving(p.flows, p.nodes[i].id) != [] {
      RaceArmWaits(p, i);
    }
  }

  /**
   The walk parks on no node here, nor in the embedded and transaction sub-processes below, and no node there asks for a
   retry or replies and continues.
   */
  predicate Unparked(p: Process)
    decreases p
  {
    forall i :: 0 <= i < |p.nodes| ==>
      && !ParksToken(p, p.nodes[i], true)
      && !BindingsFor(p.bindings, p.nodes[i].id).retry && !BindingsFor(p.bindings, p.nodes[i].id).continueReply
      && UnparkedBelow(p.nodes[i])
  }

  predicate UnparkedBelow(n: Node)
    decreases n
  {
    match n
    case Scope(_, kind, inner) => kind == AdHoc || kind == EventTriggered || Unparked(inner)
    case _ => true
  }

  /** Of gated processes the test passes exactly those. */
  lemma {:induction false} EligibleIffUnparked(p: Process)
    requires Gated(p)
    ensures IsSyncEligible(p) <==> Unparked(p)
    decreases p
  {
    forall i | 0 <= i < |p.nodes|
      ensures GatedBelow(p.nodes[i])
      ensures UnparkedBelow(p.nodes[i]) <==> p.nodes[i].Scope? ==> p.nodes[i].scope in {AdHoc, EventTriggered} || IsSyncEligible(p.nodes[i].inner)
      ensures IsWaitState(p.nodes[i]) <==> StopsToken(p.nodes[i])
      ensures IsChannelCall(p.nodes[i]) <==> CallsChannel(p.nodes[i])
      ensures IsSyncEligible(p) ==> !ParksToken(p, p.nodes[i], true)
    {
      var n := p.nodes[i];
      WaitStateIff(n);
      ChannelCallIff(n);
      assert GatedBelow(n);
      if n.Scope? {
        EligibleIffUnparked(n.inner);
      }
      if IsSyncEligible(p) {
        EligibleParksNothing(p, i, true);
      }
    }
  }

  /** A gated, eligible process comes to no wait exactly when nothing is hidden from the test. */
  lemma {:induction false} QuietIff(env: Registry, p: Process, retryParks: bool, depth: nat)
    requires Gated(p) && IsSyncEligible(p)
    ensures !HoldsWait(env, p, retryParks, depth) <==> NothingHidden(env, p, depth)
    decreases p
  {
    forall i | 0 <= i < |p.nodes|
      ensures !(ParksToken(p, p.nodes[i], retryParks) || WaitBelow(env, p.nodes[i], depth)) <==>
              NothingHiddenAt(env, p.nodes[i], depth)
    {
      var n := p.nodes[i];
      EligibleParksNothing(p, i, retryParks);
      assert GatedBelow(n) && !IsWaitState(n);
      if n.Scope? && n.scope in {Embedded, Transaction} {
        QuietIff(env, n.inner, n.scope == Transaction, depth);
      }
    }
  }

  /**
   So an accepted process passes the test exactly when its own walk parks nowhere, and then comes to no wait exactly when
   nothing is hidden, at any depth of calls.
   */
  lemma EligibleIff(env: Registry, id: string, children: seq<Element>, doc: map<string, Bindings>, p: Process, depth: nat)
    requires Assemble(id, children, doc) == Ok(p)
    ensures IsSyncEligible(p) <==> Unparked(p)
    ensures IsSyncEligible(p) ==> (!HoldsWait(env, p, true, depth) <==> NothingHidden(env, p, depth))
  {
    AssembledIsGated(id, children, doc);
    EligibleIffUnparked(p);
    if IsSyncEligible(p) {
      QuietIff(env, p, true, depth);
    }
  }

  // ---- a condition on the document -----------------------------------------

  /** Nothing the test does not look into: no call, no looped sub-process, no event-triggered one. */
  predicate Open(p: Process)
    decreases p
  {
    forall i :: 0 <= i < |p.nodes| ==> OpenAt(p.nodes[i])
  }

  predicate OpenAt(n: Node)
    decreases n
  {
    match n
    case Call(_, _) => false
    case Looped(_, body) => !body.Scope? && !body.Call?
    case Scope(_, kind, inner) =>
      (match kind
       case EventTriggered => false
       case AdHoc => forall i :: 0 <= i < |inner.nodes| ==> !inner.nodes[i].Call?
       case _ => Open(inner))
    case _ => true
  }

  lemma {:induction false} OpenHidesNothing(env: Registry, p: Process, depth: nat)
    requires Open(p)
    ensures NothingHidden(env, p, depth)
    decreases p
  {
    forall i | 0 <= i < |p.nodes|
      ensures NothingHiddenAt(env, p.nodes[i], depth)
    {
      var n := p.nodes[i];
      assert OpenAt(n);
      if n.Scope? && n.scope in {Embedded, Transaction} {
        OpenHidesNothing(env, n.inner, depth);
      }
    }
  }

  /** On such documents the test means what it says, whatever the other processes are. */
  lemma OpenEligibleNeverWaits(env: Registry, id: string, children: seq<Element>, doc: map<string, Bindings>, p: Process,
                               depth: nat)
    requires Assemble(id, children, doc) == Ok(p) && IsSyncEligible(p) && Open(p)
    ensures !HoldsWait(env, p, true, depth)
  {
    EligibleIff(env, id, children, doc, p, depth);
    OpenHidesNothing(env, p, depth);
  }

  // ---- eligible and yet waiting --------------------------------------------

  /** A container that goes from a start event through one step to an end event. */
  function Line(first: string, step: Element, last: string): seq<Element> {
    [Element(first, None, StartBody(false)), step, Element(last, None, PlainBody)]
    + [Element(first + ".out", None, FlowBody(first, step.id)), Element(last + ".in", None, FlowBody(step.id, last))]
  }

  function LineNodes(first: string, n: Node, last: string): seq<Node> {
    [Start(first), n, Plain(last)]
  }

  function LineFlows(first: string, id: string, last: string): seq<Flow> {
    [Flow(first + ".out", first, id), Flow(last + ".in", id, last)]
  }

  function LineProcess(id: string, first: string, n: Node, last: string): Process {
    Indexed(id, LineNodes(first, n, last), LineFlows(first, n.id, last), map[])
  }

  predicate IsStep(e: Element) {
    e.refusal == None && (e.body.UserBody? || e.body.CallBody? || e.body.ScopeBody?)
  }

  lemma WalkNode(front: seq<Element>, parts: Parts, e: Element, n: Node, both: seq<Element>,
                 nodes: seq<Node>, activities: set<string>)
    requires both == front + [e] && Walk(front, map[]) == Ok(parts)
    requires e.refusal == None && (IsStep(e) || e.body.StartBody? || e.body.PlainBody?) && BuildNode(e, map[]) == Ok(n)
    requires nodes == parts.nodes + [n] && activities == parts.activities + if IsStep(e) then {e.id} else {}
    ensures Walk(both, map[]) == Ok(parts.(nodes := nodes, activities := activities))
  {
    assert both[..|both| - 1] == front;
  }

  lemma WalkFlow(front: seq<Element>, parts: Parts, e: Element, both: seq<Element>, flows: seq<Flow>)
    requires both == front + [e] && Walk(front, map[]) == Ok(parts)
    requires e.refusal == None && e.body.FlowBody? && flows == parts.flows + [Flow(e.id, e.body.source, e.body.target)]
    ensures Walk(both, map[]) == Ok(parts.(flows := flows))
  {
    assert both[..|both| - 1] == front;
  }

  lemma WalkLine(first: string, step: Element, n: Node, last: string)
    requires IsStep(step) && BuildNode(step, map[]) == Ok(n) && n.id == step.id
    ensures Walk(Line(first, step, last), map[]) ==
            Ok(Parts(LineNodes(first, n, last), LineFlows(first, n.id, last), {step.id}, []))
  {
    var all, nodes, flows := Line(first, step, last), LineNodes(first, n, last), LineFlows(first, n.id, last);
    var begin, done: set<string> := {}, {step.id};
    assert all[..0] == [];
    WalkNode(all[..0], Parts([], [], begin, []), all[0], nodes[0], all[..1], nodes[..1], begin);
    WalkNode(all[..1], Parts(nodes[..1], [], begin, []), step, n, all[..2], nodes[..2], done);
    WalkNode(all[..2], Parts(nodes[..2], [], done, []), all[2], nodes[2], all[..3], nodes, done);
    WalkFlow(all[..3], Parts(nodes, [], done, []), all[3], all[..4], flows[..1]);
    WalkFlow(all[..4], Parts(nodes, flows[..1], done, []), all[4], all, flows);
  }

  /** Without bindings nothing is synthesized or projected. */
  lemma {:induction false} NothingAdded(nodes: seq<Node>)
    ensures Synthesized(nodes, map[]) == [] && Projected(nodes, map[]) == map[]
  {
    if nodes != [] {
      NothingAdded(nodes[..|nodes| - 1]);
    }
  }

  predicate IsStepNode(n: Node) {
    n.User? || n.Call? || n.Scope? || (n.Looped? && !n.body.Service?)
  }

  lemma LineFinishes(id: string, first: string, n: Node, last: string)
    requires IsStepNode(n) && first != n.id && n.id != last && last != first
    ensures Finish(id, LineNodes(first, n, last), LineFlows(first, n.id, last), map[]) ==
            Ok(LineProcess(id, first, n, last))
  {
    var nodes, flows := LineNodes(first, n, last), LineFlows(first, n.id, last);
    NothingAdded(nodes);
    assert NodesRefusal(1, nodes, flows, map[]) == None;
    assert NodesRefusal(2, nodes, flows, map[]) == None;
    assert NodesRefusal(3, nodes, flows, map[]) == None;
  }

  lemma LineAssembles(id: string, first: string, step: Element, n: Node, last: string)
    requires IsStep(step) && BuildNode(step, map[]) == Ok(n) && n.id == step.id && IsStepNode(n)
    requires first != n.id && n.id != last && last != first
    ensures Assemble(id, Line(first, step, last), map[]) == Ok(LineProcess(id, first, n, last))
  {
    var nodes := LineNodes(first, n, last);
    WalkLine(first, step, n, last);
    NothingAdded(nodes + []);
    assert AllNodes(nodes, [], map[]) == nodes;
    LineFinishes(id, first, n, last);
  }

  /** The tests see a line's own step only. */
  lemma LineTests(env: Registry, id: string, first: string, n: Node, last: string, depth: nat)
    ensures var p := LineProcess(id, first, n, last);
            && (IsSyncEligible(p) <==> !IsWaitState(n))
            && (n.User? || WaitBelow(env, n, depth) ==> HoldsWait(env, p, true, depth) && HoldsWait(env, p, false, depth))
  {
    var p := LineProcess(id, first, n, last);
    assert p.nodes[1] == n;
  }

  /** A user task between a start and an end event. */
  function Approval(user: string): seq<Element> {
    Line("in", Element(user, None, UserBody), "out")
  }

  function ApprovalProcess(id: string, user: string): Process {
    LineProcess(id, "in", User(user), "out")
  }

  lemma ApprovalAssembles(id: string, user: string)
    requires "in" != user && user != "out"
    ensures Assemble(id, Approval(user), map[]) == Ok(ApprovalProcess(id, user))
  {
    LineAssembles(id, "in", Element(user, None, UserBody), User(user), "out");
  }

  /** A sub-process around the user task, repeated by a loop marker. */
  function LoopedApproval(id: string, user: string): Element {
    Element(id, None, ScopeBody(SubProcessForm, false, Standard, Approval(user)))
  }

  lemma LoopedScopeBuilt(e: Element, children: seq<Element>, inner: Process)
    requires e.body == ScopeBody(SubProcessForm, false, Standard, children)
    requires Assemble(e.id, children, map[]) == Ok(inner) && InlineRefusal(inner.nodes, inner.bindings) == None
    ensures BuildNode(e, map[]) == Ok(Looped(e.id, Scope(e.id, Embedded, inner)))
  {
    assert BuildSubProcess(e, map[]) == Ok(Scope(e.id, Embedded, inner));
  }

  lemma LoopedApprovalBuilt(id: string, user: string)
    requires "in" != user && user != "out"
    ensures BuildNode(LoopedApproval(id, user), map[]) ==
            Ok(Looped(id, Scope(id, Embedded, ApprovalProcess(id, user))))
  {
    var inner := ApprovalProcess(id, user);
    ApprovalAssembles(id, user);
    InlineIff(inner.nodes, inner.bindings);
    LoopedScopeBuilt(LoopedApproval(id, user), Approval(user), inner);
  }

  lemma LoopWaits(env: Registry, depth: nat, id: string, user: string, p: Process)
    requires p == LineProcess("p", "start", Looped(id, Scope(id, Embedded, ApprovalProcess(id, user))), "end")
    ensures IsSyncEligible(p) && HoldsWait(env, p, true, depth)
  {
    var n := Looped(id, Scope(id, Embedded, ApprovalProcess(id, user)));
    LineTests(env, id, "in", User(user), "out", depth);
    LineTests(env, "p", "start", n, "end", depth);
  }

  /** Accepted and eligible, and the loop comes to the user task. */
  lemma LoopHidesWait(env: Registry, depth: nat, id: string, user: string, p: Process)
    requires "in" != user && user != "out" && "start" != id && id != "end"
    requires p == LineProcess("p", "start", Looped(id, Scope(id, Embedded, ApprovalProcess(id, user))), "end")
    ensures Assemble("p", Line("start", LoopedApproval(id, user), "end"), map[]) == Ok(p)
    ensures IsSyncEligible(p) && HoldsWait(env, p, true, depth)
  {
    LoopedApprovalBuilt(id, user);
    LineAssembles("p", "start", LoopedApproval(id, user), p.nodes[1], "end");
    LoopWaits(env, depth, id, user, p);
  }

  lemma CallComesToWait(env: Registry, id: string, callee: string, user: string, p: Process)
    requires p == LineProcess("p", "start", Call(id, [callee]), "end")
    requires callee in env && env[callee] == ApprovalProcess(callee, user)
    ensures IsSyncEligible(p) && HoldsWait(env, p, true, 1)
  {
    var n := Call(id, [callee]);
    LineTests(env, callee, "in", User(user), "out", 0);
    assert n.targets[0] in env && WaitBelow(env, n, 1);
    LineTests(env, "p", "start", n, "end", 1);
  }

  /** Accepted and eligible, and the called process comes to its user task. */
  lemma CallHidesWait(env: Registry, id: string, callee: string, user: string, p: Process)
    requires "in" != user && user != "out" && "start" != id && id != "end"
    requires p == LineProcess("p", "start", Call(id, [callee]), "end")
    requires callee in env && env[callee] == ApprovalProcess(callee, user)
    ensures Assemble(callee, Approval(user), map[]) == Ok(env[callee])
    ensures Assemble("p", Line("start", Element(id, None, CallBody([callee], Once)), "end"), map[]) == Ok(p)
    ensures IsSyncEligible(p) && HoldsWait(env, p, true, 1)
  {
    ApprovalAssembles(callee, user);
    LineAssembles("p", "start", Element(id, None, CallBody([callee], Once)), p.nodes[1], "end");
    CallComesToWait(env, id, callee, user, p);
  }
}

/**
 The loaded process (rust/crates/sutra-bpmn/src/model.rs): nodes, flows, their index by source and target,
 the `q:` bindings of the nodes, and the question whether a process can run without ever parking.
 */
module ProcessModel {
  import opened Basics

  datatype Refusal =
    | InvalidElement | UnsupportedElement | TaskUnknown | SubProcessUnsupported | BoundaryInvalidRef
    | LoopUnbounded | TimeoutRequired | TimerUnsupported | RetryNotApplicable | DuplicateNodeId

  datatype Flow = Flow(id: string, source: string, target: string)

  datatype BoundaryKind = ErrorBoundary | EscalationBoundary | CompensationBoundary | CancelBoundary | TimerBoundary

  datatype ScopeKind = Embedded | Transaction | AdHoc | EventTriggered

  /**
   `Plain` stands for the end, throw, link and gateway nodes, `Task` for the data, script, business-rule, send and
   manual tasks. A call names the processes its dispatch may select.
   */
  datatype Node =
    | Start(id: string)
    | Plain(id: string)
    | Task(id: string)
    | Call(id: string, targets: seq<string>)
    | MessageCatch(id: string)
    | TimerCatch(id: string)
    | Receive(id: string)
    | User(id: string)
    | Race(id: string)
    | Service(id: string, implementation: string)
    | Boundary(id: string, attachedTo: string, kind: BoundaryKind)
    | Scope(id: string, scope: ScopeKind, inner: Process)
    | Looped(id: string, body: Node)

  /** What a node's `q:` extensions declare; `other` stands for the ones the load gate never looks at. */
  datatype Bindings = Bindings(timeout: bool, retry: bool, continueReply: bool, other: bool)

  const NOTHING := Bindings(false, false, false, false)

  datatype Process = Process(
    id: string,
    nodes: seq<Node>,
    flows: seq<Flow>,
    bindings: map<string, Bindings>,
    bySource: map<string, seq<nat>>,
    byTarget: map<string, seq<nat>>)

  function BindingsFor(bindings: map<string, Bindings>, id: string): Bindings {
    if id in bindings then bindings[id] else NOTHING
  }

  // ---- wait states ---------------------------------------------------------

  const CHANNEL_CALL_PREFIX: string := "channel:"

  predicate IsChannelCall(n: Node) {
    n.Service? && CHANNEL_CALL_PREFIX <= n.implementation
  }

  predicate IsWaitState(n: Node)
    decreases n
  {
    match n
    case User(_) => true
    case MessageCatch(_) => true
    case Receive(_) => true
    case TimerCatch(_) => true
    case Service(_, _) => IsChannelCall(n)
    case Scope(_, kind, inner) => kind in {Embedded, Transaction} && !IsSyncEligible(inner)
    case _ => false
  }

  /** No node of the process parks, replies and continues, or may park a retry. */
  predicate IsSyncEligible(p: Process)
    decreases p
  {
    forall i :: 0 <= i < |p.nodes| ==>
      && !IsWaitState(p.nodes[i])
      && !BindingsFor(p.bindings, p.nodes[i].id).continueReply
      && !BindingsFor(p.bindings, p.nodes[i].id).retry
  }

  // ---- node ids ------------------------------------------------------------

  predicate DistinctIds(nodes: seq<Node>) {
    forall i, j :: 0 <= i < j < |nodes| ==> nodes[i].id != nodes[j].id
  }

  predicate HasId(nodes: seq<Node>, id: string) {
    exists i :: 0 <= i < |nodes| && nodes[i].id == id
  }

  /** The first node with this id, if any. */
  function Find(nodes: seq<Node>, id: string): (r: Result<Node, ()>)
    ensures r.Ok? <==> HasId(nodes, id)
    ensures r.Ok? ==> r.value in nodes && r.value.id == id
  {
    if nodes == [] then Err(())
    else if nodes[0].id == id then Ok(nodes[0])
    else
      var r := Find(nodes[1..], id);
      assert forall k :: 0 < k < |nodes| ==> nodes[k] == nodes[1..][k - 1];
      r
  }

  // ---- the index of flows --------------------------------------------------

  function Push(index: map<string, seq<nat>>, key: string, i: nat): map<string, seq<nat>> {
    index[key := (if key in index then index[key] else []) + [i]]
  }

  function IndexBySource(flows: seq<Flow>): map<string, seq<nat>> {
    if flows == [] then map[]
    else Push(IndexBySource(flows[..|flows| - 1]), flows[|flows| - 1].source, |flows| - 1)
  }

  function IndexByTarget(flows: seq<Flow>): map<string, seq<nat>> {
    if flows == [] then map[]
    else Push(IndexByTarget(flows[..|flows| - 1]), flows[|flows| - 1].target, |flows| - 1)
  }

  /** The flows an index entry lists, in its order. */
  function Listed(flows: seq<Flow>, index: map<string, seq<nat>>, id: string): seq<Flow>
    requires id in index ==> forall k :: 0 <= k < |index[id]| ==> index[id][k] < |flows|
  {
    if id in index then seq(|index[id]|, k requires 0 <= k < |index[id]| => flows[index[id][k]]) else []
  }

  function Leaving(flows: seq<Flow>, id: string): seq<Flow> {
    if flows == [] then []
    else
      var f := flows[|flows| - 1];
      Leaving(flows[..|flows| - 1], id) + if f.source == id then [f] else []
  }

  function Entering(flows: seq<Flow>, id: string): seq<Flow> {
    if flows == [] then []
    else
      var f := flows[|flows| - 1];
      Entering(flows[..|flows| - 1], id) + if f.target == id then [f] else []
  }

  ghost predicate Within(index: map<string, seq<nat>>, n: nat) {
    forall id, k :: id in index && 0 <= k < |index[id]| ==> index[id][k] < n
  }

  /** Asking the source index for a node gives the flows leaving it, in declaration order, and nothing else. */
  lemma {:induction false} SourceIndexLists(flows: seq<Flow>, id: string)
    ensures Within(IndexBySource(flows), |flows|)
    ensures Listed(flows, IndexBySource(flows), id) == Leaving(flows, id)
  {
    if flows != [] {
      var front, f := flows[..|flows| - 1], flows[|flows| - 1];
      assert front + [f] == flows;
      SourceIndexLists(front, id);
    }
  }

  /** Likewise for the flows entering a node. */
  lemma {:induction false} TargetIndexLists(flows: seq<Flow>, id: string)
    ensures Within(IndexByTarget(flows), |flows|)
    ensures Listed(flows, IndexByTarget(flows), id) == Entering(flows, id)
  {
    if flows != [] {
      var front, f := flows[..|flows| - 1], flows[|flows| - 1];
      assert front + [f] == flows;
      TargetIndexLists(front, id);
    }
  }

  /** The flows leaving or entering a node are all of them, as declared. */
  lemma {:induction false} LeavingInOrder(flows: seq<Flow>, id: string, leaves: Flow -> bool) returns (at: seq<nat>)
    requires forall f :: leaves(f) <==> f.source == id
    ensures Picks(flows, at, Leaving(flows, id)) && Elems(at) == Where(flows, leaves)
  {
    if flows == [] {
      at := [];
    } else {
      var front, f := flows[..|flows| - 1], flows[|flows| - 1];
      at := LeavingInOrder(front, id, leaves);
      at := PickWhere(front, at, Leaving(front, id), flows, f, leaves);
    }
  }

  lemma {:induction false} EnteringInOrder(flows: seq<Flow>, id: string, enters: Flow -> bool) returns (at: seq<nat>)
    requires forall f :: enters(f) <==> f.target == id
    ensures Picks(flows, at, Entering(flows, id)) && Elems(at) == Where(flows, enters)
  {
    if flows == [] {
      at := [];
    } else {
      var front, f := flows[..|flows| - 1], flows[|flows| - 1];
      at := EnteringInOrder(front, id, enters);
      at := PickWhere(front, at, Entering(front, id), flows, f, enters);
    }
  }

  lemma {:induction false} LeavingMembers(flows: seq<Flow>, id: string, f: Flow)
    ensures f in Leaving(flows, id) <==> f in flows && f.source == id
  {
    if flows != [] {
      var front, g := flows[..|flows| - 1], flows[|flows| - 1];
      assert flows == front + [g];
      LeavingMembers(front, id, f);
    }
  }

  // ---- building a process --------------------------------------------------

  /** A process from its parts: refused exactly when two nodes share an id; otherwise indexed both ways. */
  method Of(id: string, nodes: seq<Node>, flows: seq<Flow>, bindings: map<string, Bindings>)
    returns (r: Result<Process, Refusal>)
    ensures r.Ok? <==> DistinctIds(nodes)
    ensures r.Err? ==> r.error == DuplicateNodeId
    ensures r.Ok? ==> r.value == Indexed(id, nodes, flows, bindings)
  {
    var seen: set<string> := {};
    for i := 0 to |nodes|
      invariant DistinctIds(nodes[..i])
      invariant forall x :: x in seen <==> HasId(nodes[..i], x)
    {
      if nodes[i].id in seen {
        return Err(DuplicateNodeId);
      }
      seen := seen + {nodes[i].id};
    }
    assert nodes[..|nodes|] == nodes;
    var bySource, byTarget := map[], map[];
    for i := 0 to |flows|
      invariant bySource == IndexBySource(flows[..i]) && byTarget == IndexByTarget(flows[..i])
    {
      bySource := Push(bySource, flows[i].source, i);
      byTarget := Push(byTarget, flows[i].target, i);
      assert flows[..i + 1][..i] == flows[..i];
    }
    assert flows[..|flows|] == flows;
    r := Ok(Process(id, nodes, flows, bindings, bySource, byTarget));
  }

  lemma HasIdSnoc(nodes: seq<Node>, n: Node, x: string)
    ensures HasId(nodes + [n], x) <==> HasId(nodes, x) || x == n.id
  {
    var all := nodes + [n];
    if HasId(nodes, x) {
      var j :| 0 <= j < |nodes| && nodes[j].id == x;
      assert all[j].id == x;
    }
    assert all[|nodes|] == n;
  }

  function Indexed(id: string, nodes: seq<Node>, flows: seq<Flow>, bindings: map<string, Bindings>): Process {
    Process(id, nodes, flows, bindings, IndexBySource(flows), IndexByTarget(flows))
  }

  // ---- durable parks -------------------------------------------------------

  /** The parks that need a durable wait: a channel call, a timer catch, a retry. */
  predicate ParksDurably(n: Node, bindings: map<string, Bindings>) {
    IsChannelCall(n) || n.TimerCatch? || BindingsFor(bindings, n.id).retry
  }

  /** No node parks durably here or in any scope below, looped or not. */
  predicate NoDurablePark(p: Process)
    decreases p
  {
    forall i :: 0 <= i < |p.nodes| ==> !ParksDurably(p.nodes[i], p.bindings) && NoDurableParkBelow(p.nodes[i])
  }

  predicate NoDurableParkBelow(n: Node)
    decreases n
  {
    match n
    case Scope(_, _, inner) => NoDurablePark(inner)
    case Looped(_, body) => !IsChannelCall(body) && !body.TimerCatch? && NoDurableParkBelow(body)
    case _ => true
  }
}

/**
 The load gate (rust/crates/sutra-bpmn/src/loader.rs): assembling a container's flow elements into a process,
 recursively for sub-processes, and the checks a container must pass.
 */
module Loader {
  import opened Basics
  import opened ProcessModel
  import opened Text

  datatype Loop = Once | Standard | Multi(bounded: bool)

  datatype ScopeForm = SubProcessForm | TransactionForm | AdHocForm

  /** What an element of a container is, its attributes read and its children classified. */
  datatype Body =
    | StartBody(errorTriggered: bool)
    | PlainBody
    | MessageCatchBody
    | TimerCatchBody
    | ReceiveBody
    | UserBody
    | RaceBody
    | TaskBody(loop: Loop)
    | CallBody(targets: seq<string>, loop: Loop)
    | ServiceBody(implementation: string, storeOps: bool, loop: Loop)
    | BoundaryBody(attachedTo: string, kind: Result<BoundaryKind, Refusal>)
    | ScopeBody(form: ScopeForm, triggeredByEvent: bool, loop: Loop, children: seq<Element>)
    | FlowBody(source: string, target: string)
    | InertBody

  /** `refusal` is what the element's own builder says about its attributes (a missing id, a bad timer, ...). */
  datatype Element = Element(id: string, refusal: Option<Refusal>, body: Body)

  /** A boundary event set aside until every activity of its container is known. */
  datatype Pending = Pending(id: string, refusal: Option<Refusal>, attachedTo: string, kind: Result<BoundaryKind, Refusal>)

  /** What the walk over a container's children has gathered. */
  datatype Parts = Parts(nodes: seq<Node>, flows: seq<Flow>, activities: set<string>, pending: seq<Pending>)

  // ---- building one node ---------------------------------------------------

  /** `${name}` names the same implementation as `name`. */
  function StripBraces(s: string): string {
    if |s| >= 3 && s[0] == '$' && s[1] == '{' && s[|s| - 1] == '}' then s[2..|s| - 1] else s
  }

  function BuildService(id: string, implementation: string, storeOps: bool): Result<Node, Refusal> {
    if Trim(implementation) == "" then
      if storeOps then Ok(Task(id)) else Err(TaskUnknown)
    else Ok(Service(id, StripBraces(implementation)))
  }

  /** An activity with loop characteristics is wrapped under its own id. */
  function WrapMaybeLoop(loop: Loop, n: Node): (r: Result<Node, Refusal>)
    ensures r.Ok? ==> r.value.id == n.id
  {
    match loop
    case Once => Ok(n)
    case Standard => Ok(Looped(n.id, n))
    case Multi(bounded) => if bounded then Ok(Looped(n.id, n)) else Err(LoopUnbounded)
  }

  /** The container's first start event is triggered by an error. */
  predicate StartsOnError(children: seq<Element>) {
    children != []
    && if children[0].body.StartBody? then children[0].body.errorTriggered else StartsOnError(children[1..])
  }

  predicate IsEventScope(b: Body)
    requires b.ScopeBody?
  {
    b.form != AdHocForm && b.triggeredByEvent
  }

  /** What an inline sub-process cannot hold directly, in the order its nodes are looked at. */
  function InlineRefusal(nodes: seq<Node>, bindings: map<string, Bindings>): Option<Refusal> {
    if nodes == [] then None
    else
      var before := InlineRefusal(nodes[..|nodes| - 1], bindings);
      var n := nodes[|nodes| - 1];
      if before.Some? then before
      else if n.TimerCatch? || IsChannelCall(n) then Some(TimerUnsupported)
      else if BindingsFor(bindings, n.id).retry then Some(RetryNotApplicable)
      else None
  }

  function ScopeKindOf(b: Body): ScopeKind
    requires b.ScopeBody?
  {
    if IsEventScope(b) then EventTriggered
    else
      match b.form
      case AdHocForm => AdHoc
      case TransactionForm => Transaction
      case SubProcessForm => Embedded
  }

  function BuildSubProcess(e: Element, doc: map<string, Bindings>): Result<Node, Refusal>
    requires e.body.ScopeBody?
    decreases e, 0
  {
    if IsEventScope(e.body) && !StartsOnError(e.body.children) then Err(SubProcessUnsupported)
    else
      match Assemble(e.id, e.body.children, doc)
      case Err(x) => Err(x)
      case Ok(inner) =>
        match InlineRefusal(inner.nodes, inner.bindings)
        case Some(x) => Err(x)
        case None => Ok(Scope(e.id, ScopeKindOf(e.body), inner))
  }

  /** The node an element stands for, loop marker included. */
  function BuildNode(e: Element, doc: map<string, Bindings>): Result<Node, Refusal>
    requires !e.body.BoundaryBody? && !e.body.FlowBody? && !e.body.InertBody?
    decreases e, 1
  {
    match e.body
    case StartBody(_) => Ok(Start(e.id))
    case PlainBody => Ok(Plain(e.id))
    case MessageCatchBody => Ok(MessageCatch(e.id))
    case TimerCatchBody => Ok(TimerCatch(e.id))
    case ReceiveBody => Ok(Receive(e.id))
    case UserBody => Ok(User(e.id))
    case RaceBody => Ok(Race(e.id))
    case TaskBody(loop) => WrapMaybeLoop(loop, Task(e.id))
    case CallBody(targets, loop) => WrapMaybeLoop(loop, Call(e.id, targets))
    case ServiceBody(implementation, storeOps, loop) =>
      (match BuildService(e.id, implementation, storeOps)
       case Err(x) => Err(x)
       case Ok(n) => WrapMaybeLoop(loop, n))
    case ScopeBody(_, _, loop, _) =>
      (match BuildSubProcess(e, doc)
       case Err(x) => Err(x)
       case Ok(n) => WrapMaybeLoop(loop, n))
  }

  predicate IsActivity(b: Body) {
    b.ReceiveBody? || b.UserBody? || b.TaskBody? || b.CallBody? || b.ServiceBody? || b.ScopeBody?
  }

  function ToPending(e: Element): Pending
    requires e.body.BoundaryBody?
  {
    Pending(e.id, e.refusal, e.body.attachedTo, e.body.kind)
  }

  /** One step of the walk. Boundary events wait until every activity is known. */
  function Visit(parts: Parts, e: Element, doc: map<string, Bindings>): Result<Parts, Refusal>
    decreases e, 2
  {
    if e.body.InertBody? then Ok(parts)
    else if e.body.BoundaryBody? then Ok(parts.(pending := parts.pending + [ToPending(e)]))
    else if e.refusal.Some? then Err(e.refusal.value)
    else if e.body.FlowBody? then Ok(parts.(flows := parts.flows + [Flow(e.id, e.body.source, e.body.target)]))
    else
      match BuildNode(e, doc)
      case Err(x) => Err(x)
      case Ok(n) =>
        Ok(parts.(nodes := parts.nodes + [n],
                  activities := parts.activities + if IsActivity(e.body) then {e.id} else {}))
  }

  function Walk(children: seq<Element>, doc: map<string, Bindings>): Result<Parts, Refusal>
    decreases children, 0
  {
    if children == [] then Ok(Parts([], [], {}, []))
    else
      match Walk(children[..|children| - 1], doc)
      case Err(x) => Err(x)
      case Ok(parts) => Visit(parts, children[|children| - 1], doc)
  }

  // ---- boundaries and synthesized timeouts ---------------------------------

  function BuildBoundary(b: Pending, activities: set<string>): Result<Node, Refusal> {
    if b.refusal.Some? then Err(b.refusal.value)
    else if b.attachedTo !in activities then Err(BoundaryInvalidRef)
    else if b.kind.Err? then Err(b.kind.error)
    else Ok(Boundary(b.id, b.attachedTo, b.kind.value))
  }

  function BuildBoundaries(pending: seq<Pending>, activities: set<string>): Result<seq<Node>, Refusal> {
    if pending == [] then Ok([])
    else
      match BuildBoundaries(pending[..|pending| - 1], activities)
      case Err(x) => Err(x)
      case Ok(nodes) =>
        match BuildBoundary(pending[|pending| - 1], activities)
        case Err(x) => Err(x)
        case Ok(n) => Ok(nodes + [n])
  }

  const TIMEOUT_SUFFIX: string := "#timeout"

  function TimeoutBoundary(taskId: string): Node {
    Boundary(taskId + TIMEOUT_SUFFIX, taskId, TimerBoundary)
  }

  predicate HasTimeout(n: Node, doc: map<string, Bindings>) {
    IsChannelCall(n) && BindingsFor(doc, n.id).timeout
  }

  function Synthesized(nodes: seq<Node>, doc: map<string, Bindings>): seq<Node> {
    if nodes == [] then []
    else
      var n := nodes[|nodes| - 1];
      Synthesized(nodes[..|nodes| - 1], doc) + if HasTimeout(n, doc) then [TimeoutBoundary(n.id)] else []
  }

  predicate IsEmptyBindings(b: Bindings) {
    b == NOTHING
  }

  /** The document's bindings narrowed to these nodes. */
  function Projected(nodes: seq<Node>, doc: map<string, Bindings>): map<string, Bindings> {
    if nodes == [] then map[]
    else
      var m := Projected(nodes[..|nodes| - 1], doc);
      var id := nodes[|nodes| - 1].id;
      if id in doc && !IsEmptyBindings(doc[id]) then m[id := doc[id]] else m
  }

  // ---- the container checks ------------------------------------------------

  predicate IsChannelCallId(nodes: seq<Node>, id: string) {
    exists i :: 0 <= i < |nodes| && nodes[i].id == id && IsChannelCall(nodes[i])
  }

  predicate IsTimerOn(n: Node, id: string) {
    n.Boundary? && n.kind == TimerBoundary && n.attachedTo == id
  }

  predicate HasTimerBoundary(nodes: seq<Node>, id: string) {
    exists i :: 0 <= i < |nodes| && IsTimerOn(nodes[i], id)
  }

  predicate HostParks(nodes: seq<Node>, id: string) {
    || IsChannelCallId(nodes, id)
    || exists i :: 0 <= i < |nodes| && nodes[i].id == id && (nodes[i].User? || nodes[i].Receive?)
  }

  predicate TargetParks(nodes: seq<Node>, id: string) {
    var n := Find(nodes, id);
    n.Ok? && IsWaitState(n.value)
  }

  predicate ArmsPark(nodes: seq<Node>, arms: seq<Flow>) {
    forall i :: 0 <= i < |arms| ==> TargetParks(nodes, arms[i].target)
  }

  function NodeRefusal(n: Node, nodes: seq<Node>, flows: seq<Flow>, bindings: map<string, Bindings>): Option<Refusal> {
    match n
    case Race(id) =>
      var arms := Leaving(flows, id);
      if |arms| < 2 || !ArmsPark(nodes, arms) then Some(UnsupportedElement) else None
    case Service(id, _) =>
      if IsChannelCall(n) && !HasTimerBoundary(nodes, id) then Some(TimeoutRequired) else None
    case Looped(_, body) =>
      if IsChannelCall(body) then Some(TimerUnsupported)
      else if body.Service? && BindingsFor(bindings, body.id).retry then Some(RetryNotApplicable)
      else None
    case Boundary(_, host, kind) =>
      if kind == TimerBoundary && !HostParks(nodes, host) then Some(TimerUnsupported) else None
    case _ => None
  }

  function NodesRefusal(k: nat, nodes: seq<Node>, flows: seq<Flow>, bindings: map<string, Bindings>): Option<Refusal>
    requires k <= |nodes|
  {
    if k == 0 then None
    else
      var before := NodesRefusal(k - 1, nodes, flows, bindings);
      if before.Some? then before else NodeRefusal(nodes[k - 1], nodes, flows, bindings)
  }

  predicate HasRoutedTimer(nodes: seq<Node>, flows: seq<Flow>, id: string) {
    exists i, j :: 0 <= i < |nodes| && 0 <= j < |flows| && IsTimerOn(nodes[i], id) && flows[j].source == nodes[i].id
  }

  /** The node a retry is declared on cannot honour it. */
  predicate RetryMisplaced(nodes: seq<Node>, flows: seq<Flow>, id: string) {
    var n := Find(nodes, id);
    n.Ok? && if n.value.Service? then IsChannelCall(n.value) && HasRoutedTimer(nodes, flows, id) else true
  }

  predicate TimeoutMisplaced(nodes: seq<Node>, id: string) {
    !IsChannelCallId(nodes, id) && HasId(nodes, id)
  }

  function Validate(nodes: seq<Node>, flows: seq<Flow>, bindings: map<string, Bindings>): Option<Refusal> {
    var r := NodesRefusal(|nodes|, nodes, flows, bindings);
    if r.Some? then r
    else if exists id :: id in bindings && bindings[id].retry && RetryMisplaced(nodes, flows, id) then
      Some(RetryNotApplicable)
    else if exists id :: id in bindings && bindings[id].timeout && TimeoutMisplaced(nodes, id) then
      Some(TimerUnsupported)
    else None
  }

  // ---- assembling a container ----------------------------------------------

  /** The nodes of a container: those of the walk, the boundary events, then the synthesized timeouts. */
  function AllNodes(nodes: seq<Node>, boundaries: seq<Node>, doc: map<string, Bindings>): seq<Node> {
    nodes + boundaries + Synthesized(nodes + boundaries, doc)
  }

  function Finish(id: string, nodes: seq<Node>, flows: seq<Flow>, doc: map<string, Bindings>): Result<Process, Refusal> {
    var bindings := Projected(nodes, doc);
    match Validate(nodes, flows, bindings)
    case Some(x) => Err(x)
    case None => if DistinctIds(nodes) then Ok(Indexed(id, nodes, flows, bindings)) else Err(DuplicateNodeId)
  }

  function Assemble(id: string, children: seq<Element>, doc: map<string, Bindings>): Result<Process, Refusal>
    decreases children, 1
  {
    match Walk(children, doc)
    case Err(x) => Err(x)
    case Ok(parts) =>
      match BuildBoundaries(parts.pending, parts.activities)
      case Err(x) => Err(x)
      case Ok(boundaries) => Finish(id, AllNodes(parts.nodes, boundaries, doc), parts.flows, doc)
  }

  // ---- the loops of the source ---------------------------------------------

  lemma WalkStep(children: seq<Element>, i: nat, doc: map<string, Bindings>)
    requires i < |children| && Walk(children[..i], doc).Ok?
    ensures Walk(children[..i + 1], doc) == Visit(Walk(children[..i], doc).value, children[i], doc)
  {
    assert children[..i + 1][..i] == children[..i];
  }

  lemma {:induction false} WalkStuck(children: seq<Element>, i: nat, doc: map<string, Bindings>)
    requires i <= |children| && Walk(children[..i], doc).Err?
    ensures Walk(children, doc) == Walk(children[..i], doc)
    decreases |children|
  {
    if i == |children| {
      assert children[..i] == children;
    } else {
      var front := children[..|children| - 1];
      assert front[..i] == children[..i];
      WalkStuck(front, i, doc);
    }
  }

  lemma BoundariesStep(pending: seq<Pending>, i: nat, activities: set<string>)
    requires i < |pending| && BuildBoundaries(pending[..i], activities).Ok?
    ensures var b := BuildBoundary(pending[i], activities);
            BuildBoundaries(pending[..i + 1], activities) ==
            if b.Ok? then Ok(BuildBoundaries(pending[..i], activities).value + [b.value]) else Err(b.error)
  {
    assert pending[..i + 1][..i] == pending[..i];
  }

  lemma {:induction false} BoundariesStuck(pending: seq<Pending>, i: nat, activities: set<string>)
    requires i <= |pending| && BuildBoundaries(pending[..i], activities).Err?
    ensures BuildBoundaries(pending, activities) == BuildBoundaries(pending[..i], activities)
    decreases |pending|
  {
    if i == |pending| {
      assert pending[..i] == pending;
    } else {
      var front := pending[..|pending| - 1];
      assert front[..i] == pending[..i];
      BoundariesStuck(front, i, activities);
    }
  }

  method AppendBoundaries(pending: seq<Pending>, activities: set<string>) returns (r: Result<seq<Node>, Refusal>)
    ensures r == BuildBoundaries(pending, activities)
  {
    var nodes := [];
    for i := 0 to |pending|
      invariant BuildBoundaries(pending[..i], activities) == Ok(nodes)
    {
      BoundariesStep(pending, i, activities);
      var b := BuildBoundary(pending[i], activities);
      if b.Err? {
        BoundariesStuck(pending, i + 1, activities);
        return Err(b.error);
      }
      nodes := nodes + [b.value];
    }
    assert pending[..|pending|] == pending;
    r := Ok(nodes);
  }

  method SynthesizeTimeoutBoundaries(nodes: seq<Node>, doc: map<string, Bindings>) returns (all: seq<Node>)
    ensures all == nodes + Synthesized(nodes, doc)
  {
    var synthesized := [];
    for i := 0 to |nodes|
      invariant synthesized == Synthesized(nodes[..i], doc)
    {
      assert nodes[..i + 1][..i] == nodes[..i];
      if HasTimeout(nodes[i], doc) {
        synthesized := synthesized + [TimeoutBoundary(nodes[i].id)];
      }
    }
    assert nodes[..|nodes|] == nodes;
    all := nodes + synthesized;
  }

  method ProjectBindings(nodes: seq<Node>, doc: map<string, Bindings>) returns (bindings: map<string, Bindings>)
    ensures bindings == Projected(nodes, doc)
  {
    bindings := map[];
    for i := 0 to |nodes|
      invariant bindings == Projected(nodes[..i], doc)
    {
      assert nodes[..i + 1][..i] == nodes[..i];
      var id := nodes[i].id;
      if id in doc && !IsEmptyBindings(doc[id]) {
        bindings := bindings[id := doc[id]];
      }
    }
    assert nodes[..|nodes|] == nodes;
  }

  method FinishProcess(id: string, nodes: seq<Node>, flows: seq<Flow>, doc: map<string, Bindings>)
    returns (r: Result<Process, Refusal>)
    ensures r == Finish(id, nodes, flows, doc)
  {
    var bindings := ProjectBindings(nodes, doc);
    var refused := Validate(nodes, flows, bindings);
    if refused.Some? {
      return Err(refused.value);
    }
    r := Of(id, nodes, flows, bindings);
  }

  /** The walk over a container's children, then its boundary events, timeouts, bindings and checks. */
  method AssembleProcess(id: string, children: seq<Element>, doc: map<string, Bindings>)
    returns (r: Result<Process, Refusal>)
    ensures r == Assemble(id, children, doc)
    decreases children, 1
  {
    var walked := WalkChildren(children, doc);
    if walked.Err? {
      return Err(walked.error);
    }
    var parts := walked.value;
    var boundaries := AppendBoundaries(parts.pending, parts.activities);
    if boundaries.Err? {
      return Err(boundaries.error);
    }
    var nodes := SynthesizeTimeoutBoundaries(parts.nodes + boundaries.value, doc);
    r := FinishProcess(id, nodes, parts.flows, doc);
  }

  method WalkChildren(children: seq<Element>, doc: map<string, Bindings>) returns (r: Result<Parts, Refusal>)
    ensures r == Walk(children, doc)
    decreases children, 0
  {
    var nodes, flows, activities, pending := [], [], {}, [];
    for i := 0 to |children|
      invariant Walk(children[..i], doc) == Ok(Parts(nodes, flows, activities, pending))
    {
      WalkStep(children, i, doc);
      var e := children[i];
      if e.body.InertBody? {
      } else if e.body.BoundaryBody? {
        pending := pending + [ToPending(e)];
      } else if e.refusal.Some? {
        WalkStuck(children, i + 1, doc);
        return Err(e.refusal.value);
      } else if e.body.FlowBody? {
        flows := flows + [Flow(e.id, e.body.source, e.body.target)];
      } else {
        var n := BuildFlowNode(e, doc);
        if n.Err? {
          WalkStuck(children, i + 1, doc);
          return Err(n.error);
        }
        nodes := nodes + [n.value];
        activities := activities + if IsActivity(e.body) then {e.id} else {};
      }
    }
    assert children[..|children|] == children;
    r := Ok(Parts(nodes, flows, activities, pending));
  }

  method BuildFlowNode(e: Element, doc: map<string, Bindings>) returns (r: Result<Node, Refusal>)
    requires !e.body.BoundaryBody? && !e.body.FlowBody? && !e.body.InertBody?
    ensures r == BuildNode(e, doc)
    decreases e, 1
  {
    if !e.body.ScopeBody? {
      return BuildNode(e, doc);
    }
    if IsEventScope(e.body) && !StartsOnError(e.body.children) {
      return Err(SubProcessUnsupported);
    }
    var inner := AssembleProcess(e.id, e.body.children, doc);
    if inner.Err? {
      return Err(inner.error);
    }
    var refused := InlineRefusal(inner.value.nodes, inner.value.bindings);
    if refused.Some? {
      return Err(refused.value);
    }
    r := WrapMaybeLoop(e.body.loop, Scope(e.id, ScopeKindOf(e.body), inner.value));
  }
}

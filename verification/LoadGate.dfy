/**
 What the load gate guarantees of every accepted process, at every nesting depth, and what its eligibility test
 for synchronous execution can rely on.
 */
module LoadGate {
  import opened Basics
  import opened ProcessModel
  import opened Loader

  // ---- the container checks, declaratively ---------------------------------

  /** A service task that calls out over a channel. */
  ghost predicate CallsChannel(n: Node) {
    n.Service? && exists name: string :: n.implementation == "channel:" + name
  }

  lemma ChannelCallIff(n: Node)
    ensures IsChannelCall(n) <==> CallsChannel(n)
  {
    if IsChannelCall(n) {
      assert n.implementation == "channel:" + n.implementation[8..];
    }
  }

  /** A token stops here until something happens: by the node's kind, or inside an embedded or transaction scope. */
  ghost predicate StopsToken(n: Node) {
    || n.User? || n.Receive? || n.MessageCatch? || n.TimerCatch? || CallsChannel(n)
    || (n.Scope? && n.scope != AdHoc && n.scope != EventTriggered && !IsSyncEligible(n.inner))
  }

  lemma WaitStateIff(n: Node)
    ensures IsWaitState(n) <==> StopsToken(n)
  {
    ChannelCallIff(n);
  }

  ghost predicate Parks(nodes: seq<Node>, id: string) {
    exists i :: 0 <= i < |nodes| && nodes[i].id == id && StopsToken(nodes[i])
  }

  /** What the checks look up: a timer boundary on a node, one that leads on, and a host that waits. */
  lemma LookupsIff(nodes: seq<Node>, flows: seq<Flow>, id: string)
    ensures HasTimerBoundary(nodes, id) <==> exists b :: b in nodes && b == Boundary(b.id, id, TimerBoundary)
    ensures HasRoutedTimer(nodes, flows, id) <==>
            exists b, f :: b in nodes && f in flows && b == Boundary(b.id, id, TimerBoundary) && f.source == b.id
    ensures HostParks(nodes, id) <==> exists n :: n in nodes && n.id == id && (n.User? || n.Receive? || CallsChannel(n))
  {
    forall n
      ensures IsTimerOn(n, id) <==> n == Boundary(n.id, id, TimerBoundary)
      ensures IsChannelCall(n) <==> CallsChannel(n)
    {
      ChannelCallIff(n);
    }
    if b, f :| b in nodes && f in flows && b == Boundary(b.id, id, TimerBoundary) && f.source == b.id {
      var i :| 0 <= i < |nodes| && nodes[i] == b;
      var j :| 0 <= j < |flows| && flows[j] == f;
    }
  }

  /** Two flows leave exactly when two of the container's flows start there. */
  lemma {:induction false} TwoLeaveIff(flows: seq<Flow>, id: string)
    ensures |Leaving(flows, id)| >= 1 <==> exists i :: 0 <= i < |flows| && flows[i].source == id
    ensures |Leaving(flows, id)| >= 2 <==> exists i, j :: 0 <= i < j < |flows| && flows[i].source == id && flows[j].source == id
  {
    if flows != [] {
      var front := flows[..|flows| - 1];
      TwoLeaveIff(front, id);
      assert forall i :: 0 <= i < |front| ==> flows[i] == front[i];
    }
  }

  /** What the gate demands of one node of a container. */
  ghost predicate NodeGate(n: Node, nodes: seq<Node>, flows: seq<Flow>, bindings: map<string, Bindings>) {
    var b := BindingsFor(bindings, n.id);
    && (IsChannelCall(n) ==> HasTimerBoundary(nodes, n.id))
    && (b.retry ==> n.Service? && (IsChannelCall(n) ==> !HasRoutedTimer(nodes, flows, n.id)))
    && (b.timeout ==> IsChannelCall(n))
    && (n.Race? ==> |Leaving(flows, n.id)| >= 2)
    && (n.Race? ==> forall f :: f in flows && f.source == n.id ==> Parks(nodes, f.target))
    && (n.Boundary? && n.kind == TimerBoundary ==> HostParks(nodes, n.attachedTo))
    && (n.Looped? ==> !IsChannelCall(n.body))
  }

  ghost predicate ContainerGate(nodes: seq<Node>, flows: seq<Flow>, bindings: map<string, Bindings>) {
    forall i :: 0 <= i < |nodes| ==> NodeGate(nodes[i], nodes, flows, bindings)
  }

  /** Every binding belongs to a node of the container, and a loop marker has the id of what it marks. */
  ghost predicate Tidy(nodes: seq<Node>, bindings: map<string, Bindings>) {
    && DistinctIds(nodes)
    && (forall id :: id in bindings ==> HasId(nodes, id))
    && (forall i :: 0 <= i < |nodes| ==> nodes[i].Looped? ==> nodes[i].body.id == nodes[i].id)
  }

  lemma TargetParksIff(nodes: seq<Node>, id: string)
    requires DistinctIds(nodes)
    ensures TargetParks(nodes, id) <==> Parks(nodes, id)
  {
    forall n
      ensures IsWaitState(n) <==> StopsToken(n)
    {
      WaitStateIff(n);
    }
  }

  lemma ArmsParkIff(nodes: seq<Node>, flows: seq<Flow>, id: string)
    requires DistinctIds(nodes)
    ensures ArmsPark(nodes, Leaving(flows, id)) <==> forall f :: f in flows && f.source == id ==> Parks(nodes, f.target)
  {
    var arms := Leaving(flows, id);
    forall f
      ensures f in arms <==> f in flows && f.source == id
      ensures TargetParks(nodes, f.target) <==> Parks(nodes, f.target)
    {
      LeavingMembers(flows, id, f);
      TargetParksIff(nodes, f.target);
    }
    if ArmsPark(nodes, arms) {
      forall f | f in flows && f.source == id
        ensures Parks(nodes, f.target)
      {
        assert f in arms;
      }
    }
  }

  lemma {:induction false} NodesRefusalIff(k: nat, nodes: seq<Node>, flows: seq<Flow>, bindings: map<string, Bindings>)
    requires k <= |nodes|
    ensures NodesRefusal(k, nodes, flows, bindings) == None <==>
            forall i :: 0 <= i < k ==> NodeRefusal(nodes[i], nodes, flows, bindings) == None
  {
    if k > 0 {
      NodesRefusalIff(k - 1, nodes, flows, bindings);
    }
  }

  ghost predicate NoMisplacedRetry(nodes: seq<Node>, flows: seq<Flow>, bindings: map<string, Bindings>) {
    !exists id :: id in bindings && bindings[id].retry && RetryMisplaced(nodes, flows, id)
  }

  ghost predicate NoMisplacedTimeout(nodes: seq<Node>, bindings: map<string, Bindings>) {
    !exists id :: id in bindings && bindings[id].timeout && TimeoutMisplaced(nodes, id)
  }

  lemma RetryIff(nodes: seq<Node>, flows: seq<Flow>, bindings: map<string, Bindings>)
    requires Tidy(nodes, bindings)
    ensures NoMisplacedRetry(nodes, flows, bindings) <==>
            forall i :: 0 <= i < |nodes| ==> BindingsFor(bindings, nodes[i].id).retry ==>
              nodes[i].Service? && (IsChannelCall(nodes[i]) ==> !HasRoutedTimer(nodes, flows, nodes[i].id))
  {
  }

  lemma TimeoutIff(nodes: seq<Node>, bindings: map<string, Bindings>)
    requires Tidy(nodes, bindings)
    ensures NoMisplacedTimeout(nodes, bindings) <==>
            forall i :: 0 <= i < |nodes| ==> BindingsFor(bindings, nodes[i].id).timeout ==> IsChannelCall(nodes[i])
  {
  }

  lemma NodeRefusalIff(n: Node, nodes: seq<Node>, flows: seq<Flow>, bindings: map<string, Bindings>)
    requires DistinctIds(nodes) && (n.Looped? ==> n.body.id == n.id)
    requires BindingsFor(bindings, n.id).retry ==> n.Service? && (IsChannelCall(n) ==> !HasRoutedTimer(nodes, flows, n.id))
    requires BindingsFor(bindings, n.id).timeout ==> IsChannelCall(n)
    ensures NodeRefusal(n, nodes, flows, bindings) == None <==> NodeGate(n, nodes, flows, bindings)
  {
    if n.Race? {
      ArmsParkIff(nodes, flows, n.id);
    }
  }

  /** The checks pass exactly when every node of the container meets the gate: nothing slips by, nothing else is refused. */
  lemma ValidateIff(nodes: seq<Node>, flows: seq<Flow>, bindings: map<string, Bindings>)
    requires Tidy(nodes, bindings)
    ensures Validate(nodes, flows, bindings) == None <==> ContainerGate(nodes, flows, bindings)
  {
    NodesRefusalIff(|nodes|, nodes, flows, bindings);
    RetryIff(nodes, flows, bindings);
    TimeoutIff(nodes, bindings);
    if NoMisplacedRetry(nodes, flows, bindings) && NoMisplacedTimeout(nodes, bindings) {
      forall i | 0 <= i < |nodes|
        ensures NodeRefusal(nodes[i], nodes, flows, bindings) == None <==> NodeGate(nodes[i], nodes, flows, bindings)
      {
        NodeRefusalIff(nodes[i], nodes, flows, bindings);
      }
    }
  }

  // ---- synthesized timeouts ------------------------------------------------

  lemma {:induction false} ProjectedIff(nodes: seq<Node>, doc: map<string, Bindings>, id: string)
    ensures BindingsFor(Projected(nodes, doc), id) == if HasId(nodes, id) then BindingsFor(doc, id) else NOTHING
    ensures id in Projected(nodes, doc) ==> HasId(nodes, id)
  {
    if nodes != [] {
      var front, n := nodes[..|nodes| - 1], nodes[|nodes| - 1];
      assert nodes == front + [n];
      ProjectedIff(front, doc, id);
      HasIdSnoc(front, n, id);
    }
  }

  ghost predicate SynthesizedFor(nodes: seq<Node>, doc: map<string, Bindings>, b: Node) {
    exists i :: 0 <= i < |nodes| && HasTimeout(nodes[i], doc) && b == TimeoutBoundary(nodes[i].id)
  }

  /** A timeout boundary is synthesized for exactly the channel calls that declare one. */
  lemma {:induction false} SynthesizedIff(nodes: seq<Node>, doc: map<string, Bindings>, b: Node)
    ensures b in Synthesized(nodes, doc) <==> SynthesizedFor(nodes, doc, b)
  {
    if nodes != [] {
      var front, n := nodes[..|nodes| - 1], nodes[|nodes| - 1];
      SynthesizedIff(front, doc, b);
      assert SynthesizedFor(nodes, doc, b) <==> SynthesizedFor(front, doc, b) || (HasTimeout(n, doc) && b == TimeoutBoundary(n.id)) by {
        if SynthesizedFor(front, doc, b) {
          var i :| 0 <= i < |front| && HasTimeout(front[i], doc) && b == TimeoutBoundary(front[i].id);
          assert nodes[i] == front[i];
        }
      }
    }
  }

  lemma SuffixInjective(a: string, b: string)
    ensures a + TIMEOUT_SUFFIX == b + TIMEOUT_SUFFIX ==> a == b
  {
    var s, t := a + TIMEOUT_SUFFIX, b + TIMEOUT_SUFFIX;
    if s == t {
      assert |s| == |a| + 8 && |t| == |b| + 8;
      assert a == s[..|a|] && b == t[..|b|];
    }
  }

  /** No authored node already has the id a synthesized timeout would get. */
  ghost predicate NoClash(nodes: seq<Node>, authored: seq<Node>, doc: map<string, Bindings>) {
    forall i, j :: 0 <= i < |nodes| && 0 <= j < |authored| && HasTimeout(nodes[i], doc) ==>
      authored[j].id != TimeoutBoundary(nodes[i].id).id
  }

  lemma {:induction false} SynthesizedDistinct(nodes: seq<Node>, doc: map<string, Bindings>)
    requires DistinctIds(nodes)
    ensures DistinctIds(Synthesized(nodes, doc))
  {
    if nodes != [] {
      var front, n := nodes[..|nodes| - 1], nodes[|nodes| - 1];
      var before := Synthesized(front, doc);
      SynthesizedDistinct(front, doc);
      forall k | 0 <= k < |before|
        ensures before[k].id != TimeoutBoundary(n.id).id
      {
        SynthesizedIff(front, doc, before[k]);
        var i :| 0 <= i < |front| && HasTimeout(front[i], doc) && before[k] == TimeoutBoundary(front[i].id);
        SuffixInjective(front[i].id, n.id);
        assert nodes[i] == front[i];
      }
    }
  }

  /** Ids stay distinct after synthesis exactly when they were, and no authored id is a synthesized one. */
  lemma SynthesisKeepsDistinct(nodes: seq<Node>, doc: map<string, Bindings>)
    ensures DistinctIds(nodes + Synthesized(nodes, doc)) <==> DistinctIds(nodes) && NoClash(nodes, nodes, doc)
  {
    var made := Synthesized(nodes, doc);
    var all := nodes + made;
    if DistinctIds(all) {
      assert forall i :: 0 <= i < |nodes| ==> all[i] == nodes[i];
      forall i, j | 0 <= i < |nodes| && 0 <= j < |nodes| && HasTimeout(nodes[i], doc)
        ensures nodes[j].id != TimeoutBoundary(nodes[i].id).id
      {
        var b := TimeoutBoundary(nodes[i].id);
        assert SynthesizedFor(nodes, doc, b);
        SynthesizedIff(nodes, doc, b);
        var k :| 0 <= k < |made| && made[k] == b;
        assert all[j].id != all[|nodes| + k].id;
      }
    }
    if DistinctIds(nodes) && NoClash(nodes, nodes, doc) {
      SynthesizedDistinct(nodes, doc);
      forall j, k | 0 <= j < |nodes| && 0 <= k < |made|
        ensures nodes[j].id != made[k].id
      {
        SynthesizedIff(nodes, doc, made[k]);
        var i :| 0 <= i < |nodes| && HasTimeout(nodes[i], doc) && made[k] == TimeoutBoundary(nodes[i].id);
      }
    }
  }

  /** In particular for ids without `#`, the XML names. */
  lemma NamesNeverClash(nodes: seq<Node>, doc: map<string, Bindings>)
    requires DistinctIds(nodes) && forall i :: 0 <= i < |nodes| ==> '#' !in nodes[i].id
    ensures DistinctIds(nodes + Synthesized(nodes, doc))
  {
    forall i, j | 0 <= i < |nodes| && 0 <= j < |nodes|
      ensures nodes[j].id != TimeoutBoundary(nodes[i].id).id
    {
      var id := TimeoutBoundary(nodes[i].id).id;
      assert id[|nodes[i].id|] == '#';
      assert '#' in id;
    }
    SynthesisKeepsDistinct(nodes, doc);
  }

  /** A channel call that declares a timeout passes the check for a timer boundary. */
  lemma TimeoutSuffices(nodes: seq<Node>, doc: map<string, Bindings>, i: nat)
    requires i < |nodes| && HasTimeout(nodes[i], doc)
    ensures HasTimerBoundary(nodes + Synthesized(nodes, doc), nodes[i].id)
  {
    var b, made := TimeoutBoundary(nodes[i].id), Synthesized(nodes, doc);
    assert SynthesizedFor(nodes, doc, b);
    SynthesizedIff(nodes, doc, b);
    var k :| 0 <= k < |made| && made[k] == b;
    assert (nodes + made)[|nodes| + k] == b;
  }

  // ---- every depth ---------------------------------------------------------

  /** The gate holds in this container and in every container below it. */
  ghost predicate Gated(p: Process)
    decreases p
  {
    && Tidy(p.nodes, p.bindings)
    && ContainerGate(p.nodes, p.flows, p.bindings)
    && forall i :: 0 <= i < |p.nodes| ==> GatedBelow(p.nodes[i])
  }

  /** A scope below is gated and holds no durable park; a loop marker marks neither a timer catch nor another marker. */
  ghost predicate GatedBelow(n: Node)
    decreases n
  {
    match n
    case Scope(_, _, inner) => Gated(inner) && NoDurablePark(inner)
    case Looped(id, body) => body.id == id && !body.TimerCatch? && !body.Looped? && GatedBelow(body)
    case _ => true
  }

  lemma {:induction false} InlineIff(nodes: seq<Node>, bindings: map<string, Bindings>)
    ensures InlineRefusal(nodes, bindings) == None <==> forall i :: 0 <= i < |nodes| ==> !ParksDurably(nodes[i], bindings)
  {
    if nodes != [] {
      var front, n := nodes[..|nodes| - 1], nodes[|nodes| - 1];
      InlineIff(front, bindings);
      assert forall i :: 0 <= i < |front| ==> nodes[i] == front[i];
    }
  }

  /** Below a gated container nothing parks durably. */
  lemma BelowIsQuiet(p: Process, i: nat)
    requires Gated(p) && i < |p.nodes|
    ensures NoDurableParkBelow(p.nodes[i])
  {
    var n := p.nodes[i];
    assert GatedBelow(n) && NodeGate(n, p.nodes, p.flows, p.bindings);
    if n.Looped? {
      assert GatedBelow(n.body);
    }
  }

  lemma InlineHasNoPark(p: Process)
    requires Gated(p) && InlineRefusal(p.nodes, p.bindings) == None
    ensures NoDurablePark(p)
  {
    InlineIff(p.nodes, p.bindings);
    forall i | 0 <= i < |p.nodes|
      ensures NoDurableParkBelow(p.nodes[i])
    {
      BelowIsQuiet(p, i);
    }
  }

  ghost predicate AllGatedBelow(nodes: seq<Node>) {
    forall i :: 0 <= i < |nodes| ==> GatedBelow(nodes[i])
  }

  lemma {:induction false} BoundariesGatedBelow(pending: seq<Pending>, activities: set<string>)
    ensures var r := BuildBoundaries(pending, activities); r.Ok? ==> AllGatedBelow(r.value)
  {
    if pending != [] {
      BoundariesGatedBelow(pending[..|pending| - 1], activities);
    }
  }

  lemma {:induction false} SynthesizedGatedBelow(nodes: seq<Node>, doc: map<string, Bindings>)
    ensures AllGatedBelow(Synthesized(nodes, doc))
  {
    if nodes != [] {
      SynthesizedGatedBelow(nodes[..|nodes| - 1], doc);
    }
  }

  lemma FinishGated(id: string, nodes: seq<Node>, flows: seq<Flow>, doc: map<string, Bindings>)
    requires AllGatedBelow(nodes)
    ensures var r := Finish(id, nodes, flows, doc); r.Ok? ==> Gated(r.value)
  {
    var bindings := Projected(nodes, doc);
    if Finish(id, nodes, flows, doc).Ok? {
      forall x | x in bindings
        ensures HasId(nodes, x)
      {
        ProjectedIff(nodes, doc, x);
      }
      forall i | 0 <= i < |nodes|
        ensures nodes[i].Looped? ==> nodes[i].body.id == nodes[i].id
      {
        assert GatedBelow(nodes[i]);
      }
      ValidateIff(nodes, flows, bindings);
    }
  }

  /** Every process the gate accepts meets it at every depth. */
  lemma {:induction false} AssembledIsGated(id: string, children: seq<Element>, doc: map<string, Bindings>)
    ensures var r := Assemble(id, children, doc); r.Ok? ==> Gated(r.value)
    decreases children, 1
  {
    WalkedIsGated(children, doc);
    if Assemble(id, children, doc).Ok? {
      var parts := Walk(children, doc).value;
      var boundaries := BuildBoundaries(parts.pending, parts.activities).value;
      BoundariesGatedBelow(parts.pending, parts.activities);
      SynthesizedGatedBelow(parts.nodes + boundaries, doc);
      FinishGated(id, AllNodes(parts.nodes, boundaries, doc), parts.flows, doc);
    }
  }

  lemma {:induction false} WalkedIsGated(children: seq<Element>, doc: map<string, Bindings>)
    ensures var r := Walk(children, doc); r.Ok? ==> AllGatedBelow(r.value.nodes)
    decreases children, 0
  {
    if children != [] && Walk(children, doc).Ok? {
      var e := children[|children| - 1];
      WalkedIsGated(children[..|children| - 1], doc);
      if !e.body.BoundaryBody? && !e.body.FlowBody? && !e.body.InertBody? {
        BuiltIsGated(e, doc);
      }
    }
  }

  lemma {:induction false} BuiltIsGated(e: Element, doc: map<string, Bindings>)
    requires !e.body.BoundaryBody? && !e.body.FlowBody? && !e.body.InertBody?
    ensures var r := BuildNode(e, doc); r.Ok? ==> GatedBelow(r.value)
    decreases e, 1
  {
    if e.body.ScopeBody? && BuildNode(e, doc).Ok? {
      AssembledIsGated(e.id, e.body.children, doc);
      var inner := Assemble(e.id, e.body.children, doc).value;
      InlineHasNoPark(inner);
      assert GatedBelow(Scope(e.id, ScopeKindOf(e.body), inner));
    }
  }

  // ---- what the executor relies on -----------------------------------------

  /** Channel calls, timer catches and retries occur only directly in the top-level process, and none is looped. */
  lemma DurableParksOnlyAtTop(id: string, children: seq<Element>, doc: map<string, Bindings>, p: Process, i: nat)
    requires Assemble(id, children, doc) == Ok(p) && i < |p.nodes|
    ensures NoDurableParkBelow(p.nodes[i])
    ensures p.nodes[i].Looped? ==> !BindingsFor(p.bindings, p.nodes[i].body.id).retry
  {
    AssembledIsGated(id, children, doc);
    BelowIsQuiet(p, i);
    assert NodeGate(p.nodes[i], p.nodes, p.flows, p.bindings);
  }

  /** So an accepted process that is eligible for synchronous execution holds none of them anywhere. */
  lemma EligibleMeansNoDurablePark(id: string, children: seq<Element>, doc: map<string, Bindings>, p: Process)
    requires Assemble(id, children, doc) == Ok(p) && IsSyncEligible(p)
    ensures NoDurablePark(p)
  {
    forall i | 0 <= i < |p.nodes|
      ensures !ParksDurably(p.nodes[i], p.bindings) && NoDurableParkBelow(p.nodes[i])
    {
      DurableParksOnlyAtTop(id, children, doc, p, i);
      assert !IsWaitState(p.nodes[i]);
    }
  }

  // ---- the elements of a container -----------------------------------------

  predicate IsNodeElement(e: Element) {
    !e.body.InertBody? && !e.body.FlowBody? && !e.body.BoundaryBody?
  }

  function NodeElements(children: seq<Element>): seq<Element> {
    if children == [] then []
    else
      var e := children[|children| - 1];
      NodeElements(children[..|children| - 1]) + if IsNodeElement(e) then [e] else []
  }

  function BoundaryElements(children: seq<Element>): seq<Pending> {
    if children == [] then []
    else
      var e := children[|children| - 1];
      BoundaryElements(children[..|children| - 1]) + if e.body.BoundaryBody? then [ToPending(e)] else []
  }

  function FlowsOf(children: seq<Element>): seq<Flow> {
    if children == [] then []
    else
      var e := children[|children| - 1];
      FlowsOf(children[..|children| - 1]) + if e.body.FlowBody? then [Flow(e.id, e.body.source, e.body.target)] else []
  }

  /** What a loop marker marks, or the node itself. */
  function Unlooped(n: Node): Node {
    if n.Looped? then n.body else n
  }
}

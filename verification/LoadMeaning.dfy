/**
 What a container of elements means as a process (rust/crates/sutra-bpmn/src/loader.rs), stated without the
 assembler: which documents load, and to what. The assembler accepts exactly those, with exactly that result.
 */
module LoadMeaning {
  import opened Basics
  import opened ProcessModel
  import opened Loader
  import opened LoadGate
  import Text

  // ---- one element ---------------------------------------------------------

  ghost predicate IsBlank(s: string) {
    forall i :: 0 <= i < |s| ==> Text.IsSpace(s[i])
  }

  /** `name` is what `s` names: what stands inside `${` and `}`, or `s` itself. */
  ghost predicate Names(s: string, name: string) {
    if exists inside: string :: s == "${" + inside + "}" then s == "${" + name + "}" else s == name
  }

  /** `n` is `m` under the element's loop marker; only a bounded one will do. */
  ghost predicate Marked(loop: Loop, m: Node, n: Node) {
    if loop == Once then n == m else loop != Multi(false) && n == Looped(m.id, m)
  }

  /** The kinds of element a boundary event may sit on. */
  ghost predicate IsHost(b: Body) {
    match b
    case TaskBody(_) => true
    case CallBody(_, _) => true
    case ServiceBody(_, _, _) => true
    case ReceiveBody => true
    case UserBody => true
    case ScopeBody(_, _, _, _) => true
    case StartBody(_) => false
    case PlainBody => false
    case MessageCatchBody => false
    case TimerCatchBody => false
    case RaceBody => false
    case BoundaryBody(_, _) => false
    case FlowBody(_, _) => false
    case InertBody => false
  }

  ghost function KindMeant(form: ScopeForm, triggeredByEvent: bool): ScopeKind {
    if form == AdHocForm then AdHoc
    else if triggeredByEvent then EventTriggered
    else if form == TransactionForm then Transaction
    else Embedded
  }

  /** The first start event among the elements is triggered by an error. */
  ghost predicate ErrorFirst(children: seq<Element>) {
    exists i :: 0 <= i < |children| && children[i].body == StartBody(true) && forall j :: 0 <= j < i ==> !children[j].body.StartBody?
  }

  /** What an inline sub-process may not hold directly: a channel call, a timer catch, a retry. */
  ghost predicate Inline(p: Process) {
    forall i :: 0 <= i < |p.nodes| ==>
      !CallsChannel(p.nodes[i]) && !p.nodes[i].TimerCatch? && !BindingsFor(p.bindings, p.nodes[i].id).retry
  }

  /** `n` is the node the element stands for. */
  ghost predicate Reads(e: Element, n: Node, doc: map<string, Bindings>)
    requires IsNodeElement(e)
    decreases e, 0
  {
    match e.body
    case StartBody(_) => n == Start(e.id)
    case PlainBody => n == Plain(e.id)
    case MessageCatchBody => n == MessageCatch(e.id)
    case TimerCatchBody => n == TimerCatch(e.id)
    case ReceiveBody => n == Receive(e.id)
    case UserBody => n == User(e.id)
    case RaceBody => n == Race(e.id)
    case TaskBody(loop) => Marked(loop, Task(e.id), n)
    case CallBody(targets, loop) => Marked(loop, Call(e.id, targets), n)
    case ServiceBody(implementation, storeOps, loop) =>
      if IsBlank(implementation) then storeOps && Marked(loop, Task(e.id), n)
      else exists name :: Names(implementation, name) && Marked(loop, Service(e.id, name), n)
    case ScopeBody(form, triggered, loop, children) =>
      var m := Unlooped(n);
      && m.Scope? && m.id == e.id && m.scope == KindMeant(form, triggered) && Marked(loop, m, n)
      && (m.scope == EventTriggered ==> ErrorFirst(children))
      && Loads(e.id, children, doc, m.inner) && Inline(m.inner)
  }

  // ---- a container ---------------------------------------------------------

  /** How many node elements come before element `i`. */
  ghost function NodesBefore(children: seq<Element>, i: nat): nat
    requires i <= |children|
  {
    |NodeElements(children[..i])|
  }

  /** Nodes for the node elements in order; no node or flow is refused on its own. */
  ghost predicate ReadsAll(children: seq<Element>, nodes: seq<Node>, doc: map<string, Bindings>)
    decreases children, 0
  {
    && |nodes| == |NodeElements(children)|
    && (forall i :: 0 <= i < |children| && IsNodeElement(children[i]) ==>
          NodesBefore(children, i) < |nodes| && Reads(children[i], nodes[NodesBefore(children, i)], doc))
    && (forall i :: 0 <= i < |children| && !children[i].body.InertBody? && !children[i].body.BoundaryBody? ==>
          children[i].refusal == None)
  }

  /** The ids of the elements a boundary event may sit on. */
  ghost function Hosts(children: seq<Element>): set<string> {
    set i | 0 <= i < |children| && IsHost(children[i].body) :: children[i].id
  }

  /** The boundary events as declared, each on a host of the container. */
  ghost predicate OnHosts(pending: seq<Pending>, hosts: set<string>, boundaries: seq<Node>) {
    && |boundaries| == |pending|
    && forall k :: 0 <= k < |pending| ==>
         && pending[k].refusal == None && pending[k].attachedTo in hosts
         && pending[k].kind.Ok? && boundaries[k] == Boundary(pending[k].id, pending[k].attachedTo, pending[k].kind.value)
  }

  ghost predicate WantsTimeout(n: Node, doc: map<string, Bindings>) {
    CallsChannel(n) && n.id in doc && doc[n.id].timeout
  }

  /** One timer boundary per channel call with a timeout, in node order. */
  ghost predicate TimesOut(authored: seq<Node>, doc: map<string, Bindings>, at: seq<nat>, timeouts: seq<Node>) {
    && |at| == |timeouts|
    && (forall k :: 0 <= k < |at| ==>
          at[k] < |authored| && timeouts[k] == Boundary(authored[at[k]].id + "#timeout", authored[at[k]].id, TimerBoundary))
    && (forall j, k :: 0 <= j < k < |at| ==> at[j] < at[k])
    && (forall i: nat :: i in at <==> i < |authored| && WantsTimeout(authored[i], doc))
  }

  /** The document's bindings of the container's nodes, those that say something. */
  ghost predicate Binds(nodes: seq<Node>, doc: map<string, Bindings>, bindings: map<string, Bindings>) {
    && (forall x :: x in bindings <==> x in doc && HasId(nodes, x) && doc[x] != Bindings(false, false, false, false))
    && (forall x :: x in bindings ==> bindings[x] == doc[x])
  }

  /** The process the container loads to, if it loads. */
  ghost predicate Loads(id: string, children: seq<Element>, doc: map<string, Bindings>, p: Process)
    decreases children, 1
  {
    exists nodes, boundaries, timeouts, at ::
      && ReadsAll(children, nodes, doc)
      && OnHosts(BoundaryElements(children), Hosts(children), boundaries)
      && TimesOut(nodes + boundaries, doc, at, timeouts)
      && Finished(id, nodes + boundaries + timeouts, FlowsOf(children), doc, p)
  }

  /** The process of these nodes and flows, when they pass the gate and no two nodes share an id. */
  ghost predicate Finished(id: string, nodes: seq<Node>, flows: seq<Flow>, doc: map<string, Bindings>, p: Process) {
    && p == Indexed(id, nodes, flows, p.bindings)
    && Binds(nodes, doc, p.bindings) && DistinctIds(nodes) && ContainerGate(nodes, flows, p.bindings)
  }

  // ---- the assembler reads elements so -------------------------------------

  lemma NamesIff(s: string, name: string)
    ensures Names(s, name) <==> name == StripBraces(s)
  {
    if inside: string :| s == "${" + inside + "}" {
      assert |s| >= 3 && s[0] == '$' && s[1] == '{' && s[|s| - 1] == '}' && s[2..|s| - 1] == inside;
      assert s == "${" + name + "}" ==> s[2..|s| - 1] == name;
    } else {
      if |s| >= 3 && s[0] == '$' && s[1] == '{' && s[|s| - 1] == '}' {
        assert s == "${" + s[2..|s| - 1] + "}";
      }
    }
  }

  lemma MarkedIff(loop: Loop, m: Node, n: Node)
    ensures WrapMaybeLoop(loop, m) == Ok(n) <==> Marked(loop, m, n)
  {
  }

  lemma {:induction false} ErrorFirstIff(children: seq<Element>)
    ensures StartsOnError(children) <==> ErrorFirst(children)
  {
    if children != [] {
      var rest := children[1..];
      ErrorFirstIff(rest);
      if children[0].body.StartBody? {
        assert children[0].body == StartBody(true) ==> ErrorFirst(children);
      } else {
        if ErrorFirst(rest) {
          var i :| 0 <= i < |rest| && rest[i].body == StartBody(true) && forall j :: 0 <= j < i ==> !rest[j].body.StartBody?;
          assert children[i + 1] == rest[i] && forall j :: 1 <= j < i + 1 ==> children[j] == rest[j - 1];
        }
        if ErrorFirst(children) {
          var i :| 0 <= i < |children| && children[i].body == StartBody(true) && forall j :: 0 <= j < i ==> !children[j].body.StartBody?;
          assert rest[i - 1] == children[i] && forall j :: 0 <= j < i - 1 ==> rest[j] == children[j + 1];
        }
      }
    }
  }

  lemma InlineMeans(p: Process)
    ensures InlineRefusal(p.nodes, p.bindings) == None <==> Inline(p)
  {
    InlineIff(p.nodes, p.bindings);
    forall n
      ensures IsChannelCall(n) <==> CallsChannel(n)
    {
      ChannelCallIff(n);
    }
  }

  /** An element is built as a node exactly when it reads as that node. */
  lemma {:induction false} BuildIff(e: Element, doc: map<string, Bindings>, n: Node)
    requires IsNodeElement(e)
    ensures BuildNode(e, doc) == Ok(n) <==> Reads(e, n, doc)
    decreases e, 0
  {
    match e.body
    case TaskBody(loop) => MarkedIff(loop, Task(e.id), n);
    case CallBody(targets, loop) => MarkedIff(loop, Call(e.id, targets), n);
    case ServiceBody(_, _, _) => ServiceReads(e, doc, n);
    case ScopeBody(_, _, _, children) =>
      if Unlooped(n).Scope? {
        LoadsIff(e.id, children, doc, Unlooped(n).inner);
      }
      ScopeNodeIff(e, doc, n);
    case _ =>
  }

  lemma ServiceReads(e: Element, doc: map<string, Bindings>, n: Node)
    requires e.body.ServiceBody?
    ensures BuildNode(e, doc) == Ok(n) <==> Reads(e, n, doc)
  {
    var implementation, storeOps, loop := e.body.implementation, e.body.storeOps, e.body.loop;
    forall m
      ensures WrapMaybeLoop(loop, m) == Ok(n) <==> Marked(loop, m, n)
    {
      MarkedIff(loop, m, n);
    }
    Text.TrimEmptyIff(implementation);
    forall name
      ensures Names(implementation, name) <==> name == StripBraces(implementation)
    {
      NamesIff(implementation, name);
    }
  }

  /** The scope node without its loop marker. */
  ghost predicate ScopeMeant(e: Element, m: Node)
    requires e.body.ScopeBody?
  {
    && m.Scope? && m.id == e.id && m.scope == KindMeant(e.body.form, e.body.triggeredByEvent)
    && (m.scope == EventTriggered ==> ErrorFirst(e.body.children)) && Inline(m.inner)
  }

  lemma ScopeBuiltIff(e: Element, doc: map<string, Bindings>, m: Node)
    requires e.body.ScopeBody?
    ensures BuildSubProcess(e, doc) == Ok(m) <==> ScopeMeant(e, m) && Assemble(e.id, e.body.children, doc) == Ok(m.inner)
  {
    ErrorFirstIff(e.body.children);
    if m.Scope? {
      InlineMeans(m.inner);
    }
  }

  lemma ScopeNodeIff(e: Element, doc: map<string, Bindings>, n: Node)
    requires e.body.ScopeBody?
    ensures BuildNode(e, doc) == Ok(n) <==>
            && ScopeMeant(e, Unlooped(n)) && Marked(e.body.loop, Unlooped(n), n)
            && Assemble(e.id, e.body.children, doc) == Ok(Unlooped(n).inner)
  {
    ScopeBuiltIff(e, doc, Unlooped(n));
    if BuildNode(e, doc) == Ok(n) {
      BuiltUnderMarker(e, doc, n);
    }
    if Marked(e.body.loop, Unlooped(n), n) {
      MarkerOverBuilt(e, doc, n);
    }
  }

  lemma BuiltUnderMarker(e: Element, doc: map<string, Bindings>, n: Node)
    requires e.body.ScopeBody? && BuildNode(e, doc) == Ok(n)
    ensures BuildSubProcess(e, doc) == Ok(Unlooped(n)) && Marked(e.body.loop, Unlooped(n), n)
  {
    var m := BuildSubProcess(e, doc).value;
    MarkedIff(e.body.loop, m, n);
  }

  lemma MarkerOverBuilt(e: Element, doc: map<string, Bindings>, n: Node)
    requires e.body.ScopeBody? && Marked(e.body.loop, Unlooped(n), n)
    ensures BuildSubProcess(e, doc) == Ok(Unlooped(n)) ==> BuildNode(e, doc) == Ok(n)
  {
    MarkedIff(e.body.loop, Unlooped(n), n);
  }

  // ---- and containers ------------------------------------------------------

  lemma {:induction false} NodesBound(children: seq<Element>, i: nat)
    requires i < |children| && IsNodeElement(children[i])
    ensures NodesBefore(children, i) < |NodeElements(children)|
    decreases |children|
  {
    var front := children[..|children| - 1];
    if i < |front| {
      assert front[..i] == children[..i];
      NodesBound(front, i);
    } else {
      assert children[..i] == front;
    }
  }

  lemma SameBefore(front: seq<Element>, children: seq<Element>, i: nat)
    requires i <= |front| && front <= children
    ensures NodesBefore(children, i) == NodesBefore(front, i)
  {
    assert children[..i] == front[..i];
  }

  /** One more element at the end of the container. */
  ghost predicate ReadsOneMore(front: seq<Element>, e: Element, nodes: seq<Node>, doc: map<string, Bindings>) {
    if IsNodeElement(e) then
      e.refusal == None && nodes != [] && ReadsAll(front, nodes[..|nodes| - 1], doc) && Reads(e, nodes[|nodes| - 1], doc)
    else ReadsAll(front, nodes, doc) && (e.body.FlowBody? ==> e.refusal == None)
  }

  /** Where the elements before the last one stand. */
  lemma PrefixPlaces(front: seq<Element>, e: Element, children: seq<Element>)
    requires children == front + [e]
    ensures |NodeElements(children)| == |NodeElements(front)| + if IsNodeElement(e) then 1 else 0
    ensures NodesBefore(children, |front|) == |NodeElements(front)|
    ensures forall i :: 0 <= i < |front| ==> children[i] == front[i] && NodesBefore(children, i) == NodesBefore(front, i)
    ensures forall i :: 0 <= i < |front| && IsNodeElement(front[i]) ==> NodesBefore(front, i) < |NodeElements(front)|
  {
    assert children[..|front|] == front;
    forall i | 0 <= i < |front|
      ensures NodesBefore(children, i) == NodesBefore(front, i)
      ensures IsNodeElement(front[i]) ==> NodesBefore(front, i) < |NodeElements(front)|
    {
      SameBefore(front, children, i);
      if IsNodeElement(front[i]) {
        NodesBound(front, i);
      }
    }
  }

  lemma ReadsMore(front: seq<Element>, e: Element, children: seq<Element>, nodes: seq<Node>, doc: map<string, Bindings>)
    requires children == front + [e]
    ensures ReadsAll(children, nodes, doc) <==> ReadsOneMore(front, e, nodes, doc)
  {
    if ReadsAll(children, nodes, doc) {
      ReadsFirst(front, e, children, nodes, doc);
    }
    if ReadsOneMore(front, e, nodes, doc) {
      ReadsLast(front, e, children, nodes, doc);
    }
  }

  lemma ReadsLast(front: seq<Element>, e: Element, children: seq<Element>, nodes: seq<Node>, doc: map<string, Bindings>)
    requires children == front + [e] && ReadsOneMore(front, e, nodes, doc)
    ensures ReadsAll(children, nodes, doc)
  {
    PrefixPlaces(front, e, children);
    var before := if IsNodeElement(e) then nodes[..|nodes| - 1] else nodes;
    forall i | 0 <= i < |children| && IsNodeElement(children[i])
      ensures NodesBefore(children, i) < |nodes| && Reads(children[i], nodes[NodesBefore(children, i)], doc)
    {
      if i < |front| {
        assert children[i] == front[i] && Reads(front[i], before[NodesBefore(front, i)], doc);
      }
    }
  }

  lemma ReadsFirst(front: seq<Element>, e: Element, children: seq<Element>, nodes: seq<Node>, doc: map<string, Bindings>)
    requires children == front + [e] && ReadsAll(children, nodes, doc)
    ensures ReadsOneMore(front, e, nodes, doc)
  {
    PrefixPlaces(front, e, children);
    assert children[|front|] == e;
    var before := if IsNodeElement(e) then nodes[..|nodes| - 1] else nodes;
    forall i | 0 <= i < |front| && IsNodeElement(front[i])
      ensures NodesBefore(front, i) < |before| && Reads(front[i], before[NodesBefore(front, i)], doc)
    {
      assert IsNodeElement(children[i]);
    }
  }

  lemma ActivityIff(b: Body)
    ensures IsActivity(b) <==> IsHost(b)
  {
  }

  lemma HostsMore(front: seq<Element>, e: Element, children: seq<Element>)
    requires children == front + [e]
    ensures Hosts(children) == Hosts(front) + if IsHost(e.body) then {e.id} else {}
  {
    assert forall i :: 0 <= i < |front| ==> children[i] == front[i];
    assert children[|front|] == e;
    forall x | x in Hosts(front)
      ensures x in Hosts(children)
    {
      var i :| 0 <= i < |front| && IsHost(front[i].body) && front[i].id == x;
      assert children[i].id == x;
    }
  }

  /** The walk gathers exactly what the elements read as. */
  ghost predicate Gathered(children: seq<Element>, doc: map<string, Bindings>, parts: Parts) {
    && ReadsAll(children, parts.nodes, doc)
    && parts.flows == FlowsOf(children) && parts.pending == BoundaryElements(children) && parts.activities == Hosts(children)
  }

  lemma {:induction false} WalkIff(children: seq<Element>, doc: map<string, Bindings>, parts: Parts)
    ensures Walk(children, doc) == Ok(parts) <==> Gathered(children, doc, parts)
    decreases children, 0
  {
    if children == [] {
      assert Hosts(children) == {};
    } else {
      var front, e := children[..|children| - 1], children[|children| - 1];
      assert children == front + [e];
      if Walk(front, doc).Ok? {
        WalkIff(front, doc, Walk(front, doc).value);
      }
      var before := BeforeLast(e, parts, front);
      WalkIff(front, doc, before);
      if IsNodeElement(e) && parts.nodes != [] {
        BuildIff(e, doc, parts.nodes[|parts.nodes| - 1]);
      }
      WalkMore(front, e, children, doc, parts);
    }
  }

  /** The parts gathered before the last element, given all of them. */
  ghost function BeforeLast(e: Element, parts: Parts, front: seq<Element>): Parts {
    var nodes := if IsNodeElement(e) && parts.nodes != [] then parts.nodes[..|parts.nodes| - 1] else parts.nodes;
    Parts(nodes, FlowsOf(front), Hosts(front), BoundaryElements(front))
  }

  lemma ListsGrow(front: seq<Element>, e: Element, children: seq<Element>)
    requires children == front + [e]
    ensures FlowsOf(children) == if e.body.FlowBody? then FlowsOf(front) + [Flow(e.id, e.body.source, e.body.target)] else FlowsOf(front)
    ensures BoundaryElements(children) == if e.body.BoundaryBody? then BoundaryElements(front) + [ToPending(e)] else BoundaryElements(front)
    ensures Hosts(children) == Hosts(front) + if IsActivity(e.body) then {e.id} else {}
  {
    assert children[..|children| - 1] == front;
    HostsMore(front, e, children);
    ActivityIff(e.body);
  }

  lemma WalkMore(front: seq<Element>, e: Element, children: seq<Element>, doc: map<string, Bindings>, parts: Parts)
    requires children == front + [e]
    requires Walk(front, doc).Ok? ==> Gathered(front, doc, Walk(front, doc).value)
    requires Walk(front, doc) == Ok(BeforeLast(e, parts, front)) <==> Gathered(front, doc, BeforeLast(e, parts, front))
    requires IsNodeElement(e) && parts.nodes != [] ==>
               var n := parts.nodes[|parts.nodes| - 1]; BuildNode(e, doc) == Ok(n) <==> Reads(e, n, doc)
    ensures Walk(children, doc) == Ok(parts) <==> Gathered(children, doc, parts)
  {
    var before := BeforeLast(e, parts, front);
    if Walk(children, doc) == Ok(parts) {
      WalkedBefore(front, e, children, doc, parts);
      WalkEnds(front, e, children, doc, parts, before);
      AddsGathers(front, e, children, doc, parts);
    }
    if Gathered(children, doc, parts) {
      GathersAdds(front, e, children, doc, parts);
      WalkEnds(front, e, children, doc, parts, before);
    }
  }

  lemma AddsGathers(front: seq<Element>, e: Element, children: seq<Element>, doc: map<string, Bindings>, parts: Parts)
    requires children == front + [e] && Gathered(front, doc, BeforeLast(e, parts, front)) && Adds(BeforeLast(e, parts, front), e, doc, parts)
    requires IsNodeElement(e) ==> parts.nodes != [] && Reads(e, parts.nodes[|parts.nodes| - 1], doc)
    ensures Gathered(children, doc, parts)
  {
    ReadsMore(front, e, children, parts.nodes, doc);
    ListsGrow(front, e, children);
  }

  lemma GathersAdds(front: seq<Element>, e: Element, children: seq<Element>, doc: map<string, Bindings>, parts: Parts)
    requires children == front + [e] && Gathered(children, doc, parts)
    requires IsNodeElement(e) && parts.nodes != [] ==>
               var n := parts.nodes[|parts.nodes| - 1]; BuildNode(e, doc) == Ok(n) <==> Reads(e, n, doc)
    ensures Gathered(front, doc, BeforeLast(e, parts, front)) && Adds(BeforeLast(e, parts, front), e, doc, parts)
  {
    ReadsMore(front, e, children, parts.nodes, doc);
    ListsGrow(front, e, children);
  }

  /** What one element adds to the parts gathered so far. */
  ghost predicate Adds(before: Parts, e: Element, doc: map<string, Bindings>, parts: Parts) {
    && parts.flows == (if e.body.FlowBody? then before.flows + [Flow(e.id, e.body.source, e.body.target)] else before.flows)
    && parts.pending == (if e.body.BoundaryBody? then before.pending + [ToPending(e)] else before.pending)
    && parts.activities == before.activities + (if IsActivity(e.body) then {e.id} else {})
    && (IsNodeElement(e) || e.body.FlowBody? ==> e.refusal == None)
    && if IsNodeElement(e) then
         parts.nodes != [] && parts.nodes[..|parts.nodes| - 1] == before.nodes && BuildNode(e, doc) == Ok(parts.nodes[|parts.nodes| - 1])
       else parts.nodes == before.nodes
  }

  lemma VisitAdds(before: Parts, e: Element, doc: map<string, Bindings>, parts: Parts)
    ensures Visit(before, e, doc) == Ok(parts) ==> Adds(before, e, doc, parts)
  {
    if IsNodeElement(e) && Visit(before, e, doc) == Ok(parts) {
      var n := BuildNode(e, doc).value;
      assert parts.nodes == before.nodes + [n];
    }
  }

  lemma AddsVisit(before: Parts, e: Element, doc: map<string, Bindings>, parts: Parts)
    requires Adds(before, e, doc, parts)
    ensures Visit(before, e, doc) == Ok(parts)
  {
    if IsNodeElement(e) {
      assert parts.nodes == before.nodes + [parts.nodes[|parts.nodes| - 1]];
    } else {
      assert before.activities + {} == before.activities;
    }
  }

  /** The last step of the walk. */
  lemma WalkEnds(front: seq<Element>, e: Element, children: seq<Element>, doc: map<string, Bindings>, parts: Parts, before: Parts)
    requires children == front + [e] && Walk(front, doc) == Ok(before)
    ensures Walk(children, doc) == Ok(parts) <==> Adds(before, e, doc, parts)
  {
    assert children[..|children| - 1] == front;
    VisitAdds(before, e, doc, parts);
    if Adds(before, e, doc, parts) {
      AddsVisit(before, e, doc, parts);
    }
  }

  lemma WalkedBefore(front: seq<Element>, e: Element, children: seq<Element>, doc: map<string, Bindings>, parts: Parts)
    requires children == front + [e] && Walk(children, doc) == Ok(parts)
    requires Walk(front, doc).Ok? ==> Gathered(front, doc, Walk(front, doc).value)
    ensures Walk(front, doc) == Ok(BeforeLast(e, parts, front))
    ensures IsNodeElement(e) ==> parts.nodes != [] && BuildNode(e, doc) == Ok(parts.nodes[|parts.nodes| - 1])
  {
    assert children[..|children| - 1] == front;
    var before := Walk(front, doc).value;
    assert IsNodeElement(e) ==> parts.nodes[..|parts.nodes| - 1] == before.nodes;
  }

  lemma {:induction false} BoundariesIff(pending: seq<Pending>, hosts: set<string>, boundaries: seq<Node>)
    ensures BuildBoundaries(pending, hosts) == Ok(boundaries) <==> OnHosts(pending, hosts, boundaries)
    decreases |pending|
  {
    if pending != [] && boundaries != [] {
      var front, before := pending[..|pending| - 1], boundaries[..|boundaries| - 1];
      BoundariesIff(front, hosts, before);
      BoundariesStepIff(pending, hosts, boundaries);
      OnHostsMore(front, pending[|pending| - 1], pending, hosts, before, boundaries[|boundaries| - 1], boundaries);
    }
  }

  lemma BoundariesStepIff(pending: seq<Pending>, hosts: set<string>, boundaries: seq<Node>)
    requires pending != [] && boundaries != []
    ensures BuildBoundaries(pending, hosts) == Ok(boundaries) <==>
            && BuildBoundaries(pending[..|pending| - 1], hosts) == Ok(boundaries[..|boundaries| - 1])
            && BuildBoundary(pending[|pending| - 1], hosts) == Ok(boundaries[|boundaries| - 1])
  {
    var before, last := boundaries[..|boundaries| - 1], boundaries[|boundaries| - 1];
    assert boundaries == before + [last];
    if BuildBoundaries(pending, hosts) == Ok(boundaries) {
      var built := BuildBoundaries(pending[..|pending| - 1], hosts).value;
      assert (built + [last])[..|built|] == built;
    }
  }

  lemma OnHostsMore(front: seq<Pending>, b: Pending, pending: seq<Pending>, hosts: set<string>, before: seq<Node>, last: Node, boundaries: seq<Node>)
    requires pending == front + [b] && boundaries == before + [last]
    ensures OnHosts(pending, hosts, boundaries) <==>
            && OnHosts(front, hosts, before)
            && b.refusal == None && b.attachedTo in hosts && b.kind.Ok? && last == Boundary(b.id, b.attachedTo, b.kind.value)
  {
    assert forall k :: 0 <= k < |front| ==> pending[k] == front[k];
    assert forall k :: 0 <= k < |before| ==> boundaries[k] == before[k];
    assert pending[|front|] == b && boundaries[|before|] == last;
  }

  lemma TimeoutIffWanted(n: Node, doc: map<string, Bindings>)
    ensures HasTimeout(n, doc) <==> WantsTimeout(n, doc)
  {
    ChannelCallIff(n);
  }

  lemma {:induction false} SynthesizedTimesOut(authored: seq<Node>, doc: map<string, Bindings>) returns (at: seq<nat>)
    ensures TimesOut(authored, doc, at, Synthesized(authored, doc))
  {
    if authored == [] {
      at := [];
    } else {
      var front, n := authored[..|authored| - 1], authored[|authored| - 1];
      at := SynthesizedTimesOut(front, doc);
      TimeoutIffWanted(n, doc);
      TimesOutMore(front, n, authored, doc, at, Synthesized(front, doc));
      if HasTimeout(n, doc) {
        at := at + [|front|];
      }
    }
  }

  lemma TimesOutMore(front: seq<Node>, n: Node, authored: seq<Node>, doc: map<string, Bindings>, at: seq<nat>, ts: seq<Node>)
    requires authored == front + [n] && TimesOut(front, doc, at, ts)
    ensures WantsTimeout(n, doc) ==> TimesOut(authored, doc, at + [|front|], ts + [Boundary(n.id + "#timeout", n.id, TimerBoundary)])
    ensures !WantsTimeout(n, doc) ==> TimesOut(authored, doc, at, ts)
  {
    assert forall k :: 0 <= k < |at| ==> authored[at[k]] == front[at[k]];
    assert forall i: nat :: i in at + [|front|] <==> i in at || i == |front|;
    assert forall i: nat :: i < |front| ==> authored[i] == front[i];
  }

  /** They are the only ones. */
  lemma TimeoutsUnique(authored: seq<Node>, doc: map<string, Bindings>, at: seq<nat>, timeouts: seq<Node>)
    requires TimesOut(authored, doc, at, timeouts)
    ensures timeouts == Synthesized(authored, doc)
  {
    var other := SynthesizedTimesOut(authored, doc);
    RisingUnique(at, other);
  }

  lemma {:induction false} ProjectedMember(nodes: seq<Node>, doc: map<string, Bindings>, x: string)
    ensures x in Projected(nodes, doc) <==> x in doc && HasId(nodes, x) && doc[x] != Bindings(false, false, false, false)
    ensures x in Projected(nodes, doc) ==> Projected(nodes, doc)[x] == doc[x]
  {
    if nodes != [] {
      var front, n := nodes[..|nodes| - 1], nodes[|nodes| - 1];
      assert nodes == front + [n];
      ProjectedMember(front, doc, x);
      HasIdSnoc(front, n, x);
    }
  }

  lemma BindsIff(nodes: seq<Node>, doc: map<string, Bindings>, bindings: map<string, Bindings>)
    ensures Binds(nodes, doc, bindings) <==> bindings == Projected(nodes, doc)
  {
    forall x
      ensures x in Projected(nodes, doc) <==> x in doc && HasId(nodes, x) && doc[x] != Bindings(false, false, false, false)
      ensures x in Projected(nodes, doc) ==> Projected(nodes, doc)[x] == doc[x]
    {
      ProjectedMember(nodes, doc, x);
    }
    if Binds(nodes, doc, bindings) {
      assert bindings.Keys == Projected(nodes, doc).Keys;
    }
  }

  lemma FinishedIff(id: string, nodes: seq<Node>, flows: seq<Flow>, doc: map<string, Bindings>, p: Process)
    requires AllGatedBelow(nodes)
    ensures Finish(id, nodes, flows, doc) == Ok(p) <==> Finished(id, nodes, flows, doc, p)
  {
    var bindings := Projected(nodes, doc);
    BindsIff(nodes, doc, p.bindings);
    if DistinctIds(nodes) {
      ProjectedTidy(nodes, doc);
      ValidateIff(nodes, flows, bindings);
    }
  }

  lemma ProjectedTidy(nodes: seq<Node>, doc: map<string, Bindings>)
    requires AllGatedBelow(nodes) && DistinctIds(nodes)
    ensures Tidy(nodes, Projected(nodes, doc))
  {
    forall x | x in Projected(nodes, doc)
      ensures HasId(nodes, x)
    {
      ProjectedMember(nodes, doc, x);
    }
    forall i | 0 <= i < |nodes|
      ensures nodes[i].Looped? ==> nodes[i].body.id == nodes[i].id
    {
      assert GatedBelow(nodes[i]);
    }
  }

  /** The assembler accepts exactly the containers that load, each as the process it loads to. */
  lemma {:induction false} LoadsIff(id: string, children: seq<Element>, doc: map<string, Bindings>, p: Process)
    ensures Assemble(id, children, doc) == Ok(p) <==> Loads(id, children, doc, p)
    decreases children, 1
  {
    if Assemble(id, children, doc) == Ok(p) {
      var parts := Walk(children, doc).value;
      WalkIff(children, doc, parts);
      AssembledLoads(id, children, doc, p, parts);
    }
    if Loads(id, children, doc, p) {
      var nodes, boundaries, timeouts, at :| ReadsAll(children, nodes, doc) && OnHosts(BoundaryElements(children), Hosts(children), boundaries)
        && TimesOut(nodes + boundaries, doc, at, timeouts) && Finished(id, nodes + boundaries + timeouts, FlowsOf(children), doc, p);
      WalkIff(children, doc, Parts(nodes, FlowsOf(children), Hosts(children), BoundaryElements(children)));
      LoadedAssembles(id, children, doc, p, nodes, boundaries, timeouts, at);
    }
  }

  lemma NodesGated(children: seq<Element>, doc: map<string, Bindings>, parts: Parts, boundaries: seq<Node>)
    requires Walk(children, doc) == Ok(parts) && BuildBoundaries(parts.pending, parts.activities) == Ok(boundaries)
    ensures AllGatedBelow(AllNodes(parts.nodes, boundaries, doc))
  {
    WalkedIsGated(children, doc);
    BoundariesGatedBelow(parts.pending, parts.activities);
    SynthesizedGatedBelow(parts.nodes + boundaries, doc);
  }

  lemma AssembledLoads(id: string, children: seq<Element>, doc: map<string, Bindings>, p: Process, parts: Parts)
    requires Assemble(id, children, doc) == Ok(p) && Walk(children, doc) == Ok(parts) && Gathered(children, doc, parts)
    ensures Loads(id, children, doc, p)
  {
    var boundaries := BuildBoundaries(parts.pending, parts.activities).value;
    BoundariesIff(parts.pending, parts.activities, boundaries);
    var timeouts := Synthesized(parts.nodes + boundaries, doc);
    var at := SynthesizedTimesOut(parts.nodes + boundaries, doc);
    NodesGated(children, doc, parts, boundaries);
    FinishedIff(id, parts.nodes + boundaries + timeouts, parts.flows, doc, p);
    assert ReadsAll(children, parts.nodes, doc) && OnHosts(BoundaryElements(children), Hosts(children), boundaries)
      && TimesOut(parts.nodes + boundaries, doc, at, timeouts)
      && Finished(id, parts.nodes + boundaries + timeouts, FlowsOf(children), doc, p);
  }

  lemma LoadedAssembles(id: string, children: seq<Element>, doc: map<string, Bindings>, p: Process,
                        nodes: seq<Node>, boundaries: seq<Node>, timeouts: seq<Node>, at: seq<nat>)
    requires Walk(children, doc) == Ok(Parts(nodes, FlowsOf(children), Hosts(children), BoundaryElements(children)))
    requires OnHosts(BoundaryElements(children), Hosts(children), boundaries)
    requires TimesOut(nodes + boundaries, doc, at, timeouts)
    requires Finished(id, nodes + boundaries + timeouts, FlowsOf(children), doc, p)
    ensures Assemble(id, children, doc) == Ok(p)
  {
    var parts := Parts(nodes, FlowsOf(children), Hosts(children), BoundaryElements(children));
    BoundariesIff(parts.pending, parts.activities, boundaries);
    TimeoutsUnique(nodes + boundaries, doc, at, timeouts);
    NodesGated(children, doc, parts, boundaries);
    FinishedIff(id, nodes + boundaries + timeouts, parts.flows, doc, p);
  }

  // ---- why a container is refused ------------------------------------------

  /** What is wrong with the nodes and flows of a container the gate refuses for `x`. */
  ghost predicate Defect(x: Refusal, nodes: seq<Node>, flows: seq<Flow>, bindings: map<string, Bindings>) {
    match x
    case TimeoutRequired => exists n :: n in nodes && CallsChannel(n) && !HasTimerBoundary(nodes, n.id)
    case UnsupportedElement => exists n :: n in nodes && n.Race? && (|Leaving(flows, n.id)| < 2 || !ArmsPark(nodes, Leaving(flows, n.id)))
    case TimerUnsupported =>
      || (exists n :: n in nodes && n.Looped? && CallsChannel(n.body))
      || (exists n :: n in nodes && n.Boundary? && n.kind == TimerBoundary && !HostParks(nodes, n.attachedTo))
      || (exists id :: id in bindings && bindings[id].timeout && HasId(nodes, id) && !IsChannelCallId(nodes, id))
    case RetryNotApplicable =>
      || (exists n :: n in nodes && n.Looped? && n.body.Service? && BindingsFor(bindings, n.body.id).retry)
      || (exists n :: n in nodes && n.id in bindings && bindings[n.id].retry
                      && (!n.Service? || (CallsChannel(n) && HasRoutedTimer(nodes, flows, n.id))))
    case DuplicateNodeId => !DistinctIds(nodes)
    case _ => false
  }

  lemma NodeDefect(n: Node, nodes: seq<Node>, flows: seq<Flow>, bindings: map<string, Bindings>)
    requires n in nodes && NodeRefusal(n, nodes, flows, bindings).Some?
    ensures Defect(NodeRefusal(n, nodes, flows, bindings).value, nodes, flows, bindings)
  {
    ChannelCallIff(n);
    if n.Looped? {
      ChannelCallIff(n.body);
    }
  }

  lemma {:induction false} NodesDefect(k: nat, nodes: seq<Node>, flows: seq<Flow>, bindings: map<string, Bindings>)
    requires k <= |nodes| && NodesRefusal(k, nodes, flows, bindings).Some?
    ensures Defect(NodesRefusal(k, nodes, flows, bindings).value, nodes, flows, bindings)
  {
    if NodesRefusal(k - 1, nodes, flows, bindings).Some? {
      NodesDefect(k - 1, nodes, flows, bindings);
    } else {
      NodeDefect(nodes[k - 1], nodes, flows, bindings);
    }
  }

  lemma ValidateDefect(nodes: seq<Node>, flows: seq<Flow>, bindings: map<string, Bindings>)
    requires Validate(nodes, flows, bindings).Some?
    ensures Defect(Validate(nodes, flows, bindings).value, nodes, flows, bindings)
  {
    if NodesRefusal(|nodes|, nodes, flows, bindings).Some? {
      NodesDefect(|nodes|, nodes, flows, bindings);
    } else if id :| id in bindings && bindings[id].retry && RetryMisplaced(nodes, flows, id) {
      var n := Find(nodes, id).value;
      ChannelCallIff(n);
      assert n in nodes && n.id in bindings && bindings[n.id].retry;
    }
  }

  /** What is wrong with an element that cannot be built. */
  ghost predicate Fault(e: Element, doc: map<string, Bindings>, x: Refusal)
    requires IsNodeElement(e)
  {
    || (x == TaskUnknown && e.body.ServiceBody? && IsBlank(e.body.implementation) && !e.body.storeOps)
    || (x == LoopUnbounded && (e.body.TaskBody? || e.body.CallBody? || e.body.ServiceBody? || e.body.ScopeBody?) && e.body.loop == Multi(false))
    || (e.body.ScopeBody? && ScopeFault(e, doc, x))
  }

  ghost predicate ScopeFault(e: Element, doc: map<string, Bindings>, x: Refusal)
    requires e.body.ScopeBody?
  {
    var inner := Assemble(e.id, e.body.children, doc);
    || (x == SubProcessUnsupported && e.body.triggeredByEvent && !ErrorFirst(e.body.children))
    || inner == Err(x)
    || (inner.Ok? && x == TimerUnsupported && exists n :: n in inner.value.nodes && (n.TimerCatch? || CallsChannel(n)))
    || (inner.Ok? && x == RetryNotApplicable && exists n :: n in inner.value.nodes && BindingsFor(inner.value.bindings, n.id).retry)
  }

  lemma {:induction false} InlineFault(nodes: seq<Node>, bindings: map<string, Bindings>, x: Refusal)
    requires InlineRefusal(nodes, bindings) == Some(x)
    ensures (x == TimerUnsupported && exists n :: n in nodes && (n.TimerCatch? || CallsChannel(n)))
         || (x == RetryNotApplicable && exists n :: n in nodes && BindingsFor(bindings, n.id).retry)
  {
    var front, n := nodes[..|nodes| - 1], nodes[|nodes| - 1];
    if InlineRefusal(front, bindings).Some? {
      InlineFault(front, bindings, x);
      assert forall m :: m in front ==> m in nodes;
    } else {
      ChannelCallIff(n);
      assert n in nodes;
    }
  }

  lemma BuildFault(e: Element, doc: map<string, Bindings>, x: Refusal)
    requires IsNodeElement(e) && BuildNode(e, doc) == Err(x)
    ensures Fault(e, doc, x)
  {
    if e.body.ServiceBody? {
      Text.TrimEmptyIff(e.body.implementation);
    } else if e.body.ScopeBody? {
      ScopeNodeFault(e, doc, x);
      if BuildSubProcess(e, doc) == Err(x) {
        SubProcessFault(e, doc, x);
      }
    }
  }

  lemma SubProcessFault(e: Element, doc: map<string, Bindings>, x: Refusal)
    requires e.body.ScopeBody? && BuildSubProcess(e, doc) == Err(x)
    ensures ScopeFault(e, doc, x)
  {
    ErrorFirstIff(e.body.children);
    var inner := Assemble(e.id, e.body.children, doc);
    if inner.Ok? && InlineRefusal(inner.value.nodes, inner.value.bindings) == Some(x) {
      InlineFault(inner.value.nodes, inner.value.bindings, x);
    }
  }

  lemma WrapFault(loop: Loop, m: Node, x: Refusal)
    requires WrapMaybeLoop(loop, m) == Err(x)
    ensures x == LoopUnbounded && loop == Multi(false)
  {
  }

  lemma ScopeNodeFault(e: Element, doc: map<string, Bindings>, x: Refusal)
    requires e.body.ScopeBody? && BuildNode(e, doc) == Err(x)
    ensures BuildSubProcess(e, doc) == Err(x) || (x == LoopUnbounded && e.body.loop == Multi(false))
  {
    if BuildSubProcess(e, doc).Ok? {
      WrapFault(e.body.loop, BuildSubProcess(e, doc).value, x);
    }
  }

  /** An element refuses `x` on its own or cannot be built for it. */
  ghost predicate ElementAtFault(e: Element, doc: map<string, Bindings>, x: Refusal) {
    && !e.body.InertBody? && !e.body.BoundaryBody?
    && (e.refusal == Some(x) || (IsNodeElement(e) && Fault(e, doc, x)))
  }

  lemma {:induction false} WalkFault(children: seq<Element>, doc: map<string, Bindings>, x: Refusal)
    requires Walk(children, doc) == Err(x)
    ensures exists e :: e in children && ElementAtFault(e, doc, x)
  {
    var front, e := children[..|children| - 1], children[|children| - 1];
    if Walk(front, doc).Err? {
      WalkFault(front, doc, x);
      assert forall f :: f in front ==> f in children;
    } else {
      assert e in children;
      if IsNodeElement(e) && BuildNode(e, doc) == Err(x) {
        BuildFault(e, doc, x);
      }
    }
  }

  /** A boundary event refuses `x` on its own, sits on no host, or has no usable kind. */
  ghost predicate BoundaryAtFault(b: Pending, hosts: set<string>, x: Refusal) {
    b.refusal == Some(x) || (x == BoundaryInvalidRef && b.attachedTo !in hosts) || b.kind == Err(x)
  }

  lemma {:induction false} BoundariesFault(pending: seq<Pending>, hosts: set<string>, x: Refusal)
    requires BuildBoundaries(pending, hosts) == Err(x)
    ensures exists b :: b in pending && BoundaryAtFault(b, hosts, x)
  {
    var front, b := pending[..|pending| - 1], pending[|pending| - 1];
    if BuildBoundaries(front, hosts).Err? {
      BoundariesFault(front, hosts, x);
      assert forall c :: c in front ==> c in pending;
    } else {
      assert b in pending && BoundaryAtFault(b, hosts, x);
    }
  }

  /** The nodes the elements read as have the defect `x` names. */
  ghost predicate DefectIn(children: seq<Element>, doc: map<string, Bindings>, x: Refusal) {
    exists nodes, boundaries, timeouts, at ::
      && ReadsAll(children, nodes, doc)
      && OnHosts(BoundaryElements(children), Hosts(children), boundaries)
      && TimesOut(nodes + boundaries, doc, at, timeouts)
      && FinishDefect(x, nodes + boundaries + timeouts, FlowsOf(children), doc)
  }

  ghost predicate FinishDefect(x: Refusal, nodes: seq<Node>, flows: seq<Flow>, doc: map<string, Bindings>) {
    exists bindings :: Binds(nodes, doc, bindings) && Defect(x, nodes, flows, bindings)
  }

  lemma FinishFault(id: string, nodes: seq<Node>, flows: seq<Flow>, doc: map<string, Bindings>, x: Refusal)
    requires Finish(id, nodes, flows, doc) == Err(x)
    ensures FinishDefect(x, nodes, flows, doc)
  {
    var bindings := Projected(nodes, doc);
    BindsIff(nodes, doc, bindings);
    if Validate(nodes, flows, bindings).Some? {
      ValidateDefect(nodes, flows, bindings);
    }
  }

  lemma GatheredFault(id: string, children: seq<Element>, doc: map<string, Bindings>, parts: Parts, boundaries: seq<Node>, x: Refusal)
    requires Gathered(children, doc, parts) && BuildBoundaries(parts.pending, parts.activities) == Ok(boundaries)
    requires Finish(id, AllNodes(parts.nodes, boundaries, doc), parts.flows, doc) == Err(x)
    ensures DefectIn(children, doc, x)
  {
    var timeouts := Synthesized(parts.nodes + boundaries, doc);
    BoundariesIff(parts.pending, parts.activities, boundaries);
    var at := SynthesizedTimesOut(parts.nodes + boundaries, doc);
    FinishFault(id, parts.nodes + boundaries + timeouts, parts.flows, doc, x);
    assert ReadsAll(children, parts.nodes, doc) && OnHosts(BoundaryElements(children), Hosts(children), boundaries)
      && TimesOut(parts.nodes + boundaries, doc, at, timeouts)
      && FinishDefect(x, parts.nodes + boundaries + timeouts, FlowsOf(children), doc);
  }

  /** A refusal names something that is wrong: with an element, a boundary event, or the nodes they read as. */
  lemma RefusedForCause(id: string, children: seq<Element>, doc: map<string, Bindings>, x: Refusal)
    requires Assemble(id, children, doc) == Err(x)
    ensures
      || (exists e :: e in children && ElementAtFault(e, doc, x))
      || (exists b :: b in BoundaryElements(children) && BoundaryAtFault(b, Hosts(children), x))
      || DefectIn(children, doc, x)
  {
    if Walk(children, doc).Err? {
      WalkFault(children, doc, x);
    } else {
      var parts := Walk(children, doc).value;
      WalkIff(children, doc, parts);
      match BuildBoundaries(parts.pending, parts.activities)
      case Err(_) => BoundariesFault(parts.pending, parts.activities, x);
      case Ok(boundaries) => GatheredFault(id, children, doc, parts, boundaries, x);
    }
  }
}

/**
 Longest-path ranking of one diagram scope (rust/crates/bpmn-svg/src/diagram.rs).

 The ranking graph is built from the scope's sequence flows, then ranked by a Kahn-style worklist
 that breaks cycles by seeding the first unprocessed node in document order. The worklist also
 returns a ghost trace: the order in which nodes were processed and which of them were seeds. The
 trace is what the facts about cyclic scopes are stated with; on an acyclic scope the ranks are
 pinned down without it, as lengths of longest paths.
 */
module Ranking {
  import opened Basics

  /** A node id, opaque to the layout: ids are only compared. */
  type Id(==, !new)

  type Adjacency = map<Id, seq<Id>>

  datatype Edge = Edge(src: Id, dst: Id)

  /** A sequence flow of the scope: its own id as text, and the ids it connects. */
  datatype Flow = Flow(name: string, source: Id, target: Id)

  // ---- the ranking graph ---------------------------------------------------

  function Succ(adj: Adjacency, u: Id): seq<Id> {
    if u in adj then adj[u] else []
  }

  /** The ranking edge a flow contributes: box to box, or the boundary event's host to box. */
  function EdgeOf(f: Flow, boxes: set<Id>, hosts: map<Id, Id>): seq<Edge> {
    if f.source in boxes && f.target in boxes then [Edge(f.source, f.target)]
    else if f.source in hosts && hosts[f.source] in boxes && f.target in boxes then
      [Edge(hosts[f.source], f.target)]
    else []
  }

  function RankEdges(flows: seq<Flow>, boxes: set<Id>, hosts: map<Id, Id>): (es: seq<Edge>)
    ensures forall e :: e in es ==> e.src in boxes && e.dst in boxes
  {
    if flows == [] then []
    else RankEdges(flows[..|flows| - 1], boxes, hosts) + EdgeOf(flows[|flows| - 1], boxes, hosts)
  }

  /** The targets of `u`'s edges, in edge order, parallel edges repeated. */
  function Targets(es: seq<Edge>, u: Id): seq<Id> {
    if es == [] then []
    else
      var e := es[|es| - 1];
      Targets(es[..|es| - 1], u) + (if e.src == u then [e.dst] else [])
  }

  /** How many edges enter `v` from outside `done`. */
  function Into(es: seq<Edge>, v: Id, done: set<Id>): nat {
    if es == [] then 0
    else
      var e := es[|es| - 1];
      Into(es[..|es| - 1], v, done) + (if e.dst == v && e.src !in done then 1 else 0)
  }

  /** The adjacency lists and in-degrees are those of one edge list over `nodes`. */
  ghost predicate Matches(nodes: set<Id>, es: seq<Edge>, adj: Adjacency, indeg: map<Id, int>) {
    && (forall e :: e in es ==> e.src in nodes && e.dst in nodes)
    && (forall u :: u in nodes ==> Succ(adj, u) == Targets(es, u))
    && indeg.Keys == nodes
    && (forall v :: v in nodes ==> indeg[v] == Into(es, v, {}))
  }

  method BuildGraph(ids: seq<Id>, flows: seq<Flow>, hosts: map<Id, Id>) returns (adj: Adjacency, indeg: map<Id, int>)
    ensures adj.Keys == Elems(ids)
    ensures Matches(Elems(ids), RankEdges(flows, Elems(ids), hosts), adj, indeg)
  {
    var boxes := set i | i in ids;
    adj := map i | i in boxes :: [];
    indeg := map i | i in boxes :: 0;
    for k := 0 to |flows|
      invariant adj.Keys == boxes && indeg.Keys == boxes
      invariant Matches(boxes, RankEdges(flows[..k], boxes, hosts), adj, indeg)
    {
      var f := flows[k];
      RankEdgesStep(flows, k, boxes, hosts);
      if f.source in boxes && f.target in boxes {
        adj, indeg := PushEdge(boxes, RankEdges(flows[..k], boxes, hosts), adj, indeg, f.source, f.target);
      } else if f.source in hosts {
        var host := hosts[f.source];
        if host in boxes && f.target in boxes {
          adj, indeg := PushEdge(boxes, RankEdges(flows[..k], boxes, hosts), adj, indeg, host, f.target);
        }
      }
    }
    assert flows[..|flows|] == flows;
  }

  lemma RankEdgesStep(flows: seq<Flow>, k: nat, boxes: set<Id>, hosts: map<Id, Id>)
    requires k < |flows|
    ensures RankEdges(flows[..k + 1], boxes, hosts)
         == RankEdges(flows[..k], boxes, hosts) + EdgeOf(flows[k], boxes, hosts)
    ensures EdgeOf(flows[k], boxes, hosts) == [] ==>
              RankEdges(flows[..k + 1], boxes, hosts) == RankEdges(flows[..k], boxes, hosts)
  {
    assert flows[..k + 1][..k] == flows[..k];
  }

  /** Both tables take the edge, so they stay the tables of one edge list. */
  method PushEdge(ghost nodes: set<Id>, ghost es: seq<Edge>, adj: Adjacency, indeg: map<Id, int>, u: Id, v: Id)
    returns (adj': Adjacency, indeg': map<Id, int>)
    requires adj.Keys == nodes
    requires Matches(nodes, es, adj, indeg)
    requires u in nodes && v in nodes
    ensures adj'.Keys == nodes
    ensures Matches(nodes, es + [Edge(u, v)], adj', indeg')
  {
    GraphStep(nodes, es, adj, indeg, Edge(u, v));
    adj' := adj[u := adj[u] + [v]];
    indeg' := indeg[v := indeg[v] + 1];
  }

  /** Pushing one edge onto both tables keeps them the tables of one edge list. */
  lemma GraphStep(nodes: set<Id>, es: seq<Edge>, adj: Adjacency, indeg: map<Id, int>, e: Edge)
    requires adj.Keys == nodes
    requires Matches(nodes, es, adj, indeg)
    requires e.src in nodes && e.dst in nodes
    ensures Matches(nodes, es + [e], adj[e.src := adj[e.src] + [e.dst]], indeg[e.dst := indeg[e.dst] + 1])
  {
  }

  // ---- what the edges stand for --------------------------------------------

  /** The flow leads from box `u` to box `v`: directly, or out of a boundary event on `u` that is no box itself. */
  ghost predicate Leads(f: Flow, boxes: set<Id>, hosts: map<Id, Id>, u: Id, v: Id) {
    && u in boxes && v in boxes && f.target == v
    && (f.source == u || (f.source !in boxes && f.source in hosts && hosts[f.source] == u))
  }

  /** `ts` names, in flow order, the targets of exactly the flows leading from `u`; these are the ones at `at`. */
  ghost predicate Lists(flows: seq<Flow>, boxes: set<Id>, hosts: map<Id, Id>, u: Id, at: seq<nat>, ts: seq<Id>) {
    && |at| == |ts|
    && (forall k :: 0 <= k < |at| ==> at[k] < |flows| && Leads(flows[at[k]], boxes, hosts, u, ts[k]))
    && (forall j, k :: 0 <= j < k < |at| ==> at[j] < at[k])
    && (forall i, v :: 0 <= i < |flows| && Leads(flows[i], boxes, hosts, u, v) ==> i in at)
  }

  lemma ListsMore(front: seq<Flow>, boxes: set<Id>, hosts: map<Id, Id>, u: Id, at: seq<nat>, ts: seq<Id>, f: Flow, flows: seq<Flow>)
    requires Lists(front, boxes, hosts, u, at, ts) && flows == front + [f]
    ensures Leads(f, boxes, hosts, u, f.target) ==> Lists(flows, boxes, hosts, u, at + [|front|], ts + [f.target])
    ensures !Leads(f, boxes, hosts, u, f.target) ==> Lists(flows, boxes, hosts, u, at, ts)
  {
    assert forall k :: 0 <= k < |at| ==> flows[at[k]] == front[at[k]];
  }

  lemma ListsNext(front: seq<Flow>, boxes: set<Id>, hosts: map<Id, Id>, u: Id, at: seq<nat>, ts: seq<Id>, f: Flow, flows: seq<Flow>)
    returns (at': seq<nat>)
    requires Lists(front, boxes, hosts, u, at, ts) && flows == front + [f]
    ensures Lists(flows, boxes, hosts, u, at', if Leads(f, boxes, hosts, u, f.target) then ts + [f.target] else ts)
  {
    ListsMore(front, boxes, hosts, u, at, ts, f, flows);
    at' := if Leads(f, boxes, hosts, u, f.target) then at + [|front|] else at;
  }

  /** A box's list is that of the flows leading from it. */
  lemma {:induction false} ListedFlows(flows: seq<Flow>, boxes: set<Id>, hosts: map<Id, Id>, u: Id) returns (at: seq<nat>)
    ensures Lists(flows, boxes, hosts, u, at, Targets(RankEdges(flows, boxes, hosts), u))
  {
    if flows == [] {
      at := [];
    } else {
      var front, f := flows[..|flows| - 1], flows[|flows| - 1];
      at := ListedFlows(front, boxes, hosts, u);
      assert flows == front + [f];
      FlowAdds(front, boxes, hosts, f, flows, u);
      at := ListsNext(front, boxes, hosts, u, at, Targets(RankEdges(front, boxes, hosts), u), f, flows);
    }
  }

  /** A flow gives one edge, from the box it leads from, or none. */
  lemma EdgeLeads(f: Flow, boxes: set<Id>, hosts: map<Id, Id>, u: Id)
    ensures EdgeOf(f, boxes, hosts) == [Edge(u, f.target)] <==> Leads(f, boxes, hosts, u, f.target)
    ensures EdgeOf(f, boxes, hosts) == [] || exists w :: EdgeOf(f, boxes, hosts) == [Edge(w, f.target)]
  {
    if f.source in boxes && f.target in boxes {
      assert EdgeOf(f, boxes, hosts) == [Edge(f.source, f.target)];
    } else if f.source in hosts && hosts[f.source] in boxes && f.target in boxes {
      assert EdgeOf(f, boxes, hosts) == [Edge(hosts[f.source], f.target)];
    }
    assert EdgeOf(f, boxes, hosts) == [Edge(u, f.target)] ==> EdgeOf(f, boxes, hosts)[0] == Edge(u, f.target);
  }

  lemma EdgesGrow(front: seq<Flow>, boxes: set<Id>, hosts: map<Id, Id>, f: Flow, flows: seq<Flow>)
    requires flows == front + [f]
    ensures RankEdges(flows, boxes, hosts) == RankEdges(front, boxes, hosts) + EdgeOf(f, boxes, hosts)
  {
    assert flows[..|flows| - 1] == front;
  }

  lemma EdgeAdds(es: seq<Edge>, e: Edge, u: Id, v: Id)
    ensures Targets(es + [e], u) == if e.src == u then Targets(es, u) + [e.dst] else Targets(es, u)
    ensures Into(es + [e], v, {}) == Into(es, v, {}) + if e.dst == v then 1 else 0
  {
    assert (es + [e])[..|es|] == es;
  }

  lemma FlowAdds(front: seq<Flow>, boxes: set<Id>, hosts: map<Id, Id>, f: Flow, flows: seq<Flow>, u: Id)
    requires flows == front + [f]
    ensures var ts := Targets(RankEdges(front, boxes, hosts), u);
            Targets(RankEdges(flows, boxes, hosts), u) == if Leads(f, boxes, hosts, u, f.target) then ts + [f.target] else ts
  {
    var es, e := RankEdges(front, boxes, hosts), EdgeOf(f, boxes, hosts);
    EdgesGrow(front, boxes, hosts, f, flows);
    EdgeLeads(f, boxes, hosts, u);
    if e == [] {
      assert es + e == es;
    } else {
      var w :| e == [Edge(w, f.target)];
      EdgeAdds(es, Edge(w, f.target), u, f.target);
      assert w == u <==> e == [Edge(u, f.target)] by {
        assert e[0].src == w;
      }
    }
  }

  ghost predicate Enters(f: Flow, boxes: set<Id>, hosts: map<Id, Id>, v: Id) {
    exists u :: Leads(f, boxes, hosts, u, v)
  }

  /** The flows leading to `v` from some box, by index. */
  ghost function Entering(flows: seq<Flow>, boxes: set<Id>, hosts: map<Id, Id>, v: Id): set<nat> {
    set i: nat | i < |flows| && Enters(flows[i], boxes, hosts, v)
  }

  lemma EnteringGrows(front: seq<Flow>, boxes: set<Id>, hosts: map<Id, Id>, f: Flow, flows: seq<Flow>, v: Id)
    requires flows == front + [f]
    ensures |Entering(flows, boxes, hosts, v)| == |Entering(front, boxes, hosts, v)| + if Enters(f, boxes, hosts, v) then 1 else 0
  {
    if Enters(f, boxes, hosts, v) {
      assert Entering(flows, boxes, hosts, v) == Entering(front, boxes, hosts, v) + {|front|};
    } else {
      assert Entering(flows, boxes, hosts, v) == Entering(front, boxes, hosts, v);
    }
  }

  lemma FlowCounts(front: seq<Flow>, boxes: set<Id>, hosts: map<Id, Id>, f: Flow, flows: seq<Flow>, v: Id)
    requires flows == front + [f]
    ensures Into(RankEdges(flows, boxes, hosts), v, {}) ==
            Into(RankEdges(front, boxes, hosts), v, {}) + if Enters(f, boxes, hosts, v) then 1 else 0
  {
    var es, e := RankEdges(front, boxes, hosts), EdgeOf(f, boxes, hosts);
    EdgesGrow(front, boxes, hosts, f, flows);
    forall u
      ensures Leads(f, boxes, hosts, u, v) <==> f.target == v && e == [Edge(u, v)]
    {
      EdgeLeads(f, boxes, hosts, u);
    }
    EdgeLeads(f, boxes, hosts, f.source);
    if e == [] {
      assert es + e == es;
    } else {
      var w :| e == [Edge(w, f.target)];
      EdgeAdds(es, Edge(w, f.target), w, v);
      assert Leads(f, boxes, hosts, w, v) <==> f.target == v;
    }
  }

  /** A box's in-degree counts the flows leading to it. */
  lemma {:induction false} CountedFlows(flows: seq<Flow>, boxes: set<Id>, hosts: map<Id, Id>, v: Id)
    ensures Into(RankEdges(flows, boxes, hosts), v, {}) == |Entering(flows, boxes, hosts, v)|
  {
    if flows == [] {
      assert Entering(flows, boxes, hosts, v) == {};
    } else {
      var front, f := flows[..|flows| - 1], flows[|flows| - 1];
      CountedFlows(front, boxes, hosts, v);
      FlowCounts(front, boxes, hosts, f, flows, v);
      EnteringGrows(front, boxes, hosts, f, flows, v);
    }
  }

  lemma {:induction false} TargetsAreEdges(es: seq<Edge>, u: Id, v: Id)
    ensures v in Targets(es, u) <==> Edge(u, v) in es
  {
    if es != [] {
      var rest := es[..|es| - 1];
      TargetsAreEdges(rest, u, v);
      assert es == rest + [es[|es| - 1]];
    }
  }

  /** Every edge into `v` starts inside `done` exactly when the open count is zero. */
  lemma {:induction false} IntoZero(es: seq<Edge>, v: Id, done: set<Id>)
    ensures Into(es, v, done) == 0 <==> forall e :: e in es && e.dst == v ==> e.src in done
  {
    if es != [] {
      var rest, last := es[..|es| - 1], es[|es| - 1];
      IntoZero(rest, v, done);
      assert es == rest + [last];
      assert last in es;
    }
  }

  /** Processing `u` closes one open edge into `v` per occurrence of `v` in `u`'s list. */
  lemma {:induction false} IntoStep(es: seq<Edge>, v: Id, done: set<Id>, u: Id)
    requires u !in done
    ensures Into(es, v, done + {u}) == Into(es, v, done) - multiset(Targets(es, u))[v]
  {
    if es != [] {
      IntoStep(es[..|es| - 1], v, done, u);
    }
  }

  // ---- paths ---------------------------------------------------------------

  ghost predicate IsPath(nodes: set<Id>, adj: Adjacency, p: seq<Id>) {
    && p != []
    && (forall i :: 0 <= i < |p| ==> p[i] in nodes)
    && (forall i :: 0 < i < |p| ==> p[i] in Succ(adj, p[i - 1]))
  }

  ghost predicate EndsAt(p: seq<Id>, v: Id) {
    p != [] && p[|p| - 1] == v
  }

  ghost predicate Acyclic(nodes: set<Id>, adj: Adjacency) {
    forall p :: IsPath(nodes, adj, p) && |p| >= 2 ==> p[0] != p[|p| - 1]
  }

  /** `rank[v]` is the length of the longest path reaching `v`. */
  ghost predicate LongestPaths(nodes: set<Id>, adj: Adjacency, rank: map<Id, nat>) {
    && rank.Keys == nodes
    && (forall p :: IsPath(nodes, adj, p) ==> |p| - 1 <= rank[p[|p| - 1]])
    && (forall v :: v in nodes ==> exists p :: IsPath(nodes, adj, p) && EndsAt(p, v) && |p| - 1 == rank[v])
  }

  ghost predicate StrictAlongEdges(nodes: set<Id>, adj: Adjacency, rank: map<Id, nat>)
    requires nodes <= rank.Keys
  {
    forall u, v :: u in nodes && v in nodes && v in Succ(adj, u) ==> rank[u] < rank[v]
  }

  /** Closed successor lists: ranking looks up the rank of every successor of a node. */
  ghost predicate Closed(nodes: set<Id>, adj: Adjacency) {
    forall u, v :: u in nodes && v in Succ(adj, u) ==> v in nodes
  }

  // ---- traces --------------------------------------------------------------

  /** One processed node, and whether it was a cycle-breaking seed. */
  datatype Step = Step(node: Id, seeded: bool)

  ghost function Done(tr: seq<Step>): set<Id> {
    if tr == [] then {} else Done(tr[..|tr| - 1]) + {tr[|tr| - 1].node}
  }

  /** The rank of `v` once the nodes of `tr` have been processed in order. */
  ghost function RankAt(adj: Adjacency, tr: seq<Step>, v: Id): nat {
    if tr == [] then 0
    else
      var front, u := tr[..|tr| - 1], tr[|tr| - 1].node;
      if v in Succ(adj, u) && RankAt(adj, front, v) < RankAt(adj, front, u) + 1 then RankAt(adj, front, u) + 1
      else RankAt(adj, front, v)
  }

  ghost predicate RanksOf(nodes: set<Id>, adj: Adjacency, tr: seq<Step>, rank: map<Id, nat>) {
    rank.Keys == nodes && forall v :: v in nodes ==> rank[v] == RankAt(adj, tr, v)
  }

  /** `u` is the first unprocessed node in document order. */
  ghost predicate FirstToSeed(ids: seq<Id>, done: set<Id>, u: Id) {
    u !in done && exists i :: 0 <= i < |ids| && ids[i] == u && forall j :: 0 <= j < i ==> ids[j] in done
  }

  /** Each step takes an unprocessed node, a seed the first such node in document order. */
  ghost predicate Legal(ids: seq<Id>, tr: seq<Step>) {
    tr != [] ==>
      var front, last := tr[..|tr| - 1], tr[|tr| - 1];
      && Legal(ids, front)
      && last.node in ids && last.node !in Done(front)
      && (last.seeded ==> FirstToSeed(ids, Done(front), last.node))
  }

  ghost predicate HasPredecessor(adj: Adjacency, open: set<Id>, w: Id) {
    exists u :: u in open && w in Succ(adj, u)
  }

  /** Every member has a predecessor that is a member too. */
  ghost predicate HasPredecessors(adj: Adjacency, open: set<Id>) {
    forall w {:trigger HasPredecessor(adj, open, w)} :: w in open ==> HasPredecessor(adj, open, w)
  }

  /** A queued node comes after all its predecessors; a seed only when every unprocessed node still waits for one. */
  ghost predicate MayTake(nodes: set<Id>, adj: Adjacency, done: set<Id>, u: Id, seeded: bool) {
    if seeded then HasPredecessors(adj, nodes - done)
    else forall x :: x in nodes && u in Succ(adj, x) ==> x in done
  }

  ghost predicate KahnOrder(nodes: set<Id>, adj: Adjacency, tr: seq<Step>) {
    tr != [] ==>
      var front, last := tr[..|tr| - 1], tr[|tr| - 1];
      KahnOrder(nodes, adj, front) && MayTake(nodes, adj, Done(front), last.node, last.seeded)
  }

  ghost predicate NoSeeds(tr: seq<Step>) {
    forall i :: 0 <= i < |tr| ==> !tr[i].seeded
  }

  // ---- the worklist --------------------------------------------------------

  function Left(remaining: map<Id, int>, v: Id): int {
    if v in remaining then remaining[v] else 0
  }

  /** The first id not yet processed, in document order. */
  function FirstUnprocessed(ids: seq<Id>, done: set<Id>): (r: Option<nat>)
    ensures r.None? <==> forall i :: 0 <= i < |ids| ==> ids[i] in done
    ensures r.Some? ==> r.value < |ids| && FirstToSeed(ids, done, ids[r.value])
  {
    if ids == [] then None
    else if ids[0] !in done then assert FirstToSeed(ids, done, ids[0]); Some(0)
    else
      match FirstUnprocessed(ids[1..], done)
      case None => None
      case Some(i) => FirstFurther(ids, done, ids[i + 1]); Some(i + 1)
  }

  lemma FirstFurther(ids: seq<Id>, done: set<Id>, u: Id)
    requires ids != [] && ids[0] in done
    requires FirstToSeed(ids[1..], done, u)
    ensures FirstToSeed(ids, done, u)
  {
  }

  /** The open-edge counts once an edge to each of `succ` is closed. */
  function Closing(left: map<Id, int>, succ: seq<Id>): map<Id, int> {
    if succ == [] then left
    else
      var l, v := Closing(left, succ[..|succ| - 1]), succ[|succ| - 1];
      l[v := Left(l, v) - 1]
  }

  /** The unprocessed ones of `succ` left without open edges, each at the edge that closed it or one after. */
  function Readied(succ: seq<Id>, done: set<Id>, left: map<Id, int>): seq<Id> {
    if succ == [] then []
    else
      var v := succ[|succ| - 1];
      Readied(succ[..|succ| - 1], done, left) + IfReady(v, done, Left(Closing(left, succ), v))
  }

  function IfReady(v: Id, done: set<Id>, left: int): seq<Id> {
    if left <= 0 && v !in done then [v] else []
  }

  /** The ids without incoming edges, in document order. */
  function Ready(ids: seq<Id>, indeg: map<Id, int>): seq<Id> {
    if ids == [] then []
    else Ready(ids[..|ids| - 1], indeg) + if Left(indeg, ids[|ids| - 1]) == 0 then [ids[|ids| - 1]] else []
  }

  /** They are all the ids without incoming edges, each where the document has it. */
  lemma {:induction false} ReadyInOrder(ids: seq<Id>, indeg: map<Id, int>, free: Id -> bool) returns (at: seq<nat>)
    requires forall v :: free(v) <==> v !in indeg || indeg[v] == 0
    ensures Picks(ids, at, Ready(ids, indeg)) && Elems(at) == Where(ids, free)
  {
    if ids == [] {
      at := [];
    } else {
      var front, v := ids[..|ids| - 1], ids[|ids| - 1];
      at := ReadyInOrder(front, indeg, free);
      at := PickWhere(front, at, Ready(front, indeg), ids, v, free);
    }
  }

  lemma {:induction false} ClosingCounts(left: map<Id, int>, succ: seq<Id>, v: Id)
    ensures Left(Closing(left, succ), v) == Left(left, v) - multiset(succ)[v]
  {
    if succ != [] {
      var front, w := succ[..|succ| - 1], succ[|succ| - 1];
      ClosingCounts(left, front, v);
      ClosingCounts(left, front, w);
      assert succ == front + [w];
    }
  }

  /** Closing the edge at index `i`, after those before it, leaves its target unprocessed and without open edges. */
  ghost predicate ClosesLast(succ: seq<Id>, done: set<Id>, left: map<Id, int>, i: nat)
    requires i < |succ|
  {
    succ[i] !in done && Left(left, succ[i]) <= multiset(succ[..i + 1])[succ[i]]
  }

  lemma ClosesLastPrefix(front: seq<Id>, succ: seq<Id>, done: set<Id>, left: map<Id, int>, i: nat)
    requires i < |front| && front <= succ
    ensures ClosesLast(succ, done, left, i) <==> ClosesLast(front, done, left, i)
  {
    assert succ[..i + 1] == front[..i + 1];
  }

  lemma ReadiedGrows(front: seq<Id>, succ: seq<Id>, done: set<Id>, left: map<Id, int>, last: bool)
    requires succ != [] && front == succ[..|succ| - 1] && last == ClosesLast(succ, done, left, |front|)
    ensures Readied(succ, done, left) ==
            if last then Readied(front, done, left) + [succ[|front|]] else Readied(front, done, left)
  {
    ClosingCounts(left, succ, succ[|succ| - 1]);
    assert succ[..|succ|] == succ;
  }

  ghost function LastEdges(succ: seq<Id>, done: set<Id>, left: map<Id, int>): set<nat> {
    set i: nat | i < |succ| && ClosesLast(succ, done, left, i)
  }

  lemma LastEdgesGrow(front: seq<Id>, succ: seq<Id>, done: set<Id>, left: map<Id, int>, last: bool)
    requires succ != [] && front == succ[..|succ| - 1] && last == ClosesLast(succ, done, left, |front|)
    ensures LastEdges(succ, done, left) == LastEdges(front, done, left) + if last then {|front|} else {}
  {
    forall i: nat | i < |front|
      ensures ClosesLast(succ, done, left, i) <==> ClosesLast(front, done, left, i)
    {
      ClosesLastPrefix(front, succ, done, left, i);
    }
  }

  /** A successor is queued at exactly those edges, in their order. */
  lemma {:induction false} ReadiedInOrder(succ: seq<Id>, done: set<Id>, left: map<Id, int>) returns (at: seq<nat>)
    ensures Picks(succ, at, Readied(succ, done, left))
    ensures Elems(at) == LastEdges(succ, done, left)
  {
    if succ == [] {
      at := [];
    } else {
      at := ReadiedInOrder(succ[..|succ| - 1], done, left);
      at := ReadiedNext(succ[..|succ| - 1], succ, done, left, at);
    }
  }

  lemma ReadiedNext(front: seq<Id>, succ: seq<Id>, done: set<Id>, left: map<Id, int>, at: seq<nat>) returns (at': seq<nat>)
    requires succ != [] && front == succ[..|succ| - 1]
    requires Picks(front, at, Readied(front, done, left)) && Elems(at) == LastEdges(front, done, left)
    ensures Picks(succ, at', Readied(succ, done, left)) && Elems(at') == LastEdges(succ, done, left)
  {
    var last := ClosesLast(succ, done, left, |front|);
    ReadiedGrows(front, succ, done, left, last);
    LastEdgesGrow(front, succ, done, left, last);
    at' := PickMarked(front, at, Readied(front, done, left), succ, last, LastEdges(front, done, left),
                      Readied(succ, done, left), LastEdges(succ, done, left));
  }

  // ---- first in, first out -------------------------------------------------

  /** The open-edge counts once the nodes of `tr` have been processed. */
  ghost function LeftAt(adj: Adjacency, indeg: map<Id, int>, tr: seq<Step>): map<Id, int> {
    if tr == [] then indeg else Closing(LeftAt(adj, indeg, tr[..|tr| - 1]), Succ(adj, tr[|tr| - 1].node))
  }

  /** All that was ever queued, in the order it was. */
  ghost function Queued(ids: seq<Id>, adj: Adjacency, indeg: map<Id, int>, tr: seq<Step>): seq<Id> {
    if tr == [] then Ready(ids, indeg)
    else
      var front := tr[..|tr| - 1];
      Queued(ids, adj, indeg, front) + Readied(Succ(adj, tr[|tr| - 1].node), Done(tr), LeftAt(adj, indeg, front))
  }

  /** Each step takes the unprocessed node queued first, or seeds when there is none. */
  ghost predicate InTurn(ids: seq<Id>, adj: Adjacency, indeg: map<Id, int>, tr: seq<Step>) {
    tr != [] ==>
      var front, last := tr[..|tr| - 1], tr[|tr| - 1];
      InTurn(ids, adj, indeg, front) && TakesNext(Queued(ids, adj, indeg, front), Done(front), last)
  }

  ghost predicate TakesNext(queued: seq<Id>, done: set<Id>, step: Step) {
    if step.seeded then forall x :: x in queued ==> x in done else FirstToSeed(queued, done, step.node)
  }

  /** `queue` is what is left of `queued` when a part already processed is taken off its front. */
  ghost predicate LeftOf(queued: seq<Id>, done: set<Id>, queue: seq<Id>) {
    exists k :: 0 <= k <= |queued| && queued[k..] == queue && forall x :: x in queued[..k] ==> x in done
  }

  /** The loop's counts and queue are those its trace accounts for. */
  ghost predicate Accounted(ids: seq<Id>, adj: Adjacency, indeg: map<Id, int>, remaining: map<Id, int>, queue: seq<Id>, tr: seq<Step>) {
    && remaining == LeftAt(adj, indeg, tr)
    && LeftOf(Queued(ids, adj, indeg, tr), Done(tr), queue)
    && InTurn(ids, adj, indeg, tr)
  }

  lemma AccountedStart(ids: seq<Id>, adj: Adjacency, indeg: map<Id, int>)
    ensures Accounted(ids, adj, indeg, indeg, Ready(ids, indeg), [])
  {
    assert Ready(ids, indeg)[0..] == Ready(ids, indeg);
  }

  lemma SkipKeeps(queued: seq<Id>, done: set<Id>, queue: seq<Id>, u: Id, rest: seq<Id>)
    requires LeftOf(queued, done, queue) && queue == [u] + rest && u in done
    ensures LeftOf(queued, done, rest)
  {
    var k :| 0 <= k <= |queued| && queued[k..] == queue && forall x :: x in queued[..k] ==> x in done;
    TakeNext(queued, k);
    assert queued[k] == queued[k..][0] == u && queued[k + 1..] == queued[k..][1..] == rest;
  }

  lemma TakeIsNext(ids: seq<Id>, queued: seq<Id>, done: set<Id>, queue: seq<Id>, u: Id, rest: seq<Id>, more: seq<Id>)
    requires LeftOf(queued, done, queue) && u !in done && TakenFrom(ids, done, queue, u, rest)
    ensures TakesNext(queued, done, Step(u, queue == []))
    ensures LeftOf(queued + more, done + {u}, rest + more)
  {
    var k :| 0 <= k <= |queued| && queued[k..] == queue && forall x :: x in queued[..k] ==> x in done;
    if queue == [] {
      assert k == |queued| && queued[..k] == queued;
      LeftOfMore(queued, done + {u}, k, more);
    } else {
      HeadIsNext(queued, done, k, u, rest, more);
    }
  }

  lemma HeadIsNext(queued: seq<Id>, done: set<Id>, k: nat, u: Id, rest: seq<Id>, more: seq<Id>)
    requires k <= |queued| && queued[k..] == [u] + rest && u !in done && forall x :: x in queued[..k] ==> x in done
    ensures FirstToSeed(queued, done, u)
    ensures LeftOf(queued + more, done + {u}, rest + more)
  {
    TakeNext(queued, k);
    assert queued[k] == queued[k..][0] == u && queued[k + 1..] == queued[k..][1..] == rest;
    assert forall j :: 0 <= j < k ==> queued[j] in queued[..k];
    LeftOfMore(queued, done + {u}, k + 1, more);
  }

  lemma LeftOfMore(queued: seq<Id>, done: set<Id>, k: nat, more: seq<Id>)
    requires k <= |queued| && forall x :: x in queued[..k] ==> x in done
    ensures LeftOf(queued + more, done, queued[k..] + more)
  {
    assert (queued + more)[k..] == queued[k..] + more && (queued + more)[..k] == queued[..k];
  }

  lemma TraceMore(ids: seq<Id>, adj: Adjacency, indeg: map<Id, int>, tr: seq<Step>, step: Step)
    ensures LeftAt(adj, indeg, tr + [step]) == Closing(LeftAt(adj, indeg, tr), Succ(adj, step.node))
    ensures Done(tr + [step]) == Done(tr) + {step.node}
    ensures Queued(ids, adj, indeg, tr + [step]) ==
            Queued(ids, adj, indeg, tr) + Readied(Succ(adj, step.node), Done(tr) + {step.node}, LeftAt(adj, indeg, tr))
    ensures InTurn(ids, adj, indeg, tr + [step]) <==>
            InTurn(ids, adj, indeg, tr) && TakesNext(Queued(ids, adj, indeg, tr), Done(tr), step)
  {
    assert (tr + [step])[..|tr|] == tr;
  }

  lemma AccountedStep(ids: seq<Id>, adj: Adjacency, indeg: map<Id, int>, remaining: map<Id, int>, queue: seq<Id>, tr: seq<Step>,
                      u: Id, rest: seq<Id>, remaining': map<Id, int>, queue': seq<Id>)
    requires Accounted(ids, adj, indeg, remaining, queue, tr) && u !in Done(tr) && TakenFrom(ids, Done(tr), queue, u, rest)
    requires remaining' == Closing(remaining, Succ(adj, u))
    requires queue' == rest + Readied(Succ(adj, u), Done(tr) + {u}, remaining)
    ensures Accounted(ids, adj, indeg, remaining', queue', tr + [Step(u, queue == [])])
  {
    TraceMore(ids, adj, indeg, tr, Step(u, queue == []));
    TakeIsNext(ids, Queued(ids, adj, indeg, tr), Done(tr), queue, u, rest, Readied(Succ(adj, u), Done(tr) + {u}, remaining));
  }

  /** A step by the rules: the unprocessed node queued first or, without one, the first of the document. */
  ghost predicate Chosen(ids: seq<Id>, queued: seq<Id>, done: set<Id>, step: Step) {
    TakesNext(queued, done, step) && (step.seeded ==> FirstToSeed(ids, done, step.node))
  }

  lemma SameNext(ids: seq<Id>, queued: seq<Id>, done: set<Id>, a: Step, b: Step)
    requires Chosen(ids, queued, done, a) && Chosen(ids, queued, done, b)
    ensures a == b
  {
    assert a.seeded == b.seeded;
    SameFirstOpen(if a.seeded then ids else queued, done, a.node, b.node);
  }

  lemma SameFirstOpen(ids: seq<Id>, done: set<Id>, u: Id, v: Id)
    requires FirstToSeed(ids, done, u) && FirstToSeed(ids, done, v)
    ensures u == v
  {
    var i :| 0 <= i < |ids| && ids[i] == u && forall j :: 0 <= j < i ==> ids[j] in done;
    var k :| 0 <= k < |ids| && ids[k] == v && forall j :: 0 <= j < k ==> ids[j] in done;
    assert i == k;
  }

  lemma {:induction false} SameTrace(ids: seq<Id>, adj: Adjacency, indeg: map<Id, int>, a: seq<Step>, b: seq<Step>)
    requires InTurn(ids, adj, indeg, a) && InTurn(ids, adj, indeg, b) && Legal(ids, a) && Legal(ids, b) && |a| == |b|
    ensures a == b
  {
    if a != [] {
      SameTrace(ids, adj, indeg, a[..|a| - 1], b[..|b| - 1]);
      SameStep(ids, adj, indeg, a[..|a| - 1], a, b);
    }
  }

  lemma SameStep(ids: seq<Id>, adj: Adjacency, indeg: map<Id, int>, front: seq<Step>, a: seq<Step>, b: seq<Step>)
    requires InTurn(ids, adj, indeg, a) && InTurn(ids, adj, indeg, b) && Legal(ids, a) && Legal(ids, b)
    requires a != [] && b != [] && a[..|a| - 1] == front && b[..|b| - 1] == front
    ensures a == b
  {
    LastChosen(ids, adj, indeg, front, a, Queued(ids, adj, indeg, front), Done(front));
    LastChosen(ids, adj, indeg, front, b, Queued(ids, adj, indeg, front), Done(front));
    SameLast(ids, front, a, b, Queued(ids, adj, indeg, front), Done(front));
  }

  lemma LastChosen(ids: seq<Id>, adj: Adjacency, indeg: map<Id, int>, front: seq<Step>, tr: seq<Step>, queued: seq<Id>, done: set<Id>)
    requires InTurn(ids, adj, indeg, tr) && Legal(ids, tr) && tr != [] && tr[..|tr| - 1] == front
    requires queued == Queued(ids, adj, indeg, front) && done == Done(front)
    ensures Chosen(ids, queued, done, tr[|tr| - 1])
  {
  }

  lemma SameLast(ids: seq<Id>, front: seq<Step>, a: seq<Step>, b: seq<Step>, queued: seq<Id>, done: set<Id>)
    requires a != [] && b != [] && a[..|a| - 1] == front && b[..|b| - 1] == front
    requires Chosen(ids, queued, done, a[|a| - 1]) && Chosen(ids, queued, done, b[|b| - 1])
    ensures a == b
  {
    SameNext(ids, queued, done, a[|a| - 1], b[|b| - 1]);
    assert a == front + [a[|a| - 1]] && b == front + [b[|b| - 1]];
  }

  /** On every graph, cyclic ones included, the order of processing and so every rank is determined. */
  lemma RanksDetermined(ids: seq<Id>, adj: Adjacency, indeg: map<Id, int>, a: seq<Step>, b: seq<Step>,
                        rank: map<Id, nat>, rank': map<Id, nat>)
    requires Legal(ids, a) && InTurn(ids, adj, indeg, a) && Done(a) == Elems(ids) && RanksOf(Elems(ids), adj, a, rank)
    requires Legal(ids, b) && InTurn(ids, adj, indeg, b) && Done(b) == Elems(ids) && RanksOf(Elems(ids), adj, b, rank')
    ensures a == b && rank == rank'
  {
    TraceLength(ids, a);
    TraceLength(ids, b);
    SameTrace(ids, adj, indeg, a, b);
  }

  // ---- the loops -----------------------------------------------------------

  /** What the inner loop does to the open-edge counts and the queue. */
  ghost predicate Decremented(done: set<Id>, succ: seq<Id>, left0: map<Id, int>, queue0: seq<Id>, left: map<Id, int>, queue: seq<Id>) {
    && (forall v :: Left(left, v) == Left(left0, v) - multiset(succ)[v])
    && queue0 <= queue
    && (forall i :: |queue0| <= i < |queue| ==> queue[i] in succ && queue[i] !in done && Left(left, queue[i]) <= 0)
    && (forall v :: v in succ && v !in done && Left(left, v) <= 0 ==> v in queue)
  }

  /** The ranks of the listed nodes are raised to `next` where they are lower. */
  ghost predicate Raised(succ: seq<Id>, next: nat, rank0: map<Id, nat>, rank: map<Id, nat>) {
    && rank.Keys == rank0.Keys
    && (forall v :: v in rank0 ==> rank[v] == if v in succ && rank0[v] < next then next else rank0[v])
  }

  lemma RaiseOne(front: seq<Id>, v: Id, next: nat, rank0: map<Id, nat>, rank: map<Id, nat>, succ: seq<Id>)
    requires Raised(front, next, rank0, rank) && v in rank && succ == front + [v]
    ensures Raised(succ, next, rank0, if rank[v] < next then rank[v := next] else rank)
  {
  }

  /** The inner loop's whole effect: listed nodes rise to `next`, and their counts and the queue follow. */
  ghost predicate Relaxed(succ: seq<Id>, next: nat, done: set<Id>, rank0: map<Id, nat>, left0: map<Id, int>, queue0: seq<Id>,
                          rank: map<Id, nat>, left: map<Id, int>, queue: seq<Id>)
  {
    && Raised(succ, next, rank0, rank)
    && Decremented(done, succ, left0, queue0, left, queue)
    && left == Closing(left0, succ) && queue == queue0 + Readied(succ, done, left0)
  }

  lemma DecrementStep(done: set<Id>, succ: seq<Id>, left0: map<Id, int>, queue0: seq<Id>, left: map<Id, int>, queue: seq<Id>, v: Id,
                      both: seq<Id>, left': map<Id, int>, queue': seq<Id>)
    requires Decremented(done, succ, left0, queue0, left, queue)
    requires both == succ + [v] && left' == left[v := Left(left, v) - 1] && queue' == queue + IfReady(v, done, left'[v])
    ensures Decremented(done, both, left0, queue0, left', queue')
  {
  }

  lemma ReadyMore(queue0: seq<Id>, readied: seq<Id>, more: seq<Id>)
    ensures queue0 + (readied + more) == queue0 + readied + more
  {
  }

  lemma {:induction false} ClosingDecrements(done: set<Id>, succ: seq<Id>, left0: map<Id, int>, queue0: seq<Id>)
    ensures Decremented(done, succ, left0, queue0, Closing(left0, succ), queue0 + Readied(succ, done, left0))
  {
    if succ == [] {
      assert queue0 + [] == queue0;
    } else {
      var front, v := succ[..|succ| - 1], succ[|succ| - 1];
      ClosingDecrements(done, front, left0, queue0);
      ReadyMore(queue0, Readied(front, done, left0), IfReady(v, done, Left(Closing(left0, succ), v)));
      DecrementStep(done, front, left0, queue0, Closing(left0, front), queue0 + Readied(front, done, left0), v,
                    succ, Closing(left0, succ), queue0 + Readied(succ, done, left0));
    }
  }

  /** One more edge closed. */
  lemma CloseOne(succ: seq<Id>, k: nat, done: set<Id>, left0: map<Id, int>, queue0: seq<Id>, left: map<Id, int>, left': map<Id, int>)
    requires k < |succ| && left == Closing(left0, succ[..k]) && left' == left[succ[k] := Left(left, succ[k]) - 1]
    ensures Closing(left0, succ[..k + 1]) == left'
    ensures queue0 + Readied(succ[..k + 1], done, left0) ==
            queue0 + Readied(succ[..k], done, left0) + IfReady(succ[k], done, left'[succ[k]])
  {
    TakeNext(succ, k);
    ReadyMore(queue0, Readied(succ[..k], done, left0), IfReady(succ[k], done, left'[succ[k]]));
  }

  /** The inner loop of one worklist step: relax every successor, and queue those left with no open edge. */
  method Relax(succ: seq<Id>, next: nat, done: set<Id>, rank0: map<Id, nat>, left0: map<Id, int>, queue0: seq<Id>)
    returns (rank: map<Id, nat>, left: map<Id, int>, queue: seq<Id>)
    requires forall v :: v in succ ==> v in rank0
    ensures Relaxed(succ, next, done, rank0, left0, queue0, rank, left, queue)
  {
    rank, left, queue := rank0, left0, queue0;
    for k := 0 to |succ|
      invariant Raised(succ[..k], next, rank0, rank)
      invariant left == Closing(left0, succ[..k]) && queue == queue0 + Readied(succ[..k], done, left0)
    {
      var v := succ[k];
      TakeNext(succ, k);
      RaiseOne(succ[..k], v, next, rank0, rank, succ[..k + 1]);
      CloseOne(succ, k, done, left0, queue0, left, left[v := Left(left, v) - 1]);
      if rank[v] < next {
        rank := rank[v := next];
      }
      left := left[v := Left(left, v) - 1];
      if left[v] <= 0 && v !in done {
        queue := queue + [v];
      }
    }
    assert succ[..|succ|] == succ;
    ClosingDecrements(done, succ, left0, queue0);
  }

  /** The queue before the first step: the ids without incoming edges, in document order. */
  method InitialQueue(ids: seq<Id>, indeg: map<Id, int>) returns (queue: seq<Id>)
    ensures queue == Ready(ids, indeg)
    ensures forall q :: q in queue <==> q in ids && Left(indeg, q) == 0
  {
    queue := [];
    for k := 0 to |ids|
      invariant queue == Ready(ids[..k], indeg)
      invariant forall q :: q in queue <==> q in ids[..k] && Left(indeg, q) == 0
    {
      TakeNext(ids, k);
      if Left(indeg, ids[k]) == 0 {
        queue := queue + [ids[k]];
      }
    }
    assert ids[..|ids|] == ids;
  }

  /** The open-edge counts are exact, and the queue holds every unprocessed node without open edges. */
  ghost predicate Counted(nodes: set<Id>, es: seq<Edge>, remaining: map<Id, int>, done: set<Id>, queue: seq<Id>) {
    && (forall v :: v in nodes ==> Left(remaining, v) == Into(es, v, done))
    && (forall q :: q in queue ==> Left(remaining, q) <= 0)
    && (forall v :: v in nodes && v !in done && Left(remaining, v) <= 0 ==> v in queue)
  }

  /** Rank every node one column right of its deepest predecessor, whatever the graph. */
  method LongestPathRanks(ids: seq<Id>, adj: Adjacency, indeg: map<Id, int>, ghost es: seq<Edge>)
    returns (rank: map<Id, nat>, ghost tr: seq<Step>)
    requires Closed(Elems(ids), adj)
    ensures RanksOf(Elems(ids), adj, tr, rank)
    // Every graph, cycles and self-loops included: each node is processed exactly once.
    ensures Legal(ids, tr) && Done(tr) == Elems(ids)
    // First in, first out.
    ensures InTurn(ids, adj, indeg, tr)
    // With in-degrees that match the lists, only a stuck worklist seeds.
    ensures Matches(Elems(ids), es, adj, indeg) ==> KahnOrder(Elems(ids), adj, tr)
    ensures BoundedByCount(Elems(ids), rank) && RaisedByPredecessor(Elems(ids), adj, rank)
    ensures Matches(Elems(ids), es, adj, indeg) && Acyclic(Elems(ids), adj) ==>
              StrictAlongEdges(Elems(ids), adj, rank) && LongestPaths(Elems(ids), adj, rank)
  {
    rank, tr := RunWorklist(ids, adj, indeg, es);
    RankFacts(ids, adj, tr, rank);
  }

  method RunWorklist(ids: seq<Id>, adj: Adjacency, indeg: map<Id, int>, ghost es: seq<Edge>)
    returns (rank: map<Id, nat>, ghost tr: seq<Step>)
    requires Closed(Elems(ids), adj)
    ensures RanksOf(Elems(ids), adj, tr, rank)
    ensures Legal(ids, tr) && Done(tr) == Elems(ids) && InTurn(ids, adj, indeg, tr)
    ensures Matches(Elems(ids), es, adj, indeg) ==> KahnOrder(Elems(ids), adj, tr)
  {
    ghost var nodes := Elems(ids);
    rank := map i | i in ids :: 0;
    var remaining := indeg;
    var queue := InitialQueue(ids, indeg);
    var processed: set<Id> := {};
    tr := [];
    StartStep(ids, adj, indeg, es, rank, queue);
    while |processed| < |ids|
      invariant Worklist(ids, nodes, adj, indeg, es, Work(rank, remaining, processed, queue, tr))
      decreases |nodes - processed|, |queue|
    {
      var taken, rest := TakeNode(ids, processed, queue);
      if taken == None {
        break;
      }
      var u := taken.value;
      ghost var w := Work(rank, remaining, processed, queue, tr);
      NodeTaken(ids, nodes, adj, indeg, es, w, u, rest);
      if u in processed {
        queue := rest;
        continue;
      }
      rank, remaining, queue := Process(ids, nodes, adj, indeg, es, w, u, rank, remaining, processed, rest);
      processed, tr := processed + {u}, tr + [Step(u, w.queue == [])];
    }
    AllProcessed(ids, processed);
  }

  /** The loop's variables, with the trace that produced them. */
  datatype Work = Work(rank: map<Id, nat>, remaining: map<Id, int>, processed: set<Id>, queue: seq<Id>, tr: seq<Step>)

  ghost predicate Worklist(ids: seq<Id>, nodes: set<Id>, adj: Adjacency, indeg: map<Id, int>, es: seq<Edge>, w: Work) {
    && nodes == Elems(ids)
    && Walked(ids, nodes, adj, w)
    && Accounted(ids, adj, indeg, w.remaining, w.queue, w.tr)
    && (Matches(nodes, es, adj, indeg) ==> Scheduled(nodes, adj, es, w.remaining, w.processed, w.queue, w.tr))
  }

  /** Ranks and processed nodes are those of the trace, and only nodes are queued. */
  ghost predicate Walked(ids: seq<Id>, nodes: set<Id>, adj: Adjacency, w: Work) {
    && w.processed == Done(w.tr) <= nodes
    && (forall q :: q in w.queue ==> q in nodes)
    && RanksOf(nodes, adj, w.tr, w.rank)
    && Legal(ids, w.tr)
  }

  ghost predicate Scheduled(nodes: set<Id>, adj: Adjacency, es: seq<Edge>, remaining: map<Id, int>, processed: set<Id>,
                            queue: seq<Id>, tr: seq<Step>)
  {
    Counted(nodes, es, remaining, processed, queue) && KahnOrder(nodes, adj, tr)
  }

  lemma StartStep(ids: seq<Id>, adj: Adjacency, indeg: map<Id, int>, es: seq<Edge>, rank: map<Id, nat>, queue: seq<Id>)
    requires rank.Keys == Elems(ids) && forall v :: v in rank ==> rank[v] == 0
    requires queue == Ready(ids, indeg) && forall q :: q in queue <==> q in ids && Left(indeg, q) == 0
    ensures Worklist(ids, Elems(ids), adj, indeg, es, Work(rank, indeg, {}, queue, []))
  {
    AccountedStart(ids, adj, indeg);
  }

  /** A node taken off the worklist is ranked, and skipping it when already processed loses nothing. */
  lemma NodeTaken(ids: seq<Id>, nodes: set<Id>, adj: Adjacency, indeg: map<Id, int>, es: seq<Edge>, w: Work, u: Id, rest: seq<Id>)
    requires Closed(nodes, adj)
    requires Worklist(ids, nodes, adj, indeg, es, w)
    requires TakenFrom(ids, w.processed, w.queue, u, rest)
    ensures u in nodes && u in w.rank
    ensures forall v :: v in Succ(adj, u) ==> v in w.rank
    ensures u in w.processed ==> |rest| < |w.queue| && Worklist(ids, nodes, adj, indeg, es, w.(queue := rest))
    ensures u !in w.processed ==> |nodes - (w.processed + {u})| < |nodes - w.processed|
  {
    if u in w.processed {
      PopFront(w.queue);
      SkipKeeps(Queued(ids, adj, indeg, w.tr), w.processed, w.queue, u, rest);
    } else {
      FewerLeft(nodes, w.processed, u);
    }
  }

  lemma FewerLeft<T>(nodes: set<T>, done: set<T>, u: T)
    requires u in nodes && u !in done
    ensures |nodes - (done + {u})| < |nodes - done|
  {
    assert nodes - done == (nodes - (done + {u})) + {u};
  }

  /** Process an unprocessed node taken off the worklist. */
  method Process(ghost ids: seq<Id>, ghost nodes: set<Id>, adj: Adjacency, ghost indeg: map<Id, int>, ghost es: seq<Edge>, ghost w: Work,
                 u: Id, rank: map<Id, nat>, remaining: map<Id, int>, processed: set<Id>, rest: seq<Id>)
    returns (rank': map<Id, nat>, remaining': map<Id, int>, queue': seq<Id>)
    requires Closed(nodes, adj)
    requires Worklist(ids, nodes, adj, indeg, es, w)
    requires w.rank == rank && w.remaining == remaining && w.processed == processed
    requires u in rank && u !in processed && forall v :: v in Succ(adj, u) ==> v in rank
    requires TakenFrom(ids, processed, w.queue, u, rest)
    ensures Worklist(ids, nodes, adj, indeg, es, Work(rank', remaining', processed + {u}, queue', w.tr + [Step(u, w.queue == [])]))
    ensures Relaxed(Succ(adj, u), rank[u] + 1, processed + {u}, rank, remaining, rest, rank', remaining', queue')
  {
    rank', remaining', queue' := Relax(Succ(adj, u), rank[u] + 1, processed + {u}, rank, remaining, rest);
    ProcessStep(ids, nodes, adj, indeg, es, w, u, rest, rank', remaining', queue');
  }

  lemma ProcessStep(ids: seq<Id>, nodes: set<Id>, adj: Adjacency, indeg: map<Id, int>, es: seq<Edge>, w: Work, u: Id, rest: seq<Id>,
                    rank': map<Id, nat>, remaining': map<Id, int>, queue': seq<Id>)
    requires Closed(nodes, adj)
    requires Worklist(ids, nodes, adj, indeg, es, w)
    requires u in w.rank && u !in w.processed
    requires TakenFrom(ids, w.processed, w.queue, u, rest)
    requires Relaxed(Succ(adj, u), w.rank[u] + 1, w.processed + {u}, w.rank, w.remaining, rest, rank', remaining', queue')
    ensures Worklist(ids, nodes, adj, indeg, es, Work(rank', remaining', w.processed + {u}, queue', w.tr + [Step(u, w.queue == [])]))
  {
    WalkedStep(ids, nodes, adj, w, u, rest, rank', remaining', queue');
    AccountedStep(ids, adj, indeg, w.remaining, w.queue, w.tr, u, rest, remaining', queue');
    if Matches(nodes, es, adj, indeg) {
      ScheduledStep(ids, nodes, adj, indeg, es, w.remaining, w.processed, w.queue, u, rest, w.tr, remaining', queue');
    }
  }

  lemma WalkedStep(ids: seq<Id>, nodes: set<Id>, adj: Adjacency, w: Work, u: Id, rest: seq<Id>,
                   rank': map<Id, nat>, remaining': map<Id, int>, queue': seq<Id>)
    requires nodes == Elems(ids) && Closed(nodes, adj) && Walked(ids, nodes, adj, w)
    requires u in w.rank && u !in w.processed && TakenFrom(ids, w.processed, w.queue, u, rest)
    requires Relaxed(Succ(adj, u), w.rank[u] + 1, w.processed + {u}, w.rank, w.remaining, rest, rank', remaining', queue')
    ensures Walked(ids, nodes, adj, Work(rank', remaining', w.processed + {u}, queue', w.tr + [Step(u, w.queue == [])]))
  {
    QueueStep(nodes, w.processed, w.queue, u, rest, Succ(adj, u), w.remaining, remaining', queue');
    TraceStep(ids, nodes, adj, w.tr, Step(u, w.queue == []));
    RanksStep(nodes, adj, w.tr, Step(u, w.queue == []), w.rank, rank');
  }

  lemma RanksStep(nodes: set<Id>, adj: Adjacency, tr: seq<Step>, step: Step, rank: map<Id, nat>, rank': map<Id, nat>)
    requires RanksOf(nodes, adj, tr, rank) && step.node in rank && rank'.Keys == rank.Keys
    requires var next := rank[step.node] + 1;
             forall v :: v in rank ==> rank'[v] == if v in Succ(adj, step.node) && rank[v] < next then next else rank[v]
    ensures RanksOf(nodes, adj, tr + [step], rank')
  {
    forall v | v in nodes
      ensures rank'[v] == RankAt(adj, tr + [step], v)
    {
      RankStep(adj, tr, step, v);
    }
  }

  lemma ScheduledStep(ids: seq<Id>, nodes: set<Id>, adj: Adjacency, indeg: map<Id, int>, es: seq<Edge>,
                      remaining: map<Id, int>, processed: set<Id>, before: seq<Id>,
                      u: Id, queue: seq<Id>, tr: seq<Step>, remaining': map<Id, int>, queue': seq<Id>)
    requires nodes == Elems(ids) && processed == Done(tr)
    requires Matches(nodes, es, adj, indeg)
    requires Scheduled(nodes, adj, es, remaining, processed, before, tr)
    requires u in nodes && u !in processed
    requires TakenFrom(ids, processed, before, u, queue)
    requires Decremented(processed + {u}, Succ(adj, u), remaining, queue, remaining', queue')
    ensures Scheduled(nodes, adj, es, remaining', processed + {u}, queue', tr + [Step(u, before == [])])
  {
    KahnChoice(nodes, es, adj, indeg, processed, remaining, before, u);
    CountedStep(nodes, es, adj, indeg, processed, u, remaining, before, queue, remaining', queue');
    TraceStep(ids, nodes, adj, tr, Step(u, before == []));
  }

  lemma AllProcessed(ids: seq<Id>, processed: set<Id>)
    requires processed <= Elems(ids)
    requires |ids| <= |processed| || FirstUnprocessed(ids, processed).None?
    ensures processed == Elems(ids)
  {
    ElemsBound(ids);
    if |ids| <= |processed| {
      SubsetOfSameSize(processed, Elems(ids));
    }
  }

  lemma RankStep(adj: Adjacency, tr: seq<Step>, step: Step, v: Id)
    ensures RankAt(adj, tr + [step], v)
         == if v in Succ(adj, step.node) && RankAt(adj, tr, v) < RankAt(adj, tr, step.node) + 1
            then RankAt(adj, tr, step.node) + 1 else RankAt(adj, tr, v)
  {
  }

  lemma TraceStep(ids: seq<Id>, nodes: set<Id>, adj: Adjacency, tr: seq<Step>, step: Step)
    requires nodes == Elems(ids) && step.node in nodes
    ensures Done(tr + [step]) == Done(tr) + {step.node}
    ensures Legal(ids, tr) && step.node !in Done(tr) && (step.seeded ==> FirstToSeed(ids, Done(tr), step.node)) ==>
              Legal(ids, tr + [step])
    ensures KahnOrder(nodes, adj, tr) && MayTake(nodes, adj, Done(tr), step.node, step.seeded) ==>
              KahnOrder(nodes, adj, tr + [step])
  {
  }

  /** `u` is the head of `before`, or the first unprocessed node when `before` was empty; `rest` is what is left. */
  ghost predicate TakenFrom(ids: seq<Id>, processed: set<Id>, before: seq<Id>, u: Id, rest: seq<Id>) {
    if before == [] then rest == [] && FirstToSeed(ids, processed, u) else before == [u] + rest
  }

  /** Pop the queue's head, after seeding an empty queue with the first unprocessed id; `None` when there is none. */
  method TakeNode(ids: seq<Id>, processed: set<Id>, queue: seq<Id>) returns (u: Option<Id>, rest: seq<Id>)
    ensures u.None? ==> queue == [] && forall i :: 0 <= i < |ids| ==> ids[i] in processed
    ensures u.Some? ==> TakenFrom(ids, processed, queue, u.value, rest)
  {
    var q := queue;
    if q == [] {
      var next := FirstUnprocessed(ids, processed);
      if next == None {
        return None, [];
      }
      q := [ids[next.value]];
    }
    PopFront(q);
    return Some(q[0]), q[1..];
  }

  lemma QueueStep(nodes: set<Id>, processed: set<Id>, before: seq<Id>, u: Id, queue: seq<Id>, succ: seq<Id>,
                  remaining: map<Id, int>, remaining': map<Id, int>, queue': seq<Id>)
    requires forall q :: q in before ==> q in nodes
    requires before == [u] + queue || queue == []
    requires Decremented(processed + {u}, succ, remaining, queue, remaining', queue')
    requires forall v :: v in succ ==> v in nodes
    ensures forall q :: q in queue' ==> q in nodes
  {
  }

  lemma KahnChoice(nodes: set<Id>, es: seq<Edge>, adj: Adjacency, indeg: map<Id, int>, done: set<Id>,
                   remaining: map<Id, int>, queue: seq<Id>, u: Id)
    requires Matches(nodes, es, adj, indeg)
    requires Counted(nodes, es, remaining, done, queue)
    requires u in nodes
    requires queue != [] ==> u == queue[0]
    ensures MayTake(nodes, adj, done, u, queue == [])
  {
    if queue != [] {
      ReadyNode(nodes, es, adj, indeg, done, u);
    } else {
      forall w | w in nodes - done
        ensures HasPredecessor(adj, nodes - done, w)
      {
        var x := OpenPredecessor(nodes, es, adj, indeg, done, w);
        assert x in nodes - done;
      }
    }
  }

  lemma ReadyNode(nodes: set<Id>, es: seq<Edge>, adj: Adjacency, indeg: map<Id, int>, done: set<Id>, v: Id)
    requires Matches(nodes, es, adj, indeg)
    requires Into(es, v, done) == 0
    ensures forall u :: u in nodes && v in Succ(adj, u) ==> u in done
  {
    IntoZero(es, v, done);
    forall u | u in nodes && v in Succ(adj, u)
      ensures u in done
    {
      TargetsAreEdges(es, u, v);
    }
  }

  lemma OpenPredecessor(nodes: set<Id>, es: seq<Edge>, adj: Adjacency, indeg: map<Id, int>, done: set<Id>, v: Id)
    returns (u: Id)
    requires Matches(nodes, es, adj, indeg)
    requires Into(es, v, done) != 0
    ensures u in nodes && u !in done && v in Succ(adj, u)
  {
    IntoZero(es, v, done);
    var e :| e in es && e.dst == v && e.src !in done;
    u := e.src;
    TargetsAreEdges(es, u, v);
    assert Edge(u, v) == e;
  }

  lemma CountedStep(nodes: set<Id>, es: seq<Edge>, adj: Adjacency, indeg: map<Id, int>, done: set<Id>, u: Id,
                    remaining: map<Id, int>, before: seq<Id>, queue: seq<Id>,
                    remaining': map<Id, int>, queue': seq<Id>)
    requires Matches(nodes, es, adj, indeg)
    requires Counted(nodes, es, remaining, done, before)
    requires u in nodes && u !in done
    requires before == [u] + queue || (before == [] && queue == [])
    requires Decremented(done + {u}, Succ(adj, u), remaining, queue, remaining', queue')
    ensures Counted(nodes, es, remaining', done + {u}, queue')
  {
    forall v | v in nodes
      ensures Left(remaining', v) == Into(es, v, done + {u})
    {
      IntoStep(es, v, done, u);
    }
    forall q | q in queue'
      ensures Left(remaining', q) <= 0
    {
      var i :| 0 <= i < |queue'| && queue'[i] == q;
      if i < |queue| {
        assert queue'[i] == queue[i] && queue[i] in before;
      }
    }
    forall v | v in nodes && v !in done + {u} && Left(remaining', v) <= 0
      ensures v in queue'
    {
      if v !in Succ(adj, u) {
        assert v in before;
        assert v in queue;
      }
    }
  }

  // ---- every graph ---------------------------------------------------------

  lemma {:induction false} TraceLength(ids: seq<Id>, tr: seq<Step>)
    requires Legal(ids, tr)
    ensures |Done(tr)| == |tr|
  {
    if tr != [] {
      TraceLength(ids, tr[..|tr| - 1]);
    }
  }

  /** No rank exceeds the number of processed nodes. */
  lemma {:induction false} RankBound(adj: Adjacency, tr: seq<Step>, v: Id)
    ensures RankAt(adj, tr, v) <= |tr|
  {
    if tr != [] {
      RankBound(adj, tr[..|tr| - 1], v);
      RankBound(adj, tr[..|tr| - 1], tr[|tr| - 1].node);
    }
  }

  /** On every graph a rank is the length of some walk reaching the node. */
  lemma {:induction false} RankIsWalk(ids: seq<Id>, adj: Adjacency, tr: seq<Step>, v: Id) returns (p: seq<Id>)
    requires Legal(ids, tr) && v in ids
    ensures IsPath(Elems(ids), adj, p) && EndsAt(p, v) && |p| - 1 == RankAt(adj, tr, v)
  {
    if tr == [] {
      p := [v];
    } else {
      var front, u := tr[..|tr| - 1], tr[|tr| - 1].node;
      if RankAt(adj, tr, v) != RankAt(adj, front, v) {
        var q := RankIsWalk(ids, adj, front, u);
        p := q + [v];
      } else {
        p := RankIsWalk(ids, adj, front, v);
      }
    }
  }

  /** A node ranks strictly right of every predecessor, as that predecessor stood when it was processed. */
  lemma {:induction false} RankAboveUse(adj: Adjacency, tr: seq<Step>, i: nat, v: Id)
    requires i < |tr| && v in Succ(adj, tr[i].node)
    ensures RankAt(adj, tr[..i], tr[i].node) < RankAt(adj, tr, v)
  {
    var front := tr[..|tr| - 1];
    if i < |front| {
      RankAboveUse(adj, front, i, v);
      assert front[..i] == tr[..i];
    }
  }

  // ---- acyclic graphs ------------------------------------------------------

  /** A backward walk of any length inside a set whose members all have a predecessor in it. */
  lemma {:induction false} BackwardWalk(nodes: set<Id>, adj: Adjacency, open: set<Id>, n: nat) returns (p: seq<Id>)
    requires open != {} && open <= nodes
    requires HasPredecessors(adj, open)
    ensures IsPath(nodes, adj, p) && |p| == n + 1 && forall i :: 0 <= i < |p| ==> p[i] in open
  {
    if n == 0 {
      var w :| w in open;
      p := [w];
    } else {
      var q := BackwardWalk(nodes, adj, open, n - 1);
      assert HasPredecessor(adj, open, q[0]);
      var u :| u in open && q[0] in Succ(adj, u);
      p := [u] + q;
      forall i | 0 < i < |p|
        ensures p[i] in Succ(adj, p[i - 1])
      {
        assert p[i] == q[i - 1] && (i > 1 ==> p[i - 1] == q[i - 2]);
      }
    }
  }

  lemma Repeat<T>(p: seq<T>, s: set<T>) returns (i: nat, j: nat)
    requires forall k :: 0 <= k < |p| ==> p[k] in s
    requires |s| < |p|
    ensures i < j < |p| && p[i] == p[j]
  {
    ElemsBound(p);
    assert Elems(p) <= s;
    assert |s - Elems(p)| == |s| - |Elems(p)|;
    assert !Distinct(p);
    i, j :| 0 <= i < j < |p| && p[i] == p[j];
  }

  lemma Subpath(nodes: set<Id>, adj: Adjacency, p: seq<Id>, i: nat, j: nat)
    requires IsPath(nodes, adj, p)
    requires i < j <= |p|
    ensures IsPath(nodes, adj, p[i..j])
  {
  }

  /** A finite set whose members all have a predecessor in it contains a cycle. */
  lemma StuckMeansCycle(nodes: set<Id>, adj: Adjacency, open: set<Id>)
    requires open != {} && open <= nodes
    requires HasPredecessors(adj, open)
    ensures !Acyclic(nodes, adj)
  {
    var p := BackwardWalk(nodes, adj, open, |open|);
    var i, j := Repeat(p, open);
    Subpath(nodes, adj, p, i, j + 1);
    assert p[i..j + 1][0] == p[i..j + 1][|p[i..j + 1]| - 1];
  }

  lemma {:induction false} AcyclicNeverSeeds(ids: seq<Id>, adj: Adjacency, tr: seq<Step>)
    requires Legal(ids, tr) && KahnOrder(Elems(ids), adj, tr)
    requires Acyclic(Elems(ids), adj)
    ensures NoSeeds(tr)
  {
    if tr != [] {
      var front, last := tr[..|tr| - 1], tr[|tr| - 1];
      AcyclicNeverSeeds(ids, adj, front);
      if last.seeded {
        assert last.node in Elems(ids) - Done(front);
        StuckMeansCycle(Elems(ids), adj, Elems(ids) - Done(front));
      }
      assert tr == front + [last];
    }
  }

  /** Without seeds a processed node's predecessors are all processed, and its rank is final. */
  lemma {:induction false} PredecessorsDone(nodes: set<Id>, adj: Adjacency, tr: seq<Step>, x: Id, u: Id)
    requires KahnOrder(nodes, adj, tr) && NoSeeds(tr)
    requires u in Done(tr) && x in nodes && u in Succ(adj, x)
    ensures x in Done(tr)
  {
    var front, last := tr[..|tr| - 1], tr[|tr| - 1];
    assert !last.seeded;
    if u in Done(front) {
      PredecessorsDone(nodes, adj, front, x, u);
    }
  }

  lemma {:induction false} StrictWithoutSeeds(ids: seq<Id>, adj: Adjacency, tr: seq<Step>, u: Id, v: Id)
    requires Legal(ids, tr) && KahnOrder(Elems(ids), adj, tr) && NoSeeds(tr)
    requires u in Done(tr) && u in ids && v in ids && v in Succ(adj, u)
    ensures RankAt(adj, tr, u) < RankAt(adj, tr, v)
  {
    var nodes, front, last := Elems(ids), tr[..|tr| - 1], tr[|tr| - 1];
    assert !last.seeded;
    if u in Done(front) {
      StrictWithoutSeeds(ids, adj, front, u, v);
      // `last` was unprocessed when `u` was taken, so it does not point at `u`.
      if u in Succ(adj, last.node) {
        PredecessorsDone(nodes, adj, front, last.node, u);
        assert false;
      }
    } else {
      assert u == last.node && u !in Succ(adj, u);
    }
  }

  /** On an acyclic scope the worklist never seeds, and every rank is the length of the longest path to its node. */
  lemma AcyclicRanksAreLongestPaths(ids: seq<Id>, adj: Adjacency, tr: seq<Step>, rank: map<Id, nat>)
    requires Legal(ids, tr) && Done(tr) == Elems(ids)
    requires KahnOrder(Elems(ids), adj, tr)
    requires Acyclic(Elems(ids), adj)
    requires RanksOf(Elems(ids), adj, tr, rank)
    ensures NoSeeds(tr)
    ensures StrictAlongEdges(Elems(ids), adj, rank)
    ensures LongestPaths(Elems(ids), adj, rank)
  {
    AcyclicNeverSeeds(ids, adj, tr);
    forall u, v | u in Elems(ids) && v in Elems(ids) && v in Succ(adj, u)
      ensures rank[u] < rank[v]
    {
      StrictWithoutSeeds(ids, adj, tr, u, v);
    }
    StrictWalksAreLongest(ids, adj, tr, rank);
  }

  lemma StrictWalksAreLongest(ids: seq<Id>, adj: Adjacency, tr: seq<Step>, rank: map<Id, nat>)
    requires Legal(ids, tr)
    requires RanksOf(Elems(ids), adj, tr, rank)
    requires StrictAlongEdges(Elems(ids), adj, rank)
    ensures LongestPaths(Elems(ids), adj, rank)
  {
    var nodes := Elems(ids);
    forall p | IsPath(nodes, adj, p)
      ensures |p| - 1 <= rank[p[|p| - 1]]
    {
      PathBound(nodes, adj, rank, p);
    }
    forall v | v in nodes
      ensures exists p :: IsPath(nodes, adj, p) && EndsAt(p, v) && |p| - 1 == rank[v]
    {
      var p := RankIsWalk(ids, adj, tr, v);
    }
  }

  lemma {:induction false} PathBound(nodes: set<Id>, adj: Adjacency, rank: map<Id, nat>, p: seq<Id>)
    requires nodes <= rank.Keys && StrictAlongEdges(nodes, adj, rank)
    requires IsPath(nodes, adj, p)
    ensures |p| - 1 <= rank[p[|p| - 1]]
  {
    if |p| > 1 {
      var q := p[..|p| - 1];
      Subpath(nodes, adj, p, 0, |p| - 1);
      PathBound(nodes, adj, rank, q);
      assert p[|p| - 1] in Succ(adj, p[|p| - 2]);
    }
  }

  // ---- the ranking phase of a scope ----------------------------------------

  ghost predicate BoundedByCount(nodes: set<Id>, rank: map<Id, nat>) {
    rank.Keys == nodes && forall v :: v in nodes ==> rank[v] <= |nodes|
  }

  /** A node past column 0 has a predecessor. */
  ghost predicate RaisedByPredecessor(nodes: set<Id>, adj: Adjacency, rank: map<Id, nat>)
    requires rank.Keys == nodes
  {
    forall v {:trigger HasPredecessor(adj, nodes, v)} :: v in nodes && rank[v] > 0 ==> HasPredecessor(adj, nodes, v)
  }

  /** Build the graph of a scope's flows and rank it. */
  method RankScope(ids: seq<Id>, flows: seq<Flow>, hosts: map<Id, Id>) returns (adj: Adjacency, rank: map<Id, nat>)
    ensures adj.Keys == Elems(ids) && Closed(Elems(ids), adj)
    ensures forall u :: u in adj ==> adj[u] == Targets(RankEdges(flows, Elems(ids), hosts), u)
    ensures BoundedByCount(Elems(ids), rank)
    ensures RaisedByPredecessor(Elems(ids), adj, rank)
    ensures Acyclic(Elems(ids), adj) ==> StrictAlongEdges(Elems(ids), adj, rank) && LongestPaths(Elems(ids), adj, rank)
  {
    var indeg;
    adj, indeg := BuildGraph(ids, flows, hosts);
    ghost var es := RankEdges(flows, Elems(ids), hosts);
    MatchedIsClosed(Elems(ids), es, adj, indeg);
    ghost var tr;
    rank, tr := LongestPathRanks(ids, adj, indeg, es);
  }

  lemma MatchedIsClosed(nodes: set<Id>, es: seq<Edge>, adj: Adjacency, indeg: map<Id, int>)
    requires Matches(nodes, es, adj, indeg)
    ensures Closed(nodes, adj)
  {
    forall u, v | u in nodes && v in Succ(adj, u)
      ensures v in nodes
    {
      TargetsAreEdges(es, u, v);
      assert Edge(u, v) in es;
    }
  }

  lemma RankFacts(ids: seq<Id>, adj: Adjacency, tr: seq<Step>, rank: map<Id, nat>)
    requires Legal(ids, tr) && Done(tr) == Elems(ids)
    requires RanksOf(Elems(ids), adj, tr, rank)
    ensures BoundedByCount(Elems(ids), rank)
    ensures RaisedByPredecessor(Elems(ids), adj, rank)
    ensures KahnOrder(Elems(ids), adj, tr) && Acyclic(Elems(ids), adj) ==>
              StrictAlongEdges(Elems(ids), adj, rank) && LongestPaths(Elems(ids), adj, rank)
  {
    TraceLength(ids, tr);
    forall v | v in Elems(ids)
      ensures rank[v] <= |Elems(ids)|
    {
      RankBound(adj, tr, v);
    }
    forall v | v in Elems(ids) && rank[v] > 0
      ensures HasPredecessor(adj, Elems(ids), v)
    {
      var p := RankIsWalk(ids, adj, tr, v);
      assert p[|p| - 1] in Succ(adj, p[|p| - 2]);
    }
    if KahnOrder(Elems(ids), adj, tr) && Acyclic(Elems(ids), adj) {
      AcyclicRanksAreLongestPaths(ids, adj, tr, rank);
    }
  }
}

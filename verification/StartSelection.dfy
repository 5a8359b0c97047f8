/**
 Which start events an inbound message starts (rust/crates/sutra-bpmn/src/model.rs): start events in id order,
 the tiers exact value, pattern and catch-all, and a predicate that must hold within its tier.
 */
module StartSelection {
  import opened Basics
  import opened Text

  /** What a start event's first `<q:source>` says about message types and whether it has a predicate. */
  datatype Source = Source(value: Option<string>, pattern: Option<string>, filtered: bool)

  datatype Node = StartNode(id: string, channels: seq<string>, source: Option<Source>) | OtherNode(id: string)

  /** The arriving message, the regular-expression engine and the answer to each start event's predicate. */
  datatype Inbound = Inbound(
    channel: string,
    messageType: Option<string>,
    fullMatch: (string, string) -> bool,
    predicateHolds: string -> bool)

  // ---- the source's operations ---------------------------------------------

  function Filter(nodes: seq<Node>, keep: Node -> bool): (r: seq<Node>)
    ensures forall n :: n in r <==> n in nodes && keep(n)
  {
    if nodes == [] then []
    else
      var rest := Filter(nodes[1..], keep);
      assert forall n :: n in nodes <==> n == nodes[0] || n in nodes[1..];
      if keep(nodes[0]) then [nodes[0]] + rest else rest
  }

  function InsertById(n: Node, sorted: seq<Node>): (r: seq<Node>)
    ensures forall x :: x in r <==> x == n || x in sorted
  {
    if sorted == [] then [n]
    else if Below(sorted[0].id, n.id) then
      var rest := InsertById(n, sorted[1..]);
      assert forall x :: x in sorted <==> x == sorted[0] || x in sorted[1..];
      [sorted[0]] + rest
    else [n] + sorted
  }

  function SortById(nodes: seq<Node>): (r: seq<Node>)
    ensures forall x :: x in r <==> x in nodes
  {
    if nodes == [] then []
    else
      assert forall n :: n in nodes <==> n == nodes[0] || n in nodes[1..];
      InsertById(nodes[0], SortById(nodes[1..]))
  }

  function StartEvents(nodes: seq<Node>): seq<Node> {
    SortById(Filter(nodes, (n: Node) => n.StartNode?))
  }

  predicate Listens(m: Inbound, n: Node) {
    n.StartNode? && m.channel in n.channels
  }

  predicate Holds(m: Inbound, n: Node) {
    n.StartNode? && (n.source.Some? && n.source.value.filtered ==> m.predicateHolds(n.id))
  }

  predicate IsExact(m: Inbound, n: Node) {
    n.StartNode? && m.messageType.Some? && n.source.Some? && n.source.value.value == m.messageType
  }

  predicate IsMatched(m: Inbound, n: Node) {
    && n.StartNode? && m.messageType.Some? && n.source.Some? && n.source.value.pattern.Some?
    && m.fullMatch(n.source.value.pattern.value, m.messageType.value)
  }

  predicate IsCatchAll(n: Node) {
    n.StartNode? && !(n.source.Some? && (n.source.value.value.Some? || n.source.value.pattern.Some?))
  }

  datatype Tier = ExactTier | PatternTier | CatchAllTier

  predicate InTier(m: Inbound, n: Node, t: Tier) {
    match t
    case ExactTier => IsExact(m, n)
    case PatternTier => IsMatched(m, n)
    case CatchAllTier => IsCatchAll(n)
  }

  function Candidates(nodes: seq<Node>, m: Inbound): seq<Node> {
    Filter(StartEvents(nodes), n => Listens(m, n))
  }

  /** The candidates of one tier whose predicate holds. */
  function Passing(nodes: seq<Node>, m: Inbound, tier: Tier): seq<Node> {
    Filter(Filter(Candidates(nodes, m), n => InTier(m, n, tier)), n => Holds(m, n))
  }

  function SelectStartEvents(nodes: seq<Node>, m: Inbound): seq<Node> {
    var exact, matched := Passing(nodes, m, ExactTier), Passing(nodes, m, PatternTier);
    if Candidates(nodes, m) == [] then []
    else if exact != [] then exact
    else if matched != [] then matched
    else Passing(nodes, m, CatchAllTier)
  }

  // ---- what selection means ------------------------------------------------

  /** A start event that listens on the channel and whose predicate, if it has one, holds. */
  ghost predicate Eligible(m: Inbound, n: Node) {
    Listens(m, n) && Holds(m, n)
  }

  ghost predicate Occupied(nodes: seq<Node>, m: Inbound, t: Tier) {
    exists n :: n in nodes && Eligible(m, n) && InTier(m, n, t)
  }

  ghost function BestTier(nodes: seq<Node>, m: Inbound): Tier {
    if Occupied(nodes, m, ExactTier) then ExactTier
    else if Occupied(nodes, m, PatternTier) then PatternTier
    else CatchAllTier
  }

  /** The eligible start events of the best occupied tier are selected, all of them and nothing else. */
  lemma SelectsBestTier(nodes: seq<Node>, m: Inbound, n: Node)
    ensures n in SelectStartEvents(nodes, m) <==> n in nodes && Eligible(m, n) && InTier(m, n, BestTier(nodes, m))
  {
    PassingOccupied(nodes, m, ExactTier);
    PassingOccupied(nodes, m, PatternTier);
  }

  lemma PassingOccupied(nodes: seq<Node>, m: Inbound, tier: Tier)
    ensures Passing(nodes, m, tier) != [] <==> Occupied(nodes, m, tier)
    ensures Passing(nodes, m, tier) != [] ==> Candidates(nodes, m) != []
  {
    var passing := Passing(nodes, m, tier);
    if passing != [] {
      assert passing[0] in passing;
    }
    if Occupied(nodes, m, tier) {
      var n :| n in nodes && Eligible(m, n) && InTier(m, n, tier);
    }
  }

  /** Which start events a message may start, and in which tier, on their fields. */
  lemma EligibleIff(m: Inbound, n: Node)
    ensures Eligible(m, n) <==>
            && n.StartNode? && (exists i :: 0 <= i < |n.channels| && n.channels[i] == m.channel)
            && (n.source == None || !n.source.value.filtered || m.predicateHolds(n.id))
    ensures InTier(m, n, ExactTier) <==>
            n.StartNode? && exists t, p, f :: m.messageType == Some(t) && n.source == Some(Source(Some(t), p, f))
    ensures InTier(m, n, PatternTier) <==>
            n.StartNode? && exists t, v, p, f :: m.messageType == Some(t) && n.source == Some(Source(v, Some(p), f)) && m.fullMatch(p, t)
    ensures InTier(m, n, CatchAllTier) <==>
            n.StartNode? && (n.source == None || exists f :: n.source == Some(Source(None, None, f)))
  {
    if n.StartNode? && n.source.Some? {
      var s := n.source.value;
      assert s == Source(s.value, s.pattern, s.filtered);
      if InTier(m, n, ExactTier) {
        assert n.source == Some(Source(Some(m.messageType.value), s.pattern, s.filtered));
      }
      if InTier(m, n, PatternTier) {
        assert n.source == Some(Source(s.value, Some(s.pattern.value), s.filtered));
      }
    }
  }

  // ---- the order -----------------------------------------------------------

  ghost predicate Ascending(nodes: seq<Node>) {
    forall i, j :: 0 <= i < j < |nodes| ==> Below(nodes[i].id, nodes[j].id)
  }

  ghost predicate NoSharedId(nodes: seq<Node>) {
    forall i, j :: 0 <= i < j < |nodes| ==> nodes[i].id != nodes[j].id
  }

  lemma {:induction false} InsertAscending(n: Node, sorted: seq<Node>)
    requires Ascending(sorted) && forall x :: x in sorted ==> x.id != n.id
    ensures Ascending(InsertById(n, sorted))
  {
    if sorted != [] {
      var head := sorted[0];
      if Below(head.id, n.id) {
        InsertAscending(n, sorted[1..]);
        ConsAscending(head, InsertById(n, sorted[1..]));
      } else {
        assert head in sorted;
        BelowTotal(n.id, head.id);
        forall x | x in sorted
          ensures Below(n.id, x.id)
        {
          var k :| 0 <= k < |sorted| && sorted[k] == x;
          if k > 0 {
            BelowTransitive(n.id, head.id, x.id);
          }
        }
        ConsAscending(n, sorted);
      }
    }
  }

  lemma ConsAscending(n: Node, rest: seq<Node>)
    requires Ascending(rest) && forall x :: x in rest ==> Below(n.id, x.id)
    ensures Ascending([n] + rest)
  {
  }

  lemma {:induction false} SortAscending(nodes: seq<Node>)
    requires NoSharedId(nodes)
    ensures Ascending(SortById(nodes))
  {
    if nodes != [] {
      SortAscending(nodes[1..]);
      forall x | x in SortById(nodes[1..])
        ensures x.id != nodes[0].id
      {
        var k :| 0 <= k < |nodes[1..]| && nodes[1..][k] == x;
      }
      InsertAscending(nodes[0], SortById(nodes[1..]));
    }
  }

  lemma {:induction false} FilterDistinct(nodes: seq<Node>, keep: Node -> bool)
    requires NoSharedId(nodes)
    ensures NoSharedId(Filter(nodes, keep))
  {
    if nodes != [] {
      FilterDistinct(nodes[1..], keep);
      forall x | x in Filter(nodes[1..], keep)
        ensures x.id != nodes[0].id
      {
        var k :| 0 <= k < |nodes[1..]| && nodes[1..][k] == x;
      }
    }
  }

  lemma {:induction false} FilterAscending(nodes: seq<Node>, keep: Node -> bool)
    requires Ascending(nodes)
    ensures Ascending(Filter(nodes, keep))
  {
    if nodes != [] {
      FilterAscending(nodes[1..], keep);
      forall x | x in Filter(nodes[1..], keep)
        ensures Below(nodes[0].id, x.id)
      {
        var k :| 0 <= k < |nodes[1..]| && nodes[1..][k] == x;
      }
      if keep(nodes[0]) {
        ConsAscending(nodes[0], Filter(nodes[1..], keep));
      }
    }
  }

  /** Node ids being distinct, the selected start events are in id order, each once. */
  lemma SelectsInOrder(nodes: seq<Node>, m: Inbound)
    requires NoSharedId(nodes)
    ensures Ascending(SelectStartEvents(nodes, m))
  {
    FilterDistinct(nodes, (n: Node) => n.StartNode?);
    SortAscending(Filter(nodes, (n: Node) => n.StartNode?));
    FilterAscending(StartEvents(nodes), n => Listens(m, n));
    forall tier
      ensures Ascending(Passing(nodes, m, tier))
    {
      PassingAscending(nodes, m, tier);
    }
  }

  lemma PassingAscending(nodes: seq<Node>, m: Inbound, tier: Tier)
    requires Ascending(Candidates(nodes, m))
    ensures Ascending(Passing(nodes, m, tier))
  {
    FilterAscending(Candidates(nodes, m), n => InTier(m, n, tier));
    FilterAscending(Filter(Candidates(nodes, m), n => InTier(m, n, tier)), n => Holds(m, n));
  }

  lemma SameHead(a: seq<Node>, b: seq<Node>)
    requires Ascending(a) && Ascending(b) && a != [] && b != [] && forall x :: x in a <==> x in b
    ensures a[0] == b[0]
  {
    assert a[0] in a && b[0] in b;
    var i :| 0 <= i < |b| && b[i] == a[0];
    var j :| 0 <= j < |a| && a[j] == b[0];
    assert i > 0 ==> Below(b[0].id, a[0].id);
    assert j > 0 ==> Below(a[0].id, b[0].id);
    BelowAsymmetric(a[0].id, b[0].id);
  }

  lemma TailMembers(a: seq<Node>, x: Node)
    requires Ascending(a) && a != []
    ensures x in a[1..] <==> x in a && x != a[0]
  {
    BelowAsymmetric(a[0].id, a[0].id);
    if x in a[1..] {
      var k :| 0 <= k < |a[1..]| && a[1..][k] == x;
      assert Below(a[0].id, a[k + 1].id);
    }
  }

  /** Ascending sequences with the same members are equal: membership and order fix the answer. */
  lemma {:induction false} AscendingUnique(a: seq<Node>, b: seq<Node>)
    requires Ascending(a) && Ascending(b) && forall x :: x in a <==> x in b
    ensures a == b
  {
    assert a != [] ==> a[0] in a;
    assert b != [] ==> b[0] in b;
    if a != [] && b != [] {
      SameHead(a, b);
      forall x
        ensures x in a[1..] <==> x in b[1..]
      {
        TailMembers(a, x);
        TailMembers(b, x);
      }
      AscendingUnique(a[1..], b[1..]);
      assert a == [a[0]] + a[1..] && b == [b[0]] + b[1..];
    }
  }

  /** Start events that are not eligible (another channel, a false predicate) may be deleted: the answer is the same. */
  lemma DeletionIsInvisible(nodes: seq<Node>, keep: Node -> bool, m: Inbound)
    requires NoSharedId(nodes) && forall n :: n in nodes && Eligible(m, n) ==> keep(n)
    ensures SelectStartEvents(Filter(nodes, keep), m) == SelectStartEvents(nodes, m)
  {
    var kept := Filter(nodes, keep);
    FilterDistinct(nodes, keep);
    SelectsInOrder(nodes, m);
    SelectsInOrder(kept, m);
    SameTier(nodes, keep, m);
    forall n
      ensures n in SelectStartEvents(kept, m) <==> n in SelectStartEvents(nodes, m)
    {
      SelectsBestTier(kept, m, n);
      SelectsBestTier(nodes, m, n);
    }
    AscendingUnique(SelectStartEvents(kept, m), SelectStartEvents(nodes, m));
  }

  lemma SameTier(nodes: seq<Node>, keep: Node -> bool, m: Inbound)
    requires forall n :: n in nodes && Eligible(m, n) ==> keep(n)
    ensures BestTier(Filter(nodes, keep), m) == BestTier(nodes, m)
  {
  }

  /** What the loader refuses: a source with both a value and a pattern. */
  ghost predicate Exclusive(n: Node) {
    n.StartNode? && n.source.Some? ==> !(n.source.value.value.Some? && n.source.value.pattern.Some?)
  }

  /** A start event is in at most one tier for every message exactly when its source has not both a value and a pattern. */
  lemma TiersAreDisjoint(n: Node)
    ensures Exclusive(n) <==> forall m, t, u :: InTier(m, n, t) && InTier(m, n, u) ==> t == u
  {
    if !Exclusive(n) {
      var m := Inbound("", n.source.value.value, (p, s) => true, s => true);
      assert InTier(m, n, ExactTier) && InTier(m, n, PatternTier);
    }
  }
}

/**
 Ordering the boxes inside each rank column (rust/crates/bpmn-svg/src/diagram.rs).

 Boxes are bucketed by rank, then a single left-to-right sweep reorders every column after the first
 by the mean position of each box's predecessors, ties kept in prior order. Positions are exact
 integers and means are reals, so no rounding enters the comparison.
 */
module Ordering {
  import opened Basics
  import opened Ranking

  type Columns = seq<seq<Id>>

  type Positions = map<Id, nat>

  type Predecessors = map<Id, seq<Id>>

  // ---- bucketing -----------------------------------------------------------

  method MaxRank(ids: seq<Id>, rank: map<Id, nat>) returns (m: nat)
    requires Elems(ids) <= rank.Keys
    ensures forall i :: 0 <= i < |ids| ==> rank[ids[i]] <= m
    ensures m == 0 || exists i :: 0 <= i < |ids| && rank[ids[i]] == m
  {
    m := 0;
    for k := 0 to |ids|
      invariant forall i :: 0 <= i < k ==> rank[ids[i]] <= m
      invariant m == 0 || exists i :: 0 <= i < k && rank[ids[i]] == m
    {
      assert ids[k] in Elems(ids);
      if m < rank[ids[k]] {
        m := rank[ids[k]];
      }
    }
  }

  /** The ids of rank `r`, in document order. */
  function OfRank(ids: seq<Id>, rank: map<Id, nat>, r: nat): seq<Id> {
    if ids == [] then []
    else
      var v := ids[|ids| - 1];
      OfRank(ids[..|ids| - 1], rank, r) + (if v in rank && rank[v] == r then [v] else [])
  }

  /** They are all of them, each where the document has it. */
  lemma {:induction false} OfRankInOrder(ids: seq<Id>, rank: map<Id, nat>, r: nat, ranked: Id -> bool) returns (at: seq<nat>)
    requires forall v :: ranked(v) <==> v in rank && rank[v] == r
    ensures Picks(ids, at, OfRank(ids, rank, r)) && Elems(at) == Where(ids, ranked)
  {
    if ids == [] {
      at := [];
    } else {
      var front, v := ids[..|ids| - 1], ids[|ids| - 1];
      at := OfRankInOrder(front, rank, r, ranked);
      at := PickWhere(front, at, OfRank(front, rank, r), ids, v, ranked);
    }
  }

  method Bucket(ids: seq<Id>, rank: map<Id, nat>, maxRank: nat) returns (cols: Columns)
    requires Elems(ids) <= rank.Keys
    requires forall i :: 0 <= i < |ids| ==> rank[ids[i]] <= maxRank
    ensures |cols| == maxRank + 1
    ensures forall r :: 0 <= r < |cols| ==> cols[r] == OfRank(ids, rank, r)
  {
    cols := seq(maxRank + 1, _ => []);
    for k := 0 to |ids|
      invariant |cols| == maxRank + 1
      invariant forall r :: 0 <= r < |cols| ==> cols[r] == OfRank(ids[..k], rank, r)
    {
      var v := ids[k];
      assert v in Elems(ids);
      TakeNext(ids, k);
      forall r | 0 <= r < |cols| && r != rank[v]
        ensures OfRank(ids[..k + 1], rank, r) == cols[r]
      {
        assert OfRank(ids[..k + 1], rank, r) == OfRank(ids[..k], rank, r) + [];
      }
      cols := cols[rank[v] := cols[rank[v]] + [v]];
    }
    assert ids[..|ids|] == ids;
  }

  /** Every node sits exactly once, in the column of its rank. */
  ghost predicate ColumnsOf(nodes: set<Id>, rank: map<Id, nat>, cols: Columns) {
    && nodes <= rank.Keys
    && (forall v :: v in nodes ==> rank[v] < |cols|)
    && (forall r :: 0 <= r < |cols| ==> Distinct(cols[r]))
    && (forall r, v :: 0 <= r < |cols| ==> (v in cols[r] <==> v in nodes && rank[v] == r))
  }

  lemma {:induction false} OfRankMembers(ids: seq<Id>, rank: map<Id, nat>, r: nat, v: Id)
    ensures v in OfRank(ids, rank, r) <==> v in ids && v in rank && rank[v] == r
  {
    if ids != [] {
      var front := ids[..|ids| - 1];
      OfRankMembers(front, rank, r, v);
      assert ids == front + [ids[|ids| - 1]];
    }
  }

  lemma {:induction false} OfRankDistinct(ids: seq<Id>, rank: map<Id, nat>, r: nat)
    requires Distinct(ids)
    ensures Distinct(OfRank(ids, rank, r))
  {
    if ids != [] {
      var front, last := ids[..|ids| - 1], ids[|ids| - 1];
      OfRankDistinct(front, rank, r);
      OfRankMembers(front, rank, r, last);
    }
  }

  lemma BucketIsColumns(ids: seq<Id>, rank: map<Id, nat>, cols: Columns)
    requires Distinct(ids) && Elems(ids) <= rank.Keys
    requires forall i :: 0 <= i < |ids| ==> rank[ids[i]] < |cols|
    requires forall r :: 0 <= r < |cols| ==> cols[r] == OfRank(ids, rank, r)
    ensures ColumnsOf(Elems(ids), rank, cols)
  {
    forall r | 0 <= r < |cols|
      ensures Distinct(cols[r])
    {
      OfRankDistinct(ids, rank, r);
    }
    forall r, v | 0 <= r < |cols|
      ensures v in cols[r] <==> v in Elems(ids) && rank[v] == r
    {
      OfRankMembers(ids, rank, r, v);
    }
  }

  // ---- predecessor lists ---------------------------------------------------

  function Copies(x: Id, n: nat): seq<Id> {
    seq(n, _ => x)
  }

  /** `v`'s predecessors in document order, one entry per edge. */
  function PredsOf(ids: seq<Id>, adj: Adjacency, v: Id): seq<Id> {
    if ids == [] then []
    else
      var u := ids[|ids| - 1];
      PredsOf(ids[..|ids| - 1], adj, v) + Copies(u, multiset(Succ(adj, u))[v])
  }

  lemma {:induction false} PredsOfMembers(ids: seq<Id>, adj: Adjacency, u: Id, v: Id)
    ensures u in PredsOf(ids, adj, v) <==> u in ids && v in Succ(adj, u)
  {
    if ids != [] {
      var front, last := ids[..|ids| - 1], ids[|ids| - 1];
      PredsOfMembers(front, adj, u, v);
      assert ids == front + [last];
      var n := multiset(Succ(adj, last))[v];
      assert n > 0 <==> v in Succ(adj, last);
      assert n > 0 ==> Copies(last, n)[0] == last;
    }
  }

  /** A predecessor is listed once per edge. */
  lemma {:induction false} PredsOfCounts(ids: seq<Id>, adj: Adjacency, u: Id, v: Id)
    requires Distinct(ids) && u in ids
    ensures multiset(PredsOf(ids, adj, v))[u] == multiset(Succ(adj, u))[v]
  {
    var front, last := ids[..|ids| - 1], ids[|ids| - 1];
    assert ids == front + [last];
    CopiesCount(last, multiset(Succ(adj, last))[v], u);
    if u == last {
      PredsOfMembers(front, adj, u, v);
    } else {
      PredsOfCounts(front, adj, u, v);
    }
  }

  lemma {:induction false} CopiesCount(x: Id, n: nat, u: Id)
    ensures multiset(Copies(x, n))[u] == if u == x then n else 0
  {
    if n > 0 {
      CopiesCount(x, n - 1, u);
      assert Copies(x, n) == Copies(x, n - 1) + [x];
    }
  }

  method CollectPreds(ids: seq<Id>, adj: Adjacency) returns (preds: Predecessors)
    requires Closed(Elems(ids), adj)
    ensures preds.Keys == Elems(ids)
    ensures forall v :: v in preds ==> preds[v] == PredsOf(ids, adj, v)
  {
    preds := map i | i in ids :: [];
    for k := 0 to |ids|
      invariant preds.Keys == Elems(ids)
      invariant forall v :: v in preds ==> preds[v] == PredsOf(ids[..k], adj, v)
    {
      TakeNext(ids, k);
      assert ids[k] in Elems(ids);
      preds := PushSource(ids[k], Succ(adj, ids[k]), preds);
    }
    assert ids[..|ids|] == ids;
  }

  lemma OneMoreCopy(list': seq<Id>, list: seq<Id>, src: Id, n: nat)
    requires list' == list + Copies(src, n)
    ensures list' + [src] == list + Copies(src, n + 1)
  {
  }

  method PushSource(src: Id, succ: seq<Id>, preds: Predecessors) returns (preds': Predecessors)
    requires forall v :: v in succ ==> v in preds
    ensures preds'.Keys == preds.Keys
    ensures forall v :: v in preds ==> preds'[v] == preds[v] + Copies(src, multiset(succ)[v])
  {
    preds' := preds;
    for k := 0 to |succ|
      invariant preds'.Keys == preds.Keys
      invariant forall v :: v in preds ==> preds'[v] == preds[v] + Copies(src, multiset(succ[..k])[v])
    {
      var dst := succ[k];
      TakeNext(succ, k);
      OneMoreCopy(preds'[dst], preds[dst], src, multiset(succ[..k])[dst]);
      preds' := preds'[dst := preds'[dst] + [src]];
    }
    assert succ[..|succ|] == succ;
  }

  // ---- positions -----------------------------------------------------------

  /** `pos` agrees with the column index everywhere. */
  ghost predicate Agrees(cols: Columns, pos: Positions) {
    forall r :: 0 <= r < |cols| ==> Numbered(cols[r], pos)
  }

  /** The column's boxes are numbered by their index. */
  ghost predicate Numbered(col: seq<Id>, pos: Positions) {
    forall i :: 0 <= i < |col| ==> col[i] in pos && pos[col[i]] == i
  }

  method Renumber(col: seq<Id>, pos: Positions) returns (pos': Positions)
    requires Distinct(col)
    ensures pos'.Keys == pos.Keys + Elems(col)
    ensures forall i :: 0 <= i < |col| ==> pos'[col[i]] == i
    ensures forall v :: v in pos && v !in col ==> pos'[v] == pos[v]
  {
    pos' := pos;
    for k := 0 to |col|
      invariant pos'.Keys == pos.Keys + Elems(col[..k])
      invariant forall i :: 0 <= i < k ==> col[i] in pos' && pos'[col[i]] == i
      invariant forall v :: v in pos && v !in col[..k] ==> v in pos' && pos'[v] == pos[v]
    {
      TakeNext(col, k);
      pos' := pos'[col[k] := k];
    }
    assert col[..|col|] == col;
  }

  lemma NumberedFrame(col: seq<Id>, pos: Positions, pos': Positions)
    requires Numbered(col, pos)
    requires forall v :: v in col ==> v in pos' && pos'[v] == pos[v]
    ensures Numbered(col, pos')
  {
  }

  method InitialPositions(ghost nodes: set<Id>, ghost rank: map<Id, nat>, cols: Columns) returns (pos: Positions)
    requires ColumnsOf(nodes, rank, cols)
    ensures pos.Keys == nodes && Agrees(cols, pos)
  {
    pos := map[];
    for r := 0 to |cols|
      invariant forall v :: v in pos <==> v in nodes && rank[v] < r
      invariant forall q :: 0 <= q < r ==> Numbered(cols[q], pos)
    {
      ghost var pos0 := pos;
      pos := Renumber(cols[r], pos);
      forall q | 0 <= q < r
        ensures Numbered(cols[q], pos)
      {
        NumberedFrame(cols[q], pos0, pos);
      }
    }
    assert pos.Keys == nodes;
  }

  // ---- barycenters ---------------------------------------------------------

  /** The summed positions of the listed boxes that have one, and how many do. */
  function SumPos(ms: seq<Id>, pos: Positions): nat {
    if ms == [] then 0
    else SumPos(ms[..|ms| - 1], pos) + (if ms[|ms| - 1] in pos then pos[ms[|ms| - 1]] else 0)
  }

  function CountPos(ms: seq<Id>, pos: Positions): nat {
    if ms == [] then 0
    else CountPos(ms[..|ms| - 1], pos) + (if ms[|ms| - 1] in pos then 1 else 0)
  }

  /** The sort key of `v`: the mean position of its neighbours, or its own position when none has one. */
  function Key(ms: seq<Id>, pos: Positions, v: Id): real
    requires v in pos
  {
    if CountPos(ms, pos) == 0 then pos[v] as real
    else SumPos(ms, pos) as real / CountPos(ms, pos) as real
  }

  /** How far the positions of the listed boxes lie from `y`, taken together. */
  ghost function Deviation(ms: seq<Id>, pos: Positions, y: real): real {
    if ms == [] then 0.0
    else Deviation(ms[..|ms| - 1], pos, y) + if ms[|ms| - 1] in pos then pos[ms[|ms| - 1]] as real - y else 0.0
  }

  /** `y` added up `n` times. */
  ghost function Times(n: nat, y: real): real {
    if n == 0 then 0.0 else Times(n - 1, y) + y
  }

  lemma {:induction false} TimesIs(n: nat, y: real, product: real)
    requires product == n as real * y
    ensures Times(n, y) == product
  {
    if n == 0 {
      assert product == 0.0;
    } else {
      var before := (n - 1) as real * y;
      assert product == before + y;
      TimesIs(n - 1, y, before);
    }
  }

  lemma {:induction false} DeviationIs(ms: seq<Id>, pos: Positions, y: real)
    ensures Deviation(ms, pos, y) == SumPos(ms, pos) as real - Times(CountPos(ms, pos), y)
  {
    if ms != [] {
      DeviationIs(ms[..|ms| - 1], pos, y);
    }
  }

  lemma {:induction false} NonePositioned(ms: seq<Id>, pos: Positions)
    ensures CountPos(ms, pos) == 0 <==> forall m :: m in ms ==> m !in pos
  {
    if ms != [] {
      var front, last := ms[..|ms| - 1], ms[|ms| - 1];
      NonePositioned(front, pos);
      assert ms == front + [last];
    }
  }

  /** The key is the mean, the one point from which the positions deviate by nothing in all; without any, the own position. */
  lemma KeyIsMean(ms: seq<Id>, pos: Positions, v: Id, y: real)
    requires v in pos
    ensures (exists m :: m in ms && m in pos) ==> (Deviation(ms, pos, y) == 0.0 <==> y == Key(ms, pos, v))
    ensures !(exists m :: m in ms && m in pos) ==> Key(ms, pos, v) == pos[v] as real
  {
    DeviationIs(ms, pos, y);
    NonePositioned(ms, pos);
    if CountPos(ms, pos) > 0 {
      MeanIff(SumPos(ms, pos) as real, CountPos(ms, pos), y, SumPos(ms, pos) as real / CountPos(ms, pos) as real);
    }
  }

  lemma MeanIff(sum: real, n: nat, y: real, mean: real)
    requires n > 0 && mean == sum / n as real
    ensures sum - Times(n, y) == 0.0 <==> y == mean
  {
    TimesIs(n, y, n as real * y);
    Quotient(sum, n as real, y, mean, n as real * y);
  }

  lemma Quotient(sum: real, n: real, y: real, mean: real, product: real)
    requires n > 0.0 && mean == sum / n && product == n * y
    ensures sum == product <==> y == mean
  {
    assert sum == product ==> y == product / n;
    assert n * mean == sum;
  }

  lemma {:induction false} CountAll(ms: seq<Id>, pos: Positions)
    requires forall m :: m in ms ==> m in pos
    ensures CountPos(ms, pos) == |ms|
  {
    if ms != [] {
      CountAll(ms[..|ms| - 1], pos);
    }
  }

  /** Sums and counts only look at the listed boxes. */
  lemma {:induction false} SumFrame(ms: seq<Id>, pos: Positions, pos': Positions)
    requires forall m :: m in ms ==> m in pos && m in pos' && pos[m] == pos'[m]
    ensures SumPos(ms, pos) == SumPos(ms, pos') && CountPos(ms, pos) == CountPos(ms, pos')
  {
    if ms != [] {
      SumFrame(ms[..|ms| - 1], pos, pos');
    }
  }

  // ---- the stable sort -----------------------------------------------------

  /** The comparator: by key, then by prior position. */
  predicate Leq(key: map<Id, real>, pos: Positions, a: Id, b: Id)
    requires a in key && b in key && a in pos && b in pos
  {
    key[a] < key[b] || (key[a] == key[b] && pos[a] <= pos[b])
  }

  ghost predicate Keyed(s: seq<Id>, key: map<Id, real>, pos: Positions) {
    forall v :: v in s ==> v in key && v in pos
  }

  ghost predicate SortedBy(s: seq<Id>, key: map<Id, real>, pos: Positions)
    requires Keyed(s, key, pos)
  {
    forall i, j :: 0 <= i < j < |s| ==> Leq(key, pos, s[i], s[j])
  }

  function Insert(x: Id, s: seq<Id>, key: map<Id, real>, pos: Positions): (t: seq<Id>)
    requires Keyed([x] + s, key, pos)
    ensures multiset(t) == multiset([x] + s)
    ensures forall v :: v in t <==> v == x || v in s
  {
    if s == [] then [x]
    else
      assert s[0] in [x] + s;
      assert s == [s[0]] + s[1..];
      assert forall v :: v in [x] + s[1..] ==> v in [x] + s;
      if Leq(key, pos, x, s[0]) then [x] + s else [s[0]] + Insert(x, s[1..], key, pos)
  }

  /** The library's stable sort, as insertion sort: equal elements keep their order. */
  function Sort(s: seq<Id>, key: map<Id, real>, pos: Positions): (t: seq<Id>)
    requires Keyed(s, key, pos)
    ensures multiset(t) == multiset(s)
    ensures forall v :: v in t <==> v in s
  {
    if s == [] then []
    else
      assert s == [s[0]] + s[1..];
      assert Keyed(s[1..], key, pos);
      Insert(s[0], Sort(s[1..], key, pos), key, pos)
  }

  lemma {:induction false} InsertSorted(x: Id, s: seq<Id>, key: map<Id, real>, pos: Positions)
    requires Keyed([x] + s, key, pos)
    requires Keyed(s, key, pos) && SortedBy(s, key, pos)
    ensures SortedBy(Insert(x, s, key, pos), key, pos)
  {
    if s != [] && !Leq(key, pos, x, s[0]) {
      assert s == [s[0]] + s[1..];
      assert Keyed([x] + s[1..], key, pos);
      InsertSorted(x, s[1..], key, pos);
      var t := Insert(x, s[1..], key, pos);
      forall j | 0 <= j < |t|
        ensures Leq(key, pos, s[0], t[j])
      {
        assert t[j] in t;
        if t[j] != x {
          var k :| 0 <= k < |s[1..]| && s[1..][k] == t[j];
          assert s[k + 1] == t[j];
        }
      }
    }
  }

  lemma {:induction false} SortSorted(s: seq<Id>, key: map<Id, real>, pos: Positions)
    requires Keyed(s, key, pos)
    ensures SortedBy(Sort(s, key, pos), key, pos)
  {
    if s != [] {
      assert s == [s[0]] + s[1..];
      assert Keyed(s[1..], key, pos);
      SortSorted(s[1..], key, pos);
      InsertSorted(s[0], Sort(s[1..], key, pos), key, pos);
    }
  }

  // ---- one column ----------------------------------------------------------

  function Neighbours(preds: Predecessors, v: Id): seq<Id> {
    if v in preds then preds[v] else []
  }

  /** `a` comes before `b`: smaller key under `pos`, or the same key and earlier in `prior`. */
  ghost predicate Earlier(preds: Predecessors, pos: Positions, prior: Positions, a: Id, b: Id) {
    && a in pos && b in pos && a in prior && b in prior
    && (Key(Neighbours(preds, a), pos, a) < Key(Neighbours(preds, b), pos, b)
        || (Key(Neighbours(preds, a), pos, a) == Key(Neighbours(preds, b), pos, b) && prior[a] < prior[b]))
  }

  ghost predicate InOrder(preds: Predecessors, pos: Positions, prior: Positions, col: seq<Id>) {
    forall i, j :: 0 <= i < j < |col| ==> Earlier(preds, pos, prior, col[i], col[j])
  }

  method Keys(col: seq<Id>, preds: Predecessors, pos: Positions) returns (key: map<Id, real>)
    requires forall v :: v in col ==> v in pos
    ensures forall v :: v in col ==> v in key && key[v] == Key(Neighbours(preds, v), pos, v)
  {
    key := map[];
    for k := 0 to |col|
      invariant forall v :: v in col[..k] ==> v in key && key[v] == Key(Neighbours(preds, v), pos, v)
    {
      TakeNext(col, k);
      var sum, count := Barycenter(Neighbours(preds, col[k]), pos);
      key := key[col[k] := if count == 0 then pos[col[k]] as real else sum as real / count as real];
    }
    assert col[..|col|] == col;
  }

  method Barycenter(ms: seq<Id>, pos: Positions) returns (sum: nat, count: nat)
    ensures sum == SumPos(ms, pos) && count == CountPos(ms, pos)
  {
    sum, count := 0, 0;
    for k := 0 to |ms|
      invariant sum == SumPos(ms[..k], pos) && count == CountPos(ms[..k], pos)
    {
      TakeNext(ms, k);
      if ms[k] in pos {
        sum, count := sum + pos[ms[k]], count + 1;
      }
    }
    assert ms[..|ms|] == ms;
  }

  /** Reorder one numbered column by barycenter, ties in prior order, and renumber it. */
  method BarycenterOrder(col: seq<Id>, preds: Predecessors, pos: Positions) returns (col': seq<Id>, pos': Positions)
    requires Distinct(col) && Numbered(col, pos)
    ensures multiset(col') == multiset(col) && Distinct(col')
    ensures InOrder(preds, pos, pos, col')
    ensures pos'.Keys == pos.Keys && Numbered(col', pos')
    ensures forall v :: v in pos && v !in col ==> pos'[v] == pos[v]
  {
    if |col| < 2 {
      return col, pos;
    }
    var key := Keys(col, preds, pos);
    col' := Sort(col, key, pos);
    SortSorted(col, key, pos);
    SameMultisetDistinct(col, col');
    SortedInOrder(col, key, preds, pos, col');
    pos' := Renumber(col', pos);
    assert Elems(col') <= pos.Keys;
  }

  lemma SortedInOrder(col: seq<Id>, key: map<Id, real>, preds: Predecessors, pos: Positions, sorted: seq<Id>)
    requires Numbered(col, pos) && Keyed(sorted, key, pos) && SortedBy(sorted, key, pos) && Distinct(sorted)
    requires forall v :: v in col ==> v in pos && v in key && key[v] == Key(Neighbours(preds, v), pos, v)
    requires forall v :: v in sorted ==> v in col
    ensures InOrder(preds, pos, pos, sorted)
  {
    forall i, j | 0 <= i < j < |sorted|
      ensures Earlier(preds, pos, pos, sorted[i], sorted[j])
    {
      var a, b := sorted[i], sorted[j];
      assert a in sorted && b in sorted && Leq(key, pos, a, b);
      NumbersApart(col, pos, a, b);
    }
  }

  /** Two boxes of a numbered column have different numbers. */
  lemma NumbersApart(col: seq<Id>, pos: Positions, a: Id, b: Id)
    requires Numbered(col, pos) && a in col && b in col && a != b
    ensures a in pos && b in pos && pos[a] != pos[b]
  {
    var i :| 0 <= i < |col| && col[i] == a;
    var j :| 0 <= j < |col| && col[j] == b;
  }

  lemma {:induction false} SameMultisetDistinct<T>(a: seq<T>, b: seq<T>)
    requires multiset(a) == multiset(b)
    requires Distinct(a)
    ensures Distinct(b)
  {
    forall i, j | 0 <= i < j < |b|
      ensures b[i] != b[j]
    {
      if b[i] == b[j] {
        assert b == b[..i] + [b[i]] + b[i + 1..j] + [b[j]] + b[j + 1..];
        assert multiset(b)[b[i]] >= 2;
        DistinctOnce(a, b[i]);
      }
    }
  }

  lemma {:induction false} DistinctOnce<T>(a: seq<T>, x: T)
    requires Distinct(a)
    ensures multiset(a)[x] <= 1
  {
    if a != [] {
      var front := a[..|a| - 1];
      DistinctOnce(front, x);
      assert a == front + [a[|a| - 1]];
    }
  }

  // ---- the sweep -----------------------------------------------------------

  /** Every predecessor of a box lies in an earlier column, and a box past the first column has one. */
  ghost predicate Layered(nodes: set<Id>, rank: map<Id, nat>, preds: Predecessors) {
    && nodes <= rank.Keys
    && forall v :: v in nodes && rank[v] > 0 ==>
      Neighbours(preds, v) != [] && forall m :: m in Neighbours(preds, v) ==> m in nodes && rank[m] < rank[v]
  }

  /** The positions when column `r` is reordered: new ones in the columns before it, prior ones from there on. */
  ghost function AtTurn(rank: map<Id, nat>, pos: Positions, pos': Positions, r: nat): Positions
    requires pos.Keys == pos'.Keys
  {
    map v | v in pos :: if v in rank && rank[v] < r then pos'[v] else pos[v]
  }

  /** The columns after a sweep from `cols` numbered by `pos`: each in order by the positions of its turn. */
  ghost predicate Swept(nodes: set<Id>, rank: map<Id, nat>, preds: Predecessors, cols: Columns, pos: Positions, cols': Columns, pos': Positions) {
    && |cols'| == |cols|
    && ColumnsOf(nodes, rank, cols')
    && Agrees(cols', pos')
    && pos'.Keys == pos.Keys == nodes
    && (forall r :: 0 <= r < |cols| ==> multiset(cols'[r]) == multiset(cols[r]))
    && (|cols| > 0 ==> cols'[0] == cols[0])
    && forall r :: 0 < r < |cols| ==> InOrder(preds, AtTurn(rank, pos, pos', r), pos, cols'[r])
  }

  /** One left-to-right pass over the columns after the first. */
  method Sweep(ghost nodes: set<Id>, ghost rank: map<Id, nat>, preds: Predecessors, cols: Columns, pos: Positions)
    returns (cols': Columns, pos': Positions)
    requires ColumnsOf(nodes, rank, cols)
    requires pos.Keys == nodes && Agrees(cols, pos)
    ensures Swept(nodes, rank, preds, cols, pos, cols', pos')
  {
    cols', pos' := cols, pos;
    if |cols| == 0 {
      return;
    }
    for r := 1 to |cols|
      invariant |cols'| == |cols|
      invariant ColumnsOf(nodes, rank, cols')
      invariant Agrees(cols', pos')
      invariant pos'.Keys == nodes
      invariant forall q :: 0 <= q < |cols| ==> multiset(cols'[q]) == multiset(cols[q])
      invariant cols'[0] == cols[0] && forall q :: r <= q < |cols| ==> cols'[q] == cols[q]
      invariant forall v :: v in nodes && rank[v] >= r ==> pos'[v] == pos[v]
      invariant forall q :: 0 < q < r ==> InOrder(preds, AtTurn(rank, pos, pos', q), pos, cols'[q])
    {
      ghost var cols1, pos1 := cols', pos';
      var col;
      col, pos' := BarycenterOrder(cols'[r], preds, pos');
      cols' := cols'[r := col];
      ColumnStep(nodes, rank, cols1, pos1, r, col, pos');
      TurnTaken(nodes, rank, preds, cols1, pos, pos1, r, col);
      forall q | 0 < q <= r
        ensures InOrder(preds, AtTurn(rank, pos, pos', q), pos, cols'[q])
      {
        TurnsKept(nodes, rank, pos, pos1, pos', r, q);
      }
    }
  }

  /** The column just reordered was so by the positions of its turn. */
  lemma TurnTaken(nodes: set<Id>, rank: map<Id, nat>, preds: Predecessors, cols: Columns, prior: Positions, pos: Positions,
                  r: nat, col: seq<Id>)
    requires ColumnsOf(nodes, rank, cols) && r < |cols| && pos.Keys == prior.Keys == nodes
    requires forall v :: v in nodes && rank[v] >= r ==> pos[v] == prior[v]
    requires InOrder(preds, pos, pos, col) && multiset(col) == multiset(cols[r])
    ensures InOrder(preds, AtTurn(rank, prior, pos, r), prior, col)
  {
    assert AtTurn(rank, prior, pos, r) == pos;
    forall v | v in col
      ensures v in nodes && rank[v] == r
    {
      assert v in multiset(cols[r]);
    }
    forall i, j | 0 <= i < j < |col|
      ensures Earlier(preds, pos, prior, col[i], col[j])
    {
      assert Earlier(preds, pos, pos, col[i], col[j]);
      assert col[i] in col && col[j] in col;
    }
  }

  /** Later turns do not change what earlier ones looked at. */
  lemma TurnsKept(nodes: set<Id>, rank: map<Id, nat>, prior: Positions, pos: Positions, pos': Positions, r: nat, q: nat)
    requires nodes <= rank.Keys && prior.Keys == pos.Keys == pos'.Keys == nodes && q <= r
    requires forall m :: m in nodes && rank[m] != r ==> pos'[m] == pos[m]
    ensures AtTurn(rank, prior, pos', q) == AtTurn(rank, prior, pos, q)
  {
  }

  /** Replacing one column by a renumbered permutation of itself. */
  lemma ColumnStep(nodes: set<Id>, rank: map<Id, nat>, cols: Columns, pos: Positions, r: nat, col: seq<Id>, pos': Positions)
    requires ColumnsOf(nodes, rank, cols) && Agrees(cols, pos) && pos.Keys == pos'.Keys == nodes
    requires r < |cols|
    requires multiset(col) == multiset(cols[r]) && Distinct(col)
    requires Numbered(col, pos')
    requires forall v :: v in pos && v !in cols[r] ==> pos'[v] == pos[v]
    ensures ColumnsOf(nodes, rank, cols[r := col])
    ensures Agrees(cols[r := col], pos')
    ensures forall v :: v in nodes && rank[v] != r ==> pos'[v] == pos[v]
  {
    forall v
      ensures v in col <==> v in cols[r]
    {
      assert v in multiset(col) <==> v in multiset(cols[r]);
    }
    forall q | 0 <= q < |cols| && q != r
      ensures Numbered(cols[q], pos')
    {
      NumberedFrame(cols[q], pos, pos');
    }
  }

  lemma KeyFrame(nodes: set<Id>, rank: map<Id, nat>, preds: Predecessors, pos: Positions, pos': Positions, r: nat, v: Id)
    requires nodes <= rank.Keys && Layered(nodes, rank, preds)
    requires pos.Keys == pos'.Keys == nodes
    requires forall m :: m in nodes && rank[m] < r ==> pos'[m] == pos[m]
    requires v in nodes && 0 < rank[v] <= r
    ensures Key(Neighbours(preds, v), pos, v) == Key(Neighbours(preds, v), pos', v)
  {
    SumFrame(Neighbours(preds, v), pos, pos');
    CountAll(Neighbours(preds, v), pos);
  }

  /** On a layered scope the positions of a turn give the same keys as the final ones. */
  lemma LayeredInOrder(nodes: set<Id>, rank: map<Id, nat>, preds: Predecessors, cols: Columns, pos: Positions,
                       cols': Columns, pos': Positions, r: nat)
    requires Layered(nodes, rank, preds) && Swept(nodes, rank, preds, cols, pos, cols', pos') && 0 < r < |cols|
    ensures InOrder(preds, pos', pos, cols'[r])
  {
    var at, col := AtTurn(rank, pos, pos', r), cols'[r];
    forall i, j | 0 <= i < j < |col|
      ensures Earlier(preds, pos', pos, col[i], col[j])
    {
      assert col[i] in col && col[j] in col;
      KeyFrame(nodes, rank, preds, at, pos', r, col[i]);
      KeyFrame(nodes, rank, preds, at, pos', r, col[j]);
      assert Earlier(preds, at, pos, col[i], col[j]);
    }
  }

  // ---- the sweep settles at once -------------------------------------------

  /** Two orderings of the same distinct elements under one asymmetric relation are equal. */
  lemma {:induction false} UniqueOrder(preds: Predecessors, pos: Positions, prior: Positions, a: seq<Id>, b: seq<Id>)
    requires multiset(a) == multiset(b)
    requires InOrder(preds, pos, prior, a) && InOrder(preds, pos, prior, b)
    ensures a == b
  {
    assert |multiset(a)| == |a| && |multiset(b)| == |b|;
    if a != [] {
      SameFirst(preds, pos, prior, a, b);
      SameTail(a, b);
      TailInOrder(preds, pos, prior, a);
      TailInOrder(preds, pos, prior, b);
      UniqueOrder(preds, pos, prior, a[1..], b[1..]);
    }
  }

  lemma SameFirst(preds: Predecessors, pos: Positions, prior: Positions, a: seq<Id>, b: seq<Id>)
    requires a != [] && b != [] && multiset(a) == multiset(b)
    requires InOrder(preds, pos, prior, a) && InOrder(preds, pos, prior, b)
    ensures a[0] == b[0]
  {
    assert a[0] in multiset(a) && b[0] in multiset(b);
    var i :| 0 <= i < |a| && a[i] == b[0];
    var j :| 0 <= j < |b| && b[j] == a[0];
    if i != 0 && j != 0 {
      Asymmetric(preds, pos, prior, a[0], b[0]);
    }
  }

  lemma Asymmetric(preds: Predecessors, pos: Positions, prior: Positions, x: Id, y: Id)
    ensures !(Earlier(preds, pos, prior, x, y) && Earlier(preds, pos, prior, y, x))
  {
  }

  lemma SameTail<T>(a: seq<T>, b: seq<T>)
    requires a != [] && b != [] && multiset(a) == multiset(b) && a[0] == b[0]
    ensures multiset(a[1..]) == multiset(b[1..])
    ensures a[1..] == b[1..] ==> a == b
  {
    assert a == [a[0]] + a[1..] && b == [b[0]] + b[1..];
    assert multiset(a[1..]) == multiset(a) - multiset{a[0]} == multiset(b[1..]);
  }

  lemma TailInOrder(preds: Predecessors, pos: Positions, prior: Positions, a: seq<Id>)
    requires a != [] && InOrder(preds, pos, prior, a)
    ensures InOrder(preds, pos, prior, a[1..])
  {
  }

  /** A column already in order, numbered by its index, is in order with its own numbers breaking ties. */
  lemma OwnTies(preds: Predecessors, pos: Positions, prior: Positions, col: seq<Id>)
    requires InOrder(preds, pos, prior, col) && Numbered(col, pos)
    ensures InOrder(preds, pos, pos, col)
  {
  }

  /** On a layered scope a second sweep changes nothing. */
  lemma SweepSettles(nodes: set<Id>, rank: map<Id, nat>, preds: Predecessors, cols: Columns, pos: Positions,
                     cols1: Columns, pos1: Positions, cols2: Columns, pos2: Positions)
    requires Layered(nodes, rank, preds)
    requires Swept(nodes, rank, preds, cols, pos, cols1, pos1)
    requires Swept(nodes, rank, preds, cols1, pos1, cols2, pos2)
    ensures cols2 == cols1
    ensures forall v :: v in nodes ==> pos2[v] == pos1[v]
  {
    ColumnsSettle(nodes, rank, preds, cols, pos, cols1, pos1, cols2, pos2, |cols|);
  }

  lemma {:induction false} ColumnsSettle(nodes: set<Id>, rank: map<Id, nat>, preds: Predecessors, cols: Columns, pos: Positions,
                                         cols1: Columns, pos1: Positions, cols2: Columns, pos2: Positions, n: nat)
    requires n <= |cols|
    requires Layered(nodes, rank, preds)
    requires Swept(nodes, rank, preds, cols, pos, cols1, pos1)
    requires Swept(nodes, rank, preds, cols1, pos1, cols2, pos2)
    ensures forall r :: 0 <= r < n ==> cols2[r] == cols1[r]
    ensures forall v :: v in nodes && rank[v] < n ==> pos2[v] == pos1[v]
    decreases n
  {
    if n > 0 {
      var r := n - 1;
      ColumnsSettle(nodes, rank, preds, cols, pos, cols1, pos1, cols2, pos2, r);
      if r > 0 {
        LayeredInOrder(nodes, rank, preds, cols, pos, cols1, pos1, r);
        LayeredInOrder(nodes, rank, preds, cols1, pos1, cols2, pos2, r);
        OwnTies(preds, pos1, pos, cols1[r]);
        SameKeys(nodes, rank, preds, cols2, pos1, pos2, r);
        UniqueOrder(preds, pos1, pos1, cols1[r], cols2[r]);
      }
      SameNumbers(nodes, rank, cols1, pos1, cols2, pos2, r);
    }
  }

  lemma SameKeys(nodes: set<Id>, rank: map<Id, nat>, preds: Predecessors, cols: Columns, pos1: Positions, pos2: Positions, r: nat)
    requires 0 < r < |cols| && ColumnsOf(nodes, rank, cols)
    requires Layered(nodes, rank, preds)
    requires pos1.Keys == pos2.Keys == nodes
    requires forall m :: m in nodes && rank[m] < r ==> pos2[m] == pos1[m]
    requires InOrder(preds, pos2, pos1, cols[r])
    ensures InOrder(preds, pos1, pos1, cols[r])
  {
    forall i, j | 0 <= i < j < |cols[r]|
      ensures Earlier(preds, pos1, pos1, cols[r][i], cols[r][j])
    {
      assert cols[r][i] in cols[r] && cols[r][j] in cols[r];
      assert Earlier(preds, pos2, pos1, cols[r][i], cols[r][j]);
      KeyFrame(nodes, rank, preds, pos1, pos2, r, cols[r][i]);
      KeyFrame(nodes, rank, preds, pos1, pos2, r, cols[r][j]);
    }
  }

  // ---- the sweep is determined ---------------------------------------------

  /** Cyclic or not, the order of every column after a sweep is fixed by the columns before it. */
  lemma SweepUnique(nodes: set<Id>, rank: map<Id, nat>, preds: Predecessors, cols: Columns, pos: Positions,
                    cols1: Columns, pos1: Positions, cols2: Columns, pos2: Positions)
    requires Swept(nodes, rank, preds, cols, pos, cols1, pos1)
    requires Swept(nodes, rank, preds, cols, pos, cols2, pos2)
    ensures cols1 == cols2
  {
    ColumnsUnique(nodes, rank, preds, cols, pos, cols1, pos1, cols2, pos2, |cols|);
  }

  lemma {:induction false} ColumnsUnique(nodes: set<Id>, rank: map<Id, nat>, preds: Predecessors, cols: Columns, pos: Positions,
                                         cols1: Columns, pos1: Positions, cols2: Columns, pos2: Positions, n: nat)
    requires n <= |cols|
    requires Swept(nodes, rank, preds, cols, pos, cols1, pos1)
    requires Swept(nodes, rank, preds, cols, pos, cols2, pos2)
    ensures forall r :: 0 <= r < n ==> cols1[r] == cols2[r]
    ensures forall v :: v in nodes && rank[v] < n ==> pos1[v] == pos2[v]
    decreases n
  {
    if n > 0 {
      var r := n - 1;
      ColumnsUnique(nodes, rank, preds, cols, pos, cols1, pos1, cols2, pos2, r);
      if r > 0 {
        assert AtTurn(rank, pos, pos1, r) == AtTurn(rank, pos, pos2, r);
        UniqueOrder(preds, AtTurn(rank, pos, pos1, r), pos, cols1[r], cols2[r]);
      }
      SameNumbers(nodes, rank, cols1, pos1, cols2, pos2, r);
    }
  }

  /** The same column has the same numbers. */
  lemma SameNumbers(nodes: set<Id>, rank: map<Id, nat>, cols1: Columns, pos1: Positions, cols2: Columns, pos2: Positions, r: nat)
    requires ColumnsOf(nodes, rank, cols1) && Agrees(cols1, pos1) && Agrees(cols2, pos2)
    requires r < |cols1| && r < |cols2| && cols1[r] == cols2[r] && pos1.Keys == pos2.Keys == nodes
    ensures forall v :: v in nodes && rank[v] == r ==> pos1[v] == pos2[v]
  {
    forall v | v in nodes && rank[v] == r
      ensures pos1[v] == pos2[v]
    {
      assert v in cols1[r];
      var i :| 0 <= i < |cols1[r]| && cols1[r][i] == v;
      assert Numbered(cols1[r], pos1) && Numbered(cols2[r], pos2);
    }
  }

  // ---- acyclic scopes are layered ------------------------------------------

  /** Ranks that rise along every edge put all predecessors in earlier columns. */
  lemma AcyclicIsLayered(ids: seq<Id>, adj: Adjacency, rank: map<Id, nat>, preds: Predecessors)
    requires rank.Keys == preds.Keys == Elems(ids)
    requires forall v :: v in preds ==> preds[v] == PredsOf(ids, adj, v)
    requires StrictAlongEdges(Elems(ids), adj, rank)
    requires RaisedByPredecessor(Elems(ids), adj, rank)
    ensures Layered(Elems(ids), rank, preds)
  {
    forall v | v in Elems(ids) && rank[v] > 0
      ensures Neighbours(preds, v) != [] && forall m :: m in Neighbours(preds, v) ==> m in Elems(ids) && rank[m] < rank[v]
    {
      assert HasPredecessor(adj, Elems(ids), v);
      var u :| u in Elems(ids) && v in Succ(adj, u);
      PredsOfMembers(ids, adj, u, v);
      forall m | m in Neighbours(preds, v)
        ensures m in Elems(ids) && rank[m] < rank[v]
      {
        PredsOfMembers(ids, adj, m, v);
      }
    }
  }

  // ---- the ordering phase of a scope ---------------------------------------

  /** Bucket the ranked boxes and sweep once; `cols0` and `pos0` are the document-order start. */
  method OrderScope(ids: seq<Id>, adj: Adjacency, rank: map<Id, nat>)
    returns (preds: Predecessors, cols: Columns, pos: Positions, ghost cols0: Columns, ghost pos0: Positions)
    requires Distinct(ids) && rank.Keys == Elems(ids) && Closed(Elems(ids), adj)
    ensures preds.Keys == Elems(ids) && forall v :: v in preds ==> preds[v] == PredsOf(ids, adj, v)
    ensures forall r :: 0 <= r < |cols0| ==> cols0[r] == OfRank(ids, rank, r)
    ensures Agrees(cols0, pos0)
    ensures ColumnsOf(Elems(ids), rank, cols)
    ensures Swept(Elems(ids), rank, preds, cols0, pos0, cols, pos)
    ensures StrictAlongEdges(Elems(ids), adj, rank) && RaisedByPredecessor(Elems(ids), adj, rank) ==>
              Layered(Elems(ids), rank, preds)
  {
    var maxRank := MaxRank(ids, rank);
    cols := Bucket(ids, rank, maxRank);
    BucketIsColumns(ids, rank, cols);
    preds := CollectPreds(ids, adj);
    pos := InitialPositions(Elems(ids), rank, cols);
    cols0, pos0 := cols, pos;
    cols, pos := Sweep(Elems(ids), rank, preds, cols, pos);
    if StrictAlongEdges(Elems(ids), adj, rank) && RaisedByPredecessor(Elems(ids), adj, rank) {
      AcyclicIsLayered(ids, adj, rank, preds);
    }
  }
}

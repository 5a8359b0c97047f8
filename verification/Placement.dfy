/**
 Column packing and vertical placement of one diagram scope (rust/crates/bpmn-svg/src/diagram.rs).

 Each rank is one column, as wide as its widest box, with a gap after it wide enough for the captions
 of the flows that cross it. Down a column every box wants the lower median of its predecessors'
 heights and is pushed below the box above it. Coordinates are reals.
 */
module Placement {
  import opened Basics
  import opened Ranking
  import opened Ordering

  const COL_GAP := 120.0
  const ROW_GAP := 56.0
  const ID_CHAR_W := 5.2
  const LEFT_STUB := 22.0

  datatype Size = Size(w: real, h: real)

  datatype Point = Point(x: real, y: real)

  function Larger(a: real, b: real): real {
    if a < b then b else a
  }

  // ---- columns -------------------------------------------------------------

  /** The column's width is that of one of its boxes, or nothing. */
  ghost predicate WidthMet(boxes: seq<Id>, rank: map<Id, nat>, size: map<Id, Size>, width: seq<real>, r: nat)
    requires r < |width|
  {
    width[r] == 0.0 || exists v :: v in boxes && v in rank && v in size && rank[v] == r && size[v].w == width[r]
  }

  method ColumnWidths(ids: seq<Id>, rank: map<Id, nat>, size: map<Id, Size>, n: nat) returns (width: seq<real>)
    requires Elems(ids) <= rank.Keys && Elems(ids) <= size.Keys
    requires forall v :: v in ids ==> rank[v] < n
    ensures |width| == n
    ensures forall v :: v in ids ==> size[v].w <= width[rank[v]]
    ensures forall r :: 0 <= r < n ==> width[r] >= 0.0
    ensures forall r :: 0 <= r < n ==> WidthMet(ids, rank, size, width, r)
  {
    width := seq(n, _ => 0.0);
    for k := 0 to |ids|
      invariant |width| == n
      invariant forall v :: v in ids[..k] ==> size[v].w <= width[rank[v]]
      invariant forall r :: 0 <= r < n ==> width[r] >= 0.0
      invariant forall r :: 0 <= r < n ==> WidthMet(ids[..k], rank, size, width, r)
    {
      TakeNext(ids, k);
      var v := ids[k];
      width := WidenAt(ids[..k], rank, size, width, v);
    }
    assert ids[..|ids|] == ids;
  }

  method WidenAt(ghost seen: seq<Id>, rank: map<Id, nat>, size: map<Id, Size>, width: seq<real>, v: Id) returns (width': seq<real>)
    requires v in rank && v in size && rank[v] < |width|
    requires forall u :: u in seen ==> u in rank && u in size && rank[u] < |width| && size[u].w <= width[rank[u]]
    requires forall r :: 0 <= r < |width| ==> width[r] >= 0.0
    requires forall r :: 0 <= r < |width| ==> WidthMet(seen, rank, size, width, r)
    ensures |width'| == |width|
    ensures forall u :: u in seen + [v] ==> size[u].w <= width'[rank[u]]
    ensures forall r :: 0 <= r < |width| ==> width'[r] >= 0.0
    ensures forall r :: 0 <= r < |width| ==> WidthMet(seen + [v], rank, size, width', r)
  {
    var r := rank[v];
    width' := width[r := Larger(width[r], size[v].w)];
    forall q | 0 <= q < |width|
      ensures WidthMet(seen + [v], rank, size, width', q)
    {
      assert WidthMet(seen, rank, size, width, q);
      if width'[q] == width[q] {
        if width[q] != 0.0 {
          var u :| u in seen && u in rank && u in size && rank[u] == q && size[u].w == width[q];
          assert u in seen + [v];
        }
      } else {
        assert v in seen + [v];
      }
    }
  }

  /** The room an adjacent-column flow's caption takes. */
  function CaptionWidth(f: Flow): real {
    (|f.name| as real + 2.0) * ID_CHAR_W + LEFT_STUB + 40.0
  }

  /** A fixed room and so much per character. */
  lemma CaptionIs(f: Flow)
    ensures CaptionWidth(f) == 72.4 + 5.2 * |f.name| as real
  {
  }

  ghost predicate CrossesGap(f: Flow, rank: map<Id, nat>, r: nat) {
    && f.source in rank && f.target in rank
    && rank[f.source] == r && rank[f.target] == r + 1
    && f.name != ""
  }

  /** The gap after a column is that of one of the captions crossing it, or the usual one. */
  ghost predicate GapMet(flows: seq<Flow>, rank: map<Id, nat>, gap: seq<real>, r: nat)
    requires r < |gap|
  {
    gap[r] == COL_GAP || exists i :: 0 <= i < |flows| && CrossesGap(flows[i], rank, r) && CaptionWidth(flows[i]) == gap[r]
  }

  /** The gaps are the usual one or, where they are wider, those of the widest caption. */
  ghost predicate Gaps(flows: seq<Flow>, rank: map<Id, nat>, gap: seq<real>) {
    && (forall r :: 0 <= r < |gap| ==> gap[r] >= COL_GAP && GapMet(flows, rank, gap, r))
    && (forall i, r :: 0 <= i < |flows| && 0 <= r < |gap| && CrossesGap(flows[i], rank, r) ==> CaptionWidth(flows[i]) <= gap[r])
  }

  lemma GapStep(flows: seq<Flow>, rank: map<Id, nat>, gap: seq<real>, f: Flow, both: seq<Flow>, gap': seq<real>)
    requires Gaps(flows, rank, gap) && both == flows + [f] && |gap'| == |gap|
    requires forall r :: 0 <= r < |gap| ==> gap'[r] == if CrossesGap(f, rank, r) then Larger(gap[r], CaptionWidth(f)) else gap[r]
    ensures Gaps(both, rank, gap')
  {
    forall r | 0 <= r < |gap|
      ensures gap'[r] >= COL_GAP && GapMet(both, rank, gap', r)
    {
      assert GapMet(flows, rank, gap, r);
      if gap'[r] == gap[r] {
        if gap[r] != COL_GAP {
          var i :| 0 <= i < |flows| && CrossesGap(flows[i], rank, r) && CaptionWidth(flows[i]) == gap[r];
          assert both[i] == flows[i];
        }
      } else {
        assert both[|flows|] == f;
      }
    }
    assert forall i :: 0 <= i < |both| ==> both[i] == if i < |flows| then flows[i] else f;
  }

  method ColumnGaps(flows: seq<Flow>, rank: map<Id, nat>, n: nat) returns (gap: seq<real>)
    requires forall v :: v in rank ==> rank[v] < n
    ensures |gap| == n && Gaps(flows, rank, gap)
  {
    gap := seq(n, _ => COL_GAP);
    for k := 0 to |flows|
      invariant |gap| == n && Gaps(flows[..k], rank, gap)
    {
      TakeNext(flows, k);
      var f := flows[k];
      ghost var gap0 := gap;
      if f.source in rank && f.target in rank {
        var rs, rt := rank[f.source], rank[f.target];
        if rt == rs + 1 && f.name != "" {
          gap := gap[rs := Larger(gap[rs], CaptionWidth(f))];
        }
      }
      GapStep(flows[..k], rank, gap0, f, flows[..k + 1], gap);
    }
    assert flows[..|flows|] == flows;
  }

  /** Columns stand side by side: each starts after the one before it and its gap. */
  method ColumnLefts(width: seq<real>, gap: seq<real>) returns (left: seq<real>)
    requires |gap| == |width|
    ensures |left| == |width|
    ensures forall r :: 0 < r < |left| ==> left[r] == left[r - 1] + width[r - 1] + gap[r - 1]
    ensures |left| > 0 ==> left[0] == 0.0
  {
    left := [];
    var acc := 0.0;
    for r := 0 to |width|
      invariant |left| == r
      invariant forall q :: 0 < q < r ==> left[q] == left[q - 1] + width[q - 1] + gap[q - 1]
      invariant r > 0 ==> left[0] == 0.0
      invariant acc == if r == 0 then 0.0 else left[r - 1] + width[r - 1] + gap[r - 1]
    {
      left := left + [acc];
      acc := acc + (width[r] + gap[r]);
    }
  }

  /** A later column starts at least one gap right of where an earlier one ends. */
  lemma {:induction false} ColumnsApart(width: seq<real>, gap: seq<real>, left: seq<real>, q: nat, r: nat)
    requires |left| == |width| == |gap| && q < r < |left|
    requires forall i :: 0 <= i < |left| ==> width[i] >= 0.0 && gap[i] >= COL_GAP
    requires forall i :: 0 < i < |left| ==> left[i] == left[i - 1] + width[i - 1] + gap[i - 1]
    ensures left[q] + width[q] + gap[q] <= left[r]
  {
    if r > q + 1 {
      ColumnsApart(width, gap, left, q, r - 1);
    }
  }

  // ---- the lower median ----------------------------------------------------

  function InsertReal(x: real, s: seq<real>): (t: seq<real>)
    ensures |t| == |s| + 1
  {
    if s == [] || x <= s[0] then [x] + s else [s[0]] + InsertReal(x, s[1..])
  }

  function SortReals(s: seq<real>): (t: seq<real>)
    ensures |t| == |s|
  {
    if s == [] then [] else InsertReal(s[0], SortReals(s[1..]))
  }

  function LowerMedian(s: seq<real>): real
    requires s != []
  {
    SortReals(s)[(|s| - 1) / 2]
  }

  ghost predicate Ascending(s: seq<real>) {
    forall i, j :: 0 <= i < j < |s| ==> s[i] <= s[j]
  }

  /** How many entries lie at or below `m` (strictly below when `strict`). */
  function CountUpTo(s: seq<real>, m: real, strict: bool): nat {
    if s == [] then 0
    else (if s[0] < m || (!strict && s[0] == m) then 1 else 0) + CountUpTo(s[1..], m, strict)
  }

  lemma {:induction false} InsertRealKeeps(x: real, s: seq<real>, m: real, strict: bool)
    ensures CountUpTo(InsertReal(x, s), m, strict) == CountUpTo([x] + s, m, strict)
    ensures Ascending(s) ==> Ascending(InsertReal(x, s))
    ensures forall y :: y in InsertReal(x, s) <==> y == x || y in s
  {
    assert ([x] + s)[1..] == s;
    if s != [] && !(x <= s[0]) {
      InsertRealKeeps(x, s[1..], m, strict);
      var t := InsertReal(x, s[1..]);
      assert ([s[0]] + t)[1..] == t;
      assert ([x] + s[1..])[1..] == s[1..];
      assert s == [s[0]] + s[1..];
    }
  }

  lemma {:induction false} SortRealsKeeps(s: seq<real>, m: real, strict: bool)
    ensures CountUpTo(SortReals(s), m, strict) == CountUpTo(s, m, strict)
    ensures Ascending(SortReals(s))
    ensures forall y :: y in SortReals(s) <==> y in s
  {
    if s != [] {
      SortRealsKeeps(s[1..], m, strict);
      InsertRealKeeps(s[0], SortReals(s[1..]), m, strict);
      assert ([s[0]] + SortReals(s[1..]))[1..] == SortReals(s[1..]);
      assert s == [s[0]] + s[1..];
    }
  }

  lemma {:induction false} CountAscending(s: seq<real>, k: nat)
    requires Ascending(s) && k < |s|
    ensures CountUpTo(s, s[k], true) <= k < CountUpTo(s, s[k], false)
  {
    if k > 0 {
      assert s[1..][k - 1] == s[k];
      CountAscending(s[1..], k - 1);
    } else {
      NoneBelow(s, s[0]);
    }
  }

  lemma {:induction false} NoneBelow(s: seq<real>, m: real)
    requires forall i :: 0 <= i < |s| ==> m <= s[i]
    ensures CountUpTo(s, m, true) == 0
  {
    if s != [] {
      NoneBelow(s[1..], m);
    }
  }

  /** The chosen height is one of the predecessors', the lower middle one of them in order. */
  lemma LowerMedianSplits(s: seq<real>)
    requires s != []
    ensures LowerMedian(s) in s
    ensures CountUpTo(s, LowerMedian(s), true) <= (|s| - 1) / 2 < CountUpTo(s, LowerMedian(s), false)
  {
    var m := LowerMedian(s);
    SortRealsKeeps(s, m, true);
    SortRealsKeeps(s, m, false);
    CountAscending(SortReals(s), (|s| - 1) / 2);
  }

  // ---- placing one column --------------------------------------------------

  /** The heights of the listed boxes that lie in earlier columns. */
  function EarlierHeights(ms: seq<Id>, rank: map<Id, nat>, at: map<Id, Point>, r: nat): seq<real> {
    if ms == [] then []
    else
      var m := ms[|ms| - 1];
      EarlierHeights(ms[..|ms| - 1], rank, at, r) + (if m in rank && m in at && rank[m] < r then [at[m].y] else [])
  }

  /** Where a box of height `h` goes: the median of `ys`, but below the box above it. */
  function CentreY(ys: seq<real>, above: Option<real>, h: real): real {
    match above
    case None => if ys == [] then h / 2.0 else LowerMedian(ys)
    case Some(bottom) => if ys == [] then bottom + ROW_GAP + h / 2.0 else Larger(LowerMedian(ys), bottom + ROW_GAP + h / 2.0)
  }

  function Bottom(at: map<Id, Point>, size: map<Id, Size>, v: Id): real
    requires v in at && v in size
  {
    at[v].y + size[v].h / 2.0
  }

  function Top(at: map<Id, Point>, size: map<Id, Size>, v: Id): real
    requires v in at && v in size
  {
    at[v].y - size[v].h / 2.0
  }

  /** The `i`-th box of column `r` sits where the rule puts it. */
  ghost predicate PlacedAt(preds: Predecessors, rank: map<Id, nat>, size: map<Id, Size>, at: map<Id, Point>,
                           col: seq<Id>, r: nat, x: real, i: nat)
    requires i < |col|
    requires forall v :: v in col ==> v in size
  {
    && (forall j :: 0 <= j <= i ==> col[j] in at)
    && at[col[i]].x == x
    && at[col[i]].y == CentreY(EarlierHeights(Neighbours(preds, col[i]), rank, at, r),
                               if i == 0 then None else Some(Bottom(at, size, col[i - 1])),
                               size[col[i]].h)
  }

  ghost predicate ColumnPlaced(preds: Predecessors, rank: map<Id, nat>, size: map<Id, Size>, at: map<Id, Point>,
                               col: seq<Id>, r: nat, x: real)
  {
    && (forall v :: v in col ==> v in size)
    && forall i :: 0 <= i < |col| ==> PlacedAt(preds, rank, size, at, col, r, x, i)
  }

  lemma {:induction false} HeightsFrame(ms: seq<Id>, rank: map<Id, nat>, at: map<Id, Point>, at': map<Id, Point>, r: nat)
    requires forall m :: m in rank && rank[m] < r ==> (m in at <==> m in at') && (m in at ==> at[m] == at'[m])
    ensures EarlierHeights(ms, rank, at, r) == EarlierHeights(ms, rank, at', r)
  {
    if ms != [] {
      HeightsFrame(ms[..|ms| - 1], rank, at, at', r);
    }
  }

  /** Placing boxes of later columns, or lower boxes of this one, moves nothing already placed. */
  lemma PlacedFrame(preds: Predecessors, rank: map<Id, nat>, size: map<Id, Size>, at: map<Id, Point>, at': map<Id, Point>,
                    col: seq<Id>, r: nat, x: real, i: nat)
    requires i < |col| && forall v :: v in col ==> v in size
    requires PlacedAt(preds, rank, size, at, col, r, x, i)
    requires forall m :: m in rank && rank[m] < r ==> (m in at <==> m in at') && (m in at ==> at[m] == at'[m])
    requires forall j :: 0 <= j <= i ==> col[j] in at' && at'[col[j]] == at[col[j]]
    ensures PlacedAt(preds, rank, size, at', col, r, x, i)
  {
    HeightsFrame(Neighbours(preds, col[i]), rank, at, at', r);
  }

  method CollectHeights(ms: seq<Id>, rank: map<Id, nat>, at: map<Id, Point>, r: nat) returns (ys: seq<real>)
    ensures ys == EarlierHeights(ms, rank, at, r)
  {
    ys := [];
    for k := 0 to |ms|
      invariant ys == EarlierHeights(ms[..k], rank, at, r)
    {
      TakeNext(ms, k);
      if ms[k] in rank && ms[k] in at && rank[ms[k]] < r {
        ys := ys + [at[ms[k]].y];
      }
    }
    assert ms[..|ms|] == ms;
  }

  /** `at` is `at0` with the listed boxes placed as well. */
  ghost predicate Extends(at0: map<Id, Point>, at: map<Id, Point>, placed: seq<Id>) {
    && (forall v :: v in at <==> v in at0 || v in placed)
    && (forall v :: v in at0 && v !in placed ==> at[v] == at0[v])
  }

  ghost function BottomOf(at: map<Id, Point>, size: map<Id, Size>, col: seq<Id>): Option<real> {
    if col != [] && col[|col| - 1] in at && col[|col| - 1] in size then Some(Bottom(at, size, col[|col| - 1])) else None
  }

  /** The boxes of `col` are placed on top of `at0`, and `above` is the bottom of the last of them. */
  ghost predicate PlacedSoFar(preds: Predecessors, rank: map<Id, nat>, size: map<Id, Size>, at0: map<Id, Point>, at: map<Id, Point>,
                              above: Option<real>, col: seq<Id>, r: nat, x: real)
  {
    Extends(at0, at, col) && ColumnPlaced(preds, rank, size, at, col, r, x) && above == BottomOf(at, size, col)
  }

  method PlaceColumn(preds: Predecessors, rank: map<Id, nat>, size: map<Id, Size>, at0: map<Id, Point>, col: seq<Id>, r: nat, x: real)
    returns (at: map<Id, Point>)
    requires Distinct(col)
    requires forall v :: v in col ==> v in size && v in rank && rank[v] == r
    ensures Extends(at0, at, col)
    ensures ColumnPlaced(preds, rank, size, at, col, r, x)
  {
    at := at0;
    var above: Option<real> := None;
    for k := 0 to |col|
      invariant PlacedSoFar(preds, rank, size, at0, at, above, col[..k], r, x)
    {
      TakeNext(col, k);
      at, above := PlaceNext(preds, rank, size, at0, at, above, col[..k], r, x, col[k], col[..k + 1]);
    }
    assert col[..|col|] == col;
  }

  /** One box of the column. */
  method PlaceNext(preds: Predecessors, rank: map<Id, nat>, size: map<Id, Size>, ghost at0: map<Id, Point>, at: map<Id, Point>,
                   above: Option<real>, ghost col: seq<Id>, r: nat, x: real, v: Id, ghost both: seq<Id>)
    returns (at': map<Id, Point>, above': Option<real>)
    requires PlacedSoFar(preds, rank, size, at0, at, above, col, r, x)
    requires v !in col && v in size && v in rank && rank[v] == r && both == col + [v]
    ensures PlacedSoFar(preds, rank, size, at0, at', above', both, r, x)
  {
    var y := PlaceBox(Neighbours(preds, v), rank, at, r, above, size[v].h);
    PlaceStep(preds, rank, size, at0, at, above, col, r, x, v, Point(x, y));
    at', above' := at[v := Point(x, y)], Some(y + size[v].h / 2.0);
  }

  method PlaceBox(ms: seq<Id>, rank: map<Id, nat>, at: map<Id, Point>, r: nat, above: Option<real>, h: real) returns (y: real)
    ensures SitsAt(ms, rank, at, r, above, h, y)
    ensures y == CentreY(EarlierHeights(ms, rank, at, r), above, h)
  {
    CentreSits(ms, rank, at, r, above, h);
    var ys := CollectHeights(ms, rank, at, r);
    var desired := if ys != [] then LowerMedian(ys)
                   else if above == None then h / 2.0 else above.value + ROW_GAP + h / 2.0;
    var minimum := if above == None then desired else above.value + ROW_GAP + h / 2.0;
    y := Larger(desired, minimum);
  }

  /** One more box at the bottom of the column. */
  lemma PlaceStep(preds: Predecessors, rank: map<Id, nat>, size: map<Id, Size>, at0: map<Id, Point>, at: map<Id, Point>,
                  above: Option<real>, col: seq<Id>, r: nat, x: real, v: Id, p: Point)
    requires PlacedSoFar(preds, rank, size, at0, at, above, col, r, x)
    requires v !in col && v in size && v in rank && rank[v] == r && p.x == x
    requires p.y == CentreY(EarlierHeights(Neighbours(preds, v), rank, at, r), above, size[v].h)
    ensures PlacedSoFar(preds, rank, size, at0, at[v := p], Some(p.y + size[v].h / 2.0), col + [v], r, x)
  {
    ColumnGrows(preds, rank, size, at, col, r, x, v, p);
    ExtendsOne(at0, at, col, v, p);
  }

  lemma ExtendsOne(at0: map<Id, Point>, at: map<Id, Point>, placed: seq<Id>, v: Id, p: Point)
    requires Extends(at0, at, placed)
    ensures Extends(at0, at[v := p], placed + [v])
  {
  }

  lemma ColumnGrows(preds: Predecessors, rank: map<Id, nat>, size: map<Id, Size>, at: map<Id, Point>,
                    col: seq<Id>, r: nat, x: real, v: Id, p: Point)
    requires ColumnPlaced(preds, rank, size, at, col, r, x)
    requires v !in col && v in size && v in rank && rank[v] == r && p.x == x
    requires p.y == CentreY(EarlierHeights(Neighbours(preds, v), rank, at, r), BottomOf(at, size, col), size[v].h)
    ensures ColumnPlaced(preds, rank, size, at[v := p], col + [v], r, x)
  {
    var at', col' := at[v := p], col + [v];
    assert forall j :: 0 <= j < |col| ==> col'[j] == col[j];
    forall i | 0 <= i < |col'|
      ensures PlacedAt(preds, rank, size, at', col', r, x, i)
    {
      if i < |col| {
        PlacedFrame(preds, rank, size, at, at', col, r, x, i);
        PlacedPrefix(preds, rank, size, at', col, col', r, x, i);
      } else {
        PlacedLast(preds, rank, size, at, col, r, x, v, p);
      }
    }
  }

  lemma PlacedPrefix(preds: Predecessors, rank: map<Id, nat>, size: map<Id, Size>, at: map<Id, Point>,
                     col: seq<Id>, col': seq<Id>, r: nat, x: real, i: nat)
    requires i < |col| && col <= col' && forall v :: v in col' ==> v in size
    requires PlacedAt(preds, rank, size, at, col, r, x, i)
    ensures PlacedAt(preds, rank, size, at, col', r, x, i)
  {
  }

  lemma PlacedLast(preds: Predecessors, rank: map<Id, nat>, size: map<Id, Size>, at: map<Id, Point>,
                   col: seq<Id>, r: nat, x: real, v: Id, p: Point)
    requires ColumnPlaced(preds, rank, size, at, col, r, x)
    requires v !in col && v in size && v in rank && rank[v] == r && p.x == x
    requires p.y == CentreY(EarlierHeights(Neighbours(preds, v), rank, at, r), BottomOf(at, size, col), size[v].h)
    ensures PlacedAt(preds, rank, size, at[v := p], col + [v], r, x, |col|)
  {
    HeightsFrame(Neighbours(preds, v), rank, at, at[v := p], r);
    assert forall j :: 0 <= j < |col| ==> (col + [v])[j] == col[j] && PlacedAt(preds, rank, size, at, col, r, x, j);
  }

  // ---- placing all columns -------------------------------------------------

  ghost predicate AllPlaced(preds: Predecessors, rank: map<Id, nat>, size: map<Id, Size>, cols: Columns, left: seq<real>, width: seq<real>,
                            at: map<Id, Point>)
    requires |left| == |width| == |cols|
  {
    forall r :: 0 <= r < |cols| ==> ColumnPlaced(preds, rank, size, at, cols[r], r, left[r] + width[r] / 2.0)
  }

  method Place(ghost nodes: set<Id>, preds: Predecessors, rank: map<Id, nat>, size: map<Id, Size>, cols: Columns, left: seq<real>, width: seq<real>)
    returns (at: map<Id, Point>)
    requires ColumnsOf(nodes, rank, cols)
    requires nodes == rank.Keys == size.Keys
    requires |left| == |width| == |cols|
    ensures at.Keys == nodes
    ensures AllPlaced(preds, rank, size, cols, left, width, at)
  {
    at := map[];
    for r := 0 to |cols|
      invariant forall v :: v in at <==> v in nodes && rank[v] < r
      invariant forall q :: 0 <= q < r ==> ColumnPlaced(preds, rank, size, at, cols[q], q, left[q] + width[q] / 2.0)
    {
      ghost var at1 := at;
      at := PlaceColumn(preds, rank, size, at, cols[r], r, left[r] + width[r] / 2.0);
      forall q | 0 <= q < r
        ensures ColumnPlaced(preds, rank, size, at, cols[q], q, left[q] + width[q] / 2.0)
      {
        ColumnFrame(preds, rank, size, at1, at, cols[q], q, left[q] + width[q] / 2.0);
      }
    }
    assert at.Keys == nodes;
  }

  lemma ColumnFrame(preds: Predecessors, rank: map<Id, nat>, size: map<Id, Size>, at: map<Id, Point>, at': map<Id, Point>,
                    col: seq<Id>, r: nat, x: real)
    requires ColumnPlaced(preds, rank, size, at, col, r, x)
    requires forall m :: m in rank && rank[m] <= r ==> (m in at <==> m in at') && (m in at ==> at[m] == at'[m])
    requires forall v :: v in col ==> v in rank && rank[v] == r
    ensures ColumnPlaced(preds, rank, size, at', col, r, x)
  {
    forall i | 0 <= i < |col|
      ensures PlacedAt(preds, rank, size, at', col, r, x, i)
    {
      PlacedFrame(preds, rank, size, at, at', col, r, x, i);
    }
  }

  // ---- what placement guarantees -------------------------------------------

  /** `a` lies wholly above `b` with a row gap between, or wholly left of it with a column gap between. */
  ghost predicate ClearAbove(size: map<Id, Size>, at: map<Id, Point>, a: Id, b: Id)
    requires a in at && a in size && b in at && b in size
  {
    Bottom(at, size, a) + ROW_GAP <= Top(at, size, b)
  }

  ghost predicate ClearLeft(size: map<Id, Size>, at: map<Id, Point>, a: Id, b: Id)
    requires a in at && a in size && b in at && b in size
  {
    at[a].x + size[a].w / 2.0 + COL_GAP <= at[b].x - size[b].w / 2.0
  }

  /** Boxes down a column keep their order, at least a row gap apart. */
  lemma {:induction false} ColumnIsClear(preds: Predecessors, rank: map<Id, nat>, size: map<Id, Size>, at: map<Id, Point>,
                                         col: seq<Id>, r: nat, x: real, i: nat, j: nat)
    requires ColumnPlaced(preds, rank, size, at, col, r, x)
    requires forall v :: v in col ==> size[v].h >= 0.0
    requires i < j < |col|
    ensures col[i] in at && col[j] in at && ClearAbove(size, at, col[i], col[j])
  {
    assert PlacedAt(preds, rank, size, at, col, r, x, j);
    if i < j - 1 {
      ColumnIsClear(preds, rank, size, at, col, r, x, i, j - 1);
      assert col[j - 1] in col;
    }
  }

  /** No two boxes overlap: same column, clear vertically in column order; different columns, clear horizontally. */
  lemma NoOverlap(nodes: set<Id>, preds: Predecessors, rank: map<Id, nat>, size: map<Id, Size>, cols: Columns,
                  width: seq<real>, gap: seq<real>, left: seq<real>, at: map<Id, Point>, a: Id, b: Id)
    requires ColumnsOf(nodes, rank, cols) && nodes == rank.Keys == size.Keys == at.Keys
    requires |left| == |width| == |gap| == |cols|
    requires forall i :: 0 <= i < |left| ==> width[i] >= 0.0 && gap[i] >= COL_GAP
    requires forall i :: 0 < i < |left| ==> left[i] == left[i - 1] + width[i - 1] + gap[i - 1]
    requires forall v :: v in nodes ==> size[v].h >= 0.0 && size[v].w <= width[rank[v]]
    requires AllPlaced(preds, rank, size, cols, left, width, at)
    requires a in nodes && b in nodes && a != b
    ensures rank[a] == rank[b] ==> ClearAbove(size, at, a, b) || ClearAbove(size, at, b, a)
    ensures rank[a] < rank[b] ==> ClearLeft(size, at, a, b)
  {
    if rank[b] == rank[a] {
      SameColumnClear(nodes, preds, rank, size, cols, width, left, at, a, b);
    } else if rank[a] < rank[b] {
      CentredIn(nodes, preds, rank, size, cols, width, left, at, a);
      CentredIn(nodes, preds, rank, size, cols, width, left, at, b);
      ColumnsApart(width, gap, left, rank[a], rank[b]);
    }
  }

  lemma SameColumnClear(nodes: set<Id>, preds: Predecessors, rank: map<Id, nat>, size: map<Id, Size>, cols: Columns,
                        width: seq<real>, left: seq<real>, at: map<Id, Point>, a: Id, b: Id)
    requires ColumnsOf(nodes, rank, cols) && nodes == rank.Keys == size.Keys == at.Keys
    requires |left| == |width| == |cols|
    requires forall v :: v in nodes ==> size[v].h >= 0.0
    requires AllPlaced(preds, rank, size, cols, left, width, at)
    requires a in nodes && b in nodes && a != b && rank[a] == rank[b]
    ensures ClearAbove(size, at, a, b) || ClearAbove(size, at, b, a)
  {
    var col, x := cols[rank[a]], left[rank[a]] + width[rank[a]] / 2.0;
    assert a in col && b in col;
    var i :| 0 <= i < |col| && col[i] == a;
    var j :| 0 <= j < |col| && col[j] == b;
    if i < j {
      ColumnIsClear(preds, rank, size, at, col, rank[a], x, i, j);
    } else {
      ColumnIsClear(preds, rank, size, at, col, rank[a], x, j, i);
    }
  }

  lemma CentredIn(nodes: set<Id>, preds: Predecessors, rank: map<Id, nat>, size: map<Id, Size>, cols: Columns,
                  width: seq<real>, left: seq<real>, at: map<Id, Point>, a: Id)
    requires ColumnsOf(nodes, rank, cols) && nodes == rank.Keys == size.Keys == at.Keys
    requires |left| == |width| == |cols|
    requires AllPlaced(preds, rank, size, cols, left, width, at)
    requires a in nodes
    ensures at[a].x == left[rank[a]] + width[rank[a]] / 2.0
  {
    var col := cols[rank[a]];
    assert a in col;
    var i :| 0 <= i < |col| && col[i] == a;
    assert PlacedAt(preds, rank, size, at, col, rank[a], left[rank[a]] + width[rank[a]] / 2.0, i);
  }

  // ---- where a box sits ----------------------------------------------------

  /** The listed predecessors, by index, that lie in columns before `r`. */
  ghost function Before(ms: seq<Id>, rank: map<Id, nat>, at: map<Id, Point>, r: nat): set<nat> {
    set i: nat | i < |ms| && ms[i] in rank && ms[i] in at && rank[ms[i]] < r
  }

  /** Those of them whose height lies up to `y`, or strictly before it. */
  ghost function UpTo(ms: seq<Id>, rank: map<Id, nat>, at: map<Id, Point>, r: nat, y: real, strict: bool): set<nat> {
    set i | i in Before(ms, rank, at, r) && if strict then at[ms[i]].y < y else at[ms[i]].y <= y
  }

  /** `y` is the height of the lower middle one of them in order. */
  ghost predicate IsMedian(ms: seq<Id>, rank: map<Id, nat>, at: map<Id, Point>, r: nat, y: real) {
    var n := |Before(ms, rank, at, r)|;
    && (exists i :: i in Before(ms, rank, at, r) && at[ms[i]].y == y)
    && |UpTo(ms, rank, at, r, y, true)| <= (n - 1) / 2 < |UpTo(ms, rank, at, r, y, false)|
  }

  lemma {:induction false} CountSnoc(s: seq<real>, y: real, m: real, strict: bool)
    ensures CountUpTo(s + [y], m, strict) == CountUpTo(s, m, strict) + if y < m || (!strict && y == m) then 1 else 0
  {
    if s == [] {
      assert [] + [y] == [y] && [y][1..] == [];
    } else {
      CountSnoc(s[1..], y, m, strict);
      assert (s + [y])[1..] == s[1..] + [y];
    }
  }

  lemma HeightsGrow(front: seq<Id>, rank: map<Id, nat>, at: map<Id, Point>, r: nat, last: Id, ms: seq<Id>)
    requires ms == front + [last]
    ensures var ys := EarlierHeights(front, rank, at, r);
            EarlierHeights(ms, rank, at, r) == if last in rank && last in at && rank[last] < r then ys + [at[last].y] else ys
  {
    assert ms[..|ms| - 1] == front;
  }

  lemma {:induction false} HeightsCounted(ms: seq<Id>, rank: map<Id, nat>, at: map<Id, Point>, r: nat, y: real, strict: bool)
    ensures |EarlierHeights(ms, rank, at, r)| == |Before(ms, rank, at, r)|
    ensures CountUpTo(EarlierHeights(ms, rank, at, r), y, strict) == |UpTo(ms, rank, at, r, y, strict)|
  {
    if ms == [] {
      assert Before(ms, rank, at, r) == {} && UpTo(ms, rank, at, r, y, strict) == {};
    } else {
      var front, last := ms[..|ms| - 1], ms[|ms| - 1];
      HeightsCounted(front, rank, at, r, y, strict);
      HeightsGrow(front, rank, at, r, last, ms);
      BeforeGrows(front, rank, at, r, y, strict, last, ms);
      if last in rank && last in at && rank[last] < r {
        CountSnoc(EarlierHeights(front, rank, at, r), at[last].y, y, strict);
      }
    }
  }

  lemma {:induction false} HeightsOf(ms: seq<Id>, rank: map<Id, nat>, at: map<Id, Point>, r: nat, y: real)
    requires y in EarlierHeights(ms, rank, at, r)
    ensures exists i :: i in Before(ms, rank, at, r) && at[ms[i]].y == y
  {
    var front, last := ms[..|ms| - 1], ms[|ms| - 1];
    HeightsGrow(front, rank, at, r, last, ms);
    if y in EarlierHeights(front, rank, at, r) {
      HeightsOf(front, rank, at, r, y);
      var i :| i in Before(front, rank, at, r) && at[front[i]].y == y;
      assert i in Before(ms, rank, at, r) && ms[i] == front[i];
    } else {
      assert |front| in Before(ms, rank, at, r);
    }
  }

  lemma BeforeGrows(front: seq<Id>, rank: map<Id, nat>, at: map<Id, Point>, r: nat, y: real, strict: bool, last: Id, ms: seq<Id>)
    requires ms == front + [last]
    ensures var counts := last in rank && last in at && rank[last] < r;
            && |Before(ms, rank, at, r)| == |Before(front, rank, at, r)| + (if counts then 1 else 0)
            && |UpTo(ms, rank, at, r, y, strict)| == |UpTo(front, rank, at, r, y, strict)|
               + if counts && (at[last].y < y || (!strict && at[last].y == y)) then 1 else 0
  {
    BeforeMore(front, rank, at, r, last, ms);
    UpToMore(front, rank, at, r, y, strict, last, ms);
  }

  lemma BeforeMore(front: seq<Id>, rank: map<Id, nat>, at: map<Id, Point>, r: nat, last: Id, ms: seq<Id>)
    requires ms == front + [last]
    ensures Before(ms, rank, at, r) ==
            Before(front, rank, at, r) + if last in rank && last in at && rank[last] < r then {|front|} else {}
  {
  }

  lemma UpToMore(front: seq<Id>, rank: map<Id, nat>, at: map<Id, Point>, r: nat, y: real, strict: bool, last: Id, ms: seq<Id>)
    requires ms == front + [last]
    ensures UpTo(ms, rank, at, r, y, strict) == UpTo(front, rank, at, r, y, strict) +
            if last in rank && last in at && rank[last] < r && (at[last].y < y || (!strict && at[last].y == y)) then {|front|}
            else {}
  {
    BeforeMore(front, rank, at, r, last, ms);
  }

  /**
   The height `y` of a box of height `h` with predecessors `ms` under the bottom edge `above`: the median of its
   predecessors in earlier columns, or without any the top, unless that leaves less than a row gap: then right below it.
   */
  ghost predicate SitsAt(ms: seq<Id>, rank: map<Id, nat>, at: map<Id, Point>, r: nat, above: Option<real>, h: real, y: real) {
    && (Before(ms, rank, at, r) == {} ==> y == if above == None then h / 2.0 else above.value + ROW_GAP + h / 2.0)
    && (Before(ms, rank, at, r) != {} ==>
          exists m :: IsMedian(ms, rank, at, r, m)
                      && y == if above.Some? && m < above.value + ROW_GAP + h / 2.0 then above.value + ROW_GAP + h / 2.0 else m)
  }

  lemma CentreSits(ms: seq<Id>, rank: map<Id, nat>, at: map<Id, Point>, r: nat, above: Option<real>, h: real)
    ensures SitsAt(ms, rank, at, r, above, h, CentreY(EarlierHeights(ms, rank, at, r), above, h))
  {
    var ys := EarlierHeights(ms, rank, at, r);
    HeightsCounted(ms, rank, at, r, 0.0, true);
    if ys != [] {
      LowerMedianSplits(ys);
      MedianOfHeights(ms, rank, at, r, LowerMedian(ys));
    }
  }

  /** Box `i` of the column sits so under the box above it. */
  ghost predicate Sits(preds: Predecessors, rank: map<Id, nat>, size: map<Id, Size>, at: map<Id, Point>,
                       col: seq<Id>, r: nat, x: real, i: nat)
    requires i < |col|
  {
    && col[i] in at && col[i] in size && (i > 0 ==> col[i - 1] in at && col[i - 1] in size)
    && var above := if i == 0 then None else Some(at[col[i - 1]].y + size[col[i - 1]].h / 2.0);
    && at[col[i]].x == x && SitsAt(Neighbours(preds, col[i]), rank, at, r, above, size[col[i]].h, at[col[i]].y)
  }

  ghost predicate ColumnSits(preds: Predecessors, rank: map<Id, nat>, size: map<Id, Size>, at: map<Id, Point>, col: seq<Id>, r: nat, x: real) {
    forall i :: 0 <= i < |col| ==> Sits(preds, rank, size, at, col, r, x, i)
  }

  lemma PlacedSits(preds: Predecessors, rank: map<Id, nat>, size: map<Id, Size>, at: map<Id, Point>,
                   col: seq<Id>, r: nat, x: real, i: nat)
    requires ColumnPlaced(preds, rank, size, at, col, r, x) && i < |col|
    ensures Sits(preds, rank, size, at, col, r, x, i)
  {
    assert PlacedAt(preds, rank, size, at, col, r, x, i);
    var above := if i == 0 then None else Some(at[col[i - 1]].y + size[col[i - 1]].h / 2.0);
    CentreSits(Neighbours(preds, col[i]), rank, at, r, above, size[col[i]].h);
  }

  lemma ColumnPlacedSits(preds: Predecessors, rank: map<Id, nat>, size: map<Id, Size>, at: map<Id, Point>, col: seq<Id>, r: nat, x: real)
    requires ColumnPlaced(preds, rank, size, at, col, r, x)
    ensures ColumnSits(preds, rank, size, at, col, r, x)
  {
    forall i | 0 <= i < |col|
      ensures Sits(preds, rank, size, at, col, r, x, i)
    {
      PlacedSits(preds, rank, size, at, col, r, x, i);
    }
  }

  lemma MedianOfHeights(ms: seq<Id>, rank: map<Id, nat>, at: map<Id, Point>, r: nat, m: real)
    requires var ys := EarlierHeights(ms, rank, at, r);
             m in ys && CountUpTo(ys, m, true) <= (|ys| - 1) / 2 < CountUpTo(ys, m, false)
    ensures IsMedian(ms, rank, at, r, m) && Before(ms, rank, at, r) != {}
  {
    HeightsCounted(ms, rank, at, r, m, true);
    HeightsCounted(ms, rank, at, r, m, false);
    HeightsOf(ms, rank, at, r, m);
  }

  /** All boxes of all columns are centred in their column and sit so. */
  ghost predicate AllSit(preds: Predecessors, rank: map<Id, nat>, size: map<Id, Size>, cols: Columns, left: seq<real>, width: seq<real>,
                         at: map<Id, Point>)
    requires |left| == |width| == |cols|
  {
    forall r :: 0 <= r < |cols| ==> ColumnSits(preds, rank, size, at, cols[r], r, left[r] + width[r] / 2.0)
  }

  lemma AllPlacedSit(preds: Predecessors, rank: map<Id, nat>, size: map<Id, Size>, cols: Columns, left: seq<real>, width: seq<real>,
                     at: map<Id, Point>)
    requires |left| == |width| == |cols| && AllPlaced(preds, rank, size, cols, left, width, at)
    ensures AllSit(preds, rank, size, cols, left, width, at)
  {
    forall r | 0 <= r < |cols|
      ensures ColumnSits(preds, rank, size, at, cols[r], r, left[r] + width[r] / 2.0)
    {
      ColumnPlacedSits(preds, rank, size, at, cols[r], r, left[r] + width[r] / 2.0);
    }
  }

  /** A box with one predecessor stays level with it exactly when the box above leaves room. */
  lemma ChainStaysLevel(preds: Predecessors, rank: map<Id, nat>, size: map<Id, Size>, at: map<Id, Point>,
                        col: seq<Id>, r: nat, x: real, i: nat, u: Id)
    requires ColumnPlaced(preds, rank, size, at, col, r, x)
    requires i < |col| && u in rank && u in at && rank[u] < r
    requires Neighbours(preds, col[i]) == [u]
    ensures col[i] in at
    ensures i > 0 ==> col[i - 1] in at
    ensures at[col[i]].y == at[u].y
       <==> i == 0 || Bottom(at, size, col[i - 1]) + ROW_GAP + size[col[i]].h / 2.0 <= at[u].y
  {
    assert PlacedAt(preds, rank, size, at, col, r, x, i);
    assert EarlierHeights([u], rank, at, r) == [at[u].y] by {
      assert [u][..0] == [];
      assert EarlierHeights([], rank, at, r) == [];
    }
    assert SortReals([at[u].y]) == [at[u].y];
  }

  // ---- the whole phase -----------------------------------------------------

  ghost predicate Disjoint(size: map<Id, Size>, at: map<Id, Point>, a: Id, b: Id)
    requires a in at && a in size && b in at && b in size
  {
    ClearAbove(size, at, a, b) || ClearAbove(size, at, b, a) || ClearLeft(size, at, a, b) || ClearLeft(size, at, b, a)
  }

  ghost predicate AllDisjoint(nodes: set<Id>, size: map<Id, Size>, at: map<Id, Point>)
    requires at.Keys == size.Keys == nodes
  {
    forall a, b :: a in nodes && b in nodes && a != b ==> Disjoint(size, at, a, b)
  }

  /** Columns as wide as their widest box, gaps that hold the captions crossing them, and columns side by side. */
  ghost predicate ColumnsLaid(ids: seq<Id>, flows: seq<Flow>, rank: map<Id, nat>, size: map<Id, Size>,
                              width: seq<real>, gap: seq<real>, left: seq<real>)
  {
    && rank.Keys == size.Keys && |left| == |width| == |gap|
    && (forall v :: v in rank ==> rank[v] < |width| && size[v].w <= width[rank[v]])
    && (forall r :: 0 <= r < |width| ==> width[r] >= 0.0 && WidthMet(ids, rank, size, width, r))
    && Gaps(flows, rank, gap)
    && (|left| > 0 ==> left[0] == 0.0)
    && (forall r :: 0 < r < |left| ==> left[r] == left[r - 1] + width[r - 1] + gap[r - 1])
  }

  method LayColumns(ids: seq<Id>, flows: seq<Flow>, rank: map<Id, nat>, size: map<Id, Size>, n: nat)
    returns (width: seq<real>, left: seq<real>, ghost gap: seq<real>)
    requires rank.Keys == size.Keys == Elems(ids)
    requires forall v :: v in rank ==> rank[v] < n
    ensures |width| == n && ColumnsLaid(ids, flows, rank, size, width, gap, left)
  {
    width := ColumnWidths(ids, rank, size, n);
    var gaps := ColumnGaps(flows, rank, n);
    left := ColumnLefts(width, gaps);
    gap := gaps;
  }

  method PlaceScope(ids: seq<Id>, flows: seq<Flow>, preds: Predecessors, rank: map<Id, nat>, size: map<Id, Size>, cols: Columns)
    returns (at: map<Id, Point>, ghost width: seq<real>, ghost gap: seq<real>, ghost left: seq<real>)
    requires rank.Keys == size.Keys == Elems(ids)
    requires ColumnsOf(Elems(ids), rank, cols)
    requires forall v :: v in size ==> size[v].h >= 0.0
    ensures at.Keys == Elems(ids)
    ensures |width| == |cols| && ColumnsLaid(ids, flows, rank, size, width, gap, left)
    ensures AllPlaced(preds, rank, size, cols, left, width, at)
    ensures AllSit(preds, rank, size, cols, left, width, at)
    ensures AllDisjoint(Elems(ids), size, at)
  {
    var widths, lefts;
    widths, lefts, gap := LayColumns(ids, flows, rank, size, |cols|);
    width, left := widths, lefts;
    at := Place(Elems(ids), preds, rank, size, cols, lefts, widths);
    PlacedIsDisjoint(Elems(ids), preds, rank, size, cols, width, gap, left, at);
    AllPlacedSit(preds, rank, size, cols, left, width, at);
  }

  lemma PlacedIsDisjoint(nodes: set<Id>, preds: Predecessors, rank: map<Id, nat>, size: map<Id, Size>, cols: Columns,
                         width: seq<real>, gap: seq<real>, left: seq<real>, at: map<Id, Point>)
    requires ColumnsOf(nodes, rank, cols) && nodes == rank.Keys == size.Keys == at.Keys
    requires |left| == |width| == |gap| == |cols|
    requires forall i :: 0 <= i < |left| ==> width[i] >= 0.0 && gap[i] >= COL_GAP
    requires forall i :: 0 < i < |left| ==> left[i] == left[i - 1] + width[i - 1] + gap[i - 1]
    requires forall v :: v in nodes ==> size[v].h >= 0.0 && size[v].w <= width[rank[v]]
    requires AllPlaced(preds, rank, size, cols, left, width, at)
    ensures AllDisjoint(nodes, size, at)
  {
    forall a, b | a in nodes && b in nodes && a != b
      ensures Disjoint(size, at, a, b)
    {
      NoOverlap(nodes, preds, rank, size, cols, width, gap, left, at, a, b);
      NoOverlap(nodes, preds, rank, size, cols, width, gap, left, at, b, a);
    }
  }

  /** The ghost record of how a scope was laid out. */
  datatype Layout = Layout(
    preds: Predecessors, cols0: Columns, pos0: Positions, width: seq<real>, gap: seq<real>, left: seq<real>)

  /** Rank, order and place the boxes of one scope. */
  method LayoutScope(ids: seq<Id>, flows: seq<Flow>, hosts: map<Id, Id>, size: map<Id, Size>)
    returns (adj: Adjacency, rank: map<Id, nat>, cols: Columns, pos: Positions, at: map<Id, Point>, ghost l: Layout)
    requires Distinct(ids) && size.Keys == Elems(ids)
    requires forall v :: v in size ==> size[v].h >= 0.0
    ensures adj.Keys == rank.Keys == at.Keys == Elems(ids)
    ensures forall u :: u in adj ==> adj[u] == Targets(RankEdges(flows, Elems(ids), hosts), u)
    // Any scope, cyclic too: columns are laid side by side, boxes placed down them, and no two overlap.
    ensures |l.width| == |cols| && ColumnsLaid(ids, flows, rank, size, l.width, l.gap, l.left)
    ensures AllSit(l.preds, rank, size, cols, l.left, l.width, at)
    ensures AllDisjoint(Elems(ids), size, at)
    ensures Swept(Elems(ids), rank, l.preds, l.cols0, l.pos0, cols, pos)
    // Acyclic scopes: columns are longest-path lengths, and the sweep has settled the order inside each.
    ensures Acyclic(Elems(ids), adj) ==> LongestPaths(Elems(ids), adj, rank) && Layered(Elems(ids), rank, l.preds)
  {
    adj, rank := RankScope(ids, flows, hosts);
    ghost var cols0, pos0, width, gap, left;
    var preds;
    preds, cols, pos, cols0, pos0 := OrderScope(ids, adj, rank);
    at, width, gap, left := PlaceScope(ids, flows, preds, rank, size, cols);
    l := Layout(preds, cols0, pos0, width, gap, left);
  }
}

/** Optional values, results that may be errors, and facts about sequences as collections. */
module Basics {

  datatype Option<+T> = None | Some(value: T)

  datatype Result<+T, +E> = Ok(value: T) | Err(error: E)

  /** One past the largest 32-bit unsigned number. */
  const U32: nat := 0x1_0000_0000

  // ---- sequences as sets ---------------------------------------------------

  ghost function Elems<T>(s: seq<T>): set<T> {
    set x | x in s
  }

  ghost predicate Distinct<T>(s: seq<T>) {
    forall i, j :: 0 <= i < j < |s| ==> s[i] != s[j]
  }

  lemma {:induction false} ElemsBound<T>(s: seq<T>)
    ensures |Elems(s)| <= |s|
    ensures Distinct(s) ==> |Elems(s)| == |s|
  {
    if s == [] {
      assert Elems(s) == {};
    } else {
      var rest, last := s[..|s| - 1], s[|s| - 1];
      ElemsBound(rest);
      assert s == rest + [last];
      assert Elems(s) == Elems(rest) + {last};
      if Distinct(s) {
        assert last !in Elems(rest);
      }
    }
  }

  lemma SubsetOfSameSize<T>(a: set<T>, b: set<T>)
    requires a <= b
    requires |b| <= |a|
    ensures a == b
  {
    assert |b - a| == |b| - |a|;
  }

  lemma TakeNext<T>(s: seq<T>, k: nat)
    requires k < |s|
    ensures s[..k + 1] == s[..k] + [s[k]]
    ensures s[..k + 1][..k] == s[..k]
  {
  }

  lemma PopFront<T>(queue: seq<T>)
    requires queue != []
    ensures queue == [queue[0]] + queue[1..]
    ensures |queue| == 1 ==> queue[1..] == []
    ensures forall q :: q in queue <==> q == queue[0] || q in queue[1..]
  {
  }

  // ---- selections in order -------------------------------------------------

  /** `r` lists the elements of `s` at the indices `at`, which rise. */
  ghost predicate Picks<T>(s: seq<T>, at: seq<nat>, r: seq<T>) {
    && |at| == |r|
    && (forall k :: 0 <= k < |at| ==> at[k] < |s| && r[k] == s[at[k]])
    && (forall j, k :: 0 <= j < k < |at| ==> at[j] < at[k])
  }

  /** The indices whose element satisfies `p`. */
  ghost function Where<T>(s: seq<T>, p: T -> bool): set<nat> {
    set i: nat | i < |s| && p(s[i])
  }

  /** One more element, picked or not. */
  lemma PickNext<T>(front: seq<T>, at: seq<nat>, r: seq<T>, s: seq<T>, x: T, picked: bool) returns (at': seq<nat>)
    requires Picks(front, at, r) && s == front + [x]
    ensures Picks(s, at', if picked then r + [x] else r)
    ensures Elems(at') == Elems(at) + if picked then {|front|} else {}
  {
    PicksStill(front, at, r, s, x);
    if picked {
      PicksLast(at, r, s, x);
      ElemsMore(at, |front|);
      at' := at + [|front|];
    } else {
      at' := at;
    }
  }

  lemma PicksStill<T>(front: seq<T>, at: seq<nat>, r: seq<T>, s: seq<T>, x: T)
    requires Picks(front, at, r) && s == front + [x]
    ensures Picks(s, at, r) && forall k :: 0 <= k < |at| ==> at[k] < |front|
  {
    assert forall k :: 0 <= k < |at| ==> s[at[k]] == front[at[k]];
  }

  lemma PicksLast<T>(at: seq<nat>, r: seq<T>, s: seq<T>, x: T)
    requires Picks(s, at, r) && s != [] && s[|s| - 1] == x && forall k :: 0 <= k < |at| ==> at[k] < |s| - 1
    ensures Picks(s, at + [|s| - 1], r + [x])
  {
  }

  lemma ElemsMore<T>(s: seq<T>, x: T)
    ensures Elems(s + [x]) == Elems(s) + {x}
  {
  }

  lemma PickMarked<T>(front: seq<T>, at: seq<nat>, r: seq<T>, s: seq<T>, picked: bool, marks: set<nat>, r': seq<T>, marks': set<nat>)
    returns (at': seq<nat>)
    requires Picks(front, at, r) && Elems(at) == marks && s != [] && front == s[..|s| - 1]
    requires r' == (if picked then r + [s[|front|]] else r) && marks' == marks + if picked then {|front|} else {}
    ensures Picks(s, at', r') && Elems(at') == marks'
  {
    at' := PickNext(front, at, r, s, s[|front|], picked);
  }

  lemma PickWhere<T>(front: seq<T>, at: seq<nat>, r: seq<T>, s: seq<T>, x: T, p: T -> bool) returns (at': seq<nat>)
    requires Picks(front, at, r) && s == front + [x] && Elems(at) == Where(front, p)
    ensures Picks(s, at', if p(x) then r + [x] else r) && Elems(at') == Where(s, p)
  {
    at' := PickNext(front, at, r, s, x, p(x));
    WhereMore(front, s, x, p);
  }

  lemma WhereMore<T>(front: seq<T>, s: seq<T>, x: T, p: T -> bool)
    requires s == front + [x]
    ensures Where(s, p) == Where(front, p) + if p(x) then {|front|} else {}
  {
  }

  /** Rising lists of the same numbers are the same list. */
  lemma {:induction false} RisingUnique(a: seq<nat>, b: seq<nat>)
    requires forall j, k :: 0 <= j < k < |a| ==> a[j] < a[k]
    requires forall j, k :: 0 <= j < k < |b| ==> b[j] < b[k]
    requires forall i: nat :: i in a <==> i in b
    ensures a == b
  {
    assert a != [] ==> a[0] in a;
    assert b != [] ==> b[0] in b;
    if a != [] {
      var x, y := a[|a| - 1], b[|b| - 1];
      assert x in b && y in a;
      assert x == y;
      var a', b' := a[..|a| - 1], b[..|b| - 1];
      forall i: nat
        ensures i in a' <==> i in b'
      {
        assert i in a <==> i in a' || i == x;
        assert i in b <==> i in b' || i == x;
      }
      RisingUnique(a', b');
      assert a == a' + [x] && b == b' + [x];
    }
  }
}

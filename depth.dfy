/**
 * Drawing order: the vector of pieces kept sorted by depth `z` (drawn back to
 * front), the comparison it is sorted with, the sort, and the pointer test
 * that picks the front-most piece under the cursor.
 */
module Depth {
  import opened Geometry

  /** compare_pieces: `p` is drawn before `q` when its depth is smaller. */
  predicate DepthBefore(p: Piece, q: Piece)
  {
    p.z < q.z
  }

  /**
   * Documentation lemma: compare_pieces is a strict weak ordering, as
   * std::sort requires of its comparison. It holds by the laws of `<` on
   * reals; nothing else relies on it.
   */
  lemma DepthBeforeStrictWeak(p: Piece, q: Piece, r: Piece)
    ensures !DepthBefore(p, p)
    ensures DepthBefore(p, q) ==> !DepthBefore(q, p)
    ensures DepthBefore(p, q) && DepthBefore(q, r) ==> DepthBefore(p, r)
    ensures !DepthBefore(p, q) && !DepthBefore(q, p) && !DepthBefore(q, r) && !DepthBefore(r, q) ==>
      !DepthBefore(p, r) && !DepthBefore(r, p)
  {
  }

  /** Every entry of the order names a piece of the arena. */
  predicate InArena(a: seq<Piece>, o: seq<int>)
  {
    forall k :: 0 <= k < |o| ==> 0 <= o[k] < |a|
  }

  /** No piece is drawn after one that compares before it: depths never decrease. */
  predicate DepthOrdered(a: seq<Piece>, o: seq<int>)
    requires InArena(a, o)
  {
    forall i, j :: 0 <= i < j < |o| ==> !DepthBefore(a[o[j]], a[o[i]])
  }

  /** Insert `x` into an order sorted by depth, in front of the first piece not shallower. */
  function InsertByDepth(a: seq<Piece>, o: seq<int>, x: int): (r: seq<int>)
    requires InArena(a, o) && DepthOrdered(a, o) && 0 <= x < |a|
    ensures InArena(a, r) && DepthOrdered(a, r)
    ensures multiset(r) == multiset(o) + multiset{x}
    ensures forall k :: 0 <= k < |r| ==> r[k] == x || r[k] in o
  {
    if |o| == 0 || !DepthBefore(a[o[0]], a[x]) then
      PrependOrdered(a, x, o);
      [x] + o
    else
      var rest := InsertByDepth(a, o[1..], x);
      forall k | 0 <= k < |rest|
        ensures !DepthBefore(a[rest[k]], a[o[0]])
      {
        if rest[k] != x {
          var l :| 0 <= l < |o[1..]| && o[1..][l] == rest[k];
          assert rest[k] == o[l + 1];
        }
      }
      PrependOrdered(a, o[0], rest);
      assert o == [o[0]] + o[1..];
      [o[0]] + rest
  }

  /** A piece no deeper than every piece of a sorted order can go in front of it. */
  lemma PrependOrdered(a: seq<Piece>, h: int, r: seq<int>)
    requires 0 <= h < |a| && InArena(a, r) && DepthOrdered(a, r)
    requires forall k :: 0 <= k < |r| ==> !DepthBefore(a[r[k]], a[h])
    ensures InArena(a, [h] + r) && DepthOrdered(a, [h] + r)
  {
    var o := [h] + r;
    forall i, j | 0 <= i < j < |o|
      ensures !DepthBefore(a[o[j]], a[o[i]])
    {
      assert o[j] == r[j - 1];
      if i > 0 {
        assert o[i] == r[i - 1];
      }
    }
  }

  /**
   * std::sort(pieces.begin(), pieces.end(), compare_pieces): a permutation of
   * the order in which depths never decrease. std::sort is not stable; this
   * is one of the orders it may produce, and everything proved about the
   * engine uses only the two properties in the contract.
   */
  function SortByDepth(a: seq<Piece>, o: seq<int>): (r: seq<int>)
    requires InArena(a, o)
    ensures InArena(a, r) && DepthOrdered(a, r)
    ensures multiset(r) == multiset(o)
  {
    if |o| == 0 then []
    else
      var n := |o| - 1;
      assert o == o[..n] + [o[n]];
      InsertByDepth(a, SortByDepth(a, o[..n]), o[n])
  }

  /** Sorting keeps exactly the pieces of the order. */
  lemma SortKeepsPieces(a: seq<Piece>, o: seq<int>, x: int)
    requires InArena(a, o)
    ensures x in SortByDepth(a, o) <==> x in o
    ensures |SortByDepth(a, o)| == |o|
  {
    var r := SortByDepth(a, o);
    assert x in r <==> x in multiset(r);
    assert x in o <==> x in multiset(o);
    assert |r| == |multiset(r)| && |o| == |multiset(o)|;
  }

  /** The order only reads depths: arenas with the same depths have the same sorted orders. */
  lemma SameDepths(a: seq<Piece>, b: seq<Piece>, o: seq<int>)
    requires |a| == |b| && forall i :: 0 <= i < |a| ==> a[i].z == b[i].z
    requires InArena(a, o) && DepthOrdered(a, o)
    ensures InArena(b, o) && DepthOrdered(b, o)
  {
    forall i, j | 0 <= i < j < |o|
      ensures !DepthBefore(b[o[j]], b[o[i]])
    {
      assert !DepthBefore(a[o[j]], a[o[i]]);
    }
  }

  /** In a depth-ordered vector the last piece has the greatest depth. */
  lemma LastIsDeepest(a: seq<Piece>, o: seq<int>, k: int)
    requires InArena(a, o) && DepthOrdered(a, o) && 0 <= k < |o|
    ensures a[o[k]].z <= a[o[|o| - 1]].z
  {
    if k < |o| - 1 {
      assert !DepthBefore(a[o[|o| - 1]], a[o[k]]);
    }
  }

  /**
   * The press handler's hit test: the position in the order of the last piece
   * (the front-most one) whose box contains the point, if any.
   */
  function TopmostHit(a: seq<Piece>, o: seq<int>, px: real, py: real, w: real, h: real): (r: Option<int>)
    requires InArena(a, o)
    ensures r.Some? ==> 0 <= r.value < |o| && Hit(a[o[r.value]], px, py, w, h)
    ensures r.Some? ==> forall k :: r.value < k < |o| ==> !Hit(a[o[k]], px, py, w, h)
    ensures r.None? <==> forall k :: 0 <= k < |o| ==> !Hit(a[o[k]], px, py, w, h)
  {
    if |o| == 0 then None
    else if Hit(a[o[|o| - 1]], px, py, w, h) then Some(|o| - 1)
    else
      var r := TopmostHit(a, o[..|o| - 1], px, py, w, h);
      assert forall k :: 0 <= k < |o| - 1 ==> o[..|o| - 1][k] == o[k];
      r
  }
}

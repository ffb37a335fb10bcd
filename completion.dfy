/**
 * The end-of-frame completion test and what it means for the groups: with
 * sound groups, every piece having at least N - 1 partners is the same as
 * all N pieces forming one cluster.
 */
module Completion {
  import opened Geometry
  import opened Groups

  /** The completion test: no piece has fewer than `n - 1` partners. */
  predicate Complete(a: seq<Piece>, n: int)
  {
    forall i :: 0 <= i < |a| ==> |a[i].group| >= n - 1
  }

  /** Every piece is in the group of every other piece. */
  ghost predicate OneCluster(a: seq<Piece>)
  {
    forall i, j :: 0 <= i < |a| && 0 <= j < |a| && i != j ==> Member(a, i, j)
  }

  /** The ids `0 .. n-1`. */
  function Ids(n: nat): (s: set<int>)
    ensures |s| == n
    ensures forall j :: j in s <==> 0 <= j < n
  {
    if n == 0 then {} else Ids(n - 1) + {n - 1}
  }

  /** A subset at least as large as its superset is the superset. */
  lemma SubsetFull<T>(s: set<T>, t: set<T>)
    requires s <= t && |s| >= |t|
    ensures s == t
  {
    assert t == s + (t - s);
    assert |t| == |s| + |t - s|;
  }

  /** With sound groups, the partners of piece `i` are exactly the others exactly when there are `n - 1` of them. */
  lemma PartnersAll(a: seq<Piece>, i: int)
    requires Sound(a) && 0 <= i < |a|
    ensures |a[i].group| >= |a| - 1 <==> a[i].group.Keys == Ids(|a|) - {i}
  {
    var others := Ids(|a|) - {i};
    assert |others| == |a| - 1;
    forall j | j in a[i].group
      ensures j in others
    {
      assert Member(a, i, j);
    }
    if |a[i].group| >= |a| - 1 {
      SubsetFull(a[i].group.Keys, others);
    }
  }

  /**
   * With sound groups the completion test holds exactly when all pieces are
   * grouped together.
   */
  lemma {:induction false} CompleteIffOneCluster(a: seq<Piece>)
    requires Sound(a)
    ensures Complete(a, |a|) <==> OneCluster(a)
  {
    if Complete(a, |a|) {
      forall i, j | 0 <= i < |a| && 0 <= j < |a| && i != j
        ensures Member(a, i, j)
      {
        PartnersAll(a, i);
        assert j in Ids(|a|) - {i};
      }
    }
    if OneCluster(a) {
      forall i | 0 <= i < |a|
        ensures |a[i].group| >= |a| - 1
      {
        PartnersAll(a, i);
        forall j | j in Ids(|a|) - {i}
          ensures j in a[i].group
        {
          assert Member(a, i, j);
        }
        assert a[i].group.Keys == Ids(|a|) - {i};
      }
    }
  }

  /** With more than one piece and every group empty the puzzle is not complete. */
  lemma UngroupedIncomplete(a: seq<Piece>)
    requires |a| > 1 && forall i :: 0 <= i < |a| ==> a[i].group == map[]
    ensures !Complete(a, |a|)
  {
    assert |a[0].group| == 0;
  }

  /**
   * Documentation lemma: a single piece is complete from the start, since
   * the test asks for zero partners. Nothing else relies on it.
   */
  lemma SinglePieceComplete(a: seq<Piece>)
    requires |a| == 1
    ensures Complete(a, |a|)
  {
  }
}

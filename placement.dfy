/**
 * The placement engine and the drag controller on values: what one snap
 * attempt (one active piece, one neighbour slot) does to the arena, and what
 * one drag update does, with the lemmas that these keep the group invariants,
 * move clusters rigidly and place a snapped piece exactly.
 */
module Placement {
  import opened Geometry
  import opened Groups

  /**
   * The static part of the arena that `setup_pieces` builds and nothing else
   * changes: `rows * perRow` pieces, piece `i` at index `i` with id `i`, its
   * neighbour slots and its texture offset.
   */
  ghost predicate Layout(a: seq<Piece>, rows: int, perRow: int, w: real, h: real)
  {
    rows >= 1 && perRow >= 1 && |a| == rows * perRow &&
    forall i :: 0 <= i < |a| ==>
      a[i].id == i && a[i].neighbors == NeighborIds(i, |a|, perRow) &&
      Vec2(a[i].tx, a[i].ty) == TexOffset(i, perRow, w, h)
  }

  /** What `SnapResult` needs to be defined: indices in range. */
  ghost predicate SnapReady(a: seq<Piece>, ap: int, dir: int)
  {
    0 <= ap < |a| && 0 <= dir < NUM_NEIGHBORS && |a[ap].neighbors| == NUM_NEIGHBORS &&
    (a[ap].neighbors[dir] == NONE || 0 <= a[ap].neighbors[dir] < |a|) &&
    KeysInRange(a)
  }

  /**
   * Put piece `ap` at `t` and move every piece of its group by the same delta
   * (the source assigns `ap`'s position, then adds the delta to each member).
   */
  function MoveCluster(a: seq<Piece>, ap: int, t: Vec2): (r: seq<Piece>)
    requires 0 <= ap < |a|
    ensures |r| == |a| && (ap !in a[ap].group ==> r[ap].Pos() == t)
    ensures forall i :: 0 <= i < |a| ==> r[i] == a[i].(x := r[i].x, y := r[i].y)
    ensures forall i :: 0 <= i < |a| && i != ap && i in a[ap].group ==>
      r[i].Pos() == a[i].Pos().Plus(t.Minus(a[ap].Pos()))
    ensures forall i :: 0 <= i < |a| && i != ap && i !in a[ap].group ==> r[i] == a[i]
  {
    var d := t.Minus(a[ap].Pos());
    var a1 := a[ap := a[ap].(x := t.x, y := t.y)];
    Translate(a1, a1[ap].group.Keys, d)
  }

  /** The cluster closed after linking `ap` and `nb`: both pieces and both groups. */
  function MergeSet(a: seq<Piece>, ap: int, nb: int): (s: set<int>)
    requires 0 <= ap < |a| && 0 <= nb < |a|
    ensures s == Class(a, ap) + Class(a, nb)
  {
    var b := Link(a, ap, nb);
    LinkJoins(a, ap, nb);
    assert b[ap].group.Keys == a[ap].group.Keys + {nb};
    assert b[nb].group.Keys == a[nb].group.Keys + {ap};
    {nb, ap} + b[ap].group.Keys + b[nb].group.Keys
  }

  /** addToPuzzleGroup(ap, nb) followed by the pairwise closure of `MergeSet`. */
  ghost function Merge(a: seq<Piece>, ap: int, nb: int): seq<Piece>
    requires 0 <= ap < |a| && 0 <= nb < |a| && KeysInRange(a)
  {
    ClassInRange(a, ap);
    ClassInRange(a, nb);
    Close(Link(a, ap, nb), MergeSet(a, ap, nb))
  }

  /**
   * One iteration of the release handler's inner loop, for active piece `ap`
   * and neighbour slot `dir`. A sentinel slot, or a gap beyond THRESHOLD,
   * leaves the arena as it is. Otherwise `ap` is put exactly next to its
   * neighbour `nb`, every piece of `ap`'s group is moved by the same delta,
   * `ap` and `nb` are linked, and the union of `{nb, ap}` and both groups is
   * closed into one cluster.
   */
  ghost function SnapResult(a: seq<Piece>, ap: int, dir: int, w: real, h: real): seq<Piece>
    requires SnapReady(a, ap, dir)
  {
    var nb := a[ap].neighbors[dir];
    if nb == NONE || !ShouldSnap(dir, a[ap], a[nb], w, h) then a
    else
      var m := MoveCluster(a, ap, SnapTarget(dir, a[nb], w, h));
      KeysInRangeSameGroups(a, m);
      Merge(m, ap, nb)
  }

  // ---------------------------------------------------------------------------
  // Moving a cluster

  /** With sound groups, moving `ap` to `t` translates its whole cluster by `t - ap`. */
  lemma MoveIsTranslation(a: seq<Piece>, ap: int, t: Vec2)
    requires 0 <= ap < |a| && Sound(a)
    ensures MoveCluster(a, ap, t) == Translate(a, Class(a, ap), t.Minus(a[ap].Pos()))
  {
    assert ap !in a[ap].group;
  }

  // ---------------------------------------------------------------------------
  // Merging two clusters

  /** A merge changes groups only: it moves nothing and keeps every existing entry. */
  lemma MergePositions(a: seq<Piece>, ap: int, nb: int)
    requires 0 <= ap < |a| && 0 <= nb < |a| && KeysInRange(a)
    ensures var r := Merge(a, ap, nb);
      |r| == |a| && (forall i :: 0 <= i < |a| ==> r[i] == a[i].(group := r[i].group)) &&
      forall i, j :: Member(a, i, j) ==> Member(r, i, j) && r[i].group[j] == a[i].group[j]
  {
    ClassInRange(a, ap);
    ClassInRange(a, nb);
    var b := Link(a, ap, nb);
    var s := MergeSet(a, ap, nb);
    var r := Close(b, s);
    assert r == Merge(a, ap, nb);
    LinkKeeps(a, ap, nb);
    CloseKeeps(b, s);
    forall i | 0 <= i < |a|
      ensures r[i] == a[i].(group := r[i].group)
    {
      assert b[i] == a[i].(group := b[i].group);
    }
    forall i, j | Member(a, i, j)
      ensures Member(r, i, j) && r[i].group[j] == a[i].group[j]
    {
      assert Member(b, i, j) && b[i].group[j] == a[i].group[j];
    }
  }

  /** A merge leaves piece `i` where it was. */
  lemma MergeKeepsPos(a: seq<Piece>, ap: int, nb: int, i: int)
    requires 0 <= ap < |a| && 0 <= nb < |a| && KeysInRange(a) && 0 <= i < |a|
    ensures |Merge(a, ap, nb)| == |a| && Merge(a, ap, nb)[i].Pos() == a[i].Pos()
  {
    ClassInRange(a, ap);
    ClassInRange(a, nb);
    var b := Link(a, ap, nb);
    assert b[i].Pos() == a[i].Pos();
  }

  /** After a merge, piece `i` has its old partners plus, inside the merged set, every other member. */
  lemma MergeMember(a: seq<Piece>, ap: int, nb: int, i: int, j: int)
    requires 0 <= ap < |a| && 0 <= nb < |a| && ap != nb && KeysInRange(a)
    ensures var s := MergeSet(a, ap, nb);
      Member(Merge(a, ap, nb), i, j) <==> Member(a, i, j) || (i in s && j in s && i != j)
  {
    ClassInRange(a, ap);
    ClassInRange(a, nb);
    if 0 <= i < |a| {
      var b := Link(a, ap, nb);
      var s := MergeSet(a, ap, nb);
      var r := Close(b, s);
      assert r == Merge(a, ap, nb);
      LinkGroupKeys(a, ap, nb, i);
      CloseGroupKeys(b, s, i);
    }
  }

  /** After a merge every entry holds the current relative position. */
  lemma MergeValue(a: seq<Piece>, ap: int, nb: int, i: int, j: int)
    requires 0 <= ap < |a| && 0 <= nb < |a| && ap != nb && Sound(a) && 0 <= j < |a|
    requires KeysInRange(a) && Member(Merge(a, ap, nb), i, j)
    ensures Merge(a, ap, nb)[i].group[j] == Offset(a, i, j)
  {
    var b := Link(a, ap, nb);
    var s := MergeSet(a, ap, nb);
    LinkJoins(a, ap, nb);
    var r := Close(b, s);
    assert Offset(b, i, j) == Offset(a, i, j);
    if j in b[i].group {
      assert r[i].group[j] == b[i].group[j];
      if Member(a, i, j) {
        assert b[i].group[j] == a[i].group[j];
      }
    } else {
      assert r[i].group[j] == NewLinks(b, i, s)[j];
    }
  }

  /** Every piece of `Class(a, c)` shares `c`'s anchor. */
  lemma ClassAnchor(a: seq<Piece>, c: int, x: int, perRow: int, w: real, h: real)
    requires perRow > 0 && 0 <= c < |a| && Rigid(a, perRow, w, h) && x in Class(a, c)
    ensures 0 <= x < |a| && Anchor(a, x, perRow, w, h) == Anchor(a, c, perRow, w, h)
  {
    if x != c {
      assert Member(a, c, x);
    }
  }

  /** The merged set is closed under the old group relation. */
  lemma MergeSetClosed(a: seq<Piece>, ap: int, nb: int, x: int, y: int)
    requires 0 <= ap < |a| && 0 <= nb < |a| && Sound(a) && Transitive(a)
    requires x in MergeSet(a, ap, nb) && Member(a, x, y)
    ensures y in MergeSet(a, ap, nb)
  {
    if x in Class(a, ap) { ClassClosed(a, ap, x, y); } else { ClassClosed(a, nb, x, y); }
  }

  /**
   * `r` is `a` with the set `s` closed into one cluster: same positions, each
   * piece keeps its partners and, inside `s`, gains every other member, and
   * every entry holds the current relative position.
   */
  ghost predicate Shaped(a: seq<Piece>, r: seq<Piece>, s: set<int>)
  {
    |r| == |a| &&
    (forall x :: x in s ==> 0 <= x < |a|) &&
    (forall i :: 0 <= i < |a| ==> r[i].Pos() == a[i].Pos()) &&
    (forall i, j :: Member(r, i, j) ==> Member(a, i, j) || (i in s && j in s && i != j)) &&
    (forall i, j :: Member(a, i, j) ==> Member(r, i, j)) &&
    (forall i, j :: i in s && j in s && i != j ==> Member(r, i, j)) &&
    (forall i, j :: Member(r, i, j) && 0 <= j < |a| ==> r[i].group[j] == Offset(a, i, j))
  }

  /** The membership relation after a merge, for all pairs at once. */
  lemma MergeMembers(a: seq<Piece>, ap: int, nb: int)
    requires 0 <= ap < |a| && 0 <= nb < |a| && ap != nb && KeysInRange(a)
    ensures var r := Merge(a, ap, nb); var s := MergeSet(a, ap, nb);
      forall i, j :: Member(r, i, j) <==> Member(a, i, j) || (i in s && j in s && i != j)
  {
    forall i, j
      ensures Member(Merge(a, ap, nb), i, j) <==>
        Member(a, i, j) || (i in MergeSet(a, ap, nb) && j in MergeSet(a, ap, nb) && i != j)
    {
      MergeMember(a, ap, nb, i, j);
    }
  }

  /** Every entry after a merge, for all pairs at once. */
  lemma MergeValues(a: seq<Piece>, ap: int, nb: int)
    requires 0 <= ap < |a| && 0 <= nb < |a| && ap != nb && Sound(a)
    ensures KeysInRange(a)
    ensures var r := Merge(a, ap, nb);
      forall i, j :: Member(r, i, j) && 0 <= j < |a| ==> r[i].group[j] == Offset(a, i, j)
  {
    assert KeysInRange(a);
    forall i, j | Member(Merge(a, ap, nb), i, j) && 0 <= j < |a|
      ensures Merge(a, ap, nb)[i].group[j] == Offset(a, i, j)
    {
      MergeValue(a, ap, nb, i, j);
    }
  }

  lemma MergeShaped(a: seq<Piece>, ap: int, nb: int)
    requires 0 <= ap < |a| && 0 <= nb < |a| && ap != nb && Sound(a)
    ensures KeysInRange(a) && Shaped(a, Merge(a, ap, nb), MergeSet(a, ap, nb))
  {
    MergeValues(a, ap, nb);
    MergeMembers(a, ap, nb);
    MergePositions(a, ap, nb);
    ClassInRange(a, ap);
    ClassInRange(a, nb);
    BuildShaped(a, Merge(a, ap, nb), MergeSet(a, ap, nb));
  }

  lemma BuildShaped(a: seq<Piece>, r: seq<Piece>, s: set<int>)
    requires |r| == |a| && (forall x :: x in s ==> 0 <= x < |a|)
    requires forall i :: 0 <= i < |a| ==> r[i].Pos() == a[i].Pos()
    requires forall i, j :: Member(r, i, j) <==> Member(a, i, j) || (i in s && j in s && i != j)
    requires forall i, j :: Member(r, i, j) && 0 <= j < |a| ==> r[i].group[j] == Offset(a, i, j)
    ensures Shaped(a, r, s)
  {
  }

  /** Closing a set into one cluster keeps groups sound. */
  lemma {:induction false} ShapedSound(a: seq<Piece>, r: seq<Piece>, s: set<int>)
    requires Sound(a) && Shaped(a, r, s)
    ensures Sound(r)
  {
    forall i, j | Member(r, i, j)
      ensures 0 <= j < |r| && j != i && Member(r, j, i) && r[i].group[j] == Offset(r, i, j)
    {
      if Member(a, i, j) {
        assert Member(a, j, i);
      }
      assert Offset(r, i, j) == Offset(a, i, j);
    }
  }

  /** Closing a set that is a union of clusters keeps grouping transitive. */
  lemma {:induction false} ShapedTransitive(a: seq<Piece>, r: seq<Piece>, s: set<int>)
    requires Sound(a) && Transitive(a) && Shaped(a, r, s)
    requires forall x, y :: x in s && Member(a, x, y) ==> y in s
    ensures Transitive(r)
  {
    forall i, j, k | Member(r, i, j) && Member(r, j, k) && k != i
      ensures Member(r, i, k)
    {
      if i !in s {
        assert Member(a, i, j);
        assert Member(a, j, k);
      }
    }
  }

  /** A merge keeps groups sound. */
  lemma MergeSound(a: seq<Piece>, ap: int, nb: int)
    requires 0 <= ap < |a| && 0 <= nb < |a| && ap != nb && Sound(a)
    ensures KeysInRange(a) && Sound(Merge(a, ap, nb))
  {
    MergeShaped(a, ap, nb);
    ShapedSound(a, Merge(a, ap, nb), MergeSet(a, ap, nb));
  }

  /** A merge keeps grouping transitive. */
  lemma MergeTransitive(a: seq<Piece>, ap: int, nb: int)
    requires 0 <= ap < |a| && 0 <= nb < |a| && ap != nb && Sound(a) && Transitive(a)
    ensures KeysInRange(a) && Transitive(Merge(a, ap, nb))
  {
    MergeShaped(a, ap, nb);
    forall x, y | x in MergeSet(a, ap, nb) && Member(a, x, y)
      ensures y in MergeSet(a, ap, nb)
    {
      MergeSetClosed(a, ap, nb, x, y);
    }
    ShapedTransitive(a, Merge(a, ap, nb), MergeSet(a, ap, nb));
  }

  /** A merge of two clusters with one anchor keeps grouped pieces on a common anchor. */
  lemma {:induction false} MergeFormed(a: seq<Piece>, ap: int, nb: int, perRow: int, w: real, h: real)
    requires perRow > 0 && 0 <= ap < |a| && 0 <= nb < |a| && ap != nb && Rigid(a, perRow, w, h)
    requires Anchor(a, ap, perRow, w, h) == Anchor(a, nb, perRow, w, h)
    ensures KeysInRange(a) && Formed(Merge(a, ap, nb), perRow, w, h)
  {
    assert KeysInRange(a);
    var r := Merge(a, ap, nb);
    var s := MergeSet(a, ap, nb);
    MergePositions(a, ap, nb);
    forall i, j | Member(r, i, j) && 0 <= j < |r|
      ensures Anchor(r, i, perRow, w, h) == Anchor(r, j, perRow, w, h)
    {
      MergeMember(a, ap, nb, i, j);
      if Member(a, i, j) {
        assert Anchor(a, i, perRow, w, h) == Anchor(a, j, perRow, w, h);
      } else {
        if i in Class(a, ap) { ClassAnchor(a, ap, i, perRow, w, h); } else { ClassAnchor(a, nb, i, perRow, w, h); }
        if j in Class(a, ap) { ClassAnchor(a, ap, j, perRow, w, h); } else { ClassAnchor(a, nb, j, perRow, w, h); }
      }
    }
  }

  /**
   * Merging two clusters whose pieces share one anchor keeps every group
   * invariant: the result is again a set of sound, complete, correctly
   * arranged clusters.
   */
  lemma MergeRigid(a: seq<Piece>, ap: int, nb: int, perRow: int, w: real, h: real)
    requires perRow > 0 && 0 <= ap < |a| && 0 <= nb < |a| && ap != nb && Rigid(a, perRow, w, h)
    requires Anchor(a, ap, perRow, w, h) == Anchor(a, nb, perRow, w, h)
    ensures KeysInRange(a) && Rigid(Merge(a, ap, nb), perRow, w, h)
  {
    MergeSound(a, ap, nb);
    MergeTransitive(a, ap, nb);
    MergeFormed(a, ap, nb, perRow, w, h);
  }

  // ---------------------------------------------------------------------------
  // One snap attempt

  /** The neighbour in slot `dir` is a real piece of the grid, distinct from `ap`. */
  lemma NeighborPiece(a: seq<Piece>, ap: int, dir: int, rows: int, perRow: int, w: real, h: real)
    requires Layout(a, rows, perRow, w, h) && 0 <= ap < |a| && 0 <= dir < NUM_NEIGHBORS
    requires a[ap].neighbors[dir] != NONE
    ensures 0 <= a[ap].neighbors[dir] < |a| && a[ap].neighbors[dir] != ap
    ensures GridPos(ap, perRow, w, h) == GridPos(a[ap].neighbors[dir], perRow, w, h).Plus(Step(dir, w, h))
  {
    NeighborsMutual(ap, |a|, rows, perRow);
    NeighborSlots(ap, |a|, perRow);
    NeighborStep(ap, |a|, perRow, dir, w, h);
  }

  /** With the layout and group invariants, a snap attempt is always defined. */
  lemma SnapDefined(a: seq<Piece>, ap: int, dir: int, rows: int, perRow: int, w: real, h: real)
    requires Layout(a, rows, perRow, w, h) && Sound(a) && 0 <= ap < |a| && 0 <= dir < NUM_NEIGHBORS
    ensures SnapReady(a, ap, dir)
  {
    if a[ap].neighbors[dir] != NONE {
      NeighborPiece(a, ap, dir, rows, perRow, w, h);
    }
  }

  /** Whether slot `dir` of `ap` snaps: a real neighbour within THRESHOLD on both gaps. */
  ghost predicate Snaps(a: seq<Piece>, ap: int, dir: int, w: real, h: real)
    requires SnapReady(a, ap, dir)
  {
    var nb := a[ap].neighbors[dir];
    nb != NONE && ShouldSnap(dir, a[ap], a[nb], w, h)
  }

  /**
   * In a snap, moving `ap` onto its target translates its cluster rigidly and
   * leaves `ap` and its neighbour on the same anchor, ready to be merged.
   */
  lemma SnapMove(a: seq<Piece>, ap: int, dir: int, rows: int, perRow: int, w: real, h: real)
    requires Layout(a, rows, perRow, w, h) && Rigid(a, perRow, w, h)
    requires SnapReady(a, ap, dir) && a[ap].neighbors[dir] != NONE
    ensures var nb := a[ap].neighbors[dir];
      var t := SnapTarget(dir, a[nb], w, h);
      var m := MoveCluster(a, ap, t);
      0 <= nb < |a| && nb != ap &&
      m == Translate(a, Class(a, ap), t.Minus(a[ap].Pos())) &&
      KeysInRange(m) && Rigid(m, perRow, w, h) &&
      Anchor(m, ap, perRow, w, h) == Anchor(m, nb, perRow, w, h)
  {
    var nb := a[ap].neighbors[dir];
    NeighborPiece(a, ap, dir, rows, perRow, w, h);
    var t := SnapTarget(dir, a[nb], w, h);
    var m := MoveCluster(a, ap, t);
    var d := t.Minus(a[ap].Pos());
    MoveIsTranslation(a, ap, t);
    TranslateClassRigid(a, ap, d, perRow, w, h);
    TranslatedAnchors(a, Translate(a, Class(a, ap), d), ap, nb, d, dir, perRow, w, h);
    assert KeysInRange(m);
  }

  lemma TranslatedAnchors(a: seq<Piece>, m: seq<Piece>, ap: int, nb: int, d: Vec2, dir: int, perRow: int, w: real, h: real)
    requires perRow > 0 && 0 <= ap < |a| && 0 <= nb < |a| && nb != ap && 0 <= dir < NUM_NEIGHBORS
    requires m == Translate(a, Class(a, ap), d) && Rigid(m, perRow, w, h)
    requires d == a[nb].Pos().Plus(Step(dir, w, h)).Minus(a[ap].Pos())
    requires GridPos(ap, perRow, w, h) == GridPos(nb, perRow, w, h).Plus(Step(dir, w, h))
    ensures Anchor(m, ap, perRow, w, h) == Anchor(m, nb, perRow, w, h)
  {
    if Member(m, ap, nb) {
      assert Anchor(m, ap, perRow, w, h) == Anchor(m, nb, perRow, w, h);
    } else {
      assert m[nb] == a[nb];
    }
  }

  /**
   * A snap attempt keeps every invariant: the layout is untouched and groups
   * stay sound, complete and arranged as in the assembled image.
   */
  lemma SnapKeepsRigid(a: seq<Piece>, ap: int, dir: int, rows: int, perRow: int, w: real, h: real)
    requires Layout(a, rows, perRow, w, h) && Rigid(a, perRow, w, h)
    requires 0 <= ap < |a| && 0 <= dir < NUM_NEIGHBORS
    ensures SnapReady(a, ap, dir)
    ensures var r := SnapResult(a, ap, dir, w, h);
      Layout(r, rows, perRow, w, h) && Rigid(r, perRow, w, h)
  {
    SnapDefined(a, ap, dir, rows, perRow, w, h);
    SnapKeepsFields(a, ap, dir, w, h);
    FieldsKeepLayout(a, SnapResult(a, ap, dir, w, h), rows, perRow, w, h);
    if Snaps(a, ap, dir, w, h) {
      var nb := a[ap].neighbors[dir];
      var m := MoveCluster(a, ap, SnapTarget(dir, a[nb], w, h));
      SnapMove(a, ap, dir, rows, perRow, w, h);
      MergeRigid(m, ap, nb, perRow, w, h);
    }
  }

  /** Changing positions and groups only keeps the layout. */
  lemma FieldsKeepLayout(a: seq<Piece>, r: seq<Piece>, rows: int, perRow: int, w: real, h: real)
    requires Layout(a, rows, perRow, w, h) && |r| == |a|
    requires forall i :: 0 <= i < |a| ==> r[i] == a[i].(x := r[i].x, y := r[i].y, group := r[i].group)
    ensures Layout(r, rows, perRow, w, h)
  {
  }

  /**
   * After a snap `ap` lies exactly one step from its neighbour (left: one
   * width to the right of it, right: one width to the left, top: one height
   * below, bottom: one height above), and the neighbour has not moved.
   */
  lemma SnapPlacesExactly(a: seq<Piece>, ap: int, dir: int, rows: int, perRow: int, w: real, h: real)
    requires Layout(a, rows, perRow, w, h) && Rigid(a, perRow, w, h)
    requires 0 <= ap < |a| && 0 <= dir < NUM_NEIGHBORS
    requires SnapReady(a, ap, dir) && Snaps(a, ap, dir, w, h)
    ensures var nb := a[ap].neighbors[dir]; var r := SnapResult(a, ap, dir, w, h);
      |r| == |a| && 0 <= nb < |a| &&
      r[nb].Pos() == a[nb].Pos() &&
      r[ap].Pos() == SnapTarget(dir, a[nb], w, h) &&
      r[ap].Pos() == r[nb].Pos().Plus(Step(dir, w, h))
  {
    var nb := a[ap].neighbors[dir];
    var t := SnapTarget(dir, a[nb], w, h);
    var m := MoveCluster(a, ap, t);
    SnapMove(a, ap, dir, rows, perRow, w, h);
    MergeKeepsPos(m, ap, nb, ap);
    MergeKeepsPos(m, ap, nb, nb);
    if Member(a, ap, nb) {
      GroupedInPlace(a, ap, dir, rows, perRow, w, h);
    }
  }

  /** Already grouped: the pair already sits on one anchor, so `ap` is on its target. */
  lemma GroupedInPlace(a: seq<Piece>, ap: int, dir: int, rows: int, perRow: int, w: real, h: real)
    requires Layout(a, rows, perRow, w, h) && Formed(a, perRow, w, h)
    requires 0 <= ap < |a| && 0 <= dir < NUM_NEIGHBORS && a[ap].neighbors[dir] != NONE
    requires Member(a, ap, a[ap].neighbors[dir])
    ensures 0 <= a[ap].neighbors[dir] < |a|
    ensures a[ap].Pos() == SnapTarget(dir, a[a[ap].neighbors[dir]], w, h)
  {
    var nb := a[ap].neighbors[dir];
    NeighborPiece(a, ap, dir, rows, perRow, w, h);
    assert Anchor(a, ap, perRow, w, h) == Anchor(a, nb, perRow, w, h);
  }

  /**
   * A snap translates `ap`'s cluster (itself and its group) by the delta
   * that takes `ap` to its target, and moves nothing else; an attempt that
   * does not snap changes nothing at all.
   */
  lemma SnapMovesCluster(a: seq<Piece>, ap: int, dir: int, rows: int, perRow: int, w: real, h: real)
    requires Layout(a, rows, perRow, w, h) && Rigid(a, perRow, w, h)
    requires 0 <= ap < |a| && 0 <= dir < NUM_NEIGHBORS && SnapReady(a, ap, dir)
    ensures var r := SnapResult(a, ap, dir, w, h);
      |r| == |a| &&
      (!Snaps(a, ap, dir, w, h) ==> r == a) &&
      (Snaps(a, ap, dir, w, h) ==>
        var d := SnapTarget(dir, a[a[ap].neighbors[dir]], w, h).Minus(a[ap].Pos());
        forall i :: 0 <= i < |a| ==>
          r[i].Pos() == (if i in Class(a, ap) then a[i].Pos().Plus(d) else a[i].Pos()))
  {
    if Snaps(a, ap, dir, w, h) {
      var nb := a[ap].neighbors[dir];
      var t := SnapTarget(dir, a[nb], w, h);
      var d := t.Minus(a[ap].Pos());
      var m := MoveCluster(a, ap, t);
      var r := SnapResult(a, ap, dir, w, h);
      SnapMove(a, ap, dir, rows, perRow, w, h);
      MergePositions(m, ap, nb);
      forall i | 0 <= i < |a|
        ensures r[i].Pos() == (if i in Class(a, ap) then a[i].Pos().Plus(d) else a[i].Pos())
      {
        assert r[i].Pos() == m[i].Pos();
        assert m[i] == if i in Class(a, ap) then Shift(a[i], d) else a[i];
      }
    }
  }

  /** A snap attempt changes positions and groups only: ids, depths, neighbours and textures stay. */
  lemma SnapKeepsFields(a: seq<Piece>, ap: int, dir: int, w: real, h: real)
    requires SnapReady(a, ap, dir)
    ensures var r := SnapResult(a, ap, dir, w, h);
      |r| == |a| && forall i :: 0 <= i < |a| ==> r[i] == a[i].(x := r[i].x, y := r[i].y, group := r[i].group)
  {
    if Snaps(a, ap, dir, w, h) {
      var nb := a[ap].neighbors[dir];
      var m := MoveCluster(a, ap, SnapTarget(dir, a[nb], w, h));
      KeysInRangeSameGroups(a, m);
      MergePositions(m, ap, nb);
    }
  }

  /**
   * Group membership after a snap attempt: a snap adds exactly the pairs of
   * distinct pieces of the union of the two clusters, and no existing entry
   * is removed or overwritten. In particular `ap` and its neighbour end up
   * in each other's group exactly when they were already grouped or the gaps
   * are within THRESHOLD.
   */
  lemma SnapJoinsClusters(a: seq<Piece>, ap: int, dir: int, rows: int, perRow: int, w: real, h: real)
    requires Layout(a, rows, perRow, w, h) && Rigid(a, perRow, w, h)
    requires 0 <= ap < |a| && 0 <= dir < NUM_NEIGHBORS && SnapReady(a, ap, dir)
    ensures var r := SnapResult(a, ap, dir, w, h); var nb := a[ap].neighbors[dir];
      |r| == |a| &&
      (forall i, j :: Member(a, i, j) ==> Member(r, i, j) && r[i].group[j] == a[i].group[j]) &&
      (Snaps(a, ap, dir, w, h) ==>
        forall i, j :: Member(r, i, j) <==>
          Member(a, i, j) || (i in Class(a, ap) + Class(a, nb) && j in Class(a, ap) + Class(a, nb) && i != j)) &&
      (nb != NONE ==> (Member(r, ap, nb) <==> Member(a, ap, nb) || ShouldSnap(dir, a[ap], a[nb], w, h)))
  {
    var r := SnapResult(a, ap, dir, w, h);
    var nb := a[ap].neighbors[dir];
    if Snaps(a, ap, dir, w, h) {
      var m := MoveCluster(a, ap, SnapTarget(dir, a[nb], w, h));
      SnapMove(a, ap, dir, rows, perRow, w, h);
      MergePositions(m, ap, nb);
      MergeMembers(m, ap, nb);
      forall i, j | Member(a, i, j)
        ensures Member(r, i, j) && r[i].group[j] == a[i].group[j]
      {
        assert Member(m, i, j);
      }
      forall i, j
        ensures Member(r, i, j) <==>
          Member(a, i, j) || (i in Class(a, ap) + Class(a, nb) && j in Class(a, ap) + Class(a, nb) && i != j)
      {
        assert Member(m, i, j) <==> Member(a, i, j);
        assert Class(m, ap) == Class(a, ap) && Class(m, nb) == Class(a, nb);
      }
      assert ap in Class(a, ap) && nb in Class(a, nb);
    }
  }

  // ---------------------------------------------------------------------------
  // The release handler's sweep

  /**
   * The snap attempts for slots `dir`, ..., 3 of piece `ap`, one after the
   * other, each on the arena the previous one left. Every invariant holds
   * throughout, nothing but positions and groups changes, and no group entry
   * is ever removed or overwritten.
   */
  ghost function SnapSlots(a: seq<Piece>, ap: int, dir: int, rows: int, perRow: int, w: real, h: real): (r: seq<Piece>)
    requires Layout(a, rows, perRow, w, h) && Rigid(a, perRow, w, h)
    requires 0 <= ap < |a| && 0 <= dir <= NUM_NEIGHBORS
    ensures Layout(r, rows, perRow, w, h) && Rigid(r, perRow, w, h)
    ensures forall i :: 0 <= i < |a| ==> r[i] == a[i].(x := r[i].x, y := r[i].y, group := r[i].group)
    ensures forall i, j :: Member(a, i, j) ==> Member(r, i, j) && r[i].group[j] == a[i].group[j]
    decreases NUM_NEIGHBORS - dir
  {
    if dir == NUM_NEIGHBORS then a
    else
      SnapKeepsRigid(a, ap, dir, rows, perRow, w, h);
      SnapKeepsFields(a, ap, dir, w, h);
      SnapJoinsClusters(a, ap, dir, rows, perRow, w, h);
      var b := SnapResult(a, ap, dir, w, h);
      var r := SnapSlots(b, ap, dir + 1, rows, perRow, w, h);
      assert forall i, j :: Member(a, i, j) ==> Member(b, i, j);
      r
  }

  /**
   * The release handler: for each piece of the snapshot `aps` (the active
   * piece, then its group), all four snap attempts in slot order.
   */
  ghost function SnapSweep(a: seq<Piece>, aps: seq<int>, rows: int, perRow: int, w: real, h: real): (r: seq<Piece>)
    requires Layout(a, rows, perRow, w, h) && Rigid(a, perRow, w, h)
    requires forall k :: 0 <= k < |aps| ==> 0 <= aps[k] < |a|
    ensures Layout(r, rows, perRow, w, h) && Rigid(r, perRow, w, h)
    ensures forall i :: 0 <= i < |a| ==> r[i] == a[i].(x := r[i].x, y := r[i].y, group := r[i].group)
    ensures forall i, j :: Member(a, i, j) ==> Member(r, i, j) && r[i].group[j] == a[i].group[j]
    decreases |aps|
  {
    if |aps| == 0 then a
    else
      var b := SnapSlots(a, aps[0], 0, rows, perRow, w, h);
      var r := SnapSweep(b, aps[1..], rows, perRow, w, h);
      assert forall i, j :: Member(a, i, j) ==> Member(b, i, j);
      r
  }

  /** One more slot: the sweep of slots `dir ..` is attempt `dir` followed by the sweep of `dir + 1 ..`. */
  lemma SnapSlotsStep(a: seq<Piece>, ap: int, dir: int, rows: int, perRow: int, w: real, h: real)
    requires Layout(a, rows, perRow, w, h) && Rigid(a, perRow, w, h)
    requires 0 <= ap < |a| && 0 <= dir < NUM_NEIGHBORS
    ensures SnapReady(a, ap, dir)
    ensures var b := SnapResult(a, ap, dir, w, h);
      Layout(b, rows, perRow, w, h) && Rigid(b, perRow, w, h) && |b| == |a| &&
      SnapSlots(a, ap, dir, rows, perRow, w, h) == SnapSlots(b, ap, dir + 1, rows, perRow, w, h)
  {
    SnapKeepsRigid(a, ap, dir, rows, perRow, w, h);
    SnapKeepsFields(a, ap, dir, w, h);
  }

  /** One more piece: the sweep of `aps` is the slots of `aps[0]` followed by the sweep of the rest. */
  lemma SnapSweepStep(a: seq<Piece>, aps: seq<int>, rows: int, perRow: int, w: real, h: real)
    requires Layout(a, rows, perRow, w, h) && Rigid(a, perRow, w, h)
    requires |aps| > 0 && forall k :: 0 <= k < |aps| ==> 0 <= aps[k] < |a|
    ensures var b := SnapSlots(a, aps[0], 0, rows, perRow, w, h);
      |b| == |a| &&
      SnapSweep(a, aps, rows, perRow, w, h) == SnapSweep(b, aps[1..], rows, perRow, w, h)
  {
  }

  // ---------------------------------------------------------------------------
  // Dragging

  /**
   * One drag update: the active piece goes to `p` and every member of its
   * group to `p` plus the offset stored for it.
   */
  function Dragged(a: seq<Piece>, act: int, p: Vec2): (r: seq<Piece>)
    requires 0 <= act < |a|
    ensures |r| == |a| && (act !in a[act].group ==> r[act].Pos() == p)
    ensures forall i :: 0 <= i < |a| && i in a[act].group ==> r[i].Pos() == p.Plus(a[act].group[i])
    ensures forall i :: 0 <= i < |a| && i != act && i !in a[act].group ==> r[i] == a[i]
    ensures forall i :: 0 <= i < |a| ==> r[i] == a[i].(x := r[i].x, y := r[i].y)
  {
    seq(|a|, i requires 0 <= i < |a| =>
      if i in a[act].group then a[i].(x := p.x + a[act].group[i].x, y := p.y + a[act].group[i].y)
      else if i == act then a[i].(x := p.x, y := p.y)
      else a[i])
  }

  /**
   * With sound groups a drag update moves the active piece's whole cluster
   * rigidly, by the delta that takes the active piece to `p`.
   */
  lemma {:induction false} DragIsTranslation(a: seq<Piece>, act: int, p: Vec2)
    requires 0 <= act < |a| && Sound(a)
    ensures Dragged(a, act, p) == Translate(a, Class(a, act), p.Minus(a[act].Pos()))
  {
    var r := Dragged(a, act, p);
    var t := Translate(a, Class(a, act), p.Minus(a[act].Pos()));
    forall i | 0 <= i < |a|
      ensures r[i] == t[i]
    {
      if Member(a, act, i) {
        assert a[act].group[i] == Offset(a, act, i);
      }
    }
  }

  /** A drag update keeps every invariant. */
  lemma DragKeepsRigid(a: seq<Piece>, act: int, p: Vec2, rows: int, perRow: int, w: real, h: real)
    requires Layout(a, rows, perRow, w, h) && Rigid(a, perRow, w, h) && 0 <= act < |a|
    ensures Layout(Dragged(a, act, p), rows, perRow, w, h) && Rigid(Dragged(a, act, p), perRow, w, h)
  {
    DragIsTranslation(a, act, p);
    TranslateClassRigid(a, act, p.Minus(a[act].Pos()), perRow, w, h);
  }
}

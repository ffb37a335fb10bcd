/**
 * The group model on values: the piece arena is a sequence indexed by piece
 * id, and each piece's `group` maps the ids of the pieces joined with it to
 * their offsets. This module gives the specification of the three group
 * updates (link two pieces, translate a set of pieces, close a set into one
 * cluster) and the invariants the engine keeps about groups.
 */
module Groups {
  import opened Geometry

  /** Position of piece `to` relative to piece `from`. */
  function Offset(a: seq<Piece>, from: int, to: int): Vec2
    requires 0 <= from < |a| && 0 <= to < |a|
  {
    a[to].Pos().Minus(a[from].Pos())
  }

  /**
   * std::map::insert: the key is added when it is absent, and an entry that
   * already exists is never overwritten.
   */
  function InsertNew(m: map<int, Vec2>, k: int, v: Vec2): (r: map<int, Vec2>)
    ensures r.Keys == m.Keys + {k}
    ensures forall j :: j in m ==> r[j] == m[j]
    ensures k !in m ==> r[k] == v
  {
    if k in m then m else m[k := v]
  }

  /**
   * addToPuzzleGroup(src, dst): `dst` records `src` at their current offset,
   * then `src` records `dst`.
   */
  function Link(a: seq<Piece>, src: int, dst: int): (r: seq<Piece>)
    requires 0 <= src < |a| && 0 <= dst < |a|
    ensures |r| == |a| && src in r[dst].group && dst in r[src].group
  {
    var a1 := a[dst := a[dst].(group := InsertNew(a[dst].group, src, Offset(a, dst, src)))];
    a1[src := a1[src].(group := InsertNew(a1[src].group, dst, Offset(a, src, dst)))]
  }

  /** Move a piece by `d`. */
  function Shift(p: Piece, d: Vec2): Piece
  {
    p.(x := p.x + d.x, y := p.y + d.y)
  }

  /** Move every piece whose id is in `s` by the same delta `d`. */
  function Translate(a: seq<Piece>, s: set<int>, d: Vec2): seq<Piece>
  {
    seq(|a|, i requires 0 <= i < |a| => if i in s then Shift(a[i], d) else a[i])
  }

  /** The links piece `i` gains when the cluster `s` is closed, at current positions. */
  function NewLinks(a: seq<Piece>, i: int, s: set<int>): map<int, Vec2>
    requires 0 <= i < |a| && forall j :: j in s ==> 0 <= j < |a|
  {
    map j | j in s && j != i :: Offset(a, i, j)
  }

  /**
   * Close the cluster `s`: every member links every other member, an existing
   * entry is kept as it is (`+` on maps prefers its right operand).
   */
  function Close(a: seq<Piece>, s: set<int>): seq<Piece>
    requires forall j :: j in s ==> 0 <= j < |a|
  {
    seq(|a|, i requires 0 <= i < |a| =>
      if i in s then a[i].(group := NewLinks(a, i, s) + a[i].group) else a[i])
  }

  /** The pieces moving with piece `c`: itself and its group. */
  function Class(a: seq<Piece>, c: int): set<int>
    requires 0 <= c < |a|
  {
    {c} + a[c].group.Keys
  }

  /** The members of a cluster are pieces of the arena. */
  lemma ClassInRange(a: seq<Piece>, c: int)
    requires 0 <= c < |a| && KeysInRange(a)
    ensures forall x :: x in Class(a, c) ==> 0 <= x < |a|
  {
    forall x | x in Class(a, c)
      ensures 0 <= x < |a|
    {
      if x != c {
        assert Member(a, c, x);
      }
    }
  }

  // ---------------------------------------------------------------------------
  // Invariants

  /** Piece `j` is in the group of piece `i`. */
  predicate Member(a: seq<Piece>, i: int, j: int)
  {
    0 <= i < |a| && j in a[i].group
  }

  /** Every group key names a piece of the arena. */
  ghost predicate KeysInRange(a: seq<Piece>)
  {
    forall i, j :: Member(a, i, j) ==> 0 <= j < |a|
  }

  /**
   * Groups are sound: no piece is in its own group, membership is mutual, and
   * every stored offset is the current relative position of the two pieces.
   */
  ghost predicate Sound(a: seq<Piece>)
  {
    forall i, j :: Member(a, i, j) ==>
      0 <= j < |a| && j != i && Member(a, j, i) && a[i].group[j] == Offset(a, i, j)
  }

  /** Grouping is transitive: a cluster is a complete graph. */
  ghost predicate Transitive(a: seq<Piece>)
  {
    forall i, j, k :: Member(a, i, j) && Member(a, j, k) && k != i ==> Member(a, i, k)
  }

  /** Where the top-left piece would be if piece `i` were placed in the assembled image. */
  function Anchor(a: seq<Piece>, i: int, perRow: int, w: real, h: real): Vec2
    requires 0 <= i < |a| && perRow > 0
  {
    a[i].Pos().Minus(GridPos(i, perRow, w, h))
  }

  /** Grouped pieces lie in their assembled-image arrangement: they share an anchor. */
  ghost predicate Formed(a: seq<Piece>, perRow: int, w: real, h: real)
    requires perRow > 0
  {
    forall i, j :: Member(a, i, j) && 0 <= j < |a| ==>
      Anchor(a, i, perRow, w, h) == Anchor(a, j, perRow, w, h)
  }

  /** Key ranges only depend on the groups. */
  lemma KeysInRangeSameGroups(a: seq<Piece>, b: seq<Piece>)
    requires |a| == |b| && KeysInRange(a)
    requires forall i :: 0 <= i < |a| ==> b[i].group == a[i].group
    ensures KeysInRange(b)
  {
    forall i, j | Member(b, i, j)
      ensures 0 <= j < |b|
    {
      assert Member(a, i, j);
    }
  }

  /** All the group invariants together. */
  ghost predicate Rigid(a: seq<Piece>, perRow: int, w: real, h: real)
    requires perRow > 0
  {
    Sound(a) && Transitive(a) && Formed(a, perRow, w, h)
  }

  /** `b` has the positions and groups of `a` (other fields may differ). */
  ghost predicate SameLayout(a: seq<Piece>, b: seq<Piece>)
  {
    |a| == |b| && forall i :: 0 <= i < |a| ==> a[i].Pos() == b[i].Pos() && a[i].group == b[i].group
  }

  /** The group invariants only read positions and groups. */
  lemma RigidLayout(a: seq<Piece>, b: seq<Piece>, perRow: int, w: real, h: real)
    requires perRow > 0 && SameLayout(a, b) && Rigid(a, perRow, w, h)
    ensures Rigid(b, perRow, w, h)
  {
    forall i, j | Member(b, i, j)
      ensures 0 <= j < |b| && j != i && Member(b, j, i) && b[i].group[j] == Offset(b, i, j)
      ensures Anchor(b, i, perRow, w, h) == Anchor(b, j, perRow, w, h)
    {
      assert Member(a, i, j);
      assert Member(a, j, i);
    }
    forall i, j, k | Member(b, i, j) && Member(b, j, k) && k != i
      ensures Member(b, i, k)
    {
      assert Member(a, i, j) && Member(a, j, k);
    }
  }

  // ---------------------------------------------------------------------------
  // Link

  /**
   * After addToPuzzleGroup(src, dst) each piece is in the other's group,
   * existing entries (and all positions) are unchanged, the pieces not
   * involved are untouched, and when the pair was new the two offsets are
   * negations of each other.
   */
  lemma LinkJoins(a: seq<Piece>, src: int, dst: int)
    requires 0 <= src < |a| && 0 <= dst < |a|
    ensures var r := Link(a, src, dst);
      |r| == |a| &&
      dst in r[src].group && src in r[dst].group &&
      (forall i :: 0 <= i < |a| ==> r[i].Pos() == a[i].Pos()) &&
      (forall i :: 0 <= i < |a| && i != src && i != dst ==> r[i] == a[i]) &&
      (forall i, j :: Member(a, i, j) ==> Member(r, i, j) && r[i].group[j] == a[i].group[j]) &&
      (src != dst && dst !in a[src].group && src !in a[dst].group ==>
         r[src].group[dst] == Offset(a, src, dst) && r[dst].group[src] == r[src].group[dst].Neg())
  {
  }

  /** addToPuzzleGroup changes only groups and keeps every entry that was there. */
  lemma LinkKeeps(a: seq<Piece>, src: int, dst: int)
    requires 0 <= src < |a| && 0 <= dst < |a|
    ensures var r := Link(a, src, dst);
      |r| == |a| && (forall i :: 0 <= i < |a| ==> r[i] == a[i].(group := r[i].group)) &&
      forall i, j :: Member(a, i, j) ==> Member(r, i, j) && r[i].group[j] == a[i].group[j]
  {
  }

  /** addToPuzzleGroup only adds pieces of the arena to groups. */
  lemma LinkKeysInRange(a: seq<Piece>, src: int, dst: int)
    requires 0 <= src < |a| && 0 <= dst < |a| && KeysInRange(a)
    ensures KeysInRange(Link(a, src, dst))
  {
    var r := Link(a, src, dst);
    forall i, j | Member(r, i, j)
      ensures 0 <= j < |r|
    {
      LinkGroupKeys(a, src, dst, i);
      if j in a[i].group {
        assert Member(a, i, j);
      }
    }
  }

  /** The group keys of one piece after addToPuzzleGroup(src, dst). */
  lemma LinkGroupKeys(a: seq<Piece>, src: int, dst: int, i: int)
    requires 0 <= src < |a| && 0 <= dst < |a| && 0 <= i < |a|
    ensures Link(a, src, dst)[i].group.Keys ==
      a[i].group.Keys + (if i == src then {dst} else {}) + (if i == dst then {src} else {})
  {
  }

  /** A second addToPuzzleGroup with the same positions changes nothing. */
  lemma {:induction false} LinkIdempotent(a: seq<Piece>, src: int, dst: int)
    requires 0 <= src < |a| && 0 <= dst < |a|
    ensures Link(Link(a, src, dst), src, dst) == Link(a, src, dst)
  {
    var r := Link(a, src, dst);
    LinkJoins(a, src, dst);
    assert Offset(r, dst, src) == Offset(a, dst, src);
    assert Offset(r, src, dst) == Offset(a, src, dst);
    var r1 := r[dst := r[dst].(group := InsertNew(r[dst].group, src, Offset(r, dst, src)))];
    assert r1 == r;
  }

  // ---------------------------------------------------------------------------
  // Close

  /**
   * Closing `s` makes every ordered pair of distinct members mutual members,
   * keeps every existing entry, adds nothing outside `s`, and leaves the
   * positions alone.
   */
  lemma CloseConnects(a: seq<Piece>, s: set<int>)
    requires forall j :: j in s ==> 0 <= j < |a|
    ensures var r := Close(a, s);
      |r| == |a| &&
      (forall i :: 0 <= i < |a| ==> r[i].Pos() == a[i].Pos()) &&
      (forall i, j :: i in s && j in s && i != j ==> Member(r, i, j)) &&
      (forall i, j :: Member(a, i, j) ==> Member(r, i, j) && r[i].group[j] == a[i].group[j]) &&
      (forall i :: 0 <= i < |a| ==>
         r[i].group.Keys == a[i].group.Keys + (if i in s then s - {i} else {}))
  {
    var r := Close(a, s);
    forall i | 0 <= i < |a|
      ensures r[i].group.Keys == a[i].group.Keys + (if i in s then s - {i} else {})
    {
      if i in s {
        assert NewLinks(a, i, s).Keys == s - {i};
      }
    }
  }

  /** Closing a cluster changes only groups and keeps every entry that was there. */
  lemma CloseKeeps(a: seq<Piece>, s: set<int>)
    requires forall j :: j in s ==> 0 <= j < |a|
    ensures var r := Close(a, s);
      |r| == |a| && (forall i :: 0 <= i < |a| ==> r[i] == a[i].(group := r[i].group)) &&
      forall i, j :: Member(a, i, j) ==> Member(r, i, j) && r[i].group[j] == a[i].group[j]
  {
  }

  /** The group keys of one piece after closing `s`. */
  lemma CloseGroupKeys(a: seq<Piece>, s: set<int>, i: int)
    requires (forall j :: j in s ==> 0 <= j < |a|) && 0 <= i < |a|
    ensures Close(a, s)[i].group.Keys == a[i].group.Keys + (if i in s then s - {i} else {})
  {
    if i in s {
      assert NewLinks(a, i, s).Keys == s - {i};
    }
  }

  // ---------------------------------------------------------------------------
  // Closing by repeated links

  /** The pieces that the pairs `P` link piece `i` with, in either direction. */
  function Partners(P: set<(int, int)>, i: int): (r: set<int>)
    ensures forall j :: j in r <==> (i, j) in P || (j, i) in P
  {
    var fwd := set p | p in P && p.0 == i :: p.1;
    var bwd := set p | p in P && p.1 == i :: p.0;
    assert forall j :: (i, j) in P ==> j in fwd;
    assert forall j :: (j, i) in P ==> j in bwd;
    fwd + bwd
  }

  /** Offsets from piece `i` to each piece of `S`. */
  function PartnerMap(a: seq<Piece>, i: int, S: set<int>): (m: map<int, Vec2>)
    requires 0 <= i < |a| && forall j :: j in S ==> 0 <= j < |a|
    ensures m.Keys == S && forall j :: j in S ==> m[j] == Offset(a, i, j)
  {
    map j | j in S :: Offset(a, i, j)
  }

  /** Both pieces of every pair are pieces of the arena. */
  ghost predicate PairsIn(a: seq<Piece>, P: set<(int, int)>)
  {
    forall p :: p in P ==> 0 <= p.0 < |a| && 0 <= p.1 < |a|
  }

  /**
   * `a` after addToPuzzleGroup on every pair of `P`, in any order: each piece
   * gains its partners at their current offsets, an existing entry is kept,
   * and nothing moves.
   */
  function Linked(a: seq<Piece>, P: set<(int, int)>): seq<Piece>
    requires PairsIn(a, P)
  {
    seq(|a|, i requires 0 <= i < |a| => a[i].(group := PartnerMap(a, i, Partners(P, i)) + a[i].group))
  }

  /** No pairs, no change. */
  lemma LinkedNothing(a: seq<Piece>)
    ensures PairsIn(a, {}) && Linked(a, {}) == a
  {
    forall i | 0 <= i < |a|
      ensures Linked(a, {})[i] == a[i]
    {
      assert PartnerMap(a, i, Partners({}, i)) == map[];
    }
  }

  /** One more addToPuzzleGroup adds one more pair. */
  lemma {:induction false} LinkedStep(a: seq<Piece>, P: set<(int, int)>, x: int, y: int)
    requires PairsIn(a, P) && 0 <= x < |a| && 0 <= y < |a| && x != y
    ensures PairsIn(a, P + {(x, y)})
    ensures Link(Linked(a, P), x, y) == Linked(a, P + {(x, y)})
  {
    var l := Link(Linked(a, P), x, y);
    var c := Linked(a, P + {(x, y)});
    forall i | 0 <= i < |a|
      ensures l[i] == c[i]
    {
      LinkedStepAt(a, P, x, y, i);
    }
  }

  lemma LinkedStepAt(a: seq<Piece>, P: set<(int, int)>, x: int, y: int, i: int)
    requires PairsIn(a, P) && 0 <= x < |a| && 0 <= y < |a| && x != y && 0 <= i < |a|
    ensures PairsIn(a, P + {(x, y)})
    ensures Link(Linked(a, P), x, y)[i] == Linked(a, P + {(x, y)})[i]
  {
    if i == x || i == y {
      LinkedStepEnd(a, P, x, y, i);
    } else {
      assert Partners(P + {(x, y)}, i) == Partners(P, i);
    }
  }

  lemma LinkedStepEnd(a: seq<Piece>, P: set<(int, int)>, x: int, y: int, i: int)
    requires PairsIn(a, P) && 0 <= x < |a| && 0 <= y < |a| && x != y && (i == x || i == y)
    ensures PairsIn(a, P + {(x, y)})
    ensures Link(Linked(a, P), x, y)[i] == Linked(a, P + {(x, y)})[i]
  {
    var b := Linked(a, P);
    var o := if i == x then y else x;
    var S := Partners(P, i);
    var v := Offset(a, i, o);
    forall j | j in S
      ensures 0 <= j < |a|
    {
      assert (i, j) in P || (j, i) in P;
    }
    PartnersAdd(P, x, y, i);
    LinkedAt(a, P, i);
    LinkedAt(a, P + {(x, y)}, i);
    LinkEnd(b, x, y, i);
    assert Offset(b, i, o) == v;
    InsertPartner(PartnerMap(a, i, S), a[i].group, o, v);
    PartnerMapAdd(a, i, S, o);
  }

  /** Piece `i` of a linked arena. */
  lemma LinkedAt(a: seq<Piece>, P: set<(int, int)>, i: int)
    requires PairsIn(a, P) && 0 <= i < |a|
    ensures Linked(a, P)[i] == a[i].(group := PartnerMap(a, i, Partners(P, i)) + a[i].group)
  {
  }

  /** One more pair gives each of its two pieces one more partner. */
  lemma PartnersAdd(P: set<(int, int)>, x: int, y: int, i: int)
    requires i == x || i == y
    ensures Partners(P + {(x, y)}, i) == Partners(P, i) + {if i == x then y else x}
  {
  }

  /** The piece `i` of a linked pair after addToPuzzleGroup. */
  lemma LinkEnd(b: seq<Piece>, x: int, y: int, i: int)
    requires 0 <= x < |b| && 0 <= y < |b| && x != y && (i == x || i == y)
    ensures var o := if i == x then y else x;
      Link(b, x, y)[i] == b[i].(group := InsertNew(b[i].group, o, Offset(b, i, o)))
  {
  }

  lemma PartnerMapAdd(a: seq<Piece>, i: int, S: set<int>, o: int)
    requires 0 <= i < |a| && 0 <= o < |a| && forall j :: j in S ==> 0 <= j < |a|
    ensures PartnerMap(a, i, S + {o}) == PartnerMap(a, i, S)[o := Offset(a, i, o)]
  {
  }

  lemma InsertPartner(m: map<int, Vec2>, g: map<int, Vec2>, k: int, v: Vec2)
    requires k in m ==> m[k] == v
    ensures InsertNew(m + g, k, v) == m[k := v] + g
  {
  }

  /** Every ordered pair of distinct members of `s`. */
  function AllPairs(s: set<int>): set<(int, int)>
  {
    set x, y | x in s && y in s && x != y :: (x, y)
  }

  /** Linking every pair of `s` is closing `s`. */
  lemma {:induction false} LinkedAllPairs(a: seq<Piece>, s: set<int>)
    requires forall j :: j in s ==> 0 <= j < |a|
    ensures PairsIn(a, AllPairs(s))
    ensures Linked(a, AllPairs(s)) == Close(a, s)
  {
    AllPairsIn(a, s);
    forall i | 0 <= i < |a|
      ensures Linked(a, AllPairs(s))[i] == Close(a, s)[i]
    {
      AllPairsPartners(s, i);
      if i in s {
        assert PartnerMap(a, i, s - {i}) == NewLinks(a, i, s);
      } else {
        assert PartnerMap(a, i, {}) == map[];
      }
    }
  }

  lemma AllPairsIn(a: seq<Piece>, s: set<int>)
    requires forall j :: j in s ==> 0 <= j < |a|
    ensures PairsIn(a, AllPairs(s))
  {
  }

  /** In the pairs of `s`, a member's partners are the other members; an outsider has none. */
  lemma AllPairsPartners(s: set<int>, i: int)
    ensures Partners(AllPairs(s), i) == if i in s then s - {i} else {}
  {
    var P := AllPairs(s);
    if i in s {
      forall j | j in s - {i}
        ensures (i, j) in P
      {
      }
    }
  }

  // ---------------------------------------------------------------------------
  // Translation of a cluster

  /** A cluster (a piece and its group) is closed under the group relation. */
  lemma ClassClosed(a: seq<Piece>, c: int, i: int, j: int)
    requires Sound(a) && Transitive(a) && 0 <= c < |a| && Member(a, i, j)
    ensures i in Class(a, c) <==> j in Class(a, c)
  {
    assert Member(a, j, i);
    if Member(a, c, i) && j != c {
      assert Member(a, c, j);
    }
    if Member(a, c, j) && i != c {
      assert Member(a, c, i);
    }
  }

  /**
   * Moving a whole cluster by one delta keeps every group invariant: stored
   * offsets stay equal to relative positions and grouped pieces keep a
   * common anchor.
   */
  lemma {:induction false} TranslateClassRigid(a: seq<Piece>, c: int, d: Vec2, perRow: int, w: real, h: real)
    requires perRow > 0 && 0 <= c < |a| && Rigid(a, perRow, w, h)
    ensures Rigid(Translate(a, Class(a, c), d), perRow, w, h)
  {
    var s := Class(a, c);
    var r := Translate(a, s, d);
    forall i, j | Member(r, i, j)
      ensures 0 <= j < |r| && j != i && Member(r, j, i) && r[i].group[j] == Offset(r, i, j)
      ensures Anchor(r, i, perRow, w, h) == Anchor(r, j, perRow, w, h)
    {
      TranslatePair(a, s, d, c, i, j, perRow, w, h);
    }
    forall i, j, k | Member(r, i, j) && Member(r, j, k) && k != i
      ensures Member(r, i, k)
    {
      assert Member(a, i, j) && Member(a, j, k);
    }
  }

  lemma TranslatePair(a: seq<Piece>, s: set<int>, d: Vec2, c: int, i: int, j: int, perRow: int, w: real, h: real)
    requires perRow > 0 && 0 <= c < |a| && Rigid(a, perRow, w, h) && s == Class(a, c)
    requires Member(Translate(a, s, d), i, j)
    ensures var r := Translate(a, s, d);
      0 <= j < |r| && j != i && Member(r, j, i) && r[i].group[j] == Offset(r, i, j) &&
      Anchor(r, i, perRow, w, h) == Anchor(r, j, perRow, w, h)
  {
    assert Member(a, i, j);
    ClassClosed(a, c, i, j);
    assert Member(a, j, i);
    assert Anchor(a, i, perRow, w, h) == Anchor(a, j, perRow, w, h);
  }
}

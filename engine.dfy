/**
 * The puzzle engine's state and event handlers: the pieces, their drawing
 * order, the active piece and drag offset, and the mouse flag, with the
 * setup of the grid, the lookup by id, the group operations, the press,
 * drag and release handlers, the scramble and the completion test. Every
 * handler is proved against the value-level specification of the modules
 * it imports, and keeps the class invariant `Valid`.
 */
module Engine {
  import opened Geometry
  import opened Groups
  import opened Placement
  import opened Depth
  import opened Completion

  /** Every piece's id is its index in the arena. */
  predicate Identified(a: seq<Piece>)
  {
    forall i :: 0 <= i < |a| ==> a[i].id == i
  }

  /** The ids `0, 1, ..., n-1` in the order setup_pieces pushes them. */
  function Iota(n: nat): (o: seq<int>)
    ensures |o| == n && forall k :: 0 <= k < n ==> o[k] == k
  {
    seq(n, k => k)
  }

  /** The id-order vector names exactly the id set the completion test counts against. */
  lemma IotaIds(n: nat)
    ensures (set k | k in Iota(n)) == Ids(n)
  {
    forall x
      ensures x in Iota(n) <==> x in Ids(n)
    {
      if 0 <= x < n {
        assert Iota(n)[x] == x;
      }
    }
  }

  /**
   * The keys of `g` in the order `addr` lists them. A `std::map` keyed by
   * piece pointers is visited in address order; `addr` lists the piece ids
   * by ascending heap address.
   */
  function KeysInOrder(addr: seq<int>, g: map<int, Vec2>): (r: seq<int>)
    ensures forall x :: x in r <==> x in addr && x in g
  {
    if addr == [] then []
    else
      var last := addr[|addr| - 1];
      KeysInOrder(addr[..|addr| - 1], g) + if last in g then [last] else []
  }

  /** Visiting the keys in an order that names each id once visits each key once. */
  lemma {:induction false} KeysInOrderDistinct(addr: seq<int>, g: map<int, Vec2>)
    requires forall k, l :: 0 <= k < l < |addr| ==> addr[k] != addr[l]
    ensures forall k, l :: 0 <= k < l < |KeysInOrder(addr, g)| ==> KeysInOrder(addr, g)[k] != KeysInOrder(addr, g)[l]
  {
    if addr != [] {
      var init := addr[..|addr| - 1];
      var last := addr[|addr| - 1];
      assert forall k, l :: 0 <= k < l < |init| ==> init[k] != init[l] by {
        forall k, l | 0 <= k < l < |init|
          ensures init[k] != init[l]
        {
          assert init[k] == addr[k] && init[l] == addr[l];
        }
      }
      KeysInOrderDistinct(init, g);
      if last in g {
        var r0 := KeysInOrder(init, g);
        forall k | 0 <= k < |init|
          ensures init[k] != last
        {
          assert init[k] == addr[k];
        }
        assert last !in r0;
        var r := KeysInOrder(addr, g);
        assert r == r0 + [last];
        forall k, l | 0 <= k < l < |r|
          ensures r[k] != r[l]
        {
          if l == |r| - 1 {
            assert r[k] == r0[k] && r0[k] in r0;
          } else {
            assert r[k] == r0[k] && r[l] == r0[l];
          }
        }
      }
    }
  }

  /** `o` holds every piece id `0 .. n-1` exactly once. */
  predicate IsOrder(o: seq<int>, n: nat)
  {
    multiset(o) == multiset(Iota(n))
  }

  lemma IotaCount(n: nat, x: int)
    ensures multiset(Iota(n))[x] == if 0 <= x < n then 1 else 0
  {
    if n > 0 {
      assert Iota(n) == Iota(n - 1) + [n - 1];
      IotaCount(n - 1, x);
    }
  }

  /** An order has length `n`, names exactly the ids below `n`, and names each once. */
  lemma OrderFacts(o: seq<int>, n: nat)
    requires IsOrder(o, n)
    ensures |o| == n
    ensures forall x :: x in o <==> 0 <= x < n
    ensures forall k, l :: 0 <= k < l < |o| ==> o[k] != o[l]
  {
    assert |o| == |multiset(o)| == |multiset(Iota(n))| == n;
    forall x
      ensures x in o <==> 0 <= x < n
    {
      IotaCount(n, x);
      assert x in o <==> x in multiset(o);
    }
    forall k, l | 0 <= k < l < |o|
      ensures o[k] != o[l]
    {
      if o[k] == o[l] {
        var x := o[k];
        assert o == o[..l] + o[l..];
        assert x in o[..l] && x in o[l..];
        assert multiset(o)[x] == multiset(o[..l])[x] + multiset(o[l..])[x];
        IotaCount(n, x);
        assert false;
      }
    }
  }

  /** The pair of piece width and height is positive and at most the scene size. */
  lemma SizeBounds(c: int)
    requires c >= 1
    ensures 0.0 < 2.0 / (c as real) <= 2.0
  {
    var r := c as real;
    assert r * (2.0 / r) == 2.0;
  }

  /**
   * The pairs linked by the first `x` rows of the closure loop and the
   * first `y` entries of row `x`: (structure[k], structure[l]) with
   * k before l in loop order and different pieces.
   */
  function LinkedSoFar(st: seq<int>, x: int, y: int): set<(int, int)>
  {
    set k, l | 0 <= k < |st| && 0 <= l < |st| && (k < x || (k == x && l < y)) && st[k] != st[l] :: (st[k], st[l])
  }

  lemma LinkedSoFarNext(st: seq<int>, x: int, y: int)
    requires 0 <= x < |st| && 0 <= y < |st|
    ensures LinkedSoFar(st, x, y + 1) ==
      LinkedSoFar(st, x, y) + (if st[x] != st[y] then {(st[x], st[y])} else {})
  {
  }

  lemma LinkedSoFarRow(st: seq<int>, x: int)
    requires 0 <= x < |st|
    ensures LinkedSoFar(st, x, |st|) == LinkedSoFar(st, x + 1, 0)
  {
  }

  lemma LinkedSoFarAll(st: seq<int>)
    ensures LinkedSoFar(st, |st|, 0) == AllPairs(set x | x in st)
  {
    var s := set x | x in st;
    forall p | p in AllPairs(s)
      ensures p in LinkedSoFar(st, |st|, 0)
    {
      var k :| 0 <= k < |st| && st[k] == p.0;
      var l :| 0 <= l < |st| && st[l] == p.1;
      assert p == (st[k], st[l]);
    }
  }

  /**
   * The state the handlers keep: the grid layout, the group invariants, and a
   * drawing order that names every piece once, sorted by depth.
   */
  ghost predicate Consistent(a: seq<Piece>, o: seq<int>, rows: int, perRow: int, w: real, h: real)
  {
    Layout(a, rows, perRow, w, h) && Rigid(a, perRow, w, h) &&
    IsOrder(o, rows * perRow) && InArena(a, o) && DepthOrdered(a, o)
  }

  /** A snap attempt keeps the state consistent (and is always defined in it). */
  lemma SnapConsistent(a: seq<Piece>, o: seq<int>, ap: int, dir: int, rows: int, perRow: int, w: real, h: real)
    requires Consistent(a, o, rows, perRow, w, h) && 0 <= ap < |a| && 0 <= dir < NUM_NEIGHBORS
    ensures SnapReady(a, ap, dir) && Consistent(SnapResult(a, ap, dir, w, h), o, rows, perRow, w, h)
  {
    SnapDefined(a, ap, dir, rows, perRow, w, h);
    SnapKeepsRigid(a, ap, dir, rows, perRow, w, h);
    SnapKeepsFields(a, ap, dir, w, h);
    SameDepths(a, SnapResult(a, ap, dir, w, h), o);
  }

  /** A drag update keeps the state consistent. */
  lemma DragConsistent(a: seq<Piece>, o: seq<int>, act: int, p: Vec2, rows: int, perRow: int, w: real, h: real)
    requires Consistent(a, o, rows, perRow, w, h) && 0 <= act < |a|
    ensures Consistent(Dragged(a, act, p), o, rows, perRow, w, h)
  {
    DragKeepsRigid(a, act, p, rows, perRow, w, h);
    SameDepths(a, Dragged(a, act, p), o);
  }

  /** Changing depths only keeps the layout and the group invariants. */
  lemma DepthsOnly(a: seq<Piece>, b: seq<Piece>, rows: int, perRow: int, w: real, h: real)
    requires Layout(a, rows, perRow, w, h) && Rigid(a, perRow, w, h) && |b| == |a|
    requires forall i :: 0 <= i < |a| ==> b[i] == a[i].(z := b[i].z)
    ensures Layout(b, rows, perRow, w, h) && Rigid(b, perRow, w, h)
  {
    RigidLayout(a, b, perRow, w, h);
  }

  /**
   * The scramble loop over the drawing order: the piece at position `k` gets
   * the coordinates drawn from the fractions `fx[k]` and `fy[k]` and an
   * empty group.
   */
  method ScatterPieces(a: seq<Piece>, o: seq<int>, fx: seq<real>, fy: seq<real>, w: real) returns (b: seq<Piece>)
    requires IsOrder(o, |a|) && InArena(a, o) && |fx| == |o| && |fy| == |o| && 0.0 < w <= 2.0
    requires forall k :: 0 <= k < |fx| ==> 0.0 <= fx[k] <= 1.0
    requires forall k :: 0 <= k < |fy| ==> 0.0 <= fy[k] <= 1.0
    ensures |b| == |a|
    ensures forall k :: 0 <= k < |o| ==>
      b[o[k]] == a[o[k]].(x := Scatter(fx[k], w), y := Scatter(fy[k], w), group := map[])
    ensures forall i :: 0 <= i < |a| ==>
      b[i] == a[i].(x := b[i].x, y := b[i].y, group := map[]) &&
      -1.0 + w / 2.0 <= b[i].x <= 1.0 - w / 2.0 && -1.0 + w / 2.0 <= b[i].y <= 1.0 - w / 2.0
  {
    OrderFacts(o, |a|);
    b := a;
    for k := 0 to |o|
      invariant |b| == |a|
      invariant forall l :: 0 <= l < k ==>
        b[o[l]] == a[o[l]].(x := Scatter(fx[l], w), y := Scatter(fy[l], w), group := map[])
      invariant forall i :: 0 <= i < |a| && i !in o[..k] ==> b[i] == a[i]
    {
      var p := o[k];
      b := b[p := b[p].(x := Scatter(fx[k], w), y := Scatter(fy[k], w), group := map[])];
    }
    forall i | 0 <= i < |a|
      ensures b[i] == a[i].(x := b[i].x, y := b[i].y, group := map[])
      ensures -1.0 + w / 2.0 <= b[i].x <= 1.0 - w / 2.0 && -1.0 + w / 2.0 <= b[i].y <= 1.0 - w / 2.0
    {
      assert i in o;
      var k :| 0 <= k < |o| && o[k] == i;
    }
  }

  /** Moving every piece and emptying every group keeps the state consistent. */
  lemma ScatterConsistent(a: seq<Piece>, b: seq<Piece>, o: seq<int>, rows: int, perRow: int, w: real, h: real)
    requires Consistent(a, o, rows, perRow, w, h) && perRow > 0 && |b| == |a|
    requires forall i :: 0 <= i < |a| ==> b[i] == a[i].(x := b[i].x, y := b[i].y, group := map[])
    ensures Consistent(b, o, rows, perRow, w, h)
  {
    FieldsKeepLayout(a, b, rows, perRow, w, h);
    UngroupedRigid(b, perRow, w, h);
    SameDepths(a, b, o);
  }

  /** With every group empty the group invariants hold trivially. */
  lemma UngroupedRigid(a: seq<Piece>, perRow: int, w: real, h: real)
    requires perRow > 0 && forall i :: 0 <= i < |a| ==> a[i].group == map[]
    ensures Rigid(a, perRow, w, h)
  {
    forall i, j | Member(a, i, j)
      ensures false
    {
    }
  }

  /**
   * The intermediate states of a snap: after the move the groups still name
   * pieces of the arena, after the link every piece keeps its id, and the
   * closure of the gathered structure is the snap's result.
   */
  lemma SnapStages(a: seq<Piece>, ap: int, dir: int, rows: int, perRow: int, w: real, h: real)
    requires Layout(a, rows, perRow, w, h) && Rigid(a, perRow, w, h)
    requires SnapReady(a, ap, dir) && a[ap].neighbors[dir] != NONE
    requires ShouldSnap(dir, a[ap], a[a[ap].neighbors[dir]], w, h)
    ensures var nb := a[ap].neighbors[dir];
      var m := MoveCluster(a, ap, SnapTarget(dir, a[nb], w, h));
      0 <= nb < |a| && KeysInRange(m) && KeysInRange(Link(m, ap, nb)) &&
      Identified(Link(m, ap, nb)) &&
      SnapResult(a, ap, dir, w, h) == Merge(m, ap, nb)
  {
    var nb := a[ap].neighbors[dir];
    NeighborPiece(a, ap, dir, rows, perRow, w, h);
    var m := MoveCluster(a, ap, SnapTarget(dir, a[nb], w, h));
    KeysInRangeSameGroups(a, m);
    LinkKeysInRange(m, ap, nb);
    var l := Link(m, ap, nb);
    LinkJoins(m, ap, nb);
    forall i | 0 <= i < |l|
      ensures l[i].id == i
    {
      assert l[i].id == m[i].id;
    }
  }

  /**
   * The grid setup_pieces builds satisfies the layout, has no groups, and is
   * sorted by depth in id order.
   */
  lemma InitialValid(a: seq<Piece>, r: int, c: int, w: real, h: real)
    requires r >= 1 && c >= 1 && |a| == r * c
    requires forall i :: 0 <= i < |a| ==> a[i] == InitialPiece(i, |a|, c, w, h)
    ensures Layout(a, r, c, w, h) && Rigid(a, c, w, h)
    ensures IsOrder(Iota(|a|), |a|) && InArena(a, Iota(|a|)) && DepthOrdered(a, Iota(|a|))
  {
    forall i, j | Member(a, i, j)
      ensures false
    {
    }
  }

  /**
   * The press handler's search: walk the drawing order from the back (the
   * front-most piece) and stop at the first piece whose box holds the point.
   * The result is the position in the drawing order.
   */
  method PieceAt(a: seq<Piece>, o: seq<int>, px: real, py: real, w: real, h: real) returns (r: Option<int>)
    requires InArena(a, o)
    ensures r == TopmostHit(a, o, px, py, w, h)
  {
    var k := |o|;
    while k > 0
      invariant 0 <= k <= |o|
      invariant TopmostHit(a, o[..k], px, py, w, h) == TopmostHit(a, o, px, py, w, h)
    {
      assert o[..k][..k - 1] == o[..k - 1];
      if Hit(a[o[k - 1]], px, py, w, h) {
        return Some(k - 1);
      }
      k := k - 1;
    }
    return None;
  }

  /**
   * `b` is `a` with the cluster of piece `c` (itself and its group) raised:
   * only depths change, only the cluster's depths change, and every piece of
   * the cluster lies strictly above every other piece.
   */
  ghost predicate RaisedAbove(a: seq<Piece>, b: seq<Piece>, c: int)
    requires 0 <= c < |a|
  {
    |b| == |a| &&
    (forall i :: 0 <= i < |a| ==> b[i] == a[i].(z := b[i].z)) &&
    (forall i :: 0 <= i < |a| && i !in Class(a, c) ==> b[i].z == a[i].z) &&
    (forall i, j :: 0 <= i < |a| && i in Class(a, c) && 0 <= j < |a| && j !in Class(a, c) ==> b[i].z > b[j].z)
  }

  /**
   * The press handler's raise: the active piece `c`, then each member of its
   * group in address order `addr`, gets the depth of the last piece of the
   * drawing order plus one, read anew for every piece.
   */
  method RaiseCluster(a: seq<Piece>, o: seq<int>, c: int, addr: seq<int>) returns (b: seq<Piece>)
    requires IsOrder(o, |a|) && InArena(a, o) && DepthOrdered(a, o) && 0 <= c < |a|
    requires IsOrder(addr, |a|)
    ensures RaisedAbove(a, b, c)
  {
    OrderFacts(o, |a|);
    OrderFacts(addr, |a|);
    var top := o[|o| - 1];
    ghost var deepest := a[top].z;
    forall i | 0 <= i < |a|
      ensures a[i].z <= deepest
    {
      assert i in o;
      var k :| 0 <= k < |o| && o[k] == i;
      LastIsDeepest(a, o, k);
    }
    b := a[c := a[c].(z := a[top].z + 1.0)];
    for k := 0 to |addr|
      invariant |b| == |a| && b[top].z >= deepest
      invariant forall i :: 0 <= i < |a| ==> b[i] == a[i].(z := b[i].z)
      invariant forall i :: 0 <= i < |a| && (i == c || (i in a[c].group && i in addr[..k])) ==> b[i].z > deepest
      invariant forall i :: 0 <= i < |a| && i != c && (i !in a[c].group || i !in addr[..k]) ==> b[i].z == a[i].z
    {
      assert addr[..k + 1] == addr[..k] + [addr[k]];
      var j := addr[k];
      assert j in addr;
      if j in a[c].group {
        b := b[j := b[j].(z := b[top].z + 1.0)];
      }
    }
    assert addr[..|addr|] == addr;
    forall i | 0 <= i < |a| && i in Class(a, c)
      ensures b[i].z > deepest
    {
      if i != c {
        assert i in a[c].group && i in addr;
      }
    }
  }

  /** A press keeps the state consistent: raising changes depths only, and the order is sorted again. */
  lemma PressConsistent(a: seq<Piece>, b: seq<Piece>, o: seq<int>, c: int, rows: int, perRow: int, w: real, h: real)
    requires Consistent(a, o, rows, perRow, w, h) && 0 <= c < |a| && RaisedAbove(a, b, c)
    ensures InArena(b, o) && Consistent(b, SortByDepth(b, o), rows, perRow, w, h)
  {
    DepthsOnly(a, b, rows, perRow, w, h);
  }

  class Puzzle {
    /** PIECE_ROWS and PIECE_COLS. */
    const rows: int
    const cols: int
    /** NUM_PIECES and pieces_per_row. */
    const count: int
    const perRow: int
    /** PIECE_WIDTH and PIECE_HEIGHT in scene units. */
    const width: real
    const height: real

    /** The pieces, indexed by id (a pointer to a piece is its id). */
    var arena: seq<Piece>
    /** The vector `pieces`: ids in drawing order, back to front. */
    var drawOrder: seq<int>
    /** active_piece; NONE for the null pointer. */
    var active: int
    /** drag_location_x and drag_location_y: the pointer relative to the active piece at the press. */
    var dragX: real
    var dragY: real
    var mouseDown: bool

    /**
     * The class invariant: the grid layout, the group invariants, a drawing
     * order that names every piece once, sorted by depth, and an active
     * piece whenever the button is down.
     */
    ghost predicate Valid()
      reads this
    {
      rows >= 1 && cols >= 1 && count == rows * cols && perRow == cols &&
      width == 2.0 / (cols as real) && height == 2.0 / (rows as real) &&
      Consistent(arena, drawOrder, rows, perRow, width, height) &&
      -1 <= active < count && (mouseDown ==> active >= 0)
    }

    /**
     * setup_pieces for a `r` by `c` grid: piece `i` at grid cell
     * (i / perRow, i % perRow), depth `i`, no group, its neighbour slots and
     * texture offset, pushed in id order.
     */
    constructor (r: int, c: int)
      requires r >= 1 && c >= 1
      ensures Valid()
      ensures rows == r && cols == c && count == r * c
      ensures |arena| == count && drawOrder == Iota(count)
      ensures forall i :: 0 <= i < count ==> arena[i] == InitialPiece(i, count, perRow, width, height)
      ensures active == NONE && !mouseDown
    {
      rows := r;
      cols := c;
      count := r * c;
      perRow := (r * c) / r;
      width := 2.0 / (c as real);
      height := 2.0 / (r as real);
      active := NONE;
      dragX, dragY := 0.0, 0.0;
      mouseDown := false;
      new;
      DivModUnique(r * c, r, c, 0);
      arena := [];
      drawOrder := [];
      for i := 0 to count
        invariant |arena| == i && drawOrder == Iota(i) && active == NONE && !mouseDown
        invariant forall k :: 0 <= k < i ==> arena[k] == InitialPiece(k, count, perRow, width, height)
      {
        arena := arena + [InitialPiece(i, count, perRow, width, height)];
        drawOrder := drawOrder + [i];
      }
      SizeBounds(c);
      InitialValid(arena, r, c, width, height);
    }

    /**
     * retrievePuzzlePieceByID: the first piece in drawing order with this id,
     * or NONE. With the invariant, ids are exactly the valid indices.
     */
    method Retrieve(id: int) returns (r: Option<int>)
      requires InArena(arena, drawOrder)
      ensures r.Some? ==> 0 <= r.value < |arena| && arena[r.value].id == id && r.value in drawOrder
      ensures r.None? <==> forall k :: 0 <= k < |drawOrder| ==> arena[drawOrder[k]].id != id
      ensures IsOrder(drawOrder, |arena|) && Identified(arena) ==>
        r == if 0 <= id < |arena| then Some(id) else None
    {
      if IsOrder(drawOrder, |arena|) && Identified(arena) && 0 <= id < |arena| {
        OrderFacts(drawOrder, |arena|);
        assert id in drawOrder;
      }
      for k := 0 to |drawOrder|
        invariant forall k' :: 0 <= k' < k ==> arena[drawOrder[k']].id != id
      {
        if arena[drawOrder[k]].id == id {
          return Some(drawOrder[k]);
        }
      }
      return None;
    }

    /** addToPuzzleGroup(src, dst). */
    method AddToGroup(src: int, dst: int)
      requires 0 <= src < |arena| && 0 <= dst < |arena|
      modifies this`arena
      ensures arena == Link(old(arena), src, dst)
    {
      var v := arena[src].Pos().Minus(arena[dst].Pos());
      arena := arena[dst := arena[dst].(group := InsertNew(arena[dst].group, src, v))];
      v := arena[dst].Pos().Minus(arena[src].Pos());
      arena := arena[src := arena[src].(group := InsertNew(arena[src].group, dst, v))];
    }

    /**
     * The release handler's loop moving every member of `ap`'s group by `d`.
     * The members are visited in id order; the result is the same in any order.
     */
    method TranslateGroup(ap: int, d: Vec2)
      requires 0 <= ap < |arena| && forall j :: j in arena[ap].group ==> 0 <= j < |arena|
      modifies this`arena
      ensures arena == Translate(old(arena), old(arena)[ap].group.Keys, d)
    {
      ghost var a0 := arena;
      var keys := arena[ap].group.Keys;
      for j := 0 to |arena|
        invariant |arena| == |a0|
        invariant forall i :: 0 <= i < |a0| ==> arena[i] == if i in keys && i < j then Shift(a0[i], d) else a0[i]
      {
        if j in keys {
          arena := arena[j := Shift(arena[j], d)];
        }
      }
      assert forall i :: 0 <= i < |a0| ==> arena[i] == Translate(a0, keys, d)[i];
    }

    /**
     * The piece structure of a snap: the neighbour, the piece, then the
     * members of each one's group (duplicates allowed), each group in id order.
     */
    method GatherStructure(nb: int, ap: int) returns (st: seq<int>)
      requires 0 <= ap < |arena| && 0 <= nb < |arena| && KeysInRange(arena)
      ensures |st| >= 2 && st[..2] == [nb, ap]
      ensures forall x :: x in st <==> x == nb || x == ap || x in arena[ap].group || x in arena[nb].group
      ensures forall k :: 0 <= k < |st| ==> 0 <= st[k] < |arena|
    {
      st := [nb, ap];
      for j := 0 to |arena|
        invariant |st| >= 2 && st[..2] == [nb, ap]
        invariant forall x :: x in st <==> x == nb || x == ap || (x in arena[ap].group && 0 <= x < j)
        invariant forall k :: 0 <= k < |st| ==> 0 <= st[k] < |arena|
      {
        if j in arena[ap].group {
          st := st + [j];
        }
      }
      for j := 0 to |arena|
        invariant |st| >= 2 && st[..2] == [nb, ap]
        invariant forall x :: x in st <==>
          x == nb || x == ap || (x in arena[ap].group && 0 <= x < |arena|) || (x in arena[nb].group && 0 <= x < j)
        invariant forall k :: 0 <= k < |st| ==> 0 <= st[k] < |arena|
      {
        if j in arena[nb].group {
          st := st + [j];
        }
      }
      forall x | x in arena[ap].group || x in arena[nb].group
        ensures 0 <= x < |arena|
      {
        if x in arena[ap].group {
          assert Member(arena, ap, x);
        } else {
          assert Member(arena, nb, x);
        }
      }
    }

    /**
     * Row `x` of the closure loop: addToPuzzleGroup(st[x], st[y]) for every
     * entry `y` of the structure, earlier ones included, whose piece has a
     * different id.
     */
    method CloseRow(st: seq<int>, x: int, ghost a0: seq<Piece>)
      requires 0 <= x < |st| && |a0| == |arena|
      requires forall k :: 0 <= k < |st| ==> 0 <= st[k] < |arena|
      requires Identified(a0) && PairsIn(a0, LinkedSoFar(st, x, 0))
      requires arena == Linked(a0, LinkedSoFar(st, x, 0))
      modifies this`arena
      ensures PairsIn(a0, LinkedSoFar(st, x + 1, 0))
      ensures arena == Linked(a0, LinkedSoFar(st, x + 1, 0))
    {
      for y := 0 to |st|
        invariant PairsIn(a0, LinkedSoFar(st, x, y))
        invariant arena == Linked(a0, LinkedSoFar(st, x, y))
      {
        ghost var P := LinkedSoFar(st, x, y);
        LinkedSoFarNext(st, x, y);
        assert arena[st[x]].id == st[x] && arena[st[y]].id == st[y] by {
          assert arena[st[x]] == a0[st[x]].(group := arena[st[x]].group);
          assert arena[st[y]] == a0[st[y]].(group := arena[st[y]].group);
        }
        if arena[st[x]].id == arena[st[y]].id {
          assert LinkedSoFar(st, x, y + 1) == P;
          continue;
        }
        ghost var Q := P + {(st[x], st[y])};
        assert LinkedSoFar(st, x, y + 1) == Q;
        LinkedStep(a0, P, st[x], st[y]);
        AddToGroup(st[x], st[y]);
        assert arena == Linked(a0, Q);
      }
      LinkedSoFarRow(st, x);
    }

    /** The nested loop calling addToPuzzleGroup on every pair of distinct pieces of `st`. */
    method CloseGroup(st: seq<int>)
      requires forall k :: 0 <= k < |st| ==> 0 <= st[k] < |arena|
      requires Identified(arena)
      modifies this`arena
      ensures arena == Close(old(arena), set x | x in st)
    {
      ghost var a0 := arena;
      LinkedNothing(a0);
      for x := 0 to |st|
        invariant |arena| == |a0|
        invariant PairsIn(a0, LinkedSoFar(st, x, 0))
        invariant arena == Linked(a0, LinkedSoFar(st, x, 0))
      {
        CloseRow(st, x, a0);
      }
      LinkedSoFarAll(st);
      LinkedAllPairs(a0, set x | x in st);
    }

    /**
     * One pass of the release handler's inner loop: piece `ap`, neighbour
     * slot `dir`. A sentinel slot is skipped; otherwise the neighbour is
     * looked up by id, and when both gaps are within THRESHOLD `ap` is put
     * next to it, its group follows by the same delta, the two are linked
     * and the structure of both clusters is closed.
     */
    method TrySnap(ap: int, dir: int)
      requires Valid() && 0 <= ap < |arena| && 0 <= dir < NUM_NEIGHBORS
      modifies this`arena
      ensures SnapReady(old(arena), ap, dir)
      ensures arena == SnapResult(old(arena), ap, dir, width, height)
      ensures Valid()
    {
      ghost var a0 := arena;
      SnapConsistent(a0, drawOrder, ap, dir, rows, perRow, width, height);
      if arena[ap].neighbors[dir] == NONE {
        return;
      }
      var index := arena[ap].neighbors[dir];
      var found := Retrieve(index);
      var nb := found.value;
      var gaps := Gaps(dir, arena[ap], arena[nb], width, height);
      if gaps.0 <= THRESHOLD && gaps.1 <= THRESHOLD {
        SnapStages(a0, ap, dir, rows, perRow, width, height);
        SnapInto(ap, nb, SnapTarget(dir, arena[nb], width, height));
      }
    }

    /**
     * The body of a snap: put `ap` at `t`, move its group by the same delta,
     * link `ap` with `nb`, gather the structure of both clusters and close it.
     */
    method SnapInto(ap: int, nb: int, t: Vec2)
      requires 0 <= ap < |arena| && 0 <= nb < |arena|
      requires KeysInRange(MoveCluster(arena, ap, t))
      requires KeysInRange(Link(MoveCluster(arena, ap, t), ap, nb))
      requires Identified(Link(MoveCluster(arena, ap, t), ap, nb))
      modifies this`arena
      ensures arena == Merge(MoveCluster(old(arena), ap, t), ap, nb)
    {
      ghost var a0 := arena;
      forall j | j in a0[ap].group
        ensures 0 <= j < |a0|
      {
        assert Member(MoveCluster(a0, ap, t), ap, j);
      }
      var d := t.Minus(arena[ap].Pos());
      arena := arena[ap := arena[ap].(x := t.x, y := t.y)];
      TranslateGroup(ap, d);
      ghost var m := arena;
      assert m == MoveCluster(a0, ap, t);
      AddToGroup(ap, nb);
      var st := GatherStructure(nb, ap);
      ghost var s := MergeSet(m, ap, nb);
      forall x
        ensures x in st <==> x in s
      {
        LinkGroupKeys(m, ap, nb, ap);
        LinkGroupKeys(m, ap, nb, nb);
      }
      assert (set x | x in st) == s;
      CloseGroup(st);
    }

    /**
     * The release handler: the button goes up, and every piece of the
     * snapshot `checked` (the active piece, then its group in the address
     * order `addr`) tries its four neighbour slots in turn.
     */
    method Release(addr: seq<int>) returns (checked: seq<int>)
      requires Valid() && active >= 0 && IsOrder(addr, count)
      modifies this`arena, this`mouseDown
      ensures Valid() && !mouseDown
      ensures |checked| >= 1 && checked[0] == active
      ensures checked[1..] == KeysInOrder(addr, old(arena)[active].group)
      ensures forall x :: x in checked[1..] <==> x in old(arena)[active].group
      ensures forall k, l :: 1 <= k < l < |checked| ==> checked[k] != checked[l]
      ensures forall k :: 1 <= k < |checked| ==> checked[k] != active
      ensures forall k :: 0 <= k < |checked| ==> 0 <= checked[k] < |arena|
      ensures arena == SnapSweep(old(arena), checked, rows, perRow, width, height)
    {
      mouseDown := false;
      var members := GroupMembers(active, addr);
      checked := [active] + members;
      assert checked[1..] == members;
      assert forall k :: 1 <= k < |checked| ==> checked[k] != active by {
        forall k | 1 <= k < |checked|
          ensures checked[k] != active
        {
          assert Member(arena, active, members[k - 1]);
        }
      }
      Sweep(checked);
    }

    /** The release handler's outer loop: each piece of `checked` in turn tries its four slots. */
    method Sweep(checked: seq<int>)
      requires Valid() && forall k :: 0 <= k < |checked| ==> 0 <= checked[k] < |arena|
      modifies this`arena
      ensures Valid() && |arena| == |old(arena)|
      ensures arena == SnapSweep(old(arena), checked, rows, perRow, width, height)
    {
      ghost var a0 := arena;
      for k := 0 to |checked|
        invariant Valid() && |arena| == |a0|
        invariant SnapSweep(arena, checked[k..], rows, perRow, width, height) ==
          SnapSweep(a0, checked, rows, perRow, width, height)
      {
        SnapSweepStep(arena, checked[k..], rows, perRow, width, height);
        assert checked[k..][1..] == checked[k + 1..];
        TrySlots(checked[k]);
      }
    }

    /**
     * The pieces of `c`'s group in the address order `addr`: the release
     * handler's snapshot of the active group.
     */
    method GroupMembers(c: int, addr: seq<int>) returns (members: seq<int>)
      requires 0 <= c < |arena| && KeysInRange(arena) && IsOrder(addr, |arena|)
      ensures members == KeysInOrder(addr, arena[c].group)
      ensures forall x :: x in members <==> x in arena[c].group
      ensures forall k :: 0 <= k < |members| ==> 0 <= members[k] < |arena|
      ensures forall k, l :: 0 <= k < l < |members| ==> members[k] != members[l]
    {
      OrderFacts(addr, |arena|);
      members := [];
      for k := 0 to |addr|
        invariant members == KeysInOrder(addr[..k], arena[c].group)
      {
        assert addr[..k + 1][..k] == addr[..k];
        if addr[k] in arena[c].group {
          members := members + [addr[k]];
        }
      }
      assert addr[..|addr|] == addr;
      forall k | 0 <= k < |members|
        ensures 0 <= members[k] < |arena|
      {
        assert members[k] in members;
      }
      forall x | x in arena[c].group
        ensures 0 <= x < |arena|
      {
        assert Member(arena, c, x);
      }
      KeysInOrderDistinct(addr, arena[c].group);
    }

    /** The release handler's loop over the four neighbour slots of piece `ap`. */
    method TrySlots(ap: int)
      requires Valid() && 0 <= ap < |arena|
      modifies this`arena
      ensures Valid() && |arena| == |old(arena)|
      ensures arena == SnapSlots(old(arena), ap, 0, rows, perRow, width, height)
    {
      ghost var a0 := arena;
      for n := 0 to NUM_NEIGHBORS
        invariant Valid() && |arena| == |a0|
        invariant SnapSlots(arena, ap, n, rows, perRow, width, height) ==
          SnapSlots(a0, ap, 0, rows, perRow, width, height)
      {
        SnapSlotsStep(arena, ap, n, rows, perRow, width, height);
        TrySnap(ap, n);
      }
    }

    /**
     * The press handler: the front-most piece under the point becomes the
     * active piece, the point's offset from it is kept, it and its group (in
     * the address order `addr`) are raised above every other piece, the
     * drawing order is sorted again and
     * the button is down. A press that hits nothing changes nothing.
     */
    method Press(px: real, py: real, addr: seq<int>)
      requires Valid() && IsOrder(addr, count)
      modifies this`arena, this`drawOrder, this`active, this`dragX, this`dragY, this`mouseDown
      ensures Valid()
      ensures TopmostHit(old(arena), old(drawOrder), px, py, width, height).None? ==>
        arena == old(arena) && drawOrder == old(drawOrder) && active == old(active) &&
        dragX == old(dragX) && dragY == old(dragY) && mouseDown == old(mouseDown)
      ensures var hit := TopmostHit(old(arena), old(drawOrder), px, py, width, height);
        hit.Some? ==>
          active == old(drawOrder)[hit.value] && mouseDown &&
          dragX == px - old(arena)[active].x && dragY == py - old(arena)[active].y
      ensures TopmostHit(old(arena), old(drawOrder), px, py, width, height).Some? ==>
        RaisedAbove(old(arena), arena, active)
      ensures TopmostHit(old(arena), old(drawOrder), px, py, width, height).Some? ==>
        multiset(drawOrder) == multiset(old(drawOrder)) && DepthOrdered(arena, drawOrder)
    {
      var a, o := arena, drawOrder;
      var hit := PieceAt(a, o, px, py, width, height);
      if hit.None? {
        return;
      }
      var c := o[hit.value];
      var raised := RaiseCluster(a, o, c, addr);
      PressConsistent(a, raised, o, c, rows, perRow, width, height);
      var sorted := SortByDepth(raised, o);
      Activate(c, raised, sorted, px - a[c].x, py - a[c].y);
    }

    /** The end of a press that hit piece `c`: the new depths and drawing order, the active piece and the press offset. */
    method Activate(c: int, raised: seq<Piece>, sorted: seq<int>, dx: real, dy: real)
      requires Valid() && 0 <= c < count && Consistent(raised, sorted, rows, perRow, width, height)
      modifies this`arena, this`drawOrder, this`active, this`dragX, this`dragY, this`mouseDown
      ensures Valid()
      ensures arena == raised && drawOrder == sorted && active == c && dragX == dx && dragY == dy && mouseDown
    {
      arena, drawOrder, active, dragX, dragY, mouseDown := raised, sorted, c, dx, dy, true;
    }

    /**
     * The drag branch of the per-frame input handler: while the button is
     * down, the active piece follows the pointer less the press offset,
     * clamped to [-1, 1] on each axis, and every member of its group is put
     * at that position plus its stored offset.
     */
    method Drag(px: real, py: real)
      requires Valid()
      modifies this`arena
      ensures Valid()
      ensures !mouseDown ==> arena == old(arena)
      ensures mouseDown ==> arena == Dragged(old(arena), active, Vec2(Clamp(px - dragX), Clamp(py - dragY)))
    {
      if !mouseDown {
        return;
      }
      var ox := Clamp(px - dragX);
      var oy := Clamp(py - dragY);
      ghost var p := Vec2(ox, oy);
      var a := arena;
      var b := a[active := a[active].(x := ox, y := oy)];
      var g := a[active].group;
      for j := 0 to |a|
        invariant |b| == |a|
        invariant forall i :: 0 <= i < |a| ==>
          b[i] == if i in g && i < j then a[i].(x := ox + g[i].x, y := oy + g[i].y)
                  else if i == active then a[i].(x := ox, y := oy)
                  else a[i]
      {
        if j in g {
          b := b[j := b[j].(x := ox + g[j].x, y := oy + g[j].y)];
        }
      }
      ghost var r := Dragged(a, active, p);
      assert |r| == |b| && forall i :: 0 <= i < |a| ==> b[i] == r[i];
      assert b == r;
      DragConsistent(a, drawOrder, active, p, rows, perRow, width, height);
      arena := b;
    }

    /**
     * scramble: for each piece in drawing order, two random fractions in
     * [0, 1] (`fx[k]`, `fy[k]` for the k-th piece) place it anywhere in
     * [-1 + W/2, 1 - W/2] on both axes, and its group is emptied.
     */
    method Scramble(fx: seq<real>, fy: seq<real>)
      requires Valid() && |fx| == |drawOrder| && |fy| == |drawOrder|
      requires forall k :: 0 <= k < |fx| ==> 0.0 <= fx[k] <= 1.0
      requires forall k :: 0 <= k < |fy| ==> 0.0 <= fy[k] <= 1.0
      modifies this`arena
      ensures Valid() && |arena| == |old(arena)|
      ensures forall k :: 0 <= k < |drawOrder| ==>
        arena[drawOrder[k]] == old(arena)[drawOrder[k]].(x := Scatter(fx[k], width), y := Scatter(fy[k], width), group := map[])
      ensures forall i :: 0 <= i < |arena| ==>
        arena[i].group == map[] &&
        -1.0 + width / 2.0 <= arena[i].x <= 1.0 - width / 2.0 &&
        -1.0 + width / 2.0 <= arena[i].y <= 1.0 - width / 2.0
      ensures count > 1 ==> !Complete(arena, count)
    {
      SizeBounds(cols);
      OrderFacts(drawOrder, count);
      var a := ScatterPieces(arena, drawOrder, fx, fy, width);
      ScatterConsistent(arena, a, drawOrder, rows, perRow, width, height);
      if count > 1 {
        UngroupedIncomplete(a);
      }
      arena := a;
    }

    /**
     * The end-of-frame completion test: walk the drawing order and stop at
     * the first piece with fewer than N - 1 partners.
     */
    method IsComplete() returns (done: bool)
      requires Valid()
      ensures done <==> Complete(arena, count)
      ensures done <==> OneCluster(arena)
    {
      OrderFacts(drawOrder, count);
      CompleteIffOneCluster(arena);
      for k := 0 to |drawOrder|
        invariant forall l :: 0 <= l < k ==> |arena[drawOrder[l]].group| >= count - 1
      {
        if |arena[drawOrder[k]].group| < count - 1 {
          return false;
        }
      }
      forall i | 0 <= i < |arena|
        ensures |arena[i].group| >= count - 1
      {
        assert i in drawOrder;
        var k :| 0 <= k < |drawOrder| && drawOrder[k] == i;
      }
      return true;
    }
  }
}

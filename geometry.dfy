/**
 * Pieces, grid topology and the pure geometric tests of the puzzle engine:
 * neighbour slots, the snap gaps and targets, the pointer hit box, the drag
 * clamp and the scatter range. Coordinates are exact reals in the normalised
 * scene space [-1,1] x [-1,1] (y grows upwards).
 */
module Geometry {

  /** A position or an offset in scene coordinates (the source's glm::vec2). */
  datatype Vec2 = Vec2(x: real, y: real)
  {
    function Plus(o: Vec2): Vec2 { Vec2(x + o.x, y + o.y) }
    function Minus(o: Vec2): Vec2 { Vec2(x - o.x, y - o.y) }
    function Neg(): Vec2 { Vec2(-x, -y) }
  }

  /** A result that may be absent (a null pointer in the source). */
  datatype Option<T> = None | Some(value: T)

  /** Snap distance for both the edge gap and the alignment gap. */
  const THRESHOLD: real := 0.02
  /** Number of neighbour slots, ordered [left, right, top, bottom]. */
  const NUM_NEIGHBORS: int := 4
  /** Sentinel in a neighbour slot: no neighbour on that edge. */
  const NONE: int := -1

  /**
   * One puzzle piece. `group` maps the id of every piece joined with this one
   * to that piece's position relative to this one.
   */
  datatype Piece = Piece(id: int, x: real, y: real, z: real, tx: real, ty: real,
                         group: map<int, Vec2>, neighbors: seq<int>)
  {
    function Pos(): Vec2 { Vec2(x, y) }
  }

  function Abs(v: real): real { if v < 0.0 then -v else v }
  function Dist(a: real, b: real): real { Abs(a - b) }

  // ---------------------------------------------------------------------------
  // Grid topology

  /** Neighbour ids [L, R, T, B] of piece `i` in a grid of `n` pieces, `perRow` per row. */
  function NeighborIds(i: int, n: int, perRow: int): (nb: seq<int>)
    requires perRow > 0
    ensures |nb| == NUM_NEIGHBORS
  {
    [ if i % perRow == 0 then NONE else i - 1,
      if i % perRow == perRow - 1 then NONE else i + 1,
      if 0 <= i < perRow then NONE else i - perRow,
      if n - perRow <= i < n then NONE else i + perRow ]
  }

  /** Euclidean division is determined by quotient and remainder. */
  lemma DivModUnique(a: int, p: int, q: int, r: int)
    requires p > 0 && 0 <= r < p && a == q * p + r
    ensures a / p == q && a % p == r
  {
    var q0, r0 := a / p, a % p;
    assert a == q0 * p + r0;
    assert (q - q0) * p == r0 - r;
    if q > q0 {
      assert (q - q0) * p >= p by { MulAtLeast(q - q0, p); }
    } else if q < q0 {
      assert (q0 - q) * p >= p by { MulAtLeast(q0 - q, p); }
    }
  }

  lemma MulAtLeast(k: int, p: int)
    requires k >= 1 && p > 0
    ensures k * p >= p
  {
    assert k * p == (k - 1) * p + p;
  }

  /** Column and row of a piece in reading order. */
  function Col(i: int, perRow: int): int requires perRow > 0 { i % perRow }
  function Row(i: int, perRow: int): int requires perRow > 0 { i / perRow }

  /** Moving one place left stays in the row unless the column is 0. */
  lemma ColPred(i: int, p: int)
    requires p > 0 && i % p != 0
    ensures (i - 1) % p == i % p - 1 && (i - 1) / p == i / p
  {
    DivModUnique(i - 1, p, i / p, i % p - 1);
  }

  /** Moving one place right stays in the row unless the column is the last. */
  lemma ColSucc(i: int, p: int)
    requires p > 0 && i % p != p - 1
    ensures (i + 1) % p == i % p + 1 && (i + 1) / p == i / p
  {
    DivModUnique(i + 1, p, i / p, i % p + 1);
  }

  /** Moving one row up or down keeps the column. */
  lemma RowShift(i: int, p: int, k: int)
    requires p > 0
    ensures (i + k * p) % p == i % p && (i + k * p) / p == i / p + k
  {
    assert i + k * p == (i / p + k) * p + i % p;
    DivModUnique(i + k * p, p, i / p + k, i % p);
  }

  /** The last piece of the grid is in the last column. */
  lemma LastInLastCol(rows: int, p: int)
    requires rows >= 1 && p > 0
    ensures (rows * p - 1) % p == p - 1
  {
    assert rows * p - 1 == (rows - 1) * p + (p - 1);
    DivModUnique(rows * p - 1, p, rows - 1, p - 1);
  }

  /**
   * Every neighbour slot that is not the sentinel names a piece of the grid,
   * and the relation is mutual: left/right and top/bottom point back.
   */
  lemma {:induction false} NeighborsMutual(i: int, n: int, rows: int, perRow: int)
    requires rows >= 1 && perRow >= 1 && n == rows * perRow && 0 <= i < n
    ensures var nb := NeighborIds(i, n, perRow);
      (forall d :: 0 <= d < NUM_NEIGHBORS && nb[d] != NONE ==> 0 <= nb[d] < n) &&
      (nb[0] != NONE ==> NeighborIds(nb[0], n, perRow)[1] == i) &&
      (nb[1] != NONE ==> NeighborIds(nb[1], n, perRow)[0] == i) &&
      (nb[2] != NONE ==> NeighborIds(nb[2], n, perRow)[3] == i) &&
      (nb[3] != NONE ==> NeighborIds(nb[3], n, perRow)[2] == i)
  {
    if i % perRow != 0 {
      ColPred(i, perRow);
    }
    if i % perRow != perRow - 1 {
      ColSucc(i, perRow);
      if i + 1 == n {
        LastInLastCol(rows, perRow);
        assert false;
      }
    }
  }

  /** The exact neighbour slots of piece `i`, each stated on its own. */
  lemma NeighborSlots(i: int, n: int, perRow: int)
    requires perRow > 0 && 0 <= i < n
    ensures var nb := NeighborIds(i, n, perRow);
      (nb[0] == NONE <==> Col(i, perRow) == 0) && (nb[0] != NONE ==> nb[0] == i - 1) &&
      (nb[1] == NONE <==> Col(i, perRow) == perRow - 1) && (nb[1] != NONE ==> nb[1] == i + 1) &&
      (nb[2] == NONE <==> Row(i, perRow) == 0) && (nb[2] != NONE ==> nb[2] == i - perRow) &&
      (nb[3] == NONE <==> i + perRow >= n) && (nb[3] != NONE ==> nb[3] == i + perRow)
  {
    var q, r := i / perRow, i % perRow;
    assert i == q * perRow + r;
    if q == 0 {
      assert i < perRow;
    } else {
      assert i >= perRow by { MulAtLeast(q, perRow); }
    }
  }

  /** Grid position of piece `i` relative to the top-left piece. */
  function GridPos(i: int, perRow: int, w: real, h: real): Vec2
    requires perRow > 0
  {
    Vec2(w * (Col(i, perRow) as real), -(h * (Row(i, perRow) as real)))
  }

  /** Grid positions of two pieces `dc` columns and `dr` rows apart. */
  lemma GridApart(i: int, j: int, perRow: int, dc: int, dr: int, w: real, h: real)
    requires perRow > 0 && Col(i, perRow) == Col(j, perRow) + dc && Row(i, perRow) == Row(j, perRow) + dr
    ensures GridPos(i, perRow, w, h) == GridPos(j, perRow, w, h).Plus(Vec2(w * (dc as real), -(h * (dr as real))))
  {
    var c, r := Col(j, perRow) as real, Row(j, perRow) as real;
    assert w * (c + dc as real) == w * c + w * (dc as real);
    assert h * (r + dr as real) == h * r + h * (dr as real);
  }

  /** Where a piece sits relative to its neighbour in slot `dir` when the image is assembled. */
  function Step(dir: int, w: real, h: real): Vec2
    requires 0 <= dir < NUM_NEIGHBORS
  {
    if dir == 0 then Vec2(w, 0.0)
    else if dir == 1 then Vec2(-w, 0.0)
    else if dir == 2 then Vec2(0.0, -h)
    else Vec2(0.0, h)
  }

  /**
   * In the assembled image every piece sits one `Step` away from the neighbour
   * named in its slot `dir`.
   */
  lemma {:induction false} NeighborStep(i: int, n: int, perRow: int, dir: int, w: real, h: real)
    requires perRow > 0 && 0 <= i < n && 0 <= dir < NUM_NEIGHBORS
    requires NeighborIds(i, n, perRow)[dir] != NONE
    ensures GridPos(i, perRow, w, h) ==
            GridPos(NeighborIds(i, n, perRow)[dir], perRow, w, h).Plus(Step(dir, w, h))
  {
    var j := NeighborIds(i, n, perRow)[dir];
    if dir == 0 {
      ColPred(i, perRow);
      GridApart(i, j, perRow, 1, 0, w, h);
    } else if dir == 1 {
      ColSucc(i, perRow);
      GridApart(i, j, perRow, -1, 0, w, h);
    } else if dir == 2 {
      RowShift(i, perRow, -1);
      GridApart(i, j, perRow, 0, 1, w, h);
    } else {
      RowShift(i, perRow, 1);
      GridApart(i, j, perRow, 0, -1, w, h);
    }
  }

  // ---------------------------------------------------------------------------
  // Snap test

  /**
   * The edge gap and the alignment gap between a piece `ap` and its neighbour
   * `nb` in slot `dir`, with each direction's own formula.
   */
  function Gaps(dir: int, ap: Piece, nb: Piece, w: real, h: real): (r: (real, real))
    requires 0 <= dir < NUM_NEIGHBORS
    ensures r.0 >= 0.0 && r.1 >= 0.0
  {
    if dir == 0 then (Abs((nb.x + w / 2.0) - (ap.x - w / 2.0)), Abs(nb.y - ap.y))
    else if dir == 1 then (Abs((ap.x + w / 2.0) - (nb.x - w / 2.0)), Abs(nb.y - ap.y))
    else if dir == 2 then (Abs((nb.y - h / 2.0) - (ap.y + h / 2.0)), Abs(nb.x - ap.x))
    else (Abs((ap.y - h / 2.0) - (nb.y + h / 2.0)), Abs(nb.x - ap.x))
  }

  /** Both gaps within the threshold, compared non-strictly. */
  predicate ShouldSnap(dir: int, ap: Piece, nb: Piece, w: real, h: real)
    requires 0 <= dir < NUM_NEIGHBORS
  {
    var (edge, align) := Gaps(dir, ap, nb, w, h);
    edge <= THRESHOLD && align <= THRESHOLD
  }

  /** The position a snapping piece is moved to, next to its neighbour `nb`. */
  function SnapTarget(dir: int, nb: Piece, w: real, h: real): (t: Vec2)
    requires 0 <= dir < NUM_NEIGHBORS
    ensures t == nb.Pos().Plus(Step(dir, w, h))
  {
    if dir == 0 then Vec2(nb.x + w, nb.y)
    else if dir == 1 then Vec2(nb.x - w, nb.y)
    else if dir == 2 then Vec2(nb.x, nb.y - h)
    else Vec2(nb.x, nb.y + h)
  }

  /**
   * The snap window: a piece snaps exactly when it lies within THRESHOLD of
   * its target on each axis, so a distance of exactly THRESHOLD snaps and
   * anything beyond it does not.
   */
  lemma SnapWindow(dir: int, ap: Piece, nb: Piece, w: real, h: real)
    requires 0 <= dir < NUM_NEIGHBORS
    ensures var t := SnapTarget(dir, nb, w, h);
      ShouldSnap(dir, ap, nb, w, h) <==>
        Abs(ap.x - t.x) <= THRESHOLD && Abs(ap.y - t.y) <= THRESHOLD
  {
  }

  /** At its target a piece touches its neighbour with zero edge gap and zero alignment gap. */
  lemma SnapTargetTouches(dir: int, ap: Piece, nb: Piece, w: real, h: real)
    requires 0 <= dir < NUM_NEIGHBORS
    requires ap.Pos() == SnapTarget(dir, nb, w, h)
    ensures Gaps(dir, ap, nb, w, h) == (0.0, 0.0)
  {
  }

  // ---------------------------------------------------------------------------
  // Pointer tests

  /** The half-open box [x-w/2, x+w/2) x [y-h/2, y+h/2) of a piece contains the point. */
  predicate Hit(p: Piece, px: real, py: real, w: real, h: real)
  {
    px >= p.x - w / 2.0 && px < p.x + w / 2.0 && py >= p.y - h / 2.0 && py < p.y + h / 2.0
  }

  /** Clamp a dragged coordinate to the visible range [-1, 1]. */
  function Clamp(v: real): (r: real)
    ensures -1.0 <= r <= 1.0
    ensures forall c :: -1.0 <= c <= 1.0 ==> Dist(r, v) <= Dist(c, v)
  {
    if v > 1.0 then 1.0 else if v < -1.0 then -1.0 else v
  }

  /**
   * A scattered coordinate: the random fraction `frac` scaled into
   * [-1 + w/2, 1 - w/2] (the piece width is used for both axes).
   */
  function Scatter(frac: real, w: real): (c: real)
    requires 0.0 <= frac <= 1.0 && 0.0 < w <= 2.0
    ensures -1.0 + w / 2.0 <= c <= 1.0 - w / 2.0
  {
    var rangeMax := 1.0 - w / 2.0;
    var rangeMin := -1.0 + w / 2.0;
    var range := rangeMax - rangeMin;
    assert 0.0 <= frac * range <= range by { assert range >= 0.0; ScaleWithin(frac, range); }
    frac * range + rangeMin
  }

  lemma ScaleWithin(f: real, r: real)
    requires 0.0 <= f <= 1.0 && r >= 0.0
    ensures 0.0 <= f * r <= r
  {
    assert r - f * r == (1.0 - f) * r;
  }

  // ---------------------------------------------------------------------------
  // Grid construction

  /** Texture-sample offset of piece `i`: its sub-rectangle of the source image. */
  function TexOffset(i: int, perRow: int, w: real, h: real): Vec2
    requires perRow > 0
  {
    Vec2(w * (Col(i, perRow) as real) / 2.0, h * (Row(i, perRow) as real) / 2.0)
  }

  /** The position and texture offset `setup_pieces` gives piece `i`. */
  function InitialPiece(i: int, n: int, perRow: int, w: real, h: real): (p: Piece)
    requires perRow > 0
    ensures p.id == i && p.z == i as real && p.group == map[]
    ensures p.neighbors == NeighborIds(i, n, perRow)
    ensures Vec2(p.tx, p.ty) == TexOffset(i, perRow, w, h)
    ensures p.Pos() == GridPos(i, perRow, w, h).Plus(Vec2(-(1.0 - h / 2.0), 1.0 - h / 2.0))
  {
    Piece(i,
          w * (Col(i, perRow) as real) - (1.0 - h / 2.0),
          -h * (Row(i, perRow) as real) + (1.0 - h / 2.0),
          i as real,
          w * (Col(i, perRow) as real) / 2.0,
          h * (Row(i, perRow) as real) / 2.0,
          map[],
          NeighborIds(i, n, perRow))
  }
}

# Jigsaw puzzle engine — a verified model

This project models the puzzle engine of `TESTCODE_GLAD/main.cpp`: a grid of
`PIECE_ROWS x PIECE_COLS` jigsaw pieces in the scene square [-1, 1] x [-1, 1].
Each piece has a position, a depth `z`, a texture offset, four neighbour slots
(left, right, top, bottom; -1 for "none") and a `group`. The group maps every
piece joined with it to that piece's offset. The model covers the following
handlers.

- **press:** picks the front-most piece under the pointer and keeps the
  pointer's offset from it. It raises that piece and its group above
  everything else and re-sorts the drawing order.
- **drag:** puts the active piece at the clamped pointer position and each
  member of its group at that position plus its stored offset.
- **release:** every piece of the active cluster tries its four neighbour
  slots. A piece within `THRESHOLD` of a neighbour on both axes snaps next to
  it, its group moves with it, and the two clusters are closed into one.
- **scramble:** scatters every piece at random and ungroups everything.
- **completion test:** the puzzle is complete when every piece has
  `NUM_PIECES - 1` partners.

Heap pieces become an arena. The arena is `arena: seq<Piece>`, indexed by
piece id, and a pointer to a piece is its id. The vector `pieces` is
`drawOrder: seq<int>`, a sequence of ids kept sorted by depth.

The model has six modules:

- `Geometry`: the piece record, the grid topology, the snap gaps and
  targets, the hit box, the clamp and the scatter.
- `Groups`: addToPuzzleGroup, translation of a set of pieces, closing a set
  into one cluster, and the group invariants.
- `Placement`: one snap attempt, the whole release sweep and one drag
  update, on values.
- `Depth`: compare_pieces, the sort, and the hit test in drawing order.
- `Completion`: the completion test.
- `Engine`: class `Puzzle`. It holds the mutable state. Its methods loop and
  update fields as the source does, and each is proved equal to the
  value-level specification above. The handlers and the methods they are
  built from at the level of whole steps (the constructor, `Press`,
  `Activate`, `Release`, `Sweep`, `TrySlots`, `TrySnap`, `Drag` and
  `Scramble`) establish or preserve the class invariant `Valid()`. The stages inside one
  snap (`AddToGroup`, `TranslateGroup`, `CloseRow`, `CloseGroup`,
  `SnapInto`) pass through states that break it, as the source's do, and are
  proved equal to value-level functions instead. Besides the grid sizes and
  piece dimensions, `Valid()` has four parts:
  - the grid layout;
  - groups that are sound, transitive and formed;
  - a drawing order that names every piece once and is sorted by depth;
  - an active piece that is either none or a valid id, and that is a valid
    id whenever the button is down.

"Sound" means:

- no piece is in its own group;
- membership is mutual;
- every stored offset equals the current relative position.

"Transitive" means every cluster is a complete graph. "Formed" means grouped
pieces sit as in the assembled image. Together these give the main results:

- a snap moves a cluster rigidly and leaves the snapped piece exactly one
  piece-width or piece-height from its neighbour;
- links, snaps and releases never overwrite or remove a group entry (only
  scramble empties the groups);
- the completion test holds exactly when all pieces form one cluster.

`setup_pieces` computes the horizontal start as `-(1 - PIECE_HEIGHT/2)`, that
is, with the piece height (`TESTCODE_GLAD/main.cpp:360`). The model keeps that
formula. Nothing proved here depends on it, because the "formed" invariant
measures positions relative to an arbitrary common anchor.

## Model

| member | source | states |
|---|---|---|
| Geometry.NeighborsMutual | TESTCODE_GLAD/main.cpp:369-372 | every neighbour slot that is not -1 names a piece of the grid, and the relation is mutual: the left neighbour's right slot, the right neighbour's left slot, the top neighbour's bottom slot and the bottom neighbour's top slot name the piece back |
| Geometry.NeighborSlots | TESTCODE_GLAD/main.cpp:369-372 | a slot is -1 exactly on the matching edge of the grid (column 0, last column, row 0, last row), and otherwise holds i-1, i+1, i-perRow or i+perRow; this is the slots' stated meaning, and Geometry.NeighborsMutual and Geometry.NeighborStep build on it |
| Geometry.NeighborStep | TESTCODE_GLAD/main.cpp:360-372 | in the grid setup_pieces builds, each piece sits exactly one width (left/right) or one height (top/bottom) from the neighbour named in each slot, on the side that slot names |
| Geometry.NeighborIds | TESTCODE_GLAD/main.cpp:369-372 | the four neighbour slots of piece i; their meaning is stated by Geometry.NeighborSlots and Geometry.NeighborsMutual |
| Geometry.SnapTarget | TESTCODE_GLAD/main.cpp:137-290 | the four snap targets (neighbour.x + w, neighbour.x - w, neighbour.y - h, neighbour.y + h, the other coordinate copied) are the neighbour's position plus one assembled-image step |
| Geometry.Gaps | TESTCODE_GLAD/main.cpp:141-255 | each of the four directions' edge gap and alignment gap, both non-negative; Geometry.SnapWindow and Geometry.SnapTargetTouches relate them to the snap target |
| Geometry.ShouldSnap | TESTCODE_GLAD/main.cpp:141-255 | the snap test of all four directions: both gaps within THRESHOLD, THRESHOLD included; Geometry.SnapWindow gives its meaning as nearness to the target |
| Geometry.SnapWindow | TESTCODE_GLAD/main.cpp:137-290 | each direction's edge-gap and alignment-gap test passes exactly when the piece lies within THRESHOLD of its snap target on each axis; THRESHOLD itself still snaps |
| Geometry.SnapTargetTouches | TESTCODE_GLAD/main.cpp:141-146 | a piece on its snap target has zero edge gap and zero alignment gap to its neighbour |
| Geometry.Hit | TESTCODE_GLAD/main.cpp:90 | the half-open box test of the press handler; Depth.TopmostHit and Engine.PieceAt state which piece it selects |
| Geometry.Clamp | TESTCODE_GLAD/main.cpp:675-678 | the clamped drag coordinate lies in [-1, 1] and is the point of [-1, 1] nearest the unclamped one |
| Geometry.Scatter | TESTCODE_GLAD/main.cpp:303-314 | a scattered coordinate lies in [-1 + PIECE_WIDTH/2, 1 - PIECE_WIDTH/2] for every fraction in [0, 1] |
| Geometry.InitialPiece | TESTCODE_GLAD/main.cpp:355-372 | setup_pieces' piece i has id i, depth i, no group, the neighbour slots of the grid, the texture offset of its cell, and its grid position shifted by (-(1 - h/2), 1 - h/2) |
| Groups.InsertNew | TESTCODE_GLAD/main.cpp:711 | std::map::insert adds the key, never overwrites an existing entry, and stores the value only when the key was absent |
| Groups.Link | TESTCODE_GLAD/main.cpp:709-715 | addToPuzzleGroup on values: afterwards each of the two pieces is in the other's group and the length is kept; Groups.LinkJoins states the rest |
| Groups.LinkJoins | TESTCODE_GLAD/main.cpp:709-715 | after addToPuzzleGroup each piece is in the other's group; no position and no existing entry changes; other pieces are untouched; for a new pair the two stored offsets are the current relative positions and are negations of each other |
| Groups.LinkIdempotent | TESTCODE_GLAD/main.cpp:709-715 | a second addToPuzzleGroup on the same pair changes nothing |
| Groups.CloseConnects | TESTCODE_GLAD/main.cpp:166-173 | closing a set makes every two distinct members mutual partners, keeps every existing entry, adds nothing outside the set and moves nothing |
| Groups.LinkedStep | TESTCODE_GLAD/main.cpp:171 | one more addToPuzzleGroup on a pair of distinct pieces extends the linked pairs by that pair |
| Groups.LinkedAllPairs | TESTCODE_GLAD/main.cpp:166-173 | calling addToPuzzleGroup on every ordered pair of distinct members, in any order, is closing the set |
| Groups.Close | TESTCODE_GLAD/main.cpp:166-173 | the closure of a set on values; Groups.CloseConnects states its meaning and Groups.LinkedAllPairs ties it to the nested loop |
| Groups.Translate | TESTCODE_GLAD/main.cpp:149-152 | moving a set of pieces by one delta; Groups.TranslateClassRigid and Placement.MoveIsTranslation state what it keeps |
| Groups.ClassClosed | TESTCODE_GLAD/main.cpp:149-152 | under sound, transitive groups a piece's cluster (itself and its group) is closed under the group relation |
| Groups.TranslateClassRigid | TESTCODE_GLAD/main.cpp:149-152 | moving a whole cluster by one delta keeps groups sound, transitive and formed |
| Placement.MoveCluster | TESTCODE_GLAD/main.cpp:145-152 | the snapping piece goes to the target and each member of its group moves by the same delta; no other piece and no other field changes |
| Placement.MoveIsTranslation | TESTCODE_GLAD/main.cpp:145-152 | with sound groups, that move is a rigid translation of the piece's cluster |
| Placement.MergeSet | TESTCODE_GLAD/main.cpp:156-164 | the gathered piece structure is the union of the two clusters |
| Placement.Merge | TESTCODE_GLAD/main.cpp:154-173 | the link and closure of a snap on values; Placement.MergePositions, Placement.MergeMembers, Placement.MergeValues and Placement.MergeRigid state its meaning |
| Placement.MergePositions | TESTCODE_GLAD/main.cpp:154-173 | linking and closing change groups only: no piece moves, no other field changes, and every existing entry stays |
| Placement.MergeMembers | TESTCODE_GLAD/main.cpp:154-173 | after the merge, j is in i's group exactly when it was before or both lie in the union of the two clusters and differ |
| Placement.MergeValues | TESTCODE_GLAD/main.cpp:154-173 | after the merge every stored offset is the current relative position |
| Placement.MergeRigid | TESTCODE_GLAD/main.cpp:154-173 | merging two clusters that share an anchor keeps groups sound, transitive and formed; in particular no piece is ever in its own group |
| Placement.SnapResult | TESTCODE_GLAD/main.cpp:126-290 | one snap attempt on values; Placement.SnapPlacesExactly, Placement.SnapMovesCluster, Placement.SnapJoinsClusters and Placement.SnapKeepsRigid state its meaning |
| Placement.SnapKeepsRigid | TESTCODE_GLAD/main.cpp:124-290 | one snap attempt keeps the grid layout and the group invariants |
| Placement.SnapPlacesExactly | TESTCODE_GLAD/main.cpp:144-146 | after a snap the neighbour has not moved and the piece is exactly one step from it (one width right of a left neighbour, one width left of a right neighbour, one height below a top neighbour, one height above a bottom neighbour) |
| Placement.GroupedInPlace | TESTCODE_GLAD/main.cpp:145-146 | a piece already grouped with its neighbour is already on its snap target |
| Placement.SnapMovesCluster | TESTCODE_GLAD/main.cpp:144-152 | a snap translates exactly the piece's cluster by the delta to its target and moves nothing else; an attempt that does not snap changes nothing |
| Placement.SnapKeepsFields | TESTCODE_GLAD/main.cpp:139-290 | a snap attempt changes positions and groups only; ids, depths, neighbour slots and texture offsets stay |
| Placement.SnapJoinsClusters | TESTCODE_GLAD/main.cpp:144-173 | no entry is removed or overwritten; a snap adds exactly the pairs of distinct pieces of the union of the two clusters; the piece and its neighbour end up grouped exactly when they already were or both gaps are within THRESHOLD |
| Placement.SnapSlots | TESTCODE_GLAD/main.cpp:124-296 | the four snap attempts for one piece keep the layout and the group invariants, change only positions and groups, and keep every entry |
| Placement.SnapSweep | TESTCODE_GLAD/main.cpp:120-297 | the whole release sweep does the same |
| Placement.Dragged | TESTCODE_GLAD/main.cpp:680-686 | one drag update: the active piece goes to the clamped point, each member to that point plus its stored offset, and every other piece and field stays |
| Placement.DragIsTranslation | TESTCODE_GLAD/main.cpp:680-686 | with sound groups a drag update translates the active piece's cluster rigidly |
| Placement.DragKeepsRigid | TESTCODE_GLAD/main.cpp:680-686 | a drag update keeps the layout and the group invariants |
| Depth.DepthBefore | TESTCODE_GLAD/main.cpp:52-54 | compare_pieces; Depth.DepthBeforeStrictWeak states its order laws and Depth.SortByDepth sorts by it |
| Depth.DepthBeforeStrictWeak | TESTCODE_GLAD/main.cpp:52-54 | compare_pieces is irreflexive, asymmetric and transitive, and incomparability is transitive (a strict weak ordering, as std::sort requires); a documentation lemma that holds by the laws of `<` |
| Depth.InsertByDepth | TESTCODE_GLAD/main.cpp:101 | inserting one piece into a depth-sorted order keeps it sorted and adds exactly that piece |
| Depth.SortByDepth | TESTCODE_GLAD/main.cpp:101 | the sort returns a permutation of the order in which depths never decrease |
| Depth.SortKeepsPieces | TESTCODE_GLAD/main.cpp:101 | the sorted order has the same length and names exactly the same pieces |
| Depth.SameDepths | TESTCODE_GLAD/main.cpp:52-54 | sortedness only reads depths |
| Depth.LastIsDeepest | TESTCODE_GLAD/main.cpp:96 | the last piece of a depth-sorted vector has the greatest depth |
| Depth.TopmostHit | TESTCODE_GLAD/main.cpp:89-91 | the hit test returns the last piece in drawing order whose half-open box holds the point, so no later piece is hit; it returns none exactly when no piece is hit |
| Completion.Complete | TESTCODE_GLAD/main.cpp:618-625 | the completion test; Completion.CompleteIffOneCluster states its meaning |
| Completion.CompleteIffOneCluster | TESTCODE_GLAD/main.cpp:618-625 | with sound groups, every piece having at least NUM_PIECES - 1 partners is the same as all pieces forming one cluster |
| Completion.PartnersAll | TESTCODE_GLAD/main.cpp:621 | with sound groups, a piece has at least NUM_PIECES - 1 partners exactly when its partners are all the other pieces |
| Completion.UngroupedIncomplete | TESTCODE_GLAD/main.cpp:618-625 | with more than one piece and every group empty, the completion test fails |
| Completion.SinglePieceComplete | TESTCODE_GLAD/main.cpp:618-625 | a one-piece puzzle passes the completion test from the start; a documentation lemma |
| Engine.KeysInOrder | TESTCODE_GLAD/main.cpp:116-118 | iterating a group in address order visits exactly the keys of the group |
| Engine.KeysInOrderDistinct | TESTCODE_GLAD/main.cpp:116-118 | an address order that names each piece once visits each key once |
| Engine.InitialValid | TESTCODE_GLAD/main.cpp:355-374 | the grid setup_pieces builds satisfies the layout and the group invariants, and its id-order vector is a depth-sorted order of all pieces |
| Engine.SnapConsistent | TESTCODE_GLAD/main.cpp:124-290 | a snap attempt is always defined in a consistent state and keeps it consistent |
| Engine.SnapStages | TESTCODE_GLAD/main.cpp:139-173 | in a snap, the states after the move and after the link keep group keys in range and ids in place, and closing the gathered structure gives the snap's result |
| Engine.DragConsistent | TESTCODE_GLAD/main.cpp:668-688 | a drag update keeps the state consistent |
| Engine.ScatterPieces | TESTCODE_GLAD/main.cpp:310-316 | the scramble loop gives the piece at drawing position k the coordinates of fractions k and an empty group; every piece ends in range, ungrouped, with its other fields unchanged |
| Engine.ScatterConsistent | TESTCODE_GLAD/main.cpp:310-316 | moving every piece and emptying every group keeps the state consistent |
| Engine.PieceAt | TESTCODE_GLAD/main.cpp:89-91 | the reverse walk over the vector returns the position of the front-most piece under the point, as specified by the hit test |
| Engine.RaiseCluster | TESTCODE_GLAD/main.cpp:96-99 | the raise visits the group in the address order `addr`; raising changes depths only, changes no depth outside the cluster, and leaves every piece of the cluster strictly deeper than every other piece |
| Engine.PressConsistent | TESTCODE_GLAD/main.cpp:96-101 | raising and re-sorting keep the state consistent |
| Engine.Puzzle.constructor | TESTCODE_GLAD/main.cpp:355-374 | setup_pieces: `rows * cols` pieces in id order, each as its initial piece, no active piece, button up, invariant established |
| Engine.Puzzle.Retrieve | TESTCODE_GLAD/main.cpp:700-707 | the lookup returns a piece with that id from the vector, and none exactly when no piece has it; under the invariant the result is the id itself for every valid id and none otherwise |
| Engine.Puzzle.AddToGroup | TESTCODE_GLAD/main.cpp:709-715 | addToPuzzleGroup in place equals the value-level link |
| Engine.Puzzle.TranslateGroup | TESTCODE_GLAD/main.cpp:149-152 | the loop over the group adds the delta to every member and to nothing else |
| Engine.Puzzle.GatherStructure | TESTCODE_GLAD/main.cpp:156-164 | the piece structure starts with the neighbour and the piece, and holds exactly those two and the members of both groups |
| Engine.Puzzle.CloseRow | TESTCODE_GLAD/main.cpp:167-172 | one pass of the outer closure loop links piece `st[x]` with every piece of the structure, earlier entries included, that has a different id |
| Engine.Puzzle.CloseGroup | TESTCODE_GLAD/main.cpp:166-173 | the nested closure loop over the piece structure closes the set of its pieces |
| Engine.Puzzle.TrySnap | TESTCODE_GLAD/main.cpp:126-290 | one pass of the inner release loop equals the value-level snap attempt and keeps the invariant; the lookup never fails and the default branch is never reached |
| Engine.Puzzle.SnapInto | TESTCODE_GLAD/main.cpp:145-173 | the snap body (move, translate the group, link, gather, close) equals the merge of the moved arena |
| Engine.Puzzle.TrySlots | TESTCODE_GLAD/main.cpp:124-296 | the loop over slots 0..3 equals the four snap attempts in order and keeps the invariant |
| Engine.Puzzle.Release | TESTCODE_GLAD/main.cpp:108-298 | the button goes up; the snapshot is the active piece followed by the members of its group in the address order `addr`, each once, never the active piece again; the arena becomes the release sweep over that snapshot; the invariant is kept |
| Engine.Puzzle.GroupMembers | TESTCODE_GLAD/main.cpp:114-118 | the snapshot of the active group lists its members in the address order `addr`, holds exactly the group's members, each once, in range |
| Engine.Puzzle.Sweep | TESTCODE_GLAD/main.cpp:120-297 | the loop over the snapshot equals the value-level sweep and keeps the invariant |
| Engine.Puzzle.Press | TESTCODE_GLAD/main.cpp:84-106 | a miss changes nothing. A hit makes the front-most hit piece active, with the button down and the drag offset of the pointer from it; the piece's cluster is raised strictly above every other piece; the vector is a permutation of the old one, sorted by depth; the invariant is kept |
| Engine.Puzzle.Activate | TESTCODE_GLAD/main.cpp:91-103 | the end of a hit installs the raised depths, the sorted vector, the active piece, the drag offset and the button flag, keeping the invariant |
| Engine.Puzzle.Drag | TESTCODE_GLAD/main.cpp:668-688 | with the button up nothing changes; with it down the arena becomes the drag update at (clamp(pointer x - offset x), clamp(pointer y - offset y)), and the invariant is kept |
| Engine.Puzzle.Scramble | TESTCODE_GLAD/main.cpp:302-317 | the piece at drawing position k gets the coordinates of fractions k; every group is empty; every coordinate lies in [-1 + PIECE_WIDTH/2, 1 - PIECE_WIDTH/2]; the invariant is kept; with more than one piece the puzzle is not complete |
| Engine.Puzzle.IsComplete | TESTCODE_GLAD/main.cpp:618-625 | the loop's verdict is the completion test, and equally whether all pieces form one cluster |

## Left out

- Rendering, shaders, textures and `loadTexture`, the GLFW window and its
  callbacks' registration, the keyboard handler and its `keys` array,
  framebuffer resizing and the debug printing are not modelled. They do not
  change the puzzle state, except that key S calls scramble, which is
  modelled.
- Screen-to-scene transform: the pointer transform from window pixels
  (lines 86-88 and 670-673) is left out. Press and drag take the pointer
  already in scene coordinates.
- Randomness: `srand(time(NULL))` and `rand() / RAND_MAX` become the
  fraction sequences `fx` and `fy` passed to Scramble, each fraction in [0, 1].
- Main loop: the frame loop in `main`, its multi-stage driver, the timers,
  `clock_nanosleep` and the console output are left out. The completion test
  is modelled on its own.
- Floating point: `float` arithmetic is modelled with exact reals. With
  rounding, a gap that is exactly `THRESHOLD` may land on either side. After
  a snap the piece is only approximately, not exactly, one step from its
  neighbour. Clusters can drift apart by rounding error.
- Memory: heap allocation and deletion of pieces are modelled as an arena
  indexed by id, with pointer equality as id equality.
- Map iteration: `std::map<PuzzlePiece*, glm::vec2>` iterates in pointer
  order, and pointer order need not follow ids (pieces are freed and
  reallocated between stages). Two loops over a group depend on that order:
  the release snapshot, whose order decides which snaps happen, and the press
  raise, where a member visited after the vector's last piece is raised
  again. The model takes the address order as an input `addr`, any
  permutation of the ids, and both loops visit the group in that order
  (`Engine.KeysInOrder`). Heap addresses themselves are not modelled. The
  other loops over a group give the same result in any order and visit
  members in ascending id order: the translation after a snap, the drag
  placement, and the gathering of the piece structure, whose closure
  `Groups.LinkedAllPairs` proves order-independent.
- Sort order among equal depths: `std::sort` is not stable. The model
  produces one particular depth-sorted permutation, and everything proved
  uses only "sorted and a permutation". The order among pieces of equal
  depth, and hence which of two overlapping equal-depth pieces a later press
  picks, is not pinned down.
- Engine.RaiseCluster: states the relative outcome of the raise (only the
  cluster's depths change, and the cluster ends strictly above every other
  piece). It does not state the exact new depths: the last depth plus one,
  re-read after each assignment, so members visited after the vector's last
  piece, when that piece is itself a member, get one more than the others.
- Engine.Puzzle.Press: inherits that weaker statement of the new depths. It
  states the new vector as a sorted permutation rather than the exact
  arrangement `std::sort` produces.
- Engine.Puzzle.Retrieve: does not state that the match is the first one in
  the vector. Under the invariant, ids are unique, so there is only one.
- Null active piece on release: releasing with no active piece dereferences
  a null pointer in the source. The model requires an active piece (`active
  >= 0`) for Release.
- `default:` branch: the neighbour loop's `default: exit(-1)` is unreachable,
  because the slot index runs over 0..3 only (TrySnap requires
  `0 <= dir < NUM_NEIGHBORS`, discharged by TrySlots). It is not modelled.
- Other mouse buttons and actions: buttons other than the left one, and
  actions other than press and release, do nothing in the source and are not
  modelled.
- Integer widths: the `unsigned int` grid sizes are modelled as unbounded
  integers. With at least one row and one column, no expression the engine
  evaluates (`NUM_PIECES - 1`, `NUM_PIECES - pieces_per_row`) wraps around.
- End-to-end scenario: a scripted run (for example, assembling a 2 x 2
  puzzle piece by piece) is not modelled as a separate lemma. The handler
  contracts cover each step.

/**
 * Values behind the maze generator of game/maze.py: cell positions, the
 * neighbour table that `play` builds, carving a wall between two cells, and
 * the state of the randomized depth-first walk together with the invariant
 * that the walk keeps.
 *
 * Cells are numbered in the order `play` creates them (row index `i` outer,
 * column index `j` inner), and `cells` plays the part of the source's dict
 * from a position to its cell: here from a position to the cell's number.
 */
module MazeGeometry {

  /** Top-left pixel corner of a cell. */
  type Pos = (int, int)

  /** Indices into a cell's four wall flags, in the source's order. */
  const North := 0
  const South := 1
  const East := 2
  const West := 3

  /** Four intact walls, as every cell starts. */
  const Intact: seq<bool> := [true, true, true, true]

  function Abs(v: int): nat { if v < 0 then -v else v }

  // ---------------------------------------------------------------- arithmetic

  lemma MulMono(a: int, b: int, c: int)
    requires a <= b && 0 <= c
    ensures a * c <= b * c
  {
    assert b * c - a * c == (b - a) * c;
  }

  lemma MulCancel(a: int, b: int, c: int)
    requires 0 < c && a * c == b * c
    ensures a == b
  {
    if a < b { MulMono(a + 1, b, c); }
    if b < a { MulMono(b + 1, a, c); }
  }

  /** Row-major numbering: cell `j` of row `i` is number `i * cols + j`. */
  lemma {:induction false} RowMajor(i: nat, j: nat, cols: nat)
    requires j < cols
    ensures (i * cols + j) / cols == i && (i * cols + j) % cols == j
  {
    var k := i * cols + j;
    var q, r := k / cols, k % cols;
    assert k == q * cols + r && 0 <= r < cols;
    if q < i { MulMono(q + 1, i, cols); }
    if i < q { MulMono(i + 1, q, cols); }
  }

  // ------------------------------------------------------------------- layout

  /**
   * The fixed part of a maze: the cell size, the position of every cell,
   * the dict from positions to cell numbers and every cell's neighbours.
   */
  datatype Layout = Layout(size: int, pos: seq<Pos>, cells: map<Pos, nat>, neighbours: seq<seq<nat>>)

  /** `cells` and `pos` are inverse to each other. */
  ghost predicate Indexed(pos: seq<Pos>, cells: map<Pos, nat>) {
    && (forall k :: 0 <= k < |pos| ==> pos[k] in cells && cells[pos[k]] == k)
    && (forall p :: p in cells ==> cells[p] < |pos| && pos[cells[p]] == p)
  }

  /** The four positions `play` looks up for the cell at `p`, in its order. */
  function Around(p: Pos, size: int): seq<Pos> {
    [(p.0 - size, p.1), (p.0 + size, p.1), (p.0, p.1 - size), (p.0, p.1 + size)]
  }

  /** The numbers of the cells at those of `cands` that are present in `cells`, in order. */
  function Present(cands: seq<Pos>, cells: map<Pos, nat>): (r: seq<nat>)
    ensures forall p :: p in cands && p in cells ==> cells[p] in r
    ensures forall m :: m in r ==> exists p :: p in cands && p in cells && cells[p] == m
  {
    if cands == [] then []
    else
      var last := cands[|cands| - 1];
      Present(cands[..|cands| - 1], cells) + (if last in cells then [cells[last]] else [])
  }

  /** The neighbour lists are exactly those `play` builds from `pos` and `cells`. */
  ghost predicate IsTable(pos: seq<Pos>, cells: map<Pos, nat>, size: int, nbrs: seq<seq<nat>>) {
    |nbrs| == |pos| && forall k {:trigger nbrs[k]} :: 0 <= k < |pos| ==> nbrs[k] == Present(Around(pos[k], size), cells)
  }

  /** Every neighbour listed is a cell of the grid. */
  ghost predicate Inside(pos: seq<Pos>, nbrs: seq<seq<nat>>) {
    forall k, t :: 0 <= k < |nbrs| && 0 <= t < |nbrs[k]| ==> nbrs[k][t] < |pos|
  }

  /** The table has a row per cell and lists only cells of the grid. */
  ghost predicate Listed(l: Layout) {
    |l.neighbours| == |l.pos| && Inside(l.pos, l.neighbours)
  }

  ghost predicate WellFormed(l: Layout) {
    && l.size > 0 && Indexed(l.pos, l.cells) && IsTable(l.pos, l.cells, l.size, l.neighbours)
    && Listed(l)
  }

  /** The table `play` builds only lists cells of the grid. */
  lemma TableInside(pos: seq<Pos>, cells: map<Pos, nat>, size: int, nbrs: seq<seq<nat>>)
    requires Indexed(pos, cells) && IsTable(pos, cells, size, nbrs)
    ensures Inside(pos, nbrs)
  {
    forall k, t | 0 <= k < |nbrs| && 0 <= t < |nbrs[k]|
      ensures nbrs[k][t] < |pos|
    {
      assert nbrs[k] == Present(Around(pos[k], size), cells);
      assert nbrs[k][t] in nbrs[k];
    }
  }

  /** `q` lies one cell step from `p` along exactly one axis. */
  predicate Adjacent(p: Pos, q: Pos, size: int) {
    || (q.1 == p.1 && (q.0 == p.0 - size || q.0 == p.0 + size))
    || (q.0 == p.0 && (q.1 == p.1 - size || q.1 == p.1 + size))
  }

  /** A cell's neighbours are exactly the cells one step away along one axis. */
  lemma NeighbourIff(l: Layout, k: nat, m: int)
    requires WellFormed(l) && k < |l.pos|
    ensures m in l.neighbours[k] <==> 0 <= m < |l.pos| && Adjacent(l.pos[k], l.pos[m], l.size)
  {
    if m in l.neighbours[k] { NeighbourIsAdjacent(l, k, m); }
    if 0 <= m < |l.pos| && Adjacent(l.pos[k], l.pos[m], l.size) { AdjacentIsNeighbour(l, k, m); }
  }

  lemma NeighbourIsAdjacent(l: Layout, k: nat, m: int)
    requires WellFormed(l) && k < |l.pos| && m in l.neighbours[k]
    ensures 0 <= m < |l.pos| && Adjacent(l.pos[k], l.pos[m], l.size)
  {
    var cands := Around(l.pos[k], l.size);
    assert l.neighbours[k] == Present(cands, l.cells);
    var p :| p in cands && p in l.cells && l.cells[p] == m;
    assert l.cells[p] < |l.pos| && l.pos[l.cells[p]] == p;
  }

  lemma AdjacentAround(p: Pos, q: Pos, size: int)
    requires Adjacent(p, q, size)
    ensures q in Around(p, size)
  {
    var cands := Around(p, size);
    if q.1 == p.1 && q.0 == p.0 - size {
      assert q == cands[0];
    } else if q.1 == p.1 {
      assert q == cands[1];
    } else if q.1 == p.1 - size {
      assert q == cands[2];
    } else {
      assert q == cands[3];
    }
  }

  lemma AdjacentIsNeighbour(l: Layout, k: nat, m: nat)
    requires WellFormed(l) && k < |l.pos| && m < |l.pos| && Adjacent(l.pos[k], l.pos[m], l.size)
    ensures m in l.neighbours[k]
  {
    var cands := Around(l.pos[k], l.size);
    var q := l.pos[m];
    AdjacentAround(l.pos[k], q, l.size);
    assert q in l.cells && l.cells[q] == m;
    assert l.neighbours[k] == Present(cands, l.cells);
  }

  /**
   * The neighbour table is symmetric, never lists a cell as its own
   * neighbour, stays inside the grid (no wrap-around), and every neighbour
   * differs from its cell by exactly `size` in exactly one coordinate.
   */
  lemma NeighbourFacts(l: Layout, k: nat, m: int)
    requires WellFormed(l) && k < |l.pos| && m in l.neighbours[k]
    ensures 0 <= m < |l.pos| && m != k
    ensures k in l.neighbours[m]
    ensures || (Abs(l.pos[m].0 - l.pos[k].0) == l.size && l.pos[m].1 == l.pos[k].1)
            || (l.pos[m].0 == l.pos[k].0 && Abs(l.pos[m].1 - l.pos[k].1) == l.size)
  {
    NeighbourIff(l, k, m);
    NeighbourIff(l, m, k);
  }

  // ---------------------------------------------------------------- carving

  /** The flag of the cell at `p` that faces the cell at `q` (meaningful when they are aligned). */
  function Facing(p: Pos, q: Pos): (d: nat)
    ensures d < 4
  {
    if p.0 < q.0 then East else if p.0 > q.0 then West else if p.1 < q.1 then South else North
  }

  /** Two distinct cells in one row or one column. */
  predicate Aligned(p: Pos, q: Pos) {
    p != q && (p.0 == q.0 || p.1 == q.1)
  }

  /**
   * The walls after `remove_walls` on cells `a` (at `p`) and `b` (at `q`):
   * when they are aligned, `a` loses the flag facing `b` and then `b` the
   * flag facing `a`; otherwise nothing changes.
   */
  function Carved(ws: seq<seq<bool>>, a: nat, b: nat, p: Pos, q: Pos): seq<seq<bool>>
    requires a < |ws| && b < |ws| && |ws[a]| == 4 && |ws[b]| == 4
  {
    if Aligned(p, q) then
      var ws1 := ws[a := ws[a][Facing(p, q) := false]];
      ws1[b := ws1[b][Facing(q, p) := false]]
    else ws
  }

  /** Each of the four relative directions clears its own opposite pair of flags and nothing else. */
  lemma CarveDirections(ws: seq<seq<bool>>, a: nat, b: nat, p: Pos, q: Pos)
    requires a < |ws| && b < |ws| && a != b && |ws[a]| == 4 && |ws[b]| == 4
    ensures p.0 < q.0 && p.1 == q.1 ==> Carved(ws, a, b, p, q) == ws[a := ws[a][East := false]][b := ws[b][West := false]]
    ensures p.1 < q.1 && p.0 == q.0 ==> Carved(ws, a, b, p, q) == ws[a := ws[a][South := false]][b := ws[b][North := false]]
    ensures p.0 > q.0 && p.1 == q.1 ==> Carved(ws, a, b, p, q) == ws[a := ws[a][West := false]][b := ws[b][East := false]]
    ensures p.1 > q.1 && p.0 == q.0 ==> Carved(ws, a, b, p, q) == ws[a := ws[a][North := false]][b := ws[b][South := false]]
  {
  }

  /** Cells that share no row or column, or that share a position, keep all their flags. */
  lemma CarveUnaligned(ws: seq<seq<bool>>, a: nat, b: nat, p: Pos, q: Pos)
    requires a < |ws| && b < |ws| && |ws[a]| == 4 && |ws[b]| == 4
    requires (p.0 != q.0 && p.1 != q.1) || p == q
    ensures Carved(ws, a, b, p, q) == ws
  {
  }

  /** Carving only ever clears flags, so carving twice is carving once. */
  lemma CarveIdempotent(ws: seq<seq<bool>>, a: nat, b: nat, p: Pos, q: Pos)
    requires a < |ws| && b < |ws| && |ws[a]| == 4 && |ws[b]| == 4
    ensures var r := Carved(ws, a, b, p, q);
      && |r| == |ws|
      && (forall k, i :: 0 <= k < |r| && 0 <= i < |r[k]| && r[k][i] ==> i < |ws[k]| && ws[k][i])
      && Carved(r, a, b, p, q) == r
  {
    var r := Carved(ws, a, b, p, q);
    if Aligned(p, q) {
      var i, j := Facing(p, q), Facing(q, p);
      var ws1 := ws[a := ws[a][i := false]];
      assert r == ws1[b := ws1[b][j := false]];
      assert !r[a][i] && |r[a]| == 4;
      assert r[a][i := false] == r[a];
      var r1 := r[a := r[a][i := false]];
      assert r1 == r;
      assert !r1[b][j];
      assert r1[b][j := false] == r1[b];
    }
  }

  // ----------------------------------------------------------------- counting

  /** Number of `true` entries. */
  function Count(s: seq<bool>): (c: nat)
    ensures c <= |s|
  {
    if s == [] then 0 else Count(s[..|s| - 1]) + (if s[|s| - 1] then 1 else 0)
  }

  /** Setting one `false` entry to `true` raises the count by one. */
  lemma {:induction false} CountRaise(s: seq<bool>, i: nat)
    requires i < |s| && !s[i]
    ensures Count(s[i := true]) == Count(s) + 1
  {
    var n := |s| - 1;
    if i < n {
      assert s[i := true][..n] == s[..n][i := true];
      CountRaise(s[..n], i);
    } else {
      assert s[i := true][..n] == s[..n];
    }
  }

  /** A sequence that is `true` at exactly one index has count one. */
  lemma {:induction false} CountSingle(s: seq<bool>, c: nat)
    requires c < |s| && forall k :: 0 <= k < |s| ==> (s[k] <==> k == c)
    ensures Count(s) == 1
  {
    var n := |s| - 1;
    if c < n {
      CountSingle(s[..n], c);
    } else {
      CountNone(s[..n]);
    }
  }

  lemma {:induction false} CountNone(s: seq<bool>)
    requires forall k :: 0 <= k < |s| ==> !s[k]
    ensures Count(s) == 0
  {
    if s != [] { CountNone(s[..|s| - 1]); }
  }

  lemma {:induction false} CountAll(s: seq<bool>)
    requires forall k :: 0 <= k < |s| ==> s[k]
    ensures Count(s) == |s|
  {
    if s != [] { CountAll(s[..|s| - 1]); }
  }

  /** Number of cleared wall flags over all cells: two per carved passage. */
  function Openings(ws: seq<seq<bool>>): nat {
    if ws == [] then 0
    else
      var last := ws[|ws| - 1];
      Openings(ws[..|ws| - 1]) + (|last| - Count(last))
  }

  /** Clearing one flag that was set adds one opening. */
  lemma {:induction false} OpeningsClear(ws: seq<seq<bool>>, a: nat, i: nat)
    requires a < |ws| && i < |ws[a]| && ws[a][i]
    ensures Openings(ws[a := ws[a][i := false]]) == Openings(ws) + 1
  {
    var n := |ws| - 1;
    var w := ws[a];
    assert w[i := false][i := true] == w;
    CountRaise(w[i := false], i);
    if a < n {
      assert ws[a := w[i := false]][..n] == ws[..n][a := w[i := false]];
      OpeningsClear(ws[..n], a, i);
    } else {
      assert ws[a := w[i := false]][..n] == ws[..n];
    }
  }

  /** A grid whose walls are all intact has no openings. */
  lemma {:induction false} OpeningsIntact(ws: seq<seq<bool>>)
    requires forall k :: 0 <= k < |ws| ==> ws[k] == Intact
    ensures Openings(ws) == 0
  {
    if ws != [] {
      OpeningsIntact(ws[..|ws| - 1]);
      CountAll(Intact);
    }
  }

  // ------------------------------------------------------------ construction

  /**
   * The first loop of `play`: a cell at `(i * size, j * size)` for every row
   * `i < numRows` and column `j < numCols`, numbered in creation order and
   * entered into the dict.
   */
  method BuildCells(numRows: nat, numCols: nat, size: int) returns (pos: seq<Pos>, cells: map<Pos, nat>)
    requires size > 0
    ensures |pos| == numRows * numCols
    ensures Indexed(pos, cells)
    ensures forall k :: 0 <= k < |pos| ==> numCols > 0 && pos[k] == ((k / numCols) * size, (k % numCols) * size)
  {
    pos, cells := [], map[];
    for i := 0 to numRows
      invariant |pos| == i * numCols
      invariant Indexed(pos, cells)
      invariant forall k :: 0 <= k < |pos| ==> numCols > 0 && pos[k] == ((k / numCols) * size, (k % numCols) * size)
    {
      for j := 0 to numCols
        invariant |pos| == i * numCols + j
        invariant Indexed(pos, cells)
        invariant forall k :: 0 <= k < |pos| ==> numCols > 0 && pos[k] == ((k / numCols) * size, (k % numCols) * size)
      {
        var p := (i * size, j * size);
        PlaceCell(pos, cells, i, j, numCols, size);
        cells := cells[p := |pos|];
        pos := pos + [p];
      }
    }
  }

  /** The position of the next cell to create is not yet in the dict. */
  lemma NewPosition(pos: seq<Pos>, cells: map<Pos, nat>, i: nat, j: nat, numCols: nat, size: int)
    requires size > 0 && j < numCols && |pos| == i * numCols + j && Indexed(pos, cells)
    requires forall k :: 0 <= k < |pos| ==> numCols > 0 && pos[k] == ((k / numCols) * size, (k % numCols) * size)
    ensures (i * size, j * size) !in cells
  {
    var p := (i * size, j * size);
    if p in cells {
      var k := cells[p];
      MulCancel(k / numCols, i, size);
      MulCancel(k % numCols, j, size);
    }
  }

  /** Entering the next cell keeps the numbering and the dict inverse to each other. */
  lemma PlaceCell(pos: seq<Pos>, cells: map<Pos, nat>, i: nat, j: nat, numCols: nat, size: int)
    requires size > 0 && j < numCols && |pos| == i * numCols + j && Indexed(pos, cells)
    requires forall k :: 0 <= k < |pos| ==> numCols > 0 && pos[k] == ((k / numCols) * size, (k % numCols) * size)
    ensures var p := (i * size, j * size);
      && Indexed(pos + [p], cells[p := |pos|])
      && forall k :: 0 <= k < |pos| + 1 ==> numCols > 0 && (pos + [p])[k] == ((k / numCols) * size, (k % numCols) * size)
  {
    RowMajor(i, j, numCols);
    NewPosition(pos, cells, i, j, numCols, size);
  }

  /** The second loop of `play`: every cell's list of the present orthogonal positions. */
  method BuildNeighbours(pos: seq<Pos>, cells: map<Pos, nat>, size: int) returns (nbrs: seq<seq<nat>>)
    ensures IsTable(pos, cells, size, nbrs)
  {
    nbrs := [];
    for k := 0 to |pos|
      invariant |nbrs| == k
      invariant forall k' :: 0 <= k' < k ==> nbrs[k'] == Present(Around(pos[k'], size), cells)
    {
      var cands := Around(pos[k], size);
      var mine: seq<nat> := [];
      for t := 0 to |cands|
        invariant mine == Present(cands[..t], cells)
      {
        assert cands[..t + 1][..t] == cands[..t];
        if cands[t] in cells {
          mine := mine + [cells[cands[t]]];
        }
      }
      assert cands[..|cands|] == cands;
      nbrs := nbrs + [mine];
    }
  }

  // ------------------------------------------------------------------ walking

  /** Everything the walker changes: wall flags, `occupied`, `traversed`, `current_cell` and `path`. */
  datatype WalkState = WalkState(walls: seq<seq<bool>>, occupied: seq<bool>, traversed: seq<bool>, current: nat, path: seq<nat>)

  /** The state's sequences have one entry per cell, and every cell it refers to exists. */
  ghost predicate Fits(l: Layout, s: WalkState) {
    && |s.walls| == |l.pos| && |s.occupied| == |l.pos| && |s.traversed| == |l.pos|
    && s.current < |l.pos|
    && (forall k :: 0 <= k < |s.walls| ==> |s.walls[k]| == 4)
    && (forall t :: 0 <= t < |s.path| ==> s.path[t] < |l.pos|)
  }

  /** The neighbours of a cell that are not yet traversed, in the order of the neighbour list. */
  function Untraversed(nbrs: seq<nat>, trav: seq<bool>): (r: seq<nat>)
    requires forall t :: 0 <= t < |nbrs| ==> nbrs[t] < |trav|
    ensures forall m :: m in r <==> m in nbrs && !trav[m]
  {
    if nbrs == [] then []
    else (if trav[nbrs[0]] then [] else [nbrs[0]]) + Untraversed(nbrs[1..], trav)
  }

  /** `walk_to(d)`: carve towards `d`, leave the current cell, occupy and traverse `d`, push `d`. */
  function Forward(l: Layout, s: WalkState, d: nat): WalkState
    requires Fits(l, s) && d < |l.pos|
  {
    var c := s.current;
    WalkState(Carved(s.walls, c, d, l.pos[c], l.pos[d]), s.occupied[c := false][d := true],
              s.traversed[d := true], d, s.path + [d])
  }

  /** `walk_back` on a non-empty path: pop the last entry and occupy it instead of the current cell. */
  function Back(l: Layout, s: WalkState): WalkState
    requires Fits(l, s) && s.path != []
  {
    var last := s.path[|s.path| - 1];
    WalkState(s.walls, s.occupied[s.current := false][last := true], s.traversed, last, s.path[..|s.path| - 1])
  }

  /** `set_start(start)`: occupy and traverse `start`; the path is left as it is. */
  function Start(l: Layout, s: WalkState, start: nat): WalkState
    requires Fits(l, s) && start < |l.pos|
  {
    WalkState(s.walls, s.occupied[start := true], s.traversed[start := true], start, s.path)
  }

  /** A grid as `play` creates it: all walls up, nothing occupied or traversed, empty path. */
  ghost predicate Fresh(l: Layout, s: WalkState) {
    && Fits(l, s) && s.path == []
    && (forall k :: 0 <= k < |s.walls| ==> s.walls[k] == Intact && !s.occupied[k] && !s.traversed[k])
  }

  /** For every pair of adjacent cells, the two flags facing each other are equal. */
  ghost predicate WallsAgree(l: Layout, ws: seq<seq<bool>>) {
    forall k, m ::
      (&& 0 <= k < |ws| && 0 <= m < |ws| && k < |l.pos| && m < |l.pos|
       && |ws[k]| == 4 && |ws[m]| == 4 && Adjacent(l.pos[k], l.pos[m], l.size)) ==>
      ws[k][Facing(l.pos[k], l.pos[m])] == ws[m][Facing(l.pos[m], l.pos[k])]
  }

  /**
   * The invariant of a walk that began with `set_start` on a fresh grid and
   * made `forward` forward steps: exactly the current cell is occupied, the
   * current cell and every cell on the path are traversed, untraversed cells
   * have all their walls, walls agree on both sides, one more cell is
   * traversed than forward steps were made, and every forward step opened
   * exactly one passage (two flags).
   */
  ghost predicate Carving(l: Layout, s: WalkState, forward: nat) {
    && WellFormed(l) && Fits(l, s)
    && (forall k :: 0 <= k < |s.occupied| ==> (s.occupied[k] <==> k == s.current))
    && s.traversed[s.current]
    && (forall t :: 0 <= t < |s.path| ==> s.traversed[s.path[t]])
    && (forall k :: 0 <= k < |s.traversed| && !s.traversed[k] ==> s.walls[k] == Intact)
    && WallsAgree(l, s.walls)
    && Count(s.traversed) == forward + 1
    && Openings(s.walls) == 2 * forward
  }

  /** `set_start` on a fresh grid establishes the invariant with no forward steps. */
  lemma StartCarving(l: Layout, s: WalkState, start: nat)
    requires WellFormed(l) && Fresh(l, s) && start < |l.pos|
    ensures Carving(l, Start(l, s, start), 0)
  {
    var t := Start(l, s, start);
    OpeningsIntact(t.walls);
    CountNone(s.traversed);
    CountRaise(s.traversed, start);
  }

  /** Under the invariant exactly one cell is occupied. */
  lemma CarvingOneOccupied(l: Layout, s: WalkState, forward: nat)
    requires Carving(l, s, forward)
    ensures Count(s.occupied) == 1 && s.occupied[s.current]
  {
    CountSingle(s.occupied, s.current);
  }

  /** Two different cells adjacent to one cell lie in different directions from it. */
  lemma FacingDiffers(l: Layout, k: nat, m: nat, d: nat)
    requires WellFormed(l) && k < |l.pos| && m < |l.pos| && d < |l.pos| && m != d
    requires Adjacent(l.pos[k], l.pos[m], l.size) && Adjacent(l.pos[k], l.pos[d], l.size)
    ensures Facing(l.pos[k], l.pos[m]) != Facing(l.pos[k], l.pos[d])
  {
    assert l.cells[l.pos[m]] == m && l.cells[l.pos[d]] == d;
  }

  /** Carving between two adjacent cells keeps the walls agreeing on both sides. */
  lemma CarveKeepsAgreement(l: Layout, ws: seq<seq<bool>>, c: nat, d: nat)
    requires WellFormed(l) && |ws| == |l.pos| && c < |ws| && d < |ws|
    requires forall k :: 0 <= k < |ws| ==> |ws[k]| == 4
    requires Adjacent(l.pos[c], l.pos[d], l.size) && WallsAgree(l, ws)
    ensures WallsAgree(l, Carved(ws, c, d, l.pos[c], l.pos[d]))
  {
    var pos := l.pos;
    var pc, pd := pos[c], pos[d];
    var r := Carved(ws, c, d, pc, pd);
    assert Aligned(pc, pd) && c != d;
    var i, j := Facing(pc, pd), Facing(pd, pc);
    assert r[c] == ws[c][i := false] && r[d] == ws[d][j := false];
    forall k, m | 0 <= k < |r| && 0 <= m < |r| && |r[k]| == 4 && |r[m]| == 4 && Adjacent(pos[k], pos[m], l.size)
      ensures r[k][Facing(pos[k], pos[m])] == r[m][Facing(pos[m], pos[k])]
    {
      var fk, fm := Facing(pos[k], pos[m]), Facing(pos[m], pos[k]);
      assert ws[k][fk] == ws[m][fm];
      assert Adjacent(pos[m], pos[k], l.size);
      if (k == c && m == d) || (k == d && m == c) {
      } else {
        if k == c { FacingDiffers(l, c, m, d); }
        if k == d { FacingDiffers(l, d, m, c); }
        if m == c { FacingDiffers(l, c, k, d); }
        if m == d { FacingDiffers(l, d, k, c); }
        assert r[k][fk] == ws[k][fk];
        assert r[m][fm] == ws[m][fm];
      }
    }
  }

  /**
   * A forward step towards an untraversed neighbour keeps the invariant,
   * traverses exactly one more cell and carves exactly one passage.
   */
  lemma ForwardKeeps(l: Layout, s: WalkState, forward: nat, d: nat)
    requires Carving(l, s, forward) && d in l.neighbours[s.current] && !s.traversed[d]
    ensures d < |l.pos|
    ensures Carving(l, Forward(l, s, d), forward + 1)
    ensures Count(Forward(l, s, d).traversed) == Count(s.traversed) + 1
    ensures Openings(Forward(l, s, d).walls) == Openings(s.walls) + 2
  {
    NeighbourIff(l, s.current, d);
    ForwardOpenings(l, s, forward, d);
    CountRaise(s.traversed, d);
    CarveKeepsAgreement(l, s.walls, s.current, d);
    ForwardMarks(l, s, forward, d);
  }

  /** What a forward step does to `occupied`, `traversed` and `path` keeps their part of the invariant. */
  lemma ForwardMarks(l: Layout, s: WalkState, forward: nat, d: nat)
    requires Carving(l, s, forward) && d < |l.pos| && !s.traversed[d]
    requires Adjacent(l.pos[s.current], l.pos[d], l.size)
    ensures var t := Forward(l, s, d);
      && Fits(l, t)
      && (forall k :: 0 <= k < |t.occupied| ==> (t.occupied[k] <==> k == t.current))
      && t.traversed[t.current]
      && (forall u :: 0 <= u < |t.path| ==> t.traversed[t.path[u]])
      && (forall k :: 0 <= k < |t.traversed| && !t.traversed[k] ==> t.walls[k] == Intact)
  {
    var c := s.current;
    var t := Forward(l, s, d);
    assert Aligned(l.pos[c], l.pos[d]) && c != d;
    forall k | 0 <= k < |t.traversed| && !t.traversed[k]
      ensures t.walls[k] == Intact
    {
      assert k != c && k != d;
    }
  }

  lemma ForwardOpenings(l: Layout, s: WalkState, forward: nat, d: nat)
    requires Carving(l, s, forward) && d < |l.pos| && !s.traversed[d]
    requires Adjacent(l.pos[s.current], l.pos[d], l.size)
    ensures Openings(Forward(l, s, d).walls) == Openings(s.walls) + 2
  {
    var c := s.current;
    var pc, pd := l.pos[c], l.pos[d];
    var ws := s.walls;
    var i, j := Facing(pc, pd), Facing(pd, pc);
    assert Aligned(pc, pd) && c != d;
    assert ws[d] == Intact;
    assert ws[c][i] == ws[d][j];
    var ws1 := ws[c := ws[c][i := false]];
    OpeningsClear(ws, c, i);
    OpeningsClear(ws1, d, j);
    assert Forward(l, s, d).walls == ws1[d := ws1[d][j := false]];
  }

  /** A step back keeps the invariant and traverses nothing new. */
  lemma BackKeeps(l: Layout, s: WalkState, forward: nat)
    requires Carving(l, s, forward) && s.path != []
    ensures Carving(l, Back(l, s), forward)
    ensures Back(l, s).traversed == s.traversed
  {
  }

  /**
   * The outcome of one `walk`: towards some untraversed neighbour when there
   * is one, otherwise one step back when the path is not empty, otherwise
   * no change and the result False.
   */
  ghost predicate Walked(l: Layout, s: WalkState, moved: bool, t: WalkState)
    requires Listed(l) && Fits(l, s)
  {
    var cands := Untraversed(l.neighbours[s.current], s.traversed);
    if cands != [] then moved && t.current in cands && t == Forward(l, s, t.current)
    else if s.path != [] then moved && t == Back(l, s)
    else !moved && t == s
  }

  /** A step to an untraversed neighbour is a walk step. */
  lemma WalkedForward(l: Layout, s: WalkState, d: nat)
    requires Listed(l) && Fits(l, s) && d in Untraversed(l.neighbours[s.current], s.traversed)
    ensures Walked(l, s, true, Forward(l, s, d))
  {
  }

  /**
   * `walk` returns False exactly when the current cell has no untraversed
   * neighbour and the path is empty, and then changes nothing; a forward
   * step goes to a neighbour of the current cell that was untraversed.
   */
  lemma WalkedOutcome(l: Layout, s: WalkState, moved: bool, t: WalkState)
    requires Listed(l) && Fits(l, s) && Walked(l, s, moved, t)
    ensures !moved <==> (forall m :: m in l.neighbours[s.current] ==> s.traversed[m]) && s.path == []
    ensures !moved ==> t == s
    ensures t.path == s.path + [t.current] ==> t.current in l.neighbours[s.current] && !s.traversed[t.current]
  {
    var cands := Untraversed(l.neighbours[s.current], s.traversed);
    if cands != [] {
      var m := cands[0];
      assert m in cands;
    }
  }

  /** A walk step keeps the invariant, and a forward step counts as one more. */
  lemma WalkedKeeps(l: Layout, s: WalkState, forward: nat, moved: bool, t: WalkState)
    requires Carving(l, s, forward) && Walked(l, s, moved, t)
    ensures Carving(l, t, if t.path == s.path + [t.current] then forward + 1 else forward)
  {
    var cands := Untraversed(l.neighbours[s.current], s.traversed);
    if cands != [] {
      ForwardKeeps(l, s, forward, t.current);
    } else if s.path != [] {
      BackKeeps(l, s, forward);
      assert |t.path| < |s.path|;
    }
  }
}

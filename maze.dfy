/**
 * The objects of game/maze.py: the grid of cells that `play` builds, whose
 * wall flags and `occupied`/`traversed` flags change in place, and the
 * `Walker` that carves a maze through it one step per call.
 *
 * A `Cell` object of the source is cell number `k` here: its position is
 * `layout.pos[k]`, its neighbour list `layout.neighbours[k]`, and its three
 * mutable attributes are entry `k` of `walls`, `occupied` and `traversed`.
 */
module Maze {
  import opened Wrappers
  import opened MazeGeometry

  class Grid {
    const layout: Layout
    const walls: array<seq<bool>>
    const occupied: array<bool>
    const traversed: array<bool>

    ghost predicate Valid()
      reads walls
    {
      && Listed(layout)
      && walls.Length == |layout.pos| && occupied.Length == |layout.pos| && traversed.Length == |layout.pos|
      && occupied != traversed
      && forall k :: 0 <= k < walls.Length ==> |walls[k]| == 4
    }

    /** The grid as `play` leaves it before the walk: every wall up, nothing occupied or traversed. */
    ghost predicate Fresh()
      reads walls, occupied, traversed
    {
      && Valid() && WellFormed(layout)
      && forall k :: 0 <= k < walls.Length ==> walls[k] == Intact && !occupied[k] && !traversed[k]
    }

    /**
     * The grid construction of `play`: `screenWidth / size` rows of
     * `screenHeight / size` cells each, at `(i * size, j * size)`, each with
     * the orthogonal cells present in the grid as neighbours.
     */
    constructor (screenWidth: nat, screenHeight: nat, size: int)
      requires size > 0
      ensures Fresh() && fresh(walls) && fresh(occupied) && fresh(traversed)
      ensures layout.size == size
      ensures |layout.pos| == (screenWidth / size) * (screenHeight / size)
      ensures forall k :: 0 <= k < |layout.pos| ==>
        var numCols := screenHeight / size;
        numCols > 0 && layout.pos[k] == ((k / numCols) * size, (k % numCols) * size)
    {
      var numRows := screenWidth / size;
      var numCols := screenHeight / size;
      var pos, cells := BuildCells(numRows, numCols, size);
      var nbrs := BuildNeighbours(pos, cells, size);
      TableInside(pos, cells, size, nbrs);
      layout := Layout(size, pos, cells, nbrs);
      walls := new seq<bool>[|pos|](_ => Intact);
      occupied := new bool[|pos|](_ => false);
      traversed := new bool[|pos|](_ => false);
    }

    /** `Cell.remove_walls`: cell `a` is `self`, cell `b` is `other`. */
    method RemoveWalls(a: nat, b: nat)
      requires Valid() && a < walls.Length && b < walls.Length
      modifies walls
      ensures Valid()
      ensures walls[..] == Carved(old(walls[..]), a, b, layout.pos[a], layout.pos[b])
    {
      var p, q := layout.pos[a], layout.pos[b];
      if p.0 < q.0 && p.1 == q.1 {
        walls[a] := walls[a][East := false];
        walls[b] := walls[b][West := false];
      }
      if p.1 < q.1 && p.0 == q.0 {
        walls[a] := walls[a][South := false];
        walls[b] := walls[b][North := false];
      }
      if p.0 > q.0 && p.1 == q.1 {
        walls[a] := walls[a][West := false];
        walls[b] := walls[b][East := false];
      }
      if p.1 > q.1 && p.0 == q.0 {
        walls[a] := walls[a][North := false];
        walls[b] := walls[b][South := false];
      }
    }

    /** The reset `play` does when a walk ends: no cell is traversed any more. */
    method ClearTraversed()
      requires Valid()
      modifies traversed
      ensures Valid()
      ensures forall k :: 0 <= k < traversed.Length ==> !traversed[k]
    {
      for k := 0 to traversed.Length
        invariant forall k' :: 0 <= k' < k ==> !traversed[k']
      {
        traversed[k] := false;
      }
    }
  }

  class Walker {
    var current: Option<nat>
    var path: seq<nat>
    var walking: bool
    /** Forward steps since `SetStart`; bookkeeping for the invariant only. */
    ghost var forward: nat

    constructor ()
      ensures current == None && path == [] && !walking && forward == 0
    {
      current, path, walking := None, [], false;
      forward := 0;
    }

    /** The walker stands on a cell of `g` and its path lists cells of `g`. */
    ghost predicate On(g: Grid)
      reads this, g.walls
    {
      && g.Valid() && current.Some? && current.value < g.walls.Length
      && forall t :: 0 <= t < |path| ==> path[t] < g.walls.Length
    }

    /** The walk's view of the walker together with the grid's flags. */
    ghost function State(g: Grid): WalkState
      reads this, g.walls, g.occupied, g.traversed
      requires current.Some?
    {
      WalkState(g.walls[..], g.occupied[..], g.traversed[..], current.value, path)
    }

    /** The invariant of a walk begun by `SetStart` on a fresh grid. */
    ghost predicate Inv(g: Grid)
      reads this, g.walls, g.occupied, g.traversed
    {
      current.Some? && Carving(g.layout, State(g), forward)
    }

    /** `set_start`: the start cell becomes current, occupied and traversed; the path is left alone. */
    method SetStart(g: Grid, start: nat)
      requires g.Valid() && start < g.walls.Length
      modifies this, g.occupied, g.traversed
      ensures current == Some(start) && path == old(path) && walking == old(walking) && forward == 0
      ensures g.occupied[..] == old(g.occupied[..])[start := true]
      ensures g.traversed[..] == old(g.traversed[..])[start := true]
      ensures old(g.Fresh()) && path == [] ==> Inv(g)
    {
      ghost var s0 := WalkState(g.walls[..], g.occupied[..], g.traversed[..], start, path);
      ghost var wasFresh := g.Fresh() && path == [];
      current := Some(start);
      g.occupied[start] := true;
      g.traversed[start] := true;
      forward := 0;
      if wasFresh {
        StartCarving(g.layout, s0, start);
        assert State(g) == Start(g.layout, s0, start);
      }
    }

    /**
     * `walk_to`: carve between the current cell and `cell`, leave the
     * current cell, occupy and traverse `cell` and push it on the path.
     * The source dereferences the current cell before testing it, so it
     * must be set.
     */
    method WalkTo(g: Grid, cell: nat)
      requires On(g) && cell < g.walls.Length
      modifies this, g.walls, g.occupied, g.traversed
      ensures On(g) && walking == old(walking) && forward == old(forward) + 1
      ensures State(g) == Forward(g.layout, old(State(g)), cell)
    {
      var c := current.value;
      g.RemoveWalls(c, cell);
      g.occupied[c] := false;
      current := Some(cell);
      g.occupied[cell] := true;
      g.traversed[cell] := true;
      path := path + [cell];
      forward := forward + 1;
    }

    /**
     * `walk_back`: on a non-empty path, pop its last entry and make it the
     * occupied current cell; on an empty path report False and change nothing.
     */
    method WalkBack(g: Grid) returns (moved: bool)
      requires g.Valid() && forall t :: 0 <= t < |path| ==> path[t] < g.walls.Length
      requires path != [] ==> current.Some? && current.value < g.walls.Length
      modifies this, g.occupied
      ensures moved == (old(path) != [])
      ensures walking == old(walking) && forward == old(forward)
      ensures moved ==> On(g) && State(g) == Back(g.layout, old(State(g)))
      ensures !moved ==> current == old(current) && path == old(path) && g.occupied[..] == old(g.occupied[..])
    {
      if path != [] {
        var stepBack := path[|path| - 1];
        path := path[..|path| - 1];
        g.occupied[current.value] := false;
        current := Some(stepBack);
        g.occupied[stepBack] := true;
        return true;
      }
      return false;
    }

    /**
     * `walk`: one step of the randomized depth-first walk. `random.choice`
     * is an arbitrary pick among the untraversed neighbours.
     */
    method Walk(g: Grid) returns (moved: bool)
      requires On(g)
      modifies this, g.walls, g.occupied, g.traversed
      ensures On(g) && walking == old(walking)
      ensures Walked(g.layout, old(State(g)), moved, State(g))
      ensures forward == if path == old(path) + [current.value] then old(forward) + 1 else old(forward)
      ensures old(Inv(g)) ==> Inv(g)
    {
      ghost var s0 := State(g);
      ghost var f0 := forward;
      var neighbours := Untraversed(g.layout.neighbours[current.value], g.traversed[..]);
      if neighbours != [] {
        assert neighbours[0] in neighbours;
        var cell :| cell in neighbours;
        WalkTo(g, cell);
        moved := true;
        WalkedForward(g.layout, s0, cell);
      } else {
        moved := WalkBack(g);
        assert !moved ==> State(g) == s0;
      }
      ghost var s1 := State(g);
      assert Walked(g.layout, s0, moved, s1);
      ghost var f1 := forward;
      assert f1 == if s1.path == s0.path + [s1.current] then f0 + 1 else f0;
      if Carving(g.layout, s0, f0) {
        WalkedKeeps(g.layout, s0, f0, moved, s1);
        assert Carving(g.layout, s1, f1);
      }
    }

    method Pause()
      modifies this`walking
      ensures !walking
    {
      walking := false;
    }

    method Unpause()
      modifies this`walking
      ensures walking
    {
      walking := true;
    }

    /**
     * One frame of `play` while the walker is unpaused: walk, and when the
     * walk reports False, clear every `traversed` flag and pause.
     */
    method Advance(g: Grid)
      requires On(g)
      modifies this, g.walls, g.occupied, g.traversed
      ensures On(g)
      ensures !old(walking) ==> !walking && State(g) == old(State(g)) && forward == old(forward)
      ensures old(walking) && walking ==> Walked(g.layout, old(State(g)), true, State(g)) && (old(Inv(g)) ==> Inv(g))
      ensures old(walking) && !walking ==>
        && Walked(g.layout, old(State(g)), false, old(State(g)))
        && current == old(current) && path == old(path)
        && g.walls[..] == old(g.walls[..]) && g.occupied[..] == old(g.occupied[..])
        && forall k :: 0 <= k < g.traversed.Length ==> !g.traversed[k]
    {
      if walking {
        var walked := Walk(g);
        if !walked {
          WalkedOutcome(g.layout, old(State(g)), walked, State(g));
          g.ClearTraversed();
          walking := false;
        }
      }
    }
  }
}

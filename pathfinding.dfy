/**
 * The pathfinder of game/pathfinding.py: a player whose moves are checked
 * against the screen bounds and the obstacles, moved either by four keys
 * or by following a path found by breadth-first search over positions
 * reachable with the eight `STEPS` scaled by the player's speed.
 *
 * Rectangles are integer pygame rectangles. The search's `PathPoint`s live
 * in an arena (a sequence in creation order) and name their parent by its
 * index there; the arena's first point is the search's start.
 */
module Pathfinding {
  import opened Wrappers

  type Pos = (int, int)

  /** An axis-aligned rectangle: top-left corner, width and height. */
  datatype Rect = Rect(x: int, y: int, w: int, h: int)

  /** `Rect.colliderect`: the two rectangles overlap; rectangles that only touch along an edge do not. */
  predicate Collide(a: Rect, b: Rect) {
    a.x < b.x + b.w && b.x < a.x + a.w && a.y < b.y + b.h && b.y < a.y + a.h
  }

  /** Overlap does not depend on which rectangle asks. */
  lemma CollideSymmetric(a: Rect, b: Rect)
    ensures Collide(a, b) <==> Collide(b, a)
  {
  }

  /** Rectangles that meet only along an edge, side by side or one above the other, do not collide. */
  lemma TouchingApart(a: Rect, b: Rect)
    requires a.x + a.w == b.x || b.x + b.w == a.x || a.y + a.h == b.y || b.y + b.h == a.y
    ensures !Collide(a, b)
  {
  }

  /** `a` lies entirely inside `b`. */
  predicate Within(a: Rect, b: Rect) {
    b.x <= a.x && a.x + a.w <= b.x + b.w && b.y <= a.y && a.y + a.h <= b.y + b.h
  }

  /** The eight unit moves, in the order the search tries them. */
  const Steps: seq<(int, int)> := [(0, -1), (0, 1), (-1, 0), (1, 0), (-1, -1), (1, 1), (-1, 1), (1, -1)]

  /** `Player.speed`. */
  const Speed := 3

  /** `Player.size`, which is also the width and height of the player's rectangle. */
  const PlayerSize := 20

  /** The side of a `PathPoint`'s rectangle. */
  const PointSize := 20

  /** Move `i` of `Steps`, scaled by the speed, from `p`. */
  function StepFrom(p: Pos, i: nat): (r: Pos)
    requires i < |Steps|
    ensures r != p && -Speed <= r.0 - p.0 <= Speed && -Speed <= r.1 - p.1 <= Speed
  {
    (p.0 + Steps[i].0 * Speed, p.1 + Steps[i].1 * Speed)
  }

  /** `q` is one scaled step away from `p`. */
  ghost predicate IsStep(p: Pos, q: Pos) {
    exists i :: 0 <= i < |Steps| && q == StepFrom(p, i)
  }

  /** One node of the search: a position and, except for the start, the index of its parent. */
  datatype PathPoint = PathPoint(x: int, y: int, parent: Option<nat>) {
    function Coords(): Pos { (x, y) }

    /** `PathPoint.rect`: a fixed 20 by 20 square at the point. */
    function Footprint(): Rect { Rect(x, y, PointSize, PointSize) }
  }

  /** The point at `p` meets the target. */
  predicate Hits(p: Pos, goal: Rect) {
    Collide(Rect(p.0, p.1, PointSize, PointSize), goal)
  }

  /** The last position of a route from `start`: `start` itself when the route is empty. */
  function End(start: Pos, ws: seq<Pos>): Pos {
    if ws == [] then start else ws[|ws| - 1]
  }

  /** `list(reversed(s))`. */
  function Reverse<T>(s: seq<T>): (r: seq<T>)
    ensures |r| == |s| && forall k :: 0 <= k < |s| ==> r[k] == s[|s| - 1 - k]
  {
    if s == [] then [] else Reverse(s[1..]) + [s[0]]
  }

  lemma {:induction false} ReverseSnoc<T>(s: seq<T>, v: T)
    ensures Reverse(s + [v]) == [v] + Reverse(s)
  {
    if s != [] {
      assert (s + [v])[1..] == s[1..] + [v];
      ReverseSnoc(s[1..], v);
    }
  }

  /** The four movement keys, `w` up, `a` left, `s` down and `d` right. */
  datatype Keys = Keys(w: bool, a: bool, s: bool, d: bool)

  /** The following position the keys ask for: `w` wins over `s` and `d` wins over `a`. */
  function Steer(keys: Keys, x: int, y: int): Pos {
    (if keys.d then x + Speed else if keys.a then x - Speed else x,
     if keys.w then y - Speed else if keys.s then y + Speed else y)
  }

  lemma ShrinkBy(b: set<Pos>, v: set<Pos>, q: Pos)
    requires q in b && q !in v
    ensures |b - (v + {q})| == |b - v| - 1
  {
    assert b - (v + {q}) == (b - v) - {q};
  }

  class Player {
    /** `settings.WIDTH` and `settings.HEIGHT`. */
    const width: int
    const height: int
    var x: int
    var y: int
    var manual: bool
    var target: Option<Rect>
    var path: seq<Pos>

    constructor (width: int, height: int, x: int, y: int)
      ensures this.width == width && this.height == height && this.x == x && this.y == y
      ensures manual && target == None && path == []
    {
      this.width, this.height := width, height;
      this.x, this.y := x, y;
      manual, target, path := true, None, [];
    }

    /** The player's rectangle moved to `(x, y)`. */
    function Footprint(x: int, y: int): Rect {
      Rect(x, y, PlayerSize, PlayerSize)
    }

    function Screen(): Rect {
      Rect(0, 0, width, height)
    }

    /** `check_bounds`: True exactly when the player's rectangle at `(x, y)` would leave the screen. */
    function CheckBounds(x: int, y: int): (out: bool)
      ensures out <==> !Within(Footprint(x, y), Screen())
    {
      var maxX := width - PlayerSize;
      var maxY := height - PlayerSize;
      x < 0 || x > maxX || y < 0 || y > maxY
    }

    /** `check_collisions`: True exactly when the player's rectangle at `(x, y)` overlaps some obstacle. */
    function CheckCollisions(x: int, y: int, obstacles: seq<Rect>): (hit: bool)
      ensures hit <==> exists i :: 0 <= i < |obstacles| && Collide(Footprint(x, y), obstacles[i])
    {
      if obstacles == [] then false
      else Collide(Footprint(x, y), obstacles[0]) || CheckCollisions(x, y, obstacles[1..])
    }

    /** `validate_new_pos`: the rectangle at `(x, y)` stays on screen and overlaps no obstacle. */
    function ValidateNewPos(x: int, y: int, obstacles: seq<Rect>): (ok: bool)
      ensures ok <==> Within(Footprint(x, y), Screen())
                      && forall i :: 0 <= i < |obstacles| ==> !Collide(Footprint(x, y), obstacles[i])
    {
      var outOfBounds := CheckBounds(x, y);
      var colliding := CheckCollisions(x, y, obstacles);
      !colliding && !outOfBounds
    }

    predicate Valid(p: Pos, obstacles: seq<Rect>) {
      ValidateNewPos(p.0, p.1, obstacles)
    }

    /** Every top-left corner the player may occupy. */
    ghost function Box(): set<Pos> {
      set px, py | 0 <= px <= width - PlayerSize && 0 <= py <= height - PlayerSize :: (px, py)
    }

    lemma ValidInBox(p: Pos, obstacles: seq<Rect>)
      requires Valid(p, obstacles)
      ensures p in Box()
    {
    }

    /** Each waypoint is a valid position one scaled step from the one before (the first from `start`). */
    ghost predicate IsRoute(start: Pos, ws: seq<Pos>, obstacles: seq<Rect>) {
      forall t :: 0 <= t < |ws| ==> Valid(ws[t], obstacles) && IsStep(End(start, ws[..t]), ws[t])
    }

    lemma RouteExtend(start: Pos, ws: seq<Pos>, q: Pos, obstacles: seq<Rect>)
      requires IsRoute(start, ws, obstacles) && Valid(q, obstacles) && IsStep(End(start, ws), q)
      ensures IsRoute(start, ws + [q], obstacles) && End(start, ws + [q]) == q
    {
      var ws' := ws + [q];
      forall t | 0 <= t < |ws'|
        ensures Valid(ws'[t], obstacles) && IsStep(End(start, ws'[..t]), ws'[t])
      {
        assert ws'[..t] == if t < |ws| then ws[..t] else ws;
        if t < |ws| {
          assert ws'[t] == ws[t];
        }
      }
    }

    /**
     * What `pathfind` promises of the path its search leaves: a route of
     * valid scaled steps from `start` whose last point meets the target, or
     * the empty path when `start` already meets it or no route meets it; and
     * no route that meets the target is shorter.
     */
    ghost predicate ShortestRoute(start: Pos, goal: Rect, obstacles: seq<Rect>, route: seq<Pos>) {
      && IsRoute(start, route, obstacles)
      && (route != [] ==> Hits(End(start, route), goal))
      && (route == [] ==> Hits(start, goal) || forall ws :: IsRoute(start, ws, obstacles) ==> !Hits(End(start, ws), goal))
      && (forall ws :: IsRoute(start, ws, obstacles) && Hits(End(start, ws), goal) ==> |route| <= |ws|)
    }

    /**
     * The state of the breadth-first search that the loop keeps: the arena
     * `points` with the route `chains[i]` along the parent links to each
     * point, points enqueued in order of non-decreasing route length with at
     * most one level between the next point to expand (`head`) and the last,
     * `seen` giving the point created for each visited position, every point
     * before `head` expanded (each valid successor was seen at most one
     * level deeper) and tested against the target.
     */
    ghost predicate Explored(start: Pos, goal: Rect, obstacles: seq<Rect>, points: seq<PathPoint>,
                             chains: seq<seq<Pos>>, seen: map<Pos, nat>, head: nat)
    {
      && Arena(obstacles, points, chains) && head <= |points|
      && points[0] == PathPoint(start.0, start.1, None) && chains[0] == []
      && Layered(chains, head)
      && (forall q :: q in seen ==> 0 < seen[q] < |points| && points[seen[q]].Coords() == q)
      && (forall i :: 0 <= i < head ==> ExpandedUpTo(obstacles, points, chains, seen, i, |Steps|))
      && (forall i :: 0 <= i < head ==> !Hits(points[i].Coords(), goal))
    }

    /** Point `i` is a valid step from its earlier parent, and its chain is the parent's extended by it. */
    ghost predicate Linked(obstacles: seq<Rect>, points: seq<PathPoint>, chains: seq<seq<Pos>>, i: nat)
      requires i < |points| <= |chains|
    {
      && points[i].parent.Some? && points[i].parent.value < i
      && Valid(points[i].Coords(), obstacles)
      && IsStep(points[points[i].parent.value].Coords(), points[i].Coords())
      && chains[i] == chains[points[i].parent.value] + [points[i].Coords()]
    }

    /** Every point but the first is linked to its parent. */
    ghost predicate Arena(obstacles: seq<Rect>, points: seq<PathPoint>, chains: seq<seq<Pos>>) {
      && 0 < |points| && |chains| == |points|
      && forall i {:trigger Linked(obstacles, points, chains, i)} :: 0 < i < |points| ==> Linked(obstacles, points, chains, i)
    }

    /** Chains never get shorter along the arena, and the last is at most one longer than the one at `head`. */
    ghost predicate Layered(chains: seq<seq<Pos>>, head: nat) {
      && (forall i, j :: 0 <= i <= j < |chains| ==> |chains[i]| <= |chains[j]|)
      && (head < |chains| ==> |chains[|chains| - 1]| <= |chains[head]| + 1)
    }

    lemma ArenaGrow(obstacles: seq<Rect>, points: seq<PathPoint>, chains: seq<seq<Pos>>, head: nat, q: Pos,
                    points': seq<PathPoint>, chains': seq<seq<Pos>>)
      requires Arena(obstacles, points, chains) && head < |points|
      requires Valid(q, obstacles) && IsStep(points[head].Coords(), q)
      requires points' == points + [PathPoint(q.0, q.1, Some(head))]
      requires chains' == chains + [chains[head] + [q]]
      ensures Arena(obstacles, points', chains')
    {
      var n := |points|;
      forall k | 0 < k < |points'|
        ensures Linked(obstacles, points', chains', k)
      {
        if k < n {
          assert Linked(obstacles, points, chains, k);
          assert points'[k] == points[k] && chains'[k] == chains[k];
          assert chains'[points[k].parent.value] == chains[points[k].parent.value];
          assert points'[points[k].parent.value] == points[points[k].parent.value];
        } else {
          assert points'[head] == points[head] && chains'[head] == chains[head];
          assert points'[n].Coords() == q;
        }
      }
    }

    lemma LayeredGrow(chains: seq<seq<Pos>>, head: nat, q: Pos, chains': seq<seq<Pos>>)
      requires Layered(chains, head) && head < |chains|
      requires chains' == chains + [chains[head] + [q]]
      ensures Layered(chains', head)
    {
      var n := |chains|;
      forall a, b | 0 <= a <= b < |chains'|
        ensures |chains'[a]| <= |chains'[b]|
      {
        if b < n {
          assert chains'[a] == chains[a] && chains'[b] == chains[b];
        } else if a < n {
          assert |chains[a]| <= |chains[n - 1]|;
          assert chains'[a] == chains[a];
        }
      }
    }

    /** The chain of every point is a route from the start to that point. */
    lemma {:induction false} ChainRoute(start: Pos, goal: Rect, obstacles: seq<Rect>, points: seq<PathPoint>,
                                        chains: seq<seq<Pos>>, seen: map<Pos, nat>, head: nat, i: nat)
      requires Explored(start, goal, obstacles, points, chains, seen, head) && i < |points|
      ensures IsRoute(start, chains[i], obstacles) && End(start, chains[i]) == points[i].Coords()
      decreases i
    {
      if i > 0 {
        assert Linked(obstacles, points, chains, i);
        var p := points[i].parent.value;
        ChainRoute(start, goal, obstacles, points, chains, seen, head, p);
        RouteExtend(start, chains[p], points[i].Coords(), obstacles);
      }
    }

    /** The first `n` scaled steps from point `k` that are valid lead to seen positions at most one level deeper. */
    ghost predicate ExpandedUpTo(obstacles: seq<Rect>, points: seq<PathPoint>, chains: seq<seq<Pos>>,
                                 seen: map<Pos, nat>, k: nat, n: nat)
      requires k < |points| <= |chains| && n <= |Steps|
    {
      forall d :: 0 <= d < n && Valid(StepFrom(points[k].Coords(), d), obstacles) ==>
        && StepFrom(points[k].Coords(), d) in seen
        && seen[StepFrom(points[k].Coords(), d)] < |chains|
        && |chains[seen[StepFrom(points[k].Coords(), d)]]| <= |chains[k]| + 1
    }

    /** The arena only grows: earlier points keep what their expansion established. */
    lemma ExpandedGrow(obstacles: seq<Rect>, points: seq<PathPoint>, chains: seq<seq<Pos>>, seen: map<Pos, nat>,
                       points': seq<PathPoint>, chains': seq<seq<Pos>>, seen': map<Pos, nat>, k: nat, n: nat)
      requires k < |points| <= |chains| && n <= |Steps|
      requires points <= points' && chains <= chains' && |points'| <= |chains'|
      requires forall r :: r in seen ==> r in seen' && seen'[r] == seen[r]
      requires ExpandedUpTo(obstacles, points, chains, seen, k, n)
      ensures ExpandedUpTo(obstacles, points', chains', seen', k, n)
    {
      assert points'[k] == points[k] && chains'[k] == chains[k];
      forall d | 0 <= d < n && Valid(StepFrom(points'[k].Coords(), d), obstacles)
        ensures StepFrom(points'[k].Coords(), d) in seen'
        ensures seen'[StepFrom(points'[k].Coords(), d)] < |chains'|
        ensures |chains'[seen'[StepFrom(points'[k].Coords(), d)]]| <= |chains'[k]| + 1
      {
        var r := StepFrom(points[k].Coords(), d);
        assert r in seen;
        assert chains'[seen[r]] == chains[seen[r]];
      }
    }

    /** Appending the valid, unseen step `i` from the point at `head` keeps the search state. */
    lemma Grow(start: Pos, goal: Rect, obstacles: seq<Rect>, points: seq<PathPoint>,
               chains: seq<seq<Pos>>, seen: map<Pos, nat>, head: nat, i: nat, q: Pos,
               points': seq<PathPoint>, chains': seq<seq<Pos>>, seen': map<Pos, nat>)
      requires Explored(start, goal, obstacles, points, chains, seen, head) && head < |points|
      requires i < |Steps| && ExpandedUpTo(obstacles, points, chains, seen, head, i)
      requires q == StepFrom(points[head].Coords(), i) && Valid(q, obstacles) && q !in seen
      requires points' == points + [PathPoint(q.0, q.1, Some(head))]
      requires chains' == chains + [chains[head] + [q]]
      requires seen' == seen[q := |points|]
      ensures Explored(start, goal, obstacles, points', chains', seen', head)
      ensures ExpandedUpTo(obstacles, points', chains', seen', head, i + 1)
    {
      var n := |points|;
      assert IsStep(points[head].Coords(), q);
      ArenaGrow(obstacles, points, chains, head, q, points', chains');
      LayeredGrow(chains, head, q, chains');
      assert points'[n].Coords() == q;
      assert forall k :: 0 <= k < n ==> points'[k] == points[k] && chains'[k] == chains[k];
      forall k | 0 <= k < head
        ensures !Hits(points'[k].Coords(), goal)
      {
        assert points'[k] == points[k];
      }
      forall k | 0 <= k < head
        ensures ExpandedUpTo(obstacles, points', chains', seen', k, |Steps|)
      {
        assert ExpandedUpTo(obstacles, points, chains, seen, k, |Steps|);
        ExpandedGrow(obstacles, points, chains, seen, points', chains', seen', k, |Steps|);
      }
      ExpandedGrow(obstacles, points, chains, seen, points', chains', seen', head, i);
    }

    /** A step from the point at `head` that is invalid or already seen needs no new point. */
    lemma Skip(start: Pos, goal: Rect, obstacles: seq<Rect>, points: seq<PathPoint>,
               chains: seq<seq<Pos>>, seen: map<Pos, nat>, head: nat, i: nat, q: Pos)
      requires Explored(start, goal, obstacles, points, chains, seen, head) && head < |points|
      requires i < |Steps| && ExpandedUpTo(obstacles, points, chains, seen, head, i)
      requires q == StepFrom(points[head].Coords(), i) && (q in seen || !Valid(q, obstacles))
      ensures ExpandedUpTo(obstacles, points, chains, seen, head, i + 1)
    {
      if q in seen {
        assert |chains[seen[q]]| <= |chains[|points| - 1]|;
      }
    }

    /** Once all eight steps from the point at `head` are handled, it counts as expanded and tested. */
    lemma Expand(start: Pos, goal: Rect, obstacles: seq<Rect>, points: seq<PathPoint>,
                 chains: seq<seq<Pos>>, seen: map<Pos, nat>, head: nat)
      requires Explored(start, goal, obstacles, points, chains, seen, head) && head < |points|
      requires ExpandedUpTo(obstacles, points, chains, seen, head, |Steps|)
      requires !Hits(points[head].Coords(), goal)
      ensures Explored(start, goal, obstacles, points, chains, seen, head + 1)
    {
      if head + 1 < |points| {
        assert |chains[head]| <= |chains[head + 1]|;
      }
      forall i | 0 <= i < head + 1
        ensures ExpandedUpTo(obstacles, points, chains, seen, i, |Steps|) && !Hits(points[i].Coords(), goal)
      {
      }
    }

    /** A valid step from an expanded point reaches a seen position at most one level deeper. */
    lemma StepSeen(start: Pos, goal: Rect, obstacles: seq<Rect>, points: seq<PathPoint>,
                   chains: seq<seq<Pos>>, seen: map<Pos, nat>, head: nat, k: nat, q: Pos)
      requires Explored(start, goal, obstacles, points, chains, seen, head)
      requires k < head && Valid(q, obstacles) && IsStep(points[k].Coords(), q)
      ensures q in seen && seen[q] < |points| && points[seen[q]].Coords() == q && |chains[seen[q]]| <= |chains[k]| + 1
    {
      var d :| 0 <= d < |Steps| && q == StepFrom(points[k].Coords(), d);
      assert ExpandedUpTo(obstacles, points, chains, seen, k, |Steps|);
    }

    /**
     * Every route of length at most `bound` meets, position by position, the
     * points of the arena at no deeper level, provided the points above
     * `bound` levels are all expanded.
     */
    lemma {:induction false} Covered(start: Pos, goal: Rect, obstacles: seq<Rect>, points: seq<PathPoint>,
                                     chains: seq<seq<Pos>>, seen: map<Pos, nat>, head: nat,
                                     ws: seq<Pos>, m: nat, bound: int) returns (j: nat)
      requires Explored(start, goal, obstacles, points, chains, seen, head)
      requires IsRoute(start, ws, obstacles) && m <= |ws| && m <= bound
      requires forall i :: 0 <= i < |points| && |chains[i]| < bound ==> i < head
      ensures j < |points| && points[j].Coords() == End(start, ws[..m]) && |chains[j]| <= m
    {
      if m == 0 {
        j := 0;
      } else {
        var k := Covered(start, goal, obstacles, points, chains, seen, head, ws, m - 1, bound);
        var q := ws[m - 1];
        assert Valid(q, obstacles) && IsStep(points[k].Coords(), q);
        StepSeen(start, goal, obstacles, points, chains, seen, head, k, q);
        j := seen[q];
        assert End(start, ws[..m]) == q;
      }
    }

    /** When the point at `head` meets the target, its chain is a shortest route. */
    lemma FoundShortest(start: Pos, goal: Rect, obstacles: seq<Rect>, points: seq<PathPoint>,
                        chains: seq<seq<Pos>>, seen: map<Pos, nat>, head: nat)
      requires Explored(start, goal, obstacles, points, chains, seen, head)
      requires head < |points| && Hits(points[head].Coords(), goal)
      ensures ShortestRoute(start, goal, obstacles, chains[head])
    {
      var route := chains[head];
      ChainRoute(start, goal, obstacles, points, chains, seen, head, head);
      forall ws | IsRoute(start, ws, obstacles) && Hits(End(start, ws), goal)
        ensures |route| <= |ws|
      {
        if |ws| < |route| {
          assert ws[..|ws|] == ws;
          assert forall i :: 0 <= i < |points| && |chains[i]| < |route| ==> i < head;
          var j := Covered(start, goal, obstacles, points, chains, seen, head, ws, |ws|, |route|);
        }
      }
    }

    /** When every point is expanded and none met the target, no route meets it. */
    lemma ExhaustedNone(start: Pos, goal: Rect, obstacles: seq<Rect>, points: seq<PathPoint>,
                        chains: seq<seq<Pos>>, seen: map<Pos, nat>)
      requires Explored(start, goal, obstacles, points, chains, seen, |points|)
      ensures ShortestRoute(start, goal, obstacles, [])
    {
      forall ws | IsRoute(start, ws, obstacles)
        ensures !Hits(End(start, ws), goal)
      {
        assert ws[..|ws|] == ws;
        var j := Covered(start, goal, obstacles, points, chains, seen, |points|, ws, |ws|, |ws|);
      }
    }

    /** The positions in `searching` are the arena indices from `from` on, in order. */
    ghost predicate Queue(searching: seq<nat>, from: nat, n: nat) {
      |searching| == n - from && forall t :: 0 <= t < |searching| ==> searching[t] == from + t
    }

    /**
     * The queue's work left shrinks: either no position was newly visited and
     * the queue is as it was, or fewer valid positions remain unvisited.
     */
    ghost predicate Progress(visited: set<Pos>, searching: seq<nat>, visited': set<Pos>, searching': seq<nat>) {
      && visited <= visited'
      && (visited' == visited ==> searching' == searching)
      && (visited' != visited ==> |Box() - visited'| < |Box() - visited|)
    }

    lemma ProgressTrans(v0: set<Pos>, s0: seq<nat>, v1: set<Pos>, s1: seq<nat>, v2: set<Pos>, s2: seq<nat>)
      requires Progress(v0, s0, v1, s1) && Progress(v1, s1, v2, s2)
      ensures Progress(v0, s0, v2, s2)
    {
    }

    lemma QueuePop(searching: seq<nat>, from: nat, n: nat)
      requires Queue(searching, from, n) && searching != []
      ensures searching[0] == from < n && Queue(searching[1..], from + 1, n)
    {
    }

    /** The search starts with the start point alone, nothing visited and nothing expanded. */
    lemma Begin(start: Pos, goal: Rect, obstacles: seq<Rect>)
      ensures Explored(start, goal, obstacles, [PathPoint(start.0, start.1, None)], [[]], map[], 0)
      ensures Queue([0], 0, 1)
    {
    }

    lemma QueueAppend(searching: seq<nat>, from: nat, n: nat)
      requires Queue(searching, from, n)
      ensures Queue(searching + [n], from, n + 1)
    {
    }

    /** Newly visiting a valid position is progress for the search. */
    lemma StepProgress(visited: set<Pos>, searching: seq<nat>, q: Pos, n: nat, obstacles: seq<Rect>)
      requires q !in visited && Valid(q, obstacles)
      ensures Progress(visited, searching, visited + {q}, searching + [n])
    {
      ValidInBox(q, obstacles);
      ShrinkBy(Box(), visited, q);
    }

    /** Everything that adding step `i` from the point at `head` as a new point establishes. */
    lemma TakeStep(start: Pos, goal: Rect, obstacles: seq<Rect>, points: seq<PathPoint>,
                   searching: seq<nat>, visited: set<Pos>, chains: seq<seq<Pos>>,
                   seen: map<Pos, nat>, head: nat, i: nat, q: Pos)
      requires Explored(start, goal, obstacles, points, chains, seen, head) && head < |points|
      requires i < |Steps| && ExpandedUpTo(obstacles, points, chains, seen, head, i)
      requires visited == seen.Keys && Queue(searching, head + 1, |points|)
      requires q == StepFrom(points[head].Coords(), i) && q !in visited && Valid(q, obstacles)
      ensures var points', chains', seen' := points + [PathPoint(q.0, q.1, Some(head))], chains + [chains[head] + [q]], seen[q := |points|];
        && Explored(start, goal, obstacles, points', chains', seen', head)
        && ExpandedUpTo(obstacles, points', chains', seen', head, i + 1)
        && visited + {q} == seen'.Keys && Queue(searching + [|points|], head + 1, |points'|)
    {
      Grow(start, goal, obstacles, points, chains, seen, head, i, q,
           points + [PathPoint(q.0, q.1, Some(head))], chains + [chains[head] + [q]], seen[q := |points|]);
      QueueAppend(searching, head + 1, |points|);
    }

    /**
     * One turn of the `for` loop over `STEPS` in `pathfind`: step `i` from the
     * point at `head`, when not visited and a valid position, becomes a new
     * point whose parent is `head`, is marked visited and is enqueued.
     */
    method TryStep(ghost start: Pos, ghost goal: Rect, obstacles: seq<Rect>, points: seq<PathPoint>,
                   searching: seq<nat>, visited: set<Pos>, ghost chains: seq<seq<Pos>>,
                   ghost seen: map<Pos, nat>, head: nat, i: nat)
      returns (points': seq<PathPoint>, searching': seq<nat>, visited': set<Pos>,
               ghost chains': seq<seq<Pos>>, ghost seen': map<Pos, nat>)
      requires Explored(start, goal, obstacles, points, chains, seen, head) && head < |points|
      requires i < |Steps| && ExpandedUpTo(obstacles, points, chains, seen, head, i)
      requires visited == seen.Keys && Queue(searching, head + 1, |points|)
      ensures Explored(start, goal, obstacles, points', chains', seen', head)
      ensures head < |points'| && points'[head] == points[head]
      ensures ExpandedUpTo(obstacles, points', chains', seen', head, i + 1)
      ensures visited' == seen'.Keys && Queue(searching', head + 1, |points'|)
      ensures Progress(visited, searching, visited', searching')
      ensures var q := StepFrom(points[head].Coords(), i);
        if q !in visited && Valid(q, obstacles)
        then points' == points + [PathPoint(q.0, q.1, Some(head))] && searching' == searching + [|points|]
             && visited' == visited + {q}
        else points' == points && searching' == searching && visited' == visited
    {
      var q := StepFrom(points[head].Coords(), i);
      var newX, newY := q.0, q.1;
      if q !in visited && ValidateNewPos(newX, newY, obstacles) {
        var newPoint := PathPoint(newX, newY, Some(head));
        var n: nat := |points|;
        TakeStep(start, goal, obstacles, points, searching, visited, chains, seen, head, i, q);
        StepProgress(visited, searching, q, n, obstacles);
        visited' := visited + {q};
        seen' := seen[q := n];
        chains' := chains + [chains[head] + [q]];
        points' := points + [newPoint];
        searching' := searching + [n];
      } else {
        Skip(start, goal, obstacles, points, chains, seen, head, i, q);
        points', searching', visited', chains', seen' := points, searching, visited, chains, seen;
      }
    }

    /** The `for` loop over `STEPS` in `pathfind`, after which the point at `head` is expanded. */
    method EnqueueSteps(ghost start: Pos, goal: Rect, obstacles: seq<Rect>, points: seq<PathPoint>,
                        searching: seq<nat>, visited: set<Pos>, ghost chains: seq<seq<Pos>>,
                        ghost seen: map<Pos, nat>, head: nat)
      returns (points': seq<PathPoint>, searching': seq<nat>, visited': set<Pos>,
               ghost chains': seq<seq<Pos>>, ghost seen': map<Pos, nat>)
      requires Explored(start, goal, obstacles, points, chains, seen, head) && head < |points|
      requires !Hits(points[head].Coords(), goal)
      requires visited == seen.Keys && Queue(searching, head + 1, |points|)
      ensures Explored(start, goal, obstacles, points', chains', seen', head + 1)
      ensures visited' == seen'.Keys && Queue(searching', head + 1, |points'|)
      ensures Progress(visited, searching, visited', searching')
      ensures points <= points' && searching <= searching' && visited <= visited'
    {
      points', searching', visited', chains', seen' := points, searching, visited, chains, seen;
      for i := 0 to |Steps|
        invariant Explored(start, goal, obstacles, points', chains', seen', head)
        invariant head < |points'| && points'[head] == points[head]
        invariant ExpandedUpTo(obstacles, points', chains', seen', head, i)
        invariant visited' == seen'.Keys && Queue(searching', head + 1, |points'|)
        invariant Progress(visited, searching, visited', searching')
        invariant points <= points' && searching <= searching' && visited <= visited'
      {
        ghost var v, s := visited', searching';
        points', searching', visited', chains', seen' :=
          TryStep(start, goal, obstacles, points', searching', visited', chains', seen', head, i);
        ProgressTrans(visited, searching, v, s, visited', searching');
      }
      Expand(start, goal, obstacles, points', chains', seen', head);
    }

    /** The path rebuilt from the point at `current` back along the parents, start excluded, in forward order. */
    method Rebuild(ghost start: Pos, ghost goal: Rect, ghost obstacles: seq<Rect>, points: seq<PathPoint>,
                   ghost chains: seq<seq<Pos>>, ghost seen: map<Pos, nat>, ghost head: nat, current: nat)
      returns (route: seq<Pos>)
      requires Explored(start, goal, obstacles, points, chains, seen, head) && current < |points|
      ensures route == chains[current]
    {
      var rev: seq<Pos> := [];
      var c := current;
      while c != 0
        invariant 0 <= c < |points|
        invariant chains[current] == chains[c] + Reverse(rev)
        decreases c
      {
        assert Linked(obstacles, points, chains, c);
        ReverseSnoc(rev, points[c].Coords());
        rev := rev + [points[c].Coords()];
        c := points[c].parent.value;
      }
      route := Reverse(rev);
    }

    /**
     * The search of `pathfind`: breadth-first over the arena with a FIFO of
     * point indices and a set of visited positions (the start is never put
     * in it), testing each point against the target when it is dequeued.
     */
    method Search(start: Pos, goal: Rect, obstacles: seq<Rect>) returns (route: seq<Pos>)
      ensures ShortestRoute(start, goal, obstacles, route)
    {
      var visited: set<Pos> := {};
      var points := [PathPoint(start.0, start.1, None)];
      var searching: seq<nat> := [0];
      ghost var head: nat := 0;
      ghost var chains: seq<seq<Pos>> := [[]];
      ghost var seen: map<Pos, nat> := map[];
      Begin(start, goal, obstacles);
      while searching != []
        invariant Explored(start, goal, obstacles, points, chains, seen, head)
        invariant visited == seen.Keys && Queue(searching, head, |points|)
        decreases |Box() - visited|, |searching|
      {
        QueuePop(searching, head, |points|);
        var current := searching[0];
        searching := searching[1..];
        if Collide(points[current].Footprint(), goal) {
          route := Rebuild(start, goal, obstacles, points, chains, seen, head, current);
          FoundShortest(start, goal, obstacles, points, chains, seen, head);
          return;
        }
        points, searching, visited, chains, seen :=
          EnqueueSteps(start, goal, obstacles, points, searching, visited, chains, seen, current);
        head := head + 1;
      }
      route := [];
      ExhaustedNone(start, goal, obstacles, points, chains, seen);
    }

    /**
     * Where one `move` leaves a player at `(x, y)`: the position the keys ask
     * for when it is valid, and `(x, y)` otherwise.
     */
    function MoveFrom(keys: Keys, obstacles: seq<Rect>, x: int, y: int): (p: Pos)
      ensures p == (x, y) || (p == Steer(keys, x, y) && Valid(p, obstacles))
    {
      var c := Steer(keys, x, y);
      if Valid(c, obstacles) then c else (x, y)
    }

    /** A player standing on a valid position never moves onto an invalid one. */
    lemma MoveKeepsValid(keys: Keys, obstacles: seq<Rect>, x: int, y: int)
      requires Valid((x, y), obstacles)
      ensures Valid(MoveFrom(keys, obstacles, x, y), obstacles)
    {
    }

    /** One move changes each coordinate by at most the speed, and pressing nothing changes neither. */
    lemma MoveBounded(keys: Keys, obstacles: seq<Rect>, x: int, y: int)
      ensures var p := MoveFrom(keys, obstacles, x, y);
        -Speed <= p.0 - x <= Speed && -Speed <= p.1 - y <= Speed
      ensures keys == Keys(false, false, false, false) ==> MoveFrom(keys, obstacles, x, y) == (x, y)
    {
    }

    /** `move`: the keys are applied in the order `s`, `a`, `d`, `w`, and the result is kept only when valid. */
    method Move(keys: Keys, obstacles: seq<Rect>)
      modifies this`x, this`y
      ensures (x, y) == MoveFrom(keys, obstacles, old(x), old(y))
    {
      var newX, newY := x, y;
      if keys.s {
        newY := y + Speed;
      }
      if keys.a {
        newX := x - Speed;
      }
      if keys.d {
        newX := x + Speed;
      }
      if keys.w {
        newY := y - Speed;
      }
      if ValidateNewPos(newX, newY, obstacles) {
        x, y := newX, newY;
      }
    }

    /** Taking the first waypoint of a route leaves a route from that waypoint. */
    lemma RouteTail(start: Pos, ws: seq<Pos>, obstacles: seq<Rect>)
      requires IsRoute(start, ws, obstacles) && ws != []
      ensures Valid(ws[0], obstacles) && IsStep(start, ws[0]) && IsRoute(ws[0], ws[1..], obstacles)
    {
      assert ws[..0] == [];
      var tail := ws[1..];
      forall t | 0 <= t < |tail|
        ensures Valid(tail[t], obstacles) && IsStep(End(ws[0], tail[..t]), tail[t])
      {
        assert tail[t] == ws[t + 1];
        assert End(ws[0], tail[..t]) == End(start, ws[..t + 1]);
      }
    }

    /**
     * `pathfind`: with a path left, jump to its first waypoint and drop it;
     * otherwise search a shortest path from the current position, staying put.
     */
    method Pathfind(obstacles: seq<Rect>)
      requires target.Some?
      modifies this`x, this`y, this`path
      ensures old(path) != [] ==> (x, y) == old(path)[0] && path == old(path)[1..]
      ensures old(path) == [] ==> x == old(x) && y == old(y) && ShortestRoute((x, y), target.value, obstacles, path)
      ensures IsRoute((old(x), old(y)), old(path), obstacles) ==> IsRoute((x, y), path, obstacles)
      ensures IsRoute((old(x), old(y)), old(path), obstacles) && old(path) != [] ==> Valid((x, y), obstacles)
    {
      if path != [] {
        ghost var start := (x, y);
        if IsRoute(start, path, obstacles) {
          RouteTail(start, path, obstacles);
        }
        var point := path[0];
        path := path[1..];
        x, y := point.0, point.1;
        return;
      }
      path := Search((x, y), target.value, obstacles);
    }

    /**
     * `update`: flip manual mode when asked; in manual mode with keys, drop
     * the path and move; out of manual mode with a target, take one
     * pathfinding turn. `None` stands for the call made without keys.
     */
    method Update(keys: Option<Keys>, toggleManual: bool, obstacles: seq<Rect>)
      modifies this`x, this`y, this`path, this`manual
      ensures manual == (old(manual) != toggleManual)
      ensures manual && keys.Some? ==> path == [] && (x, y) == MoveFrom(keys.value, obstacles, old(x), old(y))
      ensures (manual && keys.None?) || (!manual && target.None?) ==>
        x == old(x) && y == old(y) && path == old(path)
      ensures !manual && target.Some? && old(path) != [] ==> (x, y) == old(path)[0] && path == old(path)[1..]
      ensures !manual && target.Some? && old(path) == [] ==>
        x == old(x) && y == old(y) && ShortestRoute((x, y), target.value, obstacles, path)
    {
      if toggleManual {
        manual := !manual;
      }
      if manual && keys.Some? {
        path := [];
        Move(keys.value, obstacles);
      }
      if !manual && target.Some? {
        Pathfind(obstacles);
      }
    }
  }
}

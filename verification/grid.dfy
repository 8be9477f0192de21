/**
 * The grid the A* search runs on: positions, bounds, the four orthogonal
 * neighbours, the Manhattan heuristic, and walks through passable cells.
 */
module Grid {

  /** A (row, column) position; components may be negative before bounds are checked. */
  datatype Pos = Pos(y: int, x: int)

  /** The source fixes the grid shape at 3 by 3 through two global constants. */
  const HEIGHT: nat := 3
  const WIDTH: nat := 3

  /** The one cell value that blocks movement; every other value is passable. */
  const WALL: string := "#"

  predicate IsWall(c: string)
  {
    c == WALL
  }

  predicate InBounds(h: nat, w: nat, p: Pos)
  {
    0 <= p.y < h && 0 <= p.x < w
  }

  /** The grid is exactly `h` rows of `w` cells. */
  predicate WellFormed(grid: seq<seq<string>>, h: nat, w: nat)
  {
    |grid| == h && forall y :: 0 <= y < h ==> |grid[y]| == w
  }

  function At(grid: seq<seq<string>>, h: nat, w: nat, p: Pos): string
    requires WellFormed(grid, h, w) && InBounds(h, w, p)
  {
    grid[p.y][p.x]
  }

  /** A cell a walk may step onto: inside the grid and not a wall. */
  predicate Passable(grid: seq<seq<string>>, h: nat, w: nat, p: Pos)
    requires WellFormed(grid, h, w)
  {
    InBounds(h, w, p) && !IsWall(At(grid, h, w, p))
  }

  function Abs(n: int): nat
  {
    if n < 0 then -n else n
  }

  function Manhattan(p: Pos, q: Pos): nat
  {
    Abs(p.y - q.y) + Abs(p.x - q.x)
  }

  predicate Adjacent(p: Pos, q: Pos)
  {
    Manhattan(p, q) == 1
  }

  /** The cells of one row, `Pos(y, 0)` to `Pos(y, w - 1)`. */
  function Row(y: int, w: nat): (r: set<Pos>)
    ensures forall p :: p in r <==> p.y == y && 0 <= p.x < w
    ensures |r| == w
  {
    if w == 0 then {}
    else
      var rest := Row(y, w - 1);
      assert Pos(y, w - 1) !in rest;
      rest + {Pos(y, w - 1)}
  }

  /** Every position of an `h` by `w` grid: exactly the in-bounds ones, `h * w` of them. */
  function Cells(h: nat, w: nat): (r: set<Pos>)
    ensures forall p :: p in r <==> InBounds(h, w, p)
    ensures |r| == h * w
  {
    if h == 0 then {}
    else
      var above := Cells(h - 1, w);
      var last := Row(h - 1, w);
      assert above * last == {};
      assert |above + last| == |above| + |last|;
      assert (h - 1) * w + w == h * w;
      above + last
  }

  /** The four orthogonal moves, in the order the source lists them: up, down, left, right. */
  function Candidates(p: Pos): seq<Pos>
  {
    [Pos(p.y - 1, p.x), Pos(p.y + 1, p.x), Pos(p.y, p.x - 1), Pos(p.y, p.x + 1)]
  }

  predicate Distinct<T(==)>(s: seq<T>)
  {
    forall i, j :: 0 <= i < j < |s| ==> s[i] != s[j]
  }

  /** The order-preserving filter of `cs` by the bounds check. */
  function KeepInBounds(h: nat, w: nat, cs: seq<Pos>): (r: seq<Pos>)
    ensures |r| <= |cs|
    ensures forall q :: q in r <==> q in cs && InBounds(h, w, q)
    ensures Distinct(cs) ==> Distinct(r)
  {
    if cs == [] then []
    else
      var rest := KeepInBounds(h, w, cs[1..]);
      assert Distinct(cs) ==> cs[0] !in cs[1..];
      if InBounds(h, w, cs[0]) then [cs[0]] + rest else rest
  }

  /**
   * The neighbours `getNeighbors` returns. The bounds are `h` and `w` where
   * the source reads its global `HEIGHT` and `WIDTH`.
   */
  function Neighbors(h: nat, w: nat, p: Pos): (r: seq<Pos>)
    ensures |r| <= 4
    ensures forall q :: q in r <==> InBounds(h, w, q) && Adjacent(p, q)
    ensures Distinct(r)
  {
    var cs := Candidates(p);
    assert forall q :: Adjacent(p, q) ==> q in cs by {
      forall q | Adjacent(p, q)
        ensures q in cs
      {
        if q.y == p.y {
          assert q == cs[2] || q == cs[3];
        } else {
          assert q == cs[0] || q == cs[1];
        }
      }
    }
    KeepInBounds(h, w, cs)
  }

  /**
   * `getNeighbors` with the source's own bounds: on the 3 by 3 grid it is
   * written for, the neighbours are the adjacent cells of that grid.
   */
  function GetNeighbors(p: Pos): (r: seq<Pos>)
    ensures |r| <= 4 && Distinct(r)
    ensures forall q :: q in r <==> 0 <= q.y < HEIGHT && 0 <= q.x < WIDTH && Adjacent(p, q)
  {
    Neighbors(HEIGHT, WIDTH, p)
  }

  /** `heuristic`: the Manhattan distance from `node` to `(endX, endY)`. */
  function Heuristic(node: Pos, endX: int, endY: int): (r: nat)
    ensures r == 0 <==> node == Pos(endY, endX)
  {
    Abs(node.x - endX) + Abs(node.y - endY)
  }

  /** One step changes the heuristic by at most one. */
  lemma HeuristicConsistent(p: Pos, q: Pos, goal: Pos)
    requires Adjacent(p, q)
    ensures Heuristic(p, goal.x, goal.y) <= Heuristic(q, goal.x, goal.y) + 1
  {
  }

  /* Walks. A walk from `from` is the sequence of cells stepped onto, `from` itself excluded. */

  /** The `i`-th cell visited: `from` for `i == 0`, then the steps in order. */
  function Vertex(from: Pos, steps: seq<Pos>, i: nat): Pos
    requires i <= |steps|
  {
    if i == 0 then from else steps[i - 1]
  }

  /** Each step is one orthogonal move from the previous cell. */
  predicate IsChain(from: Pos, steps: seq<Pos>)
  {
    forall i {:trigger Vertex(from, steps, i)} :: 0 <= i < |steps| ==> Adjacent(Vertex(from, steps, i), steps[i])
  }

  predicate EndsAt(from: Pos, steps: seq<Pos>, to: Pos)
  {
    Vertex(from, steps, |steps|) == to
  }

  /** A chain of moves that only steps onto passable cells (the start cell itself may be anything). */
  predicate IsWalk(grid: seq<seq<string>>, h: nat, w: nat, from: Pos, steps: seq<Pos>)
    requires WellFormed(grid, h, w)
  {
    IsChain(from, steps) && forall i :: 0 <= i < |steps| ==> Passable(grid, h, w, steps[i])
  }

  ghost predicate Reachable(grid: seq<seq<string>>, h: nat, w: nat, from: Pos, to: Pos)
    requires WellFormed(grid, h, w)
  {
    exists steps :: IsWalk(grid, h, w, from, steps) && EndsAt(from, steps, to)
  }

  /** Dropping the first step of a chain leaves a chain from that step. */
  lemma ChainTail(from: Pos, steps: seq<Pos>)
    requires IsChain(from, steps) && |steps| > 0
    ensures IsChain(steps[0], steps[1..])
    ensures forall i :: 0 <= i <= |steps| - 1 ==> Vertex(steps[0], steps[1..], i) == Vertex(from, steps, i + 1)
  {
    forall i | 0 <= i < |steps| - 1
      ensures Adjacent(Vertex(steps[0], steps[1..], i), steps[1..][i])
    {
      assert Vertex(steps[0], steps[1..], i) == Vertex(from, steps, i + 1);
      assert Adjacent(Vertex(from, steps, i + 1), steps[i + 1]);
    }
  }

  /** A walk from `c` extends to a walk from any passable-neighbour predecessor `p` of `c`. */
  lemma WalkCons(grid: seq<seq<string>>, h: nat, w: nat, p: Pos, c: Pos, steps: seq<Pos>, to: Pos)
    requires WellFormed(grid, h, w) && Adjacent(p, c) && Passable(grid, h, w, c)
    requires IsWalk(grid, h, w, c, steps) && EndsAt(c, steps, to)
    ensures IsWalk(grid, h, w, p, [c] + steps) && EndsAt(p, [c] + steps, to)
  {
    var s := [c] + steps;
    forall i | 0 <= i < |s|
      ensures Adjacent(Vertex(p, s, i), s[i])
    {
      if i > 0 {
        assert Vertex(p, s, i) == Vertex(c, steps, i - 1);
        assert Adjacent(Vertex(c, steps, i - 1), steps[i - 1]);
      }
    }
    assert Vertex(p, s, |s|) == Vertex(c, steps, |steps|);
  }

  /**
   * The heuristic is admissible: no chain of orthogonal moves from `p` to the
   * goal, walls or not, is shorter than `Heuristic(p)`.
   */
  lemma {:induction false} HeuristicAdmissible(p: Pos, steps: seq<Pos>, goal: Pos)
    requires IsChain(p, steps) && EndsAt(p, steps, goal)
    ensures Heuristic(p, goal.x, goal.y) <= |steps|
    decreases |steps|
  {
    if |steps| > 0 {
      ChainTail(p, steps);
      assert EndsAt(steps[0], steps[1..], goal);
      HeuristicAdmissible(steps[0], steps[1..], goal);
      assert Adjacent(Vertex(p, steps, 0), steps[0]);
      HeuristicConsistent(p, steps[0], goal);
    }
  }
}

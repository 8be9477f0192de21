/**
 * The A* node table: one record per grid cell, built once per search, and
 * the relaxation of one neighbour of the node being expanded.
 */
module NodeTable {
  import opened ExtNat
  import opened Grid

  datatype Option<T> = None | Some(value: T)

  /**
   * The node record: its position, the grid value, the heuristic `H` (`null`
   * until first discovery), the scores `G` and `F`, the `closed` and
   * `visited` flags, and the position of its parent node.
   */
  datatype Node = Node(
    y: int, x: int, value: string,
    h: Option<nat>, g: ENat, f: ENat,
    closed: bool, visited: bool,
    parent: Option<Pos>)

  /** The node table, keyed by position where the source indexes rows and columns. */
  type Table = map<Pos, Node>

  /** A node as it is created: no heuristic, infinite scores, open, unvisited, parentless. */
  predicate Pristine(n: Node)
  {
    n.h == None && n.g == Inf && n.f == Inf && !n.closed && !n.visited && n.parent == None
  }

  /** The table has one node per grid cell, and each node keeps its cell's position and value. */
  ghost predicate Mirrors(grid: seq<seq<string>>, h: nat, w: nat, t: Table)
  {
    WellFormed(grid, h, w) && (forall p :: p in t <==> InBounds(h, w, p)) &&
    forall p :: p in t ==> t[p].y == p.y && t[p].x == p.x && t[p].value == grid[p.y][p.x]
  }

  /** The table the search starts from. */
  function InitTable(grid: seq<seq<string>>, h: nat, w: nat): (t: Table)
    requires WellFormed(grid, h, w)
    ensures Mirrors(grid, h, w, t)
    ensures forall p :: p in t ==> Pristine(t[p])
  {
    var t := map p | p in Cells(h, w) :: Node(p.y, p.x, grid[p.y][p.x], None, Inf, Inf, false, false, None);
    assert t.Keys == Cells(h, w);
    t
  }

  /** A table mirroring an `h` by `w` grid has exactly `h * w` nodes. */
  lemma TableSize(grid: seq<seq<string>>, h: nat, w: nat, t: Table)
    requires Mirrors(grid, h, w, t)
    ensures t.Keys == Cells(h, w) && |t| == h * w
  {
    assert t.Keys == Cells(h, w);
    assert |t.Keys| == |t|;
  }

  /** Marks the expanded node `p` closed. */
  function CloseNode(t: Table, p: Pos): (t': Table)
    requires p in t
    ensures t'.Keys == t.Keys && t'[p].closed
    ensures forall q :: q in t ==> t'[q] == t[q].(closed := q == p || t[q].closed)
  {
    t[p := t[p].(closed := true)]
  }

  /**
   * `H + G` as the source computes it; `H` is always set by the time `F` is
   * computed, and a missing `H` would add nothing.
   */
  function HScore(h: Option<nat>): ENat
  {
    match h
    case Some(v) => Fin(v)
    case None => Fin(0)
  }

  /**
   * One pass of the relaxation loop body, for neighbour `nb` of the node
   * `cur` being expanded, toward `goal`. Returns the new table and open list.
   */
  function RelaxNeighbor(t: Table, open: seq<Pos>, cur: Pos, nb: Pos, goal: Pos): (r: (Table, seq<Pos>))
    requires cur in t && nb in t
    ensures r.0.Keys == t.Keys
    ensures forall p :: p in t && p != nb ==> r.0[p] == t[p]
    ensures r.0[nb].y == t[nb].y && r.0[nb].x == t[nb].x && r.0[nb].value == t[nb].value
    ensures r.0[nb].closed == t[nb].closed
    // closed and wall cells are skipped without any change
    ensures t[nb].closed || IsWall(t[nb].value) ==> r == (t, open)
    // a cell joins the open list exactly when it is seen for the first time
    ensures r.1 == if !t[nb].closed && !IsWall(t[nb].value) && !t[nb].visited then open + [nb] else open
    ensures !t[nb].closed && !IsWall(t[nb].value) && !t[nb].visited ==>
      r.0[nb].visited && r.0[nb].parent == Some(cur) && r.0[nb].h == Some(Heuristic(nb, goal.x, goal.y))
    // with the expanded node's G infinite, a cell already seen is never re-parented
    ensures t[nb].visited && t[cur].g == Inf ==> r.0 == t
    ensures t[cur].g == Inf && t[nb].g == Inf && t[nb].f == Inf ==> r.0[nb].g == Inf && r.0[nb].f == Inf
  {
    var node := t[nb];
    if node.closed || IsWall(node.value) then (t, open)
    else
      var beenVisited := node.visited;
      var gScore := Add(t[cur].g, Fin(1));
      var found := if !beenVisited then node.(h := Some(Heuristic(nb, goal.x, goal.y)), visited := true) else node;
      var open' := if !beenVisited then open + [nb] else open;
      var better := if !beenVisited || Less(gScore, found.g)
        then found.(parent := Some(cur), g := gScore, f := Add(gScore, HScore(found.h)))
        else found;
      (t[nb := better], open')
  }
}

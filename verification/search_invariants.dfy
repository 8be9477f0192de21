/**
 * Ghost invariants of the A* main loop and the lemmas that carry them from
 * one step to the next.
 *
 * Because the start node's G is left at Infinity, every G and F stays
 * Infinity, the minimum scan always takes the head of the open list, and a
 * node is parented only when first discovered: the search is a breadth-first
 * search. The invariants below are the classical ones of breadth-first
 * search, over a ghost `Trace` that records each discovered node's depth.
 */
module SearchInvariants {
  import opened ExtNat
  import opened Grid
  import opened NodeTable

  /**
   * `dep`: the breadth-first depth of every node discovered so far (the start
   * included); `lvl`: the depth of the node expanded last; the open list holds
   * `m` nodes of depth `lvl` followed by nodes of depth `lvl + 1`.
   */
  datatype Trace = Trace(dep: map<Pos, nat>, lvl: nat, m: nat)

  /** Every score is still Infinity. */
  ghost predicate AllInfinite(t: Table)
  {
    forall p :: p in t ==> t[p].g == Inf && t[p].f == Inf
  }

  /** The open list: distinct open nodes, `m` of depth `lvl` and then the rest of depth `lvl + 1`. */
  ghost predicate OpenList(t: Table, open: seq<Pos>, tr: Trace)
  {
    Distinct(open) && tr.m <= |open| &&
    forall i :: 0 <= i < |open| ==>
      open[i] in t && !t[open[i]].closed && open[i] in tr.dep &&
      tr.dep[open[i]] == if i < tr.m then tr.lvl else tr.lvl + 1
  }

  /** Expanded nodes were discovered, no deeper than the current level. */
  ghost predicate ClosedDepths(t: Table, tr: Trace)
  {
    forall p :: p in t && t[p].closed ==> p in tr.dep && tr.dep[p] <= tr.lvl
  }

  /** A discovered node is either expanded or still on the open list. */
  ghost predicate Discovered(t: Table, open: seq<Pos>, tr: Trace)
  {
    forall p :: p in tr.dep ==> p in t && (t[p].closed || p in open)
  }

  /** `visited` marks the discovered nodes other than the start, and `H` is set exactly on them. */
  ghost predicate Flags(start: Pos, goal: Pos, t: Table, tr: Trace)
  {
    (forall p :: p in t ==> (t[p].visited <==> p in tr.dep && p != start)) &&
    (forall p :: p in t ==> t[p].h == if t[p].visited then Some(Heuristic(p, goal.x, goal.y)) else None)
  }

  /** The start is discovered at depth 0 and is expanded first; the goal, if it is a cell at all, is never expanded. */
  ghost predicate Anchors(start: Pos, goal: Pos, t: Table, open: seq<Pos>, tr: Trace)
  {
    start in t && start in tr.dep && tr.dep[start] == 0 &&
    (t[start].closed || open == [start]) &&
    (goal in t ==> !t[goal].closed)
  }

  ghost predicate Frontier(start: Pos, goal: Pos, t: Table, open: seq<Pos>, tr: Trace)
  {
    OpenList(t, open, tr) && ClosedDepths(t, tr) && Discovered(t, open, tr) &&
    Flags(start, goal, t, tr) && Anchors(start, goal, t, open, tr)
  }

  /**
   * Parent links: exactly the discovered nodes other than the start have one,
   * and a parent is an adjacent node one level shallower; parented cells are passable.
   */
  ghost predicate Links(grid: seq<seq<string>>, h: nat, w: nat, start: Pos, t: Table, dep: map<Pos, nat>)
  {
    WellFormed(grid, h, w) &&
    start in t && t[start].parent == None &&
    (forall p :: p in dep ==> p in t && (p != start ==> t[p].parent.Some?)) &&
    (forall p {:trigger t[p].parent.value} :: p in t && t[p].parent.Some? ==>
      p in dep && t[p].parent.value in dep && dep[p] == dep[t[p].parent.value] + 1 &&
      Adjacent(t[p].parent.value, p) && Passable(grid, h, w, p))
  }

  /** Every passable neighbour of the expanded node `u` has been discovered, at most one level deeper. */
  ghost predicate Covers(grid: seq<seq<string>>, h: nat, w: nat, u: Pos, dep: map<Pos, nat>)
    requires WellFormed(grid, h, w)
  {
    u in dep &&
    forall q :: Adjacent(u, q) && Passable(grid, h, w, q) ==> q in dep && dep[q] <= dep[u] + 1
  }

  /** Every expanded node other than `except` is covered. */
  ghost predicate CoveredBut(grid: seq<seq<string>>, h: nat, w: nat, t: Table, dep: map<Pos, nat>, except: Option<Pos>)
    requires WellFormed(grid, h, w)
  {
    forall p :: p in t && t[p].closed && Some(p) != except ==> Covers(grid, h, w, p, dep)
  }

  ghost predicate Common(grid: seq<seq<string>>, h: nat, w: nat, start: Pos, goal: Pos, t: Table, open: seq<Pos>, tr: Trace)
  {
    Mirrors(grid, h, w, t) && AllInfinite(t) && Frontier(start, goal, t, open, tr) &&
    Links(grid, h, w, start, t, tr.dep)
  }

  /** The invariant at the head of the main loop: every expanded node is covered. */
  ghost predicate Outer(grid: seq<seq<string>>, h: nat, w: nat, start: Pos, goal: Pos, t: Table, open: seq<Pos>, tr: Trace)
  {
    Common(grid, h, w, start, goal, t, open, tr) && CoveredBut(grid, h, w, t, tr.dep, None)
  }

  /** `cur`, one level-`lvl` node, is being expanded, the start having been expanded already. */
  ghost predicate Expanding(start: Pos, t: Table, dep: map<Pos, nat>, lvl: nat, cur: Pos)
  {
    cur in t && t[cur].closed && start in t && t[start].closed && cur in dep && dep[cur] == lvl
  }

  /** The passable nodes among `done` are discovered, at most one level below `lvl`. */
  ghost predicate Settled(grid: seq<seq<string>>, h: nat, w: nat, done: seq<Pos>, dep: map<Pos, nat>, lvl: nat)
    requires WellFormed(grid, h, w)
  {
    forall q :: q in done && Passable(grid, h, w, q) ==> q in dep && dep[q] <= lvl + 1
  }

  /** The invariant of the relaxation loop over the neighbours of `cur`, `done` being those already relaxed. */
  ghost predicate Inner(grid: seq<seq<string>>, h: nat, w: nat, start: Pos, goal: Pos, t: Table, open: seq<Pos>, tr: Trace,
                        cur: Pos, done: seq<Pos>)
  {
    Common(grid, h, w, start, goal, t, open, tr) && Expanding(start, t, tr.dep, tr.lvl, cur) &&
    CoveredBut(grid, h, w, t, tr.dep, Some(cur)) && Settled(grid, h, w, done, tr.dep, tr.lvl)
  }

  /** The ghost effect of taking the head of the open list. */
  ghost function Pop(tr: Trace, open: seq<Pos>): Trace
  {
    if tr.m > 0 then tr.(m := tr.m - 1) else tr.(lvl := tr.lvl + 1, m := if |open| > 0 then |open| - 1 else 0)
  }

  /** The ghost effect of relaxing `nb`: a newly discovered node is one level below the expanded one. */
  ghost function Discover(t: Table, tr: Trace, nb: Pos): Trace
    requires nb in t
  {
    if !t[nb].closed && !IsWall(t[nb].value) && !t[nb].visited
    then Trace(tr.dep[nb := tr.lvl + 1], tr.lvl, tr.m)
    else tr
  }

  /** The nodes expanded so far. */
  ghost function ClosedSet(t: Table): set<Pos>
  {
    set p | p in t && t[p].closed
  }

  /** The fresh table with only the start on the open list satisfies the loop invariant. */
  lemma Init(grid: seq<seq<string>>, h: nat, w: nat, start: Pos, goal: Pos)
    requires WellFormed(grid, h, w) && InBounds(h, w, start)
    ensures Outer(grid, h, w, start, goal, InitTable(grid, h, w), [start], Trace(map[start := 0], 0, 1))
    ensures ClosedSet(InitTable(grid, h, w)) == {}
  {
    InitFrontier(grid, h, w, start, goal);
    InitLinks(grid, h, w, start);
  }

  lemma InitFrontier(grid: seq<seq<string>>, h: nat, w: nat, start: Pos, goal: Pos)
    requires WellFormed(grid, h, w) && InBounds(h, w, start)
    ensures Frontier(start, goal, InitTable(grid, h, w), [start], Trace(map[start := 0], 0, 1))
    ensures AllInfinite(InitTable(grid, h, w))
  {
  }

  lemma InitLinks(grid: seq<seq<string>>, h: nat, w: nat, start: Pos)
    requires WellFormed(grid, h, w) && InBounds(h, w, start)
    ensures Links(grid, h, w, start, InitTable(grid, h, w), map[start := 0])
  {
  }

  /* Closing the expanded node. */

  /** Expanding the head of the open list (not the goal) and closing it enters the relaxation loop. */
  lemma Close(grid: seq<seq<string>>, h: nat, w: nat, start: Pos, goal: Pos, t: Table, open: seq<Pos>, tr: Trace)
    requires Outer(grid, h, w, start, goal, t, open, tr)
    requires |open| > 0 && open[0] != goal
    ensures open[0] in t
    ensures Inner(grid, h, w, start, goal, CloseNode(t, open[0]), open[1..], Pop(tr, open), open[0], [])
  {
    var t' := CloseNode(t, open[0]);
    FlagOnly(grid, h, w, start, t, t', tr.dep);
    CloseOpenList(t, open, tr);
    CloseRest(start, goal, t, open, tr);
    assert CoveredBut(grid, h, w, t', tr.dep, Some(open[0]));
  }

  /** Changing only `closed` flags keeps the table shape, the scores and the parent links. */
  lemma FlagOnly(grid: seq<seq<string>>, h: nat, w: nat, start: Pos, t: Table, t': Table, dep: map<Pos, nat>)
    requires Mirrors(grid, h, w, t) && AllInfinite(t) && Links(grid, h, w, start, t, dep)
    requires t'.Keys == t.Keys && forall p :: p in t ==> t'[p] == t[p].(closed := t'[p].closed)
    ensures Mirrors(grid, h, w, t') && AllInfinite(t') && Links(grid, h, w, start, t', dep)
  {
  }

  lemma CloseOpenList(t: Table, open: seq<Pos>, tr: Trace)
    requires OpenList(t, open, tr) && |open| > 0
    ensures open[0] in t && open[0] in tr.dep && tr.dep[open[0]] == Pop(tr, open).lvl
    ensures OpenList(CloseNode(t, open[0]), open[1..], Pop(tr, open))
  {
    var t' := CloseNode(t, open[0]);
    var open' := open[1..];
    var tr' := Pop(tr, open);
    forall i | 0 <= i < |open'|
      ensures open'[i] in t' && !t'[open'[i]].closed && open'[i] in tr'.dep
      ensures tr'.dep[open'[i]] == if i < tr'.m then tr'.lvl else tr'.lvl + 1
    {
      assert open'[i] == open[i + 1];
      assert open[i + 1] != open[0];
    }
  }

  lemma CloseRest(start: Pos, goal: Pos, t: Table, open: seq<Pos>, tr: Trace)
    requires Frontier(start, goal, t, open, tr) && |open| > 0 && open[0] != goal
    ensures open[0] in t
    ensures ClosedDepths(CloseNode(t, open[0]), Pop(tr, open))
    ensures Discovered(CloseNode(t, open[0]), open[1..], Pop(tr, open))
    ensures Flags(start, goal, CloseNode(t, open[0]), Pop(tr, open))
    ensures Anchors(start, goal, CloseNode(t, open[0]), open[1..], Pop(tr, open))
    ensures CloseNode(t, open[0])[start].closed
  {
    var cur := open[0];
    var t' := CloseNode(t, cur);
    var open' := open[1..];
    var tr' := Pop(tr, open);
    forall p | p in tr'.dep
      ensures p in t' && (t'[p].closed || p in open')
    {
      if p != cur && !t[p].closed {
        assert p in open;
        var i :| 0 <= i < |open| && open[i] == p;
        assert open'[i - 1] == p;
      }
    }
  }

  /** Closing a node that was open adds exactly one node to the closed set. */
  lemma ClosingCounts(t: Table, cur: Pos)
    requires cur in t && !t[cur].closed
    ensures ClosedSet(CloseNode(t, cur)) == ClosedSet(t) + {cur}
    ensures |ClosedSet(CloseNode(t, cur))| == |ClosedSet(t)| + 1
    ensures ClosedSet(t) + {cur} <= t.Keys
  {
  }

  /* Relaxing one neighbour. */

  /** Relaxing one more neighbour keeps the relaxation-loop invariant. */
  lemma Relax(grid: seq<seq<string>>, h: nat, w: nat, start: Pos, goal: Pos, t: Table, open: seq<Pos>, tr: Trace,
              cur: Pos, done: seq<Pos>, nb: Pos)
    requires Inner(grid, h, w, start, goal, t, open, tr, cur, done)
    requires InBounds(h, w, nb) && Adjacent(cur, nb)
    ensures cur in t && nb in t
    ensures Inner(grid, h, w, start, goal, RelaxNeighbor(t, open, cur, nb, goal).0,
                  RelaxNeighbor(t, open, cur, nb, goal).1, Discover(t, tr, nb), cur, done + [nb])
    ensures ClosedSet(RelaxNeighbor(t, open, cur, nb, goal).0) == ClosedSet(t)
  {
    if t[nb].closed || IsWall(t[nb].value) || t[nb].visited {
      RelaxIgnored(grid, h, w, start, goal, t, open, tr, cur, done, nb);
    } else {
      NewShape(t, open, cur, nb, goal);
      DiscoverNew(t, tr, nb);
      RelaxNew(grid, h, w, start, goal, t, open, tr, cur, done, nb);
    }
  }

  /** Recording one more relaxed neighbour, already at most one level below `lvl` if passable. */
  lemma SettledGrow(grid: seq<seq<string>>, h: nat, w: nat, done: seq<Pos>, dep: map<Pos, nat>, dep': map<Pos, nat>,
                    lvl: nat, nb: Pos)
    requires WellFormed(grid, h, w) && Settled(grid, h, w, done, dep, lvl)
    requires forall p :: p in dep ==> p in dep' && dep'[p] == dep[p]
    requires Passable(grid, h, w, nb) ==> nb in dep' && dep'[nb] <= lvl + 1
    ensures Settled(grid, h, w, done + [nb], dep', lvl)
  {
    forall q | q in done + [nb] && Passable(grid, h, w, q)
      ensures q in dep' && dep'[q] <= lvl + 1
    {
      if q != nb {
        assert q in done;
      }
    }
  }

  /** A closed, wall or already-seen neighbour is, if passable, already at most one level below `cur`. */
  lemma IgnoredDepth(grid: seq<seq<string>>, h: nat, w: nat, start: Pos, goal: Pos, t: Table, open: seq<Pos>, tr: Trace,
                     nb: Pos)
    requires Mirrors(grid, h, w, t) && Frontier(start, goal, t, open, tr)
    requires nb in t && (t[nb].closed || IsWall(t[nb].value) || t[nb].visited)
    ensures Passable(grid, h, w, nb) ==> nb in tr.dep && tr.dep[nb] <= tr.lvl + 1
  {
    if Passable(grid, h, w, nb) && !t[nb].closed {
      assert !IsWall(t[nb].value);
      assert nb in tr.dep;
      var i :| 0 <= i < |open| && open[i] == nb;
    }
  }

  /** A closed, wall or already-seen neighbour changes nothing. */
  lemma RelaxIgnored(grid: seq<seq<string>>, h: nat, w: nat, start: Pos, goal: Pos, t: Table, open: seq<Pos>, tr: Trace,
                     cur: Pos, done: seq<Pos>, nb: Pos)
    requires Inner(grid, h, w, start, goal, t, open, tr, cur, done)
    requires InBounds(h, w, nb)
    requires t[nb].closed || IsWall(t[nb].value) || t[nb].visited
    ensures RelaxNeighbor(t, open, cur, nb, goal) == (t, open) && Discover(t, tr, nb) == tr
    ensures Inner(grid, h, w, start, goal, t, open, tr, cur, done + [nb])
  {
    assert t[cur].g == Inf;
    IgnoredDepth(grid, h, w, start, goal, t, open, tr, nb);
    SettledGrow(grid, h, w, done, tr.dep, tr.dep, tr.lvl, nb);
  }

  /** The node a first discovery writes: visited, parented by `cur`, heuristic set, scores still infinite. */
  function Found(t: Table, cur: Pos, nb: Pos, goal: Pos): Node
    requires nb in t
  {
    t[nb].(h := Some(Heuristic(nb, goal.x, goal.y)), visited := true, parent := Some(cur), g := Inf, f := Inf)
  }

  /** With the expanded node's G infinite, a first discovery writes exactly `Found`. */
  lemma NewShape(t: Table, open: seq<Pos>, cur: Pos, nb: Pos, goal: Pos)
    requires cur in t && nb in t && t[cur].g == Inf
    requires !t[nb].closed && !IsWall(t[nb].value) && !t[nb].visited
    ensures RelaxNeighbor(t, open, cur, nb, goal) == (t[nb := Found(t, cur, nb, goal)], open + [nb])
  {
  }

  /** A newly discovered neighbour is pushed one level below `cur`, with `cur` as its parent. */
  lemma RelaxNew(grid: seq<seq<string>>, h: nat, w: nat, start: Pos, goal: Pos, t: Table, open: seq<Pos>, tr: Trace,
                 cur: Pos, done: seq<Pos>, nb: Pos)
    requires Inner(grid, h, w, start, goal, t, open, tr, cur, done)
    requires InBounds(h, w, nb) && Adjacent(cur, nb)
    requires !t[nb].closed && !IsWall(t[nb].value) && !t[nb].visited
    ensures Inner(grid, h, w, start, goal, t[nb := Found(t, cur, nb, goal)], open + [nb],
                  Trace(tr.dep[nb := tr.lvl + 1], tr.lvl, tr.m), cur, done + [nb])
    ensures ClosedSet(t[nb := Found(t, cur, nb, goal)]) == ClosedSet(t)
  {
    NewCommon(grid, h, w, start, goal, t, open, tr, cur, nb);
    NewProgress(grid, h, w, start, goal, t, open, tr, cur, done, nb);
    ClosedSetKeeps(t, nb, Found(t, cur, nb, goal));
  }

  /** The table, open list and trace invariants after a first discovery. */
  lemma NewCommon(grid: seq<seq<string>>, h: nat, w: nat, start: Pos, goal: Pos, t: Table, open: seq<Pos>, tr: Trace,
                  cur: Pos, nb: Pos)
    requires Common(grid, h, w, start, goal, t, open, tr)
    requires cur in t && cur in tr.dep && tr.dep[cur] == tr.lvl && t[start].closed
    requires InBounds(h, w, nb) && Adjacent(cur, nb)
    requires !t[nb].closed && !IsWall(t[nb].value) && !t[nb].visited
    ensures Common(grid, h, w, start, goal, t[nb := Found(t, cur, nb, goal)], open + [nb],
                   Trace(tr.dep[nb := tr.lvl + 1], tr.lvl, tr.m))
  {
    NewFacts(grid, h, w, start, goal, t, open, tr, nb);
    NewFrontier(start, goal, t, open, tr, cur, nb);
    NewMirrors(grid, h, w, t, cur, nb, goal);
    NewLinks(grid, h, w, start, t, tr.dep, cur, nb, goal, tr.lvl);
  }

  /** The expansion-progress invariants after a first discovery. */
  lemma NewProgress(grid: seq<seq<string>>, h: nat, w: nat, start: Pos, goal: Pos, t: Table, open: seq<Pos>, tr: Trace,
                    cur: Pos, done: seq<Pos>, nb: Pos)
    requires Inner(grid, h, w, start, goal, t, open, tr, cur, done)
    requires InBounds(h, w, nb) && Adjacent(cur, nb)
    requires !t[nb].closed && !IsWall(t[nb].value) && !t[nb].visited
    ensures Expanding(start, t[nb := Found(t, cur, nb, goal)], tr.dep[nb := tr.lvl + 1], tr.lvl, cur)
    ensures CoveredBut(grid, h, w, t[nb := Found(t, cur, nb, goal)], tr.dep[nb := tr.lvl + 1], Some(cur))
    ensures Settled(grid, h, w, done + [nb], tr.dep[nb := tr.lvl + 1], tr.lvl)
  {
    NewFacts(grid, h, w, start, goal, t, open, tr, nb);
    NewCovered(grid, h, w, t, tr.dep, cur, nb, goal, tr.lvl);
    SettledNew(grid, h, w, done, tr.dep, tr.lvl, nb);
    NewExpanding(start, t, tr.dep, tr.lvl, cur, nb, Found(t, cur, nb, goal));
  }

  /** Recording a newly discovered neighbour. */
  lemma SettledNew(grid: seq<seq<string>>, h: nat, w: nat, done: seq<Pos>, dep: map<Pos, nat>, lvl: nat, nb: Pos)
    requires WellFormed(grid, h, w) && Settled(grid, h, w, done, dep, lvl) && nb !in dep
    ensures Settled(grid, h, w, done + [nb], dep[nb := lvl + 1], lvl)
  {
    forall q | q in done + [nb] && Passable(grid, h, w, q)
      ensures q in dep[nb := lvl + 1] && dep[nb := lvl + 1][q] <= lvl + 1
    {
      if q != nb {
        assert q in done;
      }
    }
  }

  /** A node not yet seen is undiscovered, off the open list, not the start, and passable. */
  lemma NewFacts(grid: seq<seq<string>>, h: nat, w: nat, start: Pos, goal: Pos, t: Table, open: seq<Pos>, tr: Trace, nb: Pos)
    requires Mirrors(grid, h, w, t) && Frontier(start, goal, t, open, tr) && t[start].closed
    requires InBounds(h, w, nb) && nb in t && !t[nb].closed && !IsWall(t[nb].value) && !t[nb].visited
    ensures nb !in tr.dep && nb !in open && nb != start && Passable(grid, h, w, nb)
  {
  }

  /** With `nb` newly discovered, `cur` is still the node being expanded. */
  lemma NewExpanding(start: Pos, t: Table, dep: map<Pos, nat>, lvl: nat, cur: Pos, nb: Pos, n: Node)
    requires Expanding(start, t, dep, lvl, cur) && nb in t && !t[nb].closed && n.closed == t[nb].closed
    ensures Expanding(start, t[nb := n], dep[nb := lvl + 1], lvl, cur)
  {
  }

  /** Rewriting a node without touching its `closed` flag keeps the closed set. */
  lemma ClosedSetKeeps(t: Table, p: Pos, n: Node)
    requires p in t && n.closed == t[p].closed
    ensures ClosedSet(t[p := n]) == ClosedSet(t)
  {
    assert forall q :: q in ClosedSet(t[p := n]) <==> q in ClosedSet(t);
  }

  /** What a first discovery does to the ghost trace. */
  lemma DiscoverNew(t: Table, tr: Trace, nb: Pos)
    requires nb in t && !t[nb].closed && !IsWall(t[nb].value) && !t[nb].visited
    ensures Discover(t, tr, nb) == Trace(tr.dep[nb := tr.lvl + 1], tr.lvl, tr.m)
  {
  }

  lemma NewFrontier(start: Pos, goal: Pos, t: Table, open: seq<Pos>, tr: Trace, cur: Pos, nb: Pos)
    requires Frontier(start, goal, t, open, tr) && AllInfinite(t)
    requires cur in t && nb in t && nb !in tr.dep && nb !in open
    requires !t[nb].closed && !IsWall(t[nb].value) && !t[nb].visited && t[start].closed
    ensures Frontier(start, goal, t[nb := Found(t, cur, nb, goal)], open + [nb], Trace(tr.dep[nb := tr.lvl + 1], tr.lvl, tr.m))
    ensures AllInfinite(t[nb := Found(t, cur, nb, goal)])
  {
    var t' := t[nb := Found(t, cur, nb, goal)];
    var tr' := Trace(tr.dep[nb := tr.lvl + 1], tr.lvl, tr.m);
    var open' := open + [nb];
    forall i | 0 <= i < |open'|
      ensures open'[i] in t' && !t'[open'[i]].closed && open'[i] in tr'.dep
      ensures tr'.dep[open'[i]] == if i < tr'.m then tr'.lvl else tr'.lvl + 1
    {
      if i < |open| {
        assert open'[i] == open[i];
      }
    }
    assert OpenList(t', open', tr');
  }

  lemma NewMirrors(grid: seq<seq<string>>, h: nat, w: nat, t: Table, cur: Pos, nb: Pos, goal: Pos)
    requires Mirrors(grid, h, w, t) && nb in t
    ensures Mirrors(grid, h, w, t[nb := Found(t, cur, nb, goal)])
  {
  }

  lemma NewLinks(grid: seq<seq<string>>, h: nat, w: nat, start: Pos, t: Table, dep: map<Pos, nat>, cur: Pos, nb: Pos,
                 goal: Pos, lvl: nat)
    requires Links(grid, h, w, start, t, dep)
    requires cur in t && cur in dep && dep[cur] == lvl
    requires nb in t && nb !in dep && nb != start && Passable(grid, h, w, nb) && Adjacent(cur, nb)
    ensures Links(grid, h, w, start, t[nb := Found(t, cur, nb, goal)], dep[nb := lvl + 1])
  {
    NewLinkDepths(grid, h, w, start, t, dep, cur, nb, goal, lvl);
    NewLinkSteps(grid, h, w, start, t, dep, cur, nb, goal);
  }

  lemma NewLinkDepths(grid: seq<seq<string>>, h: nat, w: nat, start: Pos, t: Table, dep: map<Pos, nat>, cur: Pos, nb: Pos,
                      goal: Pos, lvl: nat)
    requires Links(grid, h, w, start, t, dep)
    requires cur in t && cur in dep && dep[cur] == lvl && nb in t && nb !in dep
    ensures var t' := t[nb := Found(t, cur, nb, goal)];
            var dep' := dep[nb := lvl + 1];
            forall p :: p in t' && t'[p].parent.Some? ==>
              p in dep' && t'[p].parent.value in dep' && dep'[p] == dep'[t'[p].parent.value] + 1
  {
  }

  lemma NewLinkSteps(grid: seq<seq<string>>, h: nat, w: nat, start: Pos, t: Table, dep: map<Pos, nat>, cur: Pos, nb: Pos,
                     goal: Pos)
    requires Links(grid, h, w, start, t, dep)
    requires nb in t && Passable(grid, h, w, nb) && Adjacent(cur, nb)
    ensures var t' := t[nb := Found(t, cur, nb, goal)];
            forall p :: p in t' && t'[p].parent.Some? ==> Adjacent(t'[p].parent.value, p) && Passable(grid, h, w, p)
  {
  }

  lemma NewCovered(grid: seq<seq<string>>, h: nat, w: nat, t: Table, dep: map<Pos, nat>, cur: Pos, nb: Pos, goal: Pos,
                   lvl: nat)
    requires WellFormed(grid, h, w) && CoveredBut(grid, h, w, t, dep, Some(cur))
    requires nb in t && nb !in dep && !t[nb].closed
    ensures CoveredBut(grid, h, w, t[nb := Found(t, cur, nb, goal)], dep[nb := lvl + 1], Some(cur))
  {
    var t' := t[nb := Found(t, cur, nb, goal)];
    forall p | p in t' && t'[p].closed && Some(p) != Some(cur)
      ensures Covers(grid, h, w, p, dep[nb := lvl + 1])
    {
      CoversGrow(grid, h, w, p, dep, dep[nb := lvl + 1]);
    }
  }

  /** Discovering more nodes keeps an expanded node covered. */
  lemma CoversGrow(grid: seq<seq<string>>, h: nat, w: nat, u: Pos, dep: map<Pos, nat>, dep': map<Pos, nat>)
    requires WellFormed(grid, h, w) && Covers(grid, h, w, u, dep)
    requires forall p :: p in dep ==> p in dep' && dep'[p] == dep[p]
    ensures Covers(grid, h, w, u, dep')
  {
  }

  /** Once every neighbour is relaxed the main-loop invariant holds again. */
  lemma Finish(grid: seq<seq<string>>, h: nat, w: nat, start: Pos, goal: Pos, t: Table, open: seq<Pos>, tr: Trace, cur: Pos,
               done: seq<Pos>)
    requires Inner(grid, h, w, start, goal, t, open, tr, cur, done)
    requires forall q :: InBounds(h, w, q) && Adjacent(cur, q) ==> q in done
    ensures Outer(grid, h, w, start, goal, t, open, tr)
  {
    var dep := tr.dep;
    forall q | Adjacent(cur, q) && Passable(grid, h, w, q)
      ensures q in dep && dep[q] <= dep[cur] + 1
    {
      assert q in done;
    }
    assert Covers(grid, h, w, cur, dep);
  }

  /* Breadth-first depth is walk distance. */

  /** Every discovered node shallower than `d` has been expanded. */
  ghost predicate ClosedBelow(t: Table, dep: map<Pos, nat>, d: nat)
  {
    forall p :: p in dep && dep[p] < d ==> p in t && t[p].closed
  }

  /**
   * Along any walk from the start, the first `d` cells past the start are
   * discovered no deeper than their position on the walk, as long as every
   * node shallower than `d` is expanded and covered.
   */
  lemma {:induction false} WalkDepth(grid: seq<seq<string>>, h: nat, w: nat, start: Pos, t: Table, dep: map<Pos, nat>,
                                     d: nat, steps: seq<Pos>, i: nat)
    requires WellFormed(grid, h, w) && start in dep && dep[start] == 0
    requires ClosedBelow(t, dep, d) && CoveredBut(grid, h, w, t, dep, None)
    requires IsWalk(grid, h, w, start, steps) && i <= |steps| && i <= d
    ensures Vertex(start, steps, i) in dep && dep[Vertex(start, steps, i)] <= i
    decreases i
  {
    if i > 0 {
      WalkDepth(grid, h, w, start, t, dep, d, steps, i - 1);
      var u := Vertex(start, steps, i - 1);
      assert Adjacent(u, steps[i - 1]) && Passable(grid, h, w, steps[i - 1]);
      CoveredStep(grid, h, w, t, dep, u, steps[i - 1]);
    }
  }

  /** A step out of an expanded node lands on a node at most one level deeper. */
  lemma CoveredStep(grid: seq<seq<string>>, h: nat, w: nat, t: Table, dep: map<Pos, nat>, u: Pos, v: Pos)
    requires WellFormed(grid, h, w) && CoveredBut(grid, h, w, t, dep, None)
    requires u in t && t[u].closed && Adjacent(u, v) && Passable(grid, h, w, v)
    ensures u in dep && v in dep && dep[v] <= dep[u] + 1
  {
    assert Covers(grid, h, w, u, dep);
  }

  /** Nothing on the open list is shallower than its head. */
  lemma OpenNotShallower(t: Table, open: seq<Pos>, tr: Trace, p: Pos)
    requires OpenList(t, open, tr) && p in open
    ensures open[0] in tr.dep && p in tr.dep && tr.dep[open[0]] <= tr.dep[p]
  {
    var k :| 0 <= k < |open| && open[k] == p;
  }

  /** Everything shallower than the head of the open list has been expanded. */
  lemma HeadDepthClosedBelow(start: Pos, goal: Pos, t: Table, open: seq<Pos>, tr: Trace)
    requires Frontier(start, goal, t, open, tr) && |open| > 0
    ensures open[0] in tr.dep && ClosedBelow(t, tr.dep, tr.dep[open[0]])
  {
    forall p | p in tr.dep && !t[p].closed
      ensures tr.dep[open[0]] <= tr.dep[p]
    {
      OpenNotShallower(t, open, tr, p);
    }
  }

  /** When the goal heads the open list, no walk to it is shorter than its depth. */
  lemma GoalOptimal(grid: seq<seq<string>>, h: nat, w: nat, start: Pos, goal: Pos, t: Table, open: seq<Pos>, tr: Trace)
    requires Outer(grid, h, w, start, goal, t, open, tr) && |open| > 0 && open[0] == goal
    ensures goal in tr.dep
    ensures forall steps :: IsWalk(grid, h, w, start, steps) && EndsAt(start, steps, goal) ==> tr.dep[goal] <= |steps|
  {
    HeadDepthClosedBelow(start, goal, t, open, tr);
    var d := tr.dep[goal];
    forall steps | IsWalk(grid, h, w, start, steps) && EndsAt(start, steps, goal)
      ensures d <= |steps|
    {
      if |steps| < d {
        WalkDepth(grid, h, w, start, t, tr.dep, d, steps, |steps|);
      }
    }
  }

  /** When the open list runs empty the goal, never expanded, is unreachable. */
  lemma ExhaustedUnreachable(grid: seq<seq<string>>, h: nat, w: nat, start: Pos, goal: Pos, t: Table, tr: Trace)
    requires Outer(grid, h, w, start, goal, t, [], tr)
    ensures !Reachable(grid, h, w, start, goal)
  {
    forall steps | IsWalk(grid, h, w, start, steps)
      ensures !EndsAt(start, steps, goal)
    {
      assert ClosedBelow(t, tr.dep, |steps|);
      WalkDepth(grid, h, w, start, t, tr.dep, |steps|, steps, |steps|);
    }
  }
}

/**
 * The A* search of graph/AStar/AStar.js: the minimum-F scan over the open
 * list, path reconstruction along parent links, the expansion of one node,
 * and the main loop.
 */
module AStar {
  import opened ExtNat
  import opened Grid
  import opened NodeTable
  import opened SearchInvariants

  /* Choosing the node to expand. */

  /** `k` is the first position of the open list whose F is minimal under JavaScript `<`. */
  predicate FirstMinimum(t: Table, open: seq<Pos>, k: nat)
    requires forall i :: 0 <= i < |open| ==> open[i] in t
  {
    k < |open| &&
    (forall j :: 0 <= j < |open| ==> !Less(t[open[j]].f, t[open[k]].f)) &&
    (forall j :: 0 <= j < k ==> Less(t[open[k]].f, t[open[j]].f))
  }

  /** The scan for the best node: a later node replaces the best so far only when its F is strictly smaller. */
  method BestIndex(t: Table, open: seq<Pos>) returns (best: nat)
    requires |open| > 0 && forall i :: 0 <= i < |open| ==> open[i] in t
    ensures FirstMinimum(t, open, best)
  {
    best := 0;
    var i := 0;
    while i < |open|
      invariant i <= |open| && best < |open| && (best < i || best == 0)
      invariant forall j :: 0 <= j < i ==> !Less(t[open[j]].f, t[open[best]].f)
      invariant forall j :: 0 <= j < best ==> Less(t[open[best]].f, t[open[j]].f)
    {
      if Less(t[open[i]].f, t[open[best]].f) {
        forall j | 0 <= j < i
          ensures !Less(t[open[j]].f, t[open[i]].f) && Less(t[open[i]].f, t[open[j]].f)
        {
          LessIsStrictTotalOrder(t[open[j]].f, t[open[i]].f, t[open[best]].f);
          LessIsStrictTotalOrder(t[open[i]].f, t[open[best]].f, t[open[j]].f);
        }
        best := i;
      }
      i := i + 1;
    }
  }

  /** The scan's result is determined: there is only one first minimum. */
  lemma FirstMinimumUnique(t: Table, open: seq<Pos>, a: nat, b: nat)
    requires forall i :: 0 <= i < |open| ==> open[i] in t
    requires FirstMinimum(t, open, a) && FirstMinimum(t, open, b)
    ensures a == b
  {
    assert !Less(t[open[a]].f, t[open[b]].f) && !Less(t[open[b]].f, t[open[a]].f);
  }

  /** With every F still `Infinity`, the scan takes the head of the open list: the open list is a FIFO queue. */
  lemma FifoSelection(t: Table, open: seq<Pos>, best: nat)
    requires forall i :: 0 <= i < |open| ==> open[i] in t && t[open[i]].f == Inf
    requires FirstMinimum(t, open, best)
    ensures best == 0
  {
    assert t[open[best]].f == Inf && t[open[0]].f == Inf;
  }

  /* Rebuilding the path. */

  /** JavaScript's `Array.prototype.reverse`. */
  function Reverse<T>(s: seq<T>): (r: seq<T>)
    ensures |r| == |s| && forall i :: 0 <= i < |s| ==> r[i] == s[|s| - 1 - i]
  {
    seq(|s|, i requires 0 <= i < |s| => s[|s| - 1 - i])
  }

  /** An element appended at the end comes first in the reversal. */
  lemma ReverseSnoc<T>(s: seq<T>, x: T)
    ensures Reverse(s + [x]) == [x] + Reverse(s)
  {
    assert forall i :: 0 <= i < |s| + 1 ==> Reverse(s + [x])[i] == ([x] + Reverse(s))[i];
  }

  /** Reversing twice gives the list back. */
  lemma ReverseReverse<T>(s: seq<T>)
    ensures Reverse(Reverse(s)) == s
  {
    assert forall i :: 0 <= i < |s| ==> Reverse(Reverse(s))[i] == s[i];
  }

  /**
   * Follows parent links from `node` back to the parentless start,
   * collecting every node except the start, then reverses the collection.
   */
  method Reconstruct(t: Table, node: Pos, ghost grid: seq<seq<string>>, ghost h: nat, ghost w: nat, ghost start: Pos,
                     ghost dep: map<Pos, nat>)
    returns (path: seq<Pos>)
    requires Links(grid, h, w, start, t, dep) && start in dep && dep[start] == 0 && node in dep
    ensures IsWalk(grid, h, w, start, path) && EndsAt(start, path, node)
    ensures |path| == dep[node]
    ensures start !in path
  {
    var curr := node;
    var rev: seq<Pos> := [];
    while t[curr].parent.Some?
      invariant curr in dep && curr in t
      invariant IsWalk(grid, h, w, curr, Reverse(rev)) && EndsAt(curr, Reverse(rev), node)
      invariant |rev| + dep[curr] == dep[node]
      invariant start !in rev
      decreases dep[curr]
    {
      var up := t[curr].parent.value;
      WalkCons(grid, h, w, up, curr, Reverse(rev), node);
      ReverseSnoc(rev, curr);
      rev := rev + [curr];
      curr := up;
    }
    assert curr == start;
    path := Reverse(rev);
  }

  /* Expanding one node. */

  /**
   * Part way through expanding `cur`: the neighbours in `done` are relaxed,
   * and compared with the table `t0` and open list `open0` the expansion
   * started from, the keys and the closed set are the same and the open list
   * has only grown at its end.
   */
  ghost predicate Midway(grid: seq<seq<string>>, h: nat, w: nat, start: Pos, goal: Pos, t0: Table, open0: seq<Pos>,
                         t: Table, open: seq<Pos>, tr: Trace, cur: Pos, done: seq<Pos>)
  {
    Inner(grid, h, w, start, goal, t, open, tr, cur, done) &&
    t.Keys == t0.Keys && ClosedSet(t) == ClosedSet(t0) &&
    |open0| <= |open| && open[..|open0|] == open0
  }

  /** Relaxing one more neighbour keeps the expansion `Midway`. */
  lemma RelaxStep(grid: seq<seq<string>>, h: nat, w: nat, start: Pos, goal: Pos, t0: Table, open0: seq<Pos>,
                  t: Table, open: seq<Pos>, tr: Trace, cur: Pos, done: seq<Pos>, nb: Pos)
    requires Midway(grid, h, w, start, goal, t0, open0, t, open, tr, cur, done)
    requires InBounds(h, w, nb) && Adjacent(cur, nb)
    ensures cur in t && nb in t
    ensures Midway(grid, h, w, start, goal, t0, open0, RelaxNeighbor(t, open, cur, nb, goal).0,
                   RelaxNeighbor(t, open, cur, nb, goal).1, Discover(t, tr, nb), cur, done + [nb])
  {
    Relax(grid, h, w, start, goal, t, open, tr, cur, done, nb);
    RelaxKeeps(t0, open0, t, open, cur, nb, goal);
  }

  /**
   * The relaxation loop as a fold: the table and open list after relaxing
   * the neighbours `nbs` of `cur` in order.
   */
  function RelaxFold(t: Table, open: seq<Pos>, cur: Pos, nbs: seq<Pos>, goal: Pos): (r: (Table, seq<Pos>))
    requires cur in t && forall q :: q in nbs ==> q in t
    ensures r.0.Keys == t.Keys
    decreases |nbs|
  {
    if nbs == [] then (t, open)
    else
      var r := RelaxFold(t, open, cur, nbs[..|nbs| - 1], goal);
      RelaxNeighbor(r.0, r.1, cur, nbs[|nbs| - 1], goal)
  }

  /** A neighbour the relaxation loop puts on the open list: not closed, not a wall and not seen before. */
  predicate Unseen(t: Table, q: Pos)
    requires q in t
  {
    !t[q].closed && !IsWall(t[q].value) && !t[q].visited
  }

  /** The neighbours in `nbs` that are `Unseen` in `t`, in the order of `nbs`. */
  function Fresh(t: Table, nbs: seq<Pos>): (r: seq<Pos>)
    requires forall q :: q in nbs ==> q in t
    ensures forall q :: q in r <==> q in nbs && Unseen(t, q)
    decreases |nbs|
  {
    if nbs == [] then []
    else
      SplitLast(nbs);
      var last := nbs[|nbs| - 1];
      Fresh(t, nbs[..|nbs| - 1]) + if Unseen(t, last) then [last] else []
  }

  /** `n` is `q` as a first discovery from `cur` leaves it: visited, with its heuristic and `cur` as parent. */
  predicate ChildOf(n: Node, q: Pos, cur: Pos, goal: Pos)
  {
    n.visited && n.parent == Some(cur) && n.h == Some(Heuristic(q, goal.x, goal.y))
  }

  /**
   * The effect of relaxing the neighbours `nbs` of `cur`, taking `t` and
   * `open` to `t'` and `open'`, stated against the table it starts from: the
   * unseen neighbours are appended to the open list in the order of `nbs`,
   * and the nodes change as `NodesEffect` says.
   */
  predicate RelaxEffect(t: Table, open: seq<Pos>, cur: Pos, nbs: seq<Pos>, goal: Pos, t': Table, open': seq<Pos>)
    requires forall q :: q in nbs ==> q in t
  {
    t'.Keys == t.Keys && open' == open + Fresh(t, nbs) && NodesEffect(t, cur, nbs, goal, t')
  }

  /**
   * The unseen neighbours become children of `cur`, no `closed` flag
   * changes, nothing outside `nbs` changes, and while `cur`'s G is infinite
   * nothing already seen changes either.
   */
  predicate NodesEffect(t: Table, cur: Pos, nbs: seq<Pos>, goal: Pos, t': Table)
    requires forall q :: q in nbs ==> q in t
    requires t'.Keys == t.Keys
  {
    (forall q :: q in t ==> t'[q].closed == t[q].closed) &&
    (forall q :: q in Fresh(t, nbs) ==> ChildOf(t'[q], q, cur, goal)) &&
    (forall q :: q in t && q !in nbs ==> t'[q] == t[q]) &&
    (cur in t && t[cur].g == Inf ==> forall q :: q in t && !Unseen(t, q) ==> t'[q] == t[q])
  }

  /** What relaxing the one neighbour `nb` of `cur` does to the nodes, taking `t` to `t'`. */
  predicate OneStep(t: Table, cur: Pos, nb: Pos, goal: Pos, t': Table)
    requires cur in t && nb in t
  {
    t'.Keys == t.Keys && (forall q :: q in t && q != nb ==> t'[q] == t[q]) &&
    t'[nb].closed == t[nb].closed &&
    (Unseen(t, nb) ==> ChildOf(t'[nb], nb, cur, goal)) &&
    (!Unseen(t, nb) && t[cur].g == Inf ==> t'[nb] == t[nb])
  }

  lemma RelaxOneStep(t: Table, open: seq<Pos>, cur: Pos, nb: Pos, goal: Pos)
    requires cur in t && nb in t
    ensures OneStep(t, cur, nb, goal, RelaxNeighbor(t, open, cur, nb, goal).0)
    ensures RelaxNeighbor(t, open, cur, nb, goal).1 == open + if Unseen(t, nb) then [nb] else []
  {
  }

  /** Relaxing one more neighbour, not relaxed before and other than `cur`, extends the node changes. */
  lemma NodesEffectStep(t: Table, cur: Pos, nbs: seq<Pos>, goal: Pos, t1: Table, t': Table)
    requires |nbs| > 0 && cur in t && cur !in nbs && forall q :: q in nbs ==> q in t
    requires nbs[|nbs| - 1] !in nbs[..|nbs| - 1] && t1.Keys == t.Keys
    requires NodesEffect(t, cur, nbs[..|nbs| - 1], goal, t1)
    requires OneStep(t1, cur, nbs[|nbs| - 1], goal, t')
    ensures NodesEffect(t, cur, nbs, goal, t')
  {
    var init, last := nbs[..|nbs| - 1], nbs[|nbs| - 1];
    SplitLast(nbs);
    assert t1[last] == t[last] && t1[cur] == t[cur];
    forall q | q in Fresh(t, nbs)
      ensures ChildOf(t'[q], q, cur, goal)
    {
      if q != last {
        assert q in Fresh(t, init);
      }
    }
    forall q | q in t && q !in nbs
      ensures t'[q] == t[q]
    {
      assert q !in init && q != last;
    }
  }

  /** Relaxing one more neighbour, not relaxed before and other than `cur`, extends the effect. */
  lemma RelaxEffectStep(t: Table, open: seq<Pos>, cur: Pos, nbs: seq<Pos>, goal: Pos, t1: Table, open1: seq<Pos>,
                        t': Table, open': seq<Pos>)
    requires |nbs| > 0 && cur in t && cur !in nbs && forall q :: q in nbs ==> q in t
    requires nbs[|nbs| - 1] !in nbs[..|nbs| - 1]
    requires RelaxEffect(t, open, cur, nbs[..|nbs| - 1], goal, t1, open1)
    requires cur in t1 && nbs[|nbs| - 1] in t1 && OneStep(t1, cur, nbs[|nbs| - 1], goal, t')
    requires open' == open1 + if Unseen(t1, nbs[|nbs| - 1]) then [nbs[|nbs| - 1]] else []
    ensures RelaxEffect(t, open, cur, nbs, goal, t', open')
  {
    var last := nbs[|nbs| - 1];
    SplitLast(nbs);
    assert t1[last] == t[last];
    NodesEffectStep(t, cur, nbs, goal, t1, t');
  }

  /** Relaxing distinct neighbours of `cur`, other than `cur`, has `RelaxEffect`. */
  lemma {:induction false} RelaxFoldEffect(t: Table, open: seq<Pos>, cur: Pos, nbs: seq<Pos>, goal: Pos)
    requires cur in t && cur !in nbs && Distinct(nbs) && forall q :: q in nbs ==> q in t
    ensures RelaxEffect(t, open, cur, nbs, goal, RelaxFold(t, open, cur, nbs, goal).0, RelaxFold(t, open, cur, nbs, goal).1)
    decreases |nbs|
  {
    if nbs == [] {
      assert open + [] == open;
    } else {
      var init := nbs[..|nbs| - 1];
      SplitLast(nbs);
      RelaxFoldEffect(t, open, cur, init, goal);
      var r := RelaxFold(t, open, cur, init, goal);
      RelaxOneStep(r.0, r.1, cur, nbs[|nbs| - 1], goal);
      var r' := RelaxNeighbor(r.0, r.1, cur, nbs[|nbs| - 1], goal);
      RelaxEffectStep(t, open, cur, nbs, goal, r.0, r.1, r'.0, r'.1);
    }
  }

  /** The search trace along `RelaxFold`: each newly discovered neighbour is one level below `cur`. */
  ghost function DiscoverAll(t: Table, open: seq<Pos>, tr: Trace, cur: Pos, nbs: seq<Pos>, goal: Pos): Trace
    requires cur in t && forall q :: q in nbs ==> q in t
    decreases |nbs|
  {
    if nbs == [] then tr
    else
      var init := nbs[..|nbs| - 1];
      Discover(RelaxFold(t, open, cur, init, goal).0, DiscoverAll(t, open, tr, cur, init, goal), nbs[|nbs| - 1])
  }

  /** Relaxing any neighbours of `cur`, in any order, keeps the expansion `Midway`. */
  lemma {:induction false} RelaxAllMidway(grid: seq<seq<string>>, h: nat, w: nat, start: Pos, goal: Pos,
                                          t: Table, open: seq<Pos>, tr: Trace, cur: Pos, nbs: seq<Pos>)
    requires Inner(grid, h, w, start, goal, t, open, tr, cur, [])
    requires forall q :: q in nbs ==> InBounds(h, w, q) && Adjacent(cur, q)
    ensures cur in t && forall q :: q in nbs ==> q in t
    ensures Midway(grid, h, w, start, goal, t, open, RelaxFold(t, open, cur, nbs, goal).0,
                   RelaxFold(t, open, cur, nbs, goal).1, DiscoverAll(t, open, tr, cur, nbs, goal), cur, nbs)
    decreases |nbs|
  {
    if nbs == [] {
      assert open[..|open|] == open;
    } else {
      var init := nbs[..|nbs| - 1];
      var last := nbs[|nbs| - 1];
      SplitLast(nbs);
      RelaxAllMidway(grid, h, w, start, goal, t, open, tr, cur, init);
      var r := RelaxFold(t, open, cur, init, goal);
      RelaxStep(grid, h, w, start, goal, t, open, r.0, r.1, DiscoverAll(t, open, tr, cur, init, goal), cur, init, last);
    }
  }

  /**
   * The relaxation loop over the in-bounds neighbours of the node `cur`
   * being expanded. The neighbours seen for the first time are appended to
   * the open list in `getNeighbors` order, which fixes the order of the
   * first-in first-out queue and so which shortest path comes back.
   */
  method RelaxNeighbors(t: Table, open: seq<Pos>, cur: Pos, goal: Pos, h: nat, w: nat, ghost tr: Trace)
    returns (t': Table, open': seq<Pos>, ghost tr': Trace)
    requires cur in t && forall q :: q in Neighbors(h, w, cur) ==> q in t
    ensures t'.Keys == t.Keys
    ensures open' == open + Fresh(t, Neighbors(h, w, cur))
    ensures forall q :: q in t ==> t'[q].closed == t[q].closed
    ensures forall q :: q in Fresh(t, Neighbors(h, w, cur)) ==> ChildOf(t'[q], q, cur, goal)
    // only neighbours change, and with `cur`'s G infinite only the unseen ones
    ensures forall q :: q in t && q !in Neighbors(h, w, cur) ==> t'[q] == t[q]
    ensures t[cur].g == Inf ==> forall q :: q in t && !Unseen(t, q) ==> t'[q] == t[q]
    // the loop is the fold of single relaxations, which the invariant lemmas follow
    ensures (t', open') == RelaxFold(t, open, cur, Neighbors(h, w, cur), goal)
    ensures tr' == DiscoverAll(t, open, tr, cur, Neighbors(h, w, cur), goal)
  {
    assert !Adjacent(cur, cur);
    RelaxFoldEffect(t, open, cur, Neighbors(h, w, cur), goal);
    var nbrs := Neighbors(h, w, cur);
    t', open', tr' := t, open, tr;
    var i := 0;
    while i < |nbrs|
      invariant i <= |nbrs|
      invariant (t', open') == RelaxFold(t, open, cur, nbrs[..i], goal)
      invariant tr' == DiscoverAll(t, open, tr, cur, nbrs[..i], goal)
    {
      var nb := nbrs[i];
      PrefixStep(nbrs, i);
      tr' := Discover(t', tr', nb);
      var r := RelaxNeighbor(t', open', cur, nb, goal);
      t', open' := r.0, r.1;
      i := i + 1;
    }
    PrefixStep(nbrs, i);
  }

  /**
   * Expanding `cur` after it is closed: nodes are only appended to the open
   * list, no `closed` flag changes, and the main loop's invariant is restored.
   */
  method ExpandNeighbors(t: Table, open: seq<Pos>, cur: Pos, goal: Pos, h: nat, w: nat,
                         ghost grid: seq<seq<string>>, ghost start: Pos, ghost tr: Trace)
    returns (t': Table, open': seq<Pos>, ghost tr': Trace)
    requires InBounds(h, w, cur)
    requires Inner(grid, h, w, start, goal, t, open, tr, cur, [])
    ensures t'.Keys == t.Keys && |open| <= |open'| && open'[..|open|] == open
    ensures Expanded(grid, h, w, start, goal, t, open, t', open', tr')
  {
    RelaxAllMidway(grid, h, w, start, goal, t, open, tr, cur, Neighbors(h, w, cur));
    t', open', tr' := RelaxNeighbors(t, open, cur, goal, h, w, tr);
    Finished(grid, h, w, start, goal, t, open, t', open', tr', cur, Neighbors(h, w, cur));
  }

  /**
   * A finished expansion, compared with the table `t0` and open list `open0`
   * it started from: the main loop's invariant holds again, the keys and the
   * closed set are the same and the open list has only grown at its end.
   */
  ghost predicate Expanded(grid: seq<seq<string>>, h: nat, w: nat, start: Pos, goal: Pos, t0: Table, open0: seq<Pos>,
                           t: Table, open: seq<Pos>, tr: Trace)
  {
    Outer(grid, h, w, start, goal, t, open, tr) &&
    t.Keys == t0.Keys && ClosedSet(t) == ClosedSet(t0) &&
    |open0| <= |open| && open[..|open0|] == open0
  }

  /** Once every neighbour is relaxed, the expansion restores the main loop's invariant. */
  lemma Finished(grid: seq<seq<string>>, h: nat, w: nat, start: Pos, goal: Pos, t0: Table, open0: seq<Pos>,
                 t: Table, open: seq<Pos>, tr: Trace, cur: Pos, done: seq<Pos>)
    requires Midway(grid, h, w, start, goal, t0, open0, t, open, tr, cur, done) && done == Neighbors(h, w, cur)
    ensures Expanded(grid, h, w, start, goal, t0, open0, t, open, tr)
  {
    Finish(grid, h, w, start, goal, t, open, tr, cur, done);
  }

  /** One relaxation keeps the keys and only appends to the open list. */
  lemma RelaxKeeps(t0: Table, open0: seq<Pos>, t: Table, open: seq<Pos>, cur: Pos, nb: Pos, goal: Pos)
    requires cur in t && nb in t
    requires t.Keys == t0.Keys
    requires |open0| <= |open| && open[..|open0|] == open0
    ensures RelaxNeighbor(t, open, cur, nb, goal).0.Keys == t0.Keys
    ensures |open0| <= |RelaxNeighbor(t, open, cur, nb, goal).1|
    ensures RelaxNeighbor(t, open, cur, nb, goal).1[..|open0|] == open0
  {
    var r := RelaxNeighbor(t, open, cur, nb, goal);
    if r.1 != open {
      assert r.1[..|open0|] == open[..|open0|];
    }
  }

  /** A sequence is its longest prefix followed by its last element. */
  lemma SplitLast<T>(s: seq<T>)
    requires |s| > 0
    ensures s[..|s| - 1] + [s[|s| - 1]] == s
    ensures forall x :: x in s[..|s| - 1] ==> x in s
  {
  }

  lemma PrefixStep<T>(s: seq<T>, i: nat)
    requires i <= |s|
    ensures i < |s| ==> s[..i + 1][..i] == s[..i] && s[..i + 1][i] == s[i]
    ensures i == |s| ==> s[..i] == s
  {
  }

  /* The search. */

  /** A subset is no larger, and strictly smaller when it misses an element. */
  lemma SubsetSize(a: set<Pos>, b: set<Pos>, x: Pos)
    requires a <= b
    ensures |a| <= |b|
    ensures x in b && x !in a ==> |a| < |b|
  {
    assert b == a + (b - a);
    if x in b && x !in a {
      assert x in b - a;
    }
  }

  /**
   * One pass of the main loop that does not stop: removes the best node (the
   * head, by `FifoSelection`) from the open list, closes it and relaxes its
   * neighbours.
   */
  method ExpandBest(t: Table, open: seq<Pos>, best: nat, goal: Pos, h: nat, w: nat,
                    ghost grid: seq<seq<string>>, ghost start: Pos, ghost tr: Trace)
    returns (t': Table, open': seq<Pos>, ghost tr': Trace)
    requires Outer(grid, h, w, start, goal, t, open, tr) && FirstMinimum(t, open, best) && open[best] != goal
    ensures t'.Keys == t.Keys
    ensures open[best] in t && !t[open[best]].closed && t'[open[best]].closed
    ensures ClosedSet(t') == ClosedSet(t) + {open[best]} && |ClosedSet(t')| == |ClosedSet(t)| + 1
    ensures Outer(grid, h, w, start, goal, t', open', tr')
  {
    FifoSelection(t, open, best);
    var cur := open[best];
    var rest := open[..best] + open[best + 1..];
    assert rest == open[1..];
    Close(grid, h, w, start, goal, t, open, tr);
    ClosingCounts(t, cur);
    t', open', tr' := ExpandNeighbors(CloseNode(t, cur), rest, cur, goal, h, w, grid, start, Pop(tr, open));
  }

  /** What the search promises once the goal heads the open list and its path is rebuilt. */
  lemma FoundAnswer(grid: seq<seq<string>>, h: nat, w: nat, start: Pos, goal: Pos, t: Table, open: seq<Pos>, tr: Trace,
                    path: seq<Pos>)
    requires Outer(grid, h, w, start, goal, t, open, tr) && |open| > 0 && open[0] == goal
    requires IsWalk(grid, h, w, start, path) && EndsAt(start, path, goal) && start !in path
    requires |path| == tr.dep[goal]
    ensures path != [] ==> path[|path| - 1] == goal
    ensures path == [] <==> start == goal || !Reachable(grid, h, w, start, goal)
    ensures forall steps :: IsWalk(grid, h, w, start, steps) && EndsAt(start, steps, goal) ==> |path| <= |steps|
  {
    PathEnds(grid, h, w, start, goal, path);
    GoalOptimal(grid, h, w, start, goal, t, open, tr);
  }

  /**
   * A walk to `goal` that leaves out its start is empty exactly when the
   * start is the goal or the goal cannot be reached.
   */
  lemma PathEnds(grid: seq<seq<string>>, h: nat, w: nat, start: Pos, goal: Pos, path: seq<Pos>)
    requires WellFormed(grid, h, w)
    requires IsWalk(grid, h, w, start, path) && EndsAt(start, path, goal) && start !in path
    ensures path != [] ==> path[|path| - 1] == goal
    ensures path == [] <==> start == goal || !Reachable(grid, h, w, start, goal)
  {
    assert Reachable(grid, h, w, start, goal);
  }

  /**
   * `aStar(grid, startY, startX, endY, endX)`. The cells of the returned path
   * are positions where the source returns the node records at those
   * positions. `rounds` counts the rounds of the main loop, the one that
   * returns the path included.
   */
  method Search(grid: seq<seq<string>>, h: nat, w: nat, startY: int, startX: int, endY: int, endX: int)
    returns (path: seq<Pos>, rounds: nat)
    requires WellFormed(grid, h, w) && InBounds(h, w, Pos(startY, startX))
    // a non-empty path is a walk through non-wall cells from the start to the goal
    ensures path != [] ==> IsWalk(grid, h, w, Pos(startY, startX), path) && path[|path| - 1] == Pos(endY, endX)
    ensures Pos(startY, startX) !in path
    // the empty path means the start is the goal, or the goal cannot be reached
    ensures path == [] <==> Pos(startY, startX) == Pos(endY, endX) || !Reachable(grid, h, w, Pos(startY, startX), Pos(endY, endX))
    // no walk to the goal is shorter
    ensures forall steps :: IsWalk(grid, h, w, Pos(startY, startX), steps) && EndsAt(Pos(startY, startX), steps, Pos(endY, endX))
                            ==> |path| <= |steps|
    // each round but the last closes a node, and the goal is never closed
    ensures rounds <= h * w
  {
    var start := Pos(startY, startX);
    var goal := Pos(endY, endX);
    var t := InitTable(grid, h, w);
    var open := [start];
    ghost var tr := Trace(map[start := 0], 0, 1);
    Init(grid, h, w, start, goal);
    TableSize(grid, h, w, t);
    ghost var keys := t.Keys;
    rounds := 0;
    while |open| > 0
      invariant Outer(grid, h, w, start, goal, t, open, tr)
      invariant t.Keys == keys && |keys| == h * w
      invariant rounds == |ClosedSet(t)| <= |keys|
      decreases |keys| - rounds
    {
      var best := BestIndex(t, open);
      var cur := open[best];
      if t[cur].y == endY && t[cur].x == endX {
        FifoSelection(t, open, best);
        SubsetSize(ClosedSet(t), keys, cur);
        rounds := rounds + 1;
        path := Reconstruct(t, cur, grid, h, w, start, tr.dep);
        FoundAnswer(grid, h, w, start, goal, t, open, tr, path);
        return;
      }
      t, open, tr := ExpandBest(t, open, best, goal, h, w, grid, start, tr);
      SubsetSize(ClosedSet(t), keys, cur);
      rounds := rounds + 1;
    }
    ExhaustedUnreachable(grid, h, w, start, goal, t, tr);
    path := [];
  }
}

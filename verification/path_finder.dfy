/** The goal-rooted search of src/path_finder.rs (`build_search_three`): a
    breadth-first flood from the goal cell over 4-neighbours that records, for
    every cell it pops for the first time, the cell it was reached from. */
module PathFinder {
  import opened GridMap

  /** The search stops once its counter exceeds this many iterations. */
  const MaxIterations: nat := 100000

  /** A queue entry: a cell and the already-visited cell it was reached from. */
  datatype Entry = Entry(cell: Cell, pred: Cell)

  /** Which of the three returns of the search loop was taken. */
  datatype StopReason = AllFound | QueueEmpty | BudgetExceeded

  /** The four orthogonal neighbours, in the order the source pushes them. */
  function Neighbours(c: Cell): seq<Cell> {
    [(c.0 - 1, c.1), (c.0 + 1, c.1), (c.0, c.1 - 1), (c.0, c.1 + 1)]
  }

  predicate Adjacent(a: Cell, b: Cell) {
    b in Neighbours(a)
  }

  lemma AdjacentSymmetric(a: Cell, b: Cell)
    ensures Adjacent(a, b) <==> Adjacent(b, a)
  {
  }

  /** The entries pushed when a moveable cell is expanded. */
  function Expansions(c: Cell): (es: seq<Entry>)
    ensures |es| == 4
    ensures forall i :: 0 <= i < 4 ==> es[i].cell == Neighbours(c)[i] && es[i].pred == c
  {
    var ns := Neighbours(c);
    [Entry(ns[0], c), Entry(ns[1], c), Entry(ns[2], c), Entry(ns[3], c)]
  }

  /** The cells waiting in the queue. */
  function Pending(q: seq<Entry>): set<Cell> {
    if q == [] then {} else {q[0].cell} + Pending(q[1..])
  }

  lemma {:induction false} PendingAppend(a: seq<Entry>, b: seq<Entry>)
    ensures Pending(a + b) == Pending(a) + Pending(b)
    decreases |a|
  {
    if a == [] {
      assert a + b == b;
    } else {
      assert (a + b)[1..] == a[1..] + b;
      PendingAppend(a[1..], b);
    }
  }

  lemma PendingExpansions(c: Cell)
    ensures Pending(Expansions(c)) == {Neighbours(c)[0], Neighbours(c)[1], Neighbours(c)[2], Neighbours(c)[3]}
  {
    var es := Expansions(c);
    assert Pending(es[3..]) == {es[3].cell} by {
      assert es[3..][1..] == [];
    }
    assert Pending(es[2..]) == {es[2].cell} + Pending(es[3..]) by {
      assert es[2..][1..] == es[3..];
    }
    assert Pending(es[1..]) == {es[1].cell} + Pending(es[2..]) by {
      assert es[1..][1..] == es[2..];
    }
  }

  /** The "add stuff to queue" step for a popped entry `e`, with `rest` the
      queue after the pop: the first pop of a cell records its predecessor and,
      if the cell is moveable, pushes its four neighbours; any later pop of the
      same cell changes nothing. */
  function Visit(m: Map, tree: map<Cell, Cell>, rest: seq<Entry>, e: Entry): (res: (map<Cell, Cell>, seq<Entry>))
    requires Valid(m)
    ensures e.cell in tree ==> res == (tree, rest)
    ensures res.0.Keys == tree.Keys + {e.cell}
    ensures forall c :: c in tree ==> res.0[c] == tree[c]
    ensures e.cell !in tree ==> res.0[e.cell] == e.pred
    ensures res.1 == rest || (e.cell !in tree && PointMoveable(m, e.cell) && res.1 == rest + Expansions(e.cell))
    ensures e.cell !in tree && PointMoveable(m, e.cell) ==> res.1 == rest + Expansions(e.cell)
  {
    if e.cell !in tree then
      var tree' := tree[e.cell := e.pred];
      if PointMoveable(m, e.cell) then
        (tree', rest + Expansions(e.cell))
      else
        (tree', rest)
    else
      (tree, rest)
  }

  predicate AllIn(starts: seq<Cell>, tree: map<Cell, Cell>) {
    forall s :: s in starts ==> s in tree
  }

  /** Following predecessor links from `c` for at most `fuel` steps, stopping
      at the goal. */
  function Follow(tree: map<Cell, Cell>, goal: Cell, c: Cell, fuel: nat): Cell
    decreases fuel
  {
    if c == goal || fuel == 0 || c !in tree then c else Follow(tree, goal, tree[c], fuel - 1)
  }

  /** A non-goal key's predecessor is a moveable key one orthogonal step away. */
  predicate TreeEdge(m: Map, tree: map<Cell, Cell>, c: Cell)
    requires Valid(m)
    requires c in tree
  {
    tree[c] in tree && Adjacent(c, tree[c]) && PointMoveable(m, tree[c])
  }

  /** Every moveable key has all four neighbours in the tree. */
  predicate Closed(m: Map, tree: map<Cell, Cell>)
    requires Valid(m)
  {
    forall c :: c in tree && PointMoveable(m, c) ==>
      var ns := Neighbours(c); ns[0] in tree && ns[1] in tree && ns[2] in tree && ns[3] in tree
  }

  predicate Settled(tree: map<Cell, Cell>, q: seq<Entry>, n: Cell) {
    n in tree || n in Pending(q)
  }

  /** Every neighbour of a moveable key is either a key or still queued. */
  predicate Covered(m: Map, tree: map<Cell, Cell>, q: seq<Entry>)
    requires Valid(m)
  {
    forall c :: c in tree && PointMoveable(m, c) ==>
      var ns := Neighbours(c);
      Settled(tree, q, ns[0]) && Settled(tree, q, ns[1]) && Settled(tree, q, ns[2]) && Settled(tree, q, ns[3])
  }

  /** Each key has an insertion rank below the tree's size, and every
      predecessor was inserted strictly before the cell pointing to it. */
  ghost predicate Ranked(goal: Cell, tree: map<Cell, Cell>, rank: map<Cell, nat>) {
    && rank.Keys == tree.Keys
    && (forall c :: c in tree ==> rank[c] < |tree|)
    && (forall c :: c in tree && c != goal ==> tree[c] in tree && rank[tree[c]] < rank[c])
  }

  /** The loop invariant after the first iteration. */
  ghost predicate SearchInv(m: Map, goal: Cell, tree: map<Cell, Cell>, q: seq<Entry>, rank: map<Cell, nat>)
    requires Valid(m)
  {
    && goal in tree && tree[goal] == goal
    && Ranked(goal, tree, rank)
    && (forall c :: c in tree && c != goal ==> TreeEdge(m, tree, c))
    && (forall i :: 0 <= i < |q| ==> q[i].pred in tree && Adjacent(q[i].cell, q[i].pred) && PointMoveable(m, q[i].pred))
    && Covered(m, tree, q)
  }

  /** The queue part of the invariant survives one insertion. */
  lemma VisitKeepsQueue(m: Map, tree: map<Cell, Cell>, rest: seq<Entry>, e: Entry)
    requires Valid(m)
    requires forall i :: 0 <= i < |rest| ==> rest[i].pred in tree && Adjacent(rest[i].cell, rest[i].pred) && PointMoveable(m, rest[i].pred)
    ensures var (tree', q') := Visit(m, tree, rest, e);
      forall i :: 0 <= i < |q'| ==> q'[i].pred in tree' && Adjacent(q'[i].cell, q'[i].pred) && PointMoveable(m, q'[i].pred)
  {
    var (tree', q') := Visit(m, tree, rest, e);
    forall i | 0 <= i < |q'|
      ensures q'[i].pred in tree' && Adjacent(q'[i].cell, q'[i].pred) && PointMoveable(m, q'[i].pred)
    {
      if i < |rest| {
        assert q'[i] == rest[i];
      } else {
        assert q'[i] == Expansions(e.cell)[i - |rest|];
      }
    }
  }

  /** The coverage part of the invariant survives one insertion. */
  lemma VisitKeepsCovered(m: Map, tree: map<Cell, Cell>, rest: seq<Entry>, e: Entry)
    requires Valid(m)
    requires Covered(m, tree, [e] + rest)
    ensures Covered(m, Visit(m, tree, rest, e).0, Visit(m, tree, rest, e).1)
  {
    var (tree', q') := Visit(m, tree, rest, e);
    var q := [e] + rest;
    assert q[1..] == rest;
    assert Pending(q) == {e.cell} + Pending(rest);
    PendingAppend(rest, Expansions(e.cell));
    PendingExpansions(e.cell);
    assert Pending(rest) <= Pending(q');
    forall c | c in tree' && PointMoveable(m, c)
      ensures var ns := Neighbours(c);
        Settled(tree', q', ns[0]) && Settled(tree', q', ns[1]) && Settled(tree', q', ns[2]) && Settled(tree', q', ns[3])
    {
      if c in tree {
        var ns := Neighbours(c);
        assert Settled(tree, q, ns[0]) && Settled(tree, q, ns[1]) && Settled(tree, q, ns[2]) && Settled(tree, q, ns[3]);
      }
    }
  }

  /** The rank part of the invariant survives one insertion. */
  lemma VisitKeepsRanked(m: Map, goal: Cell, tree: map<Cell, Cell>, rest: seq<Entry>, e: Entry, rank: map<Cell, nat>)
    requires Valid(m)
    requires Ranked(goal, tree, rank)
    requires e.cell != goal ==> e.pred in tree
    requires e.cell == goal ==> e.cell in tree || e.pred == goal
    ensures Ranked(goal, Visit(m, tree, rest, e).0, if e.cell in tree then rank else rank[e.cell := |tree|])
  {
    var tree' := Visit(m, tree, rest, e).0;
    if e.cell !in tree {
      var rank' := rank[e.cell := |tree|];
      assert tree' == tree[e.cell := e.pred];
      assert |tree'| == |tree| + 1;
      assert rank'.Keys == tree'.Keys;
      forall c | c in tree'
        ensures rank'[c] < |tree'|
      {
        if c != e.cell {
          assert rank'[c] == rank[c];
        }
      }
      forall c | c in tree' && c != goal
        ensures tree'[c] in tree' && rank'[tree'[c]] < rank'[c]
      {
        if c == e.cell {
          assert tree'[c] == e.pred && e.pred in tree;
          assert rank'[e.pred] == rank[e.pred];
        } else {
          assert tree'[c] == tree[c] && tree[c] in tree;
          assert rank'[c] == rank[c];
          assert tree[c] != e.cell;
          assert rank'[tree[c]] == rank[tree[c]];
        }
      }
    }
  }

  /** The tree-edge part of the invariant survives one insertion. */
  lemma VisitKeepsEdges(m: Map, goal: Cell, tree: map<Cell, Cell>, rest: seq<Entry>, e: Entry)
    requires Valid(m)
    requires goal in tree
    requires forall c :: c in tree && c != goal ==> TreeEdge(m, tree, c)
    requires e.pred in tree && Adjacent(e.cell, e.pred) && PointMoveable(m, e.pred)
    ensures var tree' := Visit(m, tree, rest, e).0;
      forall c :: c in tree' && c != goal ==> TreeEdge(m, tree', c)
  {
    var tree' := Visit(m, tree, rest, e).0;
    forall c | c in tree' && c != goal
      ensures TreeEdge(m, tree', c)
    {
      if c in tree {
        assert TreeEdge(m, tree, c);
      }
    }
  }

  /** The first iteration pops the goal and establishes the invariant. */
  lemma VisitInitial(m: Map, goal: Cell)
    requires Valid(m)
    ensures var (tree', q') := Visit(m, map[], [], Entry(goal, goal));
      SearchInv(m, goal, tree', q', map[goal := 0])
  {
    var (tree', q') := Visit(m, map[], [], Entry(goal, goal));
    var rank := map[goal := 0];
    assert tree' == map[goal := goal];
    assert Ranked(goal, tree', rank);
    assert forall c :: c in tree' && c != goal ==> TreeEdge(m, tree', c);
    if PointMoveable(m, goal) {
      assert q' == Expansions(goal) by {
        assert [] + Expansions(goal) == Expansions(goal);
      }
      assert forall i :: 0 <= i < |q'| ==> q'[i].pred == goal && Adjacent(q'[i].cell, goal);
      PendingExpansions(goal);
      assert Covered(m, tree', q');
    } else {
      assert q' == [];
      assert Covered(m, tree', q');
    }
  }

  /** A later iteration keeps the invariant. */
  lemma VisitStep(m: Map, goal: Cell, tree: map<Cell, Cell>, rest: seq<Entry>, e: Entry, rank: map<Cell, nat>)
    requires Valid(m)
    requires SearchInv(m, goal, tree, [e] + rest, rank)
    ensures SearchInv(m, goal, Visit(m, tree, rest, e).0, Visit(m, tree, rest, e).1,
                      if e.cell in tree then rank else rank[e.cell := |tree|])
  {
    var q := [e] + rest;
    assert q[0] == e;
    assert forall i :: 0 <= i < |rest| ==> rest[i] == q[i + 1];
    VisitKeepsRanked(m, goal, tree, rest, e, rank);
    VisitKeepsEdges(m, goal, tree, rest, e);
    VisitKeepsQueue(m, tree, rest, e);
    VisitKeepsCovered(m, tree, rest, e);
  }

  /** With insertion ranks, following predecessors from a key reaches the goal
      within its rank. */
  lemma {:induction false} RankedFollowReachesGoal(goal: Cell, tree: map<Cell, Cell>, rank: map<Cell, nat>, c: Cell, fuel: nat)
    requires Ranked(goal, tree, rank)
    requires c in tree && rank[c] <= fuel
    ensures Follow(tree, goal, c, fuel) == goal
    decreases fuel
  {
    if c != goal {
      RankedFollowReachesGoal(goal, tree, rank, tree[c], fuel - 1);
    }
  }

  lemma RankedTreeReachesGoal(goal: Cell, tree: map<Cell, Cell>, rank: map<Cell, nat>)
    requires Ranked(goal, tree, rank)
    ensures forall c :: c in tree ==> Follow(tree, goal, c, |tree|) == goal
  {
    forall c | c in tree
      ensures Follow(tree, goal, c, |tree|) == goal
    {
      RankedFollowReachesGoal(goal, tree, rank, c, |tree|);
    }
  }

  /** An empty queue leaves every pending neighbour settled in the tree. */
  lemma CoveredEmptyIsClosed(m: Map, tree: map<Cell, Cell>)
    requires Valid(m)
    requires Covered(m, tree, [])
    ensures Closed(m, tree)
  {
  }

  /** `build_search_three`: the goal-rooted search. Besides the map the source
      returns, the model reports which return was taken and how many loop
      iterations ran. */
  method BuildSearchTree(m: Map, goal: Cell, starts: seq<Cell>)
    returns (tree: map<Cell, Cell>, reason: StopReason, iterations: nat)
    requires Valid(m)
    ensures goal in tree && tree[goal] == goal
    ensures forall c :: c in tree && c != goal ==> TreeEdge(m, tree, c)
    ensures forall c :: c in tree ==> Follow(tree, goal, c, |tree|) == goal
    ensures reason == AllFound <==> AllIn(starts, tree)
    ensures reason == QueueEmpty ==> Closed(m, tree)
    ensures 1 <= iterations <= MaxIterations + 1
    ensures reason == BudgetExceeded ==> iterations == MaxIterations + 1
    ensures |starts| == 0 ==> tree == map[goal := goal] && iterations == 1 && reason == AllFound
    ensures !PointMoveable(m, goal) ==> tree == map[goal := goal]
  {
    tree := map[];
    var queue := [Entry(goal, goal)];
    var counter: nat := 0;
    ghost var rank: map<Cell, nat> := map[];
    while true
      invariant counter <= MaxIterations
      invariant counter == 0 ==> tree == map[] && queue == [Entry(goal, goal)] && rank == map[]
      invariant counter > 0 ==> SearchInv(m, goal, tree, queue, rank) && !AllIn(starts, tree)
      invariant counter > 0 && !PointMoveable(m, goal) ==> tree == map[goal := goal] && queue == []
      decreases MaxIterations - counter
    {
      if queue == [] {
        reason := QueueEmpty;
        iterations := counter + 1;
        RankedTreeReachesGoal(goal, tree, rank);
        CoveredEmptyIsClosed(m, tree);
        return;
      }
      var e := queue[0];
      var rest := queue[1..];
      assert queue == [e] + rest;
      if counter == 0 {
        VisitInitial(m, goal);
      } else {
        VisitStep(m, goal, tree, rest, e, rank);
      }
      rank := if e.cell in tree then rank else rank[e.cell := |tree|];
      var visited := Visit(m, tree, rest, e);
      tree, queue := visited.0, visited.1;

      if AllIn(starts, tree) {
        reason := AllFound;
        iterations := counter + 1;
        RankedTreeReachesGoal(goal, tree, rank);
        return;
      }

      counter := counter + 1;
      if counter > MaxIterations {
        reason := BudgetExceeded;
        iterations := counter;
        RankedTreeReachesGoal(goal, tree, rank);
        return;
      }
    }
  }

  /** A walk of orthogonal steps from `path[0]` whose cells before the last
      are all moveable. */
  predicate MoveableWalk(m: Map, path: seq<Cell>)
    requires Valid(m)
  {
    && |path| >= 1
    && (forall i :: 0 <= i < |path| - 1 ==> PointMoveable(m, path[i]) && Adjacent(path[i], path[i + 1]))
  }

  /** When the search stopped because the queue ran dry, every cell reachable
      from a key through moveable cells is itself a key; a start missing from
      such a tree is unreachable from the goal. */
  lemma {:induction false} ClosedTreeHoldsReachable(m: Map, tree: map<Cell, Cell>, path: seq<Cell>)
    requires Valid(m)
    requires Closed(m, tree)
    requires MoveableWalk(m, path) && path[0] in tree
    ensures path[|path| - 1] in tree
    decreases |path|
  {
    if |path| > 1 {
      assert path[1] in tree by {
        assert PointMoveable(m, path[0]) && Adjacent(path[0], path[1]);
      }
      ClosedTreeHoldsReachable(m, tree, path[1..]);
    }
  }
}

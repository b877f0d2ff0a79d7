/** AStarAlgorithm: the A* search over a Grid, with the Manhattan heuristic,
    a frontier polled by least f and a closed set keyed by coordinates. The
    method FindPath runs on the grid's nodes and is proved against the
    value-level invariant of AStarSpec. */
module AStar {
  import opened Common
  import opened Nodes
  import opened Grids
  import opened AStarSpec

  /** The search problem a call poses: the grid's open cells, the cells of
      the two endpoints, and the node weights as they were before the call. */
  ghost function ProblemOf(G: Grid, start: Node, goal: Node, s: NodeMap): Problem
    reads G.walls
  {
    Problem(G.OpenCells(), start.Pos(), goal.Pos(), WeightsOf(s))
  }

  /** Both endpoints are given, inside the grid and not walls: the cases in
      which findPath searches at all. */
  ghost predicate Searchable(G: Grid, start: Node?, goal: Node?)
    reads G.walls
  {
    start != null && goal != null && start.Pos() in G.OpenCells() && goal.Pos() in G.OpenCells()
  }

  /** The Manhattan heuristic never overestimates: with positive weights,
      every walk from a to the goal costs at least Heuristic(a, goal). */
  lemma HeuristicAdmissible(P: Problem, a: Node, goal: Node, w: seq<Cell>)
    requires PositiveWeights(P) && goal.Pos() == P.goal
    requires IsWalkBetween(P.open, w, a.Pos(), P.goal)
    ensures AStarAlgorithm.Heuristic(a, goal) <= WalkCost(P.weights, w)
  {
    WalkSpan(P.open, w);
    WalkCostAtLeastSteps(P.weights, w);
  }

  /** The heuristic is consistent: one step changes it by at most one. */
  lemma HeuristicConsistent(a: Node, b: Node, goal: Node)
    requires Adjacent(a.Pos(), b.Pos())
    ensures AStarAlgorithm.Heuristic(a, goal) <= 1 + AStarAlgorithm.Heuristic(b, goal)
  {
    ManhattanTriangle(a.Pos(), b.Pos(), goal.Pos());
  }

  /** The nodes at the ends of a search result are the endpoint nodes
      themselves: cells identify the grid's nodes. */
  lemma ResultEndpoints(G: Grid, P: Problem, s: NodeMap, start: Node, goal: Node,
                        path: seq<Node>, explored: seq<Node>)
    requires G.Indexed() && start in G.NodeSet && goal in G.NodeSet
    requires forall k :: 0 <= k < |path| ==> path[k] in G.NodeSet
    requires forall k :: 0 <= k < |explored| ==> explored[k] in G.NodeSet
    requires P.start == start.Pos() && P.goal == goal.Pos()
    requires SearchResult(P, s, Positions(path), Positions(explored))
    ensures path != [] ==> path[0] == start && path[|path| - 1] == goal
    ensures start == goal ==> path == [start] && explored == [start]
  {
    if path != [] {
      SameCellSameNode(G, path[0], start);
      SameCellSameNode(G, path[|path| - 1], goal);
    }
    if start == goal {
      SameCellSameNode(G, explored[0], start);
    }
  }

  /** The state of the main loop of findPath: the grid's nodes hold the
      node map s, the frontier and the explored list hold the cells q and
      trace, the visit counter is one past the explored count, and the
      search invariant holds. */
  ghost predicate Searching(G: Grid, goal: Node, P: Problem, open: seq<Node>, explored: seq<Node>,
                            closed: set<Cell>, visitCounter: int, s: NodeMap, q: seq<Cell>,
                            trace: seq<Cell>, from: Cell)
    reads G, G.nodes, G.walls, G.NodeSet
  {
    && G.Valid() && G.Indexed() && G.OpenCells() == P.open && goal.Pos() == P.goal
    && G.Snapshot() == s && Positions(open) == q && Positions(explored) == trace
    && (forall k :: 0 <= k < |open| ==> open[k] in G.NodeSet)
    && (forall k :: 0 <= k < |explored| ==> explored[k] in G.NodeSet)
    && visitCounter == |trace| + 1
    && Inv(P, s, q, closed, trace, from, [])
    && Ordered(P, s, q, trace, from)
  }

  /** The state of the loop over the neighbours of `current`: as Searching,
      with the neighbours in `pending` still to be relaxed. */
  ghost predicate Relaxing(G: Grid, current: Node, goal: Node, P: Problem, open: seq<Node>,
                           closed: set<Cell>, s: NodeMap, q: seq<Cell>, trace: seq<Cell>,
                           pending: seq<Cell>)
    reads G, G.nodes, G.walls, G.NodeSet
  {
    && G.Valid() && G.Indexed() && G.OpenCells() == P.open
    && current in G.NodeSet && goal.Pos() == P.goal
    && (forall k :: 0 <= k < |open| ==> open[k] in G.NodeSet)
    && G.Snapshot() == s && Positions(open) == q
    && Inv(P, s, q, closed, trace, current.Pos(), pending)
    && Ordered(P, s, q, trace, current.Pos())
  }

  /** A cell other than the goal was polled from the frontier q as the
      entry with least f, stamped in the grid, and removed from `open`. */
  ghost predicate Polling(G: Grid, current: Node, goal: Node, P: Problem, open: seq<Node>,
                          closed: set<Cell>, s: NodeMap, q: seq<Cell>, trace: seq<Cell>, from: Cell, i: int)
    reads G, G.nodes, G.walls, G.NodeSet
  {
    && G.Valid() && G.Indexed() && G.OpenCells() == P.open
    && current in G.NodeSet && goal.Pos() == P.goal
    && (forall k :: 0 <= k < |open| ==> open[k] in G.NodeSet)
    && Inv(P, s, q, closed, trace, from, []) && Ordered(P, s, q, trace, from) && IsMinF(s, q, i)
    && current.Pos() == q[i] && q[i] != P.goal
    && G.Snapshot() == Visited(s, q[i], |trace| + 1) && Positions(open) == RemoveAt(q, i)
  }

  /** Closing the polled cell q[i] (already stamped in the grid) starts
      the loop over its open neighbours. */
  lemma EnterRelaxing(G: Grid, current: Node, goal: Node, P: Problem, open: seq<Node>,
                      closed: set<Cell>, s: NodeMap, q: seq<Cell>, trace: seq<Cell>, from: Cell, i: int)
    requires Polling(G, current, goal, P, open, closed, s, q, trace, from, i)
    ensures Relaxing(G, current, goal, P, open, closed + {q[i]}, Visited(s, q[i], |trace| + 1),
                     RemoveAt(q, i), trace + [q[i]], NeighborCells(P.open, q[i]))
    ensures q[i] in P.open - closed
  {
    CloseStep(P, s, q, closed, trace, from, i);
    OrderedClose(P, s, q, closed, trace, from, i);
  }

  /** A neighbour that is closed or not improved leaves the state as it is. */
  lemma KeepRelaxing(G: Grid, current: Node, goal: Node, P: Problem, open: seq<Node>,
                     closed: set<Cell>, s: NodeMap, q: seq<Cell>, trace: seq<Cell>, pending: seq<Cell>)
    requires Relaxing(G, current, goal, P, open, closed, s, q, trace, pending) && pending != []
    requires pending[0] in closed ||
             (pending[0] in s && !s[current.Pos()].g.Plus(Finite(s[pending[0]].weight)).Less(s[pending[0]].g))
    ensures Relaxing(G, current, goal, P, open, closed, s, q, trace, pending[1..])
  {
    KeepStep(P, s, q, closed, trace, current.Pos(), pending);
  }

  /** Improving the pending neighbour nb through `current` to g = t keeps
      both invariants for the new node map and the re-queued frontier. */
  lemma ImproveRelaxing(G: Grid, current: Node, goal: Node, P: Problem, open: seq<Node>,
                        closed: set<Cell>, s: NodeMap, q: seq<Cell>, trace: seq<Cell>,
                        pending: seq<Cell>, nb: Cell, t: int)
    requires Relaxing(G, current, goal, P, open, closed, s, q, trace, pending)
    requires pending != [] && nb == pending[0] && nb !in closed && nb in s
    requires s[current.Pos()].g.Plus(Finite(s[nb].weight)).Less(s[nb].g)
    requires s[current.Pos()].g.Finite? && t == s[current.Pos()].g.value + s[nb].weight
    ensures Inv(P, Improved(s, nb, current.Pos(), t, P.goal), RemoveFirst(q, nb) + [nb], closed, trace,
                current.Pos(), pending[1..])
    ensures Ordered(P, Improved(s, nb, current.Pos(), t, P.goal), RemoveFirst(q, nb) + [nb], trace, current.Pos())
  {
    ImproveStep(P, s, q, closed, trace, current.Pos(), pending, nb, t);
    OrderedImprove(P, s, q, closed, trace, current.Pos(), pending, nb, t);
  }

  /** All neighbours relaxed: the main loop goes on from `current`. */
  lemma LeaveRelaxing(G: Grid, current: Node, goal: Node, P: Problem, open: seq<Node>,
                      explored: seq<Node>, closed: set<Cell>, visitCounter: int, s: NodeMap,
                      q: seq<Cell>, trace: seq<Cell>)
    requires Relaxing(G, current, goal, P, open, closed, s, q, trace, [])
    requires Positions(explored) == trace && visitCounter == |trace| + 1
    requires forall k :: 0 <= k < |explored| ==> explored[k] in G.NodeSet
    ensures Searching(G, goal, P, open, explored, closed, visitCounter, s, q, trace, current.Pos())
  {
  }

  /** The loop state right after the grid is prepared. */
  lemma StartSearching(G: Grid, start: Node, goal: Node, P: Problem, s: NodeMap)
    requires G.Valid() && G.Indexed() && G.OpenCells() == P.open && G.Snapshot() == s
    requires start in G.NodeSet && start.Pos() == P.start && goal.Pos() == P.goal
    requires Inv(P, s, [P.start], {}, [], P.start, [])
    ensures Searching(G, goal, P, [start], [], {}, 1, s, [P.start], [], P.start)
  {
    assert Positions([start]) == [P.start];
    assert Positions([]) == [];
  }

  /** A sequence of grid nodes linked by their parent fields, read in the
      heap, is a parent chain of the grid's snapshot. */
  lemma NodesFormChain(G: Grid, path: seq<Node>, end: Node)
    requires G.Shape() && G.Indexed() && |path| >= 1 && path[|path| - 1] == end
    requires forall k :: 0 <= k < |path| ==> path[k] in G.NodeSet && path[k].visitOrder >= 1
    requires path[0].parent == None
    requires forall k :: 0 <= k < |path| - 1 ==> path[k + 1].parent == Some(path[k].Pos())
    ensures IsParentChain(G.Snapshot(), Positions(path), end.Pos())
  {
    forall k | 0 <= k < |path|
      ensures Positions(path)[k] in G.Snapshot() && G.Snapshot()[Positions(path)[k]] == path[k].State()
    {
      G.SnapshotAt(path[k]);
    }
  }

  class AStarAlgorithm {
    const grid: Grid
    var exploredNodes: seq<Node>

    /** The constructor for a grid that the factory Create accepts. */
    constructor (grid: Grid)
      ensures this.grid == grid && exploredNodes == []
    {
      this.grid := grid;
      exploredNodes := [];
    }

    /** new AStarAlgorithm(grid): a null grid raises IllegalArgumentException. */
    static method Create(grid: Grid?) returns (r: Result<AStarAlgorithm>)
      ensures r.Failure? <==> grid == null
      ensures r.Failure? ==> r.error == IllegalArgument("grid cannot be null")
      ensures r.Success? ==> fresh(r.value) && r.value.grid == grid && r.value.exploredNodes == []
    {
      if grid == null {
        return Failure(IllegalArgument("grid cannot be null"));
      }
      var a := new AStarAlgorithm(grid);
      return Success(a);
    }

    /** The grid a call searches: the argument when given, else the one the
        algorithm was built with. */
    function Chosen(gridArg: Grid?): (G: Grid)
      ensures gridArg != null ==> G == gridArg
      ensures gridArg == null ==> G == grid
    {
      if gridArg != null then gridArg else grid
    }

    /** Manhattan distance between the cells of two nodes. */
    static function Heuristic(a: Node, b: Node): (h: int)
      ensures h >= 0
      ensures h == 0 <==> a.Pos() == b.Pos()
      ensures Adjacent(a.Pos(), b.Pos()) ==> h == 1
    {
      Abs(a.row - b.row) + Abs(a.col - b.col)
    }

    /** The nodes the last search polled, in polling order. */
    function GetExploredNodes(): (ns: seq<Node>)
      reads this
      ensures ns == exploredNodes
    {
      exploredNodes
    }

    /** PriorityQueue.poll by f: the position of an entry whose f no other
        entry's f is below (the first such entry). */
    static function PollIndex(open: seq<Node>): (i: int)
      requires open != []
      reads open
      ensures 0 <= i < |open|
      ensures forall j :: 0 <= j < |open| ==> !open[j].f.Less(open[i].f)
    {
      if |open| == 1 then 0
      else
        var k := PollIndex(open[..|open| - 1]);
        if open[|open| - 1].f.Less(open[k].f) then |open| - 1 else k
    }

    /** Follows parent links from `end` back to a node without a parent and
        returns the nodes in start-to-end order. The links are followed
        through the grid's nodes; each step lowers the visit order, so the
        walk back ends. */
    static method ReconstructPath(G: Grid, end: Node) returns (path: seq<Node>)
      requires G.Valid() && G.Indexed() && end in G.NodeSet
      requires ChainReady(G.Snapshot()) && end.visitOrder >= 1
      ensures forall k :: 0 <= k < |path| ==> path[k] in G.NodeSet
      ensures IsParentChain(G.Snapshot(), Positions(path), end.Pos())
    {
      path := [];
      var cur := end;
      while true
        invariant cur in G.NodeSet && cur.visitOrder >= 1
        invariant forall k :: 0 <= k < |path| ==> path[k] in G.NodeSet && path[k].visitOrder >= 1
        invariant path == [] ==> cur == end
        invariant path != [] ==> path[|path| - 1] == end && path[0].parent == Some(cur.Pos())
        invariant forall k :: 0 <= k < |path| - 1 ==> path[k + 1].parent == Some(path[k].Pos())
        decreases cur.visitOrder
      {
        path := [cur] + path;
        if cur.parent == None {
          break;
        }
        G.SnapshotAt(cur);
        assert ChainCell(G.Snapshot(), cur.Pos());
        var p := cur.parent.value;
        cur := G.At(p);
        G.SnapshotAt(cur);
      }
      NodesFormChain(G, path, end);
    }

    /** The frontier entry PollIndex picks has the least f of the frontier's
        cells in the grid's snapshot. */
    static lemma PolledHasMinF(G: Grid, open: seq<Node>, i: int)
      requires G.Shape() && G.Indexed() && 0 <= i < |open|
      requires forall k :: 0 <= k < |open| ==> open[k] in G.NodeSet
      requires forall j :: 0 <= j < |open| ==> !open[j].f.Less(open[i].f)
      ensures IsMinF(G.Snapshot(), Positions(open), i) && Positions(open)[i] == open[i].Pos()
    {
      forall j | 0 <= j < |open|
        ensures Positions(open)[j] in G.Snapshot() && G.Snapshot()[Positions(open)[j]] == open[j].State()
      {
        G.SnapshotAt(open[j]);
      }
    }

    /** Gives the start g = 0, the heuristic to the goal, visit order 0 and
        the explored flag. */
    static method InitStart(G: Grid, start: Node, goal: Node)
      requires G.Valid() && G.Indexed() && start in G.NodeSet
      modifies start`g, start`h, start`f, start`visitOrder, start`explored
      ensures G.Snapshot() == Started(old(G.Snapshot()), start.Pos(), goal.Pos())
    {
      G.SnapshotAt(start);
      label Reset:
      start.SetG(Finite(0));
      start.SetH(Heuristic(start, goal));
      start.SetVisitOrder(0);
      start.SetExplored(true);
      assert start.g == Finite(0);
      assert start.weight == old(start.weight);
      assert start.State() == old(start.State()).(g := Finite(0), h := Manhattan(start.Pos(), goal.Pos()),
                                  f := Finite(Manhattan(start.Pos(), goal.Pos())), visitOrder := 0, explored := true);
      G.SnapshotAfterWrite@Reset(start);
    }

    /** Gives a neighbour reached more cheaply its new parent, g and
        heuristic (f follows). */
    static method Improve(G: Grid, current: Node, nbr: Node, goal: Node, tentativeG: int)
      requires G.Valid() && G.Indexed() && nbr in G.NodeSet
      modifies nbr`parent, nbr`g, nbr`h, nbr`f
      ensures G.Snapshot() == Improved(old(G.Snapshot()), nbr.Pos(), current.Pos(), tentativeG, goal.Pos())
    {
      G.SnapshotAt(nbr);
      label Before:
      nbr.SetParent(current);
      nbr.SetG(Finite(tentativeG));
      nbr.SetH(Heuristic(nbr, goal));
      assert nbr.State() == old(nbr.State()).(parent := Some(current.Pos()), g := Finite(tentativeG),
                                  h := Manhattan(nbr.Pos(), goal.Pos()),
                                  f := Finite(tentativeG + Manhattan(nbr.Pos(), goal.Pos())));
      G.SnapshotAfterWrite@Before(nbr);
    }

    /** Resets the search fields of the whole grid and initialises the
        start; the search invariant then holds for the new snapshot s with
        the start alone on the frontier and nothing explored. */
    static method Prepare(G: Grid, start: Node, goal: Node, ghost P: Problem) returns (ghost s: NodeMap)
      requires G.Valid() && G.Indexed() && start in G.NodeSet
      requires P == ProblemOf(G, start, goal, G.Snapshot())
      requires P.start in P.open && P.goal in P.open
      modifies G.NodeSet
      ensures G.Valid() && G.Indexed() && G.OpenCells() == P.open && G.Snapshot() == s
      ensures Inv(P, s, [P.start], {}, [], P.start, [])
    {
      ghost var s0 := G.Snapshot();
      label Entry:
      G.ResetSearchState();
      assert G.Snapshot() == Cleared(s0);
      InitStart(G, start, goal);
      InitStep(P, s0);
      s := Started(Cleared(s0), P.start, P.goal);
      G.MatricesUntouched@Entry();
    }

    /** Stamps a polled node with its visit order and the explored flag and
        appends it to the explored list. */
    static method Visit(G: Grid, n: Node, order: int, explored: seq<Node>) returns (explored': seq<Node>)
      requires G.Valid() && G.Indexed() && n in G.NodeSet
      requires forall k :: 0 <= k < |explored| ==> explored[k] in G.NodeSet
      modifies n`visitOrder, n`explored
      ensures G.Valid() && G.Indexed() && G.OpenCells() == old(G.OpenCells())
      ensures G.Snapshot() == Visited(old(G.Snapshot()), n.Pos(), order)
      ensures Positions(explored') == Positions(explored) + [n.Pos()]
      ensures forall k :: 0 <= k < |explored'| ==> explored'[k] in G.NodeSet
    {
      G.SnapshotAt(n);
      label Polled:
      n.SetVisitOrder(order);
      n.SetExplored(true);
      G.SnapshotAfterWrite@Polled(n);
      PositionsAppend(explored, n);
      explored' := explored + [n];
    }

    /** One neighbour of the expansion (the grid's snapshot is s and the
        frontier's cells are q): unless it is closed, a neighbour that
        current reaches more cheaply takes current as parent, gets the new g
        and the heuristic, and moves to the back of the frontier. The search
        invariant then holds for the new snapshot s' and frontier q' with
        that neighbour no longer pending. */
    static method Relax(G: Grid, current: Node, nbr: Node, goal: Node, open: seq<Node>,
                        closed: set<Cell>, ghost P: Problem, ghost s: NodeMap, ghost q: seq<Cell>,
                        ghost trace: seq<Cell>, ghost pending: seq<Cell>)
      returns (open': seq<Node>, ghost s': NodeMap, ghost q': seq<Cell>)
      requires Relaxing(G, current, goal, P, open, closed, s, q, trace, pending)
      requires nbr in G.NodeSet && pending != [] && pending[0] == nbr.Pos()
      modifies nbr`parent, nbr`g, nbr`h, nbr`f
      ensures Relaxing(G, current, goal, P, open', closed, s', q', trace, pending[1..])
      ensures (s', q') == Relaxed(P.goal, s, q, closed, current.Pos(), nbr.Pos())
      ensures open' == if Improves(s, closed, current.Pos(), nbr.Pos()) then RemoveFirst(open, nbr) + [nbr] else open
    {
      open', s', q' := open, s, q;
      if nbr.Pos() in closed {
        KeepRelaxing(G, current, goal, P, open, closed, s, q, trace, pending);
        return;
      }
      G.SnapshotAt(current);
      G.SnapshotAt(nbr);
      var tentativeG := current.g.Plus(G.MovementCost(current, nbr));
      if tentativeG.Less(nbr.g) {
        ImproveRelaxing(G, current, goal, P, open, closed, s, q, trace, pending, nbr.Pos(), tentativeG.value);
        label Before:
        Improve(G, current, nbr, goal, tentativeG.value);
        G.MatricesUntouched@Before();
        s' := Improved(s, nbr.Pos(), current.Pos(), tentativeG.value, P.goal);
        ghost var requeued := PositionsRequeue(G, open, nbr);
        open' := RemoveFirst(open, nbr) + [nbr];
        q' := RemoveFirst(q, nbr.Pos()) + [nbr.Pos()];
      } else {
        KeepRelaxing(G, current, goal, P, open, closed, s, q, trace, pending);
      }
    }

    /** One expansion (the loop over getNeighbors(current)): every open
        neighbour is relaxed in turn, and the search invariant holds again
        for the new snapshot s' and frontier q' with no neighbour pending. */
    static method ExpandNeighbors(G: Grid, current: Node, goal: Node, open: seq<Node>,
                                  closed: set<Cell>, ghost P: Problem, ghost s: NodeMap,
                                  ghost q: seq<Cell>, ghost trace: seq<Cell>)
      returns (open': seq<Node>, ghost s': NodeMap, ghost q': seq<Cell>)
      requires Relaxing(G, current, goal, P, open, closed, s, q, trace,
                        NeighborCells(P.open, current.Pos()))
      modifies G.NodeSet
      ensures Relaxing(G, current, goal, P, open', closed, s', q', trace, [])
      ensures (s', q') == RelaxAll(P.goal, s, q, closed, current.Pos(), NeighborCells(P.open, current.Pos()))
    {
      var nbrs := G.GetNeighbors(current);
      ghost var pending := Positions(nbrs);
      open', s', q' := open, s, q;
      assert pending[0..] == NeighborCells(P.open, current.Pos());
      for j := 0 to |nbrs|
        invariant Relaxing(G, current, goal, P, open', closed, s', q', trace, pending[j..])
        invariant (s', q') == RelaxAll(P.goal, s, q, closed, current.Pos(), pending[..j])
      {
        assert pending[j..][1..] == pending[j + 1..];
        RelaxAllStep(P.goal, s, q, closed, current.Pos(), pending, j);
        open', s', q' := Relax(G, current, nbrs[j], goal, open', closed, P, s', q', trace, pending[j..]);
      }
      assert pending[|nbrs|..] == [];
      assert pending[..|nbrs|] == pending;
    }

    /** The goal was polled (the search state before the poll was s, q,
        trace): its path is rebuilt from the parent links, and the result
        keeps every promise of SearchResult. */
    static method Finish(G: Grid, current: Node, explored: seq<Node>, ghost P: Problem,
                         ghost s: NodeMap, ghost q: seq<Cell>, ghost closed: set<Cell>,
                         ghost trace: seq<Cell>, ghost from: Cell, ghost i: int, ghost order: int)
      returns (path: seq<Node>)
      requires G.Valid() && G.Indexed() && current in G.NodeSet
      requires Inv(P, s, q, closed, trace, from, []) && Ordered(P, s, q, trace, from) && IsMinF(s, q, i)
      requires current.Pos() == q[i] && q[i] == P.goal
      requires order == |trace| + 1 && G.Snapshot() == Visited(s, q[i], order)
      requires Positions(explored) == trace + [q[i]]
      ensures forall k :: 0 <= k < |path| ==> path[k] in G.NodeSet
      ensures SearchResult(P, G.Snapshot(), Positions(path), Positions(explored))
    {
      GoalStep(P, s, q, closed, trace, from, i);
      OrderedClose(P, s, q, closed, trace, from, i);
      ParentsAtGoal(P, s, q, closed, trace, from, i);
      ghost var found := G.Snapshot();
      assert Found(P, found, Positions(explored));
      G.SnapshotAt(current);
      path := ReconstructPath(G, current);
      assert G.Snapshot() == found;
      FoundResult(P, found, Positions(explored), Positions(path));
    }

    /** A node other than the goal was polled (the search state before the
        poll was s, q, trace; open holds the rest of the frontier): it is
        closed and its neighbours are relaxed; the search invariant holds
        again for the new snapshot s' and frontier q', and one more open
        cell is closed. */
    static method Close(G: Grid, current: Node, goal: Node, open: seq<Node>, closed: set<Cell>,
                        ghost P: Problem, ghost s: NodeMap, ghost q: seq<Cell>,
                        ghost trace: seq<Cell>, ghost from: Cell, ghost i: int, ghost order: int)
      returns (open': seq<Node>, closed': set<Cell>, ghost s': NodeMap, ghost q': seq<Cell>)
      requires Polling(G, current, goal, P, open, closed, s, q, trace, from, i) && order == |trace| + 1
      modifies G.NodeSet
      ensures Relaxing(G, current, goal, P, open', closed', s', q', trace + [q[i]], [])
      ensures |P.open - closed'| < |P.open - closed|
    {
      EnterRelaxing(G, current, goal, P, open, closed, s, q, trace, from, i);
      closed' := closed + {current.Pos()};
      assert P.open - closed' == (P.open - closed) - {current.Pos()};
      open', s', q' := ExpandNeighbors(G, current, goal, open, closed', P, Visited(s, q[i], order),
                                       RemoveAt(q, i), trace + [q[i]]);
    }

    /** findPath(gridArg, start, goal): searches the given grid, or the
        algorithm's own when none is given, and returns the cheapest path
        from start to goal, or the empty list. Missing endpoints, endpoints
        outside the grid and walls give the empty list without a search. */
    method FindPath(gridArg: Grid?, start: Node?, goal: Node?) returns (path: seq<Node>)
      requires Chosen(gridArg).Valid() && Chosen(gridArg).Indexed()
      requires start != null && Chosen(gridArg).InBounds(start.row, start.col) ==> start in Chosen(gridArg).NodeSet
      requires goal != null && Chosen(gridArg).InBounds(goal.row, goal.col) ==> goal in Chosen(gridArg).NodeSet
      modifies this`exploredNodes, Chosen(gridArg).NodeSet
      ensures forall k :: 0 <= k < |path| ==> path[k] in Chosen(gridArg).NodeSet
      ensures forall k :: 0 <= k < |exploredNodes| ==> exploredNodes[k] in Chosen(gridArg).NodeSet
      ensures !Searchable(Chosen(gridArg), start, goal) ==>
                path == [] && exploredNodes == [] && unchanged(Chosen(gridArg).NodeSet)
      ensures Searchable(Chosen(gridArg), start, goal) ==>
                && SearchResult(old(ProblemOf(Chosen(gridArg), start, goal, Chosen(gridArg).Snapshot())),
                                Chosen(gridArg).Snapshot(), Positions(path), Positions(exploredNodes))
                && (path != [] ==> path[0] == start && path[|path| - 1] == goal)
                && (start == goal ==> path == [start] && exploredNodes == [start])
    {
      var G := if gridArg != null then gridArg else grid;
      exploredNodes := [];
      if start == null || goal == null {
        return [];
      }
      if !G.InBounds(start.row, start.col) || !G.InBounds(goal.row, goal.col) {
        return [];
      }
      if G.IsWall(start.row, start.col) || G.IsWall(goal.row, goal.col) {
        return [];
      }
      G.Untouched();
      ghost var P := ProblemOf(G, start, goal, G.Snapshot());
      var explored;
      path, explored := Search(G, start, goal, P);
      label Searched:
      exploredNodes := explored;
      G.Untouched@Searched();
      ResultEndpoints(G, P, G.Snapshot(), start, goal, path, explored);
    }

    /** One pass of the main loop: poll the frontier entry of least f,
        skip it when closed (which the invariant rules out), stamp and record
        it, and either rebuild the path at the goal (done) or close it and
        relax its neighbours, after which the search invariant holds again
        for the new state and one more open cell is closed. */
    static method Step(G: Grid, goal: Node, open: seq<Node>, explored: seq<Node>, closed: set<Cell>,
                       visitCounter: int, ghost P: Problem, ghost s: NodeMap, ghost q: seq<Cell>,
                       ghost trace: seq<Cell>, ghost from: Cell)
      returns (done: bool, path: seq<Node>, open': seq<Node>, explored': seq<Node>, closed': set<Cell>,
               ghost s': NodeMap, ghost q': seq<Cell>, ghost polled: Cell)
      requires Searching(G, goal, P, open, explored, closed, visitCounter, s, q, trace, from)
      requires open != []
      modifies G.NodeSet
      ensures G.Valid() && G.Indexed()
      ensures forall k :: 0 <= k < |explored'| ==> explored'[k] in G.NodeSet
      ensures done ==> forall k :: 0 <= k < |path| ==> path[k] in G.NodeSet
      ensures done ==> SearchResult(P, G.Snapshot(), Positions(path), Positions(explored'))
      ensures !done ==>
                Searching(G, goal, P, open', explored', closed', visitCounter + 1, s', q', trace + [polled], polled)
      ensures !done ==> |P.open - closed'| < |P.open - closed|
    {
      var i := PollIndex(open);
      var current := open[i];
      PolledHasMinF(G, open, i);
      ghost var rest := PositionsRemoveAt(open, i, G.NodeSet);
      open' := open[..i] + open[i + 1..];
      if current.Pos() in closed {
        assert false;
      }
      explored' := Visit(G, current, visitCounter, explored);
      polled := current.Pos();
      if current.Equals(goal) {
        done := true;
        path := Finish(G, current, explored', P, s, q, closed, trace, from, i, visitCounter);
        closed', s', q' := closed, s, q;
        return;
      }
      done, path := false, [];
      open', closed', s', q' := Close(G, current, goal, open', closed, P, s, q, trace, from, i, visitCounter);
      LeaveRelaxing(G, current, goal, P, open', explored', closed', visitCounter + 1, s', q', trace + [polled]);
    }

    /** The search proper, for endpoints that passed the checks: reset the
        grid, start from `start`, poll the frontier by least f, skip closed
        nodes, stamp and record each polled node, stop at the goal with its
        parent chain, and otherwise close the node and relax its open
        neighbours; an exhausted frontier gives the empty list. Returns the
        path and the explored list. */
    static method Search(G: Grid, start: Node, goal: Node, ghost P: Problem)
      returns (path: seq<Node>, explored: seq<Node>)
      requires G.Valid() && G.Indexed() && start in G.NodeSet && goal in G.NodeSet
      requires P == ProblemOf(G, start, goal, G.Snapshot())
      requires P.start in P.open && P.goal in P.open
      modifies G.NodeSet
      ensures G.Valid() && G.Indexed()
      ensures forall k :: 0 <= k < |path| ==> path[k] in G.NodeSet
      ensures forall k :: 0 <= k < |explored| ==> explored[k] in G.NodeSet
      ensures SearchResult(P, G.Snapshot(), Positions(path), Positions(explored))
    {
      ghost var s := Prepare(G, start, goal, P);
      StartSearching(G, start, goal, P, s);
      var open: seq<Node> := [start];
      explored := [];
      var closed: set<Cell> := {};
      var visitCounter := 1;
      ghost var q: seq<Cell> := [P.start];
      ghost var trace: seq<Cell> := [];
      ghost var from := P.start;
      while open != []
        invariant Searching(G, goal, P, open, explored, closed, visitCounter, s, q, trace, from)
        decreases |P.open - closed|
      {
        var done;
        ghost var s', q', polled;
        done, path, open, explored, closed, s', q', polled :=
          Step(G, goal, open, explored, closed, visitCounter, P, s, q, trace, from);
        if done {
          return;
        }
        s, q, trace, from := s', q', trace + [polled], polled;
        visitCounter := visitCounter + 1;
      }
      ExhaustedResult(P, s, closed, trace, from);
      path := [];
      assert Positions(path) == [];
    }
  }
}

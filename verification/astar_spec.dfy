/** The A* search of AStarAlgorithm.findPath, stated over values: the node
    fields of every cell (a NodeMap), the frontier as a sequence of cells,
    the closed set, and the explored list. The invariant Inv holds before
    every poll of the frontier; each step of the search has a lemma showing
    that it keeps Inv, and the end of the search has lemmas showing what the
    result means. */
module AStarSpec {
  import opened Common
  import opened Nodes
  import opened Grids

  /** The fields of the node at every cell of the grid. */
  type NodeMap = map<Cell, NodeState>

  /** What one search is about: the open cells, the two endpoints and the
      weight of every cell (the cost of stepping onto it). */
  datatype Problem = Problem(open: set<Cell>, start: Cell, goal: Cell, weights: map<Cell, int>)

  /** The weights held in a node map. */
  function WeightsOf(s: NodeMap): (w: map<Cell, int>)
    ensures w.Keys == s.Keys
    ensures forall c :: c in s ==> w[c] == s[c].weight
  {
    map c | c in s :: s[c].weight
  }

  /** Every open cell has a weight of at least 1 (the default is 1). */
  ghost predicate PositiveWeights(P: Problem)
  {
    forall c :: c in P.open ==> c in P.weights && P.weights[c] >= 1
  }

  /** The cost of a walk: the weights of the cells it steps onto. */
  function WalkCost(weights: map<Cell, int>, w: seq<Cell>): int
    requires forall i :: 0 <= i < |w| ==> w[i] in weights
  {
    if |w| <= 1 then 0 else WalkCost(weights, w[..|w| - 1]) + weights[w[|w| - 1]]
  }

  /** The explored list holds no cell twice, starts with the start, and its
      k-th cell carries visit order k + 1 and the explored flag. */
  ghost predicate TraceRecords(s: NodeMap, trace: seq<Cell>, start: Cell)
  {
    && NoRepeats(trace)
    && (trace != [] ==> trace[0] == start)
    && (forall k :: 0 <= k < |trace| ==>
          trace[k] in s && s[trace[k]].visitOrder == k + 1 && s[trace[k]].explored)
  }

  /** What the invariant says about one cell c: its weight is the problem's
      and f == g + h; only closed cells carry a visit order of 1 or more;
      a reached cell (closed or on the frontier) is open, has a finite g,
      the Manhattan heuristic and, unless it is the start, a parent; a cell
      with a finite g that is not closed is on the frontier; a parent is a
      closed open neighbour whose g plus the cell's weight is the cell's g,
      and a closed cell was closed after its parent. */
  ghost predicate CellOk(P: Problem, s: NodeMap, q: seq<Cell>, closed: set<Cell>, c: Cell)
    requires c in s
  {
    var n := s[c];
    && c in P.weights && n.weight == P.weights[c]
    && n.f == n.g.Plus(Finite(n.h))
    && (n.visitOrder >= 1 ==> c in closed)
    && (c in closed || c in q ==>
          && c in P.open && n.g.Finite? && n.h == Manhattan(c, P.goal)
          && (c != P.start ==> n.parent.Some?))
    && (n.g.Finite? && c !in closed ==> c in q)
    && (n.parent.Some? ==>
          var par := n.parent.value;
          && par in closed && par in s && c in P.open && c != P.start && Adjacent(par, c)
          && s[par].g.Finite? && n.g == s[par].g.Plus(Finite(n.weight))
          && (c in closed ==> s[par].visitOrder < n.visitOrder))
  }

  /** CellOk for every cell; it is instantiated only for the cells a proof
      names, which keeps the parent links from unfolding without end. */
  ghost predicate CellsOk(P: Problem, s: NodeMap, q: seq<Cell>, closed: set<Cell>)
  {
    forall c {:trigger CellOk(P, s, q, closed, c)} :: c in s ==> CellOk(P, s, q, closed, c)
  }

  /** The edge from a closed cell k to an open neighbour x that is not
      closed has been relaxed, g(x) <= g(k) + weight(x), unless x is still
      pending in the expansion of `from`. */
  ghost predicate EdgeOk(P: Problem, s: NodeMap, closed: set<Cell>, from: Cell, pending: seq<Cell>,
                         k: Cell, x: Cell)
  {
    k in closed && k in s && x in s && x in P.open && Adjacent(k, x) && x !in closed &&
    !(k == from && x in pending)
    ==> s[x].g.AtMost(s[k].g.Plus(Finite(s[x].weight)))
  }

  /** With weights of at least 1, the g of a closed cell is at most the cost
      of any walk from the start to it. */
  ghost predicate Optimal(P: Problem, s: NodeMap, closed: set<Cell>)
    requires P.open <= s.Keys
    requires forall c :: c in s ==> c in P.weights
  {
    PositiveWeights(P) ==>
      forall c, w {:trigger IsWalkBetween(P.open, w, P.start, c)} ::
        c in closed && c in s && IsWalkBetween(P.open, w, P.start, c) ==>
          s[c].g.AtMost(Finite(WalkCost(P.weights, w)))
  }

  /** The endpoints are open, every open cell has its node and every node
      has a weight in the problem. */
  ghost predicate Basics(P: Problem, s: NodeMap)
  {
    && P.open <= s.Keys && P.start in P.open && P.goal in P.open
    && (forall c :: c in s ==> c in P.weights)
  }

  /** The explored list is recorded in the nodes, and the closed cells are
      exactly the explored ones and are open. */
  ghost predicate TraceOk(P: Problem, s: NodeMap, closed: set<Cell>, trace: seq<Cell>)
  {
    && TraceRecords(s, trace, P.start)
    && (forall c :: c in closed <==> c in trace)
    && (forall c :: c in closed ==> c in P.open)
  }

  /** The frontier holds no cell twice and only open cells that are not
      closed; before the first expansion it is the start alone and
      afterwards the start is closed; the goal is never closed; the start
      keeps g = 0 and no parent. */
  ghost predicate QueueOk(P: Problem, s: NodeMap, q: seq<Cell>, closed: set<Cell>)
  {
    && NoRepeats(q)
    && (forall i :: 0 <= i < |q| ==> q[i] in P.open && q[i] !in closed)
    && (closed == {} ==> q == [P.start])
    && (closed != {} ==> P.start in closed)
    && P.goal !in closed
    && P.start in s && s[P.start].g == Finite(0) && s[P.start].parent == None
  }

  /** The neighbours still pending are open neighbours of the closed cell
      `from`. */
  ghost predicate PendingOk(P: Problem, closed: set<Cell>, from: Cell, pending: seq<Cell>)
  {
    && (pending != [] ==> from in closed)
    && (forall x :: x in pending ==> x in P.open && Adjacent(from, x))
  }

  /** Every edge out of the closed set is relaxed, except the pending ones. */
  ghost predicate EdgesOk(P: Problem, s: NodeMap, closed: set<Cell>, from: Cell, pending: seq<Cell>)
  {
    forall k, x {:trigger EdgeOk(P, s, closed, from, pending, k, x)} ::
      EdgeOk(P, s, closed, from, pending, k, x)
  }

  /** The invariant of the main loop (pending == []) and of the loop over
      the neighbours of `from` (pending: the neighbours not yet handled). */
  ghost predicate Inv(P: Problem, s: NodeMap, q: seq<Cell>, closed: set<Cell>, trace: seq<Cell>,
                      from: Cell, pending: seq<Cell>)
  {
    && Basics(P, s)
    && TraceOk(P, s, closed, trace)
    && QueueOk(P, s, q, closed)
    && CellsOk(P, s, q, closed)
    && PendingOk(P, closed, from, pending)
    && EdgesOk(P, s, closed, from, pending)
    && Optimal(P, s, closed)
  }

  /** Frontier entry i has the least f (PriorityQueue.poll). */
  ghost predicate IsMinF(s: NodeMap, q: seq<Cell>, i: int)
  {
    && 0 <= i < |q|
    && (forall j :: 0 <= j < |q| ==> q[j] in s)
    && (forall j :: 0 <= j < |q| ==> !s[q[j]].f.Less(s[q[i]].f))
  }

  /** Every node after resetSearchState. */
  function Cleared(s: NodeMap): (r: NodeMap)
    ensures r.Keys == s.Keys
    ensures forall c :: c in s ==> r[c] == ClearSearch(s[c])
  {
    map c | c in s :: ClearSearch(s[c])
  }

  /** The start after its initialisation: g = 0, h = heuristic to the goal,
      visit order 0, explored. */
  function Started(s: NodeMap, start: Cell, goal: Cell): NodeMap
    requires start in s
  {
    s[start := s[start].(g := Finite(0), h := Manhattan(start, goal),
                         f := Finite(Manhattan(start, goal)), visitOrder := 0, explored := true)]
  }

  /** A polled cell stamped with its visit order and marked explored. */
  function Visited(s: NodeMap, c: Cell, order: int): NodeMap
    requires c in s
  {
    s[c := s[c].(visitOrder := order, explored := true)]
  }

  /** A neighbour reached more cheaply: new parent, g, h and f. */
  function Improved(s: NodeMap, c: Cell, from: Cell, g: int, goal: Cell): NodeMap
    requires c in s
  {
    s[c := s[c].(parent := Some(from), g := Finite(g), h := Manhattan(c, goal),
                 f := Finite(g + Manhattan(c, goal)))]
  }

  /** The relaxation rule: a neighbour nb that is not closed is improved
      through `from` exactly when from's g plus nb's weight is strictly
      below nb's g; a tie or a higher cost leaves it alone. */
  predicate Improves(s: NodeMap, closed: set<Cell>, from: Cell, nb: Cell)
  {
    nb !in closed && from in s && nb in s && s[from].g.Plus(Finite(s[nb].weight)).Less(s[nb].g)
  }

  /** The node map and frontier after relaxing nb through `from`: an
      improved nb gets the new parent, g, h and f and moves to the back of
      the frontier; otherwise both stay as they are. */
  function Relaxed(goal: Cell, s: NodeMap, q: seq<Cell>, closed: set<Cell>, from: Cell, nb: Cell)
    : (NodeMap, seq<Cell>)
  {
    if Improves(s, closed, from, nb) then
      (Improved(s, nb, from, s[from].g.value + s[nb].weight, goal), RemoveFirst(q, nb) + [nb])
    else
      (s, q)
  }

  /** The neighbours in `pending` relaxed one after the other, in order. */
  function RelaxAll(goal: Cell, s: NodeMap, q: seq<Cell>, closed: set<Cell>, from: Cell,
                    pending: seq<Cell>): (NodeMap, seq<Cell>)
  {
    if pending == [] then
      (s, q)
    else
      var (s1, q1) := RelaxAll(goal, s, q, closed, from, pending[..|pending| - 1]);
      Relaxed(goal, s1, q1, closed, from, pending[|pending| - 1])
  }

  /** RelaxAll over one more pending cell is one more relaxation. */
  lemma RelaxAllStep(goal: Cell, s: NodeMap, q: seq<Cell>, closed: set<Cell>, from: Cell,
                     pending: seq<Cell>, j: int)
    requires 0 <= j < |pending|
    ensures RelaxAll(goal, s, q, closed, from, pending[..j + 1])
            == Relaxed(goal, RelaxAll(goal, s, q, closed, from, pending[..j]).0,
                       RelaxAll(goal, s, q, closed, from, pending[..j]).1, closed, from, pending[j])
  {
    assert pending[..j + 1][..j] == pending[..j];
  }

  /** What the state says about a visited cell c once the goal has been
      polled: c has a finite g; without a parent it is the start; with one,
      the parent is a visited open neighbour with a smaller visit order, and
      g(c) is the parent's g plus c's weight. */
  ghost predicate FoundCell(P: Problem, s: NodeMap, c: Cell)
    requires c in s
  {
    s[c].visitOrder >= 1 ==>
      && s[c].g.Finite?
      && (s[c].parent == None ==> c == P.start)
      && (s[c].parent.Some? ==>
            var par := s[c].parent.value;
            && par in s && par in P.open && c in P.open && Adjacent(par, c)
            && s[par].visitOrder >= 1 && s[par].visitOrder < s[c].visitOrder
            && s[par].g.Finite? && c in P.weights && s[c].g == Finite(s[par].g.value + P.weights[c]))
  }

  /** Facts that hold once the goal has been polled and stamped; they are
      what reconstructing and reading the path rely on. */
  ghost predicate Found(P: Problem, s: NodeMap, trace: seq<Cell>)
  {
    && P.open <= s.Keys && P.start in P.open && P.goal in P.open
    && (forall c :: c in s ==> c in P.weights && s[c].weight == P.weights[c])
    && TraceRecords(s, trace, P.start)
    && trace != [] && trace[|trace| - 1] == P.goal
    && s[P.start].g == Finite(0)
    && (forall c {:trigger FoundCell(P, s, c)} :: c in s ==> FoundCell(P, s, c))
    && ChainReady(s)
    && (PositiveWeights(P) ==>
          forall w :: IsWalkBetween(P.open, w, P.start, P.goal) ==>
            s[P.goal].g.AtMost(Finite(WalkCost(P.weights, w))))
  }

  /** Following the parent of a visited cell leads to a visited cell with a
      smaller visit order. */
  ghost predicate ChainCell(s: NodeMap, c: Cell)
  {
    c in s && s[c].visitOrder >= 1 && s[c].parent.Some? ==>
      && s[c].parent.value in s
      && s[s[c].parent.value].visitOrder >= 1
      && s[s[c].parent.value].visitOrder < s[c].visitOrder
  }

  /** Following parents from a visited cell strictly lowers the visit order,
      so it ends. */
  ghost predicate ChainReady(s: NodeMap)
  {
    forall c {:trigger ChainCell(s, c)} :: ChainCell(s, c)
  }

  /** path is the parent chain that ends at `end`: its first cell has no
      parent and each later cell's parent is the cell before it. */
  ghost predicate IsParentChain(s: NodeMap, path: seq<Cell>, end: Cell)
  {
    && |path| >= 1 && path[|path| - 1] == end
    && (forall i :: 0 <= i < |path| ==> path[i] in s && s[path[i]].visitOrder >= 1)
    && s[path[0]].parent == None
    && (forall i :: 0 <= i < |path| - 1 ==> s[path[i + 1]].parent == Some(path[i]))
  }

  /** Cells a and b both hold nodes in s, and a's f is at most b's. */
  ghost predicate FAtMost(s: NodeMap, a: Cell, b: Cell)
  {
    a in s && b in s ==> s[a].f.AtMost(s[b].f)
  }

  /** With weights of at least 1, the explored cells carry non-decreasing f
      in visiting order (the Manhattan heuristic is consistent). */
  ghost predicate FOrdered(P: Problem, s: NodeMap, trace: seq<Cell>)
  {
    PositiveWeights(P) ==>
      forall i, j {:trigger FAtMost(s, trace[i], trace[j])} ::
        0 <= i < j < |trace| ==> FAtMost(s, trace[i], trace[j])
  }

  /** The order invariant kept beside Inv: the explored f values are
      non-decreasing, `from` is the cell explored last, and no frontier
      entry has an f below that of `from`. */
  ghost predicate Ordered(P: Problem, s: NodeMap, q: seq<Cell>, trace: seq<Cell>, from: Cell)
  {
    && FOrdered(P, s, trace)
    && (trace != [] ==> from == trace[|trace| - 1])
    && (PositiveWeights(P) && trace != [] ==>
          forall k {:trigger FAtMost(s, from, q[k])} :: 0 <= k < |q| ==> FAtMost(s, from, q[k]))
  }

  /** A cell with a parent: the parent is an explored cell adjacent to it,
      and the cell's g is the parent's g plus the cell's weight. */
  ghost predicate ParentCell(s: NodeMap, explored: seq<Cell>, c: Cell)
  {
    c in s && s[c].parent.Some? ==>
      var p := s[c].parent.value;
      && p in s && Adjacent(p, c) && p in explored
      && s[c].g == s[p].g.Plus(Finite(s[c].weight))
  }

  /** ParentCell for every cell. */
  ghost predicate ParentsLinked(s: NodeMap, explored: seq<Cell>)
  {
    forall c {:trigger ParentCell(s, explored, c)} :: ParentCell(s, explored, c)
  }

  /** What a search promises about its result `path` and its explored list:
      the explored cells are recorded in the nodes in visiting order and the
      weights are untouched; a non-empty path is a walk from the start to
      the goal without repeats, the goal was explored last, its g is the
      path's cost, and with positive weights no walk to the goal is cheaper;
      an empty path means every cell a walk from the start reaches was
      explored and the goal is not among them; when start and goal are the
      same cell, that cell alone is both the path and the explored list.
      With positive weights the explored cells come in non-decreasing f,
      and every node with a parent got its g through an explored adjacent
      parent. */
  ghost predicate SearchResult(P: Problem, s: NodeMap, path: seq<Cell>, explored: seq<Cell>)
  {
    && P.open <= s.Keys
    && (forall c :: c in s ==> c in P.weights && s[c].weight == P.weights[c])
    && TraceRecords(s, explored, P.start)
    && (path != [] ==>
          && IsWalkBetween(P.open, path, P.start, P.goal) && NoRepeats(path)
          && explored != [] && explored[|explored| - 1] == P.goal
          && s[P.goal].g == Finite(WalkCost(P.weights, path))
          && (PositiveWeights(P) ==>
                forall w :: IsWalkBetween(P.open, w, P.start, P.goal) ==>
                  WalkCost(P.weights, path) <= WalkCost(P.weights, w)))
    && (path == [] ==>
          forall c, w :: IsWalkBetween(P.open, w, P.start, c) ==> c in explored && c != P.goal)
    && (P.start == P.goal ==> path == [P.start] && explored == [P.start])
    && FOrdered(P, s, explored)
    && ParentsLinked(s, explored)
  }

  // ---------------------------------------------------------------------
  // Walk costs

  /** The cost of a walk splits at any of its cells. */
  lemma {:induction false} WalkCostSplit(weights: map<Cell, int>, w: seq<Cell>, j: int)
    requires forall i :: 0 <= i < |w| ==> w[i] in weights
    requires 0 <= j < |w|
    ensures WalkCost(weights, w) == WalkCost(weights, w[..j + 1]) + WalkCost(weights, w[j..])
    decreases |w|
  {
    if j < |w| - 1 {
      var init := w[..|w| - 1];
      WalkCostSplit(weights, init, j);
      assert init[..j + 1] == w[..j + 1];
      assert init[j..] == w[j..][..|w[j..]| - 1];
    } else {
      assert w[..j + 1] == w;
    }
  }

  /** With weights of at least 1 a walk costs at least its number of steps. */
  lemma {:induction false} WalkCostAtLeastSteps(weights: map<Cell, int>, w: seq<Cell>)
    requires forall i :: 0 <= i < |w| ==> w[i] in weights && weights[w[i]] >= 1
    ensures WalkCost(weights, w) >= |w| - 1
  {
    if |w| > 1 {
      WalkCostAtLeastSteps(weights, w[..|w| - 1]);
    }
  }

  /** With every weight 1 a walk costs its number of steps. */
  lemma {:induction false} UnitWalkCost(weights: map<Cell, int>, w: seq<Cell>)
    requires forall i :: 0 <= i < |w| ==> w[i] in weights && weights[w[i]] == 1
    ensures WalkCost(weights, w) == |w| - 1 || (w == [] && WalkCost(weights, w) == 0)
  {
    if |w| > 1 {
      UnitWalkCost(weights, w[..|w| - 1]);
    }
  }

  /** With every weight at its default of 1, a path that keeps the promises
      of SearchResult has the fewest cells of all walks from the start to the
      goal: its number of steps is the shortest 4-connected distance. */
  lemma ShortestWithUnitWeights(P: Problem, s: NodeMap, path: seq<Cell>, explored: seq<Cell>, w: seq<Cell>)
    requires forall c :: c in P.open ==> c in P.weights && P.weights[c] == 1
    requires SearchResult(P, s, path, explored) && path != []
    requires IsWalkBetween(P.open, w, P.start, P.goal)
    ensures |path| <= |w|
  {
    UnitWalkCost(P.weights, path);
    UnitWalkCost(P.weights, w);
  }

  // ---------------------------------------------------------------------
  // The steps of the search

  /** Resetting every node and initialising the start establishes the
      invariant with the start alone on the frontier. */
  lemma InitStep(P: Problem, s0: NodeMap)
    requires P.open <= s0.Keys && P.start in P.open && P.goal in P.open
    requires forall c :: c in s0 ==> c in P.weights && s0[c].weight == P.weights[c]
    ensures Inv(P, Started(Cleared(s0), P.start, P.goal), [P.start], {}, [], P.start, [])
  {
    var s := Started(Cleared(s0), P.start, P.goal);
    var q := [P.start];
    assert s.Keys == s0.Keys;
    assert Basics(P, s);
    assert TraceOk(P, s, {}, []);
    assert QueueOk(P, s, q, {});
    forall c | c in s ensures CellOk(P, s, q, {}, c) {
      if c == P.start {
        assert s[c].g == Finite(0) && s[c].parent == None;
      } else {
        assert s[c] == ClearSearch(s0[c]);
      }
    }
    assert PendingOk(P, {}, P.start, []);
    assert EdgesOk(P, s, {}, P.start, []);
    assert Optimal(P, s, {});
  }

  /** Where a walk from the start leaves the closed set, at w[j], it meets
      the frontier, and g there is at most the cost of the walk up to it. */
  lemma CrossingOnFrontier(P: Problem, s: NodeMap, q: seq<Cell>, closed: set<Cell>, trace: seq<Cell>,
                           from: Cell, w: seq<Cell>, j: int)
    requires Inv(P, s, q, closed, trace, from, []) && PositiveWeights(P)
    requires IsWalk(P.open, w) && w[0] == P.start
    requires 1 <= j < |w| && w[j - 1] in closed && w[j] !in closed
    ensures w[j] in q && s[w[j]].g.Finite? && s[w[j]].g.value <= WalkCost(P.weights, w[..j + 1])
  {
    var x, y := w[j - 1], w[j];
    var pre := w[..j];
    WalkPrefix(P.open, w, j);
    assert IsWalkBetween(P.open, pre, P.start, x);
    assert s[x].g.AtMost(Finite(WalkCost(P.weights, pre)));
    assert EdgeOk(P, s, closed, from, [], x, y);
    assert CellOk(P, s, q, closed, x);
    assert CellOk(P, s, q, closed, y);
    assert w[..j + 1][..j] == pre;
  }

  /** The consistency argument of A*: when the walk w to u passes through
      y = w[j], f(u) <= f(y), both h are Manhattan distances to the goal and
      g(y) is at most the cost of the walk up to y, then g(u) is at most
      the cost of the whole walk. */
  lemma ThroughFrontier(P: Problem, s: NodeMap, w: seq<Cell>, j: int)
    requires PositiveWeights(P) && IsWalk(P.open, w) && 0 <= j < |w|
    requires w[j] in s && w[|w| - 1] in s
    requires var y, u := s[w[j]], s[w[|w| - 1]];
             && y.g.Finite? && u.g.Finite? && !y.f.Less(u.f)
             && y.f == y.g.Plus(Finite(y.h)) && u.f == u.g.Plus(Finite(u.h))
             && y.h == Manhattan(w[j], P.goal) && u.h == Manhattan(w[|w| - 1], P.goal)
    requires s[w[j]].g.value <= WalkCost(P.weights, w[..j + 1])
    ensures s[w[|w| - 1]].g.value <= WalkCost(P.weights, w)
  {
    WalkTail(P, w, j);
    var y, u := w[j], w[|w| - 1];
    ManhattanTriangle(y, u, P.goal);
    // f(u) <= f(y) = g(y) + h(y) <= g(y) + M(y, u) + h(u), and g(y) and
    // M(y, u) are bounded by the costs of the two parts of the walk.
    assert s[u].g.value + s[u].h <= s[y].g.value + s[y].h;
  }

  /** The part of a walk from w[j] to its end costs at least the Manhattan
      distance it covers, and the two parts meeting at w[j] add up to the
      cost of the whole walk. */
  lemma WalkTail(P: Problem, w: seq<Cell>, j: int)
    requires PositiveWeights(P) && IsWalk(P.open, w) && 0 <= j < |w|
    ensures Manhattan(w[j], w[|w| - 1]) <= WalkCost(P.weights, w[j..])
    ensures WalkCost(P.weights, w) == WalkCost(P.weights, w[..j + 1]) + WalkCost(P.weights, w[j..])
  {
    var rest := w[j..];
    WalkSuffix(P.open, w, j);
    WalkSpan(P.open, rest);
    WalkCostAtLeastSteps(P.weights, rest);
    WalkCostSplit(P.weights, w, j);
  }

  /** The cell the search polls has the least f on the frontier, so (with
      weights of at least 1 and the consistent Manhattan heuristic) its g is
      at most the cost of any walk to it: the walk leaves the closed set at
      some cell y on the frontier whose f bounds the polled cell's f. */
  lemma PolledIsOptimal(P: Problem, s: NodeMap, q: seq<Cell>, closed: set<Cell>, trace: seq<Cell>,
                        from: Cell, i: int, w: seq<Cell>)
    requires Inv(P, s, q, closed, trace, from, [])
    requires IsMinF(s, q, i) && PositiveWeights(P)
    requires IsWalkBetween(P.open, w, P.start, q[i])
    ensures s[q[i]].g.AtMost(Finite(WalkCost(P.weights, w)))
  {
    var u := q[i];
    WalkCostAtLeastSteps(P.weights, w);
    assert CellOk(P, s, q, closed, u);
    if closed != {} {
      var j := Crossing(w, closed);
      var y := w[j];
      CrossingOnFrontier(P, s, q, closed, trace, from, w, j);
      assert CellOk(P, s, q, closed, y);
      var m :| 0 <= m < |q| && q[m] == y;
      assert !s[y].f.Less(s[u].f);
      ThroughFrontier(P, s, w, j);
    }
  }

  /** Closing the polled cell u: the explored list grows by u. */
  lemma CloseTrace(P: Problem, s: NodeMap, closed: set<Cell>, trace: seq<Cell>, u: Cell)
    requires Basics(P, s) && TraceOk(P, s, closed, trace)
    requires u in P.open && u !in closed && (trace == [] ==> u == P.start)
    ensures TraceOk(P, Visited(s, u, |trace| + 1), closed + {u}, trace + [u])
  {
    var s' := Visited(s, u, |trace| + 1);
    var trace' := trace + [u];
    assert u !in trace;
    assert NoRepeats(trace') by {
      forall a, b | 0 <= a < b < |trace'| ensures trace'[a] != trace'[b] {
        if b == |trace| {
          assert trace'[a] == trace[a];
        } else {
          assert trace'[a] == trace[a] && trace'[b] == trace[b];
        }
      }
    }
    forall k | 0 <= k < |trace'|
      ensures trace'[k] in s' && s'[trace'[k]].visitOrder == k + 1 && s'[trace'[k]].explored
    {
      if k < |trace| {
        assert trace'[k] == trace[k] && trace[k] != u;
      }
    }
  }

  /** Closing the polled entry i: it leaves the frontier. */
  lemma CloseQueue(P: Problem, s: NodeMap, q: seq<Cell>, closed: set<Cell>, i: int, order: int)
    requires Basics(P, s) && QueueOk(P, s, q, closed)
    requires 0 <= i < |q| && q[i] != P.goal
    ensures QueueOk(P, Visited(s, q[i], order), RemoveAt(q, i), closed + {q[i]})
  {
    var q' := RemoveAt(q, i);
    assert NoRepeats(q') by {
      forall a, b | 0 <= a < b < |q'| ensures q'[a] != q'[b] {
        var a0 := if a < i then a else a + 1;
        var b0 := if b < i then b else b + 1;
        assert q'[a] == q[a0] && q'[b] == q[b0];
      }
    }
    forall m | 0 <= m < |q'| ensures q'[m] in P.open && q'[m] != q[i] && q'[m] !in closed {
      var m0 := if m < i then m else m + 1;
      assert q'[m] == q[m0];
    }
  }

  /** Closing the polled entry i keeps every per-cell fact. */
  lemma CloseCells(P: Problem, s: NodeMap, q: seq<Cell>, closed: set<Cell>, trace: seq<Cell>,
                   from: Cell, i: int)
    requires Inv(P, s, q, closed, trace, from, []) && 0 <= i < |q|
    ensures CellsOk(P, Visited(s, q[i], |trace| + 1), RemoveAt(q, i), closed + {q[i]})
  {
    var u := q[i];
    var s' := Visited(s, u, |trace| + 1);
    var q' := RemoveAt(q, i);
    var closed' := closed + {u};
    forall c | c in s' ensures CellOk(P, s', q', closed', c) {
      assert CellOk(P, s, q, closed, c);
      if c in q && c != u {
        var m :| 0 <= m < |q| && q[m] == c;
        if m < i {
          assert q'[m] == c;
        } else {
          assert q'[m - 1] == c;
        }
      }
      if s[c].parent.Some? {
        var par := s[c].parent.value;
        assert par in trace;
        var k :| 0 <= k < |trace| && trace[k] == par;
      }
    }
  }

  /** Closing the polled entry i: every edge out of the new closed set is
      relaxed except those from the polled cell, which are all pending. */
  lemma CloseEdges(P: Problem, s: NodeMap, q: seq<Cell>, closed: set<Cell>, trace: seq<Cell>,
                   from: Cell, i: int)
    requires Inv(P, s, q, closed, trace, from, []) && 0 <= i < |q|
    ensures PendingOk(P, closed + {q[i]}, q[i], NeighborCells(P.open, q[i]))
    ensures EdgesOk(P, Visited(s, q[i], |trace| + 1), closed + {q[i]}, q[i], NeighborCells(P.open, q[i]))
  {
    var u := q[i];
    var s' := Visited(s, u, |trace| + 1);
    var pending := NeighborCells(P.open, u);
    NeighborCellsSpec(P.open, u);
    forall k, x ensures EdgeOk(P, s', closed + {u}, u, pending, k, x) {
      if k != u {
        assert EdgeOk(P, s, closed, from, [], k, x);
      }
    }
  }

  /** Closing the polled entry i keeps the closed cells optimal. */
  lemma CloseOptimal(P: Problem, s: NodeMap, q: seq<Cell>, closed: set<Cell>, trace: seq<Cell>,
                     from: Cell, i: int)
    requires Inv(P, s, q, closed, trace, from, []) && IsMinF(s, q, i)
    ensures Optimal(P, Visited(s, q[i], |trace| + 1), closed + {q[i]})
  {
    var u := q[i];
    var s' := Visited(s, u, |trace| + 1);
    if PositiveWeights(P) {
      forall c, w | c in closed + {u} && c in s' && IsWalkBetween(P.open, w, P.start, c)
        ensures s'[c].g.AtMost(Finite(WalkCost(P.weights, w)))
      {
        if c == u {
          PolledIsOptimal(P, s, q, closed, trace, from, i, w);
        }
      }
    }
  }

  /** Polling a cell that is not the goal, stamping it and closing it keeps
      the invariant, with all its open neighbours pending. */
  lemma CloseStep(P: Problem, s: NodeMap, q: seq<Cell>, closed: set<Cell>, trace: seq<Cell>,
                  from: Cell, i: int)
    requires Inv(P, s, q, closed, trace, from, [])
    requires IsMinF(s, q, i) && q[i] != P.goal
    ensures Inv(P, Visited(s, q[i], |trace| + 1), RemoveAt(q, i), closed + {q[i]}, trace + [q[i]],
                q[i], NeighborCells(P.open, q[i]))
  {
    CloseTrace(P, s, closed, trace, q[i]);
    CloseQueue(P, s, q, closed, i, |trace| + 1);
    CloseCells(P, s, q, closed, trace, from, i);
    CloseEdges(P, s, q, closed, trace, from, i);
    CloseOptimal(P, s, q, closed, trace, from, i);
  }

  /** Polling the goal and stamping it leaves a state from which the parent
      chain of the goal is a cheapest path; when the start is the goal,
      nothing had been explored before. */
  lemma GoalStep(P: Problem, s: NodeMap, q: seq<Cell>, closed: set<Cell>, trace: seq<Cell>,
                 from: Cell, i: int)
    requires Inv(P, s, q, closed, trace, from, [])
    requires IsMinF(s, q, i) && q[i] == P.goal
    ensures Found(P, Visited(s, P.goal, |trace| + 1), trace + [P.goal])
    ensures P.start == P.goal ==> trace == []
  {
    var s' := Visited(s, P.goal, |trace| + 1);
    assert P.goal in q;
    GoalTrace(P, s, closed, trace);
    forall c | c in s'
      ensures s'[c].weight == P.weights[c] && FoundCell(P, s', c) && ChainCell(s', c)
    {
      assert CellOk(P, s, q, closed, c);
      GoalCell(P, s, q, closed, trace, c);
    }
    forall c | c !in s' ensures ChainCell(s', c) {
    }
    if PositiveWeights(P) {
      forall w | IsWalkBetween(P.open, w, P.start, P.goal)
        ensures s'[P.goal].g.AtMost(Finite(WalkCost(P.weights, w)))
      {
        PolledIsOptimal(P, s, q, closed, trace, from, i, w);
      }
    }
  }

  /** Stamping the goal appends it to the recorded explored list. */
  lemma GoalTrace(P: Problem, s: NodeMap, closed: set<Cell>, trace: seq<Cell>)
    requires P.goal in s && P.goal !in closed
    requires TraceOk(P, s, closed, trace)
    requires trace == [] ==> P.goal == P.start
    ensures TraceRecords(Visited(s, P.goal, |trace| + 1), trace + [P.goal], P.start)
  {
    var s' := Visited(s, P.goal, |trace| + 1);
    var trace' := trace + [P.goal];
    assert P.goal !in trace;
    assert NoRepeats(trace') by {
      forall a, b | 0 <= a < b < |trace'| ensures trace'[a] != trace'[b] {
        if b == |trace| {
          assert trace'[a] == trace[a];
        } else {
          assert trace'[a] == trace[a] && trace'[b] == trace[b];
        }
      }
    }
    forall k | 0 <= k < |trace'|
      ensures trace'[k] in s' && s'[trace'[k]].visitOrder == k + 1 && s'[trace'[k]].explored
    {
      if k < |trace| {
        assert trace'[k] == trace[k] && trace[k] != P.goal;
      }
    }
  }

  /** One cell after the goal is stamped: a visited cell has a finite g and,
      unless it is the start, a visited parent with a smaller visit order. */
  lemma GoalCell(P: Problem, s: NodeMap, q: seq<Cell>, closed: set<Cell>, trace: seq<Cell>, c: Cell)
    requires c in s && P.goal in s && P.goal in q && P.goal !in closed
    requires CellOk(P, s, q, closed, c)
    requires TraceOk(P, s, closed, trace)
    ensures var s' := Visited(s, P.goal, |trace| + 1);
            s'[c].weight == P.weights[c] && FoundCell(P, s', c) && ChainCell(s', c)
  {
    if s[c].parent.Some? {
      var par := s[c].parent.value;
      assert par in trace;
      var k :| 0 <= k < |trace| && trace[k] == par;
    }
  }

  /** A neighbour that is closed, or that the current cell does not reach
      more cheaply, is left alone and the invariant still holds. */
  lemma KeepStep(P: Problem, s: NodeMap, q: seq<Cell>, closed: set<Cell>, trace: seq<Cell>,
                 from: Cell, pending: seq<Cell>)
    requires Inv(P, s, q, closed, trace, from, pending) && pending != []
    requires pending[0] in closed ||
             (pending[0] in s && !s[from].g.Plus(Finite(s[pending[0]].weight)).Less(s[pending[0]].g))
    ensures Inv(P, s, q, closed, trace, from, pending[1..])
  {
    var nb := pending[0];
    assert CellOk(P, s, q, closed, from);
    CostTrichotomy(s[from].g.Plus(Finite(s[nb].weight)), s[nb].g);
    forall k, x ensures EdgeOk(P, s, closed, from, pending[1..], k, x) {
      assert EdgeOk(P, s, closed, from, pending, k, x);
    }
  }

  /** The improved neighbour moves to the back of the frontier. */
  lemma ImproveQueue(P: Problem, s: NodeMap, q: seq<Cell>, closed: set<Cell>, nb: Cell, s': NodeMap)
    requires QueueOk(P, s, q, closed) && closed != {} && nb !in closed && nb in P.open
    requires P.start in s' && s'[P.start] == s[P.start]
    ensures QueueOk(P, s', RemoveFirst(q, nb) + [nb], closed)
  {
    var r := RemoveFirst(q, nb);
    var q' := r + [nb];
    RemoveFirstNoRepeats(q, nb);
    assert NoRepeats(q') by {
      forall a, b | 0 <= a < b < |q'| ensures q'[a] != q'[b] {
        if b == |r| {
          assert q'[a] == r[a];
        } else {
          assert q'[a] == r[a] && q'[b] == r[b];
        }
      }
    }
    forall m | 0 <= m < |q'| ensures q'[m] in P.open && q'[m] !in closed {
      if m < |r| {
        assert q'[m] in r;
        var m0 :| 0 <= m0 < |q| && q[m0] == q'[m];
      }
    }
  }

  /** A neighbour that the current cell reaches more cheaply takes the
      current cell as parent, gets the new g and the heuristic, and moves to
      the back of the frontier; the invariant still holds. */
  lemma ImproveStep(P: Problem, s: NodeMap, q: seq<Cell>, closed: set<Cell>, trace: seq<Cell>,
                    from: Cell, pending: seq<Cell>, nb: Cell, t: int)
    requires Inv(P, s, q, closed, trace, from, pending) && pending != [] && nb == pending[0]
    requires nb !in closed && nb in s
    requires s[from].g.Plus(Finite(s[nb].weight)).Less(s[nb].g)
    requires s[from].g.Finite? && t == s[from].g.value + s[nb].weight
    ensures Inv(P, Improved(s, nb, from, t, P.goal), RemoveFirst(q, nb) + [nb], closed, trace, from, pending[1..])
  {
    assert CellOk(P, s, q, closed, from);
    var s' := Improved(s, nb, from, t, P.goal);
    var q' := RemoveFirst(q, nb) + [nb];
    ImproveQueue(P, s, q, closed, nb, s');
    ImproveCells(P, s, q, closed, from, nb);
    forall k, x ensures EdgeOk(P, s', closed, from, pending[1..], k, x) {
      assert EdgeOk(P, s, closed, from, pending, k, x);
    }
    forall k | 0 <= k < |trace| ensures s'[trace[k]].visitOrder == s[trace[k]].visitOrder {
    }
  }

  /** The per-cell facts after an improvement. */
  lemma ImproveCells(P: Problem, s: NodeMap, q: seq<Cell>, closed: set<Cell>, from: Cell, nb: Cell)
    requires CellsOk(P, s, q, closed) && from in s && nb in s
    requires from in closed && nb !in closed && nb in P.open && Adjacent(from, nb) && P.start in closed
    requires s[from].g.Finite?
    ensures CellsOk(P, Improved(s, nb, from, s[from].g.value + s[nb].weight, P.goal),
                    RemoveFirst(q, nb) + [nb], closed)
  {
    assert CellOk(P, s, q, closed, from);
    assert CellOk(P, s, q, closed, nb);
    var t := s[from].g.value + s[nb].weight;
    var s' := Improved(s, nb, from, t, P.goal);
    forall c | c in s' ensures CellOk(P, s', RemoveFirst(q, nb) + [nb], closed, c) {
      assert CellOk(P, s, q, closed, c);
      ImproveCell(P, s, q, closed, from, nb, t, c);
    }
  }

  /** One cell after an improvement of nb through from. */
  lemma ImproveCell(P: Problem, s: NodeMap, q: seq<Cell>, closed: set<Cell>, from: Cell, nb: Cell,
                    t: int, c: Cell)
    requires c in s && nb in s && from in s
    requires CellOk(P, s, q, closed, c) && CellOk(P, s, q, closed, from)
    requires from in closed && nb !in closed && nb in P.open && Adjacent(from, nb)
    requires P.start in closed && nb in P.weights && s[nb].weight == P.weights[nb]
    requires t == s[from].g.value + s[nb].weight
    ensures CellOk(P, Improved(s, nb, from, t, P.goal), RemoveFirst(q, nb) + [nb], closed, c)
  {
    var s' := Improved(s, nb, from, t, P.goal);
    var r := RemoveFirst(q, nb);
    if c != nb && c in q {
      assert c in r;
    }
  }

  /** When the frontier runs empty, every cell that a walk from the start
      reaches is closed; in particular no walk reaches the goal. */
  lemma {:induction false} ExhaustedStep(P: Problem, s: NodeMap, closed: set<Cell>, trace: seq<Cell>,
                                         from: Cell, c: Cell, w: seq<Cell>)
    requires Inv(P, s, [], closed, trace, from, [])
    requires IsWalkBetween(P.open, w, P.start, c)
    ensures c in closed && c != P.goal
    decreases |w|
  {
    if |w| > 1 {
      var x := w[|w| - 2];
      WalkPrefix(P.open, w, |w| - 1);
      ExhaustedStep(P, s, closed, trace, from, x, w[..|w| - 1]);
      assert EdgeOk(P, s, closed, from, [], x, c);
      assert CellOk(P, s, [], closed, x);
      assert CellOk(P, s, [], closed, c);
    }
  }

  /** The parent chain of the goal, read from the start, is a walk from the
      start to the goal with no repeated cell, and the goal's g is its
      cost. */
  lemma ChainIsPath(P: Problem, s: NodeMap, trace: seq<Cell>, path: seq<Cell>)
    requires Found(P, s, trace) && IsParentChain(s, path, P.goal)
    ensures IsWalkBetween(P.open, path, P.start, P.goal) && NoRepeats(path)
    ensures s[P.goal].g == Finite(WalkCost(P.weights, path))
  {
    ChainPrefix(P, s, trace, path, |path|);
    assert path[..|path|] == path;
    forall a, b | 0 <= a < b < |path| ensures path[a] != path[b] {
      ChainPrefix(P, s, trace, path, b + 1);
    }
  }

  /** The first k cells of the parent chain: a walk from the start to the
      k-th cell, whose g is the walk's cost and whose visit order exceeds
      that of every earlier cell. */
  lemma {:induction false} ChainPrefix(P: Problem, s: NodeMap, trace: seq<Cell>, path: seq<Cell>, k: int)
    requires Found(P, s, trace) && IsParentChain(s, path, P.goal) && 1 <= k <= |path|
    ensures IsWalkBetween(P.open, path[..k], P.start, path[k - 1])
    ensures s[path[k - 1]].g == Finite(WalkCost(P.weights, path[..k]))
    ensures forall a :: 0 <= a < k - 1 ==> s[path[a]].visitOrder < s[path[k - 1]].visitOrder
  {
    if k == 1 {
      assert FoundCell(P, s, path[0]);
      assert path[..1] == [P.start];
    } else {
      ChainPrefix(P, s, trace, path, k - 1);
      var par, c := path[k - 2], path[k - 1];
      assert s[c].parent == Some(par);
      assert FoundCell(P, s, c);
      var pre := path[..k - 1];
      var cur := path[..k];
      assert cur == pre + [c];
      assert cur[..k - 1] == pre;
      assert IsWalk(P.open, cur) by {
        forall a | 0 <= a < k - 1 ensures Adjacent(cur[a], cur[a + 1]) {
          if a < k - 2 {
            assert cur[a] == pre[a] && cur[a + 1] == pre[a + 1];
          }
        }
      }
    }
  }

  /** Once the goal has been found, its parent chain is a result that keeps
      every promise of SearchResult. */
  lemma FoundResult(P: Problem, s: NodeMap, trace: seq<Cell>, path: seq<Cell>)
    requires Found(P, s, trace) && IsParentChain(s, path, P.goal)
    requires P.start == P.goal ==> trace == [P.goal]
    requires FOrdered(P, s, trace) && ParentsLinked(s, trace)
    ensures SearchResult(P, s, path, trace)
  {
    ChainIsPath(P, s, trace, path);
  }

  /** When the frontier runs empty, the empty path keeps every promise of
      SearchResult. */
  lemma ExhaustedResult(P: Problem, s: NodeMap, closed: set<Cell>, trace: seq<Cell>, from: Cell)
    requires Inv(P, s, [], closed, trace, from, []) && Ordered(P, s, [], trace, from)
    ensures SearchResult(P, s, [], trace)
  {
    ParentsFromInv(P, s, [], closed, trace, from);
    forall c | c in s ensures s[c].weight == P.weights[c] {
      assert CellOk(P, s, [], closed, c);
    }
    forall c, w | IsWalkBetween(P.open, w, P.start, c) ensures c in trace && c != P.goal {
      ExhaustedStep(P, s, closed, trace, from, c, w);
    }
  }

  // ---------------------------------------------------------------------
  // Order of exploration and parent links

  /** Polling the entry i of least f, stamping it and recording it keeps
      the order invariant with that cell explored last (for the goal as for
      any other cell). */
  lemma OrderedClose(P: Problem, s: NodeMap, q: seq<Cell>, closed: set<Cell>, trace: seq<Cell>,
                     from: Cell, i: int)
    requires Inv(P, s, q, closed, trace, from, []) && Ordered(P, s, q, trace, from) && IsMinF(s, q, i)
    ensures Ordered(P, Visited(s, q[i], |trace| + 1), RemoveAt(q, i), trace + [q[i]], q[i])
  {
    var u, s', t' := q[i], Visited(s, q[i], |trace| + 1), trace + [q[i]];
    if PositiveWeights(P) {
      forall a, b | 0 <= a < b < |t'| ensures FAtMost(s', t'[a], t'[b]) {
        if b == |trace| {
          assert FAtMost(s, from, q[i]);
          if a < |trace| - 1 {
            assert FAtMost(s, trace[a], trace[|trace| - 1]);
            CostTransitive(s[trace[a]].f, s[from].f, s[u].f);
          }
        } else {
          assert FAtMost(s, trace[a], trace[b]);
        }
      }
      forall k | 0 <= k < |RemoveAt(q, i)| ensures FAtMost(s', u, RemoveAt(q, i)[k]) {
        assert RemoveAt(q, i)[k] == if k < i then q[k] else q[k + 1];
      }
    }
  }

  /** Improving the pending neighbour nb through `from` keeps the order
      invariant: the neighbour's new f is at least f(from), because one
      step of weight at least 1 lowers the Manhattan heuristic by at most
      one. */
  lemma OrderedImprove(P: Problem, s: NodeMap, q: seq<Cell>, closed: set<Cell>, trace: seq<Cell>,
                       from: Cell, pending: seq<Cell>, nb: Cell, t: int)
    requires Inv(P, s, q, closed, trace, from, pending) && Ordered(P, s, q, trace, from)
    requires pending != [] && nb == pending[0] && nb !in closed && nb in s
    requires s[from].g.Finite? && t == s[from].g.value + s[nb].weight
    ensures Ordered(P, Improved(s, nb, from, t, P.goal), RemoveFirst(q, nb) + [nb], trace, from)
  {
    var s', q' := Improved(s, nb, from, t, P.goal), RemoveFirst(q, nb) + [nb];
    assert from in closed && from in trace;
    assert nb !in trace;
    if PositiveWeights(P) {
      assert CellOk(P, s, q, closed, from);
      assert CellOk(P, s, q, closed, nb);
      assert nb in P.open && Adjacent(from, nb);
      ManhattanTriangle(from, nb, P.goal);
      assert s'[from].f.AtMost(s'[nb].f);
      forall a, b | 0 <= a < b < |trace| ensures FAtMost(s', trace[a], trace[b]) {
        assert FAtMost(s, trace[a], trace[b]);
      }
      forall k | 0 <= k < |q'| ensures FAtMost(s', from, q'[k]) {
        if k < |q'| - 1 {
          assert q'[k] in q;
          var m :| 0 <= m < |q| && q[m] == q'[k];
          assert FAtMost(s, from, q[m]);
        }
      }
    }
  }

  /** The invariant gives every node with a parent an explored adjacent
      parent through which it got its g. */
  lemma ParentsFromInv(P: Problem, s: NodeMap, q: seq<Cell>, closed: set<Cell>, trace: seq<Cell>, from: Cell)
    requires Inv(P, s, q, closed, trace, from, [])
    ensures ParentsLinked(s, trace)
  {
    forall c ensures ParentCell(s, trace, c) {
      if c in s {
        assert CellOk(P, s, q, closed, c);
      }
    }
  }

  /** Stamping the polled goal keeps the parent links, with the goal
      appended to the explored list. */
  lemma ParentsAtGoal(P: Problem, s: NodeMap, q: seq<Cell>, closed: set<Cell>, trace: seq<Cell>,
                      from: Cell, i: int)
    requires Inv(P, s, q, closed, trace, from, []) && 0 <= i < |q|
    ensures ParentsLinked(Visited(s, q[i], |trace| + 1), trace + [q[i]])
  {
    var s', t' := Visited(s, q[i], |trace| + 1), trace + [q[i]];
    forall c ensures ParentCell(s', t', c) {
      if c in s {
        assert CellOk(P, s, q, closed, c);
      }
    }
  }
}

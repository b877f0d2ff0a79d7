/** The fixed-size grid: a rows x cols matrix of nodes, a parallel wall
    matrix and optional start and goal references. */
module Grids {
  import opened Common
  import opened Nodes

  /** The cells up, down, left and right of p, in that order. */
  function Candidates(p: Cell): seq<Cell>
  {
    [(p.0 - 1, p.1), (p.0 + 1, p.1), (p.0, p.1 - 1), (p.0, p.1 + 1)]
  }

  /** The candidates of p that are open, in the order up, down, left, right. */
  function NeighborCells(open: set<Cell>, p: Cell): seq<Cell>
  {
    FilterOpen(open, Candidates(p))
  }

  function FilterOpen(open: set<Cell>, s: seq<Cell>): (r: seq<Cell>)
    ensures |r| <= |s|
    ensures forall x :: x in r <==> x in s && x in open
  {
    if s == [] then []
    else FilterOpen(open, s[..|s| - 1]) + (if s[|s| - 1] in open then [s[|s| - 1]] else [])
  }

  /** Filtering one more element of s adds it when it is open. */
  lemma FilterStep(open: set<Cell>, s: seq<Cell>, k: int)
    requires 0 <= k < |s|
    ensures FilterOpen(open, s[..k + 1]) == FilterOpen(open, s[..k]) + (if s[k] in open then [s[k]] else [])
  {
    assert s[..k + 1][..k] == s[..k];
  }

  /** The neighbours of p are exactly the open cells that share a side with
      p; there are at most four and none is listed twice. */
  lemma {:induction false} NeighborCellsSpec(open: set<Cell>, p: Cell)
    ensures |NeighborCells(open, p)| <= 4
    ensures forall x :: x in NeighborCells(open, p) <==> x in open && Adjacent(p, x)
    ensures NoRepeats(NeighborCells(open, p))
  {
    var cs := Candidates(p);
    forall x | Adjacent(p, x) ensures x in cs {
      if x.0 == p.0 {
        assert x == cs[2] || x == cs[3];
      } else {
        assert x == cs[0] || x == cs[1];
      }
    }
    FilterNoRepeats(open, cs);
  }

  /** Filtering a list without repeats gives a list without repeats. */
  lemma {:induction false} FilterNoRepeats(open: set<Cell>, s: seq<Cell>)
    requires NoRepeats(s)
    ensures NoRepeats(FilterOpen(open, s))
    decreases |s|
  {
    if s != [] {
      var init, last := s[..|s| - 1], s[|s| - 1];
      assert NoRepeats(init) by {
        forall i, j | 0 <= i < j < |init| ensures init[i] != init[j] {
          assert init[i] == s[i] && init[j] == s[j];
        }
      }
      FilterNoRepeats(open, init);
      var f := FilterOpen(open, init);
      if last in open {
        assert last !in init by {
          forall i | 0 <= i < |init| ensures init[i] != last {
            assert init[i] == s[i];
          }
        }
        forall i, j | 0 <= i < j < |f + [last]| ensures (f + [last])[i] != (f + [last])[j] {
          if j == |f| {
            assert (f + [last])[i] == f[i];
          } else {
            assert (f + [last])[i] == f[i] && (f + [last])[j] == f[j];
          }
        }
      }
    }
  }

  /** The coordinates of a list of nodes. */
  function Positions(ns: seq<Node>): (ps: seq<Cell>)
    ensures |ps| == |ns| && forall i :: 0 <= i < |ns| ==> ps[i] == ns[i].Pos()
  {
    seq(|ns|, i requires 0 <= i < |ns| => ns[i].Pos())
  }

  /** The open cells of a rows x cols grid after the wall flag of p is set
      to `wall`: unchanged when p lies outside the grid, without p for a
      wall and with p otherwise. */
  function WithWall(rows: int, cols: int, open: set<Cell>, p: Cell, wall: bool): set<Cell>
  {
    if !(0 <= p.0 < rows && 0 <= p.1 < cols) then open else if wall then open - {p} else open + {p}
  }

  /** Removes x from open when it is open and adds it otherwise. */
  function Toggle(open: set<Cell>, x: Cell): set<Cell>
  {
    if x in open then open - {x} else open + {x}
  }

  /** Toggling a cell twice restores the set of open cells. */
  lemma ToggleTwice(open: set<Cell>, x: Cell)
    ensures Toggle(Toggle(open, x), x) == open
  {
  }

  class Grid {
    const rows: int
    const cols: int
    const nodes: array2<Node>
    const walls: array2<bool>
    var startNode: Node?
    var goalNode: Node?
    /** Every node of the matrix. */
    ghost const NodeSet: set<Node>

    /** (r, c) is a cell of the grid. */
    predicate InBounds(r: int, c: int)
      ensures InBounds(r, c) <==> (r, c) in Box(rows, cols)
    {
      0 <= r < rows && 0 <= c < cols
    }

    /** The wall matrix has the grid's size. */
    predicate Sized()
    {
      walls.Length0 == rows && walls.Length1 == cols
    }

    /** The matrices have the grid's size, the node at (r, c) has row r and
        column c, and a start or goal that is set lies inside the grid. */
    ghost predicate Valid()
      reads this, nodes
    {
      && Shape()
      && (startNode != null ==> InBounds(startNode.row, startNode.col))
      && (goalNode != null ==> InBounds(goalNode.row, goalNode.col))
    }

    /** The part of Valid that concerns the matrices only. */
    ghost predicate Shape()
      reads nodes
    {
      && rows >= 1 && cols >= 1
      && nodes.Length0 == rows && nodes.Length1 == cols
      && Sized()
      && (forall r, c :: 0 <= r < rows && 0 <= c < cols ==>
            nodes[r, c].row == r && nodes[r, c].col == c && nodes[r, c] in NodeSet)
    }

    /** Every node of NodeSet is the one stored at its own coordinates. */
    ghost predicate Indexed()
      reads nodes
    {
      forall n :: n in NodeSet ==>
        0 <= n.row < nodes.Length0 && 0 <= n.col < nodes.Length1 && nodes[n.row, n.col] == n
    }

    /** The node stored for an in-bounds cell. */
    function At(p: Cell): (n: Node)
      reads this, nodes
      requires Valid() && InBounds(p.0, p.1)
      ensures n in NodeSet && n.Pos() == p
    {
      nodes[p.0, p.1]
    }

    /** The cells that are not walls. */
    ghost function OpenCells(): (open: set<Cell>)
      reads walls
      ensures forall r, c {:trigger (r, c) in open} :: (r, c) in open <==> 0 <= r < walls.Length0 && 0 <= c < walls.Length1 && !walls[r, c]
    {
      set p | p in Box(walls.Length0, walls.Length1) && !walls[p.0, p.1]
    }

    /** The mutable fields of every node, by coordinates. */
    ghost function Snapshot(): (s: map<Cell, NodeState>)
      reads nodes, NodeSet
      requires Shape()
      ensures s.Keys == Box(rows, cols)
    {
      map p | p in Box(rows, cols) :: nodes[p.0, p.1].State()
    }

    /** A node of the grid is listed in the snapshot under its own cell. */
    lemma SnapshotAt(n: Node)
      requires Shape() && Indexed() && n in NodeSet
      ensures n.Pos() in Snapshot() && Snapshot()[n.Pos()] == n.State()
    {
    }

    /** Writing the fields of one node changes the snapshot at that node's
        cell only. */
    twostate lemma SnapshotAfterWrite(n: Node)
      requires old(Shape()) && old(Indexed()) && n in NodeSet
      requires unchanged(nodes)
      requires forall m :: m in NodeSet && m != n ==> unchanged(m)
      ensures Shape() && Indexed()
      ensures Snapshot() == old(Snapshot())[n.Pos() := n.State()]
    {
    }

    /** A step that writes neither the grid, its matrices nor any of its
        nodes keeps the grid valid and its open cells and snapshot as they
        were. */
    twostate lemma Untouched()
      requires old(Valid()) && old(Indexed())
      requires unchanged(this, nodes, walls) && unchanged(NodeSet)
      ensures Valid() && Indexed() && OpenCells() == old(OpenCells()) && Snapshot() == old(Snapshot())
    {
    }

    /** A step that writes no field of the grid and neither of its matrices
        (only fields of nodes) keeps the grid valid and its open cells as
        they were. */
    twostate lemma MatricesUntouched()
      requires old(Valid()) && old(Indexed())
      requires unchanged(this, nodes, walls)
      ensures Valid() && Indexed() && OpenCells() == old(OpenCells())
    {
    }

    /** Every node keeps f == g + h. */
    ghost predicate NodesValid()
      reads nodes, NodeSet
      requires Shape()
    {
      forall r, c :: 0 <= r < rows && 0 <= c < cols ==> nodes[r, c].Valid()
    }

    /** The constructor for dimensions that the factory Create accepts. */
    constructor (rows: int, cols: int)
      requires rows >= 1 && cols >= 1
      ensures this.rows == rows && this.cols == cols
      ensures Valid() && Indexed() && fresh(nodes) && fresh(walls) && fresh(NodeSet)
      ensures NodeSet == set r, c | 0 <= r < rows && 0 <= c < cols :: nodes[r, c]
      ensures OpenCells() == Box(rows, cols)
      ensures NodesValid()
      ensures forall r, c :: 0 <= r < rows && 0 <= c < cols ==>
        IsPristine(nodes[r, c].State()) && nodes[r, c].weight == 1
      ensures startNode == null && goalNode == null
    {
      var dummy := new Node(0, 0);
      var ns := new Node[rows, cols]((_, _) => dummy);
      var ws := new bool[rows, cols];
      InitNodes(ns, ws);
      this.rows := rows;
      this.cols := cols;
      nodes := ns;
      walls := ws;
      NodeSet := set r, c | 0 <= r < rows && 0 <= c < cols :: ns[r, c];
      startNode := null;
      goalNode := null;
    }

    /** initNodes: a fresh node with pristine search fields and weight 1 at
        every cell, and no walls. */
    static method InitNodes(ns: array2<Node>, ws: array2<bool>)
      requires ns.Length0 == ws.Length0 && ns.Length1 == ws.Length1
      modifies ns, ws
      ensures forall i, j :: 0 <= i < ns.Length0 && 0 <= j < ns.Length1 ==>
        fresh(ns[i, j]) && ns[i, j].row == i && ns[i, j].col == j && !ws[i, j] &&
        ns[i, j].Valid() && IsPristine(ns[i, j].State()) && ns[i, j].weight == 1
    {
      for r := 0 to ns.Length0
        invariant forall i, j :: 0 <= i < r && 0 <= j < ns.Length1 ==>
          fresh(ns[i, j]) && ns[i, j].row == i && ns[i, j].col == j && !ws[i, j] &&
          ns[i, j].Valid() && IsPristine(ns[i, j].State()) && ns[i, j].weight == 1
      {
        for c := 0 to ns.Length1
          invariant forall i, j :: 0 <= i < ns.Length0 && 0 <= j < ns.Length1 && (i < r || (i == r && j < c)) ==>
            fresh(ns[i, j]) && ns[i, j].row == i && ns[i, j].col == j && !ws[i, j] &&
            ns[i, j].Valid() && IsPristine(ns[i, j].State()) && ns[i, j].weight == 1
        {
          ns[r, c] := new Node(r, c);
          ws[r, c] := false;
        }
      }
    }

    /** new Grid(rows, cols): raises IllegalArgumentException unless both
        dimensions are at least 1. */
    static method Create(rows: int, cols: int) returns (r: Result<Grid>)
      ensures r.Failure? <==> rows < 1 || cols < 1
      ensures r.Success? ==> && fresh(r.value) && r.value.Valid() && r.value.Indexed()
                             && r.value.rows == rows && r.value.cols == cols
                             && r.value.OpenCells() == Box(rows, cols)
                             && r.value.startNode == null && r.value.goalNode == null
      ensures r.Success? ==> && fresh(r.value.NodeSet) && r.value.NodesValid()
                             && forall i, j :: 0 <= i < rows && 0 <= j < cols ==>
                                  IsPristine(r.value.nodes[i, j].State()) && r.value.nodes[i, j].weight == 1
    {
      if rows < 1 || cols < 1 {
        return Failure(IllegalArgument("rows/cols must be >= 1"));
      }
      var grid := new Grid(rows, cols);
      return Success(grid);
    }

    /** The node at (row, col), or null outside the grid. */
    function GetNodeAt(row: int, col: int): (n: Node?)
      reads this, nodes
      requires Valid()
      ensures n == null <==> !InBounds(row, col)
      ensures n != null ==> n in NodeSet && n.row == row && n.col == col
    {
      if !InBounds(row, col) then null else nodes[row, col]
    }

    /** Fail-closed wall query: everything outside the grid is a wall. */
    function IsWall(row: int, col: int): (b: bool)
      reads walls
      requires Sized()
      ensures b <==> (row, col) !in OpenCells()
    {
      if !InBounds(row, col) then true else walls[row, col]
    }

    /** Sets one wall flag; does nothing outside the grid. */
    method SetWall(row: int, col: int, wall: bool)
      requires Sized()
      modifies walls
      ensures forall r, c {:trigger walls[r, c]} :: 0 <= r < rows && 0 <= c < cols ==>
        walls[r, c] == if (r, c) == (row, col) then wall else old(walls[r, c])
      ensures OpenCells() == WithWall(rows, cols, old(OpenCells()), (row, col), wall)
    {
      if !InBounds(row, col) {
        return;
      }
      walls[row, col] := wall;
    }

    /** Flips one wall flag; does nothing outside the grid. */
    method ToggleWall(row: int, col: int)
      requires Sized()
      modifies walls
      ensures forall r, c {:trigger walls[r, c]} :: 0 <= r < rows && 0 <= c < cols ==>
        walls[r, c] == if (r, c) == (row, col) then !old(walls[r, c]) else old(walls[r, c])
      ensures OpenCells() == if !InBounds(row, col) then old(OpenCells())
                             else Toggle(old(OpenCells()), (row, col))
    {
      if !InBounds(row, col) {
        return;
      }
      walls[row, col] := !walls[row, col];
    }

    /** randomWalls(density, seed): every cell becomes a wall exactly when
        its draw falls below the density; `below(r, c)` says whether the draw
        for (r, c) did. Nothing but the wall matrix changes. */
    method RandomWalls(below: (int, int) -> bool)
      requires Sized()
      modifies walls
      ensures forall r, c :: 0 <= r < rows && 0 <= c < cols ==> walls[r, c] == below(r, c)
      ensures forall p :: p in OpenCells() <==> p in Box(rows, cols) && !below(p.0, p.1)
    {
      for r := 0 to rows
        invariant forall i, j :: 0 <= i < r && 0 <= j < cols ==> walls[i, j] == below(i, j)
      {
        for c := 0 to cols
          invariant forall i, j :: 0 <= i < rows && 0 <= j < cols && (i < r || (i == r && j < c)) ==>
            walls[i, j] == below(i, j)
        {
          walls[r, c] := below(r, c);
        }
      }
    }

    /** null clears the start; a node outside the grid raises
        IllegalArgumentException; any other node is stored, wall or not. */
    method SetStartNode(start: Node?) returns (res: Outcome)
      requires Valid()
      modifies this`startNode
      ensures Valid()
      ensures res.Fail? <==> start != null && !InBounds(start.row, start.col)
      ensures startNode == if res.Fail? then old(startNode) else start
    {
      if start == null {
        startNode := null;
        return Pass;
      }
      if !InBounds(start.row, start.col) {
        return Fail(IllegalArgument("start out of bounds"));
      }
      startNode := start;
      return Pass;
    }

    /** As SetStartNode, for the goal. */
    method SetGoalNode(goal: Node?) returns (res: Outcome)
      requires Valid()
      modifies this`goalNode
      ensures Valid()
      ensures res.Fail? <==> goal != null && !InBounds(goal.row, goal.col)
      ensures goalNode == if res.Fail? then old(goalNode) else goal
    {
      if goal == null {
        goalNode := null;
        return Pass;
      }
      if !InBounds(goal.row, goal.col) {
        return Fail(IllegalArgument("goal out of bounds"));
      }
      goalNode := goal;
      return Pass;
    }

    /** Clears the search fields of every node; weights, walls and the
        start and goal stay. */
    method ResetSearchState()
      requires Valid()
      modifies NodeSet
      ensures forall p :: p in old(Snapshot()) ==> Snapshot()[p] == ClearSearch(old(Snapshot())[p])
      ensures NodesValid()
    {
      for r := 0 to rows
        invariant forall i, j :: 0 <= i < rows && 0 <= j < cols ==>
          nodes[i, j].State() == if i < r then ClearSearch(old(nodes[i, j].State())) else old(nodes[i, j].State())
        invariant forall i, j :: 0 <= i < r && 0 <= j < cols ==> nodes[i, j].Valid()
      {
        for c := 0 to cols
          invariant forall i, j :: 0 <= i < rows && 0 <= j < cols ==>
            nodes[i, j].State() == if i < r || (i == r && j < c) then ClearSearch(old(nodes[i, j].State()))
                                   else old(nodes[i, j].State())
          invariant forall i, j :: 0 <= i < rows && 0 <= j < cols && (i < r || (i == r && j < c)) ==>
            nodes[i, j].Valid()
        {
          nodes[r, c].ResetSearchState();
        }
      }
    }

    /** Clears every wall, resets every node's search fields and weight, and
        clears the start and goal exactly when asked to. */
    method ResetAll(clearStartGoal: bool)
      requires Valid()
      modifies walls, NodeSet, this`startNode, this`goalNode
      ensures Valid()
      ensures forall r, c :: 0 <= r < rows && 0 <= c < cols ==>
        !walls[r, c] && nodes[r, c].Valid() && nodes[r, c].State() == Reinitialized(old(nodes[r, c].State()))
      ensures if clearStartGoal then startNode == null && goalNode == null
              else startNode == old(startNode) && goalNode == old(goalNode)
    {
      for r := 0 to rows
        invariant forall i, j :: 0 <= i < r && 0 <= j < cols ==>
          nodes[i, j].State() == Reinitialized(old(nodes[i, j].State())) && nodes[i, j].Valid() && !walls[i, j]
        invariant forall i, j :: r <= i < rows && 0 <= j < cols ==> nodes[i, j].State() == old(nodes[i, j].State())
        invariant startNode == old(startNode) && goalNode == old(goalNode)
      {
        ReinitRow(r);
      }
      if clearStartGoal {
        startNode := null;
        goalNode := null;
      }
    }

    /** The inner loop of ResetAll for row r: every cell of the row is
        opened and its node reinitialized; other rows stay as they were. */
    method ReinitRow(r: int)
      requires Valid() && 0 <= r < rows
      modifies walls, NodeSet
      ensures forall j :: 0 <= j < cols ==>
        nodes[r, j].State() == Reinitialized(old(nodes[r, j].State())) && nodes[r, j].Valid() && !walls[r, j]
      ensures forall i, j :: 0 <= i < rows && i != r && 0 <= j < cols ==>
        nodes[i, j].State() == old(nodes[i, j].State()) && walls[i, j] == old(walls[i, j])
    {
      for c := 0 to cols
        invariant forall j :: 0 <= j < c ==>
          nodes[r, j].State() == Reinitialized(old(nodes[r, j].State())) && nodes[r, j].Valid() && !walls[r, j]
        invariant forall j :: c <= j < cols ==> nodes[r, j].State() == old(nodes[r, j].State())
        invariant forall i, j :: 0 <= i < rows && i != r && 0 <= j < cols ==>
          nodes[i, j].State() == old(nodes[i, j].State()) && walls[i, j] == old(walls[i, j])
      {
        ReinitCell(r, c);
      }
    }

    /** The body of the loop of ResetAll for one cell: open it, clear its
        node's search fields and set its weight to 1. */
    method ReinitCell(r: int, c: int)
      requires Valid() && InBounds(r, c)
      modifies walls, nodes[r, c]
      ensures nodes[r, c].State() == Reinitialized(old(nodes[r, c].State())) && nodes[r, c].Valid()
      ensures forall i, j {:trigger walls[i, j]} :: 0 <= i < rows && 0 <= j < cols ==>
        walls[i, j] == if (i, j) == (r, c) then false else old(walls[i, j])
    {
      walls[r, c] := false;
      nodes[r, c].ResetSearchState();
      nodes[r, c].SetWeight(1);
    }

    /** The open up, down, left and right neighbours of n, in that order;
        nothing for null. */
    method GetNeighbors(n: Node?) returns (nb: seq<Node>)
      requires Valid()
      ensures n == null ==> nb == []
      ensures n != null ==> Positions(nb) == NeighborCells(OpenCells(), n.Pos())
      ensures forall i :: 0 <= i < |nb| ==> nb[i] in NodeSet
    {
      if n == null {
        return [];
      }
      var r, c := n.row, n.col;
      var del := [(-1, 0), (1, 0), (0, -1), (0, 1)];
      ghost var cs := Candidates(n.Pos());
      ghost var open := OpenCells();
      assert forall k :: 0 <= k < 4 ==> cs[k] == (r + del[k].0, c + del[k].1);
      nb := [];
      for k := 0 to 4
        invariant Positions(nb) == FilterOpen(open, cs[..k])
        invariant forall i :: 0 <= i < |nb| ==> nb[i] in NodeSet
      {
        FilterStep(open, cs, k);
        var nr, nc := r + del[k].0, c + del[k].1;
        if !InBounds(nr, nc) {
          continue;
        }
        if walls[nr, nc] {
          continue;
        }
        PositionsAppend(nb, nodes[nr, nc]);
        nb := nb + [nodes[nr, nc]];
      }
      assert cs[..4] == cs;
    }

    /** Cost of stepping from one node onto another: the target's weight,
        or infinity when either node is missing. */
    function MovementCost(from: Node?, to: Node?): (cost: Cost)
      reads to
      ensures cost == Infinite <==> from == null || to == null
      ensures to != null && from != null ==> cost == Finite(to.weight)
    {
      if from == null || to == null then Infinite else Finite(to.weight)
    }

    /** The character toString prints for (r, c): S for the start, else G
        for the goal, else # for a wall, else a dot. */
    function CellChar(r: int, c: int): (ch: char)
      reads this, walls
      requires 0 <= r < walls.Length0 && 0 <= c < walls.Length1
      ensures ch in "SG#."
      ensures ch == 'S' <==> startNode != null && startNode.Pos() == (r, c)
      ensures ch == 'G' <==> goalNode != null && goalNode.Pos() == (r, c)
                             && !(startNode != null && startNode.Pos() == (r, c))
      ensures ch == '#' <==> (r, c) !in OpenCells() && !(startNode != null && startNode.Pos() == (r, c))
                             && !(goalNode != null && goalNode.Pos() == (r, c))
      ensures ch == '.' <==> (r, c) in OpenCells() && !(startNode != null && startNode.Pos() == (r, c))
                             && !(goalNode != null && goalNode.Pos() == (r, c))
    {
      if startNode != null && startNode.row == r && startNode.col == c then 'S'
      else if goalNode != null && goalNode.row == r && goalNode.col == c then 'G'
      else if walls[r, c] then '#'
      else '.'
    }

    /** Character c of line r of the text form, the newline at c == cols. */
    function ExpectedChar(r: int, c: int): char
      reads this, walls
      requires 0 <= r < walls.Length0 && 0 <= c <= walls.Length1
    {
      if c < walls.Length1 then CellChar(r, c) else '\n'
    }

    /** Row r of the text form: one character per column, then a newline. */
    function RenderLine(r: int): (line: string)
      reads this, walls
      requires Sized() && 0 <= r < rows
      ensures |line| == cols + 1
      ensures forall c :: 0 <= c <= cols ==> line[c] == ExpectedChar(r, c)
    {
      seq(cols, c requires 0 <= c < cols reads this, walls => CellChar(r, c)) + ['\n']
    }

    /** The first k rows of the text form. */
    function RenderRows(k: int): string
      reads this, walls
      requires Sized() && 0 <= k <= rows
    {
      if k == 0 then [] else RenderRows(k - 1) + RenderLine(k - 1)
    }

    /** The first k rows of the text form hold k lines of cols characters,
        each ended by a newline. */
    lemma {:induction false} RenderRowsLength(k: int)
      requires Sized() && 0 <= k <= rows
      ensures |RenderRows(k)| == k * (cols + 1)
    {
      if k > 0 {
        RenderRowsLength(k - 1);
        AppendRow(RenderRows(k - 1), RenderLine(k - 1), k, cols + 1, 0, 0);
      }
    }

    /** Character c of line r of the text form is ExpectedChar(r, c): the
        cell's character, or the newline that ends the line. */
    lemma {:induction false} RenderRowsChar(k: int, r: int, c: int)
      requires Sized() && 0 <= r < k <= rows && 0 <= c <= cols
      ensures r * (cols + 1) + c < |RenderRows(k)|
      ensures RenderRows(k)[r * (cols + 1) + c] == ExpectedChar(r, c)
      decreases k
    {
      RenderRowsLength(k - 1);
      AppendRow(RenderRows(k - 1), RenderLine(k - 1), k, cols + 1, r, c);
      if r < k - 1 {
        RenderRowsChar(k - 1, r, c);
      }
    }

    /** The text form of the grid, built row by row. */
    method ToString() returns (s: string)
      requires Sized()
      ensures s == RenderRows(rows)
    {
      s := [];
      for r := 0 to rows
        invariant s == RenderRows(r)
      {
        ghost var before := s;
        for c := 0 to cols
          invariant s == before + seq(c, j requires 0 <= j < c reads this, walls => CellChar(r, j))
        {
          if startNode != null && startNode.row == r && startNode.col == c {
            s := s + ['S'];
          } else if goalNode != null && goalNode.row == r && goalNode.col == c {
            s := s + ['G'];
          } else if walls[r, c] {
            s := s + ['#'];
          } else {
            s := s + ['.'];
          }
        }
        s := s + ['\n'];
      }
    }
  }

  /** Removing a grid node from a list of grid nodes removes its cell from
      the list of their cells. */
  lemma {:induction false} PositionsRemoveFirst(G: Grid, ns: seq<Node>, n: Node)
    requires G.Shape() && G.Indexed() && n in G.NodeSet
    requires forall k :: 0 <= k < |ns| ==> ns[k] in G.NodeSet
    ensures Positions(RemoveFirst(ns, n)) == RemoveFirst(Positions(ns), n.Pos())
  {
    if ns != [] {
      assert Positions(ns)[0] == ns[0].Pos();
      assert Positions(ns)[1..] == Positions(ns[1..]);
      if ns[0] != n {
        assert ns[0].Pos() != n.Pos();
        PositionsRemoveFirst(G, ns[1..], n);
        assert Positions([ns[0]] + RemoveFirst(ns[1..], n)) == [ns[0].Pos()] + Positions(RemoveFirst(ns[1..], n));
      }
    }
  }

  /** Moving a grid node to the back of a list of grid nodes (remove, then
      add) does the same to the list of their cells. */
  lemma PositionsRequeue(G: Grid, ns: seq<Node>, n: Node) returns (r: seq<Node>)
    requires G.Shape() && G.Indexed() && n in G.NodeSet
    requires forall k :: 0 <= k < |ns| ==> ns[k] in G.NodeSet
    ensures r == RemoveFirst(ns, n) + [n]
    ensures Positions(r) == RemoveFirst(Positions(ns), n.Pos()) + [n.Pos()]
    ensures forall k :: 0 <= k < |r| ==> r[k] in G.NodeSet
  {
    var rest := RemoveFirst(ns, n);
    PositionsRemoveFirst(G, ns, n);
    PositionsAppend(rest, n);
    r := rest + [n];
    forall k | 0 <= k < |r| ensures r[k] in G.NodeSet {
      if k < |rest| {
        assert rest[k] in ns;
      }
    }
  }

  /** Two nodes of the grid at the same cell are the same node. */
  lemma SameCellSameNode(G: Grid, a: Node, b: Node)
    requires G.Indexed() && a in G.NodeSet && b in G.NodeSet && a.Pos() == b.Pos()
    ensures a == b
  {
  }

  /** Positions commutes with removing an entry. */
  lemma PositionsRemoveAt(ns: seq<Node>, i: int, S: set<Node>) returns (r: seq<Node>)
    requires 0 <= i < |ns|
    requires forall k :: 0 <= k < |ns| ==> ns[k] in S
    ensures r == ns[..i] + ns[i + 1..]
    ensures Positions(r) == RemoveAt(Positions(ns), i)
    ensures forall k :: 0 <= k < |r| ==> r[k] in S
  {
    r := ns[..i] + ns[i + 1..];
    forall k | 0 <= k < |r| ensures r[k] in S {
      if k < i {
        assert r[k] == ns[k];
      } else {
        assert r[k] == ns[k + 1];
      }
    }
  }

  /** Positions commutes with appending a node. */
  lemma PositionsAppend(ns: seq<Node>, n: Node)
    ensures Positions(ns + [n]) == Positions(ns) + [n.Pos()]
  {
  }

  /** In k rows of width w laid end to end, position c of row r lies in
      the first k - 1 rows for r < k - 1 and in the last row otherwise. */
  lemma {:induction false} AppendRow<T>(prev: seq<T>, line: seq<T>, k: int, w: int, r: int, c: int)
    requires k >= 1 && |prev| == (k - 1) * w && |line| == w
    requires 0 <= r < k && 0 <= c < w
    ensures |prev + line| == k * w
    ensures r < k - 1 ==> r * w + c < |prev| && (prev + line)[r * w + c] == prev[r * w + c]
    ensures r == k - 1 ==> r * w + c == |prev| + c && (prev + line)[r * w + c] == line[c]
    decreases k - r
  {
    if r < k - 1 {
      AppendRow(prev, line, k, w, r + 1, c);
      assert (r + 1) * w == r * w + w;
    }
  }
}

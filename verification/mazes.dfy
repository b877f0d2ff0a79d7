/** MazeGenerator: the recursive backtracker. It walls the whole grid, picks
    a root room with odd coordinates, carves from it two cells at a time
    (a door and the room behind it) in a per-room direction order, and
    reopens the start and goal cells. The random choices are parameters:
    the two draws that pick the root and, for each room, the order in which
    its four directions are tried. */
module Mazes {
  import opened Common
  import opened Nodes
  import opened Grids

  /** A direction code of carve: 0 up, 1 down, 2 left, 3 right. */
  type Direction = d: int | 0 <= d < 4

  function Max(a: int, b: int): (m: int)
    ensures m >= a && m >= b && (m == a || m == b)
  {
    if a >= b then a else b
  }

  /** No cell two steps away from p along a row or a column lies inside a
      rows x cols grid. */
  predicate Isolated(rows: int, cols: int, p: Cell)
  {
    && (p.0 - 2, p.1) !in Box(rows, cols) && (p.0 + 2, p.1) !in Box(rows, cols)
    && (p.0, p.1 - 2) !in Box(rows, cols) && (p.0, p.1 + 2) !in Box(rows, cols)
  }

  /** The root room for draws rowDraw and colDraw (Random.nextInt with bound
      max(1, rows / 2) and max(1, cols / 2)): row 2 * rowDraw + 1 and column
      2 * colDraw + 1, at least 1, and (1, 1) when that lies outside the
      grid. The root has odd coordinates; it lies inside the grid exactly
      when the grid has at least two rows and two columns, and otherwise no
      room can be reached from it. */
  function Root(rows: int, cols: int, rowDraw: int, colDraw: int): (p: Cell)
    requires rows >= 1 && cols >= 1
    requires 0 <= rowDraw < Max(1, rows / 2) && 0 <= colDraw < Max(1, cols / 2)
    ensures p.0 % 2 == 1 && p.1 % 2 == 1
    ensures p in Box(rows, cols) <==> rows >= 2 && cols >= 2
    ensures p !in Box(rows, cols) ==> p == (1, 1) && Isolated(rows, cols, p)
  {
    var sr := Max(1, rowDraw * 2 + 1);
    var sc := Max(1, colDraw * 2 + 1);
    if !(0 <= sr < rows && 0 <= sc < cols) then (1, 1) else (sr, sc)
  }

  /** x is a room of the lattice through o: both coordinates differ from
      o's by an even amount. */
  predicate IsRoom(o: Cell, x: Cell)
  {
    (x.0 - o.0) % 2 == 0 && (x.1 - o.1) % 2 == 0
  }

  /** x is a door of the lattice through o: exactly one coordinate differs
      from o's by an odd amount. */
  predicate IsDoor(o: Cell, x: Cell)
  {
    ((x.0 - o.0) % 2 == 0) != ((x.1 - o.1) % 2 == 0)
  }

  /** The two rooms a door lies between. */
  function DoorRooms(o: Cell, x: Cell): (rs: (Cell, Cell))
    requires IsDoor(o, x)
    ensures IsRoom(o, rs.0) && IsRoom(o, rs.1)
    ensures Adjacent(rs.0, x) && Adjacent(x, rs.1) && Manhattan(rs.0, rs.1) == 2
  {
    if (x.0 - o.0) % 2 == 0 then ((x.0, x.1 - 1), (x.0, x.1 + 1))
    else ((x.0 - 1, x.1), (x.0 + 1, x.1))
  }

  /** Every open door lies between two open rooms, except that a room of it
      may be `pending`, the room about to be carved. */
  ghost predicate LinkedBut(o: Cell, open: set<Cell>, pending: Cell)
  {
    forall x {:trigger DoorRooms(o, x)} :: x in open && IsDoor(o, x) ==>
      (DoorRooms(o, x).0 in open || DoorRooms(o, x).0 == pending) &&
      (DoorRooms(o, x).1 in open || DoorRooms(o, x).1 == pending)
  }

  /** Every open door lies between two open rooms. */
  ghost predicate Linked(o: Cell, open: set<Cell>)
  {
    forall x {:trigger DoorRooms(o, x)} :: x in open && IsDoor(o, x) ==> DoorRooms(o, x).0 in open && DoorRooms(o, x).1 in open
  }

  /** b can be reached from a by a walk through the cells of open. */
  ghost predicate Reach(open: set<Cell>, a: Cell, b: Cell)
  {
    exists w {:trigger IsWalkBetween(open, w, a, b)} :: IsWalkBetween(open, w, a, b)
  }

  /** More open cells keep every cell reachable. */
  lemma ReachWiden(open: set<Cell>, wider: set<Cell>, a: Cell, b: Cell)
    requires Reach(open, a, b) && open <= wider
    ensures Reach(wider, a, b)
  {
    var w :| IsWalkBetween(open, w, a, b);
    WalkWiden(open, wider, w);
    assert IsWalkBetween(wider, w, a, b);
  }

  /** Reachability is transitive. */
  lemma ReachJoin(open: set<Cell>, a: Cell, b: Cell, c: Cell)
    requires Reach(open, a, b) && Reach(open, b, c)
    ensures Reach(open, a, c)
  {
    var v :| IsWalkBetween(open, v, a, b);
    var w :| IsWalkBetween(open, w, b, c);
    WalkJoin(open, v, w);
    assert IsWalkBetween(open, v + w[1..], a, c);
  }

  /** An open room reaches the room two steps away through the open door
      between them. */
  lemma ReachThroughDoor(open: set<Cell>, a: Cell, door: Cell, b: Cell)
    requires a in open && door in open && b in open && Adjacent(a, door) && Adjacent(door, b)
    ensures Reach(open, a, door) && Reach(open, a, b)
  {
    assert IsWalkBetween(open, [a, door], a, door);
    assert IsWalkBetween(open, [a, door, b], a, b);
  }

  /** Every cell opened since `before` is reachable from a by a walk
      through open cells. */
  ghost predicate Spans(open: set<Cell>, a: Cell, before: set<Cell>)
  {
    forall x {:trigger Reach(open, a, x)} :: x in open && x !in before ==> Reach(open, a, x)
  }

  /** x is neither a room nor a door of the lattice through o: both its
      coordinates differ from o's by an odd amount. */
  predicate Pillar(o: Cell, x: Cell)
  {
    (x.0 - o.0) % 2 != 0 && (x.1 - o.1) % 2 != 0
  }

  /** The open rooms of the lattice through o. */
  function Rooms(o: Cell, open: set<Cell>): set<Cell>
  {
    set x | x in open && IsRoom(o, x)
  }

  /** The open doors of the lattice through o. */
  function Doors(o: Cell, open: set<Cell>): set<Cell>
  {
    set x | x in open && IsDoor(o, x)
  }

  /** Opening a closed cell adds one to the rooms or to the doors, according
      to what it is. */
  lemma CountOpened(o: Cell, open: set<Cell>, p: Cell)
    requires p !in open
    ensures |Rooms(o, open + {p})| == |Rooms(o, open)| + (if IsRoom(o, p) then 1 else 0)
    ensures |Doors(o, open + {p})| == |Doors(o, open)| + (if IsDoor(o, p) then 1 else 0)
  {
    if IsRoom(o, p) {
      assert Rooms(o, open + {p}) == Rooms(o, open) + {p};
    } else {
      assert Rooms(o, open + {p}) == Rooms(o, open);
    }
    if IsDoor(o, p) {
      assert Doors(o, open + {p}) == Doors(o, open) + {p};
    } else {
      assert Doors(o, open + {p}) == Doors(o, open);
    }
  }

  /** What a carve from room a leaves behind, when the open cells were
      `before` and are now `open`: no cell was closed, every newly opened
      cell is a room or a door of the lattice through o; when a lies inside
      the grid it is open and one more room than doors was opened, and
      otherwise nothing was opened; every open door lies between two open
      rooms. */
  ghost predicate Carved(o: Cell, before: set<Cell>, open: set<Cell>, a: Cell, inside: bool)
  {
    && before <= open
    && (forall x {:trigger Pillar(o, x)} :: x in open && x !in before ==> !Pillar(o, x))
    && (inside ==>
          a in open && |Rooms(o, open)| - |Rooms(o, before)| == |Doors(o, open)| - |Doors(o, before)| + 1)
    && (!inside ==> open == before)
    && Linked(o, open)
  }

  /** Opening the room a itself (setWall(a, false), which does nothing
      outside the grid) starts a carve. */
  lemma CarveStart(o: Cell, rows: int, cols: int, before: set<Cell>, a: Cell)
    requires IsRoom(o, a) && a !in before
    requires a in Box(rows, cols) ==> LinkedBut(o, before, a)
    requires a !in Box(rows, cols) ==> Linked(o, before)
    ensures Carved(o, before, WithWall(rows, cols, before, a, false), a, a in Box(rows, cols))
    ensures Spans(WithWall(rows, cols, before, a, false), a, before)
  {
    if a in Box(rows, cols) {
      CountOpened(o, before, a);
      assert IsWalkBetween(before + {a}, [a], a, a);
    }
  }

  /** For an open room (r, c) and a wall room (r + dr, c + dc) two steps
      away, the door (r + dr / 2, c + dc / 2) between them is a wall of the
      same lattice, and opening it keeps every open door between two open
      rooms except for the room behind it. */
  lemma CarveDoor(o: Cell, open: set<Cell>, rows: int, cols: int, r: int, c: int, dr: int, dc: int)
    requires (dr == -2 && dc == 0) || (dr == 2 && dc == 0) || (dr == 0 && dc == -2) || (dr == 0 && dc == 2)
    requires 0 <= r < rows && 0 <= c < cols && 0 <= r + dr < rows && 0 <= c + dc < cols
    requires Linked(o, open) && IsRoom(o, (r, c)) && (r, c) in open && (r + dr, c + dc) !in open
    ensures 0 <= r + dr / 2 < rows && 0 <= c + dc / 2 < cols
    ensures IsDoor(o, (r + dr / 2, c + dc / 2)) && IsRoom(o, (r + dr, c + dc))
    ensures (r + dr / 2, c + dc / 2) !in open && (r + dr / 2, c + dc / 2) != (r + dr, c + dc)
    ensures Adjacent((r, c), (r + dr / 2, c + dc / 2)) && Adjacent((r + dr / 2, c + dc / 2), (r + dr, c + dc))
    ensures LinkedBut(o, open + {(r + dr / 2, c + dc / 2)}, (r + dr, c + dc))
  {
    var door, b := (r + dr / 2, c + dc / 2), (r + dr, c + dc);
    var rs := DoorRooms(o, door);
    assert (rs.0 == (r, c) && rs.1 == b) || (rs.0 == b && rs.1 == (r, c));
  }

  /** A carve from a that opened a door and then carved from the room b
      behind it is still a carve from a: the door and b's rooms and doors
      keep one more room than doors. */
  lemma CarveJoin(o: Cell, before: set<Cell>, open: set<Cell>, a: Cell, door: Cell, b: Cell, open': set<Cell>)
    requires Carved(o, before, open, a, true)
    requires IsDoor(o, door) && door !in open
    requires Carved(o, open + {door}, open', b, true)
    ensures Carved(o, before, open', a, true)
  {
    CountOpened(o, open, door);
  }

  /** The cells a carve from b reached stay reachable from a through the
      door between a and b, and so do the cells reached before. */
  lemma SpansJoin(before: set<Cell>, open: set<Cell>, a: Cell, door: Cell, b: Cell, open': set<Cell>)
    requires Spans(open, a, before) && Spans(open', b, open + {door})
    requires open + {door} <= open' && a in open && b in open'
    requires Adjacent(a, door) && Adjacent(door, b)
    ensures Spans(open', a, before)
  {
    ReachThroughDoor(open', a, door, b);
    forall x | x in open' && x !in before ensures Reach(open', a, x) {
      if x in open {
        ReachWiden(open, open', a, x);
      } else if x != door {
        ReachJoin(open', a, b, x);
      }
    }
  }

  /** The number of wall cells of a rows x cols grid whose open cells are
      `open`: the measure that bounds carving. */
  function WallCount(rows: int, cols: int, open: set<Cell>): nat
  {
    |set x | x in Box(rows, cols) && x !in open|
  }

  /** Opening cells never adds walls. */
  lemma FewerWalls(rows: int, cols: int, open: set<Cell>, bigger: set<Cell>)
    requires open <= bigger
    ensures WallCount(rows, cols, bigger) <= WallCount(rows, cols, open)
  {
    SubsetCard((set x | x in Box(rows, cols) && x !in bigger), (set x | x in Box(rows, cols) && x !in open));
  }

  /** Opening a wall cell p of the grid, together with any other cells,
      leaves fewer walls. */
  lemma OpenWall(rows: int, cols: int, open: set<Cell>, bigger: set<Cell>, p: Cell)
    requires open <= bigger && p in Box(rows, cols) && p !in open
    ensures WallCount(rows, cols, WithWall(rows, cols, bigger, p, false)) < WallCount(rows, cols, open)
  {
    var walls := set x | x in Box(rows, cols) && x !in open;
    assert walls == (walls - {p}) + {p};
    SubsetCard((set x | x in Box(rows, cols) && x !in bigger + {p}), walls - {p});
  }

  /** A subset has at most as many elements. */
  lemma {:induction false} SubsetCard(a: set<Cell>, b: set<Cell>)
    requires a <= b
    ensures |a| <= |b|
    decreases |b|
  {
    if a != {} {
      var x :| x in a;
      SubsetCard(a - {x}, b - {x});
    }
  }

  /** The step (dr, dc) that carve takes for direction code d. */
  function Offset(d: Direction): Cell
  {
    if d == 0 then (-2, 0) else if d == 1 then (2, 0) else if d == 2 then (0, -2) else (0, 2)
  }

  /** The open cells after carve(grid, r, c) on a rows x cols grid whose open
      cells were `open`, where orders(x) is the direction order drawn for
      room x: (r, c) is opened and then its directions are tried in order.
      Carving never closes a cell. */
  function CarveFrom(rows: int, cols: int, open: set<Cell>, r: int, c: int, orders: Cell -> seq<Direction>)
    : (result: set<Cell>)
    decreases WallCount(rows, cols, WithWall(rows, cols, open, (r, c), false)), 1
    ensures open <= result
  {
    CarveDirs(rows, cols, WithWall(rows, cols, open, (r, c), false), r, c, orders, orders((r, c)))
  }

  /** The rest of carve's loop at room (r, c) with directions ds still to
      try: a direction whose room two cells away lies inside the grid and
      is a wall opens the door between and carves from that room; any
      other direction is skipped. */
  function CarveDirs(rows: int, cols: int, open: set<Cell>, r: int, c: int, orders: Cell -> seq<Direction>,
                     ds: seq<Direction>): (result: set<Cell>)
    decreases WallCount(rows, cols, open), 0, |ds|
    ensures open <= result
  {
    if ds == [] then open
    else
      var (dr, dc) := Offset(ds[0]);
      if !(0 <= r + dr < rows && 0 <= c + dc < cols) || (r + dr, c + dc) in open then
        CarveDirs(rows, cols, open, r, c, orders, ds[1..])
      else
        var open1 := WithWall(rows, cols, open, (r + dr / 2, c + dc / 2), false);
        OpenWall(rows, cols, open, open1, (r + dr, c + dc));
        var open2 := CarveFrom(rows, cols, open1, r + dr, c + dc, orders);
        FewerWalls(rows, cols, open, open2);
        CarveDirs(rows, cols, open2, r, c, orders, ds[1..])
  }

  /** One step of carve's loop, for the step (dr, dc) of the next
      direction, when the room two cells away lies outside the grid or is
      already open: it is skipped. */
  lemma CarveDirsSkip(rows: int, cols: int, open: set<Cell>, r: int, c: int, orders: Cell -> seq<Direction>,
                      ds: seq<Direction>, dr: int, dc: int)
    requires ds != [] && Offset(ds[0]) == (dr, dc)
    requires !(0 <= r + dr < rows && 0 <= c + dc < cols) || (r + dr, c + dc) in open
    ensures CarveDirs(rows, cols, open, r, c, orders, ds) == CarveDirs(rows, cols, open, r, c, orders, ds[1..])
  {
  }

  /** One step of carve's loop, for the step (dr, dc) of the next
      direction, when the room two cells away is a wall inside the grid:
      the door between is opened and carving goes on from that room before
      the remaining directions are tried. */
  lemma CarveDirsDoor(rows: int, cols: int, open: set<Cell>, r: int, c: int, orders: Cell -> seq<Direction>,
                      ds: seq<Direction>, dr: int, dc: int)
    requires ds != [] && Offset(ds[0]) == (dr, dc)
    requires 0 <= r + dr < rows && 0 <= c + dc < cols && (r + dr, c + dc) !in open
    ensures CarveDirs(rows, cols, open, r, c, orders, ds) ==
      CarveDirs(rows, cols, CarveFrom(rows, cols, WithWall(rows, cols, open, (r + dr / 2, c + dc / 2), false), r + dr, c + dc, orders),
                r, c, orders, ds[1..])
  {
  }

  /** What carve(grid, r, c) opens, for a wall room (r, c) of the lattice
      through o when every open door lies between two open rooms (except
      for (r, c) itself): a carve from (r, c), every opened cell reachable
      from (r, c) through open cells. */
  lemma CarveFromOk(o: Cell, rows: int, cols: int, open: set<Cell>, r: int, c: int, orders: Cell -> seq<Direction>)
    requires IsRoom(o, (r, c)) && (r, c) !in open
    requires (r, c) in Box(rows, cols) ==> LinkedBut(o, open, (r, c))
    requires (r, c) !in Box(rows, cols) ==> Isolated(rows, cols, (r, c)) && Linked(o, open)
    decreases WallCount(rows, cols, WithWall(rows, cols, open, (r, c), false)), 1
    ensures Carved(o, open, CarveFrom(rows, cols, open, r, c, orders), (r, c), (r, c) in Box(rows, cols))
    ensures Spans(CarveFrom(rows, cols, open, r, c, orders), (r, c), open)
  {
    CarveStart(o, rows, cols, open, (r, c));
    CarveDirsOk(o, rows, cols, open, WithWall(rows, cols, open, (r, c), false), r, c, orders, orders((r, c)));
  }

  /** The rest of carve's loop keeps what carving from (r, c) has done
      since `before` a carve whose opened cells (r, c) reaches. */
  lemma CarveDirsOk(o: Cell, rows: int, cols: int, before: set<Cell>, open: set<Cell>, r: int, c: int,
                    orders: Cell -> seq<Direction>, ds: seq<Direction>)
    requires IsRoom(o, (r, c))
    requires (r, c) !in Box(rows, cols) ==> Isolated(rows, cols, (r, c))
    requires Carved(o, before, open, (r, c), (r, c) in Box(rows, cols))
    requires Spans(open, (r, c), before)
    decreases WallCount(rows, cols, open), 0, |ds|
    ensures Carved(o, before, CarveDirs(rows, cols, open, r, c, orders, ds), (r, c), (r, c) in Box(rows, cols))
    ensures Spans(CarveDirs(rows, cols, open, r, c, orders, ds), (r, c), before)
  {
    if ds != [] {
      var (dr, dc) := Offset(ds[0]);
      if !(0 <= r + dr < rows && 0 <= c + dc < cols) || (r + dr, c + dc) in open {
        CarveDirsSkip(rows, cols, open, r, c, orders, ds, dr, dc);
        CarveDirsOk(o, rows, cols, before, open, r, c, orders, ds[1..]);
      } else {
        CarveDirsDoor(rows, cols, open, r, c, orders, ds, dr, dc);
        assert (r, c) in Box(rows, cols);
        CarveDoorOk(o, rows, cols, before, open, r, c, orders, dr, dc);
        var open2 := CarveFrom(rows, cols, WithWall(rows, cols, open, (r + dr / 2, c + dc / 2), false), r + dr, c + dc, orders);
        CarveDirsOk(o, rows, cols, before, open2, r, c, orders, ds[1..]);
      }
    }
  }

  /** Opening the door toward a wall room (r + dr, c + dc) inside the grid
      and carving from that room keeps what carving from (r, c) has done
      since `before` a carve whose opened cells (r, c) reaches. */
  lemma CarveDoorOk(o: Cell, rows: int, cols: int, before: set<Cell>, open: set<Cell>, r: int, c: int,
                    orders: Cell -> seq<Direction>, dr: int, dc: int)
    requires (dr == -2 && dc == 0) || (dr == 2 && dc == 0) || (dr == 0 && dc == -2) || (dr == 0 && dc == 2)
    requires IsRoom(o, (r, c)) && 0 <= r < rows && 0 <= c < cols
    requires 0 <= r + dr < rows && 0 <= c + dc < cols && (r + dr, c + dc) !in open
    requires Carved(o, before, open, (r, c), true)
    requires Spans(open, (r, c), before)
    decreases WallCount(rows, cols, open), 0, 0
    ensures var open2 := CarveFrom(rows, cols, WithWall(rows, cols, open, (r + dr / 2, c + dc / 2), false), r + dr, c + dc, orders);
      && Carved(o, before, open2, (r, c), true)
      && Spans(open2, (r, c), before)
      && WallCount(rows, cols, open2) <= WallCount(rows, cols, open)
  {
    var door := (r + dr / 2, c + dc / 2);
    CarveDoor(o, open, rows, cols, r, c, dr, dc);
    var open1 := WithWall(rows, cols, open, door, false);
    assert open1 == open + {door};
    OpenWall(rows, cols, open, open1, (r + dr, c + dc));
    CarveFromOk(o, rows, cols, open1, r + dr, c + dc, orders);
    var open2 := CarveFrom(rows, cols, open1, r + dr, c + dc, orders);
    CarveJoin(o, before, open, (r, c), door, (r + dr, c + dc), open2);
    SpansJoin(before, open, (r, c), door, (r + dr, c + dc), open2);
    FewerWalls(rows, cols, open, open2);
  }

  /** The maze carved from the root drawn by rowDraw and colDraw on a walled
      rows x cols grid: when the root lies inside the grid it is open, the
      open cells are rooms and doors of the root's lattice with one room
      more than doors, every open door lies between two open rooms, and
      every open cell is reachable from the root through open cells (a
      spanning tree of the rooms); otherwise nothing is open. No cell with
      two even coordinates is open. */
  lemma MazeShape(rows: int, cols: int, rowDraw: int, colDraw: int, orders: Cell -> seq<Direction>)
    requires rows >= 1 && cols >= 1
    requires 0 <= rowDraw < Max(1, rows / 2) && 0 <= colDraw < Max(1, cols / 2)
    ensures var root := Root(rows, cols, rowDraw, colDraw);
      var maze := CarveFrom(rows, cols, {}, root.0, root.1, orders);
      && (root in Box(rows, cols) ==> root in maze && |Rooms(root, maze)| == |Doors(root, maze)| + 1)
      && (root !in Box(rows, cols) ==> maze == {})
      && (forall x :: x in maze ==> IsRoom(root, x) || IsDoor(root, x))
      && (forall x :: x in maze ==> !(x.0 % 2 == 0 && x.1 % 2 == 0))
      && Linked(root, maze)
      && (forall x {:trigger Reach(maze, root, x)} :: x in maze ==> Reach(maze, root, x))
  {
    var root := Root(rows, cols, rowDraw, colDraw);
    var maze := CarveFrom(rows, cols, {}, root.0, root.1, orders);
    CarveFromOk(root, rows, cols, {}, root.0, root.1, orders);
    assert Rooms(root, {}) == {} && Doors(root, {}) == {};
    forall x | x in maze ensures (IsRoom(root, x) || IsDoor(root, x)) && !(x.0 % 2 == 0 && x.1 % 2 == 0) {
      assert !Pillar(root, x);
      OddLattice(root, x);
    }
  }

  /** Rooms and doors of a lattice through a cell with two odd coordinates
      have an odd coordinate. */
  lemma OddLattice(root: Cell, x: Cell)
    requires root.0 % 2 == 1 && root.1 % 2 == 1 && !Pillar(root, x)
    ensures IsRoom(root, x) || IsDoor(root, x)
    ensures !(x.0 % 2 == 0 && x.1 % 2 == 0)
  {
  }

  /** The cells of the start and goal nodes that are set. */
  function Endpoints(start: Node?, goal: Node?): (e: set<Cell>)
    ensures forall x :: x in e <==> (start != null && x == start.Pos()) || (goal != null && x == goal.Pos())
  {
    (if start != null then {start.Pos()} else {}) + (if goal != null then {goal.Pos()} else {})
  }

  /** Opening the start cell and then the goal cell opens the endpoints. */
  lemma Reopened(rows: int, cols: int, carved: set<Cell>, open: set<Cell>, open': set<Cell>, start: Node?, goal: Node?)
    requires start != null ==> start.Pos() in Box(rows, cols)
    requires goal != null ==> goal.Pos() in Box(rows, cols)
    requires open == if start != null then WithWall(rows, cols, carved, start.Pos(), false) else carved
    requires open' == if goal != null then WithWall(rows, cols, open, goal.Pos(), false) else open
    ensures open' == carved + Endpoints(start, goal)
  {
  }

  /** generate(grid): nothing for null; otherwise every cell becomes a wall,
      the root room is chosen from the draws, carving starts there, and the
      start and goal cells are opened again. Only wall flags change: the
      open cells are the maze carved from the root (see MazeShape) plus the
      endpoints, so a cell with two even coordinates is open only when it
      is the start or the goal. */
  method Generate(grid: Grid?, rowDraw: int, colDraw: int, orders: Cell -> seq<Direction>)
    requires grid != null ==> grid.Valid()
    requires grid != null ==> 0 <= rowDraw < Max(1, grid.rows / 2) && 0 <= colDraw < Max(1, grid.cols / 2)
    modifies if grid != null then {grid.walls} else {}
    ensures grid != null ==>
      var root := Root(grid.rows, grid.cols, rowDraw, colDraw);
      && grid.OpenCells() == CarveFrom(grid.rows, grid.cols, {}, root.0, root.1, orders) + Endpoints(grid.startNode, grid.goalNode)
      && (forall x {:trigger x in grid.OpenCells()} :: x in grid.OpenCells() && x.0 % 2 == 0 && x.1 % 2 == 0 ==>
            x in Endpoints(grid.startNode, grid.goalNode))
  {
    if grid == null {
      return;
    }
    for r := 0 to grid.rows
      invariant grid.Valid()
      invariant forall i, j :: 0 <= i < r && 0 <= j < grid.cols ==> grid.walls[i, j]
    {
      for c := 0 to grid.cols
        invariant grid.Valid()
        invariant forall i, j :: 0 <= i < grid.rows && 0 <= j < grid.cols && (i < r || (i == r && j < c)) ==>
          grid.walls[i, j]
      {
        grid.SetWall(r, c, true);
      }
    }
    assert grid.OpenCells() == {};
    var p := Root(grid.rows, grid.cols, rowDraw, colDraw);
    var sr, sc := p.0, p.1;
    Carve(grid, sr, sc, orders);
    ghost var carved := grid.OpenCells();
    MazeShape(grid.rows, grid.cols, rowDraw, colDraw, orders);
    if grid.startNode != null {
      var s := grid.startNode;
      grid.SetWall(s.row, s.col, false);
    }
    ghost var open := grid.OpenCells();
    if grid.goalNode != null {
      var g := grid.goalNode;
      grid.SetWall(g.row, g.col, false);
    }
    Reopened(grid.rows, grid.cols, carved, open, grid.OpenCells(), grid.startNode, grid.goalNode);
  }

  /** carve(grid, r, c): opens (r, c), then tries each direction of the
      room's order in turn (CarveToward). The open cells afterwards are
      CarveFrom of those before. */
  method Carve(G: Grid, r: int, c: int, orders: Cell -> seq<Direction>)
    requires G.Sized()
    modifies G.walls
    decreases WallCount(G.rows, G.cols, WithWall(G.rows, G.cols, G.OpenCells(), (r, c), false)), 1
    ensures G.OpenCells() == CarveFrom(G.rows, G.cols, old(G.OpenCells()), r, c, orders)
  {
    ghost var before := G.OpenCells();
    G.SetWall(r, c, false);
    var order := orders((r, c));
    assert order[0..] == order;
    for i := 0 to |order|
      invariant CarveDirs(G.rows, G.cols, G.OpenCells(), r, c, orders, order[i..]) ==
                CarveFrom(G.rows, G.cols, before, r, c, orders)
      invariant WallCount(G.rows, G.cols, G.OpenCells()) <=
                WallCount(G.rows, G.cols, WithWall(G.rows, G.cols, before, (r, c), false))
    {
      CarveToward(G, r, c, orders, order[i], order[i..]);
      assert order[i..][1..] == order[i + 1..];
    }
  }

  /** One pass of carve's loop at room (r, c) for direction d, the head of
      the directions ds still to try: the room two cells away is skipped
      when it lies outside the grid or is open; otherwise the door between
      is opened and carving continues from that room. The open cells
      afterwards are those CarveDirs reaches on ds after one step. */
  method CarveToward(G: Grid, r: int, c: int, orders: Cell -> seq<Direction>, d: Direction, ghost ds: seq<Direction>)
    requires G.Sized() && ds != [] && ds[0] == d
    modifies G.walls
    decreases WallCount(G.rows, G.cols, G.OpenCells()), 0, 1
    ensures CarveDirs(G.rows, G.cols, G.OpenCells(), r, c, orders, ds[1..]) ==
            CarveDirs(G.rows, G.cols, old(G.OpenCells()), r, c, orders, ds)
    ensures WallCount(G.rows, G.cols, G.OpenCells()) <= WallCount(G.rows, G.cols, old(G.OpenCells()))
  {
    ghost var open := G.OpenCells();
    var dr, dc := 0, 0;
    if d == 0 { dr, dc := -2, 0; }
    if d == 1 { dr, dc := 2, 0; }
    if d == 2 { dr, dc := 0, -2; }
    if d == 3 { dr, dc := 0, 2; }
    assert (dr, dc) == Offset(d);
    var nr := r + dr;
    var nc := c + dc;
    if !G.InBounds(nr, nc) {
      CarveDirsSkip(G.rows, G.cols, open, r, c, orders, ds, dr, dc);
      return;
    }
    if !G.IsWall(nr, nc) {
      CarveDirsSkip(G.rows, G.cols, open, r, c, orders, ds, dr, dc);
      return;
    }
    CarveThrough(G, r, c, orders, dr, dc, ds);
  }

  /** The rest of that pass when the room (r + dr, c + dc) is a wall inside
      the grid: the door between is opened and carving continues from that
      room. */
  method CarveThrough(G: Grid, r: int, c: int, orders: Cell -> seq<Direction>, dr: int, dc: int, ghost ds: seq<Direction>)
    requires G.Sized() && ds != [] && Offset(ds[0]) == (dr, dc)
    requires 0 <= r + dr < G.rows && 0 <= c + dc < G.cols && (r + dr, c + dc) !in G.OpenCells()
    modifies G.walls
    decreases WallCount(G.rows, G.cols, G.OpenCells()), 0, 0
    ensures CarveDirs(G.rows, G.cols, G.OpenCells(), r, c, orders, ds[1..]) ==
            CarveDirs(G.rows, G.cols, old(G.OpenCells()), r, c, orders, ds)
    ensures WallCount(G.rows, G.cols, G.OpenCells()) <= WallCount(G.rows, G.cols, old(G.OpenCells()))
  {
    ghost var open := G.OpenCells();
    CarveDirsDoor(G.rows, G.cols, open, r, c, orders, ds, dr, dc);
    DoorWalls(G.rows, G.cols, open, (r + dr / 2, c + dc / 2), (r + dr, c + dc), orders);
    G.SetWall(r + dr / 2, c + dc / 2, false);
    Carve(G, r + dr, c + dc, orders);
  }

  /** Opening a door and then carving from a wall room b inside the grid
      leaves fewer walls than before the door was opened, and so does
      opening b itself. */
  lemma DoorWalls(rows: int, cols: int, open: set<Cell>, door: Cell, b: Cell, orders: Cell -> seq<Direction>)
    requires b in Box(rows, cols) && b !in open
    ensures WallCount(rows, cols, WithWall(rows, cols, WithWall(rows, cols, open, door, false), b, false)) <
            WallCount(rows, cols, open)
    ensures WallCount(rows, cols, CarveFrom(rows, cols, WithWall(rows, cols, open, door, false), b.0, b.1, orders)) <=
            WallCount(rows, cols, open)
  {
    var open1 := WithWall(rows, cols, open, door, false);
    assert open <= open1;
    OpenWall(rows, cols, open, open1, b);
    FewerWalls(rows, cols, open, CarveFrom(rows, cols, open1, b.0, b.1, orders));
  }
}

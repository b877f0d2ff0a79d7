/** One cell of the grid: fixed coordinates plus the scratch fields a search
    writes (g, h, f, parent, visit order, explored flag) and a terrain weight. */
module Nodes {
  import opened Common

  /** The mutable fields of a node, as one value. */
  datatype NodeState = NodeState(
    g: Cost,
    h: int,
    f: Cost,
    weight: int,
    parent: Option<Cell>,
    visitOrder: int,
    explored: bool)

  /** The search fields of a node that no search has touched: g and f
      infinite, h zero, no parent, visit order -1, not explored. */
  predicate IsPristine(s: NodeState)
  {
    s.g == Infinite && s.h == 0 && s.f == Infinite && s.parent == None &&
    s.visitOrder == -1 && !s.explored
  }

  /** A state with its search fields reset and its weight kept. */
  function ClearSearch(s: NodeState): (r: NodeState)
    ensures IsPristine(r) && r.weight == s.weight
  {
    s.(g := Infinite, h := 0, f := Infinite, parent := None, visitOrder := -1, explored := false)
  }

  /** A state with its search fields reset and its weight back to 1. */
  function Reinitialized(s: NodeState): (r: NodeState)
    ensures IsPristine(r) && r.weight == 1
  {
    ClearSearch(s).(weight := 1)
  }

  /** Java's int arithmetic: reduce to the 32-bit two's complement range. */
  function Wrap32(x: int): (r: int)
    ensures -0x8000_0000 <= r < 0x8000_0000
    ensures (x - r) % 0x1_0000_0000 == 0
  {
    (x + 0x8000_0000) % 0x1_0000_0000 - 0x8000_0000
  }

  class Node {
    const row: int
    const col: int

    var g: Cost
    var h: int
    var f: Cost
    var weight: int
    var parent: Option<Cell>
    var visitOrder: int
    var explored: bool

    /** The derived cost f is always g + h. */
    ghost predicate Valid()
      reads this
    {
      f == g.Plus(Finite(h))
    }

    function Pos(): Cell
    {
      (row, col)
    }

    ghost function State(): NodeState
      reads this
    {
      NodeState(g, h, f, weight, parent, visitOrder, explored)
    }

    /** A new node at (row, col) with pristine search fields and weight 1. */
    constructor (row: int, col: int)
      ensures this.row == row && this.col == col
      ensures Valid() && IsPristine(State()) && weight == 1
    {
      this.row := row;
      this.col := col;
      g := Infinite;
      h := 0;
      f := Infinite;
      weight := 1;
      parent := None;
      visitOrder := -1;
      explored := false;
    }

    /** Sets g and recomputes f. */
    method SetG(g: Cost)
      modifies this`g, this`f
      ensures this.g == g && Valid()
    {
      this.g := g;
      UpdateF();
    }

    /** Sets h and recomputes f. */
    method SetH(h: int)
      modifies this`h, this`f
      ensures this.h == h && Valid()
    {
      this.h := h;
      UpdateF();
    }

    method UpdateF()
      modifies this`f
      ensures Valid()
    {
      f := g.Plus(Finite(h));
    }

    method SetWeight(weight: int)
      modifies this`weight
      ensures this.weight == weight
    {
      this.weight := weight;
    }

    /** The parent link is kept as the parent's coordinates. */
    method SetParent(p: Node?)
      modifies this`parent
      ensures parent == if p == null then None else Some(p.Pos())
    {
      parent := if p == null then None else Some(p.Pos());
    }

    method SetVisitOrder(order: int)
      modifies this`visitOrder
      ensures visitOrder == order
    {
      visitOrder := order;
    }

    method SetExplored(explored: bool)
      modifies this`explored
      ensures this.explored == explored
    {
      this.explored := explored;
    }

    /** Restores the search fields of a fresh node; keeps the weight. */
    method ResetSearchState()
      modifies this`g, this`h, this`f, this`parent, this`visitOrder, this`explored
      ensures State() == ClearSearch(old(State()))
      ensures Valid()
    {
      g := Infinite;
      h := 0;
      f := Infinite;
      parent := None;
      visitOrder := -1;
      explored := false;
    }

    /** Double.compare on f: negative, zero or positive as this f is below,
        equal to or above the other's (two infinities compare equal). */
    function CompareTo(other: Node): (r: int)
      reads this, other
      ensures -1 <= r <= 1
      ensures r < 0 <==> f.Less(other.f)
      ensures r == 0 <==> f == other.f
      ensures r > 0 <==> other.f.Less(f)
    {
      CostTrichotomy(f, other.f);
      if f.Less(other.f) then -1 else if f == other.f then 0 else 1
    }

    /** Identity is by coordinates alone; no other field takes part. */
    predicate Equals(o: Node?)
    {
      o != null && o.row == row && o.col == col
    }

    /** Objects.hash(row, col) in 32-bit int arithmetic: 31 * (31 + row) + col. */
    function HashCode(): (r: int)
      ensures -0x8000_0000 <= r < 0x8000_0000
      ensures (961 + 31 * row + col - r) % 0x1_0000_0000 == 0
    {
      Wrap32(31 * (31 * 1 + row) + col)
    }
  }

  /** Coordinate equality is an equivalence on nodes, and it ignores every
      mutable field: a node equals any node at its own cell. */
  lemma EqualsIsEquivalence(a: Node, b: Node, c: Node)
    ensures a.Equals(a)
    ensures a.Equals(b) <==> a.Pos() == b.Pos()
    ensures a.Equals(b) ==> b.Equals(a)
    ensures a.Equals(b) && b.Equals(c) ==> a.Equals(c)
  {
  }

  /** Nodes that are equal hash equally, whatever their mutable fields. */
  lemma HashAgreesWithEquals(a: Node, b: Node)
    requires a.Equals(b)
    ensures a.HashCode() == b.HashCode()
  {
  }
}

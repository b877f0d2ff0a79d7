/** Vocabulary shared by the grid, the search and the maze generator:
    optional values, error results, cell coordinates, search costs with an
    explicit infinity, the Manhattan metric and walks over open cells. */
module Common {

  datatype Option<T> = None | Some(value: T)

  /** The exceptions the core raises. */
  datatype Error = IllegalArgument(message: string)

  /** An operation that either yields a value or raises an exception. */
  datatype Result<T> = Success(value: T) | Failure(error: Error)

  /** An operation without a value that either completes or raises. */
  datatype Outcome = Pass | Fail(error: Error)

  /** A grid coordinate: (row, column). */
  type Cell = (int, int)

  /** The costs g and f of the search. The source stores them as doubles
      that are either whole numbers (all weights and heuristics are whole)
      or positive infinity. */
  datatype Cost = Finite(value: int) | Infinite {

    /** Double addition: infinity absorbs everything else. */
    function Plus(other: Cost): (r: Cost)
      ensures r.Finite? <==> Finite? && other.Finite?
      ensures r.Finite? ==> r.value == value + other.value
    {
      if Finite? && other.Finite? then Finite(value + other.value) else Infinite
    }

    /** Double comparison `<`: nothing is below a finite value except a
        smaller finite value, and infinity is below nothing. */
    predicate Less(other: Cost)
      ensures Less(other) ==> Finite? && this != other
      ensures Finite? && other.Infinite? ==> Less(other)
      ensures Finite? && other.Finite? ==> (Less(other) <==> value < other.value)
    {
      match (this, other)
      case (Finite(a), Finite(b)) => a < b
      case (Finite(_), Infinite) => true
      case (Infinite, _) => false
    }

    /** Double comparison `<=`: the negation of `>` in a total order. */
    predicate AtMost(other: Cost)
      ensures AtMost(other) <==> !other.Less(this)
    {
      CostTrichotomy(this, other);
      this == other || Less(other)
    }
  }

  /** Trichotomy of the cost order, as Double.compare relies on it. */
  lemma CostTrichotomy(a: Cost, b: Cost)
    ensures a.Less(b) || a == b || b.Less(a)
    ensures !(a.Less(b) && b.Less(a))
    ensures !a.Less(a)
  {
  }

  /** The cost order is transitive, also through `<=`. */
  lemma CostTransitive(a: Cost, b: Cost, c: Cost)
    ensures a.AtMost(b) && b.AtMost(c) ==> a.AtMost(c)
    ensures a.Less(b) && b.AtMost(c) ==> a.Less(c)
  {
  }

  function Abs(x: int): (r: nat)
    ensures r == x || r == -x
  {
    if x < 0 then -x else x
  }

  /** |row difference| + |column difference|. */
  function Manhattan(a: Cell, b: Cell): nat
  {
    Abs(a.0 - b.0) + Abs(a.1 - b.1)
  }

  /** Two cells that share a side. */
  predicate Adjacent(a: Cell, b: Cell)
  {
    Manhattan(a, b) == 1
  }

  /** All coordinates of a rows x cols grid. */
  function Box(rows: int, cols: int): (s: set<Cell>)
    ensures forall c {:trigger c in s} :: c in s <==> 0 <= c.0 < rows && 0 <= c.1 < cols
  {
    set r, c | 0 <= r < rows && 0 <= c < cols :: (r, c)
  }

  /** A walk: a non-empty sequence of open cells, each adjacent to the next. */
  predicate IsWalk(open: set<Cell>, w: seq<Cell>)
  {
    && |w| >= 1
    && (forall i :: 0 <= i < |w| ==> w[i] in open)
    && (forall i :: 0 <= i < |w| - 1 ==> Adjacent(w[i], w[i + 1]))
  }

  /** A walk from a to b. */
  predicate IsWalkBetween(open: set<Cell>, w: seq<Cell>, a: Cell, b: Cell)
  {
    IsWalk(open, w) && w[0] == a && w[|w| - 1] == b
  }

  /** No cell occurs twice. */
  predicate NoRepeats(w: seq<Cell>)
  {
    forall i, j :: 0 <= i < j < |w| ==> w[i] != w[j]
  }

  /** The triangle inequality of the Manhattan metric. */
  lemma ManhattanTriangle(a: Cell, b: Cell, c: Cell)
    ensures Manhattan(a, c) <= Manhattan(a, b) + Manhattan(b, c)
  {
  }

  /** A walk with k steps moves at most k in Manhattan distance. */
  lemma {:induction false} WalkSpan(open: set<Cell>, w: seq<Cell>)
    requires IsWalk(open, w)
    ensures Manhattan(w[0], w[|w| - 1]) <= |w| - 1
  {
    if |w| > 1 {
      var rest := w[1..];
      assert IsWalk(open, rest) by {
        forall i | 0 <= i < |rest| - 1 ensures Adjacent(rest[i], rest[i + 1]) {
          assert rest[i] == w[i + 1] && rest[i + 1] == w[i + 2];
        }
      }
      WalkSpan(open, rest);
      ManhattanTriangle(w[0], w[1], w[|w| - 1]);
    }
  }

  /** A walk through some open cells is a walk through any superset of them. */
  lemma WalkWiden(open: set<Cell>, wider: set<Cell>, w: seq<Cell>)
    requires IsWalk(open, w) && open <= wider
    ensures IsWalk(wider, w)
  {
  }

  /** Two walks that meet can be joined. */
  lemma WalkJoin(open: set<Cell>, v: seq<Cell>, w: seq<Cell>)
    requires IsWalk(open, v) && IsWalk(open, w) && v[|v| - 1] == w[0]
    ensures IsWalk(open, v + w[1..])
    ensures (v + w[1..])[0] == v[0] && (v + w[1..])[|v + w[1..]| - 1] == w[|w| - 1]
  {
    var j := v + w[1..];
    forall i | 0 <= i < |j| - 1 ensures Adjacent(j[i], j[i + 1]) {
      if i < |v| - 1 {
        assert j[i] == v[i] && j[i + 1] == v[i + 1];
      } else {
        assert j[i] == w[i - |v| + 1] && j[i + 1] == w[i - |v| + 2];
      }
    }
  }
  /** A walk from a cell inside a set to a cell outside it leaves the set at
      some step: w[j - 1] is inside and w[j] is not. */
  lemma {:induction false} Crossing(w: seq<Cell>, inside: set<Cell>) returns (j: int)
    requires |w| >= 1 && w[0] in inside && w[|w| - 1] !in inside
    ensures 1 <= j < |w| && w[j - 1] in inside && w[j] !in inside
  {
    if w[1] !in inside {
      j := 1;
    } else {
      var k := Crossing(w[1..], inside);
      j := k + 1;
    }
  }

  /** A prefix of a walk that keeps at least one cell is a walk. */
  lemma WalkPrefix(open: set<Cell>, w: seq<Cell>, k: int)
    requires IsWalk(open, w) && 1 <= k <= |w|
    ensures IsWalk(open, w[..k])
  {
    var p := w[..k];
    forall i | 0 <= i < |p| - 1 ensures Adjacent(p[i], p[i + 1]) {
      assert p[i] == w[i] && p[i + 1] == w[i + 1];
    }
  }

  /** A suffix of a walk that keeps at least one cell is a walk. */
  lemma WalkSuffix(open: set<Cell>, w: seq<Cell>, k: int)
    requires IsWalk(open, w) && 0 <= k < |w|
    ensures IsWalk(open, w[k..])
  {
    var p := w[k..];
    forall i | 0 <= i < |p| - 1 ensures Adjacent(p[i], p[i + 1]) {
      assert p[i] == w[k + i] && p[i + 1] == w[k + i + 1];
    }
  }

  /** The sequence without its entry at position i. */
  function RemoveAt<T>(q: seq<T>, i: int): seq<T>
    requires 0 <= i < |q|
  {
    q[..i] + q[i + 1..]
  }

  /** Removing the entry at i loses exactly that entry: one fewer, the
      others in their order, and the same multiset once it is added back. */
  lemma RemoveAtContents<T>(q: seq<T>, i: int)
    requires 0 <= i < |q|
    ensures |RemoveAt(q, i)| == |q| - 1
    ensures forall k :: 0 <= k < |q| - 1 ==> RemoveAt(q, i)[k] == if k < i then q[k] else q[k + 1]
    ensures multiset(RemoveAt(q, i)) + multiset{q[i]} == multiset(q)
  {
    assert q == q[..i] + [q[i]] + q[i + 1..];
  }

  /** The sequence without the first occurrence of x; unchanged when x does
      not occur. */
  function RemoveFirst<T(==)>(q: seq<T>, x: T): (r: seq<T>)
    ensures x !in q ==> r == q
    ensures x in q ==> |r| == |q| - 1
    ensures forall y :: y in r ==> y in q
    ensures forall y :: y in q && y != x ==> y in r
  {
    if q == [] then []
    else if q[0] == x then q[1..]
    else [q[0]] + RemoveFirst(q[1..], x)
  }

  /** Removing from a sequence without repeats removes x entirely and keeps
      the sequence free of repeats. */
  lemma {:induction false} RemoveFirstNoRepeats(q: seq<Cell>, x: Cell)
    requires NoRepeats(q)
    ensures NoRepeats(RemoveFirst(q, x)) && x !in RemoveFirst(q, x)
  {
    if q != [] {
      assert NoRepeats(q[1..]) by {
        forall i, j | 0 <= i < j < |q[1..]| ensures q[1..][i] != q[1..][j] {
          assert q[1..][i] == q[i + 1] && q[1..][j] == q[j + 1];
        }
      }
      if q[0] == x {
        assert forall i :: 0 < i < |q| ==> q[i] != x;
        assert x !in q[1..];
      } else {
        RemoveFirstNoRepeats(q[1..], x);
        var rest := RemoveFirst(q[1..], x);
        assert q[0] !in q[1..];
        assert q[0] !in rest;
        var r := [q[0]] + rest;
        forall i, j | 0 <= i < j < |r| ensures r[i] != r[j] {
          if i == 0 {
            assert r[j] == rest[j - 1];
          } else {
            assert r[i] == rest[i - 1] && r[j] == rest[j - 1];
          }
        }
      }
    }
  }
}

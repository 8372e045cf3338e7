/**
 * The wrap-around grid of the Net board: cell coordinates, the four
 * direction bits, the neighbour function and the facts about it that the
 * board generator relies on.
 *
 * A cell is (x, y) with 0 <= x < rows and 0 <= y < cols; x is the index of
 * the board's outer list, y the index inside it.
 */
module Torus {

  type Cell = (int, int)

  /** A direction bit; the same value is the bit a cell's mask uses for that link. */
  type Dir = d: int | d == 1 || d == 2 || d == 4 || d == 8 witness 1

  /** The cell the growth starts from. */
  const Origin: Cell := (0, 0)

  /** Coordinate offsets and their direction bits, in the order the neighbour list yields them. */
  const Connections: seq<((int, int), Dir)> := [((1, 0), 1), ((0, 1), 2), ((0, -1), 4), ((-1, 0), 8)]

  predicate InGrid(rows: int, cols: int, c: Cell)
  {
    0 <= c.0 < rows && 0 <= c.1 < cols
  }

  function AllCells(rows: int, cols: int): (cells: set<Cell>)
    ensures forall c :: c in cells <==> InGrid(rows, cols, c)
  {
    set x, y | 0 <= x < rows && 0 <= y < cols :: (x, y)
  }

  /** The reverse direction of each bit: +x pairs with -x, +y with -y. */
  function Opposite(d: Dir): Dir
  {
    if d == 1 then 8 else if d == 2 then 4 else if d == 4 then 2 else 1
  }

  /** Opposite is an involution without fixed points, and it swaps the "forward" bits 1, 2 with the "backward" bits 8, 4. */
  lemma OppositeInvolution(d: Dir)
    ensures Opposite(Opposite(d)) == d && Opposite(d) != d
    ensures (d == 1 || d == 2) <==> (Opposite(d) == 4 || Opposite(d) == 8)
  {
  }

  /**
   * The four wrap-around neighbours of (x, y), each with the bit of the
   * direction that leads to it, in the order of Connections.
   */
  function NeighborsWithDir(rows: int, cols: int, x: int, y: int): (ns: seq<(Cell, Dir)>)
    requires rows >= 1 && cols >= 1
    ensures |ns| == 4
    ensures ns[0].1 == 1 && ns[1].1 == 2 && ns[2].1 == 4 && ns[3].1 == 8
    ensures forall i :: 0 <= i < |ns| ==> InGrid(rows, cols, ns[i].0)
  {
    seq(|Connections|, i requires 0 <= i < |Connections| =>
      (((x + Connections[i].0.0) % rows, (y + Connections[i].0.1) % cols), Connections[i].1))
  }

  /** The position of direction d in Connections. */
  function DirIndex(d: Dir): (i: nat)
    ensures i < |Connections| && Connections[i].1 == d
  {
    if d == 1 then 0 else if d == 2 then 1 else if d == 4 then 2 else 3
  }

  /** One step forward along an axis of length n, wrapping from n - 1 to 0. */
  function Succ(v: int, n: int): int
  {
    if v + 1 == n then 0 else v + 1
  }

  /** One step backward along an axis of length n, wrapping from 0 to n - 1. */
  function Pred(v: int, n: int): int
  {
    if v == 0 then n - 1 else v - 1
  }

  /**
   * The neighbour of c in direction d, with the wrap-around written out:
   * bit 1 moves x forward, 2 moves y forward, 4 moves y back, 8 moves x back.
   */
  function Step(rows: int, cols: int, c: Cell, d: Dir): Cell
  {
    if d == 1 then (Succ(c.0, rows), c.1)
    else if d == 2 then (c.0, Succ(c.1, cols))
    else if d == 4 then (c.0, Pred(c.1, cols))
    else (Pred(c.0, rows), c.1)
  }

  /** Euclidean remainder of a value already in 0 .. n - 1. */
  lemma ModInRange(v: int, n: int)
    requires 0 <= v < n
    ensures v % n == v
  {
    var q := v / n;
    assert q > 0 ==> n * q >= n;
    assert q < 0 ==> n * q <= -n;
  }

  /** Euclidean remainder of a value one step outside 0 .. n - 1. */
  lemma ModWrap(n: int)
    requires n >= 1
    ensures n % n == 0 && (-1) % n == n - 1
  {
    var q := n / n;
    assert q > 1 ==> n * q >= 2 * n;
    assert q < 1 ==> n * q <= 0;
    var p := (-1) / n;
    assert p > -1 ==> n * p >= 0;
    assert p < -1 ==> n * p <= -2 * n;
  }

  lemma ModAxis(v: int, n: int)
    requires 0 <= v < n
    ensures (v + 1) % n == Succ(v, n)
    ensures (v - 1) % n == Pred(v, n)
    ensures (v + 0) % n == v
  {
    ModInRange(v, n);
    ModWrap(n);
    if v + 1 < n {
      ModInRange(v + 1, n);
    }
    if v > 0 {
      ModInRange(v - 1, n);
    }
  }

  /**
   * For a cell on the board, entry i of its neighbour list is its Step in
   * the direction the entry carries: the modulus in the list and the
   * explicit wrap-around in Step agree.
   */
  lemma NeighborIsStep(rows: int, cols: int, x: int, y: int, i: int)
    requires rows >= 1 && cols >= 1 && InGrid(rows, cols, (x, y)) && 0 <= i < 4
    ensures NeighborsWithDir(rows, cols, x, y)[i].0 == Step(rows, cols, (x, y), NeighborsWithDir(rows, cols, x, y)[i].1)
  {
    ModAxis(x, rows);
    ModAxis(y, cols);
  }

  /** Going one step in direction d and one step back in Opposite(d) returns to the start. */
  lemma StepSymmetric(rows: int, cols: int, c: Cell, d: Dir)
    requires rows >= 1 && cols >= 1 && InGrid(rows, cols, c)
    ensures InGrid(rows, cols, Step(rows, cols, c, d))
    ensures Step(rows, cols, Step(rows, cols, c, d), Opposite(d)) == c
  {
  }

  /**
   * Adjacency is symmetric: if n is the neighbour of p in direction d, then
   * p is the neighbour of n in direction Opposite(d).
   */
  lemma AdjacencySymmetric(rows: int, cols: int, x: int, y: int, n: Cell, d: Dir)
    requires rows >= 1 && cols >= 1 && InGrid(rows, cols, (x, y))
    requires (n, d) in NeighborsWithDir(rows, cols, x, y)
    ensures ((x, y), Opposite(d)) in NeighborsWithDir(rows, cols, n.0, n.1)
  {
    var ns := NeighborsWithDir(rows, cols, x, y);
    var i :| 0 <= i < |ns| && ns[i] == (n, d);
    NeighborIsStep(rows, cols, x, y, i);
    StepSymmetric(rows, cols, (x, y), d);
    var back := NeighborsWithDir(rows, cols, n.0, n.1);
    NeighborIsStep(rows, cols, n.0, n.1, DirIndex(Opposite(d)));
    assert back[DirIndex(Opposite(d))] == ((x, y), Opposite(d));
  }

  /** c and its four neighbours are five different cells. */
  predicate DistinctNeighborhood(c: Cell, ns: seq<(Cell, Dir)>)
  {
    (forall i :: 0 <= i < |ns| ==> ns[i].0 != c) &&
    (forall i, j :: 0 <= i < j < |ns| ==> ns[i].0 != ns[j].0)
  }

  /**
   * A cell's four neighbours are distinct from each other and from the cell
   * exactly when both axes have length at least 3; on a shorter axis the
   * two directions along it reach the same cell, or the cell itself.
   */
  lemma NeighborsDistinctIff(rows: int, cols: int, x: int, y: int)
    requires rows >= 1 && cols >= 1 && InGrid(rows, cols, (x, y))
    ensures DistinctNeighborhood((x, y), NeighborsWithDir(rows, cols, x, y)) <==> (rows >= 3 && cols >= 3)
  {
    var ns := NeighborsWithDir(rows, cols, x, y);
    forall i | 0 <= i < 4 ensures ns[i].0 == Step(rows, cols, (x, y), ns[i].1) {
      NeighborIsStep(rows, cols, x, y, i);
    }
    if rows < 3 {
      assert ns[0].0 == (x, y) || ns[0].0 == ns[3].0;
    } else if cols < 3 {
      assert ns[1].0 == (x, y) || ns[1].0 == ns[2].0;
    }
  }

  /** The cells of row x: (x, 0) .. (x, n - 1). */
  function RowCells(x: int, n: int): set<Cell>
  {
    set y | 0 <= y < n :: (x, y)
  }

  lemma {:induction false} RowCellsCard(x: int, n: nat)
    ensures |RowCells(x, n)| == n
  {
    if n > 0 {
      RowCellsCard(x, n - 1);
      assert RowCells(x, n) == RowCells(x, n - 1) + {(x, n - 1)};
    } else {
      assert RowCells(x, n) == {};
    }
  }

  /** The board of rows + 1 rows is the board of rows rows plus row number rows. */
  lemma AllCellsSplit(rows: nat, cols: nat)
    ensures AllCells(rows + 1, cols) == AllCells(rows, cols) + RowCells(rows, cols)
    ensures AllCells(rows, cols) !! RowCells(rows, cols)
  {
    assert forall c :: c in RowCells(rows, cols) <==> c.0 == rows && 0 <= c.1 < cols;
  }

  /** The board has rows * cols cells. */
  lemma {:induction false} AllCellsCard(rows: nat, cols: nat)
    ensures |AllCells(rows, cols)| == rows * cols
  {
    if rows == 0 {
      assert AllCells(rows, cols) == {};
    } else {
      AllCellsCard(rows - 1, cols);
      RowCellsCard(rows - 1, cols);
      AllCellsSplit(rows - 1, cols);
      assert |AllCells(rows, cols)| == (rows - 1) * cols + cols;
      MulSucc(rows - 1, cols);
    }
  }

  lemma MulSucc(r: int, c: int)
    ensures r * c + c == (r + 1) * c
  {
  }

  /** A set of cells that no step leads out of. */
  ghost predicate StepClosed(rows: int, cols: int, s: set<Cell>)
  {
    forall c, d: Dir :: c in s && InGrid(rows, cols, c) ==> Step(rows, cols, c, d) in s
  }

  lemma {:induction false} ClosedHoldsColumn(rows: int, cols: int, s: set<Cell>, x: nat)
    requires rows >= 1 && cols >= 1 && StepClosed(rows, cols, s) && Origin in s
    requires x < rows
    ensures (x, 0) in s
  {
    if x > 0 {
      ClosedHoldsColumn(rows, cols, s, x - 1);
      assert Step(rows, cols, (x - 1, 0), 1) == (x, 0);
    }
  }

  lemma {:induction false} ClosedHoldsCell(rows: int, cols: int, s: set<Cell>, x: nat, y: nat)
    requires rows >= 1 && cols >= 1 && StepClosed(rows, cols, s) && Origin in s
    requires x < rows && y < cols
    ensures (x, y) in s
  {
    if y == 0 {
      ClosedHoldsColumn(rows, cols, s, x);
    } else {
      ClosedHoldsCell(rows, cols, s, x, y - 1);
      assert Step(rows, cols, (x, y - 1), 2) == (x, y);
    }
  }

  /**
   * The torus is connected: a set that holds the origin and that no step
   * leads out of holds every cell.
   */
  lemma ClosedSetCoversGrid(rows: int, cols: int, s: set<Cell>)
    requires rows >= 1 && cols >= 1 && StepClosed(rows, cols, s) && Origin in s
    ensures AllCells(rows, cols) <= s
  {
    forall c | c in AllCells(rows, cols) ensures c in s {
      ClosedHoldsCell(rows, cols, s, c.0, c.1);
    }
  }
}

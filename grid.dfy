/** The grid primitive the simulation is built on: coordinates, bounds,
    four- and eight-way neighbour enumeration clipped to the grid, and the
    value-level view of an obstacle layout. */
module Grid {

  /** A coordinate (row, col). */
  type Cell = (int, int)

  /** The shape of a grid and the set of its FULL (obstacle) cells. */
  datatype Board = Board(height: nat, width: nat, obstacles: set<Cell>)

  predicate InBounds(c: Cell, height: int, width: int) {
    0 <= c.0 < height && 0 <= c.1 < width
  }

  function Abs(x: int): nat {
    if x < 0 then -x else x
  }

  /** `a` and `b` share a side. */
  predicate Adjacent4(a: Cell, b: Cell) {
    Abs(a.0 - b.0) + Abs(a.1 - b.1) == 1
  }

  /** `a` and `b` share a side or a corner. */
  predicate Adjacent8(a: Cell, b: Cell) {
    a != b && Abs(a.0 - b.0) <= 1 && Abs(a.1 - b.1) <= 1
  }

  /** `n` is an empty cell of the board that shares a side with `a`. */
  predicate Open4(b: Board, a: Cell, n: Cell) {
    InBounds(n, b.height, b.width) && Adjacent4(a, n) && n !in b.obstacles
  }

  /** `n` is an empty cell of the board that shares a side or a corner with `a`. */
  predicate Open8(b: Board, a: Cell, n: Cell) {
    InBounds(n, b.height, b.width) && Adjacent8(a, n) && n !in b.obstacles
  }

  /** The cells above, below, left and right of `c`, leaving out those that
      would fall off the grid. */
  function FourNeighbors(c: Cell, height: int, width: int): (r: seq<Cell>)
    requires InBounds(c, height, width)
    ensures forall n {:trigger n in r} :: n in r <==> InBounds(n, height, width) && Adjacent4(c, n)
  {
    var (row, col) := c;
    (if row > 0 then [(row - 1, col)] else [])
    + (if row < height - 1 then [(row + 1, col)] else [])
    + (if col > 0 then [(row, col - 1)] else [])
    + (if col < width - 1 then [(row, col + 1)] else [])
  }

  /** The four-neighbours of `c` followed by its four diagonal neighbours,
      leaving out those that would fall off the grid. */
  function EightNeighbors(c: Cell, height: int, width: int): (r: seq<Cell>)
    requires InBounds(c, height, width)
    ensures forall n {:trigger n in r} :: n in r <==> InBounds(n, height, width) && Adjacent8(c, n)
  {
    var (row, col) := c;
    FourNeighbors(c, height, width)
    + (if row > 0 && col > 0 then [(row - 1, col - 1)] else [])
    + (if row > 0 && col < width - 1 then [(row - 1, col + 1)] else [])
    + (if row < height - 1 && col > 0 then [(row + 1, col - 1)] else [])
    + (if row < height - 1 && col < width - 1 then [(row + 1, col + 1)] else [])
  }

  /** Every coordinate of a `height` by `width` grid. */
  ghost function AllCells(height: nat, width: nat): set<Cell> {
    set r: int, c: int | 0 <= r < height && 0 <= c < width :: (r, c)
  }

  ghost function RowCells(row: int, width: nat): set<Cell> {
    set c: int | 0 <= c < width :: (row, c)
  }

  lemma {:induction false} RowCellsCard(row: int, width: nat)
    ensures |RowCells(row, width)| == width
  {
    if width > 0 {
      RowCellsCard(row, width - 1);
      assert RowCells(row, width) == RowCells(row, width - 1) + {(row, width - 1)};
    }
  }

  /** The cells of a grid are those of the grid one row shorter plus its last row. */
  lemma AllCellsSplit(height: nat, width: nat)
    requires height > 0
    ensures AllCells(height, width) == AllCells(height - 1, width) + RowCells(height - 1, width)
    ensures AllCells(height - 1, width) * RowCells(height - 1, width) == {}
  {
    forall c | c in AllCells(height, width)
      ensures c in AllCells(height - 1, width) + RowCells(height - 1, width)
    {
      if c.0 < height - 1 { assert c == (c.0, c.1); }
    }
  }

  /** A grid has exactly `height * width` cells. */
  lemma {:induction false} AllCellsCard(height: nat, width: nat)
    ensures |AllCells(height, width)| == height * width
  {
    if height > 0 {
      AllCellsCard(height - 1, width);
      RowCellsCard(height - 1, width);
      AllCellsSplit(height, width);
      assert (height - 1) * width + width == height * width;
    }
  }

  /** A set of in-bounds cells has at most `height * width` members. */
  lemma InBoundsCard(s: set<Cell>, height: nat, width: nat)
    requires forall c :: c in s ==> InBounds(c, height, width)
    ensures |s| <= height * width
  {
    assert s <= AllCells(height, width);
    AllCellsCard(height, width);
    SubsetCard(s, AllCells(height, width));
  }

  lemma SubsetCard<T>(s: set<T>, t: set<T>)
    requires s <= t
    ensures |s| <= |t|
  {
    assert t == s + (t - s);
  }
}

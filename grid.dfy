/**
 * Positions on a height x width board, the four cell types, and the
 * distances the game uses (orthogonal adjacency, Manhattan and Chebyshev).
 * A cell of either maze is identified by its position: both cell classes
 * define equality and hashing on (row, col) only.
 */
module Grid {

  /** A cell position: `row` is the y coordinate, `col` the x coordinate. */
  datatype Pos = Pos(row: int, col: int)

  /** The type tag a cell carries (CellType.java). */
  datatype CellType = WALL | PATH | FUEL | SAND

  /** The type selector of the game (MazeType.java is not part of this model). */
  datatype MazeType = RANDOM | PERFECT

  predicate InBounds(height: int, width: int, p: Pos) {
    0 <= p.row < height && 0 <= p.col < width
  }

  function Abs(x: int): nat {
    if x < 0 then -x else x
  }

  function Max(a: int, b: int): int {
    if a < b then b else a
  }

  function Min(a: int, b: int): int {
    if a < b then a else b
  }

  function Manhattan(a: Pos, b: Pos): nat {
    Abs(a.row - b.row) + Abs(a.col - b.col)
  }

  function Chebyshev(a: Pos, b: Pos): nat {
    Max(Abs(a.row - b.row), Abs(a.col - b.col))
  }

  /** Orthogonal neighbours: one step along exactly one axis. */
  predicate Adjacent(a: Pos, b: Pos) {
    Manhattan(a, b) == 1
  }

  /** The positions of one row of a board of the given width. */
  function RowCells(row: int, width: nat): (s: set<Pos>)
    ensures forall p :: p in s <==> p.row == row && 0 <= p.col < width
    ensures |s| == width
  {
    if width == 0 then {}
    else
      var s := RowCells(row, width - 1) + {Pos(row, width - 1)};
      assert forall p :: p in s <==> p.row == row && 0 <= p.col < width;
      s
  }

  /** Every position of a height x width board. */
  function Cells(height: nat, width: nat): (s: set<Pos>)
    ensures forall p :: p in s <==> InBounds(height, width, p)
    ensures |s| == height * width
  {
    if height == 0 then {}
    else
      var s := Cells(height - 1, width) + RowCells(height - 1, width);
      assert Cells(height - 1, width) !! RowCells(height - 1, width);
      assert forall p :: p in s <==> InBounds(height, width, p);
      s
  }

  /**
   * A set of cells that contains `a` and, with every member, all of that
   * member's in-bounds orthogonal neighbours, contains every cell of the board.
   */
  lemma {:induction false} ClosedSetCoversBoard(height: int, width: int, S: set<Pos>, a: Pos, p: Pos)
    requires a in S && InBounds(height, width, a) && InBounds(height, width, p)
    requires forall x, y :: x in S && InBounds(height, width, y) && Adjacent(x, y) ==> y in S
    ensures p in S
    decreases Manhattan(a, p)
  {
    if a != p {
      var b := StepToward(a, p);
      ClosedSetCoversBoard(height, width, S, b, p);
    }
  }

  /** A subset is no larger than the set that holds it. */
  lemma CardMono<T>(A: set<T>, B: set<T>)
    requires A <= B
    ensures |A| <= |B|
  {
    assert B == A + (B - A);
  }

  /** A set smaller than a superset leaves some member of the superset out. */
  lemma Remaining<T>(S: set<T>, F: set<T>) returns (x: T)
    requires S <= F && |S| < |F|
    ensures x in F && x !in S
  {
    var R := F - S;
    assert F == S + R;
    x :| x in R;
  }

  /** Removing a set removes at most its size. */
  lemma CardDiff<T>(A: set<T>, B: set<T>)
    ensures |A - B| >= |A| - |B|
  {
    assert A <= (A - B) + B;
    CardMono(A, (A - B) + B);
  }

  /** One orthogonal step from `a` that brings it closer to `p`, moving along the rows first. */
  function StepToward(a: Pos, p: Pos): (b: Pos)
    requires a != p
    ensures Adjacent(a, b)
    ensures Manhattan(b, p) == Manhattan(a, p) - 1
    ensures forall h, w :: InBounds(h, w, a) && InBounds(h, w, p) ==> InBounds(h, w, b)
  {
    if a.row < p.row then Pos(a.row + 1, a.col)
    else if a.row > p.row then Pos(a.row - 1, a.col)
    else if a.col < p.col then Pos(a.row, a.col + 1)
    else Pos(a.row, a.col - 1)
  }
}

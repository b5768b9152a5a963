/**
 * The multiple-exit mode: besides the real exit, the maze shows decoy
 * exits drawn on its border.
 */
module MultipleExitModes {
  import opened Grid
  import opened Results
  import opened Mazes

  /** The number of decoys PrepareMaze draws. */
  const DecoyCount := 3

  /** The message standing for the NullPointerException of drawing decoys without a maze. */
  const NoMaze := "maze is null"

  /** A side to draw on (0 top, 1 bottom, 2 left, 3 right) and an offset along it. */
  predicate DrawOk(height: int, width: int, side: int, k: int) {
    0 <= side < 4 && 0 <= k < (if side < 2 then width else height)
  }

  /** The cell a draw of `side` and offset `k` picks: `k` is the column on the top and bottom, the row on the sides. */
  function Drawn(height: int, width: int, side: int, k: int): Pos {
    if side == 0 then Pos(0, k)
    else if side == 1 then Pos(height - 1, k)
    else if side == 2 then Pos(k, 0)
    else Pos(k, width - 1)
  }

  /** Every cell a draw may pick. */
  ghost function Border(height: int, width: int): set<Pos> {
    set side: int, k: int | 0 <= side < 4 && 0 <= k < (if side < 2 then width else height) :: Drawn(height, width, side, k)
  }

  /** The cells the draws pick are exactly the cells of the outer ring of the board. */
  lemma BorderIsRim(height: int, width: int, p: Pos)
    requires height > 0 && width > 0
    ensures p in Border(height, width) <==>
      InBounds(height, width, p) && (p.row == 0 || p.row == height - 1 || p.col == 0 || p.col == width - 1)
  {
    if InBounds(height, width, p) {
      if p.row == 0 {
        assert Drawn(height, width, 0, p.col) == p;
      } else if p.row == height - 1 {
        assert Drawn(height, width, 1, p.col) == p;
      } else if p.col == 0 {
        assert Drawn(height, width, 2, p.row) == p;
      } else if p.col == width - 1 {
        assert Drawn(height, width, 3, p.row) == p;
      }
    }
  }

  /** Fewer cells in use than border cells leave a draw that picks an unused cell. */
  lemma UnusedDraw(height: int, width: int, used: set<Pos>)
    requires |used| < |Border(height, width)|
    ensures exists side, k :: DrawOk(height, width, side, k) && Drawn(height, width, side, k) !in used
  {
    var B := Border(height, width);
    var D := B - used;
    assert B == D + (B * used);
    assert used == (B * used) + (used - B);
    var p :| p in D;
  }

  class MultipleExitMode {
    var maze: Option<Maze>
    var mazeType: Option<MazeType>
    var width: int
    var height: int
    var parameter3: int
    /** The decoys drawn last; null until the first draw, and a slot is null until filled. */
    var falseExit: array?<Option<Pos>>

    /** No maze, no type and no decoys yet; the numbers hold Java's default 0. */
    constructor ()
      ensures maze.None? && mazeType.None? && falseExit == null
      ensures width == 0 && height == 0 && parameter3 == 0
    {
      maze := None;
      mazeType := None;
      falseExit := null;
      width := 0;
      height := 0;
      parameter3 := 0;
    }

    /** The objects of the current maze, if any. */
    function MazeRepr(): set<object>
      reads this
    {
      if maze.Some? then maze.value.Repr() else {}
    }

    /** Stores the settings of the next maze; the current maze and decoys stay. */
    method SetMaze(mazeType: MazeType, width: int, height: int, parameter3: int)
      modifies this
      ensures this.mazeType == Some(mazeType) && this.width == width && this.height == height
      ensures this.parameter3 == parameter3 && maze == old(maze) && falseExit == old(falseExit)
    {
      this.mazeType := Some(mazeType);
      this.width := width;
      this.height := height;
      this.parameter3 := parameter3;
    }

    /**
     * Draws `n` pairwise distinct decoys on the border of the board, into a
     * new array. A draw that repeats a decoy is thrown away, so the draws
     * end only if the border has at least `n` cells. The real entrance and
     * exit are not excluded. Without a maze the first draw fails, leaving
     * the new array empty.
     */
    method GenerateFalseExits(n: int) returns (r: Result<()>)
      requires n >= 0
      requires n > 0 && maze.Some? ==>
        maze.value.Valid() && maze.value.Width() == width && maze.value.Height() == height &&
        n <= |Border(height, width)|
      modifies this
      ensures maze == old(maze) && mazeType == old(mazeType) && width == old(width) && height == old(height)
      ensures parameter3 == old(parameter3)
      ensures falseExit != null && fresh(falseExit) && falseExit.Length == n
      ensures r.Err? <==> n > 0 && maze.None?
      ensures r.Err? ==> forall i | 0 <= i < n :: falseExit[i].None?
      ensures r.Ok? ==> forall i | 0 <= i < n :: falseExit[i].Some? && falseExit[i].value in Border(height, width)
      ensures r.Ok? ==> forall i, j | 0 <= i < j < n :: falseExit[i] != falseExit[j]
    {
      var exits := new Option<Pos>[n](_ => None);
      falseExit := exits;
      if n > 0 && maze.None? {
        return Err(NoMaze);
      }
      var count := 0;
      var used: set<Pos> := {};
      while count < n
        invariant 0 <= count <= n
        invariant forall i | 0 <= i < count :: exits[i].Some? && exits[i].value in used
        invariant used <= Border(height, width) && |used| == count
        invariant forall i, j | 0 <= i < j < count :: exits[i] != exits[j]
        modifies exits
        decreases n - count
      {
        UnusedDraw(height, width, used);
        var side, k :| DrawOk(height, width, side, k) && Drawn(height, width, side, k) !in used;
        var p := Drawn(height, width, side, k);
        var cell := maze.value.GetCell(p.row, p.col);
        assert cell == Some(p) by {
          BorderIsRim(height, width, p);
        }
        assert forall i | 0 <= i < count :: exits[i] != cell;
        exits[count] := cell;
        used := used + {p};
        count := count + 1;
      }
      assert forall i | 0 <= i < n :: exits[i].value in Border(height, width);
      r := Ok(());
    }

    /**
     * Builds a maze of the stored type from the stored settings, then draws
     * three decoys on it. A failed build keeps the maze and the decoys.
     */
    method PrepareMaze() returns (r: Result<()>)
      requires mazeType.Some? ==> Ends(mazeType.value, width, height, parameter3)
      requires mazeType.Some? && Accepted(mazeType.value, width, height, parameter3) ==>
        DecoyCount <= |Border(height, width)|
      modifies this
      ensures mazeType == old(mazeType) && width == old(width) && height == old(height)
      ensures parameter3 == old(parameter3)
      ensures r.Err? <==> mazeType.None? || !Accepted(mazeType.value, width, height, parameter3)
      ensures r.Err? ==> maze == old(maze) && falseExit == old(falseExit)
      ensures r.Ok? ==> maze.Some? && fresh(MazeRepr())
      ensures r.Ok? ==> BuiltAs(maze.value, mazeType.value, width, height, parameter3)
      ensures r.Ok? ==> falseExit != null && fresh(falseExit) && falseExit.Length == DecoyCount
      ensures r.Ok? ==> forall i | 0 <= i < DecoyCount :: falseExit[i].Some? && falseExit[i].value in Border(height, width)
      ensures r.Ok? ==> forall i, j | 0 <= i < j < DecoyCount :: falseExit[i] != falseExit[j]
    {
      var m := BuildFor(mazeType, width, height, parameter3);
      if m.Err? {
        return Err(m.message);
      }
      var built := m.value;
      assert this !in built.Repr();
      maze := Some(built);
      assert MazeRepr() == built.Repr();
      r := GenerateFalseExits(DecoyCount);
    }
  }
}

/**
 * The MadMax mode: on a timer the walls of the maze are drawn anew, while
 * the exit stays where the first maze put it.
 */
module MadMaxModes {
  import opened Grid
  import opened Results
  import opened Graph
  import opened Mazes
  import opened PerfectMazes

  class MadMaxMode {
    var maze: Option<Maze>
    var mazeType: Option<MazeType>
    var width: int
    var height: int
    var parameter3: int
    /** The exit of the maze built by PrepareMaze, kept across redraws. */
    var savedEnd: Option<Pos>

    /** A new mode plays perfect mazes; no maze and no saved exit yet. */
    constructor ()
      ensures mazeType == Some(PERFECT) && maze.None? && savedEnd.None?
      ensures width == 0 && height == 0 && parameter3 == 0
    {
      mazeType := Some(PERFECT);
      maze := None;
      savedEnd := None;
      width := 0;
      height := 0;
      parameter3 := 0;
    }

    /** The objects of the current maze, if any. */
    function MazeRepr(): set<object>
      reads this
    {
      if maze.Some? then maze.value.Repr() else {}
    }

    /** Stores the settings of the next maze; the current maze stays. */
    method SetMaze(mazeType: MazeType, width: int, height: int, parameter3: int)
      modifies this
      ensures this.mazeType == Some(mazeType) && this.width == width && this.height == height
      ensures this.parameter3 == parameter3 && maze == old(maze) && savedEnd == old(savedEnd)
    {
      this.mazeType := Some(mazeType);
      this.width := width;
      this.height := height;
      this.parameter3 := parameter3;
    }

    /**
     * Builds a maze of the stored type from the stored settings and saves
     * its exit. A failure keeps the maze and the saved exit.
     */
    method PrepareMaze() returns (r: Result<()>)
      requires mazeType.Some? ==> Ends(mazeType.value, width, height, parameter3)
      modifies this
      ensures mazeType == old(mazeType) && width == old(width) && height == old(height)
      ensures parameter3 == old(parameter3)
      ensures r.Err? <==> mazeType.None? || !Accepted(mazeType.value, width, height, parameter3)
      ensures r.Err? ==> maze == old(maze) && savedEnd == old(savedEnd)
      ensures r.Ok? ==> maze.Some? && fresh(MazeRepr())
      ensures r.Ok? ==> BuiltAs(maze.value, mazeType.value, width, height, parameter3)
      ensures r.Ok? ==> savedEnd == Some(maze.value.End())
    {
      var m := BuildFor(mazeType, width, height, parameter3);
      if m.Err? {
        return Err(m.message);
      }
      var built := m.value;
      assert this !in built.Repr();
      maze := Some(built);
      assert MazeRepr() == built.Repr();
      savedEnd := Some(built.End());
      r := Ok(());
    }

    /**
     * Replaces the maze, if there is one, by a new maze of the stored type
     * and settings whose exit is moved to the saved exit. The saved exit is
     * never updated, so every redraw has the same exit. A random maze takes
     * it only on the board and does not check it is reachable (or not a
     * wall); a perfect maze is connected, so there the exit stays reachable.
     */
    method ChangeWalls() returns (r: Result<()>)
      requires maze.Some? && mazeType.Some? ==> Ends(mazeType.value, width, height, parameter3)
      modifies this
      ensures mazeType == old(mazeType) && width == old(width) && height == old(height)
      ensures parameter3 == old(parameter3) && savedEnd == old(savedEnd)
      ensures old(maze).None? ==> r.Ok? && maze.None?
      ensures old(maze).Some? ==> (r.Err? <==> mazeType.None? || !Accepted(mazeType.value, width, height, parameter3))
      ensures r.Err? ==> maze == old(maze)
      ensures old(maze).Some? && r.Ok? ==> maze.Some? && fresh(MazeRepr())
      ensures old(maze).Some? && r.Ok? ==>
        maze.value.Width() == width && maze.value.Height() == height && (maze.value.RandomM? <==> mazeType == Some(RANDOM))
      ensures old(maze).Some? && r.Ok? && savedEnd.Some? && (maze.value.PerfectM? || maze.value.InB(savedEnd.value)) ==>
        maze.value.End() == savedEnd.value
      ensures old(maze).Some? && r.Ok? && savedEnd.None? ==> maze.value.Playable()
      ensures old(maze).Some? && r.Ok? && savedEnd.Some? && InBounds(height, width, savedEnd.value) ==>
        maze.value.Valid() && (maze.value.PerfectM? ==> maze.value.Playable())
    {
      if maze.None? {
        return Ok(());
      }
      if mazeType.None? {
        return Err(NoMazeType);
      }
      var m := Redraw(mazeType.value, width, height, parameter3, savedEnd);
      if m.Err? {
        return Err(m.message);
      }
      var built := m.value;
      assert this !in built.Repr();
      maze := Some(built);
      assert MazeRepr() == built.Repr();
      r := Ok(());
    }
  }

  /**
   * A new maze of the given type and settings whose exit is moved to
   * `exit`, if given (a random maze ignores a cell off the board).
   */
  method Redraw(mazeType: MazeType, width: int, height: int, param: int, exit: Option<Pos>) returns (r: Result<Maze>)
    requires Ends(mazeType, width, height, param)
    ensures r.Err? <==> !Accepted(mazeType, width, height, param)
    ensures r.Ok? ==> fresh(r.value.Repr())
    ensures r.Ok? ==> r.value.Width() == width && r.value.Height() == height && (r.value.RandomM? <==> mazeType == RANDOM)
    ensures r.Ok? && exit.Some? && (r.value.PerfectM? || r.value.InB(exit.value)) ==> r.value.End() == exit.value
    ensures r.Ok? && exit.None? ==> r.value.Playable()
    ensures r.Ok? && exit.Some? && InBounds(height, width, exit.value) ==>
      r.value.Valid() && (r.value.PerfectM? ==> r.value.Playable())
  {
    if mazeType == RANDOM {
      r := BuildFor(Some(RANDOM), width, height, param);
      if r.Ok? && exit.Some? {
        r.value.SetEnd(exit.value);
      }
    } else {
      r := RedrawPerfect(width, height, param, exit);
      if r.Ok? {
        var m := r.value.perfect;
        assert r.value.Repr() == {m, m.grid, m.verticalWalls, m.horizontalWalls};
      }
    }
  }

  method RedrawPerfect(width: int, height: int, param: int, exit: Option<Pos>) returns (r: Result<Maze>)
    ensures r.Err? <==> width < 2 || height < 2 || param < 1
    ensures r.Ok? ==> r.value.PerfectM? && fresh(r.value.perfect) && fresh(r.value.perfect.grid)
    ensures r.Ok? ==> fresh(r.value.perfect.verticalWalls) && fresh(r.value.perfect.horizontalWalls)
    ensures r.Ok? ==> r.value.Width() == width && r.value.Height() == height
    ensures r.Ok? && exit.Some? ==> r.value.End() == exit.value
    ensures r.Ok? && (exit.None? || InBounds(height, width, exit.value)) ==> r.value.Playable()
  {
    r := BuildPerfect(width, height, param);
    if r.Ok? && exit.Some? {
      var m := r.value.perfect;
      if m.InB(exit.value) {
        ExitStaysReachable(m, exit.value);
      }
      m.SetEnd(exit.value);
      assert m.Connected() ==> m.InB(exit.value) ==> Reachable(m.Passages(), m.start, exit.value);
    }
  }

  /** In a generated perfect maze every cell of the board is reachable from the entrance. */
  lemma ExitStaysReachable(m: PerfectMaze, p: Pos)
    requires m.Generated() && m.InB(p)
    ensures m.Connected() && Reachable(m.Passages(), m.start, p)
  {
  }
}

/**
 * The free mode: the player picks the maze type, its size and its third
 * parameter, and the mode builds that maze.
 */
module FreeModes {
  import opened Grid
  import opened Results
  import opened Mazes

  class FreeMode {
    var maze: Option<Maze>
    var mazeType: Option<MazeType>
    var width: int
    var height: int
    var parameter3: int

    /** No maze and no type yet; the numbers hold Java's default 0. */
    constructor ()
      ensures maze.None? && mazeType.None? && width == 0 && height == 0 && parameter3 == 0
    {
      maze := None;
      mazeType := None;
      width := 0;
      height := 0;
      parameter3 := 0;
    }

    /** The objects of the current maze, if any. */
    function MazeRepr(): set<object>
      reads this
    {
      if maze.Some? then maze.value.Repr() else {}
    }

    /** Stores the settings of the next maze; the current maze stays. */
    method SetMaze(mazeType: MazeType, width: int, height: int, parameter3: int)
      modifies this
      ensures this.mazeType == Some(mazeType) && this.width == width && this.height == height
      ensures this.parameter3 == parameter3 && maze == old(maze)
    {
      this.mazeType := Some(mazeType);
      this.width := width;
      this.height := height;
      this.parameter3 := parameter3;
    }

    /**
     * Builds a maze of the stored type from the stored settings. Without a
     * type, or with settings the maze refuses, it fails and keeps the
     * current maze.
     */
    method PrepareMaze() returns (r: Result<()>)
      requires mazeType.Some? ==> Ends(mazeType.value, width, height, parameter3)
      modifies this
      ensures mazeType == old(mazeType) && width == old(width) && height == old(height)
      ensures parameter3 == old(parameter3)
      ensures r.Err? <==> mazeType.None? || !Accepted(mazeType.value, width, height, parameter3)
      ensures r.Err? ==> maze == old(maze)
      ensures r.Ok? ==> maze.Some? && fresh(MazeRepr())
      ensures r.Ok? ==> BuiltAs(maze.value, mazeType.value, width, height, parameter3)
    {
      var m := BuildFor(mazeType, width, height, parameter3);
      if m.Err? {
        return Err(m.message);
      }
      var built := m.value;
      assert this !in built.Repr();
      maze := Some(built);
      assert MazeRepr() == built.Repr();
      r := Ok(());
    }
  }
}

/**
 * The race mode: the player races a bot that walks a path of its own to the
 * exit, one cell per player move; the player loses once the bot is there.
 */
module RaceModes {
  import opened Grid
  import opened Results
  import opened Graph
  import opened Mazes

  /** How many start cells the bot draws at most in a random maze. */
  const MaxAttempts := 2000

  /**
   * A bot path worth keeping: it starts on a cell that is no wall and takes
   * more steps than the player's shortest route `best`.
   */
  ghost predicate Suitable(m: Maze, source: Pos, path: seq<Pos>, best: int)
    reads m.Repr()
    requires m.Valid() && m.InB(source)
  {
    m.Board()[source.row, source.col] != WALL && path != [] && |path| - 1 > best
  }

  /**
   * The bot path of a perfect maze: the shortest route from the entrance to
   * the exit with the entrance repeated in front, so the bot waits one move.
   */
  method PerfectBotPath(m: Maze) returns (path: seq<Pos>)
    requires m.PerfectM? && m.Valid()
    ensures |path| >= 1 && path[0] == m.Start()
    ensures Reachable(m.Moves(), m.Start(), m.End()) ==>
      WalkFromTo(m.Moves(), path[1..], m.Start(), m.End()) &&
      |path| == ShortestDistance(m.Moves(), m.Start(), m.End()) + 2
    ensures !Reachable(m.Moves(), m.Start(), m.End()) ==> path == [m.Start()]
  {
    var optimal := m.FindOptimalPath(m.Start(), m.End());
    path := [m.Start()] + optimal;
    assert path[1..] == optimal;
  }

  /**
   * The bot path of a random maze: up to MaxAttempts cells of the board are
   * drawn, each with its shortest route to the exit, until a cell that is no
   * wall gives a route longer than the player's. The last route drawn is kept
   * even when it is not longer; only when it is empty does the bot take the
   * player's shortest route instead. `source` is where the kept route starts.
   */
  method RandomBotPath(m: Maze) returns (path: seq<Pos>, ghost source: Pos, ghost attempts: int)
    requires m.RandomM? && m.Valid()
    ensures 1 <= attempts <= MaxAttempts && m.InB(source)
    ensures path == [] <==> !Reachable(m.Moves(), source, m.End())
    ensures path != [] ==>
      WalkFromTo(m.Moves(), path, source, m.End()) && |path| == ShortestDistance(m.Moves(), source, m.End()) + 1
    ensures attempts < MaxAttempts ==> Suitable(m, source, path, ShortestDistance(m.Moves(), m.Start(), m.End()))
    ensures path == [] ==> source == m.Start()
  {
    var best := m.OptimalPathLength();
    var count := 0;
    var accepted := false;
    path := [];
    source := m.Start();
    while !accepted && count < MaxAttempts
      invariant 0 <= count <= MaxAttempts && m.InB(source)
      invariant count == 0 ==> !accepted
      invariant count > 0 ==> (path == [] <==> !Reachable(m.Moves(), source, m.End()))
      invariant count > 0 && path != [] ==>
        WalkFromTo(m.Moves(), path, source, m.End()) && |path| == ShortestDistance(m.Moves(), source, m.End()) + 1
      invariant accepted ==> Suitable(m, source, path, best)
      decreases MaxAttempts - count
    {
      var row :| 0 <= row < m.Height();
      var col :| 0 <= col < m.Width();
      var cell := Pos(row, col);
      source := cell;
      path := m.FindOptimalPath(cell, m.End());
      count := count + 1;
      accepted := path != [] && |path| - 1 > best && !m.random.IsWall(row, col);
    }
    attempts := count;
    if path == [] {
      source := m.Start();
      path := m.FindOptimalPath(m.Start(), m.End());
    }
  }

  /**
   * The bot path drawn for a maze: in a perfect maze the entrance followed
   * by a shortest route to the exit; in a random maze a shortest route from
   * the drawn cell `source`, suitable unless all the draws were used, or
   * the player's shortest route when the last draw gave none.
   */
  ghost predicate BotPlanned(m: Maze, path: seq<Pos>, source: Pos, attempts: int)
    reads m.Repr()
    requires m.Valid()
  {
    && (m.PerfectM? ==> |path| >= 1 && path[0] == m.Start())
    && (m.PerfectM? && Reachable(m.Moves(), m.Start(), m.End()) ==>
          WalkFromTo(m.Moves(), path[1..], m.Start(), m.End()) &&
          |path| == ShortestDistance(m.Moves(), m.Start(), m.End()) + 2)
    && (m.RandomM? ==> 1 <= attempts <= MaxAttempts && m.InB(source))
    && (m.RandomM? && path != [] ==>
          WalkFromTo(m.Moves(), path, source, m.End()) &&
          |path| == ShortestDistance(m.Moves(), source, m.End()) + 1)
    && (m.RandomM? && attempts < MaxAttempts ==>
          Suitable(m, source, path, ShortestDistance(m.Moves(), m.Start(), m.End())))
    && (m.RandomM? && path == [] ==> !Reachable(m.Moves(), m.Start(), m.End()))
  }

  /** The bot path of the maze's kind: see PerfectBotPath and RandomBotPath. */
  method PlanBot(m: Maze) returns (path: seq<Pos>, ghost source: Pos, ghost attempts: int)
    requires m.Valid()
    ensures BotPlanned(m, path, source, attempts)
  {
    if m.PerfectM? {
      path := PerfectBotPath(m);
      source, attempts := m.Start(), 0;
    } else {
      path, source, attempts := RandomBotPath(m);
    }
  }

  /**
   * On a maze whose exit can be reached the bot always has a path, and in a
   * perfect maze it is one step longer than the player's shortest route.
   */
  lemma BotPathOnPlayable(m: Maze, path: seq<Pos>, source: Pos, attempts: int)
    requires m.Playable() && BotPlanned(m, path, source, attempts)
    ensures path != []
    ensures m.PerfectM? ==> |path| == ShortestDistance(m.Moves(), m.Start(), m.End()) + 2
  {
  }

  /**
   * A maze of the requested shape (BuiltAs) with a bot path drawn on it
   * (BotPlanned); the path is never empty, and in a perfect maze it is one
   * step longer than the player's shortest route.
   */
  ghost predicate Raced(m: Maze, mazeType: MazeType, width: int, height: int, param: int,
                        path: seq<Pos>, source: Pos, attempts: int)
    reads m.Repr()
  {
    && BuiltAs(m, mazeType, width, height, param)
    && BotPlanned(m, path, source, attempts) && path != []
    && (m.PerfectM? ==> |path| == ShortestDistance(m.Moves(), m.Start(), m.End()) + 2)
  }

  /** A maze built as BuildFor does, and the bot path on it (see PlanBot). */
  method BuildWithBot(mazeType: Option<MazeType>, width: int, height: int, param: int)
    returns (r: Result<Maze>, path: seq<Pos>, ghost source: Pos, ghost attempts: int)
    requires mazeType.Some? ==> Ends(mazeType.value, width, height, param)
    ensures r.Err? <==> mazeType.None? || !Accepted(mazeType.value, width, height, param)
    ensures r.Ok? ==> fresh(r.value.Repr()) && Raced(r.value, mazeType.value, width, height, param, path, source, attempts)
  {
    r := BuildFor(mazeType, width, height, param);
    if r.Err? {
      return r, [], Pos(0, 0), 0;
    }
    path, source, attempts := PlanBot(r.value);
    BotPathOnPlayable(r.value, path, source, attempts);
  }

  class RaceMode {
    var maze: Option<Maze>
    var mazeType: Option<MazeType>
    var width: int
    var height: int
    var parameter3: int
    /** The bot's path, one cell per player move; null until the first maze. */
    var botPerfectPath: Option<seq<Pos>>
    /** The cell the bot path starts from. */
    ghost var botSource: Pos
    /** How many start cells the last random draw took. */
    ghost var attempts: int

    /** No maze, no type and no bot path yet; the numbers hold Java's default 0. */
    constructor ()
      ensures maze.None? && mazeType.None? && botPerfectPath.None?
      ensures width == 0 && height == 0 && parameter3 == 0
    {
      maze := None;
      mazeType := None;
      botPerfectPath := None;
      width := 0;
      height := 0;
      parameter3 := 0;
    }

    /** The objects of the current maze, if any. */
    function MazeRepr(): set<object>
      reads this
    {
      if maze.Some? then maze.value.Repr() else {}
    }

    /** Stores the settings of the next maze; the current maze and bot path stay. */
    method SetMaze(mazeType: MazeType, width: int, height: int, parameter3: int)
      modifies this
      ensures this.mazeType == Some(mazeType) && this.width == width && this.height == height
      ensures this.parameter3 == parameter3 && maze == old(maze) && botPerfectPath == old(botPerfectPath)
    {
      this.mazeType := Some(mazeType);
      this.width := width;
      this.height := height;
      this.parameter3 := parameter3;
    }

    /** The bot path, empty before the first maze. */
    function GetBotPerfectPath(): (r: seq<Pos>)
      reads this
      ensures botPerfectPath.None? ==> r == []
      ensures botPerfectPath.Some? ==> r == botPerfectPath.value
    {
      if botPerfectPath.None? then [] else botPerfectPath.value
    }

    /**
     * The player has lost once the bot has made its last step: after at
     * least as many moves as the bot path has steps. Without a bot path
     * nobody loses.
     */
    function IsLost(moveCount: int): (r: bool)
      reads this
      ensures r <==> GetBotPerfectPath() != [] && moveCount >= |GetBotPerfectPath()| - 1
    {
      if botPerfectPath.None? || botPerfectPath.value == [] then false
      else moveCount >= Max(0, |botPerfectPath.value| - 1)
    }

    /** Draws the bot path for the current maze (see PlanBot). */
    method PrepareBotPerfectPath()
      requires maze.Some? && maze.value.Valid()
      modifies this`botPerfectPath, this`botSource, this`attempts
      ensures botPerfectPath.Some? && BotPlanned(maze.value, botPerfectPath.value, botSource, attempts)
    {
      var path, source, count := PlanBot(maze.value);
      botPerfectPath, botSource, attempts := Some(path), source, count;
    }

    /**
     * Builds a maze of the stored type from the stored settings, then the
     * bot path on it. A failed build changes nothing.
     */
    method PrepareMaze() returns (r: Result<()>)
      requires mazeType.Some? ==> Ends(mazeType.value, width, height, parameter3)
      modifies this`maze, this`botPerfectPath, this`botSource, this`attempts
      ensures r.Err? <==> mazeType.None? || !Accepted(mazeType.value, width, height, parameter3)
      ensures r.Err? ==> maze == old(maze) && botPerfectPath == old(botPerfectPath)
      ensures r.Ok? ==> maze.Some? && fresh(MazeRepr()) && botPerfectPath.Some?
      ensures r.Ok? ==> Raced(maze.value, mazeType.value, width, height, parameter3, botPerfectPath.value, botSource, attempts)
    {
      var m, path, source, count := BuildWithBot(mazeType, width, height, parameter3);
      if m.Err? {
        return Err(m.message);
      }
      Install(m.value, path, source, count);
      r := Ok(());
    }

    /** Takes a freshly built maze and its bot path as the current ones. */
    method Install(built: Maze, path: seq<Pos>, ghost source: Pos, ghost count: int)
      requires this !in built.Repr()
      requires mazeType.Some? && Raced(built, mazeType.value, width, height, parameter3, path, source, count)
      modifies this`maze, this`botPerfectPath, this`botSource, this`attempts
      ensures maze == Some(built) && MazeRepr() == built.Repr() && botPerfectPath == Some(path)
      ensures Raced(built, mazeType.value, width, height, parameter3, path, botSource, attempts)
    {
      maze, botPerfectPath, botSource, attempts := Some(built), Some(path), source, count;
    }
  }
}

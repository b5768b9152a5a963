/**
 * The storm mode: once the player moves, sand spreads from the entrance one
 * ring of cells per tick, over walls and paths alike; the player loses when
 * standing on sand.
 */
module StormModes {
  import opened Grid
  import opened Results
  import opened Mazes
  import opened Directions

  /** The cells one step from `f` along one of `dirs` that are on the board and not sand yet. */
  ghost function Reached(f: Pos, dirs: seq<Direction>, sand: set<Pos>, height: int, width: int): set<Pos> {
    set d | d in dirs && InBounds(height, width, Step(d, f)) && Step(d, f) !in sand :: Step(d, f)
  }

  /** The next front: the neighbours on the board of the current front that are not sand yet. */
  ghost function Spread(front: set<Pos>, sand: set<Pos>, height: int, width: int): set<Pos> {
    set f, d | f in front && InBounds(height, width, Step(d, f)) && Step(d, f) !in sand :: Step(d, f)
  }

  /** Spread, cell by cell: the orthogonal neighbours of the front on the board that are not sand. */
  lemma SpreadIsNeighbours(front: set<Pos>, sand: set<Pos>, height: int, width: int, p: Pos)
    ensures p in Spread(front, sand, height, width) <==>
      InBounds(height, width, p) && p !in sand && exists f :: f in front && Adjacent(f, p)
  {
    if InBounds(height, width, p) && p !in sand && exists f :: f in front && Adjacent(f, p) {
      var f :| f in front && Adjacent(f, p);
      StepsAreTheNeighbours(f, p);
      var d :| Step(d, f) == p;
    }
  }

  /** Handling one more front cell adds the cells its four directions reach. */
  lemma SpreadOneMore(done: set<Pos>, f: Pos, sand: set<Pos>, height: int, width: int)
    ensures Spread(done + {f}, sand, height, width) ==
      Spread(done, sand, height, width) + Reached(f, AllDirections(), sand, height, width)
  {
  }

  /** The state after one tick: the new front, and the sand grown by it. */
  ghost function Tick(front: set<Pos>, sand: set<Pos>, height: int, width: int): (set<Pos>, set<Pos>) {
    var next := Spread(front, sand, height, width);
    (next, sand + next)
  }

  /** The state after `n` ticks of a storm that started at `s`: front and sand both {s} at first. */
  ghost function Storm(s: Pos, n: nat, height: int, width: int): (set<Pos>, set<Pos>) {
    if n == 0 then ({s}, {s})
    else
      var st := Storm(s, n - 1, height, width);
      Tick(st.0, st.1, height, width)
  }

  /** The cells of the board within Manhattan distance `n` of `s`. */
  ghost function Ball(s: Pos, n: nat, height: nat, width: nat): set<Pos> {
    set p | p in Grid.Cells(height, width) && Manhattan(s, p) <= n
  }

  /** The cells of the board at Manhattan distance exactly `n` from `s`. */
  ghost function Ring(s: Pos, n: nat, height: nat, width: nat): set<Pos> {
    set p | p in Grid.Cells(height, width) && Manhattan(s, p) == n
  }

  /** A cell of the board away from `s` has a neighbour on the board one step closer to `s`. */
  lemma StepCloser(s: Pos, p: Pos, height: int, width: int) returns (f: Pos)
    requires InBounds(height, width, s) && InBounds(height, width, p) && p != s
    ensures InBounds(height, width, f) && Adjacent(f, p) && Manhattan(s, f) + 1 == Manhattan(s, p)
  {
    if p.row < s.row {
      f := Pos(p.row + 1, p.col);
    } else if p.row > s.row {
      f := Pos(p.row - 1, p.col);
    } else if p.col < s.col {
      f := Pos(p.row, p.col + 1);
    } else {
      f := Pos(p.row, p.col - 1);
    }
  }

  /** One tick turns the ring at distance n, with the ball of radius n as sand, into the next ring and ball. */
  lemma TickGrowsBall(s: Pos, n: nat, height: nat, width: nat)
    requires InBounds(height, width, s)
    ensures Tick(Ring(s, n, height, width), Ball(s, n, height, width), height, width) ==
      (Ring(s, n + 1, height, width), Ball(s, n + 1, height, width))
  {
    var front, sand := Ring(s, n, height, width), Ball(s, n, height, width);
    var next := Spread(front, sand, height, width);
    forall p ensures p in next <==> p in Ring(s, n + 1, height, width) {
      SpreadIsNeighbours(front, sand, height, width, p);
      if p in Ring(s, n + 1, height, width) {
        var f := StepCloser(s, p, height, width);
        assert f in front;
      }
    }
    assert next == Ring(s, n + 1, height, width);
    assert sand + next == Ball(s, n + 1, height, width);
  }

  /**
   * After n ticks the front is the ring at distance n from the entrance
   * and the sand is every cell of the board within distance n: walls do not
   * stop the storm.
   */
  lemma {:induction false} StormIsBall(s: Pos, n: nat, height: nat, width: nat)
    requires InBounds(height, width, s)
    ensures Storm(s, n, height, width) == (Ring(s, n, height, width), Ball(s, n, height, width))
  {
    if n == 0 {
      assert Ring(s, 0, height, width) == {s} by {
        forall p | p in Ring(s, 0, height, width) ensures p == s {
        }
      }
      assert Ball(s, 0, height, width) == {s} by {
        forall p | p in Ball(s, 0, height, width) ensures p == s {
        }
      }
    } else {
      StormIsBall(s, n - 1, height, width);
      TickGrowsBall(s, n - 1, height, width);
    }
  }

  /**
   * The inner loop of a tick for one front cell `f`: each of the four
   * neighbours on the board that is not sand yet (neither in `sand0` nor in
   * the front being built) joins the new front and is typed SAND.
   */
  method SandAround(board: array2<CellType>, h: int, w: int, f: Pos, sand0: set<Pos>, front: set<Pos>)
    returns (front': set<Pos>)
    requires board.Length0 == h && board.Length1 == w
    modifies board
    ensures front' == front + Reached(f, AllDirections(), sand0, h, w)
    ensures forall r, c | 0 <= r < h && 0 <= c < w ::
      board[r, c] == if Pos(r, c) in front' - front then SAND else old(board[r, c])
  {
    var dirs := AllDirections();
    front' := front;
    var i := 0;
    while i < |dirs|
      invariant 0 <= i <= |dirs|
      invariant front' == front + Reached(f, dirs[..i], sand0, h, w)
      invariant forall r, c | 0 <= r < h && 0 <= c < w ::
        board[r, c] == if Pos(r, c) in front' - front then SAND else old(board[r, c])
    {
      var n := Step(dirs[i], f);
      if 0 <= n.col < w && 0 <= n.row < h && n !in sand0 && n !in front' {
        front' := front' + {n};
        board[n.row, n.col] := SAND;
      }
      assert dirs[..i + 1] == dirs[..i] + [dirs[i]];
      i := i + 1;
    }
    assert dirs[..i] == dirs;
  }

  /**
   * The loop of a tick over the front, in any order: the new front is
   * Spread of the front, and exactly its cells are typed SAND.
   */
  method SpreadOnBoard(board: array2<CellType>, h: int, w: int, front: set<Pos>, sand0: set<Pos>)
    returns (newFront: set<Pos>)
    requires board.Length0 == h && board.Length1 == w
    modifies board
    ensures newFront == Spread(front, sand0, h, w)
    ensures forall r, c | 0 <= r < h && 0 <= c < w ::
      board[r, c] == if Pos(r, c) in newFront then SAND else old(board[r, c])
  {
    newFront := {};
    var todo := front;
    ghost var done: set<Pos> := {};
    while todo != {}
      invariant todo + done == front
      invariant newFront == Spread(done, sand0, h, w)
      invariant forall r, c | 0 <= r < h && 0 <= c < w ::
        board[r, c] == if Pos(r, c) in newFront then SAND else old(board[r, c])
      decreases |todo|
    {
      var f :| f in todo;
      newFront := SandAround(board, h, w, f, sand0, newFront);
      SpreadOneMore(done, f, sand0, h, w);
      todo := todo - {f};
      done := done + {f};
    }
  }

  class StormMode {
    var maze: Option<Maze>
    var sandCells: set<Pos>
    var stormFront: set<Pos>
    var mazeType: Option<MazeType>
    var width: int
    var height: int
    var thirdParameter: int
    /** Milliseconds between two ticks. */
    const propagationInterval: int
    var stormStarted: bool

    /** A tick every second, no sand, no front, no storm yet. */
    constructor ()
      ensures propagationInterval == 1000 && sandCells == {} && stormFront == {} && !stormStarted
      ensures maze.None? && mazeType.None? && width == 0 && height == 0 && thirdParameter == 0
    {
      propagationInterval := 1000;
      sandCells := {};
      stormFront := {};
      stormStarted := false;
      maze := None;
      mazeType := None;
      width := 0;
      height := 0;
      thirdParameter := 0;
    }

    /** The objects of the current maze, if any. */
    function MazeRepr(): set<object>
      reads this
    {
      if maze.Some? then maze.value.Repr() else {}
    }

    /** Every sand cell lies on the board of a valid maze and is typed SAND there. */
    ghost predicate Sanded()
      reads this, MazeRepr()
    {
      && maze.Some? && maze.value.Valid()
      && forall p | p in sandCells :: maze.value.InB(p) && maze.value.Board()[p.row, p.col] == SAND
    }

    /** Stores the settings of the next maze; nothing else changes. */
    method SetMaze(mazeType: MazeType, width: int, height: int, thirdParameter: int)
      modifies this
      ensures this.mazeType == Some(mazeType) && this.width == width && this.height == height
      ensures this.thirdParameter == thirdParameter && maze == old(maze)
      ensures sandCells == old(sandCells) && stormFront == old(stormFront) && stormStarted == old(stormStarted)
    {
      this.mazeType := Some(mazeType);
      this.width := width;
      this.height := height;
      this.thirdParameter := thirdParameter;
    }

    /**
     * Builds a maze of the stored type from the stored settings and adds its
     * entrance to the front. Neither set is emptied first. A failed build
     * changes nothing.
     */
    method PrepareMaze() returns (r: Result<()>)
      requires mazeType.Some? ==> Ends(mazeType.value, width, height, thirdParameter)
      modifies this
      ensures mazeType == old(mazeType) && width == old(width) && height == old(height)
      ensures thirdParameter == old(thirdParameter) && stormStarted == old(stormStarted)
      ensures r.Err? <==> mazeType.None? || !Accepted(mazeType.value, width, height, thirdParameter)
      ensures r.Err? ==> maze == old(maze) && stormFront == old(stormFront) && sandCells == old(sandCells)
      ensures r.Ok? ==> maze.Some? && fresh(MazeRepr())
      ensures r.Ok? ==> BuiltAs(maze.value, mazeType.value, width, height, thirdParameter)
      ensures r.Ok? ==> stormFront == old(stormFront) + {maze.value.Start()} && sandCells == old(sandCells)
    {
      var m := BuildFor(mazeType, width, height, thirdParameter);
      if m.Err? {
        return Err(m.message);
      }
      var built := m.value;
      assert this !in built.Repr();
      maze := Some(built);
      assert MazeRepr() == built.Repr();
      stormFront := stormFront + {built.Start()};
      r := Ok(());
    }

    /**
     * One tick: the new front is the cells of the board next to the old
     * front that were not sand, and each of them turns to sand, whatever
     * its type was. The sand only grows and stays on the board.
     */
    method PropagateStorm()
      requires maze.Some? && maze.value.Valid()
      modifies this, maze.value.Board()
      ensures maze == old(maze) && stormStarted == old(stormStarted) && mazeType == old(mazeType)
      ensures width == old(width) && height == old(height) && thirdParameter == old(thirdParameter)
      ensures (stormFront, sandCells) ==
        Tick(old(stormFront), old(sandCells), maze.value.Height(), maze.value.Width())
      ensures forall r, c | 0 <= r < maze.value.Height() && 0 <= c < maze.value.Width() ::
        maze.value.Board()[r, c] == if Pos(r, c) in stormFront then SAND else old(maze.value.Board()[r, c])
      ensures old(sandCells) <= sandCells && stormFront !! old(sandCells)
      ensures old(Sanded()) ==> Sanded()
    {
      var m := maze.value;
      var sand0 := sandCells;
      var newFront := SpreadOnBoard(m.Board(), m.Height(), m.Width(), stormFront, sand0);
      stormFront := newFront;
      sandCells := sand0 + newFront;
    }

    /**
     * Starts the storm on the player's first move: the entrance becomes a
     * sand cell, typed SAND.
     */
    method StartStorm()
      requires maze.Some? && maze.value.Valid()
      modifies this, maze.value.Board()
      ensures maze == old(maze) && mazeType == old(mazeType)
      ensures stormStarted && sandCells == old(sandCells) + {maze.value.Start()} && stormFront == old(stormFront)
      ensures width == old(width) && height == old(height) && thirdParameter == old(thirdParameter)
      ensures forall r, c | 0 <= r < maze.value.Height() && 0 <= c < maze.value.Width() ::
        maze.value.Board()[r, c] == if Pos(r, c) == maze.value.Start() then SAND else old(maze.value.Board()[r, c])
      ensures old(Sanded()) ==> Sanded()
    {
      stormStarted := true;
      var start := maze.value.Start();
      sandCells := sandCells + {start};
      maze.value.Board()[start.row, start.col] := SAND;
    }

    function IsStormStarted(): bool
      reads this
    {
      stormStarted
    }

    /**
     * The player has lost when standing on a SAND cell; no position (null)
     * never loses. In particular every sand cell of a sanded board loses.
     */
    function IsLost(playerPosition: Option<Pos>): (r: bool)
      reads this, if maze.Some? then maze.value.Repr() else {}
      requires maze.Some? && maze.value.Valid()
      requires playerPosition.Some? ==> maze.value.InB(playerPosition.value)
      ensures r <==> playerPosition.Some? && playerPosition.value in SandCells(maze.value)
      ensures Sanded() && playerPosition.Some? && playerPosition.value in sandCells ==> r
    {
      playerPosition.Some? && maze.value.Board()[playerPosition.value.row, playerPosition.value.col] == SAND
    }

    /** Empties both sets, then prepares a new maze (which puts its entrance in the front). */
    method Reset() returns (r: Result<()>)
      requires mazeType.Some? ==> Ends(mazeType.value, width, height, thirdParameter)
      modifies this
      ensures mazeType == old(mazeType) && width == old(width) && height == old(height)
      ensures thirdParameter == old(thirdParameter) && stormStarted == old(stormStarted)
      ensures r.Err? <==> mazeType.None? || !Accepted(mazeType.value, width, height, thirdParameter)
      ensures r.Err? ==> maze == old(maze) && stormFront == {} && sandCells == {}
      ensures r.Ok? ==> maze.Some? && fresh(MazeRepr())
      ensures r.Ok? ==> BuiltAs(maze.value, mazeType.value, width, height, thirdParameter)
      ensures r.Ok? ==> stormFront == {maze.value.Start()} && sandCells == {} && Sanded()
    {
      sandCells := {};
      stormFront := {};
      r := PrepareMaze();
    }
  }
}

/**
 * A game: one mode, the player's position on the mode's maze, the number of
 * moves made, the last direction taken, the cells explored so far and the
 * observers (views) to notify. Moving checks the fuel, the board and the
 * maze's walls, then lets the fuel and storm modes react.
 */
module Games {
  import opened Grid
  import opened Results
  import opened Graph
  import opened Mazes
  import opened Directions
  import opened Modes
  import opened FuelModes
  import opened StormModes
  import opened RaceModes
  import opened ProgressionModes

  /** A view registered with a game; only its identity matters here. */
  class Observer {
  }

  /** The list without the first occurrence of `x` (List.remove); the same list when `x` is absent. */
  function RemoveFirst<T(==)>(s: seq<T>, x: T): (r: seq<T>)
    ensures multiset(r) == multiset(s) - multiset{x}
    ensures x !in s ==> r == s
    ensures |r| == if x in s then |s| - 1 else |s|
  {
    if s == [] then []
    else
      assert s == [s[0]] + s[1..];
      if s[0] == x then s[1..]
      else [s[0]] + RemoveFirst(s[1..], x)
  }

  /** Removing from a list without repetitions keeps it so, and removes the element for good. */
  lemma {:induction false} RemoveFirstDistinct<T>(s: seq<T>, x: T)
    requires Distinct(s)
    ensures Distinct(RemoveFirst(s, x)) && x !in RemoveFirst(s, x)
    ensures forall y | y != x :: y in RemoveFirst(s, x) <==> y in s
  {
    var r := RemoveFirst(s, x);
    assert forall y :: y in r <==> multiset(r)[y] > 0;
    assert forall y :: y in s <==> multiset(s)[y] > 0;
    if x in s {
      assert multiset(s)[x] == 1 by { DistinctOnce(s, x); }
    }
    forall i, j | 0 <= i < j < |r| ensures r[i] != r[j] {
      if r[i] == r[j] {
        MultisetTwice(r, i, j);
        DistinctAtMostOnce(s, r[i]);
        assert false;
      }
    }
  }

  /** In a list without repetitions an element occurs at most once. */
  lemma {:induction false} DistinctAtMostOnce<T>(s: seq<T>, x: T)
    requires Distinct(s)
    ensures multiset(s)[x] <= 1
  {
    if s != [] {
      assert s == [s[0]] + s[1..];
      assert Distinct(s[1..]);
      DistinctAtMostOnce(s[1..], x);
      if s[0] == x {
        assert x !in s[1..];
      }
    }
  }

  lemma DistinctOnce<T>(s: seq<T>, x: T)
    requires Distinct(s) && x in s
    ensures multiset(s)[x] == 1
  {
    DistinctAtMostOnce(s, x);
  }

  /** Two positions holding the same element make it occur twice. */
  lemma {:induction false} MultisetTwice<T>(s: seq<T>, i: int, j: int)
    requires 0 <= i < j < |s| && s[i] == s[j]
    ensures multiset(s)[s[i]] >= 2
  {
    var x := s[i];
    assert s == s[..j] + [s[j]] + s[j + 1..];
    assert x in s[..j];
    assert multiset(s) == multiset(s[..j]) + multiset{x} + multiset(s[j + 1..]);
  }

  /** A cell the player sees from `p`: on the board and within Chebyshev distance `radius`. */
  predicate InView(p: Pos, radius: int, height: int, width: int, q: Pos) {
    InBounds(height, width, q) && Chebyshev(p, q) <= radius
  }

  /** The square of cells around `p` the player sees, cut to the board. */
  ghost function Sight(p: Pos, radius: int, height: int, width: int): (s: set<Pos>)
    ensures forall q :: q in s <==> InView(p, radius, height, width, q)
  {
    var s := set r, c | 0 <= r < height && 0 <= c < width && Chebyshev(p, Pos(r, c)) <= radius :: Pos(r, c);
    assert forall q | InView(p, radius, height, width, q) :: q == Pos(q.row, q.col) && q in s;
    s
  }

  /** With radius 0 the player sees the own cell only. */
  lemma {:induction false} SightZero(p: Pos, height: int, width: int)
    requires InBounds(height, width, p)
    ensures Sight(p, 0, height, width) == {p}
  {
    var s := Sight(p, 0, height, width);
    forall q ensures q in s <==> q == p {
      if q in s {
        assert Chebyshev(p, q) == 0;
      }
    }
  }

  /**
   * Adds every cell of the board within Chebyshev distance `radius` of `p`
   * to `explored`, row by row and column by column of the square.
   */
  method VisionCells(p: Pos, radius: int, height: int, width: int, explored: set<Pos>) returns (seen: set<Pos>)
    ensures seen == explored + Sight(p, radius, height, width)
  {
    seen := explored;
    var dy := -radius;
    while dy <= radius
      invariant radius >= 0 ==> -radius <= dy <= radius + 1
      invariant forall q :: q in seen <==>
        q in explored || (InView(p, radius, height, width, q) && q.row < p.row + dy)
    {
      var dx := -radius;
      while dx <= radius
        invariant -radius <= dx <= radius + 1
        invariant forall q :: q in seen <==>
          q in explored || (InView(p, radius, height, width, q) &&
                            (q.row < p.row + dy || (q.row == p.row + dy && q.col < p.col + dx)))
      {
        var x := p.col + dx;
        var y := p.row + dy;
        if x >= 0 && y >= 0 && x < width && y < height {
          assert Chebyshev(p, Pos(y, x)) <= radius;
          seen := seen + {Pos(y, x)};
        }
        dx := dx + 1;
      }
      dy := dy + 1;
    }
    assert forall q :: q in seen <==> q in explored || InView(p, radius, height, width, q);
  }

  /**
   * The vision radius of a game: 2 on the first challenge of the sixth
   * progression level, 1 on its second, and 0 everywhere else.
   */
  function VisionRadius(mode: Mode): (r: int)
    reads mode.Obj()
    ensures 0 <= r <= 2
    ensures r > 0 <==>
      && mode.Progression? && mode.progression.currentLevelIndex == 5
      && (mode.progression.currentChallengeIndex == 0 || mode.progression.currentChallengeIndex == 1)
  {
    match mode
    case Progression(pm) =>
      if pm.currentLevelIndex == 5 then
        if pm.currentChallengeIndex == 0 then 2
        else if pm.currentChallengeIndex == 1 then 1
        else 0
      else 0
    case _ => 0
  }

  /**
   * The mode's reaction to a move onto `p`: the fuel mode burns one unit,
   * or refills on a can and picks it up; the storm mode starts its storm
   * once (from the entrance) and is left alone afterwards; other modes do
   * nothing.
   */
  twostate predicate ModeStepped(mode: Mode, p: Pos)
    reads mode.Obj(), mode.MazeRepr()
  {
    && (mode.Fuel? ==>
          && mode.fuel.fuelLeft == (if old(p in mode.fuel.fuelCells) then mode.fuel.maxFuel
                                   else old(mode.fuel.fuelLeft) - 1)
          && mode.fuel.fuelCells == old(mode.fuel.fuelCells) - {p})
    && (mode.Storm? ==> mode.storm.stormStarted)
    && (mode.Storm? && old(mode.storm.stormStarted) ==> unchanged(mode.storm))
    && (mode.Storm? && !old(mode.storm.stormStarted) ==>
          mode.storm.maze.Some? && mode.storm.sandCells == old(mode.storm.sandCells) + {mode.storm.maze.value.Start()})
    && (!mode.Fuel? && !mode.Storm? ==> unchanged(mode.Obj()))
  }

  /** The hooks of the fuel and storm modes on a move onto `p`. */
  method StepMode(mode: Mode, p: Pos)
    requires mode.Ready()
    modifies mode.Obj(), mode.CurrentMaze().value.Board()
    ensures mode.Ready() && mode.CurrentMaze() == old(mode.CurrentMaze()) && ModeStepped(mode, p)
    ensures !mode.Storm? ==> unchanged(mode.CurrentMaze().value.Board())
  {
    match mode
    case Fuel(fm) =>
      fm.OnMove(p);
    case Storm(sm) =>
      if !sm.IsStormStarted() {
        sm.StartStorm();
      }
    case _ =>
  }

  /** The cell one step from `p` in direction `d` is on the board, and the maze lets one step there and back. */
  ghost predicate CanStep(m: Maze, p: Pos, d: Direction)
    reads m.Repr()
    requires m.Valid()
  {
    var t := Step(d, p);
    m.InB(t) && (p, t) in m.Moves() && (t, p) in m.Moves()
  }

  class Game {
    var observers: seq<Observer>
    const mode: Mode
    var playerPosition: Pos
    var moveCount: int
    var direction: Direction
    var exploredCells: set<Pos>
    const visionRadius: int

    /**
     * The mode has a well-formed maze, the player stands on its board, and
     * the radius is one of 0, 1, 2. The game itself is neither the mode nor
     * part of its maze.
     */
    ghost predicate Valid()
      reads this, mode.Obj(), mode.MazeRepr()
    {
      && mode.Ready() && mode.CurrentMaze().value.InB(playerPosition) && 0 <= visionRadius <= 2
      && this != mode.Obj() && this !in mode.MazeRepr()
    }

    /** The current maze; Valid() says there is one. */
    function Maze(): Maze
      reads mode.Obj()
      requires mode.CurrentMaze().Some?
    {
      mode.CurrentMaze().value
    }

    /**
     * A game on a mode whose maze is ready: the player at the entrance,
     * no move, facing right, the cells in sight of the entrance explored,
     * no observer.
     */
    constructor (mode: Mode)
      requires mode.Ready()
      ensures this.mode == mode && Valid()
      ensures playerPosition == mode.CurrentMaze().value.Start() && moveCount == 0 && direction == D
      ensures visionRadius == VisionRadius(mode) && observers == []
      ensures exploredCells == Sight(playerPosition, visionRadius, Maze().Height(), Maze().Width())
    {
      this.mode := mode;
      visionRadius := VisionRadius(mode);
      playerPosition := mode.CurrentMaze().value.Start();
      exploredCells := {};
      direction := D;
      moveCount := 0;
      observers := [];
      new;
      assert this != mode.Obj() && this !in mode.MazeRepr();
      ExploreVision(visionRadius);
    }

    /**
     * Starts a game: the mode prepares its maze first, and a mode whose
     * settings give no maze gives no game.
     */
    static method Create(mode: Mode) returns (r: Result<Game>)
      requires mode.Preparable()
      modifies mode.Obj()
      ensures r.Err? <==> !old(mode.Buildable())
      ensures r.Ok? ==> fresh(r.value) && r.value.mode == mode && r.value.Valid()
      ensures r.Ok? ==> r.value.playerPosition == mode.CurrentMaze().value.Start() && r.value.moveCount == 0
    {
      var prepared := mode.PrepareMaze();
      if prepared.Err? {
        return Err(prepared.message);
      }
      var g := new Game(mode);
      r := Ok(g);
    }

    /** Marks the cells within `radius` of the player as explored. */
    method ExploreVision(radius: int)
      requires mode.Ready()
      modifies this`exploredCells
      ensures exploredCells == old(exploredCells) + Sight(playerPosition, radius, Maze().Height(), Maze().Width())
    {
      var m := mode.CurrentMaze().value;
      exploredCells := VisionCells(playerPosition, radius, m.Height(), m.Width(), exploredCells);
    }

    /**
     * Whether a move in direction `d` goes through: the fuel mode has fuel
     * left, and the maze lets the player step one cell that way.
     */
    ghost predicate Allowed(d: Direction)
      reads this, mode.Obj(), mode.MazeRepr()
      requires Valid()
    {
      (mode.Fuel? ==> mode.fuel.CanMove()) && CanStep(Maze(), playerPosition, d)
    }

    /**
     * Moves the player one step in direction `d` when allowed: the position,
     * the move count and the direction change, the cells in sight are
     * explored, the fuel mode burns or refills its tank and the storm mode
     * starts its storm on the first move. Otherwise nothing changes.
     */
    method MovePlayer(d: Direction) returns (moved: bool)
      requires Valid()
      modifies this`playerPosition, this`moveCount, this`direction, this`exploredCells
      modifies mode.Obj(), Maze().Board()
      ensures moved <==> old(Allowed(d))
      ensures Valid() && Maze() == old(Maze())
      ensures !moved ==> && playerPosition == old(playerPosition) && moveCount == old(moveCount)
                         && direction == old(direction) && exploredCells == old(exploredCells)
                         && unchanged(mode.Obj()) && unchanged(Maze().Board())
      ensures moved ==> Moved(d, Maze().Height(), Maze().Width())
      ensures moved ==> ModeStepped(mode, playerPosition)
    {
      var next := Target(d);
      if next.None? {
        return false;
      }
      Move(d, next.value);
      moved := true;
    }

    /** A move that goes through: the step, then the mode's reaction to it. */
    method Move(d: Direction, next: Pos)
      requires Valid() && next == Step(d, playerPosition) && Maze().InB(next)
      modifies this`playerPosition, this`moveCount, this`direction, this`exploredCells
      modifies mode.Obj(), Maze().Board()
      ensures Valid() && Maze() == old(Maze())
      ensures Moved(d, Maze().Height(), Maze().Width())
      ensures ModeStepped(mode, playerPosition)
    {
      Advance(d, next);
      StepMode(mode, playerPosition);
    }

    /** The cell a move in direction `d` goes to, None when the move is refused. */
    method Target(d: Direction) returns (next: Option<Pos>)
      requires Valid()
      ensures next.Some? <==> old(Allowed(d))
      ensures next.Some? ==> next.value == Step(d, playerPosition) && Maze().InB(next.value)
    {
      if mode.Fuel? && !mode.fuel.CanMove() {
        return None;
      }
      var m := Maze();
      var target := Step(d, playerPosition);
      if !(target.row >= 0 && target.row < m.Height() && target.col >= 0 && target.col < m.Width()) {
        return None;
      }
      next := m.GetCell(target.row, target.col);
      if next.None? || !m.IsDirectlyReachable(Some(playerPosition), next) {
        return None;
      }
    }

    /** After a move in direction `d`: one step further, one more move, facing `d`, its sight explored. */
    twostate predicate Moved(d: Direction, height: int, width: int)
      reads this
    {
      && playerPosition == Step(d, old(playerPosition))
      && moveCount == old(moveCount) + 1 && direction == d
      && exploredCells == old(exploredCells) + Sight(playerPosition, visionRadius, height, width)
    }

    /** Takes the step to `next`, and explores what is in sight from there. */
    method Advance(d: Direction, next: Pos)
      requires Valid() && next == Step(d, playerPosition) && Maze().InB(next)
      modifies this`playerPosition, this`moveCount, this`direction, this`exploredCells
      ensures Valid() && Moved(d, Maze().Height(), Maze().Width())
    {
      playerPosition, moveCount, direction := next, moveCount + 1, d;
      if visionRadius > 0 {
        ExploreVision(visionRadius);
      } else {
        SightZero(next, Maze().Height(), Maze().Width());
        exploredCells := exploredCells + {next};
      }
    }

    /**
     * The game is lost in the fuel mode with an empty tank, in the race mode
     * once the bot is through, in the storm mode on sand, and never in the
     * other modes.
     */
    function IsLost(): (r: bool)
      reads this, mode.Obj(), mode.MazeRepr()
      requires Valid()
      ensures mode.Fuel? ==> (r <==> mode.fuel.fuelLeft <= 0)
      ensures mode.Race? ==> (r <==> mode.race.IsLost(moveCount))
      ensures mode.Storm? ==> (r <==> playerPosition in SandCells(Maze()))
      ensures !mode.Fuel? && !mode.Race? && !mode.Storm? ==> !r
    {
      match mode
      case Fuel(fm) => fm.IsLost()
      case Race(rm) => rm.IsLost(moveCount)
      case Storm(sm) => sm.IsLost(Some(playerPosition))
      case _ => false
    }

    /**
     * The game is over when the player stands on the exit, or, in a mode
     * that can be lost (fuel, race, storm), when it is lost.
     */
    function IsFinished(): (r: bool)
      reads this, mode.Obj(), mode.MazeRepr()
      requires Valid()
      ensures r <==> playerPosition == Maze().End() || ((mode.Fuel? || mode.Race? || mode.Storm?) && IsLost())
    {
      if mode.Race? || mode.Fuel? || mode.Storm? then
        IsLost() || Maze().IsEnd(Some(playerPosition))
      else Maze().IsEnd(Some(playerPosition))
    }

    /** Only a mode that can be lost ends a game away from the exit. */
    lemma FinishedAwayFromExit()
      requires Valid() && IsFinished() && playerPosition != Maze().End()
      ensures mode.Fuel? || mode.Race? || mode.Storm?
      ensures IsLost()
    {
    }

    /**
     * Starts over: no move, facing right, and only the cell the player stood
     * on explored. The fuel mode builds a new maze with its cans first;
     * then the player goes to the entrance. When the fuel mode's settings
     * give no maze, the player stays.
     */
    method Reset() returns (r: Result<()>)
      requires Valid()
      requires mode.Fuel? ==> Ends(BuiltType(mode.fuel.mazeType), mode.fuel.width, mode.fuel.height, mode.fuel.thirdParameter)
      modifies this`moveCount, this`exploredCells, this`direction, this`playerPosition, mode.Obj()
      ensures Valid() && moveCount == 0 && direction == D && exploredCells == {old(playerPosition)}
      ensures r.Err? <==> mode.Fuel? && !old(Accepted(BuiltType(mode.fuel.mazeType), mode.fuel.width,
                                                         mode.fuel.height, mode.fuel.thirdParameter))
      ensures r.Ok? ==> playerPosition == Maze().Start()
      ensures r.Err? ==> playerPosition == old(playerPosition)
      ensures !mode.Fuel? ==> unchanged(mode.Obj())
      ensures mode.Fuel? && r.Ok? ==> fresh(mode.MazeRepr()) && mode.fuel.fuelLeft == mode.fuel.maxFuel
      ensures mode.Fuel? && r.Ok? ==> Prepared(mode.fuel.maze.value, BuiltType(mode.fuel.mazeType), mode.fuel.width,
                                               mode.fuel.height, mode.fuel.thirdParameter, mode.fuel.fuelCells)
    {
      moveCount := 0;
      exploredCells := {playerPosition};
      direction := D;
      if mode.Fuel? {
        var reset := ResetFuelMode(mode.fuel);
        if reset.Err? {
          return Err(reset.message);
        }
      }
      playerPosition := Maze().Start();
      r := Ok(());
    }

    /** Registers a view; an absent (null) view or one already registered is ignored. */
    method AddObserver(observer: Option<Observer>)
      modifies this`observers
      ensures observer.Some? && observer.value !in old(observers) ==> observers == old(observers) + [observer.value]
      ensures observer.None? || observer.value in old(observers) ==> observers == old(observers)
      ensures Distinct(old(observers)) ==> Distinct(observers)
    {
      if observer.Some? && observer.value !in observers {
        observers := observers + [observer.value];
      }
    }

    /** Unregisters a view; an absent (null) or unknown view changes nothing. */
    method RemoveObserver(observer: Option<Observer>)
      modifies this`observers
      ensures observers == if observer.Some? then RemoveFirst(old(observers), observer.value) else old(observers)
      ensures Distinct(old(observers)) ==> Distinct(observers)
      ensures Distinct(old(observers)) && observer.Some? ==> observer.value !in observers
    {
      if observer.Some? && observer.value in observers {
        RemoveFirstDistinctIf(observers, observer.value);
        observers := RemoveFirst(observers, observer.value);
      }
    }
  }

  /**
   * FuelMode.Reset, as the game uses it: whether the settings were
   * refused, and on success a fresh stocked maze and a full tank.
   */
  method ResetFuelMode(f: FuelMode) returns (r: Result<()>)
    requires Ends(BuiltType(f.mazeType), f.width, f.height, f.thirdParameter)
    modifies f
    ensures r.Err? <==> !Accepted(BuiltType(f.mazeType), f.width, f.height, f.thirdParameter)
    ensures r.Err? ==> f.maze == old(f.maze) && f.fuelLeft == old(f.fuelLeft) && f.fuelCells == old(f.fuelCells)
    ensures r.Ok? ==> f.maze.Some? && fresh(f.MazeRepr()) && f.fuelLeft == f.maxFuel
    ensures r.Ok? ==> Prepared(f.maze.value, BuiltType(f.mazeType), f.width, f.height, f.thirdParameter, f.fuelCells)
    ensures f.mazeType == old(f.mazeType) && f.width == old(f.width) && f.height == old(f.height)
    ensures f.thirdParameter == old(f.thirdParameter)
  {
    r := f.Reset();
  }

  lemma RemoveFirstDistinctIf<T>(s: seq<T>, x: T)
    ensures Distinct(s) ==> Distinct(RemoveFirst(s, x)) && x !in RemoveFirst(s, x)
  {
    if Distinct(s) {
      RemoveFirstDistinct(s, x);
    }
  }
}

/**
 * The game modes as one sum: a game holds one mode object of one of the
 * eight kinds, and asks it for its maze and to prepare a new one.
 */
module Modes {
  import opened Grid
  import opened Results
  import opened Mazes
  import opened FreeModes
  import opened NightModes
  import opened FuelModes
  import opened StormModes
  import opened RaceModes
  import opened MultipleExitModes
  import opened MadMaxModes
  import opened ProgressionModes

  datatype Mode =
    | Free(free: FreeMode)
    | Night(night: NightMode)
    | Fuel(fuel: FuelMode)
    | Storm(storm: StormMode)
    | Race(race: RaceMode)
    | MultipleExit(multipleExit: MultipleExitMode)
    | MadMax(madMax: MadMaxMode)
    | Progression(progression: ProgressionMode)
  {
    /** The mode object itself. */
    function Obj(): object {
      match this
      case Free(x) => x
      case Night(x) => x
      case Fuel(x) => x
      case Storm(x) => x
      case Race(x) => x
      case MultipleExit(x) => x
      case MadMax(x) => x
      case Progression(x) => x
    }

    /** The maze of the mode, None (null) before one is built. */
    function CurrentMaze(): Option<Maze>
      reads Obj()
    {
      match this
      case Free(x) => x.maze
      case Night(x) => x.maze
      case Fuel(x) => x.maze
      case Storm(x) => x.maze
      case Race(x) => x.maze
      case MultipleExit(x) => x.maze
      case MadMax(x) => x.maze
      case Progression(x) => x.maze
    }

    /** The objects of the current maze, if any. */
    function MazeRepr(): set<object>
      reads Obj()
    {
      if CurrentMaze().Some? then CurrentMaze().value.Repr() else {}
    }

    /** A well-formed maze is in place. */
    ghost predicate Ready()
      reads Obj(), MazeRepr()
    {
      CurrentMaze().Some? && CurrentMaze().value.Valid()
    }

    /**
     * What each mode asks before preparing: generation of a random maze
     * ends, the multiple-exit mode has room for its decoys, the progression
     * mode has its table.
     */
    ghost predicate Preparable()
      reads Obj()
    {
      match this
      case Free(x) => x.mazeType.Some? ==> Ends(x.mazeType.value, x.width, x.height, x.parameter3)
      case Night(x) => x.mazeType.Some? ==> Ends(x.mazeType.value, x.width, x.height, x.parameter3)
      case Fuel(x) => Ends(BuiltType(x.mazeType), x.width, x.height, x.thirdParameter)
      case Storm(x) => x.mazeType.Some? ==> Ends(x.mazeType.value, x.width, x.height, x.thirdParameter)
      case Race(x) => x.mazeType.Some? ==> Ends(x.mazeType.value, x.width, x.height, x.parameter3)
      case MultipleExit(x) =>
        && (x.mazeType.Some? ==> Ends(x.mazeType.value, x.width, x.height, x.parameter3))
        && (x.mazeType.Some? && Accepted(x.mazeType.value, x.width, x.height, x.parameter3) ==>
              DecoyCount <= |Border(x.height, x.width)|)
      case MadMax(x) => x.mazeType.Some? ==> Ends(x.mazeType.value, x.width, x.height, x.parameter3)
      case Progression(x) => x.Valid()
    }

    /**
     * Whether the stored settings give a maze: a type and accepted
     * arguments (a fuel mode builds a random maze without a type; every
     * challenge of the progression table is accepted).
     */
    predicate Buildable()
      reads Obj()
    {
      match this
      case Free(x) => x.mazeType.Some? && Accepted(x.mazeType.value, x.width, x.height, x.parameter3)
      case Night(x) => x.mazeType.Some? && Accepted(x.mazeType.value, x.width, x.height, x.parameter3)
      case Fuel(x) => Accepted(BuiltType(x.mazeType), x.width, x.height, x.thirdParameter)
      case Storm(x) => x.mazeType.Some? && Accepted(x.mazeType.value, x.width, x.height, x.thirdParameter)
      case Race(x) => x.mazeType.Some? && Accepted(x.mazeType.value, x.width, x.height, x.parameter3)
      case MultipleExit(x) => x.mazeType.Some? && Accepted(x.mazeType.value, x.width, x.height, x.parameter3)
      case MadMax(x) => x.mazeType.Some? && Accepted(x.mazeType.value, x.width, x.height, x.parameter3)
      case Progression(x) => true
    }

    /**
     * Prepares a maze in the mode's own way. It fails exactly when the
     * settings give no maze, and then the maze stays; otherwise a new,
     * playable maze is in place.
     */
    method PrepareMaze() returns (r: Result<()>)
      requires Preparable()
      modifies Obj()
      ensures r.Err? <==> !old(Buildable())
      ensures r.Err? ==> CurrentMaze() == old(CurrentMaze())
      ensures r.Ok? ==> CurrentMaze().Some? && fresh(MazeRepr()) && CurrentMaze().value.Playable()
    {
      match this
      case Free(x) => r := x.PrepareMaze();
      case Night(x) => r := x.PrepareMaze();
      case Fuel(x) =>
        r := x.PrepareMaze();
      case Storm(x) => r := x.PrepareMaze();
      case Race(x) => r := x.PrepareMaze();
      case MultipleExit(x) => r := x.PrepareMaze();
      case MadMax(x) => r := x.PrepareMaze();
      case Progression(x) =>
        x.PrepareMaze();
        r := Ok(());
    }
  }
}

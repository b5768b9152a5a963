/**
 * The maze interface the game and its modes work with: a maze is either a
 * random maze (walls on cells) or a perfect maze (walls between cells), and
 * every query dispatches on which. The moves of a maze are the steps
 * `movePlayer` may take between two cells of the board.
 */
module Mazes {
  import opened Grid
  import opened Results
  import opened Graph
  import opened RandomMazes
  import opened PerfectMazes

  datatype Maze = RandomM(random: RandomMaze) | PerfectM(perfect: PerfectMaze)
  {
    function Width(): int {
      match this
      case RandomM(m) => m.width
      case PerfectM(m) => m.width
    }

    function Height(): int {
      match this
      case RandomM(m) => m.height
      case PerfectM(m) => m.height
    }

    /** The type tag of every cell; the modes write fuel cans and sand here. */
    function Board(): array2<CellType> {
      match this
      case RandomM(m) => m.grid
      case PerfectM(m) => m.grid
    }

    /** The objects that make up the maze. */
    function Repr(): set<object> {
      match this
      case RandomM(m) => {m, m.grid}
      case PerfectM(m) => {m, m.grid, m.verticalWalls, m.horizontalWalls}
    }

    predicate InB(p: Pos) {
      InBounds(Height(), Width(), p)
    }

    /** The maze object itself, which holds the entrance and the exit. */
    function Core(): object {
      match this
      case RandomM(m) => m
      case PerfectM(m) => m
    }

    function Start(): Pos
      reads Repr()
    {
      match this
      case RandomM(m) => m.start
      case PerfectM(m) => m.start
    }

    function End(): Pos
      reads Repr()
    {
      match this
      case RandomM(m) => m.end
      case PerfectM(m) => m.end
    }

    /** Well-formed arrays, and the entrance and the exit on the board. */
    ghost predicate Valid()
      reads Repr()
    {
      match this
      case RandomM(m) => m.Shaped() && m.InB(m.start) && m.InB(m.end)
      case PerfectM(m) => m.Shaped() && m.InB(m.start) && m.InB(m.end)
    }

    /** A valid maze whose exit can be reached from its entrance. */
    ghost predicate Playable()
      reads Repr()
    {
      Valid() && Reachable(Moves(), Start(), End())
    }

    /**
     * The steps one may take: in a random maze onto an orthogonal neighbour
     * that is no wall, in a perfect maze through an open slot.
     */
    ghost function Moves(): Edges
      reads Repr()
      requires Valid()
    {
      match this
      case RandomM(m) => m.Moves()
      case PerfectM(m) => m.Passages()
    }

    /** The cell at a position, or None (null) off the board. */
    function GetCell(row: int, col: int): (r: Option<Pos>)
      ensures r.Some? <==> InB(Pos(row, col))
      ensures r.Some? ==> r.value == Pos(row, col)
    {
      match this
      case RandomM(m) => m.GetCell(row, col)
      case PerfectM(m) => m.GetCell(row, col)
    }

    /**
     * Whether the player may step directly between two cells. On the board
     * that is a move in both directions (in a random maze neither cell is
     * a wall).
     */
    function IsDirectlyReachable(a: Option<Pos>, b: Option<Pos>): (r: bool)
      reads Repr()
      requires Valid()
      ensures a.Some? && b.Some? && InB(a.value) && InB(b.value) ==>
        (r <==> (a.value, b.value) in Moves() && (b.value, a.value) in Moves())
      ensures r ==> a.Some? && b.Some? && Adjacent(a.value, b.value)
    {
      match this
      case RandomM(m) =>
        if a.Some? && b.Some? && m.InB(a.value) && m.InB(b.value) then
          m.DirectlyReachableMoves(a.value, b.value);
          m.IsDirectlyReachable(a, b)
        else m.IsDirectlyReachable(a, b)
      case PerfectM(m) =>
        m.PassagesSymmetric();
        assert m.IsDirectlyReachable(a, b) ==> Adjacent(a.value, b.value);
        m.IsDirectlyReachable(a, b)
    }

    /** Whether a cell is the exit (None is not). */
    function IsEnd(cell: Option<Pos>): (r: bool)
      reads Repr()
      ensures r <==> cell == Some(End())
    {
      match this
      case RandomM(m) => cell.Some? && m.IsEnd(cell.value.row, cell.value.col)
      case PerfectM(m) => m.IsEnd(cell)
    }

    /**
     * A shortest walk from `source` to `target`, both included, or empty
     * when there is none.
     */
    method FindOptimalPath(source: Pos, target: Pos) returns (path: seq<Pos>)
      requires Valid() && InB(source) && InB(target)
      ensures path == [] <==> !Reachable(Moves(), source, target)
      ensures path != [] ==> WalkFromTo(Moves(), path, source, target)
      ensures path != [] ==> |path| == ShortestDistance(Moves(), source, target) + 1
    {
      match this
      case RandomM(m) =>
        path := m.FindOptimalPath(source, target);
      case PerfectM(m) =>
        path := m.FindOptimalPath(source, target);
    }

    /** The number of steps of a shortest walk from the entrance to the exit, -1 when there is none. */
    method OptimalPathLength() returns (n: int)
      requires Valid()
      ensures n == ShortestDistance(Moves(), Start(), End())
    {
      match this
      case RandomM(m) =>
        n := m.OptimalPathLength();
      case PerfectM(m) =>
        n := m.OptimalPathLength();
    }

    /**
     * Moves the exit to `cell`. A random maze ignores a cell off the board;
     * a perfect maze takes any cell.
     */
    method SetEnd(cell: Pos)
      modifies Core()
      ensures End() == if PerfectM? || InB(cell) then cell else old(End())
      ensures Start() == old(Start())
      ensures RandomM? ==> random.wallPercentage == old(random.wallPercentage)
    {
      match this
      case RandomM(m) =>
        m.SetEndCell(Some(cell));
      case PerfectM(m) =>
        m.SetEnd(cell);
    }
  }

  /** The cells of the board whose type is SAND. */
  ghost function SandCells(m: Maze): set<Pos>
    reads m.Repr()
    requires m.Valid()
  {
    set p | p in Cells(m.Height(), m.Width()) && m.Board()[p.row, p.col] == SAND
  }

  /** The arguments the constructor of a maze of that type accepts. */
  predicate Accepted(mazeType: MazeType, width: int, height: int, param: int) {
    if mazeType == RANDOM then width > 0 && height > 0 && 0 <= param <= 100
    else width >= 2 && height >= 2 && param >= 1
  }

  /** Generation ends: a random maze has room for its walls besides the entrance and the exit. */
  predicate Ends(mazeType: MazeType, width: int, height: int, param: int) {
    mazeType == RANDOM && Accepted(mazeType, width, height, param) ==> Placeable(width, height, param)
  }

  /**
   * The shape of a freshly built maze: playable, of the requested size and
   * type, with a random maze's entrance and exit on opposite sides and a
   * perfect maze's minimal length the third argument.
   */
  ghost predicate BuiltAs(m: Maze, mazeType: MazeType, width: int, height: int, param: int)
    reads m.Repr()
  {
    && m.Playable() && m.Width() == width && m.Height() == height
    && (m.RandomM? <==> mazeType == RANDOM)
    && (m.RandomM? ==> m.random.Opposite())
    && (m.PerfectM? ==> m.perfect.minLength == param)
  }

  /** The message standing for the NullPointerException of a switch on a missing maze type. */
  const NoMazeType := "mazeType is null"

  /**
   * The switch of the modes on their maze type: nothing is built without a
   * type (the Java code fails on the switch), and otherwise as Build.
   */
  method BuildFor(mazeType: Option<MazeType>, width: int, height: int, param: int) returns (r: Result<Maze>)
    requires mazeType.Some? ==> Ends(mazeType.value, width, height, param)
    ensures r.Err? <==> mazeType.None? || !Accepted(mazeType.value, width, height, param)
    ensures mazeType.None? ==> r == Err(NoMazeType)
    ensures r.Ok? ==> fresh(r.value.Repr()) && BuiltAs(r.value, mazeType.value, width, height, param)
  {
    if mazeType.None? {
      return Err(NoMazeType);
    }
    r := Build(mazeType.value, width, height, param);
  }

  /**
   * A new maze of the given type: a random maze with the third argument as
   * wall percentage, or a perfect maze with it as minimal solution length.
   * The constructor's argument checks become errors. A random maze needs
   * room for its walls, or generation never ends.
   */
  method Build(mazeType: MazeType, width: int, height: int, param: int) returns (r: Result<Maze>)
    requires Ends(mazeType, width, height, param)
    ensures r.Err? <==> !Accepted(mazeType, width, height, param)
    ensures r.Ok? ==> fresh(r.value.Repr()) && BuiltAs(r.value, mazeType, width, height, param)
    ensures r.Ok? && r.value.RandomM? ==> r.value.random.Finished(param)
    ensures r.Ok? && r.value.PerfectM? ==> r.value.perfect.Generated()
  {
    if mazeType == RANDOM {
      r := BuildRandom(width, height, param);
    } else {
      r := BuildPerfect(width, height, param);
    }
  }

  /** A random maze through its constructor, whose argument checks become errors. */
  method BuildRandom(width: int, height: int, param: int) returns (r: Result<Maze>)
    requires width > 0 && height > 0 && 0 <= param <= 100 ==> Placeable(width, height, param)
    ensures r.Err? <==> width <= 0 || height <= 0 || param < 0 || param > 100
    ensures r.Ok? ==> fresh(r.value.Repr()) && RandomBuiltAs(r.value, width, height, param)
  {
    var m := RandomMaze.Create(width, height, param);
    if m.Err? {
      return Err(m.message);
    }
    var mz := m.value;
    FreshRandom(mz);
    RandomBuilt(mz, width, height, param);
    r := Ok(RandomM(mz));
  }

  /** A random maze allocated since the previous state is a fresh maze. */
  twostate lemma FreshRandom(new mz: RandomMaze)
    requires fresh(mz) && fresh(mz.grid)
    ensures fresh(RandomM(mz).Repr())
  {
    assert RandomM(mz).Repr() == {mz, mz.grid};
  }

  /** A finished random maze built as asked. */
  ghost predicate RandomBuiltAs(m: Maze, width: int, height: int, param: int)
    reads m.Repr()
  {
    m.RandomM? && m.random.Finished(param) && BuiltAs(m, RANDOM, width, height, param)
  }

  /** A finished random maze of the requested size is built as asked. */
  lemma RandomBuilt(mz: RandomMaze, width: int, height: int, param: int)
    requires mz.width == width && mz.height == height
    requires mz.Shaped() && mz.Finished(param) && mz.Opposite()
    ensures RandomM(mz).Repr() == {mz, mz.grid}
    ensures RandomBuiltAs(RandomM(mz), width, height, param)
  {
    assert mz.Generated(param);
    assert mz.InB(mz.start) && mz.InB(mz.end);
  }

  /** A perfect maze through its constructor, whose argument checks become errors. */
  method BuildPerfect(width: int, height: int, param: int) returns (r: Result<Maze>)
    ensures r.Err? <==> width < 2 || height < 2 || param < 1
    ensures r.Ok? ==> r.value.PerfectM? && fresh(r.value.perfect) && fresh(r.value.perfect.grid) && r.value.Playable()
    ensures r.Ok? ==> fresh(r.value.perfect.verticalWalls) && fresh(r.value.perfect.horizontalWalls)
    ensures r.Ok? ==> r.value.Width() == width && r.value.Height() == height
    ensures r.Ok? ==> r.value.perfect.Generated() && r.value.perfect.minLength == param
    ensures r.Ok? ==> fresh(r.value.Repr()) && BuiltAs(r.value, PERFECT, width, height, param)
  {
    var m := PerfectMaze.Create(width, height, param);
    if m.Err? {
      return Err(m.message);
    }
    var p := m.value;
    FreshPerfect(p);
    assert p.Connected();
    assert Reachable(p.Passages(), p.start, p.end);
    r := Ok(PerfectM(p));
  }

  /** A perfect maze allocated since the previous state, with its arrays, is a fresh maze. */
  twostate lemma FreshPerfect(new p: PerfectMaze)
    requires fresh(p) && fresh(p.grid) && fresh(p.verticalWalls) && fresh(p.horizontalWalls)
    ensures fresh(PerfectM(p).Repr())
  {
    assert PerfectM(p).Repr() == {p, p.grid, p.verticalWalls, p.horizontalWalls};
  }
}

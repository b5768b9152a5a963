/**
 * The perfect maze: every cell is walkable and walls sit on the edges
 * between orthogonal neighbours, in two boolean arrays. Generation carves a
 * spanning tree with the Growing-Tree algorithm, then places the entrance at
 * random and the exit at a breadth-first distance of at least `minLength`
 * when some cell is that far, otherwise as far as possible.
 */
module PerfectMazes {
  import opened Grid
  import opened Graph
  import opened Results

  /**
   * A wall slot. `Vertical(r, c)` separates (r, c) from (r, c+1) and is
   * stored in `verticalWalls[r][c]`; `Horizontal(r, c)` separates (r, c) from
   * (r+1, c) and is stored in `horizontalWalls[r][c]`.
   */
  datatype Wall = Vertical(row: int, col: int) | Horizontal(row: int, col: int)
  {
    function Low(): Pos { Pos(row, col) }
    function High(): Pos { if Vertical? then Pos(row, col + 1) else Pos(row + 1, col) }
  }

  predicate ValidWall(height: int, width: int, w: Wall) {
    match w
    case Vertical(r, c) => 0 <= r < height && 0 <= c < width - 1
    case Horizontal(r, c) => 0 <= r < height - 1 && 0 <= c < width
  }

  /** The slot between two orthogonal neighbours, whichever order they are given in. */
  function WallOf(a: Pos, b: Pos): (w: Wall)
    requires Adjacent(a, b)
    ensures (w.Low() == a && w.High() == b) || (w.Low() == b && w.High() == a)
    ensures forall h, wd :: InBounds(h, wd, a) && InBounds(h, wd, b) ==> ValidWall(h, wd, w)
  {
    if a.row == b.row then Vertical(a.row, Min(a.col, b.col)) else Horizontal(Min(a.row, b.row), a.col)
  }

  /** Every slot is the slot between its two sides, and only between them. */
  lemma WallOfSides(w: Wall, a: Pos, b: Pos)
    ensures Adjacent(w.Low(), w.High())
    ensures WallOf(w.Low(), w.High()) == w && WallOf(w.High(), w.Low()) == w
    ensures Adjacent(a, b) && WallOf(a, b) == w ==> {a, b} == {w.Low(), w.High()}
  {
  }

  function AllWalls(height: int, width: int): (s: set<Wall>)
    ensures forall w :: w in s <==> ValidWall(height, width, w)
  {
    (set r, c | 0 <= r < height && 0 <= c < width - 1 :: Vertical(r, c)) +
    (set r, c | 0 <= r < height - 1 && 0 <= c < width :: Horizontal(r, c))
  }

  /** The step across a slot, from its low side to its high side or back. */
  function Crossing(w: Wall, forward: bool): (Pos, Pos) {
    if forward then (w.Low(), w.High()) else (w.High(), w.Low())
  }

  /** The passages through a set of open slots, in both directions. */
  ghost function EdgesOf(S: set<Wall>): (E: Edges)
    ensures forall a, b :: (a, b) in E <==> Adjacent(a, b) && WallOf(a, b) in S
  {
    var E := set w, forward: bool | w in S :: Crossing(w, forward);
    assert forall a, b :: (a, b) in E <==> Adjacent(a, b) && WallOf(a, b) in S by {
      forall a, b
        ensures (a, b) in E <==> Adjacent(a, b) && WallOf(a, b) in S
      {
        if (a, b) in E {
          var w, forward :| w in S && Crossing(w, forward) == (a, b);
          WallOfSides(w, a, b);
        }
        if Adjacent(a, b) && WallOf(a, b) in S {
          var w := WallOf(a, b);
          assert Crossing(w, w.Low() == a) == (a, b);
        }
      }
    }
    E
  }

  /** Every neighbour of `v` on the board is in `S`. */
  ghost predicate Saturated(height: int, width: int, S: set<Pos>, v: Pos) {
    forall n | InBounds(height, width, n) && Adjacent(v, n) :: n in S
  }

  /**
   * The carving so far: the open slots join the visited cells, one slot per
   * visited cell but the first, and each visited cell has a walk from the
   * first one through them.
   */
  ghost predicate CarvedSoFar(height: int, width: int, root: Pos, V: set<Pos>, O: set<Wall>, Wk: map<Pos, seq<Pos>>) {
    && root in V && (forall v | v in V :: InBounds(height, width, v))
    && (forall w | w in O :: ValidWall(height, width, w) && w.Low() in V && w.High() in V)
    && |O| == |V| - 1
    && V <= Wk.Keys
    && (forall v | v in V :: WalkFromTo(EdgesOf(O), Wk[v], root, v))
  }

  /** Opening the slot from a visited cell to an unvisited neighbour grows the carving by that neighbour. */
  lemma CarveGrow(height: int, width: int, root: Pos, V: set<Pos>, O: set<Wall>, Wk: map<Pos, seq<Pos>>, a: Pos, b: Pos)
    requires CarvedSoFar(height, width, root, V, O, Wk)
    requires a in V && b !in V && InBounds(height, width, b) && Adjacent(a, b)
    ensures WallOf(a, b) !in O
    ensures CarvedSoFar(height, width, root, V + {b}, O + {WallOf(a, b)}, Wk[b := Wk[a] + [b]])
  {
    var w := WallOf(a, b);
    var O' := O + {w};
    forall v | v in V
      ensures WalkFromTo(EdgesOf(O'), Wk[v], root, v)
    {
      WalkMono(EdgesOf(O), EdgesOf(O'), Wk[v]);
    }
    assert (a, b) in EdgesOf(O');
    WalkExtend(EdgesOf(O'), Wk[a], b);
  }

  /** The list without its entry at `index`, the others in order (Java's List.remove(int)). */
  function RemoveAt(s: seq<Pos>, index: int): (r: seq<Pos>)
    requires 0 <= index < |s|
    ensures |r| == |s| - 1
    ensures forall i | 0 <= i < |r| :: r[i] == if i < index then s[i] else s[i + 1]
    ensures forall x | x in s && x != s[index] :: x in r
    ensures forall x | x in r :: x in s
  {
    var r := s[..index] + s[index + 1..];
    assert forall x | x in s && x != s[index] :: x in r by {
      forall x | x in s && x != s[index]
        ensures x in r
      {
        var i :| 0 <= i < |s| && s[i] == x;
        if i < index {
          assert r[i] == x;
        } else {
          assert r[i - 1] == x;
        }
      }
    }
    r
  }

  /** Java's adjacency test, on the absolute coordinate differences. */
  function IsAdjacent(row: int, col: int, row2: int, col2: int): (r: bool)
    ensures r <==> Adjacent(Pos(row, col), Pos(row2, col2))
  {
    var dx := Abs(col - col2);
    var dy := Abs(row - row2);
    (dx == 1 && dy == 0) || (dx == 0 && dy == 1)
  }

  class PerfectMaze {
    const width: int
    const height: int
    const minLength: int
    const verticalWalls: array2<bool>
    const horizontalWalls: array2<bool>
    /** The type tag of each cell (fuel cans and sand are written here). */
    const grid: array2<CellType>
    var start: Pos
    var end: Pos

    /** The dimensions the constructor accepts, and arrays of the matching shapes. */
    ghost predicate Shaped() {
      && width >= 2 && height >= 2 && minLength >= 1
      && verticalWalls.Length0 == height && verticalWalls.Length1 == width - 1
      && horizontalWalls.Length0 == height - 1 && horizontalWalls.Length1 == width
      && grid.Length0 == height && grid.Length1 == width
      && verticalWalls != horizontalWalls
    }

    predicate IsValidPosition(row: int, col: int) {
      row >= 0 && row < height && col >= 0 && col < width
    }

    predicate InB(p: Pos) {
      InBounds(height, width, p)
    }

    /** Whether a slot is closed. */
    function WallAt(w: Wall): bool
      reads verticalWalls, horizontalWalls
      requires Shaped() && ValidWall(height, width, w)
    {
      match w
      case Vertical(r, c) => verticalWalls[r, c]
      case Horizontal(r, c) => horizontalWalls[r, c]
    }

    /** One can step from a to b: both on the board, neighbours, and the slot between them open. */
    ghost function Passages(): (E: Edges)
      reads verticalWalls, horizontalWalls
      requires Shaped()
      ensures forall a, b :: (a, b) in E <==> InB(a) && InB(b) && Adjacent(a, b) && !WallAt(WallOf(a, b))
    {
      set a, b | a in Cells(height, width) && b in Cells(height, width) && Adjacent(a, b) && !WallAt(WallOf(a, b)) :: (a, b)
    }

    /** `E` holds exactly the steps between neighbours on the board whose slot is open. */
    ghost predicate OpenBetween(E: Edges)
      reads verticalWalls, horizontalWalls
      requires Shaped()
    {
      forall a, b :: (a, b) in E <==> InB(a) && InB(b) && Adjacent(a, b) && !WallAt(WallOf(a, b))
    }

    lemma PassagesSymmetric()
      requires Shaped()
      ensures Symmetric(Passages())
    {
      forall a, b | (a, b) in Passages()
        ensures (b, a) in Passages()
      {
        WallOfSides(WallOf(a, b), a, b);
      }
    }

    /** The open slots are exactly the ones in `O`. */
    ghost predicate ClosedExcept(O: set<Wall>)
      reads verticalWalls, horizontalWalls
      requires Shaped()
    {
      && (forall r, c | 0 <= r < height && 0 <= c < width - 1 :: verticalWalls[r, c] <==> Vertical(r, c) !in O)
      && (forall r, c | 0 <= r < height - 1 && 0 <= c < width :: horizontalWalls[r, c] <==> Horizontal(r, c) !in O)
    }

    lemma ClosedExceptWallAt(O: set<Wall>)
      requires Shaped() && ClosedExcept(O)
      ensures forall w | ValidWall(height, width, w) :: WallAt(w) <==> w !in O
    {
    }

    function OpenWalls(): set<Wall>
      reads verticalWalls, horizontalWalls
      requires Shaped()
    {
      set w | w in AllWalls(height, width) && !WallAt(w)
    }

    /** Every cell can reach every other one through the passages. */
    ghost predicate Connected()
      reads verticalWalls, horizontalWalls
      requires Shaped()
    {
      forall a, b | InB(a) && InB(b) :: Reachable(Passages(), a, b)
    }

    /** Connected with exactly width*height - 1 open slots: the passages form a spanning tree. */
    ghost predicate SpanningTree()
      reads verticalWalls, horizontalWalls
      requires Shaped()
    {
      Connected() && |OpenWalls()| == width * height - 1
    }

    /**
     * The exit is at least `minLength` away from the entrance when some cell
     * is, and otherwise no cell is further away than the exit.
     */
    ghost predicate EndChosen()
      reads this, verticalWalls, horizontalWalls
      requires Shaped()
    {
      InB(start) && InB(end) && ExitFor(Passages(), start, end)
    }

    /** EndChosen for the moves `E`, the entrance `s` and the exit `e`. */
    ghost predicate ExitFor(E: Edges, s: Pos, e: Pos) {
      && s != e
      && ((exists p :: InB(p) && ShortestDistance(E, s, p) >= minLength) ==> ShortestDistance(E, s, e) >= minLength)
      && ((forall p | InB(p) :: ShortestDistance(E, s, p) < minLength) ==>
            forall p | InB(p) :: ShortestDistance(E, s, p) <= ShortestDistance(E, s, e))
    }

    /** The state in which construction leaves a maze. */
    ghost predicate Generated()
      reads this, verticalWalls, horizontalWalls, grid
    {
      && Shaped() && SpanningTree() && EndChosen()
      && forall r, c | 0 <= r < height && 0 <= c < width :: grid[r, c] == PATH
    }

    /**
     * Whether there is a wall between two neighbours. Cells that are not
     * neighbours are refused; a neighbour off the board is behind a wall.
     */
    function IsWall(row: int, col: int, row2: int, col2: int): (r: Result<bool>)
      reads verticalWalls, horizontalWalls
      requires Shaped()
      ensures r.Err? <==> !Adjacent(Pos(row, col), Pos(row2, col2))
      ensures r.Ok? && !(InB(Pos(row, col)) && InB(Pos(row2, col2))) ==> r.value
      ensures r.Ok? && InB(Pos(row, col)) && InB(Pos(row2, col2)) ==> r.value == WallAt(WallOf(Pos(row, col), Pos(row2, col2)))
    {
      if !IsAdjacent(row, col, row2, col2) then Err("Les cellules ne sont pas adjacentes")
      else if !IsValidPosition(row, col) || !IsValidPosition(row2, col2) then Ok(true)
      else if row == row2 then Ok(verticalWalls[row, Min(col, col2)])
      // neighbours that do not share a row share a column, so the final throw of the Java code is unreachable
      else Ok(horizontalWalls[Min(row, row2), col])
    }

    /** The step between two cells is a passage exactly when Java's isWall answers false. */
    lemma IsWallPassage(row: int, col: int, row2: int, col2: int)
      requires Shaped()
      ensures IsWall(row, col, row2, col2) == Ok(false) <==> (Pos(row, col), Pos(row2, col2)) in Passages()
    {
    }

    /** The answer does not depend on the order of the two cells. */
    lemma IsWallSymmetric(row: int, col: int, row2: int, col2: int)
      requires Shaped()
      ensures IsWall(row, col, row2, col2) == IsWall(row2, col2, row, col)
    {
    }

    /**
     * The neighbours up, down, left and right that lie on the board (for a
     * cell on the board; the bounds checks only compare against the border).
     */
    method Neighbors(row: int, col: int) returns (ns: seq<Pos>)
      ensures forall i | 0 <= i < |ns| :: Adjacent(Pos(row, col), ns[i])
      ensures InB(Pos(row, col)) ==> forall n :: n in ns <==> InB(n) && Adjacent(Pos(row, col), n)
      ensures forall i, j | 0 <= i < j < |ns| :: ns[i] != ns[j]
    {
      ns := [];
      if row > 0 {
        ns := ns + [Pos(row - 1, col)];
      }
      if row < height - 1 {
        ns := ns + [Pos(row + 1, col)];
      }
      if col > 0 {
        ns := ns + [Pos(row, col - 1)];
      }
      if col < width - 1 {
        ns := ns + [Pos(row, col + 1)];
      }
    }

    /** Java's isDirectlyReachable: None stands for null. */
    function IsDirectlyReachable(c1: Option<Pos>, c2: Option<Pos>): (r: bool)
      reads verticalWalls, horizontalWalls
      requires Shaped()
      ensures r <==> c1.Some? && c2.Some? && (c1.value, c2.value) in Passages()
    {
      if c1.None? || c2.None? then false
      else if !IsValidPosition(c1.value.row, c1.value.col) || !IsValidPosition(c2.value.row, c2.value.col) then false
      else if !IsAdjacent(c1.value.row, c1.value.col, c2.value.row, c2.value.col) then false
      else IsWall(c1.value.row, c1.value.col, c2.value.row, c2.value.col) == Ok(false)
    }

    lemma IsDirectlyReachableSymmetric(c1: Option<Pos>, c2: Option<Pos>)
      requires Shaped()
      ensures IsDirectlyReachable(c1, c2) == IsDirectlyReachable(c2, c1)
    {
      PassagesSymmetric();
    }

    /** The cell at a position (as the grid holds it), or None off the board. */
    function GetCell(row: int, col: int): (r: Option<Pos>)
      ensures r.Some? <==> InB(Pos(row, col))
      ensures r.Some? ==> r.value == Pos(row, col)
    {
      if IsValidPosition(row, col) then Some(Pos(row, col)) else None
    }

    function IsEnd(cell: Option<Pos>): (r: bool)
      reads this
      ensures r <==> cell == Some(end)
    {
      cell.Some? && cell.value.col == end.col && cell.value.row == end.row
    }

    method SetStart(p: Pos)
      modifies this
      ensures start == p && end == old(end)
    {
      start := p;
    }

    method SetEnd(p: Pos)
      modifies this
      ensures end == p && start == old(start)
    {
      end := p;
    }

    /** Clears the slot between two neighbours on the board; anything else is refused and changes nothing. */
    method RemoveWall(row1: int, col1: int, row2: int, col2: int) returns (r: Result<()>)
      requires Shaped()
      modifies verticalWalls, horizontalWalls
      ensures r.Ok? <==> Adjacent(Pos(row1, col1), Pos(row2, col2)) && InB(Pos(row1, col1)) && InB(Pos(row2, col2))
      ensures r.Ok? ==> forall i, j | 0 <= i < height && 0 <= j < width - 1 ::
        verticalWalls[i, j] == (Vertical(i, j) != WallOf(Pos(row1, col1), Pos(row2, col2)) && old(verticalWalls[i, j]))
      ensures r.Ok? ==> forall i, j | 0 <= i < height - 1 && 0 <= j < width ::
        horizontalWalls[i, j] == (Horizontal(i, j) != WallOf(Pos(row1, col1), Pos(row2, col2)) && old(horizontalWalls[i, j]))
      ensures r.Err? ==> unchanged(verticalWalls, horizontalWalls)
    {
      if !IsAdjacent(row1, col1, row2, col2) {
        return Err("Les cellules ne sont pas adjacentes");
      }
      if !IsValidPosition(row1, col1) || !IsValidPosition(row2, col2) {
        return Err("Position invalide");
      }
      if row1 == row2 {
        var minCol := Min(col1, col2);
        verticalWalls[row1, minCol] := false;
      } else if col1 == col2 {
        var minRow := Min(row1, row2);
        horizontalWalls[minRow, col1] := false;
      }
      r := Ok(());
    }

    /** Every cell of the grid becomes a fresh path cell. */
    method ResetCells()
      requires Shaped()
      modifies grid
      ensures forall r, c | 0 <= r < height && 0 <= c < width :: grid[r, c] == PATH
    {
      var row := 0;
      while row < height
        invariant 0 <= row <= height
        invariant forall r, c | 0 <= r < row && 0 <= c < width :: grid[r, c] == PATH
      {
        var col := 0;
        while col < width
          invariant 0 <= col <= width
          invariant forall r, c | 0 <= r < row && 0 <= c < width :: grid[r, c] == PATH
          invariant forall c | 0 <= c < col :: grid[row, c] == PATH
        {
          grid[row, col] := PATH;
          col := col + 1;
        }
        row := row + 1;
      }
    }

    /** Every slot is closed. */
    method CloseAllWalls()
      requires Shaped()
      modifies verticalWalls, horizontalWalls
      ensures ClosedExcept({})
    {
      var i := 0;
      while i < verticalWalls.Length0
        invariant 0 <= i <= height
        invariant forall r, c | 0 <= r < i && 0 <= c < width - 1 :: verticalWalls[r, c]
      {
        var j := 0;
        while j < verticalWalls.Length1
          invariant 0 <= j <= width - 1
          invariant forall r, c | 0 <= r < i && 0 <= c < width - 1 :: verticalWalls[r, c]
          invariant forall c | 0 <= c < j :: verticalWalls[i, c]
        {
          verticalWalls[i, j] := true;
          j := j + 1;
        }
        i := i + 1;
      }
      i := 0;
      while i < horizontalWalls.Length0
        invariant 0 <= i <= height - 1
        invariant forall r, c | 0 <= r < height && 0 <= c < width - 1 :: verticalWalls[r, c]
        invariant forall r, c | 0 <= r < i && 0 <= c < width :: horizontalWalls[r, c]
      {
        var j := 0;
        while j < horizontalWalls.Length1
          invariant 0 <= j <= width
          invariant forall r, c | 0 <= r < height && 0 <= c < width - 1 :: verticalWalls[r, c]
          invariant forall r, c | 0 <= r < i && 0 <= c < width :: horizontalWalls[r, c]
          invariant forall c | 0 <= c < j :: horizontalWalls[i, c]
        {
          horizontalWalls[i, j] := true;
          j := j + 1;
        }
        i := i + 1;
      }
    }

    /** The neighbours of `c` on the board that are not visited yet. */
    method UnvisitedNeighbors(visited: array2<bool>, c: Pos) returns (s: seq<Pos>)
      requires InB(c) && visited.Length0 == height && visited.Length1 == width
      ensures forall n :: n in s <==> InB(n) && Adjacent(c, n) && !visited[n.row, n.col]
    {
      var ns := Neighbors(c.row, c.col);
      s := [];
      var k := 0;
      while k < |ns|
        invariant 0 <= k <= |ns|
        invariant forall n :: n in s <==> n in ns[..k] && !visited[n.row, n.col]
      {
        if !visited[ns[k].row, ns[k].col] {
          s := s + [ns[k]];
        }
        assert ns[..k + 1] == ns[..k] + [ns[k]];
        k := k + 1;
      }
      assert ns[..k] == ns;
    }

    /** A set of cells on the board has at most width*height members. */
    lemma BoardBound(S: set<Pos>)
      requires Shaped() && forall p | p in S :: InB(p)
      ensures |S| <= height * width
    {
      CardMono(S, Cells(height, width));
    }

    /**
     * The Growing-Tree loop. The frontier list starts with one random cell;
     * each round takes its last entry or a random one, opens the slot to a
     * random unvisited neighbour and appends that neighbour, or drops the
     * entry when it has none. All slots start closed; the result is a
     * spanning tree.
     */
    method Carve()
      requires Shaped()
      requires ClosedExcept({})
      modifies verticalWalls, horizontalWalls
      ensures SpanningTree()
    {
      var visited := new bool[height, width]((r, c) => false);
      var row0 :| 0 <= row0 < height;
      var col0 :| 0 <= col0 < width;
      var root := Pos(row0, col0);
      var list := [root];
      label Start:
      visited[root.row, root.col] := true;
      ghost var V := {root};
      ghost var O: set<Wall> := {};
      ghost var Wk := map[root := [root]];
      forall p | InB(p)
        ensures visited[p.row, p.col] <==> p in V
      {
        if p != root {
          assert visited[p.row, p.col] == old@Start(visited[p.row, p.col]);
        }
      }
      assert CarvedSoFar(height, width, root, V, O, Wk) by {
        TrivialWalks(EdgesOf(O), root);
      }
      while list != []
        invariant Carving(visited, list, root, V, O, Wk)
        invariant visited != verticalWalls && visited != horizontalWalls
        decreases height * width - |V|, |list|
      {
        var lifo: bool :| true;
        var index: int;
        if lifo {
          index := |list| - 1;
        } else {
          index :| 0 <= index < |list|;
        }
        var current := list[index];
        var unvisited := UnvisitedNeighbors(visited, current);
        if unvisited != [] {
          var pick :| 0 <= pick < |unvisited|;
          var chosen := unvisited[pick];
          assert chosen in unvisited;
          list, V, O, Wk := GrowTo(visited, list, current, chosen, root, V, O, Wk);
        } else {
          Retire(visited, list, index, root, V, O, Wk);
          list := RemoveAt(list, index);
        }
      }
      CarvedTree(V, O, Wk, root);
    }

    /**
     * The state of the carving loop: the carving so far, `visited` marking
     * exactly the visited cells, every listed cell visited, and every visited
     * cell off the list with all its neighbours visited.
     */
    ghost predicate Carving(visited: array2<bool>, list: seq<Pos>, root: Pos, V: set<Pos>, O: set<Wall>,
                            Wk: map<Pos, seq<Pos>>)
      reads visited, verticalWalls, horizontalWalls
      requires Shaped() && visited.Length0 == height && visited.Length1 == width
    {
      && CarvedSoFar(height, width, root, V, O, Wk) && ClosedExcept(O) && |V| <= height * width
      && (forall p | InB(p) :: visited[p.row, p.col] <==> p in V)
      && (forall v | v in list :: v in V)
      && (forall v | v in V && v !in list :: Saturated(height, width, V, v))
    }

    /** Dropping a listed cell whose neighbours are all visited keeps the carving state. */
    lemma Retire(visited: array2<bool>, list: seq<Pos>, index: int, root: Pos, V: set<Pos>, O: set<Wall>,
                 Wk: map<Pos, seq<Pos>>)
      requires Shaped() && visited.Length0 == height && visited.Length1 == width
      requires Carving(visited, list, root, V, O, Wk) && 0 <= index < |list|
      requires forall n | InB(n) && Adjacent(list[index], n) :: visited[n.row, n.col]
      ensures Carving(visited, RemoveAt(list, index), root, V, O, Wk)
    {
      var rest := RemoveAt(list, index);
      forall v | v in V && v !in rest
        ensures Saturated(height, width, V, v)
      {
        if v == list[index] {
          forall n | InB(n) && Adjacent(v, n)
            ensures n in V
          {
            assert visited[n.row, n.col];
          }
        }
      }
    }

    /**
     * One growing step of the carving: open the slot from a listed cell to an
     * unvisited neighbour, mark the neighbour visited and append it to the list.
     */
    method GrowTo(visited: array2<bool>, list: seq<Pos>, current: Pos, chosen: Pos,
                  ghost root: Pos, ghost V: set<Pos>, ghost O: set<Wall>, ghost Wk: map<Pos, seq<Pos>>)
      returns (list': seq<Pos>, ghost V': set<Pos>, ghost O': set<Wall>, ghost Wk': map<Pos, seq<Pos>>)
      requires Shaped() && visited.Length0 == height && visited.Length1 == width
      requires visited != verticalWalls && visited != horizontalWalls
      requires Carving(visited, list, root, V, O, Wk)
      requires current in V && InB(chosen) && Adjacent(current, chosen) && chosen !in V
      modifies visited, verticalWalls, horizontalWalls
      ensures list' == list + [chosen] && V' == V + {chosen} && |V'| == |V| + 1
      ensures Carving(visited, list', root, V', O', Wk')
    {
      CarveGrow(height, width, root, V, O, Wk, current, chosen);
      O' := O + {WallOf(current, chosen)};
      var _ := RemoveWall(current.row, current.col, chosen.row, chosen.col);
      label Grow:
      visited[chosen.row, chosen.col] := true;
      V' := V + {chosen};
      forall p | InB(p)
        ensures visited[p.row, p.col] <==> p in V'
      {
        if p != chosen {
          assert visited[p.row, p.col] == old@Grow(visited[p.row, p.col]);
        }
      }
      list' := list + [chosen];
      BoardBound(V');
      forall v | v in V' && v !in list'
        ensures Saturated(height, width, V', v)
      {
        assert v !in list;
      }
      Wk' := Wk[chosen := Wk[current] + [chosen]];
    }

    /**
     * What the carving loop leaves behind is a spanning tree: the visited set
     * is closed under neighbours, so it is the whole board; the open slots are
     * exactly the ones carved, one per visited cell but the first; and every
     * cell has a walk from the first one through them.
     */
    lemma CarvedTree(V: set<Pos>, O: set<Wall>, Wk: map<Pos, seq<Pos>>, root: Pos)
      requires Shaped() && CarvedSoFar(height, width, root, V, O, Wk)
      requires forall v | v in V :: Saturated(height, width, V, v)
      requires ClosedExcept(O)
      ensures SpanningTree()
    {
      ClosedExceptWallAt(O);
      forall p | InB(p)
        ensures p in V
      {
        ClosedSetCoversBoard(height, width, V, root, p);
      }
      assert V == Cells(height, width);
      assert OpenWalls() == O;
      CarvedArePassages(O);
      var E := Passages();
      PassagesSymmetric();
      forall a, b | InB(a) && InB(b)
        ensures Reachable(E, a, b)
      {
        WalkMono(EdgesOf(O), E, Wk[a]);
        WalkMono(EdgesOf(O), E, Wk[b]);
        assert WalkFromTo(E, Wk[a], root, a) && WalkFromTo(E, Wk[b], root, b);
        ReachViaCommon(E, root, a, b);
      }
    }

    /** A step across an open slot of the board is a passage. */
    lemma CarvedArePassages(O: set<Wall>)
      requires Shaped()
      requires ClosedExcept(O)
      requires forall w | w in O :: ValidWall(height, width, w)
      ensures EdgesOf(O) <= Passages()
    {
      ClosedExceptWallAt(O);
      forall a, b | (a, b) in EdgesOf(O)
        ensures (a, b) in Passages()
      {
        var w := WallOf(a, b);
        WallOfSides(w, a, b);
        assert InB(w.Low()) && InB(w.High());
      }
    }
  
    /** `dist` holds the label of each labelled cell and -1 elsewhere; labels are on the board and non-negative. */
    ghost predicate Labels(dist: array2<int>, D: map<Pos, int>)
      reads dist
      requires dist.Length0 == height && dist.Length1 == width
    {
      && (forall p | p in D :: InB(p) && D[p] >= 0)
      && (forall p | InB(p) :: dist[p.row, p.col] == if p in D then D[p] else -1)
    }

    /**
     * Breadth-first distances from `src` through the open slots: each cell's
     * number of steps on a shortest path, -1 for a cell that cannot be reached.
     */
    method ShortestDistancesFrom(src: Pos) returns (dist: array2<int>)
      requires Shaped() && InB(src)
      ensures fresh(dist) && dist.Length0 == height && dist.Length1 == width
      ensures forall r, c | 0 <= r < height && 0 <= c < width ::
        dist[r, c] == ShortestDistance(Passages(), src, Pos(r, c))
    {
      ghost var E := Passages();
      assert OpenBetween(E);
      dist := NewDistances(src);
      BfsInit(E, src);
      ghost var D, W, P, lo := Explore(dist, [src], E, src, map[src := 0], map[src := [src]], {}, 0);
      BfsDistances(E, src, D, W, P, lo);
      LabelsAreDistances(dist, D, E, src);
    }

    /** The queue loop of the search, from a given state until the queue is empty. */
    method Explore(dist: array2<int>, queue: seq<Pos>, ghost E: Edges, ghost src: Pos,
                   ghost D0: map<Pos, int>, ghost W0: map<Pos, seq<Pos>>, ghost P0: set<Pos>, ghost lo0: int)
      returns (ghost D: map<Pos, int>, ghost W: map<Pos, seq<Pos>>, ghost P: set<Pos>, ghost lo: int)
      requires Shaped() && dist.Length0 == height && dist.Length1 == width && OpenBetween(E)
      requires BfsInv(E, src, D0, W0, P0, queue, lo0) && Labels(dist, D0)
      modifies dist
      ensures BfsInv(E, src, D, W, P, [], lo) && Labels(dist, D)
    {
      var queue := queue;
      D, W, P, lo := D0, W0, P0, lo0;
      BoardBound(P);
      while queue != []
        invariant BfsInv(E, src, D, W, P, queue, lo)
        invariant Labels(dist, D)
        invariant |P| <= height * width
        decreases height * width - |P|
      {
        queue, D, W, P, lo := ExploreStep(dist, queue, E, src, D, W, P, lo);
      }
    }

    /** One round of the queue loop: the head is taken off and its neighbours expanded. */
    method ExploreStep(dist: array2<int>, queue: seq<Pos>, ghost E: Edges, ghost src: Pos,
                       ghost D: map<Pos, int>, ghost W: map<Pos, seq<Pos>>, ghost P: set<Pos>, ghost lo: int)
      returns (queue': seq<Pos>, ghost D': map<Pos, int>, ghost W': map<Pos, seq<Pos>>, ghost P': set<Pos>, ghost lo': int)
      requires Shaped() && dist.Length0 == height && dist.Length1 == width && OpenBetween(E)
      requires BfsInv(E, src, D, W, P, queue, lo) && Labels(dist, D) && queue != []
      modifies dist
      ensures BfsInv(E, src, D', W', P', queue', lo') && Labels(dist, D')
      ensures P' == P + {queue[0]} && |P'| == |P| + 1 && |P'| <= height * width
    {
      var c := queue[0];
      BfsPop(E, src, D, W, P, queue, lo);
      BoardBound(P + {c});
      lo' := D[c];
      queue', D', W' := ExpandFrom(dist, c, queue[1..], E, src, D, W, P, P + {c});
      P' := P + {c};
    }

    /** A fresh distance table: 0 at `src`, -1 everywhere else. */
    method NewDistances(src: Pos) returns (dist: array2<int>)
      requires Shaped() && InB(src)
      ensures fresh(dist) && dist.Length0 == height && dist.Length1 == width
      ensures Labels(dist, map[src := 0])
    {
      dist := new int[height, width]((r, c) => -1);
      label Filled:
      dist[src.row, src.col] := 0;
      forall p | InB(p)
        ensures dist[p.row, p.col] == if p == src then 0 else -1
      {
        if p != src {
          assert dist[p.row, p.col] == old@Filled(dist[p.row, p.col]);
        }
      }
    }

    /** Once the labels are the shortest distances, so is the table. */
    lemma LabelsAreDistances(dist: array2<int>, D: map<Pos, int>, E: Edges, src: Pos)
      requires dist.Length0 == height && dist.Length1 == width && Labels(dist, D)
      requires forall p :: p in D <==> ShortestDistance(E, src, p) != -1
      requires forall p | p in D :: D[p] == ShortestDistance(E, src, p)
      ensures forall r, c | 0 <= r < height && 0 <= c < width :: dist[r, c] == ShortestDistance(E, src, Pos(r, c))
    {
      forall r, c | 0 <= r < height && 0 <= c < width
        ensures dist[r, c] == ShortestDistance(E, src, Pos(r, c))
      {
        assert InB(Pos(r, c));
      }
    }

    /**
     * Processing one dequeued cell `c`: each neighbour through an open slot
     * that has no label yet gets label D[c]+1 and joins the queue.
     */
    method ExpandFrom(dist: array2<int>, c: Pos, queue: seq<Pos>, ghost E: Edges, ghost src: Pos,
                      ghost D: map<Pos, int>, ghost W: map<Pos, seq<Pos>>, ghost P: set<Pos>, ghost Pc: set<Pos>)
      returns (queue': seq<Pos>, ghost D': map<Pos, int>, ghost W': map<Pos, seq<Pos>>)
      requires Shaped() && dist.Length0 == height && dist.Length1 == width
      requires OpenBetween(E) && InB(c) && c in D && c in Pc && forall x | x in Pc :: x in P || x == c
      requires BfsShape(E, src, D, W, Pc, queue, D[c]) && ClosedOn(E, D, P)
      requires Labels(dist, D)
      modifies dist
      ensures BfsInv(E, src, D', W', Pc, queue', D[c])
      ensures Labels(dist, D')
    {
      var ns := Neighbors(c.row, c.col);
      queue', D', W' := queue, D, W;
      var k := 0;
      while k < |ns|
        invariant Expanding(dist, c, ns, k, queue', E, src, D[c], D', W', P, Pc)
      {
        queue', D', W' := Relax(dist, c, ns, k, queue', E, src, D[c], D', W', P, Pc);
        k := k + 1;
      }
      BfsClose(E, D', P, c, Pc);
    }

    /** The state of ExpandFrom after its first k neighbours. */
    ghost predicate Expanding(dist: array2<int>, c: Pos, ns: seq<Pos>, k: int, queue: seq<Pos>, E: Edges, src: Pos,
                              lo: int, D: map<Pos, int>, W: map<Pos, seq<Pos>>, P: set<Pos>, Pc: set<Pos>)
      reads dist
      requires dist.Length0 == height && dist.Length1 == width
    {
      Scanning(c, ns, k, queue, E, src, lo, D, W, P, Pc) && Labels(dist, D)
    }

    /** Expanding without the labels in `dist`. */
    ghost predicate Scanning(c: Pos, ns: seq<Pos>, k: int, queue: seq<Pos>, E: Edges, src: Pos,
                             lo: int, D: map<Pos, int>, W: map<Pos, seq<Pos>>, P: set<Pos>, Pc: set<Pos>)
    {
      && 0 <= k <= |ns| && c in D && D[c] == lo
      && BfsShape(E, src, D, W, Pc, queue, lo) && ClosedOn(E, D, P)
      && (forall j | 0 <= j < k :: (c, ns[j]) in E ==> ns[j] in D && D[ns[j]] <= lo + 1)
    }

    /**
     * The k-th neighbour `n` of the dequeued cell `c`: through an open slot and
     * not labelled yet, it gets label D[c]+1 and joins the queue.
     */
    method Relax(dist: array2<int>, c: Pos, ns: seq<Pos>, k: int, queue: seq<Pos>, ghost E: Edges, ghost src: Pos,
                 ghost lo: int, ghost D: map<Pos, int>, ghost W: map<Pos, seq<Pos>>, ghost P: set<Pos>, ghost Pc: set<Pos>)
      returns (queue': seq<Pos>, ghost D': map<Pos, int>, ghost W': map<Pos, seq<Pos>>)
      requires Shaped() && dist.Length0 == height && dist.Length1 == width
      requires OpenBetween(E) && InB(c) && c in Pc && 0 <= k < |ns| && Adjacent(c, ns[k])
      requires Expanding(dist, c, ns, k, queue, E, src, lo, D, W, P, Pc)
      modifies dist
      ensures Expanding(dist, c, ns, k + 1, queue', E, src, lo, D', W', P, Pc)
    {
      var n := ns[k];
      var wall := IsWall(c.row, c.col, n.row, n.col);
      if !wall.value && dist[n.row, n.col] == -1 {
        queue', D', W' := Discover(dist, c, ns, k, queue, E, src, lo, D, W, P, Pc);
      } else {
        Pass(dist, c, ns, k, queue, E, src, lo, D, W, P, Pc);
        queue', D', W' := queue, D, W;
      }
    }

    /** Relax on a neighbour behind an open slot and without a label: it is labelled and queued. */
    method Discover(dist: array2<int>, c: Pos, ns: seq<Pos>, k: int, queue: seq<Pos>, ghost E: Edges, ghost src: Pos,
                    ghost lo: int, ghost D: map<Pos, int>, ghost W: map<Pos, seq<Pos>>, ghost P: set<Pos>, ghost Pc: set<Pos>)
      returns (queue': seq<Pos>, ghost D': map<Pos, int>, ghost W': map<Pos, seq<Pos>>)
      requires Shaped() && dist.Length0 == height && dist.Length1 == width
      requires OpenBetween(E) && InB(c) && c in Pc && 0 <= k < |ns| && Adjacent(c, ns[k])
      requires Expanding(dist, c, ns, k, queue, E, src, lo, D, W, P, Pc)
      requires IsWall(c.row, c.col, ns[k].row, ns[k].col) == Ok(false) && dist[ns[k].row, ns[k].col] == -1
      modifies dist
      ensures Expanding(dist, c, ns, k + 1, queue', E, src, lo, D', W', P, Pc)
    {
      var n := ns[k];
      D' := D[n := lo + 1];
      W' := W[n := W[c] + [n]];
      DiscoverScan(c, ns, k, queue, E, src, lo, D, W, P, Pc);
      var d := dist[c.row, c.col] + 1;
      Label(dist, D, n, d);
      queue' := queue + [n];
    }

    /** The ghost side of Discover: the new label keeps the shape of the search. */
    lemma DiscoverScan(c: Pos, ns: seq<Pos>, k: int, queue: seq<Pos>, E: Edges, src: Pos,
                       lo: int, D: map<Pos, int>, W: map<Pos, seq<Pos>>, P: set<Pos>, Pc: set<Pos>)
      requires c in Pc && 0 <= k < |ns| && (c, ns[k]) in E && ns[k] !in D
      requires Scanning(c, ns, k, queue, E, src, lo, D, W, P, Pc)
      ensures Scanning(c, ns, k + 1, queue + [ns[k]], E, src, lo, D[ns[k] := lo + 1], W[ns[k] := W[c] + [ns[k]]], P, Pc)
    {
      var n := ns[k];
      BfsDiscover(E, src, D, W, Pc, queue, c, n, P);
      var D' := D[n := lo + 1];
      assert forall j | 0 <= j < k :: (c, ns[j]) in E ==> ns[j] in D' && D'[ns[j]] <= lo + 1 by {
        forall j | 0 <= j < k && (c, ns[j]) in E
          ensures ns[j] in D' && D'[ns[j]] <= lo + 1
        {
          assert ns[j] in D;
        }
      }
    }

    /** Relax on a neighbour behind a wall or with a label already: nothing changes. */
    lemma Pass(dist: array2<int>, c: Pos, ns: seq<Pos>, k: int, queue: seq<Pos>, E: Edges, src: Pos,
               lo: int, D: map<Pos, int>, W: map<Pos, seq<Pos>>, P: set<Pos>, Pc: set<Pos>)
      requires Shaped() && dist.Length0 == height && dist.Length1 == width
      requires OpenBetween(E) && InB(c) && c in Pc && 0 <= k < |ns| && Adjacent(c, ns[k])
      requires Expanding(dist, c, ns, k, queue, E, src, lo, D, W, P, Pc)
      requires IsWall(c.row, c.col, ns[k].row, ns[k].col) == Ok(false) ==> dist[ns[k].row, ns[k].col] != -1
      ensures Expanding(dist, c, ns, k + 1, queue, E, src, lo, D, W, P, Pc)
    {
      var n := ns[k];
      if (c, n) in E {
        BfsKnown(E, src, D, W, Pc, queue, c, n);
      }
    }

    /** Writes a new label into `dist`. */
    method Label(dist: array2<int>, ghost D: map<Pos, int>, n: Pos, d: int)
      requires dist.Length0 == height && dist.Length1 == width
      requires Labels(dist, D) && InB(n) && n !in D && d >= 0
      modifies dist
      ensures Labels(dist, D[n := d])
    {
      dist[n.row, n.col] := d;
      forall p | InB(p)
        ensures dist[p.row, p.col] == if p in D[n := d] then D[n := d][p] else -1
      {
        if p != n {
          assert dist[p.row, p.col] == old(dist[p.row, p.col]);
        }
      }
    }

    /**
     * A shortest path from `source` to `target` through the open slots, both
     * ends included, walked back from the target along decreasing distances
     * and then reversed; empty when the target cannot be reached.
     */
    method FindOptimalPath(source: Pos, target: Pos) returns (path: seq<Pos>)
      requires Shaped() && InB(source) && InB(target)
      ensures path == [] <==> !Reachable(Passages(), source, target)
      ensures path != [] ==> WalkFromTo(Passages(), path, source, target)
      ensures path != [] ==> |path| == ShortestDistance(Passages(), source, target) + 1
    {
      var dist := ShortestDistancesFrom(source);
      ghost var E := Passages();
      assert OpenBetween(E);
      if dist[target.row, target.col] == -1 {
        return [];
      }
      var back := WalkBack(dist, source, target, E);
      BackwardWalk(E, back);
      path := Reverse(back);
    }

    /**
     * The walk back from `target` to `source`, target first: each step goes
     * to a neighbour one closer to the source.
     */
    method WalkBack(dist: array2<int>, source: Pos, target: Pos, ghost E: Edges) returns (back: seq<Pos>)
      requires Shaped() && OpenBetween(E) && InB(source) && InB(target)
      requires dist.Length0 == height && dist.Length1 == width
      requires forall r, c | 0 <= r < height && 0 <= c < width :: dist[r, c] == ShortestDistance(E, source, Pos(r, c))
      requires dist[target.row, target.col] >= 0
      ensures |back| == dist[target.row, target.col] + 1
      ensures back[0] == target && back[|back| - 1] == source
      ensures forall i | 0 <= i < |back| - 1 :: (back[i + 1], back[i]) in E
    {
      back := [target];
      var cur := target;
      while cur != source
        invariant |back| > 0 && back[0] == target && back[|back| - 1] == cur && InB(cur)
        invariant forall i | 0 <= i < |back| - 1 :: (back[i + 1], back[i]) in E
        invariant dist[cur.row, cur.col] >= 0
        invariant |back| - 1 + dist[cur.row, cur.col] == dist[target.row, target.col]
        decreases dist[cur.row, cur.col]
      {
        var next := StepBack(dist, source, cur, E);
        ghost var prefix := back;
        back := back + [next];
        forall i | 0 <= i < |back| - 1
          ensures (back[i + 1], back[i]) in E
        {
          if i < |prefix| - 1 {
            assert back[i] == prefix[i] && back[i + 1] == prefix[i + 1];
          }
        }
        cur := next;
      }
      DistanceZeroIff(E, source, source);
      assert dist[source.row, source.col] == ShortestDistance(E, source, Pos(source.row, source.col));
    }

    /**
     * One step of the walk back: the first neighbour of `cur` through an open
     * slot whose distance is one less. Such a neighbour always exists, so the
     * Java code's empty fallback cannot happen.
     */
    method StepBack(dist: array2<int>, source: Pos, cur: Pos, ghost E: Edges) returns (next: Pos)
      requires Shaped() && OpenBetween(E) && InB(source) && InB(cur) && cur != source
      requires dist.Length0 == height && dist.Length1 == width
      requires forall r, c | 0 <= r < height && 0 <= c < width :: dist[r, c] == ShortestDistance(E, source, Pos(r, c))
      requires dist[cur.row, cur.col] >= 0
      ensures InB(next) && (cur, next) in E && (next, cur) in E
      ensures dist[next.row, next.col] == dist[cur.row, cur.col] - 1 >= 0
    {
      var d := dist[cur.row, cur.col];
      assert d == ShortestDistance(E, source, Pos(cur.row, cur.col));
      DistanceZeroIff(E, source, cur);
      ghost var y := ShortestPredecessor(E, source, cur);
      WallOfSides(WallOf(y, cur), y, cur);
      assert (cur, y) in E;
      var ns := Neighbors(cur.row, cur.col);
      assert y in ns;
      assert dist[y.row, y.col] == ShortestDistance(E, source, Pos(y.row, y.col));
      assert IsWall(cur.row, cur.col, y.row, y.col) == Ok(false) && dist[y.row, y.col] == d - 1;
      next := StepDown(dist, cur, d, ns, y);
      WallOfSides(WallOf(cur, next), cur, next);
    }

    /** The first neighbour in `ns` through an open slot at distance `d - 1`; `y` is one. */
    method StepDown(dist: array2<int>, cur: Pos, d: int, ns: seq<Pos>, ghost y: Pos) returns (next: Pos)
      requires Shaped() && dist.Length0 == height && dist.Length1 == width && InB(cur)
      requires forall n :: n in ns <==> InB(n) && Adjacent(cur, n)
      requires y in ns && IsWall(cur.row, cur.col, y.row, y.col) == Ok(false) && dist[y.row, y.col] == d - 1
      ensures next in ns && IsWall(cur.row, cur.col, next.row, next.col) == Ok(false)
      ensures dist[next.row, next.col] == d - 1
    {
      next := cur;
      var moved := false;
      var k := 0;
      while k < |ns| && !moved
        invariant 0 <= k <= |ns|
        invariant moved ==> next in ns && IsWall(cur.row, cur.col, next.row, next.col) == Ok(false)
        invariant moved ==> dist[next.row, next.col] == d - 1
        invariant !moved ==> forall j | 0 <= j < k :: ns[j] != y
      {
        var nb := ns[k];
        var wall := IsWall(cur.row, cur.col, nb.row, nb.col);
        if !wall.value && dist[nb.row, nb.col] == d - 1 {
          next := nb;
          moved := true;
        }
        k := k + 1;
      }
      assert moved;
    }

    /** The number of steps on a shortest path from the entrance to the exit (-1 when there is none). */
    method OptimalPathLength() returns (n: int)
      requires Shaped() && InB(start) && InB(end)
      ensures n == ShortestDistance(Passages(), start, end)
    {
      var path := FindOptimalPath(start, end);
      n := |path| - 1;
    }

    /**
     * The first scan of the exit choice: the cells at distance at least
     * `minLength`, and the largest distance found (starting from 0).
     */
    method CollectFarCells(distances: array2<int>) returns (candidates: seq<Pos>, maxFound: int)
      requires distances.Length0 == height && distances.Length1 == width
      ensures forall p :: p in candidates <==> InB(p) && distances[p.row, p.col] >= minLength
      ensures maxFound >= 0 && forall p | InB(p) :: distances[p.row, p.col] <= maxFound
      ensures maxFound == 0 || exists p :: InB(p) && distances[p.row, p.col] == maxFound
    {
      candidates, maxFound := [], 0;
      var row := 0;
      while row < height
        invariant 0 <= row <= height || height < 0
        invariant forall p :: p in candidates <==> InB(p) && p.row < row && distances[p.row, p.col] >= minLength
        invariant maxFound >= 0 && forall p | InB(p) && p.row < row :: distances[p.row, p.col] <= maxFound
        invariant maxFound == 0 || exists p :: InB(p) && distances[p.row, p.col] == maxFound
      {
        var col := 0;
        while col < width
          invariant 0 <= col <= width || width < 0
          invariant forall p :: p in candidates <==>
            InB(p) && (p.row < row || (p.row == row && p.col < col)) && distances[p.row, p.col] >= minLength
          invariant maxFound >= 0
          invariant forall p | InB(p) && (p.row < row || (p.row == row && p.col < col)) :: distances[p.row, p.col] <= maxFound
          invariant maxFound == 0 || exists p :: InB(p) && distances[p.row, p.col] == maxFound
        {
          var dist := distances[row, col];
          if dist >= minLength {
            candidates := candidates + [Pos(row, col)];
          }
          if dist > maxFound {
            maxFound := dist;
            assert InB(Pos(row, col));
          }
          col := col + 1;
        }
        row := row + 1;
      }
    }

    /** The fallback scan of the exit choice: the cells at distance exactly `d`. */
    method CollectCellsAt(distances: array2<int>, d: int) returns (candidates: seq<Pos>)
      requires distances.Length0 == height && distances.Length1 == width
      ensures forall p :: p in candidates <==> InB(p) && distances[p.row, p.col] == d
    {
      candidates := [];
      var row := 0;
      while row < height
        invariant 0 <= row <= height || height < 0
        invariant forall p :: p in candidates <==> InB(p) && p.row < row && distances[p.row, p.col] == d
      {
        var col := 0;
        while col < width
          invariant 0 <= col <= width || width < 0
          invariant forall p :: p in candidates <==>
            InB(p) && (p.row < row || (p.row == row && p.col < col)) && distances[p.row, p.col] == d
        {
          if distances[row, col] == d {
            candidates := candidates + [Pos(row, col)];
          }
          col := col + 1;
        }
        row := row + 1;
      }
    }

    /**
     * Places the entrance on a random cell and the exit on a random cell at
     * distance at least `minLength`, or on a random farthest cell when none is
     * that far.
     */
    method SelectStartAndEnd()
      requires Shaped() && Connected()
      modifies this`start, this`end
      ensures EndChosen()
    {
      var s, e := ChooseStartAndEnd();
      start, end := s, e;
    }

    /** The draw of SelectStartAndEnd, before the maze takes it. */
    method ChooseStartAndEnd() returns (s: Pos, e: Pos)
      requires Shaped() && Connected()
      ensures InB(s) && InB(e) && ExitFor(old(Passages()), s, e)
    {
      var row0 :| 0 <= row0 < height;
      var col0 :| 0 <= col0 < width;
      s := Pos(row0, col0);
      ghost var E := Passages();
      assert forall q | InB(q) :: Reachable(E, s, q);
      var distances := ShortestDistancesFrom(s);
      DistanceZeroIff(E, s, s);
      assert distances[s.row, s.col] == 0;
      e := ChooseEnd(distances);
      ExitChoiceCorrect(distances, E, s, e);
    }

    /**
     * The exit for a table of distances: a random cell at distance at least
     * `minLength` when there is one, otherwise a random cell at the largest
     * distance found (never below 0).
     */
    method ChooseEnd(distances: array2<int>) returns (e: Pos)
      requires distances.Length0 == height && distances.Length1 == width
      requires exists p :: InB(p) && distances[p.row, p.col] >= 0
      ensures InB(e)
      ensures (exists p :: InB(p) && distances[p.row, p.col] >= minLength) ==> distances[e.row, e.col] >= minLength
      ensures (forall p | InB(p) :: distances[p.row, p.col] < minLength) ==>
        forall p | InB(p) :: distances[p.row, p.col] <= distances[e.row, e.col]
    {
      var candidates, maxDistanceFound := CollectFarCells(distances);
      if candidates == [] {
        candidates := CollectCellsAt(distances, maxDistanceFound);
        assert candidates != [] by {
          var p :| InB(p) && distances[p.row, p.col] >= 0;
          if maxDistanceFound == 0 {
            assert p in candidates;
          } else {
            var m :| InB(m) && distances[m.row, m.col] == maxDistanceFound;
            assert m in candidates;
          }
        }
      }
      var pick :| 0 <= pick < |candidates|;
      e := candidates[pick];
      assert e in candidates;
    }

    /**
     * Why the exit choice meets EndChosen: on a connected board of at least
     * two cells some cell is one step or more away, so the exit differs from
     * the entrance.
     */
    lemma ExitChoiceCorrect(distances: array2<int>, E: Edges, start: Pos, end: Pos)
      requires Shaped() && distances.Length0 == height && distances.Length1 == width
      requires InB(start) && InB(end)
      requires forall r, c | 0 <= r < height && 0 <= c < width :: distances[r, c] == ShortestDistance(E, start, Pos(r, c))
      requires forall q | InB(q) :: Reachable(E, start, q)
      requires (exists p :: InB(p) && distances[p.row, p.col] >= minLength) ==> distances[end.row, end.col] >= minLength
      requires (forall p | InB(p) :: distances[p.row, p.col] < minLength) ==>
        forall p | InB(p) :: distances[p.row, p.col] <= distances[end.row, end.col]
      ensures ExitFor(E, start, end)
    {
      forall p | InB(p)
        ensures distances[p.row, p.col] == ShortestDistance(E, start, p)
      {
        assert p == Pos(p.row, p.col);
      }
      var q := if start.row > 0 then Pos(start.row - 1, start.col) else Pos(start.row + 1, start.col);
      assert InB(q) && Reachable(E, start, q);
      DistanceZeroIff(E, start, q);
      DistanceZeroIff(E, start, end);
    }

    /**
     * Generation: every cell becomes a path cell, every slot closes, the
     * carving opens a spanning tree, and the entrance and exit are chosen.
     */
    method GenerateMaze()
      requires Shaped()
      modifies this, verticalWalls, horizontalWalls, grid
      ensures Generated()
    {
      ResetCells();
      CloseAllWalls();
      Carve();
      SelectStartAndEnd();
    }

    /** A generated maze of the given size (arguments checked by Create). */
    constructor (width: int, height: int, minLength: int)
      requires width >= 2 && height >= 2 && minLength >= 1
      ensures this.width == width && this.height == height && this.minLength == minLength
      ensures Generated()
      ensures fresh(grid) && fresh(verticalWalls) && fresh(horizontalWalls)
    {
      this.width := width;
      this.height := height;
      this.minLength := minLength;
      verticalWalls := new bool[height, width - 1];
      horizontalWalls := new bool[height - 1, width];
      grid := new CellType[height, width]((r, c) => PATH);
      start := Pos(0, 0);
      end := Pos(0, 1);
      new;
      GenerateMaze();
    }

    /** Java's constructor with its argument checks: a board at least 2x2 and a positive minimal length. */
    static method Create(width: int, height: int, minLength: int) returns (r: Result<PerfectMaze>)
      ensures r.Err? <==> width < 2 || height < 2 || minLength < 1
      ensures r.Ok? ==> fresh(r.value) && r.value.Generated()
      ensures r.Ok? ==> fresh(r.value.grid) && fresh(r.value.verticalWalls) && fresh(r.value.horizontalWalls)
      ensures r.Ok? ==> r.value.width == width && r.value.height == height && r.value.minLength == minLength
    {
      if width < 2 || height < 2 {
        return Err("width et height doivent être ≥ 2");
      }
      if minLength < 1 {
        return Err("minLength doit être ≥ 1");
      }
      var m := new PerfectMaze(width, height, minLength);
      r := Ok(m);
    }
}
}

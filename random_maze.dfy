/**
 * The random maze: walls are cells. Generation clears the board, puts the
 * entrance and the exit on opposite borders, scatters round(w*h*p/100) walls
 * away from them, opens one neighbour of each, and starts over until a
 * breadth-first search links the entrance to the exit, lowering the wall
 * percentage by one every 500 attempts.
 */
module RandomMazes {
  import opened Grid
  import opened Graph
  import opened Results

  /** Java's Math.round(width * height * p / 100f) for the non-negative products the constructor allows. */
  function WallTarget(width: int, height: int, p: int): int {
    (width * height * p + 50) / 100
  }

  /**
   * The wall placement loop ends whatever the entrance and exit drawn: there
   * are no walls to place, or two cells besides the target stay free.
   */
  predicate Placeable(width: int, height: int, p: int) {
    WallTarget(width, height, p) == 0 || WallTarget(width, height, p) + 2 <= width * height
  }

  /** A lower percentage never asks for more walls, and stays placeable. */
  lemma PlaceableMono(width: int, height: int, p: int, q: int)
    requires width > 0 && height > 0 && 0 <= q <= p && Placeable(width, height, p)
    ensures WallTarget(width, height, q) <= WallTarget(width, height, p)
    ensures Placeable(width, height, q)
  {
    var a := width * height;
    assert 0 <= a * q <= a * p by {
      assert a * p - a * q == a * (p - q);
    }
  }

  /** The order in which the Java code scans the neighbours of a cell: right, below, left, above. */
  function Around(p: Pos, k: int): (n: Pos)
    requires 0 <= k < 4
    ensures Adjacent(p, n) && AroundIndex(p, n) == k
  {
    match k
    case 0 => Pos(p.row, p.col + 1)
    case 1 => Pos(p.row + 1, p.col)
    case 2 => Pos(p.row, p.col - 1)
    case 3 => Pos(p.row - 1, p.col)
  }

  /** Where a neighbour comes in that order. */
  function AroundIndex(p: Pos, n: Pos): (k: int)
    requires Adjacent(p, n)
    ensures 0 <= k < 4
  {
    if n.col == p.col + 1 then 0
    else if n.row == p.row + 1 then 1
    else if n.col == p.col - 1 then 2
    else 3
  }

  lemma AroundAll(p: Pos, n: Pos)
    requires Adjacent(p, n)
    ensures Around(p, AroundIndex(p, n)) == n
  {
  }

  /** The border sides: 0 top, 1 right, 2 bottom, 3 left. */
  predicate OnSide(height: int, width: int, p: Pos, side: int) {
    match side
    case 0 => p.row == 0
    case 1 => p.col == width - 1
    case 2 => p.row == height - 1
    case 3 => p.col == 0
    case _ => false
  }

  predicate OnBorder(height: int, width: int, p: Pos) {
    p.row == 0 || p.col == width - 1 || p.row == height - 1 || p.col == 0
  }

  /** Java's adjacent on two cells (None is null): one step along exactly one axis. */
  function AdjacentCells(a: Option<Pos>, b: Option<Pos>): (r: bool)
    ensures r <==> a.Some? && b.Some? && Adjacent(a.value, b.value)
  {
    if a.None? || b.None? then false
    else
      var dr := Abs(a.value.row - b.value.row);
      var dc := Abs(a.value.col - b.value.col);
      dr + dc == 1
  }

  /** A percentage of zero asks for no wall. */
  lemma NoWallsAtZero(width: int, height: int)
    ensures WallTarget(width, height, 0) == 0
  {
  }

  /** Counting one more attempt moves one step round the cycle of 500. */
  lemma NextAttempt(t: int)
    requires t >= 1
    ensures (t + 1) % 500 == 0 || (t + 1) % 500 == t % 500 + 1
    ensures t % 500 == 0 ==> (t + 1) % 500 == 1
  {
  }

  /** The cell an optional choice names, if any. */
  function Opened(o: Option<Pos>): (s: set<Pos>)
    ensures |s| <= 1 && forall p :: p in s <==> o == Some(p)
  {
    if o.Some? then {o.value} else {}
  }

  /**
   * The state of the search while it scans the neighbours `ns` of the
   * dequeued cell `c`, after the first k of them: each of those is labelled
   * at most one level beyond `c`.
   */
  ghost predicate Scanned(c: Pos, ns: seq<Pos>, k: int, queue: seq<Pos>, parent: map<Pos, Option<Pos>>, E: Edges,
                          src: Pos, lo: int, D: map<Pos, int>, W: map<Pos, seq<Pos>>, P: set<Pos>, Pc: set<Pos>)
  {
    && 0 <= k <= |ns| && c in D && D[c] == lo && c in Pc
    && BfsShape(E, src, D, W, Pc, queue, lo) && ClosedOn(E, D, P)
    && ParentTree(parent, D, E, src)
    && (forall j | 0 <= j < k :: ns[j] in D && D[ns[j]] <= lo + 1)
  }

  /** A neighbour seen for the first time is labelled lo+1, linked to `c` and queued. */
  lemma ScanNew(c: Pos, ns: seq<Pos>, k: int, queue: seq<Pos>, parent: map<Pos, Option<Pos>>, E: Edges,
                src: Pos, lo: int, D: map<Pos, int>, W: map<Pos, seq<Pos>>, P: set<Pos>, Pc: set<Pos>)
    requires Scanned(c, ns, k, queue, parent, E, src, lo, D, W, P, Pc)
    requires k < |ns| && (c, ns[k]) in E && ns[k] !in D
    ensures Scanned(c, ns, k + 1, queue + [ns[k]], parent[ns[k] := Some(c)], E, src, lo,
                    D[ns[k] := lo + 1], W[ns[k] := W[c] + [ns[k]]], P, Pc)
  {
    var n := ns[k];
    var D' := D[n := lo + 1];
    BfsDiscover(E, src, D, W, Pc, queue, c, n, P);
    ParentTreeGrow(parent, D, E, src, c, n);
    assert D' == D[n := D[c] + 1];
    assert c in D' && D'[c] == lo;
    ScannedPrefixGrow(ns, k, D, lo);
  }

  /** Labelling the k-th neighbour lo+1 extends the scanned prefix by one. */
  lemma ScannedPrefixGrow(ns: seq<Pos>, k: int, D: map<Pos, int>, lo: int)
    requires 0 <= k < |ns| && ns[k] !in D
    requires forall j | 0 <= j < k :: ns[j] in D && D[ns[j]] <= lo + 1
    ensures forall j | 0 <= j < k + 1 :: ns[j] in D[ns[k] := lo + 1] && D[ns[k] := lo + 1][ns[j]] <= lo + 1
  {
  }

  /** A neighbour already labelled is at most one level beyond `c`. */
  lemma ScanKnown(c: Pos, ns: seq<Pos>, k: int, queue: seq<Pos>, parent: map<Pos, Option<Pos>>, E: Edges,
                  src: Pos, lo: int, D: map<Pos, int>, W: map<Pos, seq<Pos>>, P: set<Pos>, Pc: set<Pos>)
    requires Scanned(c, ns, k, queue, parent, E, src, lo, D, W, P, Pc)
    requires k < |ns| && ns[k] in D
    ensures Scanned(c, ns, k + 1, queue, parent, E, src, lo, D, W, P, Pc)
  {
    BfsKnown(E, src, D, W, Pc, queue, c, ns[k]);
  }

  class RandomMaze {
    const width: int
    const height: int
    var wallPercentage: int
    /** The type of each cell; a random maze only writes WALL and PATH, the game modes FUEL and SAND. */
    const grid: array2<CellType>
    var start: Pos
    var end: Pos

    ghost predicate Shaped() {
      width > 0 && height > 0 && grid.Length0 == height && grid.Length1 == width
    }

    predicate InB(p: Pos) {
      InBounds(height, width, p)
    }

    predicate IsValidPosition(row: int, col: int) {
      row >= 0 && row < height && col >= 0 && col < width
    }

    /**
     * Whether the cell at (row, col) is a wall. Off the board the answer is
     * false, although the documentation of the Java code says true.
     */
    function IsWall(row: int, col: int): (r: bool)
      reads grid
      requires Shaped()
      ensures r <==> IsValidPosition(row, col) && grid[row, col] == WALL
    {
      IsValidPosition(row, col) && grid[row, col] == WALL
    }

    /** IsWall answers true exactly on the walls of the board. */
    lemma IsWallOnWalls(row: int, col: int)
      requires Shaped()
      ensures IsWall(row, col) <==> Pos(row, col) in Walls()
    {
    }

    /**
     * The moves of the search: from any cell of the board to an orthogonal
     * neighbour on the board that is not a wall (the cell left may be a wall).
     */
    ghost function Moves(): (E: Edges)
      reads grid
      requires Shaped()
      ensures forall a, b :: (a, b) in E <==> InB(a) && InB(b) && Adjacent(a, b) && grid[b.row, b.col] != WALL
    {
      set a, b | a in Cells(height, width) && b in Cells(height, width) && Adjacent(a, b) && grid[b.row, b.col] != WALL :: (a, b)
    }

    /** `E` holds exactly the moves of the current grid. */
    ghost predicate MovesAre(E: Edges)
      reads grid
      requires Shaped()
    {
      forall a, b :: (a, b) in E <==> InB(a) && InB(b) && Adjacent(a, b) && grid[b.row, b.col] != WALL
    }

    /** A move is a step between neighbours whose target is on the board and answers false to IsWall. */
    lemma MovesAvoidWalls(a: Pos, b: Pos)
      requires Shaped() && InB(a)
      ensures (a, b) in Moves() <==>
        AdjacentCells(Some(a), Some(b)) && IsValidPosition(b.row, b.col) && !IsWall(b.row, b.col)
    {
    }

    /** The walls of the board. */
    ghost function Walls(): (s: set<Pos>)
      reads grid
      requires Shaped()
      ensures forall p :: p in s <==> InB(p) && grid[p.row, p.col] == WALL
    {
      set p | p in Cells(height, width) && grid[p.row, p.col] == WALL
    }

    /** The cells that are not walls. */
    ghost function FreeCells(): (s: set<Pos>)
      reads grid
      requires Shaped()
      ensures forall p :: p in s <==> InB(p) && grid[p.row, p.col] != WALL
    {
      set p | p in Cells(height, width) && grid[p.row, p.col] != WALL
    }

    /** Every cell is a wall or free, never both. */
    lemma WallsAndFreeCells()
      requires Shaped()
      ensures |Walls()| + |FreeCells()| == width * height
    {
      var W, F := Walls(), FreeCells();
      assert W !! F;
      assert W + F == Cells(height, width);
    }

    /**
     * The neighbours of (row, col) to the right, below, to the left and above
     * that are on the board and are not walls.
     */
    method Neighbors(row: int, col: int) returns (ns: seq<Pos>)
      requires Shaped()
      ensures forall n :: n in ns <==> InB(n) && Adjacent(Pos(row, col), n) && grid[n.row, n.col] != WALL
      ensures forall i, j | 0 <= i < j < |ns| :: ns[i] != ns[j]
    {
      var here := Pos(row, col);
      ns := [];
      var k := 0;
      while k < 4
        invariant 0 <= k <= 4
        invariant forall n :: n in ns <==>
          InB(n) && Adjacent(here, n) && AroundIndex(here, n) < k && grid[n.row, n.col] != WALL
        invariant forall i, j | 0 <= i < j < |ns| :: AroundIndex(here, ns[i]) < AroundIndex(here, ns[j])
        invariant forall i | 0 <= i < |ns| :: Adjacent(here, ns[i]) && AroundIndex(here, ns[i]) < k
      {
        var n := Around(here, k);
        if IsValidPosition(n.row, n.col) && grid[n.row, n.col] != WALL {
          ns := ns + [n];
        }
        k := k + 1;
      }
    }

    /**
     * Java's isWall on a cell: None (null) is no wall. A cell is identified by
     * its position; off the board it carries no wall.
     */
    function IsWallCell(cell: Option<Pos>): (r: bool)
      reads grid
      requires Shaped()
      ensures r <==> cell.Some? && cell.value in Walls()
    {
      cell.Some? && IsWall(cell.value.row, cell.value.col)
    }

    /** Neighbours, neither of them a wall. */
    function IsDirectlyReachable(from: Option<Pos>, to: Option<Pos>): (r: bool)
      reads grid
      requires Shaped()
      ensures r ==> from.Some? && to.Some? && Adjacent(from.value, to.value)
    {
      AdjacentCells(from, to) && !IsWallCell(from) && !IsWallCell(to)
    }

    /** On the board, a direct step is a move in both directions, and the relation is symmetric. */
    lemma DirectlyReachableMoves(a: Pos, b: Pos)
      requires Shaped() && InB(a) && InB(b)
      ensures IsDirectlyReachable(Some(a), Some(b)) <==> (a, b) in Moves() && (b, a) in Moves()
      ensures IsDirectlyReachable(Some(a), Some(b)) == IsDirectlyReachable(Some(b), Some(a))
    {
    }

    function IsEnd(row: int, col: int): (r: bool)
      reads this
      ensures r <==> Pos(row, col) == end
    {
      end.row == row && end.col == col
    }

    /** The cell at a position (as the grid holds it), or None off the board. */
    function GetCell(row: int, col: int): (r: Option<Pos>)
      ensures r.Some? <==> InB(Pos(row, col))
      ensures r.Some? ==> r.value == Pos(row, col)
    {
      if IsValidPosition(row, col) then Some(Pos(row, col)) else None
    }

    /** Turns the cell at (row, col) into a wall when it is on the board; otherwise nothing changes. */
    method SetWall(row: int, col: int)
      requires Shaped()
      modifies grid
      ensures forall r, c | 0 <= r < height && 0 <= c < width ::
        grid[r, c] == if r == row && c == col then WALL else old(grid[r, c])
    {
      if IsValidPosition(row, col) {
        grid[row, col] := WALL;
      }
    }

    /** Moves the exit to (row, col) when it is on the board; otherwise nothing changes. */
    method SetEnd(row: int, col: int)
      modifies this
      ensures end == if IsValidPosition(row, col) then Pos(row, col) else old(end)
      ensures start == old(start) && wallPercentage == old(wallPercentage)
    {
      if IsValidPosition(row, col) {
        end := Pos(row, col);
      }
    }

    /** `visited` marks exactly the labelled cells; labels are on the board and non-negative. */
    ghost predicate Visits(visited: array2<bool>, D: map<Pos, int>)
      reads visited
      requires visited.Length0 == height && visited.Length1 == width
    {
      && (forall p | p in D :: InB(p) && D[p] >= 0)
      && (forall p | InB(p) :: visited[p.row, p.col] <==> p in D)
    }

    /**
     * A shortest path from `source` to `target` through non-wall cells, both
     * ends included: [source] when they are the same cell, and empty when the
     * target cannot be reached. The search stops when it dequeues the target
     * and rebuilds the path from the parent links.
     */
    method FindOptimalPath(source: Pos, target: Pos) returns (path: seq<Pos>)
      requires Shaped() && InB(source)
      ensures source == target ==> path == [source]
      ensures path == [] <==> !Reachable(Moves(), source, target)
      ensures path != [] ==> WalkFromTo(Moves(), path, source, target)
      ensures path != [] ==> |path| == ShortestDistance(Moves(), source, target) + 1
    {
      ghost var E := Moves();
      if source == target {
        TrivialWalks(E, source);
        DistanceZeroIff(E, source, source);
        return [source];
      }
      assert MovesAre(E);
      var visited := NewVisited(source);
      var parentMap := map[source := None];
      BfsInit(E, source);
      var found, parents, D := Search(visited, [source], parentMap, E, source, target,
                                         map[source := 0], map[source := [source]], {}, 0);
      if found {
        path := ReconstructPath(parents, target, E, source, D);
      } else {
        path := [];
      }
    }

    /** A fresh visited table with only `source` marked. */
    method NewVisited(source: Pos) returns (visited: array2<bool>)
      requires Shaped() && InB(source)
      ensures fresh(visited) && visited.Length0 == height && visited.Length1 == width
      ensures Visits(visited, map[source := 0])
    {
      visited := new bool[height, width]((r, c) => false);
      label Blank:
      visited[source.row, source.col] := true;
      forall p | InB(p)
        ensures visited[p.row, p.col] <==> p == source
      {
        if p != source {
          assert visited[p.row, p.col] == old@Blank(visited[p.row, p.col]);
        }
      }
    }

    /**
     * The queue loop, from a given state: it answers true as soon as it
     * dequeues `target`, then labelled with its shortest distance, and false
     * once the queue is empty without it, when `target` cannot be reached.
     */
    method Search(visited: array2<bool>, queue: seq<Pos>, parent: map<Pos, Option<Pos>>, ghost E: Edges, ghost src: Pos,
                  target: Pos, ghost D0: map<Pos, int>, ghost W0: map<Pos, seq<Pos>>, ghost P0: set<Pos>, ghost lo0: int)
      returns (found: bool, parent': map<Pos, Option<Pos>>, ghost D: map<Pos, int>)
      requires Shaped() && visited.Length0 == height && visited.Length1 == width && MovesAre(E)
      requires BfsInv(E, src, D0, W0, P0, queue, lo0) && Visits(visited, D0) && ParentTree(parent, D0, E, src)
      requires target !in P0
      modifies visited
      ensures ParentTree(parent', D, E, src)
      ensures found ==> target in D && D[target] == ShortestDistance(E, src, target)
      ensures !found ==> !Reachable(E, src, target)
    {
      var queue := queue;
      parent', D := parent, D0;
      ghost var W, P, lo := W0, P0, lo0;
      CardMono(P, Cells(height, width));
      while queue != []
        invariant BfsInv(E, src, D, W, P, queue, lo) && Visits(visited, D) && ParentTree(parent', D, E, src)
        invariant target !in P && |P| <= height * width
        decreases height * width - |P|
      {
        if queue[0] == target {
          BfsHeadDistance(E, src, D, W, P, queue, lo);
          return true, parent', D;
        }
        queue, parent', D, W, P, lo := Advance(visited, queue, parent', E, src, D, W, P, lo);
      }
      BfsComplete(E, src, D, W, P, lo);
      found := false;
    }

    /** One round of the queue loop: the head is dequeued and its unvisited neighbours are queued. */
    method Advance(visited: array2<bool>, queue: seq<Pos>, parent: map<Pos, Option<Pos>>, ghost E: Edges, ghost src: Pos,
                   ghost D: map<Pos, int>, ghost W: map<Pos, seq<Pos>>, ghost P: set<Pos>, ghost lo: int)
      returns (queue': seq<Pos>, parent': map<Pos, Option<Pos>>, ghost D': map<Pos, int>, ghost W': map<Pos, seq<Pos>>,
               ghost P': set<Pos>, ghost lo': int)
      requires Shaped() && visited.Length0 == height && visited.Length1 == width && MovesAre(E)
      requires BfsInv(E, src, D, W, P, queue, lo) && |queue| > 0
      requires Visits(visited, D) && ParentTree(parent, D, E, src)
      modifies visited
      ensures BfsInv(E, src, D', W', P', queue', lo') && Visits(visited, D') && ParentTree(parent', D', E, src)
      ensures P' == P + {queue[0]} && queue[0] !in P && |P'| <= height * width
    {
      var current := queue[0];
      BfsPop(E, src, D, W, P, queue, lo);
      P' := P + {current};
      CardMono(P', Cells(height, width));
      lo' := D[current];
      queue', parent', D', W' := Expand(visited, current, queue[1..], parent, E, src, D, W, P, P');
    }

    /** Processing one dequeued cell: each unvisited neighbour is marked, gets `c` as parent and joins the queue. */
    method Expand(visited: array2<bool>, c: Pos, queue: seq<Pos>, parent: map<Pos, Option<Pos>>, ghost E: Edges, ghost src: Pos,
                  ghost D: map<Pos, int>, ghost W: map<Pos, seq<Pos>>, ghost P: set<Pos>, ghost Pc: set<Pos>)
      returns (queue': seq<Pos>, parent': map<Pos, Option<Pos>>, ghost D': map<Pos, int>, ghost W': map<Pos, seq<Pos>>)
      requires Shaped() && visited.Length0 == height && visited.Length1 == width
      requires MovesAre(E) && InB(c) && c in D && c in Pc && forall x | x in Pc :: x in P || x == c
      requires BfsShape(E, src, D, W, Pc, queue, D[c]) && ClosedOn(E, D, P)
      requires Visits(visited, D) && ParentTree(parent, D, E, src)
      modifies visited
      ensures BfsInv(E, src, D', W', Pc, queue', D[c])
      ensures Visits(visited, D') && ParentTree(parent', D', E, src)
    {
      var ns := Neighbors(c.row, c.col);
      queue', parent', D', W' := queue, parent, D, W;
      var k := 0;
      while k < |ns|
        invariant Scanned(c, ns, k, queue', parent', E, src, D[c], D', W', P, Pc) && Visits(visited, D')
      {
        queue', parent', D', W' := Visit(visited, c, ns, k, queue', parent', E, src, D[c], D', W', P, Pc);
        k := k + 1;
      }
      BfsClose(E, D', P, c, Pc);
    }

    /** The k-th neighbour of the dequeued cell `c`: when not visited yet, it is marked, linked to `c` and queued. */
    method Visit(visited: array2<bool>, c: Pos, ns: seq<Pos>, k: int, queue: seq<Pos>, parent: map<Pos, Option<Pos>>,
                 ghost E: Edges, ghost src: Pos, ghost lo: int, ghost D: map<Pos, int>, ghost W: map<Pos, seq<Pos>>,
                 ghost P: set<Pos>, ghost Pc: set<Pos>)
      returns (queue': seq<Pos>, parent': map<Pos, Option<Pos>>, ghost D': map<Pos, int>, ghost W': map<Pos, seq<Pos>>)
      requires visited.Length0 == height && visited.Length1 == width
      requires 0 <= k < |ns| && (c, ns[k]) in E && InB(ns[k])
      requires Scanned(c, ns, k, queue, parent, E, src, lo, D, W, P, Pc) && Visits(visited, D)
      modifies visited
      ensures Scanned(c, ns, k + 1, queue', parent', E, src, lo, D', W', P, Pc) && Visits(visited, D')
    {
      var n := ns[k];
      if !visited[n.row, n.col] {
        ScanNew(c, ns, k, queue, parent, E, src, lo, D, W, P, Pc);
        Mark(visited, D, n, lo + 1);
        queue' := queue + [n];
        parent' := parent[n := Some(c)];
        D' := D[n := lo + 1];
        W' := W[n := W[c] + [n]];
      } else {
        ScanKnown(c, ns, k, queue, parent, E, src, lo, D, W, P, Pc);
        queue', parent', D', W' := queue, parent, D, W;
      }
    }

    /** Marks a newly labelled cell as visited. */
    method Mark(visited: array2<bool>, ghost D: map<Pos, int>, n: Pos, ghost d: int)
      requires visited.Length0 == height && visited.Length1 == width
      requires Visits(visited, D) && InB(n) && n !in D && d >= 0
      modifies visited
      ensures Visits(visited, D[n := d])
    {
      visited[n.row, n.col] := true;
      forall p | InB(p)
        ensures visited[p.row, p.col] <==> p in D[n := d]
      {
        if p != n {
          assert visited[p.row, p.col] == old(visited[p.row, p.col]);
        }
      }
    }

    /**
     * Follows the parent links back from `end` to the source, putting each
     * cell in front: the result is a walk from the source to `end` with one
     * cell per level.
     */
    method ReconstructPath(parent: map<Pos, Option<Pos>>, end: Pos, ghost E: Edges, ghost src: Pos, ghost D: map<Pos, int>)
      returns (path: seq<Pos>)
      requires ParentTree(parent, D, E, src) && end in D
      ensures WalkFromTo(E, path, src, end) && |path| == D[end] + 1
    {
      path := [];
      var curr := Some(end);
      while curr.Some?
        invariant curr.Some? ==> curr.value in D && |path| + D[curr.value] == D[end]
        invariant curr.Some? && path != [] ==> (curr.value, path[0]) in E
        invariant curr.None? ==> path != [] && path[0] == src && |path| == D[end] + 1
        invariant path != [] ==> IsWalk(E, path) && path[|path| - 1] == end
        invariant path == [] ==> curr == Some(end)
        decreases if curr.Some? then D[curr.value] + 1 else 0
      {
        var cell := curr.value;
        ghost var rest := path;
        path := [cell] + path;
        if rest != [] {
          forall i | 0 <= i < |path| - 1
            ensures (path[i], path[i + 1]) in E
          {
            if i > 0 {
              assert path[i] == rest[i - 1] && path[i + 1] == rest[i];
            }
          }
        }
        curr := parent[cell];
      }
    }

    /** The number of steps of a shortest path from the entrance to the exit, -1 when there is none. */
    method OptimalPathLength() returns (n: int)
      requires Shaped() && InB(start)
      ensures n == ShortestDistance(Moves(), start, end)
    {
      var path := FindOptimalPath(start, end);
      if path == [] {
        return -1;
      }
      n := |path| - 1;
    }

    /** Moves the exit to a cell of the board (None is null); anything else changes nothing. */
    method SetEndCell(cell: Option<Pos>)
      modifies this
      ensures end == if cell.Some? && InB(cell.value) then cell.value else old(end)
      ensures start == old(start) && wallPercentage == old(wallPercentage)
    {
      if cell.Some? && IsValidPosition(cell.value.row, cell.value.col) {
        end := cell.value;
      }
    }

    /** Every cell of the board holds only WALL or PATH. */
    ghost predicate TwoTyped()
      reads grid
      requires Shaped()
    {
      forall r, c | 0 <= r < height && 0 <= c < width :: grid[r, c] == WALL || grid[r, c] == PATH
    }

    /** When `cell` has a neighbour on the board other than `exclude`, one such neighbour is a path. */
    ghost predicate OpenedAround(cell: Pos, exclude: Pos)
      reads grid
      requires Shaped()
    {
      (exists n :: InB(n) && Adjacent(cell, n) && n != exclude) ==>
        exists n :: InB(n) && Adjacent(cell, n) && n != exclude && grid[n.row, n.col] == PATH
    }

    /** The entrance and the exit lie on opposite border sides. */
    ghost predicate Opposite()
      reads this`start, this`end
    {
      || (OnSide(height, width, start, 0) && OnSide(height, width, end, 2))
      || (OnSide(height, width, start, 1) && OnSide(height, width, end, 3))
      || (OnSide(height, width, start, 2) && OnSide(height, width, end, 0))
      || (OnSide(height, width, start, 3) && OnSide(height, width, end, 1))
    }

    /**
     * What one generation leaves: entrance and exit on the board, both paths, each with an open neighbour besides the other when
     * there is one, and every cell a wall or a path.
     */
    ghost predicate Drawn()
      reads this`start, this`end, grid
      requires Shaped()
    {
      && InB(start) && InB(end)
      && grid[start.row, start.col] == PATH && grid[end.row, end.col] == PATH
      && OpenedAround(start, end) && OpenedAround(end, start)
      && TwoTyped()
    }

    /** Every cell becomes a fresh path cell. */
    method ResetCells()
      requires Shaped()
      modifies grid
      ensures forall r, c | 0 <= r < height && 0 <= c < width :: grid[r, c] == PATH
    {
      var i := 0;
      while i < height
        invariant 0 <= i <= height
        invariant forall r, c | 0 <= r < i && 0 <= c < width :: grid[r, c] == PATH
      {
        var j := 0;
        while j < width
          invariant 0 <= j <= width
          invariant forall r, c | 0 <= r < i && 0 <= c < width :: grid[r, c] == PATH
          invariant forall c | 0 <= c < j :: grid[i, c] == PATH
        {
          grid[i, j] := PATH;
          j := j + 1;
        }
        i := i + 1;
      }
    }

    /**
     * A random cell of the given border side, as (x, y, side) with x the
     * column and y the row; a side outside 0..3 is refused.
     */
    method BorderPosition(forcedSide: int) returns (r: Result<(int, int, int)>)
      requires Shaped()
      ensures r.Err? <==> !(0 <= forcedSide < 4)
      ensures r.Ok? ==> r.value.2 == forcedSide && InB(Pos(r.value.1, r.value.0))
      ensures r.Ok? ==> OnSide(height, width, Pos(r.value.1, r.value.0), forcedSide)
    {
      var x: int, y: int;
      if forcedSide == 0 {
        x :| 0 <= x < width;
        y := 0;
      } else if forcedSide == 1 {
        x := width - 1;
        y :| 0 <= y < height;
      } else if forcedSide == 2 {
        x :| 0 <= x < width;
        y := height - 1;
      } else if forcedSide == 3 {
        x := 0;
        y :| 0 <= y < height;
      } else {
        return Err("forcedSide must be between 0 and 3");
      }
      r := Ok((x, y, forcedSide));
    }

    /** A random cell of a random border side. */
    method RandomBorderPosition() returns (r: (int, int, int))
      requires Shaped()
      ensures 0 <= r.2 < 4 && InB(Pos(r.1, r.0)) && OnSide(height, width, Pos(r.1, r.0), r.2)
    {
      var side :| 0 <= side < 4;
      var res := BorderPosition(side);
      r := res.value;
    }

    /**
     * Places the entrance and the exit on opposite sides and makes both
     * fresh path cells. The first time the entrance is drawn on a random side
     * (the Java entrance is still null then); later the entrance keeps its
     * cell and its side is read off it (first match among top, right, bottom,
     * left, a random side when it is on none); the exit is drawn on the
     * opposite side. Returns the entrance side.
     */
    method EnsureStartEndOpposite(first: bool) returns (side: int)
      requires Shaped() && (!first ==> InB(start))
      modifies this, grid
      ensures 0 <= side < 4 && InB(start) && InB(end)
      ensures OnSide(height, width, end, (side + 2) % 4)
      ensures first || OnBorder(height, width, old(start)) ==> OnSide(height, width, start, side)
      ensures !first ==> start == old(start)
      ensures wallPercentage == old(wallPercentage)
      ensures forall r, c | 0 <= r < height && 0 <= c < width ::
        grid[r, c] == if Pos(r, c) == start || Pos(r, c) == end then PATH else old(grid[r, c])
    {
      var sx: int, sy: int;
      if first {
        var sp := RandomBorderPosition();
        sx, sy, side := sp.0, sp.1, sp.2;
      } else {
        sx, sy := start.col, start.row;
        if sy == 0 {
          side := 0;
        } else if sx == width - 1 {
          side := 1;
        } else if sy == height - 1 {
          side := 2;
        } else if sx == 0 {
          side := 3;
        } else {
          side :| 0 <= side < 4;
        }
      }
      var endSide := (side + 2) % 4;
      var ep := BorderPosition(endSide);
      var ex, ey := ep.value.0, ep.value.1;
      start := Pos(sy, sx);
      end := Pos(ey, ex);
      grid[sy, sx] := PATH;
      grid[ey, ex] := PATH;
    }

    /**
     * Turns `target` distinct cells into walls, never the entrance or the
     * exit nor a cell that is already a wall: the cells `S` returned, taken
     * from `free`, the cells the Java code accepts. The Java code draws cells at
     * random and skips refused draws; it only ends when enough cells can be
     * taken.
     */
    method PlaceWalls(target: int, ghost free: set<Pos>) returns (ghost S: set<Pos>)
      requires Shaped() && 0 <= target <= |free|
      requires forall p :: p in free <==> InB(p) && p != start && p != end && grid[p.row, p.col] != WALL
      modifies grid
      ensures S <= free && |S| == target
      ensures forall r, c | 0 <= r < height && 0 <= c < width ::
        grid[r, c] == if Pos(r, c) in S then WALL else old(grid[r, c])
    {
      S := {};
      var placed := 0;
      while placed < target
        invariant 0 <= placed <= target && |S| == placed && S <= free
        invariant forall r, c | 0 <= r < height && 0 <= c < width ::
          grid[r, c] == if Pos(r, c) in S then WALL else old(grid[r, c])
      {
        ghost var p := Remaining(S, free);
        assert grid[p.row, p.col] != WALL;
        var y, x :| 0 <= y < height && 0 <= x < width &&
          !(x == start.col && y == start.row) && !(x == end.col && y == end.row) && grid[y, x] != WALL;
        assert Pos(y, x) !in S && Pos(y, x) in free;
        grid[y, x] := WALL;
        S := S + {Pos(y, x)};
        placed := placed + 1;
      }
    }

    /** The walls are exactly the cells of `S`. */
    lemma WallsAre(S: set<Pos>)
      requires Shaped() && forall p | p in S :: InB(p)
      requires forall r, c | 0 <= r < height && 0 <= c < width :: grid[r, c] == WALL <==> Pos(r, c) in S
      ensures Walls() == S
    {
      forall p | p in Walls()
        ensures p in S
      {
        assert grid[p.row, p.col] == WALL;
      }
    }

    /**
     * Forces one random neighbour of `cell` on the board, other than
     * `exclude`, to be a path (even a wall); does nothing when there is none.
     * Returns the cell chosen.
     */
    method OpenNeighborPath(cell: Pos, exclude: Pos) returns (ghost chosen: Option<Pos>)
      requires Shaped()
      modifies grid
      ensures chosen.Some? ==> InB(chosen.value) && Adjacent(cell, chosen.value) && chosen.value != exclude
      ensures chosen.None? ==> forall n | InB(n) && Adjacent(cell, n) :: n == exclude
      ensures forall r, c | 0 <= r < height && 0 <= c < width ::
        grid[r, c] == if chosen == Some(Pos(r, c)) then PATH else old(grid[r, c])
    {
      var allNeighbors := [];
      var k := 0;
      while k < 4
        invariant 0 <= k <= 4
        invariant forall n :: n in allNeighbors <==> InB(n) && Adjacent(cell, n) && AroundIndex(cell, n) < k && n != exclude
      {
        var n := Around(cell, k);
        if IsValidPosition(n.row, n.col) && n != exclude {
          allNeighbors := allNeighbors + [n];
        }
        k := k + 1;
      }
      if allNeighbors != [] {
        var i :| 0 <= i < |allNeighbors|;
        var open := allNeighbors[i];
        assert open in allNeighbors;
        grid[open.row, open.col] := PATH;
        chosen := Some(open);
      } else {
        chosen := None;
      }
    }

    /**
     * One generation: every cell becomes a path, the entrance and the exit
     * are placed on opposite sides, WallTarget(width, height, wallPercentage)
     * walls are spread over the other cells, then one neighbour of the
     * entrance and one of the exit are opened again, which may take back up
     * to two walls.
     */
    method Generate(first: bool)
      requires Shaped() && 0 <= wallPercentage && Placeable(width, height, wallPercentage)
      requires !first ==> InB(start)
      modifies this, grid
      ensures Drawn()
      ensures first || OnBorder(height, width, old(start)) ==> Opposite()
      ensures !first ==> start == old(start)
      ensures wallPercentage == old(wallPercentage)
      ensures WallTarget(width, height, wallPercentage) - 2 <= |Walls()| <= WallTarget(width, height, wallPercentage)
    {
      ghost var S := Lay(first);
      ghost var o1 := OpenNeighborPath(start, end);
      label opened1:
      ghost var o2 := OpenNeighborPath(end, start);
      assert forall r, c | 0 <= r < height && 0 <= c < width ::
        grid[r, c] == if o1 == Some(Pos(r, c)) || o2 == Some(Pos(r, c)) then PATH else if Pos(r, c) in S then WALL else PATH
      by {
        forall r, c | 0 <= r < height && 0 <= c < width
          ensures grid[r, c] == if o1 == Some(Pos(r, c)) || o2 == Some(Pos(r, c)) then PATH else if Pos(r, c) in S then WALL else PATH
        {
          assert grid[r, c] == if o2 == Some(Pos(r, c)) then PATH else old@opened1(grid[r, c]);
        }
      }
      Finish(S, o1, o2);
    }

    /**
     * The first part of a generation: a board of paths, the entrance and the
     * exit on opposite sides, and `S`, the walls spread over the other cells.
     */
    method Lay(first: bool) returns (ghost S: set<Pos>)
      requires Shaped() && 0 <= wallPercentage && Placeable(width, height, wallPercentage)
      requires !first ==> InB(start)
      modifies this, grid
      ensures InB(start) && InB(end)
      ensures first || OnBorder(height, width, old(start)) ==> Opposite()
      ensures !first ==> start == old(start)
      ensures wallPercentage == old(wallPercentage)
      ensures |S| == WallTarget(width, height, wallPercentage)
      ensures forall p | p in S :: InB(p) && p != start && p != end
      ensures forall r, c | 0 <= r < height && 0 <= c < width :: grid[r, c] == if Pos(r, c) in S then WALL else PATH
    {
      PlaceEnds(first);
      var target := WallTarget(width, height, wallPercentage);
      ghost var free := RoomForWalls(target);
      S := PlaceWalls(target, free);
    }

    /** A board of paths with the entrance and the exit on opposite sides. */
    method PlaceEnds(first: bool)
      requires Shaped() && (!first ==> InB(start))
      modifies this, grid
      ensures InB(start) && InB(end)
      ensures first || OnBorder(height, width, old(start)) ==> Opposite()
      ensures !first ==> start == old(start)
      ensures wallPercentage == old(wallPercentage)
      ensures forall r, c | 0 <= r < height && 0 <= c < width :: grid[r, c] == PATH
    {
      ResetCells();
      var side := EnsureStartEndOpposite(first);
    }

    /**
     * What the two openings around the entrance and the exit leave: a drawn
     * board whose walls are the walls laid, less the two cells opened.
     */
    lemma Finish(S: set<Pos>, o1: Option<Pos>, o2: Option<Pos>)
      requires Shaped() && InB(start) && InB(end)
      requires forall p | p in S :: InB(p) && p != start && p != end
      requires o1.Some? ==> InB(o1.value) && Adjacent(start, o1.value) && o1.value != end
      requires o1.None? ==> forall n | InB(n) && Adjacent(start, n) :: n == end
      requires o2.Some? ==> InB(o2.value) && Adjacent(end, o2.value) && o2.value != start
      requires o2.None? ==> forall n | InB(n) && Adjacent(end, n) :: n == start
      requires forall r, c | 0 <= r < height && 0 <= c < width ::
        grid[r, c] == if o1 == Some(Pos(r, c)) || o2 == Some(Pos(r, c)) then PATH else if Pos(r, c) in S then WALL else PATH
      ensures Drawn()
      ensures |S| - 2 <= |Walls()| <= |S|
    {
      FinishDrawn(S, o1, o2);
      FinishCount(S, o1, o2);
    }

    lemma FinishDrawn(S: set<Pos>, o1: Option<Pos>, o2: Option<Pos>)
      requires Shaped() && InB(start) && InB(end)
      requires forall p | p in S :: InB(p) && p != start && p != end
      requires o1.Some? ==> InB(o1.value) && Adjacent(start, o1.value) && o1.value != end
      requires o1.None? ==> forall n | InB(n) && Adjacent(start, n) :: n == end
      requires o2.Some? ==> InB(o2.value) && Adjacent(end, o2.value) && o2.value != start
      requires o2.None? ==> forall n | InB(n) && Adjacent(end, n) :: n == start
      requires forall r, c | 0 <= r < height && 0 <= c < width ::
        grid[r, c] == if o1 == Some(Pos(r, c)) || o2 == Some(Pos(r, c)) then PATH else if Pos(r, c) in S then WALL else PATH
      ensures Drawn()
    {
      if o1.Some? {
        assert grid[o1.value.row, o1.value.col] == PATH;
      }
      AroundOpened(start, end, o1);
      if o2.Some? {
        assert grid[o2.value.row, o2.value.col] == PATH;
      }
      AroundOpened(end, start, o2);
    }

    lemma FinishCount(S: set<Pos>, o1: Option<Pos>, o2: Option<Pos>)
      requires Shaped()
      requires forall p | p in S :: InB(p)
      requires forall r, c | 0 <= r < height && 0 <= c < width ::
        grid[r, c] == if o1 == Some(Pos(r, c)) || o2 == Some(Pos(r, c)) then PATH else if Pos(r, c) in S then WALL else PATH
      ensures |S| - 2 <= |Walls()| <= |S|
    {
      var W := S - Opened(o1) - Opened(o2);
      Reopened(S, o1, o2);
      WallsAre(W);
      WallCount(S, W, o1, o2);
    }

    /** An opened neighbour, or none to open, is what OpenedAround asks for. */
    lemma AroundOpened(cell: Pos, exclude: Pos, o: Option<Pos>)
      requires Shaped()
      requires o.Some? ==> InB(o.value) && Adjacent(cell, o.value) && o.value != exclude && grid[o.value.row, o.value.col] == PATH
      requires o.None? ==> forall n | InB(n) && Adjacent(cell, n) :: n == exclude
      ensures OpenedAround(cell, exclude)
    {
    }

    /** The walls of a board drawn that way are the walls laid less the cells opened. */
    lemma Reopened(S: set<Pos>, o1: Option<Pos>, o2: Option<Pos>)
      requires Shaped()
      requires forall r, c | 0 <= r < height && 0 <= c < width ::
        grid[r, c] == if o1 == Some(Pos(r, c)) || o2 == Some(Pos(r, c)) then PATH else if Pos(r, c) in S then WALL else PATH
      ensures forall r, c | 0 <= r < height && 0 <= c < width :: grid[r, c] == WALL <==> Pos(r, c) in S - Opened(o1) - Opened(o2)
    {
    }

    /**
     * On a board of path cells, the cells other than the entrance and the
     * exit can take `target` walls.
     */
    lemma RoomForWalls(target: int) returns (free: set<Pos>)
      requires Shaped() && InB(start) && InB(end) && 0 <= target
      requires target == 0 || target + 2 <= width * height
      requires forall r, c | 0 <= r < height && 0 <= c < width :: grid[r, c] == PATH
      ensures forall p :: p in free <==> InB(p) && p != start && p != end && grid[p.row, p.col] != WALL
      ensures target <= |free|
    {
      free := Cells(height, width) - {start, end};
      CardDiff(Cells(height, width), {start, end});
    }

    /** Taking back up to two cells leaves at least all but two walls. */
    static lemma WallCount(S: set<Pos>, W: set<Pos>, o1: Option<Pos>, o2: Option<Pos>)
      requires W == S - Opened(o1) - Opened(o2)
      ensures |S| - 2 <= |W| <= |S|
    {
      CardDiff(S, Opened(o1));
      CardDiff(S - Opened(o1), Opened(o2));
      CardMono(W, S);
    }

    /**
     * Generates until the exit can be reached from the entrance; after every
     * 500 attempts the wall percentage drops by one. It never drops below
     * zero: a board generated at zero percent has no walls and so always
     * has a path, which ends the search.
     */
    method GenerateMaze(first: bool)
      requires Shaped() && 0 <= wallPercentage && Placeable(width, height, wallPercentage)
      requires !first ==> InB(start)
      modifies this, grid
      ensures Drawn() && Reachable(Moves(), start, end)
      ensures first || OnBorder(height, width, old(start)) ==> Opposite()
      ensures !first ==> start == old(start)
      ensures 0 <= wallPercentage <= old(wallPercentage)
      ensures |Walls()| <= WallTarget(width, height, old(wallPercentage))
    {
      var totalAttempts := 1;
      ghost var initial := wallPercentage;
      ghost var bordered := first || OnBorder(height, width, start);
      ghost var start0 := start;
      PlaceableMono(width, height, initial, initial);
      var path := Regenerate(first, initial);
      while path == []
        invariant Searching(first, bordered, start0, initial, path, totalAttempts)
        decreases wallPercentage, 499 - totalAttempts % 500
      {
        NextAttempt(totalAttempts);
        totalAttempts := totalAttempts + 1;
        path := Attempt(totalAttempts % 500 == 0, initial);
      }
    }

    /** The state of the search loop of GenerateMaze. */
    ghost predicate Searching(first: bool, bordered: bool, start0: Pos, initial: int, path: seq<Pos>, total: int)
      reads this`start, this`end, this`wallPercentage, grid
    {
      && Shaped() && InB(start) && (path != [] ==> Finished(initial))
      && 1 <= total && 0 <= wallPercentage <= initial
      && (path == [] && wallPercentage == 0 ==> total % 500 == 0)
      && (bordered ==> OnBorder(height, width, start))
      && (bordered && path != [] ==> Opposite())
      && (!first ==> start == start0)
    }

    /**
     * One more attempt: a new generation that keeps the entrance, the
     * percentage lowered by one when `lower` (on every 500th attempt), and
     * the path looked for again.
     */
    method Attempt(lower: bool, ghost initial: int) returns (path: seq<Pos>)
      requires Shaped() && InB(start)
      requires 0 <= wallPercentage <= initial && Placeable(width, height, initial)
      modifies this, grid
      ensures InB(start) && start == old(start)
      ensures wallPercentage == if lower then old(wallPercentage) - 1 else old(wallPercentage)
      ensures path != [] ==> Finished(initial)
      ensures path == [] ==> !Reachable(Moves(), start, end) && old(wallPercentage) != 0
      ensures OnBorder(height, width, old(start)) ==> OnBorder(height, width, start) && (path != [] ==> Opposite())
    {
      path := Regenerate(false, initial);
      if lower {
        label generated:
        SetWallPercentage(wallPercentage - 1);
        FinishedKept@generated(initial);
      }
    }

    /** Changing only the wall percentage keeps a finished board finished. */
    twostate lemma FinishedKept(percentage: int)
      requires unchanged(grid) && old(start) == start && old(end) == end
      ensures old(Finished(percentage)) ==> Finished(percentage)
    {
    }

    /** A generated board on which the exit can be reached from the entrance. */
    ghost predicate Finished(percentage: int)
      reads this`start, this`end, grid
    {
      Generated(percentage) && Reachable(Moves(), start, end)
    }

    /** A drawn board whose walls stay within what `percentage` asks for. */
    ghost predicate Generated(percentage: int)
      reads this`start, this`end, grid
    {
      Shaped() && Drawn() && |Walls()| <= WallTarget(width, height, percentage)
    }

    /**
     * One attempt of the search: a new generation (which keeps the entrance
     * after the first), and the path looked for again.
     */
    method Regenerate(first: bool, ghost initial: int) returns (path: seq<Pos>)
      requires Shaped() && (!first ==> InB(start))
      requires 0 <= wallPercentage <= initial && Placeable(width, height, initial)
      modifies this, grid
      ensures Generated(initial) && InB(start)
      ensures path != [] ==> Finished(initial)
      ensures path == [] ==> !Reachable(Moves(), start, end) && wallPercentage != 0
      ensures wallPercentage == old(wallPercentage)
      ensures first || OnBorder(height, width, old(start)) ==> Opposite() && OnBorder(height, width, start)
      ensures !first ==> start == old(start)
    {
      PlaceableMono(width, height, initial, wallPercentage);
      Generate(first);
      path := FindOptimalPath(start, end);
      if wallPercentage == 0 {
        NoWallsAtZero(width, height);
        WallFreeReachable();
      }
      OppositeOnBorder();
    }

    /** An entrance on a side of a pair of opposite sides is on the border. */
    lemma OppositeOnBorder()
      ensures Opposite() ==> OnBorder(height, width, start)
    {
    }

    /** On a board without walls, a walk joins any two cells, moving along the rows first. */
    lemma {:induction false} OpenWalk(E: Edges, a: Pos, b: Pos) returns (w: seq<Pos>)
      requires InB(a) && InB(b)
      requires forall p, q | InB(p) && InB(q) && Adjacent(p, q) :: (p, q) in E
      ensures WalkFromTo(E, w, a, b) && |w| == Manhattan(a, b) + 1
      decreases Manhattan(a, b)
    {
      if a == b {
        w := [a];
      } else {
        var n := StepToward(a, b);
        var v := OpenWalk(E, n, b);
        w := [a] + v;
        assert (a, n) in E;
        assert forall i | 1 <= i < |w| - 1 :: w[i] == v[i - 1] && w[i + 1] == v[i];
      }
    }

    /** Without walls the exit can always be reached from the entrance. */
    lemma WallFreeReachable()
      requires Shaped() && InB(start) && InB(end) && |Walls()| == 0
      ensures Reachable(Moves(), start, end)
    {
      var E := Moves();
      forall p, q | InB(p) && InB(q) && Adjacent(p, q)
        ensures (p, q) in E
      {
        assert q !in Walls();
      }
      var w := OpenWalk(E, start, end);
    }

    /**
     * `seen` holds the cells before (i, j) in reading order whose being a
     * wall is `wall`.
     */
    ghost predicate CountedBefore(wall: bool, i: int, j: int, seen: set<Pos>)
      reads grid
      requires Shaped()
    {
      forall p :: p in seen <==>
        InB(p) && (grid[p.row, p.col] == WALL) == wall && (p.row < i || (p.row == i && p.col < j))
    }

    /** The number of walls, row by row. */
    method CountWalls() returns (count: int)
      requires Shaped()
      ensures count == |Walls()|
    {
      ghost var seen;
      count, seen := CountCells(true);
      assert seen == Walls();
    }

    /** The number of cells that are not walls, row by row. */
    method CountFreeCells() returns (count: int)
      requires Shaped()
      ensures count == |FreeCells()|
    {
      ghost var seen;
      count, seen := CountCells(false);
      assert seen == FreeCells();
    }

    /** Counts the cells whose being a wall is `wall`, over every row. */
    method CountCells(wall: bool) returns (count: int, ghost seen: set<Pos>)
      requires Shaped()
      ensures CountedBefore(wall, height, 0, seen) && count == |seen|
    {
      count, seen := 0, {};
      var i := 0;
      while i < height
        invariant 0 <= i <= height && CountedBefore(wall, i, 0, seen) && count == |seen|
      {
        count, seen := CountRow(wall, i, count, seen);
        i := i + 1;
      }
    }

    /** Adds the matching cells of row `i` to a count of the rows above it. */
    method CountRow(wall: bool, i: int, above: int, ghost seenAbove: set<Pos>) returns (count: int, ghost seen: set<Pos>)
      requires Shaped() && 0 <= i < height && CountedBefore(wall, i, 0, seenAbove) && above == |seenAbove|
      ensures CountedBefore(wall, i + 1, 0, seen) && count == |seen|
    {
      count, seen := above, seenAbove;
      var j := 0;
      while j < width
        invariant 0 <= j <= width && CountedBefore(wall, i, j, seen) && count == |seen|
      {
        if (grid[i, j] == WALL) == wall {
          assert Pos(i, j) !in seen;
          count, seen := count + 1, seen + {Pos(i, j)};
        }
        j := j + 1;
      }
    }

    /** `visited` marks exactly the cells of `path`, which are on the board and pairwise distinct. */
    ghost predicate Marks(visited: array2<bool>, path: seq<Pos>)
      reads visited
      requires visited.Length0 == height && visited.Length1 == width
    {
      && (forall k | 0 <= k < |path| :: InB(path[k]))
      && (forall k, l | 0 <= k < l < |path| :: path[k] != path[l])
      && (forall r, c | 0 <= r < height && 0 <= c < width :: visited[r, c] <==> Pos(r, c) in path)
    }

    /**
     * A path from the first cell to the second that is strictly longer than
     * a shortest one, found by a depth-first search that never revisits a
     * cell; None when a cell is missing or off the board, when the second
     * cannot be reached, or when the search finds no such path.
     */
    method FindLongerPath(startCell: Option<Pos>, endCell: Option<Pos>) returns (r: Option<seq<Pos>>)
      requires Shaped()
      ensures r.Some? ==> startCell.Some? && endCell.Some? && InB(startCell.value) && InB(endCell.value)
      ensures r.Some? ==> WalkFromTo(Moves(), r.value, startCell.value, endCell.value)
      ensures r.Some? ==> |r.value| > ShortestDistance(Moves(), startCell.value, endCell.value) + 1
      ensures r.Some? ==> |r.value| <= height * width / 2 + ShortestDistance(Moves(), startCell.value, endCell.value) + 2
      ensures r.Some? ==> forall k, l | 0 <= k < l < |r.value| :: r.value[k] != r.value[l]
      ensures r.None? && startCell.Some? && endCell.Some? && InB(startCell.value) && InB(endCell.value) ==>
        var d := ShortestDistance(Moves(), startCell.value, endCell.value);
        forall w | Continues(Moves(), [], startCell.value, endCell.value, w) :: !(d + 1 < |w| <= height * width / 2 + d + 2)
    {
      if startCell.None? || endCell.None? {
        return None;
      }
      var s, e := startCell.value, endCell.value;
      if !IsValidPosition(s.row, s.col) || !IsValidPosition(e.row, e.col) {
        return None;
      }
      var optimal := FindOptimalPath(s, e);
      if optimal == [] {
        forall w | Continues(Moves(), [], s, e, w)
          ensures false
        {
          assert WalkFromTo(Moves(), w, s, e);
        }
        return None;
      }
      var visited := new bool[height, width]((r, c) => false);
      ghost var E := Moves();
      var found, path := Dfs(s, e, [], visited, |optimal|, E);
      if found {
        return Some(path);
      }
      assert Moves() == E;
      return None;
    }

    /**
     * Extends `path` through `current` by a depth-first search for `end`
     * that stops once the path is longer than `minRequired`, and gives up
     * beyond height * width / 2 + minRequired cells. On failure the path and
     * the marks are as they were.
     */
    method Dfs(current: Pos, end: Pos, path: seq<Pos>, visited: array2<bool>, minRequired: int, ghost E: Edges)
      returns (found: bool, result: seq<Pos>)
      requires Shaped() && MovesAre(E) && visited.Length0 == height && visited.Length1 == width
      requires InB(current) && !visited[current.row, current.col] && Marks(visited, path)
      requires path == [] || (IsWalk(E, path) && (path[|path| - 1], current) in E)
      modifies visited
      decreases height * width / 2 + minRequired + 1 - |path|, 1
      ensures found ==> |result| > |path| && result[..|path|] == path && result[|path|] == current
      ensures found ==> IsWalk(E, result) && result[|result| - 1] == end && Marks(visited, result)
      ensures found ==> minRequired < |result| <= height * width / 2 + minRequired + 1
      ensures !found ==> result == path
      ensures !found ==> forall r, c | 0 <= r < height && 0 <= c < width :: visited[r, c] == old(visited[r, c])
      ensures !found ==> forall w | Continues(E, path, current, end, w) ::
        !(minRequired < |w| <= height * width / 2 + minRequired + 1)
    {
      var maxDepth := height * width / 2 + minRequired;
      if |path| > maxDepth {
        return false, path;
      }
      result := Enter(current, path, visited, E);
      if current == end && |result| > minRequired {
        return true, result;
      }
      var ns := Neighbors(current.row, current.col);
      var deeper;
      found, deeper := Explore(ns, end, result, visited, minRequired, E);
      if found {
        return true, deeper;
      }
      NoneThrough(E, path, current, end, ns, minRequired, maxDepth + 1);
      Leave(current, path, visited);
      result := path;
    }

    /** Appends `current` to the path and marks it visited. */
    method Enter(current: Pos, path: seq<Pos>, visited: array2<bool>, ghost E: Edges) returns (result: seq<Pos>)
      requires Shaped() && visited.Length0 == height && visited.Length1 == width
      requires InB(current) && !visited[current.row, current.col] && Marks(visited, path)
      requires path == [] || (IsWalk(E, path) && (path[|path| - 1], current) in E)
      modifies visited
      ensures result == path + [current] && Marks(visited, result) && IsWalk(E, result)
      ensures forall r, c | 0 <= r < height && 0 <= c < width :: visited[r, c] == (Pos(r, c) == current || old(visited[r, c]))
    {
      visited[current.row, current.col] := true;
      result := path + [current];
      if path != [] {
        WalkExtend(E, path, current);
      }
    }

    /** Takes `current` back off the path: its mark is cleared. */
    method Leave(current: Pos, path: seq<Pos>, visited: array2<bool>)
      requires Shaped() && visited.Length0 == height && visited.Length1 == width
      requires InB(current) && Marks(visited, path + [current])
      modifies visited
      ensures Marks(visited, path)
      ensures forall r, c | 0 <= r < height && 0 <= c < width :: visited[r, c] == (Pos(r, c) != current && old(visited[r, c]))
    {
      visited[current.row, current.col] := false;
      assert forall k | 0 <= k < |path| :: path[k] == (path + [current])[k] != (path + [current])[|path|];
    }

    /**
     * Tries the neighbours `ns` of the last cell of `path` in order, each
     * one not yet visited, until one search succeeds.
     */
    method Explore(ns: seq<Pos>, end: Pos, path: seq<Pos>, visited: array2<bool>, minRequired: int, ghost E: Edges)
      returns (found: bool, result: seq<Pos>)
      requires Shaped() && MovesAre(E) && visited.Length0 == height && visited.Length1 == width
      requires Marks(visited, path) && IsWalk(E, path) && |path| <= height * width / 2 + minRequired + 1
      requires forall n | n in ns :: InB(n) && (path[|path| - 1], n) in E
      modifies visited
      decreases height * width / 2 + minRequired + 1 - |path|, 2
      ensures found ==> |result| > |path| && result[..|path|] == path
      ensures found ==> IsWalk(E, result) && result[|result| - 1] == end && Marks(visited, result)
      ensures found ==> minRequired < |result| <= height * width / 2 + minRequired + 1
      ensures !found ==> forall r, c | 0 <= r < height && 0 <= c < width :: visited[r, c] == old(visited[r, c])
      ensures !found ==> forall n, w | n in ns && Continues(E, path, n, end, w) ::
        !(minRequired < |w| <= height * width / 2 + minRequired + 1)
    {
      var k := 0;
      while k < |ns|
        invariant 0 <= k <= |ns| && Marks(visited, path)
        invariant forall r, c | 0 <= r < height && 0 <= c < width :: visited[r, c] == old(visited[r, c])
        invariant forall n, w | n in ns[..k] && Continues(E, path, n, end, w) ::
          !(minRequired < |w| <= height * width / 2 + minRequired + 1)
      {
        var n := ns[k];
        assert n in ns;
        if !visited[n.row, n.col] {
          found, result := Dfs(n, end, path, visited, minRequired, E);
          if found {
            return;
          }
        } else {
          RepeatsNone(E, path, n, end);
        }
        assert ns[..k + 1] == ns[..k] + [n];
        k := k + 1;
      }
      assert ns[..k] == ns;
      found, result := false, path;
    }

    /**
     * Builds a board and generates it until the exit can be reached from the
     * entrance, which lie on opposite sides. The wall percentage may have
     * been lowered on the way. The entrance does not exist before the first
     * generation; the model starts it at (0, 0) and draws it anew.
     */
    constructor (width: int, height: int, wallPercentage: int)
      requires width > 0 && height > 0 && 0 <= wallPercentage <= 100
      requires Placeable(width, height, wallPercentage)
      ensures this.width == width && this.height == height && Shaped()
      ensures Finished(wallPercentage) && Opposite()
      ensures 0 <= this.wallPercentage <= wallPercentage
      ensures fresh(grid)
    {
      this.width := width;
      this.height := height;
      this.wallPercentage := wallPercentage;
      grid := new CellType[height, width]((r, c) => PATH);
      start := Pos(0, 0);
      end := Pos(0, 0);
      new;
      GenerateMaze(true);
    }

    /**
     * The constructor with its argument checks: positive dimensions and a
     * percentage between 0 and 100.
     */
    static method Create(width: int, height: int, wallPercentage: int) returns (r: Result<RandomMaze>)
      requires width > 0 && height > 0 && 0 <= wallPercentage <= 100 ==> Placeable(width, height, wallPercentage)
      ensures r.Err? <==> width <= 0 || height <= 0 || wallPercentage < 0 || wallPercentage > 100
      ensures r.Ok? ==> fresh(r.value) && fresh(r.value.grid) && r.value.width == width && r.value.height == height
      ensures r.Ok? ==> r.value.Shaped() && r.value.Finished(wallPercentage) && r.value.Opposite()
    {
      if width <= 0 || height <= 0 {
        return Err("Largeur et hauteur doivent être > 0");
      }
      if wallPercentage < 0 || wallPercentage > 100 {
        return Err("Le pourcentage de murs doit être entre 0 et 100");
      }
      var m := new RandomMaze(width, height, wallPercentage);
      r := Ok(m);
    }

    /** The wall percentage is set without any check. */
    method SetWallPercentage(p: int)
      modifies this`wallPercentage
      ensures wallPercentage == p
    {
      wallPercentage := p;
    }

    /** The entrance is set without any check. */
    method SetStart(p: Pos)
      modifies this
      ensures start == p && end == old(end) && wallPercentage == old(wallPercentage)
    {
      start := p;
    }
  }

  /**
   * A walk the depth-first search from `current` may report: it carries on
   * `path` through `current`, never repeats a cell, and ends at `end`.
   */
  ghost predicate Continues(E: Edges, path: seq<Pos>, current: Pos, end: Pos, w: seq<Pos>) {
    && |w| > |path| && w[..|path|] == path && w[|path|] == current
    && IsWalk(E, w) && w[|w| - 1] == end
    && forall k, l | 0 <= k < l < |w| :: w[k] != w[l]
  }

  /** A cell already on the path cannot carry it on without a repeat. */
  lemma RepeatsNone(E: Edges, path: seq<Pos>, n: Pos, end: Pos)
    requires n in path
    ensures forall w :: !Continues(E, path, n, end, w)
  {
  }

  /**
   * When no walk of a length in (minRequired, bound] continues the path
   * through any successor `ns` of `current`, and `current` is not itself an
   * exit of such a length, no such walk continues the path through
   * `current`.
   */
  lemma NoneThrough(E: Edges, path: seq<Pos>, current: Pos, end: Pos, ns: seq<Pos>, minRequired: int, bound: int)
    requires forall n :: (current, n) in E ==> n in ns
    requires current == end ==> |path| + 1 <= minRequired
    requires forall n, w | n in ns && Continues(E, path + [current], n, end, w) :: !(minRequired < |w| <= bound)
    ensures forall w | Continues(E, path, current, end, w) :: !(minRequired < |w| <= bound)
  {
    forall w | Continues(E, path, current, end, w) && minRequired < |w| <= bound
      ensures false
    {
      if |w| > |path| + 1 {
        var n := w[|path| + 1];
        assert (w[|path|], w[|path| + 1]) in E;
        assert w[..|path| + 1] == path + [current];
        assert Continues(E, path + [current], n, end, w);
      }
    }
  }
}

/**
 * The fuel mode: every move burns one unit of fuel, and stepping on a fuel
 * can fills the tank again. The cans are planned along a shortest walk from
 * the entrance to the exit (one per tank of steps, at regular intervals,
 * backfilled next to the walk when the intervals give too few, and one more
 * near the exit when the last can is too far from it); a few more are then
 * scattered at random over the free cells.
 */
module FuelModes {
  import opened Grid
  import opened Results
  import opened Graph
  import opened Mazes
  import opened Directions

  /**
   * The number of cans planned for a shortest walk of `minPathLength` steps
   * and `pathSize` cells: one per full tank, rounded up, at least one, but
   * no more than half the cells of the walk (see CanCountCovers).
   */
  function CanCount(minPathLength: int, maxFuel: int, pathSize: int): (n: int)
    requires minPathLength >= 0 && maxFuel > 0
    ensures n <= pathSize / 2
  {
    var tanks := (minPathLength + maxFuel - 1) / maxFuel;
    Min(if tanks <= 0 then 1 else tanks, pathSize / 2)
  }

  /** Unless the cap of half the walk bites, CanCount tanks cover the walk and one fewer does not. */
  lemma CanCountCovers(minPathLength: int, maxFuel: int, pathSize: int)
    requires minPathLength >= 0 && maxFuel > 0
    ensures var n := CanCount(minPathLength, maxFuel, pathSize);
      n == pathSize / 2 || (n - 1) * maxFuel < Max(minPathLength, 1) <= n * maxFuel
  {
    CeilingDivision(minPathLength, maxFuel);
  }

  /** Integer division rounded up: the tanks of `length` steps. */
  lemma CeilingDivision(length: int, maxFuel: int)
    requires length >= 0 && maxFuel > 0
    ensures var tanks := (length + maxFuel - 1) / maxFuel;
      tanks >= 0 && (tanks - 1) * maxFuel < length <= tanks * maxFuel
  {
    var tanks := (length + maxFuel - 1) / maxFuel;
    var rest := (length + maxFuel - 1) % maxFuel;
    assert tanks * maxFuel + rest == length + maxFuel - 1;
    assert (tanks - 1) * maxFuel == tanks * maxFuel - maxFuel;
  }

  /** The spacing of `k` slots over a walk of `pathSize` cells: its size over `k + 1`, at least 1. */
  function Interval(k: nat, pathSize: int): (interval: int)
    ensures interval >= 1
  {
    Max(1, pathSize / (k + 1))
  }

  /** The walk index of the `i`-th interval slot: `i` intervals in, but never past the exit. */
  function SlotIndex(i: int, interval: int, pathSize: int): int {
    Min(i * interval, pathSize - 1)
  }

  /**
   * The cans of the first `i` interval slots: the walk's cell at each slot,
   * except the entrance and the exit.
   */
  function IntervalPicks(path: seq<Pos>, interval: int, i: nat, start: Pos, end: Pos): seq<Pos>
    requires interval >= 1 && |path| > 0
    decreases i
  {
    if i == 0 then []
    else
      var p := path[SlotIndex(i, interval, |path|)];
      IntervalPicks(path, interval, i - 1, start, end) + if p != start && p != end then [p] else []
  }

  /** At most one can per slot, each the walk's cell at its slot, and never the entrance or the exit. */
  lemma {:induction false} IntervalPicksOnPath(path: seq<Pos>, interval: int, i: nat, start: Pos, end: Pos)
    requires interval >= 1 && |path| > 0
    ensures |IntervalPicks(path, interval, i, start, end)| <= i
    ensures forall x | x in IntervalPicks(path, interval, i, start, end) :: x in path && x != start && x != end
    decreases i
  {
    if i > 0 {
      IntervalPicksOnPath(path, interval, i - 1, start, end);
    }
  }

  /** A cell a can may occupy: on the board, and in a random maze no wall. */
  ghost predicate Usable(m: Maze, p: Pos)
    reads m.Repr()
    requires m.Valid()
  {
    m.InB(p) && (m.RandomM? ==> m.Board()[p.row, p.col] != WALL)
  }

  /** Every cell of a walk after the first is usable: a move never enters a wall or leaves the board. */
  lemma WalkCellsUsable(m: Maze, path: seq<Pos>)
    requires m.Valid() && IsWalk(m.Moves(), path)
    ensures forall i | 0 < i < |path| :: Usable(m, path[i])
  {
    forall i | 0 < i < |path|
      ensures Usable(m, path[i])
    {
      assert (path[i - 1], path[i]) in m.Moves();
    }
  }

  /** The walk starts at the entrance, and every later cell of it is usable. */
  ghost predicate Departs(m: Maze, path: seq<Pos>)
    reads m.Repr()
    requires m.Valid()
  {
    path != [] ==> path[0] == m.Start() && forall i | 0 < i < |path| :: Usable(m, path[i])
  }

  /**
   * A backfilled can: usable, neither the entrance nor the exit, not chosen
   * `before`, and next to a cell of the walk.
   */
  ghost predicate Backfill(m: Maze, path: seq<Pos>, before: seq<Pos>, x: Pos)
    reads m.Repr()
    requires m.Valid()
  {
    && Usable(m, x) && x != m.Start() && x != m.End() && x !in before
    && exists j :: 0 <= j < |path| && Adjacent(path[j], x)
  }

  /** Every usable neighbour of the walk is taken: a can, the entrance or the exit. */
  ghost predicate Saturated(m: Maze, path: seq<Pos>, cans: seq<Pos>)
    reads m.Repr()
    requires m.Valid()
  {
    forall j, d | 0 <= j < |path| && Usable(m, Step(d, path[j])) ::
      Step(d, path[j]) in cans || Step(d, path[j]) == m.Start() || Step(d, path[j]) == m.End()
  }

  /**
   * Backfill around one cell of the walk, direction by direction, while cans
   * are still needed. `used` holds the cans so far, the entrance and the exit.
   */
  method FillAround(m: Maze, path: seq<Pos>, j: int, cans: seq<Pos>, used: set<Pos>, needed: int)
    returns (cans': seq<Pos>, used': set<Pos>, needed': int)
    requires m.Valid() && 0 <= j < |path| && needed > 0
    requires forall x :: x in used <==> x in cans || x == m.Start() || x == m.End()
    ensures 0 <= needed' <= needed
    ensures |cans'| == |cans| + (needed - needed') && cans'[..|cans|] == cans
    ensures forall x :: x in used' <==> x in cans' || x == m.Start() || x == m.End()
    ensures forall i | |cans| <= i < |cans'| :: Backfill(m, path, cans'[..i], cans'[i])
    ensures needed' > 0 ==> forall d | Usable(m, Step(d, path[j])) :: Step(d, path[j]) in used'
  {
    cans', used', needed' := cans, used, needed;
    var dirs := AllDirections();
    var pathCell := path[j];
    var k := 0;
    while k < |dirs| && needed' > 0
      invariant 0 <= k <= |dirs| && 0 <= needed' <= needed
      invariant |cans'| == |cans| + (needed - needed') && cans'[..|cans|] == cans
      invariant forall x :: x in used' <==> x in cans' || x == m.Start() || x == m.End()
      invariant forall i | |cans| <= i < |cans'| :: Backfill(m, path, cans'[..i], cans'[i])
      invariant needed' > 0 ==> forall e | e in dirs[..k] && Usable(m, Step(e, pathCell)) :: Step(e, pathCell) in used'
    {
      var neighbor := Step(dirs[k], pathCell);
      if m.InB(neighbor) && neighbor !in used' {
        var free := if m.RandomM? then !m.random.IsWall(neighbor.row, neighbor.col) else true;
        if free {
          assert Backfill(m, path, cans', neighbor);
          assert forall i | 0 <= i < |cans'| :: (cans' + [neighbor])[..i] == cans'[..i];
          cans' := cans' + [neighbor];
          used' := used' + {neighbor};
          needed' := needed' - 1;
        }
      }
      k := k + 1;
    }
    if needed' > 0 {
      assert dirs[..k] == dirs;
      assert forall d :: d in dirs;
    }
  }

  /**
   * Backfill: walking the path in order, takes the free neighbours of its
   * cells as extra cans until `needed` more are chosen or the walk is
   * exhausted.
   */
  method AddAdditionalFuelCans(m: Maze, cans: seq<Pos>, needed: int, path: seq<Pos>) returns (cans': seq<Pos>)
    requires m.Valid()
    ensures |cans| <= |cans'| <= |cans| + Max(needed, 0) && cans'[..|cans|] == cans
    ensures forall i | |cans| <= i < |cans'| :: Backfill(m, path, cans'[..i], cans'[i])
    ensures |cans'| < |cans| + needed ==> Saturated(m, path, cans')
  {
    var used := (set x | x in cans) + {m.Start(), m.End()};
    cans' := cans;
    var remaining := needed;
    var j := 0;
    while j < |path| && remaining > 0
      invariant 0 <= j <= |path|
      invariant remaining <= needed && (remaining < needed ==> remaining >= 0)
      invariant |cans'| == |cans| + (needed - remaining) && cans'[..|cans|] == cans
      invariant forall x :: x in used <==> x in cans' || x == m.Start() || x == m.End()
      invariant forall i | |cans| <= i < |cans'| :: Backfill(m, path, cans'[..i], cans'[i])
      invariant remaining > 0 ==> forall jj, d | 0 <= jj < j && Usable(m, Step(d, path[jj])) :: Step(d, path[jj]) in used
    {
      ghost var before := cans';
      cans', used, remaining := FillAround(m, path, j, cans', used, remaining);
      assert forall i | |cans| <= i < |before| :: cans'[..i] == before[..i];
      assert cans'[..|cans|] == before[..|cans|];
      j := j + 1;
    }
  }

  /**
   * The interval plan: `k` slots, the count capped by the inner cells of the
   * walk, an interval of the walk's size over `k + 1` (at least 1), and the
   * backfill when the slots give fewer cans than asked. No can is the
   * entrance or the exit, and every can is usable.
   */
  method CalculateOptimalFuelPositions(m: Maze, numberOfCans: int, path: seq<Pos>) returns (cans: seq<Pos>)
    requires m.Valid() && Departs(m, path)
    ensures IntervalPlan(m, numberOfCans, path, cans)
  {
    if path == [] || numberOfCans <= 0 {
      return [];
    }
    var k := Min(numberOfCans, |path| - 2);
    if k <= 0 {
      return [];
    }
    var interval := Interval(k, |path|);
    var picks := PickAtIntervals(path, k, interval, m.Start(), m.End());
    PicksUsable(m, path, interval, k);
    IntervalPicksOnPath(path, interval, k, m.Start(), m.End());
    cans := TopUp(m, picks, numberOfCans, path);
  }

  /**
   * The interval plan of `numberOfCans` cans along `path`: none for no
   * count or a walk of two cells; otherwise the picks of `k` slots (the
   * count capped by the inner cells of the walk, spaced by Interval) in
   * slot order, followed by backfill, which takes every usable neighbour
   * of the walk when the plan falls short. At most `numberOfCans` cans,
   * each usable and neither the entrance nor the exit.
   */
  ghost predicate IntervalPlan(m: Maze, numberOfCans: int, path: seq<Pos>, cans: seq<Pos>)
    reads m.Repr()
    requires m.Valid()
  {
    && |cans| <= Max(numberOfCans, 0)
    && (forall x | x in cans :: Usable(m, x) && x != m.Start() && x != m.End())
    && (numberOfCans <= 0 || |path| <= 2 ==> cans == [])
    && (numberOfCans > 0 && |path| > 2 ==>
      var k := Min(numberOfCans, |path| - 2);
      var picks := IntervalPicks(path, Interval(k, |path|), k, m.Start(), m.End());
      && |picks| <= |cans| && cans[..|picks|] == picks
      && (forall i | |picks| <= i < |cans| :: Backfill(m, path, cans[..i], cans[i]))
      && (|cans| < numberOfCans ==> Saturated(m, path, cans)))
  }

  /** The backfill of the interval plan, when its slots gave fewer than `numberOfCans` cans. */
  method TopUp(m: Maze, picks: seq<Pos>, numberOfCans: int, path: seq<Pos>) returns (cans: seq<Pos>)
    requires m.Valid() && |picks| <= numberOfCans
    requires forall x | x in picks :: Usable(m, x) && x != m.Start() && x != m.End()
    ensures |picks| <= |cans| <= numberOfCans && cans[..|picks|] == picks
    ensures forall x | x in cans :: Usable(m, x) && x != m.Start() && x != m.End()
    ensures forall i | |picks| <= i < |cans| :: Backfill(m, path, cans[..i], cans[i])
    ensures |cans| < numberOfCans ==> Saturated(m, path, cans)
  {
    cans := picks;
    if |picks| < numberOfCans {
      cans := AddAdditionalFuelCans(m, picks, numberOfCans - |picks|, path);
      forall x | x in cans
        ensures Usable(m, x) && x != m.Start() && x != m.End()
      {
        var i :| 0 <= i < |cans| && cans[i] == x;
        if i < |picks| {
          assert x == cans[..|picks|][i] == picks[i];
          assert x in picks;
        } else {
          assert Backfill(m, path, cans[..i], cans[i]);
        }
      }
    }
  }

  /** The interval slots 1 to `k`, in order. */
  method PickAtIntervals(path: seq<Pos>, k: nat, interval: int, start: Pos, end: Pos) returns (picks: seq<Pos>)
    requires interval >= 1 && |path| > 0
    ensures picks == IntervalPicks(path, interval, k, start, end)
  {
    picks := [];
    var i := 1;
    while i <= k
      invariant 1 <= i <= k + 1
      invariant picks == IntervalPicks(path, interval, i - 1, start, end)
    {
      // i * interval is never negative, so the Java range check always passes
      var index := Min(i * interval, |path| - 1);
      var position := path[index];
      if position != start && position != end {
        picks := picks + [position];
      }
      i := i + 1;
    }
  }

  /** The interval cans of a walk from the entrance to the exit are usable and are neither. */
  lemma PicksUsable(m: Maze, path: seq<Pos>, interval: int, k: nat)
    requires m.Valid() && interval >= 1 && path != [] && Departs(m, path)
    ensures forall x | x in IntervalPicks(path, interval, k, m.Start(), m.End()) ::
      Usable(m, x) && x != m.Start() && x != m.End()
  {
    IntervalPicksOnPath(path, interval, k, m.Start(), m.End());
    forall x | x in IntervalPicks(path, interval, k, m.Start(), m.End())
      ensures Usable(m, x)
    {
      var j :| 0 <= j < |path| && x == path[j];
    }
  }

  /** The index of the first occurrence of `x` in `s`, -1 when there is none. */
  function IndexOf(s: seq<Pos>, x: Pos): (i: int)
    ensures -1 <= i < |s|
    ensures i == -1 <==> x !in s
    ensures i >= 0 ==> s[i] == x && x !in s[..i]
  {
    if s == [] then -1
    else if s[0] == x then 0
    else
      var j := IndexOf(s[1..], x);
      assert j >= 0 ==> s[..j + 1] == [s[0]] + s[1..][..j];
      if j == -1 then -1 else j + 1
  }

  /** The largest walk index of a can, -1 when no can lies on the walk. */
  function FurthestIndex(cans: seq<Pos>, path: seq<Pos>): (i: int)
    ensures -1 <= i < |path|
    ensures forall c | c in cans :: IndexOf(path, c) <= i
    ensures i == -1 || exists c | c in cans :: IndexOf(path, c) == i
  {
    if cans == [] then -1
    else
      var init := cans[..|cans| - 1];
      assert forall c | c in cans :: c in init || c == cans[|cans| - 1];
      assert forall c | c in init :: c in cans;
      assert cans[|cans| - 1] in cans;
      Max(FurthestIndex(init, path), IndexOf(path, cans[|cans| - 1]))
  }

  /** The furthest can on the walk, scanning the cans in order. */
  method FurthestOnPath(cans: seq<Pos>, path: seq<Pos>) returns (last: int)
    ensures last == FurthestIndex(cans, path)
  {
    last := -1;
    var i := 0;
    while i < |cans|
      invariant 0 <= i <= |cans|
      invariant last == FurthestIndex(cans[..i], path)
    {
      var idx := IndexOf(path, cans[i]);
      assert cans[..i + 1][..i] == cans[..i];
      if idx != -1 && idx > last {
        last := idx;
      }
      i := i + 1;
    }
    assert cans[..|cans|] == cans;
  }

  /** The walk index taken as the last can's: its own, or else the furthest can on the walk. */
  function LastFuelIndex(cans: seq<Pos>, path: seq<Pos>): int
    requires cans != []
  {
    var i := IndexOf(path, cans[|cans| - 1]);
    if i != -1 then i else FurthestIndex(cans, path)
  }

  /** The exit is more than a tank away from the last can on the walk. */
  predicate TooFarFromExit(cans: seq<Pos>, path: seq<Pos>, maxFuel: int) {
    cans != [] && path != [] && LastFuelIndex(cans, path) != -1 && |path| - 1 - LastFuelIndex(cans, path) > maxFuel
  }

  /** Where the extra can goes: just after the last can, but at least `maxFuel` cells before the end of the walk. */
  function NewCanIndex(last: int, pathSize: int, maxFuel: int): int {
    Min(Max(last + 1, pathSize - maxFuel), pathSize - 1)
  }

  /**
   * When the exit is too far, the extra can sits exactly `maxFuel - 1` steps
   * before the exit, strictly after the last can: a full tank from it
   * reaches the exit. Neither clamp of the index ever applies.
   */
  lemma NewCanReachesExit(last: int, pathSize: int, maxFuel: int)
    requires last >= 0 && maxFuel > 0 && pathSize - 1 - last > maxFuel
    ensures NewCanIndex(last, pathSize, maxFuel) == pathSize - maxFuel
    ensures last < NewCanIndex(last, pathSize, maxFuel) <= pathSize - 1
    ensures pathSize - 1 - NewCanIndex(last, pathSize, maxFuel) == maxFuel - 1
  {
  }

  /**
   * `cans'` is `cans` with at most one more can: the walk's cell at
   * NewCanIndex, added exactly when the exit is more than `maxFuel` steps
   * past the last can on the walk and that cell is neither the exit nor a
   * can already.
   */
  predicate EndCovered(end: Pos, cans: seq<Pos>, path: seq<Pos>, maxFuel: int, cans': seq<Pos>) {
    && |cans| <= |cans'| <= |cans| + 1 && cans'[..|cans|] == cans
    && (|cans'| == |cans| + 1 <==>
      && TooFarFromExit(cans, path, maxFuel)
      && 0 <= NewCanIndex(LastFuelIndex(cans, path), |path|, maxFuel) < |path|
      && path[NewCanIndex(LastFuelIndex(cans, path), |path|, maxFuel)] != end
      && path[NewCanIndex(LastFuelIndex(cans, path), |path|, maxFuel)] !in cans)
    && (|cans'| == |cans| + 1 ==> cans'[|cans|] == path[NewCanIndex(LastFuelIndex(cans, path), |path|, maxFuel)])
  }

  /**
   * Adds at most one can: when the exit is more than `maxFuel` steps past
   * the last can on the walk, the walk's cell at NewCanIndex, unless it is
   * the exit or already a can.
   */
  method EnsureReachableEnd(end: Pos, cans: seq<Pos>, path: seq<Pos>, maxFuel: int) returns (cans': seq<Pos>)
    ensures EndCovered(end, cans, path, maxFuel, cans')
  {
    cans' := cans;
    if cans == [] || path == [] {
      return;
    }
    var lastFuel := cans[|cans| - 1];
    var lastFuelIndex := IndexOf(path, lastFuel);
    if lastFuelIndex == -1 {
      lastFuelIndex := FurthestOnPath(cans, path);
      if lastFuelIndex == -1 {
        return;
      }
    }
    var distanceToEnd := |path| - 1 - lastFuelIndex;
    if distanceToEnd > maxFuel {
      var newFuelIndex := Max(lastFuelIndex + 1, |path| - maxFuel);
      newFuelIndex := Min(newFuelIndex, |path| - 1);
      if 0 <= newFuelIndex < |path| {
        var newFuelPosition := path[newFuelIndex];
        if newFuelPosition != end && newFuelPosition !in cans {
          cans' := cans + [newFuelPosition];
        }
      }
    }
  }

  /** The interval plan and the can EnsureReachableEnd adds to it are the plan as written. */
  lemma WrittenFrom(m: Maze, path: seq<Pos>, maxFuel: int, planned: seq<Pos>, cans: seq<Pos>)
    requires m.Valid() && maxFuel > 0 && path != []
    requires IntervalPlan(m, CanCount(|path| - 1, maxFuel, |path|), path, planned)
    requires EndCovered(m.End(), planned, path, maxFuel, cans)
    ensures WrittenPlan(m, path, maxFuel, cans)
  {
  }

  /** The cans of the plan as written: the IntervalPlan of CanCount cans, then EndCovered. */
  ghost predicate WrittenPlan(m: Maze, path: seq<Pos>, maxFuel: int, cans: seq<Pos>)
    reads m.Repr()
    requires m.Valid()
  {
    && path != [] && maxFuel > 0
    && exists planned ::
      IntervalPlan(m, CanCount(|path| - 1, maxFuel, |path|), path, planned) && EndCovered(m.End(), planned, path, maxFuel, cans)
  }

  /** The tank and the cans still on the board, as OnMove keeps them. */
  datatype Tank = Tank(fuel: int, cans: set<Pos>)

  /** One move onto `p`, as OnMove makes it: one unit burnt; a can on `p` fills the tank and is picked up. */
  function Burn(t: Tank, p: Pos, maxFuel: int): Tank {
    if p in t.cans then Tank(maxFuel, t.cans - {p}) else Tank(t.fuel - 1, t.cans)
  }

  /** The tank on reaching the walk's cell `i`, having set out from its first cell with `t`. */
  function Drive(path: seq<Pos>, t: Tank, maxFuel: int, i: nat): Tank
    requires i < |path|
  {
    if i == 0 then t else Burn(Drive(path, t, maxFuel, i - 1), path[i], maxFuel)
  }

  /**
   * Following the walk from a full tank, with the cans `cans` on the board,
   * fuel is left on reaching every cell after the first: the game (lost as
   * soon as the tank is empty) is lost neither on the way nor at the exit.
   */
  ghost predicate Survives(path: seq<Pos>, maxFuel: int, cans: set<Pos>) {
    forall i | 0 < i < |path| :: Drive(path, Tank(maxFuel, cans), maxFuel, i).fuel > 0
  }

  /**
   * The last refill on the walk up to its cell `i`: the largest index at
   * most `i` whose cell holds a can, or 0, the entrance, where the tank is full.
   */
  function LastStop(path: seq<Pos>, cans: set<Pos>, i: nat): (s: nat)
    requires i < |path|
    ensures s <= i && (s == 0 || path[s] in cans)
    ensures forall k | s < k <= i :: path[k] !in cans
  {
    if i == 0 || path[i] in cans then i else LastStop(path, cans, i - 1)
  }

  /** The refill that the three facts of LastStop describe is the only one. */
  lemma LastStopIs(path: seq<Pos>, cans: set<Pos>, i: nat, a: nat)
    requires i < |path| && a <= i && (a == 0 || path[a] in cans)
    requires forall k | a < k <= i :: path[k] !in cans
    ensures LastStop(path, cans, i) == a
  {
    var s := LastStop(path, cans, i);
    assert s <= a;
  }

  /** More cans never push the last refill back. */
  lemma LastStopMono(path: seq<Pos>, cans: set<Pos>, more: set<Pos>, i: nat)
    requires i < |path| && cans <= more
    ensures LastStop(path, cans, i) <= LastStop(path, more, i)
  {
    var s, t := LastStop(path, cans, i), LastStop(path, more, i);
  }

  /** Every cell of the walk after the first lies fewer than `maxFuel` steps past the last refill. */
  ghost predicate Spaced(path: seq<Pos>, cans: set<Pos>, maxFuel: int) {
    forall i | 0 < i < |path| :: i - LastStop(path, cans, i) < maxFuel
  }

  /**
   * On a walk that never comes back to a cell, the tank on reaching a cell
   * is a full one less the steps since the last refill, and the cans ahead
   * are all still there.
   */
  lemma {:induction false} DriveTank(path: seq<Pos>, cans: set<Pos>, maxFuel: int, i: nat)
    requires i < |path| && Distinct(path)
    ensures Drive(path, Tank(maxFuel, cans), maxFuel, i).fuel == maxFuel - (i - LastStop(path, cans, i))
    ensures Drive(path, Tank(maxFuel, cans), maxFuel, i).cans <= cans
    ensures forall k | i < k < |path| && path[k] in cans :: path[k] in Drive(path, Tank(maxFuel, cans), maxFuel, i).cans
  {
    if i > 0 {
      DriveTank(path, cans, maxFuel, i - 1);
      assert forall k | i < k < |path| :: path[k] != path[i];
    }
  }

  /** On a walk that never comes back to a cell, the tank lasts exactly when the cans are Spaced. */
  lemma SpacedIffSurvives(path: seq<Pos>, cans: set<Pos>, maxFuel: int)
    requires Distinct(path)
    ensures Spaced(path, cans, maxFuel) <==> Survives(path, maxFuel, cans)
  {
    forall i | 0 < i < |path|
      ensures Drive(path, Tank(maxFuel, cans), maxFuel, i).fuel == maxFuel - (i - LastStop(path, cans, i))
    {
      DriveTank(path, cans, maxFuel, i);
    }
  }

  /**
   * Spaced cans, refill by refill: from the entrance or a can to the next
   * can on the walk there are at most `maxFuel` steps, and from the last
   * refill to the end of the walk fewer than `maxFuel`.
   */
  lemma StopsApart(path: seq<Pos>, cans: set<Pos>, maxFuel: int, a: nat, b: nat)
    requires Spaced(path, cans, maxFuel) && maxFuel > 0
    requires a < b < |path| && (a == 0 || path[a] in cans) && path[b] in cans
    requires forall k | a < k < b :: path[k] !in cans
    ensures b - a <= maxFuel
    ensures |path| - 1 - LastStop(path, cans, |path| - 1) < maxFuel
  {
    LastStopIs(path, cans, b - 1, a);
    if b - 1 > 0 {
      assert b - 1 - LastStop(path, cans, b - 1) < maxFuel;
    }
    assert |path| - 1 > 0;
  }

  /** Extra cans keep a walk Spaced. */
  lemma SpacedMore(path: seq<Pos>, cans: set<Pos>, more: set<Pos>, maxFuel: int)
    requires Spaced(path, cans, maxFuel) && cans <= more
    ensures Spaced(path, more, maxFuel)
  {
    forall i | 0 < i < |path|
      ensures i - LastStop(path, more, i) < maxFuel
    {
      LastStopMono(path, cans, more, i);
    }
  }

  /** `x` is a cell of the walk other than its first and its last. */
  ghost predicate InnerCell(path: seq<Pos>, x: Pos) {
    exists k | 0 < k < |path| - 1 :: x == path[k]
  }

  /**
   * `cans'` is `cans` followed by cans on inner cells of the walk, enough
   * for the whole walk to be Spaced, and at most one per `maxFuel - 1` steps.
   */
  ghost predicate GapsFilled(path: seq<Pos>, maxFuel: int, cans: seq<Pos>, cans': seq<Pos>) {
    && |cans| <= |cans'| && cans'[..|cans|] == cans
    && (forall i | |cans| <= i < |cans'| :: InnerCell(path, cans'[i]))
    && Spaced(path, Elements(cans'), maxFuel)
    && (|cans'| - |cans|) * (maxFuel - 1) <= Max(|path| - 1, 0)
  }

  /**
   * The end of the plan, corrected: follows the walk from the entrance and,
   * whenever the tank filled at the last refill would be empty on reaching
   * the next cell, drops a can on the cell before it.
   */
  method FillGaps(cans: seq<Pos>, path: seq<Pos>, maxFuel: int) returns (cans': seq<Pos>)
    requires maxFuel > 1
    ensures GapsFilled(path, maxFuel, cans, cans')
  {
    cans' := cans;
    if path == [] {
      return;
    }
    var last := 0;
    var j := 1;
    while j < |path|
      invariant 1 <= j <= |path| && Filling(path, maxFuel, cans, cans', j, last)
    {
      cans', last := FillStep(path, maxFuel, cans, cans', j, last);
      j := j + 1;
    }
    FilledAtEnd(path, maxFuel, cans, cans', last);
  }

  /** FillGaps once it has looked at the whole walk. */
  lemma FilledAtEnd(path: seq<Pos>, maxFuel: int, cans: seq<Pos>, cans': seq<Pos>, last: int)
    requires maxFuel > 1 && path != [] && Filling(path, maxFuel, cans, cans', |path|, last)
    ensures GapsFilled(path, maxFuel, cans, cans')
  {
    assert last <= LastStop(path, Elements(cans'), |path| - 1) <= |path| - 1;
  }

  /**
   * FillGaps has looked at the walk up to its cell `j - 1`: `cans'` is
   * `cans` followed by inner cells of the walk, at most one per
   * `maxFuel - 1` steps up to `last`, a refill no later than the last one,
   * which is less than a tank behind; every cell looked at lies fewer than
   * `maxFuel` steps past its last refill.
   */
  ghost predicate Filling(path: seq<Pos>, maxFuel: int, cans: seq<Pos>, cans': seq<Pos>, j: int, last: int)
    requires 0 < j <= |path|
  {
    && |cans| <= |cans'| && cans'[..|cans|] == cans
    && (forall i | |cans| <= i < |cans'| :: InnerCell(path, cans'[i]))
    && 0 <= last <= LastStop(path, Elements(cans'), j - 1) && j - 1 - last < maxFuel
    && (|cans'| - |cans|) * (maxFuel - 1) <= last
    && forall k | 0 < k < j :: k - LastStop(path, Elements(cans'), k) < maxFuel
  }

  /** FillGaps at the walk's cell `j`: a can there is a refill; a tank that would be empty there gets a can one cell earlier. */
  method FillStep(path: seq<Pos>, maxFuel: int, cans: seq<Pos>, cans': seq<Pos>, j: int, last: int)
    returns (cans'': seq<Pos>, last': int)
    requires maxFuel > 1 && 0 < j < |path| && Filling(path, maxFuel, cans, cans', j, last)
    ensures Filling(path, maxFuel, cans, cans'', j + 1, last')
  {
    cans'', last' := cans', last;
    if path[j] in cans' {
      last' := j;
      FillingAtCan(path, maxFuel, cans, cans', j, last);
    } else if j - last == maxFuel {
      cans'' := Refill(cans', path, j, maxFuel, last);
      last' := j - 1;
      FillingRefilled(path, maxFuel, cans, cans', cans'', j, last);
    } else {
      FillingOnward(path, maxFuel, cans, cans', j, last);
    }
  }

  /** A can already on the walk's cell `j` is the new last refill. */
  lemma FillingAtCan(path: seq<Pos>, maxFuel: int, cans: seq<Pos>, cans': seq<Pos>, j: int, last: int)
    requires maxFuel > 1 && 0 < j < |path| && Filling(path, maxFuel, cans, cans', j, last) && path[j] in cans'
    ensures Filling(path, maxFuel, cans, cans', j + 1, j)
  {
    assert LastStop(path, Elements(cans'), j) == j;
  }

  /** A cell without a can that the tank still reaches changes nothing. */
  lemma FillingOnward(path: seq<Pos>, maxFuel: int, cans: seq<Pos>, cans': seq<Pos>, j: int, last: int)
    requires maxFuel > 1 && 0 < j < |path| && Filling(path, maxFuel, cans, cans', j, last)
    requires path[j] !in cans' && j - last != maxFuel
    ensures Filling(path, maxFuel, cans, cans', j + 1, last)
  {
    assert LastStop(path, Elements(cans'), j) == LastStop(path, Elements(cans'), j - 1);
  }

  /** The can Refill drops on the walk's cell `j - 1` is the new last refill. */
  lemma FillingRefilled(path: seq<Pos>, maxFuel: int, cans: seq<Pos>, cans': seq<Pos>, cans'': seq<Pos>, j: int, last: int)
    requires maxFuel > 1 && 0 < j < |path| && Filling(path, maxFuel, cans, cans', j, last) && j - last == maxFuel
    requires cans'' == cans' + [path[j - 1]] && 0 < j - 1 < |path| - 1
    requires LastStop(path, Elements(cans''), j) >= j - 1
    requires forall k | 0 < k <= j :: k - LastStop(path, Elements(cans''), k) < maxFuel
    ensures Filling(path, maxFuel, cans, cans'', j + 1, j - 1)
  {
    assert (|cans''| - |cans|) * (maxFuel - 1) == (|cans'| - |cans|) * (maxFuel - 1) + (maxFuel - 1);
    assert cans''[..|cans|] == cans'[..|cans|];
    assert cans''[|cans'|] == path[j - 1];
  }

  /** One can of FillGaps: on the walk's cell `j - 1`, the last one a tank filled at `last` reaches with fuel left. */
  method Refill(cans: seq<Pos>, path: seq<Pos>, j: int, maxFuel: int, last: int) returns (cans': seq<Pos>)
    requires maxFuel > 1 && 0 < j < |path| && path[j] !in cans && j - last == maxFuel
    requires 0 <= last <= LastStop(path, Elements(cans), j - 1)
    requires forall k | 0 < k < j :: k - LastStop(path, Elements(cans), k) < maxFuel
    ensures cans' == cans + [path[j - 1]] && 0 < j - 1 < |path| - 1
    ensures LastStop(path, Elements(cans'), j) >= j - 1
    ensures forall k | 0 < k <= j :: k - LastStop(path, Elements(cans'), k) < maxFuel
  {
    cans' := cans + [path[j - 1]];
    assert Elements(cans') == Elements(cans) + {path[j - 1]};
    assert LastStop(path, Elements(cans'), j - 1) == j - 1;
    forall k | 0 < k < j
      ensures k - LastStop(path, Elements(cans'), k) < maxFuel
    {
      LastStopMono(path, Elements(cans), Elements(cans'), k);
    }
  }

  /**
   * The planned cans of a maze: a shortest walk from the entrance to the
   * exit, CanCount cans at intervals along it with backfill, and the one
   * can EnsureReachableEnd may add. None when the exit is out of reach. Every can is usable,
   * none is the entrance or the exit.
   */
  method PlanCans(m: Maze, maxFuel: int) returns (found: bool, cans: seq<Pos>, ghost path: seq<Pos>)
    requires m.Valid() && maxFuel > 1
    ensures old(Planned(m, maxFuel, found, cans, path))
  {
    var optimalPath := m.FindOptimalPath(m.Start(), m.End());
    path := optimalPath;
    if optimalPath == [] {
      found, cans := false, [];
    } else {
      found := true;
      cans := PlanOnWalk(m, optimalPath, maxFuel);
    }
    PlannedFramed(m, maxFuel, found, cans, path);
  }

  /**
   * What PlanCans finds: `found` exactly when the exit can be reached, and
   * then the cans planned along the shortest walk `path`, at most PlanBound
   * of them; none otherwise. Every can is usable and neither the entrance
   * nor the exit.
   */
  ghost predicate Planned(m: Maze, maxFuel: int, found: bool, cans: seq<Pos>, path: seq<Pos>)
    reads m.Repr()
    requires m.Valid() && maxFuel > 1
  {
    && (found <==> Reachable(m.Moves(), m.Start(), m.End()))
    && (forall x | x in cans :: Usable(m, x) && x != m.Start() && x != m.End())
    && (!found ==> cans == [])
    && (found ==> ShortestRoute(m, path) && WrittenPlan(m, path, maxFuel, cans) && |cans| <= PlanBound(m, maxFuel))
  }

  /** What PlanCans finds depends only on the maze's objects. */
  twostate lemma PlannedFramed(m: Maze, new maxFuel: int, new found: bool, new cans: seq<Pos>, new path: seq<Pos>)
    requires old(m.Valid()) && maxFuel > 1 && unchanged(m.Repr()) && Planned(m, maxFuel, found, cans, path)
    ensures old(Planned(m, maxFuel, found, cans, path))
  {
  }

  /** A shortest walk of a maze from its entrance to its exit. */
  ghost predicate ShortestRoute(m: Maze, path: seq<Pos>)
    reads m.Repr()
    requires m.Valid()
  {
    WalkFromTo(m.Moves(), path, m.Start(), m.End()) && |path| == ShortestDistance(m.Moves(), m.Start(), m.End()) + 1
  }

  /**
   * The cans planned along the walk `path`: the interval plan of CanCount
   * cans for a walk of that length, then the cans of FillGaps.
   */
  ghost predicate FuelPlan(m: Maze, path: seq<Pos>, maxFuel: int, cans: seq<Pos>)
    reads m.Repr()
    requires m.Valid()
  {
    && path != [] && maxFuel > 1
    && exists planned ::
      IntervalPlan(m, CanCount(|path| - 1, maxFuel, |path|), path, planned) && GapsFilled(path, maxFuel, planned, cans)
  }

  /**
   * The promise of the fuel mode: a player who sets out from the entrance
   * with a full tank and follows the shortest walk the cans were planned
   * along never runs dry, neither on the way nor on reaching the exit,
   * with the planned cans alone or with any other cans besides.
   */
  lemma PlanSurvives(m: Maze, path: seq<Pos>, maxFuel: int, cans: seq<Pos>, more: set<Pos>)
    requires m.Valid() && ShortestRoute(m, path) && FuelPlan(m, path, maxFuel, cans)
    ensures Survives(path, maxFuel, Elements(cans) + more)
  {
    ShortestWalkRepeatFree(m.Moves(), path, m.Start(), m.End());
    var planned :| IntervalPlan(m, CanCount(|path| - 1, maxFuel, |path|), path, planned) && GapsFilled(path, maxFuel, planned, cans);
    SpacedMore(path, Elements(cans), Elements(cans) + more, maxFuel);
    SpacedIffSurvives(path, Elements(cans) + more, maxFuel);
  }

  /**
   * On a repeat-free walk from the entrance to the exit, slots that stay
   * inside the walk each give a can: the `t`-th pick is the walk's cell
   * `t + 1` intervals in.
   */
  lemma {:induction false} IntervalPicksInner(path: seq<Pos>, interval: int, i: nat, start: Pos, end: Pos)
    requires interval >= 1 && |path| > 0 && Distinct(path) && path[0] == start && path[|path| - 1] == end
    requires i * interval <= |path| - 2
    ensures |IntervalPicks(path, interval, i, start, end)| == i
    ensures forall t | 0 <= t < i :: IntervalPicks(path, interval, i, start, end)[t] == path[(t + 1) * interval]
    decreases i
  {
    if i > 0 {
      assert (i - 1) * interval == i * interval - interval;
      IntervalPicksInner(path, interval, i - 1, start, end);
      assert SlotIndex(i, interval, |path|) == i * interval;
      assert path[i * interval] != start && path[i * interval] != end;
    }
  }

  /**
   * The plan as written, on a shortest walk whose interval slots all fall
   * inside it: the cans are the walk's cells 1, 2, ..., n intervals in,
   * then one more exactly when the exit lies more than a tank past the last
   * of them, on the walk's cell at NewCanIndex.
   */
  lemma WrittenOnInnerSlots(m: Maze, path: seq<Pos>, maxFuel: int, cans: seq<Pos>, n: int, iv: int, last: int)
    requires m.Valid() && maxFuel > 1 && ShortestRoute(m, path) && WrittenPlan(m, path, maxFuel, cans)
    requires n == CanCount(|path| - 1, maxFuel, |path|) && iv == Interval(n, |path|)
    requires 1 <= n && last == n * iv && last <= |path| - 2
    ensures n <= |cans| <= n + 1 && cans[..n] == IntervalPicks(path, iv, n, m.Start(), m.End())
    ensures |cans| == n + 1 <==> |path| - 1 - last > maxFuel
    ensures |cans| == n + 1 ==>
      0 <= NewCanIndex(last, |path|, maxFuel) < |path| && cans[n] == path[NewCanIndex(last, |path|, maxFuel)]
  {
    ShortestWalkRepeatFree(m.Moves(), path, m.Start(), m.End());
    var planned :| IntervalPlan(m, n, path, planned) && EndCovered(m.End(), planned, path, maxFuel, cans);
    MulAtLeast(n, iv);
    IntervalPicksInner(path, iv, n, m.Start(), m.End());
    PlanIsPicks(m, n, path, planned, iv);
    PicksUpTo(path, planned, n, iv);
    PicksThenEnd(path, planned, cans, maxFuel, last, m.End());
  }

  /** Picks one interval apart all lie on the walk up to the last of them. */
  lemma PicksUpTo(path: seq<Pos>, planned: seq<Pos>, n: int, iv: int)
    requires iv >= 1 && 1 <= n && n * iv <= |path| - 2 && |planned| == n
    requires forall t | 0 <= t < n :: planned[t] == path[(t + 1) * iv]
    ensures planned[n - 1] == path[n * iv]
    ensures forall t | 0 <= t < n :: planned[t] in path[..n * iv + 1]
  {
    forall t | 0 <= t < n
      ensures planned[t] in path[..n * iv + 1]
    {
      MulMono(t + 1, n, iv);
      assert planned[t] == path[..n * iv + 1][(t + 1) * iv];
    }
  }

  /**
   * EnsureReachableEnd after picks that all lie on the walk up to its cell
   * `last`, the last pick being that cell: the picks are kept, and one can
   * follows exactly when the exit is more than a tank further, on the
   * walk's cell at NewCanIndex.
   */
  lemma PicksThenEnd(path: seq<Pos>, planned: seq<Pos>, cans: seq<Pos>, maxFuel: int, last: int, end: Pos)
    requires Distinct(path) && 0 < last <= |path| - 2 && path[|path| - 1] == end && maxFuel > 1
    requires planned != [] && planned[|planned| - 1] == path[last]
    requires forall t | 0 <= t < |planned| :: planned[t] in path[..last + 1]
    requires EndCovered(end, planned, path, maxFuel, cans)
    ensures |planned| <= |cans| <= |planned| + 1 && cans[..|planned|] == planned
    ensures |cans| == |planned| + 1 <==> |path| - 1 - last > maxFuel
    ensures |cans| == |planned| + 1 ==>
      0 <= NewCanIndex(last, |path|, maxFuel) < |path| && cans[|planned|] == path[NewCanIndex(last, |path|, maxFuel)]
  {
    assert IndexOf(path, path[last]) == last;
    var idx := NewCanIndex(last, |path|, maxFuel);
    if |path| - 1 - last > maxFuel {
      forall t | 0 <= t < |planned|
        ensures planned[t] != path[idx]
      {
        var j :| 0 <= j <= last && planned[t] == path[j];
      }
      assert path[idx] != end;
    }
  }

  /** An interval plan whose `n` slots all give a can is those cans alone, without backfill. */
  lemma PlanIsPicks(m: Maze, n: int, path: seq<Pos>, planned: seq<Pos>, iv: int)
    requires m.Valid() && IntervalPlan(m, n, path, planned)
    requires 1 <= n <= |path| - 2 && iv == Interval(n, |path|)
    requires |IntervalPicks(path, iv, n, m.Start(), m.End())| == n
    ensures planned == IntervalPicks(path, iv, n, m.Start(), m.End())
  {
  }

  /** A product with a positive factor is at least the other factor. */
  lemma MulAtLeast(n: int, iv: int)
    requires n >= 0 && iv >= 1
    ensures n <= n * iv
  {
  }

  lemma MulMono(a: int, b: int, c: int)
    requires a <= b && c >= 0
    ensures a * c <= b * c
  {
  }

  /**
   * As written, the plan can leave the player stranded: on a shortest walk
   * of 125 cells with a tank of 10, the interval cans lie on every 8th cell
   * up to the 104th, and the extra can of EnsureReachableEnd on the 115th,
   * 11 steps further. A player following the walk with those cans finds
   * the tank empty on reaching the 114th cell, ten steps before the exit.
   */
  lemma StrandedAsWritten(m: Maze, path: seq<Pos>, cans: seq<Pos>)
    requires m.Valid() && ShortestRoute(m, path) && |path| == 125 && WrittenPlan(m, path, 10, cans)
    ensures |cans| == 14 && cans[12] == path[104] && cans[13] == path[115]
    ensures forall k | 104 < k < 115 :: path[k] !in cans
    ensures Drive(path, Tank(10, Elements(cans)), 10, 114).fuel == 0
  {
    assert CanCount(124, 10, 125) == 13 && Interval(13, 125) == 8;
    WrittenOnInnerSlots(m, path, 10, cans, 13, 8, 104);
    assert NewCanIndex(104, 125, 10) == 115;
    ShortestWalkRepeatFree(m.Moves(), path, m.Start(), m.End());
    StrandedOnWalk(path, cans, m.Start(), m.End());
  }

  /** The cans of StrandedAsWritten, on any walk that does not repeat a cell. */
  lemma StrandedOnWalk(path: seq<Pos>, cans: seq<Pos>, start: Pos, end: Pos)
    requires Distinct(path) && |path| == 125 && path[0] == start && path[124] == end
    requires |cans| == 14 && cans[..13] == IntervalPicks(path, 8, 13, start, end) && cans[13] == path[115]
    ensures cans[12] == path[104]
    ensures forall k | 104 < k < 115 :: path[k] !in cans
    ensures Drive(path, Tank(10, Elements(cans)), 10, 114).fuel == 0
  {
    IntervalPicksInner(path, 8, 13, start, end);
    forall t | 0 <= t < 13
      ensures cans[t] == path[(t + 1) * 8]
    {
      assert cans[t] == cans[..13][t];
    }
    forall x | x in cans
      ensures forall k | 104 < k < 115 :: x != path[k]
    {
      var t :| 0 <= t < 14 && cans[t] == x;
      if t < 13 {
        assert x == path[(t + 1) * 8];
      }
    }
    assert cans[12] == path[104];
    LastStopIs(path, Elements(cans), 114, 104);
    DriveTank(path, Elements(cans), 10, 114);
  }

  /**
   * As written, a last can exactly a tank away from the exit gets no extra
   * can after it: on a shortest walk of 39 cells with a tank of 10, the
   * cans lie on the 7th, 14th, 21st and 28th cells, and the player reaches
   * the exit, ten steps after the last, with an empty tank, which loses
   * the game.
   */
  lemma EmptyAtExitAsWritten(m: Maze, path: seq<Pos>, cans: seq<Pos>)
    requires m.Valid() && ShortestRoute(m, path) && |path| == 39 && WrittenPlan(m, path, 10, cans)
    ensures cans == [path[7], path[14], path[21], path[28]]
    ensures Drive(path, Tank(10, Elements(cans)), 10, 38).fuel == 0
  {
    assert CanCount(38, 10, 39) == 4 && Interval(4, 39) == 7;
    WrittenOnInnerSlots(m, path, 10, cans, 4, 7, 28);
    ShortestWalkRepeatFree(m.Moves(), path, m.Start(), m.End());
    EmptyOnWalk(path, cans, m.Start(), m.End());
  }

  /** The cans of EmptyAtExitAsWritten, on any walk that does not repeat a cell. */
  lemma EmptyOnWalk(path: seq<Pos>, cans: seq<Pos>, start: Pos, end: Pos)
    requires Distinct(path) && |path| == 39 && path[0] == start && path[38] == end
    requires |cans| == 4 && cans[..4] == IntervalPicks(path, 7, 4, start, end)
    ensures cans == [path[7], path[14], path[21], path[28]]
    ensures Drive(path, Tank(10, Elements(cans)), 10, 38).fuel == 0
  {
    IntervalPicksInner(path, 7, 4, start, end);
    assert cans == cans[..4];
    assert cans[0] == path[7] && cans[1] == path[14] && cans[2] == path[21] && cans[3] == path[28];
    LastStopIs(path, Elements(cans), 38, 28);
    DriveTank(path, Elements(cans), 10, 38);
  }

  /** PlanCans once a shortest walk from the entrance to the exit is known. */
  method PlanOnWalk(m: Maze, path: seq<Pos>, maxFuel: int) returns (cans: seq<Pos>)
    requires m.Valid() && maxFuel > 1 && ShortestRoute(m, path)
    ensures Planned(m, maxFuel, true, cans, path)
  {
    RouteAlong(m, path);
    assert forall o | o in m.Repr() :: allocated(o);
    var minPathLength := m.OptimalPathLength();
    LengthOnRoute(m, path, minPathLength);
    cans := PlanAlong(m, path, minPathLength, maxFuel);
    PlannedAfterward(m, path, maxFuel, cans);
  }

  /** OptimalPathLength, called on the maze of a shortest walk, is that walk's number of steps. */
  twostate lemma LengthOnRoute(m: Maze, new path: seq<Pos>, new n: int)
    requires old(m.Valid()) && unchanged(m.Repr())
    requires old(ShortestRoute(m, path)) && old(Along(m, path))
    requires m.Valid() && n == ShortestDistance(m.Moves(), m.Start(), m.End())
    ensures ShortestRoute(m, path) && Along(m, path) && n == |path| - 1
  {
    RouteFramed(m, path);
  }

  /** The cans PlanAlong finds on the maze of a shortest walk are what PlanCans finds. */
  twostate lemma PlannedAfterward(m: Maze, new path: seq<Pos>, new maxFuel: int, new cans: seq<Pos>)
    requires old(m.Valid()) && unchanged(m.Repr()) && maxFuel > 1
    requires old(ShortestRoute(m, path)) && old(Along(m, path))
    requires m.Valid() && forall x | x in cans :: Usable(m, x) && x != m.Start() && x != m.End()
    requires |cans| <= Max(CanCount(|path| - 1, maxFuel, |path|), 0) + 1
    requires WrittenPlan(m, path, maxFuel, cans)
    ensures Planned(m, maxFuel, true, cans, path)
  {
    RouteFramed(m, path);
    PlannedOnRoute(m, path, maxFuel, cans);
  }

  /** A shortest walk from the entrance to the exit is one the plan can follow. */
  lemma RouteAlong(m: Maze, path: seq<Pos>)
    requires m.Valid() && ShortestRoute(m, path)
    ensures Along(m, path)
  {
    WalkCellsUsable(m, path);
    ShortestWalkRepeatFree(m.Moves(), path, m.Start(), m.End());
  }

  /** A plan along a shortest walk to a reachable exit is what PlanCans finds. */
  lemma PlannedOnRoute(m: Maze, path: seq<Pos>, maxFuel: int, cans: seq<Pos>)
    requires m.Valid() && maxFuel > 1 && ShortestRoute(m, path)
    requires Reachable(m.Moves(), m.Start(), m.End())
    requires forall x | x in cans :: Usable(m, x) && x != m.Start() && x != m.End()
    requires |cans| <= Max(CanCount(|path| - 1, maxFuel, |path|), 0) + 1
    requires WrittenPlan(m, path, maxFuel, cans)
    ensures Planned(m, maxFuel, true, cans, path)
  {
  }

  /**
   * A walk the plan can follow: it starts at the entrance, ends at the
   * exit, never comes back to a cell, and every cell after the first is usable.
   */
  ghost predicate Along(m: Maze, path: seq<Pos>)
    reads m.Repr()
    requires m.Valid()
  {
    path != [] && Departs(m, path) && path[|path| - 1] == m.End() && Distinct(path)
  }

  /** A shortest walk from the entrance to the exit depends only on the maze's objects. */
  twostate lemma RouteFramed(m: Maze, new path: seq<Pos>)
    requires old(m.Valid()) && unchanged(m.Repr())
    requires old(ShortestRoute(m, path)) && old(Along(m, path))
    ensures m.Valid() && ShortestRoute(m, path) && Along(m, path) && Reachable(m.Moves(), m.Start(), m.End())
  {
  }

  /**
   * The most cans the plan takes on a maze whose exit is `d` steps from the
   * entrance: CanCount for a shortest walk of d + 1 cells, plus the one
   * EnsureReachableEnd may add.
   */
  ghost function PlanBound(m: Maze, maxFuel: int): int
    reads m.Repr()
    requires m.Valid() && maxFuel > 1
  {
    var d := ShortestDistance(m.Moves(), m.Start(), m.End());
    if d < 0 then 0 else Max(CanCount(d, maxFuel, d + 1), 0) + 1
  }

  /**
   * The plan along a walk that leaves the entrance for good and ends at the
   * exit: the interval plan of CanCount cans, then the one extra can of
   * EnsureReachableEnd.
   */
  method PlanAlong(m: Maze, path: seq<Pos>, minPathLength: int, maxFuel: int) returns (cans: seq<Pos>)
    requires m.Valid() && maxFuel > 1 && minPathLength == |path| - 1 && Along(m, path)
    ensures forall x | x in cans :: Usable(m, x) && x != m.Start() && x != m.End()
    ensures |cans| <= Max(CanCount(minPathLength, maxFuel, |path|), 0) + 1
    ensures WrittenPlan(m, path, maxFuel, cans)
  {
    var numberOfCans := CanCount(minPathLength, maxFuel, |path|);
    var planned := CalculateOptimalFuelPositions(m, numberOfCans, path);
    cans := EnsureReachableEnd(m.End(), planned, path, maxFuel);
    PlannedCansUsable(m, path, maxFuel, planned, cans);
  }

  /**
   * The interval plan of CanCount cans, with the can EnsureReachableEnd
   * adds, is the plan as written: every can usable, neither the entrance
   * nor the exit (the extra can lies strictly after a can on the walk), and
   * at most CanCount plus one.
   */
  lemma PlannedCansUsable(m: Maze, path: seq<Pos>, maxFuel: int, planned: seq<Pos>, cans: seq<Pos>)
    requires m.Valid() && maxFuel > 1 && Along(m, path)
    requires IntervalPlan(m, CanCount(|path| - 1, maxFuel, |path|), path, planned)
    requires EndCovered(m.End(), planned, path, maxFuel, cans)
    ensures forall x | x in cans :: Usable(m, x) && x != m.Start() && x != m.End()
    ensures |cans| <= Max(CanCount(|path| - 1, maxFuel, |path|), 0) + 1
    ensures WrittenPlan(m, path, maxFuel, cans)
  {
    forall x | x in cans
      ensures Usable(m, x) && x != m.Start() && x != m.End()
    {
      var i :| 0 <= i < |cans| && cans[i] == x;
      if i < |planned| {
        assert x == cans[..|planned|][i] == planned[i];
        assert x in planned;
      } else {
        var idx := NewCanIndex(LastFuelIndex(planned, path), |path|, maxFuel);
        assert 1 <= idx < |path| && x == path[idx];
        assert path[0] == m.Start();
      }
    }
  }

  /**
   * The corrected plan along the same walk: the interval plan of CanCount
   * cans, then the cans of FillGaps in place of EnsureReachableEnd.
   */
  method PlanAlongFilled(m: Maze, path: seq<Pos>, minPathLength: int, maxFuel: int) returns (cans: seq<Pos>)
    requires m.Valid() && maxFuel > 1 && minPathLength == |path| - 1 && Along(m, path)
    ensures forall x | x in cans :: Usable(m, x) && x != m.Start() && x != m.End()
    ensures |cans| <= Max(CanCount(minPathLength, maxFuel, |path|), 0) + minPathLength / (maxFuel - 1)
    ensures FuelPlan(m, path, maxFuel, cans)
  {
    var numberOfCans := CanCount(minPathLength, maxFuel, |path|);
    var planned := CalculateOptimalFuelPositions(m, numberOfCans, path);
    cans := FillGaps(planned, path, maxFuel);
    FilledCansUsable(m, path, maxFuel, planned, cans);
  }

  /**
   * The interval plan of CanCount cans, with the cans of FillGaps, is a
   * FuelPlan: every can usable, neither the entrance nor the exit, and at
   * most CanCount plus one per `maxFuel - 1` steps.
   */
  lemma FilledCansUsable(m: Maze, path: seq<Pos>, maxFuel: int, planned: seq<Pos>, cans: seq<Pos>)
    requires m.Valid() && maxFuel > 1 && Along(m, path)
    requires IntervalPlan(m, CanCount(|path| - 1, maxFuel, |path|), path, planned)
    requires GapsFilled(path, maxFuel, planned, cans)
    ensures forall x | x in cans :: Usable(m, x) && x != m.Start() && x != m.End()
    ensures |cans| <= Max(CanCount(|path| - 1, maxFuel, |path|), 0) + (|path| - 1) / (maxFuel - 1)
    ensures FuelPlan(m, path, maxFuel, cans)
  {
    forall x | x in cans
      ensures Usable(m, x) && x != m.Start() && x != m.End()
    {
      var i :| 0 <= i < |cans| && cans[i] == x;
      if i < |planned| {
        assert x == cans[..|planned|][i] == planned[i];
        assert x in planned;
      } else {
        var j :| 0 < j < |path| - 1 && x == path[j];
        assert path[0] == m.Start() && path[|path| - 1] == m.End();
      }
    }
    DivisionBound(|cans| - |planned|, maxFuel - 1, |path| - 1);
  }

  /** `n` steps of `d` that fit in `total` are at most `total / d`. */
  lemma DivisionBound(n: int, d: int, total: int)
    requires n >= 0 && d > 0 && total >= 0 && n * d <= total
    ensures n <= total / d
  {
    var q := total / d;
    assert total < (q + 1) * d;
  }

  /**
   * Marks the planned cans on the board: FUEL on each, except on the
   * entrance and the exit.
   */
  method MarkCans(board: array2<CellType>, cans: seq<Pos>, start: Pos, end: Pos) returns (placed: set<Pos>)
    requires forall x | x in cans :: InBounds(board.Length0, board.Length1, x)
    modifies board
    ensures placed == Elements(cans)
    ensures forall r, c | 0 <= r < board.Length0 && 0 <= c < board.Length1 ::
      board[r, c] == if Pos(r, c) in placed && Pos(r, c) != start && Pos(r, c) != end then FUEL else old(board[r, c])
  {
    placed := {};
    var i := 0;
    while i < |cans|
      invariant 0 <= i <= |cans|
      invariant placed == set x | x in cans[..i]
      invariant forall r, c | 0 <= r < board.Length0 && 0 <= c < board.Length1 ::
        board[r, c] == if Pos(r, c) in placed && Pos(r, c) != start && Pos(r, c) != end then FUEL else old(board[r, c])
    {
      var can := cans[i];
      assert can in cans;
      placed := placed + {can};
      if can != start && can != end {
        board[can.row, can.col] := FUEL;
      }
      assert cans[..i + 1] == cans[..i] + [can];
      i := i + 1;
    }
    assert cans[..|cans|] == cans;
  }

  /**
   * A cell eligible for a random can: on the board, neither the entrance nor
   * the exit, no can yet, and in a random maze no wall.
   */
  ghost predicate Eligible(m: Maze, fuel: set<Pos>, p: Pos)
    reads m.Repr()
    requires m.Valid()
  {
    Usable(m, p) && p != m.Start() && p != m.End() && p !in fuel
  }

  ghost function Candidates(m: Maze, fuel: set<Pos>): set<Pos>
    reads m.Repr()
    requires m.Valid()
  {
    set p | p in Grid.Cells(m.Height(), m.Width()) && Eligible(m, fuel, p)
  }

  /** The cells of a sequence of cells, as a set. */
  function Elements(s: seq<Pos>): (r: set<Pos>)
    ensures forall x :: x in r <==> x in s
  {
    set x | x in s
  }

  ghost predicate Distinct<T>(s: seq<T>) {
    forall i, j | 0 <= i < j < |s| :: s[i] != s[j]
  }

  /** A sequence without repetition has as many elements as cells. */
  lemma {:induction false} DistinctCard(s: seq<Pos>)
    requires Distinct(s)
    ensures |set x | x in s| == |s|
  {
    if s != [] {
      var init := s[..|s| - 1];
      DistinctCard(init);
      assert (set x | x in s) == (set x | x in init) + {s[|s| - 1]};
    }
  }

  /** Appends the eligible cells of row `y`, left to right. */
  method EligibleInRow(m: Maze, fuel: set<Pos>, y: int, cells: seq<Pos>) returns (cells': seq<Pos>)
    requires m.Valid() && 0 <= y < m.Height()
    requires Distinct(cells) && forall k | 0 <= k < |cells| :: cells[k].row < y
    ensures Distinct(cells') && forall k | 0 <= k < |cells'| :: cells'[k].row <= y
    ensures forall p :: p in cells' <==> p in cells || (p.row == y && Eligible(m, fuel, p))
  {
    cells' := cells;
    var x := 0;
    while x < m.Width()
      invariant 0 <= x <= m.Width()
      invariant Distinct(cells') && |cells| <= |cells'| && cells'[..|cells|] == cells
      invariant forall k | |cells| <= k < |cells'| :: cells'[k].row == y && cells'[k].col < x
      invariant forall p :: p in cells' <==> p in cells || (p.row == y && p.col < x && Eligible(m, fuel, p))
    {
      var cell := Pos(y, x);
      if cell != m.Start() && cell != m.End() && cell !in fuel {
        var free := if m.RandomM? then !m.random.IsWall(y, x) else true;
        if free {
          assert forall k | 0 <= k < |cells'| :: cells'[k] != cell by {
            forall k | 0 <= k < |cells'|
              ensures cells'[k] != cell
            {
              if k < |cells| {
                assert cells'[k] == cells[k];
              }
            }
          }
          cells' := cells' + [cell];
        }
      }
      x := x + 1;
    }
    forall k | 0 <= k < |cells'|
      ensures cells'[k].row <= y
    {
      if k < |cells| {
        assert cells'[k] == cells[k];
      }
    }
  }

  /** The cells eligible for a random can, row by row, each once. */
  method EligibleCells(m: Maze, fuel: set<Pos>) returns (cells: seq<Pos>)
    requires m.Valid()
    ensures Distinct(cells)
    ensures forall p :: p in cells <==> p in Candidates(m, fuel)
    ensures |cells| == |Candidates(m, fuel)|
  {
    cells := [];
    var y := 0;
    while y < m.Height()
      invariant 0 <= y <= m.Height()
      invariant Distinct(cells) && forall k | 0 <= k < |cells| :: cells[k].row < y
      invariant forall p :: p in cells <==> p.row < y && Eligible(m, fuel, p)
    {
      cells := EligibleInRow(m, fuel, y, cells);
      y := y + 1;
    }
    assert (set x | x in cells) == Candidates(m, fuel);
    DistinctCard(cells);
  }

  /** The eligible cells `pool` of a maze as a sequence, each once. */
  method EligiblePool(m: Maze, fuel: set<Pos>, ghost pool: set<Pos>) returns (cells: seq<Pos>)
    requires m.Valid() && pool == Candidates(m, fuel)
    ensures Distinct(cells) && |cells| == |pool|
    ensures forall p :: p in cells <==> p in pool
  {
    cells := EligibleCells(m, fuel);
    assert Candidates(m, fuel) == pool;
  }

  /**
   * Draws `n` cells of `cells` at random (fewer when they run out), without
   * repetition, and turns each into a FUEL cell holding a can.
   */
  method Scatter(board: array2<CellType>, cells: seq<Pos>, n: int) returns (added: set<Pos>)
    requires Distinct(cells) && forall x | x in cells :: InBounds(board.Length0, board.Length1, x)
    modifies board
    ensures forall p | p in added :: p in cells
    ensures |added| == Min(Max(n, 0), |cells|)
    ensures forall r, c | 0 <= r < board.Length0 && 0 <= c < board.Length1 ::
      board[r, c] == if Pos(r, c) in added then FUEL else old(board[r, c])
  {
    added := {};
    var pool := cells;
    var placed := 0;
    while placed < n && pool != []
      invariant 0 <= placed == |added| && placed <= Max(n, 0)
      invariant |pool| + placed == |cells| && Distinct(pool)
      invariant forall p | p in pool :: p in cells && p !in added
      invariant forall p | p in added :: p in cells
      invariant forall r, c | 0 <= r < board.Length0 && 0 <= c < board.Length1 ::
        board[r, c] == if Pos(r, c) in added then FUEL else old(board[r, c])
    {
      var randomIndex :| 0 <= randomIndex < |pool|;
      var randomCell := pool[randomIndex];
      assert randomCell in pool;
      assert forall k | 0 <= k < |pool| && k != randomIndex :: pool[k] != randomCell;
      pool := pool[..randomIndex] + pool[randomIndex + 1..];
      board[randomCell.row, randomCell.col] := FUEL;
      added := added + {randomCell};
      placed := placed + 1;
    }
  }

  /** Every can lies on a FUEL cell of the board that is neither the entrance nor the exit. */
  ghost predicate FuelOnBoard(m: Maze, fuel: set<Pos>)
    reads m.Repr()
    requires m.Valid()
  {
    forall p | p in fuel :: m.InB(p) && p != m.Start() && p != m.End() && m.Board()[p.row, p.col] == FUEL
  }

  /** A valid maze with the cans `fuel` on its board. */
  ghost predicate Stocked(m: Maze, fuel: set<Pos>)
    reads m.Repr()
  {
    m.Valid() && FuelOnBoard(m, fuel)
  }

  /**
   * What scattering up to `n` cans over the eligible cells `pool` did to a
   * maze: it drew min(n, #pool) distinct cells of the pool and turned
   * exactly those FUEL.
   */
  twostate predicate Drawn(m: Maze, pool: set<Pos>, n: int, added: set<Pos>)
    reads m.Repr()
  {
    && added <= pool
    && |added| == Min(Max(n, 0), |pool|)
    && forall r, c | 0 <= r < m.Board().Length0 && 0 <= c < m.Board().Length1 ::
      m.Board()[r, c] == if Pos(r, c) in added then FUEL else old(m.Board()[r, c])
  }

  /**
   * Draws up to `n` of the eligible cells `pool` at random, without
   * repetition, and turns them FUEL.
   */
  method ScatterOver(m: Maze, fuel: set<Pos>, n: int, ghost pool: set<Pos>) returns (added: set<Pos>)
    requires m.Valid() && pool == Candidates(m, fuel)
    modifies m.Board()
    ensures added <= pool && |added| == Min(Max(n, 0), |pool|)
    ensures forall p | p in added :: m.InB(p) && p != old(m.Start()) && p != old(m.End())
    ensures forall r, c | 0 <= r < m.Height() && 0 <= c < m.Width() ::
      m.Board()[r, c] == if Pos(r, c) in added then FUEL else old(m.Board()[r, c])
    ensures FuelOnlyAdded(m)
  {
    var cells := EligiblePool(m, fuel, pool);
    added := Scatter(m.Board(), cells, n);
  }

  /** As ScatterOver, and the cans already on the board stay there. */
  method ScatterKeeping(m: Maze, fuel: set<Pos>, n: int, ghost pool: set<Pos>) returns (added: set<Pos>)
    requires m.Valid() && pool == Candidates(m, fuel)
    modifies m.Board()
    ensures Drawn(m, pool, n, added) && FuelOnlyAdded(m)
    ensures old(Stocked(m, fuel)) ==> Stocked(m, fuel + added)
  {
    added := ScatterOver(m, fuel, n, pool);
    CoreKept(m);
  }

  /**
   * Between the two states the board only gained FUEL cells, and in a
   * random maze none of them over a wall.
   */
  twostate predicate FuelOnlyAdded(m: Maze)
    reads m.Repr()
  {
    forall r, c | 0 <= r < m.Board().Length0 && 0 <= c < m.Board().Length1 ::
      || m.Board()[r, c] == old(m.Board()[r, c])
      || (m.Board()[r, c] == FUEL && (m.RandomM? ==> old(m.Board()[r, c]) != WALL))
  }

  /**
   * The first half of placeFuelCans: when the exit can be reached, plans
   * the cans along a shortest walk and turns each FUEL; otherwise does
   * nothing and reports it.
   */
  method MarkPlanned(m: Maze, fuel: set<Pos>, maxFuel: int)
    returns (found: bool, cans: seq<Pos>, placed: set<Pos>, ghost path: seq<Pos>)
    requires m.Valid() && maxFuel > 1
    modifies m.Board()
    ensures old(Planned(m, maxFuel, found, cans, path))
    ensures !found ==> unchanged(m.Board())
    ensures placed == Elements(cans)
    ensures forall r, c | 0 <= r < m.Height() && 0 <= c < m.Width() ::
      m.Board()[r, c] == if Pos(r, c) in placed then FUEL else old(m.Board()[r, c])
    ensures FuelOnlyAdded(m)
    ensures old(Stocked(m, fuel)) ==> Stocked(m, fuel + placed)
  {
    found, cans, path := PlanCans(m, maxFuel);
    if !found {
      return found, cans, {}, path;
    }
    placed := MarkCans(m.Board(), cans, m.Start(), m.End());
    CoreKept(m);
  }

  /** The number of extra random cans: a 25th of the free cells of a random maze, of all cells of a perfect one. */
  method RandomCanCount(m: Maze) returns (n: int)
    requires m.Valid()
    ensures m.RandomM? ==> n == |m.random.FreeCells()| / 25
    ensures m.PerfectM? ==> n == m.Width() * m.Height() / 25
    ensures n == RandomCans(m)
  {
    if m.RandomM? {
      var free := m.random.CountFreeCells();
      n := free / 25;
    } else {
      n := m.Width() * m.Height() / 25;
    }
  }

  /**
   * placeFuelCans on a maze: when the exit can be reached, the planned cans
   * along a shortest walk, marked FUEL, then as many random ones as
   * RandomCanCount asks for; otherwise nothing.
   */
  method PlaceCans(m: Maze, fuel: set<Pos>, maxFuel: int)
    returns (found: bool, cans: seq<Pos>, added: set<Pos>, ghost path: seq<Pos>)
    requires m.Valid() && maxFuel > 1
    modifies m.Board()
    ensures found <==> old(Reachable(m.Moves(), m.Start(), m.End()))
    ensures !found ==> cans == [] && added == {} && unchanged(m.Board())
    ensures found ==> Placement(m, maxFuel, fuel, path, cans, added)
    ensures found ==> |cans| <= old(PlanBound(m, maxFuel))
    ensures forall r, c | 0 <= r < m.Height() && 0 <= c < m.Width() ::
      m.Board()[r, c] == if Pos(r, c) in cans || Pos(r, c) in added then FUEL else old(m.Board()[r, c])
    ensures FuelOnlyAdded(m)
    ensures old(Stocked(m, fuel)) ==> Stocked(m, fuel + Elements(cans) + added)
  {
    var placed;
    found, cans, placed, path := MarkPlanned(m, fuel, maxFuel);
    if !found {
      return found, cans, {}, path;
    }
    FuelKept(m, {});
    PlanKept(m, path, maxFuel, cans);
    label planned:
    added := ScatterRest(m, fuel, maxFuel, cans, path);
    forall r, c | 0 <= r < m.Board().Length0 && 0 <= c < m.Board().Length1
      ensures || m.Board()[r, c] == old(m.Board()[r, c])
              || (m.Board()[r, c] == FUEL && (m.RandomM? ==> old(m.Board()[r, c]) != WALL))
    {
      assert old@planned(m.Board()[r, c]) == old(m.Board()[r, c]) || old@planned(m.Board()[r, c]) == FUEL;
    }
  }

  /**
   * The second half of placeFuelCans, once the planned cans `cans` along the
   * shortest walk `path` are on the board: RandomCans random cans over the
   * cells still eligible, and the whole placement is as Placement says.
   */
  method ScatterRest(m: Maze, fuel: set<Pos>, maxFuel: int, cans: seq<Pos>, ghost path: seq<Pos>) returns (added: set<Pos>)
    requires m.Valid() && maxFuel > 1
    requires ShortestRoute(m, path) && WrittenPlan(m, path, maxFuel, cans)
    modifies m.Board()
    ensures m.Valid() && Placement(m, maxFuel, fuel, path, cans, added)
    ensures forall r, c | 0 <= r < m.Height() && 0 <= c < m.Width() ::
      m.Board()[r, c] == if Pos(r, c) in added then FUEL else old(m.Board()[r, c])
    ensures FuelOnlyAdded(m)
    ensures old(Stocked(m, fuel + Elements(cans))) ==> Stocked(m, fuel + Elements(cans) + added)
  {
    var n := RandomCanCount(m);
    FuelKept(m, {});
    PlanKept(m, path, maxFuel, cans);
    added := ScatterCounted(m, fuel, maxFuel, cans, path, n);
  }

  /** ScatterRest once the number of random cans is known. */
  method ScatterCounted(m: Maze, fuel: set<Pos>, maxFuel: int, cans: seq<Pos>, ghost path: seq<Pos>, n: int)
    returns (added: set<Pos>)
    requires m.Valid() && maxFuel > 1 && n == RandomCans(m)
    requires ShortestRoute(m, path) && WrittenPlan(m, path, maxFuel, cans)
    modifies m.Board()
    ensures m.Valid() && Placement(m, maxFuel, fuel, path, cans, added)
    ensures forall r, c | 0 <= r < m.Height() && 0 <= c < m.Width() ::
      m.Board()[r, c] == if Pos(r, c) in added then FUEL else old(m.Board()[r, c])
    ensures FuelOnlyAdded(m)
    ensures old(Stocked(m, fuel + Elements(cans))) ==> Stocked(m, fuel + Elements(cans) + added)
  {
    ghost var pool := Candidates(m, fuel + Elements(cans));
    RandomCansNatural(m);
    added := ScatterKeeping(m, fuel + Elements(cans), n, pool);
    DrawnCells(m, pool, n, added);
    FuelKept(m, fuel + Elements(cans));
    PlanKept(m, path, maxFuel, cans);
    PlacementOf(m, maxFuel, fuel, path, cans, added, pool, n);
  }

  /** A plan along a shortest walk and a draw of RandomCans eligible cells make a Placement. */
  lemma PlacementOf(m: Maze, maxFuel: int, fuel: set<Pos>, path: seq<Pos>, cans: seq<Pos>, added: set<Pos>, pool: set<Pos>, n: int)
    requires m.Valid() && ShortestRoute(m, path) && WrittenPlan(m, path, maxFuel, cans)
    requires pool == Candidates(m, fuel + Elements(cans)) && n == RandomCans(m)
    requires added <= pool && |added| <= n && (|added| == n || added == pool)
    ensures Placement(m, maxFuel, fuel, path, cans, added)
  {
  }

  /**
   * Drawn, cell by cell over the rows and the columns of a valid maze, and
   * with a count `n` that is not negative: `n` cells drawn, or the whole pool.
   */
  twostate lemma DrawnCells(m: Maze, new pool: set<Pos>, new n: int, new added: set<Pos>)
    requires old(m.Valid()) && Drawn(m, pool, n, added) && n >= 0
    ensures forall r, c | 0 <= r < m.Height() && 0 <= c < m.Width() ::
      m.Board()[r, c] == if Pos(r, c) in added then FUEL else old(m.Board()[r, c])
    ensures |added| <= n && (|added| == n || added == pool)
  {
    DrawnAll(added, pool, n);
  }

  /** The number of random cans is never negative. */
  lemma RandomCansNatural(m: Maze)
    requires m.Valid()
    ensures RandomCans(m) >= 0
  {
    if m.PerfectM? {
      assert m.Width() * m.Height() >= 0;
    }
  }

  /**
   * Drawing min(n, #pool) cells of the pool draws `n` of them, or the
   * whole pool when it has fewer.
   */
  lemma DrawnAll(added: set<Pos>, pool: set<Pos>, n: int)
    requires n >= 0 && added <= pool && |added| == Min(Max(n, 0), |pool|)
    ensures |added| <= n && (|added| == n || added == pool)
  {
    if |added| != n {
      assert |pool - added| == |pool| - |added| == 0;
    }
  }

  /** The number of extra random cans: a 25th of the free cells of a random maze, of all cells of a perfect one. */
  ghost function RandomCans(m: Maze): int
    reads m.Repr()
    requires m.Valid()
  {
    if m.RandomM? then |m.random.FreeCells()| / 25 else m.Width() * m.Height() / 25
  }

  /**
   * What placeFuelCans puts on a maze with the cans `fuel` already on it:
   * along the shortest walk `path`, the planned cans `cans`; then `added`,
   * RandomCans distinct cells (fewer when they run out) among those still
   * eligible once the planned cans are counted.
   */
  ghost predicate Placement(m: Maze, maxFuel: int, fuel: set<Pos>, path: seq<Pos>, cans: seq<Pos>, added: set<Pos>)
    reads m.Repr()
    requires m.Valid()
  {
    && ShortestRoute(m, path) && WrittenPlan(m, path, maxFuel, cans)
    && added <= Candidates(m, fuel + Elements(cans))
    && |added| <= RandomCans(m)
    && (|added| == RandomCans(m) || added == Candidates(m, fuel + Elements(cans)))
  }

  /**
   * Turning cells FUEL, never over a wall of a random maze, keeps what the
   * cans depend on: the moves, the entrance and the exit, the usable and
   * the eligible cells, and the number of random cans.
   */
  twostate lemma FuelKept(m: Maze, new fuel: set<Pos>)
    requires old(m.Valid()) && unchanged(m.Core()) && FuelOnlyAdded(m)
    requires m.PerfectM? ==> unchanged(m.perfect.verticalWalls, m.perfect.horizontalWalls)
    ensures m.Valid() && m.Moves() == old(m.Moves())
    ensures m.Start() == old(m.Start()) && m.End() == old(m.End())
    ensures forall p :: Usable(m, p) == old(Usable(m, p))
    ensures Candidates(m, fuel) == old(Candidates(m, fuel))
    ensures RandomCans(m) == old(RandomCans(m))
  {
    BoardKeepsMoves(m);
    forall p
      ensures Usable(m, p) == old(Usable(m, p))
    {
      if m.InB(p) {
        assert m.Board()[p.row, p.col] == old(m.Board()[p.row, p.col]) || m.Board()[p.row, p.col] == FUEL;
      }
    }
    assert forall p :: p in Candidates(m, fuel) <==> p in old(Candidates(m, fuel));
    if m.RandomM? {
      assert m.random.FreeCells() == old(m.random.FreeCells()) by {
        assert forall p :: p in m.random.FreeCells() <==> Usable(m, p);
        assert forall p :: p in old(m.random.FreeCells()) <==> old(Usable(m, p));
      }
    }
  }

  /** A shortest walk and the cans planned along it stay so while the usable cells and the moves stay. */
  twostate lemma PlanKept(m: Maze, new path: seq<Pos>, new maxFuel: int, new cans: seq<Pos>)
    requires old(m.Valid()) && m.Valid() && m.Moves() == old(m.Moves())
    requires m.Start() == old(m.Start()) && m.End() == old(m.End())
    requires forall p :: Usable(m, p) == old(Usable(m, p))
    requires old(ShortestRoute(m, path)) && old(WrittenPlan(m, path, maxFuel, cans))
    ensures ShortestRoute(m, path) && WrittenPlan(m, path, maxFuel, cans)
  {
    var k := CanCount(|path| - 1, maxFuel, |path|);
    var planned :| old(IntervalPlan(m, k, path, planned)) && EndCovered(m.End(), planned, path, maxFuel, cans);
    IntervalPlanKept(m, k, path, planned);
  }

  /** The interval plan along a walk stays so while the usable cells, the entrance and the exit stay. */
  twostate lemma IntervalPlanKept(m: Maze, new k: int, new path: seq<Pos>, new planned: seq<Pos>)
    requires old(m.Valid()) && m.Valid()
    requires m.Start() == old(m.Start()) && m.End() == old(m.End())
    requires forall p :: Usable(m, p) == old(Usable(m, p))
    requires old(IntervalPlan(m, k, path, planned))
    ensures IntervalPlan(m, k, path, planned)
  {
    forall i | 0 <= i < |planned|
      ensures Backfill(m, path, planned[..i], planned[i]) == old(Backfill(m, path, planned[..i], planned[i]))
    {
    }
    forall j, d | 0 <= j < |path|
      ensures Usable(m, Step(d, path[j])) == old(Usable(m, Step(d, path[j])))
    {
    }
  }

  /**
   * prepareMaze of the fuel mode on a new maze: builds it, then places the
   * cans on it starting from none. The cans leave the maze as built
   * (playable, same size, type and ends).
   */
  method BuildStocked(mazeType: MazeType, width: int, height: int, param: int, maxFuel: int)
    returns (r: Result<Maze>, cans: seq<Pos>, added: set<Pos>, ghost path: seq<Pos>)
    requires Ends(mazeType, width, height, param) && maxFuel > 1
    ensures r.Err? <==> !Accepted(mazeType, width, height, param)
    ensures r.Ok? ==> fresh(r.value.Repr()) && Prepared(r.value, mazeType, width, height, param, Elements(cans) + added)
    ensures r.Ok? ==> Placement(r.value, maxFuel, {}, path, cans, added)
  {
    r := Build(mazeType, width, height, param);
    if r.Err? {
      return r, [], {}, [];
    }
    cans, added, path := Restock(r.value, mazeType, width, height, param, maxFuel);
  }

  /** A maze as built, with the cans `fuel` on its board. */
  ghost predicate Prepared(m: Maze, mazeType: MazeType, width: int, height: int, param: int, fuel: set<Pos>)
    reads m.Repr()
  {
    BuiltAs(m, mazeType, width, height, param) && Stocked(m, fuel)
  }

  /** Places the cans on a maze without any; the maze stays as built. */
  method Restock(m: Maze, mazeType: MazeType, width: int, height: int, param: int, maxFuel: int)
    returns (cans: seq<Pos>, added: set<Pos>, ghost path: seq<Pos>)
    requires BuiltAs(m, mazeType, width, height, param) && maxFuel > 1
    modifies m.Board()
    ensures BuiltAs(m, mazeType, width, height, param)
    ensures Stocked(m, Elements(cans) + added)
    ensures Placement(m, maxFuel, {}, path, cans, added)
  {
    label placing:
    var found;
    found, cans, added, path := PlaceCans(m, {}, maxFuel);
    BuiltKept@placing(m, mazeType, width, height, param);
  }

  /** Cans on the board leave a maze as it was built. */
  twostate lemma BuiltKept(m: Maze, new mazeType: MazeType, new width: int, new height: int, new param: int)
    requires old(BuiltAs(m, mazeType, width, height, param)) && unchanged(m.Core())
    requires m.PerfectM? ==> unchanged(m.perfect.verticalWalls, m.perfect.horizontalWalls)
    requires FuelOnlyAdded(m)
    ensures BuiltAs(m, mazeType, width, height, param)
  {
    BoardKeepsMoves(m);
  }

  /** A placement depends only on the maze's objects. */
  twostate lemma PlacementFramed(m: Maze, new maxFuel: int, new fuel: set<Pos>, new path: seq<Pos>, new cans: seq<Pos>, new added: set<Pos>)
    requires old(m.Valid()) && unchanged(m.Repr()) && old(Placement(m, maxFuel, fuel, path, cans, added))
    ensures m.Valid() && Placement(m, maxFuel, fuel, path, cans, added)
  {
  }

  /** A maze with cans on its board stays so while its objects stay. */
  twostate lemma StockedFramed(m: Maze, new fuel: set<Pos>)
    requires unchanged(m.Repr()) && old(Stocked(m, fuel))
    ensures Stocked(m, fuel)
  {
  }

  /** Writing on the board leaves the entrance, the exit and the shape of a maze alone. */
  twostate lemma CoreKept(m: Maze)
    requires old(m.Valid()) && unchanged(m.Core())
    ensures m.Valid() && m.Start() == old(m.Start()) && m.End() == old(m.End())
  {
  }

  /** The maze type a fuel mode builds: perfect only when asked, random otherwise (also with no type). */
  function BuiltType(mazeType: Option<MazeType>): MazeType {
    if mazeType == Some(PERFECT) then PERFECT else RANDOM
  }

  /**
   * Writing FUEL over cells that are no walls keeps the moves of a maze and
   * so its playability: a random maze's moves depend only on where its
   * walls are, a perfect maze's not on its board at all.
   */
  twostate lemma BoardKeepsMoves(m: Maze)
    requires old(m.Valid()) && unchanged(m.Core())
    requires m.PerfectM? ==> unchanged(m.perfect.verticalWalls, m.perfect.horizontalWalls)
    requires m.RandomM? ==> forall r, c | 0 <= r < m.Height() && 0 <= c < m.Width() ::
      (m.Board()[r, c] == WALL) == old(m.Board()[r, c] == WALL)
    ensures m.Valid() && m.Moves() == old(m.Moves())
    ensures m.Start() == old(m.Start()) && m.End() == old(m.End())
  {
    match m
    case RandomM(rm) =>
      forall e: (Pos, Pos)
        ensures e in rm.Moves() <==> e in old(rm.Moves())
      {
        var b := e.1;
        if rm.InB(b) {
          assert m.Board() == rm.grid && m.Height() == rm.height && m.Width() == rm.width;
          assert (m.Board()[b.row, b.col] == WALL) == old(m.Board()[b.row, b.col] == WALL);
        }
      }
    case PerfectM(pm) =>
  }

  class FuelMode {
    var maze: Option<Maze>
    var fuelLeft: int
    /** The tank: moves between two cans. */
    const maxFuel: int := 10
    var fuelCells: set<Pos>
    var mazeType: Option<MazeType>
    var width: int
    var height: int
    var thirdParameter: int
    /**
     * The shortest walk the last placement planned along, the cans planned
     * on it, and the ones scattered at random.
     */
    ghost var walk: seq<Pos>
    ghost var pathCans: seq<Pos>
    ghost var scattered: set<Pos>

    /** A full tank and no cans. */
    constructor ()
      ensures fuelLeft == maxFuel && fuelCells == {} && maze.None?
      ensures mazeType.None? && width == 0 && height == 0 && thirdParameter == 0
    {
      fuelLeft := maxFuel;
      fuelCells := {};
      maze := None;
      mazeType := None;
      width := 0;
      height := 0;
      thirdParameter := 0;
      walk := [];
      pathCans := [];
      scattered := {};
    }

    /** The objects of the current maze, if any. */
    function MazeRepr(): set<object>
      reads this
    {
      if maze.Some? then maze.value.Repr() else {}
    }

    /**
     * Every can lies on the board of a valid maze, on a FUEL cell that is
     * neither the entrance nor the exit (so in a random maze never on a wall).
     */
    ghost predicate Fuelled()
      reads this, MazeRepr()
    {
      maze.Some? && Stocked(maze.value, fuelCells)
    }

    /** Stores the settings of the next maze; nothing else changes. */
    method SetMaze(mazeType: MazeType, width: int, height: int, thirdParameter: int)
      modifies this
      ensures this.mazeType == Some(mazeType) && this.width == width && this.height == height
      ensures this.thirdParameter == thirdParameter && maze == old(maze)
      ensures fuelLeft == old(fuelLeft) && fuelCells == old(fuelCells)
    {
      this.mazeType := Some(mazeType);
      this.width := width;
      this.height := height;
      this.thirdParameter := thirdParameter;
    }

    /**
     * Scatters up to `n` cans at random: exactly min(n, #eligible) new cans,
     * each on an eligible cell, which turns FUEL; the rest of the board is
     * unchanged.
     */
    method PlaceRandomFuelCans(n: int)
      requires Fuelled()
      modifies this`fuelCells, this`scattered, maze.value.Board()
      ensures fuelCells == old(fuelCells) + scattered
      ensures Drawn(maze.value, old(Candidates(maze.value, fuelCells)), n, scattered)
      ensures FuelOnlyAdded(maze.value) && Fuelled()
    {
      var m := maze.value;
      assert this !in m.Repr();
      ghost var pool := Candidates(m, fuelCells);
      var added := ScatterKeeping(m, fuelCells, n, pool);
      var cans := fuelCells + added;
      assert Stocked(m, cans);
      fuelCells, scattered := cans, added;
    }

    /**
     * Plans the cans along a shortest walk and marks them, then scatters
     * the extra random cans (see PlaceCans); with the exit out of reach it
     * does nothing. The board only gains FUEL cells, never over a wall of a
     * random maze.
     */
    method PlaceFuelCans()
      requires Fuelled()
      modifies this`fuelCells, this`walk, this`pathCans, this`scattered, maze.value.Board()
      ensures Fuelled() && FuelOnlyAdded(maze.value)
      ensures old(Reachable(maze.value.Moves(), maze.value.Start(), maze.value.End())) ==>
        && fuelCells == old(fuelCells) + Elements(pathCans) + scattered
        && Placement(maze.value, maxFuel, old(fuelCells), walk, pathCans, scattered)
        && |pathCans| <= old(PlanBound(maze.value, maxFuel))
      ensures !old(Reachable(maze.value.Moves(), maze.value.Start(), maze.value.End())) ==>
        fuelCells == old(fuelCells) && unchanged(maze.value.Board())
    {
      PlaceOn(maze.value);
    }

    /** PlaceFuelCans on the stored maze `m`. */
    method PlaceOn(m: Maze)
      requires maze == Some(m) && Stocked(m, fuelCells)
      modifies this`fuelCells, this`walk, this`pathCans, this`scattered, m.Board()
      ensures Stocked(m, fuelCells) && FuelOnlyAdded(m)
      ensures old(Reachable(m.Moves(), m.Start(), m.End())) ==>
        && fuelCells == old(fuelCells) + Elements(pathCans) + scattered
        && Placement(m, maxFuel, old(fuelCells), walk, pathCans, scattered)
        && |pathCans| <= old(PlanBound(m, maxFuel))
      ensures !old(Reachable(m.Moves(), m.Start(), m.End())) ==>
        fuelCells == old(fuelCells) && unchanged(m.Board())
    {
      assert this !in m.Repr();
      assert forall o | o in m.Repr() :: allocated(o);
      ghost var fuel := fuelCells;
      var found, cans, added, path := PlaceCans(m, fuelCells, maxFuel);
      label placed:
      if found {
        Record(m, fuelCells + Elements(cans) + added, path, cans, added);
        StockedFramed@placed(m, fuelCells);
        PlacementFramed@placed(m, maxFuel, fuel, path, cans, added);
      }
    }

    /** Takes `all` as the cans, and the walk, the planned and the random cans of a placement with them. */
    method Record(ghost m: Maze, all: set<Pos>, ghost path: seq<Pos>, ghost cans: seq<Pos>, ghost added: set<Pos>)
      requires this !in m.Repr()
      modifies this`fuelCells, this`walk, this`pathCans, this`scattered
      ensures fuelCells == all && walk == path && pathCans == cans && scattered == added
      ensures unchanged(m.Repr())
    {
      fuelCells, walk, pathCans, scattered := all, path, cans, added;
    }

    /**
     * Builds a new maze of the stored settings (a random one unless PERFECT
     * was asked, also with no type at all), fills the tank, empties the can
     * set and places the cans (see BuildStocked). A refused argument leaves
     * everything as it was.
     */
    method PrepareMaze() returns (r: Result<()>)
      requires Ends(BuiltType(mazeType), width, height, thirdParameter)
      modifies this`maze, this`fuelLeft, this`fuelCells, this`walk, this`pathCans, this`scattered
      ensures r.Err? <==> !Accepted(BuiltType(mazeType), width, height, thirdParameter)
      ensures r.Err? ==> maze == old(maze) && fuelLeft == old(fuelLeft) && fuelCells == old(fuelCells)
      ensures r.Ok? ==> maze.Some? && fresh(MazeRepr()) && fuelLeft == maxFuel
      ensures r.Ok? ==> Prepared(maze.value, BuiltType(mazeType), width, height, thirdParameter, fuelCells)
      ensures r.Ok? ==> fuelCells == Elements(pathCans) + scattered
      ensures r.Ok? ==> Placement(maze.value, maxFuel, {}, walk, pathCans, scattered)
    {
      var built, cans, added, path := BuildStocked(BuiltType(mazeType), width, height, thirdParameter, maxFuel);
      if built.Err? {
        return Err(built.message);
      }
      label built:
      Install(built.value, cans, added, path);
      PlacementFramed@built(built.value, maxFuel, {}, path, cans, added);
      r := Ok(());
    }

    /** Takes a freshly built and stocked maze as the current one, with a full tank. */
    method Install(m: Maze, cans: seq<Pos>, added: set<Pos>, ghost path: seq<Pos>)
      requires this !in m.Repr()
      requires Prepared(m, BuiltType(mazeType), width, height, thirdParameter, Elements(cans) + added)
      modifies this`maze, this`fuelLeft, this`fuelCells, this`walk, this`pathCans, this`scattered
      ensures maze == Some(m) && MazeRepr() == m.Repr() && fuelLeft == maxFuel
      ensures Prepared(m, BuiltType(mazeType), width, height, thirdParameter, fuelCells)
      ensures fuelCells == Elements(pathCans) + scattered
      ensures walk == path && pathCans == cans && scattered == added && unchanged(m.Repr())
    {
      maze, fuelLeft, fuelCells := Some(m), maxFuel, Elements(cans) + added;
      walk, pathCans, scattered := path, cans, added;
    }

    /** The player may move while fuel is left: exactly while the game is not lost. */
    predicate CanMove(): (r: bool)
      reads this
      ensures r <==> !IsLost()
    {
      fuelLeft > 0
    }

    /** The game is lost once the tank is empty. */
    predicate IsLost(): (r: bool)
      reads this
      ensures 0 <= fuelLeft ==> (r <==> fuelLeft == 0)
    {
      fuelLeft <= 0
    }

    /**
     * Whether a can not yet picked up lies on a cell; when the cans are on
     * the board, such a cell is a FUEL cell of the board, neither the
     * entrance nor the exit.
     */
    predicate HasFuelAt(p: Pos): (r: bool)
      reads this, MazeRepr()
      ensures r && Fuelled() ==>
        && maze.value.InB(p) && p != maze.value.Start() && p != maze.value.End()
        && maze.value.Board()[p.row, p.col] == FUEL
    {
      p in fuelCells
    }

    /**
     * One move onto `p` burns one unit of fuel; a can on `p` refills the
     * tank and is picked up, and no other can goes. The cans left stay on
     * the board.
     */
    method OnMove(p: Pos)
      modifies this`fuelLeft, this`fuelCells
      ensures fuelLeft == if old(HasFuelAt(p)) then maxFuel else old(fuelLeft) - 1
      ensures fuelCells == old(fuelCells) - {p}
      ensures !HasFuelAt(p) && forall q | q != p :: HasFuelAt(q) == old(HasFuelAt(q))
      ensures old(Fuelled()) ==> Fuelled()
      ensures old(HasFuelAt(p)) && maxFuel > 0 ==> !IsLost() && CanMove()
      ensures !old(HasFuelAt(p)) ==> (IsLost() <==> old(fuelLeft) <= 1) && (CanMove() <==> !IsLost())
    {
      fuelLeft := fuelLeft - 1;
      if p in fuelCells {
        fuelLeft := maxFuel;
        fuelCells := fuelCells - {p};
      }
    }

    /** Starts over: a new maze with its cans and a full tank. */
    method Reset() returns (r: Result<()>)
      requires Ends(BuiltType(mazeType), width, height, thirdParameter)
      modifies this`maze, this`fuelLeft, this`fuelCells, this`walk, this`pathCans, this`scattered
      ensures r.Err? <==> !Accepted(BuiltType(mazeType), width, height, thirdParameter)
      ensures r.Err? ==> maze == old(maze) && fuelLeft == old(fuelLeft) && fuelCells == old(fuelCells)
      ensures r.Ok? ==> maze.Some? && fresh(MazeRepr()) && fuelLeft == maxFuel
      ensures r.Ok? ==> Prepared(maze.value, BuiltType(mazeType), width, height, thirdParameter, fuelCells)
      ensures r.Ok? ==> fuelCells == Elements(pathCans) + scattered
      ensures r.Ok? ==> Placement(maze.value, maxFuel, {}, walk, pathCans, scattered)
    {
      r := PrepareMaze();
    }
  }
}

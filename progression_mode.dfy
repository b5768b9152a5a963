/**
 * The progression mode: six levels (étapes) of three challenges each, the
 * first three played on random mazes and the last three on perfect mazes,
 * with sizes drawn at random within a range per level and a third maze
 * parameter read from a fixed table. The player picks a level and a
 * challenge, and the mode builds that challenge's maze.
 */
module ProgressionModes {
  import opened Grid
  import opened Results
  import opened RandomMazes
  import opened Mazes
  import opened Difficulties
  import opened Challenges
  import opened Levels
  import opened Profiles

  /** The number of levels and of challenges per level. */
  const LevelCount := 6
  const ChallengeCount := 3

  /** The first three levels use random mazes, the others perfect mazes. */
  function LevelType(numLevel: int): MazeType {
    if numLevel < 3 then RANDOM else PERFECT
  }

  /**
   * The third maze parameter of a challenge: the wall percentage on the
   * random levels, the minimal solution length on the perfect ones, and 30
   * for a level outside the table.
   */
  function ParameterThree(numLevel: int, difficulty: Difficulty): int {
    if 0 <= numLevel < 3 then
      match difficulty
      case EASY => 40
      case MEDIUM => 48
      case HARD => 56
    else if 3 <= numLevel < 6 then
      if numLevel == 3 then
        match difficulty
        case EASY => 7
        case MEDIUM => 11
        case HARD => 15
      else
        match difficulty
        case EASY => 17
        case MEDIUM => 25
        case HARD => 35
    else 30
  }

  /**
   * Within a level a harder challenge has a strictly larger parameter: more
   * walls on a random level, a longer minimal walk on a perfect one. Outside
   * the table every challenge gets the same fallback.
   */
  lemma {:induction false} ParameterGrows(numLevel: int, d: Difficulty, e: Difficulty)
    ensures 0 <= numLevel < LevelCount && d.Level() < e.Level() ==>
      ParameterThree(numLevel, d) < ParameterThree(numLevel, e)
    ensures !(0 <= numLevel < LevelCount) ==> ParameterThree(numLevel, d) == ParameterThree(numLevel, e) == 30
  {
  }

  /** Random levels: a wall percentage between 40 and 56; perfect levels: a minimal length between 7 and 35. */
  lemma ParameterRange(numLevel: int, d: Difficulty)
    requires 0 <= numLevel < LevelCount
    ensures LevelType(numLevel) == RANDOM ==> 40 <= ParameterThree(numLevel, d) <= 56
    ensures LevelType(numLevel) == PERFECT ==> 7 <= ParameterThree(numLevel, d) <= 35
  {
  }

  /** A width or height of a challenge of the level: the level's range, or the fallback off the table. */
  predicate InSpan(numLevel: int, x: int, fallback: int) {
    if numLevel == 0 then 15 <= x <= 29
    else if numLevel == 1 || numLevel == 2 then 30 <= x <= 44
    else if numLevel == 3 then 8 <= x <= 11
    else if numLevel == 4 || numLevel == 5 then 20 <= x <= 29
    else x == fallback
  }

  /** The draw of the Java code: a base and a count, the value being base + nextInt(count). */
  function Draw(numLevel: int): (int, int) {
    if numLevel == 0 then (15, 15)
    else if numLevel == 1 || numLevel == 2 then (30, 15)
    else if numLevel == 3 then (8, 4)
    else (20, 10)
  }

  /** Draws a size within the level's range; off the table, the fallback. */
  method RandomSize(numLevel: int, fallback: int) returns (x: int)
    ensures InSpan(numLevel, x, fallback)
  {
    if numLevel < 0 || numLevel >= LevelCount {
      return fallback;
    }
    var (base, count) := Draw(numLevel);
    var k :| 0 <= k < count;
    x := base + k;
  }

  /** A height within the level's range, 10 off the table. */
  method RandomHeight(numLevel: int) returns (h: int)
    ensures InSpan(numLevel, h, 10)
  {
    h := RandomSize(numLevel, 10);
  }

  /** A width within the level's range, 15 off the table. */
  method RandomWidth(numLevel: int) returns (w: int)
    ensures InSpan(numLevel, w, 15)
  {
    w := RandomSize(numLevel, 15);
  }

  /**
   * Every challenge of the table can be built: its sizes and parameter are
   * accepted by the maze of its level, and a random level leaves room for
   * its walls. So preparing a challenge's maze never fails.
   */
  lemma {:induction false} TableBuildable(numLevel: int, d: Difficulty, width: int, height: int)
    requires 0 <= numLevel < LevelCount && InSpan(numLevel, width, 10) && InSpan(numLevel, height, 15)
    ensures Accepted(LevelType(numLevel), width, height, ParameterThree(numLevel, d))
    ensures Ends(LevelType(numLevel), width, height, ParameterThree(numLevel, d))
  {
    if numLevel < 3 {
      var p := ParameterThree(numLevel, d);
      assert p <= 56;
      assert 15 <= width && 15 <= height;
      var n := width * height;
      assert n >= 225 by { MulAtLeast(width, height, 15); }
      assert n * p <= n * 56 by { MulMono(n, p, 56); }
      assert WallTarget(width, height, p) <= (n * 56 + 50) / 100;
      assert (n * 56 + 50) / 100 + 2 <= n;
    }
  }

  lemma MulAtLeast(a: int, b: int, m: int)
    requires 0 <= m <= a && m <= b
    ensures a * b >= m * m
  {
    assert a * b >= m * b >= m * m;
  }

  lemma MulMono(n: int, p: int, q: int)
    requires n >= 0 && p <= q
    ensures n * p <= n * q
  {
  }

  /**
   * A challenge as the table makes it: the grade, the level's parameter for
   * it, sizes in the level's range. The height drawn is handed to the
   * challenge as its width and the width drawn as its height; on the levels
   * of the table both ranges agree, so only the fallbacks trade places.
   */
  predicate Fits(c: Challenge, numLevel: int, d: Difficulty) {
    c.difficulty == d && c.mazeParam == ParameterThree(numLevel, d)
    && InSpan(numLevel, c.width, 10) && InSpan(numLevel, c.height, 15)
  }

  /** Level `numLevel` (from 0) as built: numbered from 1, of its maze type, with an easy, a medium and a hard challenge. */
  predicate Planned(level: Level, numLevel: int) {
    && level.number == numLevel + 1 && level.mazeType == LevelType(numLevel)
    && |level.challenges| == ChallengeCount
    && Fits(level.challenges[0], numLevel, EASY)
    && Fits(level.challenges[1], numLevel, MEDIUM)
    && Fits(level.challenges[2], numLevel, HARD)
  }

  /** The whole table: six levels, each as built. */
  predicate Table(levels: seq<Level>) {
    |levels| == LevelCount && forall i | 0 <= i < LevelCount :: Planned(levels[i], i)
  }

  /**
   * The challenges of a planned level come in the order of the grades, and
   * each one can be built.
   */
  lemma {:induction false} PlannedOrdered(level: Level, numLevel: int, j: int)
    requires 0 <= numLevel < LevelCount && Planned(level, numLevel) && 0 <= j < ChallengeCount
    ensures level.challenges[j].difficulty == Values()[j] && level.challenges[j].difficulty.Level() == j + 1
    ensures var c := level.challenges[j];
      Accepted(level.mazeType, c.width, c.height, c.mazeParam) && Ends(level.mazeType, c.width, c.height, c.mazeParam)
  {
    var c := level.challenges[j];
    var v := Values();
    assert v[0].Level() == 1 && v[1].Level() == 2 && v[2].Level() == 3;
    GradesDistinct(v[j], c.difficulty);
    TableBuildable(numLevel, c.difficulty, c.width, c.height);
  }

  /** The three challenges of a level, fresh and not validated. */
  method BuildChallenges(numLevel: int) returns (challenges: seq<Challenge>)
    ensures |challenges| == ChallengeCount
    ensures Fits(challenges[0], numLevel, EASY) && Fits(challenges[1], numLevel, MEDIUM)
    ensures Fits(challenges[2], numLevel, HARD)
    ensures forall j | 0 <= j < |challenges| :: fresh(challenges[j]) && !challenges[j].valid
  {
    var h0 := RandomHeight(numLevel);
    var w0 := RandomWidth(numLevel);
    var easy := new Challenge(EASY, h0, w0, ParameterThree(numLevel, EASY));
    var h1 := RandomHeight(numLevel);
    var w1 := RandomWidth(numLevel);
    var medium := new Challenge(MEDIUM, h1, w1, ParameterThree(numLevel, MEDIUM));
    var h2 := RandomHeight(numLevel);
    var w2 := RandomWidth(numLevel);
    var hard := new Challenge(HARD, h2, w2, ParameterThree(numLevel, HARD));
    challenges := [easy, medium, hard];
  }

  /**
   * The six levels: three random ones, then three perfect ones, each with
   * an easy, a medium and a hard challenge, all new and none validated.
   */
  method BuildAllLevels() returns (levels: seq<Level>)
    ensures Table(levels)
    ensures forall i, j | 0 <= i < |levels| && 0 <= j < |levels[i].challenges| ::
      fresh(levels[i].challenges[j]) && !levels[i].challenges[j].valid
  {
    levels := [];
    for numLevel := 0 to 3
      invariant |levels| == numLevel && forall i | 0 <= i < numLevel :: Planned(levels[i], i)
      invariant forall i, j | 0 <= i < |levels| && 0 <= j < |levels[i].challenges| ::
        fresh(levels[i].challenges[j]) && !levels[i].challenges[j].valid
    {
      var challenges := BuildChallenges(numLevel);
      var level := new Level(numLevel + 1, RANDOM, challenges);
      levels := levels + [level];
    }
    for numLevel := 3 to 6
      invariant |levels| == numLevel && forall i | 0 <= i < numLevel :: Planned(levels[i], i)
      invariant forall i, j | 0 <= i < |levels| && 0 <= j < |levels[i].challenges| ::
        fresh(levels[i].challenges[j]) && !levels[i].challenges[j].valid
    {
      var challenges := BuildChallenges(numLevel);
      var level := new Level(numLevel + 1, PERFECT, challenges);
      levels := levels + [level];
    }
  }

  /** The maze of the `j`-th challenge of a planned level: of the level's type, the challenge's size and parameter. */
  method BuildChallengeMaze(level: Level, numLevel: int, j: int) returns (m: Maze)
    requires 0 <= numLevel < LevelCount && Planned(level, numLevel) && 0 <= j < ChallengeCount
    ensures fresh(m.Repr())
    ensures var c := level.challenges[j];
      BuiltAs(m, LevelType(numLevel), c.width, c.height, c.mazeParam)
  {
    var c := level.challenges[j];
    PlannedOrdered(level, numLevel, j);
    var built := Build(level.mazeType, c.width, c.height, c.mazeParam);
    assert built.Ok?;
    m := built.value;
  }

  class ProgressionMode {
    const levels: seq<Level>
    var maze: Option<Maze>
    const player: Profil
    var currentLevelIndex: int
    var currentChallengeIndex: int

    /** The table of levels, and the selected level and challenge within it. */
    predicate Valid()
      reads this
    {
      Table(levels) && 0 <= currentLevelIndex < LevelCount && 0 <= currentChallengeIndex < ChallengeCount
    }

    /** The table freshly built, the first challenge of the first level selected, and no maze. */
    constructor (player: Profil)
      ensures Valid() && this.player == player && maze.None?
      ensures currentLevelIndex == 0 && currentChallengeIndex == 0
      ensures forall i, j | 0 <= i < |levels| && 0 <= j < |levels[i].challenges| ::
        fresh(levels[i].challenges[j]) && !levels[i].challenges[j].valid
    {
      var all := BuildAllLevels();
      levels := all;
      this.player := player;
      currentLevelIndex := 0;
      currentChallengeIndex := 0;
      maze := None;
    }

    /** The objects of the current maze, if any. */
    function MazeRepr(): set<object>
      reads this
    {
      if maze.Some? then maze.value.Repr() else {}
    }

    function CurrentLevel(): (level: Level)
      reads this
      requires Valid()
      ensures Planned(level, currentLevelIndex)
    {
      levels[currentLevelIndex]
    }

    /** The selected challenge, of the grade of its index. */
    function CurrentChallenge(): (c: Challenge)
      reads this
      requires Valid()
      ensures c.difficulty == Values()[currentChallengeIndex]
      ensures Fits(c, currentLevelIndex, c.difficulty)
    {
      PlannedOrdered(CurrentLevel(), currentLevelIndex, currentChallengeIndex);
      CurrentLevel().challenges[currentChallengeIndex]
    }

    /**
     * Builds the maze of the selected challenge: of its level's type, with
     * the challenge's width, height and parameter. Every challenge of the
     * table is accepted, so this always succeeds.
     */
    method PrepareMaze()
      requires Valid()
      modifies this`maze
      ensures maze.Some? && fresh(MazeRepr())
      ensures var c := CurrentChallenge();
        BuiltAs(maze.value, LevelType(currentLevelIndex), c.width, c.height, c.mazeParam)
    {
      var m := BuildChallengeMaze(levels[currentLevelIndex], currentLevelIndex, currentChallengeIndex);
      assert this !in m.Repr();
      maze := Some(m);
      assert MazeRepr() == m.Repr();
    }

    /**
     * Selects a level and a challenge and builds its maze. A level outside
     * the six, or a challenge outside the level's three, is refused and
     * nothing changes.
     */
    method SelectLevelAndChallenge(lvl: int, ch: int) returns (r: Result<()>)
      requires Valid()
      modifies this`maze, this`currentLevelIndex, this`currentChallengeIndex
      ensures Valid()
      ensures r.Err? <==> !(0 <= lvl < LevelCount && 0 <= ch < ChallengeCount)
      ensures (lvl < 0 || lvl >= LevelCount) ==> r == Err("Index level out of bounds")
      ensures 0 <= lvl < LevelCount && (ch < 0 || ch >= ChallengeCount) ==> r == Err("Index challenge out of bounds")
      ensures r.Err? ==> unchanged(this)
      ensures r.Ok? ==> currentLevelIndex == lvl && currentChallengeIndex == ch
      ensures r.Ok? ==> maze.Some? && fresh(MazeRepr())
      ensures r.Ok? ==> var c := CurrentChallenge();
        BuiltAs(maze.value, LevelType(lvl), c.width, c.height, c.mazeParam)
    {
      if lvl < 0 || lvl >= |levels| {
        return Err("Index level out of bounds");
      }
      if ch < 0 || ch >= |levels[lvl].challenges| {
        return Err("Index challenge out of bounds");
      }
      currentLevelIndex := lvl;
      currentChallengeIndex := ch;
      PrepareMaze();
      r := Ok(());
    }
  }
}

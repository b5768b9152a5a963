# MadMaze — a verified model of the game's simulation core

MadMaze is a grid-maze game. The player walks from the entrance to the exit
of a maze. The maze is either

- a **random maze**: walls sit on cells, a share of the cells given as a
  percentage, and the entrance and the exit are on opposite sides; or
- a **perfect maze**: a spanning tree carved by a growing-tree algorithm,
  with walls between cells and an exit at least a minimal number of steps
  away when such a cell exists.

Eight game modes put rules on top of the maze:

- **free**: no extra rules;
- **night**: the free mode's rules; the darkness is drawn by the view;
- **fuel**: a tank that fuel cans refill;
- **storm**: sand that spreads from the entrance;
- **race**: against a bot that follows a shortest path;
- **multiple exit**: decoy exits on the border;
- **Mad Max**: the walls are redrawn on a timer while the exit stays put;
- **progression**: six levels of three challenges each, whose completion a
  player profile records.

The project models:

- the cells and directions;
- the two maze generators, their breadth-first shortest-path searches and
  their wall queries;
- every mode's maze preparation and per-move rule;
- the game object that moves the player, reveals cells and decides whether
  the game is won or lost;
- the profile with its challenge flags;
- the difficulty, challenge and level records.

Objects the Java code updates in place are Dafny classes, with `modifies` and
`reads` frames:

- the mazes, with their cell types in an `array2` and, for a perfect maze,
  two `array2<bool>` of walls;
- the cells, the modes, the game and the profile.

Searches and generation are methods with loops and invariants. Each is
proved against a specification in module `Graph`: walks over an explicit set
of moves, reachability and shortest distance. Exceptions become `Result`
values carrying the Java message. A `null` reference becomes `Option`. Every
random draw is a nondeterministic choice (`:|`) among the values the Java
code could draw, so each property holds whatever the draws.

Module layout, one file per Java class or group of classes:

- `grid`, `results`, `text`, `graph`: shared definitions — positions, board
  bounds, integer rendering, walks and distances;
- `cells`, `direction`, `difficulty`, `challenge`, `level`, `profil`;
- `random_maze`, `perfect_maze`;
- `mazes`: the common `Maze` interface;
- `free_mode`, `night_mode`, `fuel_mode`, `storm_mode`, `race_mode`,
  `multiple_exit_mode`, `madmax_mode`, `progression_mode`;
- `modes`: the mode sum;
- `game`.

## Model

| member | source | states |
|---|---|---|
| Cells.RandomCell.constructor | src/main/java/fr/univlille/iut/sae302/madmaze/model/RandomCell.java:21-25 | a new random cell sits at the given row and column and is a PATH |
| Cells.RandomCell.OfType | src/main/java/fr/univlille/iut/sae302/madmaze/model/RandomCell.java:35-39 | a new random cell sits at the given position with the given type |
| Cells.RandomCell.SetWall | src/main/java/fr/univlille/iut/sae302/madmaze/model/RandomCell.java:117-119 | afterwards the cell answers isWall and none of isPath, isFuel, isSand |
| Cells.RandomCell.SetPath | src/main/java/fr/univlille/iut/sae302/madmaze/model/RandomCell.java:125-127 | afterwards the cell answers isPath and none of the other three queries |
| Cells.RandomCell.SetFuel | src/main/java/fr/univlille/iut/sae302/madmaze/model/RandomCell.java:109-111 | afterwards the cell answers isFuel and none of the other three queries |
| Cells.RandomCell.SetSand | src/main/java/fr/univlille/iut/sae302/madmaze/model/RandomCell.java:91-93 | afterwards the cell answers isSand and none of the other three queries |
| Cells.RandomCell.Equals | src/main/java/fr/univlille/iut/sae302/madmaze/model/RandomCell.java:147-152 | true exactly for a random cell at the same position, whatever the types; false for null and for a perfect cell |
| Cells.RandomEqualsConsistent | src/main/java/fr/univlille/iut/sae302/madmaze/model/RandomCell.java:147-162 | equality of random cells is equality of positions, is symmetric, and equal cells have equal hash codes (31 * col + row) |
| Cells.PerfectCell.constructor | src/main/java/fr/univlille/iut/sae302/madmaze/model/PerfectCell.java:13-17 | a new perfect cell sits at the given position and is a PATH |
| Cells.PerfectCell.OfType | src/main/java/fr/univlille/iut/sae302/madmaze/model/PerfectCell.java:19-23 | a new perfect cell sits at the given position with the given type |
| Cells.PerfectCell.SetFuel | src/main/java/fr/univlille/iut/sae302/madmaze/model/PerfectCell.java:37-39 | afterwards the cell is fuel, not a wall nor sand, and still walkable (isPath is always true) |
| Cells.PerfectCell.SetPath | src/main/java/fr/univlille/iut/sae302/madmaze/model/PerfectCell.java:69-71 | afterwards the type is PATH and none of isWall, isFuel, isSand holds |
| Cells.PerfectCell.SetSand | src/main/java/fr/univlille/iut/sae302/madmaze/model/PerfectCell.java:77-79 | afterwards the cell is sand, not a wall nor fuel, and still walkable |
| Cells.PerfectCell.Equals | src/main/java/fr/univlille/iut/sae302/madmaze/model/PerfectCell.java:42-47 | true exactly for a perfect cell at the same position; false for null and for a random cell |
| Cells.PerfectEqualsConsistent | src/main/java/fr/univlille/iut/sae302/madmaze/model/PerfectCell.java:42-52 | equality is position equality, symmetric, equal cells hash alike (31 * row + col), and a perfect cell never equals a random cell |
| Directions.Step | src/main/java/fr/univlille/iut/sae302/madmaze/model/Direction.java:15-30 | one step in a direction lands on an orthogonal neighbour, moved by (dy, dx) of that direction |
| Directions.AllDirections | src/main/java/fr/univlille/iut/sae302/madmaze/model/Direction.java:99-101 | the four directions in declaration order Z, Q, S, D, each exactly once |
| Directions.StepsAreTheNeighbours | src/main/java/fr/univlille/iut/sae302/madmaze/model/Direction.java:15-30 | the cells one step away are exactly the orthogonal neighbours, and different directions lead to different cells |
| Directions.NextCell | src/main/java/fr/univlille/iut/sae302/madmaze/model/Direction.java:82-92 | a fresh cell of the same class one step away; a random cell keeps its type, a perfect cell comes back as PATH; a missing cell is refused |
| Difficulties.Values | src/main/java/fr/univlille/iut/sae302/madmaze/model/Difficulty.java:12-20 | the three difficulties, in the order of their levels 1, 2, 3 |
| Difficulties.GradesDistinct | src/main/java/fr/univlille/iut/sae302/madmaze/model/Difficulty.java:12-37 | levels lie in 1..3, and both the level and the label identify the difficulty |
| Difficulties.FromLevel | src/main/java/fr/univlille/iut/sae302/madmaze/model/Difficulty.java:39-44 | the difficulty whose level is the argument, and "Niveau inconnu" exactly when the level is outside 1..3 |
| Challenges.Challenge.constructor | src/main/java/fr/univlille/iut/sae302/madmaze/model/Challenge.java:22-27 | a new challenge keeps its difficulty, size and parameter and is not validated |
| Challenges.Challenge.ValidateChallenge | src/main/java/fr/univlille/iut/sae302/madmaze/model/Challenge.java:34-36 | afterwards the challenge is validated |
| Challenges.Challenge.Summary | src/main/java/fr/univlille/iut/sae302/madmaze/model/Challenge.java:56-59 | the text is the label, " -  ", the height, "x", the width, ", param: " and the parameter, each int in Java's decimal form; so it starts with the label and ends with a digit |
| Challenges.SummaryDetermines | src/main/java/fr/univlille/iut/sae302/madmaze/model/Challenge.java:56-59 | two challenges of one difficulty with the same text have the same height, width and parameter |
| Challenges.Challenge.ToString | src/main/java/fr/univlille/iut/sae302/madmaze/model/Challenge.java:55-62 | the text starts with the label, and ends with " [VALIDÉ]" exactly when the challenge is validated |
| Challenges.PrefixKept | src/main/java/fr/univlille/iut/sae302/madmaze/model/Challenge.java:56-60 | appending the mark keeps the label at the front |
| Challenges.Marked | src/main/java/fr/univlille/iut/sae302/madmaze/model/Challenge.java:59-60 | a text ending in a digit does not end with the mark, and does once the mark is appended |
| Text.NatToString | src/main/java/fr/univlille/iut/sae302/madmaze/model/Challenge.java:58-59 | the decimal form of a natural number: digits only, no leading zero |
| Text.IntToString | src/main/java/fr/univlille/iut/sae302/madmaze/model/Challenge.java:58-59 | Java's decimal form of an int: it ends in a digit and starts with '-' exactly for a negative value |
| Text.DigitsRoundTrip | src/main/java/fr/univlille/iut/sae302/madmaze/model/Profil.java:137 | reading the decimal form back gives the number |
| Text.IntToStringInjective | src/main/java/fr/univlille/iut/sae302/madmaze/model/Profil.java:137 | different numbers have different decimal forms |
| Levels.Level.constructor | src/main/java/fr/univlille/iut/sae302/madmaze/model/Level.java:16-20 | a new level keeps its number, maze type and challenges |
| Levels.Level.GetChallenge | src/main/java/fr/univlille/iut/sae302/madmaze/model/Level.java:28-31 | the challenge at the index, and "Index challenge out of bounds" exactly for an index outside the list |
| Profiles.Profil.GoodName | src/main/java/fr/univlille/iut/sae302/madmaze/model/Profil.java:61-68 | true exactly when no registered player has that name |
| Profiles.Profil.constructor | src/main/java/fr/univlille/iut/sae302/madmaze/model/Profil.java:10-13 | a new profile has its name and password, score 0 and 18 unset challenge flags |
| Profiles.Profil.Create | src/main/java/fr/univlille/iut/sae302/madmaze/model/Profil.java:16-35 | refused exactly when the name is blank or taken, the password is empty, or the confirmation differs, each with its Java message in that order of checks ("Le nom ne peut pas être vide.", "Le nom est incorrect.", "Le mot de passe ne peut pas être vide.", "Les mots de passe ne correspondent pas."); otherwise a fresh profile with score 0 and no flag |
| Profiles.Profil.FinishChallengeAt | src/main/java/fr/univlille/iut/sae302/madmaze/model/Profil.java:91-93 | sets exactly flag `index`; an index outside 0..17 fails with Java's out-of-bounds message and changes nothing |
| Profiles.Profil.FinishChallenge | src/main/java/fr/univlille/iut/sae302/madmaze/model/Profil.java:70-89 | for a level 0..5 sets exactly flag 3 * level + challenge (failing when that is outside 0..17); any other level changes nothing |
| Profiles.Profil.HasPermission | src/main/java/fr/univlille/iut/sae302/madmaze/model/Profil.java:95-126 | level 1 is always open; level k in 2..6 exactly when a challenge of level k - 1 is completed; no other level |
| Profiles.Profil.GetLastValidate | src/main/java/fr/univlille/iut/sae302/madmaze/model/Profil.java:128-143 | "Aucun" when no flag is set; otherwise i / 3 + 2 followed by a space, for the highest set flag i |
| RandomMazes.PlaceableMono | src/main/java/fr/univlille/iut/sae302/madmaze/model/RandomMaze.java:435-451 | lowering the wall percentage never asks for more walls and keeps the wall loop able to end |
| RandomMazes.NoWallsAtZero | src/main/java/fr/univlille/iut/sae302/madmaze/model/RandomMaze.java:266 | a percentage of zero asks for no wall (rounding width * height * p / 100) |
| RandomMazes.AdjacentCells | src/main/java/fr/univlille/iut/sae302/madmaze/model/RandomMaze.java:526-531 | adjacent holds exactly for two present cells one step apart along one axis |
| RandomMazes.ScanNew | src/main/java/fr/univlille/iut/sae302/madmaze/model/RandomMaze.java:93-97 | a neighbour not yet visited gets label one beyond the dequeued cell, its parent link and a place at the back of the queue, keeping the scan invariant |
| RandomMazes.ScanKnown | src/main/java/fr/univlille/iut/sae302/madmaze/model/RandomMaze.java:93 | a neighbour already visited is at most one level beyond the dequeued cell, so skipping it keeps the scan invariant |
| RandomMazes.RandomMaze.IsWall | src/main/java/fr/univlille/iut/sae302/madmaze/model/RandomMaze.java:242-244 | true exactly on a WALL cell of the board, false off the board |
| RandomMazes.RandomMaze.IsWallOnWalls | src/main/java/fr/univlille/iut/sae302/madmaze/model/RandomMaze.java:242-244 | IsWall answers true exactly on the cells of Walls, the walls of the board |
| RandomMazes.RandomMaze.Moves | src/main/java/fr/univlille/iut/sae302/madmaze/model/RandomMaze.java:295-308 | the moves of the search are exactly the steps to an orthogonal neighbour on the board that is not a wall |
| RandomMazes.RandomMaze.MovesAvoidWalls | src/main/java/fr/univlille/iut/sae302/madmaze/model/RandomMaze.java:516-531 | a move is exactly an adjacent step onto a valid position that is not a wall |
| RandomMazes.RandomMaze.WallsAndFreeCells | src/main/java/fr/univlille/iut/sae302/madmaze/model/RandomMaze.java:720-744 | walls and free cells split the board: their counts add up to width * height |
| RandomMazes.RandomMaze.Neighbors | src/main/java/fr/univlille/iut/sae302/madmaze/model/RandomMaze.java:295-308 | the neighbours returned are exactly the orthogonal neighbours on the board that are not walls, without repetition |
| RandomMazes.RandomMaze.IsWallCell | src/main/java/fr/univlille/iut/sae302/madmaze/model/RandomMaze.java:228-234 | true exactly for a present cell that is a wall of the board |
| RandomMazes.RandomMaze.IsDirectlyReachable | src/main/java/fr/univlille/iut/sae302/madmaze/model/RandomMaze.java:516-518 | a direct step joins two present, adjacent cells |
| RandomMazes.RandomMaze.DirectlyReachableMoves | src/main/java/fr/univlille/iut/sae302/madmaze/model/RandomMaze.java:516-518 | on the board a direct step is a move both ways, and the relation is symmetric |
| RandomMazes.RandomMaze.IsEnd | src/main/java/fr/univlille/iut/sae302/madmaze/model/RandomMaze.java:504-506 | true exactly at the exit's position |
| RandomMazes.RandomMaze.GetCell | src/main/java/fr/univlille/iut/sae302/madmaze/model/RandomMaze.java:681-686 | the cell at a position on the board, null off it |
| RandomMazes.RandomMaze.SetWall | src/main/java/fr/univlille/iut/sae302/madmaze/model/RandomMaze.java:585-589 | turns exactly that cell into a wall when it is on the board; no other cell changes |
| RandomMazes.RandomMaze.SetEnd | src/main/java/fr/univlille/iut/sae302/madmaze/model/RandomMaze.java:552-556 | the exit moves to (row, col) when that is on the board, and stays otherwise; the entrance and the percentage stay |
| RandomMazes.RandomMaze.FindOptimalPath | src/main/java/fr/univlille/iut/sae302/madmaze/model/RandomMaze.java:54-102 | [source] when source is target; empty exactly when the target cannot be reached; otherwise a walk from source to target of shortest length |
| RandomMazes.RandomMaze.NewVisited | src/main/java/fr/univlille/iut/sae302/madmaze/model/RandomMaze.java:69-73 | a fresh visited table of the board's size marking the source only |
| RandomMazes.RandomMaze.Search | src/main/java/fr/univlille/iut/sae302/madmaze/model/RandomMaze.java:76-101 | the queue loop answers true with the target labelled by its shortest distance, and false only when the target cannot be reached |
| RandomMazes.RandomMaze.Advance | src/main/java/fr/univlille/iut/sae302/madmaze/model/RandomMaze.java:76-98 | one dequeue keeps the breadth-first invariant, the visited marks and the parent tree, and processes one more cell |
| RandomMazes.RandomMaze.Expand | src/main/java/fr/univlille/iut/sae302/madmaze/model/RandomMaze.java:84-98 | queuing the unvisited neighbours of the dequeued cell keeps the breadth-first invariant, the marks and the parent tree |
| RandomMazes.RandomMaze.Visit | src/main/java/fr/univlille/iut/sae302/madmaze/model/RandomMaze.java:93-97 | one neighbour handled: marked, linked and queued when new, the scan invariant moves one neighbour on |
| RandomMazes.RandomMaze.Mark | src/main/java/fr/univlille/iut/sae302/madmaze/model/RandomMaze.java:96 | marking a newly labelled cell keeps visited equal to the labelled cells |
| RandomMazes.RandomMaze.ReconstructPath | src/main/java/fr/univlille/iut/sae302/madmaze/model/RandomMaze.java:213-219 | following the parent links back from a labelled cell gives a walk from the source to it with one cell per level |
| RandomMazes.RandomMaze.OptimalPathLength | src/main/java/fr/univlille/iut/sae302/madmaze/model/RandomMaze.java:110-114 | the shortest distance from the entrance to the exit, -1 when there is none |
| RandomMazes.RandomMaze.SetEndCell | src/main/java/fr/univlille/iut/sae302/madmaze/model/RandomMaze.java:539-544 | the exit moves to a present cell on the board, and stays otherwise |
| RandomMazes.RandomMaze.ResetCells | src/main/java/fr/univlille/iut/sae302/madmaze/model/RandomMaze.java:255-259 | every cell of the board becomes a path |
| RandomMazes.RandomMaze.BorderPosition | src/main/java/fr/univlille/iut/sae302/madmaze/model/RandomMaze.java:403-428 | a cell of the board on the requested side, with that side; a side outside 0..3 is refused |
| RandomMazes.RandomMaze.RandomBorderPosition | src/main/java/fr/univlille/iut/sae302/madmaze/model/RandomMaze.java:391-394 | a cell of the board on some side 0..3, with that side |
| RandomMazes.RandomMaze.EnsureStartEndOpposite | src/main/java/fr/univlille/iut/sae302/madmaze/model/RandomMaze.java:362-389 | entrance and exit on the board with the exit on the side opposite the entrance's; a later call keeps the entrance; both become paths and no other cell changes |
| RandomMazes.RandomMaze.PlaceWalls | src/main/java/fr/univlille/iut/sae302/madmaze/model/RandomMaze.java:266-280 | exactly target new walls, none on the entrance, the exit or an existing wall; no other cell changes |
| RandomMazes.RandomMaze.WallsAre | src/main/java/fr/univlille/iut/sae302/madmaze/model/RandomMaze.java:266-280 | the walls of the board are exactly the cells laid |
| RandomMazes.RandomMaze.OpenNeighborPath | src/main/java/fr/univlille/iut/sae302/madmaze/model/RandomMaze.java:318-338 | opens exactly one neighbour on the board other than the excluded cell, or nothing when there is none |
| RandomMazes.RandomMaze.Generate | src/main/java/fr/univlille/iut/sae302/madmaze/model/RandomMaze.java:251-287 | a drawn board (cells WALL or PATH, entrance and exit open with an open neighbour) with the ends on opposite sides and between target - 2 and target walls |
| RandomMazes.RandomMaze.Lay | src/main/java/fr/univlille/iut/sae302/madmaze/model/RandomMaze.java:254-280 | a board of paths, the ends on opposite sides, and target walls on the other cells |
| RandomMazes.RandomMaze.PlaceEnds | src/main/java/fr/univlille/iut/sae302/madmaze/model/RandomMaze.java:254-263 | a board of paths with the entrance and the exit on opposite sides |
| RandomMazes.RandomMaze.Finish | src/main/java/fr/univlille/iut/sae302/madmaze/model/RandomMaze.java:282-286 | after the two openings the board is drawn and keeps all but at most two of the walls laid |
| RandomMazes.RandomMaze.FinishCount | src/main/java/fr/univlille/iut/sae302/madmaze/model/RandomMaze.java:282-286 | the two openings take back at most two walls |
| RandomMazes.Around | src/main/java/fr/univlille/iut/sae302/madmaze/model/RandomMaze.java:297-299 | the k-th neighbour in the scan order right, below, left, above is a neighbour, and its place in that order is k |
| RandomMazes.AroundAll | src/main/java/fr/univlille/iut/sae302/madmaze/model/RandomMaze.java:297-299 | every neighbour comes in the scan order, at its own place |
| RandomMazes.NextAttempt | src/main/java/fr/univlille/iut/sae302/madmaze/model/RandomMaze.java:445-450 | counting one more attempt moves one step round the cycle of 500, so the percentage drops once every 500 attempts |
| RandomMazes.RandomMaze.FinishDrawn | src/main/java/fr/univlille/iut/sae302/madmaze/model/RandomMaze.java:251-287 | walls laid off the entrance and exit, with a free neighbour opened next to each where there is one, give a drawn board |
| RandomMazes.RandomMaze.Reopened | src/main/java/fr/univlille/iut/sae302/madmaze/model/RandomMaze.java:282-286 | the walls left are the walls laid less the cells opened |
| RandomMazes.RandomMaze.RoomForWalls | src/main/java/fr/univlille/iut/sae302/madmaze/model/RandomMaze.java:269-280 | a board of paths has enough cells besides the ends for the walls asked, so the wall loop ends |
| RandomMazes.RandomMaze.WallCount | src/main/java/fr/univlille/iut/sae302/madmaze/model/RandomMaze.java:282-286 | removing up to two cells from the laid walls leaves between |S| - 2 and |S| walls |
| RandomMazes.RandomMaze.GenerateMaze | src/main/java/fr/univlille/iut/sae302/madmaze/model/RandomMaze.java:435-451 | the loop ends with the exit reachable from the entrance, the ends on opposite sides, a percentage between 0 and the initial one, and no more walls than the initial percentage asks |
| RandomMazes.RandomMaze.Attempt | src/main/java/fr/univlille/iut/sae302/madmaze/model/RandomMaze.java:443-450 | one more generation keeping the entrance, the percentage lowered by one exactly on a 500th attempt, and the path looked for again |
| RandomMazes.RandomMaze.FinishedKept | src/main/java/fr/univlille/iut/sae302/madmaze/model/RandomMaze.java:449 | lowering the percentage does not undo a finished board |
| RandomMazes.RandomMaze.Regenerate | src/main/java/fr/univlille/iut/sae302/madmaze/model/RandomMaze.java:443-444 | one generation and search: a drawn board, and an empty path only when the exit is out of reach at a non-zero percentage |
| RandomMazes.RandomMaze.OppositeOnBorder | src/main/java/fr/univlille/iut/sae302/madmaze/model/RandomMaze.java:362-389 | an entrance with the exit on the opposite side lies on the border |
| RandomMazes.RandomMaze.OpenWalk | src/main/java/fr/univlille/iut/sae302/madmaze/model/RandomMaze.java:443-450 | on a board without walls a walk of Manhattan length joins any two cells |
| RandomMazes.RandomMaze.WallFreeReachable | src/main/java/fr/univlille/iut/sae302/madmaze/model/RandomMaze.java:443-450 | without walls the exit is always reachable, so the loop ends once the percentage reaches zero |
| RandomMazes.RandomMaze.CountWalls | src/main/java/fr/univlille/iut/sae302/madmaze/model/RandomMaze.java:736-744 | the number of walls of the board |
| RandomMazes.RandomMaze.CountFreeCells | src/main/java/fr/univlille/iut/sae302/madmaze/model/RandomMaze.java:720-729 | the number of cells that are not walls |
| RandomMazes.RandomMaze.FindLongerPath | src/main/java/fr/univlille/iut/sae302/madmaze/model/RandomMaze.java:125-155 | when found, a walk without repeated cells between two cells of the board, strictly longer than a shortest one and at most height * width / 2 cells longer; when none is reported for two cells of the board, no repeat-free walk between them has a length in that window |
| RandomMazes.RandomMaze.Dfs | src/main/java/fr/univlille/iut/sae302/madmaze/model/RandomMaze.java:168-204 | on success the path is extended by a walk through current to the end, longer than required and within the depth bound; on failure path and marks are restored and no repeat-free walk continuing the path through current to the end has a length in (minRequired, height * width / 2 + minRequired + 1] |
| RandomMazes.NoneThrough | src/main/java/fr/univlille/iut/sae302/madmaze/model/RandomMaze.java:184-202 | when no successor of the current cell leads to a long enough walk and the current cell is not such an exit, no repeat-free walk through the current cell does |
| RandomMazes.RandomMaze.Enter | src/main/java/fr/univlille/iut/sae302/madmaze/model/RandomMaze.java:177-178 | current is appended and marked; the path stays a walk without repeats |
| RandomMazes.RandomMaze.Leave | src/main/java/fr/univlille/iut/sae302/madmaze/model/RandomMaze.java:201-202 | current is taken off and unmarked; nothing else changes |
| RandomMazes.RandomMaze.Explore | src/main/java/fr/univlille/iut/sae302/madmaze/model/RandomMaze.java:186-198 | the neighbours are tried in order until a search succeeds; on failure the marks are as before and no repeat-free walk continuing the path through any of them reaches the end with a length in the search window |
| RandomMazes.RandomMaze.constructor | src/main/java/fr/univlille/iut/sae302/madmaze/model/RandomMaze.java:33-44 | a board of the given size, generated until the exit is reachable, ends on opposite sides, the percentage at most the one asked |
| RandomMazes.RandomMaze.Create | src/main/java/fr/univlille/iut/sae302/madmaze/model/RandomMaze.java:33-44 | refused exactly for a non-positive size or a percentage outside 0..100; otherwise as the constructor |
| RandomMazes.RandomMaze.SetWallPercentage | src/main/java/fr/univlille/iut/sae302/madmaze/model/RandomMaze.java:623-625 | the percentage is set, unchecked |
| RandomMazes.RandomMaze.SetStart | src/main/java/fr/univlille/iut/sae302/madmaze/model/RandomMaze.java:564-567 | the entrance is set, unchecked; exit and percentage stay |
| PerfectMazes.WallOf | src/main/java/fr/univlille/iut/sae302/madmaze/model/PerfectMaze.java:234-243 | the slot between two neighbours, the same whichever order they come in, and a slot of the board when both are on it |
| PerfectMazes.WallOfSides | src/main/java/fr/univlille/iut/sae302/madmaze/model/PerfectMaze.java:290-298 | every slot lies between exactly its two sides |
| PerfectMazes.AllWalls | src/main/java/fr/univlille/iut/sae302/madmaze/model/PerfectMaze.java:31-32 | the slots of the two wall arrays are exactly the valid slots |
| PerfectMazes.EdgesOf | src/main/java/fr/univlille/iut/sae302/madmaze/model/PerfectMaze.java:158-171 | the steps through a set of open slots are exactly the steps between neighbours whose slot is in the set |
| PerfectMazes.CarveGrow | src/main/java/fr/univlille/iut/sae302/madmaze/model/PerfectMaze.java:94-98 | opening the slot from a visited cell to an unvisited neighbour adds that neighbour to the carving, with one new slot and a walk from the first cell |
| PerfectMazes.RemoveAt | src/main/java/fr/univlille/iut/sae302/madmaze/model/PerfectMaze.java:100 | the list without the entry at index, the others in order |
| PerfectMazes.IsAdjacent | src/main/java/fr/univlille/iut/sae302/madmaze/model/PerfectMaze.java:269-273 | the absolute-difference test holds exactly for orthogonal neighbours |
| PerfectMazes.PerfectMaze.Passages | src/main/java/fr/univlille/iut/sae302/madmaze/model/PerfectMaze.java:157-171 | a step is a passage exactly between neighbours on the board whose slot is open |
| PerfectMazes.PerfectMaze.PassagesSymmetric | src/main/java/fr/univlille/iut/sae302/madmaze/model/PerfectMaze.java:225-248 | every passage can be walked both ways |
| PerfectMazes.PerfectMaze.ClosedExceptWallAt | src/main/java/fr/univlille/iut/sae302/madmaze/model/PerfectMaze.java:225-248 | when the open slots are O, a slot is a wall exactly when it is not in O |
| PerfectMazes.PerfectMaze.IsWall | src/main/java/fr/univlille/iut/sae302/madmaze/model/PerfectMaze.java:225-248 | refused exactly for cells that are not neighbours; true when one of them is off the board; otherwise whether the slot between them is closed |
| PerfectMazes.PerfectMaze.IsWallPassage | src/main/java/fr/univlille/iut/sae302/madmaze/model/PerfectMaze.java:225-248 | isWall answers false exactly for a passage |
| PerfectMazes.PerfectMaze.IsWallSymmetric | src/main/java/fr/univlille/iut/sae302/madmaze/model/PerfectMaze.java:225-248 | the answer does not depend on the order of the two cells |
| PerfectMazes.PerfectMaze.Neighbors | src/main/java/fr/univlille/iut/sae302/madmaze/model/PerfectMaze.java:307-314 | the neighbours above, below, left and right that lie on the board, without repetition |
| PerfectMazes.PerfectMaze.IsDirectlyReachable | src/main/java/fr/univlille/iut/sae302/madmaze/model/PerfectMaze.java:157-171 | true exactly for two present cells joined by a passage |
| PerfectMazes.PerfectMaze.IsDirectlyReachableSymmetric | src/main/java/fr/univlille/iut/sae302/madmaze/model/PerfectMaze.java:157-171 | the relation is symmetric |
| PerfectMazes.PerfectMaze.GetCell | src/main/java/fr/univlille/iut/sae302/madmaze/model/PerfectMaze.java:451-457 | the cell at a position on the board, null off it |
| PerfectMazes.PerfectMaze.IsEnd | src/main/java/fr/univlille/iut/sae302/madmaze/model/PerfectMaze.java:477-480 | true exactly at the exit |
| PerfectMazes.PerfectMaze.SetStart | src/main/java/fr/univlille/iut/sae302/madmaze/model/PerfectMaze.java:427-433 | the entrance is set, the exit stays |
| PerfectMazes.PerfectMaze.SetEnd | src/main/java/fr/univlille/iut/sae302/madmaze/model/PerfectMaze.java:435-441 | the exit is set, the entrance stays |
| PerfectMazes.PerfectMaze.RemoveWall | src/main/java/fr/univlille/iut/sae302/madmaze/model/PerfectMaze.java:282-299 | opens exactly the slot between two neighbours on the board; cells that are not neighbours or not on the board are refused and nothing changes |
| PerfectMazes.PerfectMaze.ResetCells | src/main/java/fr/univlille/iut/sae302/madmaze/model/PerfectMaze.java:48-52 | every cell becomes a path |
| PerfectMazes.PerfectMaze.CloseAllWalls | src/main/java/fr/univlille/iut/sae302/madmaze/model/PerfectMaze.java:67-76 | every slot is closed |
| PerfectMazes.PerfectMaze.UnvisitedNeighbors | src/main/java/fr/univlille/iut/sae302/madmaze/model/PerfectMaze.java:88-92 | exactly the neighbours on the board not visited yet |
| PerfectMazes.PerfectMaze.Carve | src/main/java/fr/univlille/iut/sae302/madmaze/model/PerfectMaze.java:55-102 | from all slots closed, the growing-tree loop ends with the passages forming a spanning tree: connected, with width * height - 1 open slots |
| PerfectMazes.PerfectMaze.Retire | src/main/java/fr/univlille/iut/sae302/madmaze/model/PerfectMaze.java:99-100 | dropping a listed cell whose neighbours are all visited keeps the carving invariant |
| PerfectMazes.PerfectMaze.GrowTo | src/main/java/fr/univlille/iut/sae302/madmaze/model/PerfectMaze.java:94-98 | one growing step visits one more cell and keeps the carving invariant |
| PerfectMazes.PerfectMaze.CarvedTree | src/main/java/fr/univlille/iut/sae302/madmaze/model/PerfectMaze.java:79-102 | when the loop ends the visited cells are the whole board and the carved slots form a spanning tree |
| PerfectMazes.PerfectMaze.CarvedArePassages | src/main/java/fr/univlille/iut/sae302/madmaze/model/PerfectMaze.java:94-98 | a step across a carved slot is a passage |
| PerfectMazes.PerfectMaze.ShortestDistancesFrom | src/main/java/fr/univlille/iut/sae302/madmaze/model/PerfectMaze.java:321-340 | each entry is the number of steps of a shortest path from the source, -1 where the cell cannot be reached |
| PerfectMazes.PerfectMaze.Explore | src/main/java/fr/univlille/iut/sae302/madmaze/model/PerfectMaze.java:329-338 | the queue loop ends with every reachable cell labelled by its distance |
| PerfectMazes.PerfectMaze.ExploreStep | src/main/java/fr/univlille/iut/sae302/madmaze/model/PerfectMaze.java:330-337 | one dequeue keeps the breadth-first invariant and processes one more cell |
| PerfectMazes.PerfectMaze.NewDistances | src/main/java/fr/univlille/iut/sae302/madmaze/model/PerfectMaze.java:323-327 | a fresh table with 0 at the source and -1 elsewhere |
| PerfectMazes.PerfectMaze.LabelsAreDistances | src/main/java/fr/univlille/iut/sae302/madmaze/model/PerfectMaze.java:321-340 | once every reachable cell carries its distance, the table is the distance table |
| PerfectMazes.PerfectMaze.ExpandFrom | src/main/java/fr/univlille/iut/sae302/madmaze/model/PerfectMaze.java:331-337 | labelling the unlabelled neighbours through open slots keeps the breadth-first invariant |
| PerfectMazes.PerfectMaze.Relax | src/main/java/fr/univlille/iut/sae302/madmaze/model/PerfectMaze.java:332-336 | one neighbour handled, labelled and queued when behind an open slot and unlabelled |
| PerfectMazes.PerfectMaze.Discover | src/main/java/fr/univlille/iut/sae302/madmaze/model/PerfectMaze.java:334-335 | a neighbour behind an open slot without a label gets the label one beyond and joins the queue |
| PerfectMazes.PerfectMaze.DiscoverScan | src/main/java/fr/univlille/iut/sae302/madmaze/model/PerfectMaze.java:334-335 | the new label keeps the shape of the search |
| PerfectMazes.PerfectMaze.Pass | src/main/java/fr/univlille/iut/sae302/madmaze/model/PerfectMaze.java:332-333 | a neighbour behind a wall or already labelled changes nothing |
| PerfectMazes.PerfectMaze.Label | src/main/java/fr/univlille/iut/sae302/madmaze/model/PerfectMaze.java:334 | writing a new label keeps the table equal to the labels |
| PerfectMazes.PerfectMaze.FindOptimalPath | src/main/java/fr/univlille/iut/sae302/madmaze/model/PerfectMaze.java:180-215 | empty exactly when the target cannot be reached; otherwise a walk from source to target of shortest length |
| PerfectMazes.PerfectMaze.WalkBack | src/main/java/fr/univlille/iut/sae302/madmaze/model/PerfectMaze.java:192-211 | from the target back to the source, one step down in distance at a time, one cell per level |
| PerfectMazes.PerfectMaze.StepBack | src/main/java/fr/univlille/iut/sae302/madmaze/model/PerfectMaze.java:197-210 | a neighbour through an open slot one closer to the source always exists, so the empty fallback is never taken |
| PerfectMazes.PerfectMaze.StepDown | src/main/java/fr/univlille/iut/sae302/madmaze/model/PerfectMaze.java:199-206 | the first neighbour through an open slot at distance d - 1 |
| PerfectMazes.PerfectMaze.OptimalPathLength | src/main/java/fr/univlille/iut/sae302/madmaze/model/PerfectMaze.java:346-348 | the shortest distance from the entrance to the exit, -1 when there is none |
| PerfectMazes.PerfectMaze.CollectFarCells | src/main/java/fr/univlille/iut/sae302/madmaze/model/PerfectMaze.java:121-134 | exactly the cells at distance at least minLength, and the largest distance (from 0) |
| PerfectMazes.PerfectMaze.CollectCellsAt | src/main/java/fr/univlille/iut/sae302/madmaze/model/PerfectMaze.java:137-146 | exactly the cells at the given distance |
| PerfectMazes.PerfectMaze.SelectStartAndEnd | src/main/java/fr/univlille/iut/sae302/madmaze/model/PerfectMaze.java:112-149 | the exit differs from the entrance and is at least minLength away when some cell is, otherwise at the largest distance |
| PerfectMazes.PerfectMaze.ChooseStartAndEnd | src/main/java/fr/univlille/iut/sae302/madmaze/model/PerfectMaze.java:112-149 | the two cells drawn meet the exit rule for the passages of the maze |
| PerfectMazes.PerfectMaze.ChooseEnd | src/main/java/fr/univlille/iut/sae302/madmaze/model/PerfectMaze.java:121-148 | a cell at distance at least minLength when one exists, otherwise a farthest cell |
| PerfectMazes.PerfectMaze.ExitChoiceCorrect | src/main/java/fr/univlille/iut/sae302/madmaze/model/PerfectMaze.java:112-149 | on a connected board of at least two cells the chosen exit meets the exit rule and differs from the entrance |
| PerfectMazes.PerfectMaze.GenerateMaze | src/main/java/fr/univlille/iut/sae302/madmaze/model/PerfectMaze.java:45-107 | a generated maze: path cells, passages forming a spanning tree, entrance and exit placed by the exit rule |
| PerfectMazes.PerfectMaze.constructor | src/main/java/fr/univlille/iut/sae302/madmaze/model/PerfectMaze.java:24-40 | a generated maze of the given size and minimal length |
| PerfectMazes.PerfectMaze.Create | src/main/java/fr/univlille/iut/sae302/madmaze/model/PerfectMaze.java:24-40 | refused exactly for a side below 2 or a minimal length below 1; otherwise as the constructor |
| Graph.ShortestDistance | src/main/java/fr/univlille/iut/sae302/madmaze/model/RandomMaze.java:54-102 | the length of a shortest walk between two cells, -1 exactly when there is no walk |
| Graph.BfsComplete | src/main/java/fr/univlille/iut/sae302/madmaze/model/RandomMaze.java:76-101 | when the queue of a breadth-first search is empty, the labelled cells are exactly the reachable ones and each label is a shortest walk length |
| Graph.BfsHeadIsShortest | src/main/java/fr/univlille/iut/sae302/madmaze/model/RandomMaze.java:77-81 | the cell taken from the head of the queue already carries its shortest distance |
| Graph.BfsDistances | src/main/java/fr/univlille/iut/sae302/madmaze/model/RandomMaze.java:76-99 | a finished search labels each cell with its shortest distance and labels no unreachable cell |
| Graph.ShortestPredecessor | src/main/java/fr/univlille/iut/sae302/madmaze/model/PerfectMaze.java:192-206 | a cell at distance d >= 1 has a neighbour one step before it at distance d - 1 |
| Graph.ShortestWalkLeavesSource | src/main/java/fr/univlille/iut/sae302/madmaze/model/FuelMode.java:141-145 | a shortest walk never returns to its first cell, so no can taken from its inner cells is the entrance |
| Graph.ShortestWalkRepeatFree | src/main/java/fr/univlille/iut/sae302/madmaze/model/FuelMode.java:167-188 | a shortest walk never visits a cell twice, so the index of a can on the walk (indexOf) is its distance from the entrance along the walk |
| Graph.DistanceZeroIff | src/main/java/fr/univlille/iut/sae302/madmaze/model/PerfectMaze.java:196 | distance 0 holds exactly between a cell and itself |
| Graph.ReachViaCommon | src/main/java/fr/univlille/iut/sae302/madmaze/model/PerfectMaze.java:112-149 | when moves can be undone, two cells reachable from a common cell reach each other |
| Grid.ClosedSetCoversBoard | src/main/java/fr/univlille/iut/sae302/madmaze/model/PerfectMaze.java:79-102 | a set holding one cell and every board neighbour of its members holds the whole board |
| Mazes.Maze.GetCell | src/main/java/fr/univlille/iut/sae302/madmaze/model/Maze.java:24 | the cell at a position on the board, null off it |
| Mazes.Maze.IsDirectlyReachable | src/main/java/fr/univlille/iut/sae302/madmaze/model/Maze.java:9 | true on the board exactly when the move is allowed both ways; only ever for neighbours |
| Mazes.Maze.IsEnd | src/main/java/fr/univlille/iut/sae302/madmaze/model/Maze.java:26 | true exactly at the exit |
| Mazes.Maze.FindOptimalPath | src/main/java/fr/univlille/iut/sae302/madmaze/model/Maze.java:12 | empty exactly when the target cannot be reached, otherwise a shortest walk between the two cells |
| Mazes.Maze.OptimalPathLength | src/main/java/fr/univlille/iut/sae302/madmaze/model/Maze.java:28 | the shortest distance from the entrance to the exit, -1 when there is none |
| Mazes.Maze.SetEnd | src/main/java/fr/univlille/iut/sae302/madmaze/model/Maze.java:15 | the exit moves to the cell (a random maze ignores a cell off the board); the entrance stays |
| Mazes.BuildFor | src/main/java/fr/univlille/iut/sae302/madmaze/model/FreeMode.java:21-32 | no maze without a type; otherwise refused exactly when the constructor refuses the arguments, and a fresh playable maze of that type and size |
| Mazes.Build | src/main/java/fr/univlille/iut/sae302/madmaze/model/FreeMode.java:22-31 | a random maze for RANDOM and a perfect maze for PERFECT, refused exactly when the constructor throws, otherwise generated with the requested size |
| Mazes.BuildRandom | src/main/java/fr/univlille/iut/sae302/madmaze/model/RandomMaze.java:33-44 | refused exactly for a side below 1 or a percentage outside 0..100; otherwise a fresh, finished, playable random maze of that size |
| Mazes.BuildPerfect | src/main/java/fr/univlille/iut/sae302/madmaze/model/PerfectMaze.java:24-40 | refused exactly for a side below 2 or a minimal length below 1; otherwise a fresh generated perfect maze of that size and minimal length |
| FreeModes.FreeMode.constructor | src/main/java/fr/univlille/iut/sae302/madmaze/model/FreeMode.java:18 | no maze, no type, all numbers 0 |
| FreeModes.FreeMode.SetMaze | src/main/java/fr/univlille/iut/sae302/madmaze/model/FreeMode.java:35-40 | stores the four settings and keeps the maze |
| FreeModes.FreeMode.PrepareMaze | src/main/java/fr/univlille/iut/sae302/madmaze/model/FreeMode.java:21-32 | fails exactly without a type or with refused settings, then keeping the maze; otherwise a fresh maze built as asked |
| NightModes.NightMode.constructor | src/main/java/fr/univlille/iut/sae302/madmaze/model/NightMode.java:11 | no maze, no type, all numbers 0 |
| NightModes.NightMode.SetMaze | src/main/java/fr/univlille/iut/sae302/madmaze/model/NightMode.java:34-39 | stores the four settings and keeps the maze |
| NightModes.NightMode.SetHeight | src/main/java/fr/univlille/iut/sae302/madmaze/model/NightMode.java:46-48 | changes the height only |
| NightModes.NightMode.SetWidth | src/main/java/fr/univlille/iut/sae302/madmaze/model/NightMode.java:50-52 | changes the width only |
| NightModes.NightMode.SetParameter3 | src/main/java/fr/univlille/iut/sae302/madmaze/model/NightMode.java:54-56 | changes the third parameter only |
| NightModes.NightMode.PrepareMaze | src/main/java/fr/univlille/iut/sae302/madmaze/model/NightMode.java:19-31 | fails exactly without a type or with refused settings, then keeping the maze; otherwise a fresh maze built as asked |
| MadMaxModes.MadMaxMode.constructor | src/main/java/fr/univlille/iut/sae302/madmaze/model/MadMaxMode.java:14-16 | perfect mazes, no maze and no saved exit |
| MadMaxModes.MadMaxMode.SetMaze | src/main/java/fr/univlille/iut/sae302/madmaze/model/MadMaxMode.java:29-34 | stores the four settings, keeps the maze and the saved exit |
| MadMaxModes.MadMaxMode.PrepareMaze | src/main/java/fr/univlille/iut/sae302/madmaze/model/MadMaxMode.java:37-50 | as the free mode, and on success the saved exit is the new maze's exit |
| MadMaxModes.MadMaxMode.ChangeWalls | src/main/java/fr/univlille/iut/sae302/madmaze/model/MadMaxMode.java:52-67 | without a maze nothing happens; otherwise a new maze of the same settings whose exit is the saved exit (a random maze only on the board), still playable for a perfect maze |
| MadMaxModes.Redraw | src/main/java/fr/univlille/iut/sae302/madmaze/model/MadMaxMode.java:54-66 | a new maze of the settings with its exit moved to the given cell |
| MadMaxModes.RedrawPerfect | src/main/java/fr/univlille/iut/sae302/madmaze/model/MadMaxMode.java:58-66 | a new perfect maze whose exit is the given cell and which stays playable when that cell is on the board |
| MadMaxModes.ExitStaysReachable | src/main/java/fr/univlille/iut/sae302/madmaze/model/MadMaxMode.java:62-65 | in a generated perfect maze every cell of the board, so the restored exit, is reachable from the entrance |
| FuelModes.CanCount | src/main/java/fr/univlille/iut/sae302/madmaze/model/FuelMode.java:71-81 | never more cans than half the cells of the walk |
| FuelModes.CanCountCovers | src/main/java/fr/univlille/iut/sae302/madmaze/model/FuelMode.java:73-81 | unless the cap of half the walk applies, the cans are exactly the tanks the walk needs, rounded up and at least one |
| FuelModes.CeilingDivision | src/main/java/fr/univlille/iut/sae302/madmaze/model/FuelMode.java:74 | the integer quotient rounded up: one tank fewer than it does not cover the length, it does |
| FuelModes.Interval | src/main/java/fr/univlille/iut/sae302/madmaze/model/FuelMode.java:129 | the spacing of the slots is at least 1 |
| FuelModes.IntervalPicksOnPath | src/main/java/fr/univlille/iut/sae302/madmaze/model/FuelMode.java:131-146 | at most one can per slot, each a cell of the walk, never the entrance or the exit |
| FuelModes.WalkCellsUsable | src/main/java/fr/univlille/iut/sae302/madmaze/model/FuelMode.java:141-145 | every cell of a walk after the first is on the board and, in a random maze, not a wall |
| FuelModes.FillAround | src/main/java/fr/univlille/iut/sae302/madmaze/model/FuelMode.java:225-247 | around one cell of the walk, each free usable neighbour becomes a can until none is needed; the cans so far are kept in order and every new one is fresh |
| FuelModes.AddAdditionalFuelCans | src/main/java/fr/univlille/iut/sae302/madmaze/model/FuelMode.java:215-251 | adds at most the needed number of cans, each usable, new, next to the walk and neither entrance nor exit; when fewer are found every usable neighbour of the walk is taken |
| FuelModes.CalculateOptimalFuelPositions | src/main/java/fr/univlille/iut/sae302/madmaze/model/FuelMode.java:116-153 | IntervalPlan: no cans for no count or a walk of two cells; otherwise the cans of the interval slots of min(count, walk length - 2) picks, in slot order, as a prefix, then backfill cells that neighbour the walk, and every usable neighbour taken when fewer than the count; at most the count, all usable and neither entrance nor exit |
| FuelModes.TopUp | src/main/java/fr/univlille/iut/sae302/madmaze/model/FuelMode.java:148-150 | backfill from the interval cans up to the count, keeping them as a prefix |
| FuelModes.PickAtIntervals | src/main/java/fr/univlille/iut/sae302/madmaze/model/FuelMode.java:131-146 | the cans of slots 1 to k in order |
| FuelModes.PicksUsable | src/main/java/fr/univlille/iut/sae302/madmaze/model/FuelMode.java:141-145 | the interval cans of a walk from the entrance are usable and are neither entrance nor exit |
| FuelModes.IndexOf | src/main/java/fr/univlille/iut/sae302/madmaze/model/FuelMode.java:169 | the first index of the cell in the walk, -1 exactly when it is absent |
| FuelModes.FurthestIndex | src/main/java/fr/univlille/iut/sae302/madmaze/model/FuelMode.java:171-180 | the largest walk index of any can, -1 when none lies on the walk |
| FuelModes.FurthestOnPath | src/main/java/fr/univlille/iut/sae302/madmaze/model/FuelMode.java:174-180 | the scan over the cans finds the furthest can on the walk |
| FuelModes.NewCanReachesExit | src/main/java/fr/univlille/iut/sae302/madmaze/model/FuelMode.java:191-195 | when the exit is too far, the extra can lies strictly after the last can and exactly maxFuel - 1 steps before the exit, so a full tank reaches it |
| FuelModes.EnsureReachableEnd | src/main/java/fr/univlille/iut/sae302/madmaze/model/FuelMode.java:162-206 | EndCovered: the cans kept as a prefix, plus one can exactly when the exit is more than a tank past the last can on the walk and the walk cell at NewCanIndex is neither the exit nor a can already; that extra can is that walk cell |
| FuelModes.WrittenFrom | src/main/java/fr/univlille/iut/sae302/madmaze/model/FuelMode.java:83-86 | an IntervalPlan followed by EndCovered is the plan as written |
| FuelModes.WrittenOnInnerSlots | src/main/java/fr/univlille/iut/sae302/madmaze/model/FuelMode.java:129-203 | on a shortest walk whose n interval slots all fall inside it, the plan as written is the walk cells 1, 2, ..., n intervals in, then one more can exactly when the exit lies more than a tank past the last of them, on the walk cell at NewCanIndex |
| FuelModes.IntervalPicksInner | src/main/java/fr/univlille/iut/sae302/madmaze/model/FuelMode.java:129-146 | on a walk without repeats, slots inside the walk give a can each: the t-th pick is the walk cell t + 1 intervals in |
| FuelModes.PicksUpTo | src/main/java/fr/univlille/iut/sae302/madmaze/model/FuelMode.java:129-146 | picks one interval apart all lie on the walk up to the last of them |
| FuelModes.PicksThenEnd | src/main/java/fr/univlille/iut/sae302/madmaze/model/FuelMode.java:162-203 | after picks on the walk up to its cell `last`, EnsureReachableEnd keeps them and adds one can exactly when the exit is more than a tank further, on the walk cell at NewCanIndex |
| FuelModes.PlanIsPicks | src/main/java/fr/univlille/iut/sae302/madmaze/model/FuelMode.java:148-152 | an interval plan whose n slots all give a can gets no backfill |
| FuelModes.StrandedAsWritten | src/main/java/fr/univlille/iut/sae302/madmaze/model/FuelMode.java:129-203 | as written, on a shortest walk of 125 cells with a tank of 10 the last interval can is on cell 104 and the extra can on cell 115; following the walk, the tank is empty on reaching cell 114 |
| FuelModes.StrandedOnWalk | src/main/java/fr/univlille/iut/sae302/madmaze/model/FuelMode.java:129-203 | the cans of StrandedAsWritten on any walk without repeats: none between cells 104 and 115, and an empty tank at cell 114 |
| FuelModes.EmptyAtExitAsWritten | src/main/java/fr/univlille/iut/sae302/madmaze/model/FuelMode.java:188-191 | as written, on a shortest walk of 39 cells with a tank of 10 the cans are cells 7, 14, 21 and 28 and no extra can is added, so the player reaches the exit with an empty tank |
| FuelModes.EmptyOnWalk | src/main/java/fr/univlille/iut/sae302/madmaze/model/FuelMode.java:188-191 | the cans of EmptyAtExitAsWritten on any walk without repeats: an empty tank at the exit |
| FuelModes.DriveTank | src/main/java/fr/univlille/iut/sae302/madmaze/model/FuelMode.java:323-329 | following a walk without repeats from a full tank, the tank on reaching cell i is maxFuel less the steps since the last refill, and the cans ahead are still there |
| FuelModes.LastStop | src/main/java/fr/univlille/iut/sae302/madmaze/model/FuelMode.java:323-329 | the last refill up to cell i: the largest index at most i holding a can, or the entrance; no can after it up to i |
| FuelModes.LastStopIs | src/main/java/fr/univlille/iut/sae302/madmaze/model/FuelMode.java:323-329 | the three facts that describe the last refill single it out |
| FuelModes.LastStopMono | src/main/java/fr/univlille/iut/sae302/madmaze/model/FuelMode.java:323-329 | more cans never push the last refill back |
| FuelModes.SpacedIffSurvives | src/main/java/fr/univlille/iut/sae302/madmaze/model/FuelMode.java:8 | on a walk without repeats, the player never runs dry (the game is lost when the tank reaches 0) exactly when every cell lies fewer than maxFuel steps past its last refill |
| FuelModes.StopsApart | src/main/java/fr/univlille/iut/sae302/madmaze/model/FuelMode.java:8 | Spaced cans are at most maxFuel steps apart, and the exit is fewer than maxFuel steps past the last refill |
| FuelModes.SpacedMore | src/main/java/fr/univlille/iut/sae302/madmaze/model/FuelMode.java:8 | extra cans keep a walk Spaced |
| FuelModes.PlanSurvives | src/main/java/fr/univlille/iut/sae302/madmaze/model/FuelMode.java:8 | the promise of the fuel mode, for the corrected plan: following the shortest walk from a full tank, with the planned cans and any others, fuel is left on reaching every cell, the exit included |
| FuelModes.FillGaps | src/main/java/fr/univlille/iut/sae302/madmaze/model/FuelMode.java:162-206 | corrected end of the plan: the interval cans kept as a prefix, then cans on inner walk cells only, so that the whole walk is Spaced, with at most one can per maxFuel - 1 steps |
| FuelModes.FillStep | src/main/java/fr/univlille/iut/sae302/madmaze/model/FuelMode.java:162-206 | one cell of FillGaps: keeps the loop state Filling one cell further |
| FuelModes.FillingAtCan | src/main/java/fr/univlille/iut/sae302/madmaze/model/FuelMode.java:162-206 | a can already on the cell becomes the new last refill |
| FuelModes.FillingOnward | src/main/java/fr/univlille/iut/sae302/madmaze/model/FuelMode.java:162-206 | a cell the tank still reaches changes nothing |
| FuelModes.FillingRefilled | src/main/java/fr/univlille/iut/sae302/madmaze/model/FuelMode.java:162-206 | the can dropped one cell before an empty tank becomes the new last refill |
| FuelModes.FilledAtEnd | src/main/java/fr/univlille/iut/sae302/madmaze/model/FuelMode.java:162-206 | once the whole walk is looked at, the cans are GapsFilled |
| FuelModes.Refill | src/main/java/fr/univlille/iut/sae302/madmaze/model/FuelMode.java:162-206 | the can dropped on cell j - 1, an inner cell of the walk, makes every cell up to j lie fewer than maxFuel steps past its last refill |
| FuelModes.DivisionBound | src/main/java/fr/univlille/iut/sae302/madmaze/model/FuelMode.java:71-86 | n steps of d that fit in total are at most total / d (bounds the cans FillGaps adds) |
| FuelModes.PlanCans | src/main/java/fr/univlille/iut/sae302/madmaze/model/FuelMode.java:65-86 | Planned: a plan exactly when the exit can be reached; then `path` is a shortest walk from the entrance to the exit and the cans are the plan as written along it (WrittenPlan: its IntervalPlan for CanCount, then the one can of EnsureReachableEnd), at most CanCount + 1 of them; no cans otherwise; every can usable and neither entrance nor exit |
| FuelModes.PlanOnWalk | src/main/java/fr/univlille/iut/sae302/madmaze/model/FuelMode.java:71-86 | given a shortest walk to the exit, the cans are the plan as written along it (WrittenPlan), so Planned holds with a plan found |
| FuelModes.RouteAlong | src/main/java/fr/univlille/iut/sae302/madmaze/model/FuelMode.java:66-86 | a shortest walk from the entrance to the exit starts at the entrance, ends at the exit, never repeats a cell and has usable cells after the first |
| FuelModes.LengthOnRoute | src/main/java/fr/univlille/iut/sae302/madmaze/model/FuelMode.java:71 | optimalPathLength, asked on the maze of a shortest walk, is that walk's number of steps |
| FuelModes.PlannedAfterward | src/main/java/fr/univlille/iut/sae302/madmaze/model/FuelMode.java:65-86 | the plan as written that PlanAlong makes on a shortest walk, within CanCount + 1 cans, is what PlanCans reports |
| FuelModes.PlanAlong | src/main/java/fr/univlille/iut/sae302/madmaze/model/FuelMode.java:71-86 | the cans are the plan as written along the walk (WrittenPlan): the IntervalPlan for CanCount(|path| - 1), then EndCovered, the one extra can of EnsureReachableEnd; usable, neither entrance nor exit, and at most CanCount + 1 |
| FuelModes.PlannedCansUsable | src/main/java/fr/univlille/iut/sae302/madmaze/model/FuelMode.java:116-206 | an IntervalPlan followed by the can EnsureReachableEnd adds, on a walk the plan can follow, is the plan as written (WrittenPlan); every can is usable and neither the entrance nor the exit (the extra can lies strictly after a can on the walk), at most CanCount + 1 |
| FuelModes.PlanAlongFilled | src/main/java/fr/univlille/iut/sae302/madmaze/model/FuelMode.java:162-206 | corrected plan along the same walk: the IntervalPlan for CanCount, then the cans of FillGaps in place of EnsureReachableEnd (FuelPlan); usable, neither entrance nor exit, and at most CanCount plus one per maxFuel - 1 steps |
| FuelModes.FilledCansUsable | src/main/java/fr/univlille/iut/sae302/madmaze/model/FuelMode.java:162-206 | an IntervalPlan followed by the cans of FillGaps, on a walk the plan can follow, is a FuelPlan whose cans are usable, never the entrance or the exit, and at most CanCount plus one per maxFuel - 1 steps |
| FuelModes.PlannedOnRoute | src/main/java/fr/univlille/iut/sae302/madmaze/model/FuelMode.java:65-86 | the plan as written (WrittenPlan) along a shortest walk to a reachable exit, within CanCount + 1 cans, is what PlanCans reports |
| FuelModes.MarkCans | src/main/java/fr/univlille/iut/sae302/madmaze/model/FuelMode.java:88-98 | every planned can is recorded and its cell turns FUEL unless it is the entrance or the exit; no other cell changes |
| FuelModes.DistinctCard | src/main/java/fr/univlille/iut/sae302/madmaze/model/FuelMode.java:294-296 | a list of distinct cells has as many cells as its set |
| FuelModes.EligibleInRow | src/main/java/fr/univlille/iut/sae302/madmaze/model/FuelMode.java:276-289 | appends exactly the eligible cells of one row, each once |
| FuelModes.EligibleCells | src/main/java/fr/univlille/iut/sae302/madmaze/model/FuelMode.java:274-290 | exactly the eligible cells of the board, each once |
| FuelModes.EligiblePool | src/main/java/fr/univlille/iut/sae302/madmaze/model/FuelMode.java:274-290 | the eligible cells as a list without repetition |
| FuelModes.Scatter | src/main/java/fr/univlille/iut/sae302/madmaze/model/FuelMode.java:293-305 | draws min(n, number of cells) distinct cells of the list and turns exactly those FUEL |
| FuelModes.ScatterOver | src/main/java/fr/univlille/iut/sae302/madmaze/model/FuelMode.java:269-306 | the drawn cans are eligible cells, as many as asked or as there are, and only they turn FUEL |
| FuelModes.ScatterKeeping | src/main/java/fr/univlille/iut/sae302/madmaze/model/FuelMode.java:269-306 | as ScatterOver, and the cans already placed stay on FUEL cells |
| FuelModes.MarkPlanned | src/main/java/fr/univlille/iut/sae302/madmaze/model/FuelMode.java:65-98 | the plan as written is Planned on the maze as it was; exactly the planned cells turn FUEL and no other cell changes; with the exit out of reach the board is untouched |
| FuelModes.RandomCanCount | src/main/java/fr/univlille/iut/sae302/madmaze/model/FuelMode.java:99-105 | a 25th of the free cells of a random maze, a 25th of all cells of a perfect maze |
| FuelModes.PlaceCans | src/main/java/fr/univlille/iut/sae302/madmaze/model/FuelMode.java:65-106 | placeFuelCans on a maze: nothing when the exit is out of reach; otherwise a Placement: the cans of the plan as written (WrittenPlan) along a shortest walk, then RandomCans distinct eligible cells (fewer when they run out); exactly those cells turn FUEL, nothing else changes, the earlier cans stay |
| FuelModes.ScatterRest | src/main/java/fr/univlille/iut/sae302/madmaze/model/FuelMode.java:99-106 | after the planned cans of the plan as written, RandomCans eligible cells (or all that remain) turn FUEL, keeping the plan: a Placement; no other cell changes |
| FuelModes.ScatterCounted | src/main/java/fr/univlille/iut/sae302/madmaze/model/FuelMode.java:99-106 | scatters the RandomCans count it is given among the cells still eligible after the plan as written: a Placement, and exactly those cells turn FUEL |
| FuelModes.PlacementOf | src/main/java/fr/univlille/iut/sae302/madmaze/model/FuelMode.java:65-106 | the plan as written (WrittenPlan) along a shortest walk and a draw of RandomCans eligible cells (all of them when fewer remain) make a Placement |
| FuelModes.DrawnAll | src/main/java/fr/univlille/iut/sae302/madmaze/model/FuelMode.java:293-305 | drawing min(n, pool size) cells of the pool draws n of them, or the whole pool when it has fewer |
| FuelModes.DrawnCells | src/main/java/fr/univlille/iut/sae302/madmaze/model/FuelMode.java:293-305 | the cells drawn turn FUEL and no other cell changes, row by row and column by column of the maze |
| FuelModes.RandomCansNatural | src/main/java/fr/univlille/iut/sae302/madmaze/model/FuelMode.java:99-105 | the number of random cans is never negative |
| FuelModes.FuelKept | src/main/java/fr/univlille/iut/sae302/madmaze/model/FuelMode.java:88-106 | cans written over non-wall cells keep the moves, the ends, the usable and eligible cells and the random can count |
| FuelModes.BuildStocked | src/main/java/fr/univlille/iut/sae302/madmaze/model/FuelMode.java:50-59 | refused exactly when the constructor refuses; otherwise a fresh maze as built carrying exactly the cans of a Placement started from no cans: the plan as written and the random cans |
| FuelModes.Restock | src/main/java/fr/univlille/iut/sae302/madmaze/model/FuelMode.java:56-58 | placing the cans on a built maze keeps it as built, puts every can on a FUEL cell, and the cans are a Placement: the plan as written and the random cans |
| FuelModes.CoreKept | src/main/java/fr/univlille/iut/sae302/madmaze/model/FuelMode.java:88-98 | writing on the board keeps the entrance, the exit and the shape of the maze |
| FuelModes.BoardKeepsMoves | src/main/java/fr/univlille/iut/sae302/madmaze/model/FuelMode.java:88-98 | cans never over walls keep the moves of the maze, so it stays playable |
| FuelModes.FuelMode.constructor | src/main/java/fr/univlille/iut/sae302/madmaze/model/FuelMode.java:25-29 | a full tank of 10 and no cans, no maze |
| FuelModes.FuelMode.SetMaze | src/main/java/fr/univlille/iut/sae302/madmaze/model/FuelMode.java:42-47 | stores the four settings; the maze, the fuel and the cans stay |
| FuelModes.FuelMode.PlaceRandomFuelCans | src/main/java/fr/univlille/iut/sae302/madmaze/model/FuelMode.java:269-306 | exactly min(n, eligible cells) new cans, each on an eligible cell, which turns FUEL; nothing else changes |
| FuelModes.FuelMode.PlaceFuelCans | src/main/java/fr/univlille/iut/sae302/madmaze/model/FuelMode.java:65-106 | with the exit out of reach nothing changes; otherwise the cans gain the cans `pathCans` of the plan as written along the shortest walk `walk` and the random ones `scattered`, a Placement, and every can is on a FUEL cell |
| FuelModes.FuelMode.PlaceOn | src/main/java/fr/univlille/iut/sae302/madmaze/model/FuelMode.java:65-106 | PlaceFuelCans on the current maze: nothing when the exit is out of reach, otherwise the cans gain a Placement (the plan as written and the random cans) and every can is on a FUEL cell |
| FuelModes.FuelMode.PrepareMaze | src/main/java/fr/univlille/iut/sae302/madmaze/model/FuelMode.java:50-59 | a random maze unless PERFECT is asked; refused arguments keep everything; otherwise a fresh maze, a full tank, and the cans are exactly `pathCans` (the plan as written) and `scattered` of a Placement from no cans |
| FuelModes.FuelMode.Install | src/main/java/fr/univlille/iut/sae302/madmaze/model/FuelMode.java:51-57 | the new maze becomes current with a full tank, its walk, planned and random cans recorded |
| FuelModes.FuelMode.OnMove | src/main/java/fr/univlille/iut/sae302/madmaze/model/FuelMode.java:323-339 | one unit of fuel is burnt, a can on the cell refills the tank and is removed, no other can goes; after a can (maxFuel > 0) the game is not lost and the player can move, otherwise it is lost exactly when the tank held at most one unit |
| FuelModes.FuelMode.CanMove | src/main/java/fr/univlille/iut/sae302/madmaze/model/FuelMode.java:313-315 | a move is allowed exactly while the game is not lost |
| FuelModes.FuelMode.IsLost | src/main/java/fr/univlille/iut/sae302/madmaze/model/FuelMode.java:337-339 | for a tank that never goes below zero, the game is lost exactly when it is empty |
| FuelModes.FuelMode.HasFuelAt | src/main/java/fr/univlille/iut/sae302/madmaze/model/FuelMode.java:374-376 | a cell reported to hold a can is, while the cans are on the board, a FUEL cell of the board that is neither the entrance nor the exit |
| FuelModes.FuelMode.Reset | src/main/java/fr/univlille/iut/sae302/madmaze/model/FuelMode.java:381-383 | as prepareMaze: refused settings keep the maze; otherwise a fresh maze as built, a full tank, and the cans are exactly the planned ones `pathCans` (the plan as written) and the random ones `scattered` of a Placement made from no cans |
| StormModes.SpreadIsNeighbours | src/main/java/fr/univlille/iut/sae302/madmaze/model/StormMode.java:77-96 | a cell joins the new front exactly when it is on the board, not sand, and next to a cell of the front |
| StormModes.SpreadOneMore | src/main/java/fr/univlille/iut/sae302/madmaze/model/StormMode.java:77-96 | handling one more front cell adds exactly the cells its four directions reach |
| StormModes.StepCloser | src/main/java/fr/univlille/iut/sae302/madmaze/model/StormMode.java:79-95 | a cell of the board other than the source has a board neighbour one step closer to the source |
| StormModes.TickGrowsBall | src/main/java/fr/univlille/iut/sae302/madmaze/model/StormMode.java:73-100 | one tick turns the ring at distance n and the ball of radius n into the ring and ball of the next radius |
| StormModes.StormIsBall | src/main/java/fr/univlille/iut/sae302/madmaze/model/StormMode.java:73-100 | after n ticks from the entrance the front is the ring at Manhattan distance n and the sand is every cell within distance n; walls do not stop the storm |
| StormModes.SandAround | src/main/java/fr/univlille/iut/sae302/madmaze/model/StormMode.java:79-95 | the four neighbours of one front cell that are on the board and not sand join the front and turn SAND; no other cell changes |
| StormModes.SpreadOnBoard | src/main/java/fr/univlille/iut/sae302/madmaze/model/StormMode.java:77-96 | the new front is the spread of the old one, and exactly its cells turn SAND |
| StormModes.StormMode.constructor | src/main/java/fr/univlille/iut/sae302/madmaze/model/StormMode.java:27-32 | a tick every 1000 ms, no sand, no front, storm not started |
| StormModes.StormMode.SetMaze | src/main/java/fr/univlille/iut/sae302/madmaze/model/StormMode.java:39-44 | stores the four settings; the maze, the sand and the front stay |
| StormModes.StormMode.PrepareMaze | src/main/java/fr/univlille/iut/sae302/madmaze/model/StormMode.java:46-66 | fails exactly without a type or with refused settings, changing nothing; otherwise a fresh maze whose entrance joins the front, sand untouched |
| StormModes.StormMode.PropagateStorm | src/main/java/fr/univlille/iut/sae302/madmaze/model/StormMode.java:73-100 | the new front and the sand are one tick of the old ones; the new front turns SAND, nothing else on the board changes; the sand only grows |
| StormModes.StormMode.StartStorm | src/main/java/fr/univlille/iut/sae302/madmaze/model/StormMode.java:163-173 | the storm is started, the entrance becomes sand and is typed SAND, nothing else changes |
| StormModes.StormMode.IsLost | src/main/java/fr/univlille/iut/sae302/madmaze/model/StormMode.java:133-148 | true exactly when the player stands on a SAND cell; no position never loses |
| StormModes.StormMode.Reset | src/main/java/fr/univlille/iut/sae302/madmaze/model/StormMode.java:210-214 | both sets emptied, then as prepareMaze: the front is the new entrance and there is no sand |
| RaceModes.PerfectBotPath | src/main/java/fr/univlille/iut/sae302/madmaze/model/RaceMode.java:130-133 | the entrance, then a shortest route from the entrance to the exit: one cell more than that route, so the bot waits one move |
| RaceModes.RandomBotPath | src/main/java/fr/univlille/iut/sae302/madmaze/model/RaceMode.java:134-166 | at most 2000 draws; the path kept is a shortest route from the drawn cell to the exit, empty only when there is none; before the last draw it starts on no wall and is longer than the player's shortest route; when empty, the player's shortest route is taken |
| RaceModes.PlanBot | src/main/java/fr/univlille/iut/sae302/madmaze/model/RaceMode.java:129-168 | the bot path of the maze's kind |
| RaceModes.BotPathOnPlayable | src/main/java/fr/univlille/iut/sae302/madmaze/model/RaceMode.java:129-168 | on a maze whose exit can be reached the bot path is never empty, and in a perfect maze it has two cells more than the player's shortest route has steps |
| RaceModes.BuildWithBot | src/main/java/fr/univlille/iut/sae302/madmaze/model/RaceMode.java:46-58 | refused exactly without a type or with refused settings; otherwise a fresh maze of the settings with a non-empty bot path on it |
| RaceModes.RaceMode.constructor | src/main/java/fr/univlille/iut/sae302/madmaze/model/RaceMode.java:36 | no maze, no type, no bot path |
| RaceModes.RaceMode.SetMaze | src/main/java/fr/univlille/iut/sae302/madmaze/model/RaceMode.java:71-76 | stores the four settings; the maze and the bot path stay |
| RaceModes.RaceMode.GetBotPerfectPath | src/main/java/fr/univlille/iut/sae302/madmaze/model/RaceMode.java:113-116 | the bot path, empty when there is none |
| RaceModes.RaceMode.IsLost | src/main/java/fr/univlille/iut/sae302/madmaze/model/RaceMode.java:178-181 | lost exactly when there is a bot path and the moves made reach its number of steps |
| RaceModes.RaceMode.PrepareBotPerfectPath | src/main/java/fr/univlille/iut/sae302/madmaze/model/RaceMode.java:129-168 | a bot path planned for the current maze |
| RaceModes.RaceMode.PrepareMaze | src/main/java/fr/univlille/iut/sae302/madmaze/model/RaceMode.java:46-58 | fails exactly without a type or with refused settings, changing nothing; otherwise a fresh maze and its bot path |
| RaceModes.RaceMode.Install | src/main/java/fr/univlille/iut/sae302/madmaze/model/RaceMode.java:50-57 | the new maze and bot path become current |
| MultipleExitModes.BorderIsRim | src/main/java/fr/univlille/iut/sae302/madmaze/model/MultipleExitMode.java:115-139 | the cells a draw of a side and an offset can pick are exactly the cells of the outer ring of the board |
| MultipleExitModes.UnusedDraw | src/main/java/fr/univlille/iut/sae302/madmaze/model/MultipleExitMode.java:144-157 | while fewer decoys are placed than the border has cells, some draw picks an unused cell, so the loop can go on |
| MultipleExitModes.MultipleExitMode.constructor | src/main/java/fr/univlille/iut/sae302/madmaze/model/MultipleExitMode.java:35 | no maze, no type, no decoys |
| MultipleExitModes.MultipleExitMode.SetMaze | src/main/java/fr/univlille/iut/sae302/madmaze/model/MultipleExitMode.java:90-95 | stores the four settings; the maze and the decoys stay |
| MultipleExitModes.MultipleExitMode.GenerateFalseExits | src/main/java/fr/univlille/iut/sae302/madmaze/model/MultipleExitMode.java:107-159 | a new array of n decoys, each a cell of the border, pairwise distinct; without a maze the first draw fails |
| MultipleExitModes.MultipleExitMode.PrepareMaze | src/main/java/fr/univlille/iut/sae302/madmaze/model/MultipleExitMode.java:55-67 | fails exactly without a type or with refused settings, changing nothing; otherwise a fresh maze and three distinct decoys on its border |
| ProgressionModes.ParameterGrows | src/main/java/fr/univlille/iut/sae302/madmaze/model/ProgressionMode.java:141-164 | within a level of the table a harder grade gets a strictly larger parameter; outside the table every grade gets 30 |
| ProgressionModes.ParameterRange | src/main/java/fr/univlille/iut/sae302/madmaze/model/ProgressionMode.java:141-164 | random levels get a wall percentage from 40 to 56, perfect levels a minimal length from 7 to 35 |
| ProgressionModes.RandomSize | src/main/java/fr/univlille/iut/sae302/madmaze/model/ProgressionMode.java:119-139 | a size in the level's range, or the fallback off the table |
| ProgressionModes.RandomHeight | src/main/java/fr/univlille/iut/sae302/madmaze/model/ProgressionMode.java:119-128 | 15..29 on level 0, 30..44 on levels 1 and 2, 8..11 on level 3, 20..29 on levels 4 and 5, 10 otherwise |
| ProgressionModes.RandomWidth | src/main/java/fr/univlille/iut/sae302/madmaze/model/ProgressionMode.java:130-139 | the same ranges, 15 otherwise |
| ProgressionModes.TableBuildable | src/main/java/fr/univlille/iut/sae302/madmaze/model/ProgressionMode.java:30-41 | every challenge of the table is accepted by the maze of its level, and a random level leaves room for its walls, so preparing it never fails |
| ProgressionModes.PlannedOrdered | src/main/java/fr/univlille/iut/sae302/madmaze/model/ProgressionMode.java:49-61 | the challenges of a level come easy, medium, hard, and each can be built |
| ProgressionModes.BuildChallenges | src/main/java/fr/univlille/iut/sae302/madmaze/model/ProgressionMode.java:48-51 | three new, unvalidated challenges graded easy, medium and hard, each with the level's parameter and sizes in its range |
| ProgressionModes.BuildAllLevels | src/main/java/fr/univlille/iut/sae302/madmaze/model/ProgressionMode.java:43-65 | six levels numbered 1 to 6, three random then three perfect, each with its three challenges |
| ProgressionModes.BuildChallengeMaze | src/main/java/fr/univlille/iut/sae302/madmaze/model/ProgressionMode.java:36-40 | the maze of a challenge: of the level's type, the challenge's size and parameter |
| ProgressionModes.ProgressionMode.constructor | src/main/java/fr/univlille/iut/sae302/madmaze/model/ProgressionMode.java:22-28 | the table built, the first challenge of the first level selected, no maze |
| ProgressionModes.ProgressionMode.CurrentLevel | src/main/java/fr/univlille/iut/sae302/madmaze/model/ProgressionMode.java:115 | the selected level, as the table built it |
| ProgressionModes.ProgressionMode.CurrentChallenge | src/main/java/fr/univlille/iut/sae302/madmaze/model/ProgressionMode.java:116 | the selected challenge, of the grade of its index |
| ProgressionModes.ProgressionMode.PrepareMaze | src/main/java/fr/univlille/iut/sae302/madmaze/model/ProgressionMode.java:30-41 | a fresh maze of the selected challenge's type, size and parameter; it never fails |
| ProgressionModes.ProgressionMode.SelectLevelAndChallenge | src/main/java/fr/univlille/iut/sae302/madmaze/model/ProgressionMode.java:103-113 | a level outside the six or a challenge outside the three is refused with the Java message and nothing changes; otherwise both are selected and their maze is built |
| Modes.Mode.PrepareMaze | src/main/java/fr/univlille/iut/sae302/madmaze/model/Mode.java:15 | each mode prepares in its own way; it fails exactly when the stored settings give no maze, keeping the maze; otherwise a fresh playable maze is in place |
| Games.RemoveFirst | src/main/java/fr/univlille/iut/sae302/madmaze/model/Game.java:332 | List.remove: the list less one occurrence of the element, as a multiset |
| Games.RemoveFirstDistinct | src/main/java/fr/univlille/iut/sae302/madmaze/model/Game.java:329-334 | on a list without repetitions the removal keeps it so, drops the element for good and keeps every other element |
| Games.Sight | src/main/java/fr/univlille/iut/sae302/madmaze/model/Game.java:160-171 | the cells on the board within Chebyshev distance radius of the player |
| Games.SightZero | src/main/java/fr/univlille/iut/sae302/madmaze/model/Game.java:123-127 | with radius 0 the player sees only the own cell, as the branch without vision adds only the new cell |
| Games.VisionCells | src/main/java/fr/univlille/iut/sae302/madmaze/model/Game.java:153-172 | the double loop over the square adds exactly the cells in sight to the explored ones |
| Games.VisionRadius | src/main/java/fr/univlille/iut/sae302/madmaze/model/Game.java:174-188 | 2 or 1 on the first or second challenge of the sixth progression level, 0 everywhere else |
| Games.StepMode | src/main/java/fr/univlille/iut/sae302/madmaze/model/Game.java:129-138 | the fuel mode burns or refills, the storm mode starts once; the maze stays and only the storm mode writes on its board |
| Games.Game.constructor | src/main/java/fr/univlille/iut/sae302/madmaze/model/Game.java:35-55 | the player at the entrance, no move, facing right, the cells in sight of the entrance explored, no observer |
| Games.Game.Create | src/main/java/fr/univlille/iut/sae302/madmaze/model/Game.java:39-44 | the mode prepares its maze first; a game exactly when the settings give a maze |
| Games.Game.ExploreVision | src/main/java/fr/univlille/iut/sae302/madmaze/model/Game.java:153-172 | the cells in sight of the player are added to the explored ones |
| Games.Game.MovePlayer | src/main/java/fr/univlille/iut/sae302/madmaze/model/Game.java:100-145 | moves exactly when the fuel mode has fuel and the step stays on the board and is directly reachable; then one step, one move more, the new direction, the sight explored and the mode's reaction; otherwise nothing changes |
| Games.Game.Move | src/main/java/fr/univlille/iut/sae302/madmaze/model/Game.java:119-138 | a move that goes through: the step, then the mode's reaction |
| Games.Game.Target | src/main/java/fr/univlille/iut/sae302/madmaze/model/Game.java:104-118 | the next cell exactly when the move is allowed |
| Games.Game.Advance | src/main/java/fr/univlille/iut/sae302/madmaze/model/Game.java:119-127 | one step in the direction, one move more, facing it, its sight explored |
| Games.Game.IsLost | src/main/java/fr/univlille/iut/sae302/madmaze/model/Game.java:233-242 | lost with an empty tank, once the bot is through, on sand, and never in the other modes |
| Games.Game.IsFinished | src/main/java/fr/univlille/iut/sae302/madmaze/model/Game.java:217-231 | over exactly on the exit, or when lost in the fuel, race or storm mode |
| Games.Game.FinishedAwayFromExit | src/main/java/fr/univlille/iut/sae302/madmaze/model/Game.java:217-231 | a game over away from the exit is lost, in a mode that can be lost |
| Games.Game.Reset | src/main/java/fr/univlille/iut/sae302/madmaze/model/Game.java:259-269 | no move, facing right, only the cell stood on explored; a fuel mode rebuilds its maze, and a refused rebuild is the error; a rebuilt fuel maze is Prepared as the mode builds it (cans on FUEL cells), with a full tank; the player at the entrance unless that rebuild fails |
| Games.ResetFuelMode | src/main/java/fr/univlille/iut/sae302/madmaze/model/Game.java:263-266 | the fuel mode's reset as the game uses it: refused exactly for unaccepted settings, which keep the maze; otherwise a fresh maze as built with a full tank |
| Games.Game.AddObserver | src/main/java/fr/univlille/iut/sae302/madmaze/model/Game.java:322-327 | appended exactly when present and not yet registered; the list keeps no repetition |
| Games.Game.RemoveObserver | src/main/java/fr/univlille/iut/sae302/madmaze/model/Game.java:329-334 | the first occurrence removed when present; on a list without repetition it is gone for good |

## Left out

- The view, the controllers, the save files and the CSV import and export are not part of this model; `Game.endGame` (Game.java:244-253) only hands the result to that persistence layer, so it is left out with it.
- Observer callbacks (`notifyObservers`) are left out; only the observer list kept by `AddObserver` and `RemoveObserver` is modelled.
- Timers and threads: the Mad Max regeneration timer and the storm propagation thread (Game.java:275-320) are left out. One tick of each is modelled as a single call (`ChangeWalls`, `PropagateStorm`); their timing and their interleaving with the player's moves are not.
- Random distributions: every draw is a nondeterministic choice among the values the Java code could draw, so the model says nothing about how likely any outcome is. The perfect maze's choice between the newest and a random frontier cell (a `nextDouble` test) is an arbitrary choice for the same reason.
- Floating point: `Math.round(width * height * p / 100f)` is modelled as the integer `(width * height * p + 50) / 100`, which agrees with it on the sizes the modes use but not where `float` loses precision; the fuel count's `Math.ceil` on a `double` quotient is modelled as integer ceiling division.
- Java's 32-bit `int` overflow is not modelled: all sizes, counters and move numbers are unbounded integers.
- Messages printed to the standard output and error streams are left out.
- The `toString` methods of the mazes and of `Level` (challenges lettered A, B, C) are left out; only `Challenge.toString`, whose mark records completion, is modelled.
- Plain getters, the copy returned by `Level.getChallenges`, `getModeName`, `getMazeType`, and the `setWidth`/`setHeight` setters of both mazes are left out: they read or write one field and carry no rule of the game.
- `RandomMaze.placeRandomStartEnd` is left out: no code of the core calls it.
- The list of all players read from the save files is a parameter (`roster`) of the profile operations that consult it.
- The Java interfaces `Cell`, `Maze`, `Mode` and `Observable` become sums of the implementing classes (datatypes of references); `MazeType.java` is not part of this model, and the two maze kinds are the datatype `MazeType = RANDOM | PERFECT`.
- A game built from a `null` mode is not modelled: `Games.Game.Create` always takes a mode.
- RandomMazes.Placeable: wall placement draws a cell until it finds a free one, which never ends when the walls asked for leave no free cell; generation therefore requires that the rounded wall count is zero or leaves at least two cells besides the walls, and the modes pass this requirement on (`Ends`).
- MultipleExitModes.MultipleExitMode.GenerateFalseExits: the draws of decoys never end when more decoys are asked for than the border has cells, so the model requires at most that many, and a maze of the mode's own size.
- StormModes.StormMode.IsLost: requires a maze and a position on its board, where the Java code would throw a `NullPointerException` or index out of bounds.
- RaceModes.PerfectBotPath: on a perfect maze whose exit cannot be reached the Java code would throw when prepending the entrance to the empty immutable list `findOptimalPath` returns, while the model gives the one-cell path `[entrance]`; a generated perfect maze always reaches its exit, so this case does not arise in play.
- The storm flag `stormStarted` is not cleared by `StormMode.reset` (StormMode.java:210-214), as in the Java code; `StormModes.StormMode.Reset` keeps it.
- Games.Game.Reset: states that a rebuilt fuel maze is prepared as the mode builds it, with a full tank, but not where its cans lie; `FuelModes.FuelMode.Reset` and `Games.ResetFuelMode`'s callee state that placement (the planned and the random cans), and carrying it through the game's own frame reasoning is beyond what the verifier settles within its resource bound.
- The fuel plan (`PlanCans`, `PlanAlong`, and the corrected `PlanAlongFilled` and `FillGaps`) requires a tank of more than one unit; the Java code's tank is the constant 10 (FuelMode.java:26).

## Findings

| source | as written | input that shows it | evidently intended | confidence | as-written member | corrected member |
|---|---|---|---|---|---|---|
| src/main/java/fr/univlille/iut/sae302/madmaze/model/FuelMode.java:129-203 | cans go on the shortest walk one interval apart, then `ensureReachableEnd` adds at most one can, `maxFuel - 1` steps before the exit, and only when the exit lies more than `maxFuel` steps past the last interval can; the gap between that can and the last interval can is never checked | a maze whose shortest walk has 125 cells, with the tank of 10: 13 interval cans 8 cells apart, the last on cell 104, then the extra can on cell 115; leaving cell 104 with a full tank, the player reaches cell 114 with an empty tank and loses | every fuel can, and the exit, can be reached along the shortest walk with the fuel available (FuelMode.java:8) | not executed | FuelModes.StrandedAsWritten | FuelModes.FillGaps |
| src/main/java/fr/univlille/iut/sae302/madmaze/model/FuelMode.java:188-191 | no extra can is added when the exit lies exactly `maxFuel` steps past the last can (`distanceToEnd > maxFuel`), although a move that brings the tank to 0 loses the game (`fuelLeft <= 0`, FuelMode.java:338) | a maze whose shortest walk has 39 cells, with the tank of 10: cans on cells 7, 14, 21 and 28, and none after; the player reaches the exit, 10 steps past cell 28, with an empty tank | the exit reachable with the fuel available (FuelMode.java:8) | not executed | FuelModes.EmptyAtExitAsWritten | FuelModes.PlanSurvives |

# Snake game core in Dafny

A model of the non-graphical logic of the `Game` class of a terminal-launched raylib
Snake game, with proofs of what that logic promises. It covers:

- The snake on its 30×20 grid. A tick commits the buffered direction, pushes a new
  head, checks for a collision against walls, the body (old tail included) and the
  obstacles, and then grows on food or drops the tail.
- Direction buffering. A request that would reverse the snake is ignored.
- The six-state screen machine (menu, playing, paused, game over, leaderboard,
  settings), driven by one input intent at a time.
- The score stores:
  - the per-player file `user_scores.txt`, read for the overall and personal best,
    rewritten last-wins by `savePersonalBest` and max-merged by `saveSessionBestScore`;
  - the leaderboard file `scores.txt`, loaded as per-name maxima sorted by score, and
    updated with the session score, sorted and cut to ten entries;
  - the settings file and the obstacle file.
- Difficulty level and movement interval as functions of the score.

Layout, one module per file:

- `types.dfy` (`Types`): the value types and constants of `game.hpp`.
- `difficulty.dfy` (`Difficulty`): `getDifficultyLevel` and `calculateSpeed`, the
  latter in whole milliseconds.
- `snake.dfy` (`Snake`): moves, the collision rule, free cells, the obstacle filter.
- `scores.dfy` (`Scores`): `std::map<string,int>` as an association list with one
  entry per name, the merges the loaders and savers perform, sorting and truncation.
- `game.dfy` (`GameLogic`): the `Game` class with the source's fields, the loaders,
  the savers, the tick and the input handlers.

Each file the game reads or writes is a field of `Game` holding its already-parsed
contents:
- settings: `Option<bool>`, `None` when the file is missing;
- score files: a sequence of (name, score) pairs;
- obstacle file: a sequence of integer pairs, given to the constructor.

## Model

| member | source | states |
|---|---|---|
| Types.Opposite | game.cpp:116-119 | the reverse of a direction is a different direction |
| Types.OppositeIsInvolution | game.hpp:32-34 | reversing twice gives the direction back |
| Types.PositionEquality | game.hpp:19-21 | two positions are equal exactly when both x and y agree |
| Types.RanksBeforeIsStrictWeakOrder | game.hpp:27-29 | `operator<` is irreflexive and transitive; two entries are unordered exactly when their scores are equal, whatever their names |
| Types.InBoundsIsTheGrid | game.hpp:54-55 | the in-bounds test is 0 ≤ x < 30 and 0 ≤ y < 20 |
| Types.EnumerationsAreClosed | game.hpp:32-43 | a direction is one of four values and a state one of six |
| Difficulty.Level | game.cpp:606-608 | the level is at least 1 and is the number of whole 50-point steps plus one |
| Difficulty.IntervalMs | game.cpp:611-616 | the interval lies in [50, 150] ms; it is 150 below 30 points and reaches 50 exactly from 150 points on |
| Difficulty.IntervalNonIncreasing | game.cpp:611-616 | a higher score never gives a longer interval |
| Difficulty.IntervalSamples | game.cpp:606-616 | sample intervals at 0, 30, 59, 120 and 300 points, and levels at 0, 49 and 50 points |
| Snake.Step | game.cpp:421-428 | the new head is exactly one cell from the old one: vertical moves keep x, up decreases y, right increases x |
| Snake.StepThenOppositeReturns | game.cpp:421-428 | a step followed by a step in the opposite direction returns to the start |
| Snake.Moved | game.cpp:421-430 | the moved body is one longer, its tail is the whole old body, and its head is adjacent to the old head |
| Snake.InitialBody | game.cpp:392-396 | three cells, the head at the grid centre, each later cell one step down from the previous |
| Snake.MovingOntoOldTailCollides | game.cpp:433-436 | moving the head onto the cell of the old tail counts as a collision, since the tail is still in the body when the check runs |
| Snake.NoCollisionMeansFreeHead | game.cpp:433-439 | a move that does not collide puts the head on an in-bounds cell free of the old body and of the obstacles |
| Snake.Contains | game.cpp:408-410 | the scan finds a cell exactly when it is in the sequence |
| Snake.InBoundCells | game.cpp:447-450 | the kept cells are in bounds, come from the file, and include every in-bounds pair of the file |
| Snake.LoadedObstacles | game.cpp:442-453 | at most 100 obstacles, each in bounds and taken from the file |
| Snake.LoadedObstaclesFacts | game.cpp:442-453 | the obstacles are a prefix of the file's in-bounds cells in file order, and all of them when there are at most 100 |
| Scores.Find | game.cpp:552-560 | the first index holding the name, or none exactly when no entry has that name |
| Scores.Put | game.cpp:484 | `map[name] = score` keeps one entry per name |
| Scores.PutMax | game.cpp:511-513 | insert-or-raise keeps one entry per name |
| Scores.LookupPut | game.cpp:484 | after `map[name] = score`, the name reads back that score and every other name is unchanged |
| Scores.LookupPutMax | game.cpp:511-513 | after insert-or-raise, the name holds the higher of its old and new score and every other name is unchanged |
| Scores.LookupMeansMember | game.cpp:528 | in a list with one entry per name, an entry is present exactly when looking up its name gives its score |
| Scores.MaxTable | game.cpp:528-538 | the max-merged table has one entry per name |
| Scores.LastTable | game.cpp:478-486 | the last-wins table has one entry per name |
| Scores.MaxTableLookup | game.cpp:505-514 | the max-merged table holds a name exactly when the file does, and then under that name's highest score |
| Scores.LastTableLookup | game.cpp:478-486 | the last-wins table holds a name exactly when the file does, and then under the last score the file gives it |
| Scores.MaxTableOfUniqueIsIdentity | game.cpp:504-523 | max-merging a store that already has one entry per name gives it back unchanged |
| Scores.SessionMergeIsIdempotent | game.cpp:504-523 | a second `saveSessionBestScore` changes nothing |
| Scores.MergeMax | game.cpp:505-514 | the map-filling loop of the max-merging readers computes the max-merged table |
| Scores.MergeLast | game.cpp:478-486 | the map-filling loop of `savePersonalBest` computes the last-wins table |
| Scores.SortByScore | game.cpp:544 | the sort yields a permutation of its input with non-increasing scores |
| Scores.SubMultisetKeepsUniqueNames | game.cpp:540-544 | a permutation or truncation of a list with one entry per name still has one entry per name |
| Scores.TruncatedKeepsTop | game.cpp:567-569 | cutting a sorted list to ten keeps it sorted, keeps min(n, 10) entries taken from it, and drops nothing that outscores a kept entry |
| Scores.RecordedKeepsTop | game.cpp:549-569 | the updated board is sorted, holds min(n, 10) entries of the board with the player's entry added or raised, and drops nothing that outscores a kept entry |
| Scores.RecordedLeaderboardFacts | game.cpp:549-569 | for a positive score the board stays one entry per name, sorted, at most ten; other players' entries come unchanged from the old board; the player's entry, when kept, holds max(old, score); with fewer than ten entries before, the player is on it |
| Scores.RaiseOrAdd | game.cpp:550-564 | the search-and-raise loop raises the player's first entry when the score is higher, leaves it otherwise, and appends a new player |
| Scores.SortedTopTenIsRecorded | game.cpp:566-569 | sorting the updated board and cutting it to ten is one outcome the unstable sort allows |
| Scores.LoadedLeaderboardFacts | game.cpp:526-546 | a loaded leaderboard has one entry per name, each holding that name's highest score in the file, and every name of the file appears |
| Scores.PersonalBestFacts | game.cpp:475-501 | after a new best, the store has one entry per name; the player reads back the score; both bests are raised; every other name keeps the last score the old store gave it |
| Scores.PersonalBestRewriteKeepsLastDuplicate | game.cpp:484 | with a higher then a lower line for the same name, the rewrite keeps the lower one, where the max-merge keeps the higher |
| Scores.SessionMergeKeepsHighestOverall | game.cpp:456-472 | the overall best read back after `saveSessionBestScore` is the one read before |
| Scores.SessionMergeKeepsHighestFor | game.cpp:456-472 | every player's best read back after `saveSessionBestScore` is the one read before |
| GameLogic.BufferedNeverReverses | game.cpp:116-119 | a buffered direction never reverses the last move; a reversing request leaves the buffer alone; any other request is taken |
| GameLogic.MenuBelow | game.cpp:89-91 | moving down stays in [0, 4) and wraps from the last item to the first |
| GameLogic.MenuAbove | game.cpp:92-94 | moving up stays in [0, 4) and wraps from the first item to the last |
| GameLogic.MenuMovesUndoEachOther | game.cpp:89-94 | moving down then up, or up then down, returns to the same item |
| GameLogic.TransitionFacts | game.cpp:66-139 | Quit leads to the menu from every other screen; pausing and resuming return to play; play is entered only from the menu's first item, from pause, or by restart |
| GameLogic.LoadSettings | game.cpp:581-586 | the stored grid switch when the file exists, otherwise the current one |
| GameLogic.LoadHighestScores | game.cpp:456-472 | the overall best is the highest score in the store and the personal best the player's highest, both floored at 0, with personal ≤ overall |
| GameLogic.LoadLeaderboard | game.cpp:526-546 | the board is sorted, has one entry per name, and is a permutation of the max-merged file, not cut to ten |
| GameLogic.LoadObstacles | game.cpp:442-453 | the loop keeps exactly the first 100 in-bounds cells of the file |
| GameLogic.Game.constructor | game.cpp:19-39 | the game starts on the menu with item 0, grid setting from the file or on, bests as loaded, leaderboard and obstacles as loaded, a fresh snake facing up, score 0 and food on a free cell |
| GameLogic.Game.Shutdown | game.cpp:42-47 | the destructor max-merges the per-player store and writes the grid setting |
| GameLogic.Game.SaveSettings | game.cpp:589-594 | the settings file holds the current grid switch |
| GameLogic.Game.SavePersonalBest | game.cpp:475-501 | nothing changes unless the score beats the personal best; otherwise the store is rewritten last-wins with the player's score, the personal best becomes the score, the overall best is raised to it, and 0 ≤ personal ≤ overall is kept |
| GameLogic.Game.SaveSessionBestScore | game.cpp:504-523 | the per-player store becomes its max-merged table |
| GameLogic.Game.SaveToLeaderboard | game.cpp:549-578 | the board is updated as the recorded-leaderboard relation allows, stays sorted with one entry per name, and is written to the file only for a positive score |
| GameLogic.Game.InitializeSnake | game.cpp:392-399 | the snake is the initial three-cell body and both directions are up |
| GameLogic.Game.FreeCells | game.cpp:403-414 | the collected cells are exactly the free cells, in the column-by-column order of the loops |
| GameLogic.Game.GenerateFood | game.cpp:402-418 | food lands on a free cell when one exists; otherwise it stays where it was |
| GameLogic.Game.MoveSnake | game.cpp:421-430 | the body becomes the moved body in the current direction |
| GameLogic.Game.CheckCollision | game.cpp:433-439 | the result is true exactly when the head is off the grid, on any later segment, or on an obstacle |
| GameLogic.Game.Reset | game.cpp:619-625 | a fresh snake facing up, score 0, and food placed on a free cell |
| GameLogic.Game.ChangeState | game.cpp:597-603 | the state is set and the menu item zeroed; the leaderboard is reloaded from its file only when entering the leaderboard |
| GameLogic.Game.EndSession | game.cpp:151-155 | a colliding tick records the score on the leaderboard and as a personal best, then shows the game-over screen with item 0 |
| GameLogic.Game.Tick | game.cpp:142-165 | the buffered direction is committed and never reverses the previous one. On a collision the body keeps its new head, score and food are unchanged, and the session is recorded. Otherwise play goes on with the stores untouched: on food, the body grows by the new head, the score rises by 10 and food is regenerated; elsewhere, the body moves by dropping its tail, and score and food are unchanged |
| GameLogic.Game.HandleMenuInput | game.cpp:88-103 | up and down wrap the item; confirming starts play (after a reset), opens the leaderboard (reloaded) or settings, or stops the game; nothing else changes |
| GameLogic.Game.HandleGameInput | game.cpp:106-120 | P or Space pauses, Quit goes to the menu, and a movement intent sets the buffer unless it reverses the current direction |
| GameLogic.Game.HandleLeaderboardInput | game.cpp:123-127 | Quit or Enter returns to the menu |
| GameLogic.Game.HandleSettingsInput | game.cpp:130-139 | confirming toggles the grid; Quit writes the setting and returns to the menu |
| GameLogic.Game.HandleGameOverInput | game.cpp:72-79 | R restarts play after a reset, Quit goes to the menu, L opens the reloaded leaderboard |
| GameLogic.Game.HandlePausedInput | game.cpp:80-83 | P or Space resumes play, Quit goes to the menu |
| GameLogic.Game.HandleInput | game.cpp:66-85 | the next state follows the transition table; any change of state zeroes the item; on the menu, down and up wrap the item, and otherwise the item stays while the screen stays; during play a movement intent buffers a non-reversing direction; entering play from the menu or game over resets the session, and otherwise the snake, directions, score and food are unchanged; entering the leaderboard reloads it, and otherwise it is unchanged; confirming on the settings screen toggles the grid and Quit there writes it, and nothing else touches either; the game stops exactly when Exit is confirmed on the menu |
| GameLogic.Game.HandleMenuGameOrBoardInput | game.cpp:67-70 | the same promise as `HandleInput` for the menu, playing and leaderboard screens |
| GameLogic.Game.HandleOtherInput | game.cpp:71-83 | the same promise as `HandleInput` for the settings, game-over and paused screens |
| GameLogic.ToggleGridTwice | game.cpp:131-133 | two confirms on the settings screen leave the grid switch as it was |
| GameLogic.PauseAndResume | game.cpp:80-82 | pausing and then resuming play returns to play with snake, score, food, directions and leaderboard unchanged |

## Left out

- Drawing, the window, the font and the animation timer (`draw*`, `updateAnimations`,
  `InitWindow`, `CloseWindow`): these are graphics calls with no game logic.
- The `run` loop and the name prompt in `main.cpp`. The player name is a constructor
  parameter. One loop iteration is `HandleInput` followed by `Tick` while playing.
- Key polling: each call receives one abstract intent. The source can see several keys
  in one frame, and then runs more than one branch of a handler. The Escape key closing
  the window is not modelled.
- Float timing: `moveTimer` and `moveInterval` are left out. A `Tick` is one elapsed
  move interval. `calculateSpeed` is modelled in whole milliseconds.
- `srand`/`rand`: the `pick` parameter stands for `rand()`, and food is the
  `pick % n`-th free cell.
- File I/O: files hold already-parsed pairs. Token parsing, stopping at a bad token,
  a failed read of the settings file, and write failures are not modelled.
- `std::map` iteration order: the association lists keep first-insertion order, not
  name order, so rewritten files list the same entries in another line order.
- `std::sort` is not stable. The leaderboard is specified only as some permutation
  sorted by non-increasing score.
- GameLogic.Game.EndSession: its contract keeps only the leaderboard and best-score
  parts of the class invariant, because `Tick` re-establishes the rest.
- Integer width: scores are unbounded integers, so a 32-bit overflow of `score` is not
  modelled.
- The food cell before the first placement is (0, 0). Its initial value in the source
  is unspecified, and the constructor always places food before it is read.
- `obstacles` is a constant field. Only the constructor loads it, as in the source.

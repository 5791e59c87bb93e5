/** The Game class of game.cpp without its drawing: the state machine driven by one
    input intent at a time, the snake tick, and the loads and saves of the score,
    leaderboard, settings and obstacle files, each file held as a field with its
    already-parsed contents. */
module GameLogic {

  import opened Types
  import opened Snake
  import opened Scores

  /** One key press, grouped by the keys the game treats alike in every state. */
  datatype Intent =
    | MoveUp     // W or the up arrow
    | MoveDown   // S or the down arrow
    | MoveLeft   // A or the left arrow
    | MoveRight  // D or the right arrow
    | Enter      // Enter
    | Space      // the space bar
    | PauseKey   // P
    | Quit       // Q or Escape
    | Restart    // R
    | ShowBoard  // L

  /** Enter and Space both confirm a menu item or toggle a setting. */
  predicate Confirms(i: Intent)
  {
    i == Enter || i == Space
  }

  /** P and Space both pause and resume. */
  predicate TogglesPause(i: Intent)
  {
    i == PauseKey || i == Space
  }

  /** The direction a movement intent asks for during play. */
  function Requested(i: Intent): Option<Direction>
  {
    match i
    case MoveUp => Some(Up)
    case MoveDown => Some(Down)
    case MoveLeft => Some(Left)
    case MoveRight => Some(Right)
    case _ => None
  }

  /** The buffered direction after intent `i` during play: a request is taken unless it
      reverses the direction the snake last moved in. */
  function Buffered(next: Direction, current: Direction, i: Intent): Direction
  {
    match Requested(i)
    case Some(d) => if d != Opposite(current) then d else next
    case None => next
  }

  /** Buffering keeps the invariant that the next move never reverses the last one, and a
      reversing request leaves the buffer as it was. */
  lemma BufferedNeverReverses(next: Direction, current: Direction, i: Intent)
    requires next != Opposite(current)
    ensures Buffered(next, current, i) != Opposite(current)
    ensures Requested(i) == Some(Opposite(current)) ==> Buffered(next, current, i) == next
    ensures Requested(i).Some? && Requested(i).value != Opposite(current) ==> Buffered(next, current, i) == Requested(i).value
  {
  }

  /** The four menu items are Play, Leaderboard, Settings and Exit. */
  const MenuItems: int := 4

  function MenuBelow(item: int): (r: int)
    requires 0 <= item < MenuItems
    ensures 0 <= r < MenuItems
    ensures r == if item == MenuItems - 1 then 0 else item + 1
  {
    (item + 1) % MenuItems
  }

  function MenuAbove(item: int): (r: int)
    requires 0 <= item < MenuItems
    ensures 0 <= r < MenuItems
    ensures r == if item == 0 then MenuItems - 1 else item - 1
  {
    (item - 1 + MenuItems) % MenuItems
  }

  lemma MenuMovesUndoEachOther(item: int)
    requires 0 <= item < MenuItems
    ensures MenuAbove(MenuBelow(item)) == item && MenuBelow(MenuAbove(item)) == item
  {
  }

  /** The transition table of handleInput: the state each intent leads to. */
  function NextState(s: GameState, i: Intent, item: int): GameState
  {
    match s
    case Menu =>
      if Confirms(i) && item == 0 then Playing
      else if Confirms(i) && item == 1 then Leaderboard
      else if Confirms(i) && item == 2 then Settings
      else Menu
    case Playing => if TogglesPause(i) then Paused else if i == Quit then Menu else Playing
    case Paused => if TogglesPause(i) then Playing else if i == Quit then Menu else Paused
    case GameOver =>
      if i == Restart then Playing
      else if i == Quit then Menu
      else if i == ShowBoard then Leaderboard
      else GameOver
    case Leaderboard => if i == Quit || i == Enter then Menu else Leaderboard
    case Settings => if i == Quit then Menu else Settings
  }

  /** Quit leads back to the menu from every other screen; pausing twice resumes play;
      play is entered only from the menu's first item, from pause or by restarting. */
  lemma TransitionFacts(s: GameState, i: Intent, item: int)
    ensures s != Menu ==> NextState(s, Quit, item) == Menu
    ensures NextState(NextState(Playing, i, item), i, 0) == Playing <==> TogglesPause(i) || (i != Quit && i != PauseKey && i != Space)
    ensures NextState(s, i, item) == Playing && s != Playing ==>
      (s == Menu && Confirms(i) && item == 0) || (s == Paused && TogglesPause(i)) || (s == GameOver && i == Restart)
  {
  }

  /** The leaderboard as loadLeaderboard leaves it: the per-name maxima of the store,
      one entry per name, in non-increasing score order. */
  ghost predicate IsLoadedLeaderboard(board: seq<ScoreEntry>, store: seq<ScoreEntry>)
  {
    SortedByScore(board) && UniqueNames(board) && multiset(board) == multiset(MaxTable(store))
  }

  /** loadSettings: the grid switch stored in the settings file, or `current` when
      there is no file. */
  function LoadSettings(file: Option<bool>, current: bool): (grid: bool)
    ensures file.Some? ==> grid == file.value
    ensures file.None? ==> grid == current
  {
    match file
    case Some(b) => b
    case None => current
  }

  /** loadHighestScores: the highest score in the per-player store, and the player's
      own, both at least 0. */
  method LoadHighestScores(store: seq<ScoreEntry>, name: string) returns (overall: int, best: int)
    ensures IsHighestOverall(store, overall)
    ensures IsHighestFor(store, name, best)
    ensures 0 <= best <= overall
  {
    overall := 0;
    best := 0;
    var i := 0;
    while i < |store|
      invariant 0 <= i <= |store|
      invariant 0 <= best <= overall
      invariant forall k | 0 <= k < i :: store[k].score <= overall
      invariant overall == 0 || exists k | 0 <= k < i :: store[k].score == overall
      invariant forall k | 0 <= k < i && store[k].name == name :: store[k].score <= best
      invariant best == 0 || exists k | 0 <= k < i :: store[k] == ScoreEntry(name, best)
    {
      var e := store[i];
      if e.score > overall {
        overall := e.score;
      }
      if e.name == name && e.score > best {
        best := e.score;
      }
      i := i + 1;
    }
  }

  /** loadLeaderboard: the leaderboard file merged to one entry per name holding its
      best score, sorted by score and not cut to ten. */
  method LoadLeaderboard(store: seq<ScoreEntry>) returns (board: seq<ScoreEntry>)
    ensures IsLoadedLeaderboard(board, store)
  {
    var best := MergeMax(store);
    board := SortByScore(best);
    SubMultisetKeepsUniqueNames(best, board);
  }

  /** loadObstacles: the first 100 in-bounds cells of the obstacle file, in file order. */
  method LoadObstacles(pairs: seq<(int, int)>) returns (obstacles: seq<Position>)
    ensures obstacles == LoadedObstacles(pairs)
  {
    obstacles := [];
    var i := 0;
    while i < |pairs| && |obstacles| < MaxObstacles
      invariant 0 <= i <= |pairs|
      invariant obstacles == InBoundCells(pairs[..i])
      invariant |obstacles| <= MaxObstacles
    {
      assert pairs[..i + 1][..i] == pairs[..i];
      var (x, y) := pairs[i];
      if x >= 0 && x < GridWidth && y >= 0 && y < GridHeight {
        obstacles := obstacles + [Position(x, y)];
      }
      i := i + 1;
    }
    InBoundCellsOfPrefix(pairs, i);
    if i == |pairs| {
      assert pairs[..i] == pairs;
    }
  }

  class Game {
    const playerName: string
    var currentState: GameState
    /** Head first, tail last. */
    var snake: seq<Position>
    var food: Position
    /** Loaded once by the constructor and never changed afterwards. */
    const obstacles: seq<Position>
    var currentDirection: Direction
    var nextDirection: Direction
    var score: nat
    var overallHighestScore: int
    var personalBestScore: int
    var leaderboard: seq<ScoreEntry>
    var selectedMenuItem: int
    var gameRunning: bool
    var showGrid: bool
    /** settings.txt: its boolean, or None when the file is missing. */
    var settingsFile: Option<bool>
    /** user_scores.txt: the (name, score) pairs it holds. */
    var userScoresFile: seq<ScoreEntry>
    /** scores.txt: the (name, score) pairs it holds. */
    var scoresFile: seq<ScoreEntry>

    /** The class invariant: a non-empty snake that cannot reverse on the next tick, a
        menu selection in range, ordered bests, a well-formed leaderboard and at most
        100 obstacles on the grid. */
    ghost predicate Valid()
      reads this
    {
      SnakeValid() && MenuValid() && BestsValid() && BoardValid() && ObstaclesValid()
    }

    ghost predicate SnakeValid()
      reads this`snake, this`currentDirection, this`nextDirection
    {
      |snake| >= 1 && nextDirection != Opposite(currentDirection)
    }

    ghost predicate MenuValid()
      reads this`selectedMenuItem
    {
      0 <= selectedMenuItem < MenuItems
    }

    ghost predicate BestsValid()
      reads this`personalBestScore, this`overallHighestScore
    {
      0 <= personalBestScore <= overallHighestScore
    }

    ghost predicate BoardValid()
      reads this`leaderboard
    {
      UniqueNames(leaderboard) && SortedByScore(leaderboard)
    }

    ghost predicate ObstaclesValid()
    {
      |obstacles| <= MaxObstacles && forall c | c in obstacles :: InBounds(c)
    }

    /** Game(playerName): load settings, best scores, leaderboard and obstacles, then
        start a session on the menu screen. The food cell before the first placement
        is (0, 0). */
    constructor (name: string, settings: Option<bool>, userScores: seq<ScoreEntry>,
                 scores: seq<ScoreEntry>, obstacleFile: seq<(int, int)>, pick: nat)
      ensures Valid()
      ensures playerName == name && currentState == Menu && selectedMenuItem == 0 && gameRunning
      ensures settingsFile == settings && userScoresFile == userScores && scoresFile == scores
      ensures showGrid == match settings case Some(b) => b case None => true
      ensures IsHighestOverall(userScores, overallHighestScore) && IsHighestFor(userScores, name, personalBestScore)
      ensures IsLoadedLeaderboard(leaderboard, scores)
      ensures obstacles == LoadedObstacles(obstacleFile)
      ensures snake == InitialBody() && currentDirection == Up && nextDirection == Up && score == 0
      ensures FoodPlaced(Position(0, 0), food, snake, obstacles)
    {
      playerName := name;
      currentState := Menu;
      score := 0;
      selectedMenuItem := 0;
      gameRunning := true;
      settingsFile := settings;
      userScoresFile := userScores;
      scoresFile := scores;
      showGrid := LoadSettings(settings, true);
      var overall, best := LoadHighestScores(userScores, name);
      overallHighestScore, personalBestScore := overall, best;
      var board := LoadLeaderboard(scores);
      leaderboard := board;
      var cells := LoadObstacles(obstacleFile);
      obstacles := cells;
      snake := [];
      food := Position(0, 0);
      currentDirection := Up;
      nextDirection := Up;
      new;
      Reset(pick);
    }

    /** ~Game(): merge the per-player store and write the settings. */
    method Shutdown()
      modifies this`userScoresFile, this`settingsFile
      ensures userScoresFile == MaxTable(old(userScoresFile))
      ensures settingsFile == Some(showGrid)
    {
      SaveSessionBestScore();
      SaveSettings();
    }

    method SaveSettings()
      modifies this`settingsFile
      ensures settingsFile == Some(showGrid)
    {
      settingsFile := Some(showGrid);
    }

    /** Nothing unless the session score beats the player's best; otherwise rewrite the
        store (last entry per name wins, the player's set to the score) and raise both
        bests. */
    method SavePersonalBest()
      modifies this`userScoresFile, this`personalBestScore, this`overallHighestScore
      ensures PersonalBestRecorded(old(userScoresFile), old(personalBestScore), old(overallHighestScore),
                                   playerName, score, userScoresFile, personalBestScore, overallHighestScore)
      ensures 0 <= old(personalBestScore) <= old(overallHighestScore) ==> 0 <= personalBestScore <= overallHighestScore
    {
      if score <= personalBestScore {
        return;
      }
      var table := MergeLast(userScoresFile);
      table := Put(table, ScoreEntry(playerName, score));
      userScoresFile := table;
      personalBestScore := score;
      if score > overallHighestScore {
        overallHighestScore := score;
      }
    }

    /** Rewrite the per-player store with one entry per name holding its maximum. */
    method SaveSessionBestScore()
      modifies this`userScoresFile
      ensures userScoresFile == MaxTable(old(userScoresFile))
    {
      userScoresFile := MergeMax(userScoresFile);
    }

    /** For a positive score: raise or add the player's entry, sort, keep the top ten
        and write the board to the leaderboard file. */
    method SaveToLeaderboard()
      requires UniqueNames(leaderboard) && SortedByScore(leaderboard)
      modifies this`leaderboard, this`scoresFile
      ensures UniqueNames(leaderboard) && SortedByScore(leaderboard)
      ensures RecordedInLeaderboard(old(leaderboard), leaderboard, playerName, score)
      ensures scoresFile == if score > 0 then leaderboard else old(scoresFile)
    {
      if score > 0 {
        var board := RaiseOrAdd(leaderboard, ScoreEntry(playerName, score));
        leaderboard := Truncated(SortByScore(board));
        SortedTopTenIsRecorded(old(leaderboard), playerName, score);
        RecordedLeaderboardFacts(old(leaderboard), leaderboard, playerName, score);
        scoresFile := leaderboard;
      }
    }

    method InitializeSnake()
      modifies this`snake, this`currentDirection, this`nextDirection
      ensures snake == InitialBody() && currentDirection == Up && nextDirection == Up
    {
      snake := [Position(GridWidth / 2, GridHeight / 2),
                Position(GridWidth / 2, GridHeight / 2 + 1),
                Position(GridWidth / 2, GridHeight / 2 + 2)];
      currentDirection := Up;
      nextDirection := Up;
    }

    /** The empty cells generateFood collects, in the order its loops visit them. */
    method FreeCells() returns (cells: seq<Position>)
      ensures forall p :: p in cells <==> IsFree(p, snake, obstacles)
      ensures forall i, j | 0 <= i < j < |cells| :: ScanBefore(cells[i], cells[j])
    {
      cells := [];
      var x := 0;
      while x < GridWidth
        invariant 0 <= x <= GridWidth
        invariant forall p :: p in cells <==> IsFree(p, snake, obstacles) && p.x < x
        invariant forall i, j | 0 <= i < j < |cells| :: ScanBefore(cells[i], cells[j])
      {
        var y := 0;
        while y < GridHeight
          invariant 0 <= y <= GridHeight
          invariant forall p :: p in cells <==> IsFree(p, snake, obstacles) && ScanBefore(p, Position(x, y))
          invariant forall i, j | 0 <= i < j < |cells| :: ScanBefore(cells[i], cells[j])
        {
          var pos := Position(x, y);
          var isEmpty := true;
          var onSnake := Contains(snake, pos);
          if onSnake {
            isEmpty := false;
          }
          if isEmpty {
            var onObstacle := Contains(obstacles, pos);
            if onObstacle {
              isEmpty := false;
            }
          }
          if isEmpty {
            cells := cells + [pos];
          }
          y := y + 1;
        }
        x := x + 1;
      }
    }

    /** Put the food on the pick-th empty cell (pick stands for rand()), or leave it
        where it is when no cell is empty. */
    method GenerateFood(pick: nat)
      modifies this`food
      ensures FoodPlaced(old(food), food, snake, obstacles)
    {
      var cells := FreeCells();
      if |cells| > 0 {
        food := cells[pick % |cells|];
        assert IsFree(food, snake, obstacles);
      } else {
        assert forall p :: !IsFree(p, snake, obstacles);
      }
    }

    method MoveSnake()
      requires |snake| >= 1
      modifies this`snake
      ensures snake == Moved(old(snake), currentDirection)
    {
      var newHead := snake[0];
      match currentDirection {
        case Up => newHead := newHead.(y := newHead.y - 1);
        case Down => newHead := newHead.(y := newHead.y + 1);
        case Left => newHead := newHead.(x := newHead.x - 1);
        case Right => newHead := newHead.(x := newHead.x + 1);
      }
      snake := [newHead] + snake;
    }

    /** Whether the head, just pushed on, hits a wall, any other segment or an obstacle. */
    method CheckCollision() returns (hit: bool)
      requires |snake| >= 1
      ensures hit <==> Collides(snake, obstacles)
    {
      var head := snake[0];
      if head.x < 0 || head.x >= GridWidth || head.y < 0 || head.y >= GridHeight {
        return true;
      }
      var i := 1;
      while i < |snake|
        invariant 1 <= i <= |snake|
        invariant forall k | 1 <= k < i :: snake[k] != head
      {
        if snake[i] == head {
          return true;
        }
        i := i + 1;
      }
      var j := 0;
      while j < |obstacles|
        invariant 0 <= j <= |obstacles|
        invariant head !in obstacles[..j]
      {
        if obstacles[j] == head {
          return true;
        }
        j := j + 1;
      }
      assert obstacles[..j] == obstacles;
      return false;
    }

    /** Start a session: fresh snake facing up, new food, score 0. */
    method Reset(pick: nat)
      modifies this`snake, this`currentDirection, this`nextDirection, this`food, this`score
      ensures snake == InitialBody() && currentDirection == Up && nextDirection == Up && score == 0
      ensures FoodPlaced(old(food), food, snake, obstacles)
    {
      InitializeSnake();
      GenerateFood(pick);
      score := 0;
    }

    /** Every transition resets the menu selection; entering the leaderboard reloads it. */
    method ChangeState(newState: GameState)
      modifies this`currentState, this`selectedMenuItem, this`leaderboard
      ensures currentState == newState && selectedMenuItem == 0
      ensures newState != Leaderboard ==> leaderboard == old(leaderboard)
      ensures newState == Leaderboard ==> IsLoadedLeaderboard(leaderboard, scoresFile)
    {
      currentState := newState;
      selectedMenuItem := 0;
      if newState == Leaderboard {
        var board := LoadLeaderboard(scoresFile);
        leaderboard := board;
      }
    }

    /** A colliding tick: record the score on the leaderboard and as a personal best,
        then show the game-over screen. */
    method EndSession()
      requires BoardValid() && BestsValid()
      modifies this`leaderboard, this`scoresFile, this`userScoresFile, this`personalBestScore,
               this`overallHighestScore, this`currentState, this`selectedMenuItem
      ensures BoardValid() && BestsValid()
      ensures currentState == GameOver && selectedMenuItem == 0
      ensures RecordedInLeaderboard(old(leaderboard), leaderboard, playerName, score)
      ensures scoresFile == (if score > 0 then leaderboard else old(scoresFile))
      ensures PersonalBestRecorded(old(userScoresFile), old(personalBestScore), old(overallHighestScore),
                                   playerName, score, userScoresFile, personalBestScore, overallHighestScore)
    {
      SaveToLeaderboard();
      ghost var board, written := leaderboard, scoresFile;
      SavePersonalBest();
      ghost var store, best, overall := userScoresFile, personalBestScore, overallHighestScore;
      ChangeState(GameOver);
      assert leaderboard == board && scoresFile == written;
      assert userScoresFile == store && personalBestScore == best && overallHighestScore == overall;
    }

    /** One logical move of the snake (the body of update once the interval has passed). */
    method Tick(pick: nat)
      requires Valid() && currentState == Playing
      modifies this`currentDirection, this`snake, this`food, this`score, this`leaderboard,
               this`scoresFile, this`userScoresFile, this`personalBestScore,
               this`overallHighestScore, this`currentState, this`selectedMenuItem
      ensures Valid()
      ensures currentDirection == old(nextDirection)
      ensures currentDirection != Opposite(old(currentDirection))
      ensures Collides(Moved(old(snake), old(nextDirection)), obstacles) ==>
        && snake == Moved(old(snake), old(nextDirection)) && score == old(score) && food == old(food)
        && currentState == GameOver && selectedMenuItem == 0
        && RecordedInLeaderboard(old(leaderboard), leaderboard, playerName, score)
        && scoresFile == (if score > 0 then leaderboard else old(scoresFile))
        && PersonalBestRecorded(old(userScoresFile), old(personalBestScore), old(overallHighestScore),
                                playerName, score, userScoresFile, personalBestScore, overallHighestScore)
      ensures !Collides(Moved(old(snake), old(nextDirection)), obstacles) ==>
        && currentState == Playing && selectedMenuItem == old(selectedMenuItem)
        && leaderboard == old(leaderboard) && scoresFile == old(scoresFile)
        && userScoresFile == old(userScoresFile)
        && personalBestScore == old(personalBestScore) && overallHighestScore == old(overallHighestScore)
      ensures !Collides(Moved(old(snake), old(nextDirection)), obstacles) && snake[0] == old(food) ==>
        && snake == Moved(old(snake), old(nextDirection)) && score == old(score) + 10
        && FoodPlaced(old(food), food, snake, obstacles)
      ensures !Collides(Moved(old(snake), old(nextDirection)), obstacles) && snake[0] != old(food) ==>
        && snake == Moved(old(snake), old(nextDirection))[..|old(snake)|] && score == old(score) && food == old(food)
    {
      currentDirection := nextDirection;
      MoveSnake();
      ghost var moved := snake;
      var hit := CheckCollision();
      assert moved == Moved(old(snake), old(nextDirection));
      assert hit == Collides(Moved(old(snake), old(nextDirection)), obstacles);
      if hit {
        EndSession();
        assert SnakeValid() && MenuValid();
        return;
      }
      if snake[0] == food {
        score := score + 10;
        GenerateFood(pick);
      } else {
        snake := snake[..|snake| - 1];
      }
    }

    method HandleMenuInput(i: Intent, pick: nat)
      requires Valid() && currentState == Menu
      modifies this`selectedMenuItem, this`currentState, this`leaderboard, this`gameRunning,
               this`snake, this`currentDirection, this`nextDirection, this`food, this`score
      ensures Valid()
      ensures currentState == NextState(Menu, i, old(selectedMenuItem))
      ensures selectedMenuItem ==
        if i == MoveDown then MenuBelow(old(selectedMenuItem))
        else if i == MoveUp then MenuAbove(old(selectedMenuItem))
        else if currentState != Menu then 0
        else old(selectedMenuItem)
      ensures gameRunning == (old(gameRunning) && !(Confirms(i) && old(selectedMenuItem) == 3))
      ensures if currentState == Playing
              then snake == InitialBody() && currentDirection == Up && nextDirection == Up && score == 0
                   && FoodPlaced(old(food), food, snake, obstacles)
              else snake == old(snake) && currentDirection == old(currentDirection)
                   && nextDirection == old(nextDirection) && score == old(score) && food == old(food)
      ensures if currentState == Leaderboard then IsLoadedLeaderboard(leaderboard, scoresFile)
              else leaderboard == old(leaderboard)
    {
      if i == MoveDown {
        selectedMenuItem := (selectedMenuItem + 1) % MenuItems;
      } else if i == MoveUp {
        selectedMenuItem := (selectedMenuItem - 1 + MenuItems) % MenuItems;
      } else if Confirms(i) {
        if selectedMenuItem == 0 {
          Reset(pick);
          ChangeState(Playing);
        } else if selectedMenuItem == 1 {
          ChangeState(Leaderboard);
        } else if selectedMenuItem == 2 {
          ChangeState(Settings);
        } else {
          gameRunning := false;
        }
      }
    }

    method HandleGameInput(i: Intent)
      requires Valid() && currentState == Playing
      modifies this`currentState, this`selectedMenuItem, this`nextDirection, this`leaderboard
      ensures Valid() && leaderboard == old(leaderboard)
      ensures currentState == NextState(Playing, i, old(selectedMenuItem))
      ensures if currentState == Playing
              then selectedMenuItem == old(selectedMenuItem)
                   && nextDirection == Buffered(old(nextDirection), currentDirection, i)
              else selectedMenuItem == 0 && nextDirection == old(nextDirection)
    {
      if TogglesPause(i) {
        ChangeState(Paused);
        return;
      }
      if i == Quit {
        ChangeState(Menu);
        return;
      }
      if i == MoveUp && currentDirection != Down {
        nextDirection := Up;
      }
      if i == MoveDown && currentDirection != Up {
        nextDirection := Down;
      }
      if i == MoveLeft && currentDirection != Right {
        nextDirection := Left;
      }
      if i == MoveRight && currentDirection != Left {
        nextDirection := Right;
      }
    }

    method HandleLeaderboardInput(i: Intent)
      requires Valid() && currentState == Leaderboard
      modifies this`currentState, this`selectedMenuItem, this`leaderboard
      ensures Valid() && leaderboard == old(leaderboard)
      ensures currentState == NextState(Leaderboard, i, old(selectedMenuItem))
      ensures selectedMenuItem == if currentState == Menu then 0 else old(selectedMenuItem)
    {
      if i == Quit || i == Enter {
        ChangeState(Menu);
      }
    }

    method HandleSettingsInput(i: Intent)
      requires Valid() && currentState == Settings
      modifies this`showGrid, this`settingsFile, this`currentState, this`selectedMenuItem, this`leaderboard
      ensures Valid() && leaderboard == old(leaderboard)
      ensures currentState == NextState(Settings, i, old(selectedMenuItem))
      ensures showGrid == if Confirms(i) then !old(showGrid) else old(showGrid)
      ensures if i == Quit then settingsFile == Some(showGrid) && selectedMenuItem == 0
              else settingsFile == old(settingsFile) && selectedMenuItem == old(selectedMenuItem)
    {
      if Confirms(i) {
        showGrid := !showGrid;
      }
      if i == Quit {
        SaveSettings();
        ChangeState(Menu);
      }
    }

    /** What handleInput promises about one intent, in terms of the state before it. */
    twostate predicate HandledInput(i: Intent)
      reads this
    {
      && currentState == NextState(old(currentState), i, old(selectedMenuItem))
      && (currentState != old(currentState) ==> selectedMenuItem == 0)
      && (old(currentState) == Menu && i == MoveDown ==> selectedMenuItem == (old(selectedMenuItem) + 1) % MenuItems)
      && (old(currentState) == Menu && i == MoveUp ==> selectedMenuItem == (old(selectedMenuItem) - 1 + MenuItems) % MenuItems)
      && (currentState == old(currentState) && !(old(currentState) == Menu && (i == MoveDown || i == MoveUp)) ==>
            selectedMenuItem == old(selectedMenuItem))
      && (old(currentState) == Playing && currentState == Playing ==>
            nextDirection == Buffered(old(nextDirection), currentDirection, i))
      && (if currentState == Playing && (old(currentState) == Menu || old(currentState) == GameOver)
          then snake == InitialBody() && currentDirection == Up && nextDirection == Up && score == 0
               && FoodPlaced(old(food), food, snake, obstacles)
          else snake == old(snake) && currentDirection == old(currentDirection)
               && score == old(score) && food == old(food)
               && ((old(currentState) == Playing && currentState == Playing) || nextDirection == old(nextDirection)))
      && (if currentState == Leaderboard && old(currentState) != Leaderboard
          then IsLoadedLeaderboard(leaderboard, scoresFile)
          else leaderboard == old(leaderboard))
      && showGrid == (if old(currentState) == Settings && Confirms(i) then !old(showGrid) else old(showGrid))
      && settingsFile == (if old(currentState) == Settings && i == Quit then Some(showGrid) else old(settingsFile))
      && gameRunning == (old(gameRunning) && !(old(currentState) == Menu && Confirms(i) && old(selectedMenuItem) == 3))
    }

    /** handleInput: dispatch one intent on the current state. */
    method HandleInput(i: Intent, pick: nat)
      requires Valid()
      modifies this`selectedMenuItem, this`currentState, this`leaderboard, this`gameRunning,
               this`snake, this`currentDirection, this`nextDirection, this`food, this`score,
               this`showGrid, this`settingsFile
      ensures Valid() && HandledInput(i)
    {
      if currentState == Menu || currentState == Playing || currentState == Leaderboard {
        HandleMenuGameOrBoardInput(i, pick);
      } else {
        HandleOtherInput(i, pick);
      }
    }

    /** handleInput on the menu, playing and leaderboard screens. The source has one
        switch over all six screens; it is split in two halves here only so that each
        proof stays small. */
    method HandleMenuGameOrBoardInput(i: Intent, pick: nat)
      requires Valid() && (currentState == Menu || currentState == Playing || currentState == Leaderboard)
      modifies this`selectedMenuItem, this`currentState, this`leaderboard, this`gameRunning,
               this`snake, this`currentDirection, this`nextDirection, this`food, this`score,
               this`showGrid, this`settingsFile
      ensures Valid() && HandledInput(i)
    {
      match currentState
      case Menu => HandleMenuInput(i, pick);
      case Playing => HandleGameInput(i);
      case Leaderboard => HandleLeaderboardInput(i);
    }

    /** handleInput on the settings, game-over and paused screens: the other half of
        the single switch of the source. */
    method HandleOtherInput(i: Intent, pick: nat)
      requires Valid() && (currentState == Settings || currentState == GameOver || currentState == Paused)
      modifies this`selectedMenuItem, this`currentState, this`leaderboard, this`gameRunning,
               this`snake, this`currentDirection, this`nextDirection, this`food, this`score,
               this`showGrid, this`settingsFile
      ensures Valid() && HandledInput(i)
    {
      match currentState
      case Settings => HandleSettingsInput(i);
      case GameOver => HandleGameOverInput(i, pick);
      case Paused => HandlePausedInput(i);
    }

    /** The game-over branch of handleInput: restart, back to the menu, or the board. */
    method HandleGameOverInput(i: Intent, pick: nat)
      requires Valid() && currentState == GameOver
      modifies this`selectedMenuItem, this`currentState, this`leaderboard,
               this`snake, this`currentDirection, this`nextDirection, this`food, this`score
      ensures Valid()
      ensures currentState == NextState(GameOver, i, old(selectedMenuItem))
      ensures selectedMenuItem == if currentState == GameOver then old(selectedMenuItem) else 0
      ensures if currentState == Playing
              then snake == InitialBody() && currentDirection == Up && nextDirection == Up && score == 0
                   && FoodPlaced(old(food), food, snake, obstacles)
              else snake == old(snake) && currentDirection == old(currentDirection)
                   && nextDirection == old(nextDirection) && score == old(score) && food == old(food)
      ensures if currentState == Leaderboard then IsLoadedLeaderboard(leaderboard, scoresFile)
              else leaderboard == old(leaderboard)
    {
      if i == Restart {
        Reset(pick);
        ChangeState(Playing);
      } else if i == Quit {
        ChangeState(Menu);
      } else if i == ShowBoard {
        ChangeState(Leaderboard);
      }
    }

    /** The paused branch of handleInput: resume or back to the menu. */
    method HandlePausedInput(i: Intent)
      requires Valid() && currentState == Paused
      modifies this`selectedMenuItem, this`currentState, this`leaderboard
      ensures Valid() && leaderboard == old(leaderboard)
      ensures currentState == NextState(Paused, i, old(selectedMenuItem))
      ensures selectedMenuItem == if currentState == Paused then old(selectedMenuItem) else 0
    {
      if TogglesPause(i) {
        ChangeState(Playing);
      } else if i == Quit {
        ChangeState(Menu);
      }
    }
  }

  /** Two confirms on the settings screen leave the grid setting as it was. */
  method ToggleGridTwice(g: Game, first: Intent, second: Intent)
    requires g.Valid() && g.currentState == Settings
    requires Confirms(first) && Confirms(second)
    modifies g
    ensures g.showGrid == old(g.showGrid) && g.currentState == Settings
  {
    g.HandleInput(first, 0);
    g.HandleInput(second, 0);
  }

  /** Pausing and then resuming play leaves the session as it was. */
  method PauseAndResume(g: Game, pause: Intent, resume: Intent)
    requires g.Valid() && g.currentState == Playing
    requires TogglesPause(pause) && TogglesPause(resume)
    modifies g
    ensures g.currentState == Playing && g.selectedMenuItem == 0
    ensures g.snake == old(g.snake) && g.score == old(g.score) && g.food == old(g.food)
    ensures g.currentDirection == old(g.currentDirection) && g.nextDirection == old(g.nextDirection)
    ensures g.leaderboard == old(g.leaderboard) && g.gameRunning == old(g.gameRunning)
  {
    g.HandleInput(pause, 0);
    g.HandleInput(resume, 0);
  }
}

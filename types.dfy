/** Value types and constants shared by the game (game.hpp). */
module Types {

  datatype Option<T> = None | Some(value: T)

  /** Grid size and caps, as declared in the Game class. */
  const GridWidth: int := 30
  const GridHeight: int := 20
  const MaxLeaderboardEntries: nat := 10
  const MaxObstacles: nat := 100

  /** A grid cell. Equality is structural, like Position::operator==. */
  datatype Position = Position(x: int, y: int)

  datatype Direction = Up | Down | Left | Right

  datatype GameState = Menu | Playing | Paused | GameOver | Leaderboard | Settings

  /** A player name with a score, as read from or written to a score store. */
  datatype ScoreEntry = ScoreEntry(name: string, score: int)

  function Min(a: int, b: int): int { if a <= b then a else b }

  function Max(a: int, b: int): int { if a >= b then a else b }

  /** The one in-bounds test every part of the game uses. */
  predicate InBounds(p: Position)
  {
    0 <= p.x < GridWidth && 0 <= p.y < GridHeight
  }

  /** ScoreEntry::operator<: `a` sorts before `b` when its score is strictly higher. */
  predicate RanksBefore(a: ScoreEntry, b: ScoreEntry)
  {
    a.score > b.score
  }

  /** The direction that reverses `d`. */
  function Opposite(d: Direction): (r: Direction)
    ensures r != d
  {
    match d
    case Up => Down
    case Down => Up
    case Left => Right
    case Right => Left
  }

  lemma OppositeIsInvolution(d: Direction)
    ensures Opposite(Opposite(d)) == d
  {
  }

  lemma PositionEquality(p: Position, q: Position)
    ensures p == q <==> p.x == q.x && p.y == q.y
  {
  }

  /** operator< is a strict weak order: irreflexive, transitive, and two entries are
      unordered exactly when their scores are equal, whatever their names. */
  lemma RanksBeforeIsStrictWeakOrder(a: ScoreEntry, b: ScoreEntry, c: ScoreEntry)
    ensures !RanksBefore(a, a)
    ensures RanksBefore(a, b) && RanksBefore(b, c) ==> RanksBefore(a, c)
    ensures !RanksBefore(a, b) && !RanksBefore(b, a) <==> a.score == b.score
    ensures a.score == b.score ==> (RanksBefore(a, c) <==> RanksBefore(b, c))
  {
  }

  lemma InBoundsIsTheGrid(p: Position)
    ensures InBounds(p) <==> 0 <= p.x && p.x < 30 && 0 <= p.y && p.y < 20
  {
  }

  lemma EnumerationsAreClosed(d: Direction, s: GameState)
    ensures d == Up || d == Down || d == Left || d == Right
    ensures s == Menu || s == Playing || s == Paused || s == GameOver || s == Leaderboard || s == Settings
  {
  }
}

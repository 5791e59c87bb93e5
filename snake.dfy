/** The snake simulation on values: moving the head, the collision rule, free cells
    and the obstacle file filter (game.cpp moveSnake, checkCollision, generateFood,
    loadObstacles). The Game class applies these to its fields. */
module Snake {

  import opened Types

  function Abs(n: int): nat { if n < 0 then -n else n }

  /** The cell one step away from `p` in direction `d` (the new head of moveSnake). */
  function Step(p: Position, d: Direction): (q: Position)
    ensures Abs(q.x - p.x) + Abs(q.y - p.y) == 1
    ensures (d == Up || d == Down) <==> q.x == p.x
    ensures d == Up ==> q.y < p.y
    ensures d == Right ==> q.x > p.x
  {
    match d
    case Up => Position(p.x, p.y - 1)
    case Down => Position(p.x, p.y + 1)
    case Left => Position(p.x - 1, p.y)
    case Right => Position(p.x + 1, p.y)
  }

  /** Stepping back in the opposite direction undoes a step. */
  lemma StepThenOppositeReturns(p: Position, d: Direction)
    ensures Step(Step(p, d), Opposite(d)) == p
  {
  }

  /** The body after moveSnake: the new head pushed on the front, the tail still there. */
  function Moved(body: seq<Position>, d: Direction): (moved: seq<Position>)
    requires |body| >= 1
    ensures |moved| == |body| + 1 && moved[1..] == body
    ensures Abs(moved[0].x - body[0].x) + Abs(moved[0].y - body[0].y) == 1
  {
    [Step(body[0], d)] + body
  }

  /** The body built by initializeSnake: a vertical column of three cells below the
      grid centre, head first. */
  function InitialBody(): (body: seq<Position>)
    ensures |body| == 3 && body[0] == Position(GridWidth / 2, GridHeight / 2)
    ensures forall i | 1 <= i < |body| :: body[i] == Step(body[i - 1], Down)
  {
    [Position(15, 10), Position(15, 11), Position(15, 12)]
  }

  /** checkCollision on a body whose head was just pushed on: the head is off the grid,
      equals any later segment (the old tail included, since the tail is popped only
      after the check), or equals an obstacle. */
  predicate Collides(body: seq<Position>, obstacles: seq<Position>)
    requires |body| >= 1
  {
    || !InBounds(body[0])
    || (exists i | 1 <= i < |body| :: body[i] == body[0])
    || body[0] in obstacles
  }

  /** A cell generateFood may choose: on the grid and covered by neither snake nor obstacle. */
  predicate IsFree(p: Position, body: seq<Position>, obstacles: seq<Position>)
  {
    InBounds(p) && p !in body && p !in obstacles
  }

  ghost predicate HasFreeCell(body: seq<Position>, obstacles: seq<Position>)
  {
    exists p :: IsFree(p, body, obstacles)
  }

  /** What generateFood leaves in `food`: a free cell when there is one, and otherwise
      the previous food cell. */
  ghost predicate FoodPlaced(before: Position, after: Position, body: seq<Position>, obstacles: seq<Position>)
  {
    if HasFreeCell(body, obstacles) then IsFree(after, body, obstacles) else after == before
  }

  /** The order in which generateFood's nested loops visit cells: column by column. */
  predicate ScanBefore(p: Position, q: Position)
  {
    p.x < q.x || (p.x == q.x && p.y < q.y)
  }

  /** Moving the head onto the cell the tail occupies is a collision. */
  lemma MovingOntoOldTailCollides(body: seq<Position>, d: Direction, obstacles: seq<Position>)
    requires |body| >= 1
    requires Step(body[0], d) == body[|body| - 1]
    ensures Collides(Moved(body, d), obstacles)
  {
    var grown := Moved(body, d);
    assert grown[|body|] == grown[0];
  }

  /** A move that does not collide lands on a free cell of the body it leaves behind. */
  lemma NoCollisionMeansFreeHead(body: seq<Position>, d: Direction, obstacles: seq<Position>)
    requires |body| >= 1
    requires !Collides(Moved(body, d), obstacles)
    ensures IsFree(Step(body[0], d), body, obstacles)
  {
    var grown := Moved(body, d);
    assert forall i | 0 <= i < |body| :: grown[i + 1] == body[i];
  }

  /** A scan for `p` in `s`, as the ranged for-loops with `break` in generateFood do. */
  method Contains(s: seq<Position>, p: Position) returns (found: bool)
    ensures found <==> p in s
  {
    found := false;
    var i := 0;
    while i < |s|
      invariant 0 <= i <= |s|
      invariant p !in s[..i]
    {
      if s[i] == p {
        found := true;
        return;
      }
      i := i + 1;
    }
    assert s[..i] == s;
  }

  /** The in-bounds cells of an obstacle file, in file order. */
  function InBoundCells(pairs: seq<(int, int)>): (cells: seq<Position>)
    ensures |cells| <= |pairs|
    ensures forall c | c in cells :: InBounds(c) && (c.x, c.y) in pairs
    ensures forall i | 0 <= i < |pairs| :: InBounds(Position(pairs[i].0, pairs[i].1)) ==> Position(pairs[i].0, pairs[i].1) in cells
    decreases |pairs|
  {
    if pairs == [] then []
    else
      var rest := InBoundCells(pairs[..|pairs| - 1]);
      var c := Position(pairs[|pairs| - 1].0, pairs[|pairs| - 1].1);
      if InBounds(c) then rest + [c] else rest
  }

  /** The obstacles loadObstacles keeps: the first 100 in-bounds cells of the file. */
  function LoadedObstacles(pairs: seq<(int, int)>): (obstacles: seq<Position>)
    ensures |obstacles| <= MaxObstacles
    ensures forall c | c in obstacles :: InBounds(c) && (c.x, c.y) in pairs
  {
    var cells := InBoundCells(pairs);
    if |cells| <= MaxObstacles then cells else cells[..MaxObstacles]
  }

  /** Filtering a prefix of the file gives a prefix of the filtered file. */
  lemma {:induction false} InBoundCellsOfPrefix(pairs: seq<(int, int)>, i: nat)
    requires i <= |pairs|
    ensures InBoundCells(pairs[..i]) <= InBoundCells(pairs)
    decreases |pairs|
  {
    if i < |pairs| {
      var init := pairs[..|pairs| - 1];
      assert pairs[..i] == init[..i];
      InBoundCellsOfPrefix(init, i);
    } else {
      assert pairs[..i] == pairs;
    }
  }

  /** loadObstacles keeps the in-bounds cells of the file in file order, and every one
      of them when the file has no more than 100. */
  lemma LoadedObstaclesFacts(pairs: seq<(int, int)>)
    ensures var obstacles := LoadedObstacles(pairs);
      && obstacles <= InBoundCells(pairs)
      && (|InBoundCells(pairs)| <= MaxObstacles ==>
            forall i | 0 <= i < |pairs| :: InBounds(Position(pairs[i].0, pairs[i].1)) ==> Position(pairs[i].0, pairs[i].1) in obstacles)
  {
    var cells := InBoundCells(pairs);
    if |cells| > MaxObstacles {
      forall c | c in cells[..MaxObstacles] ensures c in cells {
      }
    }
  }
}

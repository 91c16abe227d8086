/**
 * The rules of the Snake game on a 600 x 600 canvas divided into 30-unit
 * cells: positions, directions, the key and difficulty tables, and the
 * pure effect of every step of a tick on the game state.
 */
module SnakeRules {

  /** Canvas size and cell size of the game. */
  const CanvasWidth: int := 600
  const CanvasHeight: int := 600
  const CellSize: int := 30
  /** Points awarded for each food eaten. */
  const DefaultValuePoints: int := 10
  /** Food-relocation interval for a level the difficulty table does not name. */
  const DefaultInterval: nat := 3000
  /** Number of colours in the food palette. */
  const ColourCount: nat := 20
  /** Number of coordinates a food can take on one axis: 0, 30, ..., 540. */
  const CandidateCount: nat := 19

  datatype Option<+T> = None | Some(value: T)

  datatype Position = Position(x: int, y: int)

  /** Where a new or restarted snake stands. */
  const InitialPosition: Position := Position(270, 240)

  datatype Direction = Up | Down | Left | Right

  function Max(a: int, b: int): int { if a < b then b else a }

  /** The head of the snake is its last segment. */
  function Head(snake: seq<Position>): Position
    requires |snake| >= 1
  {
    snake[|snake| - 1]
  }

  predicate OnGrid(p: Position) {
    p.x % CellSize == 0 && p.y % CellSize == 0
  }

  /** p and q are neighbouring cells: one cell apart on one axis, equal on the other. */
  predicate Adjacent(p: Position, q: Position) {
    (p.x == q.x && (q.y - p.y == CellSize || p.y - q.y == CellSize)) ||
    (p.y == q.y && (q.x - p.x == CellSize || p.x - q.x == CellSize))
  }

  /** A coordinate the food generator can produce. */
  predicate IsFoodCoordinate(v: int) {
    0 <= v < CanvasWidth - CellSize && v % CellSize == 0
  }

  /** The cell the head moves to in direction d (the y axis points down). */
  function NewHead(head: Position, d: Direction): (r: Position)
    ensures Adjacent(head, r)
    ensures d == Up || d == Down <==> r.x == head.x
    ensures d == Up ==> r.y < head.y
    ensures d == Down ==> r.y > head.y
    ensures d == Left ==> r.x < head.x
    ensures d == Right ==> r.x > head.x
    ensures OnGrid(head) ==> OnGrid(r)
  {
    match d
    case Up => Position(head.x, head.y - CellSize)
    case Down => Position(head.x, head.y + CellSize)
    case Left => Position(head.x - CellSize, head.y)
    case Right => Position(head.x + CellSize, head.y)
  }

  /**
   * The snake after one movement: without a direction it stays as it is;
   * otherwise the new head is pushed and the tail segment shifted off.
   */
  function Moved(snake: seq<Position>, direction: Option<Direction>): (r: seq<Position>)
    requires |snake| >= 1
    ensures |r| == |snake|
    ensures direction.None? ==> r == snake
    ensures direction.Some? ==>
      Head(r) == NewHead(Head(snake), direction.value) &&
      forall i :: 0 <= i < |snake| - 1 ==> r[i] == snake[i + 1]
  {
    if direction.None? then snake
    else (snake + [NewHead(Head(snake), direction.value)])[1..]
  }

  /** Off the canvas; a grid position is inside exactly when it is one of the 20 x 20 cells. */
  predicate OutOfBounds(p: Position)
    ensures OnGrid(p) ==>
      (!OutOfBounds(p) <==>
        0 <= p.x / CellSize < CanvasWidth / CellSize && 0 <= p.y / CellSize < CanvasHeight / CellSize)
  {
    p.x < 0 || p.x >= CanvasWidth || p.y < 0 || p.y >= CanvasHeight
  }

  /** The head lies on a segment before the neck (the segment just behind the head). */
  predicate SelfCollision(snake: seq<Position>)
    requires |snake| >= 1
    ensures SelfCollision(snake) ==> |snake| >= 3
    ensures |snake| >= 2 ==> (SelfCollision(snake) <==> Head(snake) in snake[..|snake| - 2])
  {
    exists i :: 0 <= i < |snake| - 2 && snake[i] == Head(snake)
  }

  /** The condition on which the game is over. */
  predicate Collides(snake: seq<Position>)
    requires |snake| >= 1
    ensures |snake| <= 2 ==> (Collides(snake) <==> OutOfBounds(Head(snake)))
  {
    OutOfBounds(Head(snake)) || SelfCollision(snake)
  }

  /** The keys that steer the snake, arrows and WASD, and the direction each selects. */
  function KeyDirection(key: string): (r: Option<Direction>)
    ensures r.Some? <==> key in {"ArrowUp", "w", "ArrowLeft", "a", "ArrowDown", "s", "ArrowRight", "d"}
  {
    if key == "ArrowUp" || key == "w" then Some(Up)
    else if key == "ArrowLeft" || key == "a" then Some(Left)
    else if key == "ArrowDown" || key == "s" then Some(Down)
    else if key == "ArrowRight" || key == "d" then Some(Right)
    else None
  }

  /** The two keys that select each direction. */
  function KeysFor(d: Direction): set<string> {
    match d
    case Up => {"ArrowUp", "w"}
    case Down => {"ArrowDown", "s"}
    case Left => {"ArrowLeft", "a"}
    case Right => {"ArrowRight", "d"}
  }

  lemma KeyDirectionInverse(key: string, d: Direction)
    ensures KeyDirection(key) == Some(d) <==> key in KeysFor(d)
  {
  }

  /** The food-relocation interval, in milliseconds, of a difficulty level. */
  function DifficultyOf(level: string): (ms: nat)
    ensures ms == 5000 <==> level == "easy"
    ensures ms == 4000 <==> level == "normal"
    ensures ms == 2000 <==> level == "hard"
    ensures ms == DefaultInterval <==> level !in {"easy", "normal", "hard"}
    ensures 2000 <= ms <= 5000
  {
    if level == "easy" then 5000
    else if level == "normal" then 4000
    else if level == "hard" then 2000
    else DefaultInterval
  }

  /** Easy relocates food least often and hard most often; every other level lies between. */
  lemma DifficultyOrder(level: string)
    ensures DifficultyOf("hard") <= DifficultyOf(level) <= DifficultyOf("easy")
    ensures DifficultyOf(level) == DifficultyOf("hard") <==> level == "hard"
    ensures DifficultyOf(level) == DifficultyOf("easy") <==> level == "easy"
  {
  }

  /** An element picked from xs by a random index i. */
  function RandomIndex<T>(xs: seq<T>, i: nat): (r: T)
    requires i < |xs|
    ensures r in xs
  {
    xs[i]
  }

  // ---------------------------------------------------------------------
  // The game state and the effect of each step on it

  /**
   * Everything the game logic reads and writes: the snake (head last), the
   * direction (None until a key is pressed and after game over), the food
   * and its palette index, the score and the high score.
   */
  datatype GameState = GameState(
    snake: seq<Position>,
    direction: Option<Direction>,
    food: Option<Position>,
    foodColour: Option<nat>,
    score: int,
    highScore: int)

  /** What holds of every state the game can reach. */
  predicate Invariant(st: GameState) {
    |st.snake| >= 1 &&
    (forall i :: 0 <= i < |st.snake| ==> OnGrid(st.snake[i])) &&
    (st.food.Some? ==>
      IsFoodCoordinate(st.food.value.x) && IsFoodCoordinate(st.food.value.y) && st.foodColour.Some?) &&
    (st.foodColour.Some? ==> st.foodColour.value < ColourCount) &&
    0 <= st.score <= st.highScore &&
    st.score % DefaultValuePoints == 0
  }

  /** A new game: one segment at the initial position, no direction, no food, score 0. */
  function Initial(storedHighScore: nat): (st: GameState)
    ensures Invariant(st)
    ensures st.highScore == storedHighScore && st.score == 0
    ensures st.snake == [InitialPosition] && st.direction.None? && st.food.None?
  {
    GameState([InitialPosition], None, None, None, 0, storedHighScore)
  }

  /** The snake moves one cell in the current direction, if there is one. */
  function MoveStep(st: GameState): (r: GameState)
    requires |st.snake| >= 1
    ensures |r.snake| == |st.snake|
    ensures st.direction.None? ==> r == st
    ensures st.direction.Some? ==>
      Head(r.snake) == NewHead(Head(st.snake), st.direction.value) &&
      forall i :: 0 <= i < |st.snake| - 1 ==> r.snake[i] == st.snake[i + 1]
    ensures r.direction == st.direction && r.food == st.food && r.score == st.score && r.highScore == st.highScore
  {
    st.(snake := Moved(st.snake, st.direction))
  }

  /** A missing food is placed at the candidate coordinates xi, yi with palette index ci. */
  function FoodStep(st: GameState, xi: nat, yi: nat, ci: nat): (r: GameState)
    requires xi < CandidateCount && yi < CandidateCount && ci < ColourCount
    ensures r.food.Some?
    ensures st.food.Some? ==> r == st
    ensures st.food.None? ==>
      r.food == Some(Position(xi * CellSize, yi * CellSize)) && r.foodColour == Some(ci)
    ensures r.snake == st.snake && r.score == st.score && r.direction == st.direction
    ensures r.highScore == st.highScore
  {
    if st.food.None? then
      st.(food := Some(Position(xi * CellSize, yi * CellSize)), foodColour := Some(ci))
    else st
  }

  /** The award for one food; the high score follows the score when it is beaten. */
  function PointsStep(st: GameState): (r: GameState)
    ensures r.score == st.score + DefaultValuePoints
    ensures r.highScore == Max(st.highScore, r.score)
    ensures r.highScore >= st.highScore
    ensures r.snake == st.snake && r.food == st.food && r.direction == st.direction
  {
    var currentScore := st.score + DefaultValuePoints;
    st.(score := currentScore,
        highScore := if currentScore > st.highScore then currentScore else st.highScore)
  }

  /** A head that reaches the food eats it: points, no food, and the head pushed once more. */
  function EatStep(st: GameState): (r: GameState)
    requires |st.snake| >= 1 && st.food.Some?
    ensures Head(st.snake) == st.food.value ==>
      r.score == st.score + DefaultValuePoints &&
      r.highScore == Max(st.highScore, r.score) &&
      r.food.None? &&
      r.snake == st.snake + [Head(st.snake)] &&
      r.direction == st.direction
    ensures Head(st.snake) != st.food.value ==> r == st
  {
    var head := Head(st.snake);
    if head == st.food.value then
      PointsStep(st).(food := None, snake := st.snake + [head])
    else st
  }

  /** The game is over: the direction is cleared, which stops the snake. */
  function GameOverStep(st: GameState): (r: GameState)
    ensures r.direction.None?
    ensures r.snake == st.snake && r.food == st.food && r.score == st.score && r.highScore == st.highScore
    ensures r.foodColour == st.foodColour
  {
    st.(direction := None)
  }

  /** The end-of-tick check: a head off the canvas or on the body ends the game. */
  function CollisionStep(st: GameState): (r: GameState)
    requires |st.snake| >= 1
    ensures !Collides(st.snake) ==> r == st
    ensures Collides(st.snake) ==> r.direction.None?
    ensures r.snake == st.snake && r.food == st.food && r.score == st.score && r.highScore == st.highScore
  {
    if Collides(st.snake) then GameOverStep(st) else st
  }

  /** One tick of the main loop: move, place food if missing, eat, check collisions. */
  function TickStep(st: GameState, xi: nat, yi: nat, ci: nat): (r: GameState)
    requires |st.snake| >= 1
    requires xi < CandidateCount && yi < CandidateCount && ci < ColourCount
    ensures |r.snake| == |st.snake| || |r.snake| == |st.snake| + 1
    ensures r.food.None? <==> |r.snake| == |st.snake| + 1
    ensures r.score == st.score + (|r.snake| - |st.snake|) * DefaultValuePoints
    ensures r.highScore >= st.highScore
    ensures r.direction == st.direction || r.direction.None?
  {
    CollisionStep(EatStep(FoodStep(MoveStep(st), xi, yi, ci)))
  }

  /** The second timer removes the food so that it reappears elsewhere. */
  function ClearFoodStep(st: GameState): (r: GameState)
    ensures r.food.None?
    ensures r.snake == st.snake && r.direction == st.direction && r.score == st.score && r.highScore == st.highScore
    ensures r.foodColour == st.foodColour
  {
    st.(food := None)
  }

  /** "Play again" and "back to start": score, snake and direction reset; the high score is kept. */
  function RestartStep(st: GameState): (r: GameState)
    ensures r.score == 0 && r.snake == [InitialPosition] && r.direction.None?
    ensures r.highScore == st.highScore && r.food == st.food && r.foodColour == st.foodColour
  {
    st.(score := 0, snake := [InitialPosition], direction := None)
  }

  /** A steering key sets the direction; any other key leaves it as it was. */
  function KeyStep(st: GameState, key: string): (r: GameState)
    ensures KeyDirection(key).Some? ==> r.direction == KeyDirection(key)
    ensures KeyDirection(key).None? ==> r == st
    ensures r.snake == st.snake && r.food == st.food && r.score == st.score && r.highScore == st.highScore
  {
    st.(direction := if KeyDirection(key).Some? then KeyDirection(key) else st.direction)
  }
}

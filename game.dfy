/**
 * The Game object: its fields are updated in place by the tick loop, the
 * food timer and the input handlers. Each method states the new state as
 * the matching step function of SnakeRules applied to the old one.
 */
module SnakeGame {
  import opened SnakeRules
  import opened SnakeProperties

  class Game {
    /** Food-relocation interval in milliseconds, fixed from the chosen level. */
    const difficulty: nat
    var snake: seq<Position>
    var direction: Option<Direction>
    var food: Option<Position>
    var foodColour: Option<nat>
    var score: int
    var highScore: int

    function State(): GameState
      reads this
    {
      GameState(snake, direction, food, foodColour, score, highScore)
    }

    predicate Valid()
      reads this
    {
      Invariant(State())
    }

    /** A new game for a difficulty level, with the high score read from storage. */
    constructor (level: string, storedHighScore: nat)
      ensures Valid()
      ensures State() == Initial(storedHighScore)
      ensures difficulty == DifficultyOf(level)
    {
      difficulty := DifficultyOf(level);
      snake := [InitialPosition];
      direction := None;
      food := None;
      foodColour := None;
      score := 0;
      highScore := storedHighScore;
    }

    /** The candidate food coordinates: every multiple of the cell size below 570. */
    method GenerateMultiplesOfThree() returns (numbers: seq<int>)
      ensures |numbers| == CandidateCount
      ensures forall k :: 0 <= k < |numbers| ==> numbers[k] == k * CellSize
      ensures forall v :: v in numbers <==> IsFoodCoordinate(v)
    {
      numbers := [];
      var i := 0;
      while i < CanvasWidth - CellSize
        invariant i == |numbers| * CellSize <= CanvasWidth - CellSize
        invariant forall k :: 0 <= k < |numbers| ==> numbers[k] == k * CellSize
      {
        numbers := numbers + [i];
        i := i + CellSize;
      }
      forall v | IsFoodCoordinate(v)
        ensures v in numbers
      {
        assert numbers[v / CellSize] == v;
      }
    }

    method MovementSnake()
      requires |snake| >= 1
      modifies this`snake
      ensures State() == MoveStep(old(State()))
    {
      if direction.None? {
        return;
      }
      var headSnake := snake[|snake| - 1];
      var newHead := NewHead(headSnake, direction.value);
      snake := snake + [newHead];
      snake := snake[1..];
    }

    /** The state part of drawing the food: a missing food is created first. */
    method DrawnFood(xi: nat, yi: nat, ci: nat)
      requires xi < CandidateCount && yi < CandidateCount && ci < ColourCount
      modifies this`food, this`foodColour
      ensures State() == FoodStep(old(State()), xi, yi, ci)
    {
      if food.None? {
        var xs := GenerateMultiplesOfThree();
        var x := RandomIndex(xs, xi);
        var ys := GenerateMultiplesOfThree();
        var y := RandomIndex(ys, yi);
        food := Some(Position(x, y));
        foodColour := Some(ci);
      }
    }

    method IncrementPoints()
      modifies this`score, this`highScore
      ensures State() == PointsStep(old(State()))
    {
      score := score + DefaultValuePoints;
      var currentScore := score;
      if currentScore > highScore {
        highScore := currentScore;
      }
    }

    method CheckFoodCollision()
      requires |snake| >= 1 && food.Some?
      modifies this`score, this`highScore, this`food, this`snake
      ensures State() == EatStep(old(State()))
    {
      var head := snake[|snake| - 1];
      if head == food.value {
        IncrementPoints();
        food := None;
        snake := snake + [head];
      }
    }

    method CheckLandscapeCollision()
      requires |snake| >= 1
      modifies this`direction
      ensures State() == CollisionStep(old(State()))
    {
      var head := snake[|snake| - 1];
      var neckIndex := |snake| - 2;
      var outOfBounds := head.x < 0 || head.x >= CanvasWidth || head.y < 0 || head.y >= CanvasHeight;
      var selfCollision := exists i :: 0 <= i < neckIndex && snake[i] == head;
      if outOfBounds || selfCollision {
        GameOver();
      }
    }

    method GameOver()
      modifies this`direction
      ensures State() == GameOverStep(old(State()))
    {
      direction := None;
    }

    /** One run of the main loop's body, with the random picks it makes. */
    method Tick(xi: nat, yi: nat, ci: nat)
      requires Valid()
      requires xi < CandidateCount && yi < CandidateCount && ci < ColourCount
      modifies this
      ensures Valid()
      ensures State() == TickStep(old(State()), xi, yi, ci)
    {
      MovementSnake();
      DrawnFood(xi, yi, ci);
      CheckFoodCollision();
      CheckLandscapeCollision();
      TickPreservesInvariant(old(State()), xi, yi, ci);
    }

    /** The food timer: the food is dropped so that the next tick places a new one. */
    method ClearFood()
      requires Valid()
      modifies this`food
      ensures Valid()
      ensures State() == ClearFoodStep(old(State()))
    {
      food := None;
    }

    /** The "play again" and "back to start" buttons. */
    method Restart()
      requires Valid()
      modifies this`score, this`snake, this`direction
      ensures Valid()
      ensures State() == RestartStep(old(State()))
    {
      score := 0;
      snake := [InitialPosition];
      direction := None;
    }

    /** The key-down handler. */
    method SetDirectionFromKey(key: string)
      requires Valid()
      modifies this`direction
      ensures Valid()
      ensures State() == KeyStep(old(State()), key)
    {
      var d := KeyDirection(key);
      if d.Some? {
        direction := d;
      }
    }
  }
}

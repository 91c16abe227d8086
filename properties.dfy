/**
 * What one tick of the game does to its state, proved from the step
 * functions of SnakeRules.
 */
module SnakeProperties {
  import opened SnakeRules

  /** The food a tick sees once it has placed a missing one. */
  function FoodSeen(st: GameState, xi: nat, yi: nat): Position {
    if st.food.Some? then st.food.value else Position(xi * CellSize, yi * CellSize)
  }

  /**
   * A tick in full: the snake moves, and eats when its new head is on the
   * food, which earns exactly 10 points, removes the food and pushes the
   * head once more; otherwise snake, score and high score are untouched and
   * the food stays. The direction is cleared exactly when the resulting
   * snake collides.
   */
  lemma TickEffect(st: GameState, xi: nat, yi: nat, ci: nat)
    requires |st.snake| >= 1
    requires xi < CandidateCount && yi < CandidateCount && ci < ColourCount
    ensures var moved := Moved(st.snake, st.direction);
            var r := TickStep(st, xi, yi, ci);
            var eats := Head(moved) == FoodSeen(st, xi, yi);
            r.snake == (if eats then moved + [Head(moved)] else moved) &&
            |r.snake| == |st.snake| + (if eats then 1 else 0) &&
            r.score == st.score + (if eats then DefaultValuePoints else 0) &&
            r.highScore == (if eats then Max(st.highScore, r.score) else st.highScore) &&
            r.food == (if eats then None else Some(FoodSeen(st, xi, yi))) &&
            r.direction == (if Collides(r.snake) then None else st.direction)
  {
  }

  /** Every tick keeps the state invariant: grid-aligned snake, food among the candidates, 0 <= score <= high score. */
  lemma TickPreservesInvariant(st: GameState, xi: nat, yi: nat, ci: nat)
    requires Invariant(st)
    requires xi < CandidateCount && yi < CandidateCount && ci < ColourCount
    ensures Invariant(TickStep(st, xi, yi, ci))
  {
    var moved := MoveStep(st);
    assert forall i :: 0 <= i < |moved.snake| ==> OnGrid(moved.snake[i]) by {
      forall i | 0 <= i < |moved.snake|
        ensures OnGrid(moved.snake[i])
      {
        if st.direction.Some? && i < |st.snake| - 1 {
          assert moved.snake[i] == st.snake[i + 1];
        }
      }
    }
    var fed := FoodStep(moved, xi, yi, ci);
    assert (xi * CellSize) % CellSize == 0 && (yi * CellSize) % CellSize == 0;
    var eaten := EatStep(fed);
    assert forall i :: 0 <= i < |eaten.snake| ==> OnGrid(eaten.snake[i]) by {
      forall i | 0 <= i < |eaten.snake|
        ensures OnGrid(eaten.snake[i])
      {
        if i >= |fed.snake| {
          assert eaten.snake[i] == Head(fed.snake);
        } else {
          assert eaten.snake[i] == fed.snake[i];
        }
      }
    }
  }

  /**
   * Without a direction (before the first key and after game over) a tick
   * never moves the snake: it stays as it was, or grows by copies of its
   * head when food appears under it, and the direction stays cleared.
   */
  lemma IdleTick(st: GameState, xi: nat, yi: nat, ci: nat)
    requires |st.snake| >= 1 && st.direction.None?
    requires xi < CandidateCount && yi < CandidateCount && ci < ColourCount
    ensures var r := TickStep(st, xi, yi, ci);
            r.direction.None? &&
            (r.snake == st.snake || r.snake == st.snake + [Head(st.snake)])
  {
    TickEffect(st, xi, yi, ci);
  }

  /**
   * Turning back onto the neck: the new head lands on the old neck, which
   * the shift moves below the neck index. It is a collision exactly when the
   * snake has at least three segments; a two-segment snake passes through.
   */
  lemma {:induction false} ReversalIntoNeck(snake: seq<Position>, d: Direction)
    requires |snake| >= 2 && NewHead(Head(snake), d) == snake[|snake| - 2]
    ensures SelfCollision(Moved(snake, Some(d))) <==> |snake| >= 3
  {
    var moved := Moved(snake, Some(d));
    if |snake| >= 3 {
      assert moved[|snake| - 3] == snake[|snake| - 2] == Head(moved);
    }
  }

  /**
   * The extra head pushed when a moving snake eats sits at the neck index,
   * so it never counts as a self-collision: eating changes the collision
   * verdict of no moving snake. (A snake standing still is different: a
   * third copy of its head lands below the neck index; see Examples.)
   */
  lemma {:induction false} EatingNeverSelfCollides(snake: seq<Position>, d: Direction)
    requires |snake| >= 1
    ensures var moved := Moved(snake, Some(d));
            SelfCollision(moved + [Head(moved)]) <==> SelfCollision(moved)
  {
    var moved := Moved(snake, Some(d));
    var grown := moved + [Head(moved)];
    if |snake| >= 2 {
      assert moved[|moved| - 2] == Head(snake) != Head(moved);
    }
    if SelfCollision(grown) {
      var i :| 0 <= i < |grown| - 2 && grown[i] == Head(grown);
      assert moved[i] == Head(moved);
    }
    if SelfCollision(moved) {
      var i :| 0 <= i < |moved| - 2 && moved[i] == Head(moved);
      assert grown[i] == Head(grown);
    }
  }

  /**
   * Two equal neighbouring segments, such as the head and its copy pushed
   * on eating, stay equal neighbours one index nearer the tail after every
   * move, until the shift drops them.
   */
  lemma CopyShiftsTowardTail(snake: seq<Position>, d: Direction, j: nat)
    requires 1 <= j && j + 1 < |snake| && snake[j] == snake[j + 1]
    ensures var moved := Moved(snake, Some(d));
            moved[j - 1] == moved[j] == snake[j]
  {
  }

  /**
   * The food generator stops below 570, so the last column and the last
   * row of the canvas, though inside its bounds, never hold food.
   */
  lemma FoodAvoidsLastRowAndColumn(st: GameState)
    requires Invariant(st) && st.food.Some?
    ensures st.food.value.x != CanvasWidth - CellSize && st.food.value.y != CanvasHeight - CellSize
    ensures !OutOfBounds(Position(CanvasWidth - CellSize, CanvasHeight - CellSize))
  {
  }

  /**
   * Concrete runs: a right move from the start cell, a left move off the
   * canvas, a first food that beats a stored high score of 5, a snake
   * that has not started yet eating a food placed under its head, and the
   * same snake eating a second food there, which stacks three copies of the
   * head and counts as a self-collision.
   */
  lemma Examples()
    ensures TickStep(Initial(0).(direction := Some(Right), food := Some(Position(0, 0)), foodColour := Some(0)), 0, 0, 0).snake
            == [Position(300, 240)]
    ensures TickStep(GameState([Position(0, 0)], Some(Left), Some(Position(30, 30)), Some(0), 0, 0), 0, 0, 0).direction.None?
    ensures var r := TickStep(GameState([Position(60, 90)], Some(Down), Some(Position(60, 120)), Some(0), 0, 5), 0, 0, 0);
            r.score == 10 && r.highScore == 10 && |r.snake| == 2
    ensures TickStep(Initial(0), 9, 8, 0).score == 10
    ensures var twice := TickStep(TickStep(Initial(0), 9, 8, 0), 9, 8, 0);
            twice.snake == [InitialPosition, InitialPosition, InitialPosition] && Collides(twice.snake)
  {
    var once := TickStep(Initial(0), 9, 8, 0);
    assert once.snake == [InitialPosition, InitialPosition] && once.food.None? && once.direction.None?;
    var twice := TickStep(once, 9, 8, 0);
    assert twice.snake == [InitialPosition, InitialPosition, InitialPosition];
    assert twice.snake[0] == Head(twice.snake);
  }
}

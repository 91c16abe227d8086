# Snake game state engine in Dafny

This project models the game logic of a browser Snake game (`JOGO/JS/SCRIPT.JS`,
class `Game`). The model keeps the game state and leaves out the canvas and the page.
The snake moves on a 600 × 600 canvas in 30-unit cells. It is a sequence of
positions whose last element is the head. A direction is unset until the first
steering key, and game over clears it again. There is at most one food. The
score and the high score are integers.

Every 300 ms a tick runs four steps in order:
1. move: push a new head one cell away, then shift off the tail;
2. place a food if there is none, at coordinates picked from 0, 30, …, 540;
3. eat: if the head is on the food, add 10 points, raise the high score if it
   is beaten, remove the food and push the head a second time;
4. end the game if the head is off the canvas or on a segment before the neck,
   by clearing the direction.

A second timer drops the food every 5000, 4000, 2000 or 3000 ms. The interval
comes from the difficulty level: easy, normal, hard, or anything else.

The model has three layers:
- `SnakeRules` (`rules.dfy`): positions, directions, the key and difficulty
  tables, a `GameState` value, and one pure step function per operation.
- `SnakeProperties` (`properties.dfy`) and `SnakeSession` (`session.dfy`): lemmas
  about those functions, for one tick and for whole sessions. A session is any
  sequence of ticks, food-timer firings, key presses and restarts.
- `SnakeGame` (`game.dfy`): class `Game`, whose fields the methods update in
  place. The snake is extended with a push and then shifted. Each method's
  `ensures` sets the new state to the matching step function applied to the
  old state. `Tick` also keeps the invariant `Valid()`.

Behaviours of the code that the model keeps and proves:
- Turning back onto the neck ends the game only when the snake has at least
  three segments. A two-segment snake passes through itself (`ReversalIntoNeck`).
- A tick eats whenever the head is on the food, even when the snake does not
  move. So a snake that has not started yet, or has already lost, still scores
  when a food is placed under its head (`IdleTick`, `Examples`). The high score
  follows that score. A second food eaten there stacks a third copy of the
  head below the neck index, which counts as a self-collision and shows the
  game-over menu even before the first key press (`Examples`).
- The food generator's loop stops below 570. The last column and the last row
  of the canvas never hold food (`FoodAvoidsLastRowAndColumn`).
- When the snake eats, the head is pushed a second time. Later moves shift that
  copy down towards the tail, so two equal segments stay in the snake until the
  copy leaves at the tail (`CopyShiftsTowardTail`).
- The code's comment says an unknown level falls back to "normal", but the value
  it uses is 3000 ms, not normal's 4000. The model follows the value.
- Game over is not terminal. The tick loop keeps running and a restart or a key
  press starts the snake again (`FrozenUntilKey`).

## Model

| member | source | states |
|---|---|---|
| `SnakeRules.NewHead` | JOGO/JS/SCRIPT.JS:101-114 | the new head is the cell next to the old head: one cell away on the axis of the direction, the same on the other axis, with the sign of each direction (the y axis points down); grid alignment is preserved |
| `SnakeRules.OutOfBounds` | JOGO/JS/SCRIPT.JS:178 | a grid position is inside the canvas exactly when it is one of the 20 × 20 cells |
| `SnakeRules.SelfCollision` | JOGO/JS/SCRIPT.JS:176-182 | the head hits the body iff it equals a segment strictly before the neck; so only a snake of three or more segments can hit itself |
| `SnakeRules.Collides` | JOGO/JS/SCRIPT.JS:174-184 | a snake of one or two segments ends the game exactly when its head is off the canvas |
| `SnakeRules.Moved` | JOGO/JS/SCRIPT.JS:95-118 | with no direction the snake is returned unchanged; otherwise the length is kept, the head is the new head, and segment i is the old segment i+1 |
| `SnakeRules.KeyDirection` | JOGO/JS/SCRIPT.JS:84-89 | a key selects a direction exactly when it is one of the four arrows or w, a, s, d |
| `SnakeRules.KeyDirectionInverse` | JOGO/JS/SCRIPT.JS:84-89 | a key selects direction d iff it is d's arrow key or d's letter key |
| `SnakeRules.DifficultyOf` | JOGO/JS/SCRIPT.JS:63-66 | the interval is 5000 ms exactly for easy, 4000 ms exactly for normal, 2000 ms exactly for hard, and 3000 ms exactly for every other level; so every interval is between 2000 and 5000 ms |
| `SnakeRules.DifficultyOrder` | JOGO/JS/SCRIPT.JS:64-65 | hard has the shortest food interval and easy the longest; only those levels have them |
| `SnakeRules.RandomIndex` | JOGO/JS/SCRIPT.JS:120-122 | the picked value is an element of the array |
| `SnakeRules.Initial` | JOGO/JS/SCRIPT.JS:16-27 | a new game is the single segment (270, 240), with no direction, no food, the stored high score and score 0 (see Left out), and satisfies the invariant |
| `SnakeRules.MoveStep` | JOGO/JS/SCRIPT.JS:95-118 | the length is kept; with no direction the whole state is unchanged; otherwise the head is the new head and every other segment shifts down one index; direction, food, score and high score are kept |
| `SnakeRules.FoodStep` | JOGO/JS/SCRIPT.JS:145-151 | afterwards a food is present: an existing food is kept with the whole state unchanged; a missing one is placed at (30·xi, 30·yi) with palette index ci; snake, score, direction and high score are untouched |
| `SnakeRules.PointsStep` | JOGO/JS/SCRIPT.JS:194-204 | the score rises by exactly 10 and the high score becomes the larger of the old high score and the new score, so it never falls; snake, food and direction are unchanged |
| `SnakeRules.EatStep` | JOGO/JS/SCRIPT.JS:162-172 | if the head is on the food: 10 more points, high score updated, no food, and the snake is the old snake with its head appended; otherwise the state is unchanged |
| `SnakeRules.GameOverStep` | JOGO/JS/SCRIPT.JS:205-206 | the direction is cleared; snake, food, food colour, score and high score are kept |
| `SnakeRules.CollisionStep` | JOGO/JS/SCRIPT.JS:174-187 | a snake that is out of bounds or hits its body gets its direction cleared; a snake that does neither leaves the whole state unchanged; snake, food, score and high score are always kept |
| `SnakeRules.ClearFoodStep` | JOGO/JS/SCRIPT.JS:254-256 | the food is removed and nothing else changes |
| `SnakeRules.RestartStep` | JOGO/JS/SCRIPT.JS:216-240 | the score is 0, the snake is the single initial segment, the direction is cleared; the high score, the food and its colour are kept |
| `SnakeRules.KeyStep` | JOGO/JS/SCRIPT.JS:90 | a steering key sets its direction; any other key leaves the whole state unchanged |
| `SnakeRules.TickStep` | JOGO/JS/SCRIPT.JS:244-252 | a tick grows the snake by at most one segment; it grows exactly when the food is gone afterwards; the score rises by 10 for the growth and not otherwise; the high score never falls; the direction is kept or cleared |
| `SnakeProperties.TickEffect` | JOGO/JS/SCRIPT.JS:244-252 | a tick eats iff the moved head is on the food: if so, the length grows by 1, the score by 10, the high score follows the score and the food disappears; if not, snake (as moved), score, high score and food are untouched; the direction is cleared iff the resulting snake collides |
| `SnakeProperties.TickPreservesInvariant` | JOGO/JS/SCRIPT.JS:244-252 | after a tick all segments are still multiples of 30, the food is still at candidate coordinates, and 0 <= score <= high score with the score a multiple of 10 |
| `SnakeProperties.IdleTick` | JOGO/JS/SCRIPT.JS:95-96 | with no direction a tick does not move the snake: it stays the same or grows by a copy of its head, and the direction stays cleared |
| `SnakeProperties.ReversalIntoNeck` | JOGO/JS/SCRIPT.JS:174-182 | a move onto the old neck is a self-collision iff the snake has at least three segments |
| `SnakeProperties.EatingNeverSelfCollides` | JOGO/JS/SCRIPT.JS:162-182 | the copy of the head pushed on eating sits at the neck index, so for a moving snake it never changes the self-collision verdict |
| `SnakeProperties.CopyShiftsTowardTail` | JOGO/JS/SCRIPT.JS:116-117 | two equal neighbouring segments at indices j and j+1 are equal neighbours at j-1 and j after a move, so the head copy pushed on eating travels to the tail |
| `SnakeProperties.FoodAvoidsLastRowAndColumn` | JOGO/JS/SCRIPT.JS:136-151 | a food never lies on x = 570 or y = 570, although that cell is inside the canvas |
| `SnakeProperties.Examples` | JOGO/JS/SCRIPT.JS:244-252 | concrete ticks: a right move from (270, 240) gives [(300, 240)]; a left move from (0, 0) ends the game; a first food beats a high score of 5 with 10; a snake that has not started eats a food placed under its head, and eating a second one there stacks three head copies, which collides |
| `SnakeSession.ApplyPreservesInvariant` | JOGO/JS/SCRIPT.JS:243-257 | ticks, food-timer firings, key presses and restarts all keep the invariant |
| `SnakeSession.RunPreservesInvariant` | JOGO/JS/SCRIPT.JS:243-257 | any interleaving of those events keeps the invariant |
| `SnakeSession.HighScoreFollowsScore` | JOGO/JS/SCRIPT.JS:194-204 | after any event the high score is the larger of the previous high score and the new score |
| `SnakeSession.HighScoreIsPeak` | JOGO/JS/SCRIPT.JS:194-240 | at the end of any session the high score is the largest of the stored high score and every score observed, restarts included |
| `SnakeSession.HighScoreNeverDecreases` | JOGO/JS/SCRIPT.JS:194-240 | over any session the high score never falls and always bounds the score |
| `SnakeSession.FrozenUntilKey` | JOGO/JS/SCRIPT.JS:205-206 | once the direction is cleared, ticks and food-timer firings leave it cleared, keep every segment, and can only append copies of the head; the score does not fall |
| `SnakeGame.Game.constructor` | JOGO/JS/SCRIPT.JS:9-35 | a new game is the initial state for the stored high score, with the level's interval, and is valid |
| `SnakeGame.Game.GenerateMultiplesOfThree` | JOGO/JS/SCRIPT.JS:136-142 | the loop builds 19 candidates, the k-th being 30k, and a value is a candidate iff it is a multiple of 30 in [0, 570) |
| `SnakeGame.Game.MovementSnake` | JOGO/JS/SCRIPT.JS:95-118 | the push and shift leave the snake as `Moved` of the old snake and direction |
| `SnakeGame.Game.DrawnFood` | JOGO/JS/SCRIPT.JS:144-151 | the state becomes `FoodStep` of the old state; the coordinates picked from the generated lists are those of the indices |
| `SnakeGame.Game.IncrementPoints` | JOGO/JS/SCRIPT.JS:194-204 | the state becomes `PointsStep` of the old state |
| `SnakeGame.Game.CheckFoodCollision` | JOGO/JS/SCRIPT.JS:162-172 | the state becomes `EatStep` of the old state |
| `SnakeGame.Game.CheckLandscapeCollision` | JOGO/JS/SCRIPT.JS:174-187 | the bounds test and the search below the neck index clear the direction exactly as `CollisionStep` does |
| `SnakeGame.Game.GameOver` | JOGO/JS/SCRIPT.JS:205-214 | only the direction changes, to cleared |
| `SnakeGame.Game.Tick` | JOGO/JS/SCRIPT.JS:244-252 | the four steps in order give `TickStep` of the old state, and the object stays valid |
| `SnakeGame.Game.ClearFood` | JOGO/JS/SCRIPT.JS:254-256 | the food is removed, nothing else changes, and the object stays valid |
| `SnakeGame.Game.Restart` | JOGO/JS/SCRIPT.JS:216-240 | score, snake and direction are reset; the high score and the food are kept; the object stays valid |
| `SnakeGame.Game.SetDirectionFromKey` | JOGO/JS/SCRIPT.JS:82-91 | the direction is set by a steering key and kept otherwise; the object stays valid |

## Left out

- Drawing is not modelled: the canvas size set-up, painting the snake and the food, and clearing the canvas.
- The page is not modelled: menu display, blur effects, score and high-score text, and the start form that checks the nickname and the level.
- The food colour is a palette index below 20. The colour strings are display-only.
- Storage of the high score is not modelled. The constructor takes the stored value as a parameter, and a new record is not written back.
- The timers and event listeners are not modelled. `Tick`, `ClearFood`, `SetDirectionFromKey` and `Restart` are methods that the caller calls in any order. A session is a sequence of those events.
- `Math.random` is replaced by index parameters that must be below the length of the list they pick from.
- The first definitions of `incrementPoints` and `restartGameEvent` are not modelled, because the later definitions in the class override them.
- The "play again" and "back to start" handlers are both modelled by `Restart`, because they change the state in the same way. Showing the start menu is display-only.
- Initial: the score starts at 0. The code never sets the score when a `Game` is built; it reads back whatever the page's score element shows, and only the two buttons reset it. The model assumes the page shows 0 when a game is built.
- The score is an integer field. The code keeps it as page text that is read back with `parseInt`.
- Every press of the start button builds a new `Game`. The old instance's timers and key listener keep running beside the new one. The model describes one instance.
- Levels and keys are looked up in plain object literals, so a name that is also an inherited member of an object (such as `constructor`) would return a function. Key values and the level options never take such names, so the model treats every other string as unknown.
- Segments share position objects in the code, for example the initial position and the head pushed on eating. Positions are never mutated, so they are modelled as values.
- `SnakeSession.Apply`: its contract only says that the snake stays non-empty. What each event does is stated by the step functions and the lemmas above.

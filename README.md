# Snake game (zmeika-game) in Dafny

This project models the game logic of the React component `Game` in
`src/components/Game.tsx`: a snake on a 20 × 20 board that moves one cell
per timer tick, grows by one cell and scores 10 points per piece of food,
ends the game when it hits a wall or its own body, and keeps a high score
across resets. The player steers with the arrow keys, which may not reverse
the snake directly. The space bar toggles pause, and Start, Pause and Reset
buttons do what they say.

- `game_rules.dfy`, module `GameRules`: the state as a value (`State`), the
  constants, and every state change as a function: `MoveSnake` (a tick),
  `KeyDown` (the keydown handler), `StartButton`, `PauseButton`, `ResetGame`.
  The pure helpers `GenerateFood`, `Step` (head displacement), `Opposite`,
  `KeyDirection` (keyMap) and `CheckCollision` are here too. So are the
  lemmas on single steps and the invariant `Valid`.
- `game_engine.dfy`, module `GameEngine`: class `Game`, whose fields are the
  component's seven state hooks. Its methods update the fields step by step
  as the component does, and each is proved to produce exactly the state the
  matching `GameRules` function gives and to keep `Valid`.
- `game_runs.dfy`, module `GameRuns`: any sequence of ticks, key presses and
  button clicks, with the properties that hold over whole games.

The invariant `Valid` holds in every reachable state:
- the snake is non-empty;
- its cells and the food lie on the board;
- consecutive snake cells are neighbours, and no cell is occupied twice;
- the score is 10 × (length − 1);
- the high score is a non-negative multiple of 10;
- once the game is over, the high score is at least the score.

It follows that a snake never has more than 400 cells and the score never
exceeds 3990.

`resetGame` places the food with `generateFood` (Game.tsx:35); the fixed
cell (15, 15) is used only when the component is mounted (Game.tsx:18).

Randomness is a parameter. `Math.random()` draws are reals in [0, 1) passed
to the methods, and `GenerateFood` turns them into a cell as
`Math.floor(r * GRID_SIZE)` does. The functions of `GameRules` take the
resulting cell directly. As in the code, a new food cell may lie under the
snake.

## Model

| member | source | states |
|---|---|---|
| `GameRules.Valid` | src/components/Game.tsx:11-13 | the invariant of every reachable state (see above); it implies a score that is a non-negative multiple of 10 and a head that is not repeated in the body; preserved by `MoveSnakePreservesValid`, `KeyDownPreservesValid`, `ResetGameEffect` and `GameRuns.RunPreservesValid` |
| `GameRules.Initial` | src/components/Game.tsx:11-23 | the mounted state (one cell at (10, 10), food at (15, 15), RIGHT, paused, scores 0) satisfies every invariant |
| `GameRules.GenerateFood` | src/components/Game.tsx:25-31 | for draws in [0, 1), both coordinates `floor(r * 20)` lie on the board |
| `GameRules.GenerateFoodReachesEveryCell` | src/components/Game.tsx:25-31 | every board cell is the food for some pair of draws |
| `GameRules.Opposite` | src/components/Game.tsx:107-112 | no direction is its own opposite |
| `GameRules.OppositeInvolutive` | src/components/Game.tsx:107-112 | the opposites table is an involution (UP and DOWN, LEFT and RIGHT) |
| `GameRules.Step` | src/components/Game.tsx:59-73 | the new head is a neighbour of the old one; UP and DOWN keep x, LEFT and RIGHT keep y |
| `GameRules.StepThenOpposite` | src/components/Game.tsx:59-73 | moving one way and then the opposite way returns to the start cell |
| `GameRules.StepInjective` | src/components/Game.tsx:59-73 | the four directions lead to four different cells |
| `GameRules.StepReachesEveryNeighbour` | src/components/Game.tsx:59-73 | every neighbour of the head is reached by some direction |
| `GameRules.Occupies` | src/components/Game.tsx:53 | the `some` scan is true exactly when some segment equals the cell |
| `GameRules.CheckCollision` | src/components/Game.tsx:42-54 | a collision happens exactly when the head is off the board or on any cell of the current body, tail included |
| `GameRules.Max` | src/components/Game.tsx:77 | `Math.max`: at least both arguments and equal to one of them |
| `GameRules.MoveSnake` | src/components/Game.tsx:56-89 | a tick never changes direction or pause flag and never lowers the high score; the score rises by 0 or 10 and the length by exactly one per 10 points; the food changes only on a 10-point tick, to the generated cell; a finished game is unchanged; cases in `MoveSnakeHalted`, `MoveSnakeCollides`, `MoveSnakeEats`, `MoveSnakeShifts` |
| `GameRules.MoveSnakeHalted` | src/components/Game.tsx:57 | a paused or finished game does not change at all on a tick |
| `GameRules.MoveSnakeCollides` | src/components/Game.tsx:75-78 | on a collision the game is over and the high score becomes max(high score, score); snake, food, score, direction and pause flag are unchanged |
| `GameRules.MoveSnakeEats` | src/components/Game.tsx:81-84 | eating puts the new head in front of the whole old body (length + 1), adds exactly 10 points and moves the food to the generated cell, nothing else changes |
| `GameRules.MoveSnakeShifts` | src/components/Game.tsx:81-88 | an ordinary move puts the new head in front and drops the tail cell; length, score and food are unchanged |
| `GameRules.MoveSnakePreservesValid` | src/components/Game.tsx:56-89 | a tick keeps every invariant of `Valid`, given an on-board food cell |
| `GameRules.SnakeFitsBoard` | src/components/Game.tsx:42-54 | a valid snake has at most 400 cells and the score is at most 3990 |
| `GameRules.KeyDirection` | src/components/Game.tsx:98-105 | keyMap: a key that names a direction is that direction's arrow key; the converse in `KeyDirectionIsArrowKey` |
| `GameRules.KeyDirectionIsArrowKey` | src/components/Game.tsx:98-103 | keyMap sends exactly the four arrow keys to their directions |
| `GameRules.KeyDown` | src/components/Game.tsx:92-117 | the keydown handler never touches snake, food, game-over flag, score or high score; the pause flag changes only on space (and then the direction does not); the direction changes only to the direction of the pressed arrow key; the full case split in `KeyDownEffect`, no reversal in `KeyDownNeverReverses` |
| `GameRules.KeyDownEffect` | src/components/Game.tsx:92-117 | space flips only the pause flag; an arrow key sets the direction unless it is the opposite of the stored one, in which case nothing changes; any other key changes nothing |
| `GameRules.KeyDownNeverReverses` | src/components/Game.tsx:105-117 | after a key press the direction is never the opposite of the direction before it |
| `GameRules.TwoQuickTurnsReverse` | src/components/Game.tsx:105-117 | the check is against the stored direction: a side turn then the reverse of the last move, both before the next tick, are accepted and the tick runs the head into the neck and ends the game |
| `GameRules.ArrowKeyThenTick` | src/components/Game.tsx:59-73 | after an accepted arrow key, the next tick that does not end the game puts the head at y - 1 for ArrowUp, y + 1 for ArrowDown, x - 1 for ArrowLeft and x + 1 for ArrowRight |
| `GameRules.KeyDownPreservesValid` | src/components/Game.tsx:92-117 | a key press keeps every invariant and the high score |
| `GameRules.StartButton` | src/components/Game.tsx:173 | the Start button clears the pause flag, changes no other field and keeps the invariant |
| `GameRules.PauseButton` | src/components/Game.tsx:180 | the Pause button sets the pause flag, changes no other field and keeps the invariant |
| `GameRules.ResetGame` | src/components/Game.tsx:33-40 | reset keeps the high score, zeroes the score, clears game over, pauses, and from a valid state with on-board food yields a valid state; the full new state in `ResetGameEffect` |
| `GameRules.ResetGameEffect` | src/components/Game.tsx:33-40 | reset gives snake [(10, 10)], the generated food, RIGHT, not over, paused and score 0, keeps the high score, and yields a valid state |
| `GameRuns.Apply` | src/components/Game.tsx:56-127 | one tick, key press or button click never lowers the high score, and only a reset or a tick of an unfinished game can change the snake |
| `GameRuns.Run` | src/components/Game.tsx:33-127 | over any sequence of events the snake stays non-empty and the high score never decreases |
| `GameRuns.RunPreservesValid` | src/components/Game.tsx:33-127 | every invariant of `Valid` survives any sequence of ticks, keys and button clicks |
| `GameRuns.ReachableStatesAreValid` | src/components/Game.tsx:17-23 | every state reachable from the mounted component is valid |
| `GameRuns.GameOverIsTerminal` | src/components/Game.tsx:57 | after game over, no sequence of events without Reset changes the snake, the food, the score or the high score, and the game stays over |
| `GameRuns.WalkLeftIntoWall` | src/components/Game.tsx:44-50 | a running one-cell snake heading LEFT from column x, with no food ahead, is alive at column 0 after x ticks and hits the wall on tick x + 1 |
| `GameEngine.Game.constructor` | src/components/Game.tsx:17-23 | the fields start as the mounted state |
| `GameEngine.Game.Tick` | src/components/Game.tsx:56-89 | moveSnake updates the fields to exactly `MoveSnake` of the old state and the generated food, keeps `Valid` and never lowers the high score |
| `GameEngine.Game.HandleKey` | src/components/Game.tsx:92-118 | the keydown handler updates the fields to exactly `KeyDown` of the old state, keeps `Valid` and never reverses the direction |
| `GameEngine.Game.Start` | src/components/Game.tsx:173 | the Start button unpauses and changes nothing else |
| `GameEngine.Game.Pause` | src/components/Game.tsx:180 | the Pause button pauses and changes nothing else |
| `GameEngine.Game.Reset` | src/components/Game.tsx:33-40 | resetGame updates the fields to exactly `ResetGame` of the old state and the generated food, keeps `Valid` and the high score |

## Left out

- Rendering (JSX, CSS classes, lucide icons, the board drawn from the state) is presentation only.
- The `setInterval` loop (`GAME_SPEED` = 150 ms) and its cleanup are timer plumbing; a tick is an explicit call of `Tick`.
- `window.addEventListener` and its removal are browser I/O; a key press is an explicit call of `HandleKey` with the value of `KeyboardEvent.key`.
- React hook semantics (batched `useState` updates, stale `useCallback` closures) are not modelled; every operation is one atomic update of the state.
- GenerateFood: computes with exact reals, not IEEE doubles; the floating-point rounding of `Math.random() * GRID_SIZE` is not modelled.
- KeyDirection: looks the key up among the four arrow names only. A plain JavaScript object lookup would also find inherited names such as `constructor`, but no keyboard produces those as `KeyboardEvent.key`.

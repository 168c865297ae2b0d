/*
 * The rules of the Snake game of src/components/Game.tsx, stated on values.
 *
 * The React component keeps its state in seven hooks; here that state is one
 * `State` value, and every way the component changes it (a timer tick, a key
 * press, the Start, Pause and Reset buttons) is a function from the old state
 * to the new one. The class in GameEngine performs the same updates in place
 * and is proved against these functions.
 */
module GameRules {

  /** Side length of the square board (GRID_SIZE). */
  const GridSize: int := 20

  /** Points awarded for each piece of food eaten. */
  const FoodPoints: int := 10

  /** A board position (Position); compared by value. */
  datatype Cell = Cell(x: int, y: int)

  datatype Direction = Up | Down | Left | Right

  datatype Option<T> = None | Some(value: T)

  /** The whole state the component keeps in its hooks. */
  datatype State = State(
    snake: seq<Cell>,    // head first, tail last
    food: Cell,
    direction: Direction,
    isGameOver: bool,
    isPaused: bool,
    score: int,
    highScore: int)

  /** INITIAL_SNAKE: one cell in the middle of the board. */
  const InitialSnake: seq<Cell> := [Cell(10, 10)]

  /** INITIAL_FOOD. */
  const InitialFood: Cell := Cell(15, 15)

  predicate InBounds(c: Cell) {
    0 <= c.x < GridSize && 0 <= c.y < GridSize
  }

  function Abs(n: int): nat {
    if n < 0 then -n else n
  }

  /** Two cells are neighbours: one unit apart on exactly one axis. */
  predicate Adjacent(a: Cell, b: Cell) {
    Abs(a.x - b.x) + Abs(a.y - b.y) == 1
  }

  predicate AllInBounds(s: seq<Cell>) {
    forall i :: 0 <= i < |s| ==> InBounds(s[i])
  }

  /** Every cell of the body touches the next one. */
  predicate Connected(s: seq<Cell>) {
    forall i :: 0 <= i < |s| - 1 ==> Adjacent(s[i], s[i + 1])
  }

  /** No cell of the body is occupied twice. */
  predicate Distinct(s: seq<Cell>) {
    forall i, j :: 0 <= i < j < |s| ==> s[i] != s[j]
  }

  /**
   * What every state the component can reach satisfies: a non-empty snake
   * and the food on the board, a body that is a simple path of neighbouring
   * cells, ten points per cell grown, and a high score that already accounts
   * for the score of a finished game.
   */
  predicate Valid(s: State)
    ensures Valid(s) ==> s.score >= 0 && s.score % FoodPoints == 0
    ensures Valid(s) ==> |s.snake| > 0 && s.snake[0] !in s.snake[1..]
  {
    && |s.snake| > 0
    && AllInBounds(s.snake)
    && InBounds(s.food)
    && Connected(s.snake)
    && Distinct(s.snake)
    && s.score == FoodPoints * (|s.snake| - 1)
    && s.highScore >= 0
    && s.highScore % FoodPoints == 0
    && (s.isGameOver ==> s.highScore >= s.score)
  }

  /** The state the component is mounted with. */
  function Initial(): (s: State)
    ensures Valid(s) && s.isPaused && !s.isGameOver
    ensures s.score == 0 && s.highScore == 0
  {
    State(InitialSnake, InitialFood, Right, false, true, 0, 0)
  }

  /* ---------------------------------------------------------------- food */

  /**
   * generateFood: each coordinate is Math.floor(Math.random() * GRID_SIZE),
   * where a draw of Math.random() lies in [0, 1). The draws are parameters;
   * they are exact reals here.
   */
  function GenerateFood(rx: real, ry: real): (c: Cell)
    requires 0.0 <= rx < 1.0 && 0.0 <= ry < 1.0
    ensures InBounds(c)
  {
    Cell((rx * GridSize as real).Floor, (ry * GridSize as real).Floor)
  }

  /** Every cell of the board is a possible outcome of generateFood. */
  lemma GenerateFoodReachesEveryCell(c: Cell)
    requires InBounds(c)
    ensures var rx, ry := c.x as real / GridSize as real, c.y as real / GridSize as real;
      0.0 <= rx < 1.0 && 0.0 <= ry < 1.0 && GenerateFood(rx, ry) == c
  {
  }

  /* ----------------------------------------------------------- movement */

  /** The opposites table of the key handler. */
  function Opposite(d: Direction): (r: Direction)
    ensures r != d
  {
    match d
    case Up => Down
    case Down => Up
    case Left => Right
    case Right => Left
  }

  lemma OppositeInvolutive(d: Direction)
    ensures Opposite(Opposite(d)) == d
  {
  }

  /**
   * The head displacement of moveSnake: UP decreases y, DOWN increases y,
   * LEFT decreases x, RIGHT increases x, each by one.
   */
  function Step(c: Cell, d: Direction): (r: Cell)
    ensures Adjacent(c, r)
    ensures d in {Up, Down} ==> r.x == c.x
    ensures d in {Left, Right} ==> r.y == c.y
  {
    match d
    case Up => c.(y := c.y - 1)
    case Down => c.(y := c.y + 1)
    case Left => c.(x := c.x - 1)
    case Right => c.(x := c.x + 1)
  }

  /** A step followed by a step the opposite way comes back to the start. */
  lemma StepThenOpposite(c: Cell, d: Direction)
    ensures Step(Step(c, d), Opposite(d)) == c
  {
  }

  /** The four directions lead to four different neighbours. */
  lemma StepInjective(c: Cell, d1: Direction, d2: Direction)
    requires Step(c, d1) == Step(c, d2)
    ensures d1 == d2
  {
  }

  /** The four neighbours reached by Step are all the neighbours there are. */
  lemma StepReachesEveryNeighbour(c: Cell, n: Cell)
    requires Adjacent(c, n)
    ensures exists d :: Step(c, d) == n
  {
    if n.x < c.x {
      assert Step(c, Left) == n;
    } else if n.x > c.x {
      assert Step(c, Right) == n;
    } else if n.y < c.y {
      assert Step(c, Up) == n;
    } else {
      assert Step(c, Down) == n;
    }
  }

  /* ---------------------------------------------------------- collision */

  /** The `snake.some(...)` scan: does some segment sit on `c`? */
  function Occupies(snake: seq<Cell>, c: Cell): (r: bool)
    ensures r <==> exists i :: 0 <= i < |snake| && snake[i] == c
  {
    if snake == [] then false
    else if snake[0] == c then true
    else
      var r := Occupies(snake[1..], c);
      assert r ==> exists i :: 0 <= i < |snake| && snake[i] == c by {
        if r {
          var k :| 0 <= k < |snake[1..]| && snake[1..][k] == c;
          assert snake[k + 1] == c;
        }
      }
      assert (exists i :: 0 <= i < |snake| && snake[i] == c) ==> r by {
        if exists i :: 0 <= i < |snake| && snake[i] == c {
          var k :| 0 <= k < |snake| && snake[k] == c;
          assert k != 0 && snake[1..][k - 1] == c;
        }
      }
      r
  }

  /**
   * checkCollision: the new head hits a wall when it leaves the board, and
   * hits the snake when it lands on any cell of the current body, the tail
   * included.
   */
  function CheckCollision(head: Cell, snake: seq<Cell>): (r: bool)
    ensures r <==> !InBounds(head) || head in snake
  {
    if head.x < 0 || head.x >= GridSize || head.y < 0 || head.y >= GridSize then true
    else Occupies(snake, head)
  }

  /* ----------------------------------------------------- board capacity */

  /** Numbers the cells of the board 0 .. GridSize * GridSize - 1. */
  function CellIndex(c: Cell): int {
    c.x * GridSize + c.y
  }

  /** The numbers 0 .. n - 1. */
  function Below(n: nat): (r: set<int>)
    ensures forall i :: i in r <==> 0 <= i < n
  {
    if n == 0 then {} else Below(n - 1) + {n - 1}
  }

  lemma {:induction false} BelowSize(n: nat)
    ensures |Below(n)| == n
  {
    if n > 0 {
      BelowSize(n - 1);
    }
  }

  function Indices(s: seq<Cell>): set<int> {
    set i | 0 <= i < |s| :: CellIndex(s[i])
  }

  /** Distinct cells on the board have distinct numbers, all below GridSize * GridSize. */
  lemma {:induction false} IndicesSize(s: seq<Cell>)
    requires AllInBounds(s) && Distinct(s)
    ensures |Indices(s)| == |s| && Indices(s) <= Below(GridSize * GridSize)
  {
    if s != [] {
      var rest := s[1..];
      assert Indices(s) == {CellIndex(s[0])} + Indices(rest) by {
        forall k | k in Indices(s) ensures k in {CellIndex(s[0])} + Indices(rest) {
          var i :| 0 <= i < |s| && k == CellIndex(s[i]);
          if i > 0 { assert k == CellIndex(rest[i - 1]); }
        }
        forall k | k in Indices(rest) ensures k in Indices(s) {
          var i :| 0 <= i < |rest| && k == CellIndex(rest[i]);
          assert k == CellIndex(s[i + 1]);
        }
      }
      assert CellIndex(s[0]) !in Indices(rest) by {
        forall i | 0 <= i < |rest| ensures CellIndex(rest[i]) != CellIndex(s[0]) {
          assert rest[i] == s[i + 1];
        }
      }
      IndicesSize(rest);
    }
  }

  /**
   * A snake of distinct cells fits on the board: at most GridSize * GridSize
   * cells, so the score of a valid state is at most 3990.
   */
  lemma SnakeFitsBoard(s: State)
    requires Valid(s)
    ensures |s.snake| <= GridSize * GridSize
    ensures s.score <= FoodPoints * (GridSize * GridSize - 1)
  {
    IndicesSize(s.snake);
    BelowSize(GridSize * GridSize);
    SubsetSize(Indices(s.snake), Below(GridSize * GridSize));
  }

  lemma SubsetSize(a: set<int>, b: set<int>)
    requires a <= b
    ensures |a| <= |b|
  {
    assert b == a + (b - a);
  }

  /* --------------------------------------------------------------- tick */

  function Max(a: int, b: int): (m: int)
    ensures m >= a && m >= b && (m == a || m == b)
  {
    if a >= b then a else b
  }

  /**
   * moveSnake, one timer tick. `newFood` is the cell generateFood returns; it
   * is used only when the food is eaten.
   */
  function MoveSnake(s: State, newFood: Cell): (t: State)
    requires |s.snake| > 0
    ensures |t.snake| > 0
    ensures t.direction == s.direction && t.isPaused == s.isPaused
    ensures t.highScore >= s.highScore
    ensures t.score == s.score || t.score == s.score + FoodPoints
    ensures |t.snake| == |s.snake| + (t.score - s.score) / FoodPoints
    ensures t.food != s.food ==> t.score == s.score + FoodPoints && t.food == newFood
    ensures s.isGameOver ==> t == s
  {
    if s.isPaused || s.isGameOver then s
    else
      var head := Step(s.snake[0], s.direction);
      if CheckCollision(head, s.snake) then
        s.(isGameOver := true, highScore := Max(s.highScore, s.score))
      else if head == s.food then
        s.(snake := [head] + s.snake, food := newFood, score := s.score + FoodPoints)
      else
        s.(snake := [head] + s.snake[..|s.snake| - 1])
  }

  /** A paused or finished game does not move: no field changes. */
  lemma MoveSnakeHalted(s: State, newFood: Cell)
    requires |s.snake| > 0
    requires s.isPaused || s.isGameOver
    ensures MoveSnake(s, newFood) == s
  {
  }

  /**
   * Crashing into a wall or into the body ends the game and records the
   * score as high score if it is better; snake, food, score, direction and
   * pause flag stay as they were.
   */
  lemma MoveSnakeCollides(s: State, newFood: Cell)
    requires |s.snake| > 0 && !s.isPaused && !s.isGameOver
    requires var head := Step(s.snake[0], s.direction);
      !InBounds(head) || head in s.snake
    ensures var t := MoveSnake(s, newFood);
      && t.isGameOver
      && t.highScore == Max(s.highScore, s.score)
      && t == s.(isGameOver := true, highScore := t.highScore)
  {
  }

  /**
   * Eating: the snake grows by one cell at the head and keeps its whole old
   * body, the score rises by ten and the food moves to `newFood`.
   */
  lemma MoveSnakeEats(s: State, newFood: Cell)
    requires |s.snake| > 0 && !s.isPaused && !s.isGameOver
    requires var head := Step(s.snake[0], s.direction);
      InBounds(head) && head !in s.snake && head == s.food
    ensures var t := MoveSnake(s, newFood);
      && |t.snake| == |s.snake| + 1
      && t.snake[0] == Step(s.snake[0], s.direction)
      && t.snake[1..] == s.snake
      && t.score == s.score + 10
      && t.food == newFood
      && t == s.(snake := t.snake, food := newFood, score := t.score)
  {
  }

  /**
   * An ordinary move: a new head in front, the tail cell dropped, so the
   * length, the score and the food stay the same.
   */
  lemma MoveSnakeShifts(s: State, newFood: Cell)
    requires |s.snake| > 0 && !s.isPaused && !s.isGameOver
    requires var head := Step(s.snake[0], s.direction);
      InBounds(head) && head !in s.snake && head != s.food
    ensures var t := MoveSnake(s, newFood);
      && |t.snake| == |s.snake|
      && t.snake[0] == Step(s.snake[0], s.direction)
      && t.snake[1..] == s.snake[..|s.snake| - 1]
      && t == s.(snake := t.snake)
  {
  }

  /** A tick keeps every state invariant, given an on-board food cell. */
  lemma MoveSnakePreservesValid(s: State, newFood: Cell)
    requires Valid(s) && InBounds(newFood)
    ensures Valid(MoveSnake(s, newFood))
  {
  }

  /* ---------------------------------------------------------- key input */

  /** keyMap: only the four arrow keys name a direction. */
  function KeyDirection(key: string): (r: Option<Direction>)
    ensures r.Some? ==> ArrowKey(r.value) == key
  {
    if key == "ArrowUp" then Some(Up)
    else if key == "ArrowDown" then Some(Down)
    else if key == "ArrowLeft" then Some(Left)
    else if key == "ArrowRight" then Some(Right)
    else None
  }

  /** The key (KeyboardEvent.key) that keyMap sends to a direction. */
  function ArrowKey(d: Direction): string {
    match d
    case Up => "ArrowUp"
    case Down => "ArrowDown"
    case Left => "ArrowLeft"
    case Right => "ArrowRight"
  }

  /** keyMap is a bijection between the four arrow keys and the directions. */
  lemma KeyDirectionIsArrowKey(key: string, d: Direction)
    ensures KeyDirection(key) == Some(d) <==> key == ArrowKey(d)
  {
  }

  /** The pause key. */
  const SpaceKey: string := " "

  /**
   * The keydown handler: space flips the pause flag; an arrow key sets the
   * direction unless it is the opposite of the stored direction; every other
   * key does nothing.
   */
  function KeyDown(s: State, key: string): (t: State)
    ensures t.snake == s.snake && t.food == s.food && t.isGameOver == s.isGameOver
    ensures t.score == s.score && t.highScore == s.highScore
    ensures t.isPaused != s.isPaused ==> key == SpaceKey && t.direction == s.direction
    ensures t.direction != s.direction ==> KeyDirection(key) == Some(t.direction)
  {
    if key == SpaceKey then s.(isPaused := !s.isPaused)
    else match KeyDirection(key)
      case Some(d) => if Opposite(d) != s.direction then s.(direction := d) else s
      case None => s
  }

  /**
   * What a key press does, case by case: only the pause flag or only the
   * direction can change, and a direction is refused exactly when it would
   * reverse the stored one.
   */
  lemma KeyDownEffect(s: State, key: string)
    ensures var t := KeyDown(s, key);
      && (key == SpaceKey ==> t == s.(isPaused := !s.isPaused))
      && (key != SpaceKey && KeyDirection(key).None? ==> t == s)
      && (forall d :: key == ArrowKey(d) ==>
            (d == Opposite(s.direction) ==> t == s) &&
            (d != Opposite(s.direction) ==> t == s.(direction := d)))
  {
  }

  /** No key press turns the stored direction into its opposite. */
  lemma KeyDownNeverReverses(s: State, key: string)
    ensures KeyDown(s, key).direction != Opposite(s.direction)
  {
  }

  /**
   * The handler compares with the stored direction, not with the direction
   * of the last move: two quick arrow presses between ticks (a side turn,
   * then the reverse of the last move) are both accepted, and the next tick
   * drives the head into the neck and ends the game.
   */
  lemma TwoQuickTurnsReverse(s: State, side: Direction, newFood: Cell)
    requires |s.snake| >= 2 && !s.isPaused && !s.isGameOver
    requires s.snake[1] == Step(s.snake[0], Opposite(s.direction))
    requires side != s.direction && side != Opposite(s.direction)
    ensures var turned := KeyDown(KeyDown(s, ArrowKey(side)), ArrowKey(Opposite(s.direction)));
      && turned.direction == Opposite(s.direction)
      && MoveSnake(turned, newFood).isGameOver
  {
  }

  /**
   * From the keys to the board: after an accepted arrow key, the next tick
   * of a running game puts the head one cell up (y - 1) for ArrowUp, down
   * (y + 1) for ArrowDown, left (x - 1) for ArrowLeft and right (x + 1) for
   * ArrowRight, unless that cell ends the game.
   */
  lemma ArrowKeyThenTick(s: State, d: Direction, newFood: Cell)
    requires |s.snake| > 0 && !s.isPaused && !s.isGameOver
    requires d != Opposite(s.direction)
    ensures var h, t := s.snake[0], MoveSnake(KeyDown(s, ArrowKey(d)), newFood);
      !t.isGameOver ==>
        && (d == Up ==> t.snake[0] == Cell(h.x, h.y - 1))
        && (d == Down ==> t.snake[0] == Cell(h.x, h.y + 1))
        && (d == Left ==> t.snake[0] == Cell(h.x - 1, h.y))
        && (d == Right ==> t.snake[0] == Cell(h.x + 1, h.y))
  {
    KeyDirectionIsArrowKey(ArrowKey(d), d);
    OppositeInvolutive(d);
    OppositeInvolutive(s.direction);
  }

  /** A key press keeps every state invariant and the high score. */
  lemma KeyDownPreservesValid(s: State, key: string)
    requires Valid(s)
    ensures Valid(KeyDown(s, key)) && KeyDown(s, key).highScore == s.highScore
  {
  }

  /* ------------------------------------------------------------ buttons */

  /** The Start button: the game runs. */
  function StartButton(s: State): (t: State)
    ensures !t.isPaused && t.(isPaused := s.isPaused) == s
    ensures Valid(s) ==> Valid(t)
  {
    s.(isPaused := false)
  }

  /** The Pause button: the game stops. */
  function PauseButton(s: State): (t: State)
    ensures t.isPaused && t.(isPaused := s.isPaused) == s
    ensures Valid(s) ==> Valid(t)
  {
    s.(isPaused := true)
  }

  /**
   * resetGame: back to the initial snake, direction RIGHT, score 0, not over
   * and paused, with food from generateFood; the high score survives.
   */
  function ResetGame(s: State, newFood: Cell): (t: State)
    ensures t.highScore == s.highScore && t.score == 0 && !t.isGameOver && t.isPaused
    ensures Valid(s) && InBounds(newFood) ==> Valid(t)
  {
    s.(snake := InitialSnake, food := newFood, direction := Right,
       isGameOver := false, score := 0, isPaused := true)
  }

  lemma ResetGameEffect(s: State, newFood: Cell)
    requires Valid(s) && InBounds(newFood)
    ensures var t := ResetGame(s, newFood);
      && Valid(t)
      && t.snake == [Cell(10, 10)] && t.food == newFood && t.direction == Right
      && !t.isGameOver && t.isPaused && t.score == 0
      && t.highScore == s.highScore
  {
  }
}

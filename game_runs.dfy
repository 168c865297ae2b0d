/*
 * Whole games: what holds after any sequence of the events the component
 * reacts to (timer ticks, key presses, the Start, Pause and Reset buttons),
 * applied one at a time to the state.
 */
module GameRuns {
  import opened GameRules

  /** One input to the component; a tick and a reset carry the cell generateFood returns. */
  datatype Event =
    | Tick(newFood: Cell)
    | KeyPress(key: string)
    | StartClick
    | PauseClick
    | ResetClick(newFood: Cell)

  function Apply(s: State, e: Event): (t: State)
    requires |s.snake| > 0
    ensures |t.snake| > 0
    ensures t.highScore >= s.highScore
    ensures e.ResetClick? || (e.Tick? && !s.isGameOver) || t.snake == s.snake
  {
    match e
    case Tick(c) => MoveSnake(s, c)
    case KeyPress(k) => KeyDown(s, k)
    case StartClick => StartButton(s)
    case PauseClick => PauseButton(s)
    case ResetClick(c) => ResetGame(s, c)
  }

  /** The state after the events, in order; the high score never goes down. */
  function Run(s: State, events: seq<Event>): (t: State)
    requires |s.snake| > 0
    ensures |t.snake| > 0
    ensures t.highScore >= s.highScore
    decreases |events|
  {
    if events == [] then s else Run(Apply(s, events[0]), events[1..])
  }

  /** generateFood only returns cells on the board. */
  predicate FoodOnBoard(events: seq<Event>) {
    forall i :: 0 <= i < |events| ==>
      (events[i].Tick? ==> InBounds(events[i].newFood)) &&
      (events[i].ResetClick? ==> InBounds(events[i].newFood))
  }

  lemma ApplyPreservesValid(s: State, e: Event)
    requires Valid(s)
    requires e.Tick? || e.ResetClick? ==> InBounds(e.newFood)
    ensures Valid(Apply(s, e))
    ensures Apply(s, e).highScore >= s.highScore
  {
  }

  /** Every invariant of Valid survives any sequence of events. */
  lemma {:induction false} RunPreservesValid(s: State, events: seq<Event>)
    requires Valid(s) && FoodOnBoard(events)
    ensures Valid(Run(s, events))
    decreases |events|
  {
    if events != [] {
      ApplyPreservesValid(s, events[0]);
      RunPreservesValid(Apply(s, events[0]), events[1..]);
    }
  }

  /** Every state reachable from the mounted component is valid. */
  lemma ReachableStatesAreValid(events: seq<Event>)
    requires FoodOnBoard(events)
    ensures Valid(Run(Initial(), events))
  {
    RunPreservesValid(Initial(), events);
  }

  predicate NoReset(events: seq<Event>) {
    forall i :: 0 <= i < |events| ==> !events[i].ResetClick?
  }

  /**
   * Game over is final until Reset: ticks, keys and the Start and Pause
   * buttons change neither the snake, the food, the score nor the high
   * score, and the game stays over.
   */
  lemma {:induction false} GameOverIsTerminal(s: State, events: seq<Event>)
    requires |s.snake| > 0 && s.isGameOver && NoReset(events)
    ensures var t := Run(s, events);
      && t.isGameOver
      && t.snake == s.snake && t.food == s.food
      && t.score == s.score && t.highScore == s.highScore
    decreases |events|
  {
    if events != [] {
      var t := Apply(s, events[0]);
      assert t.isGameOver && t.snake == s.snake && t.food == s.food
        && t.score == s.score && t.highScore == s.highScore by {
        match events[0]
        case Tick(c) => MoveSnakeHalted(s, c);
        case KeyPress(k) =>
        case StartClick =>
        case PauseClick =>
      }
      GameOverIsTerminal(t, events[1..]);
    }
  }

  /** `n` timer ticks in a row. */
  function Ticks(n: nat, c: Cell): (events: seq<Event>)
    ensures |events| == n && forall i :: 0 <= i < n ==> events[i] == Tick(c)
  {
    if n == 0 then [] else [Tick(c)] + Ticks(n - 1, c)
  }

  /**
   * A running one-cell snake heading LEFT from column x, with no food ahead
   * of it in its row, reaches column 0 after x ticks and hits the wall on
   * tick x + 1 (from (10, 10) the eleventh tick ends the game).
   */
  lemma {:induction false} WalkLeftIntoWall(s: State, c: Cell)
    requires Valid(s) && !s.isPaused && !s.isGameOver && s.direction == Left
    requires |s.snake| == 1
    requires s.food.y != s.snake[0].y || s.food.x > s.snake[0].x
    ensures var head := s.snake[0];
      && Run(s, Ticks(head.x, c)).snake == [Cell(0, head.y)]
      && !Run(s, Ticks(head.x, c)).isGameOver
      && Run(s, Ticks(head.x + 1, c)).isGameOver
    decreases s.snake[0].x
  {
    var head := s.snake[0];
    var t := MoveSnake(s, c);
    if head.x == 0 {
      assert Run(s, Ticks(1, c)) == Run(t, []);
    } else {
      assert t.snake == [Cell(head.x - 1, head.y)];
      WalkLeftIntoWall(t, c);
      assert Ticks(head.x, c)[1..] == Ticks(head.x - 1, c);
      assert Ticks(head.x + 1, c)[1..] == Ticks(head.x, c);
    }
  }
}

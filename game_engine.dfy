/*
 * The Game component as an object: its seven state hooks are fields, and
 * moveSnake, the keydown handler, the Start and Pause buttons and resetGame
 * are methods that update them in place, each proved to do what the
 * corresponding function of GameRules says and to keep GameRules.Valid.
 */
module GameEngine {
  import opened GameRules

  class Game {
    var snake: seq<Cell>
    var food: Cell
    var direction: Direction
    var isGameOver: bool
    var isPaused: bool
    var score: int
    var highScore: int

    /** The fields as one GameRules.State value. */
    function Snapshot(): State
      reads this
    {
      State(snake, food, direction, isGameOver, isPaused, score, highScore)
    }

    ghost predicate Valid()
      reads this
    {
      GameRules.Valid(Snapshot())
    }

    /** Mounting the component: the useState initial values. */
    constructor ()
      ensures Valid() && Snapshot() == Initial()
    {
      snake := InitialSnake;
      food := InitialFood;
      direction := Right;
      isGameOver := false;
      isPaused := true;
      score := 0;
      highScore := 0;
    }

    /**
     * moveSnake, run by the interval timer. rx and ry are the two
     * Math.random() draws that generateFood turns into a cell.
     */
    method Tick(rx: real, ry: real)
      requires Valid()
      requires 0.0 <= rx < 1.0 && 0.0 <= ry < 1.0
      modifies this
      ensures Valid()
      ensures Snapshot() == MoveSnake(old(Snapshot()), GenerateFood(rx, ry))
      ensures highScore >= old(highScore)
    {
      ghost var before := Snapshot();
      MoveSnakePreservesValid(before, GenerateFood(rx, ry));
      if isPaused || isGameOver {
        return;
      }

      var head := snake[0];
      match direction {
        case Up => head := head.(y := head.y - 1);
        case Down => head := head.(y := head.y + 1);
        case Left => head := head.(x := head.x - 1);
        case Right => head := head.(x := head.x + 1);
      }
      assert head == Step(before.snake[0], before.direction);

      if CheckCollision(head, snake) {
        isGameOver := true;
        highScore := Max(highScore, score);
        return;
      }

      var newSnake := [head] + snake;
      if head == food {
        food := GenerateFood(rx, ry);
        score := score + FoodPoints;
      } else {
        newSnake := newSnake[..|newSnake| - 1];
      }
      snake := newSnake;
    }

    /** The keydown listener, given KeyboardEvent.key. */
    method HandleKey(key: string)
      requires Valid()
      modifies this
      ensures Valid()
      ensures Snapshot() == KeyDown(old(Snapshot()), key)
      ensures direction != Opposite(old(direction))
    {
      KeyDownPreservesValid(Snapshot(), key);
      KeyDownNeverReverses(Snapshot(), key);
      if key == SpaceKey {
        isPaused := !isPaused;
        return;
      }

      match KeyDirection(key) {
        case Some(newDirection) =>
          if Opposite(newDirection) != direction {
            direction := newDirection;
          }
        case None =>
      }
    }

    /** The Start button. */
    method Start()
      requires Valid()
      modifies this`isPaused
      ensures Valid() && Snapshot() == StartButton(old(Snapshot()))
    {
      isPaused := false;
    }

    /** The Pause button. */
    method Pause()
      requires Valid()
      modifies this`isPaused
      ensures Valid() && Snapshot() == PauseButton(old(Snapshot()))
    {
      isPaused := true;
    }

    /** resetGame, from the Reset button; rx and ry feed generateFood. */
    method Reset(rx: real, ry: real)
      requires Valid()
      requires 0.0 <= rx < 1.0 && 0.0 <= ry < 1.0
      modifies this
      ensures Valid()
      ensures Snapshot() == ResetGame(old(Snapshot()), GenerateFood(rx, ry))
      ensures highScore == old(highScore)
    {
      ResetGameEffect(Snapshot(), GenerateFood(rx, ry));
      snake := InitialSnake;
      food := GenerateFood(rx, ry);
      direction := Right;
      isGameOver := false;
      score := 0;
      isPaused := true;
    }
  }
}

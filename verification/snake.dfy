/**
 * The snake game of assets/js/snake.js on a 10x10 board. The snake is a
 * sequence of cells, head first; each tick moves the head one cell in the
 * chosen direction, and the tail follows unless food was eaten. Timers
 * become explicit `GameStep` calls and the random food cell an index
 * `pick` into the list of free cells. The drawn board is not state here:
 * `EmptyCells` computes the cells `updateSnakeOnBoard` leaves at `0`.
 */
module Snake {
  import opened Util

  const BoardSize := 10
  /** `baseSpeed`, in milliseconds per tick. */
  const BaseSpeed := 200
  /** The tick length below which eating no longer speeds the game up. */
  const FastestSpeed := 100

  datatype Point = Point(x: int, y: int)

  datatype Dir = Up | Down | Left | Right

  function Opposite(d: Dir): Dir {
    match d
    case Up => Down
    case Down => Up
    case Left => Right
    case Right => Left
  }

  /** The neighbouring cell in direction `d`; `y` grows downwards. */
  function Step(p: Point, d: Dir): Point {
    match d
    case Up => Point(p.x, p.y - 1)
    case Down => Point(p.x, p.y + 1)
    case Left => Point(p.x - 1, p.y)
    case Right => Point(p.x + 1, p.y)
  }

  predicate OnBoard(p: Point) {
    0 <= p.x < BoardSize && 0 <= p.y < BoardSize
  }

  /** The three speed buttons. */
  datatype Speed = Slow | Medium | Fast

  /** `baseSpeed * speedMultiplier` for the multipliers 1.5, 1 and 0.5. */
  function TickLength(s: Speed): (ms: int)
    ensures s == Slow ==> 2 * ms == 3 * BaseSpeed
    ensures s == Medium ==> ms == BaseSpeed
    ensures s == Fast ==> 2 * ms == BaseSpeed
  {
    match s
    case Slow => 300
    case Medium => 200
    case Fast => 100
  }

  datatype Game = Game(
    snake: seq<Point>,
    food: Option<Point>,
    direction: Dir,
    nextDirection: Dir,
    score: nat,
    bestScore: nat,
    highestLength: nat,
    running: bool,
    paused: bool,
    speed: Speed,
    gameSpeed: int)

  /** The cell with row-major index `i`. */
  function CellAt(i: nat): Point {
    Point(i % BoardSize, i / BoardSize)
  }

  function EmptyFrom(snake: seq<Point>, food: Option<Point>, i: nat): seq<Point>
    requires i <= BoardSize * BoardSize
    decreases BoardSize * BoardSize - i
  {
    if i == BoardSize * BoardSize then []
    else
      var p := CellAt(i);
      if p !in snake && food != Some(p) then [p] + EmptyFrom(snake, food, i + 1)
      else EmptyFrom(snake, food, i + 1)
  }

  /** The cells `updateSnakeOnBoard` leaves at `0`, row by row: neither snake nor food. */
  function EmptyCells(snake: seq<Point>, food: Option<Point>): seq<Point> {
    EmptyFrom(snake, food, 0)
  }

  lemma {:induction false} EmptyFromIff(snake: seq<Point>, food: Option<Point>, i: nat, p: Point)
    requires i <= BoardSize * BoardSize
    ensures p in EmptyFrom(snake, food, i) <==>
      OnBoard(p) && p.y * BoardSize + p.x >= i && p !in snake && food != Some(p)
    decreases BoardSize * BoardSize - i
  {
    if i < BoardSize * BoardSize {
      EmptyFromIff(snake, food, i + 1, p);
      CellAtIndex(i, p);
    }
  }

  /** `CellAt` and the row-major index are inverse on the board. */
  lemma CellAtIndex(i: nat, p: Point)
    requires i < BoardSize * BoardSize
    ensures CellAt(i) == p <==> OnBoard(p) && p.y * BoardSize + p.x == i
  {
    if OnBoard(p) && p.y * BoardSize + p.x == i {
      assert CellAt(i) == p;
    }
  }

  /** The free list holds exactly the board cells that are neither snake nor food. */
  lemma EmptyCellsIff(snake: seq<Point>, food: Option<Point>, p: Point)
    ensures p in EmptyCells(snake, food) <==> OnBoard(p) && p !in snake && food != Some(p)
  {
    EmptyFromIff(snake, food, 0, p);
  }

  /**
   * `generateFood`: a random free cell, read from the board as last drawn
   * (snake `snake`, food `food`); with no free cell the food stays where it was.
   */
  function GenerateFood(snake: seq<Point>, food: Option<Point>, pick: nat): (r: Option<Point>)
    ensures |EmptyCells(snake, food)| == 0 ==> r == food
    ensures |EmptyCells(snake, food)| > 0 ==> r.Some? && r.value in EmptyCells(snake, food)
  {
    var free := EmptyCells(snake, food);
    if |free| > 0 then Some(free[pick % |free|]) else food
  }

  /** New food lands on the board, off the snake and away from the old food. */
  lemma NewFoodIsFree(snake: seq<Point>, food: Option<Point>, pick: nat)
    requires |EmptyCells(snake, food)| > 0
    ensures var r := GenerateFood(snake, food, pick);
      r.Some? && OnBoard(r.value) && r.value !in snake && r != food
  {
    EmptyCellsIff(snake, food, GenerateFood(snake, food, pick).value);
  }

  const StartSnake: seq<Point> := [Point(5, 5), Point(4, 5), Point(3, 5)]

  /**
   * `initializeGame`: the three-cell snake in the middle heading right,
   * score 0, stopped, the tick length of the chosen speed, and fresh food.
   * The board it draws on still shows the previous food, so that cell is
   * not offered.
   */
  function InitializeGame(g: Game, pick: nat): (r: Game)
    ensures r.snake == [Point(5, 5), Point(4, 5), Point(3, 5)]
    ensures r.direction == Right && r.nextDirection == Right && r.score == 0
    ensures !r.running && !r.paused && r.gameSpeed == TickLength(r.speed)
    ensures r.speed == g.speed && r.bestScore == g.bestScore && r.highestLength == g.highestLength
    ensures r.food.Some? && OnBoard(r.food.value) && r.food.value !in r.snake
  {
    assert CellAt(0) == Point(0, 0);
    EmptyCellsIff(StartSnake, g.food, Point(0, 0));
    EmptyCellsIff(StartSnake, g.food, Point(0, 1));
    NewFoodIsFree(StartSnake, g.food, pick);
    Game(StartSnake, GenerateFood(StartSnake, g.food, pick), Right, Right, 0, g.bestScore, g.highestLength,
         false, false, g.speed, TickLength(g.speed))
  }

  /** The constructor: no food yet, medium speed, best score and length as stored. */
  function NewGame(storedBest: nat, storedLength: nat, pick: nat): Game {
    InitializeGame(Game(StartSnake, None, Right, Right, 0, storedBest, storedLength, false, false, Medium, BaseSpeed), pick)
  }

  /** `gameOver`: stop, and keep the best score and the longest snake. */
  function GameOver(g: Game): (r: Game)
    ensures !r.running && !r.paused
    ensures r.snake == g.snake && r.score == g.score && r.direction == g.direction && r.food == g.food
    ensures r.bestScore == Max(g.bestScore, g.score) && r.highestLength == Max(g.highestLength, |g.snake|)
  {
    g.(running := false, paused := false,
       bestScore := if g.score > g.bestScore then g.score else g.bestScore,
       highestLength := if |g.snake| > g.highestLength then |g.snake| else g.highestLength)
  }

  function Max(a: int, b: int): int {
    if a >= b then a else b
  }

  /** Where the head goes on the next tick. */
  function NextHead(g: Game): Point
    requires |g.snake| > 0
  {
    Step(g.snake[0], g.nextDirection)
  }

  /** The next tick ends the game: the head would leave the board or run into the body, the tail excepted. */
  predicate Crashes(g: Game)
    requires |g.snake| > 0
  {
    !OnBoard(NextHead(g)) || NextHead(g) in g.snake[..|g.snake| - 1]
  }

  predicate Eats(g: Game)
    requires |g.snake| > 0
  {
    g.food == Some(NextHead(g))
  }

  /**
   * `gameStep`: take the queued direction and move the head one cell. A
   * crash ends the game with the snake where it was. Eating scores 10,
   * keeps the tail, places new food and shortens the tick by 1 while it is
   * above 100; otherwise the tail moves up.
   */
  function GameStep(g: Game, pick: nat): (r: Game)
    requires |g.snake| > 0
    ensures !g.running || g.paused ==> r == g
    ensures g.running && !g.paused && Crashes(g) ==>
      r == GameOver(g.(direction := g.nextDirection))
    ensures g.running && !g.paused && !Crashes(g) ==>
      && r.running && r.direction == g.nextDirection && r.nextDirection == g.nextDirection
      && |r.snake| > 0 && r.snake[0] == Step(g.snake[0], g.nextDirection)
      && (Eats(g) ==> r.snake[1..] == g.snake && r.score == g.score + 10
                      && r.gameSpeed == (if g.gameSpeed > FastestSpeed then g.gameSpeed - 1 else g.gameSpeed)
                      && r.highestLength == Max(g.highestLength, |g.snake| + 1)
                      && r.food == GenerateFood(g.snake, g.food, pick))
      && (!Eats(g) ==> r.snake[1..] == g.snake[..|g.snake| - 1] && r.score == g.score
                       && r.gameSpeed == g.gameSpeed && r.food == g.food)
  {
    if !g.running || g.paused then g
    else
      var turned := g.(direction := g.nextDirection);
      var head := Step(g.snake[0], g.nextDirection);
      if !OnBoard(head) then GameOver(turned)
      else if head in g.snake[..|g.snake| - 1] then GameOver(turned)
      else
        var grown := [head] + g.snake;
        if g.food == Some(head) then
          turned.(snake := grown, score := g.score + 10,
                  highestLength := Max(g.highestLength, |grown|),
                  food := GenerateFood(g.snake, g.food, pick),
                  gameSpeed := if g.gameSpeed > FastestSpeed then g.gameSpeed - 1 else g.gameSpeed)
        else turned.(snake := grown[..|grown| - 1])
  }

  /** The snake's cells are on the board and distinct. */
  predicate Sound(snake: seq<Point>) {
    && (forall i :: 0 <= i < |snake| ==> OnBoard(snake[i]))
    && (forall i, j :: 0 <= i < j < |snake| ==> snake[i] != snake[j])
  }

  /**
   * A tick keeps the snake on the board and free of overlaps, provided the
   * food is not on the snake; the length grows by one exactly when food is eaten.
   */
  lemma GameStepKeepsSound(g: Game, pick: nat)
    requires |g.snake| > 0 && Sound(g.snake)
    requires g.food.Some? ==> g.food.value !in g.snake
    ensures var r := GameStep(g, pick);
      && Sound(r.snake) && |r.snake| > 0
      && |r.snake| == |g.snake| + (if g.running && !g.paused && !Crashes(g) && Eats(g) then 1 else 0)
  {
    var r := GameStep(g, pick);
    if g.running && !g.paused && !Crashes(g) {
      var head := NextHead(g);
      if Eats(g) {
        assert r.snake == [head] + g.snake;
      } else {
        assert r.snake == [head] + g.snake[..|g.snake| - 1];
      }
    }
  }

  /** After eating, the new food (if there was room for it) is off the grown snake. */
  lemma FoodAfterEatingIsFree(g: Game, pick: nat)
    requires |g.snake| > 0 && g.running && !g.paused && !Crashes(g) && Eats(g)
    requires |EmptyCells(g.snake, g.food)| > 0
    ensures var r := GameStep(g, pick);
      r.food.Some? && OnBoard(r.food.value) && r.food.value !in r.snake
  {
    var r := GameStep(g, pick);
    NewFoodIsFree(g.snake, g.food, pick);
    assert r.snake == [NextHead(g)] + g.snake;
  }

  /**
   * The key handler for an arrow or WASD key: queue the direction unless it
   * reverses the current one, then start the game if it is not running.
   */
  function Turn(g: Game, d: Dir): (r: Game)
    ensures r.nextDirection == (if d == Opposite(g.direction) then g.nextDirection else d)
    ensures r.snake == g.snake && r.direction == g.direction && r.score == g.score
    ensures r.running
  {
    var queued := if g.direction != Opposite(d) then g.(nextDirection := d) else g;
    if !queued.running then StartGame(queued) else queued
  }

  /** `startGame`: runs an idle game; anything else is unchanged. */
  function StartGame(g: Game): (r: Game)
    ensures r.running
    ensures !g.running ==> r == g.(running := true, paused := false)
    ensures g.running ==> r == g
  {
    if !g.running then g.(running := true, paused := false) else g
  }

  /** `pauseGame`: pause a running game, or resume a paused one. */
  function PauseGame(g: Game): (r: Game)
    ensures g.running ==> r == g.(paused := !g.paused)
    ensures !g.running ==> r == g
  {
    if g.running && !g.paused then g.(paused := true)
    else if g.running && g.paused then g.(paused := false)
    else g
  }

  lemma PauseTwice(g: Game)
    ensures PauseGame(PauseGame(g)) == g
  {
  }

  /** The queued direction never reverses the current one. */
  predicate NoReverse(g: Game) {
    g.nextDirection != Opposite(g.direction)
  }

  /** The cell behind the head is where the head came from. */
  predicate Trailing(g: Game) {
    |g.snake| >= 2 ==> g.snake[1] == Step(g.snake[0], Opposite(g.direction))
  }

  lemma StepBack(p: Point, d: Dir)
    ensures Step(Step(p, d), Opposite(d)) == p
  {
  }

  /**
   * Keys and ticks keep the queued direction from reversing the snake, and
   * a tick that moves the snake keeps the neck behind the head.
   */
  lemma NoReverseKept(g: Game, d: Dir, pick: nat)
    requires |g.snake| > 0 && NoReverse(g) && Trailing(g)
    ensures NoReverse(Turn(g, d)) && Trailing(Turn(g, d))
    ensures NoReverse(GameStep(g, pick))
    ensures !Crashes(g) ==> Trailing(GameStep(g, pick))
  {
    var r := GameStep(g, pick);
    if g.running && !g.paused && !Crashes(g) {
      StepBack(g.snake[0], g.nextDirection);
    }
  }

  /** So the head never turns back onto its own neck, whatever keys are pressed. */
  lemma NeverIntoTheNeck(g: Game)
    requires |g.snake| >= 2 && NoReverse(g) && Trailing(g)
    ensures NextHead(g) != g.snake[1]
  {
    var h := g.snake[0];
    assert Step(h, g.nextDirection) != Step(h, Opposite(g.direction));
  }

  /**
   * `gameOver` does not reset anything, so an arrow key afterwards starts the
   * same snake again from where it crashed, with its score.
   */
  lemma KeyAfterGameOverResumes(g: Game, d: Dir)
    requires |g.snake| > 0 && g.running && !g.paused && Crashes(g)
    ensures var over := GameStep(g, 0);
      var again := Turn(over, d);
      again.running && again.snake == g.snake && again.score == g.score
  {
  }

  /** `setSpeed`: the tick length of the chosen button, at once. */
  function SetSpeed(g: Game, s: Speed): (r: Game)
    ensures r.speed == s && r.gameSpeed == TickLength(s)
    ensures r == g.(speed := r.speed, gameSpeed := r.gameSpeed)
  {
    g.(speed := s, gameSpeed := TickLength(s))
  }

  /** The tick length stays between the fast setting and the slow one. */
  predicate SpeedInRange(g: Game) {
    FastestSpeed <= g.gameSpeed <= TickLength(Slow)
  }

  lemma SpeedStaysInRange(g: Game, s: Speed, pick: nat)
    requires |g.snake| > 0 && SpeedInRange(g)
    ensures SpeedInRange(GameStep(g, pick))
    ensures SpeedInRange(SetSpeed(g, s))
    ensures SpeedInRange(InitializeGame(g, pick))
  {
  }

  /** `resetScore`: forget the best score and the longest snake. */
  function ResetScore(g: Game): (r: Game)
    ensures r.bestScore == 0 && r.highestLength == 3
    ensures r == g.(bestScore := 0, highestLength := 3)
  {
    g.(bestScore := 0, highestLength := 3)
  }
}

/**
 The snake game's logical state and its transitions: a key press, one
 simulation tick, and the reset performed at start-up and on restart.

 The food-placement loop draws random cells until one is free; in the
 transitions below its outcome is the parameter `pick`, the cell that loop
 returned (see Grid.SpawnFood for the loop itself). A transition that does
 not place food ignores `pick`.
 */
module Game {
  import opened Wrappers
  import opened Grid
  import opened Directions

  /** Points awarded for each food eaten. */
  const FoodPoints: nat := 10

  /** Every time the score reaches a multiple of this, the speed level goes up. */
  const SpeedStep: nat := 50

  /** Column of the first segment laid down at start-up: floor(GridSize / 4). */
  const StartX: int := GridSize / 4

  /** Number of segments of a fresh snake. */
  const StartLength: nat := 3

  /**
   The whole logical state. `snake` lists the segments head first. `dir` is
   the committed direction the snake moves in; `newDir` is the most recent
   accepted request, committed at the next tick. `speedLevel` counts the
   +0.1 steps of the speed multiplier (the multiplier is 1 + speedLevel / 10).
   */
  datatype GameState = GameState(
    snake: seq<Cell>,
    food: Cell,
    dir: Dir,
    newDir: Dir,
    score: nat,
    speedLevel: nat,
    over: bool,
    paused: bool)

  /** Ticks advance the snake only in this state. */
  predicate Running(s: GameState) {
    !s.over && !s.paused
  }

  /** Adding a segment puts it in front of all existing ones (it becomes the head). */
  function AddSegment(snake: seq<Cell>, c: Cell): seq<Cell> {
    [c] + snake
  }

  /** The snake after laying down `n` start-up segments at x = StartX, StartX - 1, ... on row z = 0. */
  function LaySegments(n: nat): seq<Cell> {
    if n == 0 then [] else AddSegment(LaySegments(n - 1), (StartX - (n - 1), 0))
  }

  /**
   The start-up snake. Because each segment is put in front, the last one
   laid, at x = 3, is the head: the head sits at the low-x end of the body
   although the start direction is +x.
   */
  function InitialSnake(): (r: seq<Cell>)
    ensures r == [(3, 0), (4, 0), (5, 0)]
  {
    LaySegments(StartLength)
  }

  /** The state after start-up or restart, with the food on `pick`. */
  function Init(pick: Cell): GameState {
    GameState(InitialSnake(), pick, PlusX, PlusX, 0, 0, false, false)
  }

  /** The restart button, which resets the game in every state. */
  function RestartButton(s: GameState, pick: Cell): (r: GameState)
    ensures r.snake == [(3, 0), (4, 0), (5, 0)] && r.food == pick
    ensures r.score == 0 && r.speedLevel == 0
    ensures r.dir == PlusX && r.newDir == PlusX
    ensures !r.over && !r.paused
  {
    Init(pick)
  }

  /** Keys that toggle pause. */
  predicate IsPauseKey(key: string) {
    key == "p" || key == " "
  }

  /** The keyboard handler. `pick` is where the food goes if the key restarts the game. */
  function HandleKey(s: GameState, key: string, pick: Cell): (r: GameState)
    ensures key == "r" && s.over ==> r == Init(pick)
    ensures !(key == "r" && s.over) ==>
      && r.snake == s.snake && r.food == s.food && r.dir == s.dir
      && r.score == s.score && r.speedLevel == s.speedLevel && r.over == s.over
    ensures !(key == "r" && s.over) ==> (r.paused != s.paused <==> IsPauseKey(key))
    ensures !IsPauseKey(key) && !(key == "r" && s.over) && TurnKey(key).None? ==> r == s
  {
    if IsPauseKey(key) then s.(paused := !s.paused)
    else if key == "r" && s.over then Init(pick)
    else if !Running(s) then s
    else
      match TurnKey(key)
      case Some(want) => if Accepts(s.dir, want) then s.(newDir := want) else s
      case None => s
  }

  /** The cell one step from `c` along `d`. */
  function Step(c: Cell, d: Dir): Cell {
    (c.0 + d.Dx(), c.1 + d.Dz())
  }

  /** Where the head would go on the next tick: one step along the pending direction. */
  function ProposedHead(s: GameState): Cell
    requires |s.snake| > 0
  {
    Step(s.snake[0], s.newDir)
  }

  function EndGame(s: GameState): GameState {
    s.(over := true)
  }

  function UpdateScore(s: GameState, points: nat): GameState {
    s.(score := s.score + points)
  }

  /** The two tests that end the game on a tick: the proposed head leaves the grid or lands on a segment. */
  predicate Collides(s: GameState)
    requires |s.snake| > 0
  {
    !InBounds(ProposedHead(s)) || (|s.snake| > 1 && Occupied(s.snake, ProposedHead(s)))
  }

  /** The next tick moves the snake onto the food. */
  predicate Eats(s: GameState)
    requires |s.snake| > 0
  {
    Running(s) && !Collides(s) && ProposedHead(s) == s.food
  }

  /**
   One simulation tick. The pending direction is committed first, before
   either collision test, so a tick that ends the game still commits it.
   The self-collision test looks at every current segment, the tail
   included, although a plain move would vacate the tail's cell.
   */
  function MoveSnake(s: GameState, pick: Cell): (r: GameState)
    requires Running(s) ==> |s.snake| > 0
    ensures r.paused == s.paused && r.newDir == s.newDir
    ensures Running(s) ==> r.dir == s.newDir
    ensures s.over ==> r.over
    ensures r.score == s.score || r.score == s.score + FoodPoints
  {
    if !Running(s) then s
    else
      var turned := s.(dir := s.newDir);
      var head := ProposedHead(s);
      if !InBounds(head) then EndGame(turned)
      else if |s.snake| > 1 && Occupied(s.snake, head) then EndGame(turned)
      else
        var grown := AddSegment(s.snake, head);
        if head == s.food then
          var scored := UpdateScore(turned.(snake := grown, food := pick), FoodPoints);
          if scored.score % SpeedStep == 0 then scored.(speedLevel := scored.speedLevel + 1)
          else scored
        else
          turned.(snake := grown[..|grown| - 1])
  }

  // ---------------------------------------------------------------------
  // Key handling

  /** The pause key flips `paused` in every state, game over included, and changes nothing else. */
  lemma PauseKeyToggles(s: GameState, key: string, pick: Cell)
    requires IsPauseKey(key)
    ensures HandleKey(s, key, pick) == s.(paused := !s.paused)
  {}

  /** The restart key resets the game only once it is over; otherwise it does nothing. */
  lemma RestartKeyOnlyWhenOver(s: GameState, pick: Cell)
    ensures s.over ==> HandleKey(s, "r", pick) == Init(pick)
    ensures !s.over ==> HandleKey(s, "r", pick) == s
  {}

  /** While over or paused, every key other than pause and (when over) restart is ignored. */
  lemma FrozenIgnoresKeys(s: GameState, key: string, pick: Cell)
    requires !Running(s)
    requires !IsPauseKey(key) && !(key == "r" && s.over)
    ensures HandleKey(s, key, pick) == s
  {}

  /**
   The reversal rule: while running, a direction key replaces the pending
   direction exactly when it is not the opposite of the committed one; a key
   equal to the committed direction is taken. Nothing but the pending
   direction changes: the snake moves only on the next tick.
   */
  lemma ReversalRule(s: GameState, key: string, pick: Cell, want: Dir)
    requires Running(s)
    requires TurnKey(key) == Some(want)
    ensures var r := HandleKey(s, key, pick);
      && (r.newDir == want <==> want != Opposite(s.dir) || s.newDir == want)
      && (want == Opposite(s.dir) ==> r == s)
      && r == s.(newDir := r.newDir)
  {}

  /** Pressing the same direction key twice between ticks has the effect of pressing it once. */
  lemma DirectionKeyIdempotent(s: GameState, key: string, pick: Cell)
    requires TurnKey(key).Some?
    ensures HandleKey(HandleKey(s, key, pick), key, pick) == HandleKey(s, key, pick)
  {}

  // ---------------------------------------------------------------------
  // Ticks

  /** A tick does nothing while the game is over or paused. */
  lemma FrozenTickIsNoop(s: GameState, pick: Cell)
    requires !Running(s)
    ensures MoveSnake(s, pick) == s
  {}

  /**
   A proposed head outside [0, GridSize) in x or z ends the game; snake,
   food, score and speed level stay as they were.
   */
  lemma WallCollision(s: GameState, pick: Cell)
    requires Running(s) && |s.snake| > 0
    requires var h := ProposedHead(s); h.0 < 0 || h.0 >= GridSize || h.1 < 0 || h.1 >= GridSize
    ensures var r := MoveSnake(s, pick);
      && r.over && !r.paused
      && r.snake == s.snake && r.food == s.food
      && r.score == s.score && r.speedLevel == s.speedLevel
      && r.dir == s.newDir && r.newDir == s.newDir
  {}

  /**
   A proposed head on the cell of any current segment, the tail included,
   ends the game once the snake is longer than one segment; snake, food,
   score and speed level stay as they were.
   */
  lemma SelfCollision(s: GameState, pick: Cell)
    requires Running(s) && |s.snake| > 1
    requires ProposedHead(s) in s.snake
    ensures var r := MoveSnake(s, pick);
      && r.over && !r.paused
      && r.snake == s.snake && r.food == s.food
      && r.score == s.score && r.speedLevel == s.speedLevel
      && r.dir == s.newDir && r.newDir == s.newDir
  {}

  /**
   The shape of a tick that does not collide: the proposed head goes in
   front; the tail is dropped unless the head lands on the food, in which
   case the snake grows by one, the score goes up by 10, the food moves to
   `pick` and the speed level goes up when the new score is a multiple of 50.
   */
  lemma SuccessfulTick(s: GameState, pick: Cell)
    requires Running(s) && |s.snake| > 0
    requires InBounds(ProposedHead(s))
    requires |s.snake| == 1 || ProposedHead(s) !in s.snake
    ensures var r := MoveSnake(s, pick);
      var h := ProposedHead(s);
      var ate := h == s.food;
      && Running(r) && r.dir == s.newDir && r.newDir == s.newDir
      && r.snake == [h] + (if ate then s.snake else s.snake[..|s.snake| - 1])
      && |r.snake| == |s.snake| + (if ate then 1 else 0)
      && r.food == (if ate then pick else s.food)
      && r.score == s.score + (if ate then 10 else 0)
      && r.speedLevel == s.speedLevel + (if ate && r.score % 50 == 0 then 1 else 0)
  {}

  /**
   Score and speed only move together with eating: every tick either leaves
   score, speed level and length alone, or adds exactly 10 points and one
   segment.
   */
  lemma TickScoreStep(s: GameState, pick: Cell)
    requires Running(s) ==> |s.snake| > 0
    ensures var r := MoveSnake(s, pick);
      || (r.score == s.score && r.speedLevel == s.speedLevel && |r.snake| == |s.snake|)
      || (r.score == s.score + 10 && |r.snake| == |s.snake| + 1
          && r.speedLevel == s.speedLevel + (if r.score % 50 == 0 then 1 else 0))
  {}

  // ---------------------------------------------------------------------
  // Start-up

  /**
   The start-up state: three segments with the head at (3, 0), direction +x
   both committed and pending, score and speed level 0, neither paused nor over.
   */
  lemma InitialState(pick: Cell)
    ensures var s := Init(pick);
      && s.snake == [(3, 0), (4, 0), (5, 0)] && s.food == pick
      && s.dir == PlusX && s.newDir == PlusX
      && s.score == 0 && s.speedLevel == 0 && Running(s)
  {}

  /**
   The start-up head faces into the second segment: with no key before the
   first tick, that tick ends the game by self-collision and leaves the
   snake where it was.
   */
  lemma FirstTickWithoutInputEndsGame(pick: Cell, next: Cell)
    ensures var r := MoveSnake(Init(pick), next);
      && ProposedHead(Init(pick)) == (4, 0)
      && r.over && r.snake == [(3, 0), (4, 0), (5, 0)] && r.score == 0 && r.food == pick
  {}

  /**
   Direction requests are buffered: pressing "s" at start-up only sets the
   pending direction; the following tick commits it and moves the head to
   (3, 1), dropping the tail at (5, 0).
   */
  lemma TurnBeforeFirstTick(pick: Cell, next: Cell)
    requires pick != (3, 1)
    ensures var s := HandleKey(Init(pick), "s", next);
      && s.snake == Init(pick).snake && s.dir == PlusX && s.newDir == PlusZ
      && var r := MoveSnake(s, next);
      && Running(r) && r.dir == PlusZ && r.snake == [(3, 1), (3, 0), (4, 0)]
  {}
}

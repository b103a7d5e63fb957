/**
 The invariants every reachable game state satisfies, and their proofs by
 induction over runs of events: key presses, ticks of the animation loop,
 and clicks on the restart button.
 */
module GameInvariants {
  import opened Wrappers
  import opened Grid
  import opened Directions
  import opened Game

  /**
   The state invariant: the snake has at least three segments, all inside
   the grid, pairwise distinct and each touching the next; the food is inside
   the grid and off the snake; the pending direction never reverses the
   committed one; the score is 10 per segment grown, and the speed level
   counts the multiples of 50 the score has reached.
   */
  ghost predicate Inv(s: GameState) {
    && |s.snake| >= StartLength
    && AllInBounds(s.snake)
    && Distinct(s.snake)
    && Connected(s.snake)
    && FreeCell(s.snake, s.food)
    && s.newDir != Opposite(s.dir)
    && s.score == FoodPoints * (|s.snake| - StartLength)
    && s.speedLevel == s.score / SpeedStep
  }

  /**
   Something the game reacts to. `Frame` is an animation frame whose timing
   gate let a tick through. Each event carries `pick`, the cell the
   food-placement loop returns if the event places food.
   */
  datatype Event =
    | KeyDown(key: string, pick: Cell)
    | Frame(pick: Cell)
    | RestartClick(pick: Cell)

  /** The state after `e`. The animation loop calls the tick only while the game runs. */
  function Apply(s: GameState, e: Event): GameState
    requires Running(s) ==> |s.snake| > 0
  {
    match e
    case KeyDown(key, pick) => HandleKey(s, key, pick)
    case Frame(pick) => if Running(s) then MoveSnake(s, pick) else s
    case RestartClick(pick) => RestartButton(s, pick)
  }

  /** Whether `e` runs the food-placement loop. */
  predicate PlacesFood(s: GameState, e: Event)
    requires Running(s) ==> |s.snake| > 0
  {
    match e
    case KeyDown(key, _) => key == "r" && s.over
    case Frame(_) => Running(s) && Eats(s)  // `Running(s)` guarantees the non-empty snake `Eats` needs
    case RestartClick(_) => true
  }

  /**
   The food-placement loop only returns a cell inside the grid that no
   segment of the snake it sees occupies; on eating, that snake already has
   the new head.
   */
  predicate PickIsFree(s: GameState, e: Event)
    requires Running(s) ==> |s.snake| > 0
  {
    PlacesFood(s, e) ==> FreeCell(Apply(s, e).snake, e.pick)
  }

  /**
   `states` is the run of `events`: each state follows from the previous one.
   The non-empty-snake clause only makes `Apply` well defined; `Inv` implies
   it, so for a run from start-up it holds at every step once the earlier
   steps keep the invariant.
   */
  ghost predicate Trace(states: seq<GameState>, events: seq<Event>) {
    && |states| == |events| + 1
    && forall i :: 0 <= i < |events| ==>
         && (Running(states[i]) ==> |states[i].snake| > 0)
         && PickIsFree(states[i], events[i])
         && states[i + 1] == Apply(states[i], events[i])
  }

  // ---------------------------------------------------------------------
  // Helper facts

  /** One step along any direction reaches a neighbouring cell. */
  lemma StepIsAdjacent(c: Cell, d: Dir)
    ensures Adjacent(Step(c, d), c)
  {}

  /**
   Adding 10 to a multiple of 10 crosses a multiple of 50 exactly when the
   new value is one, so the quotient by 50 goes up by one exactly then.
   */
  lemma QuotientStep(score: nat)
    requires score % 10 == 0
    ensures (score + 10) / 50 == score / 50 + (if (score + 10) % 50 == 0 then 1 else 0)
  {}

  // ---------------------------------------------------------------------
  // Each transition keeps the invariant

  lemma InitKeepsInv(pick: Cell)
    requires FreeCell(InitialSnake(), pick)
    ensures Inv(Init(pick))
  {}

  /** A key press keeps the invariant; a restart needs the food on a free cell of the fresh snake. */
  lemma HandleKeyKeepsInv(s: GameState, key: string, pick: Cell)
    requires Inv(s)
    requires key == "r" && s.over ==> FreeCell(InitialSnake(), pick)
    ensures Inv(HandleKey(s, key, pick))
  {}

  /** A tick keeps the invariant; on eating, the new food must avoid the grown snake. */
  lemma MoveSnakeKeepsInv(s: GameState, pick: Cell)
    requires Inv(s)
    requires Eats(s) ==> FreeCell(AddSegment(s.snake, ProposedHead(s)), pick)
    ensures Inv(MoveSnake(s, pick))
  {
    if !Running(s) || Collides(s) {
      return;
    }
    var h := ProposedHead(s);
    var r := MoveSnake(s, pick);
    SuccessfulTick(s, pick);
    StepIsAdjacent(s.snake[0], s.newDir);
    var grown := [h] + s.snake;
    assert Distinct(grown) by {
      forall i, j | 0 <= i < j < |grown|
        ensures grown[i] != grown[j]
      {
        assert grown[j] == s.snake[j - 1];
        if i > 0 {
          assert grown[i] == s.snake[i - 1];
        }
      }
    }
    assert Connected(grown) by {
      forall i | 1 < i < |grown|
        ensures Adjacent(grown[i - 1], grown[i])
      {
        assert grown[i - 1] == s.snake[i - 2] && grown[i] == s.snake[i - 1];
      }
    }
    if h == s.food {
      assert r.snake == grown;
      QuotientStep(s.score);
    } else {
      assert r.snake == grown[..|grown| - 1];
      assert s.food !in r.snake;
    }
  }

  /**
   When the snake eats, the food-placement loop has a cell to find exactly
   when the grown snake still leaves part of the grid uncovered; otherwise
   the loop runs forever.
   */
  lemma EatingLeavesRoomIff(s: GameState)
    requires Inv(s) && Eats(s)
    ensures (exists c :: FreeCell(AddSegment(s.snake, ProposedHead(s)), c))
            <==> |s.snake| + 1 < GridSize * GridSize
  {
    var grown := AddSegment(s.snake, ProposedHead(s));
    assert Distinct(grown);
    FreeCellExistsIff(grown);
  }

  /** Every event keeps the invariant, given that food lands on a free cell. */
  lemma ApplyKeepsInv(s: GameState, e: Event)
    requires Inv(s)
    requires PickIsFree(s, e)
    ensures Inv(Apply(s, e))
  {
    match e
    case KeyDown(key, pick) =>
      HandleKeyKeepsInv(s, key, pick);
    case Frame(pick) =>
      MoveSnakeKeepsInv(s, pick);
    case RestartClick(pick) =>
      InitKeepsInv(pick);
  }

  /** Along any run that starts in a state satisfying the invariant, every state satisfies it. */
  lemma {:induction false} TraceKeepsInv(states: seq<GameState>, events: seq<Event>)
    requires Trace(states, events)
    requires Inv(states[0])
    ensures forall i :: 0 <= i < |states| ==> Inv(states[i])
  {
    if |events| > 0 {
      var n := |events|;
      var front, firstEvents := states[..n], events[..n - 1];
      assert Trace(front, firstEvents);
      TraceKeepsInv(front, firstEvents);
      assert Inv(states[n - 1]) by {
        assert front[n - 1] == states[n - 1];
      }
      ApplyKeepsInv(states[n - 1], events[n - 1]);
      forall i | 0 <= i < |states|
        ensures Inv(states[i])
      {
        if i < n {
          assert front[i] == states[i];
        }
      }
    }
  }

  /**
   Every state reached from start-up keeps the invariant; in particular the
   score is 10 for each segment beyond three and the speed level is the
   score divided by 50.
   */
  lemma ReachableStates(states: seq<GameState>, events: seq<Event>, pick: Cell)
    requires Trace(states, events)
    requires FreeCell(InitialSnake(), pick) && states[0] == Init(pick)
    ensures forall i :: 0 <= i < |states| ==>
      && Inv(states[i])
      && states[i].score == 10 * (|states[i].snake| - 3)
      && states[i].speedLevel == states[i].score / 50
  {
    InitKeepsInv(pick);
    TraceKeepsInv(states, events);
  }

  // ---------------------------------------------------------------------
  // What the reversal rule protects

  /**
   After a tick that moved the snake, the head lies one step along the
   committed direction from the segment behind it.
   */
  lemma TickLeavesHeadInFront(s: GameState, pick: Cell)
    requires Inv(s) && Running(s) && !Collides(s)
    ensures var r := MoveSnake(s, pick);
      |r.snake| >= 2 && r.snake[0] == Step(r.snake[1], r.dir)
  {}

  /**
   When the head lies one step along the committed direction from the
   segment behind it, the next tick cannot step back onto that segment,
   because the pending direction is never the opposite of the committed one.
   The start-up snake does not have this shape (its head faces the segment
   behind it), which is why its first tick can end the game.
   */
  lemma NeckIsNeverHit(s: GameState)
    requires Inv(s)
    requires s.snake[0] == Step(s.snake[1], s.dir)
    ensures ProposedHead(s) != s.snake[1]
  {}
}

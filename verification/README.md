# Snake game state machine in Dafny

This project models the game logic of a browser snake game (`game.js`). The
game is played on a 20 x 20 grid of integer cells. The snake is a list of
segments with the head first. Each tick it moves one cell in its committed
direction. Eating the food makes it one segment longer, adds 10 points, and
places new food on a random free cell. Every time the score reaches a
multiple of 50, the speed goes up. Hitting a wall or any segment ends the
game. Keys turn the snake, pause the game, and restart it once it is over. A
button restarts it at any time.

Modules:

- `Grid` (`grid.dfy`) defines cells and bounds. It also holds the occupancy
  test and the food-placement sampling loop (`SpawnFood`). Each random draw is
  `floor(u * 20)` with `u` in [0, 1), computed on exact reals.
- `Directions` (`directions.dfy`) holds the four directions, the key-to-direction
  table, and the reversal test. That test is written the way the key handler
  writes it, one component at a time.
- `Game` (`game.dfy`) holds the `GameState` record and the pure transitions
  `HandleKey`, `MoveSnake`, `Init` and `RestartButton`. It also holds lemmas
  about each of them.
- `GameInvariants` (`invariants.dfy`) defines the state invariant and runs of
  events. It proves that every reachable state keeps the invariant.

The model keeps only x and z. Every game comparison ignores the vertical
coordinate, and all coordinates are integers, so `Math.round` changes
nothing. A transition that places food takes a `pick` parameter: the cell the
sampling loop returned. The invariant proofs assume that this cell is free,
which is exactly what `Grid.SpawnFood` guarantees.

Behaviour the model keeps from the code:

- The self-collision test checks every current segment, including the tail,
  even when the move would free the tail's cell.
- The pending direction is committed at the start of the tick, before either
  collision test. A tick that ends the game still commits it.
- The initial segments are laid at x = 5, 4, 3, each one in front of the
  last. The head therefore starts at (3, 0), facing its own body along +x. If
  no key is pressed first, the first tick ends the game.
- The reversal test compares a request with the committed direction, not the
  pending one.

## Model

| member | source | states |
|---|---|---|
| Game.HandleKey | game.js:182-226 | Keys never move the snake, touch the food, score or speed level, or change the committed direction; only a restart (r while over) replaces the whole state, and only the pause key changes `paused`; any other key that is not a direction key changes nothing. Case by case: PauseKeyToggles, RestartKeyOnlyWhenOver, FrozenIgnoresKeys, ReversalRule, HandleKeyKeepsInv |
| Game.MoveSnake | game.js:229-280 | A tick never changes `paused` or the pending direction, commits the pending direction whenever the game runs, and raises the score by 0 or 10. Case by case: FrozenTickIsNoop, WallCollision, SelfCollision, SuccessfulTick, TickScoreStep, MoveSnakeKeepsInv |
| Game.Init | game.js:34-40 | no contract; the reset values are stated by InitialState and InitKeepsInv, the snake by InitialSnake |
| Game.AddSegment | game.js:125 | no contract; its prepend is stated by InitialSnake and SuccessfulTick |
| Game.EndGame | game.js:283-284 | no contract; its effect is stated by WallCollision and SelfCollision |
| Game.UpdateScore | game.js:291-292 | no contract; its effect is stated by SuccessfulTick and TickScoreStep |
| Directions.TurnKey | game.js:200-225 | no contract; the key table is used by ReversalRule and DirectionKeyIdempotent |
| GameInvariants.Apply | game.js:386-391 | no contract; dispatches keys, gated animation frames and restart clicks (game.js:409); stated by ApplyKeepsInv |
| Grid.Occupied | game.js:174-179 | A cell counts as occupied exactly when some segment equals it |
| Grid.Sample | game.js:138-140 | A random coordinate lies in [0, 20) and is the floor of the exact real product `u * 20`, for `u` in [0, 1) |
| Grid.Draw | game.js:137-141 | A sampled food position always lies inside the grid |
| Grid.SpawnFood | game.js:134-142 | The loop returns the first drawn cell that is off the snake, and that cell is inside the grid; every earlier draw hit the snake; `None` means every available draw hit the snake |
| Grid.FreeCellExistsIff | game.js:134-142 | A snake of distinct in-bounds segments never has more than 400 segments, and the sampling loop has a free cell to find exactly when the snake has fewer than 400 |
| Directions.Accepts | game.js:200-225 | The per-key component test refuses a request exactly when it is the opposite of the committed direction |
| Game.InitialSnake | game.js:74-78 | Laying segments at x = 5, 4, 3, each in front of the last, gives the head-first snake [(3,0), (4,0), (5,0)] |
| Game.RestartButton | game.js:304-313 | A restart in any state gives the fresh snake, the new food, score 0, speed level 0, direction +x committed and pending, and a game that is neither paused nor over |
| Game.InitialState | game.js:34-40 | Start-up gives the fresh snake, score 0, speed level 0, direction +x committed and pending, and a running game |
| Game.PauseKeyToggles | game.js:184-189 | "p" or space flips `paused` in every state, including game over, and changes nothing else |
| Game.RestartKeyOnlyWhenOver | game.js:191-195 | "r" resets the game when it is over and changes nothing otherwise |
| Game.FrozenIgnoresKeys | game.js:197-198 | While over or paused, every key except pause (and restart once over) leaves the state unchanged |
| Game.ReversalRule | game.js:200-225 | While running, a direction key sets the pending direction unless it reverses the committed one; only the pending direction changes |
| Game.DirectionKeyIdempotent | game.js:200-225 | Pressing the same direction key twice has the same effect as pressing it once |
| Game.FrozenTickIsNoop | game.js:230 | A tick while over or paused changes nothing |
| Game.WallCollision | game.js:243-250 | A proposed head outside [0, 20) in x or z ends the game; snake, food, score and speed level are unchanged and the pending direction is committed |
| Game.SelfCollision | game.js:252-256 | A proposed head on any current segment, tail included, ends the game when the snake is longer than one segment; snake, food, score and speed level are unchanged |
| Game.SuccessfulTick | game.js:258-279 | A tick without collision puts the new head in front. It drops the tail unless the head lands on the food. On eating, the snake grows by one, the score rises by 10, the food moves to the new cell, and the speed level rises when the new score is a multiple of 50 |
| Game.TickScoreStep | game.js:266-274 | A tick either leaves score and speed level unchanged, or adds exactly 10 points and one segment, with the speed level rising only at multiples of 50 |
| Game.FirstTickWithoutInputEndsGame | game.js:236-256 | From start-up with no key pressed, the first tick steps onto (4, 0) and ends the game, leaving the snake and score unchanged |
| Game.TurnBeforeFirstTick | game.js:232-241 | Direction requests are buffered: "s" only sets the pending direction, and the next tick commits it and moves the head to (3, 1) |
| GameInvariants.InitKeepsInv | game.js:73-82 | The start-up state satisfies the invariant when the food is on a free cell |
| GameInvariants.HandleKeyKeepsInv | game.js:182-226 | Every key press keeps the invariant |
| GameInvariants.MoveSnakeKeepsInv | game.js:229-280 | Every tick keeps the invariant: bounds, distinct and connected segments, food off the snake, no pending reversal, score 10 per extra segment, speed level equal to score / 50 |
| GameInvariants.EatingLeavesRoomIff | game.js:259-267 | When the snake eats, a free cell for the new food exists exactly when the grown snake has fewer than 400 segments |
| GameInvariants.ApplyKeepsInv | game.js:383-410 | Every event (key, animation tick, restart click) keeps the invariant |
| GameInvariants.TraceKeepsInv | game.js:18-26 | Along any run that starts in a state satisfying the invariant, every state satisfies it |
| GameInvariants.ReachableStates | game.js:266-274 | In every state reachable from start-up, score = 10 * (length - 3) and speed level = score / 50 |
| GameInvariants.TickLeavesHeadInFront | game.js:233-241 | After a tick that moves the snake, the head is one step along the committed direction from the segment behind it |
| GameInvariants.NeckIsNeverHit | game.js:200-225 | When the head is one step ahead of the segment behind it, the next tick cannot step back onto that segment |

## Left out

- Grid.Sample: `Math.random()` values and the product `u * 20` are taken as exact reals, so the rounding of the double-precision product is not modelled. For example, the double written 0.15 lies just below 3/20. Its exact product with 20 therefore floors to 2, while the rounded double product floors to 3. The range [0, 20) holds either way.
- Scene, camera, lights, meshes, grid and apple geometry (game.js:45-68, 100-124, 144-169) are calls into the 3D library and carry no game logic.
- DOM updates are user-interface output and are not modelled. These are the score text, the game-over and pause panels, the instructions overlay with its timer and hover handlers, and the resize handler.
- The animation loop's timing gate uses floating point (`time - lastMoveTime > 150 / speedMultiplier`). It is modelled only as the abstract `Frame` event, a frame whose gate let a tick through. The clock `lastMoveTime` is not modelled.
- The speed multiplier is a float that grows by 0.1 per level. The model keeps only the integer `speedLevel` (multiplier = 1 + speedLevel / 10), so floating-point rounding in the accumulated multiplier is not modelled.
- The apple's bobbing and rotation are floating-point animation.
- A restart starts a second animation-frame chain. Listener registration and teardown are also left out. Neither changes the logical state.
- The `try`/`catch` around start-up is left out, and so is the exception `moveSnake` would raise on an empty snake. `MoveSnake` requires a non-empty snake while running, and the invariant guarantees one.
- Grid.SpawnFood: `Math.random` is replaced by a finite list of draws. `None` means the loop has not finished with those draws. The model does not reason about probability, so it does not show that the loop finishes when a free cell exists. `Grid.FreeCellExistsIff` shows when such a cell exists; on a full grid the source loops forever.
- GameInvariants.TraceKeepsInv: the food cell of each event is taken to be free of the snake it is placed beside. `Grid.SpawnFood` establishes this for the loop, but the run model takes it as a hypothesis and does not call the loop.

# Snake game engine — a verified model

This project models the game engine of a classic Snake game (`game.cs`): the simulation of a
snake on a bounded integer grid, kept apart from its WinForms view. There are three parts.

- **Snake** (`Snakes` module, `Snake.dfy`). An ordered body of grid cells, head first, and a
  heading. `Move` shifts every follower into its predecessor's cell with a reverse loop and
  then steps the head. `Grow` appends a copy of the tail. `CheckSelfCollision` scans the
  followers for the head's cell.
- **Food** (`Foods` module, `Food.dfy`). One cell. `Generate` places it inside
  `[2, maxWidth) x [2, maxHeight)` and off the snake.
- **GameEngine** (`Engine` module, `Engine.dfy`). A two-state machine, `Playing` and
  `GameOver`.
  - The constructor derives the grid bounds from the surface size in pixels.
  - `StartGame` resets the game.
  - `KeyDown` buffers direction keys.
  - `Update` is one tick: resolve the heading, clear the keys, move, then check the walls,
    the body and the food.
  - `EatFood` scores, grows, re-places the food and shortens the tick interval.
  - `SetGameOver` ends the game and raises the high score only when it is strictly beaten.

Cells, headings and the fixed settings (16x16-pixel cells; speeds 150, 5 and 40 ms) are in
the `Pieces` module (`Pieces.dfy`).

The engine keeps an invariant, `GameEngine.Valid`, which every operation preserves. It says:

- The snake and the food exist together, or neither does (before the first game).
- The snake's body is connected: every segment is on, or next to, the segment in front of it.
- The segment behind the head lies one step back against the heading.
- The tick interval equals the speed schedule applied to the score.
- The high score is the running best of the final scores of the games played so far. These
  scores are kept as a ghost history.
- Once a game has started, the food lies in its spawn area and off the snake, also after the
  game has ended.
- While a game is running, the head is on no follower.

## Model

| member | source | states |
|---|---|---|
| Pieces.Step | game.cs:96-103 | A move changes the head by exactly one cell: Left and Right change only x, Up and Down change only y |
| Pieces.StepInverse | game.cs:96-103 | Stepping back the opposite way returns to the start cell, and two different headings lead to two different cells |
| Pieces.Opposite | game.cs:235-238 | The reverse of a heading is never the heading itself |
| Pieces.OppositeInvolution | game.cs:235-238 | Reversing a heading twice gives it back |
| Snakes.Snake.constructor | game.cs:71-84 | A new snake has the six-segment starting body and heads Right |
| Snakes.InitialBodySound | game.cs:71-84 | The starting body is exactly (10,5), (9,5), (8,5), (7,5), (6,5), (5,5). It is connected and does not collide with itself, and its neck lies behind a right-moving head |
| Snakes.Snake.Move | game.cs:86-104 | The reverse shifting loop leaves the body equal to `Moved(old body, heading)` and keeps the heading and the snake invariant |
| Snakes.MovedShifts | game.cs:86-104 | A move keeps the length. Segment i >= 1 takes the old segment i-1, and the head advances one step in the heading |
| Snakes.MovedConnected | game.cs:86-104 | A move keeps the body connected |
| Snakes.MovedNeck | game.cs:86-104 | After a move, the segment behind the head is the old head, one step back against the heading |
| Snakes.MovedCells | game.cs:86-104 | After a move, every occupied cell is the new head's or a cell the body held before the move, excluding the old tail |
| Snakes.Snake.Grow | game.cs:106-111 | Growing leaves the body equal to `Grown(old body)` and keeps the heading and the snake invariant |
| Snakes.GrownShape | game.cs:106-111 | Growing adds exactly one segment, on the tail's cell, and leaves every earlier segment unchanged |
| Snakes.GrownConnected | game.cs:106-111 | Growing keeps the body connected |
| Snakes.GrownCollides | game.cs:106-124 | On a body of two or more segments, growing creates a self-collision exactly when the body already had one |
| Snakes.Snake.CheckSelfCollision | game.cs:113-124 | Returns true if and only if some segment i with 1 <= i < length is on the head's cell |
| Snakes.ReversalCollides | game.cs:86-124 | Moving the head onto the neck's cell always produces a self-collision, for three or more segments |
| Foods.Food.constructor | game.cs:149-152 | New food sits at (0,0) |
| Foods.Food.Generate | game.cs:154-174 | The accepted cell lies in `[2, maxWidth) x [2, maxHeight)` and on no segment of the given body, provided such a cell exists |
| Foods.FreeCellExists | game.cs:154-174 | If the spawn area is non-empty and the body has fewer segments than it has cells, a free cell exists, so the retry loop has a cell to accept |
| Engine.TruncDiv | game.cs:206-207 | The quotient is truncated toward zero, as C# integer division is, for either sign of the dividend |
| Engine.CellInsideSurface | game.cs:206-207 | On a surface of non-negative size, a non-negative coordinate is within the grid bound exactly when its whole cell fits on the surface |
| Engine.GameEngine.constructor | game.cs:204-209 | Grid bounds are `w / 16 - 1` and `h / 16 - 1` with truncating division. The engine starts in GameOver with zero score, high score and speed, no snake and no keys pending |
| Engine.GameEngine.StartGame | game.cs:211-222 | Starts Playing with score 0, speed 150, no keys pending, a fresh six-segment snake heading Right and food off it. The high score is kept |
| Engine.ResolveHeadingAsWritten | game.cs:235-238 | The source's resolution, each key checked against the heading as changed by the keys before it. The result is the start heading or a pending direction. It reverses the start heading exactly when the heading is Up, Down and a sideways key are pending and Up is not; or when the heading is Down and Up and a sideways key are pending. From Left or Right it never reverses |
| Engine.ResolveHeading | game.cs:235-238 | The corrected resolution: never the reverse of the tick-start heading, and equal to the source's rule applied after discarding the one pending key that reverses the tick-start heading |
| Engine.CorrectionOnlyRemovesReversal | game.cs:235-238 | Wherever the source's result is not a reversal, the corrected resolution gives the same heading |
| Engine.ResolutionsAgreeOnOneKey | game.cs:235-238 | With at most one key pending, the resolution as written and the corrected one agree |
| Engine.AsWrittenReverses | game.cs:235-238 | As written, heading Up with Left and Down pending resolves to Down, the reverse. The corrected resolution gives Left |
| Engine.AsWrittenReversalCollides | game.cs:234-259 | As written, that reversal moves the head onto the neck, so a snake of three or more segments collides with itself |
| Engine.HeadAvoidsNeck | game.cs:234-259 | With the corrected resolution, the head never moves onto the neck's cell |
| Engine.FoodAfterMove | game.cs:244-265 | Food off the snake stays off it after a move exactly when the head does not land on it, and a move that ends the game (wall or body) never lands the head on the food, so the food stays off the snake after a crash too |
| Engine.GameEngine.Update | game.cs:227-266 | Outside Playing, nothing changes. While Playing: the heading becomes the resolved one and is never the reverse of the previous heading, and all keys are cleared. A head outside `[0, maxWidth] x [0, maxHeight]` or on a follower ends the game with the score unchanged and the high score raised only when strictly beaten. Otherwise a head on the food grows the snake by one, adds one point, re-places the food off the new body and applies the speed step, and any other tick only moves the snake. The invariant `Valid` is kept |
| Engine.GameEngine.EatFood | game.cs:268-279 | Adds exactly one point, grows the body by exactly one segment, places the food off the new body, and shortens the tick interval by 5 ms only while it is above 40 |
| Engine.GameEngine.SetGameOver | game.cs:281-288 | Ends the game. The high score becomes the score only when the score is strictly greater, and the final score is recorded |
| Engine.GameEngine.KeyDown | game.cs:293-301 | An arrow key sets its own pending flag and leaves the other three. Any other key changes nothing |
| Engine.SpeedSchedule | game.cs:274-278 | The speed schedule starts at 150. Each food applies the 5 ms step with its floor of 40, and the speed stays within [40, 150] |
| Engine.SpeedStaysInRange | game.cs:211-279 | While a game exists, the tick interval stays within [40, 150] |
| Engine.HighScoreAfterAppend | game.cs:281-288 | Ending one more game raises the running high score to the final score exactly when the final score beats it |
| Engine.HighScoreIsBest | game.cs:281-288 | The running high score is at least every final score, and is one of them unless it is 0 |
| Engine.HighScoreIsBestOfGames | game.cs:281-288 | The engine's high score is always the best final score of the games played so far |
| Engine.RoomToGrow | game.cs:262-272 | If the snake is shorter than the spawn area by more than one segment, the next tick's food placement always has a free cell |

## Left out

- The `Draw` methods of the snake, the food and the engine (game.cs:126-138, 176-182,
  306-333) are not modelled. They render through `System.Drawing`.
- The form class (game.cs:339-447) is not modelled: timer, buttons, labels and the snapshot
  dialog are window-system I/O.
- `Foods.Food.Generate`: the random draws of `System.Random` and the retry loop are modelled
  as a nondeterministic choice among the cells the loop accepts. The model requires that such
  a cell exists, because otherwise the source loops forever. It does not model the loop's
  termination, nor the distribution of the draws.
- `Foods.Food.Generate`: when `maxWidth` or `maxHeight` is 2 or less, .NET's
  `Random.Next(2, n)` returns 2 or throws. The model has no free cell there, so it does not
  cover those surfaces.
- `Engine.GameEngine.Update` requires `FoodReplaceable`: if this tick eats the food, there
  must be a free cell for the grown snake. The source would loop forever in `Generate`
  otherwise. `Engine.RoomToGrow` gives a simple size condition that implies it.
- `Engine.GameEngine.StartGame` requires a free cell off the starting body, for the same
  reason.
- Engine.ResolveHeading: departs from game.cs:235-238 only where the source turns the snake
  onto its own neck. There it also refuses the key that reverses the tick-start heading, so
  the result is the source's rule without that key. Everywhere else it gives the source's
  result (`Engine.CorrectionOnlyRemovesReversal`). See Findings.
- Engine.GameEngine.Update: uses `Engine.ResolveHeading`, the corrected heading resolution,
  not the one as written.
- The WinForms `Keys` enumeration is replaced by the `Key` datatype: the four arrow keys and
  `OtherKey`, which has no effect.
- The four pending-direction flags are held in one record field, `pending`, of type
  `PendingKeys`. The flags themselves are the same four booleans.
- Grid cells are objects in the source, and `Move` and `Generate` change their coordinates in
  place. No cell is ever shared between two owners, so the model treats cells as values.
- The public read-only properties `CurrentState`, `Score`, `HighScore` and `CurrentSpeed`
  are plain fields. The grid bounds, which are never reassigned after construction, are
  constants.
- Integers are unbounded. The source's 32-bit `int` cannot overflow in practice: the score
  is at most the number of grid cells.

## Findings

| source | as written | input that shows it | evidently intended | confidence | as-written member | corrected member |
|---|---|---|---|---|---|---|
| game.cs:235-238 | Each pending key is refused only if it reverses the heading as already changed by the keys checked before it in the same tick | Heading Up, with Left and Down both pressed before one tick: Left is accepted, then Down is checked against Left and accepted. The snake reverses onto its own neck and the game ends | A key is also refused if it reverses the heading the snake last moved in, so no key sequence can turn the snake into itself within a tick; every other input resolves as before | not executed | Engine.AsWrittenReversalCollides | Engine.HeadAvoidsNeck |

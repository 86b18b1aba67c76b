# Snake game state machine in Dafny

This project models the game logic of a browser Snake game (`js/snake.js`).
The game has four parts:

- **The grid.** A column-major store of cells. Each cell is empty, part of the snake, or the fruit.
- **The snake.** A queue of body segments with the head first. It also keeps a cached head position `last`, a heading, and a pause flag. A latch on the spacebar turns a held key into a single toggle.
- **Food placement.** This scans the board column by column, each column top to bottom. It collects the empty cells and puts the fruit on a randomly chosen one.
- **The per-frame `update`.** It reads the pause key and stops if paused. Otherwise it counts the frame and re-reads the heading. On every fifth counted frame it moves the snake:
  - it resets the game on a wall or body hit;
  - it grows the snake onto the fruit;
  - otherwise it slides the snake one cell.

Modules:

- `Grids` (`Grids.dfy`): cells, positions, the grid with `Init`, `Get` and `Set`.
- `Snakes` (`Snakes.dfy`): the snake record and its `Init`, `Insert`, `Remove`, `ActuatePause` and `CheckPauseKey`. It also holds a run of spacebar samples fed through the latch.
- `Food` (`Food.dfy`): the empty-cell list in scan order, the scan loop `CollectEmpty`, and `SetFood`.
- `Game` (`Game.dfy`):
  - the game state, the key states and the heading rule;
  - the well-formedness invariant `Wf` that ties the board to the snake;
  - the reset `Init`, the move (`Advance`, with `Slide` and `Grow`) and the frame `Update`;
  - `Start` and `Run` for a whole game.
- `GameProperties` (`GameProperties.dfy`): what a single `Update` does in each of its cases.

`Wf` says the following:

- the grid is well shaped and has room for a snake cell and a fruit cell;
- the queue is non-empty, and `last` is its first element;
- the length is the score plus one;
- the segments are on the board, pairwise distinct and side by side;
- the board's snake cells are exactly the segments;
- exactly one cell holds the fruit.

`Init` establishes `Wf`, and `Update` preserves it on every frame that completes.

## Model

| member | source | states |
|---|---|---|
| Grids.Init | js/snake.js:33-46 | a `col` by `row` store in which every cell holds the given value |
| Grids.Set | js/snake.js:49-51 | the written cell reads back the value; every other cell and the size are unchanged |
| Grids.GetAfterSet | js/snake.js:49-55 | read-over-write: reading after a write gives the written value at that cell and the old value elsewhere |
| Snakes.Init | js/snake.js:71-77 | a one-segment snake at (x, y): `last` is that cell, it has the given heading, it is paused and the latch is released |
| Snakes.Insert | js/snake.js:81-85 | the new cell goes in front of the old queue, which is otherwise unchanged; `last` is the new head; heading and pause fields are kept |
| Snakes.Remove | js/snake.js:88-90 | the shortened queue followed by the returned cell is the old queue; `last` is not updated |
| Snakes.ActuatePause | js/snake.js:93-95 | the pause flag flips and nothing else changes |
| Snakes.ActuatePauseTwice | js/snake.js:93-95 | toggling twice restores the snake |
| Snakes.CheckPauseKey | js/snake.js:101-106 | the flag flips exactly when the spacebar is down now and was up on the previous call; the latch takes the current sample; nothing else changes |
| Snakes.RemoveThenInsert | js/snake.js:81-90 | removing the tail and then inserting a head keeps the length and shifts the body by one |
| Snakes.FeedTogglesOncePerRisingEdge | js/snake.js:97-106 | over any run of samples, the pause flag has flipped once per rising edge and the latch holds the last sample |
| Snakes.HeldKeyTogglesAtMostOnce | js/snake.js:97-106 | holding the spacebar for any number of frames toggles pause at most once |
| Snakes.ReleasedKeyNeverToggles | js/snake.js:101-106 | with the spacebar up, pause never changes |
| Food.ColumnEmpties | js/snake.js:116-121 | holds exactly the empty cells of column x above row n |
| Food.EmptiesBefore | js/snake.js:115-122 | holds exactly the empty cells of the first n columns |
| Food.Empties | js/snake.js:112-122 | holds exactly the empty cells of the board |
| Food.ColumnEmptiesAscend | js/snake.js:116-121 | one column's empty cells are listed top to bottom |
| Food.EmptiesBeforeAscend | js/snake.js:115-122 | columns are listed left to right, in scan order |
| Food.EmptiesAreDistinct | js/snake.js:113-122 | the empty-cell list is in scan order and lists no cell twice |
| Food.CollectEmpty | js/snake.js:113-122 | the nested scan loop produces exactly the scan-order list `Empties` |
| Food.SetFood | js/snake.js:124-125 | the chosen entry was an empty cell and now holds the fruit; every other cell is unchanged |
| Food.SetFoodReachesEveryEmptyCell | js/snake.js:124-125 | every empty cell is chosen by some draw, and distinct draws choose distinct cells |
| Game.Neighbour | js/snake.js:238-252 | the stepped-to cell is side by side with the old one: one column left or right for a horizontal heading, one row up or down (y grows downwards) for a vertical one |
| Game.StepBack | js/snake.js:238-252 | a step followed by a step the opposite way returns to the starting cell |
| Game.NextHead | js/snake.js:235-252 | the candidate head is side by side with the current head `last`, one step in the snake's heading: left and up decrease x and y, right and down increase them |
| Game.ResolveHeading | js/snake.js:218-228 | the highest-priority key (left, up, right, down) that is down and would not reverse the snake wins; otherwise the heading stays; the result is never a reversal |
| Game.FreshBoardIsWf | js/snake.js:178-190 | a board whose only snake cell is the one-segment snake becomes well formed once a fruit is placed |
| Game.Init | js/snake.js:178-193 | the reset is well formed; the snake is one segment in the middle, heading left and paused; the score is zero; the frame counter is kept; the middle is the only snake cell |
| Game.Slide | js/snake.js:269-277 | a move onto an empty cell: new head in front, the tail dropped and its cell emptied, the new head's cell marked as snake, every other cell unchanged; score, heading, pause flag and latch kept |
| Game.SlideKeepsSnakeCells | js/snake.js:269-277 | after a slide, the snake cells are exactly the slid body |
| Game.SlideKeepsFruit | js/snake.js:269-277 | clearing the tail's snake cell and writing the head on an empty cell leaves the fruit on the same cell, and it stays the only fruit |
| Game.SlidePreservesWf | js/snake.js:269-277 | a slide keeps the invariant |
| Game.Grow | js/snake.js:266-277 | a move onto the fruit: new head in front, the whole old body kept, score plus one; the next fruit lands on the empty cell chosen by the draw, the head's cell becomes snake, every other cell is unchanged; heading, pause flag and latch kept |
| Game.GrowKeepsSnakeCells | js/snake.js:266-277 | after eating, the snake cells are exactly the grown body |
| Game.GrowKeepsFruit | js/snake.js:266-277 | after eating, the freshly placed fruit is the only fruit |
| Game.GrowPreservesWf | js/snake.js:266-277 | eating keeps the invariant |
| Game.NewHeadKeepsBodyShape | js/snake.js:276-277 | a new adjacent head that is off the body keeps the body on the board, distinct and connected |
| Game.CollidesMeansOffBoardOrBody | js/snake.js:256-258 | on a well-formed state the collision test holds exactly when the new head is off the board or on one of the body's segments (the tail included) |
| Game.Advance | js/snake.js:235-277 | a move keeps the invariant, the board size and the frame counter; it fails exactly when the snake eats the fruit and no empty cell is left for the next one |
| Game.Ticked | js/snake.js:211-228 | an unpaused frame before the move: counter plus one, heading from the keys' priority rule applied to the old heading, latch set to the spacebar sample, pause flag flipped on a rising edge; board, body, head and score untouched |
| Game.TickedIsWf | js/snake.js:217-228 | counting the frame and steering keep the invariant |
| Game.Update | js/snake.js:208-280 | every completed frame keeps the invariant and the board size; the frame counter grows by one exactly on unpaused frames |
| Game.Start | js/snake.js:168-171 | the first state is a well-formed 26 by 26 game at frame zero with score zero |
| Game.Run | js/snake.js:196-204 | repeated frames keep the invariant and the board size, and count at most one frame per input |
| GameProperties.PausedFrameChangesNothing | js/snake.js:211-215 | after a paused frame the game is still paused (a rising edge may just have set the flag) and the latch holds the sample; board, body, heading, counter and score stay |
| GameProperties.SteeringFrame | js/snake.js:211-231 | a non-move unpaused frame is exactly: counter plus one, heading from the keys, latch set to the spacebar sample; board, body and score untouched |
| GameProperties.LossResets | js/snake.js:256-261 | a collision on a move frame resets to a fresh game of the same size, carrying the incremented frame counter |
| GameProperties.TailCellCollides | js/snake.js:256-260 | the tail has not moved when the test runs, so heading into the tail's cell is a collision |
| GameProperties.EatingGrows | js/snake.js:208-277 | eating adds one point and one segment; the new head is in front and the old body follows unchanged; the next fruit lands on the empty cell the draw selects; the game is unpaused, heading from the keys, latch set to the spacebar sample |
| GameProperties.SlidingKeepsLength | js/snake.js:208-277 | a move onto an empty cell keeps score and length, puts the new head in front and empties the old tail's cell; the game is unpaused, heading from the keys, latch set to the spacebar sample |
| GameProperties.SlidingKeepsFruit | js/snake.js:269-277 | a move onto an empty cell leaves the fruit on its cell, and it is still the only fruit |
| GameProperties.InitFruitCanLandAnywhere | js/snake.js:178-190 | the first fruit can be placed on any cell except the middle |
| GameProperties.OpeningMove | js/snake.js:208-277 | from a paused one-segment snake heading left, the spacebar on a move frame unpauses; the head steps left, and the snake either slides (score 0, old cell emptied) or eats (score 1, two segments) |
| GameProperties.FirstMoveGoesLeft | js/snake.js:178-277 | the same for a fresh game of at least 2 by 2, stepping left from the middle |
| GameProperties.RunStaysFullSize | js/snake.js:168-204 | every state a game reaches from the start is 26 by 26 |

## Left out

- Drawing, the canvas, the key event listeners and the key codes are not modelled. The `keystate` map becomes the `Keys` record: five booleans, where a key never reported is up (`undefined` is falsy in the source).
- The animation loop is modelled as `Run`, which applies `Update` once per input. The browser's scheduling is not modelled.
- `Math.random` is replaced by a draw `pick: nat`, which `Init` and `Advance` reduce modulo the number of empty cells. Every index can be drawn, but the distribution is not modelled.
- The frame counter and the score are unbounded naturals. In the source they are JavaScript numbers, which stop counting exactly at 2^53; no game gets there.
- Grids.Get: reads off the board are excluded by a precondition. The game never makes such a read: the collision test checks the bounds first.
- Grids.Set: writes off the board are excluded by a precondition for the same reason.
- Snakes.Remove: requires a non-empty queue. `pop` on an empty array returns `undefined`, but the game never removes from an empty snake.
- Food.SetFood: requires an empty cell to exist. In the source, `setFood` on a board without one reads a field of `undefined` and throws.
  - `Update` models that throw as the outcome `NoEmptyCell`. It can only happen when the snake eats the last free cell.
  - A reset on a full-size board always has room.
- Game.Advance: the reset after a loss rebuilds a board of the current size; the source writes `COLS` by `ROWS`. `RunStaysFullSize` proves that every board a game reaches is `COLS` by `ROWS`, so the two agree.
- Two behaviours of the code are kept as written:
  - When the snake eats the last free cell, `setFood` throws and the game stops; `Update` returns `NoEmptyCell`. The board is never left without a fruit.
  - A one-segment snake has its only segment removed on a slide, and the new head is inserted straight after.

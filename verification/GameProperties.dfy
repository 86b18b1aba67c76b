/** What one call of `Update` does to a well-formed game: the invariant is
    kept, a paused frame changes nothing, a loss resets, and a legal move
    grows or slides the snake. */
module GameProperties {
  import opened Grids
  import Snakes
  import Food
  import opened Game

  /** An unpaused move frame is the tick followed by a move. */
  lemma MoveFrameAdvances(st: GameState, keys: Keys, pick: nat)
    requires Wf(st)
    requires !Snakes.CheckPauseKey(st.snake, keys.space).pauseState
    requires (st.frames + 1) % MoveEvery == 0
    ensures Update(st, keys, pick) == Advance(Ticked(st, keys), pick)
  {
  }

  /** An unpaused frame that is not a move frame is the tick alone. */
  lemma OtherFrameTicks(st: GameState, keys: Keys, pick: nat)
    requires Wf(st)
    requires !Snakes.CheckPauseKey(st.snake, keys.space).pauseState
    requires (st.frames + 1) % MoveEvery != 0
    ensures Update(st, keys, pick) == Next(Ticked(st, keys))
  {
  }

  /** A paused frame only moves the pause latch: the game stays paused, and
      board, body, heading, frame counter and score stay as they were. */
  lemma PausedFrameChangesNothing(st: GameState, keys: Keys, pick: nat)
    requires Wf(st)
    requires Snakes.CheckPauseKey(st.snake, keys.space).pauseState
    ensures var r := Update(st, keys, pick);
      && r.Next?
      && r.state.grid == st.grid
      && r.state.snake.queue == st.snake.queue
      && r.state.snake.last == st.snake.last
      && r.state.snake.direction == st.snake.direction
      && r.state.frames == st.frames
      && r.state.score == st.score
      && r.state.snake.pauseState
      && r.state.snake.pauseKeyDown == keys.space
  {
  }

  /** An unpaused frame that is not a move frame counts the frame, takes
      the heading from the keys and the spacebar sample into the latch, and
      touches nothing else. */
  lemma SteeringFrame(st: GameState, keys: Keys, pick: nat)
    requires Wf(st)
    requires !Snakes.CheckPauseKey(st.snake, keys.space).pauseState
    requires (st.frames + 1) % MoveEvery != 0
    ensures Update(st, keys, pick) == Next(st.(
      snake := st.snake.(direction := ResolveHeading(st.snake.direction, keys),
                         pauseState := false, pauseKeyDown := keys.space),
      frames := st.frames + 1))
  {
    OtherFrameTicks(st, keys, pick);
  }

  /** Leaving the board or hitting a body cell resets the game to a fresh
      board of the same size; the frame counter keeps counting. */
  lemma LossResets(st: GameState, keys: Keys, pick: nat)
    requires Wf(st)
    requires !Snakes.CheckPauseKey(st.snake, keys.space).pauseState
    requires (st.frames + 1) % MoveEvery == 0
    requires Collides(st.grid, NextHead(Ticked(st, keys).snake))
    ensures Update(st, keys, pick) == Next(Game.Init(st.grid.width, st.grid.height, st.frames + 1, pick))
  {
    TickedIsWf(st, keys);
    MoveFrameAdvances(st, keys, pick);
  }

  /** The tail has not moved when the collision test runs, so heading into
      the tail's cell is a collision. */
  lemma TailCellCollides(st: GameState)
    requires Wf(st)
    requires NextHead(st.snake) == st.snake.queue[|st.snake.queue| - 1]
    ensures Collides(st.grid, NextHead(st.snake))
  {
    var q := st.snake.queue;
    var t := q[|q| - 1];
    assert InBounds(st.grid, t.x, t.y);
    assert t in q;
  }

  /** A move onto the fruit: one point and one segment more, the new head in
      front, the rest of the body unchanged. */
  lemma EatingGrows(st: GameState, keys: Keys, pick: nat)
    requires Wf(st)
    requires !Snakes.CheckPauseKey(st.snake, keys.space).pauseState
    requires (st.frames + 1) % MoveEvery == 0
    requires var n := NextHead(Ticked(st, keys).snake);
      InBounds(st.grid, n.x, n.y) && Get(st.grid, n.x, n.y) == Fruit
    requires |Food.Empties(st.grid)| > 0
    ensures var r := Update(st, keys, pick); var n := NextHead(Ticked(st, keys).snake);
      && r.Next?
      && r.state.score == st.score + 1
      && |r.state.snake.queue| == |st.snake.queue| + 1
      && r.state.snake.queue[0] == n
      && r.state.snake.queue[1..] == st.snake.queue
      && Get(r.state.grid, n.x, n.y) == Snake
      && Wf(r.state)
    ensures var r := Update(st, keys, pick);
      && r.Next?
      && r.state.snake.direction == ResolveHeading(st.snake.direction, keys)
      && !r.state.snake.pauseState
      && r.state.snake.pauseKeyDown == keys.space
    ensures var r := Update(st, keys, pick); var e := Food.Empties(st.grid); var p := e[pick % |e|];
      && InBounds(st.grid, p.x, p.y) && Get(st.grid, p.x, p.y) == Empty
      && r.Next? && Get(r.state.grid, p.x, p.y) == Fruit
  {
    var r := Update(st, keys, pick);
    var n := NextHead(Ticked(st, keys).snake);
    assert InBounds(r.state.grid, n.x, n.y);
    assert n in r.state.snake.queue;
  }

  /** A move onto an empty cell: score and length unchanged, the new head in
      front, and the old tail's cell emptied. */
  lemma SlidingKeepsLength(st: GameState, keys: Keys, pick: nat)
    requires Wf(st)
    requires !Snakes.CheckPauseKey(st.snake, keys.space).pauseState
    requires (st.frames + 1) % MoveEvery == 0
    requires var n := NextHead(Ticked(st, keys).snake);
      InBounds(st.grid, n.x, n.y) && Get(st.grid, n.x, n.y) == Empty
    ensures var r := Update(st, keys, pick); var n := NextHead(Ticked(st, keys).snake);
      var q := st.snake.queue; var t := q[|q| - 1];
      && r.Next?
      && r.state.score == st.score
      && |r.state.snake.queue| == |q|
      && r.state.snake.queue[0] == n
      && r.state.snake.queue[1..] == q[..|q| - 1]
      && InBounds(r.state.grid, t.x, t.y) && Get(r.state.grid, t.x, t.y) == Empty
      && Get(r.state.grid, n.x, n.y) == Snake
      && Wf(r.state)
    ensures var r := Update(st, keys, pick);
      && r.Next?
      && r.state.snake.direction == ResolveHeading(st.snake.direction, keys)
      && !r.state.snake.pauseState
      && r.state.snake.pauseKeyDown == keys.space
  {
    var r := Update(st, keys, pick);
    var n := NextHead(Ticked(st, keys).snake);
    assert InBounds(r.state.grid, n.x, n.y);
    assert n in r.state.snake.queue;
  }

  /** A move onto an empty cell leaves the fruit where it was, and it is
      still the only fruit. */
  lemma SlidingKeepsFruit(st: GameState, keys: Keys, pick: nat, fx: int, fy: int)
    requires Wf(st) && OnlyFruitAt(st.grid, fx, fy)
    requires !Snakes.CheckPauseKey(st.snake, keys.space).pauseState
    requires (st.frames + 1) % MoveEvery == 0
    requires var n := NextHead(Ticked(st, keys).snake);
      InBounds(st.grid, n.x, n.y) && Get(st.grid, n.x, n.y) == Empty
    ensures var r := Update(st, keys, pick); r.Next? && OnlyFruitAt(r.state.grid, fx, fy)
  {
    var ticked := Ticked(st, keys);
    TickedIsWf(st, keys);
    var r := Slide(ticked);
    assert Update(st, keys, pick) == Next(r);
    var q := st.snake.queue;
    var t := q[|q| - 1];
    assert t in q;
    var n := NextHead(ticked.snake);
    forall i, j | InBounds(r.grid, i, j) && Get(r.grid, i, j) == Fruit
      ensures i == fx && j == fy
    {
      assert Get(st.grid, i, j) == Fruit;
    }
  }

  lemma SmallRemainder(k: nat, n: nat)
    requires k < n
    ensures k % n == k
  {
  }

  /** The first fruit of a game can land on any cell but the middle one:
      for each such cell some draw puts it there. */
  lemma InitFruitCanLandAnywhere(col: nat, row: nat, frames: nat, x: int, y: int)
    requires Roomy(col, row)
    requires 0 <= x < col && 0 <= y < row && Pos(x, y) != Middle(col, row)
    ensures exists pick: nat :: Get(Game.Init(col, row, frames, pick).grid, x, y) == Fruit
  {
    var g := FreshBoard(col, row);
    var e := Food.Empties(g);
    Food.SetFoodReachesEveryEmptyCell(g, x, y);
    var k: nat :| k < |e| && e[k] == Pos(x, y);
    SmallRemainder(k, |e|);
    var fed := Food.SetFood(g, k);
    assert Get(fed, x, y) == Fruit;
    assert Game.Init(col, row, frames, k).grid == fed;
    assert Get(Game.Init(col, row, frames, k).grid, x, y) == Fruit;
  }

  /** The opening move from any paused one-segment snake at `c` heading
      left, with a free column to its left and a row above it: pressing the
      spacebar on a move frame unpauses the game and the head steps left.
      Either that cell was empty and the snake slides, leaving `c` empty, or
      the fruit was there and the snake grows to two segments. */
  lemma OpeningMove(st: GameState, c: Pos, pick: nat)
    requires Wf(st)
    requires st.snake.queue == [c] && st.snake.direction == Snakes.Left
    requires st.snake.pauseState && !st.snake.pauseKeyDown
    requires (st.frames + 1) % MoveEvery == 0
    requires c.x > 0 && c.y > 0
    ensures var n := Pos(c.x - 1, c.y);
      var r := Update(st, Keys(false, false, false, false, true), pick);
      && r.Next?
      && !r.state.snake.pauseState
      && ((r.state.score == 0 && r.state.snake.queue == [n] && Get(r.state.grid, c.x, c.y) == Empty)
          || (r.state.score == 1 && r.state.snake.queue == [n, c]))
  {
    var n := Pos(c.x - 1, c.y);
    var keys := Keys(false, false, false, false, true);
    assert NextHead(Ticked(st, keys).snake) == n;
    assert InBounds(st.grid, n.x, n.y);
    if Get(st.grid, n.x, n.y) == Empty {
      SlidingKeepsLength(st, keys, pick);
    } else {
      var w := Pos(c.x, c.y - 1);
      assert InBounds(st.grid, w.x, w.y);
      assert Get(st.grid, w.x, w.y) == Empty by {
        var fx, fy :| OnlyFruitAt(st.grid, fx, fy);
        assert fx == n.x && fy == n.y;
      }
      assert w in Food.Empties(st.grid);
      EatingGrows(st, keys, pick);
      assert Update(st, keys, pick).state.snake.queue == [n] + [c];
    }
  }

  /** The opening move of a fresh game of at least 2 by 2: pressing the
      spacebar on a move frame steps the head left from the middle. */
  lemma FirstMoveGoesLeft(col: nat, row: nat, frames: nat, pick: nat, pick2: nat)
    requires col > 1 && row > 1
    requires (frames + 1) % MoveEvery == 0
    ensures var c := Middle(col, row); var n := Pos(c.x - 1, c.y);
      var r := Update(Game.Init(col, row, frames, pick), Keys(false, false, false, false, true), pick2);
      && r.Next?
      && !r.state.snake.pauseState
      && ((r.state.score == 0 && r.state.snake.queue == [n] && Get(r.state.grid, c.x, c.y) == Empty)
          || (r.state.score == 1 && r.state.snake.queue == [n, c]))
  {
    OpeningMove(Game.Init(col, row, frames, pick), Middle(col, row), pick2);
  }

  /** Every state a game reaches from the start is on the full 26 by 26
      board, so the reset on a loss, which rebuilds a board of the current
      size, is the full-size reset of the source. */
  lemma RunStaysFullSize(pick: nat, inputs: seq<Input>)
    ensures var r := Run(Start(pick), inputs);
      r.Next? ==> r.state.grid.width == Cols && r.state.grid.height == Rows
  {
  }
}

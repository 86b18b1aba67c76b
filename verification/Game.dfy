/** The game-state machine: the board and the snake owned together, the
    well-formedness invariant that ties them, the reset (`Init`) and the
    per-frame step (`Update`). */
module Game {
  import opened Grids
  import Snakes
  import Food

  /** Board size of every game. */
  const Cols: nat := 26
  const Rows: nat := 26

  /** The snake moves on every fifth unpaused frame. */
  const MoveEvery: nat := 5

  /** The five keys the game reads; a key never reported counts as up. */
  datatype Keys = Keys(left: bool, up: bool, right: bool, down: bool, space: bool)

  datatype GameState = GameState(grid: Grid, snake: Snakes.Snake, frames: nat, score: nat)

  /** Result of one step. `NoEmptyCell` is the case where the snake eats while
      no empty cell is left for the next fruit; the source fails there. */
  datatype Outcome = Next(state: GameState) | NoEmptyCell

  // ---------------------------------------------------------------------
  // Headings

  function Opposite(d: Snakes.Direction): Snakes.Direction {
    match d
    case Left => Snakes.Right
    case Right => Snakes.Left
    case Up => Snakes.Down
    case Down => Snakes.Up
  }

  predicate Pressed(keys: Keys, d: Snakes.Direction) {
    match d
    case Left => keys.left
    case Up => keys.up
    case Right => keys.right
    case Down => keys.down
  }

  /** Priority of a direction key: lower is tried first. */
  function Rank(d: Snakes.Direction): nat {
    match d
    case Left => 0
    case Up => 1
    case Right => 2
    case Down => 3
  }

  /** A key may take effect when it is down and would not reverse the snake. */
  predicate Eligible(keys: Keys, current: Snakes.Direction, d: Snakes.Direction) {
    Pressed(keys, d) && current != Opposite(d)
  }

  /** The heading after reading the direction keys: the highest-priority
      eligible key wins; with none eligible the heading stays. */
  function ResolveHeading(current: Snakes.Direction, keys: Keys): (r: Snakes.Direction)
    ensures r != Opposite(current)
    ensures r == current || Eligible(keys, current, r)
    ensures (exists d :: Eligible(keys, current, d)) ==>
      && Eligible(keys, current, r)
      && forall d :: Rank(d) < Rank(r) ==> !Eligible(keys, current, d)
    ensures (forall d :: !Eligible(keys, current, d)) ==> r == current
  {
    if keys.left && current != Snakes.Right then Snakes.Left
    else if keys.up && current != Snakes.Down then Snakes.Up
    else if keys.right && current != Snakes.Left then Snakes.Right
    else if keys.down && current != Snakes.Up then Snakes.Down
    else current
  }

  /** The cell one step from `p` in direction `d`; y grows downwards.
      It is side by side with `p`, on the far side in direction `d`. */
  function Neighbour(p: Pos, d: Snakes.Direction): (r: Pos)
    ensures Adjacent(r, p)
    ensures d == Snakes.Left ==> r.x < p.x
    ensures d == Snakes.Right ==> r.x > p.x
    ensures d == Snakes.Up ==> r.y < p.y
    ensures d == Snakes.Down ==> r.y > p.y
  {
    match d
    case Left => Pos(p.x - 1, p.y)
    case Up => Pos(p.x, p.y - 1)
    case Right => Pos(p.x + 1, p.y)
    case Down => Pos(p.x, p.y + 1)
  }

  /** A step and a step back in the opposite direction cancel out. */
  lemma StepBack(p: Pos, d: Snakes.Direction)
    ensures Neighbour(Neighbour(p, d), Opposite(d)) == p
  {
  }

  predicate Adjacent(p: Pos, q: Pos) {
    || (p.x == q.x && (p.y == q.y + 1 || p.y + 1 == q.y))
    || (p.y == q.y && (p.x == q.x + 1 || p.x + 1 == q.x))
  }

  /** Where the head goes on the next move: next to the current head, in
      the direction of travel. */
  function NextHead(s: Snakes.Snake): (r: Pos)
    ensures Adjacent(r, s.last)
    ensures s.direction == Snakes.Left ==> r.x < s.last.x
    ensures s.direction == Snakes.Right ==> r.x > s.last.x
    ensures s.direction == Snakes.Up ==> r.y < s.last.y
    ensures s.direction == Snakes.Down ==> r.y > s.last.y
  {
    Neighbour(s.last, s.direction)
  }

  // ---------------------------------------------------------------------
  // The invariant tying the board to the snake

  ghost predicate BodyInBounds(g: Grid, q: seq<Pos>) {
    forall i :: 0 <= i < |q| ==> InBounds(g, q[i].x, q[i].y)
  }

  ghost predicate Distinct(q: seq<Pos>) {
    forall i, j :: 0 <= i < j < |q| ==> q[i] != q[j]
  }

  /** Consecutive segments are side by side. */
  ghost predicate Connected(q: seq<Pos>) {
    forall i :: 0 <= i < |q| - 1 ==> Adjacent(q[i], q[i + 1])
  }

  /** The board's snake cells are exactly the body's segments. */
  ghost predicate SnakeCellsAreBody(g: Grid, q: seq<Pos>)
    requires Shaped(g)
  {
    forall x, y :: InBounds(g, x, y) ==> (Get(g, x, y) == Snake <==> Pos(x, y) in q)
  }

  /** (x, y) holds fruit and no other cell does. */
  ghost predicate OnlyFruitAt(g: Grid, x: int, y: int)
    requires Shaped(g)
  {
    && InBounds(g, x, y) && Get(g, x, y) == Fruit
    && forall i, j :: InBounds(g, i, j) && Get(g, i, j) == Fruit ==> i == x && j == y
  }

  ghost predicate OneFruit(g: Grid)
    requires Shaped(g)
  {
    exists x, y :: OnlyFruitAt(g, x, y)
  }

  /** Every state the game reaches satisfies this. */
  ghost predicate Wf(st: GameState) {
    var q := st.snake.queue;
    && Shaped(st.grid)
    && Roomy(st.grid.width, st.grid.height)
    && |q| > 0
    && st.snake.last == q[0]
    && |q| == st.score + 1
    && BodyInBounds(st.grid, q)
    && Distinct(q)
    && Connected(q)
    && SnakeCellsAreBody(st.grid, q)
    && OneFruit(st.grid)
  }

  // ---------------------------------------------------------------------
  // Reset

  /** A `col` by `row` board has a cell for the snake and another for the
      fruit. */
  predicate Roomy(col: nat, row: nat) {
    col > 0 && row > 0 && (col > 1 || row > 1)
  }

  /** The middle cell of a `col` by `row` board, where every game starts. */
  function Middle(col: nat, row: nat): Pos {
    Pos(col / 2, row / 2)
  }

  /** A board whose only snake cell is `c`, with the one-segment snake
      there, becomes well formed once a fruit is placed. */
  lemma FreshBoardIsWf(g: Grid, c: Pos, s: Snakes.Snake, frames: nat, choice: nat)
    requires Shaped(g) && InBounds(g, c.x, c.y)
    requires forall x, y :: InBounds(g, x, y) ==>
      Get(g, x, y) == if Pos(x, y) == c then Snake else Empty
    requires s.queue == [c] && s.last == c
    requires choice < |Food.Empties(g)| && Roomy(g.width, g.height)
    ensures Wf(GameState(Food.SetFood(g, choice), s, frames, 0))
  {
    var p := Food.Empties(g)[choice];
    var fed := Food.SetFood(g, choice);
    assert OnlyFruitAt(fed, p.x, p.y) by {
      forall i, j | InBounds(fed, i, j) && Get(fed, i, j) == Fruit
        ensures i == p.x && j == p.y
      {
      }
    }
  }

  /** The empty board with the snake's one segment written at the middle. */
  function FreshBoard(col: nat, row: nat): (g: Grid)
    requires col > 0 && row > 0
    ensures Shaped(g) && g.width == col && g.height == row
    ensures forall x, y :: InBounds(g, x, y) ==>
      Get(g, x, y) == if Pos(x, y) == Middle(col, row) then Snake else Empty
  {
    Set(Grids.Init(Empty, col, row), Snake, col / 2, row / 2)
  }

  /** Reset on a `col` by `row` board: one-segment snake at the middle
      heading left, paused, one fruit on an empty cell chosen by `pick`,
      score zero. The frame counter is carried over untouched. The board
      needs a cell besides the middle one for the fruit. */
  function Init(col: nat, row: nat, frames: nat, pick: nat): (st: GameState)
    requires Roomy(col, row)
    ensures Wf(st)
    ensures st.grid.width == col && st.grid.height == row
    ensures st.snake.queue == [Middle(col, row)] && st.snake.direction == Snakes.Left
    ensures st.snake.pauseState && !st.snake.pauseKeyDown
    ensures st.score == 0 && st.frames == frames
    ensures forall x, y :: InBounds(st.grid, x, y) ==>
      (Get(st.grid, x, y) == Snake <==> Pos(x, y) == Middle(col, row))
  {
    var c := Middle(col, row);
    var g := FreshBoard(col, row);
    var s := Snakes.Init(Snakes.Left, c.x, c.y);
    assert Pos(0, 0) in Food.Empties(g);
    var choice := pick % |Food.Empties(g)|;
    FreshBoardIsWf(g, c, s, frames, choice);
    GameState(Food.SetFood(g, choice), s, frames, 0)
  }

  // ---------------------------------------------------------------------
  // Moving

  /** A move onto an empty cell: drop the tail, clear its cell, then write
      the new head. */
  function Slide(st: GameState): (r: GameState)
    requires Wf(st)
    requires var n := NextHead(st.snake); InBounds(st.grid, n.x, n.y) && Get(st.grid, n.x, n.y) == Empty
    ensures Shaped(r.grid) && r.grid.width == st.grid.width && r.grid.height == st.grid.height
    ensures var q := st.snake.queue; var t := q[|q| - 1];
      && r.snake.queue == [NextHead(st.snake)] + q[..|q| - 1]
      && r.snake.direction == st.snake.direction
      && r.score == st.score && r.frames == st.frames
      && Get(r.grid, t.x, t.y) == Empty
    ensures r.snake.pauseState == st.snake.pauseState && r.snake.pauseKeyDown == st.snake.pauseKeyDown
    ensures var n := NextHead(st.snake); Get(r.grid, n.x, n.y) == Snake
    ensures var q := st.snake.queue; var t := q[|q| - 1]; var n := NextHead(st.snake);
      forall x, y :: InBounds(st.grid, x, y) && Pos(x, y) != t && Pos(x, y) != n ==>
        Get(r.grid, x, y) == Get(st.grid, x, y)
  {
    var n := NextHead(st.snake);
    var (body, tail) := Snakes.Remove(st.snake);
    assert tail in st.snake.queue;
    var cleared := Set(st.grid, Empty, tail.x, tail.y);
    GameState(Set(cleared, Snake, n.x, n.y), Snakes.Insert(body, n.x, n.y), st.frames, st.score)
  }

  /** A move onto the fruit: score, place the next fruit on empty cell
      `choice`, then write the new head; the tail stays. */
  function Grow(st: GameState, choice: nat): (r: GameState)
    requires Wf(st)
    requires var n := NextHead(st.snake); InBounds(st.grid, n.x, n.y) && Get(st.grid, n.x, n.y) == Fruit
    requires choice < |Food.Empties(st.grid)|
    ensures Shaped(r.grid) && r.grid.width == st.grid.width && r.grid.height == st.grid.height
    ensures r.snake.queue == [NextHead(st.snake)] + st.snake.queue
    ensures r.snake.direction == st.snake.direction
    ensures r.snake.pauseState == st.snake.pauseState && r.snake.pauseKeyDown == st.snake.pauseKeyDown
    ensures r.score == st.score + 1 && r.frames == st.frames
    ensures var n := NextHead(st.snake); var p := Food.Empties(st.grid)[choice];
      && InBounds(st.grid, p.x, p.y) && Get(st.grid, p.x, p.y) == Empty
      && Get(r.grid, n.x, n.y) == Snake && Get(r.grid, p.x, p.y) == Fruit
      && forall x, y :: InBounds(st.grid, x, y) && Pos(x, y) != n && Pos(x, y) != p ==>
        Get(r.grid, x, y) == Get(st.grid, x, y)
  {
    var n := NextHead(st.snake);
    var fed := Food.SetFood(st.grid, choice);
    GameState(Set(fed, Snake, n.x, n.y), Snakes.Insert(st.snake, n.x, n.y), st.frames, st.score + 1)
  }

  /** Without its tail, a body of distinct cells holds exactly the other cells. */
  lemma DropTailMembership(q: seq<Pos>)
    requires |q| > 0 && Distinct(q)
    ensures forall p :: p in q[..|q| - 1] <==> p in q && p != q[|q| - 1]
  {
    forall p | p in q && p != q[|q| - 1] ensures p in q[..|q| - 1] {
      var i :| 0 <= i < |q| && q[i] == p;
      assert q[..|q| - 1][i] == p;
    }
  }

  /** Putting a new head, adjacent to the old one and off the body, in front
      of a prefix of the body keeps it on the board, distinct and connected. */
  lemma NewHeadKeepsBodyShape(g: Grid, q: seq<Pos>, k: nat, n: Pos)
    requires 0 < |q| && k <= |q|
    requires BodyInBounds(g, q) && Distinct(q) && Connected(q)
    requires InBounds(g, n.x, n.y) && n !in q && Adjacent(n, q[0])
    ensures var q' := [n] + q[..k];
      BodyInBounds(g, q') && Distinct(q') && Connected(q')
  {
    var q' := [n] + q[..k];
    assert forall i :: 0 < i < |q'| ==> q'[i] == q[i - 1];
    assert Distinct(q') by {
      forall i, j | 0 <= i < j < |q'| ensures q'[i] != q'[j] {
        if i == 0 { assert q[j - 1] in q; }
      }
    }
  }

  /** Clearing the tail's cell and writing the new head on an empty cell
      keeps the snake cells equal to the slid body. */
  lemma SlideKeepsSnakeCells(g: Grid, q: seq<Pos>, n: Pos)
    requires Shaped(g) && |q| > 0 && Distinct(q) && BodyInBounds(g, q) && SnakeCellsAreBody(g, q)
    requires InBounds(g, n.x, n.y) && Get(g, n.x, n.y) == Empty
    ensures var t := q[|q| - 1];
      SnakeCellsAreBody(Set(Set(g, Empty, t.x, t.y), Snake, n.x, n.y), [n] + q[..|q| - 1])
  {
    var t := q[|q| - 1];
    var g' := Set(Set(g, Empty, t.x, t.y), Snake, n.x, n.y);
    var q' := [n] + q[..|q| - 1];
    DropTailMembership(q);
    forall x, y | InBounds(g', x, y)
      ensures Get(g', x, y) == Snake <==> Pos(x, y) in q'
    {
      if Pos(x, y) != n && Pos(x, y) != t {
        assert Get(g', x, y) == Get(g, x, y);
      }
    }
  }

  /** The slide touches two cells, a snake cell and an empty one, so the
      fruit stays where it was and is still the only one. */
  lemma SlideKeepsFruit(g: Grid, t: Pos, n: Pos)
    requires Shaped(g) && OneFruit(g)
    requires InBounds(g, t.x, t.y) && Get(g, t.x, t.y) == Snake
    requires InBounds(g, n.x, n.y) && Get(g, n.x, n.y) == Empty
    ensures forall fx, fy :: OnlyFruitAt(g, fx, fy) ==>
      OnlyFruitAt(Set(Set(g, Empty, t.x, t.y), Snake, n.x, n.y), fx, fy)
  {
    var g' := Set(Set(g, Empty, t.x, t.y), Snake, n.x, n.y);
    forall fx, fy | OnlyFruitAt(g, fx, fy)
      ensures OnlyFruitAt(g', fx, fy)
    {
      forall i, j | InBounds(g', i, j) && Get(g', i, j) == Fruit
        ensures i == fx && j == fy
      {
        assert Get(g, i, j) == Fruit;
      }
    }
  }

  /** A slide onto an empty cell keeps the board and the body in step. */
  lemma SlidePreservesWf(st: GameState)
    requires Wf(st)
    requires var n := NextHead(st.snake); InBounds(st.grid, n.x, n.y) && Get(st.grid, n.x, n.y) == Empty
    ensures Wf(Slide(st))
  {
    var g := st.grid;
    var q := st.snake.queue;
    var n := NextHead(st.snake);
    var t := q[|q| - 1];
    var r := Slide(st);
    assert r.snake.queue == [n] + q[..|q| - 1];
    assert r.grid == Set(Set(g, Empty, t.x, t.y), Snake, n.x, n.y);
    assert n !in q by {
      assert Pos(n.x, n.y) == n;
    }
    assert t in q;
    assert BodyInBounds(r.grid, q);
    NewHeadKeepsBodyShape(r.grid, q, |q| - 1, n);
    SlideKeepsSnakeCells(g, q, n);
    SlideKeepsFruit(g, t, n);
    var fx, fy :| OnlyFruitAt(g, fx, fy);
    assert OnlyFruitAt(r.grid, fx, fy);
  }

  /** Placing the next fruit on an empty cell and writing the new head on
      the old fruit keeps the snake cells equal to the grown body. */
  lemma GrowKeepsSnakeCells(g: Grid, q: seq<Pos>, n: Pos, choice: nat)
    requires Shaped(g) && SnakeCellsAreBody(g, q)
    requires InBounds(g, n.x, n.y) && Get(g, n.x, n.y) == Fruit
    requires choice < |Food.Empties(g)|
    ensures SnakeCellsAreBody(Set(Food.SetFood(g, choice), Snake, n.x, n.y), [n] + q)
  {
    var p := Food.Empties(g)[choice];
    var g' := Set(Food.SetFood(g, choice), Snake, n.x, n.y);
    forall x, y | InBounds(g', x, y)
      ensures Get(g', x, y) == Snake <==> Pos(x, y) in [n] + q
    {
      if Pos(x, y) != n && Pos(x, y) != p {
        assert Get(g', x, y) == Get(g, x, y);
      }
    }
  }

  /** After eating, the freshly placed fruit is the only fruit: the eaten
      one has become the head. */
  lemma GrowKeepsFruit(g: Grid, n: Pos, choice: nat)
    requires Shaped(g) && OneFruit(g)
    requires InBounds(g, n.x, n.y) && Get(g, n.x, n.y) == Fruit
    requires choice < |Food.Empties(g)|
    ensures var p := Food.Empties(g)[choice];
      OnlyFruitAt(Set(Food.SetFood(g, choice), Snake, n.x, n.y), p.x, p.y)
  {
    var p := Food.Empties(g)[choice];
    var g' := Set(Food.SetFood(g, choice), Snake, n.x, n.y);
    assert p != n;
    forall i, j | InBounds(g', i, j) && Get(g', i, j) == Fruit
      ensures i == p.x && j == p.y
    {
    }
  }

  /** Eating keeps the board and the body in step, and the new fruit is the
      only fruit. */
  lemma GrowPreservesWf(st: GameState, choice: nat)
    requires Wf(st)
    requires var n := NextHead(st.snake); InBounds(st.grid, n.x, n.y) && Get(st.grid, n.x, n.y) == Fruit
    requires choice < |Food.Empties(st.grid)|
    ensures Wf(Grow(st, choice))
  {
    var g := st.grid;
    var q := st.snake.queue;
    var n := NextHead(st.snake);
    var r := Grow(st, choice);
    assert r.snake.queue == [n] + q;
    assert r.grid == Set(Food.SetFood(g, choice), Snake, n.x, n.y);
    assert n !in q by {
      assert Pos(n.x, n.y) == n;
    }
    assert BodyInBounds(r.grid, q);
    NewHeadKeepsBodyShape(r.grid, q, |q|, n);
    assert q[..|q|] == q;
    GrowKeepsSnakeCells(g, q, n, choice);
    GrowKeepsFruit(g, n, choice);
  }

  /** Leaving the board or running into a body cell (the tail included, as it
      has not moved yet) loses the game. */
  predicate Collides(g: Grid, n: Pos)
    requires Shaped(g)
  {
    !InBounds(g, n.x, n.y) || Get(g, n.x, n.y) == Snake
  }

  /** On a well-formed state the collision test reads the board, but it
      means: the cell is off the board or is one of the body's segments. */
  lemma CollidesMeansOffBoardOrBody(st: GameState, n: Pos)
    requires Wf(st)
    ensures Collides(st.grid, n) <==> !InBounds(st.grid, n.x, n.y) || n in st.snake.queue
  {
    assert Pos(n.x, n.y) == n;
  }

  /** One move of the snake: reset on a collision, grow onto the fruit, or
      slide onto an empty cell. `pick` stands for the random draw of the
      fruit's cell. The move fails only when the snake eats and no empty
      cell is left for the next fruit. */
  function Advance(st: GameState, pick: nat): (r: Outcome)
    requires Wf(st)
    ensures r.Next? ==> Wf(r.state) && r.state.frames == st.frames
    ensures r.Next? ==> r.state.grid.width == st.grid.width && r.state.grid.height == st.grid.height
    ensures r.NoEmptyCell? ==>
      var n := NextHead(st.snake);
      && InBounds(st.grid, n.x, n.y) && Get(st.grid, n.x, n.y) == Fruit
      && forall x, y :: InBounds(st.grid, x, y) ==> Get(st.grid, x, y) != Empty
    ensures var n := NextHead(st.snake);
      (InBounds(st.grid, n.x, n.y) && Get(st.grid, n.x, n.y) == Fruit && |Food.Empties(st.grid)| == 0)
        ==> r.NoEmptyCell?
  {
    var n := NextHead(st.snake);
    if Collides(st.grid, n) then Next(Init(st.grid.width, st.grid.height, st.frames, pick))
    else if Get(st.grid, n.x, n.y) == Fruit then
      var empties := Food.Empties(st.grid);
      if |empties| == 0 then NoEmptyCell
      else
        GrowPreservesWf(st, pick % |empties|);
        Next(Grow(st, pick % |empties|))
    else
      SlidePreservesWf(st);
      Next(Slide(st))
  }

  // ---------------------------------------------------------------------
  // One frame

  /** An unpaused frame before any move: count the frame and re-read the
      heading from the keys. */
  function Ticked(st: GameState, keys: Keys): (r: GameState)
    ensures r.frames == st.frames + 1
    ensures r.grid == st.grid && r.score == st.score
    ensures r.snake.queue == st.snake.queue && r.snake.last == st.snake.last
    ensures r.snake.direction == ResolveHeading(st.snake.direction, keys)
    ensures r.snake.pauseKeyDown == keys.space
    ensures r.snake.pauseState == (st.snake.pauseState != (keys.space && !st.snake.pauseKeyDown))
  {
    var checked := Snakes.CheckPauseKey(st.snake, keys.space);
    st.(snake := checked.(direction := ResolveHeading(checked.direction, keys)),
        frames := st.frames + 1)
  }

  /** Counting the frame and re-reading the heading keeps the invariant:
      neither touches the board or the body. */
  lemma TickedIsWf(st: GameState, keys: Keys)
    requires Wf(st)
    ensures Wf(Ticked(st, keys))
  {
  }

  /** One frame: update the pause latch; if paused, stop; otherwise count
      the frame, steer, and move on every fifth frame. Every frame that
      completes keeps the invariant, and only unpaused frames are counted. */
  function Update(st: GameState, keys: Keys, pick: nat): (r: Outcome)
    requires Wf(st)
    ensures r.Next? ==> Wf(r.state)
    ensures r.Next? ==> r.state.grid.width == st.grid.width && r.state.grid.height == st.grid.height
    ensures r.Next? ==>
      r.state.frames == if Snakes.CheckPauseKey(st.snake, keys.space).pauseState then st.frames else st.frames + 1
  {
    var checked := Snakes.CheckPauseKey(st.snake, keys.space);
    if checked.pauseState then Next(st.(snake := checked))
    else
      var ticked := Ticked(st, keys);
      TickedIsWf(st, keys);
      if ticked.frames % MoveEvery == 0 then Advance(ticked, pick) else Next(ticked)
  }

  // ---------------------------------------------------------------------
  // The running game

  /** What one animation frame reads from outside: the key states and the
      random draw used if a fruit has to be placed. */
  datatype Input = Input(keys: Keys, pick: nat)

  /** The state the game starts in: the frame counter at zero, then a reset
      on the full-size board. */
  function Start(pick: nat): (st: GameState)
    ensures Wf(st)
    ensures st.grid.width == Cols && st.grid.height == Rows
    ensures st.frames == 0 && st.score == 0
  {
    Init(Cols, Rows, 0, pick)
  }

  /** One `Update` per input, in order, stopping at the first failure. Every
      state the run passes through keeps the invariant and the board size. */
  function Run(st: GameState, inputs: seq<Input>): (r: Outcome)
    requires Wf(st)
    ensures r.Next? ==> Wf(r.state)
    ensures r.Next? ==> r.state.grid.width == st.grid.width && r.state.grid.height == st.grid.height
    ensures r.Next? ==> r.state.frames <= st.frames + |inputs|
    decreases |inputs|
  {
    if |inputs| == 0 then Next(st)
    else
      match Update(st, inputs[0].keys, inputs[0].pick)
      case NoEmptyCell => NoEmptyCell
      case Next(s) => Run(s, inputs[1..])
  }
}

/** The board: a width-by-height store of cells, each empty, part of the
    snake, or holding the fruit. Cells are stored column-major, as the source
    does: `cells[x][y]` is the cell in column `x`, row `y`. */
module Grids {

  /** What a cell holds. */
  datatype Cell = Empty | Snake | Fruit

  /** A board coordinate; it may lie off the board (a candidate head can). */
  datatype Pos = Pos(x: int, y: int)

  datatype Grid = Grid(width: nat, height: nat, cells: seq<seq<Cell>>)

  /** The cell store really is `width` columns of `height` cells each. */
  predicate Shaped(g: Grid) {
    && |g.cells| == g.width
    && forall i :: 0 <= i < |g.cells| ==> |g.cells[i]| == g.height
  }

  predicate InBounds(g: Grid, x: int, y: int) {
    0 <= x < g.width && 0 <= y < g.height
  }

  /** Builds a `col` by `row` board with every cell holding `d`. */
  function Init(d: Cell, col: nat, row: nat): (g: Grid)
    ensures Shaped(g)
    ensures g.width == col && g.height == row
    ensures forall x, y :: InBounds(g, x, y) ==> Get(g, x, y) == d
  {
    Grid(col, row, seq(col, _ => seq(row, _ => d)))
  }

  /** Reads one cell. Off-board reads are never made by the game. */
  function Get(g: Grid, x: int, y: int): Cell
    requires Shaped(g) && InBounds(g, x, y)
  {
    g.cells[x][y]
  }

  /** Writes one cell and leaves every other cell alone. */
  function Set(g: Grid, val: Cell, x: int, y: int): (r: Grid)
    requires Shaped(g) && InBounds(g, x, y)
    ensures Shaped(r)
    ensures r.width == g.width && r.height == g.height
    ensures Get(r, x, y) == val
    ensures forall i, j :: InBounds(g, i, j) && (i != x || j != y) ==> Get(r, i, j) == Get(g, i, j)
  {
    g.(cells := g.cells[x := g.cells[x][y := val]])
  }

  /** Read-over-write: after `Set`, `Get` returns the written value at the
      written cell and the old value everywhere else. */
  lemma GetAfterSet(g: Grid, val: Cell, x: int, y: int, i: int, j: int)
    requires Shaped(g) && InBounds(g, x, y) && InBounds(g, i, j)
    ensures Get(Set(g, val, x, y), i, j) == if i == x && j == y then val else Get(g, i, j)
  {
  }
}

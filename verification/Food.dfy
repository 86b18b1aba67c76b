/** Food placement: the list of empty cells in the order the source's scan
    visits them (column by column, each column top to bottom), and `SetFood`,
    which marks the chosen entry of that list as fruit. */
module Food {
  import opened Grids

  /** Column-major scan order: `p` is visited strictly before `q`. */
  predicate Before(p: Pos, q: Pos) {
    p.x < q.x || (p.x == q.x && p.y < q.y)
  }

  /** Every entry comes strictly before every later one in scan order. */
  ghost predicate Ascending(r: seq<Pos>) {
    forall i, j :: 0 <= i < j < |r| ==> Before(r[i], r[j])
  }

  /** The empty cells (x, 0), ..., (x, n - 1), in scan order. */
  function ColumnEmpties(g: Grid, x: int, n: nat): (r: seq<Pos>)
    requires Shaped(g) && 0 <= x < g.width && n <= g.height
    ensures forall p :: p in r <==> p.x == x && 0 <= p.y < n && Get(g, p.x, p.y) == Empty
  {
    if n == 0 then []
    else
      var prefix := ColumnEmpties(g, x, n - 1);
      prefix + (if Get(g, x, n - 1) == Empty then [Pos(x, n - 1)] else [])
  }

  /** The empty cells of columns 0 .. n - 1, in scan order. */
  function EmptiesBefore(g: Grid, n: nat): (r: seq<Pos>)
    requires Shaped(g) && n <= g.width
    ensures forall p :: p in r <==> 0 <= p.x < n && InBounds(g, p.x, p.y) && Get(g, p.x, p.y) == Empty
  {
    if n == 0 then [] else EmptiesBefore(g, n - 1) + ColumnEmpties(g, n - 1, g.height)
  }

  /** Every empty cell of the board, and nothing else. */
  function Empties(g: Grid): (r: seq<Pos>)
    requires Shaped(g)
    ensures forall p :: p in r <==> InBounds(g, p.x, p.y) && Get(g, p.x, p.y) == Empty
  {
    EmptiesBefore(g, g.width)
  }

  /** Appending an entry that comes after everything already listed keeps a
      list in scan order. */
  lemma AscendingAppend(a: seq<Pos>, b: seq<Pos>)
    requires Ascending(a) && Ascending(b)
    requires forall p, q :: p in a && q in b ==> Before(p, q)
    ensures Ascending(a + b)
  {
    var c := a + b;
    forall i, j | 0 <= i < j < |c| ensures Before(c[i], c[j]) {
      if j < |a| {
        assert c[i] == a[i] && c[j] == a[j];
      } else if i >= |a| {
        assert c[i] == b[i - |a|] && c[j] == b[j - |a|];
      } else {
        assert c[i] == a[i] && c[j] == b[j - |a|];
        assert a[i] in a && b[j - |a|] in b;
      }
    }
  }

  /** One column's empty cells are listed top to bottom. */
  lemma {:induction false} ColumnEmptiesAscend(g: Grid, x: int, n: nat)
    requires Shaped(g) && 0 <= x < g.width && n <= g.height
    ensures Ascending(ColumnEmpties(g, x, n))
  {
    if n > 0 {
      ColumnEmptiesAscend(g, x, n - 1);
      var prefix := ColumnEmpties(g, x, n - 1);
      var tail := if Get(g, x, n - 1) == Empty then [Pos(x, n - 1)] else [];
      AscendingAppend(prefix, tail);
    }
  }

  /** Columns are listed left to right, each one top to bottom. */
  lemma {:induction false} EmptiesBeforeAscend(g: Grid, n: nat)
    requires Shaped(g) && n <= g.width
    ensures Ascending(EmptiesBefore(g, n))
  {
    if n > 0 {
      EmptiesBeforeAscend(g, n - 1);
      ColumnEmptiesAscend(g, n - 1, g.height);
      AscendingAppend(EmptiesBefore(g, n - 1), ColumnEmpties(g, n - 1, g.height));
    }
  }

  /** The empty-cell list is in scan order, so no cell is listed twice. */
  lemma EmptiesAreDistinct(g: Grid)
    requires Shaped(g)
    ensures Ascending(Empties(g))
    ensures forall i, j :: 0 <= i < j < |Empties(g)| ==> Empties(g)[i] != Empties(g)[j]
  {
    EmptiesBeforeAscend(g, g.width);
  }

  /** The scan loop of the source, building the empty-cell list by appending
      one cell at a time. */
  method CollectEmpty(g: Grid) returns (empty: seq<Pos>)
    requires Shaped(g)
    ensures empty == Empties(g)
    ensures forall p :: p in empty <==> InBounds(g, p.x, p.y) && Get(g, p.x, p.y) == Empty
  {
    empty := [];
    var i := 0;
    while i < g.width
      invariant 0 <= i <= g.width
      invariant empty == EmptiesBefore(g, i)
    {
      var j := 0;
      while j < g.height
        invariant 0 <= j <= g.height
        invariant empty == EmptiesBefore(g, i) + ColumnEmpties(g, i, j)
      {
        if Get(g, i, j) == Empty {
          empty := empty + [Pos(i, j)];
        }
        j := j + 1;
      }
      i := i + 1;
    }
  }

  /** Marks entry `choice` of the empty-cell list as fruit. The source indexes
      the list with a random draw and fails when it is empty, so a valid index
      is required. */
  function SetFood(g: Grid, choice: nat): (r: Grid)
    requires Shaped(g) && choice < |Empties(g)|
    ensures Shaped(r) && r.width == g.width && r.height == g.height
    ensures var p := Empties(g)[choice];
      && InBounds(g, p.x, p.y) && Get(g, p.x, p.y) == Empty && Get(r, p.x, p.y) == Fruit
      && forall x, y :: InBounds(g, x, y) && Pos(x, y) != p ==> Get(r, x, y) == Get(g, x, y)
  {
    var p := Empties(g)[choice];
    assert p in Empties(g);
    Set(g, Fruit, p.x, p.y)
  }

  /** Every empty cell, and only an empty cell, can receive the fruit: some
      draw selects it, and no other draw does. */
  lemma SetFoodReachesEveryEmptyCell(g: Grid, x: int, y: int)
    requires Shaped(g) && InBounds(g, x, y) && Get(g, x, y) == Empty
    ensures exists choice: nat :: choice < |Empties(g)| && Empties(g)[choice] == Pos(x, y)
    ensures forall c1: nat, c2: nat :: c1 < c2 < |Empties(g)| ==> Empties(g)[c1] != Empties(g)[c2]
  {
    var e := Empties(g);
    EmptiesAreDistinct(g);
    assert Pos(x, y) in e;
    var k :| 0 <= k < |e| && e[k] == Pos(x, y);
    assert k < |Empties(g)| && Empties(g)[k] == Pos(x, y);
  }
}

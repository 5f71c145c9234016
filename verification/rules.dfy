/** The transition rule: the three population tests, the per-cell state update,
    and the pass that applies it to every cell. */
module Rules {
  import opened Cells

  /** The rules of the game as classically stated: a live cell survives with two or
      three live neighbours and dies otherwise; a dead cell comes alive with exactly
      three live neighbours and stays dead otherwise. */
  predicate LifeRule(alive: bool, n: nat) {
    if alive then n == 2 || n == 3 else n == 3
  }

  predicate IsUnderpopulated(cell: Cell) {
    cell.livingNeighbors < 2
  }

  predicate IsOverpopulated(cell: Cell) {
    cell.livingNeighbors > 3
  }

  predicate IsResurrectable(cell: Cell) {
    !cell.alive && cell.livingNeighbors == 3
  }

  /** The engine's per-cell decision: kill an under- or over-populated cell, revive
      a resurrectable one, leave any other cell as it is. The count is kept. */
  function UpdateStateForCell(cell: Cell): (next: Cell)
    ensures next.livingNeighbors == cell.livingNeighbors
    ensures next.alive == LifeRule(cell.alive, cell.livingNeighbors)
    // rule 1, under-population
    ensures cell.alive && cell.livingNeighbors < 2 ==> !next.alive
    // rule 2, survival
    ensures cell.alive && 2 <= cell.livingNeighbors <= 3 ==> next.alive
    // rule 3, over-population
    ensures cell.alive && cell.livingNeighbors > 3 ==> !next.alive
    // rule 4, reproduction, and its converse
    ensures !cell.alive ==> (next.alive <==> cell.livingNeighbors == 3)
  {
    if IsUnderpopulated(cell) || IsOverpopulated(cell) then cell.(alive := false)
    else if IsResurrectable(cell) then cell.(alive := true)
    else cell
  }

  /** Deciding a cell a second time, on the same count, changes nothing. */
  lemma UpdateStateIdempotent(cell: Cell)
    ensures UpdateStateForCell(UpdateStateForCell(cell)) == UpdateStateForCell(cell)
  {
  }

  /** The state pass along an arbitrary traversal. */
  function StatePassAlong(g: Grid, size: nat, visits: seq<Coord>): (h: Grid)
    requires IsSquare(g, size) && Within(visits, size)
    ensures IsSquare(h, size)
    decreases |visits|
  {
    if visits == [] then g
    else
      var p := visits[0];
      StatePassAlong(g[p.0 := g[p.0][p.1 := UpdateStateForCell(g[p.0][p.1])]], size, visits[1..])
  }

  /** Whatever the order of the visits, the state pass decides every visited cell
      once from its own flag and count, even when it is visited more than once, and
      leaves unvisited cells alone. */
  lemma {:induction false} StatePassAnyOrder(g: Grid, size: nat, visits: seq<Coord>)
    requires IsSquare(g, size) && Within(visits, size)
    ensures var h := StatePassAlong(g, size, visits);
            forall i, j :: 0 <= i < size && 0 <= j < size ==>
              ((i, j) in visits ==> h[i][j] == UpdateStateForCell(g[i][j])) &&
              ((i, j) !in visits ==> h[i][j] == g[i][j])
    decreases |visits|
  {
    if visits != [] {
      var p := visits[0];
      var g1 := g[p.0 := g[p.0][p.1 := UpdateStateForCell(g[p.0][p.1])]];
      StatePassAnyOrder(g1, size, visits[1..]);
      forall i, j | 0 <= i < size && 0 <= j < size && (i, j) in visits
        ensures StatePassAlong(g, size, visits)[i][j] == UpdateStateForCell(g[i][j])
      {
        var k :| 0 <= k < |visits| && visits[k] == (i, j);
        if k > 0 {
          assert visits[1..][k - 1] == (i, j);
        }
        UpdateStateIdempotent(g[i][j]);
      }
    }
  }

  /** One row of the state pass: decides the cells of row `row`, left to right. */
  method UpdateStatesInRow(g: Grid, size: nat, row: nat) returns (h: Grid)
    requires IsSquare(g, size) && row < size
    ensures IsSquare(h, size)
    ensures forall i, j :: 0 <= i < size && 0 <= j < size && i != row ==> h[i][j] == g[i][j]
    ensures forall j :: 0 <= j < size ==>
              h[row][j].livingNeighbors == g[row][j].livingNeighbors &&
              h[row][j].alive == LifeRule(g[row][j].alive, g[row][j].livingNeighbors)
  {
    h := g;
    var col := 0;
    while col < size
      invariant col <= size && IsSquare(h, size)
      invariant forall i, j :: 0 <= i < size && 0 <= j < size && i != row ==> h[i][j] == g[i][j]
      invariant forall j :: col <= j < size ==> h[row][j] == g[row][j]
      invariant forall j :: 0 <= j < col ==> h[row][j] == UpdateStateForCell(g[row][j])
    {
      h := h[row := h[row][col := UpdateStateForCell(h[row][col])]];
      col := col + 1;
    }
  }

  /** The state pass: visits every cell in row-major order and decides it from its
      own alive flag and count. Counts are untouched. */
  method UpdateStates(g: Grid, size: nat) returns (h: Grid)
    requires IsSquare(g, size)
    ensures IsSquare(h, size)
    ensures forall i, j :: 0 <= i < size && 0 <= j < size ==>
              h[i][j].livingNeighbors == g[i][j].livingNeighbors &&
              h[i][j].alive == LifeRule(g[i][j].alive, g[i][j].livingNeighbors)
    ensures Within(RowMajor(size), size) && h == StatePassAlong(g, size, RowMajor(size))
  {
    h := g;
    var row := 0;
    while row < size
      invariant row <= size && IsSquare(h, size)
      invariant forall i, j :: row <= i < size && 0 <= j < size ==> h[i][j] == g[i][j]
      invariant forall i, j :: 0 <= i < row && 0 <= j < size ==>
                  h[i][j].livingNeighbors == g[i][j].livingNeighbors &&
                  h[i][j].alive == LifeRule(g[i][j].alive, g[i][j].livingNeighbors)
    {
      h := UpdateStatesInRow(h, size, row);
      row := row + 1;
    }
    RowMajorTraversal(size);
    StatePassAnyOrder(g, size, RowMajor(size));
    SquareExtensionality(h, StatePassAlong(g, size, RowMajor(size)), size);
  }
}

/** Neighbour counting: the eight Moore-neighbourhood offsets, the count of live
    in-bounds neighbours, and the pass that writes that count into every cell. */
module Neighbours {
  import opened Cells

  /** The engine's eight relative offsets, in the order the counting loop tries them. */
  const Directions: seq<Coord> := [(-1, -1), (-1, 0), (-1, 1), (0, -1), (0, 1), (1, -1), (1, 0), (1, 1)]

  /** Where the `k`-th direction from (r, c) leads. */
  function Target(r: int, c: int, k: nat): Coord
    requires k < |Directions|
  {
    (r + Directions[k].0, c + Directions[k].1)
  }

  /** The `k`-th direction from (r, c) lands in bounds on a live cell. */
  predicate Hit(a: Board, size: nat, r: int, c: int, k: nat)
    requires IsSquare(a, size) && k < |Directions|
  {
    var t := Target(r, c, k);
    InBounds(size, t.0, t.1) && a[t.0][t.1]
  }

  /** The number of hits among the first `k` directions. */
  function CountUpTo(a: Board, size: nat, r: int, c: int, k: nat): (n: nat)
    requires IsSquare(a, size) && k <= |Directions|
    ensures n <= k
  {
    if k == 0 then 0
    else CountUpTo(a, size, r, c, k - 1) + (if Hit(a, size, r, c, k - 1) then 1 else 0)
  }

  /** The number of live cells among the in-bounds neighbours of (r, c). */
  function LiveNeighbours(a: Board, size: nat, r: int, c: int): nat
    requires IsSquare(a, size)
  {
    CountUpTo(a, size, r, c, |Directions|)
  }

  /** Reference definition: (i, j) is adjacent to (r, c), horizontally, vertically
      or diagonally. */
  predicate Adjacent(r: int, c: int, i: int, j: int) {
    (i, j) != (r, c) && r - 1 <= i <= r + 1 && c - 1 <= j <= c + 1
  }

  /** Reference definition: the live cells of the grid adjacent to (r, c); a cell
      outside the grid is never a neighbour (no wrap-around). */
  function LiveNeighbourCells(a: Board, size: nat, r: int, c: int): set<Coord>
    requires IsSquare(a, size)
  {
    set i: int, j: int | 0 <= i < size && 0 <= j < size && Adjacent(r, c, i, j) && a[i][j] :: (i, j)
  }

  /** The position of an offset in `Directions`, for the eight non-zero offsets. */
  function DirIndex(dr: int, dc: int): int {
    if dr == -1 then dc + 1 else if dr == 0 then (if dc < 0 then 3 else 4) else dc + 6
  }

  lemma DirIndexOfDirection(k: nat)
    requires k < |Directions|
    ensures DirIndex(Directions[k].0, Directions[k].1) == k
  {
  }

  lemma DirectionOfDirIndex(dr: int, dc: int)
    requires -1 <= dr <= 1 && -1 <= dc <= 1 && (dr, dc) != (0, 0)
    ensures 0 <= DirIndex(dr, dc) < |Directions| && Directions[DirIndex(dr, dc)] == (dr, dc)
  {
  }

  /** The targets of the hits among the first `k` directions. */
  ghost function HitTargets(a: Board, size: nat, r: int, c: int, k: nat): set<Coord>
    requires IsSquare(a, size) && k <= |Directions|
  {
    if k == 0 then {}
    else HitTargets(a, size, r, c, k - 1) + (if Hit(a, size, r, c, k - 1) then {Target(r, c, k - 1)} else {})
  }

  /** The hit of direction `k` is exactly the live neighbour whose offset has index `k`. */
  lemma HitIsIndexedNeighbour(a: Board, size: nat, r: int, c: int, k: nat, p: Coord)
    requires IsSquare(a, size) && k < |Directions|
    ensures (Hit(a, size, r, c, k) && p == Target(r, c, k)) <==>
            (p in LiveNeighbourCells(a, size, r, c) && DirIndex(p.0 - r, p.1 - c) == k)
  {
    DirIndexOfDirection(k);
    if p in LiveNeighbourCells(a, size, r, c) {
      DirectionOfDirIndex(p.0 - r, p.1 - c);
    }
  }

  lemma {:induction false} HitTargetsExact(a: Board, size: nat, r: int, c: int, k: nat)
    requires IsSquare(a, size) && k <= |Directions|
    ensures forall p :: p in HitTargets(a, size, r, c, k) <==>
              p in LiveNeighbourCells(a, size, r, c) && DirIndex(p.0 - r, p.1 - c) < k
    ensures CountUpTo(a, size, r, c, k) == |HitTargets(a, size, r, c, k)|
  {
    if k > 0 {
      HitTargetsExact(a, size, r, c, k - 1);
      forall p
        ensures p in HitTargets(a, size, r, c, k) <==>
                p in LiveNeighbourCells(a, size, r, c) && DirIndex(p.0 - r, p.1 - c) < k
      {
        HitIsIndexedNeighbour(a, size, r, c, k - 1, p);
      }
      var t := Target(r, c, k - 1);
      DirIndexOfDirection(k - 1);
      assert t !in HitTargets(a, size, r, c, k - 1);
    }
  }

  /** The counting loop counts exactly the live neighbour cells: no cell is missed,
      none is counted twice, and nothing outside the grid is counted. */
  lemma CountIsLiveNeighbourCells(a: Board, size: nat, r: int, c: int)
    requires IsSquare(a, size)
    ensures LiveNeighbours(a, size, r, c) == |LiveNeighbourCells(a, size, r, c)|
  {
    HitTargetsExact(a, size, r, c, |Directions|);
    var hs, ls := HitTargets(a, size, r, c, |Directions|), LiveNeighbourCells(a, size, r, c);
    forall p | p in ls
      ensures p in hs
    {
      DirectionOfDirIndex(p.0 - r, p.1 - c);
    }
    assert hs == ls;
  }

  /** The count, written out over the eight directions. */
  lemma Unrolled(a: Board, size: nat, r: int, c: int)
    requires IsSquare(a, size)
    ensures LiveNeighbours(a, size, r, c) ==
      (if Hit(a, size, r, c, 0) then 1 else 0) + (if Hit(a, size, r, c, 1) then 1 else 0) +
      (if Hit(a, size, r, c, 2) then 1 else 0) + (if Hit(a, size, r, c, 3) then 1 else 0) +
      (if Hit(a, size, r, c, 4) then 1 else 0) + (if Hit(a, size, r, c, 5) then 1 else 0) +
      (if Hit(a, size, r, c, 6) then 1 else 0) + (if Hit(a, size, r, c, 7) then 1 else 0)
  {
    assert CountUpTo(a, size, r, c, 1) == (if Hit(a, size, r, c, 0) then 1 else 0);
    assert CountUpTo(a, size, r, c, 2) == CountUpTo(a, size, r, c, 1) + (if Hit(a, size, r, c, 1) then 1 else 0);
    assert CountUpTo(a, size, r, c, 3) == CountUpTo(a, size, r, c, 2) + (if Hit(a, size, r, c, 2) then 1 else 0);
    assert CountUpTo(a, size, r, c, 4) == CountUpTo(a, size, r, c, 3) + (if Hit(a, size, r, c, 3) then 1 else 0);
    assert CountUpTo(a, size, r, c, 5) == CountUpTo(a, size, r, c, 4) + (if Hit(a, size, r, c, 4) then 1 else 0);
    assert CountUpTo(a, size, r, c, 6) == CountUpTo(a, size, r, c, 5) + (if Hit(a, size, r, c, 5) then 1 else 0);
    assert CountUpTo(a, size, r, c, 7) == CountUpTo(a, size, r, c, 6) + (if Hit(a, size, r, c, 6) then 1 else 0);
  }

  /** A corner cell is on two edges of the grid. */
  predicate IsCorner(size: nat, r: int, c: int) {
    (r == 0 || r == size - 1) && (c == 0 || c == size - 1)
  }

  /** An edge cell is on at least one edge of the grid. */
  predicate IsEdge(size: nat, r: int, c: int) {
    r == 0 || r == size - 1 || c == 0 || c == size - 1
  }

  /** Counts lie in 0..8; only in-bounds offsets count, so an edge cell sees at
      most 5 live neighbours and a corner cell at most 3. */
  lemma CountBounds(a: Board, size: nat, r: int, c: int)
    requires IsSquare(a, size) && InBounds(size, r, c)
    ensures LiveNeighbours(a, size, r, c) <= 8
    ensures IsEdge(size, r, c) ==> LiveNeighbours(a, size, r, c) <= 5
    ensures IsCorner(size, r, c) ==> LiveNeighbours(a, size, r, c) <= 3
  {
    Unrolled(a, size, r, c);
  }

  /** A board with no live cell gives every cell a zero count. */
  lemma {:induction false} NoLiveNoCount(a: Board, size: nat, r: int, c: int, k: nat)
    requires IsSquare(a, size) && k <= |Directions|
    requires forall i, j :: 0 <= i < size && 0 <= j < size ==> !a[i][j]
    ensures CountUpTo(a, size, r, c, k) == 0
  {
    if k > 0 {
      NoLiveNoCount(a, size, r, c, k - 1);
    }
  }

  /** A cell's count is read from the alive flags alone: two grids whose cells agree
      on `alive` give every cell the same count, whatever counts their cells hold. */
  lemma CountReadsOnlyAlive(g: Grid, h: Grid, size: nat, r: int, c: int)
    requires IsSquare(g, size) && IsSquare(h, size)
    requires forall i, j :: 0 <= i < size && 0 <= j < size ==> g[i][j].alive == h[i][j].alive
    ensures LiveNeighbours(AliveOf(g), size, r, c) == LiveNeighbours(AliveOf(h), size, r, c)
  {
    AliveOfIgnoresCounts(g, h, size);
  }

  /** `g` with only the count of cell (r, c) replaced by `n`. */
  function SetCount(g: Grid, r: nat, c: nat, n: nat): Grid
    requires r < |g| && c < |g[r]|
  {
    g[r := g[r][c := g[r][c].(livingNeighbors := n)]]
  }

  /** Resets the count of cell (r, c), then adds one for every direction that lands
      in bounds on a live cell. Reads only alive flags. */
  method UpdateNeighborsForCell(g: Grid, size: nat, r: nat, c: nat) returns (h: Grid)
    requires IsSquare(g, size) && r < size && c < size
    ensures IsSquare(h, size)
    ensures forall i, j :: 0 <= i < size && 0 <= j < size && (i, j) != (r, c) ==> h[i][j] == g[i][j]
    ensures h[r][c].alive == g[r][c].alive
    ensures h[r][c].livingNeighbors == |LiveNeighbourCells(AliveOf(g), size, r, c)|
    ensures h[r][c].livingNeighbors == LiveNeighbours(AliveOf(g), size, r, c)
  {
    ghost var a := AliveOf(g);
    var count := 0;
    var x := 0;
    while x < |Directions|
      invariant x <= |Directions|
      invariant count == CountUpTo(a, size, r, c, x)
    {
      var row := Directions[x].0 + r;
      var col := Directions[x].1 + c;
      if InBounds(size, row, col) {
        if g[row][col].alive {
          count := count + 1;
        }
      }
      x := x + 1;
    }
    CountIsLiveNeighbourCells(a, size, r, c);
    h := SetCount(g, r, c, count);
  }

  /** One row of the counting pass: updates the counts of row `row`, left to right. */
  method UpdateNeighborsInRow(g: Grid, size: nat, row: nat) returns (h: Grid)
    requires IsSquare(g, size) && row < size
    ensures IsSquare(h, size)
    ensures forall i, j :: 0 <= i < size && 0 <= j < size ==> h[i][j].alive == g[i][j].alive
    ensures forall i, j :: 0 <= i < size && 0 <= j < size && i != row ==> h[i][j] == g[i][j]
    ensures forall j :: 0 <= j < size ==> h[row][j].livingNeighbors == LiveNeighbours(AliveOf(g), size, row, j)
  {
    ghost var a := AliveOf(g);
    h := g;
    var col := 0;
    while col < size
      invariant col <= size && IsSquare(h, size)
      invariant forall i, j :: 0 <= i < size && 0 <= j < size ==> h[i][j].alive == g[i][j].alive
      invariant forall i, j :: 0 <= i < size && 0 <= j < size && i != row ==> h[i][j] == g[i][j]
      invariant forall j :: 0 <= j < col ==> h[row][j].livingNeighbors == LiveNeighbours(a, size, row, j)
    {
      AliveOfIgnoresCounts(h, g, size);
      h := UpdateNeighborsForCell(h, size, row, col);
      col := col + 1;
    }
  }

  /** The counting pass along an arbitrary traversal, each visit updating one cell's
      count from the grid as it stands at that moment. */
  function CountPassAlong(g: Grid, size: nat, visits: seq<Coord>): (h: Grid)
    requires IsSquare(g, size) && Within(visits, size)
    ensures IsSquare(h, size)
    decreases |visits|
  {
    if visits == [] then g
    else
      var p := visits[0];
      CountPassAlong(SetCount(g, p.0, p.1, LiveNeighbours(AliveOf(g), size, p.0, p.1)), size, visits[1..])
  }

  /** Whatever the order of the visits, the counting pass keeps every alive flag,
      gives every visited cell the count of the board before the pass, and leaves
      unvisited cells alone. */
  lemma {:induction false} CountPassAnyOrder(g: Grid, size: nat, visits: seq<Coord>)
    requires IsSquare(g, size) && Within(visits, size)
    ensures var h := CountPassAlong(g, size, visits);
            forall i, j :: 0 <= i < size && 0 <= j < size ==>
              h[i][j].alive == g[i][j].alive &&
              ((i, j) in visits ==> h[i][j].livingNeighbors == LiveNeighbours(AliveOf(g), size, i, j)) &&
              ((i, j) !in visits ==> h[i][j] == g[i][j])
    decreases |visits|
  {
    if visits != [] {
      var p := visits[0];
      var g1 := SetCount(g, p.0, p.1, LiveNeighbours(AliveOf(g), size, p.0, p.1));
      AliveOfIgnoresCounts(g, g1, size);
      CountPassAnyOrder(g1, size, visits[1..]);
      forall i, j | 0 <= i < size && 0 <= j < size && (i, j) in visits
        ensures (i, j) == p || (i, j) in visits[1..]
      {
        var k :| 0 <= k < |visits| && visits[k] == (i, j);
        if k > 0 {
          assert visits[1..][k - 1] == (i, j);
        }
      }
    }
  }

  /** The counting pass: visits every cell in row-major order, updating each cell's
      count in place. Alive flags are untouched, so every count is taken from the
      alive flags the grid had before the pass. */
  method UpdateNeighbors(g: Grid, size: nat) returns (h: Grid)
    requires IsSquare(g, size)
    ensures IsSquare(h, size)
    ensures forall i, j :: 0 <= i < size && 0 <= j < size ==>
              h[i][j].alive == g[i][j].alive &&
              h[i][j].livingNeighbors == LiveNeighbours(AliveOf(g), size, i, j)
    ensures Within(RowMajor(size), size) && h == CountPassAlong(g, size, RowMajor(size))
  {
    ghost var a := AliveOf(g);
    h := g;
    var row := 0;
    while row < size
      invariant row <= size && IsSquare(h, size)
      invariant forall i, j :: 0 <= i < size && 0 <= j < size ==> h[i][j].alive == g[i][j].alive
      invariant forall i, j :: 0 <= i < row && 0 <= j < size ==>
                  h[i][j].livingNeighbors == LiveNeighbours(a, size, i, j)
    {
      AliveOfIgnoresCounts(h, g, size);
      h := UpdateNeighborsInRow(h, size, row);
      row := row + 1;
    }
    RowMajorTraversal(size);
    CountPassAnyOrder(g, size, RowMajor(size));
    SquareExtensionality(h, CountPassAlong(g, size, RowMajor(size)), size);
  }
}

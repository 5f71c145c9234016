/** The grid of the Game of Life engine: cells, the square grid that owns them,
    the bounds check, the row-major traversal order and grid construction. */
module Cells {

  /** A fresh cell starts alive when its uniform draw in [0, 1) exceeds this threshold. */
  const AliveThreshold: real := 0.6

  /** One cell: its state in the current generation and the count written by the
      last neighbour-counting pass. */
  datatype Cell = Cell(alive: bool, livingNeighbors: nat)

  /** Rows of cells, indexed `grid[row][col]`. */
  type Grid = seq<seq<Cell>>

  /** One generation reduced to its alive flags. */
  type Board = seq<seq<bool>>

  type Coord = (int, int)

  /** The engine object: the side length and the grid it owns. */
  datatype Conway = Conway(size: nat, grid: Grid) {
    predicate Valid() {
      IsSquare(grid, size)
    }
  }

  /** `g` has exactly `size` rows of exactly `size` entries. */
  predicate IsSquare<T>(g: seq<seq<T>>, size: nat) {
    |g| == size && forall r :: 0 <= r < size ==> |g[r]| == size
  }

  /** Every coordinate of a `size` by `size` grid. */
  function Coords(size: nat): set<Coord> {
    set r: int, c: int | 0 <= r < size && 0 <= c < size :: (r, c)
  }

  /** The bounds check used before any neighbour is dereferenced. */
  predicate InBounds(size: nat, r: int, c: int)
    ensures InBounds(size, r, c) <==> (r, c) in Coords(size)
  {
    r >= 0 && r < size && c >= 0 && c < size
  }

  /** The alive flags of a grid, cell for cell. */
  function AliveOf(g: Grid): (a: Board)
    ensures |a| == |g|
    ensures forall r :: 0 <= r < |g| ==> |a[r]| == |g[r]|
    ensures forall r, c :: 0 <= r < |g| && 0 <= c < |g[r]| ==> a[r][c] == g[r][c].alive
  {
    seq(|g|, r requires 0 <= r < |g| => seq(|g[r]|, c requires 0 <= c < |g[r]| => g[r][c].alive))
  }

  /** Two square tables of the same size that agree at every position are equal. */
  lemma SquareExtensionality<T>(a: seq<seq<T>>, b: seq<seq<T>>, size: nat)
    requires IsSquare(a, size) && IsSquare(b, size)
    requires forall r, c :: 0 <= r < size && 0 <= c < size ==> a[r][c] == b[r][c]
    ensures a == b
  {
    forall r | 0 <= r < size
      ensures a[r] == b[r]
    {
      assert forall c :: 0 <= c < size ==> a[r][c] == b[r][c];
    }
  }

  /** Two grids of the same shape whose cells agree on `alive` have the same board,
      whatever their neighbour counts. */
  lemma AliveOfIgnoresCounts(g: Grid, h: Grid, size: nat)
    requires IsSquare(g, size) && IsSquare(h, size)
    requires forall r, c :: 0 <= r < size && 0 <= c < size ==> g[r][c].alive == h[r][c].alive
    ensures AliveOf(g) == AliveOf(h)
  {
    SquareExtensionality(AliveOf(g), AliveOf(h), size);
  }

  /** Strict row-major (lexicographic) order on coordinates. */
  predicate Precedes(p: Coord, q: Coord) {
    p.0 < q.0 || (p.0 == q.0 && p.1 < q.1)
  }

  /** The coordinates of row `r`, left to right. */
  function RowCoords(size: nat, r: int): (cs: seq<Coord>)
    ensures |cs| == size
    ensures forall k :: 0 <= k < size ==> cs[k] == (r, k)
  {
    seq(size, c => (r, c))
  }

  /** The visits of the traversal from row `r` to the last row. */
  function RowsFrom(size: nat, r: nat): (cs: seq<Coord>)
    requires r <= size
    ensures |cs| == (size - r) * size
    ensures forall k :: 0 <= k < |cs| ==> r <= cs[k].0 < size && 0 <= cs[k].1 < size
    ensures forall i, j :: r <= i < size && 0 <= j < size ==> (i, j) in cs
    ensures forall k, l :: 0 <= k < l < |cs| ==> Precedes(cs[k], cs[l])
    decreases size - r
  {
    if r == size then []
    else
      var row, rest := RowCoords(size, r), RowsFrom(size, r + 1);
      var cs := row + rest;
      assert forall k :: 0 <= k < size ==> cs[k] == row[k];
      assert forall k :: size <= k < |cs| ==> cs[k] == rest[k - size];
      assert forall j :: 0 <= j < size ==> cs[j] == (r, j);
      cs
  }

  /** The order in which the traversal visits a `size` by `size` grid: every
      coordinate exactly once, row by row, each row left to right. */
  function RowMajor(size: nat): (cs: seq<Coord>)
    ensures |cs| == size * size
    ensures forall k :: 0 <= k < |cs| ==> cs[k] in Coords(size)
    ensures forall p :: p in Coords(size) ==> p in cs
    ensures forall k, l :: 0 <= k < l < |cs| ==> Precedes(cs[k], cs[l]) && cs[k] != cs[l]
  {
    RowsFrom(size, 0)
  }

  /** Every visit of a traversal is a coordinate of the grid. */
  predicate Within(visits: seq<Coord>, size: nat) {
    forall k :: 0 <= k < |visits| ==> InBounds(size, visits[k].0, visits[k].1)
  }

  /** A traversal reaches every coordinate of the grid. */
  predicate Covers(visits: seq<Coord>, size: nat) {
    forall i, j :: 0 <= i < size && 0 <= j < size ==> (i, j) in visits
  }

  /** The row-major traversal stays on the grid and reaches every cell of it. */
  lemma RowMajorTraversal(size: nat)
    ensures Within(RowMajor(size), size) && Covers(RowMajor(size), size)
  {
  }

  /** A new cell from one uniform draw: alive with the draw above the threshold, count zero. */
  function NewCell(draw: real): Cell {
    Cell(draw > AliveThreshold, 0)
  }

  /** Builds the `size` by `size` grid, drawing one random number per cell in
      row-major order; `random(k)` is the `k`-th draw. */
  method GenerateGrid(size: nat, random: nat -> real) returns (g: Grid)
    ensures IsSquare(g, size)
    ensures forall r, c :: 0 <= r < size && 0 <= c < size ==>
              (g[r][c].alive <==> random(r * size + c) > AliveThreshold) && g[r][c].livingNeighbors == 0
  {
    g := [];
    var row := 0;
    while row < size
      invariant row <= size && |g| == row
      invariant forall i :: 0 <= i < row ==> |g[i]| == size
      invariant forall i, j :: 0 <= i < row && 0 <= j < size ==> g[i][j] == NewCell(random(i * size + j))
    {
      var cells := [];
      var col := 0;
      while col < size
        invariant col <= size && |cells| == col
        invariant forall j :: 0 <= j < col ==> cells[j] == NewCell(random(row * size + j))
      {
        cells := cells + [NewCell(random(row * size + col))];
        col := col + 1;
      }
      g := g + [cells];
      row := row + 1;
    }
  }

  /** Constructs the engine: records the size and generates its grid. */
  method NewConway(size: nat, random: nat -> real) returns (cw: Conway)
    ensures cw.Valid() && cw.size == size
    ensures forall r, c :: 0 <= r < size && 0 <= c < size ==>
              (cw.grid[r][c].alive <==> random(r * size + c) > AliveThreshold) &&
              cw.grid[r][c].livingNeighbors == 0
  {
    var g := GenerateGrid(size, random);
    cw := Conway(size, g);
  }
}

/** The simulation step: the pure next-generation function, the two-pass step the
    engine runs on every tick, and the properties that tie the two together. */
module Engine {
  import opened Cells
  import opened Neighbours
  import opened Rules

  /** The next generation: every cell decided by the rules from the live-neighbour
      count of the given generation, all cells at once. */
  function NextGen(a: Board, size: nat): (b: Board)
    requires IsSquare(a, size)
    ensures IsSquare(b, size)
  {
    seq(size, i requires 0 <= i < size =>
      seq(size, j requires 0 <= j < size => LifeRule(a[i][j], LiveNeighbours(a, size, i, j))))
  }

  /** The generation `n` ticks after `a`. */
  function Generations(a: Board, size: nat, n: nat): (b: Board)
    requires IsSquare(a, size)
    ensures IsSquare(b, size)
    decreases n
  {
    if n == 0 then a else Generations(NextGen(a, size), size, n - 1)
  }

  /** One tick: the counting pass over the whole grid, then the state pass over the
      whole grid. The new alive flags are the next generation of the old ones, and
      the counts left behind are those of the old generation. */
  method Step(cw: Conway) returns (next: Conway)
    requires cw.Valid()
    ensures next.Valid() && next.size == cw.size
    ensures AliveOf(next.grid) == NextGen(AliveOf(cw.grid), cw.size)
    ensures forall i, j :: 0 <= i < cw.size && 0 <= j < cw.size ==>
              next.grid[i][j].livingNeighbors == LiveNeighbours(AliveOf(cw.grid), cw.size, i, j)
    ensures Within(RowMajor(cw.size), cw.size) &&
            next.grid == StatePassAlong(CountPassAlong(cw.grid, cw.size, RowMajor(cw.size)), cw.size, RowMajor(cw.size))
  {
    var counted := UpdateNeighbors(cw.grid, cw.size);
    var decided := UpdateStates(counted, cw.size);
    next := Conway(cw.size, decided);
    SquareExtensionality(AliveOf(decided), NextGen(AliveOf(cw.grid), cw.size), cw.size);
  }

  /** The central invariant: as long as the counting pass finishes over the whole
      grid before the state pass starts, the resulting generation is the pure next
      generation of the old one, for any two traversals that reach every cell. */
  lemma StepAnyOrder(g: Grid, size: nat, countOrder: seq<Coord>, stateOrder: seq<Coord>)
    requires IsSquare(g, size)
    requires Within(countOrder, size) && Covers(countOrder, size)
    requires Within(stateOrder, size) && Covers(stateOrder, size)
    ensures AliveOf(StatePassAlong(CountPassAlong(g, size, countOrder), size, stateOrder)) == NextGen(AliveOf(g), size)
  {
    var counted := CountPassAlong(g, size, countOrder);
    CountPassAnyOrder(g, size, countOrder);
    StatePassAnyOrder(counted, size, stateOrder);
    SquareExtensionality(AliveOf(StatePassAlong(counted, size, stateOrder)), NextGen(AliveOf(g), size), size);
  }

  /** The row-major traversal, the one both passes of `Step` follow, is one such order. */
  lemma RowMajorStep(g: Grid, size: nat)
    requires IsSquare(g, size)
    ensures Within(RowMajor(size), size) && Covers(RowMajor(size), size)
    ensures AliveOf(StatePassAlong(CountPassAlong(g, size, RowMajor(size)), size, RowMajor(size))) == NextGen(AliveOf(g), size)
  {
    RowMajorTraversal(size);
    StepAnyOrder(g, size, RowMajor(size), RowMajor(size));
  }

  /** A generation that the step maps to itself stays forever. */
  lemma {:induction false} FixedPointForever(a: Board, size: nat, n: nat)
    requires IsSquare(a, size) && NextGen(a, size) == a
    ensures Generations(a, size, n) == a
  {
    if n > 0 {
      FixedPointForever(a, size, n - 1);
    }
  }

  predicate AllDead(a: Board, size: nat)
    requires IsSquare(a, size)
  {
    forall i, j :: 0 <= i < size && 0 <= j < size ==> !a[i][j]
  }

  /** No spontaneous generation: an all-dead grid is all dead after any number of ticks. */
  lemma AllDeadStaysDead(a: Board, size: nat, n: nat)
    requires IsSquare(a, size) && AllDead(a, size)
    ensures Generations(a, size, n) == a
  {
    var b := NextGen(a, size);
    forall i, j | 0 <= i < size && 0 <= j < size
      ensures b[i][j] == a[i][j]
    {
      NoLiveNoCount(a, size, i, j, |Directions|);
    }
    SquareExtensionality(b, a, size);
    FixedPointForever(a, size, n);
  }

  /** A single live cell with no live neighbour dies, and nothing is born, on a grid
      of any size. */
  lemma IsolatedCellDies(a: Board, size: nat, p: int, q: int)
    requires IsSquare(a, size) && InBounds(size, p, q)
    requires forall i, j :: 0 <= i < size && 0 <= j < size ==> (a[i][j] <==> (i, j) == (p, q))
    ensures AllDead(NextGen(a, size), size)
  {
    forall i, j | 0 <= i < size && 0 <= j < size
      ensures LiveNeighbours(a, size, i, j) <= 1
      ensures (i, j) == (p, q) ==> LiveNeighbours(a, size, i, j) == 0
    {
      Unrolled(a, size, i, j);
    }
  }

  /** The board whose live cells are exactly the 2 by 2 block with top-left corner (p, q). */
  predicate IsBlock(a: Board, size: nat, p: int, q: int)
    requires IsSquare(a, size)
  {
    forall i, j :: 0 <= i < size && 0 <= j < size ==> (a[i][j] <==> p <= i <= p + 1 && q <= j <= q + 1)
  }

  /** The count under a block: three for the cells of the block, at most two elsewhere. */
  lemma BlockCounts(a: Board, size: nat, p: int, q: int, i: int, j: int)
    requires IsSquare(a, size) && 0 <= p && p + 1 < size && 0 <= q && q + 1 < size
    requires IsBlock(a, size, p, q) && InBounds(size, i, j)
    ensures a[i][j] ==> LiveNeighbours(a, size, i, j) == 3
    ensures !a[i][j] ==> LiveNeighbours(a, size, i, j) <= 2
  {
    Unrolled(a, size, i, j);
  }

  /** A 2 by 2 block anywhere on the grid, even against an edge, is a still life:
      every tick leaves the grid as it was. */
  lemma BlockIsStillLife(a: Board, size: nat, p: int, q: int, n: nat)
    requires IsSquare(a, size) && 0 <= p && p + 1 < size && 0 <= q && q + 1 < size
    requires IsBlock(a, size, p, q)
    ensures Generations(a, size, n) == a
  {
    var b := NextGen(a, size);
    forall i, j | 0 <= i < size && 0 <= j < size
      ensures b[i][j] == a[i][j]
    {
      BlockCounts(a, size, p, q, i, j);
    }
    SquareExtensionality(b, a, size);
    FixedPointForever(a, size, n);
  }

  /** The 5 by 5 board with the block at (1, 1) and one more live cell at (0, 0). */
  predicate BlockWithCorner(a: Board)
    requires IsSquare(a, 5)
  {
    forall i, j :: 0 <= i < 5 && 0 <= j < 5 ==>
      (a[i][j] <==> (i, j) == (0, 0) || (1 <= i <= 2 && 1 <= j <= 2))
  }

  /** The count of one cell of that board, and its fate. */
  lemma BlockWithCornerCell(a: Board, i: int, j: int)
    requires IsSquare(a, 5) && BlockWithCorner(a) && InBounds(5, i, j)
    ensures LifeRule(a[i][j], LiveNeighbours(a, 5, i, j)) <==> (i, j) in {(0, 1), (1, 0), (1, 2), (2, 1), (2, 2)}
  {
    Unrolled(a, 5, i, j);
  }

  /** Adding (0, 0) next to the block: (0, 0) has one live neighbour and dies, but it
      also gives (1, 1) a fourth live neighbour, so (1, 1) dies of over-population
      while (0, 1) and (1, 0) are born; the block does not survive unchanged. */
  lemma BlockWithCornerNextGen(a: Board)
    requires IsSquare(a, 5) && BlockWithCorner(a)
    ensures var b := NextGen(a, 5);
            forall i, j :: 0 <= i < 5 && 0 <= j < 5 ==>
              (b[i][j] <==> (i, j) in {(0, 1), (1, 0), (1, 2), (2, 1), (2, 2)})
  {
    forall i, j | 0 <= i < 5 && 0 <= j < 5
      ensures NextGen(a, 5)[i][j] <==> (i, j) in {(0, 1), (1, 0), (1, 2), (2, 1), (2, 2)}
    {
      BlockWithCornerCell(a, i, j);
    }
  }
}

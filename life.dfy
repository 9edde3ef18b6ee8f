/**
 * The incremental Game of Life engine (rule B3/S23) on a `Height` x `Width`
 * torus. Every cell carries its own count of live neighbours, which is never
 * found by a scan of the neighbourhood. Each generation, the scratch counts of
 * the swept rectangle are zeroed and rebuilt by incrementing the 8 neighbours
 * of every cell alive in the new generation, survivors and births alike. The
 * mouse edits increment or decrement the neighbours of the one cell they change.
 */
module Life {
  import opened Torus
  import opened Runs

  /** A grid cell: the source's `Cell{isAlive, neighbour_count, hasChanged}`. */
  datatype Cell = Cell(isAlive: bool, neighbourCount: int, hasChanged: bool)

  /** The record `{false, 0, false}` that grids are filled and cleared with. */
  const DeadCell := Cell(false, 0, false)

  /** B3/S23: a live cell survives with 2 or 3 live neighbours, a dead cell is born with exactly 3. */
  predicate LifeRule(alive: bool, count: int) {
    (alive && (count == 2 || count == 3)) || (!alive && count == 3)
  }

  /** A cell the row scan of `DrawArray` draws: alive, or changed in the last step. */
  predicate Marked(c: Cell) {
    c.hasChanged || c.isAlive
  }

  /** The live cells of `g` inside the top-left `rows` x `cols` rectangle. */
  ghost function LiveCells(g: array2<Cell>, rows: int, cols: int): iset<Pos>
    reads g
    requires 0 <= rows <= g.Length0 && 0 <= cols <= g.Length1
  {
    iset c: Pos | 0 <= c.0 < rows && 0 <= c.1 < cols && g[c.0, c.1].isAlive
  }

  /**
   * One generation of B3/S23 on a `height` x `width` torus, as a set of live
   * cells: a cell is alive next when the rule holds for its state and its
   * live-neighbour count by multiplicity.
   */
  ghost function NextGeneration(live: iset<Pos>, height: int, width: int): iset<Pos> {
    iset c: Pos | InGrid(c.0, c.1, height, width) && LifeRule(c in live, LiveCount(live, c.0, c.1, height, width))
  }

  /** A grid whose every cell follows the rule on `before` holds the next generation of `before`. */
  lemma NextGenerationOfGrid(g: array2<Cell>, before: iset<Pos>)
    requires forall p, q {:trigger g[p, q]} :: 0 <= p < g.Length0 && 0 <= q < g.Length1 ==>
      g[p, q].isAlive == LifeRule((p, q) in before, LiveCount(before, p, q, g.Length0, g.Length1))
    ensures LiveCells(g, g.Length0, g.Length1) == NextGeneration(before, g.Length0, g.Length1)
  {
  }

  /**
   * The positions whose random bit is 1 and that come at or after `from` and
   * strictly before `to` in row-major order.
   */
  ghost function LiveBits(bits: seq<seq<bool>>, from: Pos, to: Pos): iset<Pos> {
    iset c: Pos | 0 <= c.0 < |bits| && 0 <= c.1 < |bits[c.0]| && bits[c.0][c.1] &&
                  !LexLess(c, from) && LexLess(c, to)
  }

  /** `bits` is a `height` x `width` matrix of random bits. */
  predicate BitsShaped(bits: seq<seq<bool>>, height: int, width: int) {
    |bits| == height && forall r :: 0 <= r < height ==> |bits[r]| == width
  }

  /** Passing (i, j) in row-major order adds (i, j) to the live bits seen so far when its bit is 1. */
  lemma LiveBitsStep(bits: seq<seq<bool>>, from: Pos, i: int, j: int, height: int, width: int)
    requires BitsShaped(bits, height, width) && InGrid(i, j, height, width) && !LexLess((i, j), from)
    ensures LiveBits(bits, from, (i, j + 1)) == LiveBits(bits, from, (i, j)) + (if bits[i][j] then iset{(i, j)} else iset{})
  {
  }

  /** The end of row i is the start of row i + 1. */
  lemma LiveBitsRowEnd(bits: seq<seq<bool>>, from: Pos, i: int, height: int, width: int)
    requires BitsShaped(bits, height, width)
    ensures LiveBits(bits, from, (i, width)) == LiveBits(bits, from, (i + 1, 0))
  {
  }

  /**
   * Passing (i, j) raises the live count of (p, q) over the bits seen so far by
   * what `IncreaseNeighbourCounts` at (i, j) adds to (p, q), when its bit is 1.
   */
  lemma LiveBitsCountStep(bits: seq<seq<bool>>, from: Pos, p: int, q: int, i: int, j: int, height: int, width: int)
    requires BitsShaped(bits, height, width) && InGrid(i, j, height, width) && InGrid(p, q, height, width)
    requires !LexLess((i, j), from)
    ensures LiveCount(LiveBits(bits, from, (i, j + 1)), p, q, height, width)
         == LiveCount(LiveBits(bits, from, (i, j)), p, q, height, width) + (if bits[i][j] then Multiplicity(i, j, p, q, height, width) else 0)
  {
    LiveBitsStep(bits, from, i, j, height, width);
    if bits[i][j] {
      LiveCountBirth(LiveBits(bits, from, (i, j)), (i, j), p, q, height, width);
    }
  }

  /** A grid whose flags are the bits has the live bits as its live cells. */
  lemma LiveCellsOfBits(g: array2<Cell>, bits: seq<seq<bool>>)
    requires BitsShaped(bits, g.Length0, g.Length1)
    requires forall p, q :: 0 <= p < g.Length0 && 0 <= q < g.Length1 ==> g[p, q].isAlive == bits[p][q]
    ensures LiveCells(g, g.Length0, g.Length1) == LiveBits(bits, (0, 0), (g.Length0, 0))
  {
  }

  /**
   * The count `InitializeGrid` leaves in (p, q) — the live bits at its offsets
   * from (p, q) onwards in row-major order — falls short of its true number of
   * live neighbours by exactly the live bits at its offsets visited before it.
   */
  lemma InitialCountMissesEarlier(bits: seq<seq<bool>>, p: int, q: int, height: int, width: int)
    requires BitsShaped(bits, height, width) && InGrid(p, q, height, width)
    ensures LiveCount(LiveBits(bits, (p, q), (height, 0)), p, q, height, width)
         == LiveCount(LiveBits(bits, (0, 0), (height, 0)), p, q, height, width)
          - LiveCount(LiveBits(bits, (0, 0), (p, q)), p, q, height, width)
  {
    var before, after := LiveBits(bits, (0, 0), (p, q)), LiveBits(bits, (p, q), (height, 0));
    assert before + after == LiveBits(bits, (0, 0), (height, 0));
    LiveCountUnion(before, after, p, q, height, width);
  }

  /** A 3 x 3 field whose only live bit is the top-left corner. */
  const CornerBits := [[true, false, false], [false, false, false], [false, false, false]]

  /**
   * On `CornerBits`, `InitializeGrid` gives (0, 1) a count of 0 although its
   * neighbour (0, 0) is alive: the increment from (0, 0) is wiped when (0, 1)
   * is reset.
   */
  lemma InitialCountWrongOnCorner()
    ensures LiveCount(LiveBits(CornerBits, (0, 1), (3, 0)), 0, 1, 3, 3) == 0
    ensures LiveCount(LiveBits(CornerBits, (0, 0), (3, 0)), 0, 1, 3, 3) == 1
  {
    assert LiveBits(CornerBits, (0, 1), (3, 0)) == iset{};
    assert LiveBits(CornerBits, (0, 0), (3, 0)) == iset{(0, 0)};
  }

  /** Which cells of row `i` are marked, column by column. */
  ghost function RowMarks(g: array2<Cell>, i: int): seq<bool>
    reads g
    requires 0 <= i < g.Length0
  {
    seq(g.Length1, j requires 0 <= j < g.Length1 reads g => Marked(g[i, j]))
  }

  /**
   * The row scan of `DrawArray`: one pass over row `i` that carries the start
   * of the open run (-1 when none is open) and emits [start, end) whenever the
   * run ends, including a run still open at the end of the row.
   */
  method RowRuns(g: array2<Cell>, i: int) returns (runs: seq<Span>)
    requires 0 <= i < g.Length0
    ensures IsRunDecomposition(RowMarks(g, i), runs)
  {
    ghost var marks := RowMarks(g, i);
    runs := [];
    var start := -1;
    for j := 0 to g.Length1
      invariant start == -1 ==> IsRunDecomposition(marks[..j], runs) && (0 < j ==> !marks[j - 1])
      invariant start != -1 ==>
        0 <= start < j && IsRunDecomposition(marks[..start], runs) &&
        (0 < start ==> !marks[start - 1]) && forall c :: start <= c < j ==> marks[c]
    {
      if g[i, j].hasChanged || g[i, j].isAlive {
        if start == -1 {
          start := j;
        }
      } else {
        if start != -1 {
          CloseRun(marks, runs, start, j);
          runs := runs + [Span(start, j)];
          start := -1;
        }
        SkipUnmarked(marks, runs, j);
      }
    }
    if start != -1 {
      CloseRun(marks, runs, start, g.Length1);
      runs := runs + [Span(start, g.Length1)];
    }
    assert marks[..g.Length1] == marks;
  }

  /**
   * How far the count of cell (p, q) of `g` exceeds the number of live cells of
   * the top-left `height` x `width` rectangle at its 8 wrapped offsets.
   */
  ghost function Surplus(g: array2<Cell>, p: int, q: int, height: int, width: int): int
    requires InGrid(p, q, g.Length0, g.Length1) && 0 <= height <= g.Length0 && 0 <= width <= g.Length1
    reads g
  {
    g[p, q].neighbourCount - LiveCount(LiveCells(g, height, width), p, q, g.Length0, g.Length1)
  }

  /**
   * A one-cell edit of grid `g` at (x, y), judged against the live cells of
   * its top-left `height` x `width` rectangle.
   */
  // The edit is bundled into one value because a two-state lemma with several
  // parameters is not handled reliably by the verifier when it also checks for
  // contradictory assumptions.
  datatype CellEdit = CellEdit(g: array2<Cell>, x: int, y: int, height: int, width: int)
  {
    ghost predicate Valid() {
      0 <= x < height <= g.Length0 && 0 <= y < width <= g.Length1
    }
  }

  /**
   * A birth at (x, y) whose neighbours were incremented keeps every count's
   * surplus over the live count of the top-left `height` x `width` rectangle.
   */
  twostate lemma SurplusKeptByBirth(e: CellEdit)
    requires e.Valid()
    requires !old(e.g[e.x, e.y].isAlive) && e.g[e.x, e.y].isAlive
    requires forall p, q :: 0 <= p < e.g.Length0 && 0 <= q < e.g.Length1 && (p != e.x || q != e.y) ==>
      e.g[p, q].isAlive == old(e.g[p, q].isAlive)
    requires forall p, q :: 0 <= p < e.g.Length0 && 0 <= q < e.g.Length1 ==>
      e.g[p, q].neighbourCount == old(e.g[p, q].neighbourCount) + Multiplicity(e.x, e.y, p, q, e.g.Length0, e.g.Length1)
    ensures LiveCells(e.g, e.height, e.width) == old(LiveCells(e.g, e.height, e.width)) + iset{(e.x, e.y)}
    ensures forall p, q {:trigger Surplus(e.g, p, q, e.height, e.width)} :: 0 <= p < e.g.Length0 && 0 <= q < e.g.Length1 ==>
      Surplus(e.g, p, q, e.height, e.width) == old(Surplus(e.g, p, q, e.height, e.width))
  {
    var g, x, y, height, width := e.g, e.x, e.y, e.height, e.width;
    ghost var live := old(LiveCells(g, height, width));
    assert LiveCells(g, height, width) == live + iset{(x, y)};
    forall p, q | 0 <= p < g.Length0 && 0 <= q < g.Length1
      ensures Surplus(g, p, q, height, width) == old(Surplus(g, p, q, height, width))
    {
      LiveCountBirth(live, (x, y), p, q, g.Length0, g.Length1);
    }
  }

  /**
   * A death at (x, y) whose neighbours were decremented keeps every count's
   * surplus over the live count of the top-left `height` x `width` rectangle.
   */
  twostate lemma SurplusKeptByDeath(e: CellEdit)
    requires e.Valid()
    requires old(e.g[e.x, e.y].isAlive) && !e.g[e.x, e.y].isAlive
    requires forall p, q :: 0 <= p < e.g.Length0 && 0 <= q < e.g.Length1 && (p != e.x || q != e.y) ==>
      e.g[p, q].isAlive == old(e.g[p, q].isAlive)
    requires forall p, q :: 0 <= p < e.g.Length0 && 0 <= q < e.g.Length1 ==>
      e.g[p, q].neighbourCount == old(e.g[p, q].neighbourCount) - Multiplicity(e.x, e.y, p, q, e.g.Length0, e.g.Length1)
    ensures LiveCells(e.g, e.height, e.width) == old(LiveCells(e.g, e.height, e.width)) - iset{(e.x, e.y)}
    ensures forall p, q {:trigger Surplus(e.g, p, q, e.height, e.width)} :: 0 <= p < e.g.Length0 && 0 <= q < e.g.Length1 ==>
      Surplus(e.g, p, q, e.height, e.width) == old(Surplus(e.g, p, q, e.height, e.width))
  {
    var g, x, y, height, width := e.g, e.x, e.y, e.height, e.width;
    ghost var live := old(LiveCells(g, height, width));
    assert LiveCells(g, height, width) == live - iset{(x, y)};
    forall p, q | 0 <= p < g.Length0 && 0 <= q < g.Length1
      ensures Surplus(g, p, q, height, width) == old(Surplus(g, p, q, height, width))
    {
      LiveCountDeath(live, (x, y), p, q, g.Length0, g.Length1);
    }
  }

  /**
   * The engine: the grid dimensions (the source's globals `HEIGHT` and `WIDTH`)
   * and the two grids of `main`, `grid` (current) and `new_grid` (scratch).
   */
  class Engine {
    const Height: int
    const Width: int
    const grid: array2<Cell>
    const newGrid: array2<Cell>

    ghost predicate Valid() {
      0 < Height && 0 < Width &&
      grid.Length0 == Height && grid.Length1 == Width &&
      newGrid.Length0 == Height && newGrid.Length1 == Width &&
      grid != newGrid
    }

    /**
     * Cell (p, q) of `g` differs from its value on entry only by `delta` added
     * to its count.
     */
    twostate predicate Bumped(g: array2<Cell>, p: int, q: int, delta: int)
      requires 0 <= p < g.Length0 && 0 <= q < g.Length1
      reads g
    {
      g[p, q].isAlive == old(g[p, q].isAlive) &&
      g[p, q].hasChanged == old(g[p, q].hasChanged) &&
      g[p, q].neighbourCount == old(g[p, q].neighbourCount) + delta
    }

    /** Cell (p, q) of `g` differs from its value on entry only by `delta` taken from its count. */
    twostate predicate Lowered(g: array2<Cell>, p: int, q: int, delta: int)
      requires 0 <= p < g.Length0 && 0 <= q < g.Length1
      reads g
    {
      g[p, q].isAlive == old(g[p, q].isAlive) &&
      g[p, q].hasChanged == old(g[p, q].hasChanged) &&
      g[p, q].neighbourCount == old(g[p, q].neighbourCount) - delta
    }

    /** `g` has the engine's dimensions. */
    predicate Shaped(g: array2<Cell>) {
      g.Length0 == Height && g.Length1 == Width
    }

    /**
     * Every cell's `neighbourCount` is the number of live cells at its 8 wrapped
     * offsets in the same grid, by multiplicity.
     */
    ghost predicate CountsConsistent(g: array2<Cell>)
      requires Valid() && Shaped(g)
      reads g
    {
      forall p, q {:trigger LiveCount(LiveCells(g, Height, Width), p, q, Height, Width)} :: 0 <= p < Height && 0 <= q < Width ==>
        g[p, q].neighbourCount == LiveCount(LiveCells(g, Height, Width), p, q, Height, Width)
    }

    /** Both grids of `main`, `Height` x `Width`, every cell `{false, 0, false}`. */
    constructor (height: int, width: int)
      requires 0 < height && 0 < width
      ensures Valid() && Height == height && Width == width
      ensures fresh(grid) && fresh(newGrid)
      ensures forall p, q :: 0 <= p < Height && 0 <= q < Width ==>
        grid[p, q] == DeadCell && newGrid[p, q] == DeadCell
      ensures CountsConsistent(grid) && CountsConsistent(newGrid)
    {
      Height, Width := height, width;
      grid := new Cell[height, width]((_, _) => DeadCell);
      newGrid := new Cell[height, width]((_, _) => DeadCell);
      new;
      assert LiveCells(grid, Height, Width) == iset{};
      assert LiveCells(newGrid, Height, Width) == iset{};
    }

    /**
     * `IncreaseNeighbourCounts`: adds 1 to the count of the cell at each of the 8
     * wrapped offsets of (x, y), so a cell reached by several offsets gains one
     * per offset. Nothing else changes.
     */
    method IncreaseNeighbourCounts(g: array2<Cell>, x: int, y: int)
      requires Valid() && Shaped(g) && 0 <= x < Height && 0 <= y < Width
      modifies g
      ensures forall p, q :: 0 <= p < Height && 0 <= q < Width ==>
        g[p, q].isAlive == old(g[p, q].isAlive) && g[p, q].hasChanged == old(g[p, q].hasChanged) &&
        g[p, q].neighbourCount == old(g[p, q].neighbourCount) + Multiplicity(x, y, p, q, Height, Width)
    {
      for i := -1 to 2
        invariant forall p, q :: 0 <= p < Height && 0 <= q < Width ==>
          Bumped(g, p, q, HitsBefore(x, y, p, q, i, -1, Height, Width))
      {
        for j := -1 to 2
          invariant forall p, q :: 0 <= p < Height && 0 <= q < Width ==>
            Bumped(g, p, q, HitsBefore(x, y, p, q, i, j, Height, Width))
        {
          if i == 0 && j == 0 {
            continue;
          }
          var n := Neighbour(x, y, i, j, Height, Width);
          g[n.0, n.1] := g[n.0, n.1].(neighbourCount := g[n.0, n.1].neighbourCount + 1);
        }
      }
      forall p, q | 0 <= p < Height && 0 <= q < Width
        ensures g[p, q].isAlive == old(g[p, q].isAlive) && g[p, q].hasChanged == old(g[p, q].hasChanged) &&
          g[p, q].neighbourCount == old(g[p, q].neighbourCount) + Multiplicity(x, y, p, q, Height, Width)
      {
        assert Bumped(g, p, q, HitsBefore(x, y, p, q, 2, -1, Height, Width));
        HitsBeforeAll(x, y, p, q, Height, Width);
      }
    }

    /**
     * `DecreaseNeighbourCounts`: the exact inverse of `IncreaseNeighbourCounts`,
     * subtracting 1 per offset.
     */
    method DecreaseNeighbourCounts(g: array2<Cell>, x: int, y: int)
      requires Valid() && Shaped(g) && 0 <= x < Height && 0 <= y < Width
      modifies g
      ensures forall p, q :: 0 <= p < Height && 0 <= q < Width ==>
        g[p, q].isAlive == old(g[p, q].isAlive) && g[p, q].hasChanged == old(g[p, q].hasChanged) &&
        g[p, q].neighbourCount == old(g[p, q].neighbourCount) - Multiplicity(x, y, p, q, Height, Width)
    {
      for i := -1 to 2
        invariant forall p, q :: 0 <= p < Height && 0 <= q < Width ==>
          Lowered(g, p, q, HitsBefore(x, y, p, q, i, -1, Height, Width))
      {
        for j := -1 to 2
          invariant forall p, q :: 0 <= p < Height && 0 <= q < Width ==>
            Lowered(g, p, q, HitsBefore(x, y, p, q, i, j, Height, Width))
        {
          if i == 0 && j == 0 {
            continue;
          }
          var n := Neighbour(x, y, i, j, Height, Width);
          g[n.0, n.1] := g[n.0, n.1].(neighbourCount := g[n.0, n.1].neighbourCount - 1);
        }
      }
      forall p, q | 0 <= p < Height && 0 <= q < Width
        ensures g[p, q].isAlive == old(g[p, q].isAlive) && g[p, q].hasChanged == old(g[p, q].hasChanged) &&
          g[p, q].neighbourCount == old(g[p, q].neighbourCount) - Multiplicity(x, y, p, q, Height, Width)
      {
        assert Lowered(g, p, q, HitsBefore(x, y, p, q, 2, -1, Height, Width));
        HitsBeforeAll(x, y, p, q, Height, Width);
      }
    }

    /**
     * The flags of swept cell (p, q) of `newGrid` once the sweep of `UpdateGrid`
     * has reached (i, j): a visited cell follows the rule on `grid`, with
     * `hasChanged` set when its state flipped; a cell not yet visited is still
     * cleared.
     */
    ghost predicate FlagsSwept(p: int, q: int, i: int, j: int)
      requires Valid() && InGrid(p, q, Height, Width)
      reads grid, newGrid
    {
      if LexLess((p, q), (i, j)) then
        newGrid[p, q].isAlive == LifeRule(grid[p, q].isAlive, grid[p, q].neighbourCount) &&
        newGrid[p, q].hasChanged == (newGrid[p, q].isAlive != grid[p, q].isAlive)
      else
        !newGrid[p, q].isAlive && !newGrid[p, q].hasChanged
    }

    /**
     * `UpdateGrid`: one generation. Clears the top-left `height` x `width`
     * rectangle of `newGrid`, sweeps it applying B3/S23 to the counts of `grid`
     * and rebuilding the counts of `newGrid` by `IncreaseNeighbourCounts` on the
     * whole torus, then copies `newGrid` into `grid`.
     */
    method UpdateGrid(width: int, height: int)
      requires Valid() && 0 <= height <= Height && 0 <= width <= Width
      modifies grid, newGrid
      ensures forall p, q :: 0 <= p < Height && 0 <= q < Width ==> grid[p, q] == newGrid[p, q]
      ensures forall p, q :: 0 <= p < height && 0 <= q < width ==>
        grid[p, q].isAlive == LifeRule(old(grid[p, q].isAlive), old(grid[p, q].neighbourCount)) &&
        grid[p, q].hasChanged == (grid[p, q].isAlive != old(grid[p, q].isAlive)) &&
        grid[p, q].neighbourCount == LiveCount(LiveCells(grid, height, width), p, q, Height, Width)
      ensures forall p, q :: 0 <= p < Height && 0 <= q < Width && !(p < height && q < width) ==>
        grid[p, q].isAlive == old(newGrid[p, q].isAlive) &&
        grid[p, q].hasChanged == old(newGrid[p, q].hasChanged) &&
        grid[p, q].neighbourCount == old(newGrid[p, q].neighbourCount) + LiveCount(LiveCells(grid, height, width), p, q, Height, Width)
      ensures height == Height && width == Width ==> CountsConsistent(grid)
      ensures height == Height && width == Width && old(CountsConsistent(grid)) ==>
        forall p, q {:trigger grid[p, q]} :: 0 <= p < Height && 0 <= q < Width ==>
          grid[p, q].isAlive == LifeRule((p, q) in old(LiveCells(grid, Height, Width)), LiveCount(old(LiveCells(grid, Height, Width)), p, q, Height, Width))
      ensures height == Height && width == Width && old(CountsConsistent(grid)) ==>
        LiveCells(grid, Height, Width) == NextGeneration(old(LiveCells(grid, Height, Width)), Height, Width)
    {
      Clear(width, height);
      forall p, q | 0 <= p < Height && 0 <= q < Width
        ensures Surplus(newGrid, p, q, height, width) == if p < height && q < width then 0 else old(newGrid[p, q].neighbourCount)
      {
      }
      Sweep(width, height);
      forall p, q | 0 <= p < Height && 0 <= q < Width
        ensures newGrid[p, q].neighbourCount ==
          (if p < height && q < width then 0 else old(newGrid[p, q].neighbourCount)) +
          LiveCount(LiveCells(newGrid, height, width), p, q, Height, Width)
      {
        assert Surplus(newGrid, p, q, height, width) == if p < height && q < width then 0 else old(newGrid[p, q].neighbourCount);
      }
      label swept:
      forall p, q | 0 <= p < Height && 0 <= q < Width {
        grid[p, q] := newGrid[p, q];
      }
      assert LiveCells(grid, height, width) == old@swept(LiveCells(newGrid, height, width));
      if height == Height && width == Width && old(CountsConsistent(grid)) {
        RuleOnConsistentCounts();
      }
    }

    /**
     * When every cell's new state is the rule on its old state and old count,
     * and the old counts were consistent, every new state is the rule on the
     * old live cells.
     */
    twostate lemma RuleOnConsistentCounts()
      requires Valid() && old(CountsConsistent(grid))
      requires forall p, q {:trigger grid[p, q]} :: 0 <= p < Height && 0 <= q < Width ==>
        grid[p, q].isAlive == LifeRule(old(grid[p, q].isAlive), old(grid[p, q].neighbourCount))
      ensures forall p, q {:trigger grid[p, q]} :: 0 <= p < Height && 0 <= q < Width ==>
        grid[p, q].isAlive == LifeRule((p, q) in old(LiveCells(grid, Height, Width)), LiveCount(old(LiveCells(grid, Height, Width)), p, q, Height, Width))
      ensures LiveCells(grid, Height, Width) == NextGeneration(old(LiveCells(grid, Height, Width)), Height, Width)
    {
      forall p, q {:trigger grid[p, q]} | 0 <= p < Height && 0 <= q < Width
        ensures grid[p, q].isAlive == LifeRule((p, q) in old(LiveCells(grid, Height, Width)), LiveCount(old(LiveCells(grid, Height, Width)), p, q, Height, Width))
      {
        assert old(grid[p, q].neighbourCount) == LiveCount(old(LiveCells(grid, Height, Width)), p, q, Height, Width);
      }
      NextGenerationOfGrid(grid, old(LiveCells(grid, Height, Width)));
    }

    /**
     * The sweep loop of `UpdateGrid` over the cleared top-left `height` x `width`
     * rectangle of `newGrid`, visiting it in row-major order.
     */
    method Sweep(width: int, height: int)
      requires Valid() && 0 <= height <= Height && 0 <= width <= Width
      requires forall p, q :: 0 <= p < height && 0 <= q < width ==> !newGrid[p, q].isAlive && !newGrid[p, q].hasChanged
      modifies newGrid
      ensures forall p, q :: 0 <= p < height && 0 <= q < width ==>
        newGrid[p, q].isAlive == LifeRule(grid[p, q].isAlive, grid[p, q].neighbourCount) &&
        newGrid[p, q].hasChanged == (newGrid[p, q].isAlive != grid[p, q].isAlive)
      ensures forall p, q :: 0 <= p < Height && 0 <= q < Width && !(p < height && q < width) ==>
        newGrid[p, q].isAlive == old(newGrid[p, q].isAlive) && newGrid[p, q].hasChanged == old(newGrid[p, q].hasChanged)
      ensures forall p, q {:trigger Surplus(newGrid, p, q, height, width)} :: 0 <= p < Height && 0 <= q < Width ==>
        Surplus(newGrid, p, q, height, width) == old(Surplus(newGrid, p, q, height, width))
    {
      for i := 0 to height
        invariant forall p, q :: 0 <= p < height && 0 <= q < width ==> FlagsSwept(p, q, i, 0)
        invariant forall p, q :: 0 <= p < Height && 0 <= q < Width && !(p < height && q < width) ==>
          newGrid[p, q].isAlive == old(newGrid[p, q].isAlive) && newGrid[p, q].hasChanged == old(newGrid[p, q].hasChanged)
        invariant forall p, q {:trigger Surplus(newGrid, p, q, height, width)} :: 0 <= p < Height && 0 <= q < Width ==>
          Surplus(newGrid, p, q, height, width) == old(Surplus(newGrid, p, q, height, width))
      {
        for j := 0 to width
            invariant forall p, q :: 0 <= p < height && 0 <= q < width ==> FlagsSwept(p, q, i, j)
          invariant forall p, q :: 0 <= p < Height && 0 <= q < Width && !(p < height && q < width) ==>
            newGrid[p, q].isAlive == old(newGrid[p, q].isAlive) && newGrid[p, q].hasChanged == old(newGrid[p, q].hasChanged)
          invariant forall p, q {:trigger Surplus(newGrid, p, q, height, width)} :: 0 <= p < Height && 0 <= q < Width ==>
            Surplus(newGrid, p, q, height, width) == old(Surplus(newGrid, p, q, height, width))
        {
          assert FlagsSwept(i, j, i, j);
          label before:
          Visit(i, j, width, height);
          ghost var next := j + 1;
          forall p, q | 0 <= p < height && 0 <= q < width
            ensures FlagsSwept(p, q, i, next)
          {
            if (p, q) != (i, j) {
              assert old@before(FlagsSwept(p, q, i, j));
              assert LexLess((p, q), (i, next)) == LexLess((p, q), (i, j));
              assert grid[p, q] == old@before(grid[p, q]);
            }
          }
        }
        ghost var next := i + 1;
        forall p, q | 0 <= p < height && 0 <= q < width
          ensures FlagsSwept(p, q, next, 0)
        {
          assert FlagsSwept(p, q, i, width);
        }
      }
      forall p, q | 0 <= p < height && 0 <= q < width
        ensures newGrid[p, q].isAlive == LifeRule(grid[p, q].isAlive, grid[p, q].neighbourCount)
        ensures newGrid[p, q].hasChanged == (newGrid[p, q].isAlive != grid[p, q].isAlive)
      {
        assert FlagsSwept(p, q, height, 0);
      }
    }

    /**
     * The clear loop of `UpdateGrid`: resets the top-left `height` x `width`
     * rectangle of `newGrid` to `{false, 0, false}`.
     */
    method Clear(width: int, height: int)
      requires Valid() && 0 <= height <= Height && 0 <= width <= Width
      modifies newGrid
      ensures forall p, q :: 0 <= p < Height && 0 <= q < Width ==>
        newGrid[p, q] == if p < height && q < width then DeadCell else old(newGrid[p, q])
      ensures LiveCells(newGrid, height, width) == iset{}
    {
      for i := 0 to height
        invariant forall p, q :: 0 <= p < Height && 0 <= q < Width ==>
          newGrid[p, q] == if p < i && q < width then DeadCell else old(newGrid[p, q])
      {
        for j := 0 to width
          invariant forall p, q :: 0 <= p < Height && 0 <= q < Width ==>
            newGrid[p, q] == if (p < i && q < width) || (p == i && q < j) then DeadCell else old(newGrid[p, q])
        {
          newGrid[i, j] := DeadCell;
        }
      }
      assert LiveCells(newGrid, height, width) == iset{};
    }

    /**
     * One step of the sweep of `UpdateGrid` at the still-cleared cell (i, j): the
     * rule on `grid` decides whether it is alive in `newGrid`, a flip of state
     * sets `hasChanged`, and a live outcome increments its neighbours in
     * `newGrid`, which keeps every count's surplus over the live count of the
     * swept rectangle.
     */
    method Visit(i: int, j: int, width: int, height: int)
      requires Valid() && 0 <= height <= Height && 0 <= width <= Width
      requires 0 <= i < height && 0 <= j < width
      requires !newGrid[i, j].isAlive && !newGrid[i, j].hasChanged
      modifies newGrid
      ensures newGrid[i, j].isAlive == LifeRule(grid[i, j].isAlive, grid[i, j].neighbourCount)
      ensures newGrid[i, j].hasChanged == (newGrid[i, j].isAlive != grid[i, j].isAlive)
      ensures forall p, q :: 0 <= p < Height && 0 <= q < Width && (p != i || q != j) ==>
        newGrid[p, q].isAlive == old(newGrid[p, q].isAlive) && newGrid[p, q].hasChanged == old(newGrid[p, q].hasChanged)
      ensures forall p, q {:trigger Surplus(newGrid, p, q, height, width)} :: 0 <= p < Height && 0 <= q < Width ==>
        Surplus(newGrid, p, q, height, width) == old(Surplus(newGrid, p, q, height, width))
    {
      if LifeRule(grid[i, j].isAlive, grid[i, j].neighbourCount) {
        Awaken(newGrid, i, j, height, width, !grid[i, j].isAlive);
      } else {
        ghost var live := LiveCells(newGrid, height, width);
        if grid[i, j].isAlive {
          newGrid[i, j] := newGrid[i, j].(hasChanged := true);
        }
        assert LiveCells(newGrid, height, width) == live;
      }
    }

    /**
     * `DrawCell` (left mouse button): brings the dead cell (x, y) of `grid` to
     * life, marking it changed and incrementing its neighbours; on a live cell
     * it does nothing, so drawing twice is drawing once.
     */
    method DrawCell(x: int, y: int)
      requires Valid() && InGrid(x, y, Height, Width)
      modifies grid
      ensures old(grid[x, y].isAlive) ==> unchanged(grid)
      ensures grid[x, y].isAlive
      ensures !old(grid[x, y].isAlive) ==> grid[x, y].hasChanged
      ensures forall p, q :: 0 <= p < Height && 0 <= q < Width && (p != x || q != y) ==>
        grid[p, q].isAlive == old(grid[p, q].isAlive) && grid[p, q].hasChanged == old(grid[p, q].hasChanged)
      ensures LiveCells(grid, Height, Width) == old(LiveCells(grid, Height, Width)) + iset{(x, y)}
      ensures forall p, q {:trigger Surplus(grid, p, q, Height, Width)} :: 0 <= p < Height && 0 <= q < Width ==>
        Surplus(grid, p, q, Height, Width) == old(Surplus(grid, p, q, Height, Width))
      ensures old(CountsConsistent(grid)) ==> CountsConsistent(grid)
    {
      if !grid[x, y].isAlive {
        Awaken(grid, x, y, Height, Width, true);
      } else {
        assert LiveCells(grid, Height, Width) == old(LiveCells(grid, Height, Width)) + iset{(x, y)};
      }
      if old(CountsConsistent(grid)) {
        forall p, q | 0 <= p < Height && 0 <= q < Width
          ensures grid[p, q].neighbourCount == LiveCount(LiveCells(grid, Height, Width), p, q, Height, Width)
        {
          assert Surplus(grid, p, q, Height, Width) == old(Surplus(grid, p, q, Height, Width));
        }
      }
    }

    /**
     * `EraseCell` (right mouse button): kills the live cell (x, y) of `grid`,
     * marking it changed and decrementing its neighbours; on a dead cell it does
     * nothing, so erasing twice is erasing once.
     */
    method EraseCell(x: int, y: int)
      requires Valid() && InGrid(x, y, Height, Width)
      modifies grid
      ensures !old(grid[x, y].isAlive) ==> unchanged(grid)
      ensures !grid[x, y].isAlive
      ensures old(grid[x, y].isAlive) ==> grid[x, y].hasChanged
      ensures forall p, q :: 0 <= p < Height && 0 <= q < Width && (p != x || q != y) ==>
        grid[p, q].isAlive == old(grid[p, q].isAlive) && grid[p, q].hasChanged == old(grid[p, q].hasChanged)
      ensures LiveCells(grid, Height, Width) == old(LiveCells(grid, Height, Width)) - iset{(x, y)}
      ensures forall p, q {:trigger Surplus(grid, p, q, Height, Width)} :: 0 <= p < Height && 0 <= q < Width ==>
        Surplus(grid, p, q, Height, Width) == old(Surplus(grid, p, q, Height, Width))
      ensures old(CountsConsistent(grid)) ==> CountsConsistent(grid)
    {
      if grid[x, y].isAlive {
        Extinguish(x, y);
      } else {
        assert LiveCells(grid, Height, Width) == old(LiveCells(grid, Height, Width)) - iset{(x, y)};
      }
      if old(CountsConsistent(grid)) {
        forall p, q | 0 <= p < Height && 0 <= q < Width
          ensures grid[p, q].neighbourCount == LiveCount(LiveCells(grid, Height, Width), p, q, Height, Width)
        {
          assert Surplus(grid, p, q, Height, Width) == old(Surplus(grid, p, q, Height, Width));
        }
      }
    }

    /**
     * Brings the dead cell (x, y) of `g` to life, sets its `hasChanged` when
     * `changed` holds, and increments its neighbours: the shared body of a live
     * outcome in `UpdateGrid` and of `DrawCell`. Every count keeps its surplus
     * over the live count of the top-left `height` x `width` rectangle.
     */
    method Awaken(g: array2<Cell>, x: int, y: int, height: int, width: int, changed: bool)
      requires Valid() && Shaped(g) && 0 <= x < height <= Height && 0 <= y < width <= Width
      requires !g[x, y].isAlive
      modifies g
      ensures g[x, y].isAlive && g[x, y].hasChanged == (old(g[x, y].hasChanged) || changed)
      ensures forall p, q :: 0 <= p < Height && 0 <= q < Width && (p != x || q != y) ==>
        g[p, q].isAlive == old(g[p, q].isAlive) && g[p, q].hasChanged == old(g[p, q].hasChanged)
      ensures LiveCells(g, height, width) == old(LiveCells(g, height, width)) + iset{(x, y)}
      ensures forall p, q {:trigger Surplus(g, p, q, height, width)} :: 0 <= p < Height && 0 <= q < Width ==>
        Surplus(g, p, q, height, width) == old(Surplus(g, p, q, height, width))
    {
      g[x, y] := g[x, y].(isAlive := true);
      if changed {
        g[x, y] := g[x, y].(hasChanged := true);
      }
      IncreaseNeighbourCounts(g, x, y);
      SurplusKeptByBirth(CellEdit(g, x, y, height, width));
    }

    /**
     * Kills the live cell (x, y) of `grid`, sets its `hasChanged` and decrements
     * its neighbours: the body of `EraseCell` on a live cell.
     */
    method Extinguish(x: int, y: int)
      requires Valid() && InGrid(x, y, Height, Width)
      requires grid[x, y].isAlive
      modifies grid
      ensures !grid[x, y].isAlive && grid[x, y].hasChanged
      ensures forall p, q :: 0 <= p < Height && 0 <= q < Width && (p != x || q != y) ==>
        grid[p, q].isAlive == old(grid[p, q].isAlive) && grid[p, q].hasChanged == old(grid[p, q].hasChanged)
      ensures LiveCells(grid, Height, Width) == old(LiveCells(grid, Height, Width)) - iset{(x, y)}
      ensures forall p, q {:trigger Surplus(grid, p, q, Height, Width)} :: 0 <= p < Height && 0 <= q < Width ==>
        Surplus(grid, p, q, Height, Width) == old(Surplus(grid, p, q, Height, Width))
    {
      grid[x, y] := grid[x, y].(isAlive := false);
      grid[x, y] := grid[x, y].(hasChanged := true);
      DecreaseNeighbourCounts(grid, x, y);
      SurplusKeptByDeath(CellEdit(grid, x, y, Height, Width));
    }

    /**
     * Cell (p, q) of `grid` once `InitializeGrid` has reached (i, j): when
     * visited, it holds its bit, no change mark, and a count made only of the
     * live bits visited from (p, q) onwards.
     */
    ghost predicate Seeded(bits: seq<seq<bool>>, p: int, q: int, i: int, j: int)
      requires Valid() && BitsShaped(bits, Height, Width) && InGrid(p, q, Height, Width)
      reads grid
    {
      LexLess((p, q), (i, j)) ==>
        grid[p, q].isAlive == bits[p][q] && !grid[p, q].hasChanged &&
        grid[p, q].neighbourCount == LiveCount(LiveBits(bits, (p, q), (i, j)), p, q, Height, Width)
    }

    /**
     * `InitializeGrid`, with the random bit of each cell given as `bits`: in
     * row-major order, resets each cell to its bit with count 0 and, when the
     * bit is 1, increments its neighbours. A reset wipes the increments that
     * earlier-visited live neighbours already made, so each count only covers
     * the live bits visited at or after its own cell.
     */
    method InitializeGrid(bits: seq<seq<bool>>)
      requires Valid() && BitsShaped(bits, Height, Width)
      modifies grid
      ensures forall p, q {:trigger grid[p, q]} :: 0 <= p < Height && 0 <= q < Width ==>
        grid[p, q] == Cell(bits[p][q], LiveCount(LiveBits(bits, (p, q), (Height, 0)), p, q, Height, Width), false)
    {
      for i := 0 to Height
        invariant forall p, q :: 0 <= p < Height && 0 <= q < Width ==> Seeded(bits, p, q, i, 0)
      {
        for j := 0 to Width
          invariant forall p, q :: 0 <= p < Height && 0 <= q < Width ==> Seeded(bits, p, q, i, j)
        {
          SeedCell(bits, i, j, j + 1);
        }
        ghost var next := i + 1;
        forall p, q | 0 <= p < Height && 0 <= q < Width
          ensures Seeded(bits, p, q, next, 0)
        {
          assert Seeded(bits, p, q, i, Width);
          LiveBitsRowEnd(bits, (p, q), i, Height, Width);
        }
      }
      forall p, q {:trigger grid[p, q]} | 0 <= p < Height && 0 <= q < Width
        ensures grid[p, q] == Cell(bits[p][q], LiveCount(LiveBits(bits, (p, q), (Height, 0)), p, q, Height, Width), false)
      {
        assert Seeded(bits, p, q, Height, 0);
      }
    }

    /** One step of `InitializeGrid`: resets (i, j) to its bit and, when it is 1, increments its neighbours. */
    // `next` names the column after `j`, so that the caller's loop invariant
    // at `j + 1` matches the postcondition term for term.
    method SeedCell(bits: seq<seq<bool>>, i: int, j: int, ghost next: int)
      requires Valid() && BitsShaped(bits, Height, Width) && InGrid(i, j, Height, Width) && next == j + 1
      requires forall p, q :: 0 <= p < Height && 0 <= q < Width ==> Seeded(bits, p, q, i, j)
      modifies grid
      ensures forall p, q :: 0 <= p < Height && 0 <= q < Width ==> Seeded(bits, p, q, i, next)
    {
      grid[i, j] := Cell(bits[i][j], 0, false);
      if bits[i][j] {
        IncreaseNeighbourCounts(grid, i, j);
      }
      LiveBitsCountStep(bits, (i, j), i, j, i, j, Height, Width);
      assert LiveBits(bits, (i, j), (i, j)) == iset{};
      assert Seeded(bits, i, j, i, next);
      forall p, q | 0 <= p < Height && 0 <= q < Width
        ensures Seeded(bits, p, q, i, next)
      {
        if LexLess((p, q), (i, j)) {
          LiveBitsCountStep(bits, (p, q), p, q, i, j, Height, Width);
          assert old(Seeded(bits, p, q, i, j));
        } else if (p, q) != (i, j) {
          assert !LexLess((p, q), (i, next));
        }
      }
    }

    /**
     * `InitializeGrid` as evidently intended: every cell first takes its bit
     * with count 0, and only then are the neighbours of the live cells
     * incremented, so the initial grid is count-consistent.
     */
    method InitializeGridCorrected(bits: seq<seq<bool>>)
      requires Valid() && BitsShaped(bits, Height, Width)
      modifies grid
      ensures forall p, q :: 0 <= p < Height && 0 <= q < Width ==>
        grid[p, q].isAlive == bits[p][q] && !grid[p, q].hasChanged
      ensures LiveCells(grid, Height, Width) == LiveBits(bits, (0, 0), (Height, 0))
      ensures CountsConsistent(grid)
    {
      for i := 0 to Height
        invariant forall p, q {:trigger grid[p, q]} :: 0 <= p < Height && 0 <= q < Width && LexLess((p, q), (i, 0)) ==>
          grid[p, q] == Cell(bits[p][q], 0, false)
      {
        for j := 0 to Width
          invariant forall p, q {:trigger grid[p, q]} :: 0 <= p < Height && 0 <= q < Width && LexLess((p, q), (i, j)) ==>
            grid[p, q] == Cell(bits[p][q], 0, false)
        {
          grid[i, j] := Cell(bits[i][j], 0, false);
        }
      }
      CountLiveBits(bits);
      LiveCellsOfBits(grid, bits);
    }

    /**
     * The increment pass of `InitializeGridCorrected`: on a grid holding the
     * bits with every count 0, increments the neighbours of every live cell.
     */
    method CountLiveBits(bits: seq<seq<bool>>)
      requires Valid() && BitsShaped(bits, Height, Width)
      requires forall p, q :: 0 <= p < Height && 0 <= q < Width ==> grid[p, q] == Cell(bits[p][q], 0, false)
      modifies grid
      ensures forall p, q :: 0 <= p < Height && 0 <= q < Width ==>
        grid[p, q].isAlive == bits[p][q] && !grid[p, q].hasChanged
      ensures forall p, q :: 0 <= p < Height && 0 <= q < Width ==>
        grid[p, q].neighbourCount == LiveCount(LiveBits(bits, (0, 0), (Height, 0)), p, q, Height, Width)
    {
      for i := 0 to Height
        invariant forall p, q :: 0 <= p < Height && 0 <= q < Width ==> Counted(bits, p, q, i, 0)
      {
        for j := 0 to Width
          invariant forall p, q :: 0 <= p < Height && 0 <= q < Width ==> Counted(bits, p, q, i, j)
        {
          CountCell(bits, i, j, j + 1);
        }
        ghost var next := i + 1;
        forall p, q | 0 <= p < Height && 0 <= q < Width
          ensures Counted(bits, p, q, next, 0)
        {
          assert Counted(bits, p, q, i, Width);
          LiveBitsRowEnd(bits, (0, 0), i, Height, Width);
        }
      }
      forall p, q | 0 <= p < Height && 0 <= q < Width
        ensures grid[p, q].isAlive == bits[p][q] && !grid[p, q].hasChanged
        ensures grid[p, q].neighbourCount == LiveCount(LiveBits(bits, (0, 0), (Height, 0)), p, q, Height, Width)
      {
        assert Counted(bits, p, q, Height, 0);
      }
    }

    /**
     * Cell (p, q) of `grid` once the increment pass has reached (i, j): it holds
     * its bit, no change mark, and the live bits visited so far at its offsets.
     */
    ghost predicate Counted(bits: seq<seq<bool>>, p: int, q: int, i: int, j: int)
      requires Valid() && BitsShaped(bits, Height, Width) && InGrid(p, q, Height, Width)
      reads grid
    {
      grid[p, q] == Cell(bits[p][q], LiveCount(LiveBits(bits, (0, 0), (i, j)), p, q, Height, Width), false)
    }

    /** One step of the increment pass: increments the neighbours of (i, j) when its bit is 1. */
    // `next` names the column after `j`, so that the caller's loop invariant
    // at `j + 1` matches the postcondition term for term.
    method CountCell(bits: seq<seq<bool>>, i: int, j: int, ghost next: int)
      requires Valid() && BitsShaped(bits, Height, Width) && InGrid(i, j, Height, Width) && next == j + 1
      requires forall p, q :: 0 <= p < Height && 0 <= q < Width ==> Counted(bits, p, q, i, j)
      modifies grid
      ensures forall p, q :: 0 <= p < Height && 0 <= q < Width ==> Counted(bits, p, q, i, next)
    {
      if bits[i][j] {
        IncreaseNeighbourCounts(grid, i, j);
      }
      forall p, q | 0 <= p < Height && 0 <= q < Width
        ensures Counted(bits, p, q, i, next)
      {
        LiveBitsCountStep(bits, (0, 0), p, q, i, j, Height, Width);
        assert old(Counted(bits, p, q, i, j));
      }
    }

    /**
     * The row scan of `DrawArray` over every row of `grid`: the spans it would
     * draw, row by row, each row's list being its maximal marked runs. The
     * grid is not modified.
     */
    method DrawArray() returns (spans: seq<seq<Span>>)
      requires Valid()
      ensures |spans| == Height
      ensures forall i :: 0 <= i < Height ==> IsRunDecomposition(RowMarks(grid, i), spans[i])
    {
      spans := [];
      for i := 0 to Height
        invariant |spans| == i
        invariant forall k :: 0 <= k < i ==> IsRunDecomposition(RowMarks(grid, k), spans[k])
      {
        var runs := RowRuns(grid, i);
        spans := spans + [runs];
      }
    }
  }
}

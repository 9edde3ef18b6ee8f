/**
 * Toroidal geometry of the Life grid: the wrapped index arithmetic used by
 * `IncreaseNeighbourCounts` and `DecreaseNeighbourCounts`, and the count of live
 * cells among the 8 wrapped neighbour offsets of a cell.
 *
 * Counts are taken BY MULTIPLICITY over the 8 offsets (-1..1) x (-1..1) minus
 * (0, 0): when the height or the width is at most 2, one physical cell can sit
 * at several offsets, or be the cell itself, and is then counted once per offset.
 */
module Torus {

  /** A (row, column) position. */
  type Pos = (int, int)

  predicate InGrid(p: int, q: int, height: int, width: int) {
    0 <= p < height && 0 <= q < width
  }

  /** Row-major order: (a.0, a.1) is visited strictly before (b.0, b.1). */
  predicate LexLess(a: Pos, b: Pos) {
    a.0 < b.0 || (a.0 == b.0 && a.1 < b.1)
  }

  /**
   * The wrapped index of a coordinate plus an offset in -1..1, which is at most
   * one step outside `[0, n)`: one step below 0 is `n - 1`, one step at `n` is 0.
   */
  function Wrap(v: int, n: int): (r: int)
    requires n > 0 && -1 <= v <= n
    ensures 0 <= r < n
  {
    if v < 0 then v + n else if v < n then v else v - n
  }

  /**
   * `Wrap` is the source's `(v + n) % n`: since `v + n` is never negative, C++'s
   * truncating `%` and Dafny's Euclidean `%` agree on it.
   */
  lemma WrapIsMod(v: int, n: int)
    requires n > 0 && -1 <= v <= n
    ensures Wrap(v, n) == (v + n) % n
  {
  }

  /** The cell at offset (a, b) from (p, q) on a `height` x `width` torus. */
  function Neighbour(p: int, q: int, a: int, b: int, height: int, width: int): Pos
    requires InGrid(p, q, height, width) && -1 <= a <= 1 && -1 <= b <= 1
  {
    (Wrap(p + a, height), Wrap(q + b, width))
  }

  /** 1 when the cell at offset (a, b) from (p, q) is in `live`, else 0. */
  function Hit(live: iset<Pos>, p: int, q: int, a: int, b: int, height: int, width: int): nat
    requires InGrid(p, q, height, width) && -1 <= a <= 1 && -1 <= b <= 1
  {
    if Neighbour(p, q, a, b, height, width) in live then 1 else 0
  }

  /**
   * The number of the 8 neighbour offsets of (p, q) whose wrapped cell is in
   * `live`, by multiplicity.
   */
  function LiveCount(live: iset<Pos>, p: int, q: int, height: int, width: int): (n: nat)
    requires InGrid(p, q, height, width)
    ensures n <= 8
    ensures live == iset{} ==> n == 0
  {
    Hit(live, p, q, -1, -1, height, width) + Hit(live, p, q, -1, 0, height, width) +
    Hit(live, p, q, -1, 1, height, width) + Hit(live, p, q, 0, -1, height, width) +
    Hit(live, p, q, 0, 1, height, width) + Hit(live, p, q, 1, -1, height, width) +
    Hit(live, p, q, 1, 0, height, width) + Hit(live, p, q, 1, 1, height, width)
  }

  /**
   * How many of the 8 neighbour offsets of (x, y) land on (p, q): the amount
   * `IncreaseNeighbourCounts(x, y)` adds to the count of (p, q).
   */
  function Multiplicity(x: int, y: int, p: int, q: int, height: int, width: int): nat
    requires InGrid(x, y, height, width)
  {
    LiveCount(iset{(p, q)}, x, y, height, width)
  }

  /** The offsets the source's nested loops (row offset, then column offset, each -1..1) have reached at (i, j). */
  predicate LoopPoint(i: int, j: int) {
    (-1 <= i <= 1 && -1 <= j <= 2) || (i == 2 && j == -1)
  }

  /**
   * How many of the offsets the source's nested loops visit before reaching
   * offset (i, j), skipping (0, 0), land on (p, q). The start of row i is the
   * end of row i - 1; at (2, -1) all 8 offsets are visited.
   */
  function HitsBefore(x: int, y: int, p: int, q: int, i: int, j: int, height: int, width: int): nat
    requires InGrid(x, y, height, width) && LoopPoint(i, j)
    decreases 4 * (i + 1) + (j + 1)
  {
    if i == -1 && j == -1 then 0
    else if j == -1 then HitsBefore(x, y, p, q, i - 1, 2, height, width)
    else HitsBefore(x, y, p, q, i, j - 1, height, width) +
         (if (i, j - 1) != (0, 0) then Hit(iset{(p, q)}, x, y, i, j - 1, height, width) else 0)
  }

  /** Once all offsets are visited, (p, q) has been reached `Multiplicity` times. */
  lemma HitsBeforeAll(x: int, y: int, p: int, q: int, height: int, width: int)
    requires InGrid(x, y, height, width)
    ensures HitsBefore(x, y, p, q, 2, -1, height, width) == Multiplicity(x, y, p, q, height, width)
  {
    HitsBeforeRow(x, y, p, q, -1, height, width);
    HitsBeforeRow(x, y, p, q, 0, height, width);
    HitsBeforeRow(x, y, p, q, 1, height, width);
    assert HitsBefore(x, y, p, q, 0, -1, height, width) == HitsBefore(x, y, p, q, -1, 2, height, width);
    assert HitsBefore(x, y, p, q, 1, -1, height, width) == HitsBefore(x, y, p, q, 0, 2, height, width);
  }

  /** Running through row `a` of the offsets adds that row's hits. */
  lemma HitsBeforeRow(x: int, y: int, p: int, q: int, a: int, height: int, width: int)
    requires InGrid(x, y, height, width) && -1 <= a <= 1
    ensures HitsBefore(x, y, p, q, a, 2, height, width)
         == HitsBefore(x, y, p, q, a, -1, height, width) + RowHits(x, y, p, q, a, height, width)
  {
    var one := iset{(p, q)};
    assert HitsBefore(x, y, p, q, a, 0, height, width)
        == HitsBefore(x, y, p, q, a, -1, height, width) + Hit(one, x, y, a, -1, height, width);
    assert HitsBefore(x, y, p, q, a, 1, height, width)
        == HitsBefore(x, y, p, q, a, 0, height, width) + (if a != 0 then Hit(one, x, y, a, 0, height, width) else 0);
    assert HitsBefore(x, y, p, q, a, 2, height, width)
        == HitsBefore(x, y, p, q, a, 1, height, width) + Hit(one, x, y, a, 1, height, width);
  }

  /** How many offsets of row `a` from (x, y), skipping (0, 0), land on (p, q). */
  function RowHits(x: int, y: int, p: int, q: int, a: int, height: int, width: int): nat
    requires InGrid(x, y, height, width) && -1 <= a <= 1
  {
    Hit(iset{(p, q)}, x, y, a, -1, height, width) +
    (if a != 0 then Hit(iset{(p, q)}, x, y, a, 0, height, width) else 0) +
    Hit(iset{(p, q)}, x, y, a, 1, height, width)
  }

  /** Stepping by `d` from `x` lands on `p` exactly when stepping by `-d` from `p` lands on `x`. */
  lemma WrapInverse(x: int, p: int, d: int, n: int)
    requires 0 <= x < n && 0 <= p < n && -1 <= d <= 1
    ensures Wrap(x + d, n) == p <==> Wrap(p - d, n) == x
  {
  }

  /**
   * Neighbourhood is symmetric by multiplicity: (p, q) occurs among the offsets
   * of (x, y) as often as (x, y) occurs among the offsets of (p, q).
   */
  lemma MultiplicitySymmetric(x: int, y: int, p: int, q: int, height: int, width: int)
    requires InGrid(x, y, height, width) && InGrid(p, q, height, width)
    ensures Multiplicity(x, y, p, q, height, width) == Multiplicity(p, q, x, y, height, width)
  {
    HitSymmetric(x, y, p, q, -1, -1, height, width);
    HitSymmetric(x, y, p, q, -1, 0, height, width);
    HitSymmetric(x, y, p, q, -1, 1, height, width);
    HitSymmetric(x, y, p, q, 0, -1, height, width);
    HitSymmetric(x, y, p, q, 0, 1, height, width);
    HitSymmetric(x, y, p, q, 1, -1, height, width);
    HitSymmetric(x, y, p, q, 1, 0, height, width);
    HitSymmetric(x, y, p, q, 1, 1, height, width);
  }

  /** Offset (a, b) from (x, y) lands on (p, q) iff offset (-a, -b) from (p, q) lands on (x, y). */
  lemma HitSymmetric(x: int, y: int, p: int, q: int, a: int, b: int, height: int, width: int)
    requires InGrid(x, y, height, width) && InGrid(p, q, height, width)
    requires -1 <= a <= 1 && -1 <= b <= 1
    ensures Hit(iset{(p, q)}, x, y, a, b, height, width) == Hit(iset{(x, y)}, p, q, -a, -b, height, width)
  {
    WrapInverse(x, p, a, height);
    WrapInverse(y, q, b, width);
  }

  /** Live counts add up over disjoint sets of live cells. */
  lemma LiveCountUnion(a: iset<Pos>, b: iset<Pos>, p: int, q: int, height: int, width: int)
    requires InGrid(p, q, height, width)
    requires a !! b
    ensures LiveCount(a + b, p, q, height, width) == LiveCount(a, p, q, height, width) + LiveCount(b, p, q, height, width)
  {
    forall i, j | -1 <= i <= 1 && -1 <= j <= 1
      ensures Hit(a + b, p, q, i, j, height, width) == Hit(a, p, q, i, j, height, width) + Hit(b, p, q, i, j, height, width)
    {
      var n := Neighbour(p, q, i, j, height, width);
      assert !(n in a && n in b);
    }
  }

  /**
   * A birth at c raises the live count of (p, q) by exactly what
   * `IncreaseNeighbourCounts` at c adds to (p, q).
   */
  lemma LiveCountBirth(live: iset<Pos>, c: Pos, p: int, q: int, height: int, width: int)
    requires InGrid(c.0, c.1, height, width) && InGrid(p, q, height, width)
    requires c !in live
    ensures LiveCount(live + iset{c}, p, q, height, width)
         == LiveCount(live, p, q, height, width) + Multiplicity(c.0, c.1, p, q, height, width)
  {
    LiveCountUnion(live, iset{c}, p, q, height, width);
    MultiplicitySymmetric(c.0, c.1, p, q, height, width);
  }

  /**
   * A death at c lowers the live count of (p, q) by exactly what
   * `DecreaseNeighbourCounts` at c takes from (p, q).
   */
  lemma LiveCountDeath(live: iset<Pos>, c: Pos, p: int, q: int, height: int, width: int)
    requires InGrid(c.0, c.1, height, width) && InGrid(p, q, height, width)
    requires c in live
    ensures LiveCount(live - iset{c}, p, q, height, width)
         == LiveCount(live, p, q, height, width) - Multiplicity(c.0, c.1, p, q, height, width)
  {
    LiveCountBirth(live - iset{c}, c, p, q, height, width);
    assert live - iset{c} + iset{c} == live;
  }

  /**
   * On a torus of at least 3 x 3 the 8 offsets reach 8 distinct cells, none of
   * them the cell itself: each neighbour is counted once.
   */
  lemma NeighboursDistinct(x: int, y: int, a: int, b: int, height: int, width: int)
    requires 3 <= height && 3 <= width && InGrid(x, y, height, width)
    requires -1 <= a <= 1 && -1 <= b <= 1 && (a, b) != (0, 0)
    ensures Multiplicity(x, y, x, y, height, width) == 0
    ensures Multiplicity(x, y, Wrap(x + a, height), Wrap(y + b, width), height, width) == 1
  {
  }

  /** On a 1 x 1 torus all 8 offsets of the only cell are the cell itself. */
  lemma SingleCellIsItsOwnNeighbourEightTimes()
    ensures Multiplicity(0, 0, 0, 0, 1, 1) == 8
  {
  }

  /**
   * Toroidal adjacency of the corner: for every size, (0, 0) has the opposite
   * corner (height - 1, width - 1) among its neighbours.
   */
  lemma CornersAdjacent(height: int, width: int)
    requires 1 <= height && 1 <= width
    ensures Multiplicity(0, 0, height - 1, width - 1, height, width) >= 1
    ensures Multiplicity(height - 1, width - 1, 0, 0, height, width) >= 1
  {
  }
}

/** The board: a flat row-major array of 0/1 cells and the conversion between
    a flat index and an `(x, y)` coordinate (src/canvas.ts, `getIndex` and
    `getCoords`). */
module Board {

  /** A grid dimension; the source derives `rows` and `cols` from the viewport
      and only ever uses them as positive numbers. */
  type Pos = n: int | n > 0 witness 1

  /** A cell holds exactly the values of the source's `Array<0 | 1>`. */
  type Cell = c: int | c == 0 || c == 1

  /** A coordinate is an unconstrained pair: `getIndex` accepts any pair and
      callers decide whether it lies on the grid. */
  datatype Coord = Coord(x: int, y: int)

  /** `getIndex`: row-major flattening, `x + y * cols`, with no range check. */
  function GetIndex(c: Coord, cols: Pos): int
  {
    c.x + c.y * cols
  }

  /** `getCoords`: column is the remainder, row the floored quotient. The
      source applies it only to board indices, which are never negative, so
      JavaScript's `%` and `Math.floor(/)` coincide with Dafny's here. */
  function GetCoords(index: nat, cols: Pos): (c: Coord)
    ensures 0 <= c.x < cols && 0 <= c.y
    ensures GetIndex(c, cols) == index
  {
    Coord(index % cols, index / cols)
  }

  /** A coordinate inside a `rows` x `cols` grid. */
  predicate OnGrid(c: Coord, rows: Pos, cols: Pos)
  {
    0 <= c.x < cols && 0 <= c.y < rows
  }

  /** The all-dead board of `n` cells that `setup` allocates. */
  function AllDead(n: nat): (b: seq<Cell>)
    ensures |b| == n
    ensures forall i :: 0 <= i < n ==> b[i] == 0
  {
    seq(n, _ => 0)
  }

  /** Coordinates then index gives the coordinate back, provided the column is
      in range and the row is not negative (otherwise the index is negative
      and never reaches `getCoords`). */
  lemma CoordsOfIndex(c: Coord, cols: Pos)
    requires 0 <= c.x < cols && 0 <= c.y
    ensures GetIndex(c, cols) >= 0
    ensures GetCoords(GetIndex(c, cols), cols) == c
  {
    var i := GetIndex(c, cols);
    assert i >= 0 by { MulNonNegative(c.y, cols); }
    var d := GetCoords(i, cols);
    DivModUnique(i, cols, c.x, c.y, d.x, d.y);
  }

  /** `getIndex` is injective on coordinates with an in-range column. */
  lemma GetIndexInjective(c: Coord, d: Coord, cols: Pos)
    requires 0 <= c.x < cols && 0 <= c.y
    requires 0 <= d.x < cols && 0 <= d.y
    ensures GetIndex(c, cols) == GetIndex(d, cols) <==> c == d
  {
    if GetIndex(c, cols) == GetIndex(d, cols) {
      CoordsOfIndex(c, cols);
      CoordsOfIndex(d, cols);
    }
  }

  /** Every on-grid coordinate lands inside a board of `rows * cols` cells. */
  lemma OnGridIndexInRange(c: Coord, rows: Pos, cols: Pos)
    requires OnGrid(c, rows, cols)
    ensures 0 <= GetIndex(c, cols) < rows * cols
  {
    MulNonNegative(c.y, cols);
    MulMonotone(c.y + 1, rows, cols);
    assert (c.y + 1) * cols == c.y * cols + cols;
  }

  lemma MulNonNegative(a: int, b: int)
    requires 0 <= a && 0 <= b
    ensures 0 <= a * b
  {
  }

  lemma MulMonotone(a: int, b: int, k: int)
    requires a <= b && 0 <= k
    ensures a * k <= b * k
  {
    assert b * k - a * k == (b - a) * k;
    MulNonNegative(b - a, k);
  }

  /** Quotient and remainder of a division by a positive number are unique. */
  lemma DivModUnique(i: int, n: Pos, r1: int, q1: int, r2: int, q2: int)
    requires 0 <= r1 < n && 0 <= r2 < n
    requires i == r1 + q1 * n && i == r2 + q2 * n
    ensures r1 == r2 && q1 == q2
  {
    assert (q1 - q2) * n == r2 - r1;
    if q1 > q2 {
      MulMonotone(1, q1 - q2, n);
    } else if q1 < q2 {
      MulMonotone(1, q2 - q1, n);
    }
  }
}

/** The grid and the wrapped neighbour lookup of `get_neighbors`. Grids are
    indexed `g[row, column]`, i.e. `g[y, x]`, as the program's `grid[y][x]`. */
module Torus {
  import opened Rule

  /** GRID_W and GRID_H. */
  const Width := 100
  const Height := 100

  /** A buffer of the program's shape: `Height` rows of `Width` cells. */
  predicate IsGrid(g: array2<bool>) {
    g.Length0 == Height && g.Length1 == Width
  }

  /** `top_neighbor_y`: `(GRID_H - y) % GRID_H`. Both operands are non-negative,
      so Dafny's `%` agrees with C's. This is the mirror row of `y`, not its
      predecessor: row 0 maps to itself. */
  function TopRow(y: int): (r: int)
    requires 0 <= y < Height
    ensures 0 <= r < Height
    ensures r == if y == 0 then 0 else Height - y
  {
    (Height - y) % Height
  }

  /** `bottom_neighbor_y`: `(y + 1) % GRID_H`, the successor row, the last row wrapping to 0. */
  function BottomRow(y: int): (r: int)
    requires 0 <= y < Height
    ensures 0 <= r < Height
    ensures r == if y == Height - 1 then 0 else y + 1
  {
    (y + 1) % Height
  }

  /** `right_neighbor_x`: `(x + 1) % GRID_W`, the successor column, the last column wrapping to 0. */
  function RightCol(x: int): (c: int)
    requires 0 <= x < Width
    ensures 0 <= c < Width
    ensures c == if x == Width - 1 then 0 else x + 1
  {
    (x + 1) % Width
  }

  /** `left_neighbor_x`: `(GRID_W - x) % GRID_W`, the mirror column of `x`. */
  function LeftCol(x: int): (c: int)
    requires 0 <= x < Width
    ensures 0 <= c < Width
    ensures c == if x == 0 then 0 else Width - x
  {
    (Width - x) % Width
  }

  /** The top and left formulas reflect the axis: applied twice they give the
      index back, and they fix exactly index 0 and the middle index. */
  lemma MirrorIndices(x: int, y: int)
    requires 0 <= x < Width && 0 <= y < Height
    ensures LeftCol(LeftCol(x)) == x && TopRow(TopRow(y)) == y
    ensures LeftCol(x) == x <==> x == 0 || 2 * x == Width
    ensures TopRow(y) == y <==> y == 0 || 2 * y == Height
  {
  }

  /** Column and row offsets of the eight flags, in the order `get_neighbors`
      fills them: north, north-east, east, south-east, south, south-west,
      west, north-west (north is the `top` row). */
  const Offsets: seq<(int, int)> :=
    [(0, -1), (1, -1), (1, 0), (1, 1), (0, 1), (-1, 1), (-1, 0), (-1, -1)]

  /** The column `get_neighbors` reads for a horizontal offset `dx`. */
  function ColAt(x: int, dx: int): (c: int)
    requires 0 <= x < Width && -1 <= dx <= 1
    ensures 0 <= c < Width
  {
    if dx == 1 then RightCol(x) else if dx == -1 then LeftCol(x) else x
  }

  /** The row `get_neighbors` reads for a vertical offset `dy`. */
  function RowAt(y: int, dy: int): (r: int)
    requires 0 <= y < Height && -1 <= dy <= 1
    ensures 0 <= r < Height
  {
    if dy == 1 then BottomRow(y) else if dy == -1 then TopRow(y) else y
  }

  /** The cell `get_neighbors` reads for flag `k`, as a (column, row) pair:
      offset `Offsets[k]` from `(x, y)` resolved through the formulas above. */
  function AsWrittenCell(x: int, y: int, k: int): (cell: (int, int))
    requires 0 <= x < Width && 0 <= y < Height && 0 <= k < 8
    ensures 0 <= cell.0 < Width && 0 <= cell.1 < Height
  {
    (ColAt(x, Offsets[k].0), RowAt(y, Offsets[k].1))
  }

  /** `get_neighbors(grid, x, y)`: flag `k` is the cell `AsWrittenCell(x, y, k)`,
      so every read lies inside the grid. */
  function GetNeighbors(g: array2<bool>, x: int, y: int): (nbrs: Neighbors)
    reads g
    requires IsGrid(g) && 0 <= x < Width && 0 <= y < Height
    ensures forall k :: 0 <= k < 8 ==>
      nbrs.n[k] == g[AsWrittenCell(x, y, k).1, AsWrittenCell(x, y, k).0]
  {
    var top, bottom := TopRow(y), BottomRow(y);
    var right, left := RightCol(x), LeftCol(x);
    Neighbors([g[top, x], g[top, right], g[y, right], g[bottom, right],
               g[bottom, x], g[bottom, left], g[y, left], g[top, left]])
  }

  // ---------------------------------------------------------------------
  // The wrapped lookup the program's variable names describe: the `top`
  // row and `left` column as predecessors, `(i - 1 + N) % N`.

  /** The predecessor row, row 0 wrapping to the last row. */
  function PredRow(y: int): (r: int)
    requires 0 <= y < Height
    ensures 0 <= r < Height
    ensures r == if y == 0 then Height - 1 else y - 1
    ensures BottomRow(r) == y
  {
    (y - 1 + Height) % Height
  }

  /** The predecessor column, column 0 wrapping to the last column. */
  function PredCol(x: int): (c: int)
    requires 0 <= x < Width
    ensures 0 <= c < Width
    ensures c == if x == 0 then Width - 1 else x - 1
    ensures RightCol(c) == x
  {
    (x - 1 + Width) % Width
  }

  /** Toroidal column `x + dx`. */
  function WrapCol(x: int, dx: int): (c: int)
    requires 0 <= x < Width && -1 <= dx <= 1
    ensures 0 <= c < Width
    ensures (c - x - dx) % Width == 0
  {
    if dx == 1 then RightCol(x) else if dx == -1 then PredCol(x) else x
  }

  /** Toroidal row `y + dy`. */
  function WrapRow(y: int, dy: int): (r: int)
    requires 0 <= y < Height && -1 <= dy <= 1
    ensures 0 <= r < Height
    ensures (r - y - dy) % Height == 0
  {
    if dy == 1 then BottomRow(y) else if dy == -1 then PredRow(y) else y
  }

  /** The cell the corrected lookup reads for flag `k`, as a (column, row) pair. */
  function WrappedCell(x: int, y: int, k: int): (cell: (int, int))
    requires 0 <= x < Width && 0 <= y < Height && 0 <= k < 8
    ensures 0 <= cell.0 < Width && 0 <= cell.1 < Height
  {
    (WrapCol(x, Offsets[k].0), WrapRow(y, Offsets[k].1))
  }

  /** The corrected lookup: flag `k` is the cell `WrappedCell(x, y, k)`, the
      same offsets in the same order as `GetNeighbors`, resolved on the torus. */
  function CorrectedNeighbors(g: array2<bool>, x: int, y: int): (nbrs: Neighbors)
    reads g
    requires IsGrid(g) && 0 <= x < Width && 0 <= y < Height
    ensures forall k :: 0 <= k < 8 ==>
      nbrs.n[k] == g[WrappedCell(x, y, k).1, WrappedCell(x, y, k).0]
  {
    var top, bottom := PredRow(y), BottomRow(y);
    var right, left := RightCol(x), PredCol(x);
    Neighbors([g[top, x], g[top, right], g[y, right], g[bottom, right],
               g[bottom, x], g[bottom, left], g[y, left], g[top, left]])
  }

  /** On the torus every cell has eight distinct neighbours, none of them the
      cell itself. */
  lemma WrappedCellsDistinct(x: int, y: int)
    requires 0 <= x < Width && 0 <= y < Height
    ensures forall k :: 0 <= k < 8 ==> WrappedCell(x, y, k) != (x, y)
    ensures forall k, l :: 0 <= k < l < 8 ==> WrappedCell(x, y, k) != WrappedCell(x, y, l)
  {
  }

  /** As written, corner `(0, 0)` reads itself as its north, west and
      north-west neighbour. */
  lemma CornerReadsItself(g: array2<bool>)
    requires IsGrid(g)
    ensures var r := GetNeighbors(g, 0, 0);
      r.n[0] == g[0, 0] && r.n[6] == g[0, 0] && r.n[7] == g[0, 0]
  {
  }

  /** True when the only live cell of `g` is the corner `(0, 0)`. */
  predicate LoneCorner(g: array2<bool>)
    reads g
    requires IsGrid(g)
  {
    g[0, 0] && forall i, j :: 0 <= i < Height && 0 <= j < Width && (i != 0 || j != 0) ==> !g[i, j]
  }

  /** As written, a lone live cell at the corner counts three live neighbours
      (itself, three times) and so survives the generation. */
  lemma LoneCornerSurvivesAsWritten(g: array2<bool>)
    requires IsGrid(g) && LoneCorner(g)
    ensures CountTrue(GetNeighbors(g, 0, 0).n) == 3
    ensures NextState(g[0, 0], GetNeighbors(g, 0, 0))
  {
    var r := GetNeighbors(g, 0, 0);
    assert r.n == [true, false, false, false, false, false, true, true];
    CountTrueIsMultiplicity(r.n);
  }

  /** With the corrected lookup the same lone cell has no live neighbour and
      dies of underpopulation. */
  lemma LoneCornerDiesCorrected(g: array2<bool>)
    requires IsGrid(g) && LoneCorner(g)
    ensures CountTrue(CorrectedNeighbors(g, 0, 0).n) == 0
    ensures !NextState(g[0, 0], CorrectedNeighbors(g, 0, 0))
  {
    var r := CorrectedNeighbors(g, 0, 0);
    assert r.n == [false, false, false, false, false, false, false, false];
  }

  /** True when the live cells of `g` are exactly the 2x2 block at rows and
      columns 10 and 11. */
  predicate BlockAt10(g: array2<bool>)
    reads g
    requires IsGrid(g)
  {
    forall i, j :: 0 <= i < Height && 0 <= j < Width ==>
      (g[i, j] <==> 10 <= i <= 11 && 10 <= j <= 11)
  }

  /** As written, the block is not a still life: its cell (11, 11) reads row
      89 and column 89 as its top and left, counts no live neighbour and dies. */
  lemma BlockCornerDiesAsWritten(g: array2<bool>)
    requires IsGrid(g) && BlockAt10(g)
    ensures g[11, 11]
    ensures CountTrue(GetNeighbors(g, 11, 11).n) == 0
    ensures !NextState(g[11, 11], GetNeighbors(g, 11, 11))
  {
    var r := GetNeighbors(g, 11, 11);
    assert r.n == [false, false, false, false, false, false, false, false];
  }

  /** With the corrected lookup the same cell counts its three block
      neighbours and survives. */
  lemma BlockCornerSurvivesCorrected(g: array2<bool>)
    requires IsGrid(g) && BlockAt10(g)
    ensures g[11, 11]
    ensures CountTrue(CorrectedNeighbors(g, 11, 11).n) == 3
    ensures NextState(g[11, 11], CorrectedNeighbors(g, 11, 11))
  {
    var r := CorrectedNeighbors(g, 11, 11);
    assert r.n == [true, false, false, false, false, false, true, true];
    CountTrueIsMultiplicity(r.n);
  }
}

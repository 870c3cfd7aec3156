/** The position distributor: a lattice of roughly square cells over the
    grid and one jittered point inside each lattice cell, one per burst of
    a batch. */
module Distribution {
  import opened Canvas

  /** The inset from every lattice-cell edge and from the grid edges. */
  const Margin: int := 5

  function Min(a: int, b: int): int {
    if a <= b then a else b
  }

  lemma SquareAtLeast(k: nat, rows: int)
    requires rows > 0
    ensures k <= k * k * rows
  {
    if k > 0 {
      MulMonotone(1, k, k);
      MulMonotone(1, rows, k * k);
    }
  }

  /** The least k >= start with k * k * rows >= target. */
  function LeastSquareFrom(start: nat, target: int, rows: int): (k: nat)
    requires rows > 0
    requires start == 0 || (start - 1) * (start - 1) * rows < target
    ensures start <= k
    ensures k * k * rows >= target
    ensures k == 0 || (k - 1) * (k - 1) * rows < target
    decreases target - start
  {
    if start * start * rows >= target then start
    else
      SquareAtLeast(start, rows);
      LeastSquareFrom(start + 1, target, rows)
  }

  /** `gridCols = ceil(sqrt(count * (cols / rows)))`, in exact arithmetic:
      the least k whose square reaches count * cols / rows. It is zero
      exactly when no position is requested. */
  function LatticeCols(rows: int, cols: int, count: nat): (k: nat)
    requires rows > 0 && cols > 0
    ensures k * k * rows >= count * cols
    ensures k == 0 || (k - 1) * (k - 1) * rows < count * cols
    ensures k == 0 <==> count == 0
  {
    assert count > 0 ==> count * cols > 0 by {
      if count > 0 {
        MulMonotone(1, count, cols);
      }
    }
    LeastSquareFrom(0, count * cols, rows)
  }

  /** `gridRows = ceil(count / gridCols)`: the fewest rows of `gridCols`
      lattice cells that hold `count` positions. For `gridCols == 0`
      (no positions) the source computes NaN, which is never used; the
      model yields 0. */
  function LatticeRows(count: nat, gridCols: nat): (r: nat)
    ensures gridCols > 0 ==> r * gridCols >= count && (r == 0 || (r - 1) * gridCols < count)
    ensures gridCols > 0 ==> (r == 0 <==> count == 0)
  {
    if gridCols == 0 then 0
    else
      var r := (count + gridCols - 1) / gridCols;
      DivUnique(count + gridCols - 1, gridCols, r, (count + gridCols - 1) % gridCols);
      r
  }

  /** The lattice for `count` positions on a rows x cols grid. */
  datatype Lattice = Lattice(gridCols: nat, gridRows: nat, cellWidth: int, cellHeight: int)

  function LatticeFor(rows: int, cols: int, count: nat): Lattice
    requires rows > 0 && cols > 0
  {
    var gridCols := LatticeCols(rows, cols, count);
    var gridRows := LatticeRows(count, gridCols);
    Lattice(gridCols, gridRows,
            if gridCols > 0 then cols / gridCols else 0,
            if gridRows > 0 then rows / gridRows else 0)
  }

  /** `Math.floor(noise * (hi - lo)) + lo` */
  function Jitter(noise: real, lo: int, hi: int): int {
    (noise * (hi - lo) as real).Floor + lo
  }

  /** For noise in [0, 1) the jittered value lies in [lo, hi) when that
      range is non-empty, is lo when it is a single point, and otherwise
      lies between the two bounds. */
  lemma JitterBounds(noise: real, lo: int, hi: int)
    requires 0.0 <= noise < 1.0
    ensures lo < hi ==> lo <= Jitter(noise, lo, hi) < hi
    ensures lo == hi ==> Jitter(noise, lo, hi) == lo
    ensures hi < lo ==> hi <= Jitter(noise, lo, hi) <= lo
  {
    var d := (hi - lo) as real;
    if lo < hi {
      ScaleBelow(noise, d);
    } else if hi < lo {
      ScaleBelow(noise, -d);
    }
  }

  /** Scaling by a factor in [0, 1) keeps a positive value in [0, d). */
  lemma ScaleBelow(noise: real, d: real)
    requires 0.0 <= noise < 1.0 && d > 0.0
    ensures 0.0 <= noise * d < d
  {
    assert d - noise * d == (1.0 - noise) * d;
  }

  /** The lattice row and column of position i. */
  function LatticeCell(l: Lattice, i: nat): Cell
    requires l.gridCols > 0
  {
    Cell(i / l.gridCols, i % l.gridCols)
  }

  /** The row range of position i before the jitter. */
  function RowRange(l: Lattice, rows: int, i: nat): (int, int)
    requires l.gridCols > 0
  {
    var gridRow := LatticeCell(l, i).row;
    (gridRow * l.cellHeight + Margin, Min((gridRow + 1) * l.cellHeight - Margin, rows - Margin))
  }

  /** The column range of position i before the jitter. */
  function ColRange(l: Lattice, cols: int, i: nat): (int, int)
    requires l.gridCols > 0
  {
    var gridCol := LatticeCell(l, i).col;
    (gridCol * l.cellWidth + Margin, Min((gridCol + 1) * l.cellWidth - Margin, cols - Margin))
  }

  /** Position i of `generateDistributedPositions(count)`, given the two
      `Math.random()` draws of its iteration. */
  function DistributedPosition(rows: int, cols: int, count: nat, i: nat, rowNoise: real, colNoise: real): Cell
    requires rows > 0 && cols > 0 && i < count
  {
    var l := LatticeFor(rows, cols, count);
    var (minRow, maxRow) := RowRange(l, rows, i);
    var (minCol, maxCol) := ColRange(l, cols, i);
    Cell(Jitter(rowNoise, minRow, maxRow), Jitter(colNoise, minCol, maxCol))
  }

  /** `generateDistributedPositions`, with the row and column draws of
      iteration i as `rowNoise[i]` and `colNoise[i]`. */
  method GenerateDistributedPositions(rows: int, cols: int, count: nat, rowNoise: seq<real>, colNoise: seq<real>)
    returns (positions: seq<Cell>)
    requires rows > 0 && cols > 0
    requires |rowNoise| == count && |colNoise| == count
    ensures |positions| == count
    ensures forall i :: 0 <= i < count ==> positions[i] == DistributedPosition(rows, cols, count, i, rowNoise[i], colNoise[i])
  {
    positions := [];
    var lattice := LatticeFor(rows, cols, count);
    var gridCols, gridRows := lattice.gridCols, lattice.gridRows;
    var cellWidth, cellHeight := lattice.cellWidth, lattice.cellHeight;
    for i := 0 to count
      invariant |positions| == i
      invariant forall j :: 0 <= j < i ==> positions[j] == DistributedPosition(rows, cols, count, j, rowNoise[j], colNoise[j])
    {
      var gridRow := i / gridCols;
      var gridCol := i % gridCols;
      var minRow := gridRow * cellHeight + Margin;
      var maxRow := Min((gridRow + 1) * cellHeight - Margin, rows - Margin);
      var minCol := gridCol * cellWidth + Margin;
      var maxCol := Min((gridCol + 1) * cellWidth - Margin, cols - Margin);
      var row := Jitter(rowNoise[i], minRow, maxRow);
      var col := Jitter(colNoise[i], minCol, maxCol);
      assert RowRange(lattice, rows, i) == (minRow, maxRow) && ColRange(lattice, cols, i) == (minCol, maxCol);
      positions := positions + [Cell(row, col)];
    }
  }

  /** The lattice has room for every position: position i sits in lattice
      row i / gridCols < gridRows, and no lattice cell reaches past the
      grid, so the clamp to `dimension - margin` never cuts a range short. */
  lemma LatticeCovers(rows: int, cols: int, count: nat, i: nat)
    requires rows > 0 && cols > 0 && i < count
    ensures var l := LatticeFor(rows, cols, count);
            && l.gridCols > 0 && l.gridRows > 0
            && l.gridCols * l.gridRows >= count
            && LatticeCell(l, i).row < l.gridRows
            && (LatticeCell(l, i).row + 1) * l.cellHeight <= rows
            && (LatticeCell(l, i).col + 1) * l.cellWidth <= cols
            && RowRange(l, rows, i).1 == (LatticeCell(l, i).row + 1) * l.cellHeight - Margin
            && ColRange(l, cols, i).1 == (LatticeCell(l, i).col + 1) * l.cellWidth - Margin
  {
    var l := LatticeFor(rows, cols, count);
    QuotientBelow(i, count, l.gridCols, l.gridRows);
    SlabsFit(i / l.gridCols, l.gridRows, rows);
    SlabsFit(i % l.gridCols, l.gridCols, cols);
  }

  lemma QuotientBelow(i: nat, count: nat, gc: int, gr: int)
    requires gc > 0 && i < count <= gr * gc
    ensures i / gc < gr
  {
    if i / gc >= gr {
      MulMonotone(gr, i / gc, gc);
      assert false;
    }
  }

  /** n slabs of height dim / n fit in dim. */
  lemma SlabsFit(q: nat, n: int, dim: int)
    requires q < n && dim >= 0
    ensures (q + 1) * (dim / n) <= dim
  {
    MulMonotone(q + 1, n, dim / n);
  }

  /** Distinct positions use distinct lattice cells. */
  lemma LatticeCellsDistinct(l: Lattice, i: nat, j: nat)
    requires l.gridCols > 0 && i != j
    ensures LatticeCell(l, i) != LatticeCell(l, j)
  {
  }

  /** Position i has room in its lattice cell on both axes. */
  predicate Roomy(rows: int, cols: int, count: nat, i: nat)
    requires rows > 0 && cols > 0 && i < count
  {
    var l := LatticeFor(rows, cols, count);
    RowRange(l, rows, i).0 < RowRange(l, rows, i).1 && ColRange(l, cols, i).0 < ColRange(l, cols, i).1
  }

  /** When its row range is non-empty, position i's row lies inside its
      lattice row inset by the margin, and inside the grid's row margins. */
  lemma RowInCell(rows: int, cols: int, count: nat, i: nat, rowNoise: real, colNoise: real)
    requires rows > 0 && cols > 0 && i < count
    requires RowRange(LatticeFor(rows, cols, count), rows, i).0 < RowRange(LatticeFor(rows, cols, count), rows, i).1
    requires 0.0 <= rowNoise < 1.0
    ensures var l := LatticeFor(rows, cols, count);
            var p := DistributedPosition(rows, cols, count, i, rowNoise, colNoise);
            && LatticeCell(l, i).row * l.cellHeight + Margin <= p.row < (LatticeCell(l, i).row + 1) * l.cellHeight - Margin
            && Margin <= p.row < rows - Margin
  {
    var l := LatticeFor(rows, cols, count);
    var p := DistributedPosition(rows, cols, count, i, rowNoise, colNoise);
    LatticeCovers(rows, cols, count, i);
    JitterBounds(rowNoise, RowRange(l, rows, i).0, RowRange(l, rows, i).1);
    AxisInCell(LatticeCell(l, i).row, l.cellHeight, rows, p.row);
  }

  /** The same for the column of position i. */
  lemma ColInCell(rows: int, cols: int, count: nat, i: nat, rowNoise: real, colNoise: real)
    requires rows > 0 && cols > 0 && i < count
    requires ColRange(LatticeFor(rows, cols, count), cols, i).0 < ColRange(LatticeFor(rows, cols, count), cols, i).1
    requires 0.0 <= colNoise < 1.0
    ensures var l := LatticeFor(rows, cols, count);
            var p := DistributedPosition(rows, cols, count, i, rowNoise, colNoise);
            && LatticeCell(l, i).col * l.cellWidth + Margin <= p.col < (LatticeCell(l, i).col + 1) * l.cellWidth - Margin
            && Margin <= p.col < cols - Margin
  {
    var l := LatticeFor(rows, cols, count);
    var p := DistributedPosition(rows, cols, count, i, rowNoise, colNoise);
    LatticeCovers(rows, cols, count, i);
    JitterBounds(colNoise, ColRange(l, cols, i).0, ColRange(l, cols, i).1);
    AxisInCell(LatticeCell(l, i).col, l.cellWidth, cols, p.col);
  }

  /** When its lattice cell has room, position i lies inside that cell
      inset by the margin, and so inside the grid inset by the margin. */
  lemma PositionInCell(rows: int, cols: int, count: nat, i: nat, rowNoise: real, colNoise: real)
    requires rows > 0 && cols > 0 && i < count && Roomy(rows, cols, count, i)
    requires 0.0 <= rowNoise < 1.0 && 0.0 <= colNoise < 1.0
    ensures var l := LatticeFor(rows, cols, count);
            var p := DistributedPosition(rows, cols, count, i, rowNoise, colNoise);
            && LatticeCell(l, i).row * l.cellHeight + Margin <= p.row < (LatticeCell(l, i).row + 1) * l.cellHeight - Margin
            && LatticeCell(l, i).col * l.cellWidth + Margin <= p.col < (LatticeCell(l, i).col + 1) * l.cellWidth - Margin
            && Margin <= p.row < rows - Margin
            && Margin <= p.col < cols - Margin
  {
    RowInCell(rows, cols, count, i, rowNoise, colNoise);
    ColInCell(rows, cols, count, i, rowNoise, colNoise);
  }

  /** One axis of `PositionInCell`: a value inside the inset slab q lies
      inside the inset grid. */
  lemma AxisInCell(q: nat, size: int, dim: int, x: int)
    requires (q + 1) * size <= dim
    requires q * size + Margin <= x < (q + 1) * size - Margin
    ensures Margin <= x < dim - Margin
  {
    if size < 0 {
      MulMonotone(q, q + 1, size);
    } else {
      MulMonotone(0, q, size);
    }
  }

  /** Lattice cells more than twice the margin wide and high leave room
      for every position. */
  lemma RoomyWhenCellsLarge(rows: int, cols: int, count: nat, i: nat)
    requires rows > 0 && cols > 0 && i < count
    requires LatticeFor(rows, cols, count).cellHeight > 2 * Margin
    requires LatticeFor(rows, cols, count).cellWidth > 2 * Margin
    ensures Roomy(rows, cols, count, i)
  {
    LatticeCovers(rows, cols, count, i);
  }

  /** Two positions with room in their lattice cells never coincide: the
      bursts of a batch start at distinct points. */
  lemma PositionsDistinct(rows: int, cols: int, count: nat, i: nat, j: nat,
                          rowNoise: real, colNoise: real, rowNoise': real, colNoise': real)
    requires rows > 0 && cols > 0 && i < count && j < count && i != j
    requires Roomy(rows, cols, count, i) && Roomy(rows, cols, count, j)
    requires 0.0 <= rowNoise < 1.0 && 0.0 <= colNoise < 1.0 && 0.0 <= rowNoise' < 1.0 && 0.0 <= colNoise' < 1.0
    ensures DistributedPosition(rows, cols, count, i, rowNoise, colNoise)
            != DistributedPosition(rows, cols, count, j, rowNoise', colNoise')
  {
    var l := LatticeFor(rows, cols, count);
    var a, b := LatticeCell(l, i), LatticeCell(l, j);
    LatticeCellsDistinct(l, i, j);
    PositionInCell(rows, cols, count, i, rowNoise, colNoise);
    PositionInCell(rows, cols, count, j, rowNoise', colNoise');
    if a.row < b.row {
      MulMonotone(a.row + 1, b.row, l.cellHeight);
    } else if b.row < a.row {
      MulMonotone(b.row + 1, a.row, l.cellHeight);
    } else if a.col < b.col {
      MulMonotone(a.col + 1, b.col, l.cellWidth);
    } else {
      MulMonotone(b.col + 1, a.col, l.cellWidth);
    }
  }

  /** With six bursts, a 12x12 grid leaves lattice cells of 6 rows by 4
      columns, too small for the margin: the first position can fall on
      row 1, outside [Margin, rows - Margin). */
  lemma SmallGridEscapesMargin()
    ensures DistributedPosition(12, 12, 6, 0, 0.99, 0.0) == Cell(1, 5)
    ensures !Roomy(12, 12, 6, 0)
  {
    assert LatticeCols(12, 12, 6) == 3;
    assert LatticeFor(12, 12, 6) == Lattice(3, 2, 4, 6);
  }
}

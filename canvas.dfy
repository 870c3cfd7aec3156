/** The colour surface as a value: a row-major sequence of grey levels with
    `cols` cells per row, addressed by (row, col), and the sequences of
    cell writes the engine performs on it, applied in order so that the
    last write to a cell wins. */
module Canvas {
  import opened Colors

  datatype Option<T> = None | Some(value: T)

  datatype Cell = Cell(row: int, col: int)

  /** One `illuminatePixel(row, col, color)` call. */
  datatype Write = Write(row: int, col: int, color: int)

  predicate InBounds(rows: int, cols: int, row: int, col: int) {
    0 <= row < rows && 0 <= col < cols
  }

  /** The number of cell slots the grid allocates for `rows * cols`: the
      creation loop runs while `i < rows * cols`. */
  function Total(rows: int, cols: int): nat {
    if rows * cols > 0 then rows * cols else 0
  }

  lemma MulMonotone(a: int, b: int, n: int)
    requires a <= b && n >= 0
    ensures a * n <= b * n
  {
    assert b * n - a * n == (b - a) * n;
  }

  lemma SmallMultiple(x: int, n: int)
    requires n > 0 && -n < x * n < n
    ensures x == 0
  {
    if x >= 1 {
      MulMonotone(1, x, n);
      assert false;
    } else if x <= -1 {
      MulMonotone(x, -1, n);
      assert false;
    }
  }

  /** Quotient and remainder are the only ones with a remainder in [0, n). */
  lemma DivUnique(i: int, n: int, q: int, m: int)
    requires n > 0 && 0 <= m < n && i == q * n + m
    ensures i / n == q && i % n == m
  {
    assert (q - i / n) * n == i % n - m;
    SmallMultiple(q - i / n, n);
  }

  /** Row-major addressing of an in-bounds cell lands inside the grid and
      is inverted by the `i / cols`, `i % cols` assignment of grid
      creation. */
  lemma RowMajor(rows: int, cols: int, row: int, col: int)
    requires InBounds(rows, cols, row, col)
    ensures 0 <= row * cols + col < rows * cols
    ensures (row * cols + col) / cols == row
    ensures (row * cols + col) % cols == col
  {
    MulMonotone(0, row, cols);
    MulMonotone(row + 1, rows, cols);
    DivUnique(row * cols + col, cols, row, col);
  }

  /** Every slot of the grid is the cell (i / cols, i % cols), and that
      cell is in bounds and addressed by slot i. */
  lemma SlotCell(rows: int, cols: int, i: int)
    requires rows > 0 && cols > 0 && 0 <= i < rows * cols
    ensures InBounds(rows, cols, i / cols, i % cols)
    ensures PixelAt(rows, cols, i / cols, i % cols) == Some(i)
  {
    var q := i / cols;
    if q >= rows {
      MulMonotone(rows, q, cols);
      assert false;
    }
  }

  /** `getPixelAt`: the slot of (row, col), or nothing when the cell is
      outside the grid. */
  function PixelAt(rows: int, cols: int, row: int, col: int): (r: Option<nat>)
    ensures r.Some? <==> InBounds(rows, cols, row, col)
    ensures r.Some? ==> r.value < Total(rows, cols)
  {
    if row < 0 || row >= rows || col < 0 || col >= cols then None
    else
      RowMajor(rows, cols, row, col);
      Some(row * cols + col)
  }

  /** The slot `getPixelAt` returns is the one grid creation filled for
      that cell, and distinct cells have distinct slots. */
  lemma PixelAtSlot(rows: int, cols: int, row: int, col: int, row': int, col': int)
    requires PixelAt(rows, cols, row, col).Some? && PixelAt(rows, cols, row', col').Some?
    ensures PixelAt(rows, cols, row, col).value / cols == row
    ensures PixelAt(rows, cols, row, col).value % cols == col
    ensures PixelAt(rows, cols, row, col) == PixelAt(rows, cols, row', col') <==> row == row' && col == col'
  {
    RowMajor(rows, cols, row, col);
    RowMajor(rows, cols, row', col');
  }

  /** The colour of an in-bounds cell. */
  function At(s: seq<int>, rows: int, cols: int, row: int, col: int): int
    requires |s| == Total(rows, cols) && InBounds(rows, cols, row, col)
  {
    RowMajor(rows, cols, row, col);
    s[row * cols + col]
  }

  predicate Targets(w: Write, row: int, col: int) {
    w.row == row && w.col == col
  }

  /** Some write of `ws` addresses (row, col). */
  predicate Touches(ws: seq<Write>, row: int, col: int) {
    exists w :: w in ws && Targets(w, row, col)
  }

  /** Every write of `ws` uses colour `color`. */
  predicate AllColored(ws: seq<Write>, color: int) {
    forall w :: w in ws ==> w.color == color
  }

  /** `illuminatePixel`: one write, dropped when it is out of bounds. */
  function Apply(s: seq<int>, rows: int, cols: int, w: Write): (r: seq<int>)
    requires |s| == Total(rows, cols)
    ensures |r| == |s|
  {
    match PixelAt(rows, cols, w.row, w.col)
    case None => s
    case Some(i) => s[i := w.color]
  }

  /** The writes of `ws`, performed in order. */
  function ApplyAll(s: seq<int>, rows: int, cols: int, ws: seq<Write>): (r: seq<int>)
    requires |s| == Total(rows, cols)
    ensures |r| == |s|
    decreases |ws|
  {
    if ws == [] then s else ApplyAll(Apply(s, rows, cols, ws[0]), rows, cols, ws[1..])
  }

  /** The colour (row, col) shows after the writes `ws` when it showed `d`
      before them. */
  function Painted(ws: seq<Write>, row: int, col: int, d: int): int
    decreases |ws|
  {
    if ws == [] then d
    else Painted(ws[1..], row, col, if Targets(ws[0], row, col) then ws[0].color else d)
  }

  /** A write changes the cell it addresses and no other cell. */
  lemma ApplyAt(s: seq<int>, rows: int, cols: int, w: Write, row: int, col: int)
    requires |s| == Total(rows, cols) && InBounds(rows, cols, row, col)
    ensures At(Apply(s, rows, cols, w), rows, cols, row, col)
            == if Targets(w, row, col) then w.color else At(s, rows, cols, row, col)
  {
    RowMajor(rows, cols, row, col);
    if InBounds(rows, cols, w.row, w.col) {
      RowMajor(rows, cols, w.row, w.col);
    }
  }

  /** Performing a sequence of writes leaves every in-bounds cell with the
      colour the writes paint it. */
  lemma {:induction false} ApplyAllAt(s: seq<int>, rows: int, cols: int, ws: seq<Write>, row: int, col: int)
    requires |s| == Total(rows, cols) && InBounds(rows, cols, row, col)
    ensures At(ApplyAll(s, rows, cols, ws), rows, cols, row, col)
            == Painted(ws, row, col, At(s, rows, cols, row, col))
    decreases |ws|
  {
    if ws != [] {
      ApplyAt(s, rows, cols, ws[0], row, col);
      ApplyAllAt(Apply(s, rows, cols, ws[0]), rows, cols, ws[1..], row, col);
    }
  }

  /** Two write sequences one after the other are their concatenation. */
  lemma {:induction false} ApplyAllConcat(s: seq<int>, rows: int, cols: int, a: seq<Write>, b: seq<Write>)
    requires |s| == Total(rows, cols)
    ensures ApplyAll(s, rows, cols, a + b) == ApplyAll(ApplyAll(s, rows, cols, a), rows, cols, b)
    decreases |a|
  {
    if a != [] {
      assert (a + b)[1..] == a[1..] + b;
      ApplyAllConcat(Apply(s, rows, cols, a[0]), rows, cols, a[1..], b);
    } else {
      assert a + b == b;
    }
  }

  lemma ApplyAllSingle(s: seq<int>, rows: int, cols: int, w: Write)
    requires |s| == Total(rows, cols)
    ensures ApplyAll(s, rows, cols, [w]) == Apply(s, rows, cols, w)
  {
    assert [w][1..] == [];
  }

  /** Performing one more write of a sequence. */
  lemma ApplyAllSnoc(s: seq<int>, rows: int, cols: int, ws: seq<Write>, k: int)
    requires |s| == Total(rows, cols) && 0 <= k < |ws|
    ensures ApplyAll(s, rows, cols, ws[..k + 1]) == Apply(ApplyAll(s, rows, cols, ws[..k]), rows, cols, ws[k])
  {
    assert ws[..k + 1] == ws[..k] + [ws[k]];
    ApplyAllConcat(s, rows, cols, ws[..k], [ws[k]]);
    assert [ws[k]][1..] == [];
  }

  lemma {:induction false} PaintedConcat(a: seq<Write>, b: seq<Write>, row: int, col: int, d: int)
    ensures Painted(a + b, row, col, d) == Painted(b, row, col, Painted(a, row, col, d))
    decreases |a|
  {
    if a != [] {
      assert (a + b)[1..] == a[1..] + b;
      PaintedConcat(a[1..], b, row, col, if Targets(a[0], row, col) then a[0].color else d);
    } else {
      assert a + b == b;
    }
  }

  /** The last write to a cell wins: a cell shows the colour of the last
      write addressing it, and keeps its colour when no write does. */
  lemma {:induction false} PaintedLast(ws: seq<Write>, row: int, col: int, d: int)
    ensures !Touches(ws, row, col) ==> Painted(ws, row, col, d) == d
    ensures ws != [] && Targets(ws[|ws| - 1], row, col) ==> Painted(ws, row, col, d) == ws[|ws| - 1].color
    ensures ws != [] && !Targets(ws[|ws| - 1], row, col)
            ==> Painted(ws, row, col, d) == Painted(ws[..|ws| - 1], row, col, d)
    decreases |ws|
  {
    if ws != [] {
      var n := |ws| - 1;
      assert ws == ws[..n] + [ws[n]];
      PaintedConcat(ws[..n], [ws[n]], row, col, d);
      if !Touches(ws, row, col) {
        assert !Touches(ws[..n], row, col) by {
          forall w | w in ws[..n] ensures !Targets(w, row, col) { assert w in ws; }
        }
        PaintedLast(ws[..n], row, col, d);
      }
    }
  }

  /** Writes of a single colour leave that colour on every cell they
      address and leave every other cell as it was. */
  lemma {:induction false} PaintedUniform(ws: seq<Write>, color: int, row: int, col: int, d: int)
    requires AllColored(ws, color)
    ensures Painted(ws, row, col, d) == if Touches(ws, row, col) then color else d
    decreases |ws|
  {
    if ws != [] {
      assert ws == [ws[0]] + ws[1..];
      var d' := if Targets(ws[0], row, col) then ws[0].color else d;
      assert AllColored(ws[1..], color) by {
        forall w | w in ws[1..] ensures w.color == color { assert w in ws; }
      }
      PaintedUniform(ws[1..], color, row, col, d');
      assert Touches(ws, row, col) <==> Targets(ws[0], row, col) || Touches(ws[1..], row, col) by {
        TouchesConcat([ws[0]], ws[1..], row, col);
      }
    }
  }

  lemma TouchesConcat(a: seq<Write>, b: seq<Write>, row: int, col: int)
    ensures Touches(a + b, row, col) <==> Touches(a, row, col) || Touches(b, row, col)
  {
    if Touches(a, row, col) {
      var w :| w in a && Targets(w, row, col);
      assert w in a + b;
    }
    if Touches(b, row, col) {
      var w :| w in b && Targets(w, row, col);
      assert w in a + b;
    }
  }

  /** Writes that all address cells outside the grid change nothing. */
  lemma {:induction false} ApplyAllOffGrid(s: seq<int>, rows: int, cols: int, ws: seq<Write>)
    requires |s| == Total(rows, cols)
    requires forall w :: w in ws ==> !InBounds(rows, cols, w.row, w.col)
    ensures ApplyAll(s, rows, cols, ws) == s
    decreases |ws|
  {
    if ws != [] {
      assert ws[0] in ws;
      assert forall w :: w in ws[1..] ==> w in ws;
      ApplyAllOffGrid(s, rows, cols, ws[1..]);
    }
  }

  /** (row, col) lies in the square of the given radius around (r0, c0). */
  predicate InBlock(row: int, col: int, r0: int, c0: int, radius: int) {
    r0 - radius <= row <= r0 + radius && c0 - radius <= col <= c0 + radius
  }

  /** The eight Moore neighbours of (row, col), in the order the engine
      visits them, each written with `color`. */
  function Adjacent(row: int, col: int, color: int): seq<Write> {
    [Write(row - 1, col - 1, color), Write(row - 1, col, color), Write(row - 1, col + 1, color),
     Write(row, col - 1, color), Write(row, col + 1, color),
     Write(row + 1, col - 1, color), Write(row + 1, col, color), Write(row + 1, col + 1, color)]
  }

  /** The neighbour list addresses exactly the 3x3 block around (row, col)
      without its centre, all in one colour. */
  lemma AdjacentShape(row: int, col: int, color: int)
    ensures AllColored(Adjacent(row, col, color), color)
    ensures forall w :: w in Adjacent(row, col, color) ==> InBlock(w.row, w.col, row, col, 1) && !Targets(w, row, col)
    ensures forall r, c :: InBlock(r, c, row, col, 1) && !(r == row && c == col) ==> Touches(Adjacent(row, col, color), r, c)
  {
    var ws := Adjacent(row, col, color);
    forall r, c | InBlock(r, c, row, col, 1) && !(r == row && c == col)
      ensures Touches(ws, r, c)
    {
      var k := if r == row - 1 then c - col + 1 else if r == row then (if c < col then 3 else 4) else c - col + 6;
      assert ws[k] in ws && Targets(ws[k], r, c);
    }
  }

  /** A lit cell: the cell in colour `bright`, then its eight neighbours in
      colour `glow`. */
  function LitCellWrites(row: int, col: int, bright: int, glow: int): seq<Write> {
    [Write(row, col, bright)] + Adjacent(row, col, glow)
  }

  /** `illuminateWithGlow`: the cell bright, then its neighbours dim. */
  function GlowWrites(row: int, col: int): seq<Write> {
    LitCellWrites(row, col, Bright, Glow)
  }

  /** `clearIllumination`: the cell, then its neighbours, to background. */
  function ClearWrites(row: int, col: int): seq<Write> {
    [Write(row, col, Background)] + Adjacent(row, col, Background)
  }

  /** Both footprints address exactly the 3x3 block around (row, col). */
  lemma FootprintShape(row: int, col: int)
    ensures AllColored(ClearWrites(row, col), Background)
    ensures forall w :: w in ClearWrites(row, col) ==> InBlock(w.row, w.col, row, col, 1)
    ensures forall w :: w in GlowWrites(row, col) ==> InBlock(w.row, w.col, row, col, 1)
    ensures forall r, c :: InBlock(r, c, row, col, 1) ==> Touches(ClearWrites(row, col), r, c)
    ensures forall r, c :: InBlock(r, c, row, col, 1) ==> Touches(GlowWrites(row, col), r, c)
  {
    AdjacentShape(row, col, Background);
    AdjacentShape(row, col, Glow);
    var ws := ClearWrites(row, col);
    forall r, c | InBlock(r, c, row, col, 1) ensures Touches(ws, r, c) {
      TouchesConcat([Write(row, col, Background)], Adjacent(row, col, Background), r, c);
      assert Write(row, col, Background) in [Write(row, col, Background)];
    }
    var gs := GlowWrites(row, col);
    forall r, c | InBlock(r, c, row, col, 1) ensures Touches(gs, r, c) {
      TouchesConcat([Write(row, col, Bright)], Adjacent(row, col, Glow), r, c);
      assert Write(row, col, Bright) in [Write(row, col, Bright)];
    }
  }

  /** A write sequence whose writes all lie in a block touches only cells
      of that block. */
  lemma TouchesWithin(ws: seq<Write>, r0: int, c0: int, radius: int, row: int, col: int)
    requires forall w :: w in ws ==> InBlock(w.row, w.col, r0, c0, radius)
    ensures Touches(ws, row, col) ==> InBlock(row, col, r0, c0, radius)
  {
  }

  /** After `illuminateWithGlow(row, col)` the cell is bright, each
      in-bounds neighbour is dim, and no cell outside the 3x3 block has
      changed. */
  lemma GlowEffect(s: seq<int>, rows: int, cols: int, row: int, col: int, r: int, c: int)
    requires |s| == Total(rows, cols) && InBounds(rows, cols, r, c)
    ensures At(ApplyAll(s, rows, cols, GlowWrites(row, col)), rows, cols, r, c)
            == if r == row && c == col then Bright
               else if InBlock(r, c, row, col, 1) then Glow
               else At(s, rows, cols, r, c)
  {
    var d := At(s, rows, cols, r, c);
    AdjacentShape(row, col, Glow);
    ApplyAllAt(s, rows, cols, GlowWrites(row, col), r, c);
    PaintedConcat([Write(row, col, Bright)], Adjacent(row, col, Glow), r, c, d);
    PaintedUniform(Adjacent(row, col, Glow), Glow, r, c, Painted([Write(row, col, Bright)], r, c, d));
  }

  /** After `clearIllumination(row, col)` every in-bounds cell of the 3x3
      block is background and no other cell has changed. */
  lemma ClearEffect(s: seq<int>, rows: int, cols: int, row: int, col: int, r: int, c: int)
    requires |s| == Total(rows, cols) && InBounds(rows, cols, r, c)
    ensures At(ApplyAll(s, rows, cols, ClearWrites(row, col)), rows, cols, r, c)
            == if InBlock(r, c, row, col, 1) then Background else At(s, rows, cols, r, c)
  {
    ApplyAllAt(s, rows, cols, ClearWrites(row, col), r, c);
    FootprintShape(row, col);
    PaintedUniform(ClearWrites(row, col), Background, r, c, At(s, rows, cols, r, c));
  }

  /** `clearIllumination` undoes `illuminateWithGlow` at the same cell:
      the 3x3 block ends as background and everything else as it was. */
  lemma GlowThenClear(s: seq<int>, rows: int, cols: int, row: int, col: int, r: int, c: int)
    requires |s| == Total(rows, cols) && InBounds(rows, cols, r, c)
    ensures At(ApplyAll(ApplyAll(s, rows, cols, GlowWrites(row, col)), rows, cols, ClearWrites(row, col)), rows, cols, r, c)
            == if InBlock(r, c, row, col, 1) then Background else At(s, rows, cols, r, c)
  {
    ClearEffect(ApplyAll(s, rows, cols, GlowWrites(row, col)), rows, cols, row, col, r, c);
    GlowEffect(s, rows, cols, row, col, r, c);
  }
}

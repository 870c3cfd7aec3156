/** Animation type 1: pixels radiating from the grid centre along arcs.
    The arc itself (a straight line plus a perpendicular offset growing
    with the square of the distance, through cos/sin/atan2) is not
    modelled: each update receives the rounded position the arc formula
    yields for that frame. */
module Radiating {
  import opened Colors
  import opened Canvas
  import opened Grid

  /** The state of one exploding pixel: its rounded current position, its
      per-frame speed, the distance travelled, the frames taken and
      whether it is still on its way. */
  datatype Spark = Spark(row: int, col: int, speed: real, distance: real, frames: int, active: bool)

  /** The retirement test of `update`: the rounded position lies outside
      the grid widened by three cells on every side. */
  predicate OffCanvas(rows: int, cols: int, row: int, col: int) {
    row < -3 || row > rows + 2 || col < -3 || col > cols + 2
  }

  /** The state after one `update` that moves the pixel to `next`. */
  function SparkStep(s: Spark, rows: int, cols: int, next: Cell): Spark {
    if !s.active then s
    else s.(row := next.row, col := next.col, distance := s.distance + s.speed,
            frames := s.frames + 1, active := !OffCanvas(rows, cols, next.row, next.col))
  }

  /** The grid writes of that `update`: the old footprint cleared, then the
      new one painted unless the pixel retires. */
  function SparkWrites(s: Spark, rows: int, cols: int, next: Cell): seq<Write> {
    if !s.active then []
    else ClearWrites(s.row, s.col)
         + (if OffCanvas(rows, cols, next.row, next.col) then [] else GlowWrites(next.row, next.col))
  }

  /** The grid writes of `cleanup`. */
  function CleanupWrites(s: Spark): seq<Write> {
    if s.active then [] else ClearWrites(s.row, s.col)
  }

  /** What one update does to the grid: a retired pixel changes nothing;
      an active one clears the 3x3 block at its old position and, unless
      it retires, paints its glow at `next`; every other cell keeps its
      colour. */
  lemma SparkUpdateEffect(s: seq<int>, rows: int, cols: int, sp: Spark, next: Cell, r: int, c: int)
    requires |s| == Total(rows, cols) && InBounds(rows, cols, r, c)
    ensures var painted := !OffCanvas(rows, cols, next.row, next.col);
            At(ApplyAll(s, rows, cols, SparkWrites(sp, rows, cols, next)), rows, cols, r, c)
            == if !sp.active then At(s, rows, cols, r, c)
               else if painted && r == next.row && c == next.col then Bright
               else if painted && InBlock(r, c, next.row, next.col, 1) then Glow
               else if InBlock(r, c, sp.row, sp.col, 1) then Background
               else At(s, rows, cols, r, c)
  {
    if sp.active {
      var cleared := ApplyAll(s, rows, cols, ClearWrites(sp.row, sp.col));
      ClearEffect(s, rows, cols, sp.row, sp.col, r, c);
      if OffCanvas(rows, cols, next.row, next.col) {
        assert ClearWrites(sp.row, sp.col) + [] == ClearWrites(sp.row, sp.col);
      } else {
        ApplyAllConcat(s, rows, cols, ClearWrites(sp.row, sp.col), GlowWrites(next.row, next.col));
        GlowEffect(cleared, rows, cols, next.row, next.col, r, c);
      }
    }
  }

  /** A pixel leaves the animation on the update that takes it outside the
      widened grid, and at that point its glow would not have reached any
      cell of the grid: the three-cell margin never cuts a visible glow
      short. Otherwise it moves to `next`, one frame and one speed further. */
  lemma SparkRetirement(s: seq<int>, rows: int, cols: int, sp: Spark, next: Cell)
    requires |s| == Total(rows, cols) && sp.active
    ensures var st := SparkStep(sp, rows, cols, next);
            && (!st.active <==> OffCanvas(rows, cols, next.row, next.col))
            && st.row == next.row && st.col == next.col
            && st.frames == sp.frames + 1 && st.distance == sp.distance + sp.speed
    ensures OffCanvas(rows, cols, next.row, next.col)
            ==> ApplyAll(s, rows, cols, GlowWrites(next.row, next.col)) == s
  {
    if OffCanvas(rows, cols, next.row, next.col) {
      FootprintShape(next.row, next.col);
      ApplyAllOffGrid(s, rows, cols, GlowWrites(next.row, next.col));
    }
  }

  /** `cleanup` clears the footprint of a retired pixel and leaves the
      grid alone while the pixel is still active. */
  lemma CleanupEffect(s: seq<int>, rows: int, cols: int, sp: Spark, r: int, c: int)
    requires |s| == Total(rows, cols) && InBounds(rows, cols, r, c)
    ensures At(ApplyAll(s, rows, cols, CleanupWrites(sp)), rows, cols, r, c)
            == if !sp.active && InBlock(r, c, sp.row, sp.col, 1) then Background else At(s, rows, cols, r, c)
  {
    if !sp.active {
      ClearEffect(s, rows, cols, sp.row, sp.col, r, c);
    }
  }

  /** The state after a run of updates, one per position. */
  function SparkRun(s: Spark, rows: int, cols: int, path: seq<Cell>): Spark
    decreases |path|
  {
    if path == [] then s else SparkRun(SparkStep(s, rows, cols, path[0]), rows, cols, path[1..])
  }

  /** Retirement is permanent and frames are counted only while active: at
      most one frame per update, and exactly one per update for a pixel
      that never leaves the widened grid. */
  lemma {:induction false} SparkRunFrames(s: Spark, rows: int, cols: int, path: seq<Cell>)
    ensures !s.active ==> SparkRun(s, rows, cols, path) == s
    ensures s.frames <= SparkRun(s, rows, cols, path).frames <= s.frames + |path|
    ensures s.active && (forall p :: p in path ==> !OffCanvas(rows, cols, p.row, p.col))
            ==> SparkRun(s, rows, cols, path).active && SparkRun(s, rows, cols, path).frames == s.frames + |path|
    decreases |path|
  {
    if path != [] {
      assert forall p :: p in path[1..] ==> p in path;
      SparkRunFrames(SparkStep(s, rows, cols, path[0]), rows, cols, path[1..]);
    }
  }

  class ExplodingPixel {
    const startRow: int
    const startCol: int
    /** Math.round(currentRow): only the rounded position is ever used. */
    var currentRow: int
    /** Math.round(currentCol) */
    var currentCol: int
    const speed: real
    var arcRadius: real
    var totalDistance: real
    var active: bool
    var frameCount: int

    ghost function State(): Spark
      reads this
    {
      Spark(currentRow, currentCol, speed, totalDistance, frameCount, active)
    }

    /** A pixel at (startRow, startCol) about to set off. `speedNoise` and
        `arcNoise` are the two `Math.random()` draws of the constructor. */
    constructor (startRow: int, startCol: int, speedScale: real, speedNoise: real, arcNoise: real)
      requires 0.0 <= speedNoise < 1.0 && 0.0 <= arcNoise < 1.0
      ensures this.startRow == startRow && this.startCol == startCol
      ensures State() == Spark(startRow, startCol, speedScale * 1.6 * (0.8 + speedNoise * 0.4), 0.0, 0, true)
      ensures arcRadius == (arcNoise - 0.5) * 6.0 && -3.0 <= arcRadius < 3.0
      ensures speedScale > 0.0 ==> speed > 0.0
    {
      this.startRow, this.startCol := startRow, startCol;
      currentRow, currentCol := startRow, startCol;
      speed := speedScale * 1.6 * (0.8 + speedNoise * 0.4);
      arcRadius := (arcNoise - 0.5) * 6.0;
      totalDistance := 0.0;
      active := true;
      frameCount := 0;
    }

    /** `update`, with `next` the rounded position the arc reaches this frame. */
    method Update(grid: PixelGrid, next: Cell)
      requires grid.Valid()
      modifies this, grid.cells
      ensures State() == SparkStep(old(State()), grid.rows, grid.cols, next)
      ensures arcRadius == old(arcRadius)
      ensures grid.cells[..] == ApplyAll(old(grid.cells[..]), grid.rows, grid.cols,
                                         SparkWrites(old(State()), grid.rows, grid.cols, next))
    {
      if !active {
        return;
      }
      ghost var before, s0 := State(), grid.cells[..];
      grid.ClearIllumination(currentRow, currentCol);
      totalDistance := totalDistance + speed;
      currentRow, currentCol := next.row, next.col;
      frameCount := frameCount + 1;
      var roundedRow, roundedCol := currentRow, currentCol;
      if roundedRow < -3 || roundedRow > grid.rows + 2 || roundedCol < -3 || roundedCol > grid.cols + 2 {
        active := false;
        assert SparkWrites(before, grid.rows, grid.cols, next) == ClearWrites(before.row, before.col) + [];
        assert ClearWrites(before.row, before.col) + [] == ClearWrites(before.row, before.col);
        return;
      }
      grid.IlluminateWithGlow(roundedRow, roundedCol);
      assert SparkWrites(before, grid.rows, grid.cols, next)
          == ClearWrites(before.row, before.col) + GlowWrites(roundedRow, roundedCol);
      ApplyAllConcat(s0, grid.rows, grid.cols, ClearWrites(before.row, before.col), GlowWrites(roundedRow, roundedCol));
    }

    /** `cleanup` */
    method Cleanup(grid: PixelGrid)
      requires grid.Valid()
      modifies grid.cells
      ensures grid.cells[..] == ApplyAll(old(grid.cells[..]), grid.rows, grid.cols, CleanupWrites(State()))
    {
      if !active {
        grid.ClearIllumination(currentRow, currentCol);
      }
    }
  }
}

/** Animation type 2: a burst that lights a growing pattern around a fixed
    centre and fades it out over a fixed schedule of frames. */
module InPlace {
  import opened Colors
  import opened Canvas
  import opened Grid

  /** 0: single pixel, 1: cross, 2: full 3x3 pattern. */
  type Phase = p: int | 0 <= p <= 2

  /** The offsets lit in each phase, in the order they are painted. */
  function Pattern(phase: Phase): seq<Cell> {
    if phase == 0 then [Cell(0, 0)]
    else if phase == 1 then [Cell(0, 0), Cell(-1, 0), Cell(1, 0), Cell(0, -1), Cell(0, 1)]
    else [Cell(0, 0), Cell(-1, 0), Cell(1, 0), Cell(0, -1), Cell(0, 1),
          Cell(-1, -1), Cell(-1, 1), Cell(1, -1), Cell(1, 1)]
  }

  /** The patterns grow 1, 5, 9 cells, each extending the one before and
      starting at the centre. */
  lemma PatternGrowth(phase: Phase)
    ensures |Pattern(phase)| == if phase == 0 then 1 else if phase == 1 then 5 else 9
    ensures Pattern(phase)[0] == Cell(0, 0)
    ensures phase > 0 ==> Pattern(phase - 1) == Pattern(phase)[..|Pattern(phase - 1)|]
  {
  }

  /** Every pattern stays within one cell of the centre. */
  lemma PatternWithin(phase: Phase)
    ensures forall o :: o in Pattern(phase) ==> InBlock(o.row, o.col, 0, 0, 1)
  {
  }

  /** No pattern lists a cell twice. */
  lemma PatternDistinct(phase: Phase)
    ensures forall i, j :: 0 <= i < j < |Pattern(phase)| ==> Pattern(phase)[i] != Pattern(phase)[j]
  {
  }

  /** The full pattern covers the whole 3x3 block. */
  lemma PatternCovers(r: int, c: int)
    requires InBlock(r, c, 0, 0, 1)
    ensures Cell(r, c) in Pattern(2)
  {
    var k := if r == 0 && c == 0 then 0
             else if c == 0 then (if r < 0 then 1 else 2)
             else if r == 0 then (if c < 0 then 3 else 4)
             else 5 + (r + 1) + (c + 1) / 2;
    assert Pattern(2)[k] == Cell(r, c);
  }

  /** The writes of `displayCurrentPattern` for the offsets `cells` around
      (cr, cc), in order. */
  function PatternWrites(cells: seq<Cell>, cr: int, cc: int, bright: int, glow: int): seq<Write>
    decreases |cells|
  {
    if cells == [] then []
    else
      var o := cells[|cells| - 1];
      PatternWrites(cells[..|cells| - 1], cr, cc, bright, glow) + LitCellWrites(cr + o.row, cc + o.col, bright, glow)
  }

  /** One more step of the loop of `displayCurrentPattern`: one more lit
      cell. */
  lemma PatternStep(s: seq<int>, rows: int, cols: int, cells: seq<Cell>, k: int, cr: int, cc: int,
                    bright: int, glow: int, row: int, col: int, before: seq<int>, lit: seq<int>, after: seq<int>)
    requires |s| == Total(rows, cols) && 0 <= k < |cells|
    requires row == cr + cells[k].row && col == cc + cells[k].col
    requires before == ApplyAll(s, rows, cols, PatternWrites(cells[..k], cr, cc, bright, glow))
    requires lit == Apply(before, rows, cols, Write(row, col, bright))
    requires after == ApplyAll(lit, rows, cols, Adjacent(row, col, glow))
    ensures after == ApplyAll(s, rows, cols, PatternWrites(cells[..k + 1], cr, cc, bright, glow))
  {
    var done := PatternWrites(cells[..k], cr, cc, bright, glow);
    assert PatternWrites(cells[..k + 1], cr, cc, bright, glow) == done + LitCellWrites(row, col, bright, glow) by {
      assert cells[..k + 1][..k] == cells[..k];
    }
    assert ApplyAll(before, rows, cols, LitCellWrites(row, col, bright, glow)) == after by {
      ApplyAllConcat(before, rows, cols, [Write(row, col, bright)], Adjacent(row, col, glow));
      ApplyAllSingle(before, rows, cols, Write(row, col, bright));
    }
    ApplyAllConcat(s, rows, cols, done, LitCellWrites(row, col, bright, glow));
  }

  /** Offsets within one cell of the centre paint only within two cells of
      it, and only in the two given colours. */
  lemma {:induction false} PatternWritesWithin(cells: seq<Cell>, cr: int, cc: int, bright: int, glow: int)
    requires forall o :: o in cells ==> InBlock(o.row, o.col, 0, 0, 1)
    ensures forall w :: w in PatternWrites(cells, cr, cc, bright, glow) ==> InBlock(w.row, w.col, cr, cc, 2)
    ensures forall w :: w in PatternWrites(cells, cr, cc, bright, glow) ==> w.color == bright || w.color == glow
    decreases |cells|
  {
    if cells != [] {
      var n := |cells| - 1;
      var o := cells[n];
      assert o in cells;
      assert forall p :: p in cells[..n] ==> p in cells;
      var front := PatternWrites(cells[..n], cr, cc, bright, glow);
      var lit := LitCellWrites(cr + o.row, cc + o.col, bright, glow);
      assert PatternWrites(cells, cr, cc, bright, glow) == front + lit;
      PatternWritesWithin(cells[..n], cr, cc, bright, glow);
      LitCellWithin(cr + o.row, cc + o.col, bright, glow);
      forall w: Write | w in front + lit
        ensures InBlock(w.row, w.col, cr, cc, 2) && (w.color == bright || w.color == glow)
      {
        if w !in front {
          assert w in lit;
        }
      }
    }
  }

  lemma LitCellWithin(row: int, col: int, bright: int, glow: int)
    ensures forall w :: w in LitCellWrites(row, col, bright, glow) ==> InBlock(w.row, w.col, row, col, 1)
    ensures forall w :: w in LitCellWrites(row, col, bright, glow) ==> w.color == bright || w.color == glow
  {
    AdjacentShape(row, col, glow);
    forall w: Write | w in LitCellWrites(row, col, bright, glow)
      ensures InBlock(w.row, w.col, row, col, 1) && (w.color == bright || w.color == glow)
    {
      if w != Write(row, col, bright) {
        assert w in Adjacent(row, col, glow);
      }
    }
  }

  /** `clearIllumination` at (row, first), ..., (row, last), left to right. */
  function ClearSpan(row: int, first: int, last: int): seq<Write>
    decreases last - first
  {
    if last < first then [] else ClearSpan(row, first, last - 1) + ClearWrites(row, last)
  }

  /** `ClearSpan(row, left, right)` for the rows top, ..., bottom, top to
      bottom. */
  function ClearRows(top: int, bottom: int, left: int, right: int): seq<Write>
    decreases bottom - top
  {
    if bottom < top then [] else ClearRows(top, bottom - 1, left, right) + ClearSpan(bottom, left, right)
  }

  /** `clearCurrentPattern`: `clearIllumination` at each cell of the 3x3
      block around the centre, row by row. */
  function ClearPatternWrites(cr: int, cc: int): seq<Write> {
    ClearRows(cr - 1, cr + 1, cc - 1, cc + 1)
  }

  /** One more step of the inner loop of `clearCurrentPattern`: one more
      `clearIllumination` to the right. */
  lemma SpanStep(s: seq<int>, rows: int, cols: int, row: int, first: int, last: int, col: int,
                 before: seq<int>, after: seq<int>)
    requires |s| == Total(rows, cols) && col == last + 1 && first <= col
    requires before == ApplyAll(s, rows, cols, ClearSpan(row, first, last))
    requires after == ApplyAll(before, rows, cols, ClearWrites(row, col))
    ensures after == ApplyAll(s, rows, cols, ClearSpan(row, first, col))
  {
    ApplyAllConcat(s, rows, cols, ClearSpan(row, first, last), ClearWrites(row, col));
  }

  /** One more step of its outer loop: one more row cleared below. */
  lemma RowsStep(s: seq<int>, rows: int, cols: int, top: int, bottom: int, row: int, left: int, right: int,
                 before: seq<int>, after: seq<int>)
    requires |s| == Total(rows, cols) && row == bottom + 1 && top <= row
    requires before == ApplyAll(s, rows, cols, ClearRows(top, bottom, left, right))
    requires after == ApplyAll(before, rows, cols, ClearSpan(row, left, right))
    ensures after == ApplyAll(s, rows, cols, ClearRows(top, row, left, right))
  {
    ApplyAllConcat(s, rows, cols, ClearRows(top, bottom, left, right), ClearSpan(row, left, right));
  }

  /** Clearing along a row resets the cells from one row above to one row
      below and from one column left of `first` to one right of `last` to
      background, and leaves every other cell as it was. */
  lemma {:induction false} ClearSpanEffect(s: seq<int>, rows: int, cols: int, row: int, first: int, last: int, r: int, c: int)
    requires |s| == Total(rows, cols) && InBounds(rows, cols, r, c)
    ensures At(ApplyAll(s, rows, cols, ClearSpan(row, first, last)), rows, cols, r, c)
            == if first <= last && row - 1 <= r <= row + 1 && first - 1 <= c <= last + 1 then Background
               else At(s, rows, cols, r, c)
    decreases last - first
  {
    if first <= last {
      var front := ClearSpan(row, first, last - 1);
      ApplyAllConcat(s, rows, cols, front, ClearWrites(row, last));
      ClearSpanEffect(s, rows, cols, row, first, last - 1, r, c);
      ClearEffect(ApplyAll(s, rows, cols, front), rows, cols, row, last, r, c);
    }
  }

  /** Clearing a block of rows resets the block widened by one cell on each
      side to background, and leaves every other cell as it was. */
  lemma {:induction false} ClearRowsEffect(s: seq<int>, rows: int, cols: int, top: int, bottom: int, left: int, right: int,
                                           r: int, c: int)
    requires |s| == Total(rows, cols) && InBounds(rows, cols, r, c)
    ensures At(ApplyAll(s, rows, cols, ClearRows(top, bottom, left, right)), rows, cols, r, c)
            == if top <= bottom && left <= right && top - 1 <= r <= bottom + 1 && left - 1 <= c <= right + 1
               then Background
               else At(s, rows, cols, r, c)
    decreases bottom - top
  {
    if top <= bottom {
      var front := ClearRows(top, bottom - 1, left, right);
      ApplyAllConcat(s, rows, cols, front, ClearSpan(bottom, left, right));
      ClearRowsEffect(s, rows, cols, top, bottom - 1, left, right, r, c);
      ClearSpanEffect(ApplyAll(s, rows, cols, front), rows, cols, bottom, left, right, r, c);
    }
  }

  /** `clearCurrentPattern` resets every in-bounds cell within two cells of
      the centre to background and leaves every other cell alone. */
  lemma ClearPatternEffect(s: seq<int>, rows: int, cols: int, cr: int, cc: int, r: int, c: int)
    requires |s| == Total(rows, cols) && InBounds(rows, cols, r, c)
    ensures At(ApplyAll(s, rows, cols, ClearPatternWrites(cr, cc)), rows, cols, r, c)
            == if InBlock(r, c, cr, cc, 2) then Background else At(s, rows, cols, r, c)
  {
    ClearRowsEffect(s, rows, cols, cr - 1, cr + 1, cc - 1, cc + 1, r, c);
  }

  /** The state of one burst. A negative frame count is a start delay. */
  datatype Burst = Burst(centerRow: int, centerCol: int, phase: Phase, frameCount: int, fade: real, active: bool)

  /** A burst as its constructor leaves it. */
  function NewBurst(centerRow: int, centerCol: int): Burst {
    Burst(centerRow, centerCol, 0, 0, 1.0, true)
  }

  /** The phase and fade `update` selects at a non-negative frame count;
      from frame 36 on the burst retires and keeps its last phase and fade. */
  function Scheduled(b: Burst): Burst
    requires b.frameCount >= 0
  {
    var f := b.frameCount;
    if f < 4 then b.(phase := 0, fade := 1.0)
    else if f < 8 then b.(phase := 1, fade := 1.0)
    else if f < 12 then b.(phase := 2, fade := 1.0)
    else if f < 36 then b.(phase := 2, fade := 1.0 - (f - 12) as real / 24.0)
    else b.(active := false)
  }

  /** The state after one `update`. */
  function BurstStep(b: Burst): Burst {
    if !b.active then b
    else if b.frameCount < 0 then b.(frameCount := b.frameCount + 1)
    else Scheduled(b).(frameCount := b.frameCount + 1)
  }

  /** The writes of `displayCurrentPattern` for a burst's phase and fade. */
  function DisplayWrites(b: Burst): seq<Write> {
    PatternWrites(Pattern(b.phase), b.centerRow, b.centerCol, FadedBright(b.fade), FadedGlow(b.fade))
  }

  /** The grid writes of one `update`: the 3x3 neighbourhood cleared, then
      the pattern of the newly selected phase painted. */
  function BurstWrites(b: Burst): seq<Write> {
    if !b.active || b.frameCount < 0 then []
    else ClearPatternWrites(b.centerRow, b.centerCol) + DisplayWrites(Scheduled(b))
  }

  /** The schedule as a table: a single pixel for frames 0-3, the cross
      for 4-7, the full pattern from 8 on. */
  function PhaseAt(f: nat): Phase {
    if f <= 3 then 0 else if f <= 7 then 1 else 2
  }

  /** Full intensity for frames 0-11, then a linear fade of 1/24 a frame
      that would reach zero on frame 36, where the burst retires instead. */
  function FadeAt(f: nat): real {
    if f < 12 then 1.0 else (36 - f) as real / 24.0
  }

  /** The fade is exactly 1 up to and including frame 12 (where the fade
      has made no progress yet), strictly decreasing from frame 12 on,
      never leaves (0, 1] and ends at 1/24 on frame 35. */
  lemma FadeProfile(f: nat, g: nat)
    requires f < 36 && g < 36
    ensures 0.0 < FadeAt(f) <= 1.0
    ensures FadeAt(f) == 1.0 <==> f <= 12
    ensures 12 <= f < g ==> FadeAt(g) < FadeAt(f)
    ensures FadeAt(35) == 1.0 / 24.0
  {
  }

  /** One update follows the schedule: during the delay it only counts up;
      on frames 0-35 it takes that frame's phase and fade and counts up;
      on frame 36 it retires, keeping the phase and fade of frame 35. */
  lemma BurstSchedule(b: Burst)
    requires b.active
    ensures b.frameCount < 0 ==> BurstStep(b) == b.(frameCount := b.frameCount + 1) && BurstWrites(b) == []
    ensures 0 <= b.frameCount < 36
            ==> BurstStep(b) == b.(phase := PhaseAt(b.frameCount), fade := FadeAt(b.frameCount), frameCount := b.frameCount + 1)
    ensures b.frameCount >= 36 ==> BurstStep(b) == b.(active := false, frameCount := b.frameCount + 1)
  {
  }

  /** The state after n updates. */
  function BurstRun(b: Burst, n: nat): Burst
    decreases n
  {
    if n == 0 then b else BurstRun(BurstStep(b), n - 1)
  }

  lemma {:induction false} RunRetired(b: Burst, n: nat)
    requires !b.active
    ensures BurstRun(b, n) == b
    decreases n
  {
    if n > 0 {
      RunRetired(b, n - 1);
    }
  }

  /** A burst at frame f <= 36 stays active for exactly 36 - f more
      updates, each advancing the frame count by one, and the update after
      that retires it for good at frame 37. */
  lemma {:induction false} BurstLifetime(b: Burst, n: nat)
    requires b.active && b.frameCount <= 36
    ensures BurstRun(b, n).active <==> n <= 36 - b.frameCount
    ensures BurstRun(b, n).frameCount == b.frameCount + (if n <= 37 - b.frameCount then n else 37 - b.frameCount)
    decreases n
  {
    if n > 0 {
      var next := BurstStep(b);
      if b.frameCount == 36 {
        RunRetired(next, n - 1);
      } else {
        BurstLifetime(next, n - 1);
      }
    }
  }

  /** A burst started with a delay of d frames is drawn for d + 37 updates
      (d waiting, 36 shown, one more that retires it). */
  lemma DelayedLifetime(centerRow: int, centerCol: int, delay: nat, n: nat)
    ensures BurstRun(NewBurst(centerRow, centerCol).(frameCount := -(delay as int)), n).active <==> n < delay + 37
  {
    BurstLifetime(NewBurst(centerRow, centerCol).(frameCount := -(delay as int)), n);
  }

  /** `displayCurrentPattern` changes nothing more than two cells away from
      the centre, and leaves each cell it paints in the bright or the glow
      colour of the current fade. */
  lemma DisplayEffect(s: seq<int>, rows: int, cols: int, b: Burst, r: int, c: int)
    requires |s| == Total(rows, cols) && InBounds(rows, cols, r, c)
    ensures var shown := At(ApplyAll(s, rows, cols, DisplayWrites(b)), rows, cols, r, c);
            if InBlock(r, c, b.centerRow, b.centerCol, 2)
            then shown == At(s, rows, cols, r, c) || shown == FadedBright(b.fade) || shown == FadedGlow(b.fade)
            else shown == At(s, rows, cols, r, c)
  {
    var ws := DisplayWrites(b);
    PatternWithin(b.phase);
    PatternWritesWithin(Pattern(b.phase), b.centerRow, b.centerCol, FadedBright(b.fade), FadedGlow(b.fade));
    ApplyAllAt(s, rows, cols, ws, r, c);
    PaintedTwoColors(ws, FadedBright(b.fade), FadedGlow(b.fade), r, c, At(s, rows, cols, r, c));
  }

  /** The colour a cell ends with after writes of two colours only. */
  lemma {:induction false} PaintedTwoColors(ws: seq<Write>, x: int, y: int, row: int, col: int, d: int)
    requires forall w :: w in ws ==> w.color == x || w.color == y
    ensures !Touches(ws, row, col) ==> Painted(ws, row, col, d) == d
    ensures Painted(ws, row, col, d) == d || Painted(ws, row, col, d) == x || Painted(ws, row, col, d) == y
    decreases |ws|
  {
    PaintedLast(ws, row, col, d);
    if ws != [] {
      var n := |ws| - 1;
      assert ws[n] in ws;
      assert forall w :: w in ws[..n] ==> w in ws;
      PaintedTwoColors(ws[..n], x, y, row, col, d);
    }
  }

  /** A lit cell paints its own 3x3 block whatever the block showed
      before: bright in the middle and the glow around it. */
  lemma LitCellPainted(row: int, col: int, bright: int, glow: int, r: int, c: int, d: int)
    requires InBlock(r, c, row, col, 1)
    ensures Painted(LitCellWrites(row, col, bright, glow), r, c, d) == if r == row && c == col then bright else glow
  {
    PaintedConcat([Write(row, col, bright)], Adjacent(row, col, glow), r, c, d);
    AdjacentShape(row, col, glow);
    PaintedUniform(Adjacent(row, col, glow), glow, r, c, Painted([Write(row, col, bright)], r, c, d));
  }

  /** The last lit cell decides its own 3x3 block: its centre shows the
      bright colour and its neighbours the glow, whatever came before. */
  lemma LastCellWins(s: seq<int>, rows: int, cols: int, cells: seq<Cell>, cr: int, cc: int, bright: int, glow: int,
                     r: int, c: int)
    requires |s| == Total(rows, cols) && InBounds(rows, cols, r, c) && cells != []
    requires InBlock(r, c, cr + cells[|cells| - 1].row, cc + cells[|cells| - 1].col, 1)
    ensures At(ApplyAll(s, rows, cols, PatternWrites(cells, cr, cc, bright, glow)), rows, cols, r, c)
            == if r == cr + cells[|cells| - 1].row && c == cc + cells[|cells| - 1].col then bright else glow
  {
    var n := |cells| - 1;
    var row, col := cr + cells[n].row, cc + cells[n].col;
    var front := PatternWrites(cells[..n], cr, cc, bright, glow);
    var d := At(s, rows, cols, r, c);
    assert PatternWrites(cells, cr, cc, bright, glow) == front + LitCellWrites(row, col, bright, glow);
    ApplyAllAt(s, rows, cols, PatternWrites(cells, cr, cc, bright, glow), r, c);
    PaintedConcat(front, LitCellWrites(row, col, bright, glow), r, c, d);
    LitCellPainted(row, col, bright, glow, r, c, Painted(front, r, c, d));
  }

  /** Later pattern cells paint their dim glow over earlier ones: the
      centre shows the bright colour only in the first phase; in the cross
      and full phases the last pattern cell's glow covers it. */
  lemma CentreColour(s: seq<int>, rows: int, cols: int, b: Burst)
    requires |s| == Total(rows, cols) && InBounds(rows, cols, b.centerRow, b.centerCol)
    ensures At(ApplyAll(s, rows, cols, DisplayWrites(b)), rows, cols, b.centerRow, b.centerCol)
            == if b.phase == 0 then FadedBright(b.fade) else FadedGlow(b.fade)
  {
    var p := Pattern(b.phase);
    assert p[|p| - 1] == if b.phase == 0 then Cell(0, 0) else if b.phase == 1 then Cell(0, 1) else Cell(1, 1);
    LastCellWins(s, rows, cols, p, b.centerRow, b.centerCol, FadedBright(b.fade), FadedGlow(b.fade),
                 b.centerRow, b.centerCol);
  }

  /** Clearing after a display leaves no trace: every in-bounds cell within
      two cells of the centre ends as background and every other cell as it
      was before the display. This is what the scheduler's `cleanup` does
      to the pattern a retiring burst paints on frame 36. */
  lemma DisplayThenClear(s: seq<int>, rows: int, cols: int, b: Burst, r: int, c: int)
    requires |s| == Total(rows, cols) && InBounds(rows, cols, r, c)
    ensures At(ApplyAll(ApplyAll(s, rows, cols, DisplayWrites(b)), rows, cols, ClearPatternWrites(b.centerRow, b.centerCol)), rows, cols, r, c)
            == if InBlock(r, c, b.centerRow, b.centerCol, 2) then Background else At(s, rows, cols, r, c)
  {
    ClearPatternEffect(ApplyAll(s, rows, cols, DisplayWrites(b)), rows, cols, b.centerRow, b.centerCol, r, c);
    DisplayEffect(s, rows, cols, b, r, c);
  }

  /** Every update keeps to the burst's 5x5 footprint, paints nothing
      during the start delay or after retirement, and on frame 36 paints
      the pattern of frame 35 once more although the burst retires. */
  lemma BurstFootprint(s: seq<int>, rows: int, cols: int, b: Burst, r: int, c: int)
    requires |s| == Total(rows, cols) && InBounds(rows, cols, r, c)
    ensures !InBlock(r, c, b.centerRow, b.centerCol, 2)
            ==> At(ApplyAll(s, rows, cols, BurstWrites(b)), rows, cols, r, c) == At(s, rows, cols, r, c)
    ensures !b.active || b.frameCount < 0 ==> ApplyAll(s, rows, cols, BurstWrites(b)) == s
    ensures b.active && b.frameCount == 36
            ==> !BurstStep(b).active
                && BurstWrites(b) == ClearPatternWrites(b.centerRow, b.centerCol) + DisplayWrites(b.(active := false))
  {
    if b.active && b.frameCount >= 0 {
      var cleared := ApplyAll(s, rows, cols, ClearPatternWrites(b.centerRow, b.centerCol));
      ApplyAllConcat(s, rows, cols, ClearPatternWrites(b.centerRow, b.centerCol), DisplayWrites(Scheduled(b)));
      ClearPatternEffect(s, rows, cols, b.centerRow, b.centerCol, r, c);
      DisplayEffect(cleared, rows, cols, Scheduled(b), r, c);
    }
  }

  class InPlaceExplosion {
    const centerRow: int
    const centerCol: int
    var phase: Phase
    var frameCount: int
    var fadeIntensity: real
    var active: bool

    ghost function State(): Burst
      reads this
    {
      Burst(centerRow, centerCol, phase, frameCount, fadeIntensity, active)
    }

    constructor (centerRow: int, centerCol: int)
      ensures State() == NewBurst(centerRow, centerCol)
    {
      this.centerRow, this.centerCol := centerRow, centerCol;
      phase := 0;
      frameCount := 0;
      fadeIntensity := 1.0;
      active := true;
    }

    /** The batch constructor's `frameCount = -startDelay`. */
    method Delay(startDelay: int)
      modifies this
      ensures State() == old(State()).(frameCount := -startDelay)
    {
      frameCount := -startDelay;
    }

    /** `update` */
    method Update(grid: PixelGrid)
      requires grid.Valid()
      modifies this, grid.cells
      ensures State() == BurstStep(old(State()))
      ensures grid.cells[..] == ApplyAll(old(grid.cells[..]), grid.rows, grid.cols, BurstWrites(old(State())))
    {
      if !active {
        return;
      }
      if frameCount < 0 {
        frameCount := frameCount + 1;
        return;
      }
      ghost var before, s0 := State(), grid.cells[..];
      ClearCurrentPattern(grid);
      if frameCount < 4 {
        phase, fadeIntensity := 0, 1.0;
      } else if frameCount < 8 {
        phase, fadeIntensity := 1, 1.0;
      } else if frameCount < 12 {
        phase, fadeIntensity := 2, 1.0;
      } else if frameCount < 36 {
        phase := 2;
        var fadeProgress := (frameCount - 12) as real / 24.0;
        fadeIntensity := 1.0 - fadeProgress;
      } else {
        active := false;
      }
      assert State() == Scheduled(before);
      if frameCount >= 0 {
        DisplayCurrentPattern(grid);
      }
      ApplyAllConcat(s0, grid.rows, grid.cols, ClearPatternWrites(centerRow, centerCol), DisplayWrites(Scheduled(before)));
      frameCount := frameCount + 1;
    }

    /** `displayCurrentPattern` */
    method DisplayCurrentPattern(grid: PixelGrid)
      requires grid.Valid()
      modifies grid.cells
      ensures grid.cells[..] == ApplyAll(old(grid.cells[..]), grid.rows, grid.cols, DisplayWrites(State()))
    {
      ghost var s0 := grid.cells[..];
      var pattern := Pattern(phase);
      for k := 0 to |pattern|
        invariant grid.cells[..] == ApplyAll(s0, grid.rows, grid.cols,
                    PatternWrites(pattern[..k], centerRow, centerCol, FadedBright(fadeIntensity), FadedGlow(fadeIntensity)))
      {
        var row := centerRow + pattern[k].row;
        var col := centerCol + pattern[k].col;
        var brightColor := FadedBright(fadeIntensity);
        var glowColor := FadedGlow(fadeIntensity);
        ghost var before := grid.cells[..];
        grid.IlluminatePixel(row, col, brightColor);
        ghost var lit := grid.cells[..];
        IlluminateAdjacentDim(grid, row, col, glowColor);
        PatternStep(s0, grid.rows, grid.cols, pattern, k, centerRow, centerCol, brightColor, glowColor, row, col,
                    before, lit, grid.cells[..]);
      }
      assert pattern[..|pattern|] == pattern;
    }

    /** `illuminateAdjacentDim` */
    method IlluminateAdjacentDim(grid: PixelGrid, row: int, col: int, color: int)
      requires grid.Valid()
      modifies grid.cells
      ensures grid.cells[..] == ApplyAll(old(grid.cells[..]), grid.rows, grid.cols, Adjacent(row, col, color))
    {
      grid.IlluminateEach(Adjacent(row, col, color));
    }

    /** `clearCurrentPattern` */
    method ClearCurrentPattern(grid: PixelGrid)
      requires grid.Valid()
      modifies grid.cells
      ensures grid.cells[..] == ApplyAll(old(grid.cells[..]), grid.rows, grid.cols, ClearPatternWrites(centerRow, centerCol))
    {
      ghost var s0 := grid.cells[..];
      for rowOffset := -1 to 2
        invariant grid.cells[..]
                  == ApplyAll(s0, grid.rows, grid.cols, ClearRows(centerRow - 1, centerRow + rowOffset - 1, centerCol - 1, centerCol + 1))
      {
        ghost var before := grid.cells[..];
        ClearPatternRow(grid, centerRow + rowOffset);
        RowsStep(s0, grid.rows, grid.cols, centerRow - 1, centerRow + rowOffset - 1, centerRow + rowOffset,
                 centerCol - 1, centerCol + 1, before, grid.cells[..]);
      }
    }

    /** The inner loop of `clearCurrentPattern`: the three cells of one row
        of the pattern block, left to right. */
    method ClearPatternRow(grid: PixelGrid, row: int)
      requires grid.Valid()
      modifies grid.cells
      ensures grid.cells[..] == ApplyAll(old(grid.cells[..]), grid.rows, grid.cols, ClearSpan(row, centerCol - 1, centerCol + 1))
    {
      ghost var s0 := grid.cells[..];
      for colOffset := -1 to 2
        invariant grid.cells[..] == ApplyAll(s0, grid.rows, grid.cols, ClearSpan(row, centerCol - 1, centerCol + colOffset - 1))
      {
        var col := centerCol + colOffset;
        ghost var before := grid.cells[..];
        grid.ClearIllumination(row, col);
        SpanStep(s0, grid.rows, grid.cols, row, centerCol - 1, centerCol + colOffset - 1, col, before, grid.cells[..]);
      }
    }

    /** `cleanup` */
    method Cleanup(grid: PixelGrid)
      requires grid.Valid()
      modifies grid.cells
      ensures grid.cells[..] == ApplyAll(old(grid.cells[..]), grid.rows, grid.cols, ClearPatternWrites(centerRow, centerCol))
    {
      ClearCurrentPattern(grid);
    }
  }
}

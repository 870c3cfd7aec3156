/** The page-level state of both animations: the grid, the radiating batch
    with its pending-frame handle, and the in-place batch with its flag and
    handle. Each tick method is one run of the corresponding `animate`
    callback; the browser calling it back on the next frame is left to the
    caller. Random draws and the rounded arc positions are parameters. */
module Scheduler {
  import opened Colors
  import opened Canvas
  import opened Grid
  import opened Radiating
  import opened InPlace
  import opened Distribution
  import opened Batch

  /** No object occurs twice in the batch. */
  ghost predicate Distinct<T>(xs: seq<T>) {
    forall i, j :: 0 <= i < j < |xs| ==> xs[i] != xs[j]
  }

  lemma {:induction false} KeepDistinct<T>(xs: seq<T>, keep: seq<bool>)
    requires |xs| == |keep| && Distinct(xs)
    ensures Distinct(Keep(xs, keep))
    decreases |xs|
  {
    if xs != [] {
      var n := |xs| - 1;
      assert Distinct(xs[..n]) by {
        forall i, j | 0 <= i < j < n ensures xs[..n][i] != xs[..n][j] {
          assert xs[i] != xs[j];
        }
      }
      KeepDistinct(xs[..n], keep[..n]);
      var front := Keep(xs[..n], keep[..n]);
      if keep[n] {
        assert xs[n] !in xs[..n] by {
          forall i | 0 <= i < n ensures xs[..n][i] != xs[n] {
            assert xs[i] != xs[n];
          }
        }
        KeepSubset(xs[..n], keep[..n]);
        forall i, j | 0 <= i < j < |front| + 1 ensures (front + [xs[n]])[i] != (front + [xs[n]])[j] {
          if j == |front| {
            assert front[i] in front;
          }
        }
      }
    }
  }

  lemma {:induction false} KeepSubset<T>(xs: seq<T>, keep: seq<bool>)
    requires |xs| == |keep|
    ensures forall x :: x in Keep(xs, keep) ==> x in xs
    decreases |xs|
  {
    if xs != [] {
      var n := |xs| - 1;
      KeepSubset(xs[..n], keep[..n]);
      assert forall x :: x in xs[..n] ==> x in xs;
    }
  }

  ghost function SparksOf(ps: seq<ExplodingPixel>): seq<Spark>
    reads set p | p in ps
  {
    seq(|ps|, j requires 0 <= j < |ps| reads set p | p in ps => ps[j].State())
  }

  ghost function BurstsOf(es: seq<InPlaceExplosion>): seq<Burst>
    reads set e | e in es
  {
    seq(|es|, j requires 0 <= j < |es| reads set e | e in es => es[j].State())
  }

  /** The states of the kept pixels are the kept states. */
  lemma {:induction false} KeepSparks(ps: seq<ExplodingPixel>, keep: seq<bool>)
    requires |ps| == |keep|
    ensures SparksOf(Keep(ps, keep)) == Keep(SparksOf(ps), keep)
    decreases |ps|
  {
    if ps != [] {
      var n := |ps| - 1;
      assert SparksOf(ps)[..n] == SparksOf(ps[..n]);
      KeepSparks(ps[..n], keep[..n]);
      var tail := if keep[n] then [ps[n]] else [];
      assert SparksOf(Keep(ps[..n], keep[..n]) + tail) == SparksOf(Keep(ps[..n], keep[..n])) + SparksOf(tail);
    }
  }

  lemma {:induction false} KeepBursts(es: seq<InPlaceExplosion>, keep: seq<bool>)
    requires |es| == |keep|
    ensures BurstsOf(Keep(es, keep)) == Keep(BurstsOf(es), keep)
    decreases |es|
  {
    if es != [] {
      var n := |es| - 1;
      assert BurstsOf(es)[..n] == BurstsOf(es[..n]);
      KeepBursts(es[..n], keep[..n]);
      var tail := if keep[n] then [es[n]] else [];
      assert BurstsOf(Keep(es[..n], keep[..n]) + tail) == BurstsOf(Keep(es[..n], keep[..n])) + BurstsOf(tail);
    }
  }

  /** The fourteen pixels `createExplosion` seeds at the grid centre, one
      speed draw each. */
  function Seeds(rows: int, cols: int, speedNoise: seq<real>): seq<Spark> {
    seq(|speedNoise|, j requires 0 <= j < |speedNoise| =>
      Spark(rows / 2, cols / 2, 1.5 * 1.6 * (0.8 + speedNoise[j] * 0.4), 0.0, 0, true))
  }

  /** Reseeding does not erase the previous batch: the first tick of the
      new pixels changes only the 3x3 block at the centre and those at
      their first positions, so any glow the old pixels left elsewhere
      stays on the grid. */
  lemma ReseedKeepsOldFootprints(s: seq<int>, rows: int, cols: int, speedNoise: seq<real>, nexts: seq<Cell>, r: int, c: int)
    requires |s| == Total(rows, cols) && InBounds(rows, cols, r, c) && |nexts| == |speedNoise|
    requires !InBlock(r, c, rows / 2, cols / 2, 1)
    requires forall j :: 0 <= j < |nexts| ==> !InBlock(r, c, nexts[j].row, nexts[j].col, 1)
    ensures At(ApplyAll(s, rows, cols, SparkTickWrites(Seeds(rows, cols, speedNoise), rows, cols, nexts)), rows, cols, r, c)
            == At(s, rows, cols, r, c)
  {
    SparkTickLocality(s, rows, cols, Seeds(rows, cols, speedNoise), nexts, r, c);
  }

  /** The six positions `createInPlaceExplosions` asks for. */
  function BatchPositions(rows: int, cols: int, rowNoise: seq<real>, colNoise: seq<real>): seq<Cell>
    requires rows > 0 && cols > 0 && |rowNoise| == 6 && |colNoise| == 6
  {
    seq(6, i requires 0 <= i < 6 => DistributedPosition(rows, cols, 6, i, rowNoise[i], colNoise[i]))
  }

  ghost predicate Draws(xs: seq<real>) {
    forall i :: 0 <= i < |xs| ==> 0.0 <= xs[i] < 1.0
  }

  class Scene {
    var grid: PixelGrid
    /** `explosionPixels` */
    var explosionPixels: seq<ExplodingPixel>
    /** `animationFrameId != null` */
    var animationPending: bool
    /** `inPlaceExplosionsActive` */
    var inPlaceExplosionsActive: bool
    /** `inPlaceAnimationFrameId != null` */
    var inPlacePending: bool
    /** `activeExplosions` */
    var activeExplosions: seq<InPlaceExplosion>

    /** Every radiating pixel in the batch is a distinct object still on
        its way. */
    ghost predicate RadiatingReady()
      reads this, set p | p in explosionPixels
    {
      Distinct(explosionPixels) && forall p :: p in explosionPixels ==> p.active
    }

    /** ... and a frame is pending exactly while the batch is non-empty. */
    ghost predicate RadiatingValid()
      reads this, set p | p in explosionPixels
    {
      RadiatingReady() && (animationPending <==> explosionPixels != [])
    }

    /** The in-place batch holds distinct active bursts, the busy flag is
        set exactly while it is non-empty, and a frame is pending exactly
        while the flag is set. */
    ghost predicate InPlaceValid()
      reads this, set e | e in activeExplosions
    {
      && Distinct(activeExplosions)
      && (forall e :: e in activeExplosions ==> e.active)
      && (inPlaceExplosionsActive <==> activeExplosions != [])
      && (inPlacePending <==> inPlaceExplosionsActive)
    }

    ghost predicate Valid()
      reads this, grid, set p | p in explosionPixels, set e | e in activeExplosions
    {
      grid.Valid() && RadiatingValid() && InPlaceValid()
    }

    /** Page load: `createPixelGrid` and the initial globals. */
    constructor (viewportWidth: int, viewportHeight: int)
      ensures Valid() && fresh(grid) && fresh(grid.cells)
      ensures grid.cols == CellsAlong(viewportWidth) && grid.rows == CellsAlong(viewportHeight)
      ensures explosionPixels == [] && activeExplosions == []
      ensures !animationPending && !inPlaceExplosionsActive && !inPlacePending
    {
      grid := new PixelGrid(viewportWidth, viewportHeight);
      explosionPixels, activeExplosions := [], [];
      animationPending, inPlaceExplosionsActive, inPlacePending := false, false, false;
    }

    /** The radiating `animate`: every pixel updates, moving to its entry of
        `nexts`, then the retired ones are dropped (without `cleanup`) and
        another frame is requested while any remain. */
    method AnimateRadiating(nexts: seq<Cell>)
      requires grid.Valid() && RadiatingReady() && |nexts| == |explosionPixels|
      modifies this, grid.cells, set p | p in explosionPixels
      ensures grid == old(grid) && RadiatingValid()
      ensures explosionPixels
              == Keep(old(explosionPixels), SparkFlags(SparkSteps(old(SparksOf(explosionPixels)), grid.rows, grid.cols, nexts)))
      ensures SparksOf(explosionPixels) == SparkTick(old(SparksOf(explosionPixels)), grid.rows, grid.cols, nexts)
      ensures grid.cells[..] == ApplyAll(old(grid.cells[..]), grid.rows, grid.cols,
                                         SparkTickWrites(old(SparksOf(explosionPixels)), grid.rows, grid.cols, nexts))
      ensures activeExplosions == old(activeExplosions) && inPlaceExplosionsActive == old(inPlaceExplosionsActive)
      ensures inPlacePending == old(inPlacePending)
    {
      var kept := RadiatingPass(grid, explosionPixels, nexts);
      explosionPixels := kept;
      animationPending := |kept| > 0;
    }

    /** The part of `createExplosion` before the animation starts: the old
        batch is "cleaned up" (a no-op, since every pixel in it is still
        active) and dropped, and fourteen pixels are seeded at the centre,
        the last six with doubled arcs. */
    method SeedExplosion(speedNoise: seq<real>, arcNoise: seq<real>)
      requires Valid() && |speedNoise| == 14 && |arcNoise| == 14 && Draws(speedNoise) && Draws(arcNoise)
      modifies this, grid.cells
      ensures grid == old(grid) && grid.Valid() && RadiatingReady()
      ensures grid.cells[..] == old(grid.cells[..])
      ensures |explosionPixels| == 14 && forall p :: p in explosionPixels ==> fresh(p)
      ensures SparksOf(explosionPixels) == Seeds(grid.rows, grid.cols, speedNoise)
      ensures forall j :: 0 <= j < 8 ==> explosionPixels[j].arcRadius == (arcNoise[j] - 0.5) * 6.0
      ensures forall j :: 8 <= j < 14 ==> explosionPixels[j].arcRadius == (arcNoise[j] - 0.5) * 6.0 * 2.0
      ensures animationPending == old(animationPending)
      ensures activeExplosions == old(activeExplosions) && inPlaceExplosionsActive == old(inPlaceExplosionsActive)
      ensures inPlacePending == old(inPlacePending)
    {
      var g, previous := grid, explosionPixels;
      for k := 0 to |previous|
        invariant g.cells[..] == old(g.cells[..])
        modifies g.cells
      {
        assert previous[k] in previous;
        previous[k].Cleanup(g);
      }
      explosionPixels := [];
      var centerRow, centerCol := g.rows / 2, g.cols / 2;
      var ps := SeedPixels(centerRow, centerCol, speedNoise, arcNoise);
      explosionPixels := ps;
    }

    /** `startExplosionAnimation`: cancel a pending frame, then tick once. */
    method StartExplosionAnimation(nexts: seq<Cell>)
      requires grid.Valid() && RadiatingReady() && |nexts| == |explosionPixels|
      modifies this, grid.cells, set p | p in explosionPixels
      ensures grid == old(grid) && RadiatingValid()
      ensures SparksOf(explosionPixels) == SparkTick(old(SparksOf(explosionPixels)), grid.rows, grid.cols, nexts)
      ensures forall p :: p in explosionPixels ==> p in old(explosionPixels)
      ensures grid.cells[..] == ApplyAll(old(grid.cells[..]), grid.rows, grid.cols,
                                         SparkTickWrites(old(SparksOf(explosionPixels)), grid.rows, grid.cols, nexts))
      ensures activeExplosions == old(activeExplosions) && inPlaceExplosionsActive == old(inPlaceExplosionsActive)
      ensures inPlacePending == old(inPlacePending)
    {
      if animationPending {
        animationPending := false;
      }
      ghost var before := explosionPixels;
      AnimateRadiating(nexts);
      KeepSubset(before, SparkFlags(SparkSteps(old(SparksOf(explosionPixels)), grid.rows, grid.cols, nexts)));
    }

    /** `createExplosion`: the new batch's first tick runs at once. The old
        batch's footprints are not erased: only the cells the new pixels
        clear or paint change. */
    method CreateExplosion(speedNoise: seq<real>, arcNoise: seq<real>, nexts: seq<Cell>)
      requires Valid() && |speedNoise| == 14 && |arcNoise| == 14 && |nexts| == 14
      requires Draws(speedNoise) && Draws(arcNoise)
      modifies this, grid.cells
      ensures grid == old(grid) && Valid()
      ensures forall p :: p in explosionPixels ==> fresh(p)
      ensures SparksOf(explosionPixels) == SparkTick(Seeds(grid.rows, grid.cols, speedNoise), grid.rows, grid.cols, nexts)
      ensures grid.cells[..] == ApplyAll(old(grid.cells[..]), grid.rows, grid.cols,
                                         SparkTickWrites(Seeds(grid.rows, grid.cols, speedNoise), grid.rows, grid.cols, nexts))
      ensures activeExplosions == old(activeExplosions) && inPlaceExplosionsActive == old(inPlaceExplosionsActive)
      ensures inPlacePending == old(inPlacePending)
    {
      SeedExplosion(speedNoise, arcNoise);
      StartExplosionAnimation(nexts);
    }

    /** `triggerExplosion`: only a non-empty grid gets a new batch. */
    method TriggerExplosion(speedNoise: seq<real>, arcNoise: seq<real>, nexts: seq<Cell>)
      requires Valid() && |speedNoise| == 14 && |arcNoise| == 14 && |nexts| == 14
      requires Draws(speedNoise) && Draws(arcNoise)
      modifies this, grid.cells
      ensures grid == old(grid) && Valid()
      ensures activeExplosions == old(activeExplosions) && inPlaceExplosionsActive == old(inPlaceExplosionsActive)
      ensures inPlacePending == old(inPlacePending)
      ensures !(grid.cols > 0 && grid.rows > 0)
              ==> explosionPixels == old(explosionPixels) && animationPending == old(animationPending)
                  && grid.cells[..] == old(grid.cells[..])
      ensures grid.cols > 0 && grid.rows > 0
              ==> (forall p :: p in explosionPixels ==> fresh(p))
                  && SparksOf(explosionPixels) == SparkTick(Seeds(grid.rows, grid.cols, speedNoise), grid.rows, grid.cols, nexts)
                  && grid.cells[..] == ApplyAll(old(grid.cells[..]), grid.rows, grid.cols,
                                                SparkTickWrites(Seeds(grid.rows, grid.cols, speedNoise), grid.rows, grid.cols, nexts))
    {
      if grid.cols > 0 && grid.rows > 0 {
        CreateExplosion(speedNoise, arcNoise, nexts);
      }
    }

    /** Installs `kept` as the running batch: the batch flag and the
        pending frame both say whether any burst remains. */
    method SetBatch(kept: seq<InPlaceExplosion>)
      requires Distinct(kept) && forall e :: e in kept ==> e.active
      modifies this
      ensures activeExplosions == kept && InPlaceValid()
      ensures inPlaceExplosionsActive == (|kept| > 0) && inPlacePending == (|kept| > 0)
      ensures grid == old(grid) && explosionPixels == old(explosionPixels) && animationPending == old(animationPending)
    {
      activeExplosions, inPlaceExplosionsActive, inPlacePending := kept, |kept| > 0, |kept| > 0;
    }

    /** The in-place `animate`: every burst updates, then the retired ones
        are cleaned up and dropped; the batch flag and the pending frame are
        cleared once none remain. */
    method AnimateInPlace()
      requires grid.Valid() && Distinct(activeExplosions) && inPlaceExplosionsActive
      modifies this, grid.cells, set e | e in activeExplosions
      ensures grid == old(grid) && InPlaceValid()
      ensures activeExplosions == Keep(old(activeExplosions), BurstFlags(BurstSteps(old(BurstsOf(activeExplosions)))))
      ensures BurstsOf(activeExplosions) == BurstTick(old(BurstsOf(activeExplosions)))
      ensures grid.cells[..] == ApplyAll(old(grid.cells[..]), grid.rows, grid.cols,
                                         BurstTickWrites(old(BurstsOf(activeExplosions)))
                                         + RetireWrites(BurstSteps(old(BurstsOf(activeExplosions)))))
      ensures explosionPixels == old(explosionPixels) && animationPending == old(animationPending)
    {
      ghost var batch, s0 := activeExplosions, grid.cells[..];
      ghost var states := BurstsOf(batch);
      var kept := InPlacePass(grid, activeExplosions);
      ghost var s1 := grid.cells[..];
      assert s1 == ApplyAll(s0, grid.rows, grid.cols, BurstTickWrites(states) + RetireWrites(BurstSteps(states)));
      assert BurstsOf(kept) == BurstTick(states);
      assert Distinct(kept) && forall e :: e in kept ==> e.active;
      assert kept == Keep(batch, BurstFlags(BurstSteps(states)));
      // A frame is requested while bursts remain; otherwise the batch ends.
      // The busy flag is already set, so both flags become "bursts remain".
      SetBatch(kept);
      assert grid.cells[..] == s1 && BurstsOf(activeExplosions) == BurstTick(states);
    }

    /** `createInPlaceExplosions`: unless a batch is already running, six
        bursts are created at distributed positions, the i-th delayed by
        3 i frames, and the first tick runs at once. */
    method CreateInPlaceExplosions(rowNoise: seq<real>, colNoise: seq<real>)
      requires Valid() && grid.rows > 0 && grid.cols > 0 && |rowNoise| == 6 && |colNoise| == 6
      modifies this, grid.cells, set e | e in activeExplosions
      ensures grid == old(grid) && Valid()
      ensures explosionPixels == old(explosionPixels) && animationPending == old(animationPending)
      ensures old(inPlaceExplosionsActive)
              ==> activeExplosions == old(activeExplosions) && inPlaceExplosionsActive && inPlacePending
                  && BurstsOf(activeExplosions) == old(BurstsOf(activeExplosions))
                  && grid.cells[..] == old(grid.cells[..])
      ensures !old(inPlaceExplosionsActive)
              ==> var batch := Staggered(BatchPositions(grid.rows, grid.cols, rowNoise, colNoise));
                  && (forall e :: e in activeExplosions ==> fresh(e))
                  && BurstsOf(activeExplosions) == BurstTick(batch)
                  && grid.cells[..] == ApplyAll(old(grid.cells[..]), grid.rows, grid.cols,
                                                BurstTickWrites(batch) + RetireWrites(BurstSteps(batch)))
    {
      if inPlaceExplosionsActive {
        return;
      }
      ghost var batch, s0 := Staggered(BatchPositions(grid.rows, grid.cols, rowNoise, colNoise)), grid.cells[..];
      var es := NewBatch(grid.rows, grid.cols, rowNoise, colNoise);
      activeExplosions := activeExplosions + es;
      assert activeExplosions == es;
      inPlaceExplosionsActive := true;
      assert BurstsOf(activeExplosions) == batch;
      AnimateInPlace();
      assert grid.cells[..] == ApplyAll(s0, grid.rows, grid.cols, BurstTickWrites(batch) + RetireWrites(BurstSteps(batch)));
      KeepSubset(es, BurstFlags(BurstSteps(batch)));
    }

    /** `triggerInPlaceExplosion`: only a non-empty grid with no batch
        running gets a new batch. */
    method TriggerInPlaceExplosion(rowNoise: seq<real>, colNoise: seq<real>)
      requires Valid() && |rowNoise| == 6 && |colNoise| == 6
      modifies this, grid.cells, set e | e in activeExplosions
      ensures grid == old(grid) && Valid()
      ensures explosionPixels == old(explosionPixels) && animationPending == old(animationPending)
      ensures !(grid.cols > 0 && grid.rows > 0 && !old(inPlaceExplosionsActive))
              ==> activeExplosions == old(activeExplosions) && inPlaceExplosionsActive == old(inPlaceExplosionsActive)
                  && BurstsOf(activeExplosions) == old(BurstsOf(activeExplosions))
                  && grid.cells[..] == old(grid.cells[..])
      ensures grid.cols > 0 && grid.rows > 0 && !old(inPlaceExplosionsActive)
              ==> var batch := Staggered(BatchPositions(grid.rows, grid.cols, rowNoise, colNoise));
                  && (forall e :: e in activeExplosions ==> fresh(e))
                  && BurstsOf(activeExplosions) == BurstTick(batch)
                  && grid.cells[..] == ApplyAll(old(grid.cells[..]), grid.rows, grid.cols,
                                                BurstTickWrites(batch) + RetireWrites(BurstSteps(batch)))
    {
      if grid.cols > 0 && grid.rows > 0 && !inPlaceExplosionsActive {
        CreateInPlaceExplosions(rowNoise, colNoise);
      }
    }

    /** The `resize` handler: a fresh grid, the radiating batch and its
        pending frame dropped. The in-place batch is left running and goes
        on drawing into the new grid. */
    method Resize(viewportWidth: int, viewportHeight: int)
      requires Valid()
      modifies this
      ensures Valid() && fresh(grid) && fresh(grid.cells)
      ensures grid.cols == CellsAlong(viewportWidth) && grid.rows == CellsAlong(viewportHeight)
      ensures forall i :: 0 <= i < grid.cells.Length ==> grid.cells[i] == Background
      ensures explosionPixels == [] && !animationPending
      ensures activeExplosions == old(activeExplosions) && inPlaceExplosionsActive == old(inPlaceExplosionsActive)
      ensures inPlacePending == old(inPlacePending)
    {
      grid := new PixelGrid(viewportWidth, viewportHeight);
      if animationPending {
        animationPending := false;
      }
      explosionPixels := [];
    }
  }

  /** The fourteen pixels of a radiating batch: eight along the fixed
      directions, then six with doubled arcs. */
  method SeedPixels(centerRow: int, centerCol: int, speedNoise: seq<real>, arcNoise: seq<real>)
    returns (ps: seq<ExplodingPixel>)
    requires |speedNoise| == 14 && |arcNoise| == 14 && Draws(speedNoise) && Draws(arcNoise)
    ensures |ps| == 14 && Distinct(ps)
    ensures forall i :: 0 <= i < 14 ==> fresh(ps[i]) && ps[i].active
    ensures forall i :: 0 <= i < 14
              ==> ps[i].State() == Spark(centerRow, centerCol, 1.5 * 1.6 * (0.8 + speedNoise[i] * 0.4), 0.0, 0, true)
    ensures forall i :: 0 <= i < 8 ==> ps[i].arcRadius == (arcNoise[i] - 0.5) * 6.0
    ensures forall i :: 8 <= i < 14 ==> ps[i].arcRadius == (arcNoise[i] - 0.5) * 6.0 * 2.0
  {
    ps := [];
    for j := 0 to 14
      invariant |ps| == j && Distinct(ps)
      invariant forall i :: 0 <= i < j ==> fresh(ps[i]) && ps[i].active
      invariant forall i :: 0 <= i < j
                  ==> ps[i].State() == Spark(centerRow, centerCol, 1.5 * 1.6 * (0.8 + speedNoise[i] * 0.4), 0.0, 0, true)
      invariant forall i :: 0 <= i < j && i < 8 ==> ps[i].arcRadius == (arcNoise[i] - 0.5) * 6.0
      invariant forall i :: 8 <= i < j ==> ps[i].arcRadius == (arcNoise[i] - 0.5) * 6.0 * 2.0
    {
      var pixel := new ExplodingPixel(centerRow, centerCol, 1.5, speedNoise[j], arcNoise[j]);
      if j >= 8 {
        pixel.arcRadius := pixel.arcRadius * 2.0;
      }
      ps := ps + [pixel];
    }
  }

  /** The six staggered bursts of a new in-place batch. */
  method NewBatch(rows: int, cols: int, rowNoise: seq<real>, colNoise: seq<real>) returns (es: seq<InPlaceExplosion>)
    requires rows > 0 && cols > 0 && |rowNoise| == 6 && |colNoise| == 6
    ensures Distinct(es) && (forall e :: e in es ==> fresh(e) && e.active)
    ensures BurstsOf(es) == Staggered(BatchPositions(rows, cols, rowNoise, colNoise))
  {
    var positions := GenerateDistributedPositions(rows, cols, 6, rowNoise, colNoise);
    assert positions == BatchPositions(rows, cols, rowNoise, colNoise);
    es := StaggeredBursts(positions);
  }

  /** The bursts `createInPlaceExplosions` builds, one per position. */
  method StaggeredBursts(positions: seq<Cell>) returns (es: seq<InPlaceExplosion>)
    ensures Distinct(es) && (forall e :: e in es ==> fresh(e) && e.active)
    ensures BurstsOf(es) == Staggered(positions)
  {
    es := [];
    for index := 0 to |positions|
      invariant |es| == index && Distinct(es)
      invariant forall i :: 0 <= i < index ==> fresh(es[i]) && es[i].State() == Staggered(positions)[i]
    {
      var explosion := new InPlaceExplosion(positions[index].row, positions[index].col);
      explosion.Delay(index * 3);
      es := es + [explosion];
    }
  }

  /** Both passes of the in-place `animate` over the batch `es`. */
  method InPlacePass(g: PixelGrid, es: seq<InPlaceExplosion>) returns (kept: seq<InPlaceExplosion>)
    requires g.Valid() && Distinct(es)
    modifies g.cells, set e | e in es
    ensures kept == Keep(es, BurstFlags(BurstSteps(old(BurstsOf(es)))))
    ensures BurstsOf(kept) == BurstTick(old(BurstsOf(es)))
    ensures Distinct(kept) && forall e :: e in kept ==> e.active
    ensures g.cells[..] == ApplyAll(old(g.cells[..]), g.rows, g.cols,
                                    BurstTickWrites(old(BurstsOf(es))) + RetireWrites(BurstSteps(old(BurstsOf(es)))))
  {
    ghost var before, s0 := BurstsOf(es), g.cells[..];
    UpdateBursts(g, es);
    ghost var stepped := BurstSteps(before);
    ghost var flags := BurstFlags(stepped);
    ghost var s1 := g.cells[..];
    kept := PruneBursts(g, es);
    ApplyAllConcat(s0, g.rows, g.cols, BurstTickWrites(before), RetireWrites(stepped));
    KeepBursts(es, flags);
    KeepDistinct(es, flags);
  }

  /** The update pass of the in-place `animate`. */
  method UpdateBursts(g: PixelGrid, es: seq<InPlaceExplosion>)
    requires g.Valid() && Distinct(es)
    modifies g.cells, set e | e in es
    ensures BurstsOf(es) == BurstSteps(old(BurstsOf(es)))
    ensures g.cells[..] == ApplyAll(old(g.cells[..]), g.rows, g.cols, BurstTickWrites(old(BurstsOf(es))))
  {
    ghost var before, s0 := BurstsOf(es), g.cells[..];
    for k := 0 to |es|
      invariant forall j :: 0 <= j < k ==> es[j].State() == BurstStep(before[j])
      invariant forall j :: k <= j < |es| ==> es[j].State() == before[j]
      invariant g.cells[..] == ApplyAll(s0, g.rows, g.cols, BurstTickWrites(before[..k]))
    {
      es[k].Update(g);
      assert before[..k + 1][..k] == before[..k];
      ApplyAllConcat(s0, g.rows, g.cols, BurstTickWrites(before[..k]), BurstWrites(before[k]));
    }
    assert before[..|es|] == before;
  }

  /** The filter of the in-place `animate`: retired bursts are cleaned up
      and dropped, the rest kept in order. */
  method PruneBursts(g: PixelGrid, es: seq<InPlaceExplosion>) returns (kept: seq<InPlaceExplosion>)
    requires g.Valid()
    modifies g.cells
    ensures kept == Keep(es, BurstFlags(BurstsOf(es)))
    ensures forall e :: e in kept ==> e.active
    ensures g.cells[..] == ApplyAll(old(g.cells[..]), g.rows, g.cols, RetireWrites(BurstsOf(es)))
  {
    ghost var states, s0 := BurstsOf(es), g.cells[..];
    ghost var flags := BurstFlags(states);
    kept := [];
    for k := 0 to |es|
      invariant kept == Keep(es[..k], flags[..k])
      invariant forall e :: e in kept ==> e.active
      invariant g.cells[..] == ApplyAll(s0, g.rows, g.cols, RetireWrites(states[..k]))
    {
      assert es[..k + 1][..k] == es[..k] && flags[..k + 1][..k] == flags[..k] && states[..k + 1][..k] == states[..k];
      assert states[k] == es[k].State();
      ApplyAllConcat(s0, g.rows, g.cols, RetireWrites(states[..k]), RetireOne(states[k]));
      if !es[k].active {
        es[k].Cleanup(g);
        assert RetireOne(states[k]) == ClearPatternWrites(es[k].centerRow, es[k].centerCol);
      } else {
        kept := kept + [es[k]];
        assert RetireOne(states[k]) == [];
      }
    }
    assert es[..|es|] == es && flags[..|es|] == flags && states[..|es|] == states;
  }

  /** Both passes of the radiating `animate` over the batch `ps`. */
  method RadiatingPass(g: PixelGrid, ps: seq<ExplodingPixel>, nexts: seq<Cell>) returns (kept: seq<ExplodingPixel>)
    requires g.Valid() && Distinct(ps) && |nexts| == |ps|
    modifies g.cells, set p | p in ps
    ensures kept == Keep(ps, SparkFlags(SparkSteps(old(SparksOf(ps)), g.rows, g.cols, nexts)))
    ensures SparksOf(kept) == SparkTick(old(SparksOf(ps)), g.rows, g.cols, nexts)
    ensures Distinct(kept) && forall p :: p in kept ==> p.active
    ensures g.cells[..] == ApplyAll(old(g.cells[..]), g.rows, g.cols, SparkTickWrites(old(SparksOf(ps)), g.rows, g.cols, nexts))
  {
    ghost var before := SparksOf(ps);
    UpdatePixels(g, ps, nexts);
    ghost var stepped := SparkSteps(before, g.rows, g.cols, nexts);
    ghost var flags := SparkFlags(stepped);
    kept := ActivePixels(ps);
    KeepSparks(ps, flags);
    KeepDistinct(ps, flags);
    KeepMembers(ps, flags);
    forall p | p in kept ensures p.active {
      var j :| 0 <= j < |ps| && ps[j] == p && flags[j];
      assert SparksOf(ps)[j] == ps[j].State();
    }
  }

  /** The update pass of the radiating `animate`. */
  method UpdatePixels(g: PixelGrid, ps: seq<ExplodingPixel>, nexts: seq<Cell>)
    requires g.Valid() && Distinct(ps) && |nexts| == |ps|
    modifies g.cells, set p | p in ps
    ensures SparksOf(ps) == SparkSteps(old(SparksOf(ps)), g.rows, g.cols, nexts)
    ensures g.cells[..] == ApplyAll(old(g.cells[..]), g.rows, g.cols, SparkTickWrites(old(SparksOf(ps)), g.rows, g.cols, nexts))
  {
    ghost var before, s0 := SparksOf(ps), g.cells[..];
    for k := 0 to |ps|
      invariant forall j :: 0 <= j < k ==> ps[j].State() == SparkStep(before[j], g.rows, g.cols, nexts[j])
      invariant forall j :: k <= j < |ps| ==> ps[j].State() == before[j]
      invariant g.cells[..] == ApplyAll(s0, g.rows, g.cols, SparkTickWrites(before[..k], g.rows, g.cols, nexts[..k]))
    {
      ps[k].Update(g, nexts[k]);
      assert before[..k + 1][..k] == before[..k] && nexts[..k + 1][..k] == nexts[..k];
      ApplyAllConcat(s0, g.rows, g.cols, SparkTickWrites(before[..k], g.rows, g.cols, nexts[..k]),
                     SparkWrites(before[k], g.rows, g.cols, nexts[k]));
    }
    assert before[..|ps|] == before && nexts[..|ps|] == nexts;
  }

  /** The filter of the radiating `animate`: the pixels still active, in order. */
  method ActivePixels(ps: seq<ExplodingPixel>) returns (kept: seq<ExplodingPixel>)
    ensures kept == Keep(ps, SparkFlags(SparksOf(ps)))
  {
    ghost var flags := SparkFlags(SparksOf(ps));
    kept := [];
    for k := 0 to |ps|
      invariant kept == Keep(ps[..k], flags[..k])
    {
      assert ps[..k + 1][..k] == ps[..k] && flags[..k + 1][..k] == flags[..k];
      if ps[k].active {
        kept := kept + [ps[k]];
      }
    }
    assert ps[..|ps|] == ps && flags[..|ps|] == flags;
  }
}

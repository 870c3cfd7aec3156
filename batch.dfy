/** The two frame schedulers as values: one tick updates every entity of a
    batch in order and then keeps the ones still active, in order. */
module Batch {
  import opened Colors
  import opened Canvas
  import opened Radiating
  import opened InPlace

  /** The elements of `xs` whose flag is set, in order: `Array.filter`. */
  function Keep<T>(xs: seq<T>, keep: seq<bool>): seq<T>
    requires |xs| == |keep|
    decreases |xs|
  {
    if xs == [] then []
    else
      var n := |xs| - 1;
      Keep(xs[..n], keep[..n]) + (if keep[n] then [xs[n]] else [])
  }

  /** Filtering keeps exactly the flagged elements, never grows, and is
      empty exactly when no flag is set. */
  lemma KeepMembers<T>(xs: seq<T>, keep: seq<bool>)
    requires |xs| == |keep|
    ensures |Keep(xs, keep)| <= |xs|
    ensures forall x :: x in Keep(xs, keep) <==> exists j :: 0 <= j < |xs| && xs[j] == x && keep[j]
    ensures Keep(xs, keep) == [] <==> forall j :: 0 <= j < |keep| ==> !keep[j]
  {
    KeepLength(xs, keep);
    KeepFlagged(xs, keep);
    KeepNone(xs, keep);
  }

  lemma {:induction false} KeepLength<T>(xs: seq<T>, keep: seq<bool>)
    requires |xs| == |keep|
    ensures |Keep(xs, keep)| <= |xs|
    decreases |xs|
  {
    if xs != [] {
      KeepLength(xs[..|xs| - 1], keep[..|xs| - 1]);
    }
  }

  lemma {:induction false} KeepFlagged<T>(xs: seq<T>, keep: seq<bool>)
    requires |xs| == |keep|
    ensures forall x :: x in Keep(xs, keep) <==> exists j :: 0 <= j < |xs| && xs[j] == x && keep[j]
    decreases |xs|
  {
    if xs != [] {
      var n := |xs| - 1;
      var front, tail := Keep(xs[..n], keep[..n]), if keep[n] then [xs[n]] else [];
      KeepFlagged(xs[..n], keep[..n]);
      assert Keep(xs, keep) == front + tail;
      forall x ensures x in Keep(xs, keep) <==> exists j :: 0 <= j < |xs| && xs[j] == x && keep[j] {
        assert x in Keep(xs, keep) <==> x in front || x in tail;
        if x in front {
          var j :| 0 <= j < n && xs[..n][j] == x && keep[..n][j];
          assert xs[j] == x && keep[j];
        }
        if exists j :: 0 <= j < |xs| && xs[j] == x && keep[j] {
          var j :| 0 <= j < |xs| && xs[j] == x && keep[j];
          if j < n {
            assert xs[..n][j] == x && keep[..n][j];
          } else {
            assert x in tail;
          }
        }
      }
    }
  }

  lemma {:induction false} KeepNone<T>(xs: seq<T>, keep: seq<bool>)
    requires |xs| == |keep|
    ensures Keep(xs, keep) == [] <==> forall j :: 0 <= j < |keep| ==> !keep[j]
    decreases |xs|
  {
    if xs != [] {
      var n := |xs| - 1;
      KeepNone(xs[..n], keep[..n]);
      assert forall j :: 0 <= j < n ==> keep[..n][j] == keep[j];
    }
  }

  // ---- the radiating family ----

  /** The states after every pixel of a batch has made its update. */
  function SparkSteps(ss: seq<Spark>, rows: int, cols: int, nexts: seq<Cell>): seq<Spark>
    requires |nexts| == |ss|
  {
    seq(|ss|, j requires 0 <= j < |ss| => SparkStep(ss[j], rows, cols, nexts[j]))
  }

  function SparkFlags(ss: seq<Spark>): seq<bool> {
    seq(|ss|, j requires 0 <= j < |ss| => ss[j].active)
  }

  /** The grid writes of the update pass, pixel by pixel. */
  function SparkTickWrites(ss: seq<Spark>, rows: int, cols: int, nexts: seq<Cell>): seq<Write>
    requires |nexts| == |ss|
    decreases |ss|
  {
    if ss == [] then []
    else
      var n := |ss| - 1;
      SparkTickWrites(ss[..n], rows, cols, nexts[..n]) + SparkWrites(ss[n], rows, cols, nexts[n])
  }

  /** One radiating tick: the states that survive the update pass. */
  function SparkTick(ss: seq<Spark>, rows: int, cols: int, nexts: seq<Cell>): seq<Spark>
    requires |nexts| == |ss|
  {
    var stepped := SparkSteps(ss, rows, cols, nexts);
    Keep(stepped, SparkFlags(stepped))
  }

  /** After a radiating tick the survivors are exactly the updates of the
      active pixels that stayed on the widened grid, the batch never grows,
      and the scheduler stops exactly when every pixel has retired. */
  lemma SparkTickSurvivors(ss: seq<Spark>, rows: int, cols: int, nexts: seq<Cell>)
    requires |nexts| == |ss|
    ensures forall s :: s in SparkTick(ss, rows, cols, nexts) ==> s.active
    ensures |SparkTick(ss, rows, cols, nexts)| <= |ss|
    ensures forall s :: s in SparkTick(ss, rows, cols, nexts)
              ==> exists j :: 0 <= j < |ss| && ss[j].active && s == SparkStep(ss[j], rows, cols, nexts[j])
                             && !OffCanvas(rows, cols, nexts[j].row, nexts[j].col)
    ensures forall j :: 0 <= j < |ss| && ss[j].active && !OffCanvas(rows, cols, nexts[j].row, nexts[j].col)
              ==> SparkStep(ss[j], rows, cols, nexts[j]) in SparkTick(ss, rows, cols, nexts)
    ensures SparkTick(ss, rows, cols, nexts) == []
            <==> forall j :: 0 <= j < |ss| ==> !ss[j].active || OffCanvas(rows, cols, nexts[j].row, nexts[j].col)
  {
    var stepped := SparkSteps(ss, rows, cols, nexts);
    KeepMembers(stepped, SparkFlags(stepped));
    forall j | 0 <= j < |ss|
      ensures SparkFlags(stepped)[j] <==> ss[j].active && !OffCanvas(rows, cols, nexts[j].row, nexts[j].col)
    {
    }
  }

  // ---- the in-place family ----

  function BurstSteps(bs: seq<Burst>): seq<Burst> {
    seq(|bs|, j requires 0 <= j < |bs| => BurstStep(bs[j]))
  }

  function BurstFlags(bs: seq<Burst>): seq<bool> {
    seq(|bs|, j requires 0 <= j < |bs| => bs[j].active)
  }

  /** The bursts of a batch that are still active, in order. */
  function LiveBursts(bs: seq<Burst>): seq<Burst> {
    Keep(bs, BurstFlags(bs))
  }

  /** One in-place tick: the states that survive the update pass. */
  function BurstTick(bs: seq<Burst>): seq<Burst> {
    LiveBursts(BurstSteps(bs))
  }

  /** The grid writes of the update pass, burst by burst. */
  function BurstTickWrites(bs: seq<Burst>): seq<Write>
    decreases |bs|
  {
    if bs == [] then []
    else
      var n := |bs| - 1;
      BurstTickWrites(bs[..n]) + BurstWrites(bs[n])
  }

  /** The grid writes of the pruning pass: `cleanup` of each burst that
      has just retired, in order. */
  function RetireWrites(bs: seq<Burst>): seq<Write>
    decreases |bs|
  {
    if bs == [] then []
    else
      var n := |bs| - 1;
      RetireWrites(bs[..n]) + RetireOne(bs[n])
  }

  function RetireOne(b: Burst): seq<Write> {
    if b.active then [] else ClearPatternWrites(b.centerRow, b.centerCol)
  }

  lemma RetireOneEffect(s: seq<int>, rows: int, cols: int, b: Burst, r: int, c: int)
    requires |s| == Total(rows, cols) && InBounds(rows, cols, r, c)
    ensures At(ApplyAll(s, rows, cols, RetireOne(b)), rows, cols, r, c)
            == if !b.active && InBlock(r, c, b.centerRow, b.centerCol, 2) then Background else At(s, rows, cols, r, c)
  {
    if !b.active {
      ClearPatternEffect(s, rows, cols, b.centerRow, b.centerCol, r, c);
    }
  }

  /** The batch after n ticks. */
  function BurstTicks(bs: seq<Burst>, n: nat): seq<Burst>
    decreases n
  {
    if n == 0 then bs else BurstTicks(BurstTick(bs), n - 1)
  }

  /** Every burst of a batch after n updates of its own. */
  function BurstRuns(bs: seq<Burst>, n: nat): seq<Burst> {
    seq(|bs|, j requires 0 <= j < |bs| => BurstRun(bs[j], n))
  }

  /** Pruning keeps exactly the active bursts and never grows the batch. */
  lemma LiveBurstsMembers(bs: seq<Burst>)
    ensures LiveBursts(bs) == [] <==> forall j :: 0 <= j < |bs| ==> !bs[j].active
    ensures forall b :: b in LiveBursts(bs) ==> b.active
    ensures forall j :: 0 <= j < |bs| && bs[j].active ==> bs[j] in LiveBursts(bs)
    ensures |LiveBursts(bs)| <= |bs|
  {
    KeepMembers(bs, BurstFlags(bs));
    forall j | 0 <= j < |bs| ensures BurstFlags(bs)[j] == bs[j].active {
    }
    forall b | b in LiveBursts(bs) ensures b.active {
      var j :| 0 <= j < |bs| && bs[j] == b && BurstFlags(bs)[j];
    }
  }

  lemma LiveBurstsConcat(a: seq<Burst>, b: seq<Burst>)
    ensures LiveBursts(a + b) == LiveBursts(a) + LiveBursts(b)
    decreases |b|
  {
    if b == [] {
      assert a + b == a;
    } else {
      var n := |b| - 1;
      assert (a + b)[..|a| + n] == a + b[..n];
      assert BurstFlags(a + b)[..|a| + n] == BurstFlags(a + b[..n]);
      assert BurstFlags(b)[..n] == BurstFlags(b[..n]);
      LiveBurstsConcat(a, b[..n]);
    }
  }

  lemma BurstRunsConcat(a: seq<Burst>, b: seq<Burst>, n: nat)
    ensures BurstRuns(a + b, n) == BurstRuns(a, n) + BurstRuns(b, n)
  {
  }

  /** Pruning before further updates changes nothing about who survives:
      a retired burst stays retired. */
  lemma {:induction false} PruneCommutes(bs: seq<Burst>, n: nat)
    ensures LiveBursts(BurstRuns(LiveBursts(bs), n)) == LiveBursts(BurstRuns(bs, n))
    decreases |bs|
  {
    if bs != [] {
      var k := |bs| - 1;
      var front, last := bs[..k], bs[k];
      assert bs == front + [last];
      assert BurstFlags(bs)[..k] == BurstFlags(front);
      assert LiveBursts(bs) == LiveBursts(front) + (if last.active then [last] else []);
      PruneCommutes(front, n);
      BurstRunsConcat(LiveBursts(front), if last.active then [last] else [], n);
      LiveBurstsConcat(BurstRuns(LiveBursts(front), n), BurstRuns(if last.active then [last] else [], n));
      BurstRunsConcat(front, [last], n);
      LiveBurstsConcat(BurstRuns(front, n), BurstRuns([last], n));
      if !last.active {
        RunRetired(last, n);
        assert LiveBursts(BurstRuns([last], n)) == [] by {
          LiveBurstsMembers(BurstRuns([last], n));
        }
        assert BurstRuns([], n) == [];
      }
    }
  }

  lemma RunsAfterStep(bs: seq<Burst>, n: nat)
    ensures BurstRuns(BurstSteps(bs), n) == BurstRuns(bs, n + 1)
  {
    forall j | 0 <= j < |bs| ensures BurstRuns(BurstSteps(bs), n)[j] == BurstRuns(bs, n + 1)[j] {
      assert BurstRun(bs[j], n + 1) == BurstRun(BurstStep(bs[j]), n);
    }
  }

  /** Driving a batch tick by tick is the same as running each burst on
      its own and keeping those still active. */
  lemma {:induction false} TicksAreRuns(bs: seq<Burst>, n: nat)
    ensures BurstTicks(bs, n) == (if n == 0 then bs else LiveBursts(BurstRuns(bs, n)))
    decreases n
  {
    if n == 1 {
      RunsAfterStep(bs, 0);
      assert BurstRuns(BurstSteps(bs), 0) == BurstSteps(bs);
    } else if n > 1 {
      var m: nat := n - 1;
      assert BurstTicks(bs, n) == BurstTicks(BurstTick(bs), m);
      TicksAreRuns(BurstTick(bs), m);
      PruneCommutes(BurstSteps(bs), m);
      RunsAfterStep(bs, m);
    }
  }

  /** The batch `createInPlaceExplosions` builds: one burst per position,
      the burst at index i delayed by 3 i frames. */
  function Staggered(positions: seq<Cell>): seq<Burst> {
    seq(|positions|, i requires 0 <= i < |positions| => NewBurst(positions[i].row, positions[i].col).(frameCount := -(3 * i)))
  }

  /** A staggered batch of k bursts keeps the in-place scheduler running
      for exactly 3 (k - 1) + 37 ticks: it is non-empty after n ticks
      exactly when n is less than that. For the six bursts of a batch this
      is 52 ticks. */
  lemma BatchDuration(positions: seq<Cell>, n: nat)
    requires positions != []
    ensures BurstTicks(Staggered(positions), n) != [] <==> n < 3 * (|positions| - 1) + 37
  {
    var bs := Staggered(positions);
    var last := |positions| - 1;
    TicksAreRuns(bs, n);
    forall i | 0 <= i < |bs|
      ensures BurstRun(bs[i], n).active <==> n < 3 * i + 37
    {
      DelayedLifetime(positions[i].row, positions[i].col, 3 * i, n);
    }
    if n > 0 {
      LiveBurstsMembers(BurstRuns(bs, n));
    } else {
      assert bs[0] in bs;
    }
    assert BurstRun(bs[last], n).active <==> n < 3 * last + 37;
  }

  lemma SixBurstsLast52Ticks(positions: seq<Cell>)
    requires |positions| == 6
    ensures BurstTicks(Staggered(positions), 51) != []
    ensures BurstTicks(Staggered(positions), 52) == []
  {
    BatchDuration(positions, 51);
    BatchDuration(positions, 52);
  }

  /** A tick that advances n bursts then counts n + 1. */
  lemma {:induction false} BurstTicksLast(bs: seq<Burst>, n: nat)
    ensures BurstTicks(bs, n + 1) == BurstTick(BurstTicks(bs, n))
    decreases n
  {
    if n > 0 {
      BurstTicksLast(BurstTick(bs), n - 1);
    }
  }

  // ---- what a tick does to the grid ----

  /** A radiating tick touches only the 3x3 blocks around the old and the
      new position of each pixel: every other cell keeps its colour. */
  lemma {:induction false} SparkTickLocality(s: seq<int>, rows: int, cols: int, ss: seq<Spark>, nexts: seq<Cell>, r: int, c: int)
    requires |s| == Total(rows, cols) && InBounds(rows, cols, r, c) && |nexts| == |ss|
    requires forall j :: 0 <= j < |ss| ==> !InBlock(r, c, ss[j].row, ss[j].col, 1)
    requires forall j :: 0 <= j < |nexts| ==> !InBlock(r, c, nexts[j].row, nexts[j].col, 1)
    ensures At(ApplyAll(s, rows, cols, SparkTickWrites(ss, rows, cols, nexts)), rows, cols, r, c) == At(s, rows, cols, r, c)
    decreases |ss|
  {
    if ss != [] {
      var n := |ss| - 1;
      var front := SparkTickWrites(ss[..n], rows, cols, nexts[..n]);
      assert forall j :: 0 <= j < n ==> ss[..n][j] == ss[j] && nexts[..n][j] == nexts[j];
      SparkTickLocality(s, rows, cols, ss[..n], nexts[..n], r, c);
      ApplyAllConcat(s, rows, cols, front, SparkWrites(ss[n], rows, cols, nexts[n]));
      SparkUpdateEffect(ApplyAll(s, rows, cols, front), rows, cols, ss[n], nexts[n], r, c);
    }
  }

  /** The pruning pass writes only the background: a cell it leaves
      coloured is a cell it does not touch. */
  lemma {:induction false} RetireWritesClear(s: seq<int>, rows: int, cols: int, bs: seq<Burst>, j: int, r: int, c: int)
    requires |s| == Total(rows, cols) && InBounds(rows, cols, r, c)
    requires 0 <= j < |bs| && !bs[j].active && InBlock(r, c, bs[j].centerRow, bs[j].centerCol, 2)
    ensures At(ApplyAll(s, rows, cols, RetireWrites(bs)), rows, cols, r, c) == Background
    decreases |bs|
  {
    var n := |bs| - 1;
    var front := RetireWrites(bs[..n]);
    ApplyAllConcat(s, rows, cols, front, RetireOne(bs[n]));
    if j < n {
      assert bs[..n][j] == bs[j];
      RetireWritesClear(s, rows, cols, bs[..n], j, r, c);
    }
    RetireOneEffect(ApplyAll(s, rows, cols, front), rows, cols, bs[n], r, c);
  }

  /** After an in-place tick the 5x5 block of every burst that retired on
      it is background, whatever the other bursts painted during the
      update pass: frame 36's repaint never survives its own `cleanup`. */
  lemma RetiredBlockCleared(s: seq<int>, rows: int, cols: int, bs: seq<Burst>, j: int, r: int, c: int)
    requires |s| == Total(rows, cols) && InBounds(rows, cols, r, c)
    requires 0 <= j < |bs| && !BurstStep(bs[j]).active && InBlock(r, c, bs[j].centerRow, bs[j].centerCol, 2)
    ensures At(ApplyAll(s, rows, cols, BurstTickWrites(bs) + RetireWrites(BurstSteps(bs))), rows, cols, r, c) == Background
  {
    ApplyAllConcat(s, rows, cols, BurstTickWrites(bs), RetireWrites(BurstSteps(bs)));
    RetireWritesClear(ApplyAll(s, rows, cols, BurstTickWrites(bs)), rows, cols, BurstSteps(bs), j, r, c);
  }

  /** An in-place tick touches only the 5x5 blocks around the bursts of the
      batch: every other cell keeps its colour through the update pass ... */
  lemma {:induction false} BurstTickLocality(s: seq<int>, rows: int, cols: int, bs: seq<Burst>, r: int, c: int)
    requires |s| == Total(rows, cols) && InBounds(rows, cols, r, c)
    requires forall j :: 0 <= j < |bs| ==> !InBlock(r, c, bs[j].centerRow, bs[j].centerCol, 2)
    ensures At(ApplyAll(s, rows, cols, BurstTickWrites(bs)), rows, cols, r, c) == At(s, rows, cols, r, c)
    decreases |bs|
  {
    if bs != [] {
      var n := |bs| - 1;
      assert forall j :: 0 <= j < n ==> bs[..n][j] == bs[j];
      BurstTickLocality(s, rows, cols, bs[..n], r, c);
      ApplyAllConcat(s, rows, cols, BurstTickWrites(bs[..n]), BurstWrites(bs[n]));
      BurstFootprint(ApplyAll(s, rows, cols, BurstTickWrites(bs[..n])), rows, cols, bs[n], r, c);
    }
  }

  /** ... and through the pruning pass. */
  lemma {:induction false} RetireLocality(s: seq<int>, rows: int, cols: int, bs: seq<Burst>, r: int, c: int)
    requires |s| == Total(rows, cols) && InBounds(rows, cols, r, c)
    requires forall j :: 0 <= j < |bs| ==> !InBlock(r, c, bs[j].centerRow, bs[j].centerCol, 2)
    ensures At(ApplyAll(s, rows, cols, RetireWrites(bs)), rows, cols, r, c) == At(s, rows, cols, r, c)
    decreases |bs|
  {
    if bs != [] {
      var n := |bs| - 1;
      assert forall j :: 0 <= j < n ==> bs[..n][j] == bs[j];
      RetireLocality(s, rows, cols, bs[..n], r, c);
      ApplyAllConcat(s, rows, cols, RetireWrites(bs[..n]), RetireOne(bs[n]));
      RetireOneEffect(ApplyAll(s, rows, cols, RetireWrites(bs[..n])), rows, cols, bs[n], r, c);
    }
  }

  /** Both passes together: cells away from every burst keep their colour. */
  lemma InPlaceTickLocality(s: seq<int>, rows: int, cols: int, bs: seq<Burst>, r: int, c: int)
    requires |s| == Total(rows, cols) && InBounds(rows, cols, r, c)
    requires forall j :: 0 <= j < |bs| ==> !InBlock(r, c, bs[j].centerRow, bs[j].centerCol, 2)
    ensures At(ApplyAll(s, rows, cols, BurstTickWrites(bs) + RetireWrites(BurstSteps(bs))), rows, cols, r, c)
            == At(s, rows, cols, r, c)
  {
    ApplyAllConcat(s, rows, cols, BurstTickWrites(bs), RetireWrites(BurstSteps(bs)));
    BurstTickLocality(s, rows, cols, bs, r, c);
    RetireLocality(ApplyAll(s, rows, cols, BurstTickWrites(bs)), rows, cols, BurstSteps(bs), r, c);
  }
}

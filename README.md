# pixel-experiment animation engine in Dafny

This project models the animation engine of `script.js`. The page is a grid of small square cells. Two animations draw on it.

- **Radiating explosions.** Fourteen exploding pixels leave the grid centre along arcs. Each pixel is drawn as a bright cell inside a dim 3x3 glow; every frame it erases that block and redraws it at its new position.
- **In-place explosions.** Six bursts sit at spread-out positions. Each burst lights a pattern that grows from one cell to a cross to a full 3x3 block, then fades out.

The model has the following layers.

- **Colours.** A cell's colour is modelled as its grey level: `#191919` background, `#eeeeee` bright and `#3a3a3a` glow. Every style write the engine makes to a cell becomes the write of one grey level.
- **Canvas.** The cell elements become a row-major sequence of grey levels. A `Write` is one `illuminatePixel` call; `ApplyAll` performs a list of writes in order, and the last write to a cell wins.
- **Grid.** `Grid.PixelGrid` stores the cells in an `array`. Its write primitives are methods, each proved equal to the `Apply`/`ApplyAll` of its writes.
- **Radiating.** The class `Radiating.ExplodingPixel` has fields the methods update. `Radiating.Spark` is a value view of those fields, and `SparkStep`/`SparkWrites` specify one `update`.
- **InPlace.** The class `InPlace.InPlaceExplosion` has a value view `InPlace.Burst`. `BurstStep`/`BurstWrites` specify one `update`: its phase schedule, fade and pattern.
- **Distribution.** `generateDistributedPositions` is a loop proved against `DistributedPosition`.
- **Batch.** Pure specifications of one animation frame over a whole batch: update every member, paint, then drop the retired ones. It also holds lemmas about many frames.
- **Scheduler.** The class `Scheduler.Scene` holds the page's globals: the grid, the radiating batch and the in-place batch. A pending `requestAnimationFrame` handle is modelled as a boolean. Each frame callback (`animate`) is one method call. The trigger guards and the resize handler are methods of the class.

Browser input is passed in as parameters.

- Each `Math.random()` draw arrives as a real in [0, 1).
- The rounded position an exploding pixel's arc reaches in a frame is an input to `update`.
- The viewport size is an input to the grid constructor and to `Resize`.

Some behaviours of the code are easy to misread; the model follows the code:

- **Bright colour table.** The top bin of the table starts at intensity 0.9 (`>= 0.9`).
- **Fade timing.** The fade stays at exactly 1.0 through frame 12, because frame 12 computes a fade progress of 0. It never reaches 0 while a pattern is drawn: the last drawn fade is 1/24, on frame 35. On frame 36 the burst retires but paints the frame-35 pattern once more. `InPlace.FadeProfile` and `InPlace.BurstFootprint` state this.
- **createExplosion cleanup.** The cleanup pass in `createExplosion` clears nothing. When it runs, retired pixels have already been filtered out of the list, and the list it walks is then replaced. The footprints an earlier batch left on the grid therefore survive a new trigger. `Scheduler.ReseedKeepsOldFootprints` and `Scheduler.Scene.SeedExplosion` state this.
- **Clamp in generateDistributedPositions.** The `Math.min` against `pixelsPerColumn - margin` never takes effect, because the lattice always fits (`Distribution.LatticeCovers`).
- **Margin on small grids.** On small grids a position can fall outside the margin. For six bursts on a 12x12 grid, position 0 can land on row 1 (`Distribution.SmallGridEscapesMargin`).
- **Batch lifetime.** A batch of six bursts with 3-frame stagger is drawn for 52 frames (`Batch.SixBurstsLast52Ticks`).

## Model

| member | source | states |
|---|---|---|
| Colors.FadedBright | script.js:393-407 | the bright grey level lies between background and `#eeeeee`; it is background exactly when the intensity is <= 0 and full bright exactly when the intensity is >= 0.9 |
| Colors.FadedGlow | script.js:410-424 | the glow grey level lies between background and `#3a3a3a` and never exceeds the bright level; it is strictly darker whenever the intensity is positive; it is background exactly below 0.1 and full glow exactly from 0.9 |
| Colors.FadeTablesMonotonic | script.js:393-424 | both colour tables never get darker as the intensity grows |
| Canvas.PixelAt | script.js:61-67 | `getPixelAt` yields a slot exactly for in-bounds cells, and that slot is `row * pixelsPerRow + col` inside the allocated grid |
| Canvas.PixelAtSlot | script.js:43-67 | the slot `getPixelAt` returns is the one grid creation filled for that (row, col), and distinct cells get distinct slots |
| Canvas.SlotCell | script.js:47-49 | each slot i is filled for the cell (i / pixelsPerRow, i % pixelsPerRow), which `getPixelAt` maps back to i |
| Canvas.ApplyAt | script.js:70-75 | one write changes the cell it addresses and no other cell |
| Canvas.ApplyAllAt | script.js:70-75 | after a list of writes, every in-bounds cell shows the colour of the last write addressed to it, or its old colour if no write addressed it |
| Canvas.ApplyAllConcat | script.js:70-75 | two write lists performed one after the other equal their concatenation |
| Canvas.PaintedLast | script.js:70-75 | a cell shows the colour of the last write to it |
| Canvas.PaintedUniform | script.js:70-75 | writes of a single colour leave that colour on every cell they address |
| Canvas.ApplyAllOffGrid | script.js:61-75 | writes that all address cells outside the grid change nothing |
| Canvas.AdjacentShape | script.js:89-99 | the eight neighbour writes address exactly the 3x3 block around the cell, without its centre |
| Canvas.FootprintShape | script.js:86-117 | the glow and the clear footprints each address exactly the 3x3 block around the cell |
| Canvas.GlowEffect | script.js:86-100 | after `illuminateWithGlow` the cell is bright, its in-bounds neighbours are `#3a3a3a`, and every other cell is unchanged |
| Canvas.ClearEffect | script.js:103-117 | after `clearIllumination` every in-bounds cell of the 3x3 block is background, and every other cell is unchanged |
| Canvas.GlowThenClear | script.js:86-117 | `clearIllumination` at a cell undoes `illuminateWithGlow` at that cell: the block is background and the rest of the grid is as it was before the glow |
| Grid.CellsAlong | script.js:21-30 | the cell count along an extent is the largest n for which n cells of 5 px, n - 1 gaps of 3 px and 3 px padding on both sides fit |
| Grid.PixelGrid.constructor | script.js:12-58 | the grid has `CellsAlong(width)` columns and `CellsAlong(height)` rows, `rows * cols` slots, all unlit |
| Grid.PixelGrid.IlluminatePixel | script.js:70-75 | the cells become `Apply` of the write |
| Grid.PixelGrid.ResetPixel | script.js:78-83 | the cells become `Apply` of a background write |
| Grid.PixelGrid.IlluminateEach | script.js:89-99 | the cells become `ApplyAll` of the write list, performed in order |
| Grid.PixelGrid.IlluminateWithGlow | script.js:86-100 | the cells become `ApplyAll` of the glow footprint |
| Grid.PixelGrid.ClearIllumination | script.js:103-117 | the cells become `ApplyAll` of the clear footprint |
| Radiating.SparkUpdateEffect | script.js:146-183 | one update of an active pixel clears its old 3x3 footprint to background. If the new rounded position is on the canvas, that position becomes bright and its neighbours glow. Every cell outside both blocks is unchanged, and a retired pixel changes nothing |
| Radiating.SparkRetirement | script.js:173-187 | an update retires a pixel exactly when its new rounded position lies outside the canvas widened by three cells, and a glow there would reach no grid cell; otherwise the pixel moves to that position, one frame and one speed step further |
| Radiating.CleanupEffect | script.js:189-193 | `cleanup` of a retired pixel clears the 3x3 block of its last position and leaves every other cell unchanged; while the pixel is active it changes nothing |
| Radiating.SparkRunFrames | script.js:146-187 | retirement is permanent. The frame count grows by at most one per update. A pixel whose path stays on the canvas stays active and counts every frame |
| Radiating.ExplodingPixel.constructor | script.js:125-144 | the pixel starts at the given cell, active, at distance 0 and frame 0, with speed `scale * 1.6 * (0.8 + draw * 0.4)` and arc radius `(draw - 0.5) * 6` in [-3, 3) |
| Radiating.ExplodingPixel.Update | script.js:146-183 | the new state is `SparkStep` of the old one; the grid receives exactly `SparkWrites` |
| Radiating.ExplodingPixel.Cleanup | script.js:189-193 | the grid receives exactly `CleanupWrites` of the current state: the clear footprint of the current position for a retired pixel, and no writes while the pixel is active |
| InPlace.PatternGrowth | script.js:313-325 | the patterns have 1, 5 and 9 cells; each starts at the centre and extends the one before |
| InPlace.PatternWithin | script.js:313-325 | every pattern stays within one cell of the centre |
| InPlace.PatternDistinct | script.js:313-325 | no pattern lists a cell twice |
| InPlace.PatternCovers | script.js:318-325 | the full pattern covers the whole 3x3 block |
| InPlace.PatternWritesWithin | script.js:375-390 | painting a pattern of offsets within one cell of the centre writes only cells within two of the centre, and only in the bright or the glow colour |
| InPlace.ClearSpanEffect | script.js:441-447 | `clearIllumination` at consecutive cells of one row sets the band one cell wider on every side to background and leaves the rest unchanged |
| InPlace.ClearRowsEffect | script.js:439-448 | `clearIllumination` at every cell of a rectangle, row by row, sets the rectangle widened by one cell on every side to background and leaves the rest unchanged |
| InPlace.ClearPatternEffect | script.js:439-448 | `clearCurrentPattern` (a `clearIllumination` at each cell of the 3x3 block) sets the 5x5 block around the centre to background and leaves the rest unchanged |
| InPlace.FadeProfile | script.js:341-360 | in frames 0-35 the fade lies in (0, 1]; it is exactly 1 through frame 12; it strictly decreases after frame 12; it ends at 1/24 on frame 35 |
| InPlace.BurstSchedule | script.js:329-371 | during the delay an update only counts up and paints nothing. In frames 0-35 it selects phase 0, 1 or 2 by frame number. On frame 36 the burst retires and keeps the phase and fade of frame 35 |
| InPlace.RunRetired | script.js:330 | a retired burst never changes again |
| InPlace.BurstLifetime | script.js:329-371 | a burst at frame f <= 36 stays active for exactly 36 - f more updates, and its frame count stops one update after it retires |
| InPlace.DelayedLifetime | script.js:329-371 | a burst started with a delay of d frames is still active after n updates exactly when n < d + 37 |
| InPlace.DisplayEffect | script.js:375-390 | `displayCurrentPattern` changes no cell more than two away from the centre, and every cell it changes shows the bright or the glow colour of the current fade |
| InPlace.LitCellPainted | script.js:383-389 | a lit pattern cell paints its own 3x3 block: bright in the middle, glow around it |
| InPlace.LastCellWins | script.js:375-390 | the last pattern cell decides its own 3x3 block, whatever came before |
| InPlace.CentreColour | script.js:375-390 | the centre shows the bright colour only in phase 0; in the cross and full phases the later cells' glow covers it |
| InPlace.DisplayThenClear | script.js:375-448 | clearing after a display leaves every cell within two of the centre background, and leaves every other cell as it was before the display |
| InPlace.BurstFootprint | script.js:329-371 | every update keeps to the burst's 5x5 footprint. An update of a retired or waiting burst changes nothing. The update that retires the burst paints the frame-35 pattern once more |
| InPlace.InPlaceExplosion.constructor | script.js:303-327 | a new burst is active, at frame 0, phase 0, full fade, centred on the given cell |
| InPlace.InPlaceExplosion.Delay | script.js:504-505 | the burst's frame count becomes `-startDelay`, and nothing else changes |
| InPlace.InPlaceExplosion.Update | script.js:329-371 | the new state is `BurstStep` of the old one; the grid receives exactly `BurstWrites` |
| InPlace.InPlaceExplosion.DisplayCurrentPattern | script.js:375-390 | the grid receives exactly the pattern writes of the current phase and fade |
| InPlace.InPlaceExplosion.IlluminateAdjacentDim | script.js:427-437 | the grid receives exactly the eight neighbour writes of the given colour |
| InPlace.InPlaceExplosion.ClearCurrentPattern | script.js:439-448 | the grid receives exactly the `clearIllumination` footprints of the 3x3 block around the centre, row by row and left to right |
| InPlace.InPlaceExplosion.ClearPatternRow | script.js:442-446 | the grid receives exactly the `clearIllumination` footprints of the three cells of one row of the 3x3 block, left to right |
| InPlace.InPlaceExplosion.Cleanup | script.js:454-456 | the grid receives exactly the writes of `clearCurrentPattern` |
| Distribution.LeastSquareFrom | script.js:464 | the result is the least k >= start whose square, scaled by the row count, reaches the target |
| Distribution.LatticeCols | script.js:464 | `gridCols` is the least k with k^2 >= count * cols / rows, that is `ceil(sqrt(count * cols / rows))` in exact arithmetic; it is 0 exactly when count is 0 |
| Distribution.LatticeRows | script.js:465 | `gridRows` is the least r with r * gridCols >= count |
| Distribution.JitterBounds | script.js:483-484 | `floor(draw * (hi - lo)) + lo` lies in [lo, hi) when lo < hi and equals lo when lo == hi |
| Distribution.GenerateDistributedPositions | script.js:460-490 | the method returns `count` positions, and position i is `DistributedPosition` of its own two draws |
| Distribution.LatticeCovers | script.js:464-479 | position i's lattice cell lies inside the lattice, and its upper bounds are never above the grid margins, so the `Math.min` clamp never takes effect |
| Distribution.LatticeCellsDistinct | script.js:474-475 | distinct indices use distinct lattice cells |
| Distribution.RowInCell | script.js:474-483 | when position i's row range is non-empty, its row lies inside its lattice row inset by the margin, and inside the grid's row margins |
| Distribution.ColInCell | script.js:475-484 | when position i's column range is non-empty, its column lies inside its lattice column inset by the margin, and inside the grid's column margins |
| Distribution.PositionInCell | script.js:473-487 | when its lattice cell has room, position i lies inside its lattice cell, inset by the margin, and inside the grid's margins |
| Distribution.RoomyWhenCellsLarge | script.js:467-479 | lattice cells more than twice the margin wide and high leave room for every position |
| Distribution.PositionsDistinct | script.js:473-487 | two positions with room in their lattice cells never coincide, whatever the draws |
| Distribution.SmallGridEscapesMargin | script.js:460-490 | for six bursts on a 12x12 grid, position 0 can land on row 1, outside the margin |
| Batch.KeepMembers | script.js:517-523 | the `filter` of both batches (also script.js:252) keeps exactly the flagged members and never grows the list; it is empty exactly when no flag is set |
| Batch.SparkTickSurvivors | script.js:247-259 | after one radiating frame the survivors are exactly the updates of the old active pixels whose new position stayed on the canvas: every survivor is such an update, and every such update survives. The batch never grows, and it is empty exactly when every pixel retired |
| Batch.RetireOneEffect | script.js:517-523 | the retirement pass writes nothing for an active burst, and clears the 5x5 block of a retired one |
| Batch.LiveBurstsMembers | script.js:517-523 | the pruned batch holds only active bursts, keeps every active burst, never grows, and is empty exactly when no burst is active |
| Batch.PruneCommutes | script.js:512-532 | pruning retired bursts earlier does not change which bursts remain later, because retired bursts never change |
| Batch.TicksAreRuns | script.js:512-532 | n in-place frames leave exactly the bursts whose own n-update runs are still active |
| Batch.BatchDuration | script.js:493-532 | a batch of `k` staggered bursts is non-empty after n frames exactly when n < 3 * (k - 1) + 37 |
| Batch.SixBurstsLast52Ticks | script.js:497-532 | the usual batch of six bursts is still drawn after 51 frames and is gone after 52 |
| Batch.BurstTicksLast | script.js:512-532 | frame n + 1 is one more in-place frame after frame n |
| Batch.SparkTickLocality | script.js:247-259 | a radiating frame changes no cell that is farther than one from every old and every new pixel position |
| Batch.RetiredBlockCleared | script.js:512-523 | when a burst retires in a frame, its 5x5 block ends that frame as background |
| Batch.InPlaceTickLocality | script.js:512-523 | an in-place frame changes no cell farther than two from every burst centre |
| Scheduler.KeepDistinct | script.js:517-523 | filtering (here and at script.js:252) a list of distinct objects keeps them distinct |
| Scheduler.KeepSparks | script.js:252 | the states of the filtered pixel list are the filtered states |
| Scheduler.KeepBursts | script.js:517-523 | the states of the filtered burst list are the filtered states |
| Scheduler.ReseedKeepsOldFootprints | script.js:200-244 | the first frame of a new radiating batch changes no cell farther than one from the centre and from every first-frame position, so glow left anywhere else by an earlier batch survives |
| Scheduler.Scene.constructor | script.js:6-58 | page load: `createPixelGrid` and the globals (also script.js:197-198 and 297-299); the page starts with a fresh unlit grid, both batches empty and no frame pending |
| Scheduler.Scene.AnimateRadiating | script.js:247-259 | every pixel updates with its own next position; the batch becomes the survivors, in order; the grid receives the writes of all updates in list order; a frame is pending exactly while pixels remain; the in-place state is untouched |
| Scheduler.Scene.SeedExplosion | script.js:200-240 | the cleanup pass leaves the grid unchanged. The batch becomes fourteen fresh pixels at the grid centre with scale 1.5, and the last six have doubled arcs |
| Scheduler.Scene.StartExplosionAnimation | script.js:246-267 | a pending frame is cancelled and one radiating frame runs |
| Scheduler.Scene.CreateExplosion | script.js:200-244 | the new batch is the first frame of the fourteen seeded pixels; the grid receives that frame's writes on top of whatever the old batch left |
| Scheduler.Scene.TriggerExplosion | script.js:270-274 | a non-empty grid gets a new batch as `CreateExplosion` describes; an empty grid changes nothing |
| Scheduler.Scene.AnimateInPlace | script.js:512-532 | every burst updates, then the retired ones are cleared and dropped; the busy flag and the pending frame stay set exactly while bursts remain; the radiating state is untouched |
| Scheduler.Scene.CreateInPlaceExplosions | script.js:493-535 | when a batch is running nothing changes. Otherwise the batch becomes the first frame of six bursts at the distributed positions, with delays 0, 3, 6, 9, 12 and 15, and the grid receives that frame's writes |
| Scheduler.Scene.TriggerInPlaceExplosion | script.js:538-542 | only a non-empty grid with no batch running gets a new in-place batch |
| Scheduler.Scene.Resize | script.js:280-288 | the grid is rebuilt unlit for the new viewport; the radiating batch is dropped with its pending frame; the in-place state is kept |
| Scheduler.NewBatch | script.js:497-508 | the method returns six fresh, distinct bursts: `Staggered` of the distributed positions |
| Scheduler.StaggeredBursts | script.js:500-508 | burst i is a fresh burst at position i with frame count `-3 * i` |
| Scheduler.InPlacePass | script.js:514-523 | the grid receives the update writes and then the retirement clears; the kept list is the active bursts in order |
| Scheduler.UpdateBursts | script.js:514 | each burst takes one `BurstStep`; the grid receives their writes in list order |
| Scheduler.PruneBursts | script.js:517-523 | the kept list is exactly the active bursts in order, and the grid receives the `cleanup` writes of each retired burst in list order |
| Scheduler.RadiatingPass | script.js:249-252 | every pixel updates with its next position; the kept list is the survivors in order |
| Scheduler.UpdatePixels | script.js:249 | each pixel takes one `SparkStep`; the grid receives their writes in list order |
| Scheduler.ActivePixels | script.js:252 | the kept list is exactly the active pixels in order |
| Scheduler.SeedPixels | script.js:221-240 | the method returns fourteen fresh pixels at the centre with scale 1.5; the last six have doubled arc radii |

## Left out

- Browser APIs are not modelled: DOM element creation, CSS style writes, `requestAnimationFrame`, `cancelAnimationFrame` and the event listeners. Cells are grey levels, and a pending frame handle is a boolean. Each frame callback is one method call, and the caller decides how frames of the two animations interleave.
- The exploding pixel's trigonometric trajectory (script.js:153-169) is not modelled, because it is floating-point geometry. The rounded position the arc reaches in each frame is an input to `Update`. Speed and arc radius are set as the constructor computes them, but they do not drive the motion in the model.
- The eight direction vectors and the random angles of `createExplosion` (script.js:212-232) are left out for the same reason. They only feed the trajectory.
- `Math.random()` is not modelled. Each draw is a real parameter in [0, 1).
- `initializeAnimation` (script.js:549-599) is not modelled. It picks one of the two animations from the page's file name and title, then adds a `click` listener on `document` that starts it and triggers it once after one second (script.js:579-581, 587-589, 595-597). The model provides both triggers directly, and the caller chooses which one to call.
- The `startDelay` field of an in-place explosion is not stored. It is read only once (script.js:505), to set `frameCount` to its negation, and that effect is modelled (`InPlace.InPlaceExplosion.Delay`).
- Floating-point `Math.ceil(Math.sqrt(...))` in `generateDistributedPositions` is not modelled. It is replaced by the exact least k with k * k * rows >= count * cols, which can differ from the float result only by rounding.
- The fade intensity and the pixel speeds are exact reals, not IEEE doubles.
- Colours are grey levels only. The grid's initial look is taken to be the background colour `#191919` set on every cell.
- Distribution.GenerateDistributedPositions: requires a non-empty grid (`rows > 0 && cols > 0`). On an empty grid the source divides by zero and produces NaN positions. The callers only reach it when the grid is non-empty.
- The loops of `clearCurrentPattern` and of each `animate` are split into helper methods (`ClearPatternRow`, `UpdateBursts`, `PruneBursts`, `UpdatePixels`, `ActivePixels`). Together these helpers perform the same writes in the same order as the source.

/** The pixel grid: `rows` (pixelsPerColumn) by `cols` (pixelsPerRow) cell
    slots holding grey levels, with the write primitives of the engine. */
module Grid {
  import opened Colors
  import opened Canvas

  /** A cell is 5 px wide with a 3 px gap; the container has 3 px padding. */
  const PixelSize: int := 5
  const Gap: int := 3

  /** How many cells fit along a viewport extent: the largest n such that
      n cells, the n - 1 gaps between them and the padding on both sides
      fit into `extent` pixels. */
  function CellsAlong(extent: int): (n: int)
    ensures PixelSize * n + Gap * (n - 1) + 2 * Gap <= extent
    ensures extent < PixelSize * (n + 1) + Gap * n + 2 * Gap
  {
    var available := extent - Gap * 2;
    (available + Gap) / (PixelSize + Gap)
  }

  class PixelGrid {
    /** pixelsPerColumn */
    const rows: int
    /** pixelsPerRow */
    const cols: int
    /** pixelElements, each reduced to its background colour */
    const cells: array<int>

    ghost predicate Valid() {
      cells.Length == Total(rows, cols)
    }

    /** `createPixelGrid` for a viewport of the given size: every cell
        starts unlit. */
    constructor (viewportWidth: int, viewportHeight: int)
      ensures Valid() && fresh(cells)
      ensures cols == CellsAlong(viewportWidth) && rows == CellsAlong(viewportHeight)
      ensures forall i :: 0 <= i < cells.Length ==> cells[i] == Background
    {
      var pixelsPerRow := CellsAlong(viewportWidth);
      var pixelsPerColumn := CellsAlong(viewportHeight);
      var totalPixels := Total(pixelsPerColumn, pixelsPerRow);
      cols, rows := pixelsPerRow, pixelsPerColumn;
      cells := new int[totalPixels];
      new;
      for i := 0 to totalPixels
        invariant forall j :: 0 <= j < i ==> cells[j] == Background
      {
        cells[i] := Background;
      }
    }

    /** `illuminatePixel` */
    method IlluminatePixel(row: int, col: int, color: int)
      requires Valid()
      modifies cells
      ensures cells[..] == Apply(old(cells[..]), rows, cols, Write(row, col, color))
    {
      var pixel := PixelAt(rows, cols, row, col);
      if pixel.Some? {
        cells[pixel.value] := color;
      }
    }

    /** `resetPixel` */
    method ResetPixel(row: int, col: int)
      requires Valid()
      modifies cells
      ensures cells[..] == Apply(old(cells[..]), rows, cols, Write(row, col, Background))
    {
      var pixel := PixelAt(rows, cols, row, col);
      if pixel.Some? {
        cells[pixel.value] := Background;
      }
    }

    /** `illuminatePixel` on each write of a list, in order (the
        `forEach` over the neighbour list). */
    method IlluminateEach(ws: seq<Write>)
      requires Valid()
      modifies cells
      ensures cells[..] == ApplyAll(old(cells[..]), rows, cols, ws)
    {
      for k := 0 to |ws|
        invariant cells[..] == ApplyAll(old(cells[..]), rows, cols, ws[..k])
      {
        ApplyAllSnoc(old(cells[..]), rows, cols, ws, k);
        IlluminatePixel(ws[k].row, ws[k].col, ws[k].color);
      }
      assert ws[..|ws|] == ws;
    }

    /** `illuminateWithGlow` */
    method IlluminateWithGlow(row: int, col: int)
      requires Valid()
      modifies cells
      ensures cells[..] == ApplyAll(old(cells[..]), rows, cols, GlowWrites(row, col))
    {
      IlluminatePixel(row, col, Bright);
      IlluminateEach(Adjacent(row, col, Glow));
      ApplyAllConcat(old(cells[..]), rows, cols, [Write(row, col, Bright)], Adjacent(row, col, Glow));
    }

    /** `clearIllumination` */
    method ClearIllumination(row: int, col: int)
      requires Valid()
      modifies cells
      ensures cells[..] == ApplyAll(old(cells[..]), rows, cols, ClearWrites(row, col))
    {
      ResetPixel(row, col);
      IlluminateEach(Adjacent(row, col, Background));
      ApplyAllConcat(old(cells[..]), rows, cols, [Write(row, col, Background)], Adjacent(row, col, Background));
    }
  }
}

/** The grid geometry the generator and the tools share: the grid size and the
    square size (the source's `GRID_WIDTH`, `GRID_HEIGHT` and `SCALE`, defined in a
    constants file that is not part of this model and therefore parameters here),
    cell lookup with JavaScript's optional chaining, and the pixel under a cell. */
module Board {
  import opened Common
  import opened Color
  import opened State

  datatype Dims = Dims(width: nat, height: nat, scale: real)

  /** A square has a positive size. */
  predicate ValidDims(d: Dims) {
    d.scale > 0.0
  }

  predicate InBounds(d: Dims, p: Pos) {
    0 <= p.0 < d.width && 0 <= p.1 < d.height
  }

  /** Every position of the grid. */
  function AllCells(d: Dims): (all: set<Pos>)
    ensures forall p :: p in all <==> InBounds(d, p)
  {
    set x, y | 0 <= x < d.width && 0 <= y < d.height :: (x, y)
  }

  /** `cells[y]?.[x]`: the cell at `p`, or `None` (`undefined`) off the array. */
  function CellAt(cells: Grid, p: Pos): (c: Option<Cell>)
    ensures c.Some? <==> 0 <= p.1 < |cells| && 0 <= p.0 < |cells[p.1]|
  {
    if 0 <= p.1 < |cells| && 0 <= p.0 < |cells[p.1]| then Some(cells[p.1][p.0]) else None
  }

  /** The buffer holds exactly one RGBA pixel per cell. */
  predicate FullBuffer(d: Dims, pixels: seq<Byte>) {
    |pixels| == 4 * (d.width * d.height)
  }

  /** Pixel `(y * GRID_WIDTH + x)` of a full buffer: bytes `index`, `index + 1`,
      `index + 2` with `index = (y * GRID_WIDTH + x) * 4`, all in range. */
  function PixelAt(d: Dims, pixels: seq<Byte>, p: Pos): (c: Rgb)
    requires FullBuffer(d, pixels) && InBounds(d, p)
    ensures IsByteColor(c)
  {
    var k := CellIndex(d.width, d.height, p.0, p.1);
    RawPixel(pixels, k)
  }

  /** The bytes the passes read for cell (x, y), at `(y * GRID_WIDTH + x) * 4`,
      are in range and form pixel `y * GRID_WIDTH + x`. */
  lemma PixelBytes(d: Dims, pixels: seq<Byte>, x: nat, y: nat)
    requires FullBuffer(d, pixels) && x < d.width && y < d.height
    ensures (y * d.width + x) * 4 + 2 < |pixels|
    ensures var index := (y * d.width + x) * 4;
      Rgb(pixels[index], pixels[index + 1], pixels[index + 2]) == RawPixel(pixels, y * d.width + x)
  {
    RowEnd(d.width, d.height, y);
  }

  /** A grid has `height` rows of `width` cells. */
  predicate Shaped(d: Dims, cells: Grid) {
    |cells| == d.height && forall y :: 0 <= y < |cells| ==> |cells[y]| == d.width
  }
}

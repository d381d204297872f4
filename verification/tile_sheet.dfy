/** The tile sheet generator of the renderer (AttoRendering.h and
    AttoRendering.cpp): grey-scale tiles are collected, laid out on a square
    grid of equal cells and drawn as RGBA pixels into one atlas image. */
module TileSheet {
  import opened Wrappers
  import opened AttoMath
  import opened Grid

  /** Bytes one tile can hold (its data is a `FixedList<byte, 2048>`). */
  const TILE_DATA_CAPACITY: nat := 2048

  /** Bytes per atlas pixel: red, green, blue, alpha. */
  const PIXEL_STRIDE_BYTES: nat := 4

  /** One tile: its size, where GenerateTiles placed it, its grey bytes row by
      row, and its texture coordinates. */
  datatype Tile = Tile(width: u32, height: u32, xPos: nat, yPos: nat, data: seq<byte>,
                       uv0: Vec2, uv1: Vec2, boundingUV0: Vec2, boundingUV1: Vec2)

  /** A tile as the list allocates it, before AddTile fills it in. */
  const EMPTY_TILE := Tile(0, 0, 0, 0, [], ZERO, ZERO, ZERO, ZERO)

  /** A tile holds one byte per pixel, within the capacity of its fixed list. */
  predicate WellFormed(tile: Tile) {
    |tile.data| == tile.width * tile.height && |tile.data| < TILE_DATA_CAPACITY
  }

  /////////////////////////////////////////////////////////////////////////////
  // Vertical flip

  /** The rows of `data` (each `width` bytes, `height` of them) in reverse
      order: the first row goes last. */
  function Flipped(data: seq<byte>, width: nat, height: nat): seq<byte>
    decreases height
  {
    if height == 0 || |data| < width then []
    else Flipped(data[width ..], width, height - 1) + data[.. width]
  }

  lemma {:induction false} FlippedLength(data: seq<byte>, width: nat, height: nat)
    requires |data| == RowStart(height, width)
    ensures |Flipped(data, width, height)| == |data|
    decreases height
  {
    if height > 0 {
      FlippedLength(data[width ..], width, height - 1);
    }
  }

  /** Byte x of row y of the flipped tile is byte x of row height - 1 - y of
      the original: the index formula of FlipTile's loop. */
  lemma {:induction false} FlippedAt(data: seq<byte>, width: nat, height: nat, y: nat, x: nat)
    requires |data| == RowStart(height, width) && y < height && x < width
    ensures RowStart(y, width) + x < |data| && RowStart(height - 1 - y, width) + x < |data|
    ensures |Flipped(data, width, height)| == |data|
    ensures Flipped(data, width, height)[RowStart(y, width) + x] == data[RowStart(height - 1 - y, width) + x]
    decreases height
  {
    FlippedLength(data, width, height);
    CellInRows(width, height, y, x);
    CellInRows(width, height, height - 1 - y, x);
    var rest := data[width ..];
    FlippedLength(rest, width, height - 1);
    if y < height - 1 {
      FlippedAt(rest, width, height - 1, y, x);
      assert RowStart(height - 1 - y, width) == width + RowStart(height - 2 - y, width);
    }
  }

  /** Flipping a tile with one more row at the bottom puts that row on top. */
  lemma {:induction false} FlippedWithLastRow(rows: seq<byte>, last: seq<byte>, width: nat, height: nat)
    requires height > 0 && |rows| == RowStart(height - 1, width) && |last| == width
    ensures Flipped(rows + last, width, height) == last + Flipped(rows, width, height - 1)
    decreases height
  {
    if height == 1 {
      assert rows == [];
      assert (rows + last)[width ..] == [];
      assert (rows + last)[.. width] == last;
    } else {
      assert (rows + last)[width ..] == rows[width ..] + last;
      assert (rows + last)[.. width] == rows[.. width];
      FlippedWithLastRow(rows[width ..], last, width, height - 1);
    }
  }

  /** Flipping twice gives back the original tile. */
  lemma FlipTwice(data: seq<byte>, width: nat, height: nat)
    requires |data| == width * height
    ensures |Flipped(data, width, height)| == |data|
    ensures Flipped(Flipped(data, width, height), width, height) == data
  {
    RowStartIsProduct(height, width);
    FlippedLength(data, width, height);
    FlipTwiceRows(data, width, height);
  }

  lemma {:induction false} FlipTwiceRows(data: seq<byte>, width: nat, height: nat)
    requires |data| == RowStart(height, width)
    ensures Flipped(Flipped(data, width, height), width, height) == data
    decreases height
  {
    if height > 0 {
      var rest := data[width ..];
      FlippedLength(rest, width, height - 1);
      FlipTwiceRows(rest, width, height - 1);
      FlippedWithLastRow(Flipped(rest, width, height - 1), data[.. width], width, height);
      assert data == data[.. width] + rest;
    }
  }

  /////////////////////////////////////////////////////////////////////////////
  // The size check of AddTile as written

  /** The tile AddTile stores when its size is computed as a u32 product,
      which wraps modulo 2^32 before the capacity check; None when the check
      fails. The caller supplies at least that many bytes. */
  function AddTileAsWritten(width: u32, height: u32, data: seq<byte>): (r: Option<Tile>)
    requires (width * height) % 0x1_0000_0000 <= |data|
    ensures r.Some? <==> (width * height) % 0x1_0000_0000 < TILE_DATA_CAPACITY
    ensures r.Some? ==> r.value.width == width && r.value.height == height && |r.value.data| < TILE_DATA_CAPACITY
  {
    var size := (width * height) % 0x1_0000_0000;
    if size < TILE_DATA_CAPACITY then Some(EMPTY_TILE.(width := width, height := height, data := data[.. size]))
    else None
  }

  /** A 65536 by 65536 tile passes the wrapped check with no bytes at all,
      and the tile stored does not hold one byte per pixel. */
  lemma WrappedSizeAdmitsHugeTile()
    ensures var r := AddTileAsWritten(65536, 65536, []);
      r.Some? && |r.value.data| == 0 && !WellFormed(r.value)
  {
    assert 65536 * 65536 == 0x1_0000_0000;
  }

  /////////////////////////////////////////////////////////////////////////////
  // Layout

  /** The widest tile's width (0 for no tiles). */
  function MaxWidth(tiles: seq<Tile>): nat {
    if tiles == [] then 0
    else var m := MaxWidth(tiles[.. |tiles| - 1]);
      if m < tiles[|tiles| - 1].width then tiles[|tiles| - 1].width else m
  }

  /** The tallest tile's height (0 for no tiles). */
  function MaxHeight(tiles: seq<Tile>): nat {
    if tiles == [] then 0
    else var m := MaxHeight(tiles[.. |tiles| - 1]);
      if m < tiles[|tiles| - 1].height then tiles[|tiles| - 1].height else m
  }

  /** The cell size bounds every tile, and is the size of some tile when
      there is one. */
  lemma {:induction false} CellFitsEveryTile(tiles: seq<Tile>)
    ensures forall t :: 0 <= t < |tiles| ==> tiles[t].width <= MaxWidth(tiles) && tiles[t].height <= MaxHeight(tiles)
    ensures |tiles| > 0 ==> (exists t :: 0 <= t < |tiles| && tiles[t].width == MaxWidth(tiles))
    ensures |tiles| > 0 ==> (exists t :: 0 <= t < |tiles| && tiles[t].height == MaxHeight(tiles))
    ensures |tiles| == 0 ==> MaxWidth(tiles) == 0 && MaxHeight(tiles) == 0
  {
    if tiles != [] {
      var front := tiles[.. |tiles| - 1];
      CellFitsEveryTile(front);
      assert forall t :: 0 <= t < |front| ==> front[t] == tiles[t];
    }
  }

  /** The integer square root: the largest r with r * r <= n (squares are
      written RowStart(r, r), r rows of r). */
  function Isqrt(n: nat): (r: nat)
    ensures RowStart(r, r) <= n < RowStart(r + 1, r + 1)
  {
    if n == 0 then 0
    else
      var s := Isqrt(n - 1);
      if RowStart(s + 1, s + 1) <= n then SquaresGrow(s + 1); s + 1 else s
  }

  /** The next square is larger. */
  lemma SquaresGrow(m: nat)
    ensures RowStart(m, m) < RowStart(m + 1, m + 1)
  {
    RowStartIsProduct(m, m);
    RowStartIsProduct(m + 1, m + 1);
  }

  /** The number of cells per row and per column of the atlas: one more than
      the integer square root of the tile count, so there are more cells than
      tiles. */
  function CellsPerSide(count: nat): (k: nat)
    ensures k > 0 && count < RowStart(k, k)
  {
    Isqrt(count) + 1
  }

  /** Where GenerateTiles puts tile `t`, as its placement loop computes it: the
      next cell to the right, or the start of the next row of cells once the
      x position reaches the atlas width. */
  function Position(cellWidth: nat, cellHeight: nat, atlasWidth: nat, t: nat): (nat, nat) {
    if t == 0 then (0, 0)
    else
      var (x, y) := Position(cellWidth, cellHeight, atlasWidth, t - 1);
      if x + cellWidth >= atlasWidth then (0, y + cellHeight) else (x + cellWidth, y)
  }

  /** A pixel coordinate as a fraction of an atlas side, the division `xp / wp`
      of the placement loop; an atlas side of zero gives 0. */
  function Ratio(n: nat, side: nat): real {
    if side == 0 then 0.0 else n as real / side as real
  }

  /** Fractions of one atlas side keep the order of the pixel coordinates and
      stay within 0 and 1 while the coordinates stay within the side. */
  lemma RatioOrdered(a: nat, b: nat, side: nat)
    requires a <= b <= side
    ensures 0.0 <= Ratio(a, side) <= Ratio(b, side) <= 1.0
  {
    if side > 0 {
      var d := side as real;
      var ra, rb := Ratio(a, side), Ratio(b, side);
      RatioScalesBack(a, side);
      RatioScalesBack(b, side);
      assert ra * d >= 0.0;
      assert (rb - ra) * d >= 0.0;
      assert (1.0 - rb) * d >= 0.0;
    }
  }

  /** A fraction of a positive atlas side scaled back by the side is the pixel
      coordinate it was computed from. */
  lemma RatioScalesBack(n: nat, side: nat)
    requires side > 0
    ensures Ratio(n, side) * side as real == n as real
  {
  }

  /** `tile` at pixel (x, y) in a cell of cellWidth by cellHeight on an atlas
      of atlasWidth by atlasHeight pixels, as one step of the placement loop
      leaves it: its position, the texture coordinates of its own corners
      (uv0, uv1) and those of its cell's corners (boundingUV0, boundingUV1). */
  function PlacedTile(tile: Tile, cellWidth: nat, cellHeight: nat, atlasWidth: nat, atlasHeight: nat,
                      x: nat, y: nat): Tile
  {
    var corner := Vec2(Ratio(x, atlasWidth), Ratio(y, atlasHeight));
    tile.(xPos := x, yPos := y,
          uv0 := corner,
          uv1 := Vec2(Ratio(x + tile.width, atlasWidth), Ratio(y + tile.height, atlasHeight)),
          boundingUV0 := corner,
          boundingUV1 := Vec2(Ratio(x + cellWidth, atlasWidth), Ratio(y + cellHeight, atlasHeight)))
  }

  /** The tiles with the positions and texture coordinates the placement loop
      gives them. */
  function Placed(tiles: seq<Tile>, cellWidth: nat, cellHeight: nat, atlasWidth: nat, atlasHeight: nat): (r: seq<Tile>)
    ensures |r| == |tiles|
  {
    seq(|tiles|, t requires 0 <= t < |tiles| =>
      PlacedTile(tiles[t], cellWidth, cellHeight, atlasWidth, atlasHeight,
                 Position(cellWidth, cellHeight, atlasWidth, t).0,
                 Position(cellWidth, cellHeight, atlasWidth, t).1))
  }

  /** The tiles as GenerateTiles lays them out: cells as large as the largest
      tile, CellsPerSide cells to a row. */
  function Layout(tiles: seq<Tile>): (r: seq<Tile>)
    ensures |r| == |tiles|
  {
    var cellWidth, cellHeight, k := MaxWidth(tiles), MaxHeight(tiles), CellsPerSide(|tiles|);
    Placed(tiles, cellWidth, cellHeight, AtlasSide(cellWidth, k), AtlasSide(cellHeight, k))
  }

  /** The texture coordinates of a placed tile describe where it is on an
      atlas of the given size: they lie in the unit square, its own corner
      comes before the far corner of its cell, and scaled by the atlas size
      they give back its pixel rectangle. */
  predicate CoordinatesMatch(placed: Tile, atlasWidth: nat, atlasHeight: nat) {
    && placed.boundingUV0 == placed.uv0
    && 0.0 <= placed.uv0.x <= placed.uv1.x <= placed.boundingUV1.x <= 1.0
    && 0.0 <= placed.uv0.y <= placed.uv1.y <= placed.boundingUV1.y <= 1.0
    && placed.uv0.x * atlasWidth as real == placed.xPos as real
    && placed.uv0.y * atlasHeight as real == placed.yPos as real
    && placed.uv1.x * atlasWidth as real == (placed.xPos + placed.width) as real
    && placed.uv1.y * atlasHeight as real == (placed.yPos + placed.height) as real
  }

  /** A tile no larger than its cell, in a cell inside a positive atlas, gets
      texture coordinates that match its place. */
  lemma PlacedTileCoordinates(tile: Tile, cellWidth: nat, cellHeight: nat, atlasWidth: nat, atlasHeight: nat,
                              x: nat, y: nat)
    requires tile.width <= cellWidth && tile.height <= cellHeight
    requires 0 < atlasWidth && 0 < atlasHeight && x + cellWidth <= atlasWidth && y + cellHeight <= atlasHeight
    ensures CoordinatesMatch(PlacedTile(tile, cellWidth, cellHeight, atlasWidth, atlasHeight, x, y), atlasWidth, atlasHeight)
  {
    AxisCoordinates(x, tile.width, cellWidth, atlasWidth);
    AxisCoordinates(y, tile.height, cellHeight, atlasHeight);
  }

  /** Along one axis: a span of `size` pixels at `start`, inside a cell of
      `cell` pixels that fits the atlas side, has ordered fractions in [0, 1]
      that scale back to its ends. */
  lemma AxisCoordinates(start: nat, size: nat, cell: nat, side: nat)
    requires size <= cell && 0 < side && start + cell <= side
    ensures 0.0 <= Ratio(start, side) <= Ratio(start + size, side) <= Ratio(start + cell, side) <= 1.0
    ensures Ratio(start, side) * side as real == start as real
    ensures Ratio(start + size, side) * side as real == (start + size) as real
  {
    RatioOrdered(start, start + size, side);
    RatioOrdered(start + size, start + cell, side);
    RatioScalesBack(start, side);
    RatioScalesBack(start + size, side);
  }

  /** Every tile keeps its size and bytes through the layout, and with cells
      of positive size its texture coordinates match its place in the atlas. */
  lemma LayoutTextureCoordinates(tiles: seq<Tile>, t: nat)
    requires t < |tiles|
    ensures Layout(tiles)[t].width == tiles[t].width && Layout(tiles)[t].height == tiles[t].height
    ensures Layout(tiles)[t].data == tiles[t].data
    ensures MaxWidth(tiles) > 0 && MaxHeight(tiles) > 0 ==>
      CoordinatesMatch(Layout(tiles)[t], AtlasSide(MaxWidth(tiles), CellsPerSide(|tiles|)),
                       AtlasSide(MaxHeight(tiles), CellsPerSide(|tiles|)))
  {
    var cellWidth, cellHeight, k := MaxWidth(tiles), MaxHeight(tiles), CellsPerSide(|tiles|);
    var width, height := AtlasSide(cellWidth, k), AtlasSide(cellHeight, k);
    var position := Position(cellWidth, cellHeight, width, t);
    assert Layout(tiles)[t] == PlacedTile(tiles[t], cellWidth, cellHeight, width, height, position.0, position.1);
    if cellWidth > 0 && cellHeight > 0 {
      CellFitsEveryTile(tiles);
      PlacedTileInside(cellWidth, cellHeight, k, t, cellWidth, cellHeight);
      PlacedTileCoordinates(tiles[t], cellWidth, cellHeight, width, height, position.0, position.1);
    }
  }

  /** Cell `col` of row `row` of the k by k grid is where the placement loop
      puts tile row * k + col, when cells have positive width. */
  lemma {:induction false} PositionInGrid(cellWidth: nat, cellHeight: nat, k: nat, row: nat, col: nat)
    requires cellWidth > 0 && col < k
    ensures Position(cellWidth, cellHeight, RowStart(k, cellWidth), RowStart(row, k) + col)
         == (RowStart(col, cellWidth), RowStart(row, cellHeight))
    decreases row, col
  {
    if col > 0 {
      PositionInGrid(cellWidth, cellHeight, k, row, col - 1);
      CellInRows(cellWidth, k, col, 0);
    } else if row > 0 {
      PositionInGrid(cellWidth, cellHeight, k, row - 1, k - 1);
    }
  }

  /** Cell t % k of row t / k of a k by k grid of cells: the place in the
      atlas that the placement loop is meant to give tile t, at pixel
      ((t % k) * cellWidth, (t / k) * cellHeight). */
  function GridPosition(cellWidth: nat, cellHeight: nat, k: nat, t: nat): (nat, nat)
    requires k > 0
  {
    (RowStart(t % k, cellWidth), RowStart(t / k, cellHeight))
  }

  /** With cells of positive width the placement loop fills the grid row by
      row: it puts every tile at its grid position. */
  lemma LoopPositionIsGridPosition(cellWidth: nat, cellHeight: nat, k: nat, t: nat)
    requires cellWidth > 0 && k > 0
    ensures Position(cellWidth, cellHeight, AtlasSide(cellWidth, k), t) == GridPosition(cellWidth, cellHeight, k, t)
  {
    CellOf(t, k);
    PositionInGrid(cellWidth, cellHeight, k, t / k, t % k);
    RowStartIsProduct(k, cellWidth);
  }

  /** Whatever the cell size, a tile no larger than a cell and numbered below
      the k * k cells lies within the atlas at its grid position. */
  lemma GridPositionInside(cellWidth: nat, cellHeight: nat, k: nat, t: nat, width: nat, height: nat)
    requires k > 0 && t < RowStart(k, k) && width <= cellWidth && height <= cellHeight
    ensures var (x, y) := GridPosition(cellWidth, cellHeight, k, t);
      x + width <= AtlasSide(cellWidth, k) && y + height <= AtlasSide(cellHeight, k)
  {
    var row, col := t / k, t % k;
    CellOf(t, k);
    if row >= k {
      RowStartMonotone(k, k, row);
    }
    CellInside(cellWidth, k, col, width);
    CellInside(cellHeight, k, row, height);
  }

  /** Cell i of k, widened by a span of at most one cell, ends within the k
      cells. */
  lemma CellInside(cell: nat, k: nat, i: nat, size: nat)
    requires i < k && size <= cell
    ensures RowStart(i, cell) + size <= AtlasSide(cell, k)
  {
    RowStartMonotone(cell, i + 1, k);
    RowStartIsProduct(k, cell);
  }

  /** Three tiles one pixel high and no pixel wide. */
  const THIN_TILES: seq<Tile> := [EMPTY_TILE.(height := 1), EMPTY_TILE.(height := 1), EMPTY_TILE.(height := 1)]

  /** With zero cell width the placement loop starts a new row of cells after
      every tile (x + 0 >= 0 always holds), so the third of three 0 by 1 tiles
      lands below an atlas two cells high and fails the bounds check; its grid
      position is inside. */
  lemma ZeroWidthTilesLeaveAtlas()
    ensures forall t :: 0 <= t < |THIN_TILES| ==> WellFormed(THIN_TILES[t])
    ensures MaxWidth(THIN_TILES) == 0 && MaxHeight(THIN_TILES) == 1 && CellsPerSide(3) == 2
    ensures Layout(THIN_TILES)[2].yPos == 2 && !Inside(Layout(THIN_TILES)[2], AtlasSide(0, 2), AtlasSide(1, 2))
    ensures GridPosition(0, 1, 2, 2) == (0, 1)
  {
    assert Isqrt(0) == 0;
    assert Isqrt(1) == 1;
    assert Isqrt(2) == 1;
    assert Isqrt(3) == 1;
    assert CellsPerSide(3) == Isqrt(3) + 1;
    var thin := EMPTY_TILE.(height := 1);
    assert THIN_TILES[.. 2] == [thin, thin] && [thin, thin][.. 1] == [thin] && [thin][.. 0] == [];
    assert MaxHeight([thin]) == 1;
    assert MaxHeight([thin, thin]) == 1;
    assert MaxWidth([thin]) == 0;
    assert MaxWidth([thin, thin]) == 0;
    assert Position(0, 1, 0, 1) == (0, 1);
    assert Position(0, 1, 0, 2) == (0, 2);
  }

  /** The atlas side in pixels: `cells` cells of `cell` pixels each. */
  function AtlasSide(cell: nat, cells: nat): nat {
    cell * cells
  }

  /** A placed tile lies within an atlas of the given size: the two
      conditions GenerateTiles asserts before drawing it. */
  predicate Inside(tile: Tile, atlasWidth: nat, atlasHeight: nat) {
    tile.xPos + tile.width <= atlasWidth && tile.yPos + tile.height <= atlasHeight
  }

  /** With positive cell width, every tile the placement loop places lies in
      the atlas, because the k by k grid has more cells than there are tiles
      and each cell is as large as the largest tile. */
  lemma PlacedTilesInside(tiles: seq<Tile>)
    requires MaxWidth(tiles) > 0
    ensures var k := CellsPerSide(|tiles|);
      forall t :: 0 <= t < |tiles| ==> Inside(Layout(tiles)[t], AtlasSide(MaxWidth(tiles), k), AtlasSide(MaxHeight(tiles), k))
  {
    var cellWidth, cellHeight, k := MaxWidth(tiles), MaxHeight(tiles), CellsPerSide(|tiles|);
    CellFitsEveryTile(tiles);
    forall t | 0 <= t < |tiles|
      ensures Inside(Layout(tiles)[t], AtlasSide(cellWidth, k), AtlasSide(cellHeight, k))
    {
      PlacedTileInside(cellWidth, cellHeight, k, t, tiles[t].width, tiles[t].height);
    }
  }

  /** Tile t of at most one cell's size, t below the k * k cells of the grid,
      lies within the grid where the placement loop puts it. */
  lemma PlacedTileInside(cellWidth: nat, cellHeight: nat, k: nat, t: nat, width: nat, height: nat)
    requires cellWidth > 0 && k > 0 && t < RowStart(k, k) && width <= cellWidth && height <= cellHeight
    ensures var (x, y) := Position(cellWidth, cellHeight, AtlasSide(cellWidth, k), t);
      x + width <= AtlasSide(cellWidth, k) && y + height <= AtlasSide(cellHeight, k)
  {
    var row, col := PlacedCell(cellWidth, cellHeight, k, t);
    if row >= k {
      RowStartMonotone(k, k, row);
    }
    CellInside(cellWidth, k, col, width);
    CellInside(cellHeight, k, row, height);
  }

  /////////////////////////////////////////////////////////////////////////////
  // The atlas pixels

  /** The byte offset of channel c of pixel (x, y) in an RGBA atlas `width`
      pixels wide: four bytes per pixel, rows one after another. */
  function PixelIndex(width: nat, x: nat, y: nat, c: nat): nat {
    4 * (RowStart(y, width) + x) + c
  }

  /** The offset GenerateTiles computes, (y * width + x) * 4 + c, is PixelIndex,
      and a whole atlas is width * height * 4 bytes. */
  lemma PixelIndexIsProduct(width: nat, height: nat, x: nat, y: nat, c: nat)
    ensures (y * width + x) * 4 + c == PixelIndex(width, x, y, c)
    ensures width * height * 4 == PixelIndex(width, 0, height, 0)
  {
    RowStartIsProduct(y, width);
    RowStartIsProduct(height, width);
  }

  /** Distinct pixels of a row-major atlas have disjoint four-byte slots: any
      channel of any other pixel lies before or after pixel (px, py). */
  lemma PixelApart(width: nat, px: nat, py: nat)
    requires px < width
    ensures forall x: nat, y: nat, c: nat | x < width && c < 4 ::
      (x == px && y == py) ||
      PixelIndex(width, x, y, c) < PixelIndex(width, px, py, 0) ||
      PixelIndex(width, px, py, 0) + 4 <= PixelIndex(width, x, y, c)
  {
    forall x: nat, y: nat, c: nat | x < width && c < 4
      ensures (x == px && y == py) ||
        PixelIndex(width, x, y, c) < PixelIndex(width, px, py, 0) ||
        PixelIndex(width, px, py, 0) + 4 <= PixelIndex(width, x, y, c)
    {
      if y < py {
        CellInRows(width, py, y, x);
      } else if py < y {
        CellInRows(width, y, py, px);
      }
    }
  }

  /** A tile covers pixel (x, y) of the atlas when the pixel lies in its
      rectangle. */
  predicate Covers(tile: Tile, x: nat, y: nat) {
    tile.xPos <= x < tile.xPos + tile.width && tile.yPos <= y < tile.yPos + tile.height
  }

  /** Channel c of pixel (dx, dy) of a tile as GenerateTiles draws it: the
      tile's grey level in red, green and blue, and an opaque alpha. */
  function ChannelValue(tile: Tile, dx: nat, dy: nat, c: nat): byte {
    if c == 3 then 255
    else if RowStart(dy, tile.width) + dx < |tile.data| then tile.data[RowStart(dy, tile.width) + dx]
    else 0
  }

  /** Channel c of atlas pixel (x, y) after drawing `tiles` in order on a
      zeroed atlas: the last tile covering the pixel wins, and a pixel no tile
      covers stays 0. */
  function PixelValue(tiles: seq<Tile>, x: nat, y: nat, c: nat): byte {
    if tiles == [] then 0
    else
      var last := tiles[|tiles| - 1];
      if Covers(last, x, y) then ChannelValue(last, x - last.xPos, y - last.yPos, c)
      else PixelValue(tiles[.. |tiles| - 1], x, y, c)
  }

  /** A pixel no tile covers is transparent black. */
  lemma {:induction false} UncoveredPixelIsBlank(tiles: seq<Tile>, x: nat, y: nat, c: nat)
    requires forall t :: 0 <= t < |tiles| ==> !Covers(tiles[t], x, y)
    ensures PixelValue(tiles, x, y, c) == 0
  {
    if tiles != [] {
      var front := tiles[.. |tiles| - 1];
      assert forall t :: 0 <= t < |front| ==> front[t] == tiles[t];
      UncoveredPixelIsBlank(front, x, y, c);
    }
  }

  /** A pixel covered by exactly one tile shows that tile's byte. */
  lemma {:induction false} OnlyCoverShows(tiles: seq<Tile>, t: nat, x: nat, y: nat, c: nat)
    requires t < |tiles| && Covers(tiles[t], x, y)
    requires forall u :: 0 <= u < |tiles| && u != t ==> !Covers(tiles[u], x, y)
    ensures PixelValue(tiles, x, y, c) == ChannelValue(tiles[t], x - tiles[t].xPos, y - tiles[t].yPos, c)
  {
    if t < |tiles| - 1 {
      var front := tiles[.. |tiles| - 1];
      assert forall u :: 0 <= u < |front| ==> front[u] == tiles[u];
      OnlyCoverShows(front, t, x, y, c);
    }
  }

  /** Where the placement loop puts tile t when cells have positive width:
      column `col` and row `row` of the k by k grid, in RowStart form. */
  lemma PlacedCell(cellWidth: nat, cellHeight: nat, k: nat, t: nat) returns (row: nat, col: nat)
    requires cellWidth > 0 && k > 0
    ensures col < k && t == RowStart(row, k) + col
    ensures Position(cellWidth, cellHeight, AtlasSide(cellWidth, k), t) == (RowStart(col, cellWidth), RowStart(row, cellHeight))
  {
    row, col := t / k, t % k;
    CellOf(t, k);
    PositionInGrid(cellWidth, cellHeight, k, row, col);
    RowStartIsProduct(k, cellWidth);
  }

  /** Two spans of at most one cell, each starting at a cell boundary, that
      share a point start at the same cell. */
  lemma SameCell(cell: nat, a: nat, b: nat, x: nat, wa: nat, wb: nat)
    requires wa <= cell && wb <= cell
    requires RowStart(a, cell) <= x < RowStart(a, cell) + wa
    requires RowStart(b, cell) <= x < RowStart(b, cell) + wb
    ensures a == b
  {
    if a < b {
      RowStartMonotone(cell, a + 1, b);
    } else if b < a {
      RowStartMonotone(cell, b + 1, a);
    }
  }

  /** With positive cell width, no two placed tiles overlap. */
  lemma PlacedTilesDisjoint(tiles: seq<Tile>, t: nat, u: nat, x: nat, y: nat)
    requires MaxWidth(tiles) > 0 && t < |tiles| && u < |tiles|
    ensures Covers(Layout(tiles)[t], x, y) && Covers(Layout(tiles)[u], x, y) ==> t == u
  {
    var cellWidth, cellHeight, k := MaxWidth(tiles), MaxHeight(tiles), CellsPerSide(|tiles|);
    var placed := Layout(tiles);
    if Covers(placed[t], x, y) && Covers(placed[u], x, y) {
      CellFitsEveryTile(tiles);
      var rowT, colT := PlacedCell(cellWidth, cellHeight, k, t);
      var rowU, colU := PlacedCell(cellWidth, cellHeight, k, u);
      SameCell(cellWidth, colT, colU, x, tiles[t].width, tiles[u].width);
      SameCell(cellHeight, rowT, rowU, y, tiles[t].height, tiles[u].height);
    }
  }

  /** No pixel is covered by two tiles. */
  ghost predicate Disjoint(tiles: seq<Tile>) {
    forall t, u, x: nat, y: nat | 0 <= t < |tiles| && 0 <= u < |tiles| && t != u ::
      !(Covers(tiles[t], x, y) && Covers(tiles[u], x, y))
  }

  /** With positive cell width, the tiles GenerateTiles lays out do not
      overlap. */
  lemma LayoutIsDisjoint(tiles: seq<Tile>)
    requires MaxWidth(tiles) > 0
    ensures Disjoint(Layout(tiles))
  {
    var placed := Layout(tiles);
    forall t, u, x: nat, y: nat | 0 <= t < |placed| && 0 <= u < |placed| && t != u
      ensures !(Covers(placed[t], x, y) && Covers(placed[u], x, y))
    {
      PlacedTilesDisjoint(tiles, t, u, x, y);
    }
  }

  /** In an atlas of tiles that do not overlap, every byte of every tile shows
      at its place, with opaque alpha. */
  lemma AtlasShowsEveryTile(tiles: seq<Tile>, t: nat, dx: nat, dy: nat, c: nat)
    requires Disjoint(tiles) && t < |tiles| && dx < tiles[t].width && dy < tiles[t].height
    ensures PixelValue(tiles, tiles[t].xPos + dx, tiles[t].yPos + dy, c) == ChannelValue(tiles[t], dx, dy, c)
  {
    OnlyCoverShows(tiles, t, tiles[t].xPos + dx, tiles[t].yPos + dy, c);
  }

  /** The offsets the drawing loop computes for pixel (xIndex, yIndex) of
      the atlas: its slot starts at PixelIndex and lies within the atlas rows
      drawn so far. */
  lemma PixelSlot(width: nat, xIndex: nat, yIndex: nat, length: nat)
    requires xIndex < width && PixelIndex(width, 0, yIndex + 1, 0) <= length
    ensures (yIndex * width + xIndex) * 4 == PixelIndex(width, xIndex, yIndex, 0)
    ensures PixelIndex(width, xIndex, yIndex, 0) + 4 <= length
  {
    RowStartIsProduct(yIndex, width);
  }

  /** The offset the drawing loop reads byte (dx, dy) of a tile from. */
  lemma TileByteAt(tile: Tile, dx: nat, dy: nat)
    requires WellFormed(tile) && dx < tile.width && dy < tile.height
    ensures dy * tile.width + dx == RowStart(dy, tile.width) + dx < |tile.data|
    ensures forall c :: 0 <= c < 3 ==> ChannelValue(tile, dx, dy, c) == tile.data[dy * tile.width + dx]
    ensures ChannelValue(tile, dx, dy, 3) == 255
  {
    RowStartIsProduct(dy, tile.width);
    RowStartIsProduct(tile.height, tile.width);
    CellInRows(tile.width, tile.height, dy, dx);
  }

  /** Row yIndex of the atlas `now` holds row dy of the tile from its left
      edge up to column `upTo`; every other byte is as in `before`. */
  ghost predicate RowDrawn(now: seq<byte>, before: seq<byte>, width: nat, tile: Tile, yIndex: nat, dy: nat, upTo: nat) {
    |now| == |before| &&
    forall x: nat, y: nat, c: nat | x < width && c < 4 && PixelIndex(width, x, y, c) < |now| ::
      now[PixelIndex(width, x, y, c)] ==
        if y == yIndex && tile.xPos <= x < upTo then ChannelValue(tile, x - tile.xPos, dy, c)
        else before[PixelIndex(width, x, y, c)]
  }

  /** Writing pixel (xIndex, yIndex) from byte (xIndex - xPos, dy) of the
      tile draws the row one column further. */
  lemma DrawPixelStep(prev: seq<byte>, before: seq<byte>, width: nat, tile: Tile, yIndex: nat, dy: nat, xIndex: nat, r: byte)
    requires RowDrawn(prev, before, width, tile, yIndex, dy, xIndex)
    requires tile.xPos <= xIndex < width
    requires PixelIndex(width, xIndex, yIndex, 0) + 4 <= |prev|
    requires r == ChannelValue(tile, xIndex - tile.xPos, dy, 0) == ChannelValue(tile, xIndex - tile.xPos, dy, 1)
    requires r == ChannelValue(tile, xIndex - tile.xPos, dy, 2) && ChannelValue(tile, xIndex - tile.xPos, dy, 3) == 255
    ensures var at := PixelIndex(width, xIndex, yIndex, 0);
      RowDrawn(prev[at := r][at + 1 := r][at + 2 := r][at + 3 := 255], before, width, tile, yIndex, dy, xIndex + 1)
  {
    PixelApart(width, xIndex, yIndex);
  }

  /////////////////////////////////////////////////////////////////////////////
  // The generator

  class TileSheetGenerator {
    /** The tiles added so far, in order. */
    var tiles: seq<Tile>

    /** Every tile holds one byte per pixel. */
    predicate Valid()
      reads this
    {
      forall t :: 0 <= t < |tiles| ==> WellFormed(tiles[t])
    }

    constructor ()
      ensures tiles == [] && Valid()
    {
      tiles := [];
    }

    /** TileSheetGenerator::AddTile: appends a tile of the given size holding
        the first width * height bytes of `data`, flipped vertically when
        asked. The size must fit the tile's data capacity. */
    method AddTile(width: u32, height: u32, data: seq<byte>, flipY: bool)
      requires width * height < TILE_DATA_CAPACITY
      requires width * height <= |data|
      requires Valid()
      modifies this
      ensures Valid()
      ensures |tiles| == |old(tiles)| + 1 && tiles[.. |old(tiles)|] == old(tiles)
      ensures var tile := tiles[|old(tiles)|];
        WellFormed(tile) && tile == EMPTY_TILE.(width := width, height := height, data := tile.data) &&
        tile.data == if flipY then Flipped(data[.. width * height], width, height) else data[.. width * height]
    {
      var tile := EMPTY_TILE.(width := width, height := height);
      var size := width * height;
      tile := tile.(data := data[.. size]);
      if flipY {
        tile := FlipTile(tile);
      }
      FlipTwice(data[.. size], width, height);
      tiles := tiles + [tile];
    }

    /** TileSheetGenerator::FlipTile: fills a temporary buffer row by row from
        the mirrored row, then copies it back; only the data changes. */
    method FlipTile(tile: Tile) returns (flipped: Tile)
      requires WellFormed(tile)
      ensures flipped == tile.(data := Flipped(tile.data, tile.width, tile.height))
    {
      var width := tile.width;
      var height := tile.height;
      var size := width * height;
      var temp := new byte[size];
      RowStartIsProduct(height, width);
      FlipRows(tile.data, width, height, temp);
      flipped := tile.(data := temp[..]);
    }

    /** The loop nest of FlipTile over the rows of the tile. */
    method FlipRows(data: seq<byte>, width: u32, height: u32, temp: array<byte>)
      requires |data| == RowStart(height, width) == temp.Length
      modifies temp
      ensures temp[..] == Flipped(data, width, height)
    {
      ghost var target := Flipped(data, width, height);
      FlippedLength(data, width, height);
      for y := 0 to height
        invariant RowStart(y, width) <= |data|
        invariant forall j :: 0 <= j < RowStart(y, width) ==> temp[j] == target[j]
      {
        RowStartMonotone(width, y + 1, height);
        FlipRow(data, width, height, y, temp);
      }
      assert temp[..] == target;
    }

    /** The inner loop of FlipTile: row y of the temporary buffer gets row
        height - 1 - y of the tile. */
    method FlipRow(data: seq<byte>, width: u32, height: u32, y: nat, temp: array<byte>)
      requires |data| == RowStart(height, width) == temp.Length && y < height
      requires RowStart(y + 1, width) <= |data| && |Flipped(data, width, height)| == |data|
      requires forall j :: 0 <= j < RowStart(y, width) ==> temp[j] == Flipped(data, width, height)[j]
      modifies temp
      ensures forall j :: 0 <= j < RowStart(y + 1, width) ==> temp[j] == Flipped(data, width, height)[j]
    {
      ghost var target := Flipped(data, width, height);
      RowStartIsProduct(y, width);
      RowStartIsProduct(height - y - 1, width);
      for x := 0 to width
        invariant forall j :: 0 <= j < RowStart(y, width) + x ==> temp[j] == target[j]
      {
        FlippedAt(data, width, height, y, x);
        var index := y * width + x;
        var flippedIndex := (height - y - 1) * width + x;
        temp[index] := data[flippedIndex];
      }
    }

    /** The body of the innermost drawing loop: the grey level r goes to red,
        green and blue of the pixel whose slot starts at `at`, and alpha is
        opaque; no other byte changes. */
    method SetPixel(pixels: array<byte>, at: nat, r: byte)
      requires at + 4 <= pixels.Length
      modifies pixels
      ensures pixels[..] == old(pixels[..])[at := r][at + 1 := r][at + 2 := r][at + 3 := 255]
    {
      pixels[at + 0] := r;
      pixels[at + 1] := r;
      pixels[at + 2] := r;
      pixels[at + 3] := 255;
    }

    /** The innermost drawing loop of GenerateTiles: row dy of the tile goes
        to row yIndex of the atlas; nothing else changes. */
    method BlitRow(pixels: array<byte>, widthInPixels: nat, tile: Tile, yIndex: nat, dy: nat)
      requires WellFormed(tile) && dy < tile.height && yIndex == tile.yPos + dy
      requires tile.xPos + tile.width <= widthInPixels
      requires PixelIndex(widthInPixels, 0, yIndex + 1, 0) <= pixels.Length
      modifies pixels
      ensures forall x: nat, y: nat, c: nat | x < widthInPixels && c < 4 && PixelIndex(widthInPixels, x, y, c) < pixels.Length ::
        pixels[PixelIndex(widthInPixels, x, y, c)] ==
          if y == yIndex && tile.xPos <= x < tile.xPos + tile.width then ChannelValue(tile, x - tile.xPos, dy, c)
          else old(pixels[PixelIndex(widthInPixels, x, y, c)])
    {
      var x := tile.xPos;
      var w := tile.width;
      var dx := 0;
      var xIndex := x;
      while xIndex < x + w
        invariant x <= xIndex <= x + w && dx == xIndex - x
        invariant RowDrawn(pixels[..], old(pixels[..]), widthInPixels, tile, yIndex, dy, xIndex)
      {
        TileByteAt(tile, dx, dy);
        PixelSlot(widthInPixels, xIndex, yIndex, pixels.Length);
        var index := dy * w + dx;
        var r := tile.data[index];
        var pixelIndex := (yIndex * widthInPixels + xIndex) * 4;
        DrawPixelStep(pixels[..], old(pixels[..]), widthInPixels, tile, yIndex, dy, xIndex, r);
        SetPixel(pixels, pixelIndex, r);
        xIndex, dx := xIndex + 1, dx + 1;
      }
    }

    /** The drawing of one tile: its rows go to the rows of the atlas below
        its position; the pixels it covers take its bytes and nothing else
        changes. */
    method BlitTile(pixels: array<byte>, widthInPixels: nat, heightInPixels: nat, tile: Tile)
      requires WellFormed(tile) && Inside(tile, widthInPixels, heightInPixels)
      requires pixels.Length == PixelIndex(widthInPixels, 0, heightInPixels, 0)
      modifies pixels
      ensures forall x: nat, y: nat, c: nat | x < widthInPixels && c < 4 && PixelIndex(widthInPixels, x, y, c) < pixels.Length ::
        pixels[PixelIndex(widthInPixels, x, y, c)] ==
          if Covers(tile, x, y) then ChannelValue(tile, x - tile.xPos, y - tile.yPos, c)
          else old(pixels[PixelIndex(widthInPixels, x, y, c)])
    {
      var y := tile.yPos;
      var h := tile.height;
      var dy := 0;
      var yIndex := y;
      while yIndex < y + h
        invariant y <= yIndex <= y + h && dy == yIndex - y
        invariant forall px: nat, py: nat, c: nat | px < widthInPixels && c < 4 && PixelIndex(widthInPixels, px, py, c) < pixels.Length ::
          pixels[PixelIndex(widthInPixels, px, py, c)] ==
            if y <= py < yIndex && tile.xPos <= px < tile.xPos + tile.width then ChannelValue(tile, px - tile.xPos, py - y, c)
            else old(pixels[PixelIndex(widthInPixels, px, py, c)])
      {
        RowStartMonotone(widthInPixels, yIndex + 1, heightInPixels);
        BlitRow(pixels, widthInPixels, tile, yIndex, dy);
        yIndex, dy := yIndex + 1, dy + 1;
      }
    }

    /** TileSheetGenerator::GenerateTiles: cells as large as the largest tile,
        CellsPerSide cells to a side, the tiles placed by the placement loop
        and drawn in order on a zeroed RGBA atlas. A tile that does not fit
        the atlas fails the engine's Assert: the model gives false. */
    method GenerateTiles() returns (ok: bool, pixels: array<byte>, outWidth: nat, outHeight: nat)
      requires Valid()
      modifies this`tiles
      ensures tiles == Layout(old(tiles)) && Valid()
      ensures outWidth == AtlasSide(MaxWidth(old(tiles)), CellsPerSide(|old(tiles)|))
      ensures outHeight == AtlasSide(MaxHeight(old(tiles)), CellsPerSide(|old(tiles)|))
      ensures fresh(pixels) && pixels.Length == PixelIndex(outWidth, 0, outHeight, 0)
      ensures ok <==> forall t :: 0 <= t < |tiles| ==> Inside(tiles[t], outWidth, outHeight)
      ensures ok ==> forall x: nat, y: nat, c: nat | x < outWidth && c < 4 && PixelIndex(outWidth, x, y, c) < pixels.Length ::
        pixels[PixelIndex(outWidth, x, y, c)] == PixelValue(tiles, x, y, c)
    {
      var tileWidth, tileHeight := MeasureCells();
      var tileCount := |tiles|;
      var widthInTiles := CellsPerSide(tileCount);
      var heightInTiles := widthInTiles;
      var widthInPixels := tileWidth * widthInTiles;
      var heightInPixels := tileHeight * heightInTiles;
      var totalSizeBytes := widthInPixels * heightInPixels * PIXEL_STRIDE_BYTES;
      PlaceTiles(tileWidth, tileHeight, widthInPixels, heightInPixels);
      PixelIndexIsProduct(widthInPixels, heightInPixels, 0, 0, 0);
      pixels := new byte[totalSizeBytes](_ => 0);
      ok := DrawTiles(pixels, widthInPixels, heightInPixels);
      outWidth, outHeight := widthInPixels, heightInPixels;
    }

    /** The drawing loop of GenerateTiles: each tile in turn is checked
        against the atlas bounds and drawn; a tile that does not fit stops the
        drawing and gives false. */
    method DrawTiles(pixels: array<byte>, widthInPixels: nat, heightInPixels: nat) returns (ok: bool)
      requires Valid()
      requires pixels.Length == PixelIndex(widthInPixels, 0, heightInPixels, 0)
      requires forall j :: 0 <= j < pixels.Length ==> pixels[j] == 0
      modifies pixels
      ensures ok <==> forall t :: 0 <= t < |tiles| ==> Inside(tiles[t], widthInPixels, heightInPixels)
      ensures ok ==> forall x: nat, y: nat, c: nat | x < widthInPixels && c < 4 && PixelIndex(widthInPixels, x, y, c) < pixels.Length ::
        pixels[PixelIndex(widthInPixels, x, y, c)] == PixelValue(tiles, x, y, c)
    {
      var tileCount := |tiles|;
      for tileIndex := 0 to tileCount
        invariant forall t :: 0 <= t < tileIndex ==> Inside(tiles[t], widthInPixels, heightInPixels)
        invariant forall x: nat, y: nat, c: nat | x < widthInPixels && c < 4 && PixelIndex(widthInPixels, x, y, c) < pixels.Length ::
          pixels[PixelIndex(widthInPixels, x, y, c)] == PixelValue(tiles[.. tileIndex], x, y, c)
      {
        var tile := tiles[tileIndex];
        var x, y, w, h := tile.xPos, tile.yPos, tile.width, tile.height;
        if x + w > widthInPixels || y + h > heightInPixels {
          return false;
        }
        BlitTile(pixels, widthInPixels, heightInPixels, tile);
        assert tiles[.. tileIndex + 1][.. tileIndex] == tiles[.. tileIndex];
      }
      assert tiles[.. tileCount] == tiles;
      return true;
    }

    /** TileSheetGenerator::GetTileUV: the texture coordinates stored on tile
        `index`. */
    method GetTileUV(index: i32) returns (uv0: Vec2, uv1: Vec2)
      requires 0 <= index < |tiles|
      ensures uv0 == tiles[index].uv0 && uv1 == tiles[index].uv1
    {
      uv0 := tiles[index].uv0;
      uv1 := tiles[index].uv1;
    }

    /** The first loop of GenerateTiles: the cell size is the largest tile
        width and the largest tile height. */
    method MeasureCells() returns (tileWidth: nat, tileHeight: nat)
      ensures tileWidth == MaxWidth(tiles) && tileHeight == MaxHeight(tiles)
    {
      tileWidth, tileHeight := 0, 0;
      var tileCount := |tiles|;
      for tileIndex := 0 to tileCount
        invariant tileWidth == MaxWidth(tiles[.. tileIndex]) && tileHeight == MaxHeight(tiles[.. tileIndex])
      {
        var tile := tiles[tileIndex];
        assert tiles[.. tileIndex + 1][.. tileIndex] == tiles[.. tileIndex];
        tileWidth := if tileWidth < tile.width then tile.width else tileWidth;
        tileHeight := if tileHeight < tile.height then tile.height else tileHeight;
      }
      assert tiles[.. tileCount] == tiles;
    }

    /** The second loop of GenerateTiles: each tile gets the position and the
        texture coordinates of the placement loop, and nothing else about the
        tiles changes. */
    method PlaceTiles(tileWidth: nat, tileHeight: nat, widthInPixels: nat, heightInPixels: nat)
      requires Valid()
      modifies this`tiles
      ensures tiles == Placed(old(tiles), tileWidth, tileHeight, widthInPixels, heightInPixels) && Valid()
    {
      var xp, yp := 0, 0;
      var tileCount := |tiles|;
      for tileIndex := 0 to tileCount
        invariant |tiles| == tileCount
        invariant (xp, yp) == Position(tileWidth, tileHeight, widthInPixels, tileIndex)
        invariant forall t :: 0 <= t < tileIndex ==> tiles[t] == Placed(old(tiles), tileWidth, tileHeight, widthInPixels, heightInPixels)[t]
        invariant forall t :: tileIndex <= t < tileCount ==> tiles[t] == old(tiles)[t]
      {
        var tile := tiles[tileIndex];
        var corner := Vec2(Ratio(xp, widthInPixels), Ratio(yp, heightInPixels));
        tile := tile.(uv0 := corner,
                      uv1 := Vec2(Ratio(xp + tile.width, widthInPixels), Ratio(yp + tile.height, heightInPixels)),
                      boundingUV0 := corner,
                      boundingUV1 := Vec2(Ratio(xp + tileWidth, widthInPixels), Ratio(yp + tileHeight, heightInPixels)),
                      xPos := xp, yPos := yp);
        tiles := tiles[tileIndex := tile];
        xp := xp + tileWidth;
        if xp >= widthInPixels {
          xp := 0;
          yp := yp + tileHeight;
        }
      }
    }
  }
}

/** Row-major grids: the offset of the first cell of a row, built up row by
    row so that proofs about map data and tile bytes stay linear. */
module Grid {

  /** The offset of the first cell of row `y` in a grid `width` cells wide;
      it is y * width. */
  function RowStart(y: nat, width: nat): nat {
    if y == 0 then 0 else RowStart(y - 1, width) + width
  }

  lemma {:induction false} RowStartIsProduct(y: nat, width: nat)
    ensures RowStart(y, width) == y * width
  {
    if y > 0 {
      RowStartIsProduct(y - 1, width);
      RowsBelow(width, y);
    }
  }

  /** One more row of `width` cells is `width` more cells. */
  lemma RowsBelow(width: nat, rows: nat)
    requires rows > 0
    ensures (rows - 1) * width + width == rows * width
  {
  }

  /** Row starts grow with the row number. */
  lemma {:induction false} RowStartMonotone(width: nat, fewer: nat, rows: nat)
    requires fewer <= rows
    ensures RowStart(fewer, width) <= RowStart(rows, width)
    decreases rows
  {
    if fewer < rows {
      RowStartMonotone(width, fewer, rows - 1);
    }
  }

  /** Cell x of row y of a grid `height` rows high lies before its end, and
      rows of positive width start strictly later the lower they are. */
  lemma CellInRows(width: nat, height: nat, y: nat, x: nat)
    requires y < height && x < width
    ensures RowStart(y, width) + x < RowStart(y + 1, width) <= RowStart(height, width)
  {
    RowStartMonotone(width, y + 1, height);
  }

  /** Every offset in a grid of positive width is cell n % width of row
      n / width. */
  lemma CellOf(n: nat, width: nat)
    requires width > 0
    ensures n % width < width && n == RowStart(n / width, width) + n % width
  {
    RowStartIsProduct(n / width, width);
  }
}

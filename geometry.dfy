/**
 * The grid geometry of `initState`: 100 cells per row, the cell size taken from the
 * viewport width, and as many whole rows as fit in the viewport height. The page
 * computes with IEEE doubles; this model computes with exact reals.
 */
module Geometry {

  /** `maxCell`: cells per row. */
  const MaxCell: nat := 100

  /** `cellSize()`: the side of a square cell, in pixels. */
  function CellSize(viewportWidth: nat): (size: real)
    ensures size * MaxCell as real == viewportWidth as real
  {
    viewportWidth as real / MaxCell as real
  }

  /** The floor of a quotient of naturals is their integer quotient. */
  lemma FloorOfQuotient(a: nat, b: nat)
    requires b > 0
    ensures (a as real / b as real).Floor == a / b
  {
    var q, r := a / b, a % b;
    assert a == q * b + r;
    assert a as real / b as real == q as real + r as real / b as real;
    assert 0.0 <= r as real / b as real < 1.0;
  }

  /** `h / (w / 100)` is `100 * h / w`. */
  lemma RowQuotient(w: nat, h: nat)
    requires w > 0
    ensures h as real / CellSize(w) == (MaxCell * h) as real / w as real
  {
    var c := CellSize(w);
    assert c == w as real / 100.0;
    assert c > 0.0;
    assert (MaxCell * h) as real == 100.0 * h as real;
  }

  /**
   * The viewports for which `generateCell` finishes. With a width of 0 and a positive
   * height the row count is `Infinity` and the loop of `generateCell` never ends; with
   * both 0 it is `NaN`, no index compares below it, and the grid is empty.
   */
  predicate Finite(viewportWidth: nat, viewportHeight: nat) {
    viewportWidth > 0 || viewportHeight == 0
  }

  /**
   * `totalCellY()`: the number of whole rows of cells that fit in the viewport height,
   * the integer quotient `100 * height / width`. The `NaN` of an empty viewport is
   * modelled as 0 rows, which is what the loop of `generateCell` makes of it.
   */
  function TotalCellY(viewportWidth: nat, viewportHeight: nat): (rows: nat)
    requires Finite(viewportWidth, viewportHeight)
    ensures viewportWidth > 0 ==> rows == MaxCell * viewportHeight / viewportWidth
    ensures viewportWidth == 0 ==> rows == 0
  {
    if viewportWidth == 0 then 0
    else
      var q := viewportHeight as real / CellSize(viewportWidth);
      RowQuotient(viewportWidth, viewportHeight);
      FloorOfQuotient(MaxCell * viewportHeight, viewportWidth);
      q.Floor
  }

  /** The rows fit in the viewport height, and one row more would not. */
  lemma TotalCellYFits(viewportWidth: nat, viewportHeight: nat)
    requires viewportWidth > 0
    ensures var rows := TotalCellY(viewportWidth, viewportHeight);
            && rows as real * CellSize(viewportWidth) <= viewportHeight as real
            && viewportHeight as real < (rows + 1) as real * CellSize(viewportWidth)
  {
    var c := CellSize(viewportWidth);
    var q := viewportHeight as real / c;
    var rows := TotalCellY(viewportWidth, viewportHeight);
    assert c > 0.0 && q * c == viewportHeight as real;
    assert rows as real <= q < rows as real + 1.0;
    assert rows as real * c <= q * c;
    calc {
      viewportHeight as real;
    ==
      q * c;
    <  { assert q < rows as real + 1.0; }
      (rows as real + 1.0) * c;
    ==
      (rows + 1) as real * c;
    }
  }

  /**
   * `totalCell()`: the number of cells of the grid, a whole number of rows of
   * `MaxCell` cells, `(100 * height / width) * 100`.
   */
  function TotalCell(viewportWidth: nat, viewportHeight: nat): (n: nat)
    requires Finite(viewportWidth, viewportHeight)
    ensures n % MaxCell == 0
    ensures viewportWidth > 0 ==> n == (MaxCell * viewportHeight / viewportWidth) * MaxCell
    ensures viewportWidth == 0 ==> n == 0
  {
    TotalCellY(viewportWidth, viewportHeight) * MaxCell
  }

  /** A 1000 x 500 viewport: cells of 10 pixels, 50 rows, 5000 cells. */
  lemma Grid1000By500()
    ensures CellSize(1000) == 10.0
    ensures TotalCellY(1000, 500) == 50
    ensures TotalCell(1000, 500) == 5000
  {
  }
}

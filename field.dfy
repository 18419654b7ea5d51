/** The field: a fixed grid of 4 x 4 plots, each holding one of five states. */
module Field {

  const Rows: int := 4
  const Cols: int := 4
  /** Number of plots; flat indices 0 .. GridSize - 1 enumerate them in row-major order. */
  const GridSize: int := 16

  /** Per-plot state, in the order of the source's integer codes 0 .. 4. */
  datatype Cell = Healthy | Diseased | Spraying | Scanning | Sprayed

  datatype Coord = Coord(row: int, col: int)

  function Min(a: int, b: int): int {
    if a < b then a else b
  }

  predicate InGrid(p: Coord) {
    0 <= p.row < Rows && 0 <= p.col < Cols
  }

  /** The states a plot rests in between operations: Scanning and Spraying are only transient. */
  predicate Settled(c: Cell) {
    c == Healthy || c == Diseased || c == Sprayed
  }

  /** Clicked tile index to plot: the tiles are laid out row by row, Cols per row. */
  function CellOf(i: int): (p: Coord)
    requires 0 <= i < GridSize
    ensures InGrid(p)
    ensures p.row * Cols + p.col == i
  {
    Coord(i / Cols, i % Cols)
  }

  /** Position of a plot in row-major order; CellOf undoes it. */
  function FlatIndex(p: Coord): (i: int)
    requires InGrid(p)
    ensures 0 <= i < GridSize
    ensures CellOf(i) == p
  {
    p.row * Cols + p.col
  }

  /** A manual inspection may reclassify only a healthy or an already sprayed plot. */
  predicate Markable(c: Cell) {
    c == Healthy || c == Sprayed
  }

  /** The state of a plot after an operator marks it diseased. */
  function Marked(c: Cell): (r: Cell)
    ensures r == Diseased || r == c
    ensures r == Diseased <==> Markable(c) || c == Diseased
    ensures Settled(c) ==> Settled(r)
  {
    if Markable(c) then Diseased else c
  }
}

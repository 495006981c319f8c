/** The Minesweeper board: its configuration, its coordinates and the 3x3 block
    around a cell that both mine counting and the flood fill walk. */
module Board {

  /** A cell coordinate `(row, col)`, as the game keys its sets. */
  type Cell = (int, int)

  /** The board size and mine count (ROWS, COLS, MINES in hao.py). */
  datatype Config = Config(rows: int, cols: int, mines: int) {
    /** A board placement can fill: at least one cell is left for the first click. */
    predicate Valid() {
      0 < rows && 0 < cols && 0 < mines < rows * cols
    }
  }

  /** The settings hao.py ships with: a 9x9 board with 10 mines. */
  const Default: Config := Config(9, 9, 10)

  /** Sanity fact about the shipped constants: they meet `Valid`. */
  lemma DefaultIsValid()
    ensures Default.Valid() && |AllCells(Default)| == 81
  {
  }

  predicate InBounds(cfg: Config, x: Cell) {
    0 <= x.0 < cfg.rows && 0 <= x.1 < cfg.cols
  }

  /** Row `r` of the grid: the cells `(r, c)` with `0 <= c < cols`. */
  function Row(r: int, cols: int): (cells: set<Cell>)
    ensures forall x :: x in cells <==> x.0 == r && 0 <= x.1 < cols
    ensures 0 <= cols ==> |cells| == cols
  {
    if cols <= 0 then {} else Row(r, cols - 1) + {(r, cols - 1)}
  }

  /** The cells `(r, c)` with `0 <= r < rows` and `0 <= c < cols`, built row
      by row. */
  function Grid(rows: int, cols: int): (cells: set<Cell>)
    ensures forall x :: x in cells <==> 0 <= x.0 < rows && 0 <= x.1 < cols
    ensures 0 <= rows && 0 <= cols ==> |cells| == rows * cols
  {
    if rows <= 0 then {}
    else
      var top, last := Grid(rows - 1, cols), Row(rows - 1, cols);
      assert top !! last;
      assert (rows - 1) * cols + cols == rows * cols;
      top + last
  }

  /** Every in-bounds cell of the board. */
  function AllCells(cfg: Config): (cells: set<Cell>)
    ensures forall x :: x in cells <==> InBounds(cfg, x)
    ensures 0 <= cfg.rows && 0 <= cfg.cols ==> |cells| == cfg.rows * cfg.cols
  {
    RectangleIsGrid(cfg.rows, cfg.cols);
    set r, c | 0 <= r < cfg.rows && 0 <= c < cfg.cols :: (r, c)
  }

  /** The rectangle written as a comprehension is the grid built row by row. */
  lemma RectangleIsGrid(rows: int, cols: int)
    ensures (set r, c | 0 <= r < rows && 0 <= c < cols :: (r, c)) == Grid(rows, cols)
  {
    RectangleWithinGrid(rows, cols);
    GridWithinRectangle(rows, cols);
  }

  lemma RectangleWithinGrid(rows: int, cols: int)
    ensures (set r, c | 0 <= r < rows && 0 <= c < cols :: (r, c)) <= Grid(rows, cols)
  {
  }

  lemma GridWithinRectangle(rows: int, cols: int)
    ensures Grid(rows, cols) <= (set r, c | 0 <= r < rows && 0 <= c < cols :: (r, c))
  {
    var cells := set r, c | 0 <= r < rows && 0 <= c < cols :: (r, c);
    forall x | x in Grid(rows, cols) ensures x in cells {
      var (r, c) := x;
      assert (r, c) in cells;
    }
  }

  /** The cells a sequence lists. */
  function Members(cells: seq<Cell>): set<Cell> {
    set y | y in cells
  }

  /** `y` lies in the 3x3 block centred on `x` (the centre included). */
  predicate Near(x: Cell, y: Cell) {
    -1 <= y.0 - x.0 <= 1 && -1 <= y.1 - x.1 <= 1
  }

  /** The 3x3 block centred on `x`, in the order hao.py's two nested loops
      over `range(r - 1, r + 2)` and `range(c - 1, c + 2)` visit it. */
  function BlockCells(x: Cell): (cells: seq<Cell>)
    ensures |cells| == 9 && cells[4] == x
    ensures forall y :: y in cells <==> Near(x, y)
    ensures forall i, j :: 0 <= i < j < |cells| ==> cells[i] != cells[j]
  {
    var (r, c) := x;
    [(r - 1, c - 1), (r - 1, c), (r - 1, c + 1),
     (r, c - 1),     (r, c),     (r, c + 1),
     (r + 1, c - 1), (r + 1, c), (r + 1, c + 1)]
  }
}

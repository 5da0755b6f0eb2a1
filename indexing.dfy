/** The state indexer of HMMPredictor: a state (row, col, heading) is packed
    into one flat index with the heading varying fastest, and a grid cell
    (row, col) into a row-major cell index that doubles as the index of its
    observation vector. Headings are 0 North, 1 East, 2 South, 3 West. */
module Indexing {

  /** Number of headings per cell. */
  const Heads: int := 4

  /** The grids the model is built for: square, at least 2 x 2. */
  predicate SquareGrid(rows: int, cols: int) {
    rows == cols && rows >= 2
  }

  /** Row-major index of a cell. */
  function Cell(cols: int, row: int, col: int): int {
    col + row * cols
  }

  /** mapT: heading varies fastest, then column, then row. */
  function MapT(cols: int, row: int, col: int, head: int): (k: int)
    ensures 0 <= head < Heads ==> k % 4 == head && k / 4 == Cell(cols, row, col)
  {
    col * 4 + row * cols * 4 + head
  }

  /** mapO: a cell's observation vector; any negative coordinate selects the
      "nothing" vector at slot rows * cols. */
  function MapO(rows: int, cols: int, row: int, col: int): int {
    if row < 0 || col < 0 then rows * cols else col + row * cols
  }

  // Decoding of flat indices (used by the specifications only as inverses).
  function CellRow(cols: int, c: int): int
    requires cols > 0
  {
    c / cols
  }

  function CellCol(cols: int, c: int): int
    requires cols > 0
  {
    c % cols
  }

  function StateRow(cols: int, k: int): int
    requires cols > 0
  {
    CellRow(cols, k / 4)
  }

  function StateCol(cols: int, k: int): int
    requires cols > 0
  {
    CellCol(cols, k / 4)
  }

  function StateHead(k: int): int {
    k % 4
  }

  /** The neighbour indices that generateCorners, generateWalls and generateT
      write, each an inlined mapT call. */
  function MoveNorth(cols: int, row: int, col: int): (k: int)
    ensures k == MapT(cols, row - 1, col, 0)
  {
    col * 4 + (row - 1) * cols * 4
  }

  function MoveEast(cols: int, row: int, col: int): (k: int)
    ensures k == MapT(cols, row, col + 1, 1)
  {
    (col + 1) * 4 + row * cols * 4 + 1
  }

  function MoveSouth(cols: int, row: int, col: int): (k: int)
    ensures k == MapT(cols, row + 1, col, 2)
  {
    col * 4 + (row + 1) * cols * 4 + 2
  }

  function MoveWest(cols: int, row: int, col: int): (k: int)
    ensures k == MapT(cols, row, col - 1, 3)
  {
    (col - 1) * 4 + row * cols * 4 + 3
  }

  /** The source rows of T, one per heading of a cell. */
  function FaceNorth(cols: int, row: int, col: int): (k: int)
    ensures StateHead(k) == 0 && k / 4 == Cell(cols, row, col)
  {
    MapT(cols, row, col, 0)
  }

  function FaceEast(cols: int, row: int, col: int): (k: int)
    ensures StateHead(k) == 1 && k / 4 == Cell(cols, row, col)
  {
    MapT(cols, row, col, 1)
  }

  function FaceSouth(cols: int, row: int, col: int): (k: int)
    ensures StateHead(k) == 2 && k / 4 == Cell(cols, row, col)
  {
    MapT(cols, row, col, 2)
  }

  function FaceWest(cols: int, row: int, col: int): (k: int)
    ensures StateHead(k) == 3 && k / 4 == Cell(cols, row, col)
  {
    MapT(cols, row, col, 3)
  }

  /** Euclidean division is determined by quotient and remainder. */
  lemma DivModUnique(a: int, m: int, q: int, r: int)
    requires m > 0 && 0 <= r < m && a == q * m + r
    ensures a / m == q && a % m == r
  {
    var q', r' := a / m, a % m;
    assert a == q' * m + r';
    var d := q - q';
    assert d * m == r' - r;
    assert d >= 1 ==> d * m >= m;
    assert d <= -1 ==> d * m <= -m;
  }

  lemma CellRange(rows: int, cols: int, row: int, col: int)
    requires 0 <= row < rows && 0 <= col < cols
    ensures 0 <= Cell(cols, row, col) < rows * cols
  {
    assert (rows - 1 - row) * cols >= 0;
    assert row * cols >= 0;
  }

  /** Decoding a cell index gives back its coordinates. */
  lemma CellDecode(cols: int, row: int, col: int)
    requires 0 <= col < cols
    ensures CellRow(cols, Cell(cols, row, col)) == row
    ensures CellCol(cols, Cell(cols, row, col)) == col
  {
    DivModUnique(Cell(cols, row, col), cols, row, col);
  }

  /** Every cell index in range is the index of a cell in range. */
  lemma CellEncode(rows: int, cols: int, c: int)
    requires rows > 0 && cols > 0 && 0 <= c < rows * cols
    ensures 0 <= CellRow(cols, c) < rows && 0 <= CellCol(cols, c) < cols
    ensures Cell(cols, CellRow(cols, c), CellCol(cols, c)) == c
  {
    var q := c / cols;
    assert c == q * cols + c % cols;
    MulSign(q + 1, cols);
    assert (q + 1) * cols == q * cols + cols;
    MulSign(rows - q, cols);
    assert (rows - q) * cols == rows * cols - q * cols;
  }

  /** With a positive factor m, a * m is positive exactly when a is. */
  lemma {:induction false} MulSign(a: int, m: int)
    requires m > 0
    ensures a > 0 <==> a * m > 0
    ensures a >= 0 ==> a * m >= 0
    decreases if a > 0 then a else -a
  {
    if a > 1 {
      MulSign(a - 1, m);
      assert a * m == (a - 1) * m + m;
    } else if a < 0 {
      MulSign(a + 1, m);
      assert a * m == (a + 1) * m - m;
    }
  }

  /** mapT stays inside [0, rows * cols * 4). */
  lemma MapTRange(rows: int, cols: int, row: int, col: int, head: int)
    requires 0 <= row < rows && 0 <= col < cols && 0 <= head < Heads
    ensures 0 <= MapT(cols, row, col, head) < rows * cols * 4
  {
    CellRange(rows, cols, row, col);
  }

  /** Decoding a state index gives back its coordinates. */
  lemma MapTDecode(cols: int, row: int, col: int, head: int)
    requires 0 <= col < cols && 0 <= head < Heads
    ensures StateRow(cols, MapT(cols, row, col, head)) == row
    ensures StateCol(cols, MapT(cols, row, col, head)) == col
    ensures StateHead(MapT(cols, row, col, head)) == head
  {
    CellDecode(cols, row, col);
  }

  /** Every index in [0, rows * cols * 4) is mapT of a state in range. */
  lemma MapTEncode(rows: int, cols: int, k: int)
    requires rows > 0 && cols > 0 && 0 <= k < rows * cols * 4
    ensures 0 <= StateRow(cols, k) < rows && 0 <= StateCol(cols, k) < cols
    ensures 0 <= StateHead(k) < Heads
    ensures MapT(cols, StateRow(cols, k), StateCol(cols, k), StateHead(k)) == k
  {
    CellEncode(rows, cols, k / 4);
  }

  /** mapT is injective on states in range. */
  lemma MapTInjective(cols: int, r1: int, c1: int, h1: int, r2: int, c2: int, h2: int)
    requires 0 <= c1 < cols && 0 <= h1 < Heads && 0 <= c2 < cols && 0 <= h2 < Heads
    ensures MapT(cols, r1, c1, h1) == MapT(cols, r2, c2, h2) <==> r1 == r2 && c1 == c2 && h1 == h2
  {
    MapTDecode(cols, r1, c1, h1);
    MapTDecode(cols, r2, c2, h2);
  }

  /** mapO sends a cell in range to its row-major index, and anything with a
      negative coordinate to the "nothing" slot, which no cell uses. */
  lemma MapOSlots(rows: int, cols: int, row: int, col: int)
    requires rows > 0 && cols > 0
    ensures (row < 0 || col < 0) ==> MapO(rows, cols, row, col) == rows * cols
    ensures 0 <= row < rows && 0 <= col < cols ==>
              0 <= MapO(rows, cols, row, col) < rows * cols &&
              CellRow(cols, MapO(rows, cols, row, col)) == row &&
              CellCol(cols, MapO(rows, cols, row, col)) == col
  {
    if 0 <= row < rows && 0 <= col < cols {
      CellRange(rows, cols, row, col);
      CellDecode(cols, row, col);
    }
  }

  /** Stepping past the last column of row i lands on the first cell of row
      i + 1, both in cell and in state numbering. */
  lemma NextRow(cols: int, i: int)
    ensures Cell(cols, i, cols) == Cell(cols, i + 1, 0)
    ensures MapT(cols, i, cols, 0) == MapT(cols, i + 1, 0, 0)
  {
    assert (i + 1) * cols == i * cols + cols;
  }
}

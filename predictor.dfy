/** HMMPredictor: the simulator and forward filter for a robot on a square
    grid. It owns the transition matrix T (one row per state), the
    observation matrices O (one row per sensor reading, the last one for
    "nothing"), the belief f over states, the true pose pos and the last
    sensor reading sens. */
module Predictor {
  import opened Indexing
  import opened Sums
  import opened Transition
  import opened Observation
  import opened Moves
  import opened Readings
  import opened Sampling
  import opened Filter
  import opened Scratch

  /** The candidates move() lists for a robot in state (i, j, h): the
      non-zero entries of the rule's T row, in row-major order. */
  function MoveList(rows: int, cols: int, i: int, j: int, h: int): seq<Movement>
    requires rows > 0 && cols > 0
  {
    MoveCandidates(rows, cols, ExpectedRow(rows, cols, i, j, h), rows * cols * 4)
  }

  /** The candidates getSensorReading() lists for a robot in state k: the
      cells with a non-zero O entry for k, then "nothing". */
  function ReadingList(rows: int, cols: int, k: int): seq<Reading>
    requires rows > 0 && cols > 0
  {
    SensorCandidates(rows, cols, Column(rows, cols, k))
  }

  /** A robot always has somewhere to go, and every candidate of move()
      is one legal step from (i, j), facing the direction moved. */
  lemma MoveListSteps(rows: int, cols: int, i: int, j: int, h: int)
    requires SquareGrid(rows, cols) && 0 <= i < rows && 0 <= j < cols && 0 <= h < Heads
    ensures var c := MoveList(rows, cols, i, j, h);
      |c| > 0 &&
      forall x :: 0 <= x < |c| ==>
        var p := c[x].GetPos();
        |p| == 3 && 0 <= p[2] < Heads && Legal(rows, cols, i, j, p[2]) &&
        p[0] == i + DRow(p[2]) && p[1] == j + DCol(p[2])
  {
    var c := MoveList(rows, cols, i, j, h);
    var row := ExpectedRow(rows, cols, i, j, h);
    var k := Target(rows, cols, i, j, if i == 0 then 2 else 0);
    ExpectedRange(rows, cols, i, j, h, k);
    assert row[k] != 0.0;
    MoveCandidatesExact(rows, cols, row, rows * cols * 4);
    forall x | 0 <= x < |c|
      ensures var p := c[x].GetPos();
        |p| == 3 && 0 <= p[2] < Heads && Legal(rows, cols, i, j, p[2]) &&
        p[0] == i + DRow(p[2]) && p[1] == j + DCol(p[2])
    {
      var p := c[x].GetPos();
      assert MovesTo(rows, cols, row, c[x]);
      var k := MapT(cols, p[0], p[1], p[2]);
      ExpectedRange(rows, cols, i, j, h, k);
      PositiveIsStep(rows, cols, i, j, h, p[0], p[1], p[2]);
    }
  }

  /** Every candidate of getSensorReading() for a robot in (i, j, h) is
      either a cell at most two rows and two columns away or "nothing" as
      (-1, -1), and its O entry for the state is positive. */
  lemma ReadingListSound(rows: int, cols: int, i: int, j: int, h: int)
    requires SquareGrid(rows, cols) && 0 <= i < rows && 0 <= j < cols && 0 <= h < Heads
    ensures var c := ReadingList(rows, cols, MapT(cols, i, j, h));
      forall x :: 0 <= x < |c| ==>
        var p := c[x].GetPos();
        |p| == 2 &&
        ((0 <= p[0] < rows && 0 <= p[1] < cols && Abs(p[0] - i) <= 2 && Abs(p[1] - j) <= 2) ||
         (p[0] == -1 && p[1] == -1)) &&
        OEntry(rows, cols, MapO(rows, cols, p[0], p[1]), MapT(cols, i, j, h)) > 0.0
  {
    var k := MapT(cols, i, j, h);
    var column := Column(rows, cols, k);
    var c := ReadingList(rows, cols, k);
    MapTRange(rows, cols, i, j, h);
    MapTDecode(cols, i, j, h);
    var cells := CellCandidates(rows, cols, column, rows * cols);
    CellCandidatesExact(rows, cols, column, rows * cols);
    assert c == cells + [NewReading(column[rows * cols], -1, -1)];
    forall x | 0 <= x < |c|
      ensures var p := c[x].GetPos();
        |p| == 2 &&
        ((0 <= p[0] < rows && 0 <= p[1] < cols && Abs(p[0] - i) <= 2 && Abs(p[1] - j) <= 2) ||
         (p[0] == -1 && p[1] == -1)) &&
        OEntry(rows, cols, MapO(rows, cols, p[0], p[1]), k) > 0.0
    {
      var p := c[x].GetPos();
      if x < |cells| {
        assert c[x] == cells[x];
        assert ReportsCell(rows, cols, column, cells[x]);
        var r := Cell(cols, p[0], p[1]);
        assert column[r] == OEntry(rows, cols, r, k) && column[r] != 0.0;
        CellDecode(cols, p[0], p[1]);
        OEntryRange(rows, cols, r, k);
        assert CellWeight(p[0], p[1], i, j) != 0.0;
      } else {
        NothingPositive(rows, cols, i, j);
      }
    }
  }

  class HMMPredictor {
    const rows: int
    const cols: int
    const head: int
    const T: array2<real>
    const O: array2<real>
    const f: array<real>
    var pos: seq<int>
    var sens: seq<int>

    /** Dimensions fixed by the constructor. */
    ghost predicate Shape() {
      SquareGrid(rows, cols) && head == Heads &&
      T.Length0 == rows * cols * 4 && T.Length1 == rows * cols * 4 &&
      O.Length0 == rows * cols + 1 && O.Length1 == rows * cols * 4 &&
      f.Length == rows * cols * 4 && T != O
    }

    /** Row s of T is the row of the transition rule. */
    ghost predicate TRow(s: int)
      reads T
    {
      cols > 0 && 0 <= s < T.Length0 &&
      forall k :: 0 <= k < T.Length1 ==> T[s, k] == TEntry(rows, cols, s, k)
    }

    ghost predicate TBuilt()
      reads T
    {
      forall s :: 0 <= s < T.Length0 ==> TRow(s)
    }

    ghost predicate OBuilt()
      reads O
    {
      cols > 0 && rows >= 0 &&
      forall r, k :: 0 <= r < O.Length0 && 0 <= k < O.Length1 ==> O[r, k] == OEntry(rows, cols, r, k)
    }

    /** T and O hold the rules of the model. */
    ghost predicate Model()
      reads T, O
    {
      Shape() && TBuilt() && OBuilt()
    }

    /** Only the rows of the four states of cell (i, j) differ from the
        earlier state of T. */
    twostate predicate KeptOutsideCell(i: int, j: int)
      reads T
    {
      forall s, x ::
        0 <= s < T.Length0 && 0 <= x < T.Length1 && s / 4 != Cell(cols, i, j) ==> T[s, x] == old(T[s, x])
    }

    /** System.arraycopy of the scratch row into row MapT(i, j, h) of T. The
        callers only copy a scratch row that is the rule's row for (i, j, h). */
    method CopyRow(row: seq<real>, i: int, j: int, h: int)
      requires Shape() && 0 <= i < rows && 0 <= j < cols && 0 <= h < Heads
      requires row == ExpectedRow(rows, cols, i, j, h)
      modifies T
      ensures TRow(MapT(cols, i, j, h))
      ensures forall s :: old(TRow(s)) ==> TRow(s)
      ensures KeptOutsideCell(i, j)
    {
      var dest := MapT(cols, i, j, h);
      MapTRange(rows, cols, i, j, h);
      MapTDecode(cols, i, j, h);
      assert forall x :: 0 <= x < |row| ==> row[x] == TEntry(rows, cols, dest, x);
      CopyInto(row, dest);
      forall s | old(TRow(s))
        ensures TRow(s)
      {
      }
    }

    /** The copy loop: row dest of T becomes row, the other rows stay. */
    method CopyInto(row: seq<real>, dest: int)
      requires 0 <= dest < T.Length0 && |row| == T.Length1
      modifies T
      ensures forall x :: 0 <= x < T.Length1 ==> T[dest, x] == row[x]
      ensures forall s, x :: 0 <= s < T.Length0 && 0 <= x < T.Length1 && s != dest ==> T[s, x] == old(T[s, x])
    {
      var k := 0;
      while k < |row|
        invariant 0 <= k <= |row|
        invariant forall x :: 0 <= x < k ==> T[dest, x] == row[x]
        invariant forall s, x :: 0 <= s < T.Length0 && 0 <= x < T.Length1 && s != dest ==> T[s, x] == old(T[s, x])
      {
        T[dest, k] := row[k];
        k := k + 1;
      }
    }

    /** The four rows of cell (i, j) are the rule's rows. */
    ghost predicate CellDone(i: int, j: int)
      reads T
    {
      forall h :: 0 <= h < Heads ==> TRow(MapT(cols, i, j, h))
    }

    /** Rows for all four headings of a cell make the cell done. */
    lemma AllHeadings(i: int, j: int, a: int, b: int, c: int, d: int)
      requires 0 <= a < Heads && 0 <= b < Heads && 0 <= c < Heads && 0 <= d < Heads
      requires a != b && a != c && a != d && b != c && b != d && c != d
      requires TRow(MapT(cols, i, j, a)) && TRow(MapT(cols, i, j, b))
      requires TRow(MapT(cols, i, j, c)) && TRow(MapT(cols, i, j, d))
      ensures CellDone(i, j)
    {
      forall h | 0 <= h < Heads
        ensures TRow(MapT(cols, i, j, h))
      {
        if h != a && h != b && h != c {
          assert h == d;
        }
      }
    }

    /** The four rows of a corner cell, as each block of generateCorners
        writes them into a zero scratch row. p and q are the two legal moves
        and w1, w2 the headings that face a wall. The wall headings get 0.5
        on both moves, heading p gets 0.7 on p and 0.3 on q, heading q the
        reverse. The block then clears the scratch row, except the last
        block (clear false), after which the row is not read again. */
    method CornerRows(row: seq<real>, i: int, j: int, w1: int, w2: int, p: int, q: int, clear: bool)
      returns (scratch: seq<real>)
      requires Shape() && row == Zeros(rows * cols * 4)
      requires 0 <= i < rows && 0 <= j < cols
      requires 0 <= w1 < Heads && 0 <= w2 < Heads && 0 <= p < Heads && 0 <= q < Heads
      requires w1 != w2 && w1 != p && w1 != q && w2 != p && w2 != q && p != q
      requires Legal(rows, cols, i, j, p) && Legal(rows, cols, i, j, q)
      requires !Legal(rows, cols, i, j, w1) && !Legal(rows, cols, i, j, w2)
      requires forall d :: 0 <= d < Heads && Legal(rows, cols, i, j, d) ==> d == p || d == q
      requires LegalCount(rows, cols, i, j) == 2
      modifies T
      ensures clear ==> scratch == row
      ensures CellDone(i, j)
      ensures forall s :: old(TRow(s)) ==> TRow(s)
      ensures KeptOutsideCell(i, j)
    {
      scratch := CornerWallRows(row, i, j, w1, w2, p, q);
      scratch := CornerMoveRows(row, scratch, i, j, w1, w2, p, q, clear);
      AllHeadings(i, j, w1, w2, p, q);
    }

    /** The first half of a corner cell: the rows of the two headings that
        face a wall. */
    method CornerWallRows(row: seq<real>, i: int, j: int, w1: int, w2: int, p: int, q: int)
      returns (scratch: seq<real>)
      requires Shape() && row == Zeros(rows * cols * 4)
      requires 0 <= i < rows && 0 <= j < cols
      requires 0 <= w1 < Heads && 0 <= w2 < Heads && 0 <= p < Heads && 0 <= q < Heads
      requires p != q
      requires Legal(rows, cols, i, j, p) && Legal(rows, cols, i, j, q)
      requires !Legal(rows, cols, i, j, w1) && !Legal(rows, cols, i, j, w2)
      requires forall d :: 0 <= d < Heads && Legal(rows, cols, i, j, d) ==> d == p || d == q
      requires LegalCount(rows, cols, i, j) == 2
      modifies T
      ensures scratch == Put2(row, Target(rows, cols, i, j, p), Target(rows, cols, i, j, q), 0.5, 0.5)
      ensures TRow(MapT(cols, i, j, w1)) && TRow(MapT(cols, i, j, w2))
      ensures forall s :: old(TRow(s)) ==> TRow(s)
      ensures KeptOutsideCell(i, j)
    {
      var tp, tq := Target(rows, cols, i, j, p), Target(rows, cols, i, j, q);
      assert tp % 4 == p && tq % 4 == q;
      Put2Same(row, tp, tq);
      scratch := row[tp := 0.5];
      Put2Write(row, tp, tq, 0.0, 0.0, 0.5);
      scratch := scratch[tq := 0.5];
      Put2Write(row, tp, tq, 0.5, 0.0, 0.5);
      TwoMoveRow(rows, cols, i, j, w1, p, q, 0.5, 0.5);
      TwoMoveRow(rows, cols, i, j, w2, p, q, 0.5, 0.5);
      CopyRow(scratch, i, j, w1);
      CopyRow(scratch, i, j, w2);
    }

    /** The second half of a corner cell: the rows of the headings p and q,
        then the scratch row is cleared when clear holds. */
    method CornerMoveRows(row: seq<real>, prev: seq<real>, i: int, j: int, w1: int, w2: int, p: int, q: int, clear: bool)
      returns (scratch: seq<real>)
      requires Shape() && row == Zeros(rows * cols * 4)
      requires 0 <= i < rows && 0 <= j < cols
      requires 0 <= w1 < Heads && 0 <= w2 < Heads && 0 <= p < Heads && 0 <= q < Heads
      requires p != q
      requires Legal(rows, cols, i, j, p) && Legal(rows, cols, i, j, q)
      requires !Legal(rows, cols, i, j, w1) && !Legal(rows, cols, i, j, w2)
      requires forall d :: 0 <= d < Heads && Legal(rows, cols, i, j, d) ==> d == p || d == q
      requires LegalCount(rows, cols, i, j) == 2
      requires prev == Put2(row, Target(rows, cols, i, j, p), Target(rows, cols, i, j, q), 0.5, 0.5)
      modifies T
      ensures clear ==> scratch == row
      ensures TRow(MapT(cols, i, j, p)) && TRow(MapT(cols, i, j, q))
      ensures forall s :: old(TRow(s)) ==> TRow(s)
      ensures KeptOutsideCell(i, j)
    {
      var tp, tq := Target(rows, cols, i, j, p), Target(rows, cols, i, j, q);
      assert tp % 4 == p && tq % 4 == q;
      scratch := prev[tq := 0.3];
      Put2Write(row, tp, tq, 0.5, 0.5, 0.3);
      scratch := scratch[tp := 0.7];
      Put2Write(row, tp, tq, 0.5, 0.3, 0.7);
      TwoMoveRow(rows, cols, i, j, p, p, q, 0.7, 0.3);
      CopyRow(scratch, i, j, p);
      scratch := scratch[tp := 0.3];
      Put2Write(row, tp, tq, 0.7, 0.3, 0.3);
      scratch := scratch[tq := 0.7];
      Put2Write(row, tp, tq, 0.3, 0.3, 0.7);
      TwoMoveRow(rows, cols, i, j, q, p, q, 0.3, 0.7);
      CopyRow(scratch, i, j, q);
      if clear {
        scratch := scratch[tp := 0.0];
        Put2Write(row, tp, tq, 0.3, 0.7, 0.0);
        scratch := scratch[tq := 0.0];
        Put2Write(row, tp, tq, 0.0, 0.7, 0.0);
        Put2Same(row, tp, tq);
      }
    }

    /** The four rows of a wall cell, as each loop body of generateWalls
        writes them into a zero scratch row. w is the heading that faces the
        wall and x, y, z the three legal moves in the order the source fills
        their rows. Heading w gets 0.33 on every legal move; heading x gets
        0.7 on x and 0.15 on the other two, and likewise for y and z. The
        scratch row is zero again at the end. */
    method WallRows(row: seq<real>, i: int, j: int, w: int, x: int, y: int, z: int) returns (scratch: seq<real>)
      requires Shape() && row == Zeros(rows * cols * 4)
      requires 0 <= i < rows && 0 <= j < cols
      requires 0 <= w < Heads && 0 <= x < Heads && 0 <= y < Heads && 0 <= z < Heads
      requires w != x && w != y && w != z && x != y && x != z && y != z
      requires !Legal(rows, cols, i, j, w)
      requires Legal(rows, cols, i, j, x) && Legal(rows, cols, i, j, y) && Legal(rows, cols, i, j, z)
      requires forall d :: 0 <= d < Heads && Legal(rows, cols, i, j, d) ==> d == x || d == y || d == z
      requires LegalCount(rows, cols, i, j) == 3
      modifies T
      ensures scratch == row
      ensures CellDone(i, j)
      ensures forall s :: old(TRow(s)) ==> TRow(s)
      ensures KeptOutsideCell(i, j)
    {
      scratch := WallFirstRows(row, i, j, w, x, y, z);
      scratch := WallLastRows(row, scratch, i, j, w, x, y, z);
      AllHeadings(i, j, w, x, y, z);
    }

    /** The first half of a wall cell: the rows of headings w and x. */
    method WallFirstRows(row: seq<real>, i: int, j: int, w: int, x: int, y: int, z: int) returns (scratch: seq<real>)
      requires Shape() && row == Zeros(rows * cols * 4)
      requires 0 <= i < rows && 0 <= j < cols
      requires 0 <= w < Heads && 0 <= x < Heads && 0 <= y < Heads && 0 <= z < Heads
      requires x != y && x != z && y != z
      requires !Legal(rows, cols, i, j, w)
      requires Legal(rows, cols, i, j, x) && Legal(rows, cols, i, j, y) && Legal(rows, cols, i, j, z)
      requires forall d :: 0 <= d < Heads && Legal(rows, cols, i, j, d) ==> d == x || d == y || d == z
      requires LegalCount(rows, cols, i, j) == 3
      modifies T
      ensures scratch == Put3(row, Target(rows, cols, i, j, x), Target(rows, cols, i, j, y), Target(rows, cols, i, j, z), 0.7, 0.15, 0.15)
      ensures TRow(MapT(cols, i, j, w)) && TRow(MapT(cols, i, j, x))
      ensures forall s :: old(TRow(s)) ==> TRow(s)
      ensures KeptOutsideCell(i, j)
    {
      var tx, ty, tz := Target(rows, cols, i, j, x), Target(rows, cols, i, j, y), Target(rows, cols, i, j, z);
      assert tx % 4 == x && ty % 4 == y && tz % 4 == z;
      Put3Same(row, tx, ty, tz);
      scratch := row[tz := 0.33];
      Put3Write(row, tx, ty, tz, 0.0, 0.0, 0.0, 0.33);
      scratch := scratch[ty := 0.33];
      Put3Write(row, tx, ty, tz, 0.0, 0.0, 0.33, 0.33);
      scratch := scratch[tx := 0.33];
      Put3Write(row, tx, ty, tz, 0.0, 0.33, 0.33, 0.33);
      ThreeMoveRow(rows, cols, i, j, w, x, y, z, 0.33, 0.33, 0.33);
      CopyRow(scratch, i, j, w);
      scratch := scratch[ty := 0.15];
      Put3Write(row, tx, ty, tz, 0.33, 0.33, 0.33, 0.15);
      scratch := scratch[tz := 0.15];
      Put3Write(row, tx, ty, tz, 0.33, 0.15, 0.33, 0.15);
      scratch := scratch[tx := 0.7];
      Put3Write(row, tx, ty, tz, 0.33, 0.15, 0.15, 0.7);
      ThreeMoveRow(rows, cols, i, j, x, x, y, z, 0.7, 0.15, 0.15);
      CopyRow(scratch, i, j, x);
    }

    /** The second half of a wall cell: the rows of headings y and z, then
        the scratch row is cleared. */
    method WallLastRows(row: seq<real>, prev: seq<real>, i: int, j: int, w: int, x: int, y: int, z: int)
      returns (scratch: seq<real>)
      requires Shape() && row == Zeros(rows * cols * 4)
      requires 0 <= i < rows && 0 <= j < cols
      requires 0 <= w < Heads && 0 <= x < Heads && 0 <= y < Heads && 0 <= z < Heads
      requires x != y && x != z && y != z
      requires !Legal(rows, cols, i, j, w)
      requires Legal(rows, cols, i, j, x) && Legal(rows, cols, i, j, y) && Legal(rows, cols, i, j, z)
      requires forall d :: 0 <= d < Heads && Legal(rows, cols, i, j, d) ==> d == x || d == y || d == z
      requires LegalCount(rows, cols, i, j) == 3
      requires prev == Put3(row, Target(rows, cols, i, j, x), Target(rows, cols, i, j, y), Target(rows, cols, i, j, z), 0.7, 0.15, 0.15)
      modifies T
      ensures scratch == row
      ensures TRow(MapT(cols, i, j, y)) && TRow(MapT(cols, i, j, z))
      ensures forall s :: old(TRow(s)) ==> TRow(s)
      ensures KeptOutsideCell(i, j)
    {
      var tx, ty, tz := Target(rows, cols, i, j, x), Target(rows, cols, i, j, y), Target(rows, cols, i, j, z);
      assert tx % 4 == x && ty % 4 == y && tz % 4 == z;
      scratch := prev;
      scratch := scratch[tx := 0.15];
      Put3Write(row, tx, ty, tz, 0.7, 0.15, 0.15, 0.15);
      scratch := scratch[tz := 0.15];
      Put3Write(row, tx, ty, tz, 0.15, 0.15, 0.15, 0.15);
      scratch := scratch[ty := 0.7];
      Put3Write(row, tx, ty, tz, 0.15, 0.15, 0.15, 0.7);
      ThreeMoveRow(rows, cols, i, j, y, x, y, z, 0.15, 0.7, 0.15);
      CopyRow(scratch, i, j, y);
      scratch := scratch[ty := 0.15];
      Put3Write(row, tx, ty, tz, 0.15, 0.7, 0.15, 0.15);
      scratch := scratch[tx := 0.15];
      Put3Write(row, tx, ty, tz, 0.15, 0.15, 0.15, 0.15);
      scratch := scratch[tz := 0.7];
      Put3Write(row, tx, ty, tz, 0.15, 0.15, 0.15, 0.7);
      ThreeMoveRow(rows, cols, i, j, z, x, y, z, 0.15, 0.15, 0.7);
      CopyRow(scratch, i, j, z);
      scratch := scratch[tz := 0.0];
      Put3Write(row, tx, ty, tz, 0.15, 0.15, 0.7, 0.0);
      scratch := scratch[ty := 0.0];
      Put3Write(row, tx, ty, tz, 0.15, 0.15, 0.0, 0.0);
      scratch := scratch[tx := 0.0];
      Put3Write(row, tx, ty, tz, 0.15, 0.0, 0.0, 0.0);
      Put3Same(row, tx, ty, tz);
    }

    /** The four rows of an interior cell, as the loop body of generateT
        writes them into a zero scratch row: heading h gets 0.7 on the move
        in direction h and 0.1 on each of the other three. The scratch row
        is zero again at the end. */
    method MiddleRows(row: seq<real>, i: int, j: int) returns (scratch: seq<real>)
      requires Shape() && row == Zeros(rows * cols * 4)
      requires 1 <= i < rows - 1 && 1 <= j < cols - 1
      modifies T
      ensures scratch == row
      ensures CellDone(i, j)
      ensures forall s :: old(TRow(s)) ==> TRow(s)
      ensures KeptOutsideCell(i, j)
    {
      var tn, te, ts, tw := MoveNorth(cols, i, j), MoveEast(cols, i, j), MoveSouth(cols, i, j), MoveWest(cols, i, j);
      assert tn == Target(rows, cols, i, j, 0) && te == Target(rows, cols, i, j, 1);
      assert ts == Target(rows, cols, i, j, 2) && tw == Target(rows, cols, i, j, 3);
      assert tn % 4 == 0 && te % 4 == 1 && ts % 4 == 2 && tw % 4 == 3;
      Put4Same(row, tn, te, ts, tw);
      scratch := row[tw := 0.1];
      Put4Write(row, tn, te, ts, tw, 0.0, 0.0, 0.0, 0.0, 0.1);
      scratch := scratch[ts := 0.1];
      Put4Write(row, tn, te, ts, tw, 0.0, 0.0, 0.0, 0.1, 0.1);
      scratch := scratch[te := 0.1];
      Put4Write(row, tn, te, ts, tw, 0.0, 0.0, 0.1, 0.1, 0.1);
      scratch := scratch[tn := 0.7];
      Put4Write(row, tn, te, ts, tw, 0.0, 0.1, 0.1, 0.1, 0.7);
      FourMoveRow(rows, cols, i, j, 0, 0.7, 0.1, 0.1, 0.1);
      CopyRow(scratch, i, j, 0);
      scratch := scratch[ts := 0.1];
      Put4Write(row, tn, te, ts, tw, 0.7, 0.1, 0.1, 0.1, 0.1);
      scratch := scratch[tw := 0.1];
      Put4Write(row, tn, te, ts, tw, 0.7, 0.1, 0.1, 0.1, 0.1);
      scratch := scratch[tn := 0.1];
      Put4Write(row, tn, te, ts, tw, 0.7, 0.1, 0.1, 0.1, 0.1);
      scratch := scratch[te := 0.7];
      Put4Write(row, tn, te, ts, tw, 0.1, 0.1, 0.1, 0.1, 0.7);
      FourMoveRow(rows, cols, i, j, 1, 0.1, 0.7, 0.1, 0.1);
      CopyRow(scratch, i, j, 1);
      scratch := MiddleRowSouth(row, scratch, i, j);
    }

    /** The South row of an interior cell, continuing MiddleRows. */
    method MiddleRowSouth(row: seq<real>, scratch0: seq<real>, i: int, j: int) returns (scratch: seq<real>)
      requires Shape() && row == Zeros(rows * cols * 4)
      requires 1 <= i < rows - 1 && 1 <= j < cols - 1
      requires 0 <= MoveNorth(cols, i, j) < |row| && 0 <= MoveEast(cols, i, j) < |row|
      requires 0 <= MoveSouth(cols, i, j) < |row| && 0 <= MoveWest(cols, i, j) < |row|
      requires scratch0 == Put4(row, MoveNorth(cols, i, j), MoveEast(cols, i, j), MoveSouth(cols, i, j),
                                MoveWest(cols, i, j), 0.1, 0.7, 0.1, 0.1)
      requires TRow(MapT(cols, i, j, 0)) && TRow(MapT(cols, i, j, 1))
      modifies T
      ensures scratch == row
      ensures CellDone(i, j)
      ensures forall s :: old(TRow(s)) ==> TRow(s)
      ensures KeptOutsideCell(i, j)
    {
      var tn, te, ts, tw := MoveNorth(cols, i, j), MoveEast(cols, i, j), MoveSouth(cols, i, j), MoveWest(cols, i, j);
      assert tn == Target(rows, cols, i, j, 0) && te == Target(rows, cols, i, j, 1);
      assert ts == Target(rows, cols, i, j, 2) && tw == Target(rows, cols, i, j, 3);
      assert tn % 4 == 0 && te % 4 == 1 && ts % 4 == 2 && tw % 4 == 3;
      scratch := scratch0;
      scratch := scratch[tw := 0.1];
      Put4Write(row, tn, te, ts, tw, 0.1, 0.7, 0.1, 0.1, 0.1);
      scratch := scratch[te := 0.1];
      Put4Write(row, tn, te, ts, tw, 0.1, 0.7, 0.1, 0.1, 0.1);
      scratch := scratch[tn := 0.1];
      Put4Write(row, tn, te, ts, tw, 0.1, 0.1, 0.1, 0.1, 0.1);
      scratch := scratch[ts := 0.7];
      Put4Write(row, tn, te, ts, tw, 0.1, 0.1, 0.1, 0.1, 0.7);
      FourMoveRow(rows, cols, i, j, 2, 0.1, 0.1, 0.7, 0.1);
      CopyRow(scratch, i, j, 2);
      scratch := MiddleRowWest(row, scratch, i, j);
    }

    /** The West row of an interior cell and the reset of the scratch row,
        continuing MiddleRowSouth. */
    method MiddleRowWest(row: seq<real>, scratch0: seq<real>, i: int, j: int) returns (scratch: seq<real>)
      requires Shape() && row == Zeros(rows * cols * 4)
      requires 1 <= i < rows - 1 && 1 <= j < cols - 1
      requires 0 <= MoveNorth(cols, i, j) < |row| && 0 <= MoveEast(cols, i, j) < |row|
      requires 0 <= MoveSouth(cols, i, j) < |row| && 0 <= MoveWest(cols, i, j) < |row|
      requires scratch0 == Put4(row, MoveNorth(cols, i, j), MoveEast(cols, i, j), MoveSouth(cols, i, j),
                                MoveWest(cols, i, j), 0.1, 0.1, 0.7, 0.1)
      requires TRow(MapT(cols, i, j, 0)) && TRow(MapT(cols, i, j, 1)) && TRow(MapT(cols, i, j, 2))
      modifies T
      ensures scratch == row
      ensures CellDone(i, j)
      ensures forall s :: old(TRow(s)) ==> TRow(s)
      ensures KeptOutsideCell(i, j)
    {
      var tn, te, ts, tw := MoveNorth(cols, i, j), MoveEast(cols, i, j), MoveSouth(cols, i, j), MoveWest(cols, i, j);
      assert tn == Target(rows, cols, i, j, 0) && te == Target(rows, cols, i, j, 1);
      assert ts == Target(rows, cols, i, j, 2) && tw == Target(rows, cols, i, j, 3);
      assert tn % 4 == 0 && te % 4 == 1 && ts % 4 == 2 && tw % 4 == 3;
      scratch := scratch0;
      scratch := scratch[ts := 0.1];
      assert scratch == Put4(row, tn, te, ts, tw, 0.1, 0.1, 0.1, 0.1) by {
        Put4Write(row, tn, te, ts, tw, 0.1, 0.1, 0.7, 0.1, 0.1);
      }
      scratch := scratch[te := 0.1];
      scratch := scratch[tn := 0.1];
      assert scratch == Put4(row, tn, te, ts, tw, 0.1, 0.1, 0.1, 0.1) by {
        Put4Write(row, tn, te, ts, tw, 0.1, 0.1, 0.1, 0.1, 0.1);
      }
      scratch := scratch[tw := 0.7];
      assert scratch == Put4(row, tn, te, ts, tw, 0.1, 0.1, 0.1, 0.7) by {
        Put4Write(row, tn, te, ts, tw, 0.1, 0.1, 0.1, 0.1, 0.7);
      }
      FourMoveRow(rows, cols, i, j, 3, 0.1, 0.1, 0.1, 0.7);
      CopyRow(scratch, i, j, 3);
      AllHeadings(i, j, 0, 1, 2, 3);
      scratch := ClearMoves(row, scratch, tn, te, ts, tw);
    }

    /** The last statement of an interior cell in generateT: the four move
        entries of the scratch row are set back to 0, which gives back the
        all-zero row the cell started from. */
    method ClearMoves(row: seq<real>, scratch0: seq<real>, tn: int, te: int, ts: int, tw: int)
      returns (scratch: seq<real>)
      requires 0 <= tn < |row| && 0 <= te < |row| && 0 <= ts < |row| && 0 <= tw < |row|
      requires tn != te && tn != ts && tn != tw && te != ts && te != tw && ts != tw
      requires row[tn] == row[te] == row[ts] == row[tw] == 0.0
      requires scratch0 == Put4(row, tn, te, ts, tw, 0.1, 0.1, 0.1, 0.7)
      ensures scratch == row
    {
      scratch := scratch0[tw := 0.0];
      Put4Write(row, tn, te, ts, tw, 0.1, 0.1, 0.1, 0.7, 0.0);
      scratch := scratch[ts := 0.0];
      Put4Write(row, tn, te, ts, tw, 0.1, 0.1, 0.1, 0.0, 0.0);
      scratch := scratch[te := 0.0];
      Put4Write(row, tn, te, ts, tw, 0.1, 0.1, 0.0, 0.0, 0.0);
      scratch := scratch[tn := 0.0];
      Put4Write(row, tn, te, ts, tw, 0.1, 0.0, 0.0, 0.0, 0.0);
      Put4Same(row, tn, te, ts, tw);
    }

    /** generateCorners: the rows of the four corner cells, filled through
        one scratch row. */
    method GenerateCorners()
      requires Shape()
      modifies T
      ensures CellDone(0, 0) && CellDone(0, cols - 1)
      ensures CellDone(rows - 1, cols - 1) && CellDone(rows - 1, 0)
      ensures forall s :: old(TRow(s)) ==> TRow(s)
      ensures forall s, x ::
                0 <= s < T.Length0 && 0 <= x < T.Length1 && !InCorner(s) ==> T[s, x] == old(T[s, x])
    {
      CellDecode(cols, 0, 0);
      CellDecode(cols, 0, cols - 1);
      CellDecode(cols, rows - 1, cols - 1);
      CellDecode(cols, rows - 1, 0);
      var row := Zeros(rows * cols * 4);
      var scratch := CornerRows(row, 0, 0, 0, 3, 2, 1, true);
      scratch := CornerRows(scratch, 0, cols - 1, 0, 1, 3, 2, true);
      scratch := CornerRows(scratch, rows - 1, cols - 1, 2, 1, 0, 3, true);
      scratch := CornerRows(scratch, rows - 1, 0, 2, 3, 0, 1, false);
    }

    /** Only the rows of states in row i of the grid, at columns lo .. hi - 1,
        differ from the earlier state of T. */
    twostate predicate KeptOutsideRow(i: int, lo: int, hi: int)
      reads T
    {
      cols > 0 &&
      forall s, x ::
        0 <= s < T.Length0 && 0 <= x < T.Length1 && !(StateRow(cols, s) == i && lo <= StateCol(cols, s) < hi) ==>
        T[s, x] == old(T[s, x])
    }

    /** Only the rows of states in column j of the grid, at rows lo .. hi - 1,
        differ from the earlier state of T. */
    twostate predicate KeptOutsideCol(j: int, lo: int, hi: int)
      reads T
    {
      cols > 0 &&
      forall s, x ::
        0 <= s < T.Length0 && 0 <= x < T.Length1 && !(StateCol(cols, s) == j && lo <= StateRow(cols, s) < hi) ==>
        T[s, x] == old(T[s, x])
    }

    /** A state of one of the four corner cells. */
    ghost predicate InCorner(s: int)
      requires cols > 0
    {
      (StateRow(cols, s) == 0 || StateRow(cols, s) == rows - 1) &&
      (StateCol(cols, s) == 0 || StateCol(cols, s) == cols - 1)
    }

    /** A state of an edge cell that is not a corner; the side columns are
        bounded by cols, as the wall loops are. */
    ghost predicate InWall(s: int)
      requires cols > 0
    {
      ((StateRow(cols, s) == 0 || StateRow(cols, s) == rows - 1) && 1 <= StateCol(cols, s) < cols - 1) ||
      ((StateCol(cols, s) == 0 || StateCol(cols, s) == cols - 1) && 1 <= StateRow(cols, s) < cols - 1)
    }

    /** The edge cells of row i strictly between the two corners are done. */
    ghost predicate EdgeRowDone(i: int)
      reads T
    {
      forall b :: 1 <= b < cols - 1 ==> CellDone(i, b)
    }

    /** The edge cells of column j strictly between the two corners are
        done. */
    ghost predicate EdgeColDone(j: int)
      reads T
    {
      forall a :: 1 <= a < rows - 1 ==> CellDone(a, j)
    }

    /** Rows that only grow keep a done edge row done. */
    twostate lemma EdgeRowKept(i: int)
      requires forall s :: old(TRow(s)) ==> TRow(s)
      requires old(EdgeRowDone(i))
      ensures EdgeRowDone(i)
    {
      forall b | 1 <= b < cols - 1
        ensures CellDone(i, b)
      {
        assert old(CellDone(i, b));
        forall h | 0 <= h < Heads
          ensures TRow(MapT(cols, i, b, h))
        {
          assert old(TRow(MapT(cols, i, b, h)));
        }
      }
    }

    /** Rows that only grow keep a done edge column done. */
    twostate lemma EdgeColKept(j: int)
      requires forall s :: old(TRow(s)) ==> TRow(s)
      requires old(EdgeColDone(j))
      ensures EdgeColDone(j)
    {
      forall a | 1 <= a < rows - 1
        ensures CellDone(a, j)
      {
        assert old(CellDone(a, j));
        forall h | 0 <= h < Heads
          ensures TRow(MapT(cols, a, j, h))
        {
          assert old(TRow(MapT(cols, a, j, h)));
        }
      }
    }

    /** generateWalls: the rows of the edge cells that are not corners, one
        loop per side, each through a zero scratch row. */
    method GenerateWalls()
      requires Shape()
      modifies T
      ensures EdgeRowDone(0) && EdgeRowDone(rows - 1) && EdgeColDone(0) && EdgeColDone(cols - 1)
      ensures forall s :: old(TRow(s)) ==> TRow(s)
      ensures forall s, x ::
                0 <= s < T.Length0 && 0 <= x < T.Length1 && !InWall(s) ==> T[s, x] == old(T[s, x])
    {
      var row := Zeros(rows * cols * 4);
      row := TopWall(row);
      label Top:
      row := BottomWall(row);
      EdgeRowKept@Top(0);
      label Bottom:
      row := LeftWall(row);
      EdgeRowKept@Bottom(0);
      EdgeRowKept@Bottom(rows - 1);
      label Left:
      row := RightWall(row);
      EdgeRowKept@Left(0);
      EdgeRowKept@Left(rows - 1);
      EdgeColKept@Left(0);
    }

    /** The loop over the top row of generateWalls. */
    method TopWall(row: seq<real>) returns (scratch: seq<real>)
      requires Shape() && row == Zeros(rows * cols * 4)
      modifies T
      ensures scratch == row
      ensures EdgeRowDone(0)
      ensures forall s :: old(TRow(s)) ==> TRow(s)
      ensures KeptOutsideRow(0, 1, cols - 1)
    {
      scratch := row;
      var j := 1;
      while j < cols - 1
        invariant 1 <= j <= cols - 1 && scratch == row
        invariant forall b :: 1 <= b < j ==> CellDone(0, b)
        invariant forall s :: old(TRow(s)) ==> TRow(s)
        invariant KeptOutsideRow(0, 1, j)
      {
        CellDecode(cols, 0, j);
        label Before:
        scratch := WallRows(scratch, 0, j, 0, 1, 2, 3);
        forall b, h | 1 <= b < j && 0 <= h < Heads
          ensures TRow(MapT(cols, 0, b, h))
        {
          assert old@Before(CellDone(0, b));
          assert old@Before(TRow(MapT(cols, 0, b, h)));
        }
        j := j + 1;
      }
    }

    /** The loop over the bottom row of generateWalls. */
    method BottomWall(row: seq<real>) returns (scratch: seq<real>)
      requires Shape() && row == Zeros(rows * cols * 4)
      modifies T
      ensures scratch == row
      ensures EdgeRowDone(rows - 1)
      ensures forall s :: old(TRow(s)) ==> TRow(s)
      ensures KeptOutsideRow(rows - 1, 1, cols - 1)
    {
      scratch := row;
      var bottom := rows - 1;
      var j := 1;
      while j < cols - 1
        invariant 1 <= j <= cols - 1 && scratch == row
        invariant forall b :: 1 <= b < j ==> CellDone(bottom, b)
        invariant forall s :: old(TRow(s)) ==> TRow(s)
        invariant KeptOutsideRow(bottom, 1, j)
      {
        CellDecode(cols, bottom, j);
        label Before:
        scratch := WallRows(scratch, bottom, j, 2, 1, 0, 3);
        forall b, h | 1 <= b < j && 0 <= h < Heads
          ensures TRow(MapT(cols, bottom, b, h))
        {
          assert old@Before(CellDone(bottom, b));
          assert old@Before(TRow(MapT(cols, bottom, b, h)));
        }
        j := j + 1;
      }
    }

    /** The loop over the left column of generateWalls. Its row index runs
        up to cols - 1, which is rows - 1 on a square grid. */
    method LeftWall(row: seq<real>) returns (scratch: seq<real>)
      requires Shape() && row == Zeros(rows * cols * 4)
      modifies T
      ensures scratch == row
      ensures EdgeColDone(0)
      ensures forall s :: old(TRow(s)) ==> TRow(s)
      ensures KeptOutsideCol(0, 1, cols - 1)
    {
      scratch := row;
      var i := 1;
      while i < cols - 1
        invariant 1 <= i <= cols - 1 && scratch == row
        invariant forall a :: 1 <= a < i ==> CellDone(a, 0)
        invariant forall s :: old(TRow(s)) ==> TRow(s)
        invariant KeptOutsideCol(0, 1, i)
      {
        CellDecode(cols, i, 0);
        label Before:
        scratch := WallRows(scratch, i, 0, 3, 1, 2, 0);
        forall a, h | 1 <= a < i && 0 <= h < Heads
          ensures TRow(MapT(cols, a, 0, h))
        {
          assert old@Before(CellDone(a, 0));
          assert old@Before(TRow(MapT(cols, a, 0, h)));
        }
        i := i + 1;
      }
    }

    /** The loop over the right column of generateWalls, bounded like the
        left one. */
    method RightWall(row: seq<real>) returns (scratch: seq<real>)
      requires Shape() && row == Zeros(rows * cols * 4)
      modifies T
      ensures scratch == row
      ensures EdgeColDone(cols - 1)
      ensures forall s :: old(TRow(s)) ==> TRow(s)
      ensures KeptOutsideCol(cols - 1, 1, cols - 1)
    {
      scratch := row;
      var right := cols - 1;
      var i := 1;
      while i < cols - 1
        invariant 1 <= i <= cols - 1 && scratch == row
        invariant forall a :: 1 <= a < i ==> CellDone(a, right)
        invariant forall s :: old(TRow(s)) ==> TRow(s)
        invariant KeptOutsideCol(right, 1, i)
      {
        CellDecode(cols, i, right);
        label Before:
        scratch := WallRows(scratch, i, right, 1, 3, 2, 0);
        forall a, h | 1 <= a < i && 0 <= h < Heads
          ensures TRow(MapT(cols, a, right, h))
        {
          assert old@Before(CellDone(a, right));
          assert old@Before(TRow(MapT(cols, a, right, h)));
        }
        i := i + 1;
      }
    }

    /** The four corner cells are done. */
    ghost predicate CornersDone()
      reads T
    {
      CellDone(0, 0) && CellDone(0, cols - 1) && CellDone(rows - 1, cols - 1) && CellDone(rows - 1, 0)
    }

    twostate lemma CornersKept()
      requires forall s :: old(TRow(s)) ==> TRow(s)
      requires old(CornersDone())
      ensures CornersDone()
    {
      var bottom, right := rows - 1, cols - 1;
      forall h | 0 <= h < Heads
        ensures TRow(MapT(cols, 0, 0, h)) && TRow(MapT(cols, 0, right, h))
        ensures TRow(MapT(cols, bottom, right, h)) && TRow(MapT(cols, bottom, 0, h))
      {
        assert old(TRow(MapT(cols, 0, 0, h))) && old(TRow(MapT(cols, 0, right, h)));
        assert old(TRow(MapT(cols, bottom, right, h))) && old(TRow(MapT(cols, bottom, 0, h)));
      }
    }

    /** Rows that only grow keep the interior cells of rows 1 .. i - 1
        done. */
    twostate lemma InteriorKept(i: int)
      requires forall s :: old(TRow(s)) ==> TRow(s)
      requires old(forall a, b :: 1 <= a < i && 1 <= b < cols - 1 ==> CellDone(a, b))
      ensures forall a, b :: 1 <= a < i && 1 <= b < cols - 1 ==> CellDone(a, b)
    {
      forall a, b, h | 1 <= a < i && 1 <= b < cols - 1 && 0 <= h < Heads
        ensures TRow(MapT(cols, a, b, h))
      {
        assert old(CellDone(a, b));
        assert old(TRow(MapT(cols, a, b, h)));
      }
    }

    /** generateT: corners, then walls, then the interior cells row by row
        through one scratch row. Every row of T ends up as the rule's row. */
    method GenerateT()
      requires Shape()
      modifies T
      ensures TBuilt()
    {
      var row := Zeros(rows * cols * 4);
      GenerateCorners();
      label Corners:
      GenerateWalls();
      CornersKept@Corners();
      label Edges:
      var i := 1;
      while i < rows - 1
        invariant 1 <= i <= rows - 1 && row == Zeros(rows * cols * 4)
        invariant forall a, b :: 1 <= a < i && 1 <= b < cols - 1 ==> CellDone(a, b)
        invariant forall s :: old@Edges(TRow(s)) ==> TRow(s)
      {
        label Row:
        var j := 1;
        while j < cols - 1
          invariant 1 <= j <= cols - 1 && row == Zeros(rows * cols * 4)
          invariant forall b :: 1 <= b < j ==> CellDone(i, b)
          invariant forall s :: old@Row(TRow(s)) ==> TRow(s)
        {
          label Before:
          row := MiddleRows(row, i, j);
          forall b, h | 1 <= b < j && 0 <= h < Heads
            ensures TRow(MapT(cols, i, b, h))
          {
            assert old@Before(CellDone(i, b));
            assert old@Before(TRow(MapT(cols, i, b, h)));
          }
          j := j + 1;
        }
        InteriorKept@Row(i);
        i := i + 1;
      }
      CornersKept@Edges();
      EdgeRowKept@Edges(0);
      EdgeRowKept@Edges(rows - 1);
      EdgeColKept@Edges(0);
      EdgeColKept@Edges(cols - 1);
      forall s | 0 <= s < T.Length0
        ensures TRow(s)
      {
        MapTEncode(rows, cols, s);
        var a, b := StateRow(cols, s), StateCol(cols, s);
        if a == 0 || a == rows - 1 {
          if b == 0 || b == cols - 1 {
            assert CellDone(a, b);
          } else {
            assert CellDone(a, b);
          }
        } else if b == 0 || b == cols - 1 {
          assert CellDone(a, b);
        } else {
          assert CellDone(a, b);
        }
        assert TRow(MapT(cols, a, b, StateHead(s)));
      }
    }

    /** Rows below n of O are the rows of their reading cells. */
    ghost predicate ReadingRowsUpTo(n: int)
      reads O
    {
      cols > 0 &&
      forall r, k :: 0 <= r < n && r < O.Length0 && 0 <= k < O.Length1 ==> O[r, k] == ReadingEntry(cols, r, k)
    }

    /** One pass of the outer two loops of generateOs: the O row of reading
        cell (oi, oj), filled state by state from the axis distances between
        the reading cell and the state's cell. */
    method FillReadingRow(oi: int, oj: int)
      requires Shape() && 0 <= oi < rows && 0 <= oj < cols && 0 <= Cell(cols, oi, oj) < rows * cols
      modifies O
      ensures forall k :: 0 <= k < O.Length1 ==> O[Cell(cols, oi, oj), k] == ReadingEntry(cols, Cell(cols, oi, oj), k)
      ensures forall r, k :: 0 <= r < O.Length0 && 0 <= k < O.Length1 && r != Cell(cols, oi, oj) ==>
                O[r, k] == old(O[r, k])
    {
      var r := MapO(rows, cols, oi, oj);
      MapOSlots(rows, cols, oi, oj);
      var i := 0;
      while i < rows
        invariant 0 <= i <= rows
        invariant forall k :: 0 <= k < MapT(cols, i, 0, 0) && k < O.Length1 ==> O[r, k] == ReadingEntry(cols, r, k)
        invariant forall r', k :: 0 <= r' < O.Length0 && 0 <= k < O.Length1 && r' != r ==> O[r', k] == old(O[r', k])
      {
        var j := 0;
        while j < cols
          invariant 0 <= j <= cols
          invariant forall k :: 0 <= k < MapT(cols, i, j, 0) && k < O.Length1 ==> O[r, k] == ReadingEntry(cols, r, k)
          invariant forall r', k :: 0 <= r' < O.Length0 && 0 <= k < O.Length1 && r' != r ==> O[r', k] == old(O[r', k])
        {
          MapTRange(rows, cols, i, j, 0);
          MapTRange(rows, cols, i, j, 3);
          FillReadingCell(oi, oj, r, i, j);
          var base := MapT(cols, i, j, 0);
          forall k | base <= k < base + Heads
            ensures O[r, k] == ReadingEntry(cols, r, k)
          {
            assert k == MapT(cols, i, j, k - base);
          }
          assert MapT(cols, i, j + 1, 0) == base + Heads;
          j := j + 1;
        }
        NextRow(cols, i);
        i := i + 1;
      }
      assert MapT(cols, rows, 0, 0) == O.Length1;
    }

    /** The innermost loop of generateOs: the four entries of O row r for the
        states in cell (i, j), weighted by the axis distances to the reading
        cell (oi, oj). */
    method FillReadingCell(oi: int, oj: int, r: int, i: int, j: int)
      requires Shape() && 0 <= oi < rows && 0 <= oj < cols && r == MapO(rows, cols, oi, oj)
      requires 0 <= i < rows && 0 <= j < cols && 0 <= r < rows * cols
      requires 0 <= MapT(cols, i, j, 0) && MapT(cols, i, j, 0) + Heads <= O.Length1
      modifies O
      ensures forall h :: 0 <= h < Heads ==>
                O[r, MapT(cols, i, j, h)] == ReadingEntry(cols, r, MapT(cols, i, j, h))
      ensures forall r', k ::
                0 <= r' < O.Length0 && 0 <= k < O.Length1 &&
                (r' != r || k < MapT(cols, i, j, 0) || MapT(cols, i, j, 0) + Heads <= k) ==>
                O[r', k] == old(O[r', k])
    {
      MapOSlots(rows, cols, oi, oj);
      var diffX, diffY := Abs(oi - i), Abs(oj - j);
      var v: real;
      if diffX == 0 && diffY == 0 {
        v := 0.1;
      } else if diffX <= 1 && diffY <= 1 {
        v := 0.05;
      } else if diffX <= 2 && diffY <= 2 {
        v := 0.025;
      } else {
        v := 0.0;
      }
      var h := 0;
      while h < head
        invariant 0 <= h <= head
        invariant forall h' :: 0 <= h' < h ==> O[r, MapT(cols, i, j, h')] == ReadingEntry(cols, r, MapT(cols, i, j, h'))
        invariant forall r', k ::
                    0 <= r' < O.Length0 && 0 <= k < O.Length1 &&
                    (r' != r || k < MapT(cols, i, j, 0) || MapT(cols, i, j, 0) + h <= k) ==>
                    O[r', k] == old(O[r', k])
      {
        MapTRange(rows, cols, i, j, h);
        ReadingEntryAt(rows, cols, r, i, j, h);
        O[r, MapT(cols, i, j, h)] := v;
        h := h + 1;
      }
    }

    /** The reading part of generateOs: one O row per reading cell, in
        row-major order. */
    method FillReadingRows()
      requires Shape()
      modifies O
      ensures ReadingRowsUpTo(rows * cols)
      ensures forall k :: 0 <= k < O.Length1 ==> O[rows * cols, k] == old(O[rows * cols, k])
    {
      var oi := 0;
      while oi < rows
        invariant 0 <= oi <= rows
        invariant ReadingRowsUpTo(Cell(cols, oi, 0))
        invariant forall k :: 0 <= k < O.Length1 ==> O[rows * cols, k] == old(O[rows * cols, k])
      {
        var oj := 0;
        while oj < cols
          invariant 0 <= oj <= cols
          invariant ReadingRowsUpTo(Cell(cols, oi, oj))
          invariant forall k :: 0 <= k < O.Length1 ==> O[rows * cols, k] == old(O[rows * cols, k])
        {
          CellRange(rows, cols, oi, oj);
          FillReadingRow(oi, oj);
          oj := oj + 1;
        }
        NextRow(cols, oi);
        oi := oi + 1;
      }
    }

    /** The last part of generateOs: for every state, the "nothing" entry,
        computed by counting the 0.05 and 0.025 entries of the O row of the
        state's cell (as a list of the row's values) and dividing each count
        by four. */
    method FillNothingRow()
      requires Shape() && ReadingRowsUpTo(rows * cols)
      modifies O
      ensures ReadingRowsUpTo(rows * cols)
      ensures forall k :: 0 <= k < O.Length1 ==> O[rows * cols, k] == OEntry(rows, cols, rows * cols, k)
    {
      var last := rows * cols;
      var i := 0;
      while i < rows
        invariant 0 <= i <= rows && ReadingRowsUpTo(last)
        invariant forall k :: 0 <= k < MapT(cols, i, 0, 0) && k < O.Length1 ==> O[last, k] == OEntry(rows, cols, last, k)
      {
        var j := 0;
        while j < cols
          invariant 0 <= j <= cols && ReadingRowsUpTo(last)
          invariant forall k :: 0 <= k < MapT(cols, i, j, 0) && k < O.Length1 ==> O[last, k] == OEntry(rows, cols, last, k)
        {
          var h := 0;
          while h < head
            invariant 0 <= h <= head && ReadingRowsUpTo(last)
            invariant forall k :: 0 <= k < MapT(cols, i, j, h) && k < O.Length1 ==> O[last, k] == OEntry(rows, cols, last, k)
          {
            var src := MapO(rows, cols, i, j);
            MapOSlots(rows, cols, i, j);
            var olist := seq(O.Length1, k requires 0 <= k < O.Length1 reads O => O[src, k]);
            assert olist == ReadingRow(rows, cols, src);
            MapTRange(rows, cols, i, j, h);
            MapTDecode(cols, i, j, h);
            O[last, MapT(cols, i, j, h)] :=
              0.9 - 0.05 * (Count(olist, 0.05) as real) / 4.0 - 0.025 * (Count(olist, 0.025) as real) / 4.0;
            h := h + 1;
          }
          j := j + 1;
        }
        NextRow(cols, i);
        i := i + 1;
      }
      assert MapT(cols, rows, 0, 0) == O.Length1;
    }

    /** generateOs: the reading rows, then the "nothing" row. */
    method GenerateOs()
      requires Shape()
      modifies O
      ensures OBuilt()
    {
      FillReadingRows();
      FillNothingRow();
    }

    /** The true pose is a state of the grid. */
    ghost predicate PoseValid()
      reads this
    {
      |pos| == 3 && 0 <= pos[0] < rows && 0 <= pos[1] < cols && 0 <= pos[2] < Heads
    }

    /** The flat index of the true pose. */
    ghost function PoseIndex(): int
      reads this
      requires |pos| == 3
    {
      MapT(cols, pos[0], pos[1], pos[2])
    }

    /** The last reading is a cell of the grid or "nothing" as (-1, -1). */
    ghost predicate SensValid()
      reads this
    {
      |sens| == 2 &&
      ((0 <= sens[0] < rows && 0 <= sens[1] < cols) || (sens[0] == -1 && sens[1] == -1))
    }

    /** The object invariant: T and O hold the rules, the pose and the
        reading are in range, f is a distribution over states, and f gives
        the true state positive mass. */
    ghost predicate Valid()
      reads this, T, O, f
    {
      Model() && PoseValid() && SensValid() &&
      Distribution(f[..]) && 0 <= PoseIndex() < f.Length && f[PoseIndex()] > 0.0
    }

    /** The constructor with the random initial pose passed in: builds T and
        O, starts f uniform and the reading at (0, 0). */
    constructor (rows: int, cols: int, row0: int, col0: int, head0: int)
      requires SquareGrid(rows, cols)
      requires 0 <= row0 < rows && 0 <= col0 < cols && 0 <= head0 < Heads
      ensures Valid() && fresh(T) && fresh(O) && fresh(f)
      ensures this.rows == rows && this.cols == cols && head == Heads
      ensures pos == [row0, col0, head0] && sens == [0, 0]
      ensures forall k :: 0 <= k < f.Length ==> f[k] == 1.0 / (rows * cols * 4) as real
    {
      this.rows := rows;
      this.cols := cols;
      head := 4;
      var n := rows * cols * 4;
      var v := 1.0 / n as real;
      var belief := new real[n](_ => v);
      assert belief[..] == seq(n, _ => v);
      Uniform(n);
      MapTRange(rows, cols, row0, col0, head0);
      ghost var k := MapT(cols, row0, col0, head0);
      assert belief[k] == v > 0.0;
      T := new real[n, n];
      O := new real[rows * cols + 1, n];
      f := belief;
      sens := [0, 0];
      pos := [row0, col0, head0];
      new;
      GenerateT();
      GenerateOs();
      assert PoseValid() && SensValid() && PoseIndex() == k;
    }

    /** The candidate loops of move(): every state whose entry in the T row
        of the true pose is non-zero, as a Movement, in row-major order. */
    method ListMoves() returns (movs: seq<Movement>)
      requires Shape() && PoseValid() && TRow(PoseIndex())
      ensures movs == MoveList(rows, cols, pos[0], pos[1], pos[2])
    {
      var s := MapT(cols, pos[0], pos[1], pos[2]);
      MapTDecode(cols, pos[0], pos[1], pos[2]);
      ghost var row := ExpectedRow(rows, cols, pos[0], pos[1], pos[2]);
      assert forall k :: 0 <= k < T.Length1 ==> T[s, k] == row[k];
      movs := ListRowMoves(s, row);
    }

    /** The two outer loops of move() over row s of T, which holds row. */
    method ListRowMoves(s: int, ghost row: seq<real>) returns (movs: seq<Movement>)
      requires Shape() && 0 <= s < T.Length0 && |row| == T.Length1
      requires forall k :: 0 <= k < T.Length1 ==> T[s, k] == row[k]
      ensures movs == MoveCandidates(rows, cols, row, |row|)
    {
      // m counts the states visited so far, which is their flat index.
      ghost var m: nat := 0;
      movs := [];
      var i := 0;
      while i < rows
        invariant 0 <= i <= rows && m == i * cols * 4 && m <= |row|
        invariant movs == MoveCandidates(rows, cols, row, m)
      {
        var j := 0;
        while j < cols
          invariant 0 <= j <= cols && m == j * 4 + i * cols * 4 && m <= |row|
          invariant movs == MoveCandidates(rows, cols, row, m)
        {
          MapTRange(rows, cols, i, j, 3);
          movs := ListCellMoves(s, row, m, i, j, movs);
          j := j + 1;
          m := m + 4;
        }
        NextRow(cols, i);
        i := i + 1;
      }
    }

    /** The innermost loop of move(): the four headings of cell (i, j), whose
        first state has flat index m, extend the list built so far. */
    method ListCellMoves(s: int, ghost row: seq<real>, ghost m: nat, i: int, j: int, movs0: seq<Movement>)
      returns (movs: seq<Movement>)
      requires Shape() && 0 <= s < T.Length0 && |row| == T.Length1
      requires forall k :: 0 <= k < T.Length1 ==> T[s, k] == row[k]
      requires 0 <= i < rows && 0 <= j < cols && m == MapT(cols, i, j, 0) && m + 4 <= |row|
      requires movs0 == MoveCandidates(rows, cols, row, m)
      ensures movs == MoveCandidates(rows, cols, row, m + 4)
    {
      movs := movs0;
      var h := 0;
      while h < head
        invariant 0 <= h <= head && movs == MoveCandidates(rows, cols, row, m + h)
      {
        var k := MapT(cols, i, j, h);
        MoveCandidatesStep(rows, cols, row, m + h, i, j, h);
        if T[s, k] != 0.0 {
          movs := movs + [NewMovement(T[s, k], i, j, h)];
        }
        h := h + 1;
      }
    }

    /** move: list the states the current T row reaches, pick one with the
        draw and make it the true pose. The new pose is one legal step from
        the old one, facing the direction moved. */
    method Move(draw: real)
      requires Model() && PoseValid()
      modifies this
      ensures PoseValid() && sens == old(sens)
      ensures var c := MoveList(rows, cols, old(pos[0]), old(pos[1]), old(pos[2]));
        exists x :: IsChoice(MoveWeights(c), draw, x) && pos == c[x].GetPos()
      ensures Legal(rows, cols, old(pos[0]), old(pos[1]), pos[2])
      ensures pos[0] == old(pos[0]) + DRow(pos[2]) && pos[1] == old(pos[1]) + DCol(pos[2])
    {
      MapTRange(rows, cols, pos[0], pos[1], pos[2]);
      var movs := ListMoves();
      MoveListSteps(rows, cols, pos[0], pos[1], pos[2]);
      var x := ChooseIndex(MoveWeights(movs), draw);
      pos := movs[x].GetPos();
    }

    /** The candidate loops of getSensorReading(): every cell whose O entry
        for the true pose is non-zero, as a Reading, in row-major order, and
        then "nothing", whatever its probability. */
    method ListReadings() returns (readings: seq<Reading>)
      requires Shape() && OBuilt() && PoseValid() && 0 <= PoseIndex() < O.Length1
      ensures readings == ReadingList(rows, cols, PoseIndex())
    {
      var s := MapT(cols, pos[0], pos[1], pos[2]);
      ghost var column := Column(rows, cols, s);
      assert forall r :: 0 <= r < O.Length0 ==> O[r, s] == column[r];
      readings := ListCellReadings(s, column);
      var probability := O[rows * cols, s];
      readings := readings + [NewReading(probability, -1, -1)];
    }

    /** The two loops of getSensorReading() over the cells, for column s of
        O, which holds column. */
    method ListCellReadings(s: int, ghost column: seq<real>) returns (readings: seq<Reading>)
      requires Shape() && 0 <= s < O.Length1 && |column| == O.Length0
      requires forall r :: 0 <= r < O.Length0 ==> O[r, s] == column[r]
      ensures readings == CellCandidates(rows, cols, column, rows * cols)
    {
      // m counts the cells visited so far, which is their row-major index.
      ghost var m: nat := 0;
      readings := [];
      var i := 0;
      while i < rows
        invariant 0 <= i <= rows && m == i * cols && m <= rows * cols
        invariant readings == CellCandidates(rows, cols, column, m)
      {
        var j := 0;
        while j < cols
          invariant 0 <= j <= cols && m == j + i * cols && m <= rows * cols
          invariant readings == CellCandidates(rows, cols, column, m)
        {
          CellCandidatesStep(rows, cols, column, m, i, j);
          var probability := O[MapO(rows, cols, i, j), s];
          if probability != 0.0 {
            readings := readings + [NewReading(probability, i, j)];
          }
          j := j + 1;
          m := m + 1;
        }
        NextRow(cols, i);
        i := i + 1;
      }
    }

    /** getSensorReading: list the possible readings of the true pose, pick
        one with the draw and make it the current reading. A reported cell
        is at most two rows and two columns from the robot, and the reading
        has positive probability in the true state. */
    method GetSensorReading(draw: real)
      requires Model() && PoseValid()
      modifies this
      ensures pos == old(pos) && SensValid()
      ensures var c := ReadingList(rows, cols, PoseIndex());
        exists x :: IsChoice(ReadingWeights(c), draw, x) && sens == c[x].GetPos()
      ensures sens[0] >= 0 ==> Abs(sens[0] - pos[0]) <= 2 && Abs(sens[1] - pos[1]) <= 2
      ensures OEntry(rows, cols, MapO(rows, cols, sens[0], sens[1]), PoseIndex()) > 0.0
    {
      MapTRange(rows, cols, pos[0], pos[1], pos[2]);
      var readings := ListReadings();
      ReadingListSound(rows, cols, pos[0], pos[1], pos[2]);
      var x := ChooseIndex(ReadingWeights(readings), draw);
      sens := readings[x].GetPos();
    }

    /** The reading's row of O in posEstimate: O[mapO(sens[0], sens[1])]. */
    ghost function SensRow(): int
      reads this
      requires |sens| == 2
    {
      MapO(rows, cols, sens[0], sens[1])
    }

    /** Column i of the array T. */
    ghost function TCol(i: int): (t: seq<real>)
      reads T
      requires 0 <= i < T.Length1
      ensures |t| == T.Length0 && forall b :: 0 <= b < T.Length0 ==> t[b] == T[b, i]
    {
      seq(T.Length0, b requires 0 <= b < T.Length0 reads T => T[b, i])
    }

    /** Column i of T and entry i of O row r agree with the rules. */
    ghost predicate ColumnIsRule(r: int, i: int)
      reads T, O
      requires 0 <= r < O.Length0 && 0 <= i < T.Length1 && i < O.Length1
    {
      cols > 0 && rows >= 0 && TCol(i) == TColumn(rows, cols, i) && O[r, i] == OEntry(rows, cols, r, i)
    }

    /** Under the model, every column agrees with the rules. */
    lemma ModelColumns(r: int)
      requires Model() && 0 <= r < O.Length0
      ensures forall i :: 0 <= i < T.Length1 ==> ColumnIsRule(r, i)
    {
      forall i | 0 <= i < T.Length1
        ensures ColumnIsRule(r, i)
      {
        forall b | 0 <= b < T.Length0
          ensures TCol(i)[b] == TColumn(rows, cols, i)[b]
        {
          assert TRow(b);
        }
      }
    }

    /** OTaux[a][b] of posEstimate for O row r. */
    ghost function OTEntry(r: int, a: int, b: int): real
      reads T, O
      requires 0 <= r < O.Length0 && 0 <= a < T.Length1 && a < O.Length1 && 0 <= b < T.Length0
    {
      T[b, a] * O[r, a]
    }

    /** The first loop of posEstimate: OTaux[i][j] = T[j][i] * O_r[i]. */
    method BuildOT(r: int) returns (ot: array2<real>)
      requires Shape() && 0 <= r < O.Length0
      ensures fresh(ot) && ot.Length0 == T.Length0 && ot.Length1 == T.Length0
      ensures forall a, b :: 0 <= a < ot.Length0 && 0 <= b < ot.Length1 ==> ot[a, b] == OTEntry(r, a, b)
    {
      var n := rows * cols * head;
      ot := new real[n, n];
      var i := 0;
      while i < n
        invariant 0 <= i <= n
        invariant forall a, b :: 0 <= a < i && 0 <= b < n ==> ot[a, b] == OTEntry(r, a, b)
      {
        var j := 0;
        while j < n
          invariant 0 <= j <= n
          invariant forall a, b :: 0 <= a < i && 0 <= b < n ==> ot[a, b] == OTEntry(r, a, b)
          invariant forall b :: 0 <= b < j ==> ot[i, b] == OTEntry(r, i, b)
        {
          ot[i, j] := T[j, i] * O[r, i];
          j := j + 1;
        }
        i := i + 1;
      }
    }

    /** The inner loop of the second loop of posEstimate: newf[i] starts at
        0 and accumulates OTaux[i][j] * f[j] over every j. */
    method AccumulateEntry(r: int, ot: array2<real>, newf: array<real>, i: int)
      requires 0 <= r < O.Length0 && 0 <= i < T.Length1 == O.Length1
      requires ot.Length0 == f.Length && ot.Length1 == f.Length && T.Length0 == f.Length == T.Length1
      requires newf.Length == f.Length && newf != f && newf[i] == 0.0
      requires forall a, b :: 0 <= a < ot.Length0 && 0 <= b < ot.Length1 ==> ot[a, b] == OTEntry(r, a, b)
      modifies newf
      ensures newf[i] == Inflow(TCol(i), O[r, i], f[..], f.Length)
      ensures forall x :: 0 <= x < newf.Length && x != i ==> newf[x] == old(newf[x])
    {
      ghost var t, o := TCol(i), O[r, i];
      var j := 0;
      while j < f.Length
        invariant 0 <= j <= f.Length
        invariant forall x :: 0 <= x < newf.Length && x != i ==> newf[x] == old(newf[x])
        invariant newf[i] == Inflow(t, o, f[..], j)
      {
        assert ot[i, j] == t[j] * o;
        newf[i] := newf[i] + ot[i, j] * f[j];
        j := j + 1;
      }
    }

    /** The second loop of posEstimate: newf[i] accumulates OTaux[i][j] * f[j]
        over j, and sumf the entries of newf. */
    method Accumulate(r: int, ot: array2<real>) returns (newf: array<real>, sumf: real)
      requires Shape() && 0 <= r < O.Length0
      requires forall i :: 0 <= i < T.Length1 ==> ColumnIsRule(r, i)
      requires ot.Length0 == T.Length0 && ot.Length1 == T.Length0
      requires forall a, b :: 0 <= a < ot.Length0 && 0 <= b < ot.Length1 ==> ot[a, b] == OTEntry(r, a, b)
      ensures fresh(newf) && newf[..] == Forward(rows, cols, r, f[..]) && sumf == Sum(newf[..])
    {
      ghost var raw := Forward(rows, cols, r, f[..]);
      forall x | 0 <= x < |raw|
        ensures raw[x] == Inflow(TCol(x), O[r, x], f[..], f.Length)
      {
        assert ColumnIsRule(r, x);
      }
      newf, sumf := AccumulateRows(r, ot, raw);
    }

    /** The loop of Accumulate, against the entries raw it must produce. */
    method AccumulateRows(r: int, ot: array2<real>, ghost raw: seq<real>) returns (newf: array<real>, sumf: real)
      requires 0 <= r < O.Length0 && T.Length0 == f.Length == T.Length1 == O.Length1
      requires ot.Length0 == f.Length && ot.Length1 == f.Length && |raw| == f.Length
      requires forall a, b :: 0 <= a < ot.Length0 && 0 <= b < ot.Length1 ==> ot[a, b] == OTEntry(r, a, b)
      requires forall x :: 0 <= x < |raw| ==> raw[x] == Inflow(TCol(x), O[r, x], f[..], f.Length)
      ensures fresh(newf) && newf[..] == raw && sumf == Sum(raw)
    {
      var n := f.Length;
      newf := new real[n];
      sumf := 0.0;
      var i := 0;
      while i < n
        invariant 0 <= i <= n
        invariant forall x :: 0 <= x < i ==> newf[x] == raw[x]
        invariant sumf == Sum(raw[..i])
      {
        newf[i] := 0.0;
        AccumulateEntry(r, ot, newf, i);
        SumPrefix(raw, i);
        sumf := sumf + newf[i];
        i := i + 1;
      }
      assert raw[..n] == raw;
    }

    /** The first two loops of posEstimate for O row r: newf is the
        message from f and sumf its total. */
    method Message(r: int) returns (newf: array<real>, sumf: real)
      requires Model() && 0 <= r < O.Length0
      ensures fresh(newf) && newf[..] == Forward(rows, cols, r, f[..]) && sumf == Sum(newf[..])
    {
      var ot := BuildOT(r);
      ModelColumns(r);
      newf, sumf := Accumulate(r, ot);
    }

    /** The last loop of posEstimate: f[i] = alpha * newf[i]. */
    method ScaleInto(alpha: real, newf: array<real>)
      requires newf.Length == f.Length && newf != f
      modifies f
      ensures f[..] == Scale(alpha, newf[..])
    {
      var i := 0;
      while i < f.Length
        invariant 0 <= i <= f.Length
        invariant forall x :: 0 <= x < i ==> f[x] == alpha * newf[x]
      {
        f[i] := alpha * newf[i];
        i := i + 1;
      }
      assert forall x :: 0 <= x < f.Length ==> f[..][x] == Scale(alpha, newf[..])[x];
    }

    /** posEstimate: one forward step. The new belief is the message of the
        reading's O row from the old belief, divided by its total, and it is
        a probability distribution whenever the old belief had no negative
        entry. */
    method PosEstimate()
      requires Model() && |sens| == 2 && sens[0] < rows && sens[1] < cols
      requires Sum(Forward(rows, cols, SensRow(), f[..])) != 0.0
      modifies f
      ensures var raw := Forward(rows, cols, SensRow(), old(f[..]));
        f[..] == Scale(1.0 / Sum(raw), raw)
      ensures NonNegative(old(f[..])) ==> Distribution(f[..])
    {
      var r := MapO(rows, cols, sens[0], sens[1]);
      MapOSlots(rows, cols, sens[0], sens[1]);
      var newf, sumf := Message(r);
      var alpha := 1.0 / sumf;
      ScaleInto(alpha, newf);
      if NonNegative(old(f[..])) {
        ForwardNonNegative(rows, cols, r, old(f[..]));
        SumNonNegative(newf[..]);
        Normalised(newf[..]);
      }
    }

    /** update: move, read the sensor, and run one forward step. The pose
        takes one legal step, the reading is one the new pose can produce,
        and the belief becomes the normalised message of the reading, which
        keeps positive mass on the true pose. */
    method Update(moveDraw: real, readDraw: real)
      requires Valid()
      modifies this, f
      ensures Valid()
      ensures Legal(rows, cols, old(pos[0]), old(pos[1]), pos[2])
      ensures pos[0] == old(pos[0]) + DRow(pos[2]) && pos[1] == old(pos[1]) + DCol(pos[2])
      ensures var c := MoveList(rows, cols, old(pos[0]), old(pos[1]), old(pos[2]));
        exists x :: IsChoice(MoveWeights(c), moveDraw, x) && pos == c[x].GetPos()
      ensures var c := ReadingList(rows, cols, PoseIndex());
        exists x :: IsChoice(ReadingWeights(c), readDraw, x) && sens == c[x].GetPos()
      ensures OEntry(rows, cols, SensRow(), PoseIndex()) > 0.0
      ensures var raw := Forward(rows, cols, SensRow(), old(f[..]));
        Sum(raw) > 0.0 && f[..] == Scale(1.0 / Sum(raw), raw)
    {
      MoveAndRead(moveDraw, readDraw);
      PosEstimate();
      assert f[..][PoseIndex()] > 0.0;
    }

    /** The first two calls of update: after the move and the reading, the
        forward step of the reading keeps positive mass on the new pose. */
    method MoveAndRead(moveDraw: real, readDraw: real)
      requires Valid()
      modifies this
      ensures Model() && PoseValid() && SensValid() && Distribution(f[..])
      ensures Legal(rows, cols, old(pos[0]), old(pos[1]), pos[2])
      ensures pos[0] == old(pos[0]) + DRow(pos[2]) && pos[1] == old(pos[1]) + DCol(pos[2])
      ensures var c := MoveList(rows, cols, old(pos[0]), old(pos[1]), old(pos[2]));
        exists x :: IsChoice(MoveWeights(c), moveDraw, x) && pos == c[x].GetPos()
      ensures var c := ReadingList(rows, cols, PoseIndex());
        exists x :: IsChoice(ReadingWeights(c), readDraw, x) && sens == c[x].GetPos()
      ensures OEntry(rows, cols, SensRow(), PoseIndex()) > 0.0
      ensures 0 <= PoseIndex() < f.Length && 0 <= SensRow() <= rows * cols
      ensures var raw := Forward(rows, cols, SensRow(), f[..]);
        Sum(raw) > 0.0 && Scale(1.0 / Sum(raw), raw)[PoseIndex()] > 0.0
    {
      ghost var i, j, h := pos[0], pos[1], pos[2];
      ghost var s := PoseIndex();
      Move(moveDraw);
      GetSensorReading(readDraw);
      MapTRange(rows, cols, pos[0], pos[1], pos[2]);
      StepIsPositive(rows, cols, i, j, h, pos[0], pos[1], pos[2]);
      MapOSlots(rows, cols, sens[0], sens[1]);
      ForwardKeepsState(rows, cols, SensRow(), f[..], s, PoseIndex());
    }

    /** getCurrentProb: the belief summed over the four headings of cell
        (x, y), which is the cell's entry of the block sums of f and, for a
        distribution, lies between 0 and 1. */
    method GetCurrentProb(x: int, y: int) returns (probability: real)
      requires Shape() && 0 <= x < rows && 0 <= y < cols
      ensures f.Length % 4 == 0 && 0 <= Cell(cols, x, y) < f.Length / 4
      ensures probability == BlockSums(f[..])[Cell(cols, x, y)]
      ensures Distribution(f[..]) ==> 0.0 <= probability <= 1.0
    {
      CellRange(rows, cols, x, y);
      var c := Cell(cols, x, y);
      ghost var w := f[..][4 * c..4 * c + 4];
      probability := 0.0;
      var h := 0;
      while h < head
        invariant 0 <= h <= head && probability == Sum(w[..h])
      {
        SumPrefix(w, h);
        assert w[h] == f[MapT(cols, x, y, h)];
        probability := probability + f[MapT(cols, x, y, h)];
        h := h + 1;
      }
      assert w[..4] == w;
      if Distribution(f[..]) {
        BlockSumsDistribution(f[..]);
        SumAtLeastEntry(BlockSums(f[..]), c);
      }
    }

    /** getOrXY: the O entry of reading (rX, rY) for state (x, y, h); a
        negative coordinate selects "nothing". It is the sensor rule's
        weight for the two cells, whatever the heading. */
    function GetOrXY(rX: int, rY: int, x: int, y: int, h: int): (p: real)
      reads O
      requires Shape() && OBuilt() && 0 <= x < rows && 0 <= y < cols && 0 <= h < Heads
      requires (0 <= rX < rows && 0 <= rY < cols) || rX < 0 || rY < 0
      ensures p == if rX < 0 || rY < 0 then Nothing(rows, cols, x, y) else CellWeight(rX, rY, x, y)
    {
      MapTRange(rows, cols, x, y, h);
      MapTDecode(cols, x, y, h);
      if rX == -1 || rY == -1 then
        O[rows * cols, MapT(cols, x, y, h)]
      else
        var r := MapO(rows, cols, rX, rY);
        assert 0 <= r <= rows * cols &&
               (0 <= rX && 0 <= rY ==>
                  r < rows * cols && ReadingEntry(cols, r, MapT(cols, x, y, h)) == CellWeight(rX, rY, x, y)) by {
          if 0 <= rX && 0 <= rY {
            MapOSlots(rows, cols, rX, rY);
            ReadingEntryAt(rows, cols, r, x, y, h);
          }
        }
        O[r, MapT(cols, x, y, h)]
    }

    /** getTProb: the T entry from state (x, y, h) to state (nX, nY, nH). It
        is the weight of heading nH when (nX, nY, nH) is the legal step in
        direction nH, and 0 otherwise. */
    function GetTProb(x: int, y: int, h: int, nX: int, nY: int, nH: int): (p: real)
      reads T
      requires Shape() && TBuilt()
      requires 0 <= x < rows && 0 <= y < cols && 0 <= h < Heads
      requires 0 <= nX < rows && 0 <= nY < cols && 0 <= nH < Heads
      ensures p == if Legal(rows, cols, x, y, nH) && nX == x + DRow(nH) && nY == y + DCol(nH)
                   then Weight(rows, cols, x, y, h, nH) else 0.0
    {
      MapTRange(rows, cols, x, y, h);
      MapTRange(rows, cols, nX, nY, nH);
      MapTDecode(cols, x, y, h);
      ExpectedAt(rows, cols, x, y, h, nX, nY, nH);
      assert TRow(MapT(cols, x, y, h));
      T[MapT(cols, x, y, h), MapT(cols, nX, nY, nH)]
    }
  }
}

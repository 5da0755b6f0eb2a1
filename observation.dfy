/** The observation model O. Row r < rows * cols of O is the probability,
    for every state, that the sensor reports cell r; row rows * cols is the
    probability that it reports nothing. A reading cell's weight depends only
    on the axis distances between it and the robot's cell: 0.1 on the cell
    itself, 0.05 on the eight around it, 0.025 on the ring two cells away,
    0 further out. The "nothing" entry of a state takes what is left of 1. */
module Observation {
  import opened Indexing
  import opened Sums

  function Abs(x: int): nat {
    if x < 0 then -x else x
  }

  /** Probability that the sensor reports cell (ri, rj) when the robot is in
      cell (i, j), whatever its heading. */
  function CellWeight(ri: int, rj: int, i: int, j: int): real {
    var dRow, dCol := Abs(ri - i), Abs(rj - j);
    if dRow == 0 && dCol == 0 then 0.1
    else if dRow <= 1 && dCol <= 1 then 0.05
    else if dRow <= 2 && dCol <= 2 then 0.025
    else 0.0
  }

  /** The weights of every reading cell, in row-major order, for a robot in
      cell c. */
  function CellWeights(rows: int, cols: int, c: int): (w: seq<real>)
    requires rows >= 0 && cols > 0
    ensures |w| == rows * cols
  {
    seq(rows * cols, x => CellWeight(CellRow(cols, x), CellCol(cols, x), CellRow(cols, c), CellCol(cols, c)))
  }

  /** O[r][k] for a reading cell r < rows * cols and a state k. */
  function ReadingEntry(cols: int, r: int, k: int): real
    requires cols > 0
  {
    CellWeight(CellRow(cols, r), CellCol(cols, r), StateRow(cols, k), StateCol(cols, k))
  }

  /** The whole O row of reading cell r, over all states. */
  function ReadingRow(rows: int, cols: int, r: int): (o: seq<real>)
    requires rows >= 0 && cols > 0
    ensures |o| == rows * cols * 4
  {
    seq(rows * cols * 4, k => ReadingEntry(cols, r, k))
  }

  /** The "nothing" entry for a robot in cell (i, j): 0.9 less 0.05 for every
      0.05 entry and 0.025 for every 0.025 entry of the O row of reading
      (i, j), each count divided by the four headings. */
  function Nothing(rows: int, cols: int, i: int, j: int): real
    requires rows >= 0 && cols > 0
  {
    var o := ReadingRow(rows, cols, MapO(rows, cols, i, j));
    0.9 - 0.05 * (Count(o, 0.05) as real) / 4.0 - 0.025 * (Count(o, 0.025) as real) / 4.0
  }

  /** O[r][k] for every row r <= rows * cols of O. */
  function OEntry(rows: int, cols: int, r: int, k: int): real
    requires rows >= 0 && cols > 0
  {
    if r == rows * cols then Nothing(rows, cols, StateRow(cols, k), StateCol(cols, k))
    else ReadingEntry(cols, r, k)
  }

  /** The reading distribution of state k: the O entries of every reading,
      cells in row-major order and "nothing" last. */
  function Column(rows: int, cols: int, k: int): (o: seq<real>)
    requires rows >= 0 && cols > 0
    ensures |o| == rows * cols + 1
  {
    seq(rows * cols + 1, r => OEntry(rows, cols, r, k))
  }

  /** The weight does not change when the reading cell and the robot's cell
      are swapped. */
  lemma CellWeightSymmetric(ri: int, rj: int, i: int, j: int)
    ensures CellWeight(ri, rj, i, j) == CellWeight(i, j, ri, rj)
  {
  }

  /** A cell reports itself with 0.1 and nothing else does. */
  lemma CellWeightSelf(ri: int, rj: int, i: int, j: int)
    ensures CellWeight(ri, rj, i, j) == 0.1 <==> ri == i && rj == j
  {
  }

  /** A reading entry is the weight of the two cells, the same for all four
      headings of the state. */
  lemma ReadingEntryAt(rows: int, cols: int, r: int, i: int, j: int, h: int)
    requires rows > 0 && cols > 0 && 0 <= r < rows * cols && 0 <= j < cols && 0 <= h < Heads
    ensures ReadingEntry(cols, r, MapT(cols, i, j, h)) ==
              CellWeight(CellRow(cols, r), CellCol(cols, r), i, j)
  {
    MapTDecode(cols, i, j, h);
  }

  /** By symmetry, the O row of reading cell r repeats, once per heading,
      the weights of every reading cell for a robot in cell r. */
  lemma ReadingRowBlocks(rows: int, cols: int, r: int)
    requires rows > 0 && cols > 0 && 0 <= r < rows * cols
    ensures forall k :: 0 <= k < rows * cols * 4 ==>
              ReadingRow(rows, cols, r)[k] == CellWeights(rows, cols, r)[k / 4]
  {
  }

  /** The weights a robot's cell gives all reading cells take only the four
      values of the model. */
  predicate Weights(s: seq<real>) {
    forall x :: 0 <= x < |s| ==> s[x] == 0.0 || s[x] == 0.025 || s[x] == 0.05 || s[x] == 0.1
  }

  lemma {:induction false} SumByValue(s: seq<real>)
    requires Weights(s)
    ensures Sum(s) == 0.1 * (Count(s, 0.1) as real) + 0.05 * (Count(s, 0.05) as real) +
                      0.025 * (Count(s, 0.025) as real)
    ensures CountAtLeast(s, 0.05) == Count(s, 0.1) + Count(s, 0.05)
    ensures CountAtLeast(s, 0.025) == Count(s, 0.1) + Count(s, 0.05) + Count(s, 0.025)
  {
    if |s| > 0 {
      SumByValue(s[..|s| - 1]);
    }
  }

  function Clamp(x: int, hi: nat): nat {
    if x < 0 then 0 else if x > hi then hi else x
  }

  /** Entries at least t that all lie in a window [lo, lo + width) of
      positions number at most the part of the window seen so far. */
  lemma {:induction false} WindowCount(b: seq<real>, t: real, lo: int, width: nat, m: nat)
    requires m <= |b|
    requires forall y :: 0 <= y < |b| && b[y] >= t ==> lo <= y < lo + width
    ensures CountAtLeast(b[..m], t) <= Clamp(m - lo, width)
  {
    if m > 0 {
      WindowCount(b, t, lo, width, m - 1);
      assert b[..m][..m - 1] == b[..m - 1];
    }
  }

  /** The grid row r of a box-limited sequence holds at most the box width
      of such entries, and none outside the box's rows. */
  lemma RowBlockCount(s: seq<real>, cols: int, t: real, ci: int, cj: int, rad: nat, r: nat)
    requires cols > 0 && r * cols + cols <= |s|
    requires forall x :: 0 <= x < |s| && s[x] >= t ==>
               ci - rad <= CellRow(cols, x) <= ci + rad && cj - rad <= CellCol(cols, x) <= cj + rad
    ensures CountAtLeast(s[r * cols .. r * cols + cols], t) <=
              if ci - rad <= r <= ci + rad then 2 * rad + 1 else 0
  {
    var lo := r * cols;
    var block := s[lo .. lo + cols];
    var inBand := ci - rad <= r <= ci + rad;
    forall y | 0 <= y < cols && block[y] >= t
      ensures inBand && cj - rad <= y < cj - rad + (2 * rad + 1)
    {
      CellDecode(cols, r, y);
      assert block[y] == s[Cell(cols, r, y)];
    }
    assert block[..cols] == block;
    if inBand {
      WindowCount(block, t, cj - rad, 2 * rad + 1, cols);
    } else {
      WindowCount(block, t, cj - rad, 0, cols);
    }
  }

  /** Entries at least t that all lie in a box of rows [ci - rad, ci + rad]
      and columns [cj - rad, cj + rad], counted over the first m grid rows. */
  lemma {:induction false} BoxRows(s: seq<real>, cols: int, t: real, ci: int, cj: int, rad: nat, m: nat)
    requires cols > 0 && m * cols <= |s|
    requires forall x :: 0 <= x < |s| && s[x] >= t ==>
               ci - rad <= CellRow(cols, x) <= ci + rad && cj - rad <= CellCol(cols, x) <= cj + rad
    ensures CountAtLeast(s[..m * cols], t) <= (2 * rad + 1) * Clamp(m - (ci - rad), 2 * rad + 1)
  {
    if m > 0 {
      var width := 2 * rad + 1;
      var lo, hi := (m - 1) * cols, m * cols;
      assert hi == lo + cols;
      BoxRows(s, cols, t, ci, cj, rad, m - 1);
      RowBlockCount(s, cols, t, ci, cj, rad, m - 1);
      assert s[..hi] == s[..lo] + s[lo .. hi];
      CountAtLeastAppend(s[..lo], s[lo .. hi], t);
      var c0 := Clamp(m - 1 - (ci - rad), width);
      var c1 := Clamp(m - (ci - rad), width);
      var inBand := ci - rad <= m - 1 <= ci + rad;
      assert inBand ==> c1 == c0 + 1;
      assert !inBand ==> c0 <= c1;
      AddRowBound(CountAtLeast(s[..lo], t), CountAtLeast(s[lo .. hi], t), width, c0, c1, inBand);
    }
  }

  lemma MulStep(a: int, b: int)
    ensures a * (b + 1) == a * b + a
  {
  }

  lemma MulMono(a: nat, b: int, c: int)
    requires b <= c
    ensures a * b <= a * c
  {
    assert a * c - a * b == a * (c - b);
  }

  lemma AddRowBound(before: nat, here: nat, width: nat, c0: nat, c1: nat, inBand: bool)
    requires before <= width * c0
    requires inBand ==> here <= width && c1 == c0 + 1
    requires !inBand ==> here == 0 && c0 <= c1
    ensures before + here <= width * c1
  {
    if inBand {
      MulStep(width, c0);
    } else {
      MulMono(width, c0, c1);
    }
  }

  lemma BoxCount(s: seq<real>, rows: int, cols: int, t: real, ci: int, cj: int, rad: nat)
    requires rows > 0 && cols > 0 && |s| == rows * cols
    requires forall x :: 0 <= x < |s| && s[x] >= t ==>
               ci - rad <= CellRow(cols, x) <= ci + rad && cj - rad <= CellCol(cols, x) <= cj + rad
    ensures CountAtLeast(s, t) <= (2 * rad + 1) * (2 * rad + 1)
  {
    BoxRows(s, cols, t, ci, cj, rad, rows);
    assert s[..rows * cols] == s;
    var c := Clamp(rows - (ci - rad), 2 * rad + 1);
    assert (2 * rad + 1) * (2 * rad + 1 - c) >= 0;
  }

  /** The weights around cell c: one 0.1 (c itself), n1 <= 8 entries 0.05
      and at most 24 - n1 entries 0.025, with the "nothing" entry of c given
      by those counts. */
  lemma CellWeightCounts(rows: int, cols: int, i: int, j: int)
    requires rows > 0 && cols > 0 && 0 <= i < rows && 0 <= j < cols
    ensures var w := CellWeights(rows, cols, Cell(cols, i, j));
      Weights(w) && Count(w, 0.1) == 1 && Count(w, 0.05) <= 8 &&
      Count(w, 0.05) + Count(w, 0.025) <= 24 &&
      Nothing(rows, cols, i, j) == 0.9 - 0.05 * (Count(w, 0.05) as real) - 0.025 * (Count(w, 0.025) as real)
  {
    var c := Cell(cols, i, j);
    CellRange(rows, cols, i, j);
    CellDecode(cols, i, j);
    var w := CellWeights(rows, cols, c);
    forall x | 0 <= x < |w|
      ensures w[x] == 0.1 <==> x == c
    {
      CellEncode(rows, cols, x);
    }
    CountSingle(w, 0.1, c);
    SumByValue(w);
    BoxCount(w, rows, cols, 0.05, i, j, 1);
    BoxCount(w, rows, cols, 0.025, i, j, 2);
    MapOSlots(rows, cols, i, j);
    ReadingRowBlocks(rows, cols, c);
    CountBlocks(ReadingRow(rows, cols, c), w, 0.05);
    CountBlocks(ReadingRow(rows, cols, c), w, 0.025);
  }

  /** Every state's reading distribution sums to 1 in exact arithmetic. */
  lemma ColumnSumsToOne(rows: int, cols: int, i: int, j: int, h: int)
    requires rows > 0 && cols > 0 && 0 <= i < rows && 0 <= j < cols && 0 <= h < Heads
    ensures Sum(Column(rows, cols, MapT(cols, i, j, h))) == 1.0
  {
    var k := MapT(cols, i, j, h);
    var c := Cell(cols, i, j);
    var w := CellWeights(rows, cols, c);
    var col := Column(rows, cols, k);
    CellWeightCounts(rows, cols, i, j);
    MapTDecode(cols, i, j, h);
    CellDecode(cols, i, j);
    assert col == w + [Nothing(rows, cols, i, j)];
    SumAppend(w, [Nothing(rows, cols, i, j)]);
    assert [Nothing(rows, cols, i, j)][..0] == [];
    SumByValue(w);
  }

  /** The "nothing" entry is at least 0.1, so positive. */
  lemma NothingPositive(rows: int, cols: int, i: int, j: int)
    requires rows > 0 && cols > 0 && 0 <= i < rows && 0 <= j < cols
    ensures Nothing(rows, cols, i, j) >= 0.1
  {
    CellWeightCounts(rows, cols, i, j);
  }

  /** Every O entry is a probability no larger than 0.9. */
  lemma OEntryRange(rows: int, cols: int, r: int, k: int)
    requires rows > 0 && cols > 0 && 0 <= r <= rows * cols && 0 <= k < rows * cols * 4
    ensures 0.0 <= OEntry(rows, cols, r, k) <= 0.9
  {
    MapTEncode(rows, cols, k);
    if r == rows * cols {
      CellWeightCounts(rows, cols, StateRow(cols, k), StateCol(cols, k));
    }
  }
}

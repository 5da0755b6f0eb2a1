/** The weighted choice shared by move and getSensorReading, and the
    candidate lists they choose from. The random draw in [0, 100) is a
    parameter, so the choice is a deterministic function of it. */
module Sampling {
  import opened Indexing
  import opened Moves
  import opened Readings

  /** Sum of the first m weights. */
  function PrefixSum(w: seq<real>, m: nat): real
    requires m <= |w|
  {
    if m == 0 then 0.0 else PrefixSum(w, m - 1) + w[m - 1]
  }

  /** x is the candidate the accumulate-until-reached rule picks for draw:
      index 0 when the draw is not positive; otherwise the first index whose
      cumulative weight reaches the draw, or the last index when the weights
      never reach it. */
  ghost predicate IsChoice(w: seq<real>, draw: real, x: int) {
    0 <= x < |w| &&
    (draw <= 0.0 ==> x == 0) &&
    (draw > 0.0 ==>
      (forall m :: 1 <= m <= x ==> PrefixSum(w, m) < draw) &&
      (PrefixSum(w, x + 1) >= draw || x == |w| - 1))
  }

  /** The rule picks at most one index. */
  lemma ChoiceUnique(w: seq<real>, draw: real, x: int, y: int)
    requires IsChoice(w, draw, x) && IsChoice(w, draw, y)
    ensures x == y
  {
  }

  /** With positive weights the cumulative sums increase. */
  lemma {:induction false} PrefixSumGrows(w: seq<real>, a: nat, b: nat)
    requires a < b <= |w| && forall y :: 0 <= y < |w| ==> w[y] > 0.0
    ensures PrefixSum(w, a) < PrefixSum(w, b)
  {
    if a < b - 1 {
      PrefixSumGrows(w, a, b - 1);
    }
  }

  /** With positive weights and a positive draw, candidate x is picked
      exactly when the draw falls in (PrefixSum(w, x), PrefixSum(w, x + 1)],
      an interval as long as x's own weight; the last candidate also takes
      every draw beyond the total. */
  lemma ChoiceInterval(w: seq<real>, draw: real, x: int)
    requires forall y :: 0 <= y < |w| ==> w[y] > 0.0
    requires draw > 0.0 && 0 <= x < |w|
    ensures IsChoice(w, draw, x) <==>
              PrefixSum(w, x) < draw && (draw <= PrefixSum(w, x + 1) || x == |w| - 1)
  {
    if PrefixSum(w, x) < draw {
      forall m | 1 <= m <= x
        ensures PrefixSum(w, m) < draw
      {
        if m < x {
          PrefixSumGrows(w, m, x);
        }
      }
    }
  }

  /** A positive draw beyond the total of positive weights goes to the last
      candidate. In move this is reached from a wall cell facing the wall:
      its three 0.33 entries scale to a total of 99, so every draw in
      (99, 100] falls back to the last candidate. */
  lemma BeyondTotalTakesLast(w: seq<real>, draw: real)
    requires |w| > 0 && forall y :: 0 <= y < |w| ==> w[y] > 0.0
    requires PrefixSum(w, |w|) < draw
    ensures IsChoice(w, draw, |w| - 1)
  {
    PrefixSumGrows(w, 0, |w|);
    PrefixSumGrows(w, |w| - 1, |w|);
    ChoiceInterval(w, draw, |w| - 1);
  }

  /** The sampling loop of move and getSensorReading: add scaled weights
      until the sum reaches the draw, take the last one added (or the first
      when none was), and fall back to the last candidate when the list runs
      out first. */
  method ChooseIndex(w: seq<real>, draw: real) returns (x: nat)
    requires |w| > 0
    ensures IsChoice(w, draw, x)
  {
    var sum := 0.0;
    var i := 0;
    while sum < draw && i < |w|
      invariant 0 <= i <= |w| && sum == PrefixSum(w, i)
      invariant forall m :: 0 <= m < i ==> PrefixSum(w, m) < draw
      decreases |w| - i
    {
      sum := sum + w[i];
      i := i + 1;
    }
    if sum < draw {
      // The list ran out before the sum reached the draw.
      x := |w| - 1;
    } else {
      x := if i - 1 > 0 then i - 1 else 0;
    }
  }

  /** The candidate moves of move(): every non-zero entry among the first m
      entries of a T row, in row-major (flat index) order. */
  function MoveCandidates(rows: int, cols: int, row: seq<real>, m: nat): (c: seq<Movement>)
    requires rows > 0 && cols > 0 && m <= |row| == rows * cols * 4
    ensures |c| <= m
  {
    if m == 0 then []
    else
      var k := m - 1;
      var prev := MoveCandidates(rows, cols, row, k);
      if row[k] != 0.0 then
        prev + [NewMovement(row[k], StateRow(cols, k), StateCol(cols, k), StateHead(k))]
      else
        prev
  }

  /** The candidate list is exactly the non-zero entries below m: each
      candidate targets one of them with its weight, targets strictly
      increase, and every non-zero entry is targeted. */
  lemma {:induction false} MoveCandidatesExact(rows: int, cols: int, row: seq<real>, m: nat)
    requires rows > 0 && cols > 0 && m <= |row| == rows * cols * 4
    ensures var c := MoveCandidates(rows, cols, row, m);
      (forall x :: 0 <= x < |c| ==> MovesTo(rows, cols, row, c[x]) && MoveTarget(cols, c[x]) < m) &&
      (forall x, y :: 0 <= x < y < |c| ==> MoveTarget(cols, c[x]) < MoveTarget(cols, c[y])) &&
      (forall k :: 0 <= k < m && row[k] != 0.0 ==> exists x :: 0 <= x < |c| && MoveTarget(cols, c[x]) == k)
  {
    if m > 0 {
      var k := m - 1;
      MoveCandidatesExact(rows, cols, row, k);
      var prev := MoveCandidates(rows, cols, row, k);
      var c := MoveCandidates(rows, cols, row, m);
      if row[k] != 0.0 {
        MapTEncode(rows, cols, k);
        assert c == prev + [NewMovement(row[k], StateRow(cols, k), StateCol(cols, k), StateHead(k))];
        assert MovesTo(rows, cols, row, c[|prev|]) && MoveTarget(cols, c[|prev|]) == k;
        forall x | 0 <= x < |prev|
          ensures c[x] == prev[x]
        {
        }
        forall k2 | 0 <= k2 < m && row[k2] != 0.0
          ensures exists x :: 0 <= x < |c| && MoveTarget(cols, c[x]) == k2
        {
          if k2 < k {
            var x :| 0 <= x < |prev| && MoveTarget(cols, prev[x]) == k2;
            assert c[x] == prev[x];
          } else {
            assert MoveTarget(cols, c[|prev|]) == k2;
          }
        }
      } else {
        assert c == prev;
      }
    }
  }

  /** One more state, visited as (i, j, h), extends the list by its
      movement when its entry is non-zero. */
  lemma MoveCandidatesStep(rows: int, cols: int, row: seq<real>, m: nat, i: int, j: int, h: int)
    requires rows > 0 && cols > 0 && |row| == rows * cols * 4
    requires 0 <= i < rows && 0 <= j < cols && 0 <= h < Heads && m == MapT(cols, i, j, h)
    ensures m < |row|
    ensures MoveCandidates(rows, cols, row, m + 1) ==
              if row[m] != 0.0 then MoveCandidates(rows, cols, row, m) + [NewMovement(row[m], i, j, h)]
              else MoveCandidates(rows, cols, row, m)
  {
    MapTRange(rows, cols, i, j, h);
    MapTDecode(cols, i, j, h);
  }

  /** The flat index of a movement's target state. */
  function MoveTarget(cols: int, mv: Movement): int {
    if |mv.pos| == 3 then MapT(cols, mv.pos[0], mv.pos[1], mv.pos[2]) else -1
  }

  /** mv targets a state in range whose T entry is non-zero, and carries
      that entry scaled by 100. */
  ghost predicate MovesTo(rows: int, cols: int, row: seq<real>, mv: Movement) {
    |mv.pos| == 3 &&
    0 <= mv.pos[0] < rows && 0 <= mv.pos[1] < cols && 0 <= mv.pos[2] < Heads &&
    var k := MapT(cols, mv.pos[0], mv.pos[1], mv.pos[2]);
    0 <= k < |row| && row[k] != 0.0 && mv.RelativeProb() == 100.0 * row[k]
  }

  /** The candidate readings of getSensorReading among the first m cells: the
      cells whose entry in a state's reading distribution is non-zero, in
      row-major order. */
  function CellCandidates(rows: int, cols: int, column: seq<real>, m: nat): (c: seq<Reading>)
    requires rows > 0 && cols > 0 && m <= rows * cols < |column|
    ensures |c| <= m
  {
    if m == 0 then []
    else
      var r := m - 1;
      var prev := CellCandidates(rows, cols, column, r);
      if column[r] != 0.0 then
        prev + [NewReading(column[r], CellRow(cols, r), CellCol(cols, r))]
      else
        prev
  }

  /** The candidate list is exactly the non-zero cells below m: each
      candidate reports one of them with its weight, cells strictly
      increase, and every non-zero cell is reported. */
  lemma {:induction false} CellCandidatesExact(rows: int, cols: int, column: seq<real>, m: nat)
    requires rows > 0 && cols > 0 && m <= rows * cols < |column|
    ensures var c := CellCandidates(rows, cols, column, m);
      (forall x :: 0 <= x < |c| ==> ReportsCell(rows, cols, column, c[x]) && Reported(cols, c[x]) < m) &&
      (forall x, y :: 0 <= x < y < |c| ==> Reported(cols, c[x]) < Reported(cols, c[y])) &&
      (forall r :: 0 <= r < m && column[r] != 0.0 ==> exists x :: 0 <= x < |c| && Reported(cols, c[x]) == r)
  {
    if m > 0 {
      var r := m - 1;
      CellCandidatesExact(rows, cols, column, r);
      var prev := CellCandidates(rows, cols, column, r);
      var c := CellCandidates(rows, cols, column, m);
      if column[r] != 0.0 {
        CellEncode(rows, cols, r);
        assert c == prev + [NewReading(column[r], CellRow(cols, r), CellCol(cols, r))];
        assert ReportsCell(rows, cols, column, c[|prev|]) && Reported(cols, c[|prev|]) == r;
        forall x | 0 <= x < |prev|
          ensures c[x] == prev[x]
        {
        }
        forall r2 | 0 <= r2 < m && column[r2] != 0.0
          ensures exists x :: 0 <= x < |c| && Reported(cols, c[x]) == r2
        {
          if r2 < r {
            var x :| 0 <= x < |prev| && Reported(cols, prev[x]) == r2;
            assert c[x] == prev[x];
          } else {
            assert Reported(cols, c[|prev|]) == r2;
          }
        }
      } else {
        assert c == prev;
      }
    }
  }

  /** One more cell, visited as (i, j), extends the list by its reading when
      its entry is non-zero. */
  lemma CellCandidatesStep(rows: int, cols: int, column: seq<real>, m: nat, i: int, j: int)
    requires rows > 0 && cols > 0 && rows * cols < |column|
    requires 0 <= i < rows && 0 <= j < cols && m == Cell(cols, i, j)
    ensures m < rows * cols
    ensures CellCandidates(rows, cols, column, m + 1) ==
              if column[m] != 0.0 then CellCandidates(rows, cols, column, m) + [NewReading(column[m], i, j)]
              else CellCandidates(rows, cols, column, m)
  {
    CellRange(rows, cols, i, j);
    CellDecode(cols, i, j);
  }

  /** The flat cell index of a reading's reported cell. */
  function Reported(cols: int, rd: Reading): int {
    if |rd.pos| == 2 then Cell(cols, rd.pos[0], rd.pos[1]) else -1
  }

  /** rd reports a cell in range whose entry is non-zero, and carries that
      entry scaled by 100. */
  ghost predicate ReportsCell(rows: int, cols: int, column: seq<real>, rd: Reading) {
    |rd.pos| == 2 && 0 <= rd.pos[0] < rows && 0 <= rd.pos[1] < cols &&
    var r := Cell(cols, rd.pos[0], rd.pos[1]);
    0 <= r < |column| && column[r] != 0.0 && rd.RelativeProb() == 100.0 * column[r]
  }

  /** All candidate readings: the non-zero cells, then "nothing" as
      (-1, -1), which is always present even when its probability is 0. */
  function SensorCandidates(rows: int, cols: int, column: seq<real>): (c: seq<Reading>)
    requires rows > 0 && cols > 0 && |column| == rows * cols + 1
    ensures |c| > 0 && c[|c| - 1] == NewReading(column[rows * cols], -1, -1)
  {
    CellCandidates(rows, cols, column, rows * cols) + [NewReading(column[rows * cols], -1, -1)]
  }

  /** The scaled weights of a candidate list. */
  function MoveWeights(c: seq<Movement>): (w: seq<real>)
    ensures |w| == |c| && forall x :: 0 <= x < |c| ==> w[x] == c[x].RelativeProb()
  {
    seq(|c|, x requires 0 <= x < |c| => c[x].RelativeProb())
  }

  function ReadingWeights(c: seq<Reading>): (w: seq<real>)
    ensures |w| == |c| && forall x :: 0 <= x < |c| ==> w[x] == c[x].RelativeProb()
  {
    seq(|c|, x requires 0 <= x < |c| => c[x].RelativeProb())
  }
}

/** The transition model T as a rule over legal moves. A robot in cell
    (i, j) facing h moves one cell in some direction d and then faces d.
    The directions it may take are those whose neighbour lies inside the
    grid ("legal"). If h is legal, d = h has weight 0.7 and each other legal
    direction shares the rest by the number of legal directions (0.3 for
    two, 0.15 for three, 0.1 for four); if h points into a wall, the legal
    directions get 0.5 each (two of them) or 0.33 each (three). The class
    HMMPredictor builds T case by case (corners, walls, interior); its
    postconditions say that it builds exactly this rule. */
module Transition {
  import opened Indexing
  import opened Sums

  function DRow(d: int): int {
    if d == 0 then -1 else if d == 2 then 1 else 0
  }

  function DCol(d: int): int {
    if d == 1 then 1 else if d == 3 then -1 else 0
  }

  /** Moving from (i, j) in direction d stays inside the grid. */
  predicate Legal(rows: int, cols: int, i: int, j: int, d: int) {
    0 <= i + DRow(d) < rows && 0 <= j + DCol(d) < cols
  }

  function LegalCount(rows: int, cols: int, i: int, j: int): nat {
    (if Legal(rows, cols, i, j, 0) then 1 else 0) +
    (if Legal(rows, cols, i, j, 1) then 1 else 0) +
    (if Legal(rows, cols, i, j, 2) then 1 else 0) +
    (if Legal(rows, cols, i, j, 3) then 1 else 0)
  }

  /** The index of the state reached by moving in direction d, as the source
      computes it with moveNorth, moveEast, moveSouth and moveWest. */
  function Target(rows: int, cols: int, i: int, j: int, d: int): (t: int)
    requires 0 <= d < Heads
    ensures t == MapT(cols, i + DRow(d), j + DCol(d), d)
    ensures Legal(rows, cols, i, j, d) ==> 0 <= t < rows * cols * 4
  {
    var t := if d == 0 then MoveNorth(cols, i, j)
             else if d == 1 then MoveEast(cols, i, j)
             else if d == 2 then MoveSouth(cols, i, j)
             else MoveWest(cols, i, j);
    if Legal(rows, cols, i, j, d) then
      MapTRange(rows, cols, i + DRow(d), j + DCol(d), d);
      t
    else
      t
  }

  /** Probability of moving in direction d from (i, j) when facing h,
      provided d is legal. */
  function Weight(rows: int, cols: int, i: int, j: int, h: int, d: int): real {
    var n := LegalCount(rows, cols, i, j);
    if Legal(rows, cols, i, j, h) then
      if d == h then 0.7 else if n == 2 then 0.3 else if n == 3 then 0.15 else 0.1
    else
      if n == 2 then 0.5 else 0.33
  }

  /** Entry k of the T row of state (i, j, h): the weight of the legal move
      that lands on state k, or 0 when no legal move does. */
  function Expected(rows: int, cols: int, i: int, j: int, h: int, k: int): real {
    if Legal(rows, cols, i, j, 0) && k == Target(rows, cols, i, j, 0) then Weight(rows, cols, i, j, h, 0)
    else if Legal(rows, cols, i, j, 1) && k == Target(rows, cols, i, j, 1) then Weight(rows, cols, i, j, h, 1)
    else if Legal(rows, cols, i, j, 2) && k == Target(rows, cols, i, j, 2) then Weight(rows, cols, i, j, h, 2)
    else if Legal(rows, cols, i, j, 3) && k == Target(rows, cols, i, j, 3) then Weight(rows, cols, i, j, h, 3)
    else 0.0
  }

  function ExpectedRow(rows: int, cols: int, i: int, j: int, h: int): seq<real>
    requires rows >= 0 && cols >= 0
  {
    seq(rows * cols * 4, k => Expected(rows, cols, i, j, h, k))
  }

  /** T[s][k] for flat state indices. */
  function TEntry(rows: int, cols: int, s: int, k: int): real
    requires cols > 0
  {
    Expected(rows, cols, StateRow(cols, s), StateCol(cols, s), StateHead(s), k)
  }

  /** The indices that legal moves from (i, j) land on. */
  function LegalTargets(rows: int, cols: int, i: int, j: int): set<int> {
    (if Legal(rows, cols, i, j, 0) then {Target(rows, cols, i, j, 0)} else {}) +
    (if Legal(rows, cols, i, j, 1) then {Target(rows, cols, i, j, 1)} else {}) +
    (if Legal(rows, cols, i, j, 2) then {Target(rows, cols, i, j, 2)} else {}) +
    (if Legal(rows, cols, i, j, 3) then {Target(rows, cols, i, j, 3)} else {})
  }

  /** The targets of a cell with exactly the two legal moves p and q. */
  lemma TwoTargets(rows: int, cols: int, i: int, j: int, p: int, q: int)
    requires 0 <= p < Heads && 0 <= q < Heads
    requires Legal(rows, cols, i, j, p) && Legal(rows, cols, i, j, q)
    requires forall d :: 0 <= d < Heads && Legal(rows, cols, i, j, d) ==> d == p || d == q
    ensures LegalTargets(rows, cols, i, j) == {Target(rows, cols, i, j, p), Target(rows, cols, i, j, q)}
  {
  }

  /** The targets of a cell with exactly the three legal moves x, y and z. */
  lemma ThreeTargets(rows: int, cols: int, i: int, j: int, x: int, y: int, z: int)
    requires 0 <= x < Heads && 0 <= y < Heads && 0 <= z < Heads
    requires Legal(rows, cols, i, j, x) && Legal(rows, cols, i, j, y) && Legal(rows, cols, i, j, z)
    requires forall d :: 0 <= d < Heads && Legal(rows, cols, i, j, d) ==> d == x || d == y || d == z
    ensures LegalTargets(rows, cols, i, j) ==
              {Target(rows, cols, i, j, x), Target(rows, cols, i, j, y), Target(rows, cols, i, j, z)}
  {
  }

  /** A row that holds each legal move's weight at its target and 0
      everywhere else is the row of the rule. */
  lemma SparseRowIsExpected(rows: int, cols: int, i: int, j: int, h: int, row: seq<real>)
    requires rows > 0 && cols > 0 && |row| == rows * cols * 4
    requires Legal(rows, cols, i, j, 0) ==> row[Target(rows, cols, i, j, 0)] == Weight(rows, cols, i, j, h, 0)
    requires Legal(rows, cols, i, j, 1) ==> row[Target(rows, cols, i, j, 1)] == Weight(rows, cols, i, j, h, 1)
    requires Legal(rows, cols, i, j, 2) ==> row[Target(rows, cols, i, j, 2)] == Weight(rows, cols, i, j, h, 2)
    requires Legal(rows, cols, i, j, 3) ==> row[Target(rows, cols, i, j, 3)] == Weight(rows, cols, i, j, h, 3)
    requires forall k :: 0 <= k < |row| && k !in LegalTargets(rows, cols, i, j) ==> row[k] == 0.0
    ensures row == ExpectedRow(rows, cols, i, j, h)
  {
    var t0, t1, t2, t3 := Target(rows, cols, i, j, 0), Target(rows, cols, i, j, 1), Target(rows, cols, i, j, 2), Target(rows, cols, i, j, 3);
    // Targets of different directions differ in their heading.
    assert t0 % 4 == 0 && t1 % 4 == 1 && t2 % 4 == 2 && t3 % 4 == 3;
    forall k | 0 <= k < |row|
      ensures row[k] == Expected(rows, cols, i, j, h, k)
    {
      if !(Legal(rows, cols, i, j, 0) && k == t0) && !(Legal(rows, cols, i, j, 1) && k == t1) &&
         !(Legal(rows, cols, i, j, 2) && k == t2) && !(Legal(rows, cols, i, j, 3) && k == t3) {
        assert k !in LegalTargets(rows, cols, i, j);
      }
    }
  }

  /** The rule's row for (i, j, h) written as updates of a zero row, one per
      legal direction in order North, East, South, West. */
  function Laid(rows: int, cols: int, i: int, j: int, h: int, d: nat): (r: seq<real>)
    requires rows > 0 && cols > 0 && d <= 4
    ensures |r| == rows * cols * 4
  {
    if d == 0 then Zeros(rows * cols * 4)
    else
      var prev := Laid(rows, cols, i, j, h, d - 1);
      if Legal(rows, cols, i, j, d - 1) then prev[Target(rows, cols, i, j, d - 1) := Weight(rows, cols, i, j, h, d - 1)]
      else prev
  }

  /** Sum of the weights of the legal directions below d. */
  function LegalMass(rows: int, cols: int, i: int, j: int, h: int, d: nat): real
    requires d <= 4
  {
    if d == 0 then 0.0
    else LegalMass(rows, cols, i, j, h, d - 1) +
         (if Legal(rows, cols, i, j, d - 1) then Weight(rows, cols, i, j, h, d - 1) else 0.0)
  }

  lemma {:induction false} LaidEntries(rows: int, cols: int, i: int, j: int, h: int, d: nat)
    requires rows > 0 && cols > 0 && d <= 4
    ensures forall e :: d <= e < 4 && Legal(rows, cols, i, j, e) ==>
              Laid(rows, cols, i, j, h, d)[Target(rows, cols, i, j, e)] == 0.0
    ensures forall e :: 0 <= e < d && Legal(rows, cols, i, j, e) ==>
              Laid(rows, cols, i, j, h, d)[Target(rows, cols, i, j, e)] == Weight(rows, cols, i, j, h, e)
    ensures forall k :: 0 <= k < rows * cols * 4 && k !in LegalTargets(rows, cols, i, j) ==>
              Laid(rows, cols, i, j, h, d)[k] == 0.0
  {
    if d > 0 {
      LaidEntries(rows, cols, i, j, h, d - 1);
      if Legal(rows, cols, i, j, d - 1) {
        var t := Target(rows, cols, i, j, d - 1);
        forall e | 0 <= e < 4 && e != d - 1
          ensures Target(rows, cols, i, j, e) != t
        {
          assert Target(rows, cols, i, j, e) % 4 == e;
        }
      }
    }
  }

  /** The laid row sums to the weights of the legal moves laid so far. */
  lemma {:induction false} LaidSum(rows: int, cols: int, i: int, j: int, h: int, d: nat)
    requires rows > 0 && cols > 0 && d <= 4
    ensures Sum(Laid(rows, cols, i, j, h, d)) == LegalMass(rows, cols, i, j, h, d)
  {
    if d == 0 {
      SumZeros(rows * cols * 4);
    } else {
      LaidSum(rows, cols, i, j, h, d - 1);
      var prev := Laid(rows, cols, i, j, h, d - 1);
      if Legal(rows, cols, i, j, d - 1) {
        LaidEntries(rows, cols, i, j, h, d - 1);
        SumUpdate(prev, Target(rows, cols, i, j, d - 1), Weight(rows, cols, i, j, h, d - 1));
      }
    }
  }

  /** Row totals: every T row sums to 1, except that a cell on a wall (not a
      corner) whose heading faces the wall gives 0.33 to each of its three
      moves, 0.99 in all. */
  lemma RowTotal(rows: int, cols: int, i: int, j: int, h: int)
    requires rows >= 2 && cols >= 2 && 0 <= i < rows && 0 <= j < cols && 0 <= h < Heads
    ensures Sum(ExpectedRow(rows, cols, i, j, h)) ==
              if !Legal(rows, cols, i, j, h) && LegalCount(rows, cols, i, j) == 3 then 0.99 else 1.0
  {
    LaidEntries(rows, cols, i, j, h, 4);
    LaidSum(rows, cols, i, j, h, 4);
    var r := Laid(rows, cols, i, j, h, 4);
    SparseRowIsExpected(rows, cols, i, j, h, r);
    assert LegalMass(rows, cols, i, j, h, 0) == 0.0;
    var m1 := LegalMass(rows, cols, i, j, h, 1);
    var m2 := LegalMass(rows, cols, i, j, h, 2);
    var m3 := LegalMass(rows, cols, i, j, h, 3);
    assert m1 == if Legal(rows, cols, i, j, 0) then Weight(rows, cols, i, j, h, 0) else 0.0;
    assert m2 == m1 + if Legal(rows, cols, i, j, 1) then Weight(rows, cols, i, j, h, 1) else 0.0;
    assert m3 == m2 + if Legal(rows, cols, i, j, 2) then Weight(rows, cols, i, j, h, 2) else 0.0;
  }

  /** Which cells have how many legal moves: corners two, other wall cells
      three, interior cells four. */
  lemma LegalCountByPlace(rows: int, cols: int, i: int, j: int)
    requires rows >= 2 && cols >= 2 && 0 <= i < rows && 0 <= j < cols
    ensures LegalCount(rows, cols, i, j) ==
              (if (i == 0 || i == rows - 1) && (j == 0 || j == cols - 1) then 2
               else if i == 0 || i == rows - 1 || j == 0 || j == cols - 1 then 3
               else 4)
  {
  }

  /** T entries are probabilities, positive exactly on legal moves' targets. */
  lemma ExpectedRange(rows: int, cols: int, i: int, j: int, h: int, k: int)
    ensures 0.0 <= Expected(rows, cols, i, j, h, k) <= 0.7
    ensures Expected(rows, cols, i, j, h, k) > 0.0 <==> k in LegalTargets(rows, cols, i, j)
  {
    assert Target(rows, cols, i, j, 0) % 4 == 0 && Target(rows, cols, i, j, 1) % 4 == 1;
    assert Target(rows, cols, i, j, 2) % 4 == 2 && Target(rows, cols, i, j, 3) % 4 == 3;
  }

  /** T looked up by coordinates, as getTProb does: the entry from (i, j, h)
      to (i2, j2, h2) is non-zero only when h2 is a legal direction and
      (i2, j2) is the neighbour of (i, j) in direction h2. */
  lemma ExpectedAt(rows: int, cols: int, i: int, j: int, h: int, i2: int, j2: int, h2: int)
    requires 0 <= i2 < rows && 0 <= j2 < cols && 0 <= h2 < Heads
    ensures Expected(rows, cols, i, j, h, MapT(cols, i2, j2, h2)) ==
              if Legal(rows, cols, i, j, h2) && i2 == i + DRow(h2) && j2 == j + DCol(h2)
              then Weight(rows, cols, i, j, h, h2) else 0.0
  {
    var k := MapT(cols, i2, j2, h2);
    forall d | 0 <= d < Heads && Legal(rows, cols, i, j, d)
      ensures k == Target(rows, cols, i, j, d) <==> d == h2 && i2 == i + DRow(d) && j2 == j + DCol(d)
    {
      MapTInjective(cols, i2, j2, h2, i + DRow(d), j + DCol(d), d);
    }
  }

  /** A T entry is positive exactly when it is a legal one-cell step that
      ends facing the direction moved. */
  lemma PositiveIsStep(rows: int, cols: int, i: int, j: int, h: int, i2: int, j2: int, h2: int)
    requires 0 <= i2 < rows && 0 <= j2 < cols && 0 <= h2 < Heads
    ensures Expected(rows, cols, i, j, h, MapT(cols, i2, j2, h2)) > 0.0 <==>
              Legal(rows, cols, i, j, h2) && i2 == i + DRow(h2) && j2 == j + DCol(h2)
  {
    ExpectedAt(rows, cols, i, j, h, i2, j2, h2);
  }

  /** A legal step from state (i, j, h) has a positive T entry. */
  lemma StepIsPositive(rows: int, cols: int, i: int, j: int, h: int, i2: int, j2: int, h2: int)
    requires 0 <= j < cols && 0 <= h < Heads
    requires 0 <= i2 < rows && 0 <= j2 < cols && 0 <= h2 < Heads
    requires Legal(rows, cols, i, j, h2) && i2 == i + DRow(h2) && j2 == j + DCol(h2)
    ensures TEntry(rows, cols, MapT(cols, i, j, h), MapT(cols, i2, j2, h2)) > 0.0
  {
    MapTDecode(cols, i, j, h);
    PositiveIsStep(rows, cols, i, j, h, i2, j2, h2);
  }

  /** A row with a and b on the targets of the only two legal moves p and q
      and 0 elsewhere is the rule's row for heading h when a and b are the
      weights of p and q for h. */
  lemma TwoMoveRow(rows: int, cols: int, i: int, j: int, h: int, p: int, q: int, a: real, b: real)
    requires rows > 0 && cols > 0 && 0 <= p < Heads && 0 <= q < Heads && p != q
    requires Legal(rows, cols, i, j, p) && Legal(rows, cols, i, j, q)
    requires forall d :: 0 <= d < Heads && Legal(rows, cols, i, j, d) ==> d == p || d == q
    requires a == Weight(rows, cols, i, j, h, p) && b == Weight(rows, cols, i, j, h, q)
    ensures Zeros(rows * cols * 4)[Target(rows, cols, i, j, p) := a][Target(rows, cols, i, j, q) := b]
              == ExpectedRow(rows, cols, i, j, h)
  {
    TwoTargets(rows, cols, i, j, p, q);
    var tp, tq := Target(rows, cols, i, j, p), Target(rows, cols, i, j, q);
    assert tp % 4 == p && tq % 4 == q;
    var row := Zeros(rows * cols * 4)[tp := a][tq := b];
    assert row[tp] == a && row[tq] == b;
    SparseRowIsExpected(rows, cols, i, j, h, row);
  }

  /** The same for the only three legal moves x, y and z. */
  lemma ThreeMoveRow(rows: int, cols: int, i: int, j: int, h: int, x: int, y: int, z: int, a: real, b: real, c: real)
    requires rows > 0 && cols > 0 && 0 <= x < Heads && 0 <= y < Heads && 0 <= z < Heads
    requires x != y && x != z && y != z
    requires Legal(rows, cols, i, j, x) && Legal(rows, cols, i, j, y) && Legal(rows, cols, i, j, z)
    requires forall d :: 0 <= d < Heads && Legal(rows, cols, i, j, d) ==> d == x || d == y || d == z
    requires a == Weight(rows, cols, i, j, h, x) && b == Weight(rows, cols, i, j, h, y)
    requires c == Weight(rows, cols, i, j, h, z)
    ensures Zeros(rows * cols * 4)[Target(rows, cols, i, j, x) := a][Target(rows, cols, i, j, y) := b]
              [Target(rows, cols, i, j, z) := c] == ExpectedRow(rows, cols, i, j, h)
  {
    var tx, ty, tz := Target(rows, cols, i, j, x), Target(rows, cols, i, j, y), Target(rows, cols, i, j, z);
    var row := Zeros(rows * cols * 4)[tx := a][ty := b][tz := c];
    ThreeWeightsPlaced(rows, cols, i, j, h, x, y, z, row);
    ThreeTargets(rows, cols, i, j, x, y, z);
    forall k | 0 <= k < |row| && k !in LegalTargets(rows, cols, i, j)
      ensures row[k] == 0.0
    {
      assert k != tx && k != ty && k != tz;
    }
    SparseRowIsExpected(rows, cols, i, j, h, row);
  }

  /** The weights written on three distinct targets are where the rule wants
      them. */
  lemma ThreeWeightsPlaced(rows: int, cols: int, i: int, j: int, h: int, x: int, y: int, z: int, row: seq<real>)
    requires rows > 0 && cols > 0 && 0 <= x < Heads && 0 <= y < Heads && 0 <= z < Heads
    requires x != y && x != z && y != z
    requires Legal(rows, cols, i, j, x) && Legal(rows, cols, i, j, y) && Legal(rows, cols, i, j, z)
    requires forall d :: 0 <= d < Heads && Legal(rows, cols, i, j, d) ==> d == x || d == y || d == z
    requires row == Zeros(rows * cols * 4)[Target(rows, cols, i, j, x) := Weight(rows, cols, i, j, h, x)]
                      [Target(rows, cols, i, j, y) := Weight(rows, cols, i, j, h, y)]
                      [Target(rows, cols, i, j, z) := Weight(rows, cols, i, j, h, z)]
    ensures forall d :: 0 <= d < Heads && Legal(rows, cols, i, j, d) ==>
              row[Target(rows, cols, i, j, d)] == Weight(rows, cols, i, j, h, d)
  {
    var tx, ty, tz := Target(rows, cols, i, j, x), Target(rows, cols, i, j, y), Target(rows, cols, i, j, z);
    assert tx % 4 == x && ty % 4 == y && tz % 4 == z;
  }

  /** The same for a cell where all four moves are legal, with the weights
      of North, East, South and West in that order. */
  lemma FourMoveRow(rows: int, cols: int, i: int, j: int, h: int, a: real, b: real, c: real, d: real)
    requires rows > 0 && cols > 0
    requires Legal(rows, cols, i, j, 0) && Legal(rows, cols, i, j, 1)
    requires Legal(rows, cols, i, j, 2) && Legal(rows, cols, i, j, 3)
    requires a == Weight(rows, cols, i, j, h, 0) && b == Weight(rows, cols, i, j, h, 1)
    requires c == Weight(rows, cols, i, j, h, 2) && d == Weight(rows, cols, i, j, h, 3)
    ensures Zeros(rows * cols * 4)[Target(rows, cols, i, j, 0) := a][Target(rows, cols, i, j, 1) := b]
              [Target(rows, cols, i, j, 2) := c][Target(rows, cols, i, j, 3) := d] == ExpectedRow(rows, cols, i, j, h)
  {
    var t0, t1, t2, t3 := Target(rows, cols, i, j, 0), Target(rows, cols, i, j, 1), Target(rows, cols, i, j, 2), Target(rows, cols, i, j, 3);
    assert t0 % 4 == 0 && t1 % 4 == 1 && t2 % 4 == 2 && t3 % 4 == 3;
    var row := Zeros(rows * cols * 4)[t0 := a][t1 := b][t2 := c][t3 := d];
    assert row[t0] == a && row[t1] == b && row[t2] == c && row[t3] == d;
    SparseRowIsExpected(rows, cols, i, j, h, row);
  }
}

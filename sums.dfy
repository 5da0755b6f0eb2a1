/** Exact sums and counts over sequences of probabilities. */
module Sums {

  /** Sum of a sequence, accumulated left to right as the source's loops do. */
  function Sum(s: seq<real>): real {
    if |s| == 0 then 0.0 else Sum(s[..|s| - 1]) + s[|s| - 1]
  }

  /** Number of entries equal to v (Collections.frequency). */
  function Count(s: seq<real>, v: real): nat {
    if |s| == 0 then 0 else Count(s[..|s| - 1], v) + (if s[|s| - 1] == v then 1 else 0)
  }

  /** Number of entries at least t. */
  function CountAtLeast(s: seq<real>, t: real): nat {
    if |s| == 0 then 0 else CountAtLeast(s[..|s| - 1], t) + (if s[|s| - 1] >= t then 1 else 0)
  }

  function Zeros(n: nat): (z: seq<real>)
    ensures |z| == n && forall k :: 0 <= k < n ==> z[k] == 0.0
  {
    seq(n, _ => 0.0)
  }

  predicate NonNegative(s: seq<real>) {
    forall k :: 0 <= k < |s| ==> s[k] >= 0.0
  }

  /** A probability distribution. */
  predicate Distribution(s: seq<real>) {
    NonNegative(s) && Sum(s) == 1.0
  }

  lemma {:induction false} SumAppend(s: seq<real>, t: seq<real>)
    ensures Sum(s + t) == Sum(s) + Sum(t)
  {
    if |t| > 0 {
      assert (s + t)[..|s + t| - 1] == s + t[..|t| - 1];
      SumAppend(s, t[..|t| - 1]);
    } else {
      assert s + t == s;
    }
  }

  lemma {:induction false} SumPrefix(s: seq<real>, m: nat)
    requires m < |s|
    ensures Sum(s[..m + 1]) == Sum(s[..m]) + s[m]
  {
    assert s[..m + 1][..m] == s[..m];
  }

  lemma {:induction false} SumZeros(n: nat)
    ensures Sum(Zeros(n)) == 0.0
  {
    if n > 0 {
      assert Zeros(n)[..n - 1] == Zeros(n - 1);
      SumZeros(n - 1);
    }
  }

  /** A sequence of n copies of v sums to n * v. */
  lemma {:induction false} SumConst(n: nat, v: real)
    ensures Sum(seq(n, _ => v)) == n as real * v
  {
    if n > 0 {
      assert seq(n, _ => v)[..n - 1] == seq(n - 1, _ => v);
      SumConst(n - 1, v);
    }
  }

  /** n equal shares of 1 make a distribution. */
  lemma Uniform(n: nat)
    requires n > 0
    ensures Distribution(seq(n, _ => 1.0 / n as real))
  {
    SumConst(n, 1.0 / n as real);
  }

  /** The totals of consecutive blocks of four entries. */
  function BlockSums(s: seq<real>): (b: seq<real>)
    requires |s| % 4 == 0
    ensures |b| == |s| / 4
  {
    seq(|s| / 4, c requires 0 <= c < |s| / 4 => Sum(s[4 * c..4 * c + 4]))
  }

  /** The last block comes last. */
  lemma BlockSumsSplit(s: seq<real>)
    requires |s| % 4 == 0 && |s| > 0
    ensures BlockSums(s) == BlockSums(s[..|s| - 4]) + [Sum(s[|s| - 4..])]
  {
    var n, p := |s| / 4, s[..|s| - 4];
    assert |s| - 4 == 4 * (n - 1);
    forall c | 0 <= c < n - 1
      ensures BlockSums(s)[c] == BlockSums(p)[c]
    {
      assert s[4 * c..4 * c + 4] == p[4 * c..4 * c + 4];
    }
    assert s[4 * (n - 1)..4 * (n - 1) + 4] == s[|s| - 4..];
  }

  /** Summing block by block gives the same total. */
  lemma {:induction false} BlockSumsTotal(s: seq<real>)
    requires |s| % 4 == 0
    ensures Sum(BlockSums(s)) == Sum(s)
  {
    if |s| > 0 {
      var p, last := s[..|s| - 4], s[|s| - 4..];
      BlockSumsSplit(s);
      BlockSumsTotal(p);
      SumAppend(BlockSums(p), [Sum(last)]);
      assert s == p + last;
      SumAppend(p, last);
    }
  }

  /** The block totals of a distribution form a distribution. */
  lemma BlockSumsDistribution(s: seq<real>)
    requires |s| % 4 == 0 && Distribution(s)
    ensures Distribution(BlockSums(s))
  {
    BlockSumsTotal(s);
    forall c | 0 <= c < |s| / 4
      ensures BlockSums(s)[c] >= 0.0
    {
      SumNonNegative(s[4 * c..4 * c + 4]);
    }
  }

  /** Replacing one entry changes the sum by the difference. */
  lemma {:induction false} SumUpdate(s: seq<real>, k: nat, v: real)
    requires k < |s|
    ensures Sum(s[k := v]) == Sum(s) - s[k] + v
  {
    var n := |s|;
    if k == n - 1 {
      assert s[k := v][..n - 1] == s[..n - 1];
    } else {
      assert s[k := v][..n - 1] == s[..n - 1][k := v];
      SumUpdate(s[..n - 1], k, v);
    }
  }

  /** Scaling every entry scales the sum. */
  lemma {:induction false} SumScale(s: seq<real>, a: real, t: seq<real>)
    requires |t| == |s| && forall k :: 0 <= k < |s| ==> t[k] == a * s[k]
    ensures Sum(t) == a * Sum(s)
  {
    if |s| > 0 {
      SumScale(s[..|s| - 1], a, t[..|t| - 1]);
    }
  }

  lemma {:induction false} SumNonNegative(s: seq<real>)
    requires NonNegative(s)
    ensures Sum(s) >= 0.0
  {
    if |s| > 0 {
      SumNonNegative(s[..|s| - 1]);
    }
  }

  /** With no negative entries, the sum is at least any one entry. */
  lemma {:induction false} SumAtLeastEntry(s: seq<real>, k: nat)
    requires NonNegative(s) && k < |s|
    ensures Sum(s) >= s[k]
  {
    var n := |s|;
    if k == n - 1 {
      SumNonNegative(s[..n - 1]);
    } else {
      SumAtLeastEntry(s[..n - 1], k);
    }
  }

  lemma {:induction false} CountAppend(s: seq<real>, t: seq<real>, v: real)
    ensures Count(s + t, v) == Count(s, v) + Count(t, v)
  {
    if |t| > 0 {
      assert (s + t)[..|s + t| - 1] == s + t[..|t| - 1];
      CountAppend(s, t[..|t| - 1], v);
    } else {
      assert s + t == s;
    }
  }

  lemma {:induction false} CountAtLeastAppend(s: seq<real>, t: seq<real>, v: real)
    ensures CountAtLeast(s + t, v) == CountAtLeast(s, v) + CountAtLeast(t, v)
  {
    if |t| > 0 {
      assert (s + t)[..|s + t| - 1] == s + t[..|t| - 1];
      CountAtLeastAppend(s, t[..|t| - 1], v);
    } else {
      assert s + t == s;
    }
  }

  /** A value found at exactly one position is counted once. */
  lemma {:induction false} CountSingle(s: seq<real>, v: real, p: nat)
    requires p < |s| && forall k :: 0 <= k < |s| ==> (s[k] == v <==> k == p)
    ensures Count(s, v) == 1
  {
    var n := |s|;
    if p == n - 1 {
      CountNone(s[..n - 1], v);
    } else {
      CountSingle(s[..n - 1], v, p);
    }
  }

  lemma {:induction false} CountNone(s: seq<real>, v: real)
    requires forall k :: 0 <= k < |s| ==> s[k] != v
    ensures Count(s, v) == 0
  {
    if |s| > 0 {
      CountNone(s[..|s| - 1], v);
    }
  }

  /** If every entry of s repeats the entry of w at its position divided by
      four (a block of four per entry of w), each value is counted four times
      as often in s as in w. */
  lemma {:induction false} CountBlocks(s: seq<real>, w: seq<real>, v: real)
    requires |s| == 4 * |w| && forall k :: 0 <= k < |s| ==> s[k] == w[k / 4]
    ensures Count(s, v) == 4 * Count(w, v)
  {
    var m := |w|;
    if m > 0 {
      var head, tail := s[..4 * (m - 1)], s[4 * (m - 1)..];
      assert s == head + tail;
      CountAppend(head, tail, v);
      CountBlocks(head, w[..m - 1], v);
      assert tail == [w[m - 1], w[m - 1], w[m - 1], w[m - 1]];
      CountFour(w[m - 1], v);
      assert w[..m - 1] == w[..|w| - 1];
    }
  }

  lemma CountFour(a: real, v: real)
    ensures Count([a, a, a, a], v) == 4 * (if a == v then 1 else 0)
  {
    var i := if a == v then 1 else 0;
    var s1, s2, s3, s4 := [a], [a, a], [a, a, a], [a, a, a, a];
    assert s1[..0] == [] && s2[..1] == s1 && s3[..2] == s2 && s4[..3] == s3;
    assert Count(s1, v) == i;
    assert Count(s2, v) == 2 * i;
    assert Count(s3, v) == 3 * i;
  }
}

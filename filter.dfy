/** The arithmetic of one forward-filter step. posEstimate computes, for
    every state i, the mass flowing into i,
      newf[i] = sum over j of T[j][i] * O_r[i] * f[j],
    and then scales newf so that it sums to 1. */
module Filter {
  import opened Indexing
  import opened Sums
  import opened Transition
  import opened Observation

  /** The first m terms of the inflow into a state whose T column is t and
      whose observation entry is o, accumulated left to right. */
  function Inflow(t: seq<real>, o: real, f: seq<real>, m: nat): real
    requires m <= |t| && m <= |f|
  {
    if m == 0 then 0.0 else Inflow(t, o, f, m - 1) + t[m - 1] * o * f[m - 1]
  }

  lemma MulNonNegative(a: real, b: real, c: real)
    requires a >= 0.0 && b >= 0.0 && c >= 0.0
    ensures a * b * c >= 0.0
  {
    assert a * b >= 0.0;
  }

  lemma MulPositive(a: real, b: real, c: real)
    requires a > 0.0 && b > 0.0 && c > 0.0
    ensures a * b * c > 0.0
  {
    assert a * b > 0.0;
  }

  /** With no negative inputs, the inflow is not negative. */
  lemma {:induction false} InflowNonNegative(t: seq<real>, o: real, f: seq<real>, m: nat)
    requires m <= |t| && m <= |f| && NonNegative(t) && o >= 0.0 && NonNegative(f)
    ensures Inflow(t, o, f, m) >= 0.0
  {
    if m > 0 {
      InflowNonNegative(t, o, f, m - 1);
      MulNonNegative(t[m - 1], o, f[m - 1]);
    }
  }

  /** With no negative inputs, the inflow is at least any one of its terms. */
  lemma {:induction false} InflowAtLeastTerm(t: seq<real>, o: real, f: seq<real>, m: nat, j: nat)
    requires m <= |t| && m <= |f| && NonNegative(t) && o >= 0.0 && NonNegative(f)
    requires j < m
    ensures Inflow(t, o, f, m) >= t[j] * o * f[j]
  {
    MulNonNegative(t[m - 1], o, f[m - 1]);
    if j == m - 1 {
      InflowNonNegative(t, o, f, m - 1);
    } else {
      InflowAtLeastTerm(t, o, f, m - 1, j);
    }
  }

  /** One positive term makes the whole inflow positive. */
  lemma InflowPositive(t: seq<real>, o: real, f: seq<real>, s: nat)
    requires |t| == |f| && NonNegative(t) && o > 0.0 && NonNegative(f)
    requires s < |f| && t[s] > 0.0 && f[s] > 0.0
    ensures Inflow(t, o, f, |f|) > 0.0
  {
    InflowAtLeastTerm(t, o, f, |f|, s);
    MulPositive(t[s], o, f[s]);
  }

  /** Every entry multiplied by a, as the last loop of posEstimate does
      with alpha. */
  function Scale(a: real, s: seq<real>): (t: seq<real>)
    ensures |t| == |s|
  {
    seq(|s|, i requires 0 <= i < |s| => a * s[i])
  }

  /** Scaling by a non-negative factor keeps every entry non-negative. */
  lemma ScaleNonNegative(a: real, s: seq<real>)
    requires a >= 0.0 && NonNegative(s)
    ensures NonNegative(Scale(a, s))
  {
    forall i | 0 <= i < |s|
      ensures Scale(a, s)[i] >= 0.0
    {
      assert s[i] >= 0.0;
    }
  }

  /** Scaling every entry scales the total. */
  lemma ScaleSum(a: real, s: seq<real>)
    ensures Sum(Scale(a, s)) == a * Sum(s)
  {
    SumScale(s, a, Scale(a, s));
  }

  lemma Inverse(x: real)
    requires x > 0.0
    ensures 1.0 / x > 0.0 && (1.0 / x) * x == 1.0
  {
  }

  /** Scaling a non-negative vector with a positive total by the inverse of
      its total gives a probability distribution. */
  lemma Normalised(raw: seq<real>)
    requires NonNegative(raw) && Sum(raw) > 0.0
    ensures Distribution(Scale(1.0 / Sum(raw), raw))
  {
    Inverse(Sum(raw));
    ScaleNonNegative(1.0 / Sum(raw), raw);
    ScaleSum(1.0 / Sum(raw), raw);
  }

  /** Normalising keeps every positive entry positive. */
  lemma NormalisedPositive(raw: seq<real>, k: int)
    requires Sum(raw) > 0.0 && 0 <= k < |raw| && raw[k] > 0.0
    ensures Scale(1.0 / Sum(raw), raw)[k] > 0.0
  {
    var alpha := 1.0 / Sum(raw);
    assert alpha > 0.0;
    assert Scale(alpha, raw)[k] == alpha * raw[k];
  }

  /** Column i of T under the rule: the probability of reaching state i from
      every state. */
  function TColumn(rows: int, cols: int, i: int): (t: seq<real>)
    requires rows >= 0 && cols > 0
    ensures |t| == rows * cols * 4
  {
    seq(rows * cols * 4, j => TEntry(rows, cols, j, i))
  }

  /** The unnormalised message of posEstimate for O row r: entry i is the
      inflow into state i weighted by O_r[i]. */
  function Forward(rows: int, cols: int, r: int, f: seq<real>): (raw: seq<real>)
    requires rows >= 0 && cols > 0 && |f| == rows * cols * 4
    ensures |raw| == |f|
  {
    seq(|f|, i => Inflow(TColumn(rows, cols, i), OEntry(rows, cols, r, i), f, |f|))
  }

  lemma TColumnNonNegative(rows: int, cols: int, i: int)
    requires rows >= 0 && cols > 0
    ensures NonNegative(TColumn(rows, cols, i))
  {
    forall j | 0 <= j < rows * cols * 4
      ensures TColumn(rows, cols, i)[j] >= 0.0
    {
      ExpectedRange(rows, cols, StateRow(cols, j), StateCol(cols, j), StateHead(j), i);
    }
  }

  /** From a belief with no negative entry the message has none either. */
  lemma ForwardNonNegative(rows: int, cols: int, r: int, f: seq<real>)
    requires rows > 0 && cols > 0 && 0 <= r <= rows * cols && |f| == rows * cols * 4
    requires NonNegative(f)
    ensures NonNegative(Forward(rows, cols, r, f))
  {
    forall i | 0 <= i < |f|
      ensures Forward(rows, cols, r, f)[i] >= 0.0
    {
      TColumnNonNegative(rows, cols, i);
      OEntryRange(rows, cols, r, i);
      InflowNonNegative(TColumn(rows, cols, i), OEntry(rows, cols, r, i), f, |f|);
    }
  }

  /** If the belief gives state s positive mass, s reaches k with positive
      probability and k explains reading r with positive probability, then
      k keeps positive mass and the total to normalise by is positive. */
  lemma ForwardKeepsState(rows: int, cols: int, r: int, f: seq<real>, s: int, k: int)
    requires rows > 0 && cols > 0 && 0 <= r <= rows * cols && |f| == rows * cols * 4
    requires NonNegative(f) && 0 <= s < |f| && 0 <= k < |f| && f[s] > 0.0
    requires TEntry(rows, cols, s, k) > 0.0 && OEntry(rows, cols, r, k) > 0.0
    ensures Forward(rows, cols, r, f)[k] > 0.0 && Sum(Forward(rows, cols, r, f)) > 0.0
    ensures var raw := Forward(rows, cols, r, f); Scale(1.0 / Sum(raw), raw)[k] > 0.0
  {
    var t, o := TColumn(rows, cols, k), OEntry(rows, cols, r, k);
    var raw := Forward(rows, cols, r, f);
    assert raw[k] == Inflow(t, o, f, |f|);
    assert t[s] == TEntry(rows, cols, s, k);
    TColumnNonNegative(rows, cols, k);
    InflowPositive(t, o, f, s);
    ForwardNonNegative(rows, cols, r, f);
    SumAtLeastEntry(raw, k);
    NormalisedPositive(raw, k);
  }
}

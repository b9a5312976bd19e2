/** `pd.cut(column, bins=6)`: six equal-width, right-closed bins spanning the
    column's minimum and maximum, in exact reals.

    pandas takes seven evenly spaced edges from the minimum to the maximum and
    lowers the first edge by 0.1% of the range, so that the minimum falls inside
    the first bin. When minimum and maximum coincide it first pushes them apart by
    0.1% of their magnitude (by 0.001 when they are zero), so the constant value
    sits on the middle edge and falls in the third bin. */
module Cut {

  const Bins: nat := 6

  /** The observed minimum and maximum of the column being cut. */
  datatype Span = Span(lo: real, hi: real)

  predicate ValidSpan(s: Span)
  {
    s.lo <= s.hi
  }

  function Abs(x: real): real
  {
    if x < 0.0 then -x else x
  }

  /** How far a degenerate span is pushed apart on each side. */
  function Nudge(s: Span): real
  {
    if s.lo != 0.0 then Abs(s.lo) / 1000.0 else 0.001
  }

  /** The outer ends the edges are spaced between. */
  function Left(s: Span): real
  {
    if s.lo < s.hi then s.lo else s.lo - Nudge(s)
  }

  function Right(s: Span): real
  {
    if s.lo < s.hi then s.hi else s.hi + Nudge(s)
  }

  function Width(s: Span): real
  {
    (Right(s) - Left(s)) / 6.0
  }

  /** Edge `k` of the seven bin edges, as pandas leaves them. */
  function Edge(s: Span, k: nat): real
    requires k <= Bins
  {
    if k == 0 then
      (if s.lo < s.hi then s.lo - (s.hi - s.lo) / 1000.0 else Left(s))
    else if k == Bins then Right(s)
    else Left(s) + (k as real) * Width(s)
  }

  /** Bin `k` is the right-closed interval (Edge(k), Edge(k + 1)]. */
  predicate InBin(v: real, s: Span, k: nat)
    requires k < Bins
  {
    Edge(s, k) < v <= Edge(s, k + 1)
  }

  /** The bin pandas assigns to `v`: the first whose right edge is not below `v`. */
  function BinIndex(v: real, s: Span): (k: nat)
    requires ValidSpan(s)
    ensures k < Bins
    ensures s.lo <= v <= s.hi ==> InBin(v, s, k)
  {
    EdgesIncrease(s);
    if v <= Edge(s, 1) then 0
    else if v <= Edge(s, 2) then 1
    else if v <= Edge(s, 3) then 2
    else if v <= Edge(s, 4) then 3
    else if v <= Edge(s, 5) then 4
    else 5
  }

  /** The edges increase strictly and enclose the span. */
  lemma EdgesIncrease(s: Span)
    requires ValidSpan(s)
    ensures Edge(s, 0) < s.lo && s.hi <= Edge(s, Bins)
    ensures forall k | 0 <= k < Bins :: Edge(s, k) < Edge(s, k + 1)
  {
    var w := Width(s);
    assert w > 0.0;
    assert Edge(s, 1) == Left(s) + w;
    assert Edge(s, 2) == Left(s) + 2.0 * w;
    assert Edge(s, 3) == Left(s) + 3.0 * w;
    assert Edge(s, 4) == Left(s) + 4.0 * w;
    assert Edge(s, 5) == Left(s) + 5.0 * w;
    assert Edge(s, 6) == Left(s) + 6.0 * w;
  }

  /** Every value of the span lies in exactly one bin: the one BinIndex names. */
  lemma BinIsUnique(v: real, s: Span, k: nat)
    requires ValidSpan(s) && s.lo <= v <= s.hi && k < Bins
    ensures InBin(v, s, k) <==> k == BinIndex(v, s)
  {
    var b := BinIndex(v, s);
    EdgesIncrease(s);
    if k < b {
      EdgesBelow(s, k + 1, b);
    } else if b < k {
      EdgesBelow(s, b + 1, k);
    }
  }

  lemma {:induction false} EdgesBelow(s: Span, i: nat, j: nat)
    requires ValidSpan(s) && i <= j <= Bins
    ensures Edge(s, i) <= Edge(s, j)
    decreases j - i
  {
    if i < j {
      EdgesIncrease(s);
      EdgesBelow(s, i + 1, j);
    }
  }

  /** On a proper span the minimum falls in the first bin and the maximum in the last. */
  lemma EndsInOuterBins(s: Span)
    requires s.lo < s.hi
    ensures BinIndex(s.lo, s) == 0
    ensures BinIndex(s.hi, s) == Bins - 1
  {
    EdgesIncrease(s);
    assert Edge(s, 5) == s.lo + 5.0 * Width(s);
  }

  /** When minimum and maximum coincide, the value falls in the third bin. */
  lemma ConstantInMiddleBin(s: Span)
    requires s.lo == s.hi
    ensures BinIndex(s.lo, s) == 2
  {
    EdgesIncrease(s);
    assert Edge(s, 3) == s.lo;
  }
}

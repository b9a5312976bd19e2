/** Column statistics the dashboard relies on: sum, mean, minimum and maximum
    of a numeric column, in exact reals (pandas' floating point is not modelled). */
module Stats {

  function Sum(xs: seq<real>): real
  {
    if xs == [] then 0.0 else xs[0] + Sum(xs[1..])
  }

  /** pandas' `mean()` of a non-empty column. */
  function Mean(xs: seq<real>): real
    requires xs != []
  {
    Sum(xs) / (|xs| as real)
  }

  /** pandas' `min()`: a value of the column no larger than any other. */
  function Min(xs: seq<real>): (m: real)
    requires xs != []
    ensures m in xs
    ensures forall x | x in xs :: m <= x
  {
    if |xs| == 1 then xs[0]
    else
      var rest := Min(xs[1..]);
      assert forall x | x in xs :: x == xs[0] || x in xs[1..];
      if xs[0] <= rest then xs[0] else rest
  }

  /** pandas' `max()`: a value of the column no smaller than any other. */
  function Max(xs: seq<real>): (m: real)
    requires xs != []
    ensures m in xs
    ensures forall x | x in xs :: x <= m
  {
    if |xs| == 1 then xs[0]
    else
      var rest := Max(xs[1..]);
      assert forall x | x in xs :: x == xs[0] || x in xs[1..];
      if rest <= xs[0] then xs[0] else rest
  }

  /** A sum of values none below `lo` is at least count * lo. */
  lemma {:induction false} SumAtLeast(xs: seq<real>, lo: real)
    requires forall x | x in xs :: lo <= x
    ensures (|xs| as real) * lo <= Sum(xs)
  {
    if xs != [] {
      assert xs[0] in xs;
      assert forall x | x in xs[1..] :: x in xs;
      SumAtLeast(xs[1..], lo);
      OneMore(|xs[1..]|, lo);
    }
  }

  /** A sum of values none above `hi` is at most count * hi. */
  lemma {:induction false} SumAtMost(xs: seq<real>, hi: real)
    requires forall x | x in xs :: x <= hi
    ensures Sum(xs) <= (|xs| as real) * hi
  {
    if xs != [] {
      assert xs[0] in xs;
      assert forall x | x in xs[1..] :: x in xs;
      SumAtMost(xs[1..], hi);
      OneMore(|xs[1..]|, hi);
    }
  }

  lemma OneMore(m: nat, c: real)
    ensures ((m + 1) as real) * c == (m as real) * c + c
  {
  }

  /** A mean of values within [lo, hi] lies within [lo, hi]. */
  lemma MeanBetween(xs: seq<real>, lo: real, hi: real)
    requires xs != []
    requires forall x | x in xs :: lo <= x <= hi
    ensures lo <= Mean(xs) <= hi
  {
    var s, n := Sum(xs), |xs| as real;
    SumAtLeast(xs, lo);
    SumAtMost(xs, hi);
    Scaled(s, n, lo);
    Scaled(s, n, hi);
  }

  /** A mean lies between the smallest and the largest value it averages. */
  lemma MeanWithinRange(xs: seq<real>)
    requires xs != []
    ensures Min(xs) <= Mean(xs) <= Max(xs)
  {
    MeanBetween(xs, Min(xs), Max(xs));
  }

  /** Dividing by a positive count keeps a bound: n * c <= s iff c <= s / n. */
  lemma Scaled(s: real, n: real, c: real)
    requires n > 0.0
    ensures n * c <= s <==> c <= s / n
    ensures s <= n * c <==> s / n <= c
  {
    var q := s / n;
    assert s == n * q;
    assert n * c - s == n * (c - q);
  }
}

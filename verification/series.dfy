/** Arithmetic over a series of readings (closing prices, polarity
    scores), on mathematical reals. */
module Series {

  /** Python's `sum(xs)`: a left-to-right fold starting at zero. */
  function Sum(xs: seq<real>): real {
    if |xs| == 0 then 0.0 else Sum(xs[..|xs| - 1]) + xs[|xs| - 1]
  }

  /** `sum(xs) / len(xs)`, which is also pandas' `Series.mean()` on a
      series without missing values. */
  function Mean(xs: seq<real>): (m: real)
    requires |xs| > 0
    ensures m * (|xs| as real) == Sum(xs)
  {
    Sum(xs) / (|xs| as real)
  }

  function Min(xs: seq<real>): (m: real)
    requires |xs| > 0
    ensures m in xs
    ensures forall x :: x in xs ==> m <= x
  {
    if |xs| == 1 then xs[0]
    else
      var rest := Min(xs[1..]);
      assert xs == [xs[0]] + xs[1..];
      if xs[0] < rest then xs[0] else rest
  }

  function Max(xs: seq<real>): (m: real)
    requires |xs| > 0
    ensures m in xs
    ensures forall x :: x in xs ==> x <= m
  {
    if |xs| == 1 then xs[0]
    else
      var rest := Max(xs[1..]);
      assert xs == [xs[0]] + xs[1..];
      if xs[0] > rest then xs[0] else rest
  }

  /** A sum of `n` readings in `[lo, hi]` lies in `[n * lo, n * hi]`. */
  lemma {:induction false} SumBounds(xs: seq<real>, lo: real, hi: real)
    requires forall x :: x in xs ==> lo <= x <= hi
    ensures (|xs| as real) * lo <= Sum(xs) <= (|xs| as real) * hi
    decreases |xs|
  {
    if |xs| > 0 {
      var init := xs[..|xs| - 1];
      var last := xs[|xs| - 1];
      assert forall x :: x in init ==> x in xs;
      SumBounds(init, lo, hi);
      assert last in xs;
      var m := |init| as real;
      assert (|xs| as real) == m + 1.0;
      assert (m + 1.0) * lo == m * lo + lo;
      assert (m + 1.0) * hi == m * hi + hi;
      assert Sum(xs) == Sum(init) + last;
    }
  }

  /** The mean of readings in `[lo, hi]` lies in `[lo, hi]`. */
  lemma MeanWithin(xs: seq<real>, lo: real, hi: real)
    requires |xs| > 0
    requires forall x :: x in xs ==> lo <= x <= hi
    ensures lo <= Mean(xs) <= hi
  {
    SumBounds(xs, lo, hi);
    var n := |xs| as real;
    assert Mean(xs) * n == Sum(xs);
  }

  /** The mean lies between the smallest and the largest reading. */
  lemma MeanBetweenExtremes(xs: seq<real>)
    requires |xs| > 0
    ensures Min(xs) <= Mean(xs) <= Max(xs)
  {
    MeanWithin(xs, Min(xs), Max(xs));
  }

  /** The mean of a constant series is that constant. */
  lemma MeanOfConstant(xs: seq<real>, c: real)
    requires |xs| > 0
    requires forall x :: x in xs ==> x == c
    ensures Mean(xs) == c
  {
    MeanWithin(xs, c, c);
  }

  /** Appending a reading strictly above all earlier ones puts the mean
      strictly below it. */
  lemma MeanBelowNewHigh(earlier: seq<real>, last: real)
    requires |earlier| > 0
    requires forall k :: 0 <= k < |earlier| ==> earlier[k] < last
    ensures Mean(earlier + [last]) < last
  {
    var xs := earlier + [last];
    var m := |earlier| as real;
    SumBelowHigh(earlier, last);
    assert xs[..|xs| - 1] == earlier;
    assert Sum(xs) == Sum(earlier) + last;
    assert |xs| as real == m + 1.0;
    QuotientBelow(Sum(xs), m + 1.0, last);
  }

  /** `n` readings all strictly below `b` sum to less than `n * b`. */
  lemma SumBelowHigh(xs: seq<real>, b: real)
    requires |xs| > 0
    requires forall k :: 0 <= k < |xs| ==> xs[k] < b
    ensures Sum(xs) < (|xs| as real) * b
  {
    var top := Max(xs);
    assert top < b;
    SumBounds(xs, Min(xs), top);
    var n := |xs| as real;
    assert n * top < n * b;
  }

  lemma QuotientBelow(s: real, n: real, b: real)
    requires n > 0.0 && s < n * b
    ensures s / n < b
  {
    assert (s / n) * n == s;
  }
}

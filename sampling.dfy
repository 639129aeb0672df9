// clampi and the sampling rule of the two passes of boxBlurRGBA
// (native/src/blur.cpp): taps x+k for k in [-r, r], each clamped to the line,
// summed and divided (truncating) by the tap count 2r+1.

module Sampling {

  import opened Layout

  /** clampi(v, lo, hi): v moved into [lo, hi] when lo <= hi. */
  function Clampi(v: int, lo: int, hi: int): (r: int)
    ensures lo <= hi ==> lo <= r <= hi
    ensures lo <= v <= hi ==> r == v
    ensures r == v || r == lo || r == hi
  {
    if v < lo then lo else if v > hi then hi else v
  }

  /** Clamping into a fixed range keeps the order of its arguments. */
  lemma ClampiMonotone(u: int, v: int, lo: int, hi: int)
    requires lo <= hi
    ensures u <= v ==> Clampi(u, lo, hi) <= Clampi(v, lo, hi)
  {
  }

  /** The running sum of a tap loop over a line after it has visited the offsets
      lo .. hi-1: the sum of line[Clampi(x + k, 0, |line| - 1)] over those k. */
  function TapSum(line: seq<int>, x: int, lo: int, hi: int): int
    requires |line| > 0
    decreases hi - lo
  {
    if hi <= lo then 0
    else TapSum(line, x, lo, hi - 1) + line[Clampi(x + hi - 1, 0, |line| - 1)]
  }

  /** One output channel of a pass: the 2r+1 clamped taps around x, summed and divided
      by 2r+1 with truncation. */
  function BoxMean(line: seq<int>, x: int, r: int): int
    requires |line| > 0 && r >= 1
  {
    TapSum(line, x, -r, r + 1) / (2 * r + 1)
  }

  /** The mean as the kernel computes it: a running sum of the taps over the tap count. */
  lemma SumOverCount(line: seq<int>, x: int, r: int, sum: int, cnt: int)
    requires |line| > 0 && r >= 1 && sum == TapSum(line, x, -r, r + 1) && cnt == 2 * r + 1
    ensures sum / cnt == BoxMean(line, x, r)
  {
  }

  /** The elements that the taps lo .. hi-1 around x can reach all lie in [a, b]. */
  ghost predicate SamplesBetween(line: seq<int>, x: int, lo: int, hi: int, a: int, b: int)
    requires |line| > 0
  {
    forall j :: Clampi(x + lo, 0, |line| - 1) <= j <= Clampi(x + hi - 1, 0, |line| - 1) ==> a <= line[j] <= b
  }

  /** A sum of n taps whose samples lie in [a, b] lies in [n*a, n*b]. */
  lemma {:induction false} TapSumBetween(line: seq<int>, x: int, lo: int, hi: int, a: int, b: int)
    requires |line| > 0 && lo <= hi
    requires SamplesBetween(line, x, lo, hi, a, b)
    ensures (hi - lo) * a <= TapSum(line, x, lo, hi) <= (hi - lo) * b
    decreases hi - lo
  {
    if lo < hi {
      var top := |line| - 1;
      ClampiMonotone(x + lo, x + hi - 1, 0, top);
      ClampiMonotone(x + hi - 2, x + hi - 1, 0, top);
      TapSumBetween(line, x, lo, hi - 1, a, b);
      assert (hi - lo) * a == (hi - 1 - lo) * a + a;
      assert (hi - lo) * b == (hi - 1 - lo) * b + b;
    }
  }

  /** A quotient by d of a value in [d*a, d*b] lies in [a, b]. */
  lemma {:induction false} DivBetween(s: int, d: int, a: int, b: int)
    requires d > 0 && d * a <= s <= d * b
    ensures a <= s / d <= b
  {
    var q := s / d;
    assert s == q * d + s % d && 0 <= s % d < d;
    if q < a {
      MulMonotone(q + 1, a, d);
      assert false;
    }
    if q > b {
      MulMonotone(b + 1, q, d);
      assert false;
    }
  }

  /** Each output channel of a pass lies between the smallest and the largest sample
      that the taps around x reach. */
  lemma BoxMeanBetween(line: seq<int>, x: int, r: int, a: int, b: int)
    requires |line| > 0 && r >= 1
    requires SamplesBetween(line, x, -r, r + 1, a, b)
    ensures a <= BoxMean(line, x, r) <= b
  {
    TapSumBetween(line, x, -r, r + 1, a, b);
    DivBetween(TapSum(line, x, -r, r + 1), 2 * r + 1, a, b);
  }

  /** A mean over taps that all reach the same value v is v. */
  lemma BoxMeanUniform(line: seq<int>, x: int, r: int, v: int)
    requires |line| > 0 && r >= 1
    requires SamplesBetween(line, x, -r, r + 1, v, v)
    ensures BoxMean(line, x, r) == v
  {
    BoxMeanBetween(line, x, r, v, v);
  }

  /** A line of channel values keeps its means in the channel range [0, 255]. */
  lemma BoxMeanIsByte(line: seq<int>, x: int, r: int)
    requires |line| > 0 && r >= 1
    requires forall j :: 0 <= j < |line| ==> 0 <= line[j] < 256
    ensures 0 <= BoxMean(line, x, r) < 256
  {
    BoxMeanBetween(line, x, r, 0, 255);
  }
}

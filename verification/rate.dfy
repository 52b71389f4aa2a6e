/** Sample-interval selection and the buffer length derived from it.

    Timebases are integer counts of hundredths of a millisecond: a timebase of `t` stands for
    `t / 100` ms, so the source's `10000 * tbase // points` is `100 * t / points`. Dafny's `/` on a
    positive divisor is floor division, like Python's `//`. */
module RateSelector {

  /** How many points one frame aims for. */
  datatype Resolution = Normal | Higher | Highest

  function MaxPoints(res: Resolution): nat
  {
    match res
    case Normal => 500
    case Higher => 1000
    case Highest => 2000
  }

  /** The shortest sample interval, in microseconds, the front-end sustains. */
  const MIN_INTERVAL: int := 8

  /** The sample interval in microseconds for timebase `tbase` (hundredths of a ms). */
  function ChooseRate(tbase: int, res: Resolution): (interval: int)
    ensures interval >= MIN_INTERVAL
    // above the floor the interval is the exact floor quotient of the frame length by the points
    ensures interval > MIN_INTERVAL ==>
      interval * MaxPoints(res) <= 100 * tbase < (interval + 1) * MaxPoints(res)
    // the floor is used only when that quotient does not exceed it
    ensures interval == MIN_INTERVAL ==> 100 * tbase < (MIN_INTERVAL + 1) * MaxPoints(res)
  {
    var q := 100 * tbase / MaxPoints(res);
    if q > MIN_INTERVAL then q else MIN_INTERVAL
  }

  /** The number of samples in one frame: `N = 10^4 * timebase // interval`. */
  function BufferLength(tbase: int, interval: int): (n: int)
    requires interval > 0
    ensures n * interval <= 100 * tbase < (n + 1) * interval
  {
    100 * tbase / interval
  }

  /** Multiplication by a positive factor reflects strict order. */
  lemma CancelLt(q: int, r: int, a: int)
    requires a > 0 && q * a < r * a
    ensures q < r
  {
  }

  /** Multiplication by a non-negative factor preserves order. */
  lemma MulMono(q: int, r: int, a: int)
    requires a >= 0 && q <= r
    ensures q * a <= r * a
  {
  }

  /** Any multiple of `a` that fits below `x` has a factor at most the floor quotient. */
  lemma {:induction false} DivLower(q: int, x: int, a: int)
    requires a > 0 && q * a <= x
    ensures q <= x / a
  {
    assert x < (x / a + 1) * a;
    CancelLt(q, x / a + 1, a);
  }

  /** Floor quotients shrink as the divisor grows. */
  lemma {:induction false} DivAntitone(x: int, a: int, b: int)
    requires x >= 0 && 0 < a <= b
    ensures x / b <= x / a
  {
    var qb := x / b;
    assert qb * a <= qb * b <= x;
    DivLower(qb, x, a);
  }

  /** Floor quotients grow with the dividend. */
  lemma {:induction false} DivMonotone(x: int, y: int, d: int)
    requires x <= y && d > 0
    ensures x / d <= y / d
  {
    DivLower(x / d, y, d);
  }

  /** More points per frame never lengthens the interval. */
  lemma ChooseRateNonIncreasing(tbase: int)
    ensures ChooseRate(tbase, Normal) >= ChooseRate(tbase, Higher) >= ChooseRate(tbase, Highest)
  {
    if tbase >= 0 {
      DivAntitone(100 * tbase, 500, 1000);
      DivAntitone(100 * tbase, 1000, 2000);
    }
  }

  /** A longer timebase never shortens the interval. */
  lemma ChooseRateMonotone(t1: int, t2: int, res: Resolution)
    requires t1 <= t2
    ensures ChooseRate(t1, res) <= ChooseRate(t2, res)
  {
    DivMonotone(100 * t1, 100 * t2, MaxPoints(res));
  }

  /** The unclamped case of `BufferLengthBounds`, in terms of the two floor quotients. */
  lemma {:induction false} UnclampedFrame(x: int, p: int, q: int, n: int)
    requires p > 0 && q > MIN_INTERVAL
    requires q * p <= x < (q + 1) * p
    requires n * q <= x < (n + 1) * q
    ensures p <= n && 8 * n < 9 * p
  {
    // p * q <= x < (n + 1) * q, so p <= n
    assert p * q < (n + 1) * q;
    CancelLt(p, n + 1, q);
    // 8 * n * q <= 8 * x < 8 * (q + 1) * p <= 9 * q * p, as q >= 9
    MulMono(8, q, p);
    assert 8 * x < 8 * (q * p) + q * p;
    assert (8 * n) * q == 8 * (n * q);
    assert (9 * p) * q == 9 * (q * p);
    CancelLt(8 * n, 9 * p, q);
  }

  /** For any positive timebase the frame holds at least twelve samples and fewer than 9/8 of the
      resolution's target points; when the interval is above its floor it holds at least the
      target points. */
  lemma BufferLengthBounds(tbase: int, res: Resolution)
    requires tbase >= 1
    ensures var n := BufferLength(tbase, ChooseRate(tbase, res));
      && 12 <= n
      && 8 * n < 9 * MaxPoints(res)
      && (ChooseRate(tbase, res) > MIN_INTERVAL ==> MaxPoints(res) <= n)
  {
    var p := MaxPoints(res);
    var q := ChooseRate(tbase, res);
    var n := BufferLength(tbase, q);
    if q > MIN_INTERVAL {
      UnclampedFrame(100 * tbase, p, q, n);
    } else {
      assert n * 8 <= 100 * tbase < (n + 1) * 8;
    }
  }

  /** The default configuration: 5 ms at the highest resolution samples every 25 us into 2000
      slots. */
  lemma DefaultConfiguration()
    ensures ChooseRate(500, Highest) == 25
    ensures BufferLength(500, ChooseRate(500, Highest)) == 2000
  {
  }
}

/** Ring-buffer arithmetic of an archive (hbasedb.py, `__archive_update_many`
    and `__archive_fetch`): a timestamp is aligned down to a multiple of the
    archive's step, and an aligned timestamp lives in slot
    `(t / step) % points`. Every divisor here is positive, and for a positive divisor
    Python's floor division and modulo agree with Dafny's Euclidean ones. */
module Ring {
  import opened Base

  /** `t - (t % step)` */
  function Align(t: int, step: int): (r: int)
    requires step > 0
    ensures r % step == 0
    ensures r <= t < r + step
    ensures t >= 0 ==> r >= 0
  {
    DivModUnique(t - t % step, step, t / step, 0);
    MulSign(t / step, step);
    t - t % step
  }

  /** `int((t / step) % points)` */
  function SlotOf(t: int, step: int, points: int): (r: int)
    requires step > 0 && points > 0
    ensures 0 <= r < points
  {
    (t / step) % points
  }

  /** Aligning twice changes nothing. */
  lemma AlignIdempotent(t: int, step: int)
    requires step > 0
    ensures Align(Align(t, step), step) == Align(t, step)
  {
  }

  /** The aligned timestamp is the only multiple of `step` in (t - step, t]. */
  lemma AlignUnique(t: int, step: int, m: int)
    requires step > 0 && m % step == 0 && m <= t < m + step
    ensures m == Align(t, step)
  {
    DivModUnique(t, step, m / step, t - m);
  }

  /** A timestamp and its aligned form share a slot. */
  lemma SlotOfAlign(t: int, step: int, points: int)
    requires step > 0 && points > 0
    ensures SlotOf(Align(t, step), step, points) == SlotOf(t, step, points)
  {
    DivModUnique(Align(t, step), step, t / step, 0);
  }

  /** Aligned timestamps a whole ring apart land in the same slot: this is why
      a slot can hold a record from an earlier pass over the ring. */
  lemma {:induction false} SlotPeriodic(t: int, step: int, points: int, k: nat)
    requires step > 0 && points > 0
    ensures SlotOf(t + k * (step * points), step, points) == SlotOf(t, step, points)
  {
    if k > 0 {
      SlotPeriodic(t, step, points, k - 1);
      var u := t + (k - 1) * (step * points);
      assert t + k * (step * points) == u + step * points;
      DivModUnique(u + step * points, step, u / step + points, u % step);
      DivModUnique(u / step + points, points, u / step / points + 1, u / step % points);
    }
  }

  /** Two aligned timestamps less than a whole ring apart never share a slot. */
  lemma DistinctSlotsWithinRing(t1: int, t2: int, step: int, points: int)
    requires step > 0 && points > 0
    requires t1 % step == 0 && t2 % step == 0
    requires t1 < t2 < t1 + step * points
    ensures SlotOf(t1, step, points) != SlotOf(t2, step, points)
  {
    QuotientGap(t1, t2, step, points);
    DistinctRemainders(t1 / step, t2 / step, points);
  }

  /** Multiples of `step` less than `step * points` apart have quotients
      less than `points` apart. */
  lemma QuotientGap(t1: int, t2: int, step: int, points: int)
    requires step > 0 && points > 0
    requires t1 % step == 0 && t2 % step == 0
    requires t1 < t2 < t1 + step * points
    ensures 0 < t2 / step - t1 / step < points
  {
    var a, b := t1 / step, t2 / step;
    assert t1 == a * step && t2 == b * step;
    // 0 < (b - a) * step < points * step, so 0 < b - a < points
    assert (b - a) * step == t2 - t1;
    MulSign(b - a, step);
    assert (b - a - points) * step == (t2 - t1) - points * step;
    MulSign(points - (b - a), step);
    assert (points - (b - a)) * step == -((b - a - points) * step);
  }

  /** Equal remainders would make `b - a` a multiple of `points`. */
  lemma DistinctRemainders(a: int, b: int, points: int)
    requires points > 0 && 0 < b - a < points
    ensures a % points != b % points
  {
    var qa, qb := a / points, b / points;
    assert b - a == (qb - qa) * points + (b % points - a % points);
    MulSign(qb - qa, points);
    MulSign(qa - qb, points);
  }
}

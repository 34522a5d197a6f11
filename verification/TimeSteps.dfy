/** Step arithmetic shared by the cache: when a time is a multiple of the step,
    rounding to a multiple, and which windows [w, w + step) fit a range. */
module TimeSteps {

  function Min(a: nat, b: nat): nat {
    if a < b then a else b
  }

  function Max(a: nat, b: nat): nat {
    if a > b then a else b
  }

  predicate Aligned(t: nat, step: nat)
    requires step > 0
  {
    t % step == 0
  }

  /** The largest multiple of step that is at most t. */
  function FloorTo(t: nat, step: nat): (r: nat)
    requires step > 0
    ensures Aligned(r, step) && r <= t < r + step
  {
    MultipleIsAligned(t / step, step);
    t / step * step
  }

  /** The smallest multiple of step that is at least t. */
  function CeilTo(t: nat, step: nat): (r: nat)
    requires step > 0
    ensures Aligned(r, step) && t <= r < t + step
  {
    if Aligned(t, step) then t else NextMultiple(t, step); FloorTo(t, step) + step
  }

  lemma MultipleIsAligned(k: nat, step: nat)
    requires step > 0
    ensures Aligned(k * step, step)
  {
    var m := k * step;
    assert m / step == k && m % step == 0 by {
      QuotientUnique(m, step, k);
    }
  }

  lemma AtLeastOneStep(k: int, step: nat)
    requires k >= 1
    ensures k * step >= step
  {
    assert k * step == (k - 1) * step + step;
  }

  lemma QuotientUnique(m: nat, step: nat, k: nat)
    requires step > 0 && m == k * step
    ensures m / step == k && m % step == 0
  {
    var q, r := m / step, m % step;
    Distribute(k, q, step);
    if k > q {
      AtLeastOneStep(k - q, step);
    } else if k < q {
      Distribute(q, k, step);
      AtLeastOneStep(q - k, step);
    }
  }

  lemma Distribute(a: int, b: int, step: int)
    ensures (a - b) * step == a * step - b * step
  {
  }

  lemma NextMultiple(t: nat, step: nat)
    requires step > 0 && !Aligned(t, step)
    ensures Aligned(FloorTo(t, step) + step, step) && t < FloorTo(t, step) + step < t + step
  {
    var k := t / step;
    assert (k + 1) * step == k * step + step;
    MultipleIsAligned(k + 1, step);
  }

  /** Two different multiples of step are at least one step apart. */
  lemma AlignedGap(a: nat, b: nat, step: nat)
    requires step > 0 && Aligned(a, step) && Aligned(b, step) && a < b
    ensures a + step <= b
  {
    var i, j := a / step, b / step;
    Distribute(j, i, step);
    Distribute(i, j, step);
    if j < i {
      AtLeastOneStep(i - j, step);
    } else if i < j {
      AtLeastOneStep(j - i, step);
    }
  }

  /** FloorTo is the only multiple of step whose window contains t. */
  lemma WindowOf(t: nat, w: nat, step: nat)
    requires step > 0 && Aligned(w, step) && w <= t < w + step
    ensures w == FloorTo(t, step)
  {
    var f := FloorTo(t, step);
    if w < f {
      AlignedGap(w, f, step);
    } else if f < w {
      AlignedGap(f, w, step);
    }
  }

  lemma ShiftAligned(a: nat, step: nat)
    requires step > 0 && Aligned(a, step)
    ensures Aligned(a + step, step)
  {
    var k := a / step;
    assert (k + 1) * step == a + step;
    MultipleIsAligned(k + 1, step);
  }

  /** Subtracting the remainder, as the code writes it, rounds down. */
  lemma RoundDown(t: nat, step: nat)
    requires step > 0
    ensures t - t % step == FloorTo(t, step)
  {
  }
}

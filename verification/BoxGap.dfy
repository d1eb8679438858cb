/**
 * How far apart two boxes are, found by growing both until they meet: the margin is doubled and then bisected.
 * Whether two boxes grown by a total margin meet is an arbitrary predicate of that margin.
 */
module BoxGaps {
  import opened Halving

  /** The doubled upper bound after `k` doublings, starting from a hundredth. */
  function Doubled(k: nat): real {
    if k == 0 then 0.01 else 2.0 * Doubled(k - 1)
  }

  lemma DoubledValues()
    ensures Doubled(10) == 10.24 && Doubled(11) == 20.48
  {
    assert Doubled(3) == 2.0 * (2.0 * (2.0 * 0.01)) == 0.08;
    assert Doubled(6) == 2.0 * (2.0 * (2.0 * Doubled(3))) == 0.64;
    assert Doubled(9) == 2.0 * (2.0 * (2.0 * Doubled(6))) == 5.12;
    assert Doubled(11) == 2.0 * (2.0 * Doubled(9));
    assert Doubled(10) == 2.0 * Doubled(9);
  }

  lemma {:induction false} DoubledGrows(j: nat, k: nat)
    requires j <= k
    ensures 0.01 <= Doubled(j) <= Doubled(k)
    decreases k
  {
    if k == 0 {
    } else if j < k {
      DoubledGrows(j, k - 1);
    } else {
      DoubledGrows(j - 1, k - 1);
    }
  }

  /**
   * The final bracket: a 2^18th of the doubled bound wide, apart at its lower end, meeting at its upper end or capped.
   */
  ghost predicate Bracket(meets: real -> bool, k: nat, lower: real, upper: real) {
    && k <= 11
    && 0.0 <= lower < upper <= Doubled(k)
    && upper - lower == Doubled(k) / 262144.0
    && (lower == 0.0 || !meets(lower))
    && (meets(upper) || upper == 20.48)
    && (k > 0 ==> !meets(Doubled(k - 1)))
    && (k < 11 ==> meets(Doubled(k)))
  }

  ghost predicate GapFound(meets: real -> bool, gap: real) {
    exists k: nat, lower :: Bracket(meets, k, lower, gap)
  }

  method BoxGap(intersects: bool, meets: real -> bool) returns (gap: real)
    ensures intersects ==> gap == 0.0
    ensures !intersects ==> GapFound(meets, gap)
  {
    if intersects {
      return 0.0;
    }
    var lower, upper := 0.0, 0.01;
    ghost var k := 0;
    DoubledValues();
    while upper < 16.0 && !meets(upper)
      invariant k <= 11 && upper == Doubled(k)
      invariant k > 0 ==> !meets(Doubled(k - 1))
      decreases 11 - k
    {
      upper := upper * 2.0;
      k := k + 1;
    }
    if k < 11 {
      DoubledGrows(k, 10);
    }
    DoubledGrows(0, k);
    ghost var start := upper;
    for iteration := 0 to 18
      invariant 0.0 <= lower < upper <= start
      invariant upper - lower == Halved(start, iteration)
      invariant lower == 0.0 || !meets(lower)
      invariant meets(upper) || upper == start
    {
      var middle := (lower + upper) / 2.0;
      if meets(middle) {
        upper := middle;
      } else {
        lower := middle;
      }
    }
    HalvedEighteen(start);
    assert Bracket(meets, k, lower, upper);
    gap := upper;
  }

  ghost predicate Monotone(meets: real -> bool) {
    forall a, b :: a <= b && meets(a) ==> meets(b)
  }

  /**
   * For boxes that go on meeting once they meet: the gap is at most a threshold below the cap only if they meet at
   * that margin, and above it only if they are apart at every margin the resolution of the search below the threshold:
   * a 2^17th of the gap, and a 2^18th of a hundredth.
   */
  lemma GapDecides(meets: real -> bool, gap: real, threshold: real)
    requires Monotone(meets) && !meets(0.0) && GapFound(meets, gap) && threshold < 20.48
    ensures gap <= threshold ==> meets(threshold)
    ensures gap > threshold ==>
              forall margin ::
                margin + gap / 131072.0 <= threshold && margin + 0.01 / 262144.0 <= threshold ==> !meets(margin)
  {
    var k: nat, lower :| Bracket(meets, k, lower, gap);
    assert !meets(lower);
    DoubledValues();
    if k > 0 {
      assert Doubled(k) == 2.0 * Doubled(k - 1);
      DoubledGrows(k - 1, 10);
      assert meets(gap) ==> gap > Doubled(k - 1);
    }
    assert gap - lower <= gap / 131072.0 || gap - lower <= 0.01 / 262144.0;
  }
}

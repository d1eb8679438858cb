/** Scheduled liquid ticks: their order, their keys, and the comparison of two lists of them. */
module LiquidTicks {
  import opened Outcomes
  import opened Sorting
  import opened Decimals

  datatype Priority = ExtremelyHigh | VeryHigh | High | Normal | Low | VeryLow | ExtremelyLow

  datatype Tick = Tick(x: int, y: int, z: int, target: string, delay: int, priority: Priority)

  datatype Diff =
    | BoundsMismatch | PaletteMismatch
    | BlockMismatch(x: int, y: int, z: int, expected: string, actual: string)
    | ExtraTick(tick: string)
    | MissingTick(tick: string, found: Option<string>)

  function PriorityValue(p: Priority): int {
    match p
    case ExtremelyHigh => -3
    case VeryHigh => -2
    case High => -1
    case Normal => 0
    case Low => 1
    case VeryLow => 2
    case ExtremelyLow => 3
  }

  predicate PositionLeq(s: Tick, t: Tick) {
    s.x < t.x || (s.x == t.x && (s.y < t.y || (s.y == t.y && s.z <= t.z)))
  }

  /** By delay, priority, target in the host's collation order, and position. */
  function TickLeq(locale: (string, string) -> bool): (Tick, Tick) -> bool {
    (s: Tick, t: Tick) =>
      s.delay < t.delay || (s.delay == t.delay && (
        PriorityValue(s.priority) < PriorityValue(t.priority) || (s.priority == t.priority && (
          locale(s.target, t.target) && (locale(t.target, s.target) ==> PositionLeq(s, t))))))
  }

  function NormalizeLiquidTicks(locale: (string, string) -> bool, ticks: seq<Tick>): seq<Tick> {
    Sort(ticks, TickLeq(locale))
  }

  function TickKey(t: Tick): string {
    Decimal(t.delay) + ['|']
    + (Decimal(PriorityValue(t.priority)) + ['|'] + (t.target + ['|'] + TripleKey(t.x, t.y, t.z)))
  }

  lemma NoBars(x: int, y: int, z: int)
    ensures '|' !in Decimal(x) && '|' !in TripleKey(x, y, z)
  {
    DecimalHasNoSeparator(x);
    DecimalHasNoSeparator(y);
    DecimalHasNoSeparator(z);
  }

  /** The key tells ticks apart, whatever characters their targets hold. */
  lemma TickKeyIsInjective(s: Tick, t: Tick)
    ensures TickKey(s) == TickKey(t) <==> s == t
  {
    if TickKey(s) == TickKey(t) {
      NoBars(s.delay, 0, 0);
      NoBars(t.delay, 0, 0);
      NoBars(PriorityValue(s.priority), 0, 0);
      NoBars(PriorityValue(t.priority), 0, 0);
      NoBars(s.x, s.y, s.z);
      NoBars(t.x, t.y, t.z);
      var ps, pt := Decimal(PriorityValue(s.priority)), Decimal(PriorityValue(t.priority));
      var xs, xt := TripleKey(s.x, s.y, s.z), TripleKey(t.x, t.y, t.z);
      hide Decimal, TripleKey;
      SplitFirst('|', Decimal(s.delay), Decimal(t.delay), ps + ['|'] + (s.target + ['|'] + xs),
          pt + ['|'] + (t.target + ['|'] + xt));
      SplitFirst('|', ps, pt, s.target + ['|'] + xs, t.target + ['|'] + xt);
      SplitLast('|', s.target, t.target, xs, xt);
      DecimalIsInjective(s.delay, t.delay);
      DecimalIsInjective(PriorityValue(s.priority), PriorityValue(t.priority));
      TripleKeyIsInjective(s.x, s.y, s.z, t.x, t.y, t.z);
    }
  }

  lemma TickLeqIsTotalPreorder(locale: (string, string) -> bool)
    requires TotalPreorder(locale)
    ensures TotalPreorder(TickLeq(locale))
  {
    var leq := TickLeq(locale);
    forall s, t, u | leq(s, t) && leq(t, u) ensures leq(s, u) {
      assert locale(s.target, t.target) && locale(t.target, u.target) ==> locale(s.target, u.target);
      assert locale(u.target, s.target) && locale(s.target, t.target) ==> locale(u.target, t.target);
      assert locale(t.target, u.target) && locale(u.target, s.target) ==> locale(t.target, s.target);
    }
    forall s, t ensures leq(s, t) || leq(t, s) {
      assert locale(s.target, t.target) || locale(t.target, s.target);
    }
  }

  /** By delay, then from extremely high to extremely low priority, then by target, then by x, y and z. */
  lemma NormalizedInOrder(locale: (string, string) -> bool, ticks: seq<Tick>, i: nat, j: nat)
    requires TotalPreorder(locale) && i < j < |NormalizeLiquidTicks(locale, ticks)|
    ensures multiset(NormalizeLiquidTicks(locale, ticks)) == multiset(ticks)
    ensures var normalized := NormalizeLiquidTicks(locale, ticks);
            var s, t := normalized[i], normalized[j];
            && s.delay <= t.delay
            && (s.delay == t.delay ==> s.priority == t.priority || Before(s.priority, t.priority))
            && (s.delay == t.delay && s.priority == t.priority ==> locale(s.target, t.target))
            && (s.delay == t.delay && s.priority == t.priority && s.target == t.target ==>
                  s.x < t.x || (s.x == t.x && (s.y < t.y || (s.y == t.y && s.z <= t.z))))
  {
    TickLeqIsTotalPreorder(locale);
    SortIsSorted(ticks, TickLeq(locale));
    SortIsPermutation(ticks, TickLeq(locale));
    hide Sort;
    var normalized := NormalizeLiquidTicks(locale, ticks);
    assert TickLeq(locale)(normalized[i], normalized[j]);
    PrioritiesAreListed(normalized[i].priority);
    PrioritiesAreListed(normalized[j].priority);
    assert locale(normalized[i].target, normalized[j].target) || locale(normalized[j].target, normalized[i].target);
  }

  const PRIORITIES := [ExtremelyHigh, VeryHigh, High, Normal, Low, VeryLow, ExtremelyLow]

  lemma PrioritiesAreListed(p: Priority)
    ensures 0 <= PriorityValue(p) + 3 < 7 && PRIORITIES[PriorityValue(p) + 3] == p
  {
  }

  /** Earlier in the list of priorities. */
  ghost predicate Before(p: Priority, q: Priority) {
    exists i, j :: 0 <= i < j < 7 && PRIORITIES[i] == p && PRIORITIES[j] == q
  }

  // ---------------------------------------------------------------------------------------------
  // Comparison
  // ---------------------------------------------------------------------------------------------

  function Keys(ticks: seq<Tick>): seq<string> {
    seq(|ticks|, i requires 0 <= i < |ticks| => TickKey(ticks[i]))
  }

  function At(keys: seq<string>, i: nat): Option<string> {
    if i < |keys| then Some(keys[i]) else None
  }

  /** What the comparison reports about the first index at which two key lists differ. */
  ghost predicate Reports(diffs: seq<Diff>, expected: seq<string>, actual: seq<string>) {
    if diffs == [] then expected == actual
    else |diffs| == 1 && exists d: nat :: ReportsAt(diffs[0], expected, actual, d)
  }

  ghost predicate ReportsAt(diff: Diff, expected: seq<string>, actual: seq<string>, d: nat) {
    && (forall i :: 0 <= i < d ==> At(expected, i) == At(actual, i))
    && At(expected, d) != At(actual, d)
    && diff == if At(expected, d).None? then ExtraTick(At(actual, d).value)
       else MissingTick(At(expected, d).value, At(actual, d))
  }

  method CompareLiquidTicks(
      locale: (string, string) -> bool, expectedTicks: seq<Tick>, actualTicks: seq<Tick>)
    returns (diffs: seq<Diff>)
    ensures Reports(diffs, Keys(NormalizeLiquidTicks(locale, expectedTicks)),
              Keys(NormalizeLiquidTicks(locale, actualTicks)))
  {
    hide NormalizeLiquidTicks, Keys, TickKey;
    var expected := Keys(NormalizeLiquidTicks(locale, expectedTicks));
    var actual := Keys(NormalizeLiquidTicks(locale, actualTicks));
    var max := if |expected| > |actual| then |expected| else |actual|;
    for index := 0 to max
      invariant forall i :: 0 <= i < index ==> At(expected, i) == At(actual, i)
    {
      var expectedTick, actualTick := At(expected, index), At(actual, index);
      if expectedTick != actualTick {
        diffs :=
          if expectedTick.None? then [ExtraTick(actualTick.value)]
          else [MissingTick(expectedTick.value, actualTick)];
        assert ReportsAt(diffs[0], expected, actual, index);
        return;
      }
    }
    SameThroughout(expected, actual);
    diffs := [];
  }

  lemma SameThroughout(expected: seq<string>, actual: seq<string>)
    requires forall i :: 0 <= i < |expected| || 0 <= i < |actual| ==> At(expected, i) == At(actual, i)
    ensures expected == actual
  {
    var shorter := if |expected| < |actual| then |expected| else |actual|;
    assert shorter < |expected| || shorter < |actual| ==> At(expected, shorter) == At(actual, shorter);
    assert forall i :: 0 <= i < |expected| ==> At(expected, i) == Some(expected[i]);
    assert forall i :: 0 <= i < |actual| ==> At(actual, i) == Some(actual[i]);
  }

  lemma KeysAreInjective(s: seq<Tick>, t: seq<Tick>)
    ensures Keys(s) == Keys(t) <==> s == t
  {
    if Keys(s) == Keys(t) {
      forall i | 0 <= i < |s| ensures s[i] == t[i] {
        assert Keys(s)[i] == Keys(t)[i];
        TickKeyIsInjective(s[i], t[i]);
      }
    }
  }

  /** The comparison never misses: no difference means the same ticks the same number of times. */
  lemma NoDiffMeansSameTicks(locale: (string, string) -> bool, expected: seq<Tick>, actual: seq<Tick>)
    requires Reports([], Keys(NormalizeLiquidTicks(locale, expected)), Keys(NormalizeLiquidTicks(locale, actual)))
    ensures multiset(expected) == multiset(actual)
  {
    KeysAreInjective(NormalizeLiquidTicks(locale, expected), NormalizeLiquidTicks(locale, actual));
    SortIsPermutation(expected, TickLeq(locale));
    SortIsPermutation(actual, TickLeq(locale));
  }

  /** The comparison of two tick lists reports nothing. */
  ghost predicate NoTickDiff(locale: (string, string) -> bool, expected: seq<Tick>, actual: seq<Tick>) {
    Reports([], Keys(NormalizeLiquidTicks(locale, expected)), Keys(NormalizeLiquidTicks(locale, actual)))
  }

  /** Two different ticks tie just when they differ in nothing but targets at the same place of the collation order. */
  lemma TiesIff(locale: (string, string) -> bool, s: Tick, t: Tick)
    requires s != t
    ensures TickLeq(locale)(s, t) && TickLeq(locale)(t, s) <==>
              s == t.(target := s.target) && locale(s.target, t.target) && locale(t.target, s.target)
  {
    assert PriorityValue(s.priority) == PriorityValue(t.priority) <==> s.priority == t.priority;
    assert PositionLeq(s, t) && PositionLeq(t, s) <==> s.x == t.x && s.y == t.y && s.z == t.z;
    assert s == t.(target := s.target) <==>
             s.delay == t.delay && s.priority == t.priority && s.x == t.x && s.y == t.y && s.z == t.z;
  }

  lemma NoTickDiffIff(locale: (string, string) -> bool, expected: seq<Tick>, actual: seq<Tick>)
    ensures NoTickDiff(locale, expected, actual) <==> Sort(actual, TickLeq(locale)) == Sort(expected, TickLeq(locale))
    ensures NoTickDiff(locale, expected, actual) ==> multiset(actual) == multiset(expected)
  {
    hide Keys, Sort;
    KeysAreInjective(NormalizeLiquidTicks(locale, expected), NormalizeLiquidTicks(locale, actual));
    if NoTickDiff(locale, expected, actual) {
      NoDiffMeansSameTicks(locale, expected, actual);
    }
  }

  /**
   * A list of ticks compares equal to each of its reorderings exactly if no two different ticks of it tie. Then any
   * list compares equal to it just when it holds the same ticks the same number of times.
   */
  lemma TicksCompareByContentIff(locale: (string, string) -> bool, expected: seq<Tick>)
    requires TotalPreorder(locale)
    ensures NoTies(expected, TickLeq(locale)) <==>
              forall actual :: multiset(actual) == multiset(expected) ==> NoTickDiff(locale, expected, actual)
    ensures NoTies(expected, TickLeq(locale)) ==>
              forall actual :: NoTickDiff(locale, expected, actual) <==> multiset(actual) == multiset(expected)
  {
    hide NoTickDiff, NoTies, Sort;
    TickLeqIsTotalPreorder(locale);
    SortForgetsOrderIff(expected, TickLeq(locale));
    forall actual: seq<Tick>
      ensures NoTickDiff(locale, expected, actual) <==> Sort(actual, TickLeq(locale)) == Sort(expected, TickLeq(locale))
      ensures NoTickDiff(locale, expected, actual) ==> multiset(actual) == multiset(expected)
    {
      NoTickDiffIff(locale, expected, actual);
    }
  }

  /** Of any two lists: they compare equal exactly if each tick's ties are the same in both, in the same order. */
  lemma TicksCompareIff(locale: (string, string) -> bool, expected: seq<Tick>, actual: seq<Tick>)
    requires TotalPreorder(locale)
    ensures NoTickDiff(locale, expected, actual) <==> SameTies(expected, actual, TickLeq(locale))
  {
    hide NoTickDiff, SameTies, Sort;
    TickLeqIsTotalPreorder(locale);
    NoTickDiffIff(locale, expected, actual);
    SortsAlikeIff(expected, actual, TickLeq(locale));
  }
}

/**
 * How the figure checks set issues off against authored exceptions and a recorded baseline: greedily, each
 * exception and each baseline entry for at most one issue. Three checks share the scheme; they differ in what
 * identifies an issue.
 */
module Accounting {
  import opened Numbers
  import opened Outcomes
  import opened Sorting

  /** What is still available, and where each issue so far has gone. */
  datatype Books<I, E, K> = Books(
    remainingExceptions: seq<E>,
    remainingBaseline: seq<K>,
    acknowledged: seq<(I, E)>,
    baseline: seq<I>,
    unacknowledged: seq<I>)

  function Keys<T, K>(s: seq<T>, key: T -> K): seq<K> {
    seq(|s|, j requires 0 <= j < |s| => key(s[j]))
  }

  /** How many elements have this key. */
  ghost function CountOf<T, K>(s: seq<T>, key: T -> K, k: K): nat {
    multiset(Keys(s, key))[k]
  }

  lemma CountPush<T, K>(s: seq<T>, x: T, key: T -> K, k: K)
    ensures CountOf(s + [x], key, k) == CountOf(s, key, k) + if key(x) == k then 1 else 0
  {
    assert Keys(s + [x], key) == Keys(s, key) + [key(x)];
  }

  /** `splice(i, 1)` */
  function Spliced<T>(s: seq<T>, i: nat): seq<T>
    requires i < |s|
  {
    s[..i] + s[i + 1..]
  }

  lemma SplicedMultiset<T>(s: seq<T>, i: nat)
    requires i < |s|
    ensures multiset(s) == multiset(Spliced(s, i)) + multiset{s[i]}
  {
    assert s == s[..i] + [s[i]] + s[i + 1..];
  }

  lemma CountSpliced<T, K>(s: seq<T>, i: nat, key: T -> K, k: K)
    requires i < |s|
    ensures CountOf(Spliced(s, i), key, k) + (if key(s[i]) == k then 1 else 0) == CountOf(s, key, k)
  {
    assert Keys(Spliced(s, i), key) == Spliced(Keys(s, key), i);
    SplicedMultiset(Keys(s, key), i);
  }

  lemma CountNone<T, K>(s: seq<T>, key: T -> K, k: K)
    requires forall j :: 0 <= j < |s| ==> key(s[j]) != k
    ensures CountOf(s, key, k) == 0
  {
    assert k !in Keys(s, key);
  }

  lemma CountSome<T, K>(s: seq<T>, key: T -> K, j: nat)
    requires j < |s|
    ensures CountOf(s, key, key(s[j])) > 0
  {
    assert Keys(s, key)[j] in Keys(s, key);
  }

  /** The first exception that matches the issue, or the number of exceptions. */
  function FindException<I, E>(exceptions: seq<E>, issue: I, matches: (E, I) -> bool): (i: nat)
    ensures i <= |exceptions| && (i < |exceptions| ==> matches(exceptions[i], issue))
    ensures forall j :: 0 <= j < i ==> !matches(exceptions[j], issue)
  {
    if exceptions == [] then 0
    else
      var n := |exceptions| - 1;
      var i := FindException(exceptions[..n], issue, matches);
      if i < n || matches(exceptions[n], issue) then i else |exceptions|
  }

  /** `indexOf`, with the length for "absent". */
  function FindKey<K(==)>(keys: seq<K>, k: K): (i: nat)
    ensures i <= |keys| && (i < |keys| ==> keys[i] == k)
    ensures forall j :: 0 <= j < i ==> keys[j] != k
  {
    if keys == [] then 0
    else
      var n := |keys| - 1;
      var i := FindKey(keys[..n], k);
      if i < n || keys[n] == k then i else |keys|
  }

  /**
   * One issue: set off against the first matching exception, else the first baseline entry of its key, else nothing.
   */
  function Enter<I, E, K(==)>(books: Books<I, E, K>, issue: I, matches: (E, I) -> bool, key: I -> K): Books<I, E, K> {
    var e := FindException(books.remainingExceptions, issue, matches);
    if e < |books.remainingExceptions| then
      books.(remainingExceptions := Spliced(books.remainingExceptions, e),
             acknowledged := books.acknowledged + [(issue, books.remainingExceptions[e])])
    else
      var b := FindKey(books.remainingBaseline, key(issue));
      if b < |books.remainingBaseline| then
        books.(remainingBaseline := Spliced(books.remainingBaseline, b), baseline := books.baseline + [issue])
      else books.(unacknowledged := books.unacknowledged + [issue])
  }

  function Reconciled<I, E, K(==)>(
      issues: seq<I>, exceptions: seq<E>, baseline: seq<K>, matches: (E, I) -> bool, key: I -> K): Books<I, E, K>
  {
    if issues == [] then Books(exceptions, baseline, [], [], [])
    else
      Enter(Reconciled(issues[..|issues| - 1], exceptions, baseline, matches, key), issues[|issues| - 1], matches, key)
  }

  /** The evaluation loop of the checks. */
  method Reconcile<I, E, K(==)>(
      issues: seq<I>, exceptions: seq<E>, baselineKeys: seq<K>, matches: (E, I) -> bool, key: I -> K)
    returns (books: Books<I, E, K>)
    ensures books == Reconciled(issues, exceptions, baselineKeys, matches, key)
  {
    var remainingExceptions, remainingBaseline := exceptions, baselineKeys;
    var acknowledged: seq<(I, E)>, baseline: seq<I>, unacknowledged: seq<I> := [], [], [];
    for n := 0 to |issues|
      invariant Books(remainingExceptions, remainingBaseline, acknowledged, baseline, unacknowledged)
             == Reconciled(issues[..n], exceptions, baselineKeys, matches, key)
    {
      hide FindException, FindKey;
      var issue := issues[n];
      assert issues[..n + 1][..n] == issues[..n];
      var exceptionIndex := FindException(remainingExceptions, issue, matches);
      if exceptionIndex < |remainingExceptions| {
        var exception := remainingExceptions[exceptionIndex];
        remainingExceptions := remainingExceptions[..exceptionIndex] + remainingExceptions[exceptionIndex + 1..];
        acknowledged := acknowledged + [(issue, exception)];
        continue;
      }
      var baselineIndex := FindKey(remainingBaseline, key(issue));
      if baselineIndex < |remainingBaseline| {
        remainingBaseline := remainingBaseline[..baselineIndex] + remainingBaseline[baselineIndex + 1..];
        baseline := baseline + [issue];
        continue;
      }
      unacknowledged := unacknowledged + [issue];
    }
    assert issues[..|issues|] == issues;
    books := Books(remainingExceptions, remainingBaseline, acknowledged, baseline, unacknowledged);
  }

  // ---------------------------------------------------------------------------------------------
  // The balance, key by key
  // ---------------------------------------------------------------------------------------------

  function Firsts<I, E>(s: seq<(I, E)>): seq<I> {
    seq(|s|, j requires 0 <= j < |s| => s[j].0)
  }

  function Seconds<I, E>(s: seq<(I, E)>): seq<E> {
    seq(|s|, j requires 0 <= j < |s| => s[j].1)
  }

  /**
   * Of the issues with a key, as many as there are exceptions are acknowledged, then as many as there are baseline
   * entries are put down to the baseline; the rest, and whatever was not used up, is left over.
   */
  ghost predicate Balanced<I, E, K>(
    books: Books<I, E, K>, issues: seq<I>, exceptions: seq<E>, baselineKeys: seq<K>, key: I -> K,
    exceptionKey: E -> Option<K>, k: K)
  {
    var n, e, b := CountOf(issues, key, k), CountOf(exceptions, exceptionKey, Some(k)), multiset(baselineKeys)[k];
    var byException := Min(n, e);
    var byBaseline := Min(n - byException, b);
    && CountOf(Firsts(books.acknowledged), key, k) == byException
    && CountOf(Seconds(books.acknowledged), exceptionKey, Some(k)) == byException
    && CountOf(books.baseline, key, k) == byBaseline
    && CountOf(books.unacknowledged, key, k) == n - byException - byBaseline
    && CountOf(books.remainingExceptions, exceptionKey, Some(k)) == e - byException
    && multiset(books.remainingBaseline)[k] == b - byBaseline
  }

  ghost predicate AllBalanced<I, E, K(!new)>(
    books: Books<I, E, K>, issues: seq<I>, exceptions: seq<E>, baselineKeys: seq<K>, key: I -> K,
    exceptionKey: E -> Option<K>)
  {
    forall k :: Balanced(books, issues, exceptions, baselineKeys, key, exceptionKey, k)
  }

  /** An exception matches an issue exactly when it has the issue's key. */
  ghost predicate MatchesByKey<I(!new), E(!new), K>(
    matches: (E, I) -> bool, key: I -> K, exceptionKey: E -> Option<K>, exceptions: seq<E>, issues: seq<I>)
  {
    forall e, i :: e in exceptions && i in issues ==> (matches(e, i) <==> exceptionKey(e) == Some(key(i)))
  }

  lemma EnterByException<I, E, K>(
    books: Books<I, E, K>, issues: seq<I>, issue: I, exceptions: seq<E>, baselineKeys: seq<K>, key: I -> K,
    exceptionKey: E -> Option<K>, k: K, e: nat)
    requires Balanced(books, issues, exceptions, baselineKeys, key, exceptionKey, k)
    requires e < |books.remainingExceptions| && exceptionKey(books.remainingExceptions[e]) == Some(key(issue))
    ensures Balanced(books.(remainingExceptions := Spliced(books.remainingExceptions, e),
                            acknowledged := books.acknowledged + [(issue, books.remainingExceptions[e])]),
                     issues + [issue], exceptions, baselineKeys, key, exceptionKey, k)
  {
    hide CountOf, Spliced;
    var pair := (issue, books.remainingExceptions[e]);
    assert Firsts(books.acknowledged + [pair]) == Firsts(books.acknowledged) + [pair.0];
    assert Seconds(books.acknowledged + [pair]) == Seconds(books.acknowledged) + [pair.1];
    CountPush(issues, issue, key, k);
    CountPush(Firsts(books.acknowledged), issue, key, k);
    CountPush(Seconds(books.acknowledged), pair.1, exceptionKey, Some(k));
    CountSpliced(books.remainingExceptions, e, exceptionKey, Some(k));
    CountSome(books.remainingExceptions, exceptionKey, e);
  }

  lemma EnterByBaseline<I, E, K>(
    books: Books<I, E, K>, issues: seq<I>, issue: I, exceptions: seq<E>, baselineKeys: seq<K>, key: I -> K,
    exceptionKey: E -> Option<K>, k: K, b: nat)
    requires Balanced(books, issues, exceptions, baselineKeys, key, exceptionKey, k)
    requires forall j :: 0 <= j < |books.remainingExceptions| ==>
             exceptionKey(books.remainingExceptions[j]) != Some(key(issue))
    requires b < |books.remainingBaseline| && books.remainingBaseline[b] == key(issue)
    ensures Balanced(books.(remainingBaseline := Spliced(books.remainingBaseline, b),
              baseline := books.baseline + [issue]),
                     issues + [issue], exceptions, baselineKeys, key, exceptionKey, k)
  {
    hide CountOf, Spliced;
    CountPush(issues, issue, key, k);
    CountPush(books.baseline, issue, key, k);
    SplicedMultiset(books.remainingBaseline, b);
    CountNone(books.remainingExceptions, exceptionKey, Some(key(issue)));
    assert books.remainingBaseline[b] in multiset(books.remainingBaseline);
  }

  lemma EnterByNothing<I, E, K>(
    books: Books<I, E, K>, issues: seq<I>, issue: I, exceptions: seq<E>, baselineKeys: seq<K>, key: I -> K,
    exceptionKey: E -> Option<K>, k: K)
    requires Balanced(books, issues, exceptions, baselineKeys, key, exceptionKey, k)
    requires forall j :: 0 <= j < |books.remainingExceptions| ==>
             exceptionKey(books.remainingExceptions[j]) != Some(key(issue))
    requires key(issue) !in books.remainingBaseline
    ensures Balanced(books.(unacknowledged := books.unacknowledged + [issue]),
              issues + [issue], exceptions, baselineKeys, key, exceptionKey, k)
  {
    hide CountOf;
    CountPush(issues, issue, key, k);
    CountPush(books.unacknowledged, issue, key, k);
    CountNone(books.remainingExceptions, exceptionKey, Some(key(issue)));
    assert multiset(books.remainingBaseline)[key(issue)] == 0;
  }

  /** Nothing new turns up among the remaining exceptions. */
  lemma {:induction false} RemainingAreAuthored<I, E, K>(
      issues: seq<I>, exceptions: seq<E>, baselineKeys: seq<K>, matches: (E, I) -> bool, key: I -> K)
    ensures forall e :: e in Reconciled(issues, exceptions, baselineKeys, matches, key).remainingExceptions ==>
            e in exceptions
    decreases |issues|
  {
    if issues != [] {
      hide FindException, FindKey;
      RemainingAreAuthored(issues[..|issues| - 1], exceptions, baselineKeys, matches, key);
    }
  }

  /** Conservation: for every key, the books balance. */
  lemma {:induction false} ReconciledBalances<I(!new), E(!new), K>(
    issues: seq<I>, exceptions: seq<E>, baselineKeys: seq<K>, matches: (E, I) -> bool, key: I -> K,
    exceptionKey: E -> Option<K>, k: K)
    requires MatchesByKey(matches, key, exceptionKey, exceptions, issues)
    ensures Balanced(Reconciled(issues, exceptions, baselineKeys, matches, key), issues, exceptions, baselineKeys, key,
              exceptionKey, k)
    decreases |issues|
  {
    if issues == [] {
      NothingBalances(exceptions, baselineKeys, key, exceptionKey, k);
    } else {
      hide Balanced, Enter, FindException, FindKey;
      var init, last := issues[..|issues| - 1], issues[|issues| - 1];
      var books := Reconciled(init, exceptions, baselineKeys, matches, key);
      ReconciledBalances(init, exceptions, baselineKeys, matches, key, exceptionKey, k);
      RemainingAreAuthored(init, exceptions, baselineKeys, matches, key);
      assert last in issues && init + [last] == issues;
      EnterBalances(books, init, last, exceptions, baselineKeys, matches, key, exceptionKey, k);
    }
  }

  lemma NothingBalances<I, E, K>(
    exceptions: seq<E>, baselineKeys: seq<K>, key: I -> K, exceptionKey: E -> Option<K>, k: K)
    ensures Balanced(Books(exceptions, baselineKeys, [], [], []), [], exceptions, baselineKeys, key, exceptionKey, k)
  {
    assert Keys<I, K>([], key) == [] && Keys(Firsts<I, E>([]), key) == [];
    assert Keys(Seconds<I, E>([]), exceptionKey) == [];
  }

  lemma EnterBalances<I, E, K>(
    books: Books<I, E, K>, issues: seq<I>, issue: I, exceptions: seq<E>, baselineKeys: seq<K>, matches: (E, I) -> bool,
    key: I -> K, exceptionKey: E -> Option<K>, k: K)
    requires Balanced(books, issues, exceptions, baselineKeys, key, exceptionKey, k)
    requires forall e :: e in books.remainingExceptions ==> (matches(e, issue) <==> exceptionKey(e) == Some(key(issue)))
    ensures Balanced(Enter(books, issue, matches, key),
              issues + [issue], exceptions, baselineKeys, key, exceptionKey, k)
  {
    hide Balanced, FindException, FindKey, Spliced;
    assert forall j :: 0 <= j < |books.remainingExceptions| ==>
           books.remainingExceptions[j] in books.remainingExceptions;
    var e, b := FindException(books.remainingExceptions, issue, matches), FindKey(books.remainingBaseline, key(issue));
    if e < |books.remainingExceptions| {
      EnterByException(books, issues, issue, exceptions, baselineKeys, key, exceptionKey, k, e);
    } else if b < |books.remainingBaseline| {
      EnterByBaseline(books, issues, issue, exceptions, baselineKeys, key, exceptionKey, k, b);
    } else {
      EnterByNothing(books, issues, issue, exceptions, baselineKeys, key, exceptionKey, k);
    }
  }

  lemma EveryKeyBalances<I(!new), E(!new), K(!new)>(
    issues: seq<I>, exceptions: seq<E>, baselineKeys: seq<K>, matches: (E, I) -> bool, key: I -> K,
    exceptionKey: E -> Option<K>)
    requires MatchesByKey(matches, key, exceptionKey, exceptions, issues)
    ensures AllBalanced(Reconciled(issues, exceptions, baselineKeys, matches, key), issues, exceptions, baselineKeys,
              key, exceptionKey)
  {
    forall k
      ensures Balanced(Reconciled(issues, exceptions, baselineKeys, matches, key), issues, exceptions, baselineKeys,
                key, exceptionKey, k)
    {
      ReconciledBalances(issues, exceptions, baselineKeys, matches, key, exceptionKey, k);
    }
  }

  /** The assertion the checks end with: nothing unacknowledged, and nothing stale. */
  predicate Passes<I, E, K>(books: Books<I, E, K>) {
    |books.unacknowledged| == 0 && |books.remainingExceptions| == 0 && |books.remainingBaseline| == 0
  }

  lemma NoneLeftIff<T(!new), K(!new)>(s: seq<T>, key: T -> K)
    ensures s == [] <==> forall k :: CountOf(s, key, k) == 0
  {
    if s != [] {
      CountSome(s, key, 0);
    }
  }

  /** Every remaining exception has been authored, and its own kind is never used: an exception without a key stays. */
  lemma {:induction false} UnkeyedExceptionsStay<I(!new), E(!new), K>(
    issues: seq<I>, exceptions: seq<E>, baselineKeys: seq<K>, matches: (E, I) -> bool, key: I -> K,
    exceptionKey: E -> Option<K>)
    requires MatchesByKey(matches, key, exceptionKey, exceptions, issues)
    ensures CountOf(Reconciled(issues, exceptions, baselineKeys, matches, key).remainingExceptions, exceptionKey, None)
         == CountOf(exceptions, exceptionKey, None)
    decreases |issues|
  {
    if issues != [] {
      hide CountOf, FindException, FindKey, Spliced;
      var init, last := issues[..|issues| - 1], issues[|issues| - 1];
      var books := Reconciled(init, exceptions, baselineKeys, matches, key);
      UnkeyedExceptionsStay(init, exceptions, baselineKeys, matches, key, exceptionKey);
      RemainingAreAuthored(init, exceptions, baselineKeys, matches, key);
      assert last in issues;
      var e := FindException(books.remainingExceptions, last, matches);
      if e < |books.remainingExceptions| {
        assert books.remainingExceptions[e] in exceptions;
        CountSpliced(books.remainingExceptions, e, exceptionKey, None);
      }
    }
  }

  /**
   * A check passes exactly when, key by key, the exceptions and baseline entries together are as many as the issues,
   * and no exception is without a key.
   */
  lemma PassesIff<I(!new), E(!new), K(!new)>(
    issues: seq<I>, exceptions: seq<E>, baselineKeys: seq<K>, matches: (E, I) -> bool, key: I -> K,
    exceptionKey: E -> Option<K>)
    requires MatchesByKey(matches, key, exceptionKey, exceptions, issues)
    ensures Passes(Reconciled(issues, exceptions, baselineKeys, matches, key)) <==>
              && CountOf(exceptions, exceptionKey, None) == 0
              && forall k ::
                   CountOf(issues, key, k)
                   == CountOf(exceptions, exceptionKey, Some(k)) + multiset(baselineKeys)[k]
  {
    var books := Reconciled(issues, exceptions, baselineKeys, matches, key);
    EveryKeyBalances(issues, exceptions, baselineKeys, matches, key, exceptionKey);
    UnkeyedExceptionsStay(issues, exceptions, baselineKeys, matches, key, exceptionKey);
    hide Reconciled, CountOf, MatchesByKey;
    NoneLeftIff(books.unacknowledged, key);
    NoneLeftIff(books.remainingExceptions, exceptionKey);
    EmptyMultisetIff(books.remainingBaseline);
    forall k
      ensures CountOf(issues, key, k) == CountOf(exceptions, exceptionKey, Some(k)) + multiset(baselineKeys)[k] <==>
                && CountOf(books.unacknowledged, key, k) == 0
                && CountOf(books.remainingExceptions, exceptionKey, Some(k)) == 0
                && multiset(books.remainingBaseline)[k] == 0
    {
      assert Balanced(books, issues, exceptions, baselineKeys, key, exceptionKey, k);
    }
    if CountOf(books.remainingExceptions, exceptionKey, None) == 0
       && forall k :: CountOf(books.remainingExceptions, exceptionKey, Some(k)) == 0 {
      forall o ensures CountOf(books.remainingExceptions, exceptionKey, o) == 0 {
        assert o == None || o == Some(o.value);
      }
    }
  }

  lemma EmptyMultisetIff<K(!new)>(s: seq<K>)
    ensures s == [] <==> forall k :: multiset(s)[k] == 0
  {
    if s != [] {
      assert s[0] in multiset(s);
    }
  }

  // ---------------------------------------------------------------------------------------------
  // Nothing is lost
  // ---------------------------------------------------------------------------------------------

  ghost predicate Conserved<I, E, K>(
    books: Books<I, E, K>, issues: multiset<I>, exceptions: multiset<E>, baselineKeys: multiset<K>,
    matches: (E, I) -> bool, key: I -> K)
  {
    && issues == multiset(Firsts(books.acknowledged)) + multiset(books.baseline) + multiset(books.unacknowledged)
    && exceptions == multiset(Seconds(books.acknowledged)) + multiset(books.remainingExceptions)
    && baselineKeys == multiset(Keys(books.baseline, key)) + multiset(books.remainingBaseline)
    && forall j :: 0 <= j < |books.acknowledged| ==> matches(books.acknowledged[j].1, books.acknowledged[j].0)
  }

  lemma ConserveByException<I, E, K>(
    books: Books<I, E, K>, issues: multiset<I>, exceptions: multiset<E>, baselineKeys: multiset<K>, issue: I,
    matches: (E, I) -> bool, key: I -> K, e: nat)
    requires Conserved(books, issues, exceptions, baselineKeys, matches, key)
    requires e < |books.remainingExceptions| && matches(books.remainingExceptions[e], issue)
    ensures Conserved(books.(remainingExceptions := Spliced(books.remainingExceptions, e),
                             acknowledged := books.acknowledged + [(issue, books.remainingExceptions[e])]),
                      issues + multiset{issue}, exceptions, baselineKeys, matches, key)
  {
    SplicedMultiset(books.remainingExceptions, e);
    hide Spliced, Keys;
    var pair := (issue, books.remainingExceptions[e]);
    assert Firsts(books.acknowledged + [pair]) == Firsts(books.acknowledged) + [issue];
    assert Seconds(books.acknowledged + [pair]) == Seconds(books.acknowledged) + [pair.1];
  }

  lemma ConserveByBaseline<I, E, K>(
    books: Books<I, E, K>, issues: multiset<I>, exceptions: multiset<E>, baselineKeys: multiset<K>, issue: I,
    matches: (E, I) -> bool, key: I -> K, b: nat)
    requires Conserved(books, issues, exceptions, baselineKeys, matches, key)
    requires b < |books.remainingBaseline| && books.remainingBaseline[b] == key(issue)
    ensures Conserved(books.(remainingBaseline := Spliced(books.remainingBaseline, b),
              baseline := books.baseline + [issue]),
                      issues + multiset{issue}, exceptions, baselineKeys, matches, key)
  {
    SplicedMultiset(books.remainingBaseline, b);
    hide Spliced, Firsts, Seconds;
    assert Keys(books.baseline + [issue], key) == Keys(books.baseline, key) + [key(issue)];
  }

  lemma EnterConserves<I, E, K>(
    books: Books<I, E, K>, issues: multiset<I>, exceptions: multiset<E>, baselineKeys: multiset<K>, issue: I,
    matches: (E, I) -> bool, key: I -> K)
    requires Conserved(books, issues, exceptions, baselineKeys, matches, key)
    ensures Conserved(Enter(books, issue, matches, key),
              issues + multiset{issue}, exceptions, baselineKeys, matches, key)
  {
    hide FindException, FindKey, Spliced, Firsts, Seconds, Keys;
    var e := FindException(books.remainingExceptions, issue, matches);
    var b := FindKey(books.remainingBaseline, key(issue));
    if e < |books.remainingExceptions| {
      ConserveByException(books, issues, exceptions, baselineKeys, issue, matches, key, e);
    } else if b < |books.remainingBaseline| {
      ConserveByBaseline(books, issues, exceptions, baselineKeys, issue, matches, key, b);
    }
  }

  /** Every issue ends up in exactly one place, every exception and baseline entry is used once or left over. */
  lemma {:induction false} ReconciledConserves<I, E, K>(
    issues: seq<I>, exceptions: seq<E>, baselineKeys: seq<K>, matches: (E, I) -> bool, key: I -> K)
    ensures Conserved(Reconciled(issues, exceptions, baselineKeys, matches, key),
                      multiset(issues), multiset(exceptions), multiset(baselineKeys), matches, key)
    decreases |issues|
  {
    if issues == [] {
      assert Firsts<I, E>([]) == [] && Seconds<I, E>([]) == [] && Keys<I, K>([], key) == [];
    } else {
      hide Enter, Conserved;
      var init, last := issues[..|issues| - 1], issues[|issues| - 1];
      ReconciledConserves(init, exceptions, baselineKeys, matches, key);
      EnterConserves(Reconciled(init, exceptions, baselineKeys, matches, key),
                     multiset(init), multiset(exceptions), multiset(baselineKeys), last, matches, key);
      assert issues == init + [last];
    }
  }

  // ---------------------------------------------------------------------------------------------
  // The three checks
  // ---------------------------------------------------------------------------------------------

  datatype PartException = PartException(rule: string, parts: seq<string>, reason: string)

  const DISCONNECTED := "disconnected-component"
  const PENETRATION := "ground-penetration"

  function WithRule(exceptions: seq<PartException>, rule: string): seq<PartException> {
    if exceptions == [] then []
    else
      WithRule(exceptions[..|exceptions| - 1], rule)
      + if exceptions[|exceptions| - 1].rule == rule then [exceptions[|exceptions| - 1]] else []
  }

  lemma WithRuleLast(s: seq<PartException>, e: PartException, rule: string)
    ensures WithRule(s + [e], rule) == if e.rule == rule then WithRule(s, rule) + [e] else WithRule(s, rule)
  {
    assert (s + [e])[..|s|] == s && WithRule(s, rule) + [] == WithRule(s, rule);
  }

  lemma {:induction false} WithRuleKeeps(exceptions: seq<PartException>, rule: string)
    ensures forall e :: e in WithRule(exceptions, rule) <==> e in exceptions && e.rule == rule
    decreases |exceptions|
  {
    if exceptions != [] {
      var n := |exceptions| - 1;
      WithRuleKeeps(exceptions[..n], rule);
      assert exceptions == exceptions[..n] + [exceptions[n]];
    }
  }

  // Surfaces: every exception has a key, of the same kind as an issue's.

  function Keyed<E, K>(key: E -> K): E -> Option<K> {
    e => Some(key(e))
  }

  method EvaluateFigureSurfaces<I(!new), E(!new)>(
    issues: seq<I>, exceptions: seq<E>, baseline: seq<string>, surfaceIssueKey: I -> string,
    surfaceExceptionKey: E -> string)
    returns (books: Books<I, E, string>)
    ensures AllBalanced(books, issues, exceptions, baseline, surfaceIssueKey, Keyed(surfaceExceptionKey))
  {
    var matches := (e: E, i: I) => surfaceExceptionKey(e) == surfaceIssueKey(i);
    books := Reconcile(issues, exceptions, baseline, matches, surfaceIssueKey);
    EveryKeyBalances(issues, exceptions, baseline, matches, surfaceIssueKey, Keyed(surfaceExceptionKey));
  }

  // Ground contact: an exception names one part, a baseline entry names the rule and the part.

  function GroundIssueKey(part: string): string {
    PENETRATION + ":" + part
  }

  function GroundExceptionKey(e: PartException): Option<string> {
    if |e.parts| == 1 then Some(GroundIssueKey(e.parts[0])) else None
  }

  predicate GroundMatches(e: PartException, part: string) {
    |e.parts| == 1 && e.parts[0] == part
  }

  lemma GroundMatchesByKey(e: PartException, part: string)
    ensures GroundMatches(e, part) <==> GroundExceptionKey(e) == Some(GroundIssueKey(part))
  {
    if |e.parts| == 1 && GroundIssueKey(e.parts[0]) == GroundIssueKey(part) {
      var n := |PENETRATION + ":"|;
      assert GroundIssueKey(part)[n..] == part && GroundIssueKey(e.parts[0])[n..] == e.parts[0];
    }
  }

  /** How many exceptions excuse a ground penetration of just this part. */
  function Excusing(exceptions: seq<PartException>, part: string): nat {
    if exceptions == [] then 0
    else
      var last := exceptions[|exceptions| - 1];
      Excusing(exceptions[..|exceptions| - 1], part)
      + if last.rule == "ground-penetration" && last.parts == [part] then 1 else 0
  }

  /** Part by part: exceptions excuse as many issues as they are, then baseline entries as many as they are. */
  ghost predicate GroundAccount(
    books: Books<string, PartException, string>, parts: seq<string>, exceptions: seq<PartException>,
    baseline: seq<string>, part: string)
  {
    var n, e, b := multiset(parts)[part], Excusing(exceptions, part), multiset(baseline)["ground-penetration:" + part];
    var excused := if n < e then n else e;
    var known := if n - excused < b then n - excused else b;
    && multiset(Firsts(books.acknowledged))[part] == excused && multiset(books.baseline)[part] == known
    && multiset(books.unacknowledged)[part] == n - excused - known
    && Excusing(books.remainingExceptions, part) == e - excused
    && multiset(books.remainingBaseline)["ground-penetration:" + part] == b - known
  }

  lemma GroundKeysDiffer(a: string, b: string)
    ensures GroundIssueKey(a) == GroundIssueKey(b) <==> a == b
    ensures GroundIssueKey(a) == "ground-penetration:" + a
  {
    var n := |PENETRATION + ":"|;
    assert GroundIssueKey(a)[n..] == a && GroundIssueKey(b)[n..] == b;
    assert PENETRATION + ":" == "ground-penetration:";
  }

  lemma {:induction false} PartsByKey(s: seq<string>, part: string)
    ensures CountOf(s, GroundIssueKey, GroundIssueKey(part)) == multiset(s)[part]
    decreases |s|
  {
    if s == [] {
      assert Keys(s, GroundIssueKey) == [];
    } else {
      var init, last := s[..|s| - 1], s[|s| - 1];
      assert s == init + [last];
      PartsByKey(init, part);
      CountPush(init, last, GroundIssueKey, GroundIssueKey(part));
      GroundKeysDiffer(last, part);
      hide GroundIssueKey;
    }
  }

  lemma {:induction false} ExcusingByKey(s: seq<PartException>, part: string)
    requires forall e :: e in s ==> e.rule == PENETRATION
    ensures CountOf(s, GroundExceptionKey, Some(GroundIssueKey(part))) == Excusing(s, part)
    decreases |s|
  {
    if s == [] {
      assert Keys(s, GroundExceptionKey) == [];
    } else {
      var init, last := s[..|s| - 1], s[|s| - 1];
      assert s == init + [last];
      ExcusingByKey(init, part);
      CountPush(init, last, GroundExceptionKey, Some(GroundIssueKey(part)));
      assert last.parts == [part] <==> |last.parts| == 1 && last.parts[0] == part;
      GroundKeysDiffer(if |last.parts| == 1 then last.parts[0] else part, part);
      hide GroundIssueKey;
    }
  }

  lemma ExcusingLast(s: seq<PartException>, e: PartException, part: string)
    ensures Excusing(s + [e], part)
            == Excusing(s, part) + if e.rule == PENETRATION && e.parts == [part] then 1 else 0
  {
    assert (s + [e])[..|s|] == s;
  }

  lemma ExcusingNone(part: string)
    ensures Excusing([], part) == 0 && WithRule([], PENETRATION) == []
  {
  }

  lemma {:induction false} ExcusingHaveTheRule(s: seq<PartException>, part: string)
    ensures Excusing(WithRule(s, PENETRATION), part) == Excusing(s, part)
    decreases |s|
  {
    hide Excusing, WithRule;
    ExcusingNone(part);
    if s != [] {
      var init, last := s[..|s| - 1], s[|s| - 1];
      ExcusingHaveTheRule(init, part);
      ExcusingLast(init, last, part);
      ExcusingLast(WithRule(init, PENETRATION), last, part);
      WithRuleLast(init, last, PENETRATION);
      assert s == init + [last];
    }
  }

  lemma GroundAccounts(
      books: Books<string, PartException, string>, parts: seq<string>, exceptions: seq<PartException>,
      baseline: seq<string>, part: string)
    requires AllBalanced(
               books, parts, WithRule(exceptions, PENETRATION), baseline, GroundIssueKey, GroundExceptionKey)
    requires forall e :: e in books.remainingExceptions ==> e in WithRule(exceptions, PENETRATION)
    ensures GroundAccount(books, parts, exceptions, baseline, part)
  {
    var relevant := WithRule(exceptions, PENETRATION);
    WithRuleKeeps(exceptions, PENETRATION);
    assert Balanced(books, parts, relevant, baseline, GroundIssueKey, GroundExceptionKey, GroundIssueKey(part));
    PartsByKey(parts, part);
    PartsByKey(Firsts(books.acknowledged), part);
    PartsByKey(books.baseline, part);
    PartsByKey(books.unacknowledged, part);
    ExcusingByKey(relevant, part);
    ExcusingByKey(books.remainingExceptions, part);
    ExcusingHaveTheRule(exceptions, part);
    GroundKeysDiffer(part, part);
    hide CountOf, WithRule, Excusing, GroundIssueKey, AllBalanced, Firsts, Seconds;
  }

  /** Issues are identified by their part; the exceptions of other rules are set aside first. */
  method EvaluateFigureGrounding(parts: seq<string>, exceptions: seq<PartException>, baseline: seq<string>)
    returns (books: Books<string, PartException, string>)
    ensures AllBalanced(books, parts, WithRule(exceptions, PENETRATION), baseline, GroundIssueKey, GroundExceptionKey)
    ensures forall part :: GroundAccount(books, parts, exceptions, baseline, part)
  {
    var relevant := WithRule(exceptions, PENETRATION);
    books := Reconcile(parts, relevant, baseline, GroundMatches, GroundIssueKey);
    forall e, i | e in relevant && i in parts
      ensures GroundMatches(e, i) <==> GroundExceptionKey(e) == Some(GroundIssueKey(i))
    {
      GroundMatchesByKey(e, i);
    }
    EveryKeyBalances(parts, relevant, baseline, GroundMatches, GroundIssueKey, GroundExceptionKey);
    RemainingAreAuthored(parts, relevant, baseline, GroundMatches, GroundIssueKey);
    hide AllBalanced, GroundAccount, WithRule;
    forall part ensures GroundAccount(books, parts, exceptions, baseline, part) {
      GroundAccounts(books, parts, exceptions, baseline, part);
    }
  }

  // Floating components: an exception names a set of parts, in any order. There is no baseline.

  function PartSet(s: seq<string>): set<string> {
    set x | x in s
  }

  predicate SamePartSet(left: seq<string>, right: seq<string>) {
    |left| == |right| && forall x :: x in left ==> x in PartSet(right)
  }

  lemma {:induction false} DistinctSize(s: seq<string>)
    ensures |PartSet(s)| <= |s|
    ensures |PartSet(s)| == |s| <==> NoDuplicates(s)
    decreases |s|
  {
    if s == [] {
      assert PartSet(s) == {};
    } else {
      var init, last := s[..|s| - 1], s[|s| - 1];
      assert s == init + [last];
      DistinctSize(init);
      assert PartSet(s) == PartSet(init) + {last};
      if last in init {
        assert PartSet(s) == PartSet(init);
        var i :| 0 <= i < |init| && init[i] == last;
        assert s[i] == s[|s| - 1];
      } else if NoDuplicates(init) {
        assert NoDuplicates(s);
      } else {
        var i, j :| 0 <= i < j < |init| && init[i] == init[j];
        assert s[i] == s[j];
      }
    }
  }

  /** Comparing lengths and looking up one side is set equality, as long as neither list repeats a part. */
  lemma SamePartSetIsSetEquality(left: seq<string>, right: seq<string>)
    requires NoDuplicates(left) && NoDuplicates(right)
    ensures SamePartSet(left, right) <==> PartSet(left) == PartSet(right)
  {
    DistinctSize(left);
    DistinctSize(right);
    if SamePartSet(left, right) {
      SubsetOfSameSize(PartSet(left), PartSet(right));
    }
  }

  lemma SubsetOfSameSize(a: set<string>, b: set<string>)
    requires a <= b && |a| == |b|
    ensures a == b
  {
    assert b == a + (b - a);
    assert |b| == |a| + |b - a|;
  }

  /**
   * Against lists without repeats the comparison is set equality exactly if the left list has none either: otherwise
   * it also accepts a list that names all its parts and some more, as many as it repeats.
   */
  lemma SamePartSetIsSetEqualityIff(left: seq<string>)
    ensures NoDuplicates(left) <==> forall right :: NoDuplicates(right) ==> ComparesAsSets(left, right)
  {
    if NoDuplicates(left) {
      forall right | NoDuplicates(right) ensures ComparesAsSets(left, right) {
        SamePartSetIsSetEquality(left, right);
      }
    } else {
      var parts := WithoutRepeats(left);
      DistinctSize(parts);
      DistinctSize(left);
      var right := Extended(parts, |left|);
      DistinctSize(right);
      forall x | x in left ensures x in PartSet(right) {
        assert x in PartSet(parts);
        var i :| 0 <= i < |parts| && parts[i] == x;
        assert right[i] == x;
      }
      assert !ComparesAsSets(left, right);
    }
  }

  ghost predicate ComparesAsSets(left: seq<string>, right: seq<string>) {
    SamePartSet(left, right) <==> PartSet(left) == PartSet(right)
  }

  lemma {:induction false} WithoutRepeats(s: seq<string>) returns (parts: seq<string>)
    ensures NoDuplicates(parts) && PartSet(parts) == PartSet(s)
    decreases |s|
  {
    if s == [] {
      parts := [];
    } else {
      var init, last := s[..|s| - 1], s[|s| - 1];
      assert s == init + [last];
      var before := WithoutRepeats(init);
      parts := if last in PartSet(before) then before else before + [last];
      assert PartSet(before + [last]) == PartSet(before) + {last};
    }
  }

  /** More parts, of names longer than any so far, up to a number. */
  lemma {:induction false} Extended(s: seq<string>, n: nat) returns (r: seq<string>)
    requires NoDuplicates(s) && |s| <= n
    ensures NoDuplicates(r) && |r| == n && s <= r
    decreases n - |s|
  {
    if |s| == n {
      r := s;
    } else {
      var length := (x: string) => |x|;
      var longer := seq(Greatest(s, length) + 1, _ => 'a');
      GreatestBounds(s, length);
      forall i | 0 <= i < |s| ensures s[i] != longer {
        assert s[i] in s;
      }
      r := Extended(s + [longer], n);
    }
  }

  function ExceptionPartSet(e: PartException): Option<set<string>> {
    Some(PartSet(e.parts))
  }

  /** How many components are of just these parts. */
  function Made(components: seq<seq<string>>, parts: set<string>): nat {
    if components == [] then 0
    else
      var last := components[|components| - 1];
      Made(components[..|components| - 1], parts) + if (set x | x in last) == parts then 1 else 0
  }

  /** How many exceptions allow just these parts to be apart from the rest. */
  function Allowing(exceptions: seq<PartException>, parts: set<string>): nat {
    if exceptions == [] then 0
    else
      var last := exceptions[|exceptions| - 1];
      Allowing(exceptions[..|exceptions| - 1], parts)
      + if last.rule == "disconnected-component" && (set x | x in last.parts) == parts then 1 else 0
  }

  /** Set by set of parts: exceptions allow as many components as they are, and nothing else does. */
  ghost predicate GeometryAccount(
    books: Books<seq<string>, PartException, set<string>>, components: seq<seq<string>>,
    exceptions: seq<PartException>, parts: set<string>)
  {
    var n, e := Made(components, parts), Allowing(exceptions, parts);
    var allowed := if n < e then n else e;
    && Made(Firsts(books.acknowledged), parts) == allowed && Made(books.unacknowledged, parts) == n - allowed
    && Allowing(books.remainingExceptions, parts) == e - allowed
  }

  lemma {:induction false} MadeByKey(s: seq<seq<string>>, parts: set<string>)
    ensures CountOf(s, PartSet, parts) == Made(s, parts)
    decreases |s|
  {
    if s == [] {
      assert Keys(s, PartSet) == [];
    } else {
      var init, last := s[..|s| - 1], s[|s| - 1];
      assert s == init + [last];
      MadeByKey(init, parts);
      CountPush(init, last, PartSet, parts);
    }
  }

  lemma {:induction false} AllowingByKey(s: seq<PartException>, parts: set<string>)
    requires forall e :: e in s ==> e.rule == DISCONNECTED
    ensures CountOf(s, ExceptionPartSet, Some(parts)) == Allowing(s, parts)
    decreases |s|
  {
    if s == [] {
      assert Keys(s, ExceptionPartSet) == [];
    } else {
      var init, last := s[..|s| - 1], s[|s| - 1];
      assert s == init + [last];
      AllowingByKey(init, parts);
      CountPush(init, last, ExceptionPartSet, Some(parts));
    }
  }

  lemma AllowingLast(s: seq<PartException>, e: PartException, parts: set<string>)
    ensures Allowing(s + [e], parts)
            == Allowing(s, parts) + if e.rule == DISCONNECTED && (set x | x in e.parts) == parts then 1 else 0
  {
    assert (s + [e])[..|s|] == s;
  }

  lemma AllowingNone(parts: set<string>)
    ensures Allowing([], parts) == 0 && WithRule([], DISCONNECTED) == []
  {
  }

  lemma {:induction false} AllowingHaveTheRule(s: seq<PartException>, parts: set<string>)
    ensures Allowing(WithRule(s, DISCONNECTED), parts) == Allowing(s, parts)
    decreases |s|
  {
    hide Allowing, WithRule;
    AllowingNone(parts);
    if s != [] {
      var init, last := s[..|s| - 1], s[|s| - 1];
      AllowingHaveTheRule(init, parts);
      AllowingLast(init, last, parts);
      AllowingLast(WithRule(init, DISCONNECTED), last, parts);
      WithRuleLast(init, last, DISCONNECTED);
      assert s == init + [last];
    }
  }

  lemma GeometryAccounts(
      books: Books<seq<string>, PartException, set<string>>, components: seq<seq<string>>,
      exceptions: seq<PartException>, parts: set<string>)
    requires AllBalanced(books, components, WithRule(exceptions, DISCONNECTED), [], PartSet, ExceptionPartSet)
    requires forall e :: e in books.remainingExceptions ==> e in WithRule(exceptions, DISCONNECTED)
    ensures GeometryAccount(books, components, exceptions, parts)
  {
    var relevant := WithRule(exceptions, DISCONNECTED);
    WithRuleKeeps(exceptions, DISCONNECTED);
    assert Balanced(books, components, relevant, [], PartSet, ExceptionPartSet, parts);
    MadeByKey(components, parts);
    MadeByKey(Firsts(books.acknowledged), parts);
    MadeByKey(books.unacknowledged, parts);
    AllowingByKey(relevant, parts);
    AllowingByKey(books.remainingExceptions, parts);
    AllowingHaveTheRule(exceptions, parts);
    hide CountOf, WithRule, Allowing, Made, AllBalanced, Firsts, Seconds, PartSet;
  }

  /** `components` are the parts of each issue; neither they nor the exceptions repeat a part. */
  method EvaluateFigureGeometry(components: seq<seq<string>>, exceptions: seq<PartException>)
    returns (books: Books<seq<string>, PartException, set<string>>)
    requires forall c :: c in components ==> NoDuplicates(c)
    requires forall e :: e in exceptions ==> NoDuplicates(e.parts)
    ensures books.baseline == [] && books.remainingBaseline == []
    ensures AllBalanced(books, components, WithRule(exceptions, DISCONNECTED), [], PartSet, ExceptionPartSet)
    ensures forall parts :: GeometryAccount(books, components, exceptions, parts)
  {
    var relevant := WithRule(exceptions, DISCONNECTED);
    WithRuleKeeps(exceptions, DISCONNECTED);
    var matches := (e: PartException, c: seq<string>) => SamePartSet(e.parts, c);
    books := Reconcile(components, relevant, [], matches, PartSet);
    NoBaseline(components, relevant, matches, PartSet);
    forall e, c | e in relevant && c in components ensures matches(e, c) <==> ExceptionPartSet(e) == Some(PartSet(c)) {
      SamePartSetIsSetEquality(e.parts, c);
    }
    EveryKeyBalances(components, relevant, [], matches, PartSet, ExceptionPartSet);
    RemainingAreAuthored(components, relevant, [], matches, PartSet);
    hide AllBalanced, GeometryAccount, WithRule;
    forall parts ensures GeometryAccount(books, components, exceptions, parts) {
      GeometryAccounts(books, components, exceptions, parts);
    }
  }

  lemma {:induction false} NoBaseline<I, E, K>(issues: seq<I>, exceptions: seq<E>, matches: (E, I) -> bool, key: I -> K)
    ensures var books := Reconciled(issues, exceptions, [], matches, key);
            books.baseline == [] && books.remainingBaseline == []
    decreases |issues|
  {
    if issues != [] {
      hide FindException, FindKey;
      NoBaseline(issues[..|issues| - 1], exceptions, matches, key);
    }
  }
}

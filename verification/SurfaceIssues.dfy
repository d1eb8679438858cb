/** Collecting surface issues by key over all poses: how often each occurs, and the worst pose it occurs in. */
module SurfaceIssues {
  import opened Outcomes

  datatype Issue = Issue(
    rule: string, faces: string, pose: string, gap: real, requiredMargin: Option<real>, overlapRatio: real,
    occurrences: nat)

  datatype Slack = Finite(value: real) | Infinite

  /** How much of the required margin an issue leaves; without one, infinitely much. */
  function MarginSlack(issue: Issue): Slack {
    if issue.requiredMargin.None? then Infinite else Finite(issue.gap - issue.requiredMargin.value)
  }

  predicate Less(a: Slack, b: Slack) {
    a.Finite? && (b.Infinite? || a.value < b.value)
  }

  /** Less slack is worse; at equal slack, more overlap is worse. */
  predicate Worse(next: Issue, current: Issue) {
    Less(MarginSlack(next), MarginSlack(current))
    || (MarginSlack(next) == MarginSlack(current) && next.overlapRatio > current.overlapRatio)
  }

  /** The pose and the measures of one issue under the identity and count of another. */
  function Measured(current: Issue, issue: Issue, occurrences: nat): Issue {
    Issue(current.rule, current.faces, issue.pose, issue.gap, issue.requiredMargin, issue.overlapRatio, occurrences)
  }

  class IssueLog {
    var issues: map<string, Issue>

    constructor ()
      ensures issues == map[]
    {
      issues := map[];
    }

    method RecordIssue(key: string, issue: Issue)
      modifies this
      ensures issues == Recorded(old(issues), key, issue)
    {
      if key !in issues {
        issues := issues[key := issue];
        return;
      }
      var current := issues[key];
      current := current.(occurrences := current.occurrences + 1);
      if Less(MarginSlack(issue), MarginSlack(current))
         || (MarginSlack(issue) == MarginSlack(current) && issue.overlapRatio > current.overlapRatio) {
        current := current.(pose := issue.pose, gap := issue.gap, requiredMargin := issue.requiredMargin,
            overlapRatio := issue.overlapRatio);
      } else if current.requiredMargin.None? && issue.requiredMargin.None?
        && issue.overlapRatio > current.overlapRatio {
        current := current.(pose := issue.pose, gap := issue.gap, overlapRatio := issue.overlapRatio);
      }
      issues := issues[key := current];
    }

    method RecordAll(reports: seq<(string, Issue)>)
      modifies this
      ensures issues == RecordedAll(old(issues), reports)
    {
      for i := 0 to |reports|
        invariant issues == RecordedAll(old(issues), reports[..i])
      {
        assert reports[..i + 1][..i] == reports[..i];
        RecordIssue(reports[i].0, reports[i].1);
      }
      assert reports[..|reports|] == reports;
    }
  }

  function Recorded(issues: map<string, Issue>, key: string, issue: Issue): map<string, Issue> {
    if key !in issues then issues[key := issue]
    else
      var current := issues[key];
      issues[key := Measured(current, if Worse(issue, current) then issue else current, current.occurrences + 1)]
  }

  function RecordedAll(issues: map<string, Issue>, reports: seq<(string, Issue)>): map<string, Issue> {
    if reports == [] then issues
    else
      var n := |reports| - 1;
      Recorded(RecordedAll(issues, reports[..n]), reports[n].0, reports[n].1)
  }

  // ---------------------------------------------------------------------------------------------
  // What the log says about a list of reports
  // ---------------------------------------------------------------------------------------------

  /** The reports under one key, in order. */
  function Under(reports: seq<(string, Issue)>, key: string): (found: seq<Issue>)
    ensures forall i :: 0 <= i < |found| ==> (key, found[i]) in reports
  {
    if reports == [] then []
    else
      var n := |reports| - 1;
      Under(reports[..n], key) + if reports[n].0 == key then [reports[n].1] else []
  }

  /** The first of the worst reports. */
  ghost predicate FirstWorst(found: seq<Issue>, k: nat) {
    k < |found| && (forall i :: 0 <= i < |found| ==> !Worse(found[i], found[k]))
    && (forall i :: 0 <= i < k ==> Worse(found[k], found[i]))
  }

  ghost predicate Summarises(entry: Issue, found: seq<Issue>) {
    && found != [] && entry.occurrences == |found|
    && entry.rule == found[0].rule && entry.faces == found[0].faces
    && exists k: nat ::
         && FirstWorst(found, k) && entry == Measured(found[0], found[k], |found|)
         && entry.pose == found[k].pose && entry.gap == found[k].gap
         && entry.requiredMargin == found[k].requiredMargin && entry.overlapRatio == found[k].overlapRatio
  }

  /**
   * Worse is to leave less of a required margin; or as little of it, or none required of either, and to overlap more.
   * An issue with a required margin is always worse than one without.
   */
  lemma WorseIff(a: Issue, b: Issue)
    ensures Worse(a, b) <==>
              match (a.requiredMargin, b.requiredMargin)
              case (Some(m), Some(n)) =>
                a.gap - m < b.gap - n || (a.gap - m == b.gap - n && a.overlapRatio > b.overlapRatio)
              case (Some(_), None) => true
              case (None, Some(_)) => false
              case (None, None) => a.overlapRatio > b.overlapRatio
  {
  }

  lemma WorseIsAnOrder(a: Issue, b: Issue, c: Issue)
    ensures !Worse(a, a)
    ensures Worse(a, b) && Worse(b, c) ==> Worse(a, c)
    ensures Worse(a, b) && !Worse(c, b) ==> Worse(a, c)
    ensures !Worse(b, a) && Worse(c, a) ==> Worse(c, b)
  {
  }

  lemma FirstWorstNext(found: seq<Issue>, k: nat, next: Issue)
    requires FirstWorst(found, k)
    ensures FirstWorst(found + [next], if Worse(next, found[k]) then |found| else k)
  {
    var all := found + [next];
    forall i | 0 <= i < |found|
      ensures Worse(next, found[k]) ==> !Worse(found[i], next) && Worse(next, found[i])
    {
      WorseIsAnOrder(next, found[k], found[i]);
      WorseIsAnOrder(found[i], found[k], next);
    }
    WorseIsAnOrder(next, next, next);
    hide Worse;
    assert forall i :: 0 <= i < |found| ==> all[i] == found[i];
  }

  /**
   * The log of any reports that each count once: a key is in it exactly if it was reported, with the number of its
   * reports, the rule and faces of the first, and the pose and measures of the first of the worst.
   */
  lemma {:induction false} LogSummarisesReports(reports: seq<(string, Issue)>, key: string)
    requires forall i :: 0 <= i < |reports| ==> reports[i].1.occurrences == 1
    ensures key in RecordedAll(map[], reports) <==> Under(reports, key) != []
    ensures key in RecordedAll(map[], reports) ==> Summarises(RecordedAll(map[], reports)[key], Under(reports, key))
    decreases |reports|
  {
    hide RecordedAll, Under, Worse, Measured, Summarises, Recorded;
    if reports == [] {
      NoReports(key);
    } else {
      var n := |reports| - 1;
      LogSummarisesReports(reports[..n], key);
      LastReport(reports, key);
      RecordedAt(RecordedAll(map[], reports[..n]), reports[n].0, reports[n].1, key);
      if reports[n].0 == key {
        var found, next := Under(reports[..n], key), reports[n].1;
        if found == [] {
          AloneIsWorst(next);
          assert found + [next] == [next];
        } else {
          SummaryStep(RecordedAll(map[], reports[..n])[key], found, next);
        }
      }
    }
  }

  lemma RecordedAt(issues: map<string, Issue>, k: string, issue: Issue, key: string)
    ensures var r := Recorded(issues, k, issue);
            && (key in r <==> key == k || key in issues)
            && (key != k && key in issues ==> r[key] == issues[key])
            && (key == k && key !in issues ==> r[key] == issue)
            && (key == k && key in issues ==>
                  r[key] == Measured(issues[key],
                              if Worse(issue, issues[key]) then issue else issues[key], issues[key].occurrences + 1))
  {
    hide Worse, Measured;
  }

  lemma NoReports(key: string)
    ensures RecordedAll(map[], []) == map[] && Under([], key) == []
  {
  }

  lemma SummaryStep(entry: Issue, found: seq<Issue>, next: Issue)
    requires Summarises(entry, found)
    ensures Summarises(Measured(entry, if Worse(next, entry) then next else entry, entry.occurrences + 1),
              found + [next])
  {
    var k: nat :| FirstWorst(found, k) && entry == Measured(found[0], found[k], |found|);
    FirstWorstNext(found, k, next);
    SameMeasures(next, found[0], found[k], |found|);
    hide FirstWorst, Worse;
    var worst := if Worse(next, found[k]) then |found| else k;
    assert FirstWorst(found + [next], worst);
    assert (found + [next])[worst] == if Worse(next, found[k]) then next else found[k];
  }

  lemma LastReport(reports: seq<(string, Issue)>, key: string)
    requires reports != []
    ensures var n := |reports| - 1;
            && RecordedAll(map[], reports) == Recorded(RecordedAll(map[], reports[..n]), reports[n].0, reports[n].1)
            && Under(reports, key)
               == if reports[n].0 == key then Under(reports[..n], key) + [reports[n].1] else Under(reports[..n], key)
  {
    hide Recorded;
  }

  lemma AloneIsWorst(issue: Issue)
    requires issue.occurrences == 1
    ensures Summarises(issue, [issue])
  {
    WorseIsAnOrder(issue, issue, issue);
    assert FirstWorst([issue], 0);
  }

  lemma SameMeasures(next: Issue, first: Issue, worst: Issue, n: nat)
    ensures Worse(next, Measured(first, worst, n)) == Worse(next, worst)
  {
  }
}

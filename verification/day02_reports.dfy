/** Day 2: a report (a row of levels) is safe when it moves in one direction
    by steps of 1 to 3. Challenge 2 also accepts a report that becomes safe
    after removing a single level. */
module Reports {
  import opened Numbers

  type Report = seq<int>

  ghost predicate Increasing(r: Report)
  {
    forall i :: 1 <= i < |r| ==> r[i - 1] < r[i]
  }

  ghost predicate Decreasing(r: Report)
  {
    forall i :: 1 <= i < |r| ==> r[i - 1] > r[i]
  }

  ghost predicate GentleSteps(r: Report)
  {
    forall i :: 1 <= i < |r| ==> 1 <= Abs(r[i] - r[i - 1]) <= 3
  }

  /** Challenge 1's notion of safety. */
  ghost predicate Safe(r: Report)
  {
    (Increasing(r) || Decreasing(r)) && GentleSteps(r)
  }

  // ---------------------------------------------------------------------
  // Challenge 1

  /** isAlwaysIncreasing. */
  method IsAlwaysIncreasing(report: Report) returns (b: bool)
    ensures b <==> Increasing(report)
  {
    var i := 1;
    while i < |report|
      invariant 1 <= i
      invariant forall k :: 1 <= k < i && k < |report| ==> report[k - 1] < report[k]
    {
      if report[i] <= report[i - 1] {
        return false;
      }
      i := i + 1;
    }
    return true;
  }

  /** isAlwaysDecreasing. */
  method IsAlwaysDecreasing(report: Report) returns (b: bool)
    ensures b <==> Decreasing(report)
  {
    var i := 1;
    while i < |report|
      invariant 1 <= i
      invariant forall k :: 1 <= k < i && k < |report| ==> report[k - 1] > report[k]
    {
      if report[i] >= report[i - 1] {
        return false;
      }
      i := i + 1;
    }
    return true;
  }

  /** reportHasNoBigOrSmallJumps. */
  method ReportHasNoBigOrSmallJumps(report: Report) returns (b: bool)
    ensures b <==> GentleSteps(report)
  {
    var i := 1;
    while i < |report|
      invariant 1 <= i
      invariant forall k :: 1 <= k < i && k < |report| ==> 1 <= Abs(report[k] - report[k - 1]) <= 3
    {
      var diff := Abs(report[i] - report[i - 1]);
      if diff > 3 || diff < 1 {
        return false;
      }
      i := i + 1;
    }
    return true;
  }

  /** reportIsSafe: a consistent direction and no bad jump. */
  method ReportIsSafe(report: Report) returns (b: bool)
    ensures b <==> Safe(report)
  {
    var dec := IsAlwaysDecreasing(report);
    var inc := IsAlwaysIncreasing(report);
    var gentle := ReportHasNoBigOrSmallJumps(report);
    b := (dec || inc) && gentle;
  }

  function Reverse(r: Report): (s: Report)
    ensures |s| == |r|
    ensures forall i :: 0 <= i < |r| ==> s[i] == r[|r| - 1 - i]
  {
    if |r| == 0 then [] else Reverse(r[1..]) + [r[0]]
  }

  /** Reading a report backwards keeps it safe (and unsafe). */
  lemma ReverseKeepsSafety(r: Report)
    ensures Safe(Reverse(r)) <==> Safe(r)
  {
    ReverseSwapsDirection(r);
    ReverseKeepsSteps(r);
  }

  lemma ReverseSwapsDirection(r: Report)
    ensures Increasing(Reverse(r)) <==> Decreasing(r)
    ensures Decreasing(Reverse(r)) <==> Increasing(r)
  {
    var s := Reverse(r);
    if Increasing(s) {
      forall i | 1 <= i < |r| ensures r[i - 1] > r[i] {
        assert s[|r| - i] == r[i - 1] && s[|r| - i - 1] == r[i];
      }
    }
    if Decreasing(r) {
      forall i | 1 <= i < |s| ensures s[i - 1] < s[i] {
        assert s[i] == r[|r| - 1 - i] && s[i - 1] == r[|r| - i];
      }
    }
    if Decreasing(s) {
      forall i | 1 <= i < |r| ensures r[i - 1] < r[i] {
        assert s[|r| - i] == r[i - 1] && s[|r| - i - 1] == r[i];
      }
    }
    if Increasing(r) {
      forall i | 1 <= i < |s| ensures s[i - 1] > s[i] {
        assert s[i] == r[|r| - 1 - i] && s[i - 1] == r[|r| - i];
      }
    }
  }

  lemma ReverseKeepsSteps(r: Report)
    ensures GentleSteps(Reverse(r)) <==> GentleSteps(r)
  {
    var s := Reverse(r);
    if GentleSteps(s) {
      forall i | 1 <= i < |r| ensures 1 <= Abs(r[i] - r[i - 1]) <= 3 {
        assert s[|r| - i] == r[i - 1] && s[|r| - i - 1] == r[i];
      }
    }
    if GentleSteps(r) {
      forall i | 1 <= i < |s| ensures 1 <= Abs(s[i] - s[i - 1]) <= 3 {
        assert s[i] == r[|r| - 1 - i] && s[i - 1] == r[|r| - i];
      }
    }
  }

  /** Number of reports satisfying challenge 1's safety. */
  ghost function CountSafe(reports: seq<Report>): nat
  {
    if |reports| == 0 then 0
    else (if Safe(reports[0]) then 1 else 0) + CountSafe(reports[1..])
  }

  lemma {:induction false} CountSafeBound(reports: seq<Report>)
    ensures CountSafe(reports) <= |reports|
  {
    if |reports| > 0 {
      CountSafeBound(reports[1..]);
    }
  }

  lemma {:induction false} CountSafeSnoc(reports: seq<Report>, r: Report)
    ensures CountSafe(reports + [r]) == CountSafe(reports) + (if Safe(r) then 1 else 0)
  {
    if |reports| > 0 {
      assert (reports + [r])[1..] == reports[1..] + [r];
      CountSafeSnoc(reports[1..], r);
    }
  }

  /** getSafeReports (challenge 1). */
  method GetSafeReports(reports: seq<Report>) returns (n: nat)
    ensures n == CountSafe(reports)
    ensures n <= |reports|
  {
    n := 0;
    var i := 0;
    while i < |reports|
      invariant 0 <= i <= |reports|
      invariant n == CountSafe(reports[..i])
    {
      var safe := ReportIsSafe(reports[i]);
      assert reports[..i + 1] == reports[..i] + [reports[i]];
      CountSafeSnoc(reports[..i], reports[i]);
      if safe {
        n := n + 1;
      }
      i := i + 1;
    }
    assert reports[..i] == reports;
    CountSafeBound(reports);
  }

  // ---------------------------------------------------------------------
  // Challenge 2

  function WithoutIndexFrom(r: Report, index: int, offset: int): Report
  {
    if |r| == 0 then []
    else (if offset == index then [] else [r[0]]) + WithoutIndexFrom(r[1..], index, offset + 1)
  }

  lemma {:induction false} WithoutIndexFromShape(r: Report, index: int, offset: int)
    ensures offset <= index < offset + |r| ==>
              WithoutIndexFrom(r, index, offset) == r[..index - offset] + r[index - offset + 1..]
    ensures !(offset <= index < offset + |r|) ==> WithoutIndexFrom(r, index, offset) == r
  {
    if |r| > 0 {
      WithoutIndexFromShape(r[1..], index, offset + 1);
      if offset == index {
        assert r[..0] + r[1..] == r[1..];
      } else if offset <= index < offset + |r| {
        DropInside(r, index - offset);
      } else {
        assert r == [r[0]] + r[1..];
      }
    }
  }

  /** Dropping position `k > 0` keeps the head in front. */
  lemma DropInside(r: Report, k: int)
    requires 0 < k < |r|
    ensures [r[0]] + (r[1..][..k - 1] + r[1..][k..]) == r[..k] + r[k + 1..]
  {
    assert r[..k] == [r[0]] + r[1..][..k - 1];
    assert r[k + 1..] == r[1..][k..];
  }

  /** reportWithoutIndex: `filter((_, i) => i !== index)`. */
  function ReportWithoutIndex(r: Report, index: int): (s: Report)
    ensures 0 <= index < |r| ==> s == r[..index] + r[index + 1..] && |s| == |r| - 1
    ensures !(0 <= index < |r|) ==> s == r
  {
    WithoutIndexFromShape(r, index, 0);
    WithoutIndexFrom(r, index, 0)
  }

  /** What the strict pass (`canTolerateBadValue = false`) of challenge 2
      accepts. The direction is fixed by the first two levels; `report[1]`
      and `report[0]` are both `undefined` on an empty report (equal, so
      unsafe) and a one-level report has no step to fail. */
  ghost predicate StrictSafe(r: Report)
  {
    if |r| == 0 then false
    else if |r| == 1 then true
    else
      r[1] != r[0] &&
      forall k :: 1 <= k < |r| ==>
        1 <= Abs(r[k] - r[k - 1]) <= 3 &&
        (r[1] > r[0] ==> r[k] >= r[k - 1]) &&
        (r[1] < r[0] ==> r[k] <= r[k - 1])
  }

  /** Safe after removing at most one level. */
  ghost predicate TolerantSafe(r: Report)
  {
    StrictSafe(r) || exists i :: 0 <= i < |r| && StrictSafe(ReportWithoutIndex(r, i))
  }

  /** The strict pass agrees with challenge 1 on every non-empty report. */
  lemma StrictSafeIsSafe(r: Report)
    requires |r| >= 1
    ensures StrictSafe(r) <==> Safe(r)
  {
    if |r| >= 2 {
      if StrictSafe(r) {
        if r[1] > r[0] {
          assert Increasing(r);
        } else {
          assert Decreasing(r);
        }
      }
      if Safe(r) {
        assert r[1] != r[0];
        if Increasing(r) {
          assert r[1] > r[0];
        } else {
          assert r[1] < r[0];
        }
      }
    }
  }

  /** An empty report is where the two challenges part: challenge 1 calls
      it safe, the strict pass of challenge 2 does not. */
  lemma EmptyReportDisagrees()
    ensures Safe([]) && !StrictSafe([])
  {
  }

  /** testReportWithoutIndexes: does removing some single level make the
      report strictly safe? */
  method TestReportWithoutIndexes(report: Report) returns (found: bool)
    ensures found <==> exists i :: 0 <= i < |report| && StrictSafe(ReportWithoutIndex(report, i))
    decreases 1
  {
    var i := 0;
    while i < |report|
      invariant 0 <= i <= |report|
      invariant forall k :: 0 <= k < i ==> !StrictSafe(ReportWithoutIndex(report, k))
    {
      var ok := ReportIsSafeTolerant(ReportWithoutIndex(report, i), false);
      if ok {
        return true;
      }
      i := i + 1;
    }
    return false;
  }

  /** reportIsSafe (challenge 2). With `canTolerateBadValue` set, a report
      failing the strict pass gets the single-removal retry; the retry itself
      passes `false`, so at most one level is ever removed. */
  method ReportIsSafeTolerant(report: Report, canTolerateBadValue: bool) returns (safe: bool)
    ensures !canTolerateBadValue ==> (safe <==> StrictSafe(report))
    ensures canTolerateBadValue ==> (safe <==> TolerantSafe(report))
    ensures canTolerateBadValue && StrictSafe(report) ==> safe
    decreases if canTolerateBadValue then 2 else 0
  {
    if |report| == 0 || (|report| >= 2 && report[1] == report[0]) {
      if canTolerateBadValue {
        safe := TestReportWithoutIndexes(report);
      } else {
        safe := false;
      }
      return;
    }
    var isIncreasing := |report| >= 2 && report[1] > report[0];
    var isDecreasing := |report| >= 2 && report[1] < report[0];
    var i := 1;
    while i < |report|
      invariant 1 <= i <= |report|
      invariant |report| >= 2 ==> isIncreasing == (report[1] > report[0]) && isDecreasing == (report[1] < report[0])
      invariant forall k :: 1 <= k < i ==>
        1 <= Abs(report[k] - report[k - 1]) <= 3 &&
        (isIncreasing ==> report[k] >= report[k - 1]) &&
        (isDecreasing ==> report[k] <= report[k - 1])
    {
      var diff := Abs(report[i] - report[i - 1]);
      if diff > 3 || diff < 1 || (isIncreasing && report[i] < report[i - 1]) || (isDecreasing && report[i] > report[i - 1]) {
        assert !StrictSafe(report);
        if canTolerateBadValue {
          safe := TestReportWithoutIndexes(report);
        } else {
          safe := false;
        }
        return;
      }
      i := i + 1;
    }
    safe := true;
  }

  ghost function CountTolerant(reports: seq<Report>): nat
  {
    if |reports| == 0 then 0
    else (if TolerantSafe(reports[0]) then 1 else 0) + CountTolerant(reports[1..])
  }

  lemma {:induction false} CountTolerantSnoc(reports: seq<Report>, r: Report)
    ensures CountTolerant(reports + [r]) == CountTolerant(reports) + (if TolerantSafe(r) then 1 else 0)
  {
    if |reports| > 0 {
      assert (reports + [r])[1..] == reports[1..] + [r];
      CountTolerantSnoc(reports[1..], r);
    }
  }

  /** getSafeReports (challenge 2). */
  method GetTolerantSafeReports(reports: seq<Report>) returns (n: nat)
    ensures n == CountTolerant(reports)
    ensures n <= |reports|
  {
    n := 0;
    var i := 0;
    while i < |reports|
      invariant 0 <= i <= |reports|
      invariant n == CountTolerant(reports[..i])
      invariant n <= i
    {
      var safe := ReportIsSafeTolerant(reports[i], true);
      assert reports[..i + 1] == reports[..i] + [reports[i]];
      CountTolerantSnoc(reports[..i], reports[i]);
      if safe {
        n := n + 1;
      }
      i := i + 1;
    }
    assert reports[..i] == reports;
  }
}

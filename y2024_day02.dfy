/** Reactor reports: a report is safe when its levels move strictly in one
    direction by 1 to 3 at each step; the problem dampener tolerates one bad
    level. */
module Y2024Day02 {

  /** `is_sorted_by(|a, b| a > b)`: every adjacent pair falls. */
  function SortedDescending(report: seq<int>): bool {
    if |report| < 2 then true
    else SortedDescending(report[..|report| - 1]) && report[|report| - 2] > report[|report| - 1]
  }

  /** `is_sorted_by(|a, b| a < b)`: every adjacent pair rises. */
  function SortedAscending(report: seq<int>): bool {
    if |report| < 2 then true
    else SortedAscending(report[..|report| - 1]) && report[|report| - 2] < report[|report| - 1]
  }

  /** `abs_diff` of two neighbours lies in `1..=3`. */
  predicate Close(a: int, b: int) {
    var d := if a >= b then a - b else b - a;
    1 <= d <= 3
  }

  /** The fold over `windows(2)`: every adjacent pair is close. */
  function NeighboursClose(report: seq<int>): bool {
    if |report| < 2 then true
    else NeighboursClose(report[..|report| - 1]) && Close(report[|report| - 2], report[|report| - 1])
  }

  /** Rule 1, stated over positions. */
  predicate Monotone(report: seq<int>) {
    (forall i :: 0 <= i < |report| - 1 ==> report[i] > report[i + 1])
    || (forall i :: 0 <= i < |report| - 1 ==> report[i] < report[i + 1])
  }

  /** Rule 2, stated over positions. */
  predicate Gentle(report: seq<int>) {
    forall i :: 0 <= i < |report| - 1 ==> Close(report[i], report[i + 1])
  }

  /** The folds check rule 1 and rule 2 at every position. */
  lemma {:induction false} FoldsCheckRules(report: seq<int>)
    ensures SortedDescending(report) <==> forall i :: 0 <= i < |report| - 1 ==> report[i] > report[i + 1]
    ensures SortedAscending(report) <==> forall i :: 0 <= i < |report| - 1 ==> report[i] < report[i + 1]
    ensures NeighboursClose(report) <==> Gentle(report)
  {
    DescendingFold(report);
    AscendingFold(report);
    CloseFold(report);
  }

  lemma {:induction false} DescendingFold(report: seq<int>)
    ensures SortedDescending(report) <==> forall i :: 0 <= i < |report| - 1 ==> report[i] > report[i + 1]
  {
    if |report| >= 2 {
      var init := report[..|report| - 1];
      DescendingFold(init);
      assert forall i :: 0 <= i < |init| ==> init[i] == report[i];
    }
  }

  lemma {:induction false} AscendingFold(report: seq<int>)
    ensures SortedAscending(report) <==> forall i :: 0 <= i < |report| - 1 ==> report[i] < report[i + 1]
  {
    if |report| >= 2 {
      var init := report[..|report| - 1];
      AscendingFold(init);
      assert forall i :: 0 <= i < |init| ==> init[i] == report[i];
    }
  }

  lemma {:induction false} CloseFold(report: seq<int>)
    ensures NeighboursClose(report) <==> Gentle(report)
  {
    if |report| >= 2 {
      var init := report[..|report| - 1];
      CloseFold(init);
      assert forall i :: 0 <= i < |init| ==> init[i] == report[i];
    }
  }

  /** `safety_check`: rule 1 and rule 2 hold, or the dampener (when in use)
      finds a level whose removal makes the report safe. */
  function SafetyCheck(report: seq<int>, useDampener: bool): bool
    decreases |report|, if useDampener then 1 else 0
  {
    var rule1 := SortedDescending(report) || SortedAscending(report);
    var rule2 := NeighboursClose(report);
    var resolved := if !(rule1 && rule2) && useDampener then ProblemDampener(report) else false;
    (rule1 && rule2) || resolved
  }

  /** The report without the level at `i` (`Vec::remove`). */
  function Without(report: seq<int>, i: nat): (r: seq<int>)
    requires i < |report|
    ensures |r| == |report| - 1
  {
    report[..i] + report[i + 1..]
  }

  /** How many of the first `n` single-level removals leave a safe report. */
  function SafeRemovals(report: seq<int>, n: nat): nat
    requires n <= |report|
    decreases |report|, 0, n
  {
    if n == 0 then 0
    else SafeRemovals(report, n - 1) + (if SafetyCheck(Without(report, n - 1), false) then 1 else 0)
  }

  /** `problem_dampener`: some removal of one level gives a safe report. */
  function ProblemDampener(report: seq<int>): bool
    decreases |report|, 0, |report| + 1
  {
    SafeRemovals(report, |report|) > 0
  }

  /** The count is positive exactly when some removal is safe. */
  lemma {:induction false} SafeRemovalsPositive(report: seq<int>, n: nat)
    requires n <= |report|
    ensures SafeRemovals(report, n) > 0 <==> exists i :: 0 <= i < n && SafetyCheck(Without(report, i), false)
  {
    if n > 0 {
      SafeRemovalsPositive(report, n - 1);
    }
  }

  /** Without the dampener a report is safe exactly when both rules hold, so
      reports of fewer than two levels are safe. */
  lemma SafeIffRules(report: seq<int>)
    ensures SafetyCheck(report, false) <==> Monotone(report) && Gentle(report)
    ensures |report| < 2 ==> SafetyCheck(report, false)
  {
    FoldsCheckRules(report);
  }

  /** With the dampener a report is safe exactly when it is safe already or
      safe after removing one level; the dampener only adds safe reports. */
  lemma DampenedIff(report: seq<int>)
    ensures SafetyCheck(report, true) <==>
      SafetyCheck(report, false) || exists i :: 0 <= i < |report| && SafetyCheck(Without(report, i), false)
    ensures SafetyCheck(report, false) ==> SafetyCheck(report, true)
  {
    SafeRemovalsPositive(report, |report|);
  }
}

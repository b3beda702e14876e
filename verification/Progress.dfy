/** `calcAverageProgress`: the average task progress shown for a project. */
module Progress {
  import opened Wrappers
  import opened Entities

  /** `Number(t.progress || 0)`: a missing progress counts as 0. */
  function ProgressValue(t: Task): (v: int)
    ensures t.progress.None? ==> v == 0
    ensures t.progress.Some? ==> v == t.progress.value
  {
    t.progress.GetOr(0)
  }

  /** The `reduce` over the tasks, adding progress values from the left. */
  function SumProgress(tasks: seq<Task>): (s: int)
    ensures (forall k :: 0 <= k < |tasks| ==> tasks[k].progress.None?) ==> s == 0
  {
    if tasks == [] then 0
    else SumProgress(tasks[..|tasks| - 1]) + ProgressValue(tasks[|tasks| - 1])
  }

  /**
   * 0 for an absent or empty list, otherwise `Math.round(sum / n)`: the mean
   * rounded to the nearest integer, halves rounded up.
   */
  function CalcAverageProgress(tasks: Option<seq<Task>>): (r: int)
    ensures tasks.None? || tasks.value == [] ==> r == 0
    ensures tasks.Some? && tasks.value != [] ==>
      var n, sum := |tasks.value|, SumProgress(tasks.value);
      n * (2 * r - 1) <= 2 * sum < n * (2 * r + 1)
  {
    if tasks.None? || tasks.value == [] then 0
    else
      var n, sum := |tasks.value|, SumProgress(tasks.value);
      RoundedQuotient(sum, n)
  }

  /** floor(sum / n + 1/2), the `Math.round` of the quotient, in integers. */
  function RoundedQuotient(sum: int, n: int): (r: int)
    requires n > 0
    ensures n * (2 * r - 1) <= 2 * sum < n * (2 * r + 1)
  {
    var r := (2 * sum + n) / (2 * n);
    assert 2 * n * r <= 2 * sum + n < 2 * n * r + 2 * n;
    r
  }

  predicate InPercentRange(t: Task) {
    t.progress.Some? ==> 0 <= t.progress.value <= 100
  }

  lemma {:induction false} SumProgressBounds(tasks: seq<Task>)
    requires forall k :: 0 <= k < |tasks| ==> InPercentRange(tasks[k])
    ensures 0 <= SumProgress(tasks) <= 100 * |tasks|
  {
    if tasks != [] {
      SumProgressBounds(tasks[..|tasks| - 1]);
      assert InPercentRange(tasks[|tasks| - 1]);
    }
  }

  /** When every progress is a percentage, so is the average. */
  lemma AverageIsPercentage(tasks: Option<seq<Task>>)
    requires tasks.Some? ==> forall k :: 0 <= k < |tasks.value| ==> InPercentRange(tasks.value[k])
    ensures 0 <= CalcAverageProgress(tasks) <= 100
  {
    if tasks.Some? && tasks.value != [] {
      var n, sum := |tasks.value|, SumProgress(tasks.value);
      SumProgressBounds(tasks.value);
      var r := CalcAverageProgress(tasks);
      if r < 0 {
        assert n * (2 * r + 1) <= 0 by { NonPositiveProduct(n, 2 * r + 1); }
      }
      if r > 100 {
        assert n * (2 * r - 1) >= n * 201 by { MonotoneProduct(n, 201, 2 * r - 1); }
      }
    }
  }

  lemma NonPositiveProduct(a: int, b: int)
    requires a > 0 && b <= 0
    ensures a * b <= 0
  {
  }

  lemma MonotoneProduct(a: int, b: int, c: int)
    requires a > 0 && b <= c
    ensures a * b <= a * c
  {
  }

  /** The source's example: progress 0, 50 and 100 average to 50, and no tasks to 0. */
  lemma AverageExamples()
    ensures CalcAverageProgress(Some([
      EMPTY_DRAFT.(progress := Some(0)),
      EMPTY_DRAFT.(progress := Some(50)),
      EMPTY_DRAFT.(progress := Some(100))])) == 50
    ensures CalcAverageProgress(Some([])) == 0
  {
    var ts := [EMPTY_DRAFT.(progress := Some(0)), EMPTY_DRAFT.(progress := Some(50)), EMPTY_DRAFT.(progress := Some(100))];
    assert ts[..2][..1][..0] == [];
    assert SumProgress(ts[..2][..1]) == 0;
    assert SumProgress(ts[..2]) == 50;
    assert SumProgress(ts) == 150;
  }
}

/*
 * DefaultProgressCallback: nested levels of work, each with a total and a finished step count
 * kept in two arrays indexed by level. The arrays start with five entries and grow by copying
 * when the work nests deeper.
 */
module ProgressCallbacks {
  import opened Wrappers
  import opened JavaText

  /** `n` clamped into `[lo, hi]`; below `lo` wins over above `hi`, as in `set_steps_finished`. */
  function Clamp(n: int, lo: int, hi: int): (r: int)
    ensures lo <= hi ==> lo <= r <= hi
    ensures lo <= n <= hi ==> r == n
    ensures n < lo ==> r == lo
    ensures lo <= hi < n ==> r == hi
  {
    if n < lo then lo else if n > hi then hi else n
  }

  /** Clamping twice into the same range is clamping once. */
  lemma ClampIdempotent(n: int, lo: int, hi: int)
    requires lo <= hi
    ensures Clamp(Clamp(n, lo, hi), lo, hi) == Clamp(n, lo, hi)
  {
  }

  /** A step total as `startWork` and `setStepsTotal` store it: at least one. */
  function TotalOf(count: int): (r: int)
    ensures r >= 1
    ensures count >= 1 ==> r == count
  {
    if count <= 0 then 1 else count
  }

  /** `Arrays.copyOf(a, n)` for a longer length: the old entries, then zeros. */
  method CopyOf(a: array<int>, n: nat) returns (b: array<int>)
    requires n >= a.Length
    ensures fresh(b) && b.Length == n
    ensures b[..a.Length] == a[..]
    ensures forall i :: a.Length <= i < n ==> b[i] == 0
  {
    b := new int[n];
    var i := 0;
    while i < n
      invariant 0 <= i <= n
      invariant forall j :: 0 <= j < i ==> b[j] == if j < a.Length then a[j] else 0
    {
      b[i] := if i < a.Length then a[i] else 0;
      i := i + 1;
    }
  }

  /** The loop of `startWork` that resets every level from `from` on in both arrays. */
  method ClearFrom(totals: array<int>, finished: array<int>, from: nat)
    requires totals != finished && totals.Length == finished.Length && from <= totals.Length
    modifies totals, finished
    ensures totals[..from] == old(totals[..from]) && finished[..from] == old(finished[..from])
    ensures forall j :: from <= j < totals.Length ==> totals[j] == 0 && finished[j] == 0
  {
    var i := from;
    while i < totals.Length
      invariant from <= i <= totals.Length
      invariant totals[..from] == old(totals[..from]) && finished[..from] == old(finished[..from])
      invariant forall j :: from <= j < i ==> totals[j] == 0 && finished[j] == 0
    {
      totals[i] := 0;
      finished[i] := 0;
      i := i + 1;
    }
  }

  /**
   * `fitArraySize()` for the level `level` that `startWork` opens: both arrays grow to
   * `level + 1` entries when they are too short, and are kept otherwise.
   */
  method FitArraySize(totals: array<int>, finished: array<int>, level: nat) returns (totals': array<int>, finished': array<int>)
    requires totals != finished && totals.Length == finished.Length && level <= totals.Length
    ensures totals' != finished' && totals'.Length == finished'.Length
    ensures totals'.Length == if level >= totals.Length then level + 1 else totals.Length
    ensures totals'[..totals.Length] == totals[..] && finished'[..finished.Length] == finished[..]
    ensures (totals' == totals && finished' == finished) || (fresh(totals') && fresh(finished'))
  {
    totals', finished' := totals, finished;
    if level >= totals.Length {
      var newLength := level + 1;
      totals' := CopyOf(totals, newLength);
      finished' := CopyOf(finished, newLength);
    }
  }

  /** The array writes of `startWork`: `level` gets `total` and nothing finished, deeper levels zeros. */
  method OpenLevel(totals: array<int>, finished: array<int>, level: nat, total: int)
    requires totals != finished && totals.Length == finished.Length && level < totals.Length
    modifies totals, finished
    ensures totals[..] == Opened(old(totals[..level]), total, totals.Length)
    ensures finished[..] == Opened(old(finished[..level]), 0, finished.Length)
  {
    totals[level] := total;
    finished[level] := 0;
    ghost var t := totals[..];
    ghost var f := finished[..];
    ClearFrom(totals, finished, level + 1);
    OpenedFromPrefix(old(totals[..]), t, totals[..], level, total);
    OpenedFromPrefix(old(finished[..]), f, finished[..], level, 0);
  }

  /** The first `n` levels each have a total of at least one and a finished count within it. */
  predicate LevelsValid(totals: seq<int>, finished: seq<int>, n: nat)
  {
    n <= |totals| && n <= |finished|
    && forall i :: 0 <= i < n ==> 1 <= totals[i] && IsJavaInt(totals[i]) && 0 <= finished[i] <= totals[i]
  }

  /** The array part of `startWork`: fit the arrays to `level`, then open `level` with `total`. */
  method StartLevel(totals: array<int>, finished: array<int>, level: nat, total: int)
    returns (totals': array<int>, finished': array<int>)
    requires totals != finished && totals.Length == finished.Length && level <= totals.Length
    requires LevelsValid(totals[..], finished[..], level) && 1 <= total && IsJavaInt(total)
    modifies totals, finished
    ensures totals' != finished' && totals'.Length == finished'.Length
    ensures totals'.Length == if level >= totals.Length then level + 1 else totals.Length
    ensures (totals' == totals && finished' == finished) || (fresh(totals') && fresh(finished'))
    ensures totals'[..] == Opened(old(totals[..level]), total, totals'.Length)
    ensures finished'[..] == Opened(old(finished[..level]), 0, finished'.Length)
    ensures LevelsValid(totals'[..], finished'[..], level + 1)
  {
    ghost var lowerTotals := totals[..level];
    ghost var lowerFinished := finished[..level];
    assert LevelsValid(lowerTotals, lowerFinished, level);
    totals', finished' := FitArraySize(totals, finished, level);
    OpenLevel(totals', finished', level, total);
    OpenedIsValid(lowerTotals, lowerFinished, level, total, totals'.Length);
  }

  /** A step array after `startWork` opens `level` with `value`: the lower levels, then `value`, then zeros. */
  function Opened(lower: seq<int>, value: int, len: nat): seq<int>
    requires |lower| < len
  {
    lower + [value] + Zeros(len - |lower| - 1)
  }

  /** `n` zeros, what `Arrays.copyOf` and the reset loop put in unused levels. */
  function Zeros(n: nat): (r: seq<int>)
    ensures |r| == n && forall i :: 0 <= i < n ==> r[i] == 0
  {
    if n == 0 then [] else [0] + Zeros(n - 1)
  }

  /** The three steps of `startWork` on one array produce `Opened`. */
  lemma OpenedFromPrefix(prior: seq<int>, set1: seq<int>, cleared: seq<int>, level: nat, value: int)
    requires level < |set1| == |cleared| && level <= |prior|
    requires set1[..level] == prior[..level] && set1[level] == value
    requires cleared[..level + 1] == set1[..level + 1]
    requires forall j :: level < j < |cleared| ==> cleared[j] == 0
    ensures cleared == Opened(prior[..level], value, |cleared|)
  {
    var o := Opened(prior[..level], value, |cleared|);
    forall j | 0 <= j < |cleared|
      ensures cleared[j] == o[j]
    {
      if j < level {
        assert cleared[j] == cleared[..level + 1][j] == set1[..level][j];
      } else if j == level {
        assert cleared[j] == cleared[..level + 1][j];
      }
    }
  }

  /** Opening a level keeps every open level within its bounds. */
  lemma OpenedIsValid(totals: seq<int>, finished: seq<int>, level: nat, total: int, len: nat)
    requires level < len && level <= |totals| && level <= |finished|
    requires LevelsValid(totals, finished, level)
    requires 1 <= total && IsJavaInt(total)
    ensures LevelsValid(Opened(totals[..level], total, len), Opened(finished[..level], 0, len), level + 1)
  {
    var t := Opened(totals[..level], total, len);
    var f := Opened(finished[..level], 0, len);
    assert forall i :: 0 <= i < level ==> t[i] == totals[i] && f[i] == finished[i];
  }

  /**
   * The weight of one step at level `i` in `calcPercentFromSteps`: `100 / total` at the first
   * level, in Java int division, and at each deeper level the weight above split by its total.
   */
  function Weight(totals: seq<int>, i: nat): (r: real)
    requires i < 4 <= |totals|
    ensures 0.0 <= r
  {
    if i == 0 then (if totals[0] > 0 then (100 / totals[0]) as real else 0.0)
    else if totals[i] > 0 then DivNonNegative(Weight(totals, i - 1), totals[i] as real)
    else 0.0
  }

  /** Level `i` counts when it is open and it and every level between have a positive total. */
  predicate Active(totals: seq<int>, level: int, i: nat)
    requires i < 4 <= |totals|
  {
    i == 0 || (level >= i && totals[i] > 0 && Active(totals, level, i - 1))
  }

  /** What level `i` adds: its finished steps times its weight, when it counts. */
  function Term(totals: seq<int>, finished: seq<int>, level: int, i: nat): real
    requires i < 4 <= |totals| && 4 <= |finished|
  {
    if Active(totals, level, i) then finished[i] as real * Weight(totals, i) else 0.0
  }

  /** The progress of `calcPercentFromSteps` before rounding, over the first four levels; the source computes it in `float`. */
  function StepsProgress(totals: seq<int>, finished: seq<int>, level: int): real
    requires |totals| >= 4 && |finished| >= 4
  {
    Term(totals, finished, level, 0) + Term(totals, finished, level, 1)
    + Term(totals, finished, level, 2) + Term(totals, finished, level, 3)
  }

  /** `Math.round`: the nearest integer, halves rounded up. */
  function Round(x: real): (r: int)
    ensures r as real - 0.5 <= x < r as real + 0.5
  {
    (x + 0.5).Floor
  }

  /** The percent `calcPercentFromSteps` stores for the given step arrays and work level. */
  function PercentFromSteps(totals: seq<int>, finished: seq<int>, level: int): int
    requires |totals| >= 4 && |finished| >= 4
  {
    Round(StepsProgress(totals, finished, level))
  }

  /**
   * With only the first level open the percent is exact: the finished steps times the integer
   * weight `100 / total`, so never above 100, and always 0 when the total is above 100.
   */
  lemma PercentAtFirstLevel(totals: seq<int>, finished: seq<int>)
    requires |totals| >= 4 && |finished| >= 4 && LevelsValid(totals, finished, 1)
    ensures PercentFromSteps(totals, finished, 0) == finished[0] * (100 / totals[0])
    ensures 0 <= PercentFromSteps(totals, finished, 0) <= 100
    ensures totals[0] > 100 ==> PercentFromSteps(totals, finished, 0) == 0
  {
    var t, f := totals[0], finished[0];
    var w := 100 / t;
    assert StepsProgress(totals, finished, 0) == f as real * w as real;
    ProductAsReal(f, w);
    RoundOfInt(f * w);
    WeightBound(f, t);
  }

  /** Integer multiplication carried into the reals. */
  lemma ProductAsReal(a: int, b: int)
    ensures a as real * b as real == (a * b) as real
  {
  }

  /** Rounding an integer gives it back. */
  lemma RoundOfInt(n: int)
    ensures Round(n as real) == n
  {
  }

  /** `f` steps of weight `100 / t` make at most 100 when `f <= t`, and nothing when `t > 100`. */
  lemma WeightBound(f: int, t: int)
    requires 0 <= f <= t && 1 <= t
    ensures 0 <= f * (100 / t) <= 100
    ensures t > 100 ==> f * (100 / t) == 0
  {
    var w := 100 / t;
    assert 0 <= w && t * w <= 100;
    assert f * w <= t * w by {
      MulMonotone(f, t, w);
    }
  }

  /** Multiplying by a non-negative factor keeps the order. */
  lemma MulMonotone(a: int, b: int, w: int)
    requires a <= b && 0 <= w
    ensures a * w <= b * w
  {
  }

  /** The same in the reals. */
  lemma RealMulMonotone(a: real, b: real, w: real)
    requires a <= b && 0.0 <= w
    ensures a * w <= b * w
  {
  }

  /** A finished count that grows at an open level never lowers the percent. */
  lemma PercentMonotone(totals: seq<int>, finished: seq<int>, level: int, k: nat, count: int)
    requires |totals| >= 4 && |finished| >= 4
    requires k < 4 && finished[k] <= count
    ensures PercentFromSteps(totals, finished, level) <= PercentFromSteps(totals, finished[k := count], level)
  {
    var f' := finished[k := count];
    if Active(totals, level, k) {
      RealMulMonotone(finished[k] as real, count as real, Weight(totals, k));
    }
    assert Term(totals, finished, level, k) <= Term(totals, f', level, k);
    assert forall i :: 0 <= i < 4 && i != k ==> Term(totals, finished, level, i) == Term(totals, f', level, i);
  }

  /** A non-negative real divided by a positive one, which is non-negative. */
  function DivNonNegative(a: real, b: real): (r: real)
    requires 0.0 <= a && 0.0 < b
    ensures 0.0 <= r && r * b == a
  {
    a / b
  }

  class ProgressCallback {
    var percent: int
    var workLevel: int
    var stepsTotal: array<int>
    var stepsFinished: array<int>
    var finishedFlag: bool
    var cancelFlag: bool

    /**
     * The arrays are two, equally long, with more entries than `workLevel`; every open level has
     * a total of at least one and a finished count between 0 and that total.
     */
    ghost predicate Valid()
      reads this, stepsTotal, stepsFinished
    {
      && stepsTotal != stepsFinished
      && stepsTotal.Length == stepsFinished.Length >= 5
      && -1 <= workLevel < stepsTotal.Length
      && LevelsValid(stepsTotal[..], stepsFinished[..], workLevel + 1)
    }

    constructor ()
      ensures Valid() && workLevel == -1 && percent == 0 && !finishedFlag && !cancelFlag
      ensures stepsTotal[..] == [0, 0, 0, 0, 0] && stepsFinished[..] == [0, 0, 0, 0, 0]
    {
      percent := 0;
      workLevel := -1;
      stepsTotal := new int[5](_ => 0);
      stepsFinished := new int[5](_ => 0);
      finishedFlag := false;
      cancelFlag := false;
    }

    /**
     * `startWork(steps_total)`: opens one more level with the given total (at least one) and
     * nothing finished; all deeper levels are reset; opening the first level resets the percent.
     */
    method StartWork(stepsTotalCount: int)
      requires Valid() && IsJavaInt(stepsTotalCount)
      modifies this, stepsTotal, stepsFinished
      ensures Valid() && workLevel == old(workLevel) + 1
      ensures (stepsTotal == old(stepsTotal) && stepsFinished == old(stepsFinished)) || (fresh(stepsTotal) && fresh(stepsFinished))
      ensures stepsTotal.Length == if workLevel >= old(stepsTotal.Length) then workLevel + 1 else old(stepsTotal.Length)
      ensures stepsTotal[..] == Opened(old(stepsTotal[..workLevel + 1]), TotalOf(stepsTotalCount), stepsTotal.Length)
      ensures stepsFinished[..] == Opened(old(stepsFinished[..workLevel + 1]), 0, stepsFinished.Length)
      ensures percent == if workLevel == 0 then 0 else old(percent)
      ensures finishedFlag == old(finishedFlag) && cancelFlag == old(cancelFlag)
    {
      var total := TotalOf(stepsTotalCount);
      var level := workLevel + 1;
      var totals, finished := StartLevel(stepsTotal, stepsFinished, level, total);
      workLevel, stepsTotal, stepsFinished := level, totals, finished;
      if workLevel == 0 {
        percent := 0;
      }
    }

    /** `finishWork()`: marks the current level complete and closes it; nothing when none is open. */
    method FinishWork()
      requires Valid()
      modifies this, stepsFinished
      ensures Valid() && stepsTotal == old(stepsTotal) && stepsFinished == old(stepsFinished)
      ensures old(workLevel) < 0 ==> workLevel == old(workLevel) && stepsFinished[..] == old(stepsFinished[..]) && percent == old(percent)
      ensures old(workLevel) >= 0 ==>
        workLevel == old(workLevel) - 1
        && stepsFinished[..] == old(stepsFinished[..])[old(workLevel) := stepsTotal[old(workLevel)]]
        && percent == PercentFromSteps(stepsTotal[..], stepsFinished[..], old(workLevel))
      ensures finishedFlag == old(finishedFlag) && cancelFlag == old(cancelFlag)
    {
      if workLevel >= 0 {
        stepsFinished[workLevel] := stepsTotal[workLevel];
        CalcPercentFromSteps();
        workLevel := workLevel - 1;
      }
    }

    /** `calcPercentFromSteps()`: the percent from the step counts of the open levels. */
    method CalcPercentFromSteps()
      requires Valid()
      modifies this
      ensures Valid() && workLevel == old(workLevel) && stepsTotal == old(stepsTotal) && stepsFinished == old(stepsFinished)
      ensures finishedFlag == old(finishedFlag) && cancelFlag == old(cancelFlag)
      ensures percent == PercentFromSteps(stepsTotal[..], stepsFinished[..], workLevel)
    {
      ghost var t, f := stepsTotal[..], stepsFinished[..];
      var d0: real := if stepsTotal[0] > 0 then (100 / stepsTotal[0]) as real else 0.0;
      var res: real := stepsFinished[0] as real * d0;
      assert d0 == Weight(t, 0) && res == Term(t, f, workLevel, 0);
      if workLevel >= 1 && stepsTotal[1] > 0 {
        var d1 := d0 / stepsTotal[1] as real;
        assert d1 == Weight(t, 1);
        res := res + stepsFinished[1] as real * d1;
        if workLevel >= 2 && stepsTotal[2] > 0 {
          var d2 := d1 / stepsTotal[2] as real;
          assert d2 == Weight(t, 2);
          res := res + stepsFinished[2] as real * d2;
          if workLevel >= 3 && stepsTotal[3] > 0 {
            var d3 := d2 / stepsTotal[3] as real;
            assert d3 == Weight(t, 3);
            res := res + stepsFinished[3] as real * d3;
          } else {
            assert !Active(t, workLevel, 3);
          }
        } else {
          assert !Active(t, workLevel, 2) && !Active(t, workLevel, 3);
        }
      } else {
        assert !Active(t, workLevel, 1) && !Active(t, workLevel, 2) && !Active(t, workLevel, 3);
      }
      assert res == StepsProgress(t, f, workLevel);
      percent := Round(res);
    }

    /** `getStepsTotal()`: 0 exactly when no level is open. */
    function GetStepsTotal(): (r: int)
      requires Valid()
      reads this, stepsTotal, stepsFinished
      ensures r == 0 <==> workLevel < 0
      ensures workLevel >= 0 ==> r == stepsTotal[workLevel]
    {
      if workLevel < 0 then 0 else stepsTotal[workLevel]
    }

    /** `getStepsFinished()`: never more than the total, and 0 when no level is open. */
    function GetStepsFinished(): (r: int)
      requires Valid()
      reads this, stepsTotal, stepsFinished
      ensures 0 <= r <= GetStepsTotal()
      ensures workLevel < 0 ==> r == 0
    {
      if workLevel < 0 then 0 else stepsFinished[workLevel]
    }

    /**
     * `setStepsTotal(total_count)`: the current level gets the total (at least one), and its
     * finished count is lowered to it if larger; nothing when no level is open.
     */
    method SetStepsTotal(totalCount: int)
      requires Valid() && IsJavaInt(totalCount)
      modifies this, stepsTotal, stepsFinished
      ensures Valid() && Unmoved()
      ensures workLevel < 0 ==> stepsTotal[..] == old(stepsTotal[..]) && stepsFinished[..] == old(stepsFinished[..]) && percent == old(percent)
      ensures workLevel >= 0 ==>
        stepsTotal[..] == old(stepsTotal[..])[workLevel := TotalOf(totalCount)]
        && stepsFinished[..] == old(stepsFinished[..])[workLevel := Clamp(old(stepsFinished[workLevel]), 0, TotalOf(totalCount))]
        && percent == PercentFromSteps(stepsTotal[..], stepsFinished[..], workLevel)
    {
      var total := TotalOf(totalCount);
      if workLevel >= 0 {
        stepsTotal[workLevel] := total;
        if stepsFinished[workLevel] > total {
          stepsFinished[workLevel] := total;
        }
        CalcPercentFromSteps();
      }
    }

    /** Everything but the percent and the array contents is as before. */
    twostate predicate Unmoved()
      reads this
    {
      && workLevel == old(workLevel) && stepsTotal == old(stepsTotal) && stepsFinished == old(stepsFinished)
      && finishedFlag == old(finishedFlag) && cancelFlag == old(cancelFlag)
    }

    /** `set_steps_finished(finished_count)`: the current level's count, clamped to `[0, total]`. */
    method SetStepsFinishedClamped(finishedCount: int)
      requires Valid() && workLevel >= 0
      modifies this, stepsFinished
      ensures Valid() && Unmoved()
      ensures stepsFinished[..] == old(stepsFinished[..])[workLevel := Clamp(finishedCount, 0, stepsTotal[workLevel])]
      ensures percent == PercentFromSteps(stepsTotal[..], stepsFinished[..], workLevel)
    {
      var count := finishedCount;
      if count < 0 {
        count := 0;
      } else if count > stepsTotal[workLevel] {
        count := stepsTotal[workLevel];
      }
      stepsFinished[workLevel] := count;
      CalcPercentFromSteps();
    }

    /** `setStepsFinished(finishedCount)`: ignored when no level is open. */
    method SetStepsFinished(finishedCount: int)
      requires Valid()
      modifies this, stepsFinished
      ensures Valid() && Unmoved()
      ensures workLevel < 0 ==> stepsFinished[..] == old(stepsFinished[..]) && percent == old(percent)
      ensures workLevel >= 0 ==>
        stepsFinished[..] == old(stepsFinished[..])[workLevel := Clamp(finishedCount, 0, stepsTotal[workLevel])]
        && percent == PercentFromSteps(stepsTotal[..], stepsFinished[..], workLevel)
    {
      if workLevel < 0 {
        return;
      }
      SetStepsFinishedClamped(finishedCount);
    }

    /**
     * `stepFinished()`: one more step of the current level, never beyond its total; the
     * increment is 32-bit, so a count at `Integer.MAX_VALUE` wraps and is clamped to 0.
     */
    method StepFinished()
      requires Valid()
      modifies this, stepsFinished
      ensures Valid() && Unmoved()
      ensures workLevel < 0 ==> stepsFinished[..] == old(stepsFinished[..]) && percent == old(percent)
      ensures workLevel >= 0 ==> percent == PercentFromSteps(stepsTotal[..], stepsFinished[..], workLevel)
      ensures workLevel >= 0 ==>
        var n := old(stepsFinished[workLevel]);
        stepsFinished[..] == old(stepsFinished[..])[workLevel := Clamp(Wrap32(n + 1), 0, stepsTotal[workLevel])]
      ensures workLevel >= 0 && old(stepsFinished[workLevel]) < stepsTotal[workLevel] ==>
        stepsFinished[workLevel] == old(stepsFinished[workLevel]) + 1
      ensures workLevel >= 0 && stepsTotal[workLevel] < MaxInt && old(stepsFinished[workLevel]) == stepsTotal[workLevel] ==>
        stepsFinished[workLevel] == stepsTotal[workLevel]
    {
      if workLevel < 0 {
        return;
      }
      SetStepsFinishedClamped(Wrap32(stepsFinished[workLevel] + 1));
    }

    /** `setFinished()`: 100 percent, the first level complete, every level closed, and the flag set. */
    method SetFinished()
      requires Valid()
      modifies this, stepsFinished
      ensures Valid() && percent == 100 && workLevel == -1 && finishedFlag
      ensures stepsTotal == old(stepsTotal) && stepsFinished == old(stepsFinished)
      ensures stepsFinished[..] == old(stepsFinished[..])[0 := stepsTotal[0]]
      ensures cancelFlag == old(cancelFlag)
    {
      percent := 100;
      stepsFinished[0] := stepsTotal[0];
      workLevel := -1;
      finishedFlag := true;
    }
  }
}

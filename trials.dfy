// The trial table of the conversion: one row per distinct trial marker,
// with the first and last position timestamp of that trial and the
// trial's visual contrast.

module Trials {
  import opened Selection

  /** A row of the NWB trial table (the `trial_contrast` column included). */
  datatype TrialRow = TrialRow(startTime: real, stopTime: real, contrast: real)

  /** `row` is the row for trial `num`: its bounds are the first and last
      timestamp among the samples marked `num`, its contrast is
      `contrast[num - 1]` under Python indexing. */
  ghost predicate IsTrialRow(row: TrialRow, trial: seq<int>, time: seq<real>, contrast: seq<real>, num: int) {
    |trial| == |time| && num in trial &&
    var times := Select(time, trial, num);
    times != [] &&
    row.startTime == times[0] &&
    row.stopTime == times[|times| - 1] &&
    PyIndex(contrast, num - 1) == Ok(row.contrast)
  }

  /** `contrast[num - 1]` exists under Python indexing. */
  ghost predicate HasContrast(contrast: seq<real>, num: int) {
    PyIndex(contrast, num - 1).Ok?
  }

  /** The marker-to-contrast lookup succeeds for every trial in `trial`. */
  ghost predicate ContrastsInRange(trial: seq<int>, contrast: seq<real>) {
    forall num :: num in trial ==> HasContrast(contrast, num)
  }

  /** One iteration of the trial loop: the samples of trial `num` give the
      bounds, and the contrast lookup may fail. */
  function TrialRowFor(trial: seq<int>, time: seq<real>, contrast: seq<real>, num: int): (r: Result<TrialRow>)
    requires |trial| == |time| && num in trial
    ensures r.Ok? <==> HasContrast(contrast, num)
    ensures r.Ok? ==> IsTrialRow(r.value, trial, time, contrast, num)
    ensures r.Err? ==> r.error == IndexOutOfRange(num - 1, |contrast|)
  {
    var trialTimes := Select(time, trial, num);
    SelectFirst(time, trial, num);
    match PyIndex(contrast, num - 1)
    case Err(e) => Err(e)
    case Ok(c) => Ok(TrialRow(trialTimes[0], trialTimes[|trialTimes| - 1], c))
  }

  /** The loop over the trial numbers `nums`: one row per number, in the
      order given, failing on the first number whose row fails. */
  method AddTrials(trial: seq<int>, time: seq<real>, contrast: seq<real>, nums: seq<int>)
    returns (r: Result<seq<TrialRow>>)
    requires forall l :: 0 <= l < |nums| ==> nums[l] in trial
    ensures nums != [] && |trial| != |time| ==> r == Err(MaskLengthMismatch(|trial|, |time|))
    ensures r.Ok? <==>
              (nums == [] || |trial| == |time|) &&
              forall l :: 0 <= l < |nums| ==> HasContrast(contrast, nums[l])
    ensures r.Ok? ==>
              |r.value| == |nums| &&
              forall l :: 0 <= l < |nums| ==> IsTrialRow(r.value[l], trial, time, contrast, nums[l])
    ensures r.Err? && (nums == [] || |trial| == |time|) ==>
              exists i :: 0 <= i < |nums| &&
                !HasContrast(contrast, nums[i]) &&
                r.error == IndexOutOfRange(nums[i] - 1, |contrast|) &&
                forall l :: 0 <= l < i ==> HasContrast(contrast, nums[l])
  {
    var rows: seq<TrialRow> := [];
    var j := 0;
    while j < |nums|
      invariant 0 <= j <= |nums|
      invariant j > 0 ==> |trial| == |time|
      invariant |rows| == j
      invariant forall l :: 0 <= l < j ==> IsTrialRow(rows[l], trial, time, contrast, nums[l])
      invariant forall l :: 0 <= l < j ==> HasContrast(contrast, nums[l])
    {
      var num := nums[j];
      if |trial| != |time| {
        return Err(MaskLengthMismatch(|trial|, |time|));
      }
      var row := TrialRowFor(trial, time, contrast, num);
      if row.Err? {
        return Err(row.error);
      }
      rows := rows + [row.value];
      j := j + 1;
    }
    return Ok(rows);
  }

  /** Builds the trial table: `np.unique` of the markers, then one row per
      distinct marker in ascending order. */
  method BuildTrialTable(trial: seq<int>, time: seq<real>, contrast: seq<real>)
    returns (r: Result<seq<TrialRow>>)
    ensures trial != [] && |trial| != |time| ==> r == Err(MaskLengthMismatch(|trial|, |time|))
    ensures r.Ok? <==> (trial == [] || |trial| == |time|) && ContrastsInRange(trial, contrast)
    ensures r.Ok? ==>
              |r.value| == |Unique(trial)| &&
              forall j :: 0 <= j < |r.value| ==> IsTrialRow(r.value[j], trial, time, contrast, Unique(trial)[j])
    ensures r.Err? && (trial == [] || |trial| == |time|) ==>
              exists i :: 0 <= i < |Unique(trial)| &&
                !HasContrast(contrast, Unique(trial)[i]) &&
                r.error == IndexOutOfRange(Unique(trial)[i] - 1, |contrast|) &&
                forall l :: 0 <= l < i ==> HasContrast(contrast, Unique(trial)[l])
  {
    var trialNums := Unique(trial);
    r := AddTrials(trial, time, contrast, trialNums);
    ContrastsInRangeUnique(trial, contrast);
  }

  /** Checking the contrast lookup for every distinct marker is checking it
      for every marker; there are distinct markers iff there are markers. */
  lemma ContrastsInRangeUnique(trial: seq<int>, contrast: seq<real>)
    ensures trial != [] <==> Unique(trial) != []
    ensures ContrastsInRange(trial, contrast) <==>
            forall l :: 0 <= l < |Unique(trial)| ==> HasContrast(contrast, Unique(trial)[l])
  {
    if trial != [] {
      assert trial[0] in Unique(trial);
    }
    UniqueForall(trial, num => HasContrast(contrast, num));
  }

  /** A trial's start time is the timestamp of its earliest sample, in
      input order. */
  lemma TrialStartIsFirstSample(row: TrialRow, trial: seq<int>, time: seq<real>, contrast: seq<real>, num: int)
    requires IsTrialRow(row, trial, time, contrast, num)
    ensures exists k :: 0 <= k < |trial| && trial[k] == num &&
              (forall i :: 0 <= i < k ==> trial[i] != num) && row.startTime == time[k]
  {
    SelectFirst(time, trial, num);
    var k :| 0 <= k < |trial| && trial[k] == num &&
             (forall i :: 0 <= i < k ==> trial[i] != num) && Select(time, trial, num)[0] == time[k];
    assert row.startTime == time[k];
  }

  /** A trial's stop time is the timestamp of its latest sample, in input
      order. */
  lemma TrialStopIsLastSample(row: TrialRow, trial: seq<int>, time: seq<real>, contrast: seq<real>, num: int)
    requires IsTrialRow(row, trial, time, contrast, num)
    ensures exists k :: 0 <= k < |trial| && trial[k] == num &&
              (forall i :: k < i < |trial| ==> trial[i] != num) && row.stopTime == time[k]
  {
    SelectLast(time, trial, num);
    var times := Select(time, trial, num);
    var k :| 0 <= k < |trial| && trial[k] == num &&
             (forall i :: k < i < |trial| ==> trial[i] != num) && times[|times| - 1] == time[k];
    assert row.stopTime == time[k];
  }

  /** With chronologically ordered timestamps, start and stop are the
      minimum and maximum timestamp of the trial's samples. */
  lemma TrialRowMinMax(row: TrialRow, trial: seq<int>, time: seq<real>, contrast: seq<real>, num: int)
    requires IsTrialRow(row, trial, time, contrast, num)
    requires forall i, j :: 0 <= i <= j < |time| ==> time[i] <= time[j]
    ensures row.startTime <= row.stopTime
    ensures forall k :: 0 <= k < |trial| && trial[k] == num ==> row.startTime <= time[k] <= row.stopTime
  {
    SelectBoundsSorted(time, trial, num);
    SelectExactly(time, trial, num);
  }

  /** A marker of 0 does not fail: Python reads `contrast[-1]`, the last
      contrast, for it. A marker above `|contrast|` fails. */
  lemma ContrastLookupEdges(contrast: seq<real>, num: int)
    ensures num == 0 && contrast != [] ==> PyIndex(contrast, num - 1) == Ok(contrast[|contrast| - 1])
    ensures num > |contrast| ==> PyIndex(contrast, num - 1) == Err(IndexOutOfRange(num - 1, |contrast|))
    ensures 1 <= num <= |contrast| ==> PyIndex(contrast, num - 1) == Ok(contrast[num - 1])
  {
  }
}

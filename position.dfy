// The two position channels of the conversion: the virtual position as
// recorded, and the physical position on the wheel, obtained by dividing
// every sample by the gain of its trial. The division happens in place on
// the array that was already handed to the virtual channel.

module PositionChannels {
  import opened Selection

  /** The gain of trial `num` is non-zero, if it exists. */
  ghost predicate NonZeroGain(gain: seq<real>, num: int) {
    PyIndex(gain, num - 1).Ok? ==> PyIndex(gain, num - 1).value != 0.0
  }

  /** Every gain the markers in `trials` reach is non-zero; entries of
      `gain` no marker reaches may be anything. */
  ghost predicate NonZero(trials: seq<int>, gain: seq<real>) {
    forall num :: num in trials ==> NonZeroGain(gain, num)
  }

  /** Every marker in `trials` has a gain under Python indexing. */
  ghost predicate GainsInRange(trials: seq<int>, gain: seq<real>) {
    forall num :: num in trials ==> PyIndex(gain, num - 1).Ok?
  }

  /** The gain of trial `num`, `trial_gain[num - 1]`. */
  function GainOf(gain: seq<real>, num: int): (g: real)
    requires PyIndex(gain, num - 1).Ok? && NonZeroGain(gain, num)
    ensures g != 0.0
    ensures g in gain
  {
    PyIndex(gain, num - 1).value
  }

  /** The positions once the samples of the trials in `done` have been
      divided by their trial's gain; the other samples are untouched. */
  function Rescaled(v: seq<real>, trial: seq<int>, gain: seq<real>, done: seq<int>): (r: seq<real>)
    requires NonZero(done, gain) && GainsInRange(done, gain)
    ensures |r| == |v|
  {
    seq(|v|, k requires 0 <= k < |v| =>
      if k < |trial| && trial[k] in done then v[k] / GainOf(gain, trial[k]) else v[k])
  }

  /** `physical_posx[trial == num] = physical_posx[trial == num] / trial_gain[num - 1]`
      for every distinct marker `num`, in ascending order, in place.
      On success every sample has been divided exactly once, by its own
      trial's gain. On a failed gain lookup the trials visited before the
      failing one (exactly the markers below it) have already been divided. */
  method DivideByTrialGain(a: array<real>, trial: seq<int>, gain: seq<real>) returns (r: Result<()>)
    requires NonZero(trial, gain)
    modifies a
    ensures trial != [] && |trial| != a.Length ==>
              r == Err(MaskLengthMismatch(|trial|, a.Length)) && a[..] == old(a[..])
    ensures r.Ok? <==> (trial == [] || |trial| == a.Length) && GainsInRange(trial, gain)
    ensures r.Ok? ==>
              GainsInRange(trial, gain) &&
              a[..] == Rescaled(old(a[..]), trial, gain, trial)
    ensures r.Err? && (trial == [] || |trial| == a.Length) ==>
              exists i :: 0 <= i < |Unique(trial)| &&
                PyIndex(gain, Unique(trial)[i] - 1).Err? &&
                r.error == IndexOutOfRange(Unique(trial)[i] - 1, |gain|) &&
                GainsInRange(Unique(trial)[..i], gain) && NonZero(Unique(trial)[..i], gain) &&
                a[..] == Rescaled(old(a[..]), trial, gain, Unique(trial)[..i])
  {
    ghost var orig := a[..];
    var nums := Unique(trial);
    var j := 0;
    while j < |nums|
      invariant 0 <= j <= |nums|
      invariant j > 0 ==> |trial| == a.Length
      invariant GainsInRange(nums[..j], gain) && NonZero(nums[..j], gain)
      invariant a[..] == Rescaled(orig, trial, gain, nums[..j])
    {
      var num := nums[j];
      if |trial| != a.Length {
        return Err(MaskLengthMismatch(|trial|, a.Length));
      }
      var g := PyIndex(gain, num - 1);
      if g.Err? {
        assert num in trial;
        return Err(g.error);
      }
      assert num in trial;
      UniquePrefix(trial, j);
      assert nums[..j + 1] == nums[..j] + [num];
      ghost var before := a[..];
      DivideTrialSamples(a, trial, num, g.value);
      RescaledStep(orig, trial, gain, nums[..j], num, before, a[..]);
      j := j + 1;
    }
    assert nums[..j] == nums;
    RescaledSameMarkers(orig, trial, gain, nums, trial);
    return Ok(());
  }

  /** `physical_posx[trial == num] = physical_posx[trial == num] / g`: the
      samples of trial `num` are divided by `g`, all others are unchanged. */
  method DivideTrialSamples(a: array<real>, trial: seq<int>, num: int, g: real)
    requires |trial| == a.Length && g != 0.0
    modifies a
    ensures forall i :: 0 <= i < a.Length ==>
              a[i] == if trial[i] == num then old(a[i]) / g else old(a[i])
  {
    var k := 0;
    while k < a.Length
      invariant 0 <= k <= a.Length
      invariant forall i :: 0 <= i < k ==> a[i] == if trial[i] == num then old(a[i]) / g else old(a[i])
      invariant forall i :: k <= i < a.Length ==> a[i] == old(a[i])
    {
      if trial[k] == num {
        a[k] := a[k] / g;
      }
      k := k + 1;
    }
  }

  /** Dividing the samples of one more trial, not yet divided, extends the
      set of divided trials by that trial. */
  lemma RescaledStep(v: seq<real>, trial: seq<int>, gain: seq<real>, done: seq<int>, num: int,
                     before: seq<real>, after: seq<real>)
    requires NonZero(done, gain) && GainsInRange(done, gain)
    requires PyIndex(gain, num - 1).Ok? && NonZeroGain(gain, num)
    requires num !in done
    requires |v| == |trial| && before == Rescaled(v, trial, gain, done) && |after| == |before|
    requires forall i :: 0 <= i < |after| ==>
               after[i] == if trial[i] == num then before[i] / PyIndex(gain, num - 1).value else before[i]
    ensures GainsInRange(done + [num], gain) && NonZero(done + [num], gain)
    ensures after == Rescaled(v, trial, gain, done + [num])
  {
    assert forall m :: m in done + [num] ==> m in done || m == num;
  }

  /** Only which markers count as done matters, not their order or repetition. */
  lemma RescaledSameMarkers(v: seq<real>, trial: seq<int>, gain: seq<real>, done: seq<int>, done': seq<int>)
    requires NonZero(done, gain) && GainsInRange(done, gain)
    requires forall m :: m in done <==> m in done'
    ensures GainsInRange(done', gain) && NonZero(done', gain)
    ensures Rescaled(v, trial, gain, done) == Rescaled(v, trial, gain, done')
  {
  }

  /** A named channel of position samples. `data` is held by reference, as
      the NWB spatial series holds the array it is given. */
  class SpatialSeries {
    const name: string
    const data: array<real>
    const timestamps: seq<real>
    const conversion: real

    constructor (name: string, data: array<real>, timestamps: seq<real>)
      ensures this.name == name && this.data == data && this.timestamps == timestamps
      ensures conversion == 0.01
    {
      this.name := name;
      this.data := data;
      this.timestamps := timestamps;
      conversion := 0.01;
    }
  }

  /** The position channels as the conversion builds them: the virtual
      channel is given `posx` itself, and the physical channel is the same
      array after the gain division. Both channels therefore end up holding
      the divided values. */
  method BuildPositionSeries(posx: array<real>, time: seq<real>, trial: seq<int>, gain: seq<real>)
    returns (r: Result<(SpatialSeries, SpatialSeries)>)
    requires NonZero(trial, gain)
    modifies posx
    ensures trial != [] && |trial| != posx.Length ==>
              r == Err(MaskLengthMismatch(|trial|, posx.Length)) && posx[..] == old(posx[..])
    ensures r.Ok? <==> (trial == [] || |trial| == posx.Length) && GainsInRange(trial, gain)
    ensures r.Ok? ==>
              var (virtualSeries, physicalSeries) := r.value;
              virtualSeries.name == "Position" && physicalSeries.name == "PhysicalPosition" &&
              virtualSeries.timestamps == time && physicalSeries.timestamps == time &&
              virtualSeries.conversion == 0.01 && physicalSeries.conversion == 0.01 &&
              virtualSeries.data == posx && physicalSeries.data == posx &&
              GainsInRange(trial, gain) &&
              posx[..] == Rescaled(old(posx[..]), trial, gain, trial)
    ensures r.Err? && (trial == [] || |trial| == posx.Length) ==>
              exists i :: 0 <= i < |Unique(trial)| &&
                PyIndex(gain, Unique(trial)[i] - 1).Err? &&
                r.error == IndexOutOfRange(Unique(trial)[i] - 1, |gain|) &&
                GainsInRange(Unique(trial)[..i], gain) && NonZero(Unique(trial)[..i], gain) &&
                posx[..] == Rescaled(old(posx[..]), trial, gain, Unique(trial)[..i])
  {
    var virtualSeries := new SpatialSeries("Position", posx, time);
    var physicalData := posx;
    var divided := DivideByTrialGain(physicalData, trial, gain);
    if divided.Err? {
      return Err(divided.error);
    }
    var physicalSeries := new SpatialSeries("PhysicalPosition", physicalData, time);
    return Ok((virtualSeries, physicalSeries));
  }

  /** What aliasing costs: wherever a sample's gain is not 1 and its value
      is not 0, the divided value differs from the recorded one, so the
      virtual channel no longer holds the recorded position. */
  lemma RescaledChangesSample(v: seq<real>, trial: seq<int>, gain: seq<real>, k: nat)
    requires NonZero(trial, gain) && GainsInRange(trial, gain)
    requires k < |v| && k < |trial|
    requires PyIndex(gain, trial[k] - 1) != Ok(1.0) && v[k] != 0.0
    ensures Rescaled(v, trial, gain, trial)[k] != v[k]
  {
    assert trial[k] in trial;
    var g := GainOf(gain, trial[k]);
    assert PyIndex(gain, trial[k] - 1) == Ok(g);
    assert g != 1.0;
    var q := v[k] / g;
    assert q * g == v[k];
    assert (q - v[k]) * g == v[k] * (1.0 - g);
    assert v[k] * (1.0 - g) != 0.0;
    assert q - v[k] == 0.0 ==> (q - v[k]) * g == 0.0;
    assert Rescaled(v, trial, gain, trial)[k] == q;
  }

  /** The evidently intended construction: the physical channel gets its own
      copy of the positions, so the virtual channel keeps the recorded
      values and the physical channel holds the divided ones. */
  method BuildPositionSeriesCopied(posx: array<real>, time: seq<real>, trial: seq<int>, gain: seq<real>)
    returns (r: Result<(SpatialSeries, SpatialSeries)>)
    requires NonZero(trial, gain)
    ensures posx[..] == old(posx[..])
    ensures trial != [] && |trial| != posx.Length ==> r == Err(MaskLengthMismatch(|trial|, posx.Length))
    ensures r.Ok? <==> (trial == [] || |trial| == posx.Length) && GainsInRange(trial, gain)
    ensures r.Err? && (trial == [] || |trial| == posx.Length) ==>
              exists i :: 0 <= i < |Unique(trial)| &&
                PyIndex(gain, Unique(trial)[i] - 1).Err? &&
                r.error == IndexOutOfRange(Unique(trial)[i] - 1, |gain|) &&
                GainsInRange(Unique(trial)[..i], gain)
    ensures r.Ok? ==>
              var (virtualSeries, physicalSeries) := r.value;
              virtualSeries.name == "Position" && physicalSeries.name == "PhysicalPosition" &&
              virtualSeries.timestamps == time && physicalSeries.timestamps == time &&
              virtualSeries.conversion == 0.01 && physicalSeries.conversion == 0.01 &&
              virtualSeries.data == posx && fresh(physicalSeries.data) &&
              GainsInRange(trial, gain) &&
              physicalSeries.data[..] == Rescaled(posx[..], trial, gain, trial)
  {
    var virtualSeries := new SpatialSeries("Position", posx, time);
    var physicalData := new real[posx.Length](i reads posx requires 0 <= i < posx.Length => posx[i]);
    assert physicalData[..] == posx[..];
    var divided := DivideByTrialGain(physicalData, trial, gain);
    if divided.Err? {
      return Err(divided.error);
    }
    var physicalSeries := new SpatialSeries("PhysicalPosition", physicalData, time);
    return Ok((virtualSeries, physicalSeries));
  }
}

# giocomo-lab-to-nwb: the table-building logic of `convert`

`convert` in `giocomo-lab-to-nwb/conversion.py` reads a MATLAB session file
from the Giocomo lab (virtual-reality position, trial markers, Neuropixels
spike sorting) and writes an NWB file. Most of the function is glue around
pynwb. The logic that decides what goes into each NWB table is modelled
here, over flattened sequences:

- the **trial table**: one row per distinct trial marker, in ascending
  order. Its start and stop are the first and last position timestamps of
  that trial, and its contrast is `trial_contrast[num - 1]` under Python
  indexing (module `Trials`);
- the two **position channels**. The physical position is obtained by
  dividing every sample, in place, by its trial's gain. That array is the
  same object already handed to the virtual `Position` channel (module
  `PositionChannels`, on a Dafny `array`);
- the **electrode table**: one row per x coordinate, with relative x/y
  looked up by index and one filter description chosen by a flag (module
  `Electrodes`);
- the two **unit tables**:
  - the manually curated clusters, in the order of the cluster-id array.
    Quality is looked up by position and the mean waveform by cluster id;
  - the automatic-sorting templates, one per distinct template id in
    ascending order.

  A unit's spike times are the spikes assigned to it, in their original
  order (module `UnitTables`).

Module `Selection` holds the numpy semantics the conversion relies on:
- `PyIndex` is Python indexing, where negative indices wrap and anything
  else out of range raises `IndexError`;
- `Unique` is `np.unique` (sorted distinct values);
- `Select` is boolean-mask selection `values[mask == id]`, an
  order-preserving filter;
- the partition lemmas show that masks for distinct ids split a sequence
  without loss or duplication.

Failures are values: `Result` is `Ok` or `Err`, and `Error` is one of two
cases. `MaskLengthMismatch` is numpy's `IndexError` for a boolean mask whose
length differs from the array. `IndexOutOfRange` is Python's `IndexError`
for a subscript. Within each loop iteration, errors are raised in Python's
evaluation order:
- the mask is applied first;
- then `temps[cluster_id]` (line 231);
- then `cluster_quality[i]` (line 234).

A loop that never runs (no markers, no cluster ids, no templates) raises
nothing, even when the lengths disagree.

## Model

| member | source | states |
|---|---|---|
| Selection.PyIndex | giocomo-lab-to-nwb/conversion.py:129 | Python subscript: succeeds iff `-len <= i < len`. Non-negative indices read `s[i]`, negative ones read `s[len + i]`, and anything else is `IndexOutOfRange(i, len)`. |
| Selection.Unique | giocomo-lab-to-nwb/conversion.py:122 | `np.unique`: the result holds exactly the values of the input. |
| Selection.UniqueIncreasing | giocomo-lab-to-nwb/conversion.py:122 | `np.unique` lists its values in strictly ascending order, so each value appears once. |
| Selection.InsertSortedIncreasing | giocomo-lab-to-nwb/conversion.py:242 | Inserting one value into a strictly ascending list of distinct values keeps it strictly ascending. This is the inductive step behind `np.unique`'s order. |
| Selection.UniquePrefix | giocomo-lab-to-nwb/conversion.py:150 | Walking the distinct markers in order, the markers visited before position `j` are exactly the markers below the `j`-th. |
| Selection.UniqueForall | giocomo-lab-to-nwb/conversion.py:125 | A property holds for every marker iff it holds for every distinct marker, in both directions. |
| Selection.PositionsExact | giocomo-lab-to-nwb/conversion.py:126 | The indices a mask `mask == id` selects are strictly ascending. They are exactly the indices whose marker is `id`. |
| Selection.SelectAtPositions | giocomo-lab-to-nwb/conversion.py:126 | `values[mask == id]` is `values` read at those ascending indices: an order-preserving subsequence. |
| Selection.SelectExactly | giocomo-lab-to-nwb/conversion.py:230 | Every value whose marker is `id` is in the selection, and everything in the selection comes from an index marked `id`. |
| Selection.SelectFirst | giocomo-lab-to-nwb/conversion.py:127 | When `id` occurs, the selection is non-empty. Its first element is the value at the earliest index marked `id`. |
| Selection.SelectLast | giocomo-lab-to-nwb/conversion.py:128 | When `id` occurs, the selection is non-empty. Its last element is the value at the latest index marked `id`. |
| Selection.SelectAbsent | giocomo-lab-to-nwb/conversion.py:230 | A mask that matches nothing selects the empty sequence, as for a cluster id with no spikes. |
| Selection.SelectBoundsSorted | giocomo-lab-to-nwb/conversion.py:126-128 | On ascending values, every selected value lies between the first and the last selected value. |
| Selection.FlattenSelections | giocomo-lab-to-nwb/conversion.py:248-252 | Concatenating the per-id selections, in the order of the ids, gives `Gather`. |
| Selection.GatherPartition | giocomo-lab-to-nwb/conversion.py:249 | When the ids are distinct and cover every marker, the per-id selections together hold every value exactly once: equal multisets and equal length. |
| Trials.TrialRowFor | giocomo-lab-to-nwb/conversion.py:126-129 | One iteration of the trial loop. It succeeds iff `trial_contrast[num - 1]` exists. The row is then the trial's first and last timestamp with that contrast. Otherwise it fails with `IndexOutOfRange(num - 1, len)`. |
| Trials.AddTrials | giocomo-lab-to-nwb/conversion.py:125-129 | The trial loop over given markers. A mask-length mismatch fails at the first iteration. It succeeds iff every contrast lookup does, and then gives one correct row per marker, in order. Otherwise it fails on the first marker whose lookup fails, and every earlier lookup succeeded. |
| Trials.BuildTrialTable | giocomo-lab-to-nwb/conversion.py:121-129 | The trial table: exactly one row per distinct marker, in ascending marker order, each row as `TrialRowFor` states. It succeeds iff the lengths agree (or there are no markers) and every marker has a contrast. On failure it names the first distinct marker whose lookup fails. |
| Trials.ContrastsInRangeUnique | giocomo-lab-to-nwb/conversion.py:122-125 | There are distinct markers iff there are markers. Every marker has a contrast iff every distinct marker does. |
| Trials.TrialStartIsFirstSample | giocomo-lab-to-nwb/conversion.py:127 | A trial's start time is the timestamp at the earliest sample of that trial, in input order. |
| Trials.TrialStopIsLastSample | giocomo-lab-to-nwb/conversion.py:128 | A trial's stop time is the timestamp at the latest sample of that trial, in input order. |
| Trials.TrialRowMinMax | giocomo-lab-to-nwb/conversion.py:126-128 | With ascending timestamps, start <= stop, and every sample of the trial lies between them. |
| Trials.ContrastLookupEdges | giocomo-lab-to-nwb/conversion.py:124-129 | A marker of 0 reads the last contrast without an error. A marker above the contrast count fails. A marker in 1..len reads `contrast[num - 1]`. |
| PositionChannels.GainOf | giocomo-lab-to-nwb/conversion.py:151 | `trial_gain[num - 1]` under Python indexing: one of the gains, and non-zero given that this trial's gain is non-zero. |
| PositionChannels.DivideTrialSamples | giocomo-lab-to-nwb/conversion.py:151 | `physical_posx[trial == num] /= g` in place. The samples of trial `num` are divided by `g`, and every other sample is unchanged. |
| PositionChannels.RescaledStep | giocomo-lab-to-nwb/conversion.py:150-151 | Dividing one more trial, not yet divided, turns the array for "trials so far" into the array for "trials so far plus this one". |
| PositionChannels.RescaledSameMarkers | giocomo-lab-to-nwb/conversion.py:150 | Which trials have been divided is all that matters, not their order or repetition. |
| PositionChannels.DivideByTrialGain | giocomo-lab-to-nwb/conversion.py:149-151 | The gain loop, in place. A length mismatch fails before anything changes. It succeeds iff every trial has a gain, and then every sample equals its original divided once by its own trial's gain. On a failed lookup, exactly the trials below the failing marker have been divided. |
| PositionChannels.SpatialSeries.constructor | giocomo-lab-to-nwb/conversion.py:139-145 | A spatial series holds the array it is given (by reference), its timestamps, and the conversion factor 0.01. |
| PositionChannels.BuildPositionSeries | giocomo-lab-to-nwb/conversion.py:137-159 | Both series hold the very same array, with conversion 0.01, and that array now holds the rescaled positions: the virtual "Position" data has been overwritten. A length mismatch fails before anything changes. A failed gain lookup returns the gain loop's error for the first distinct marker without a gain, and leaves the array divided for exactly the markers below it. |
| PositionChannels.RescaledChangesSample | giocomo-lab-to-nwb/conversion.py:148-151 | Any sample that is non-zero and whose trial gain is not 1 changes under rescaling. So the aliased virtual channel no longer holds the recorded position. |
| PositionChannels.BuildPositionSeriesCopied | giocomo-lab-to-nwb/conversion.py:137-159 | Corrected construction. The input array is unchanged and the virtual series keeps it. The physical series holds a fresh array with the rescaled positions, and both carry conversion 0.01. It fails exactly as the gain loop does: a length mismatch, or the first distinct marker without a gain. |
| Electrodes.FilterDescription | giocomo-lab-to-nwb/conversion.py:191-195 | The filter string is the high-pass text iff the flag is set, and the not-filtered text iff it is not. |
| Electrodes.BuildElectrodeTable | giocomo-lab-to-nwb/conversion.py:189-215 | Exactly `len(xcoords)` rows, ids `0..n-1`. Row `idx` holds `xcoords[idx]` and `ycoords[idx]`, NaN x/y/z/impedance, the fixed location and group, and the one filter string `FilterDescription` chooses from the flag. A shorter `ycoords` fails at index `len(ycoords)`. |
| UnitTables.ClusterRowFor | giocomo-lab-to-nwb/conversion.py:230-236 | One manual-cluster iteration. It succeeds iff `temps[cluster_id]` and `cluster_quality[i]` both exist, and then the row holds the cluster's spikes, `cgs[i]` and `temps[cluster_id]`. The waveform error takes precedence over the quality error. |
| UnitTables.BuildClusterUnits | giocomo-lab-to-nwb/conversion.py:223-236 | One row per cluster id, in the given order. A mask mismatch fails at the first iteration. It succeeds iff every lookup does. Otherwise it fails at the first cluster whose lookup fails, with that cluster's error. |
| UnitTables.ClusterUnitsPartitionSpikes | giocomo-lab-to-nwb/conversion.py:229-236 | With distinct cluster ids that cover every spike's cluster, the unit table holds every spike exactly once. |
| UnitTables.BuildTemplateUnits | giocomo-lab-to-nwb/conversion.py:241-252 | One row per distinct template id, in strictly ascending id order, each holding that template's spikes. It succeeds iff the lengths agree or there are no templates. When the lengths agree, every spike's template has a row and the rows hold every spike exactly once. |
| UnitTables.TemplateUnitsPartitionSpikes | giocomo-lab-to-nwb/conversion.py:248-252 | Rows built from the distinct template ids cover every spike's template, and together hold every spike exactly once. |

## Left out

- Reading the `.mat` file (line 67) and writing the NWB file (lines 266-267) are file I/O. The model's inputs are the already-loaded arrays.
- The pynwb objects (`NWBFile`, `Subject`, `Position`, `BehavioralEvents`, `Units`, `ProcessingModule`, the device and the electrode group) are not modelled. Rows are plain records, and the electrode group is represented by its name.
- The lick-event series (lines 166-174) is not modelled. It copies two arrays into a series without any logic.
- The printed diagnostics are not modelled. Two of them index into the tables: `nwbfile.electrodes[10]` (line 217) raises `IndexError` with fewer than 11 electrodes, and `nwbfile.units['waveform_mean'][4]` (line 238) with fewer than 5 manual units. The model does not capture those failures.
- Time zones, `datetime.today()` and `uuid.uuid1()` (lines 78-88) are not modelled. They depend on the clock and on library code.
- The hard-coded session start, birthday and weight (lines 82, 105, 112) are not modelled. They are constants, not logic.
- `np.ravel` and the nested `[0]` indexing into the `sp` struct are not modelled. Every input is taken as an already-flattened sequence. The source does not ravel `trial_contrast`; it is taken as flat too.
- Trial markers, cluster ids and template ids are modelled as integer-typed arrays, so `int(cluster_id)` is the identity and every id can index an array. Float-typed id arrays, which numpy would refuse as indices at lines 129, 151 and 231, are not modelled.
- Positions, timestamps and gains are reals, so IEEE rounding is not modelled.
- PositionChannels.DivideByTrialGain: a precondition requires the gain of every trial that occurs in `trial` to be non-zero. Gain entries that no marker reaches are unconstrained. Where the source would divide by a zero gain it produces `inf`/`nan` rather than an error, and the model does not capture that case.
- The order in which `convert` runs the stages is not modelled. Each table is built by its own method. A failure in an earlier stage would stop the later ones; that is not modelled.

## Findings

| source | as written | input that shows it | evidently intended | confidence | as-written member | corrected member |
|---|---|---|---|---|---|---|
| giocomo-lab-to-nwb/conversion.py:148-151 | `physical_posx = position_virtual` binds a second name to the same array. The in-place gain division then also rewrites the data of the virtual `Position` series created at line 139. | posx = [10.0], trial = [1], trial_gain = [2.0]: both series hold [5.0], and the virtual 10.0 is lost | the virtual series keeps the recorded positions, and only the physical series holds the divided ones (a copy before dividing) | high, not executed | PositionChannels.BuildPositionSeries, PositionChannels.RescaledChangesSample | PositionChannels.BuildPositionSeriesCopied |

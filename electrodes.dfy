// The electrode table of the conversion: one row per recording site of the
// probe, with its position on the probe and a filter description shared by
// every row.

module Electrodes {
  import opened Selection

  /** A coordinate the conversion either knows or records as not-a-number. */
  datatype Measure = NotANumber | Known(value: real)

  datatype ElectrodeRow = ElectrodeRow(
    id: nat,
    x: Measure, y: Measure, z: Measure,
    relativeX: real, relativeY: real,
    impedance: Measure,
    location: string,
    filtering: string,
    group: string)

  const HighPassFiltered: string := "The raw voltage signals from the electrodes were high-pass filtered"
  const NotHighPassFiltered: string := "The raw voltage signals from the electrodes were not high-pass filtered"
  const Location: string := "medial entorhinal cortex"
  const GroupName: string := "probe1"

  /** The filter description chosen once from the `hp_filtered` flag. */
  function FilterDescription(hpFiltered: bool): (d: string)
    ensures d == HighPassFiltered <==> hpFiltered
    ensures d == NotHighPassFiltered <==> !hpFiltered
  {
    var d := if hpFiltered then HighPassFiltered else NotHighPassFiltered;
    assert |HighPassFiltered| != |NotHighPassFiltered|;
    d
  }

  /** Adds one row per index `0 .. |xcoords| - 1`. The y coordinate is read
      by the same index, so a shorter `ycoords` fails at index `|ycoords|`. */
  method BuildElectrodeTable(xcoords: seq<real>, ycoords: seq<real>, hpFiltered: bool)
    returns (r: Result<seq<ElectrodeRow>>)
    ensures r.Ok? <==> |xcoords| <= |ycoords|
    ensures r.Err? ==> r.error == IndexOutOfRange(|ycoords|, |ycoords|)
    ensures r.Ok? ==>
              |r.value| == |xcoords| &&
              forall idx :: 0 <= idx < |r.value| ==>
                var row := r.value[idx];
                row.id == idx &&
                row.relativeX == xcoords[idx] && row.relativeY == ycoords[idx] &&
                row.x == NotANumber && row.y == NotANumber && row.z == NotANumber &&
                row.impedance == NotANumber &&
                row.location == Location && row.group == GroupName &&
                row.filtering == FilterDescription(hpFiltered)
  {
    var filterDesc := FilterDescription(hpFiltered);
    var n := |xcoords|;
    var rows: seq<ElectrodeRow> := [];
    var idx := 0;
    while idx < n
      invariant 0 <= idx <= n
      invariant idx <= |ycoords|
      invariant |rows| == idx
      invariant forall i :: 0 <= i < idx ==>
                  rows[i] == ElectrodeRow(i, NotANumber, NotANumber, NotANumber,
                                          xcoords[i], ycoords[i], NotANumber,
                                          Location, filterDesc, GroupName)
    {
      var y := PyIndex(ycoords, idx);
      if y.Err? {
        return Err(y.error);
      }
      rows := rows + [ElectrodeRow(idx, NotANumber, NotANumber, NotANumber,
                                   xcoords[idx], y.value, NotANumber,
                                   Location, filterDesc, GroupName)];
      idx := idx + 1;
    }
    return Ok(rows);
  }
}

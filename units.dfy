// The two unit tables of the conversion. The manually curated clusters go
// into the primary table, in the order of the cluster-id array; the
// automatic-sorting templates go into a second table, one row per distinct
// template id in ascending order. A unit's spike times are the spikes
// assigned to it, in their original order.

module UnitTables {
  import opened Selection
  import Electrodes

  /** A mean waveform, time samples by channels. */
  type Waveform = seq<seq<real>>

  /** A row of the primary unit table. */
  datatype UnitRow = UnitRow(id: int, spikeTimes: seq<real>, quality: int, waveformMean: Waveform, electrodeGroup: string)

  /** A row of the `TemplateUnits` table. */
  datatype TemplateUnitRow = TemplateUnitRow(id: int, spikeTimes: seq<real>, electrodeGroup: string)

  /** `row` is the unit for the cluster at position `i` of the cluster-id
      array, whose id is `cid`: quality is looked up by position, the mean
      waveform by id. */
  ghost predicate IsClusterRow(row: UnitRow, spikeTimes: seq<real>, spikeCluster: seq<int>,
                               quality: seq<int>, temps: seq<Waveform>, i: nat, cid: int) {
    |spikeTimes| == |spikeCluster| &&
    row.id == cid &&
    row.spikeTimes == Select(spikeTimes, spikeCluster, cid) &&
    PyIndex(quality, i) == Ok(row.quality) &&
    PyIndex(temps, cid) == Ok(row.waveformMean) &&
    row.electrodeGroup == Electrodes.GroupName
  }

  /** Both lookups for the cluster at position `i` succeed. */
  ghost predicate ClusterLookupsOk(quality: seq<int>, temps: seq<Waveform>, i: nat, cid: int) {
    PyIndex(temps, cid).Ok? && PyIndex(quality, i).Ok?
  }

  /** The error the cluster at position `i` raises: the waveform lookup on
      line 231 comes before the quality lookup on line 234. */
  function ClusterLookupError(quality: seq<int>, temps: seq<Waveform>, i: nat, cid: int): Error {
    if PyIndex(temps, cid).Err? then IndexOutOfRange(cid, |temps|) else IndexOutOfRange(i, |quality|)
  }

  /** One iteration of the manual-cluster loop. */
  function ClusterRowFor(spikeTimes: seq<real>, spikeCluster: seq<int>, quality: seq<int>,
                         temps: seq<Waveform>, i: nat, cid: int): (r: Result<UnitRow>)
    requires |spikeTimes| == |spikeCluster|
    ensures r.Ok? <==> ClusterLookupsOk(quality, temps, i, cid)
    ensures r.Ok? ==> IsClusterRow(r.value, spikeTimes, spikeCluster, quality, temps, i, cid)
    ensures r.Err? ==> r.error == ClusterLookupError(quality, temps, i, cid)
  {
    var unitSpikeTimes := Select(spikeTimes, spikeCluster, cid);
    match PyIndex(temps, cid)
    case Err(e) => Err(e)
    case Ok(waveform) =>
      match PyIndex(quality, i)
      case Err(e) => Err(e)
      case Ok(q) => Ok(UnitRow(cid, unitSpikeTimes, q, waveform, Electrodes.GroupName))
  }

  /** Builds the primary unit table, one row per entry of `clusterIds` in
      the given order, failing on the first cluster whose lookup fails. */
  method BuildClusterUnits(clusterIds: seq<int>, quality: seq<int>, spikeTimes: seq<real>,
                           spikeCluster: seq<int>, temps: seq<Waveform>)
    returns (r: Result<seq<UnitRow>>)
    ensures clusterIds != [] && |spikeCluster| != |spikeTimes| ==>
              r == Err(MaskLengthMismatch(|spikeCluster|, |spikeTimes|))
    ensures r.Ok? <==>
              (clusterIds == [] || |spikeCluster| == |spikeTimes|) &&
              forall i :: 0 <= i < |clusterIds| ==> ClusterLookupsOk(quality, temps, i, clusterIds[i])
    ensures r.Ok? ==>
              |r.value| == |clusterIds| &&
              forall i :: 0 <= i < |r.value| ==>
                IsClusterRow(r.value[i], spikeTimes, spikeCluster, quality, temps, i, clusterIds[i])
    ensures r.Err? && (clusterIds == [] || |spikeCluster| == |spikeTimes|) ==>
              exists i :: 0 <= i < |clusterIds| &&
                !ClusterLookupsOk(quality, temps, i, clusterIds[i]) &&
                (forall l :: 0 <= l < i ==> ClusterLookupsOk(quality, temps, l, clusterIds[l])) &&
                r.error == ClusterLookupError(quality, temps, i, clusterIds[i])
  {
    var rows: seq<UnitRow> := [];
    var i := 0;
    while i < |clusterIds|
      invariant 0 <= i <= |clusterIds|
      invariant i > 0 ==> |spikeCluster| == |spikeTimes|
      invariant |rows| == i
      invariant forall l :: 0 <= l < i ==>
                  ClusterLookupsOk(quality, temps, l, clusterIds[l]) &&
                  IsClusterRow(rows[l], spikeTimes, spikeCluster, quality, temps, l, clusterIds[l])
    {
      var clusterId := clusterIds[i];
      if |spikeCluster| != |spikeTimes| {
        return Err(MaskLengthMismatch(|spikeCluster|, |spikeTimes|));
      }
      var row := ClusterRowFor(spikeTimes, spikeCluster, quality, temps, i, clusterId);
      if row.Err? {
        return Err(row.error);
      }
      rows := rows + [row.value];
      i := i + 1;
    }
    return Ok(rows);
  }

  /** The spike times of each row, in table order. */
  function ClusterSpikeTimes(rows: seq<UnitRow>): seq<seq<real>> {
    seq(|rows|, j requires 0 <= j < |rows| => rows[j].spikeTimes)
  }

  /** When the cluster ids are distinct and include every cluster that
      fired, the primary table holds every spike exactly once. */
  lemma ClusterUnitsPartitionSpikes(rows: seq<UnitRow>, clusterIds: seq<int>, quality: seq<int>,
                                    spikeTimes: seq<real>, spikeCluster: seq<int>, temps: seq<Waveform>)
    requires |spikeTimes| == |spikeCluster|
    requires |rows| == |clusterIds|
    requires forall i :: 0 <= i < |rows| ==>
               IsClusterRow(rows[i], spikeTimes, spikeCluster, quality, temps, i, clusterIds[i])
    requires Distinct(clusterIds)
    requires forall k :: 0 <= k < |spikeCluster| ==> spikeCluster[k] in clusterIds
    ensures multiset(Flatten(ClusterSpikeTimes(rows))) == multiset(spikeTimes)
    ensures |Flatten(ClusterSpikeTimes(rows))| == |spikeTimes|
  {
    FlattenSelections(spikeTimes, spikeCluster, clusterIds, ClusterSpikeTimes(rows));
    GatherPartition(spikeTimes, spikeCluster, clusterIds);
  }

  /** The spike times of all template rows, in table order. */
  function TemplateSpikeTimes(rows: seq<TemplateUnitRow>): seq<seq<real>> {
    seq(|rows|, j requires 0 <= j < |rows| => rows[j].spikeTimes)
  }

  /** Builds the `TemplateUnits` table: one row per distinct template id, in
      ascending order, holding the spikes assigned to that template. When
      every spike has a template, each spike lands in exactly one row. */
  method BuildTemplateUnits(spikeTimes: seq<real>, spikeTemplates: seq<int>)
    returns (r: Result<seq<TemplateUnitRow>>)
    ensures r.Ok? <==> spikeTemplates == [] || |spikeTemplates| == |spikeTimes|
    ensures r.Err? ==> r.error == MaskLengthMismatch(|spikeTemplates|, |spikeTimes|)
    ensures r.Ok? ==>
              |r.value| == |Unique(spikeTemplates)| &&
              (forall j :: 0 <= j < |r.value| ==> r.value[j].id == Unique(spikeTemplates)[j]) &&
              (forall j, l :: 0 <= j < l < |r.value| ==> r.value[j].id < r.value[l].id) &&
              (forall j :: 0 <= j < |r.value| ==> r.value[j].electrodeGroup == Electrodes.GroupName)
    ensures r.Ok? && |spikeTemplates| == |spikeTimes| ==>
              (forall j :: 0 <= j < |r.value| ==>
                r.value[j].spikeTimes == Select(spikeTimes, spikeTemplates, r.value[j].id)) &&
              (forall k :: 0 <= k < |spikeTemplates| ==>
                exists j :: 0 <= j < |r.value| && r.value[j].id == spikeTemplates[k]) &&
              multiset(Flatten(TemplateSpikeTimes(r.value))) == multiset(spikeTimes) &&
              |Flatten(TemplateSpikeTimes(r.value))| == |spikeTimes|
  {
    var templateIds := Unique(spikeTemplates);
    UniqueIncreasing(spikeTemplates);
    var rows: seq<TemplateUnitRow> := [];
    var j := 0;
    while j < |templateIds|
      invariant 0 <= j <= |templateIds|
      invariant j > 0 ==> |spikeTemplates| == |spikeTimes|
      invariant |rows| == j
      invariant forall l :: 0 <= l < j ==>
                  rows[l] == TemplateUnitRow(templateIds[l], Select(spikeTimes, spikeTemplates, templateIds[l]), Electrodes.GroupName)
    {
      var templateId := templateIds[j];
      if |spikeTemplates| != |spikeTimes| {
        return Err(MaskLengthMismatch(|spikeTemplates|, |spikeTimes|));
      }
      var templateSpikeTimes := Select(spikeTimes, spikeTemplates, templateId);
      rows := rows + [TemplateUnitRow(templateId, templateSpikeTimes, Electrodes.GroupName)];
      j := j + 1;
    }
    if |spikeTemplates| == |spikeTimes| {
      TemplateUnitsPartitionSpikes(rows, spikeTimes, spikeTemplates);
    }
    return Ok(rows);
  }

  /** Rows built from the distinct template ids cover every spike: each
      spike's template has a row, and the rows together hold every spike
      exactly once. */
  lemma TemplateUnitsPartitionSpikes(rows: seq<TemplateUnitRow>, spikeTimes: seq<real>, spikeTemplates: seq<int>)
    requires |spikeTemplates| == |spikeTimes|
    requires |rows| == |Unique(spikeTemplates)|
    requires forall l :: 0 <= l < |rows| ==>
               rows[l].id == Unique(spikeTemplates)[l] &&
               rows[l].spikeTimes == Select(spikeTimes, spikeTemplates, rows[l].id)
    ensures forall k :: 0 <= k < |spikeTemplates| ==>
              exists j :: 0 <= j < |rows| && rows[j].id == spikeTemplates[k]
    ensures multiset(Flatten(TemplateSpikeTimes(rows))) == multiset(spikeTimes)
    ensures |Flatten(TemplateSpikeTimes(rows))| == |spikeTimes|
  {
    var templateIds := Unique(spikeTemplates);
    UniqueIncreasing(spikeTemplates);
    forall k | 0 <= k < |spikeTemplates|
      ensures exists j :: 0 <= j < |rows| && rows[j].id == spikeTemplates[k]
    {
      assert spikeTemplates[k] in templateIds;
    }
    FlattenSelections(spikeTimes, spikeTemplates, templateIds, TemplateSpikeTimes(rows));
    GatherPartition(spikeTimes, spikeTemplates, templateIds);
  }
}

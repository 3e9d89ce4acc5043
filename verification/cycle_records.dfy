/** The gait-cycle document both revisions write when a cycle completes
    (`_save_gait_cycle`). The wall-clock `timestamp` field is left out. */
module CycleRecords {
  import opened Wrappers

  datatype CycleRecord = CycleRecord(
    cycleDuration: real,   // seconds from the first to the last sample
    dataPoints: nat,
    time: seq<real>,       // seconds, relative to the first sample
    hipAngle: seq<real>,
    ankleAngle: seq<real>)

  /** Fewer accumulated samples than this save nothing. */
  const MinSavePoints: nat := 10

  /** Millisecond timestamps as seconds relative to `origin`. */
  function Relative(times: seq<real>, origin: real): (r: seq<real>)
    ensures |r| == |times|
    ensures forall i :: 0 <= i < |times| ==> origin + 1000.0 * r[i] == times[i]
  {
    seq(|times|, i requires 0 <= i < |times| => (times[i] - origin) / 1000.0)
  }

  /** The record written for the accumulated cycle lists, or `None` when
      there are too few samples. */
  function BuildRecord(times: seq<real>, hips: seq<real>, ankles: seq<real>): (r: Option<CycleRecord>)
    ensures r.None? <==> |times| < MinSavePoints
    ensures r.Some? ==>
      && r.value.dataPoints == |r.value.time| == |times|
      && r.value.time[0] == 0.0
      && (forall i :: 0 <= i < |times| ==> times[0] + 1000.0 * r.value.time[i] == times[i])
      && r.value.cycleDuration == r.value.time[|times| - 1]
      && r.value.hipAngle == hips && r.value.ankleAngle == ankles
  {
    if |times| < MinSavePoints then None
    else
      Some(CycleRecord(
        (times[|times| - 1] - times[0]) / 1000.0,
        |times|,
        Relative(times, times[0]),
        hips,
        ankles))
  }

  /** When the cycle lists are in lock-step, all three series of the record
      have `dataPoints` entries, and ascending timestamps give an ascending
      relative time series starting at 0. */
  lemma RecordShape(times: seq<real>, hips: seq<real>, ankles: seq<real>)
    requires |times| >= MinSavePoints && |hips| == |times| && |ankles| == |times|
    requires forall i, j :: 0 <= i <= j < |times| ==> times[i] <= times[j]
    ensures var r := BuildRecord(times, hips, ankles).value;
      && |r.time| == |r.hipAngle| == |r.ankleAngle| == r.dataPoints
      && (forall i, j :: 0 <= i <= j < |r.time| ==> 0.0 <= r.time[i] <= r.time[j])
      && r.cycleDuration >= 0.0
  {
    var r := BuildRecord(times, hips, ankles).value;
    forall i, j | 0 <= i <= j < |r.time| ensures 0.0 <= r.time[i] <= r.time[j] {
      assert times[0] + 1000.0 * r.time[i] == times[i];
      assert times[0] + 1000.0 * r.time[j] == times[j];
      assert times[0] <= times[i] <= times[j];
    }
  }

  /** A saved series document: key to numeric series. `None` stands for a
      missing or unreadable file. */
  type SeriesDoc = map<string, seq<real>>

  function Series(doc: SeriesDoc, key: string): seq<real> {
    if key in doc then doc[key] else []
  }

  /** The series part of the document `_save_gait_cycle` writes; the two
      scalar fields `cycle_duration` and `data_points` are not carried, since
      no loader reads them back. */
  function CycleDoc(rec: CycleRecord): (doc: SeriesDoc)
    ensures "time" in doc && "hip_angle" in doc && "ankle_angle" in doc
    // each series is read back as the record holds it
    ensures && Series(doc, "time") == rec.time
            && Series(doc, "hip_angle") == rec.hipAngle
            && Series(doc, "ankle_angle") == rec.ankleAngle
  {
    assert "time" != "hip_angle" && "time" != "ankle_angle" && "hip_angle" != "ankle_angle" by {
      assert "time"[0] != "hip_angle"[0] && "time"[0] != "ankle_angle"[0] && "hip_angle"[0] != "ankle_angle"[0];
    }
    map["time" := rec.time, "hip_angle" := rec.hipAngle, "ankle_angle" := rec.ankleAngle]
  }
}

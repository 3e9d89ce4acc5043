/** The online peak-based gait-cycle detector of the GUI collector
    (`_detect_gait_cycle`), as written, including its quirks: the first sample
    is not added to the cycle, and after an in-range peak pair the cycle is
    trimmed to start at the previous peak, which also becomes the cycle start
    time that drives the timeout. */
module PeakDetector {
  import opened Wrappers
  import opened CycleRecords
  import Rolling

  const HistoryCapacity: nat := 20   // `hip_angle_history` maxlen
  const TrendCapacity: nat := 5      // entries kept in `hip_angle_trend`
  const MinCycleMs: real := 800.0    // `min_cycle_duration`
  const MaxCycleMs: real := 3000.0   // `max_cycle_duration`
  const MinCycleSamples: nat := 20   // samples needed before a cycle is saved

  datatype HistoryEntry = HistoryEntry(time: real, angle: real, ankle: real)

  /** Detector state. `cycleStartTime` is only read after the first sample
      has set it. */
  datatype Detector = Detector(
    lastHip: Option<real>,
    cycleStartTime: real,
    inCycle: bool,
    cycleTime: seq<real>,
    cycleHip: seq<real>,
    cycleAnkle: seq<real>,
    history: seq<HistoryEntry>,
    trend: seq<real>,
    lastPeakTime: Option<real>,
    lastPeakAngle: Option<real>)

  /** The state after construction and after `clear_all_data`. */
  const Fresh := Detector(None, 0.0, false, [], [], [], [], [], None, None)

  /** One detector step: the new state and the record saved, if any. */
  datatype Step = Step(det: Detector, saved: Option<CycleRecord>)

  predicate LockStep(d: Detector) {
    |d.cycleHip| == |d.cycleTime| && |d.cycleAnkle| == |d.cycleTime|
  }

  /** Python's `s[k:]`, empty when `k` is past the end. */
  function PySlice(s: seq<real>, k: nat): (r: seq<real>)
    ensures k <= |s| ==> r == s[k..]
    ensures k > |s| ==> r == []
  {
    if k <= |s| then s[k..] else []
  }

  /** The `enumerate` search: index of the first timestamp `>= x` at or
      after `i`, or 0 when there is none. */
  function FirstAtOrAfter(ts: seq<real>, x: real, i: nat): (k: nat)
    requires i <= |ts|
    ensures k == 0 || i <= k < |ts|
    ensures (exists j :: i <= j < |ts| && ts[j] >= x) ==>
      i <= k < |ts| && ts[k] >= x && forall j :: i <= j < k ==> ts[j] < x
    ensures (forall j :: i <= j < |ts| ==> ts[j] < x) ==> k == 0
    decreases |ts| - i
  {
    if i == |ts| then 0
    else if ts[i] >= x then i
    else FirstAtOrAfter(ts, x, i + 1)
  }

  /** `after` is what remains of `before` once a prefix is dropped. */
  predicate SuffixOf(after: seq<real>, before: seq<real>) {
    |after| <= |before| && after == before[|before| - |after|..]
  }

  /** `after` is `before` with exactly the timestamps preceding the first
      one `>= x` dropped (nothing dropped when there is no such timestamp). */
  predicate TrimmedAt(before: seq<real>, after: seq<real>, x: real) {
    && SuffixOf(after, before)
    && (forall j :: 0 <= j < |before| - |after| ==> before[j] < x)
    && ((exists j :: 0 <= j < |before| && before[j] >= x) ==> |after| > 0 && after[0] >= x)
  }

  /** Drop the cycle samples preceding the first timestamp `>= x`, in all
      three lists; a cycle with no such timestamp is kept whole. */
  function TrimFrom(d: Detector, x: real): (r: Detector)
    ensures TrimmedAt(d.cycleTime, r.cycleTime, x)
    ensures LockStep(d) ==>
      && LockStep(r)
      && SuffixOf(r.cycleHip, d.cycleHip)
      && SuffixOf(r.cycleAnkle, d.cycleAnkle)
    ensures r.(cycleTime := d.cycleTime, cycleHip := d.cycleHip, cycleAnkle := d.cycleAnkle) == d
  {
    var k := FirstAtOrAfter(d.cycleTime, x, 0);
    d.(cycleTime := PySlice(d.cycleTime, k),
       cycleHip := PySlice(d.cycleHip, k),
       cycleAnkle := PySlice(d.cycleAnkle, k))
  }

  predicate Flips(lastTrend: real, diff: real) {
    (lastTrend > 0.0 && diff < 0.0) || (lastTrend < 0.0 && diff > 0.0)
  }

  /** The peak test. `hist` already holds the current sample, so the
      candidate is its second-to-last entry, compared with the entry before
      it and with the current angle. */
  function FindPeak(trend: seq<real>, hist: seq<HistoryEntry>, hip: real, diff: real): (r: Option<HistoryEntry>)
    ensures r.Some? <==>
      && |trend| > 0 && Flips(trend[|trend| - 1], diff) && |hist| >= 3
      && var prev := hist[|hist| - 3].angle;
         var mid := hist[|hist| - 2].angle;
         (mid >= prev && mid >= hip) || (mid <= prev && mid <= hip)
    ensures r.Some? ==> r.value == hist[|hist| - 2]
  {
    if |trend| > 0 && Flips(trend[|trend| - 1], diff) && |hist| >= 3 then
      var prev := hist[|hist| - 3].angle;
      var mid := hist[|hist| - 2];
      if (mid.angle >= prev && mid.angle >= hip) || (mid.angle <= prev && mid.angle <= hip) then
        Some(mid)
      else
        None
    else
      None
  }

  /** What a qualifying peak `p` does. */
  function OnPeak(d: Detector, p: HistoryEntry): (r: Step)
    ensures r.det.lastPeakTime == Some(p.time) && r.det.lastPeakAngle == Some(p.angle)
    ensures r.saved.Some? <==>
      && d.lastPeakTime.Some?
      && MinCycleMs <= p.time - d.lastPeakTime.value <= MaxCycleMs
      && |d.cycleTime| >= MinCycleSamples
    ensures r.saved.Some? ==> r.saved == BuildRecord(d.cycleTime, d.cycleHip, d.cycleAnkle)
    // an in-range pair keeps the cycle from the previous peak on
    ensures d.lastPeakTime.Some? && MinCycleMs <= p.time - d.lastPeakTime.value <= MaxCycleMs ==>
      && TrimmedAt(d.cycleTime, r.det.cycleTime, d.lastPeakTime.value)
      && r.det.cycleStartTime == (if d.cycleTime == [] then d.cycleStartTime else d.lastPeakTime.value)
      // the angle lists lose the same prefix as the times
      && (LockStep(d) ==> SuffixOf(r.det.cycleHip, d.cycleHip) && SuffixOf(r.det.cycleAnkle, d.cycleAnkle))
    // an out-of-range pair keeps the cycle as it is
    ensures d.lastPeakTime.Some? && !(MinCycleMs <= p.time - d.lastPeakTime.value <= MaxCycleMs) ==>
      r.det == d.(lastPeakTime := Some(p.time), lastPeakAngle := Some(p.angle))
    // the first peak starts the cycle at itself
    ensures d.lastPeakTime.None? ==>
      && TrimmedAt(d.cycleTime, r.det.cycleTime, p.time)
      && r.det.cycleStartTime == p.time
      && (LockStep(d) ==> SuffixOf(r.det.cycleHip, d.cycleHip) && SuffixOf(r.det.cycleAnkle, d.cycleAnkle))
    ensures LockStep(d) ==> LockStep(r.det)
    ensures r.det.inCycle == d.inCycle && r.det.lastHip == d.lastHip
    ensures r.det.history == d.history && r.det.trend == d.trend
  {
    match d.lastPeakTime
    case Some(lp) =>
      var duration := p.time - lp;
      var st :=
        if MinCycleMs <= duration <= MaxCycleMs then
          var saved := if |d.cycleTime| >= MinCycleSamples then BuildRecord(d.cycleTime, d.cycleHip, d.cycleAnkle) else None;
          if d.cycleTime != [] then
            Step(TrimFrom(d, lp).(cycleStartTime := lp), saved)
          else
            Step(d, saved)
        else
          Step(d, None);
      Step(st.det.(lastPeakTime := Some(p.time), lastPeakAngle := Some(p.angle)), st.saved)
    case None =>
      var d1 := d.(lastPeakTime := Some(p.time), lastPeakAngle := Some(p.angle), cycleStartTime := p.time);
      Step(TrimFrom(d1, p.time), None)
  }

  /** `hip_angle_trend.append(diff)`, then drop the oldest beyond five. */
  function PushTrend(trend: seq<real>, diff: real): (r: seq<real>)
    ensures |trend| <= TrendCapacity ==> |r| <= TrendCapacity
    ensures |r| > 0 && r[|r| - 1] == diff
    ensures |trend| < TrendCapacity ==> r == trend + [diff]
  {
    var tr := trend + [diff];
    if |tr| > TrendCapacity then tr[1..] else tr
  }

  /** Add the sample to the cycle, abandoning a cycle that outlived the
      3000 ms bound; outside a cycle, start a new one holding the sample. */
  function Accumulate(d: Detector, t: real, hip: real, ankle: real): (r: Detector)
    ensures d.inCycle && t - d.cycleStartTime > MaxCycleMs ==>
      !r.inCycle && r.cycleTime == [] && r.cycleHip == [] && r.cycleAnkle == []
      && r.lastPeakTime.None? && r.lastPeakAngle.None?
    ensures d.inCycle && t - d.cycleStartTime <= MaxCycleMs ==>
      r == d.(cycleTime := d.cycleTime + [t], cycleHip := d.cycleHip + [hip], cycleAnkle := d.cycleAnkle + [ankle])
    ensures !d.inCycle ==>
      && r.inCycle && r.cycleStartTime == t
      && r.cycleTime == [t] && r.cycleHip == [hip] && r.cycleAnkle == [ankle]
      && r.lastPeakTime.None? && r.lastPeakAngle.None?
    ensures LockStep(d) ==> LockStep(r)
    ensures r.lastHip == d.lastHip && r.history == d.history && r.trend == d.trend
  {
    if d.inCycle then
      var d1 := d.(cycleTime := d.cycleTime + [t], cycleHip := d.cycleHip + [hip], cycleAnkle := d.cycleAnkle + [ankle]);
      // the list is never empty here, so the length guard of the source always passes
      if t - d1.cycleStartTime > MaxCycleMs then
        d1.(inCycle := false, cycleTime := [], cycleHip := [], cycleAnkle := [],
            lastPeakTime := None, lastPeakAngle := None)
      else
        d1
    else
      d.(inCycle := true, cycleStartTime := t,
         cycleTime := [t], cycleHip := [hip], cycleAnkle := [ankle],
         lastPeakTime := None, lastPeakAngle := None)
  }

  /** The peak stage of a non-first sample: history update and peak test. */
  function PeakStage(d: Detector, last: real, t: real, hip: real, ankle: real): (r: Step)
    ensures r.det.history == Rolling.Push(d.history, HistoryEntry(t, hip, ankle), HistoryCapacity)
    ensures r.det.inCycle == d.inCycle && r.det.trend == d.trend
    // a record is saved only for an in-range peak pair over at least 20 samples
    ensures r.saved.Some? ==>
      && d.lastPeakTime.Some? && |d.history| > 0
      && MinCycleMs <= d.history[|d.history| - 1].time - d.lastPeakTime.value <= MaxCycleMs
      && |d.cycleTime| >= MinCycleSamples
      && r.saved == BuildRecord(d.cycleTime, d.cycleHip, d.cycleAnkle)
    ensures LockStep(d) ==> LockStep(r.det)
  {
    var hist := Rolling.Push(d.history, HistoryEntry(t, hip, ankle), HistoryCapacity);
    var d1 := d.(history := hist);
    match FindPeak(d.trend, hist, hip, hip - last)
    case Some(p) =>
      Rolling.PushKeepsRecent(d.history, HistoryEntry(t, hip, ankle), HistoryCapacity, 1);
      OnPeak(d1, p)
    case None => Step(d1, None)
  }

  /** `_detect_gait_cycle(t, hip, ankle)`. */
  function Detect(d: Detector, t: real, hip: real, ankle: real): (r: Step)
    ensures r.det.lastHip == Some(hip)
    // the first sample only arms the detector
    ensures d.lastHip.None? ==>
      && r.saved.None? && r.det.inCycle && r.det.cycleStartTime == t
      && r.det.cycleTime == [] && r.det.history == [] && r.det.trend == []
    // a record is saved only for an in-range peak pair over at least 20 samples
    ensures r.saved.Some? ==>
      && d.lastHip.Some? && d.lastPeakTime.Some? && |d.history| > 0
      && MinCycleMs <= d.history[|d.history| - 1].time - d.lastPeakTime.value <= MaxCycleMs
      && |d.cycleTime| >= MinCycleSamples
      && r.saved == BuildRecord(d.cycleTime, d.cycleHip, d.cycleAnkle)
    // a sample outside a cycle starts a new cycle holding only itself
    ensures d.lastHip.Some? && !d.inCycle ==>
      && r.det.inCycle && r.det.cycleStartTime == t
      && r.det.cycleTime == [t] && r.det.cycleHip == [hip] && r.det.cycleAnkle == [ankle]
      && r.det.lastPeakTime.None?
    ensures |r.det.history| <= HistoryCapacity
    ensures |d.trend| <= TrendCapacity ==> |r.det.trend| <= TrendCapacity
    ensures LockStep(d) ==> LockStep(r.det)
  {
    match d.lastHip
    case None =>
      Step(d.(lastHip := Some(hip), cycleStartTime := t, inCycle := true,
              cycleTime := [], cycleHip := [], cycleAnkle := [],
              history := [], trend := []), None)
    case Some(last) =>
      var st := PeakStage(d, last, t, hip, ankle);
      var d2 := st.det.(trend := PushTrend(d.trend, hip - last));
      var d3 := Accumulate(d2, t, hip, ankle);
      Step(d3.(lastHip := Some(hip)), st.saved)
  }
}

module PeakDetectorFacts {
  import opened Wrappers
  import opened CycleRecords
  import Rolling
  import opened PeakDetector

  /** Invariant of every state the detector reaches from `Fresh`: bounded
      history and trend, cycle lists in lock-step, the newest history entry
      is the last angle seen, and the newest trend entry is the difference of
      the two newest history angles. */
  predicate Coherent(d: Detector) {
    && |d.trend| <= TrendCapacity
    && |d.history| <= HistoryCapacity
    && LockStep(d)
    && (d.lastHip.Some? && |d.history| > 0 ==> d.history[|d.history| - 1].angle == d.lastHip.value)
    && (|d.trend| > 0 && |d.history| > 1 ==>
          d.trend[|d.trend| - 1] == d.history[|d.history| - 1].angle - d.history[|d.history| - 2].angle)
  }

  lemma FreshCoherent()
    ensures Coherent(Fresh)
  {
  }

  /** The history and trend after a non-first sample. */
  lemma DetectHistoryTrend(d: Detector, t: real, hip: real, ankle: real)
    requires d.lastHip.Some?
    ensures var r := Detect(d, t, hip, ankle).det;
      && r.history == Rolling.Push(d.history, HistoryEntry(t, hip, ankle), HistoryCapacity)
      && r.trend == PushTrend(d.trend, hip - d.lastHip.value)
  {
    var st := PeakStage(d, d.lastHip.value, t, hip, ankle);
    assert st.det.history == Rolling.Push(d.history, HistoryEntry(t, hip, ankle), HistoryCapacity);
  }

  /** Every detector step keeps the invariant. */
  lemma DetectKeepsCoherent(d: Detector, t: real, hip: real, ankle: real)
    requires Coherent(d)
    ensures Coherent(Detect(d, t, hip, ankle).det)
  {
    var r := Detect(d, t, hip, ankle).det;
    if d.lastHip.Some? {
      DetectHistoryTrend(d, t, hip, ankle);
      var hist := r.history;
      assert hist[|hist| - 1].angle == hip;
      if |d.history| > 0 {
        Rolling.PushKeepsRecent(d.history, HistoryEntry(t, hip, ankle), HistoryCapacity, 1);
      }
    }
  }

  /** With the invariant, the extremum test after a strict trend flip always
      passes, and strictly: the middle sample is strictly above or strictly
      below both neighbours. So the `>=`/`<=` tie-break of the peak test never
      decides anything in a reachable state. */
  lemma FlipIsStrictPeak(d: Detector, t: real, hip: real, ankle: real)
    requires Coherent(d) && d.lastHip.Some?
    requires |d.trend| > 0 && Flips(d.trend[|d.trend| - 1], hip - d.lastHip.value)
    requires |d.history| >= 2
    ensures var hist := Rolling.Push(d.history, HistoryEntry(t, hip, ankle), HistoryCapacity);
      && FindPeak(d.trend, hist, hip, hip - d.lastHip.value).Some?
      && var prev := hist[|hist| - 3].angle;
         var mid := hist[|hist| - 2].angle;
         (mid > prev && mid > hip) || (mid < prev && mid < hip)
  {
    var hist := Rolling.Push(d.history, HistoryEntry(t, hip, ankle), HistoryCapacity);
    Rolling.PushKeepsRecent(d.history, HistoryEntry(t, hip, ankle), HistoryCapacity, 1);
    Rolling.PushKeepsRecent(d.history, HistoryEntry(t, hip, ankle), HistoryCapacity, 2);
    var n := |d.history|;
    var prev, mid := d.history[n - 2].angle, d.history[n - 1].angle;
    assert hist[|hist| - 3].angle == prev && hist[|hist| - 2].angle == mid;
    // the last trend is the step into `mid`, the new difference the step out of it
    assert mid == d.lastHip.value && d.trend[|d.trend| - 1] == mid - prev;
    assert (mid > prev && mid > hip) || (mid < prev && mid < hip);
  }

  /** A sample more than 3000 ms after the cycle start abandons the cycle and
      forgets the last peak; the next sample starts a cycle holding only
      itself, with no prior peak, and saves nothing. */
  lemma TimeoutThenRestart(d: Detector, t1: real, h1: real, a1: real, t2: real, h2: real, a2: real)
    requires d.lastHip.Some? && d.inCycle
    requires t1 - PeakStage(d, d.lastHip.value, t1, h1, a1).det.cycleStartTime > MaxCycleMs
    ensures var r1 := Detect(d, t1, h1, a1).det;
      && !r1.inCycle && r1.cycleTime == [] && r1.cycleHip == [] && r1.cycleAnkle == []
      && r1.lastPeakTime.None?
    ensures var r2 := Detect(Detect(d, t1, h1, a1).det, t2, h2, a2);
      && r2.saved.None? && r2.det.inCycle
      && r2.det.cycleTime == [t2] && r2.det.cycleHip == [h2] && r2.det.cycleAnkle == [a2]
      && r2.det.lastPeakTime.None?
  {
  }

  /** The peak stage leaves the cycle starting at its old start, at the last
      peak, or at the time of a sample in the history. */
  lemma PeakStageStart(d: Detector, last: real, t: real, hip: real, ankle: real)
    ensures var st := PeakStage(d, last, t, hip, ankle).det.cycleStartTime;
      || st == d.cycleStartTime
      || (d.lastPeakTime.Some? && st == d.lastPeakTime.value)
      || (exists e :: e in d.history && st == e.time)
  {
    var hist := Rolling.Push(d.history, HistoryEntry(t, hip, ankle), HistoryCapacity);
    var fp := FindPeak(d.trend, hist, hip, hip - last);
    if fp.Some? {
      assert |d.history| >= 1;
      Rolling.PushKeepsRecent(d.history, HistoryEntry(t, hip, ankle), HistoryCapacity, 1);
      assert fp.value == d.history[|d.history| - 1];
    }
  }

  /** The timeout scenario in terms of timestamps: a sample more than
      3000 ms after the cycle start, the last peak and every sample in the
      history abandons the cycle, and the next one starts afresh. */
  lemma TimeoutAfterGap(d: Detector, t1: real, h1: real, a1: real, t2: real, h2: real, a2: real)
    requires d.lastHip.Some? && d.inCycle
    requires t1 - d.cycleStartTime > MaxCycleMs
    requires d.lastPeakTime.Some? ==> t1 - d.lastPeakTime.value > MaxCycleMs
    requires forall e :: e in d.history ==> t1 - e.time > MaxCycleMs
    ensures var r1 := Detect(d, t1, h1, a1).det;
      && !r1.inCycle && r1.cycleTime == [] && r1.cycleHip == [] && r1.cycleAnkle == []
      && r1.lastPeakTime.None?
    ensures var r2 := Detect(Detect(d, t1, h1, a1).det, t2, h2, a2);
      && r2.saved.None? && r2.det.inCycle
      && r2.det.cycleTime == [t2] && r2.det.cycleHip == [h2] && r2.det.cycleAnkle == [a2]
      && r2.det.lastPeakTime.None?
  {
    PeakStageStart(d, d.lastHip.value, t1, h1, a1);
    TimeoutThenRestart(d, t1, h1, a1, t2, h2, a2);
  }
}

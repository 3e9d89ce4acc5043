/** Consumer side of the GUI collector: `process_data` moves queued samples
    into the three rolling buffers and through the cycle detector; plus the
    snapshot, reload and clear operations on that state. */
module GuiCollector {
  import opened Wrappers
  import opened Telemetry
  import opened CycleRecords
  import Rolling
  import PeakDetector
  import PeakDetectorFacts

  /** Records consumed by one `process_data` call at most. */
  const MaxPerCall: nat := 100

  /** Buffers, detector, and the cycle file's contents (the newest saved
      record). */
  datatype Collector = Collector(
    timeData: seq<real>,
    hipData: seq<real>,
    ankleData: seq<real>,
    detector: PeakDetector.Detector,
    savedCycle: Option<CycleRecord>)

  const Initial := Collector([], [], [], PeakDetector.Fresh, None)

  /** The three buffers have equal length, at most the capacity. */
  predicate BuffersWf(c: Collector) {
    && |c.hipData| == |c.timeData| && |c.ankleData| == |c.timeData|
    && |c.timeData| <= Rolling.Capacity
  }

  predicate Wf(c: Collector) {
    BuffersWf(c) && PeakDetectorFacts.Coherent(c.detector)
  }

  /** One queued sample: append to all three buffers, then run the detector;
      a saved record replaces the previous cycle file. */
  function Consume(c: Collector, s: Sample): (r: Collector)
    ensures Wf(c) ==> Wf(r)
    ensures r.timeData == Rolling.Push(c.timeData, s.t, Rolling.Capacity)
    ensures r.hipData == Rolling.Push(c.hipData, s.h, Rolling.Capacity)
    ensures r.ankleData == Rolling.Push(c.ankleData, s.a, Rolling.Capacity)
    // the detector sees the sample; the cycle it saves, if any, becomes the file
    ensures var st := PeakDetector.Detect(c.detector, s.t, s.h, s.a);
      && r.detector == st.det
      && r.savedCycle == (if st.saved.Some? then st.saved else c.savedCycle)
  {
    var st := PeakDetector.Detect(c.detector, s.t, s.h, s.a);
    DetectCoherent(c.detector, s);
    Collector(
      Rolling.Push(c.timeData, s.t, Rolling.Capacity),
      Rolling.Push(c.hipData, s.h, Rolling.Capacity),
      Rolling.Push(c.ankleData, s.a, Rolling.Capacity),
      st.det,
      if st.saved.Some? then st.saved else c.savedCycle)
  }

  lemma DetectCoherent(d: PeakDetector.Detector, s: Sample)
    ensures PeakDetectorFacts.Coherent(d) ==>
      PeakDetectorFacts.Coherent(PeakDetector.Detect(d, s.t, s.h, s.a).det)
  {
    if PeakDetectorFacts.Coherent(d) { PeakDetectorFacts.DetectKeepsCoherent(d, s.t, s.h, s.a); }
  }

  /** The detector alone run over the samples in order: its final state,
      and the last cycle record saved along the way, if any. */
  function DetectAll(d: PeakDetector.Detector, ss: seq<Sample>): (r: PeakDetector.Step)
    ensures PeakDetectorFacts.Coherent(d) ==> PeakDetectorFacts.Coherent(r.det)
    ensures ss == [] ==> r == PeakDetector.Step(d, None)
    decreases |ss|
  {
    if ss == [] then PeakDetector.Step(d, None)
    else
      var st := PeakDetector.Detect(d, ss[0].t, ss[0].h, ss[0].a);
      DetectCoherent(d, ss[0]);
      var rest := DetectAll(st.det, ss[1..]);
      PeakDetector.Step(rest.det, if rest.saved.Some? then rest.saved else st.saved)
  }

  /** The samples consumed in order. */
  function ConsumeAll(c: Collector, ss: seq<Sample>): (r: Collector)
    ensures Wf(c) ==> Wf(r)
    // every sample went through the detector, and the cycle file holds the
    // last record it saved
    ensures r.detector == DetectAll(c.detector, ss).det
    ensures r.savedCycle ==
      (if DetectAll(c.detector, ss).saved.Some? then DetectAll(c.detector, ss).saved else c.savedCycle)
    ensures r.timeData == Rolling.PushAll(c.timeData, Times(ss), Rolling.Capacity)
    ensures r.hipData == Rolling.PushAll(c.hipData, Hips(ss), Rolling.Capacity)
    ensures r.ankleData == Rolling.PushAll(c.ankleData, Ankles(ss), Rolling.Capacity)
    decreases |ss|
  {
    if ss == [] then c
    else
      assert Times(ss)[1..] == Times(ss[1..]);
      assert Hips(ss)[1..] == Hips(ss[1..]);
      assert Ankles(ss)[1..] == Ankles(ss[1..]);
      ConsumeAll(Consume(c, ss[0]), ss[1..])
  }

  datatype Processed = Processed(collector: Collector, queue: seq<Sample>)

  /** `process_data`: consume at most 100 queued samples, oldest first. The
      buffers then hold the newest 2000 values of everything appended, in
      arrival order, in lock-step. */
  function ProcessData(c: Collector, queue: seq<Sample>): (r: Processed)
    ensures var n := if |queue| < MaxPerCall then |queue| else MaxPerCall;
      && r.queue == queue[n..]
      && (BuffersWf(c) ==>
           && r.collector.timeData == Rolling.Newest(c.timeData + Times(queue[..n]), Rolling.Capacity)
           && r.collector.hipData == Rolling.Newest(c.hipData + Hips(queue[..n]), Rolling.Capacity)
           && r.collector.ankleData == Rolling.Newest(c.ankleData + Ankles(queue[..n]), Rolling.Capacity))
    // every consumed sample went through the detector, and the cycle file
    // holds the last record it saved
    ensures var n := if |queue| < MaxPerCall then |queue| else MaxPerCall;
      var st := DetectAll(c.detector, queue[..n]);
      && r.collector.detector == st.det
      && r.collector.savedCycle == (if st.saved.Some? then st.saved else c.savedCycle)
    ensures Wf(c) ==> Wf(r.collector)
  {
    var n := if |queue| < MaxPerCall then |queue| else MaxPerCall;
    ConsumeAllKeepsNewest(c, queue[..n]);
    Processed(ConsumeAll(c, queue[..n]), queue[n..])
  }

  /** From lock-step buffers, a batch leaves the newest values of everything
      appended. */
  lemma ConsumeAllKeepsNewest(c: Collector, ss: seq<Sample>)
    ensures BuffersWf(c) ==>
      && ConsumeAll(c, ss).timeData == Rolling.Newest(c.timeData + Times(ss), Rolling.Capacity)
      && ConsumeAll(c, ss).hipData == Rolling.Newest(c.hipData + Hips(ss), Rolling.Capacity)
      && ConsumeAll(c, ss).ankleData == Rolling.Newest(c.ankleData + Ankles(ss), Rolling.Capacity)
  {
    if BuffersWf(c) {
      Rolling.BatchKeepsNewest(c.timeData, Times(ss));
      Rolling.BatchKeepsNewest(c.hipData, Hips(ss));
      Rolling.BatchKeepsNewest(c.ankleData, Ankles(ss));
    }
  }

  /** `get_realtime_data`: the first `min_len` entries of each buffer, times
      in seconds relative to the newest timestamp. */
  function GetRealtimeData(c: Collector): (r: Snapshot)
    ensures |r.time| == |r.hip| == |r.ankle|
    ensures |r.time| <= |c.timeData| && |r.hip| <= |c.hipData| && |r.ankle| <= |c.ankleData|
    ensures r.hip == c.hipData[..|r.hip|] && r.ankle == c.ankleData[..|r.ankle|]
    ensures (c.timeData == [] || c.hipData == [] || c.ankleData == []) <==> r.time == []
    ensures r.time != [] ==> |r.time| == Min(Min(|c.timeData|, |c.hipData|), |c.ankleData|)
    ensures r.time != [] ==> forall i :: 0 <= i < |r.time| ==>
      c.timeData[|c.timeData| - 1] + 1000.0 * r.time[i] == c.timeData[i]
    // with lock-step buffers the whole history is returned and ends at 0
    ensures BuffersWf(c) && c.timeData != [] ==>
      |r.time| == |c.timeData| && r.time[|r.time| - 1] == 0.0
  {
    if |c.timeData| == 0 || |c.hipData| == 0 || |c.ankleData| == 0 then
      Snapshot([], [], [])
    else
      var n := Min(Min(|c.timeData|, |c.hipData|), |c.ankleData|);
      var latest := c.timeData[|c.timeData| - 1];
      Snapshot(
        seq(n, i requires 0 <= i < n => (c.timeData[i] - latest) / 1000.0),
        c.hipData[..n],
        c.ankleData[..n])
  }

  function Min(a: nat, b: nat): nat {
    if a < b then a else b
  }

  /** `clear_all_data`: empty buffers and a detector as freshly constructed.
      The cycle file is not touched. */
  function ClearAllData(c: Collector): (r: Collector)
    ensures Wf(r) && r.timeData == [] && r.hipData == [] && r.ankleData == []
    ensures r.detector == PeakDetector.Fresh
    ensures r.savedCycle == c.savedCycle
  {
    PeakDetectorFacts.FreshCoherent();
    Collector([], [], [], PeakDetector.Fresh, c.savedCycle)
  }

  /** After a clear, the next sample is treated as the first one: it is
      buffered but only arms the detector. */
  lemma ClearThenFirstSample(c: Collector, s: Sample)
    ensures var r := Consume(ClearAllData(c), s);
      && r.timeData == [s.t] && r.hipData == [s.h] && r.ankleData == [s.a]
      && r.detector.cycleTime == [] && r.detector.lastHip == Some(s.h)
      && r.savedCycle == c.savedCycle
  {
    var c0 := ClearAllData(c);
    var st := PeakDetector.Detect(c0.detector, s.t, s.h, s.a);
    assert st.saved.None? && st.det.cycleTime == [] && st.det.lastHip == Some(s.h);
    assert Consume(c0, s).detector == st.det;
    assert [] + [s.t] == [s.t] && [] + [s.h] == [s.h] && [] + [s.a] == [s.a];
  }

  /** Python's `int(x)`: truncation toward zero. */
  function Trunc(x: real): (r: int)
    ensures x >= 0.0 ==> r as real <= x < r as real + 1.0
    ensures x < 0.0 ==> r as real - 1.0 < x <= r as real
  {
    if x >= 0.0 then x.Floor else -((-x).Floor)
  }

  /** The absolute timestamp rebuilt for relative time `rel`. */
  function Rebuilt(baseMs: int, rel: real, first: real): real {
    (baseMs + Trunc(rel * 1000.0) - Trunc(first * 1000.0)) as real
  }

  datatype Loaded = Loaded(collector: Collector, ok: bool)

  /** The timestamps `load_realtime_data` rebuilds, one per relative time,
      against the first. */
  function Stamps(times: seq<real>, baseMs: int): (r: seq<real>)
    requires |times| > 0
    ensures |r| == |times|
  {
    seq(|times|, i requires 0 <= i < |times| => Rebuilt(baseMs, times[i], times[0]))
  }

  /** The loop of `load_realtime_data` from entry `i` on, as written: the
      time entry is appended before the hip and ankle series are indexed, so
      a short angle series stops the loop with an error after a partial
      append. Rebuilding a timestamp cannot fail, so `stamps` holds them
      all. */
  function LoadEntriesAsWritten(c: Collector, stamps: seq<real>, hips: seq<real>, ankles: seq<real>,
                                i: nat): (r: Loaded)
    requires i <= |stamps|
    ensures r.collector.detector == c.detector && r.collector.savedCycle == c.savedCycle
    decreases |stamps| - i
  {
    if i == |stamps| then Loaded(c, true)
    else
      var c1 := c.(timeData := Rolling.Push(c.timeData, stamps[i], Rolling.Capacity));
      if i >= |hips| then Loaded(c1, false)
      else
        var c2 := c1.(hipData := Rolling.Push(c1.hipData, hips[i], Rolling.Capacity));
        if i >= |ankles| then Loaded(c2, false)
        else
          var c3 := c2.(ankleData := Rolling.Push(c2.ankleData, ankles[i], Rolling.Capacity));
          LoadEntriesAsWritten(c3, stamps, hips, ankles, i + 1)
  }

  /** `load_realtime_data` as written. An empty time series changes nothing;
      otherwise the buffers are cleared and refilled. */
  function LoadRealtimeDataAsWritten(c: Collector, file: Option<SeriesDoc>, baseMs: int): (r: Loaded)
    ensures file.None? ==> r == Loaded(c, false)
    ensures file.Some? && Series(file.value, "time") == [] ==> r == Loaded(c, true)
  {
    match file
    case None => Loaded(c, false)
    case Some(doc) =>
      var times := Series(doc, "time");
      if |times| == 0 then Loaded(c, true)
      else
        LoadEntriesAsWritten(c.(timeData := [], hipData := [], ankleData := []),
                             Stamps(times, baseMs), Series(doc, "hip_angle"), Series(doc, "ankle_angle"), 0)
  }

  /** The first entry of a fresh load with every series long enough. */
  lemma AsWrittenFirstEntry(c: Collector, stamps: seq<real>, hips: seq<real>, ankles: seq<real>)
    requires c.timeData == [] && c.hipData == [] && c.ankleData == []
    requires |stamps| > 1 && |hips| > 0 && |ankles| > 0
    ensures LoadEntriesAsWritten(c, stamps, hips, ankles, 0)
         == LoadEntriesAsWritten(c.(timeData := [stamps[0]], hipData := [hips[0]], ankleData := [ankles[0]]),
                                 stamps, hips, ankles, 1)
  {
  }

  /** The second entry when the hip series has only one angle: the time is
      appended, then the load stops. */
  lemma AsWrittenShortHip(c: Collector, stamps: seq<real>, hips: seq<real>, ankles: seq<real>)
    requires |c.timeData| == 1 && |stamps| > 1 && |hips| == 1
    ensures LoadEntriesAsWritten(c, stamps, hips, ankles, 1)
         == Loaded(c.(timeData := c.timeData + [stamps[1]]), false)
  {
  }

  /** A file with two timestamps but only one hip angle. */
  const ShortHipDoc: SeriesDoc := map["time" := [0.0, 0.01], "hip_angle" := [1.0], "ankle_angle" := [1.0, 2.0]]

  lemma ShortHipDocSeries()
    ensures Series(ShortHipDoc, "time") == [0.0, 0.01]
    ensures Series(ShortHipDoc, "hip_angle") == [1.0]
    ensures Series(ShortHipDoc, "ankle_angle") == [1.0, 2.0]
  {
    assert "time" != "hip_angle" && "time" != "ankle_angle" && "hip_angle" != "ankle_angle" by {
      assert "time"[0] != "hip_angle"[0] && "time"[0] != "ankle_angle"[0] && "hip_angle"[0] != "ankle_angle"[0];
    }
  }

  /** The two timestamps rebuilt for that file. */
  function ShortHipStamps(): (r: seq<real>)
    ensures |r| == 2
  {
    ShortHipDocSeries();
    Stamps(Series(ShortHipDoc, "time"), 1000)
  }

  /** A file with timestamps clears the buffers and enters the entry loop. */
  lemma AsWrittenLoadStarts(c: Collector, doc: SeriesDoc, baseMs: int)
    requires Series(doc, "time") != []
    ensures LoadRealtimeDataAsWritten(c, Some(doc), baseMs)
         == LoadEntriesAsWritten(c.(timeData := [], hipData := [], ankleData := []),
                                 Stamps(Series(doc, "time"), baseMs),
                                 Series(doc, "hip_angle"), Series(doc, "ankle_angle"), 0)
  {
  }

  /** Loading that file clears the buffers and enters the entry loop. */
  lemma ShortHipDocLoadStarts()
    ensures LoadRealtimeDataAsWritten(Initial, Some(ShortHipDoc), 1000)
         == LoadEntriesAsWritten(Initial, ShortHipStamps(), [1.0], [1.0, 2.0], 0)
  {
    ShortHipDocSeries();
    AsWrittenLoadStarts(Initial, ShortHipDoc, 1000);
    assert Initial.(timeData := [], hipData := [], ankleData := []) == Initial;
  }

  /** Loading that file fails after appending both timestamps but only one
      hip and one ankle angle, so the buffers leave lock-step. */
  lemma LoadAsWrittenBreaksLockStep()
    ensures var r := LoadRealtimeDataAsWritten(Initial, Some(ShortHipDoc), 1000);
      && !r.ok
      && |r.collector.timeData| == 2
      && r.collector.hipData == [1.0]
      && r.collector.ankleData == [1.0]
      && !BuffersWf(r.collector)
  {
    var stamps, hips, ankles := ShortHipStamps(), [1.0], [1.0, 2.0];
    var c1 := Initial.(timeData := [stamps[0]], hipData := [1.0], ankleData := [1.0]);
    ShortHipDocLoadStarts();
    AsWrittenFirstEntry(Initial, stamps, hips, ankles);
    AsWrittenShortHip(c1, stamps, hips, ankles);
  }

  /** With every angle series at least as long as the timestamps, the loop
      as written appends all remaining entries and succeeds. */
  lemma {:induction false} AsWrittenEntriesFrom(c: Collector, stamps: seq<real>, hips: seq<real>,
                                                ankles: seq<real>, i: nat)
    requires i <= |stamps| && |hips| >= |stamps| && |ankles| >= |stamps|
    ensures var r := LoadEntriesAsWritten(c, stamps, hips, ankles, i);
      && r.ok
      && r.collector.timeData == Rolling.PushAll(c.timeData, stamps[i..|stamps|], Rolling.Capacity)
      && r.collector.hipData == Rolling.PushAll(c.hipData, hips[i..|stamps|], Rolling.Capacity)
      && r.collector.ankleData == Rolling.PushAll(c.ankleData, ankles[i..|stamps|], Rolling.Capacity)
    decreases |stamps| - i
  {
    var n := |stamps|;
    if i == n {
      assert stamps[i..n] == [] && hips[i..n] == [] && ankles[i..n] == [];
    } else {
      var c3 := AsWrittenEntryStep(c, stamps, hips, ankles, i);
      AsWrittenEntriesFrom(c3, stamps, hips, ankles, i + 1);
      PushAllStep(c.timeData, stamps, i, n);
      PushAllStep(c.hipData, hips, i, n);
      PushAllStep(c.ankleData, ankles, i, n);
    }
  }

  /** One pass of the loop as written, when every series has entry `i`. */
  lemma AsWrittenEntryStep(c: Collector, stamps: seq<real>, hips: seq<real>, ankles: seq<real>, i: nat)
    returns (c3: Collector)
    requires i < |stamps| && |hips| >= |stamps| && |ankles| >= |stamps|
    ensures c3 == c.(timeData := Rolling.Push(c.timeData, stamps[i], Rolling.Capacity),
                     hipData := Rolling.Push(c.hipData, hips[i], Rolling.Capacity),
                     ankleData := Rolling.Push(c.ankleData, ankles[i], Rolling.Capacity))
    ensures LoadEntriesAsWritten(c, stamps, hips, ankles, i) == LoadEntriesAsWritten(c3, stamps, hips, ankles, i + 1)
  {
    c3 := c.(timeData := Rolling.Push(c.timeData, stamps[i], Rolling.Capacity),
             hipData := Rolling.Push(c.hipData, hips[i], Rolling.Capacity),
             ankleData := Rolling.Push(c.ankleData, ankles[i], Rolling.Capacity));
  }

  /** Appending `xs[i..n]` is appending `xs[i]`, then `xs[i + 1..n]`. */
  lemma PushAllStep(buf: seq<real>, xs: seq<real>, i: nat, n: nat)
    requires i < n <= |xs|
    ensures Rolling.PushAll(buf, xs[i..n], Rolling.Capacity)
         == Rolling.PushAll(Rolling.Push(buf, xs[i], Rolling.Capacity), xs[i + 1..n], Rolling.Capacity)
  {
    var t := xs[i..n];
    assert t != [] && t[0] == xs[i] && t[1..] == xs[i + 1..n];
  }

  lemma SliceFromZero(xs: seq<real>, n: nat)
    requires n <= |xs|
    ensures xs[0..n] == xs[..n]
    ensures n == |xs| ==> xs[0..n] == xs
  {
  }

  /** A load as written from the start, with every angle series long
      enough, appends all the timestamps and the matching angles. */
  lemma AsWrittenWholeLoop(c: Collector, stamps: seq<real>, hips: seq<real>, ankles: seq<real>)
    requires |hips| >= |stamps| && |ankles| >= |stamps|
    ensures LoadEntriesAsWritten(c, stamps, hips, ankles, 0)
         == Loaded(c.(timeData := Rolling.PushAll(c.timeData, stamps, Rolling.Capacity),
                      hipData := Rolling.PushAll(c.hipData, hips[..|stamps|], Rolling.Capacity),
                      ankleData := Rolling.PushAll(c.ankleData, ankles[..|stamps|], Rolling.Capacity)), true)
  {
    var n := |stamps|;
    AsWrittenEntriesFrom(c, stamps, hips, ankles, 0);
    SliceFromZero(stamps, n);
    SliceFromZero(hips, n);
    SliceFromZero(ankles, n);
  }

  /** On a file whose angle series are at least as long as its time series,
      the load as written and the checked load agree. */
  lemma AsWrittenAgreesOnCompleteFile(c: Collector, file: Option<SeriesDoc>, baseMs: int)
    requires file.Some? ==> && |Series(file.value, "hip_angle")| >= |Series(file.value, "time")|
                            && |Series(file.value, "ankle_angle")| >= |Series(file.value, "time")|
    ensures LoadRealtimeDataAsWritten(c, file, baseMs) == LoadRealtimeData(c, file, baseMs)
  {
    if file.Some? {
      var doc := file.value;
      var times := Series(doc, "time");
      if |times| > 0 {
        AsWrittenWholeLoop(c.(timeData := [], hipData := [], ankleData := []),
                           Stamps(times, baseMs), Series(doc, "hip_angle"), Series(doc, "ankle_angle"));
      }
    }
  }

  /** `load_realtime_data` with the series lengths checked before anything
      is cleared: a failed load leaves the collector as it was, and a
      successful one refills the buffers in lock-step with the newest 2000
      entries. */
  function LoadRealtimeData(c: Collector, file: Option<SeriesDoc>, baseMs: int): (r: Loaded)
    ensures !r.ok ==> r.collector == c
    ensures file.Some? && Series(file.value, "time") == [] ==> r == Loaded(c, true)
    ensures file.None? ==> !r.ok
    ensures file.Some? && Series(file.value, "time") != [] ==>
      var doc := file.value;
      var times := Series(doc, "time");
      (r.ok <==> |Series(doc, "hip_angle")| >= |times| && |Series(doc, "ankle_angle")| >= |times|)
    ensures r.ok && file.Some? && Series(file.value, "time") != [] &&
            |Series(file.value, "hip_angle")| >= |Series(file.value, "time")| &&
            |Series(file.value, "ankle_angle")| >= |Series(file.value, "time")| ==>
      var doc := file.value;
      var times := Series(doc, "time");
      && r.collector.timeData == Rolling.Newest(Stamps(times, baseMs), Rolling.Capacity)
      && r.collector.hipData == Rolling.Newest(Series(doc, "hip_angle")[..|times|], Rolling.Capacity)
      && r.collector.ankleData == Rolling.Newest(Series(doc, "ankle_angle")[..|times|], Rolling.Capacity)
    ensures BuffersWf(c) ==> BuffersWf(r.collector)
    ensures r.collector.detector == c.detector && r.collector.savedCycle == c.savedCycle
  {
    match file
    case None => Loaded(c, false)
    case Some(doc) =>
      var times := Series(doc, "time");
      var hips := Series(doc, "hip_angle");
      var ankles := Series(doc, "ankle_angle");
      if |times| == 0 then Loaded(c, true)
      else if |hips| < |times| || |ankles| < |times| then Loaded(c, false)
      else
        var n := |times|;
        var stamps := Stamps(times, baseMs);
        Rolling.PushAllKeepsNewest([], stamps, Rolling.Capacity);
        Rolling.PushAllKeepsNewest([], hips[..n], Rolling.Capacity);
        Rolling.PushAllKeepsNewest([], ankles[..n], Rolling.Capacity);
        assert [] + stamps == stamps && [] + hips[..n] == hips[..n] && [] + ankles[..n] == ankles[..n];
        Loaded(c.(timeData := Rolling.PushAll([], stamps, Rolling.Capacity),
                  hipData := Rolling.PushAll([], hips[..n], Rolling.Capacity),
                  ankleData := Rolling.PushAll([], ankles[..n], Rolling.Capacity)), true)
  }

  /** `get_gait_cycle_data`: copies of the cycle being accumulated. */
  function GetGaitCycleData(c: Collector): (r: Snapshot)
    ensures Wf(c) ==> |r.time| == |r.hip| == |r.ankle|
    ensures r.time == c.detector.cycleTime && r.hip == c.detector.cycleHip && r.ankle == c.detector.cycleAnkle
  {
    Snapshot(c.detector.cycleTime, c.detector.cycleHip, c.detector.cycleAnkle)
  }

  /** `load_gait_cycle`: the cycle lists are replaced by the file's series, a
      missing key reading as empty; a missing file fails and changes
      nothing. Nothing checks that the three series have equal length. */
  function LoadGaitCycle(c: Collector, file: Option<SeriesDoc>): (r: Loaded)
    ensures r.ok <==> file.Some?
    ensures !r.ok ==> r.collector == c
    ensures r.ok ==>
      && r.collector.timeData == c.timeData && r.collector.hipData == c.hipData
      && r.collector.ankleData == c.ankleData && r.collector.savedCycle == c.savedCycle
    ensures r.ok ==> (r.collector.detector.cycleTime == [] <==> "time" !in file.value || file.value["time"] == [])
    // only the three cycle lists of the detector change
    ensures r.ok ==> r.collector.detector == c.detector.(cycleTime := Series(file.value, "time"),
                                                         cycleHip := Series(file.value, "hip_angle"),
                                                         cycleAnkle := Series(file.value, "ankle_angle"))
  {
    match file
    case None => Loaded(c, false)
    case Some(doc) =>
      Loaded(c.(detector := c.detector.(cycleTime := Series(doc, "time"),
                                        cycleHip := Series(doc, "hip_angle"),
                                        cycleAnkle := Series(doc, "ankle_angle"))), true)
  }

  /** Loading the file a saved cycle was written to shows exactly that
      cycle's relative times and angles. */
  lemma SaveThenLoad(c: Collector, rec: CycleRecord)
    ensures var r := LoadGaitCycle(c, Some(CycleDoc(rec)));
      && r.ok
      && GetGaitCycleData(r.collector) == Snapshot(rec.time, rec.hipAngle, rec.ankleAngle)
  {
  }

  /** Loading a cycle whose series differ in length leaves the detector's
      cycle lists out of lock-step. */
  lemma LoadGaitCycleUnchecked(c: Collector)
    ensures var doc := map["time" := [0.0, 0.1], "hip_angle" := [1.0]];
      var r := LoadGaitCycle(c, Some(doc));
      r.ok && !PeakDetector.LockStep(r.collector.detector)
  {
    var doc := map["time" := [0.0, 0.1], "hip_angle" := [1.0]];
    assert Series(doc, "time") == [0.0, 0.1];
    assert Series(doc, "hip_angle") == [1.0];
  }
}

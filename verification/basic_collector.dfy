/** The earlier revision of the PC collector: whole-line record framing, a
    queue drained completely on every `process_data`, and a return-to-start
    cycle rule instead of peak detection. */
module BasicCollector {
  import opened Wrappers
  import opened Text
  import opened Telemetry
  import opened CycleRecords
  import Rolling
  import LineFramer
  import GuiIngest

  // ---------------------------------------------------------------- reader

  /** The trimmed line is a record candidate only if it is `{…}` as a whole. */
  predicate IsRecordLine(s: string) {
    StartsWith(s, "{") && EndsWith(s, "}")
  }

  /** What one framed line contributes to the queue. */
  function ParseLine(line: string, decode: Decoder): (r: Option<Sample>)
    ensures r.Some? <==>
      && !Dropped(line)
      && IsRecordLine(Strip(line))
      && DecodeSample(decode, Strip(line)).Some?
    ensures r.Some? ==> r == DecodeSample(decode, Strip(line))
  {
    var s := Strip(line);
    if s == [] || IsPrompt(s) then None
    else if IsRecordLine(s) then DecodeSample(decode, s)
    else None
  }

  /** The samples of a run of lines, in order. */
  function ParseLines(lines: seq<string>, decode: Decoder): (r: seq<Sample>)
    ensures |r| <= |lines|
    // no line is lost exactly when every line parses
    ensures |r| == |lines| <==> forall j :: 0 <= j < |lines| ==> ParseLine(lines[j], decode).Some?
    decreases |lines|
  {
    if lines == [] then []
    else
      var rest := ParseLines(lines[1..], decode);
      assert forall j :: 0 < j < |lines| ==> lines[j] == lines[1..][j - 1];
      match ParseLine(lines[0], decode)
      case None => rest
      case Some(smp) => [smp] + rest
  }

  /** Unfolding `ParseLines` once. */
  lemma ParseLinesCons(lines: seq<string>, decode: Decoder)
    requires lines != []
    ensures var p := ParseLine(lines[0], decode);
      ParseLines(lines, decode) == (if p.Some? then [p.value] else []) + ParseLines(lines[1..], decode)
  {
  }

  /** Every queued sample is what some line parses to. */
  lemma {:induction false} ParseLinesSources(lines: seq<string>, decode: Decoder)
    ensures forall x :: x in ParseLines(lines, decode) ==>
      exists j :: 0 <= j < |lines| && ParseLine(lines[j], decode) == Some(x)
    decreases |lines|
  {
    if lines != [] {
      var tail := lines[1..];
      ParseLinesSources(tail, decode);
      ParseLinesCons(lines, decode);
      forall x | x in ParseLines(lines, decode)
        ensures exists j :: 0 <= j < |lines| && ParseLine(lines[j], decode) == Some(x)
      {
        if x in ParseLines(tail, decode) {
          var j :| 0 <= j < |tail| && ParseLine(tail[j], decode) == Some(x);
          assert lines[j + 1] == tail[j];
        } else {
          assert ParseLine(lines[0], decode) == Some(x);
        }
      }
    }
  }

  /** When every line parses, none is lost. */
  lemma {:induction false} ParseLinesKeepsAll(lines: seq<string>, decode: Decoder)
    requires forall j :: 0 <= j < |lines| ==> ParseLine(lines[j], decode).Some?
    ensures |ParseLines(lines, decode)| == |lines|
    decreases |lines|
  {
    if lines != [] {
      var tail := lines[1..];
      forall j | 0 <= j < |tail| ensures ParseLine(tail[j], decode).Some? {
        assert tail[j] == lines[j + 1];
      }
      ParseLinesKeepsAll(tail, decode);
      ParseLinesCons(lines, decode);
      assert ParseLine(lines[0], decode).Some?;
    }
  }

  lemma {:induction false} ParseLinesAppend(a: seq<string>, b: seq<string>, decode: Decoder)
    ensures ParseLines(a + b, decode) == ParseLines(a, decode) + ParseLines(b, decode)
    decreases |a|
  {
    if a == [] {
      assert a + b == b;
    } else {
      assert (a + b)[0] == a[0] && (a + b)[1..] == a[1..] + b;
      ParseLinesAppend(a[1..], b, decode);
    }
  }

  datatype Reader = Reader(carry: string, queue: seq<Sample>)

  const InitialReader := Reader("", [])

  /** One read of `chunk`: complete lines are parsed in order and their
      samples queued behind what is already waiting. */
  function Read(rd: Reader, chunk: string, decode: Decoder): (r: Reader)
    ensures LineFramer.NoNewline(r.carry)
    ensures var f := LineFramer.Feed(rd.carry, chunk);
      r.carry == f.1 && r.queue == rd.queue + ParseLines(f.0, decode)
  {
    var f := LineFramer.Feed(rd.carry, chunk);
    Reader(f.1, rd.queue + ParseLines(f.0, decode))
  }

  /** Two reads queue what one read of the joined text would: how the serial
      port splits its output does not change the samples. */
  lemma ReadTwice(rd: Reader, c1: string, c2: string, decode: Decoder)
    ensures Read(Read(rd, c1, decode), c2, decode) == Read(rd, c1 + c2, decode)
  {
    ReadTwiceQueue(rd, c1, c2, decode);
    LineFramer.FeedTwice(rd.carry, c1, c2);
  }

  lemma ReadTwiceQueue(rd: Reader, c1: string, c2: string, decode: Decoder)
    ensures Read(Read(rd, c1, decode), c2, decode).queue == Read(rd, c1 + c2, decode).queue
  {
    var f1 := LineFramer.Feed(rd.carry, c1);
    var f2 := LineFramer.Feed(f1.1, c2);
    LineFramer.FeedTwice(rd.carry, c1, c2);
    QueueAppend(rd.queue, f1.0, f2.0, decode);
  }

  lemma QueueAppend(q: seq<Sample>, l1: seq<string>, l2: seq<string>, decode: Decoder)
    ensures q + ParseLines(l1, decode) + ParseLines(l2, decode) == q + ParseLines(l1 + l2, decode)
  {
    ParseLinesAppend(l1, l2, decode);
    GuiIngest.ConcatAssoc(q, ParseLines(l1, decode), ParseLines(l2, decode));
  }

  /** Whatever the earlier revision accepts, the GUI revision accepts too,
      as the same sample. */
  lemma StricterThanGui(line: string, decode: Decoder)
    requires ParseLine(line, decode).Some?
    ensures GuiIngest.HandleLine(line, decode).sample == ParseLine(line, decode)
  {
    var s := Strip(line);
    assert s[0] == '{' && s[|s| - 1] == '}' by {
      assert s[..1] == "{" && s[|s| - 1..] == "}";
    }
    GuiIngest.WholeSpanIsCandidate(s);
  }

  /** The converse fails: the GUI revision also takes a record with text
      around it, which the earlier revision drops. */
  lemma GuiTakesMore(decode: Decoder)
    requires decode("{}") == Some(map["t" := 1.0, "h" := 2.0, "a" := 3.0])
    ensures GuiIngest.HandleLine("x{}", decode).sample == Some(Sample(1.0, 2.0, 3.0))
    ensures ParseLine("x{}", decode).None?
  {
    PrefixedRecordLine();
    var s := "x{}";
    assert !IsPrompt(s) by { assert s[0] != '>' && s[0] != 'C'; }
    assert !IsRecordLine(s) by { assert s[0] != '{'; }
    assert GuiIngest.HasBracePair(s) by { assert s[1] == '{' && s[2] == '}'; }
  }

  lemma PrefixedRecordLine()
    ensures Strip("x{}") == "x{}"
    ensures Find("x{}", '{') == 1 && RFind("x{}", '}') == 2
    ensures "x{}"[1..3] == "{}"
  {
    StripsToItself();
    FindsBraces();
  }

  lemma StripsToItself()
    ensures Strip("x{}") == "x{}"
  {
    var s := "x{}";
    assert s[0] == 'x' && s[|s| - 1] == '}';
    StripKeepsTrimmed(s);
  }

  lemma FindsBraces()
    ensures Find("x{}", '{') == 1 && RFind("x{}", '}') == 2
  {
    var s := "x{}";
    assert s[1] == '{' && s[2] == '}' && s[0] != '{';
    assert s[..1] == "x";
  }

  // -------------------------------------------------------------- detector

  /** Return-to-start tolerance (degrees) and minimum cycle time (ms). */
  const ReturnTolerance: real := 5.0
  const MinElapsedMs: real := 500.0

  /** Detector state. `cycleStartTime`/`cycleStartHip` are meaningful once
      `lastHip` is set. */
  datatype Detector = Detector(
    lastHip: Option<real>,
    cycleStartTime: real,
    cycleStartHip: real,
    inCycle: bool,
    cycleTime: seq<real>,
    cycleHip: seq<real>,
    cycleAnkle: seq<real>)

  const Fresh := Detector(None, 0.0, 0.0, false, [], [], [])

  function Abs(x: real): (r: real)
    ensures r >= 0.0 && (r == x || r == -x)
  {
    if x < 0.0 then -x else x
  }

  /** The hip is back within 5° of where the cycle started, more than 500 ms
      after it started. */
  predicate Returned(d: Detector, t: real, hip: real) {
    Abs(hip - d.cycleStartHip) < ReturnTolerance && t - d.cycleStartTime > MinElapsedMs
  }

  predicate LockStep(d: Detector) {
    |d.cycleHip| == |d.cycleTime| && |d.cycleAnkle| == |d.cycleTime|
  }

  datatype Step = Step(det: Detector, saved: Option<CycleRecord>)

  /** `_detect_gait_cycle` of the earlier revision. */
  function Detect(d: Detector, t: real, hip: real, ankle: real): (r: Step)
    // the first sample sets the start point and empties the cycle
    ensures d.lastHip.None? ==>
      r == Step(Detector(Some(hip), t, hip, true, [], [], []), None)
    ensures d.lastHip.Some? ==> r.det.lastHip == Some(hip) && r.det.inCycle
    // in a cycle: the sample is appended; a return closes the cycle
    ensures d.lastHip.Some? && d.inCycle ==>
      var times := d.cycleTime + [t];
      if Returned(d, t, hip) then
        && r.saved == BuildRecord(times, d.cycleHip + [hip], d.cycleAnkle + [ankle])
        && r.det.cycleStartTime == t && r.det.cycleStartHip == hip
        && r.det.cycleTime == [t] && r.det.cycleHip == [hip] && r.det.cycleAnkle == [ankle]
      else
        && r.saved.None?
        && r.det.cycleStartTime == d.cycleStartTime && r.det.cycleStartHip == d.cycleStartHip
        && r.det.cycleTime == times
        && r.det.cycleHip == d.cycleHip + [hip] && r.det.cycleAnkle == d.cycleAnkle + [ankle]
    // not in a cycle: a new one starts at this sample
    ensures d.lastHip.Some? && !d.inCycle ==>
      && r.saved.None?
      && r.det.cycleStartTime == t && r.det.cycleStartHip == hip
      && r.det.cycleTime == [t] && r.det.cycleHip == [hip] && r.det.cycleAnkle == [ankle]
    ensures LockStep(d) ==> LockStep(r.det)
  {
    if d.lastHip.None? then
      Step(Detector(Some(hip), t, hip, true, [], [], []), None)
    else if d.inCycle then
      var d1 := d.(cycleTime := d.cycleTime + [t], cycleHip := d.cycleHip + [hip],
                   cycleAnkle := d.cycleAnkle + [ankle]);
      if Abs(hip - d.cycleStartHip) < ReturnTolerance && t - d.cycleStartTime > MinElapsedMs then
        var saved := BuildRecord(d1.cycleTime, d1.cycleHip, d1.cycleAnkle);
        Step(d1.(lastHip := Some(hip), cycleStartTime := t, cycleStartHip := hip,
                 cycleTime := [t], cycleHip := [hip], cycleAnkle := [ankle]), saved)
      else
        Step(d1.(lastHip := Some(hip)), None)
    else
      Step(d.(lastHip := Some(hip), inCycle := true, cycleStartTime := t, cycleStartHip := hip,
              cycleTime := [t], cycleHip := [hip], cycleAnkle := [ankle]), None)
  }

  /** States the detector can be in: the cycle lists are in lock-step, once
      armed it is always in a cycle, and a non-empty cycle ends with the
      newest sample's hip angle. */
  predicate Reachable(d: Detector) {
    && LockStep(d)
    && (d.lastHip.Some? ==> d.inCycle)
    && (d.lastHip.None? ==> d.cycleTime == [])
    && (d.cycleHip != [] ==> d.lastHip == Some(d.cycleHip[|d.cycleHip| - 1]))
  }

  lemma FreshReachable()
    ensures Reachable(Fresh)
  {
  }

  lemma DetectKeepsReachable(d: Detector, t: real, hip: real, ankle: real)
    requires Reachable(d)
    ensures Reachable(Detect(d, t, hip, ankle).det)
  {
  }

  /** The not-in-cycle branch is dead: from a reachable state it never runs. */
  lemma RestartBranchUnreachable(d: Detector)
    requires Reachable(d) && d.lastHip.Some?
    ensures d.inCycle
  {
  }

  /** Cycles share their boundary sample: the sample that closes one cycle
      is the last point of the saved record and the only point of the next
      cycle, whose start moves to it whether or not the record was saved. */
  lemma BoundarySampleShared(d: Detector, t: real, hip: real, ankle: real)
    requires Reachable(d) && d.lastHip.Some? && Returned(d, t, hip)
    requires |d.cycleTime| + 1 >= MinSavePoints
    ensures var r := Detect(d, t, hip, ankle);
      && r.saved.Some?
      && var rec := r.saved.value;
      && rec.hipAngle[|rec.hipAngle| - 1] == hip
      && rec.ankleAngle[|rec.ankleAngle| - 1] == ankle
      && |rec.time| == |rec.hipAngle|
      && r.det.cycleTime == [t] && r.det.cycleHip == [hip]
      && r.det.cycleStartTime == t
  {
  }

  /** A return with fewer than ten accumulated samples saves nothing but
      still restarts the cycle. */
  lemma ShortReturnRestarts(d: Detector, t: real, hip: real, ankle: real)
    requires Reachable(d) && d.lastHip.Some? && Returned(d, t, hip)
    requires |d.cycleTime| + 1 < MinSavePoints
    ensures var r := Detect(d, t, hip, ankle);
      r.saved.None? && r.det.cycleTime == [t] && r.det.cycleStartHip == hip
  {
  }

  // ------------------------------------------------------------- collector

  datatype Collector = Collector(
    timeData: seq<real>,
    hipData: seq<real>,
    ankleData: seq<real>,
    detector: Detector,
    savedCycle: Option<CycleRecord>)

  const Initial := Collector([], [], [], Fresh, None)

  /** The three buffers have equal length, at most the capacity. */
  predicate BuffersWf(c: Collector) {
    && |c.hipData| == |c.timeData| && |c.ankleData| == |c.timeData|
    && |c.timeData| <= Rolling.Capacity
  }

  predicate Wf(c: Collector) {
    BuffersWf(c) && Reachable(c.detector)
  }

  function Consume(c: Collector, s: Sample): (r: Collector)
    ensures Wf(c) ==> Wf(r)
    ensures |r.timeData| > 0 && r.timeData[|r.timeData| - 1] == s.t
    ensures r.timeData == Rolling.Push(c.timeData, s.t, Rolling.Capacity)
    ensures r.hipData == Rolling.Push(c.hipData, s.h, Rolling.Capacity)
    ensures r.ankleData == Rolling.Push(c.ankleData, s.a, Rolling.Capacity)
    // the detector sees the sample; the cycle it saves, if any, becomes the file
    ensures var st := Detect(c.detector, s.t, s.h, s.a);
      && r.detector == st.det
      && r.savedCycle == (if st.saved.Some? then st.saved else c.savedCycle)
  {
    var st := Detect(c.detector, s.t, s.h, s.a);
    DetectReachable(c.detector, s);
    Collector(
      Rolling.Push(c.timeData, s.t, Rolling.Capacity),
      Rolling.Push(c.hipData, s.h, Rolling.Capacity),
      Rolling.Push(c.ankleData, s.a, Rolling.Capacity),
      st.det,
      if st.saved.Some? then st.saved else c.savedCycle)
  }

  lemma DetectReachable(d: Detector, s: Sample)
    ensures Reachable(d) ==> Reachable(Detect(d, s.t, s.h, s.a).det)
  {
    if Reachable(d) { DetectKeepsReachable(d, s.t, s.h, s.a); }
  }

  /** The detector alone run over the samples in order: its final state,
      and the last cycle record saved along the way, if any. */
  function DetectAll(d: Detector, ss: seq<Sample>): (r: Step)
    ensures Reachable(d) ==> Reachable(r.det)
    ensures ss == [] ==> r == Step(d, None)
    decreases |ss|
  {
    if ss == [] then Step(d, None)
    else
      var st := Detect(d, ss[0].t, ss[0].h, ss[0].a);
      DetectReachable(d, ss[0]);
      var rest := DetectAll(st.det, ss[1..]);
      Step(rest.det, if rest.saved.Some? then rest.saved else st.saved)
  }

  /** The samples consumed in order. */
  function ConsumeAll(c: Collector, ss: seq<Sample>): (r: Collector)
    ensures Wf(c) ==> Wf(r)
    // every sample went through the detector, and the cycle file holds the
    // last record it saved
    ensures r.detector == DetectAll(c.detector, ss).det
    ensures r.savedCycle ==
      (if DetectAll(c.detector, ss).saved.Some? then DetectAll(c.detector, ss).saved else c.savedCycle)
    ensures r.timeData == Rolling.PushAll(c.timeData, Times(ss), Rolling.Capacity)
    ensures r.hipData == Rolling.PushAll(c.hipData, Hips(ss), Rolling.Capacity)
    ensures r.ankleData == Rolling.PushAll(c.ankleData, Ankles(ss), Rolling.Capacity)
    decreases |ss|
  {
    if ss == [] then c
    else
      assert Times(ss)[1..] == Times(ss[1..]);
      assert Hips(ss)[1..] == Hips(ss[1..]);
      assert Ankles(ss)[1..] == Ankles(ss[1..]);
      ConsumeAll(Consume(c, ss[0]), ss[1..])
  }

  /** `process_data` drains the whole queue; the buffers then hold the newest
      2000 values of everything appended, in arrival order. */
  function ProcessData(c: Collector, queue: seq<Sample>): (r: Collector)
    ensures Wf(c) ==> Wf(r)
    ensures BuffersWf(c) ==>
      && r.timeData == Rolling.Newest(c.timeData + Times(queue), Rolling.Capacity)
      && r.hipData == Rolling.Newest(c.hipData + Hips(queue), Rolling.Capacity)
      && r.ankleData == Rolling.Newest(c.ankleData + Ankles(queue), Rolling.Capacity)
    ensures r.detector == DetectAll(c.detector, queue).det
    ensures r.savedCycle ==
      (if DetectAll(c.detector, queue).saved.Some? then DetectAll(c.detector, queue).saved else c.savedCycle)
  {
    Rolling.BatchKeepsNewest(c.timeData, Times(queue));
    Rolling.BatchKeepsNewest(c.hipData, Hips(queue));
    Rolling.BatchKeepsNewest(c.ankleData, Ankles(queue));
    ConsumeAll(c, queue)
  }

  /** `get_realtime_data`: every buffered time in seconds relative to the
      newest, with the angle buffers as they are. */
  function GetRealtimeData(c: Collector): (r: Snapshot)
    ensures c.timeData == [] ==> r == Snapshot([], [], [])
    ensures c.timeData != [] ==>
      && |r.time| == |c.timeData| && r.hip == c.hipData && r.ankle == c.ankleData
      && r.time[|r.time| - 1] == 0.0
      && forall i :: 0 <= i < |r.time| ==>
           c.timeData[|c.timeData| - 1] + 1000.0 * r.time[i] == c.timeData[i]
  {
    if c.timeData == [] then Snapshot([], [], [])
    else Snapshot(Relative(c.timeData, c.timeData[|c.timeData| - 1]), c.hipData, c.ankleData)
  }

  /** `load_gait_cycle`: the three cycle lists are replaced by the file's
      series, a missing key reading as empty; a missing or unreadable file
      returns false and changes nothing. */
  function LoadGaitCycle(c: Collector, file: Option<SeriesDoc>): (r: (Collector, bool))
    ensures r.1 <==> file.Some?
    ensures !r.1 ==> r.0 == c
    ensures r.1 ==>
      && r.0.detector.cycleTime == Series(file.value, "time")
      && r.0.detector.cycleHip == Series(file.value, "hip_angle")
      && r.0.detector.cycleAnkle == Series(file.value, "ankle_angle")
      && r.0.timeData == c.timeData && r.0.hipData == c.hipData && r.0.ankleData == c.ankleData
      && r.0.savedCycle == c.savedCycle
    // only the three cycle lists of the detector change
    ensures r.1 ==> r.0.detector == c.detector.(cycleTime := Series(file.value, "time"),
                                                cycleHip := Series(file.value, "hip_angle"),
                                                cycleAnkle := Series(file.value, "ankle_angle"))
  {
    match file
    case None => (c, false)
    case Some(doc) =>
      (c.(detector := c.detector.(cycleTime := Series(doc, "time"),
                                  cycleHip := Series(doc, "hip_angle"),
                                  cycleAnkle := Series(doc, "ankle_angle"))), true)
  }

  /** Reloading the saved file shows that cycle's relative times and angles. */
  lemma SaveThenLoad(c: Collector, rec: CycleRecord)
    ensures var r := LoadGaitCycle(c, Some(CycleDoc(rec)));
      && r.0.detector.cycleTime == rec.time
      && r.0.detector.cycleHip == rec.hipAngle
      && r.0.detector.cycleAnkle == rec.ankleAngle
  {
  }
}

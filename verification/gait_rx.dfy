/** Receiving a gait trajectory over the serial console: after the receive
    command, incoming lines are appended to a buffer until a brace-delimited
    JSON object can be cut out of it, which is then validated and loaded as
    the playback trajectory; a session that sees no complete object within
    `TimeoutMs` is abandoned on its next line. One call of
    `processReceivedGaitData` is one `Process`; the JSON parser is the
    `Parser` parameter. */
module GaitRx {
  import opened Wrappers
  import opened Clock

  /** `gaitDataReceive.timeoutMs`. */
  const TimeoutMs: int := 5000
  /** `MAX_GAIT_POINTS`. */
  const MaxPoints: nat := 200
  /** `pointCount` is a `uint16_t`. */
  const U16Modulus: nat := 0x1_0000

  // ------------------------------------------------------------ brace scan

  /** Opening minus closing braces in `s`. */
  function Depth(s: string): int
    decreases |s|
  {
    if s == [] then 0
    else
      var c := s[|s| - 1];
      Depth(s[..|s| - 1]) + (if c == '{' then 1 else if c == '}' then -1 else 0)
  }

  /** The state of the scanning loop. */
  datatype Scan = Scan(foundStart: bool, startIdx: int, endIdx: int, openBraces: int)

  const ScanStart: Scan := Scan(false, -1, -1, 0)

  /** The scanning loop from index `i` on: count braces, remember the first
      `{`, and stop at the first `}` that brings the count back to zero after
      a `{` has been seen. */
  function ScanFrom(buf: string, i: nat, s: Scan): Scan
    requires i <= |buf|
    decreases |buf| - i
  {
    if i == |buf| then s
    else if buf[i] == '{' then
      ScanFrom(buf, i + 1, s.(foundStart := true,
                              startIdx := if s.foundStart then s.startIdx else i,
                              openBraces := s.openBraces + 1))
    else if buf[i] == '}' then
      if s.openBraces - 1 == 0 && s.foundStart then s.(openBraces := 0, endIdx := i)
      else ScanFrom(buf, i + 1, s.(openBraces := s.openBraces - 1))
    else ScanFrom(buf, i + 1, s)
  }

  /** Index `j` is where the loop would stop: a `}` after some `{` that brings
      the brace count of the buffer so far to zero. */
  predicate Closes(buf: string, j: int) {
    0 <= j < |buf| && buf[j] == '}' && Depth(buf[..j + 1]) == 0 && '{' in buf[..j]
  }

  /** What the loop knows after scanning `buf[..i]` without stopping. */
  predicate ScannedUpTo(buf: string, i: nat, s: Scan) {
    && i <= |buf|
    && s.endIdx == -1
    && s.openBraces == Depth(buf[..i])
    && (s.foundStart <==> '{' in buf[..i])
    && (s.foundStart ==> 0 <= s.startIdx < i && buf[s.startIdx] == '{' && '{' !in buf[..s.startIdx])
    && (forall j :: 0 <= j < i ==> !Closes(buf, j))
  }

  lemma DepthStep(buf: string, i: nat)
    requires i < |buf|
    ensures Depth(buf[..i + 1]) == Depth(buf[..i])
              + (if buf[i] == '{' then 1 else if buf[i] == '}' then -1 else 0)
  {
    assert buf[..i + 1][..i] == buf[..i];
  }

  lemma ScanStepOpen(buf: string, i: nat, s: Scan)
    requires ScannedUpTo(buf, i, s) && i < |buf| && buf[i] == '{'
    ensures ScannedUpTo(buf, i + 1, s.(foundStart := true,
                                       startIdx := if s.foundStart then s.startIdx else i,
                                       openBraces := s.openBraces + 1))
  {
    DepthStep(buf, i);
    assert buf[..i + 1] == buf[..i] + [buf[i]];
    if s.foundStart {
      assert buf[..i + 1][..s.startIdx] == buf[..s.startIdx];
    }
  }

  lemma ScanStepClose(buf: string, i: nat, s: Scan)
    requires ScannedUpTo(buf, i, s) && i < |buf| && buf[i] == '}'
    ensures s.openBraces - 1 == 0 && s.foundStart ==> Closes(buf, i)
    ensures !(s.openBraces - 1 == 0 && s.foundStart) ==>
      ScannedUpTo(buf, i + 1, s.(openBraces := s.openBraces - 1))
  {
    DepthStep(buf, i);
    assert buf[..i + 1] == buf[..i] + [buf[i]];
  }

  lemma ScanStepOther(buf: string, i: nat, s: Scan)
    requires ScannedUpTo(buf, i, s) && i < |buf| && buf[i] != '{' && buf[i] != '}'
    ensures ScannedUpTo(buf, i + 1, s)
  {
    DepthStep(buf, i);
    assert buf[..i + 1] == buf[..i] + [buf[i]];
  }

  /** What the loop's result says of the whole buffer: the first `{`, and
      the first closing point when there is one (with the count at zero), or
      the count of the whole buffer when there is none. */
  predicate ScanResult(buf: string, r: Scan) {
    && (r.foundStart <==> (r.endIdx >= 0 || '{' in buf))
    && (r.foundStart ==> 0 <= r.startIdx < |buf| && buf[r.startIdx] == '{' && '{' !in buf[..r.startIdx])
    && (r.endIdx >= 0 ==>
          && Closes(buf, r.endIdx) && r.startIdx < r.endIdx && r.openBraces == 0
          && forall j :: 0 <= j < r.endIdx ==> !Closes(buf, j))
    && (r.endIdx < 0 ==>
          && r.endIdx == -1 && r.openBraces == Depth(buf)
          && forall j :: 0 <= j < |buf| ==> !Closes(buf, j))
  }

  /** The loop computes its result correctly from any point it can reach. */
  lemma {:induction false} ScanFromSpec(buf: string, i: nat, s: Scan)
    requires ScannedUpTo(buf, i, s)
    ensures ScanResult(buf, ScanFrom(buf, i, s))
    decreases |buf| - i
  {
    if i == |buf| {
      assert buf[..i] == buf;
    } else if buf[i] == '{' {
      ScanStepOpen(buf, i, s);
      ScanFromSpec(buf, i + 1, s.(foundStart := true,
                                  startIdx := if s.foundStart then s.startIdx else i,
                                  openBraces := s.openBraces + 1));
    } else if buf[i] == '}' {
      ScanStepClose(buf, i, s);
      if !(s.openBraces - 1 == 0 && s.foundStart) {
        ScanFromSpec(buf, i + 1, s.(openBraces := s.openBraces - 1));
      }
    } else {
      ScanStepOther(buf, i, s);
      ScanFromSpec(buf, i + 1, s);
    }
  }

  /** The text the loop cuts out of `buf`: from the first `{` to the `}` where
      the loop stopped, when it stopped with the count at zero. */
  function Extract(buf: string): (r: Option<string>)
    ensures r.Some? <==> exists j :: Closes(buf, j)
    ensures r.Some? ==> && |r.value| >= 2 && r.value[0] == '{' && r.value[|r.value| - 1] == '}'
    // the text runs from the first `{` to the first closing `}`
    ensures r.Some? ==> exists i, j ::
      && 0 <= i < j < |buf| && buf[i] == '{' && '{' !in buf[..i]
      && Closes(buf, j) && (forall k :: 0 <= k < j ==> !Closes(buf, k))
      && r.value == buf[i..j + 1]
  {
    var s := ScanFrom(buf, 0, ScanStart);
    ScanFromSpec(buf, 0, ScanStart);
    if s.foundStart && s.endIdx >= 0 && s.openBraces == 0 then
      var i, j := s.startIdx, s.endIdx;
      assert 0 <= i < j < |buf| && buf[i] == '{' && '{' !in buf[..i];
      assert Closes(buf, j) && forall k :: 0 <= k < j ==> !Closes(buf, k);
      Some(buf[i..j + 1])
    else None
  }

  /** No `}` comes before the first `{`. */
  predicate NoStrayClose(buf: string) {
    forall j :: 0 <= j < |buf| && buf[j] == '}' ==> '{' in buf[..j]
  }

  lemma {:induction false} DepthAppend(a: string, b: string)
    ensures Depth(a + b) == Depth(a) + Depth(b)
    decreases |b|
  {
    if b == [] {
      assert a + b == a;
    } else {
      DepthAppend(a, b[..|b| - 1]);
      assert (a + b)[..|a + b| - 1] == a + b[..|b| - 1];
    }
  }

  lemma {:induction false} NoBracesNoDepth(s: string)
    requires '{' !in s && '}' !in s
    ensures Depth(s) == 0
    decreases |s|
  {
    if s != [] {
      assert s[..|s| - 1] <= s;
      NoBracesNoDepth(s[..|s| - 1]);
    }
  }

  /** Unless a `}` precedes the first `{`, the extracted text is exactly one
      balanced brace group: its count returns to zero only at its end. */
  lemma ExtractIsBalancedGroup(buf: string)
    requires NoStrayClose(buf)
    ensures Extract(buf).Some? ==>
      var t := Extract(buf).value;
      && Depth(t) == 0
      && forall k :: 0 < k < |t| ==> Depth(t[..k]) > 0
  {
    if Extract(buf).Some? {
      var a, e :| && 0 <= a < e < |buf| && buf[a] == '{' && '{' !in buf[..a]
                  && Closes(buf, e) && (forall k :: 0 <= k < e ==> !Closes(buf, k))
                  && Extract(buf).value == buf[a..e + 1];
      NothingBeforeStart(buf, a);
      PositiveInside(buf, a, e);
      GroupDepths(buf, a, e);
    }
  }

  lemma NothingBeforeStart(buf: string, a: nat)
    requires NoStrayClose(buf) && a <= |buf| && '{' !in buf[..a]
    ensures Depth(buf[..a]) == 0
  {
    forall j | 0 <= j < a
      ensures buf[j] != '}'
    {
      assert buf[..j] == buf[..a][..j];
      assert '{' !in buf[..j];
    }
    NoBracesNoDepth(buf[..a]);
  }

  /** The depths inside the group are those of the buffer, shifted by the
      (zero) depth before it. */
  lemma GroupDepths(buf: string, a: nat, e: nat)
    requires a < e < |buf| && Depth(buf[..a]) == 0
    requires forall k :: a < k <= e ==> Depth(buf[..k]) > 0
    requires Depth(buf[..e + 1]) == 0
    ensures var t := buf[a..e + 1];
      && Depth(t) == 0
      && forall k :: 0 < k < |t| ==> Depth(t[..k]) > 0
  {
    var t := buf[a..e + 1];
    forall k | 0 < k <= |t|
      ensures Depth(t[..k]) == Depth(buf[..a + k])
    {
      assert buf[..a + k] == buf[..a] + t[..k];
      DepthAppend(buf[..a], t[..k]);
    }
    assert t[..|t|] == t;
  }

  /** Between the first `{` at `a` and the first closing point `e` the count
      stays positive. */
  lemma PositiveInside(buf: string, a: nat, e: nat)
    requires a < e < |buf| && buf[a] == '{' && Depth(buf[..a]) == 0
    requires forall j :: 0 <= j < e ==> !Closes(buf, j)
    ensures forall k :: a < k <= e ==> Depth(buf[..k]) > 0
  {
    forall k | a < k <= e
      ensures Depth(buf[..k]) > 0
    {
      DepthUpTo(buf, a, e, k);
    }
  }

  lemma {:induction false} DepthUpTo(buf: string, a: nat, e: nat, m: nat)
    requires a < e < |buf| && buf[a] == '{' && Depth(buf[..a]) == 0
    requires forall j :: 0 <= j < e ==> !Closes(buf, j)
    requires a < m <= e
    ensures Depth(buf[..m]) > 0
    decreases m
  {
    DepthStep(buf, m - 1);
    if m > a + 1 {
      DepthUpTo(buf, a, e, m - 1);
      assert buf[..m - 1][a] == '{';
      assert !Closes(buf, m - 1);
    }
  }

  /** A stray `}` ahead of the object makes the loop stop one brace early and
      cut out an unbalanced text, which the parser then rejects. */
  lemma StrayCloseCutsUnbalanced()
    ensures Extract("}{{}") == Some("{{}")
    ensures Depth("{{}") == 1
  {
    var b := "}{{}";
    assert Closes(b, 3) by {
      assert b[..4] == b && b[..3] == "}{{";
      assert Depth("}") == -1 by { assert "}"[..0] == ""; }
      assert Depth("}{") == 0 by { assert "}{"[..1] == "}"; }
      assert Depth("}{{") == 1 by { assert "}{{"[..2] == "}{"; }
      assert Depth(b) == 0 by { assert b[..3] == "}{{"; }
    }
    var s := ScanFrom(b, 0, ScanStart);
    ScanFromSpec(b, 0, ScanStart);
    assert !Closes(b, 0) && !Closes(b, 1) && !Closes(b, 2);
    assert s.endIdx == 3;
    assert s.startIdx == 1 by {
      assert b[0] != '{' && b[1] == '{' && b[..1] == "}";
    }
    assert b[1..4] == "{{}";
    assert Depth("{{}") == 1 by {
      assert "{{}"[..2] == "{{" && "{{"[..1] == "{" && "{"[..0] == "";
    }
  }

  // ----------------------------------------------------- trajectory loading

  datatype Point = Point(time: real, hip: real, ankle: real)

  /** `GaitTrajectory`: the loaded points (the first `pointCount` entries of
      the point array), the cycle duration, and whether a trajectory is loaded. */
  datatype Trajectory = Trajectory(points: seq<Point>, cycleDuration: real, loaded: bool)

  /** What the parser reports of the document: each of the three arrays and
      the cycle duration, `None` when the key is absent. */
  datatype TrajectoryDoc = TrajectoryDoc(
    time: Option<seq<real>>,
    hip: Option<seq<real>>,
    ankle: Option<seq<real>>,
    cycleDuration: Option<real>)

  /** `deserializeJson` followed by reading the fields: `None` on a parse error. */
  type Parser = string -> Option<TrajectoryDoc>

  /** Whether a parsed document passes the loader's checks. */
  predicate Acceptable(d: TrajectoryDoc) {
    && d.time.Some? && d.hip.Some? && d.ankle.Some?
    && var n := |d.time.value| % U16Modulus;
    && 1 <= n <= MaxPoints
    && |d.hip.value| == n && |d.ankle.value| == n
  }

  /** `loadGaitTrajectoryFromJson`, given what the parser made of the text:
      the new trajectory and whether it was loaded. */
  function LoadFromJson(traj: Trajectory, doc: Option<TrajectoryDoc>): (r: (Trajectory, bool))
    ensures r.1 <==> doc.Some? && Acceptable(doc.value)
    ensures !r.1 ==> r.0 == traj
    ensures r.1 ==>
      var d := doc.value;
      var n := |d.time.value| % U16Modulus;
      && r.0.loaded
      && |r.0.points| == n
      && (forall i :: 0 <= i < n ==>
            r.0.points[i] == Point(d.time.value[i], d.hip.value[i], d.ankle.value[i]))
      && (d.cycleDuration.Some? && d.cycleDuration.value > 0.0 ==> r.0.cycleDuration == d.cycleDuration.value)
      && ((d.cycleDuration.None? || d.cycleDuration.value <= 0.0) && n > 1 ==>
            r.0.cycleDuration == d.time.value[n - 1])
      // a single point keeps the given duration, 0 when none is given
      && (n == 1 ==> r.0.cycleDuration == d.cycleDuration.GetOr(0.0))
  {
    if doc.None? || !Acceptable(doc.value) then (traj, false)
    else
      var d := doc.value;
      var n := |d.time.value| % U16Modulus;
      var given := d.cycleDuration.GetOr(0.0);
      var duration := if given <= 0.0 && n > 1 then d.time.value[n - 1] else given;
      var pts := seq(n, i requires 0 <= i < n => Point(d.time.value[i], d.hip.value[i], d.ankle.value[i]));
      (Trajectory(pts, duration, true), true)
  }

  /** Within the document sizes the loader can see, all three arrays of an
      accepted document have the same length, between 1 and `MaxPoints`, and
      every entry is loaded. */
  lemma AcceptedArraysAgree(d: TrajectoryDoc)
    requires Acceptable(d) && |d.time.value| < U16Modulus
    ensures |d.time.value| == |d.hip.value| == |d.ankle.value|
    ensures 1 <= |d.time.value| <= MaxPoints
    ensures |LoadFromJson(Trajectory([], 0.0, false), Some(d)).0.points| == |d.time.value|
  {
  }

  /** The count is a 16-bit value: a time array of 65537 entries is taken to
      hold one point, and a document with one hip and one ankle value passes. */
  lemma PointCountWraps()
    ensures Acceptable(TrajectoryDoc(Some(seq(65537, _ => 0.0)), Some([1.0]), Some([2.0]), None))
  {
  }

  // ----------------------------------------------------------- the session

  /** `GaitDataReceiveState` (the timeout is the constant `TimeoutMs`). */
  datatype Receiver = Receiver(receiving: bool, buffer: string, startTime: U32)

  datatype Outcome = Ignored | TimedOut | Waiting | Finished(loaded: bool)

  /** `startReceivingGaitData`. */
  function Start(now: U32): (r: Receiver)
    ensures r.receiving && r.buffer == [] && r.startTime == now
  {
    Receiver(true, "", now)
  }

  /** `stopReceivingGaitData`. */
  function Stop(rx: Receiver): (r: Receiver)
    ensures !r.receiving && r.buffer == [] && r.startTime == rx.startTime
  {
    rx.(receiving := false, buffer := "")
  }

  /** One call of `processReceivedGaitData` with the (trimmed) line `line`
      at time `now`. */
  function Process(rx: Receiver, traj: Trajectory, line: string, now: U32, parse: Parser)
    : (r: (Receiver, Trajectory, Outcome))
    ensures !rx.receiving ==> r == (rx, traj, Ignored)
    ensures rx.receiving && Elapsed(now, rx.startTime) > TimeoutMs ==> r == (Stop(rx), traj, TimedOut)
    ensures rx.receiving && Elapsed(now, rx.startTime) <= TimeoutMs ==>
      && (r.2 == Waiting <==> Extract(rx.buffer + line).None?)
      && (r.2 == Waiting ==> r.0 == rx.(buffer := rx.buffer + line) && r.1 == traj)
      && (r.2 != Waiting ==>
            && r.0 == Stop(rx)
            && r.2 == Finished(LoadFromJson(traj, parse(Extract(rx.buffer + line).value)).1)
            && r.1 == LoadFromJson(traj, parse(Extract(rx.buffer + line).value)).0)
    // the trajectory changes only when a complete, valid object has arrived
    ensures r.1 != traj ==> r.2 == Finished(true)
  {
    if !rx.receiving then (rx, traj, Ignored)
    else if Elapsed(now, rx.startTime) > TimeoutMs then (Stop(rx), traj, TimedOut)
    else
      var buf := rx.buffer + line;
      match Extract(buf)
      case None => (rx.(buffer := buf), traj, Waiting)
      case Some(text) =>
        var loaded := LoadFromJson(traj, parse(text));
        (Stop(rx), loaded.0, Finished(loaded.1))
  }

  /** An object split over two lines loads exactly as if it had arrived on
      one: the session only ever looks at the concatenation. */
  lemma SplitObjectSameResult(rx: Receiver, traj: Trajectory, l1: string, l2: string,
                              t1: U32, t2: U32, parse: Parser)
    requires Process(rx, traj, l1, t1, parse).2 == Waiting
    ensures var mid := Process(rx, traj, l1, t1, parse);
            var two := Process(mid.0, mid.1, l2, t2, parse);
            var one := Process(rx, traj, l1 + l2, t2, parse);
            two == one
  {
    assert rx.buffer + l1 + l2 == rx.buffer + (l1 + l2);
  }

  /** A session that was started at `start` accepts nothing once more than
      `TimeoutMs` have passed: the next line ends it and loads nothing. */
  lemma LateLineEndsSession(start: U32, lines: seq<string>, traj: Trajectory, now: U32, parse: Parser,
                            line: string)
    requires Elapsed(now, start) > TimeoutMs
    ensures var r := Process(Start(start).(buffer := JoinAll(lines)), traj, line, now, parse);
            !r.0.receiving && r.1 == traj && r.2 == TimedOut
  {
  }

  function JoinAll(lines: seq<string>): string
    decreases |lines|
  {
    if lines == [] then "" else JoinAll(lines[..|lines| - 1]) + lines[|lines| - 1]
  }
}

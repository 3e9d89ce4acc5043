/** The test oscillation of one joint about the angle it was at when started:
    every `stepIntervalMs` the target moves `StepDeg` towards the current
    end of the range, turns round at each end, and is sent to the motor with a
    speed limit when it changed. One call of `updateSwing` is one `Update`;
    the motor's angle at start and the clock are parameters. */
module SwingOscillator {
  import opened Wrappers
  import opened Clock

  /** The angle moved per step (degrees). */
  const StepDeg: real := 0.2
  /** Amplitudes up to this stop the swing (degrees). */
  const MinAmplitude: real := 0.01
  /** Smaller target changes are not sent (degrees). */
  const MinChange: real := 0.01
  /** The speed limit sent with each target. */
  const SwingSpeed: int := 200
  /** The step interval both joints start with (ms). */
  const DefaultIntervalMs: U32 := 50

  /** `SwingState`; `hasMotor` stands for a non-null `motor`. */
  datatype Swing = Swing(
    active: bool,
    centerAngle: real,
    amplitude: real,
    currentAngle: real,
    direction: bool,
    lastStepMs: U32,
    stepIntervalMs: U32,
    hasMotor: bool)

  /** A position command with speed limit. */
  datatype Command = Command(angle: real, maxSpeed: int)

  const Initial: Swing := Swing(false, 0.0, 0.0, 0.0, true, 0, DefaultIntervalMs, true)

  function Abs(x: real): real { if x < 0.0 then -x else x }
  function MinOf(x: real, y: real): real { if x <= y then x else y }
  function MaxOf(x: real, y: real): real { if x >= y then x else y }

  /** The target lies between the two ends of the swing. */
  predicate InRange(s: Swing) {
    s.centerAngle - s.amplitude <= s.currentAngle <= s.centerAngle + s.amplitude
  }

  /** The swing's invariant: with a usable amplitude, the target is in range. */
  predicate Wf(s: Swing) {
    s.amplitude > MinAmplitude ==> InRange(s)
  }

  /** `startSwing`, with `angle` the joint angle read back from the motor. */
  function Start(s: Swing, angle: real, amplitude: real, now: U32): (r: Swing)
    ensures r.active && r.hasMotor && r.direction
    ensures r.centerAngle == angle && r.currentAngle == angle && r.amplitude == amplitude
    ensures r.lastStepMs == now && r.stepIntervalMs == s.stepIntervalMs
    ensures amplitude >= 0.0 ==> InRange(r)
    ensures Wf(r)
  {
    s.(centerAngle := angle, amplitude := amplitude, currentAngle := angle,
       direction := true, lastStepMs := now, active := true, hasMotor := true)
  }

  /** `stopSwing`. */
  function Stop(s: Swing): (r: Swing)
    ensures !r.active && r == s.(active := false)
  {
    s.(active := false)
  }

  /** The next target and direction from `s`. */
  function Advance(s: Swing): (r: (real, bool))
    requires InRange(s)
    ensures s.direction ==> s.currentAngle <= r.0 <= s.currentAngle + StepDeg
    ensures !s.direction ==> s.currentAngle - StepDeg <= r.0 <= s.currentAngle
    // one full step towards the current end, stopping at that end
    ensures s.direction ==> r.0 == MinOf(s.currentAngle + StepDeg, s.centerAngle + s.amplitude)
    ensures !s.direction ==> r.0 == MaxOf(s.currentAngle - StepDeg, s.centerAngle - s.amplitude)
    ensures s.centerAngle - s.amplitude <= r.0 <= s.centerAngle + s.amplitude
    // the direction turns exactly at the ends of the range
    ensures r.1 != s.direction <==>
      (if s.direction then r.0 == s.centerAngle + s.amplitude else r.0 == s.centerAngle - s.amplitude)
  {
    if s.direction then
      var c := s.currentAngle + StepDeg;
      if c >= s.centerAngle + s.amplitude then (s.centerAngle + s.amplitude, false) else (c, true)
    else
      var c := s.currentAngle - StepDeg;
      if c <= s.centerAngle - s.amplitude then (s.centerAngle - s.amplitude, true) else (c, false)
  }

  /** One call of `updateSwing` at time `now`: the new state and the command
      sent, if any. */
  function Update(s: Swing, now: U32): (r: (Swing, Option<Command>))
    requires Wf(s)
    ensures Wf(r.0)
    // nothing happens while inactive or before the step interval has passed
    ensures !s.active || !s.hasMotor || Elapsed(now, s.lastStepMs) < s.stepIntervalMs ==> r == (s, None)
    ensures s.active && s.hasMotor && Elapsed(now, s.lastStepMs) >= s.stepIntervalMs ==>
      && r.0.lastStepMs == now
      && r.0.centerAngle == s.centerAngle && r.0.amplitude == s.amplitude
      // a vanishing amplitude stops the swing without a command
      && (s.amplitude <= MinAmplitude ==> !r.0.active && r.1.None?)
      // otherwise the target moves one step towards its current end, stopping there
      && (s.amplitude > MinAmplitude ==>
            && r.0.active
            && Abs(r.0.currentAngle - s.currentAngle) <= StepDeg
            && (s.direction ==>
                  r.0.currentAngle == MinOf(s.currentAngle + StepDeg, s.centerAngle + s.amplitude))
            && (!s.direction ==>
                  r.0.currentAngle == MaxOf(s.currentAngle - StepDeg, s.centerAngle - s.amplitude))
            // turning round exactly at the ends of the range
            && (r.0.direction != s.direction <==>
                  r.0.currentAngle == (if s.direction then s.centerAngle + s.amplitude
                                       else s.centerAngle - s.amplitude))
            // and is sent, with the swing speed limit, exactly when it moved noticeably
            && (r.1.Some? <==> Abs(r.0.currentAngle - s.currentAngle) > MinChange)
            && (r.1.Some? ==> r.1.value == Command(r.0.currentAngle, SwingSpeed)))
  {
    if !s.active || !s.hasMotor then (s, None)
    else if Elapsed(now, s.lastStepMs) < s.stepIntervalMs then (s, None)
    else
      var s1 := s.(lastStepMs := now);
      if s.amplitude <= MinAmplitude then (s1.(active := false), None)
      else
        var next := Advance(s);
        var s2 := s1.(currentAngle := next.0, direction := next.1);
        if Abs(next.0 - s.currentAngle) > MinChange then (s2, Some(Command(next.0, SwingSpeed)))
        else (s2, None)
  }

  /** The steps of a running swing, one per `now` in `times`. */
  function Run(s: Swing, times: seq<U32>): (r: Swing)
    requires Wf(s)
    ensures Wf(r)
    decreases |times|
  {
    if times == [] then s else Run(Update(s, times[0]).0, times[1..])
  }

  /** However long it runs, a swing started with a usable amplitude never
      commands the joint beyond the two ends of its range. */
  lemma {:induction false} RunStaysInRange(s: Swing, times: seq<U32>)
    requires Wf(s) && s.amplitude > MinAmplitude
    ensures InRange(Run(s, times))
    ensures Run(s, times).amplitude == s.amplitude && Run(s, times).centerAngle == s.centerAngle
    decreases |times|
  {
    if times != [] {
      RunStaysInRange(Update(s, times[0]).0, times[1..]);
    }
  }

  /** Started from rest, the target sweeps upwards first, one step at a time,
      and the first command goes one step above the centre. */
  lemma FirstStepGoesUp(s: Swing, angle: real, amplitude: real, t0: U32, t1: U32)
    requires amplitude > StepDeg
    requires Elapsed(t1, t0) >= s.stepIntervalMs
    ensures var u := Update(Start(s, angle, amplitude, t0), t1);
            u.1 == Some(Command(angle + StepDeg, SwingSpeed)) && u.0.direction
  {
  }
}

/** The ankle compliance controller: a four-state machine that backs the
    ankle motor off when the wearer resists it (NORMAL -> COMPLIANT -> HOLD),
    lets it recover only after resistance has stayed low for a while, and
    drops to FAULT_SAFE on a communication loss, over-temperature or an
    out-of-range ankle angle. One call of `updateComplianceController` is one
    `Step`; the clock reading `millis()` is the input's `now`. */
module Compliance {
  import opened Clock

  /** Current thresholds: `COMPLIANCE_I1` and `COMPLIANCE_I2` (mA). */
  const I1: int := 500
  const I2: int := 1000
  /** Position-error thresholds `COMPLIANCE_E1` and `COMPLIANCE_E2` (degrees). */
  const E1: real := 3.0
  const E2: real := 7.0
  /** `COMPLIANCE_T_RESIST`: how long resistance must stay low before the
      controller steps back down (ms). */
  const TResist: int := 250
  /** `TEMP_MAX` (degrees Celsius). */
  const TempMax: int := 70
  /** `ANKLE_THETA_MIN` / `ANKLE_THETA_MAX`: the safe ankle range (degrees). */
  const ThetaMin: real := -15.0
  const ThetaMax: real := 15.0

  datatype Mode = Normal | Compliant | Hold | FaultSafe

  /** `ComplianceController`. */
  datatype Ctrl = Ctrl(
    state: Mode,
    lastState: Mode,
    stateStartMs: U32,
    lowResistanceStartMs: U32,
    initialized: bool,
    maxSpeedFactor: real,
    positionHold: real)

  /** The arguments of one call, plus the clock reading. */
  datatype Input = Input(
    now: U32,
    ankle: real,
    thetaRef: real,
    iq: int,
    temperature: int,
    commOk: bool)

  /** The static initial value of `complianceCtrl`. */
  const Initial: Ctrl := Ctrl(Normal, Normal, 0, 0, false, 1.0, 0.0)

  /** The speed factor each state prescribes. */
  function FactorOf(m: Mode): (f: real)
    ensures 0.0 <= f <= 1.0
    ensures f == 0.0 <==> (m == Hold || m == FaultSafe)
  {
    match m
    case Normal => 1.0
    case Compliant => 0.5
    case Hold => 0.0
    case FaultSafe => 0.0
  }

  function Abs(x: int): int { if x < 0 then -x else x }
  function AbsReal(x: real): real { if x < 0.0 then -x else x }

  predicate Fault(x: Input) {
    !x.commOk || x.temperature > TempMax || x.ankle < ThetaMin || x.ankle > ThetaMax
  }

  predicate CompliantCondition(x: Input) {
    Abs(x.iq) > I1 || AbsReal(x.thetaRef - x.ankle) > E1
  }

  predicate HoldCondition(x: Input) {
    Abs(x.iq) > I2 || AbsReal(x.thetaRef - x.ankle) > E2
  }

  predicate LowResistance(x: Input) {
    Abs(x.iq) < I1
  }

  /** A sample during which the timer for stepping down may run. */
  predicate Quiet(x: Input) {
    !Fault(x) && LowResistance(x)
  }

  /** The state the low-resistance timer leads back to. */
  function Relaxed(m: Mode): Mode {
    match m
    case Hold => Compliant
    case Compliant => Normal
    case _ => m
  }

  /** The controller's invariant: the speed factor is the one of its state,
      and in NORMAL the low-resistance timer is idle. */
  predicate Wf(c: Ctrl) {
    && c.maxSpeedFactor == FactorOf(c.state)
    && (c.state == Normal ==> c.lowResistanceStartMs == 0)
  }

  /** The first call fills in the controller. */
  function Initialize(c: Ctrl, x: Input): (r: Ctrl)
    ensures r.initialized
    ensures c.initialized ==> r == c
    ensures !c.initialized ==> r.state == Normal && r.lowResistanceStartMs == 0 && Wf(r)
  {
    if c.initialized then c
    else Ctrl(Normal, Normal, x.now, 0, true, 1.0, x.ankle)
  }

  /** The low-resistance timer while in state `c.state`: start it, or, once
      `TResist` ms have passed since it started, step down to `next`. */
  function Tick(c: Ctrl, x: Input, next: Mode): (r: (Mode, Ctrl))
    requires next != c.state
    ensures r.0 == next ==>
      && c.lowResistanceStartMs != 0
      && Elapsed(x.now, c.lowResistanceStartMs) >= TResist
      && r.1.lowResistanceStartMs == 0
    ensures r.0 != next ==> r.0 == c.state
    // a timer that has run for `TResist` ms steps down
    ensures c.lowResistanceStartMs != 0 && Elapsed(x.now, c.lowResistanceStartMs) >= TResist ==> r.0 == next
    ensures r.0 == c.state ==>
      r.1.lowResistanceStartMs == (if c.lowResistanceStartMs == 0 then x.now else c.lowResistanceStartMs)
    ensures r.1 == c.(lowResistanceStartMs := r.1.lowResistanceStartMs)
  {
    if c.lowResistanceStartMs == 0 then (c.state, c.(lowResistanceStartMs := x.now))
    else if Elapsed(x.now, c.lowResistanceStartMs) >= TResist then (next, c.(lowResistanceStartMs := 0))
    else (c.state, c)
  }

  /** The `switch` on the current state, for a sample without a fault: the
      state to move to and the controller with its timer and hold position
      updated. `fixHoldTimer` selects whether escalating from COMPLIANT to
      HOLD clears the low-resistance timer. */
  function Decide(fixHoldTimer: bool, c: Ctrl, x: Input): (Mode, Ctrl)
  {
    match c.state
    case Normal =>
      if HoldCondition(x) then (Hold, c.(positionHold := x.ankle))
      else if CompliantCondition(x) then (Compliant, c)
      else (Normal, c)
    case Compliant =>
      if HoldCondition(x) then
        (Hold, c.(positionHold := x.ankle,
                  lowResistanceStartMs := if fixHoldTimer then 0 else c.lowResistanceStartMs))
      else if LowResistance(x) then Tick(c, x, Normal)
      else (Compliant, c.(lowResistanceStartMs := 0))
    case Hold =>
      if LowResistance(x) then Tick(c, x, Compliant)
      else (Hold, c.(lowResistanceStartMs := 0))
    case FaultSafe =>
      (Normal, c.(lowResistanceStartMs := 0))
  }

  /** The state-change block: record the old state, restart the state clock
      and set the new state's speed factor (and hold position). */
  function Enter(c: Ctrl, m: Mode, x: Input): Ctrl {
    c.(lastState := c.state,
       state := m,
       stateStartMs := x.now,
       maxSpeedFactor := FactorOf(m),
       positionHold := if m == Hold || m == FaultSafe then x.ankle else c.positionHold)
  }

  /** One call of `updateComplianceController`. */
  function StepWith(fixHoldTimer: bool, c0: Ctrl, x: Input): (c: Ctrl)
    ensures c.initialized
    // a fault always wins and freezes the ankle where it is
    ensures Fault(x) ==> && c.state == FaultSafe && c.maxSpeedFactor == 0.0
                         && c.positionHold == x.ankle && c.stateStartMs == x.now
    ensures !Fault(x) ==> c.state != FaultSafe
    // a cleared fault returns to NORMAL straight away, with the timer idle
    ensures c0.initialized && c0.state == FaultSafe && !Fault(x) ==>
      c.state == Normal && c.lowResistanceStartMs == 0 && c.maxSpeedFactor == 1.0
    // escalation: resistance above the HOLD threshold stops NORMAL and COMPLIANT
    ensures c0.initialized && (c0.state == Normal || c0.state == Compliant) && !Fault(x) && HoldCondition(x) ==>
      c.state == Hold && c.positionHold == x.ankle && c.maxSpeedFactor == 0.0
    // from NORMAL, resistance above the COMPLIANT threshold alone yields COMPLIANT
    ensures Initialize(c0, x).state == Normal && !Fault(x) && !HoldCondition(x) ==>
      && (c.state == Compliant <==> CompliantCondition(x))
      && (c.state == Normal <==> !CompliantCondition(x))
    // de-escalation is one level at a time and needs a quiet sample
    ensures c0.initialized && c0.state == Hold && !Fault(x) ==> c.state == Hold || c.state == Compliant
    ensures c0.initialized && !Fault(x) && c.state == Relaxed(c0.state) && c.state != c0.state
            && c0.state != FaultSafe ==>
      && LowResistance(x) && c0.lowResistanceStartMs != 0
      && Elapsed(x.now, c0.lowResistanceStartMs) >= TResist
    // and a quiet sample once the timer has run for `TResist` ms steps down
    ensures c0.initialized && !Fault(x) && c0.state == Hold && LowResistance(x)
            && c0.lowResistanceStartMs != 0 && Elapsed(x.now, c0.lowResistanceStartMs) >= TResist ==>
      c.state == Compliant
    ensures c0.initialized && !Fault(x) && c0.state == Compliant && !HoldCondition(x) && LowResistance(x)
            && c0.lowResistanceStartMs != 0 && Elapsed(x.now, c0.lowResistanceStartMs) >= TResist ==>
      c.state == Normal
    // a state change is recorded
    ensures c0.initialized && c.state != c0.state ==> c.stateStartMs == x.now
    ensures c0.initialized && c.state != c0.state && !Fault(x) ==> c.lastState == c0.state
  {
    var c1 := Initialize(c0, x);
    if Fault(x) then
      c1.(state := FaultSafe, maxSpeedFactor := 0.0, positionHold := x.ankle, stateStartMs := x.now)
    else
      var d := Decide(fixHoldTimer, c1, x);
      if d.0 == c1.state then d.1 else Enter(d.1, d.0, x)
  }

  /** The controller as written: escalating from COMPLIANT to HOLD keeps a
      low-resistance timer that was already running. */
  function StepAsWritten(c: Ctrl, x: Input): (r: Ctrl)
    ensures c.initialized && c.state == Compliant && !Fault(x) && HoldCondition(x) ==>
      r.state == Hold && r.lowResistanceStartMs == c.lowResistanceStartMs
  {
    StepWith(false, c, x)
  }

  /** The corrected controller: a state is always entered with its
      low-resistance timer idle, so leaving it needs a quiet run observed in
      that state. */
  function Step(c: Ctrl, x: Input): (r: Ctrl)
    ensures Wf(c) && (r.state == Hold || r.state == Compliant) && r.state != Initialize(c, x).state ==>
      r.lowResistanceStartMs == 0
  {
    StepWith(true, c, x)
  }

  /** `resetComplianceFault`: leave FAULT_SAFE by hand. */
  function ResetFault(c: Ctrl, now: U32): (r: Ctrl)
    ensures c.state == FaultSafe ==>
      && r.state == Normal && r.lastState == FaultSafe && r.stateStartMs == now
      && r.maxSpeedFactor == 1.0 && r.lowResistanceStartMs == 0
      && r.positionHold == c.positionHold && r.initialized == c.initialized
    ensures c.state != FaultSafe ==> r == c
    ensures Wf(c) ==> Wf(r)
  {
    if c.state == FaultSafe then
      c.(state := Normal, lastState := FaultSafe, stateStartMs := now,
         maxSpeedFactor := 1.0, lowResistanceStartMs := 0)
    else c
  }

  /** `getComplianceSpeedFactor`: an uninitialised controller does not slow
      the motor. */
  function SpeedFactor(c: Ctrl): (f: real)
    ensures Wf(c) ==> f == FactorOf(if c.initialized then c.state else Normal)
  {
    if c.initialized then c.maxSpeedFactor else 1.0
  }

  // ------------------------------------------------------------ invariant

  lemma InitialWf()
    ensures Wf(Initial) && SpeedFactor(Initial) == 1.0
  {
  }

  /** Both revisions keep the speed factor in step with the state and the
      timer idle in NORMAL. */
  lemma StepKeepsWf(fixHoldTimer: bool, c: Ctrl, x: Input)
    requires Wf(c)
    ensures Wf(StepWith(fixHoldTimer, c, x))
    ensures 0.0 <= SpeedFactor(StepWith(fixHoldTimer, c, x)) <= 1.0
  {
  }

  // ------------------------------------------------------- timer discipline

  /** The controller after each input of `ins` in turn. */
  function Drive(c: Ctrl, ins: seq<Input>): Ctrl
    decreases |ins|
  {
    if ins == [] then c else Step(Drive(c, ins[..|ins| - 1]), ins[|ins| - 1])
  }

  /** The controller stays in `m` after every prefix of `ins`. */
  predicate StaysIn(c: Ctrl, ins: seq<Input>, m: Mode) {
    forall k :: 0 <= k <= |ins| ==> Drive(c, ins[..k]).state == m
  }

  /** `ins` ends with an unbroken run of quiet samples, the first of which
      was taken at time `t`. */
  predicate QuietSince(ins: seq<Input>, t: U32)
    decreases |ins|
  {
    && |ins| > 0
    && Quiet(ins[|ins| - 1])
    && (ins[|ins| - 1].now == t || QuietSince(ins[..|ins| - 1], t))
  }

  lemma StaysInPrefix(c: Ctrl, ins: seq<Input>, m: Mode)
    requires |ins| > 0 && StaysIn(c, ins, m)
    ensures StaysIn(c, ins[..|ins| - 1], m)
  {
    var p := ins[..|ins| - 1];
    forall k | 0 <= k <= |p|
      ensures Drive(c, p[..k]).state == m
    {
      assert p[..k] == ins[..k];
    }
  }

  /** While the controller stays in COMPLIANT or HOLD, a running timer holds
      the time of the first sample of the quiet run that is still going on. */
  lemma {:induction false} TimerMarksQuietRun(c: Ctrl, ins: seq<Input>, m: Mode)
    requires m == Compliant || m == Hold
    requires c.initialized && c.state == m && c.lowResistanceStartMs == 0
    requires StaysIn(c, ins, m)
    ensures Drive(c, ins).lowResistanceStartMs != 0 ==> QuietSince(ins, Drive(c, ins).lowResistanceStartMs)
    ensures Drive(c, ins).initialized
    decreases |ins|
  {
    if ins != [] {
      var p := ins[..|ins| - 1];
      var x := ins[|ins| - 1];
      StaysInPrefix(c, ins, m);
      TimerMarksQuietRun(c, p, m);
      var d := Drive(c, p);
      assert d.state == m by { assert ins[..|p|] == p; }
      assert Drive(c, ins).state == m by { assert ins[..|ins|] == ins; }
      assert ins[..|ins| - 1] == p;
    }
  }

  /** The corrected controller steps down from COMPLIANT or HOLD only after
      resistance has stayed low, without a break and while in that state,
      for at least `TResist` ms. */
  lemma LeavesOnlyAfterQuietRun(c: Ctrl, ins: seq<Input>, m: Mode, x: Input)
    requires m == Compliant || m == Hold
    requires c.initialized && c.state == m && c.lowResistanceStartMs == 0
    requires StaysIn(c, ins, m)
    requires Step(Drive(c, ins), x).state == Relaxed(m)
    ensures Quiet(x)
    ensures Drive(c, ins).lowResistanceStartMs != 0
    ensures QuietSince(ins, Drive(c, ins).lowResistanceStartMs)
    ensures Elapsed(x.now, Drive(c, ins).lowResistanceStartMs) >= TResist
  {
    TimerMarksQuietRun(c, ins, m);
    assert Drive(c, ins).state == m by { assert ins[..|ins|] == ins; }
  }

  /** The controller as written can leave HOLD on the first quiet sample after
      entering it: a timer started in COMPLIANT at 100 ms survives the
      escalation at 200 ms, and at 350 ms HOLD ends although resistance was
      low in HOLD for a single sample. The corrected controller holds. */
  lemma StaleTimerShortensHold()
    ensures var c0 := Ctrl(Compliant, Normal, 0, 100, true, 0.5, 0.0);
            var x1 := Input(200, 0.0, 0.0, 2000, 25, true);
            var x2 := Input(350, 0.0, 0.0, 0, 25, true);
            && Wf(c0)
            && StepAsWritten(c0, x1).state == Hold
            && StepAsWritten(StepAsWritten(c0, x1), x2).state == Compliant
            && Elapsed(x2.now, x1.now) < TResist
            && Step(Step(c0, x1), x2).state == Hold
  {
  }
}

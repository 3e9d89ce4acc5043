/** Two-state gait-phase detection (stance / swing) with debouncing: the
    condition for the other phase must hold for `THoldMs` of accumulated
    sample time before the detector switches. One call of
    `updateGaitPhaseDetector` is one `Step`; the filtered hip signal and the
    adaptive thresholds it reads are the fields of its `Signals` input. */
module GaitPhase {
  import opened Clock

  /** `T_HOLD_MS`: the debounce time. */
  const THoldMs: int := 80

  datatype Phase = Stance | Swing

  /** `GaitPhaseDetector`. */
  datatype Detector = Detector(
    phase: Phase,
    phaseStartMs: U32,
    conditionHoldMs: U32,
    initialized: bool,
    lastUpdateMs: U32)

  /** What the detector reads: whether the hip signal processor and the
      adaptive threshold are initialised, the clock, the filtered hip angle
      and velocity, and the thresholds. */
  datatype Signals = Signals(
    ready: bool,
    now: U32,
    hip: real,
    vel: real,
    mean: real,
    aUp: real,
    aDn: real,
    vUp: real,
    vDn: real)

  const Initial: Detector := Detector(Stance, 0, 0, false, 0)

  predicate SwingCondition(x: Signals) {
    x.vel > x.vUp && x.hip > x.mean + x.aUp
  }

  predicate StanceCondition(x: Signals) {
    x.vel < x.vDn && x.hip < x.mean - x.aDn
  }

  function Other(p: Phase): Phase {
    if p == Stance then Swing else Stance
  }

  /** The condition for leaving phase `p`. */
  predicate Met(p: Phase, x: Signals) {
    if p == Stance then SwingCondition(x) else StanceCondition(x)
  }

  /** The debounce timer of an initialised detector never reaches the
      debounce time: reaching it switches the phase and clears it. */
  predicate Wf(d: Detector) {
    d.initialized ==> d.conditionHoldMs < THoldMs
  }

  /** One call of `updateGaitPhaseDetector`. */
  function Step(d: Detector, x: Signals): (r: Detector)
    // nothing happens before the signal chain is ready, nor twice in one millisecond
    ensures !x.ready ==> r == d
    ensures d.initialized && x.now == d.lastUpdateMs ==> r == d
    // the first ready call starts in stance
    ensures x.ready && !d.initialized ==>
      r == Detector(Stance, x.now, 0, true, x.now)
    ensures Wf(d) ==> Wf(r)
    // later calls: the phase switches exactly when the accumulated time the
    // condition has held reaches the debounce time
    ensures x.ready && d.initialized && x.now != d.lastUpdateMs ==>
      && r.lastUpdateMs == x.now
      && (r.phase != d.phase <==>
            Met(d.phase, x) && Add(d.conditionHoldMs, Elapsed(x.now, d.lastUpdateMs)) >= THoldMs)
      && (r.phase != d.phase ==> r.phaseStartMs == x.now && r.conditionHoldMs == 0)
      && (r.phase == d.phase ==> r.phaseStartMs == d.phaseStartMs)
      && (!Met(d.phase, x) ==> r.conditionHoldMs == 0)
      // while the condition holds without a switch, the sample time accumulates
      && (r.phase == d.phase && Met(d.phase, x) ==>
            r.conditionHoldMs == Add(d.conditionHoldMs, Elapsed(x.now, d.lastUpdateMs)))
  {
    if !x.ready then d
    else if !d.initialized then Detector(Stance, x.now, 0, true, x.now)
    else
      var dt := Elapsed(x.now, d.lastUpdateMs);
      if dt == 0 then d
      else
        var held := if Met(d.phase, x) then Add(d.conditionHoldMs, dt) else 0;
        if held >= THoldMs then Detector(Other(d.phase), x.now, 0, true, x.now)
        else d.(conditionHoldMs := held, lastUpdateMs := x.now)
  }

  /** With the firmware's fixed velocity thresholds the two conditions never
      hold together, so the detector never has a reason to switch both ways. */
  lemma ConditionsExclusive(x: Signals)
    requires x.vDn <= x.vUp
    ensures !(SwingCondition(x) && StanceCondition(x))
  {
  }

  // ---------------------------------------------------------------- debounce

  /** The detector after each input of `xs` in turn. */
  function Drive(d: Detector, xs: seq<Signals>): Detector
    decreases |xs|
  {
    if xs == [] then d else Step(Drive(d, xs[..|xs| - 1]), xs[|xs| - 1])
  }

  predicate StaysIn(d: Detector, xs: seq<Signals>, p: Phase) {
    forall k :: 0 <= k <= |xs| ==> Drive(d, xs[..k]).phase == p
  }

  /** The time, summed over the samples the detector acted on, for which the
      switching condition has held without a break at the end of `xs`. */
  function HeldFor(d: Detector, xs: seq<Signals>): int
    decreases |xs|
  {
    if xs == [] then 0
    else
      var e := Drive(d, xs[..|xs| - 1]);
      var x := xs[|xs| - 1];
      var dt := Elapsed(x.now, e.lastUpdateMs);
      if !x.ready || dt == 0 then HeldFor(d, xs[..|xs| - 1])
      else if Met(e.phase, x) then HeldFor(d, xs[..|xs| - 1]) + dt
      else 0
  }

  lemma StaysInPrefix(d: Detector, xs: seq<Signals>, p: Phase)
    requires |xs| > 0 && StaysIn(d, xs, p)
    ensures StaysIn(d, xs[..|xs| - 1], p)
  {
    var q := xs[..|xs| - 1];
    forall k | 0 <= k <= |q|
      ensures Drive(d, q[..k]).phase == p
    {
      assert q[..k] == xs[..k];
    }
  }

  /** Within one phase the debounce timer never runs ahead of the time the
      condition has actually held. */
  lemma {:induction false} TimerBoundedByHeldTime(d: Detector, xs: seq<Signals>, p: Phase)
    requires d.initialized && d.phase == p && d.conditionHoldMs == 0
    requires StaysIn(d, xs, p)
    ensures Drive(d, xs).initialized
    ensures Drive(d, xs).conditionHoldMs <= HeldFor(d, xs)
    decreases |xs|
  {
    if xs != [] {
      var q := xs[..|xs| - 1];
      StaysInPrefix(d, xs, p);
      TimerBoundedByHeldTime(d, q, p);
      assert Drive(d, q).phase == p by { assert xs[..|q|] == q; }
    }
  }

  /** Driving a consistent detector keeps it consistent. */
  lemma {:induction false} DriveKeepsWf(d: Detector, xs: seq<Signals>)
    requires Wf(d)
    ensures Wf(Drive(d, xs))
    decreases |xs|
  {
    if xs != [] {
      DriveKeepsWf(d, xs[..|xs| - 1]);
    }
  }

  /** The hold time never reaches 2^32 ms at any point of `xs`, so the
      `uint32_t` timer never wraps. */
  predicate NoWrap(d: Detector, xs: seq<Signals>) {
    forall k :: 0 <= k <= |xs| ==> HeldFor(d, xs[..k]) < 0x1_0000_0000
  }

  lemma NoWrapPrefix(d: Detector, xs: seq<Signals>)
    requires |xs| > 0 && NoWrap(d, xs)
    ensures NoWrap(d, xs[..|xs| - 1])
  {
    var q := xs[..|xs| - 1];
    forall k | 0 <= k <= |q|
      ensures HeldFor(d, q[..k]) < 0x1_0000_0000
    {
      assert q[..k] == xs[..k];
    }
  }

  /** Within one phase, and while the timer cannot wrap, the debounce timer is
      exactly the time the condition has held without a break. */
  lemma {:induction false} TimerEqualsHeldTime(d: Detector, xs: seq<Signals>, p: Phase)
    requires d.initialized && d.phase == p && d.conditionHoldMs == 0
    requires StaysIn(d, xs, p) && NoWrap(d, xs)
    ensures Drive(d, xs).conditionHoldMs == HeldFor(d, xs)
    decreases |xs|
  {
    if xs != [] {
      var q := xs[..|xs| - 1];
      StaysInPrefix(d, xs, p);
      NoWrapPrefix(d, xs);
      TimerEqualsHeldTime(d, q, p);
      TimerBoundedByHeldTime(d, q, p);
      assert Drive(d, q).phase == p by { assert xs[..|q|] == q; }
      assert HeldFor(d, xs) < 0x1_0000_0000 by { assert xs[..|xs|] == xs; }
      assert Drive(d, xs).phase == p by { assert xs[..|xs|] == xs; }
    }
  }

  /** Conversely, once the condition for leaving the phase has held for
      `THoldMs` without a break, the detector switches. */
  lemma DebounceSwitches(d: Detector, xs: seq<Signals>, p: Phase, x: Signals)
    requires d.initialized && d.phase == p && d.conditionHoldMs == 0
    requires StaysIn(d, xs, p) && NoWrap(d, xs + [x])
    requires HeldFor(d, xs + [x]) >= THoldMs
    ensures Step(Drive(d, xs), x).phase != p
  {
    var ys := xs + [x];
    assert ys[..|xs|] == xs;
    NoWrapPrefix(d, ys);
    TimerEqualsHeldTime(d, xs, p);
    DriveKeepsWf(d, xs);
    TimerBoundedByHeldTime(d, xs, p);
    assert Drive(d, xs).phase == p by { assert xs[..|xs|] == xs; }
    assert HeldFor(d, ys) < 0x1_0000_0000 by { assert ys[..|ys|] == ys; }
  }

  /** The detector switches phase only after the condition for the other
      phase has held for at least `THoldMs`, counted from when the phase
      began. */
  lemma SwitchNeedsDebounce(d: Detector, xs: seq<Signals>, p: Phase, x: Signals)
    requires d.initialized && d.phase == p && d.conditionHoldMs == 0
    requires StaysIn(d, xs, p)
    requires Step(Drive(d, xs), x).phase != p
    ensures Met(p, x)
    ensures HeldFor(d, xs + [x]) >= THoldMs
  {
    TimerBoundedByHeldTime(d, xs, p);
    assert Drive(d, xs).phase == p by { assert xs[..|xs|] == xs; }
    assert (xs + [x])[..|xs|] == xs;
  }
}

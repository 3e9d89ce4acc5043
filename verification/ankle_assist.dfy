/** The ankle dorsiflexion assist strategy: during swing, an S-curve target
    between `ThetaLow` and `ThetaHigh` that the reference angle is raised to
    when the wearer's ankle is below the window, never below what the wearer
    already does, within the safety limits; and an assist factor that fades
    out as the ankle rises. One call of `updateAnkleAssistStrategy` is one
    `Update`. Arithmetic is on reals. */
module AnkleAssist {

  /** `ANKLE_THETA_LOW` / `ANKLE_THETA_HIGH`: the dorsiflexion window. */
  const ThetaLow: real := 2.0
  const ThetaHigh: real := 8.0
  /** `ANKLE_THETA_MIN` / `ANKLE_THETA_MAX`: the safety limits. */
  const ThetaMin: real := -15.0
  const ThetaMax: real := 15.0

  /** `AnkleAssistController`. */
  datatype Assist = Assist(
    thetaRef: real,
    thetaTarget: real,
    assistFactor: real,
    enabled: bool,
    initialized: bool)

  const Initial: Assist := Assist(0.0, 0.0, 1.0, false, false)

  /** `smoothStep`: the cubic S-curve 3s^2 - 2s^3 on [0, 1], clamped outside. */
  function SmoothStep(s: real): (u: real)
    ensures 0.0 <= u <= 1.0
    ensures s <= 0.0 ==> u == 0.0
    ensures s >= 1.0 ==> u == 1.0
  {
    if s <= 0.0 then 0.0
    else if s >= 1.0 then 1.0
    else
      SmoothStepInRange(s);
      s * s * (3.0 - 2.0 * s)
  }

  lemma SmoothStepInRange(s: real)
    requires 0.0 < s < 1.0
    ensures 0.0 <= s * s * (3.0 - 2.0 * s) <= 1.0
  {
    var c := s * s * (3.0 - 2.0 * s);
    MulNonneg(s, s);
    MulNonneg(s * s, 3.0 - 2.0 * s);
    MulNonneg(1.0 - s, 1.0 - s);
    MulNonneg((1.0 - s) * (1.0 - s), 1.0 + 2.0 * s);
    assert 1.0 - c == (1.0 - s) * (1.0 - s) * (1.0 + 2.0 * s);
  }

  /** The S-curve never goes backwards. */
  lemma SmoothStepMonotone(a: real, b: real)
    requires a <= b
    ensures SmoothStep(a) <= SmoothStep(b)
  {
    if 0.0 < a && b < 1.0 {
      CubicMonotone(a, b);
    }
  }

  lemma CubicMonotone(a: real, b: real)
    requires 0.0 < a <= b < 1.0
    ensures a * a * (3.0 - 2.0 * a) <= b * b * (3.0 - 2.0 * b)
  {
    var aa, ab, bb := a * a, a * b, b * b;
    MulAtMost(a, a);
    MulAtMost(b, b);
    MulAtMost(a, b);
    MulAtMost(b, a);
    assert aa <= a && bb <= b && ab <= b && ab <= a;
    var k := 3.0 * (a + b) - 2.0 * (aa + ab + bb);
    assert k >= 0.0;
    MulNonneg(b - a, k);
    assert b * b * (3.0 - 2.0 * b) - a * a * (3.0 - 2.0 * a) == (b - a) * k;
  }

  lemma MulNonneg(x: real, y: real)
    requires x >= 0.0 && y >= 0.0
    ensures x * y >= 0.0
  {
  }

  /** Scaling by a factor in [0, 1] does not increase a non-negative value. */
  lemma MulAtMost(x: real, y: real)
    requires 0.0 <= x <= 1.0 && y >= 0.0
    ensures x * y <= y
  {
    MulNonneg(1.0 - x, y);
    assert (1.0 - x) * y == y - x * y;
  }

  /** The S-curve is symmetric about its midpoint: the second half of the
      swing mirrors the first. */
  lemma SmoothStepSymmetric(s: real)
    ensures SmoothStep(1.0 - s) == 1.0 - SmoothStep(s)
  {
    if 0.0 < s < 1.0 {
      var t := 1.0 - s;
      assert t * t * (3.0 - 2.0 * t) == 1.0 - s * s * (3.0 - 2.0 * s);
    }
  }

  lemma SmoothStepMidpoint()
    ensures SmoothStep(0.5) == 0.5
  {
  }

  function Clamp(x: real, lo: real, hi: real): (r: real)
    requires lo <= hi
    ensures lo <= r <= hi
    ensures lo <= x <= hi ==> r == x
  {
    if x < lo then lo else if x > hi then hi else x
  }

  /** The S-curve target for swing progress `s`. */
  function Target(s: real): (t: real)
    ensures ThetaLow <= t <= ThetaHigh
    ensures s <= 0.0 ==> t == ThetaLow
    ensures s >= 1.0 ==> t == ThetaHigh
  {
    ThetaLow + (ThetaHigh - ThetaLow) * SmoothStep(s)
  }

  /** The outputs when no assistance is given: follow the ankle. */
  function Idle(a: Assist, ankle: real): Assist {
    a.(thetaRef := ankle, thetaTarget := ThetaLow, assistFactor := 0.0)
  }

  /** One call of `updateAnkleAssistStrategy`: `inSwing` is whether the gait
      phase is swing, `progressReady` whether swing progress has been
      initialised, `s` the swing progress. */
  function Update(a: Assist, ankle: real, inSwing: bool, progressReady: bool, s: real): (r: Assist)
    // outside swing (or before progress exists) the reference follows the ankle
    ensures !(inSwing && progressReady) ==>
      r.thetaRef == ankle && r.thetaTarget == ThetaLow && r.assistFactor == 0.0
      && r.enabled == a.enabled && r.initialized == a.initialized
    // the first swing call switches assistance on
    ensures inSwing && progressReady ==> r.initialized
                                         && r.enabled == (a.enabled || !a.initialized)
    ensures inSwing && progressReady && !r.enabled ==>
      r.thetaRef == ankle && r.assistFactor == 0.0
    // while assisting
    ensures inSwing && progressReady && r.enabled ==>
      && r.thetaTarget == Target(s)
      // the reference stays within the safety limits and never below the window
      && ThetaLow <= r.thetaRef <= ThetaMax
      // never pushes the wearer's ankle down within the safe range
      && (ankle <= ThetaMax ==> r.thetaRef >= ankle)
      // leaves a wearer who lifts enough alone
      && (ThetaLow <= ankle <= ThetaMax ==> r.thetaRef == ankle)
      // otherwise lifts to the target
      && (ankle < ThetaLow ==> r.thetaRef == (if ankle > r.thetaTarget then ankle else r.thetaTarget))
      // an ankle beyond the upper safety limit is held at the limit
      && (ankle > ThetaMax ==> r.thetaRef == ThetaMax)
      && 0.0 <= r.assistFactor <= 1.0
      && (r.assistFactor == 0.0 <==> ankle >= ThetaLow)
      && (r.assistFactor == 1.0 <==> ankle <= ThetaMin)
      // in between, the factor falls linearly from 1 at ThetaMin to 0 at ThetaLow
      && (ThetaMin < ankle < ThetaLow ==> r.assistFactor == (ThetaLow - ankle) / (ThetaLow - ThetaMin))
  {
    if !inSwing || !progressReady then Idle(a, ankle)
    else
      var a1 := if a.initialized then a else a.(enabled := true, initialized := true);
      if !a1.enabled then Idle(a1, ankle)
      else
        var target := Target(s);
        var raised := if ankle >= ThetaLow then ankle else if ankle > target then ankle else target;
        var ref := Clamp(raised, ThetaMin, ThetaMax);
        var p := Clamp((ankle - ThetaMin) / (ThetaLow - ThetaMin), 0.0, 1.0);
        a1.(thetaTarget := target, thetaRef := ref, assistFactor := 1.0 - p)
  }

  /** Later in the swing the target is never lower. */
  lemma TargetRisesWithProgress(s1: real, s2: real)
    requires s1 <= s2
    ensures Target(s1) <= Target(s2)
  {
    SmoothStepMonotone(s1, s2);
  }

  /** The assist factor fades monotonically as the ankle rises. */
  lemma AssistFadesAsAnkleRises(a: Assist, s: real, ankle1: real, ankle2: real)
    requires a.initialized && a.enabled && ankle1 <= ankle2
    ensures Update(a, ankle2, true, true, s).assistFactor <= Update(a, ankle1, true, true, s).assistFactor
  {
    var d := ThetaLow - ThetaMin;
    assert (ankle1 - ThetaMin) / d <= (ankle2 - ThetaMin) / d;
  }

  /** `setAnkleAssistEnabled`: with assistance switched off, swing calls
      follow the ankle as outside swing. */
  function SetEnabled(a: Assist, enabled: bool): (r: Assist)
    ensures r.enabled == enabled && r.initialized
    ensures forall ankle: real, s: real {:trigger Update(r, ankle, true, true, s)} ::
      !enabled ==> Update(r, ankle, true, true, s).thetaRef == ankle
                   && Update(r, ankle, true, true, s).assistFactor == 0.0
  {
    a.(enabled := enabled, initialized := true)
  }
}

/** The adaptive threshold behind gait-phase detection: a circular window of
    the last `WindowSize` filtered hip angles, its mean and amplitude, and the
    angle and velocity thresholds derived from them. One call of
    `updateAdaptiveThreshold` is one `Update`. Arithmetic is on reals; the
    firmware's single-precision rounding is not modelled. */
module ThresholdWindow {
  import opened Clock
  import Rolling

  /** `HIP_WINDOW_SIZE`: 2 s of samples at 100 Hz. */
  const WindowSize: nat := 200
  /** Amplitudes below this are replaced by `DefaultAmp` (degrees). */
  const MinAmp: real := 1.0
  const DefaultAmp: real := 10.0
  /** The angle thresholds are this fraction of the amplitude. */
  const AmpFraction: real := 0.2
  /** The fixed velocity thresholds (degrees per second). */
  const VUp: real := 20.0
  const VDn: real := -20.0

  /** `AdaptiveThreshold`. */
  datatype Threshold = Threshold(
    window: seq<real>,
    windowIndex: nat,
    windowCount: nat,
    initialized: bool,
    hipMean: real,
    hipAmp: real,
    aUp: real,
    aDn: real,
    vUp: real,
    vDn: real,
    lastUpdateMs: U32)

  function Fill(n: nat, x: real): (r: seq<real>)
    ensures |r| == n
    ensures forall i :: 0 <= i < n ==> r[i] == x
  {
    seq(n, _ => x)
  }

  /** The static initial value of `adaptiveThreshold`. */
  const Initial: Threshold := Threshold(Fill(WindowSize, 0.0), 0, 0, false, 0.0, 0.0, 0.0, 0.0, VUp, VDn, 0)

  /** Shape of an initialised threshold: a full window and an index into it. */
  predicate Wf(t: Threshold) {
    && |t.window| == WindowSize
    && t.windowIndex < WindowSize
    && (t.initialized ==> t.windowCount == WindowSize)
  }

  function Sum(s: seq<real>): real
    decreases |s|
  {
    if s == [] then 0.0 else Sum(s[..|s| - 1]) + s[|s| - 1]
  }

  function MinOf(s: seq<real>): (m: real)
    requires |s| > 0
    ensures forall i :: 0 <= i < |s| ==> m <= s[i]
    decreases |s|
  {
    if |s| == 1 then s[0]
    else
      var m := MinOf(s[..|s| - 1]);
      if s[|s| - 1] < m then s[|s| - 1] else m
  }

  function MaxOf(s: seq<real>): (m: real)
    requires |s| > 0
    ensures forall i :: 0 <= i < |s| ==> s[i] <= m
    decreases |s|
  {
    if |s| == 1 then s[0]
    else
      var m := MaxOf(s[..|s| - 1]);
      if s[|s| - 1] > m then s[|s| - 1] else m
  }

  /** The extremes are samples of the window, so the amplitude is the spread
      between two actual samples. */
  lemma {:induction false} ExtremesAttained(s: seq<real>)
    requires |s| > 0
    ensures MinOf(s) in s && MaxOf(s) in s
    decreases |s|
  {
    if |s| > 1 {
      ExtremesAttained(s[..|s| - 1]);
    }
  }

  /** The window's amplitude, replaced by the default when the hip hardly moves. */
  function Amplitude(w: seq<real>): (a: real)
    requires |w| > 0
    ensures a >= MinAmp
    ensures MaxOf(w) - MinOf(w) >= MinAmp ==> a == MaxOf(w) - MinOf(w)
    ensures MaxOf(w) - MinOf(w) < MinAmp ==> a == DefaultAmp
  {
    var a := MaxOf(w) - MinOf(w);
    if a < MinAmp then DefaultAmp else a
  }

  /** One call of `updateAdaptiveThreshold` with filtered hip angle `hip`. */
  function Update(t: Threshold, hip: real, now: U32): (r: Threshold)
    requires Wf(t)
    ensures Wf(r) && r.initialized && r.lastUpdateMs == now
    // the first call fills the whole window with the first sample
    ensures !t.initialized ==> r.window == Fill(WindowSize, hip) && r.hipMean == hip
                               && r.aUp == 0.0 && r.aDn == 0.0 && r.windowIndex == 0
    // later calls overwrite the oldest slot and advance the index
    ensures t.initialized ==>
      && r.window == t.window[t.windowIndex := hip]
      && r.windowIndex == (t.windowIndex + 1) % WindowSize
      && r.hipMean == Sum(r.window) / (WindowSize as real)
      && r.hipAmp == Amplitude(r.window)
      && r.hipAmp >= MinAmp
      && r.aUp == r.aDn == AmpFraction * r.hipAmp
      && r.vUp == VUp && r.vDn == VDn
  {
    if !t.initialized then
      t.(window := Fill(WindowSize, hip), windowIndex := 0, windowCount := WindowSize,
         hipMean := hip, hipAmp := 0.0, aUp := 0.0, aDn := 0.0,
         lastUpdateMs := now, initialized := true)
    else
      var w := t.window[t.windowIndex := hip];
      var count := if t.windowCount < WindowSize then t.windowCount + 1 else t.windowCount;
      var amp := Amplitude(w[..count]);
      assert w[..count] == w;
      t.(window := w,
         windowIndex := (t.windowIndex + 1) % WindowSize,
         windowCount := count,
         hipMean := Sum(w[..count]) / (count as real),
         hipAmp := amp,
         aUp := AmpFraction * amp,
         aDn := AmpFraction * amp,
         vUp := VUp,
         vDn := VDn,
         lastUpdateMs := now)
  }

  // ------------------------------------------------------------------ mean

  /** After every update the mean lies between the smallest and the largest
      sample of the window. */
  lemma MeanWithinWindow(t: Threshold, hip: real, now: U32)
    requires Wf(t)
    ensures var r := Update(t, hip, now);
      MinOf(r.window) <= r.hipMean <= MaxOf(r.window)
  {
    var r := Update(t, hip, now);
    if t.initialized {
      MeanBetweenExtremes(r.window);
    } else {
      assert r.window[0] == hip;
    }
  }

  lemma {:induction false} SumBounds(s: seq<real>, lo: real, hi: real)
    requires forall i :: 0 <= i < |s| ==> lo <= s[i] <= hi
    ensures lo * (|s| as real) <= Sum(s) <= hi * (|s| as real)
    decreases |s|
  {
    if s != [] {
      SumBounds(s[..|s| - 1], lo, hi);
    }
  }

  /** The mean of a non-empty window lies between its smallest and largest
      sample. */
  lemma MeanBetweenExtremes(s: seq<real>)
    requires |s| > 0
    ensures MinOf(s) <= Sum(s) / (|s| as real) <= MaxOf(s)
  {
    var lo, hi, n := MinOf(s), MaxOf(s), |s| as real;
    assert lo * n <= Sum(s) <= hi * n by {
      SumBounds(s, lo, hi);
    }
    DivBetween(Sum(s), n, lo, hi);
  }

  lemma DivBetween(x: real, n: real, lo: real, hi: real)
    requires n > 0.0 && lo * n <= x <= hi * n
    ensures lo <= x / n <= hi
  {
    assert (x / n) * n == x;
  }

  lemma {:induction false} SumAppend(a: seq<real>, b: seq<real>)
    ensures Sum(a + b) == Sum(a) + Sum(b)
    decreases |b|
  {
    if b == [] {
      assert a + b == a;
    } else {
      var b' := b[..|b| - 1];
      SumAppend(a, b');
      assert (a + b)[..|a + b| - 1] == a + b';
    }
  }

  // ------------------------------------------------------------- rotation

  /** A full window whose next slot to overwrite is `i`, read from the
      oldest sample to the newest. */
  function Rotate(w: seq<real>, i: nat): (r: seq<real>)
    requires i <= |w|
    ensures |r| == |w|
  {
    w[i..] + w[..i]
  }

  /** Reading the window in order neither loses nor invents a sample. */
  lemma RotateKeepsSamples(w: seq<real>, i: nat)
    requires i <= |w|
    ensures multiset(Rotate(w, i)) == multiset(w)
  {
    assert w == w[..i] + w[i..];
  }

  function Ordered(t: Threshold): seq<real>
    requires Wf(t)
  {
    Rotate(t.window, t.windowIndex)
  }

  /** Overwriting the oldest slot and advancing the index drops the oldest
      sample and appends the new one. */
  lemma RotateOverwrite(w: seq<real>, i: nat, x: real)
    requires |w| == WindowSize && i < WindowSize
    ensures Rotate(w[i := x], (i + 1) % WindowSize) == Rotate(w, i)[1..] + [x]
  {
    var v := w[i := x];
    if i + 1 < |w| {
      assert v[i + 1..] == w[i + 1..];
      assert v[..i + 1] == w[..i] + [x];
      assert Rotate(w, i)[1..] == w[i + 1..] + w[..i];
    } else {
      assert v == w[..i] + [x];
      assert Rotate(w, i)[1..] == w[..i];
    }
  }

  lemma UpdateRotates(t: Threshold, hip: real, now: U32)
    requires Wf(t) && t.initialized
    ensures Ordered(Update(t, hip, now)) == Ordered(t)[1..] + [hip]
  {
    RotateOverwrite(t.window, t.windowIndex, hip);
  }

  /** The updates after the first, in order. */
  function UpdateAll(t: Threshold, hips: seq<real>, now: U32): (r: Threshold)
    requires Wf(t)
    ensures Wf(r)
    ensures t.initialized ==> r.initialized
    decreases |hips|
  {
    if hips == [] then t else UpdateAll(Update(t, hips[0], now), hips[1..], now)
  }

  /** However many samples have arrived, the window holds exactly the newest
      `WindowSize` of them, counting the copies of the first sample that
      filled it. */
  lemma {:induction false} WindowHoldsNewest(t: Threshold, hips: seq<real>, now: U32)
    requires Wf(t) && t.initialized
    ensures Ordered(UpdateAll(t, hips, now)) == Rolling.Newest(Ordered(t) + hips, WindowSize)
    decreases |hips|
  {
    if hips == [] {
      assert Ordered(t) + hips == Ordered(t);
    } else {
      var t1 := Update(t, hips[0], now);
      var all := Ordered(t) + hips;
      calc {
        Ordered(UpdateAll(t, hips, now));
        Ordered(UpdateAll(t1, hips[1..], now));
        { WindowHoldsNewest(t1, hips[1..], now); }
        Rolling.Newest(Ordered(t1) + hips[1..], WindowSize);
        { UpdateRotates(t, hips[0], now);
          assert Ordered(t1) + hips[1..] == all[1..]; }
        Rolling.Newest(all[1..], WindowSize);
        { NewestDropsFront(all, WindowSize); }
        Rolling.Newest(all, WindowSize);
      }
    }
  }

  lemma NewestDropsFront<T>(s: seq<T>, n: nat)
    requires |s| > n
    ensures Rolling.Newest(s[1..], n) == Rolling.Newest(s, n)
  {
    assert s[1..][|s| - 1 - n..] == s[|s| - n..];
  }

  /** Starting from the first sample, the window is the newest `WindowSize`
      of the first sample repeated and everything after it; its mean is the
      mean of those samples. */
  lemma FirstSampleFillsWindow(h0: real, hips: seq<real>, now: U32)
    ensures var t := UpdateAll(Update(Initial, h0, now), hips, now);
            && Ordered(t) == Rolling.Newest(Fill(WindowSize, h0) + hips, WindowSize)
            && Sum(Ordered(t)) == Sum(t.window)
  {
    var t0 := Update(Initial, h0, now);
    WindowHoldsNewest(t0, hips, now);
    assert Ordered(t0) == Fill(WindowSize, h0);
    var t := UpdateAll(t0, hips, now);
    SumAppend(t.window[t.windowIndex..], t.window[..t.windowIndex]);
    SumAppend(t.window[..t.windowIndex], t.window[t.windowIndex..]);
    assert t.window[..t.windowIndex] + t.window[t.windowIndex..] == t.window;
  }
}

/** The firmware's `millis()` clock: a 32-bit unsigned millisecond counter
    that wraps, and elapsed times computed by unsigned subtraction. */
module Clock {
  const Modulus: int := 0x1_0000_0000

  type U32 = x: int | 0 <= x < Modulus

  /** `now - since` on `uint32_t`: the distance forward from `since` to
      `now` on the wrapping counter. */
  function Elapsed(now: U32, since: U32): (r: U32)
    ensures since <= now ==> r == now - since
    ensures now < since ==> r == now + Modulus - since
  {
    (now - since) % Modulus
  }

  /** `a + b` on `uint32_t`. */
  function Add(a: U32, b: U32): (r: U32)
    ensures a + b < Modulus ==> r == a + b
    ensures a + b >= Modulus ==> r == a + b - Modulus
  {
    (a + b) % Modulus
  }

  /** Elapsed time is the unique forward distance: moving `since` forward by
      it lands on `now`. */
  lemma ElapsedInverse(now: U32, since: U32)
    ensures Add(since, Elapsed(now, since)) == now
  {
  }

  /** Across a wrap of the counter the elapsed time is still the true
      distance, as long as less than one full period has passed. */
  lemma ElapsedAcrossWrap(since: U32, d: U32)
    ensures Elapsed(Add(since, d), since) == d
  {
  }
}

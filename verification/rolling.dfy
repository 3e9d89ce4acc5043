/** Fixed-capacity rolling series with the semantics of Python's
    `collections.deque(maxlen=cap)`: appending to a full deque drops the
    oldest element. */
module Rolling {

  /** `MAX_DATA_POINTS`: capacity of the time, hip and ankle buffers. */
  const Capacity: nat := 2000

  /** The newest `n` elements of `s`, in arrival order (all of `s` when it is
      shorter). This is the reference the deque operations are checked against. */
  function Newest<T>(s: seq<T>, n: nat): (r: seq<T>)
    ensures |r| == if |s| < n then |s| else n
    ensures r == s[|s| - |r|..]
  {
    if |s| <= n then s else s[|s| - n..]
  }

  /** `deque.append(x)` on a deque with `maxlen = cap`. */
  function Push<T>(buf: seq<T>, x: T, cap: nat): (r: seq<T>)
    requires cap > 0
    ensures |r| <= cap
    ensures |buf| < cap ==> |r| == |buf| + 1
    ensures |buf| >= cap ==> |r| == cap
    ensures r[|r| - 1] == x
    ensures r == Newest(buf + [x], cap)
  {
    if |buf| < cap then buf + [x] else buf[|buf| + 1 - cap..] + [x]
  }

  /** Appending every element of `xs`, in order. */
  function PushAll<T>(buf: seq<T>, xs: seq<T>, cap: nat): (r: seq<T>)
    requires cap > 0
    decreases |xs|
  {
    if xs == [] then buf else PushAll(Push(buf, xs[0], cap), xs[1..], cap)
  }

  lemma NewestOfNewest<T>(a: seq<T>, b: seq<T>, n: nat)
    ensures Newest(Newest(a, n) + b, n) == Newest(a + b, n)
  {
    var na := Newest(a, n);
    assert na + b == (a + b)[|a| - |na|..];
  }

  /** After any number of appends the buffer holds exactly the newest `cap`
      values of everything appended, in arrival order. */
  lemma {:induction false} PushAllKeepsNewest<T>(buf: seq<T>, xs: seq<T>, cap: nat)
    requires 0 < cap && |buf| <= cap
    ensures PushAll(buf, xs, cap) == Newest(buf + xs, cap)
    decreases |xs|
  {
    if xs == [] {
      assert buf + xs == buf;
    } else {
      var b1 := Push(buf, xs[0], cap);
      calc {
        PushAll(buf, xs, cap);
        PushAll(b1, xs[1..], cap);
        { PushAllKeepsNewest(b1, xs[1..], cap); }
        Newest(b1 + xs[1..], cap);
        Newest(Newest(buf + [xs[0]], cap) + xs[1..], cap);
        { NewestOfNewest(buf + [xs[0]], xs[1..], cap); }
        Newest(buf + [xs[0]] + xs[1..], cap);
        { assert buf + [xs[0]] + xs[1..] == buf + xs; }
        Newest(buf + xs, cap);
      }
    }
  }

  /** Appending a batch to a buffer the capacity bounds keeps its newest
      entries. */
  lemma BatchKeepsNewest<T>(buf: seq<T>, xs: seq<T>)
    ensures |buf| <= Capacity ==> PushAll(buf, xs, Capacity) == Newest(buf + xs, Capacity)
  {
    if |buf| <= Capacity { PushAllKeepsNewest(buf, xs, Capacity); }
  }

  /** After an append, the older entries still sit just before the new one. */
  lemma PushKeepsRecent<T>(buf: seq<T>, x: T, cap: nat, j: nat)
    requires cap > 0 && 1 <= j <= |buf| && j < cap
    ensures var r := Push(buf, x, cap); |r| > j && r[|r| - 1 - j] == buf[|buf| - j]
  {
    var s, r := buf + [x], Push(buf, x, cap);
    assert r == s[|s| - |r|..];
    assert r[|r| - 1 - j] == s[|s| - 1 - j] == buf[|buf| - j];
  }
}

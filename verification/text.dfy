/** Text helpers with the semantics of the Python string methods the
    collectors use (`strip`, `startswith`, `endswith`, `find`, `rfind`).
    Whitespace is the ASCII whitespace set. */
module Text {

  /** Space, or one of `\t`, `\n`, `\v`, `\f`, `\r` (the contiguous codes 9 to 13). */
  predicate IsSpace(c: char) {
    c == ' ' || '\t' <= c <= '\r'
  }

  /** Every character of `s` in `[lo, hi)` is whitespace. */
  predicate AllSpaceIn(s: string, lo: int, hi: int)
    requires 0 <= lo && hi <= |s|
  {
    forall i :: lo <= i < hi ==> IsSpace(s[i])
  }

  /** Number of whitespace characters `s.lstrip()` removes. */
  function LeadingSpace(s: string): (n: nat)
    ensures n <= |s| && AllSpaceIn(s, 0, n)
    ensures n < |s| ==> !IsSpace(s[n])
    decreases |s|
  {
    if |s| > 0 && IsSpace(s[0]) then
      var m := LeadingSpace(s[1..]);
      forall i | 1 <= i < m + 1 ensures IsSpace(s[i]) {
        assert s[i] == s[1..][i - 1];
      }
      assert m + 1 < |s| ==> s[m + 1] == s[1..][m];
      m + 1
    else 0
  }

  /** Number of whitespace characters `s.rstrip()` removes. */
  function TrailingSpace(s: string): (m: nat)
    ensures m <= |s| && AllSpaceIn(s, |s| - m, |s|)
    ensures m < |s| ==> !IsSpace(s[|s| - 1 - m])
    decreases |s|
  {
    if |s| > 0 && IsSpace(s[|s| - 1]) then
      var k := TrailingSpace(s[..|s| - 1]);
      forall i | |s| - 1 - k <= i < |s| - 1 ensures IsSpace(s[i]) {
        assert s[i] == s[..|s| - 1][i];
      }
      assert k + 1 < |s| ==> s[|s| - 2 - k] == s[..|s| - 1][|s| - 2 - k];
      k + 1
    else 0
  }

  /** `s.strip()`: drop whitespace from both ends. The result is the infix
      of `s` starting after its leading whitespace; it is empty exactly when
      `s` is all whitespace. */
  function Strip(s: string): (r: string)
    ensures |r| <= |s| - LeadingSpace(s)
    ensures r == s[LeadingSpace(s)..LeadingSpace(s) + |r|]
    ensures |r| > 0 ==> !IsSpace(r[0]) && !IsSpace(r[|r| - 1])
    ensures AllSpaceIn(s, 0, |s|) <==> r == []
    // everything cut from the end is whitespace
    ensures AllSpaceIn(s, LeadingSpace(s) + |r|, |s|)
  {
    var n := LeadingSpace(s);
    var m := TrailingSpace(s[n..]);
    var e := |s| - m;
    TrailingInWhole(s, n, m);
    assert e > n ==> s[n..e][0] == s[n] && s[n..e][e - n - 1] == s[e - 1];
    AllOrNothing(s, n, e);
    s[n..e]
  }

  /** With whitespace before `n` and from `e` on, and a non-space at `n`
      when `n` is in range, the text is all whitespace exactly when the cut
      points meet. */
  lemma AllOrNothing(s: string, n: nat, e: int)
    requires n <= e <= |s| && AllSpaceIn(s, 0, n) && AllSpaceIn(s, e, |s|)
    requires n < |s| ==> !IsSpace(s[n])
    ensures AllSpaceIn(s, 0, |s|) <==> e == n
  {
  }

  /** The trailing run of the rest `s[n..]`, as positions of `s`. */
  lemma TrailingInWhole(s: string, n: nat, m: nat)
    requires n <= |s| && m == TrailingSpace(s[n..])
    ensures AllSpaceIn(s, |s| - m, |s|)
    ensures n + m < |s| ==> !IsSpace(s[|s| - 1 - m])
  {
    var t := s[n..];
    forall i | |s| - m <= i < |s| ensures IsSpace(s[i]) {
      assert s[i] == t[i - n];
    }
    assert n + m < |s| ==> s[|s| - 1 - m] == t[|t| - 1 - m];
  }

  /** A string that neither starts nor ends with whitespace strips to itself. */
  lemma StripKeepsTrimmed(s: string)
    requires |s| > 0 && !IsSpace(s[0]) && !IsSpace(s[|s| - 1])
    ensures Strip(s) == s
  {
    assert LeadingSpace(s) == 0;
    assert s[0..] == s;
    assert TrailingSpace(s) == 0;
    assert s[0..|s|] == s;
  }

  predicate StartsWith(s: string, prefix: string) {
    |prefix| <= |s| && s[..|prefix|] == prefix
  }

  predicate EndsWith(s: string, suffix: string) {
    |suffix| <= |s| && s[|s| - |suffix|..] == suffix
  }

  /** `s.find(c)`: the index of the first occurrence of `c`, or -1. */
  function Find(s: string, c: char): (r: int)
    ensures -1 <= r < |s|
    ensures r == -1 <==> c !in s
    ensures r >= 0 ==> s[r] == c && c !in s[..r]
  {
    if |s| == 0 then -1
    else if s[0] == c then 0
    else
      var k := Find(s[1..], c);
      if k < 0 then -1 else
        assert s[..k + 1] == [s[0]] + s[1..][..k];
        k + 1
  }

  /** `s.rfind(c)`: the index of the last occurrence of `c`, or -1. */
  function RFind(s: string, c: char): (r: int)
    ensures -1 <= r < |s|
    ensures r == -1 <==> c !in s
    ensures r >= 0 ==> s[r] == c && c !in s[r + 1..]
  {
    if |s| == 0 then -1
    else if s[|s| - 1] == c then |s| - 1
    else
      var k := RFind(s[..|s| - 1], c);
      InitLast(s, c, k + 1);
      k
  }

  /** Membership in a suffix, split at the last character. */
  lemma InitLast(s: string, c: char, j: nat)
    requires j < |s|
    ensures c in s[j..] <==> c in s[..|s| - 1][j..] || s[|s| - 1] == c
  {
    assert s[j..] == s[..|s| - 1][j..] + [s[|s| - 1]];
  }
}

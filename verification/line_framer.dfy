/** Newline framing of the serial text stream: the reader appends each chunk
    it reads to a carry-over buffer and cuts complete lines off its front
    (`line, buffer = buffer.split('\n', 1)` while a newline remains). */
module LineFramer {
  import opened Text

  /** Every line followed by its newline, concatenated. */
  function JoinLines(lines: seq<string>): string
    decreases |lines|
  {
    if lines == [] then [] else lines[0] + "\n" + JoinLines(lines[1..])
  }

  predicate NoNewline(s: string) {
    '\n' !in s
  }

  predicate AllLinesClean(lines: seq<string>) {
    forall i :: 0 <= i < |lines| ==> NoNewline(lines[i])
  }

  /** Split `buffer` into the complete lines it holds and the trailing partial
      line. The lines and the rest reassemble the buffer exactly, and neither
      holds a newline. */
  function SplitLines(buffer: string): (r: (seq<string>, string))
    ensures JoinLines(r.0) + r.1 == buffer
    ensures AllLinesClean(r.0) && NoNewline(r.1)
    decreases |buffer|
  {
    var k := Find(buffer, '\n');
    if k < 0 then ([], buffer)
    else
      var tail := SplitLines(buffer[k + 1..]);
      CutFirstLine(buffer, k, tail.0, tail.1);
      ([buffer[..k]] + tail.0, tail.1)
  }

  lemma JoinCons(l: string, ls: seq<string>, rest: string)
    ensures JoinLines([l] + ls) + rest == l + "\n" + (JoinLines(ls) + rest)
  {
    assert ([l] + ls)[0] == l && ([l] + ls)[1..] == ls;
  }

  /** Reassembly and cleanliness after cutting the first line at newline `k`. */
  lemma CutFirstLine(buffer: string, k: nat, lines: seq<string>, rest: string)
    requires k < |buffer| && buffer[k] == '\n' && NoNewline(buffer[..k])
    requires JoinLines(lines) + rest == buffer[k + 1..]
    requires AllLinesClean(lines)
    ensures JoinLines([buffer[..k]] + lines) + rest == buffer
    ensures AllLinesClean([buffer[..k]] + lines)
  {
    JoinCons(buffer[..k], lines, rest);
    assert buffer == buffer[..k] + [buffer[k]] + buffer[k + 1..];
    var all := [buffer[..k]] + lines;
    forall i | 0 <= i < |all| ensures NoNewline(all[i]) {
      if i > 0 {
        assert all[i] == lines[i - 1];
      }
    }
  }

  /** One read: append the chunk to the carry-over and cut off complete lines. */
  function Feed(carry: string, chunk: string): (r: (seq<string>, string))
    ensures JoinLines(r.0) + r.1 == carry + chunk
    ensures AllLinesClean(r.0) && NoNewline(r.1)
  {
    SplitLines(carry + chunk)
  }

  lemma JoinLinesAppend(a: seq<string>, b: seq<string>)
    ensures JoinLines(a + b) == JoinLines(a) + JoinLines(b)
    decreases |a|
  {
    if a == [] {
      assert a + b == b;
    } else {
      assert (a + b)[1..] == a[1..] + b;
      JoinLinesAppend(a[1..], b);
    }
  }

  /** The split is the only one: any list of newline-free lines and newline-free
      rest that reassemble the buffer are the ones `SplitLines` returns. So
      every complete line is produced exactly once, in order. */
  lemma {:induction false} SplitLinesUnique(buffer: string, lines: seq<string>, rest: string)
    requires JoinLines(lines) + rest == buffer
    requires AllLinesClean(lines) && NoNewline(rest)
    ensures SplitLines(buffer) == (lines, rest)
    decreases |buffer|
  {
    var k := Find(buffer, '\n');
    if lines == [] {
      assert buffer == rest;
    } else {
      var l0, tail := lines[0], JoinLines(lines[1..]) + rest;
      assert buffer == l0 + "\n" + tail by {
        assert lines == [l0] + lines[1..];
        JoinCons(l0, lines[1..], rest);
      }
      assert k == |l0| && buffer[..k] == l0 && buffer[k + 1..] == tail by {
        assert NoNewline(l0);
        assert buffer[|l0|] == '\n';
        assert buffer[..|l0|] == l0;
      }
      assert AllLinesClean(lines[1..]) by {
        forall i | 0 <= i < |lines| - 1 ensures NoNewline(lines[1..][i]) {
          assert lines[1..][i] == lines[i + 1];
        }
      }
      SplitLinesUnique(tail, lines[1..], rest);
      assert lines == [l0] + lines[1..];
    }
  }

  /** Where a chunk boundary falls does not matter: two successive reads
      produce the same lines, in the same order, and the same carry-over as
      one read of both chunks together. */
  lemma FeedTwice(carry: string, c1: string, c2: string)
    ensures Feed(carry, c1 + c2)
         == (Feed(carry, c1).0 + Feed(Feed(carry, c1).1, c2).0, Feed(Feed(carry, c1).1, c2).1)
  {
    var f1 := Feed(carry, c1);
    var f2 := Feed(f1.1, c2);
    ReassembleTwo(f1.0, f2.0, f1.1, f2.1, carry, c1, c2);
    CleanAppend(f1.0, f2.0);
    SplitLinesUnique(carry + (c1 + c2), f1.0 + f2.0, f2.1);
  }

  lemma ReassembleTwo(l1: seq<string>, l2: seq<string>, r1: string, r2: string,
                      carry: string, c1: string, c2: string)
    requires JoinLines(l1) + r1 == carry + c1
    requires JoinLines(l2) + r2 == r1 + c2
    ensures JoinLines(l1 + l2) + r2 == carry + (c1 + c2)
  {
    JoinLinesAppend(l1, l2);
    calc {
      JoinLines(l1 + l2) + r2;
      JoinLines(l1) + (JoinLines(l2) + r2);
      JoinLines(l1) + (r1 + c2);
      (JoinLines(l1) + r1) + c2;
      carry + (c1 + c2);
    }
  }

  lemma CleanAppend(a: seq<string>, b: seq<string>)
    requires AllLinesClean(a) && AllLinesClean(b)
    ensures AllLinesClean(a + b)
  {
    forall i | 0 <= i < |a + b|
      ensures NoNewline((a + b)[i])
    {
      if i < |a| {
        assert (a + b)[i] == a[i];
      } else {
        assert (a + b)[i] == b[i - |a|];
      }
    }
  }
}

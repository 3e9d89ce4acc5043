/** Reader side of the GUI collector (`_collect_data`): framing, the prompt
    filter, the raw-line side channel, and the brace-span record extractor. */
module GuiIngest {
  import opened Wrappers
  import opened Text
  import opened Telemetry
  import LineFramer

  /** Some `{` occurs before some `}`. */
  predicate HasBracePair(s: string) {
    exists i, j :: 0 <= i < j < |s| && s[i] == '{' && s[j] == '}'
  }

  /** The decode candidate: from the first `{` through the last `}`, tried
      only when the first `{` precedes the last `}`. */
  function Candidate(s: string): (r: Option<string>)
    ensures r.Some? <==> HasBracePair(s)
    ensures r.Some? ==>
      var i := Find(s, '{');
      var j := RFind(s, '}');
      && 0 <= i < j
      && r.value == s[i..j + 1]
      && '{' !in s[..i] && '}' !in s[j + 1..]
  {
    if '{' in s && '}' in s then
      var start := Find(s, '{');
      var end := RFind(s, '}') + 1;
      if start >= 0 && end > start then
        Some(s[start..end])
      else
        NoPairOutsideSpan(s);
        None
    else
      None
  }

  /** Every `{` is at or after the first one and every `}` at or before the
      last one, so without a first `{` before the last `}` there is no pair. */
  lemma NoPairOutsideSpan(s: string)
    requires !(0 <= Find(s, '{') < RFind(s, '}'))
    ensures !HasBracePair(s)
  {
    forall i, j | 0 <= i < j < |s| ensures !(s[i] == '{' && s[j] == '}') {
      FindIsFirst(s, '{', i);
      RFindIsLast(s, '}', j);
    }
  }

  lemma FindIsFirst(s: string, c: char, i: nat)
    requires i < |s|
    ensures s[i] == c ==> 0 <= Find(s, c) <= i
  {
    var a := Find(s, c);
    assert i < a ==> s[..a][i] == s[i];
  }

  lemma RFindIsLast(s: string, c: char, j: nat)
    requires j < |s|
    ensures s[j] == c ==> j <= RFind(s, c)
  {
    var b := RFind(s, c);
    assert b < j ==> s[b + 1..][j - b - 1] == s[j];
  }

  /** A string that is a brace span as a whole is its own candidate. */
  lemma WholeSpanIsCandidate(s: string)
    requires |s| > 0 && s[0] == '{' && s[|s| - 1] == '}'
    ensures Candidate(s) == Some(s)
  {
    assert HasBracePair(s) by { assert 0 < |s| - 1; }
    assert Find(s, '{') == 0;
    assert RFind(s, '}') == |s| - 1;
    assert s[0..|s|] == s;
  }

  /** What one framed line produces: the raw line for the history channel
      and possibly an accepted sample. */
  datatype LineResult = LineResult(raw: Option<string>, sample: Option<Sample>)

  function HandleLine(line: string, decode: Decoder): (r: LineResult)
    ensures r.raw.Some? <==> !Dropped(line)
    ensures r.raw.Some? ==> r.raw.value == line
    ensures r.sample.Some? ==> r.raw.Some?
    ensures r.sample.Some? <==>
      && !Dropped(line)
      && HasBracePair(Strip(line))
      && DecodeSample(decode, Candidate(Strip(line)).value).Some?
    ensures r.sample.Some? ==> r.sample == DecodeSample(decode, Candidate(Strip(line)).value)
  {
    var s := Strip(line);
    if s == [] || IsPrompt(s) then
      LineResult(None, None)
    else
      match Candidate(s)
      case None => LineResult(Some(line), None)
      case Some(text) => LineResult(Some(line), DecodeSample(decode, text))
  }

  /** Reader state: carry-over text, the raw-line side channel, the sample
      queue handed to `process_data`, and the `total_received` counter. */
  datatype Reader = Reader(carry: string, raw: seq<string>, queue: seq<Sample>, totalReceived: nat)

  const InitialReader := Reader("", [], [], 0)

  /** What each line yields, line by line. */
  function Results(lines: seq<string>, decode: Decoder): (r: seq<LineResult>)
    ensures |r| == |lines|
    ensures forall i :: 0 <= i < |lines| ==> r[i] == HandleLine(lines[i], decode)
  {
    seq(|lines|, i requires 0 <= i < |lines| => HandleLine(lines[i], decode))
  }

  /** The samples in a run of line results, in order. */
  function SamplesIn(rs: seq<LineResult>): (r: seq<Sample>)
    ensures |r| <= |rs|
  {
    if rs == [] then []
    else if rs[0].sample.Some? then [rs[0].sample.value] + SamplesIn(rs[1..])
    else SamplesIn(rs[1..])
  }

  /** The forwarded raw lines in a run of line results, in order. */
  function RawIn(rs: seq<LineResult>): (r: seq<string>)
    ensures |r| <= |rs|
  {
    if rs == [] then []
    else if rs[0].raw.Some? then [rs[0].raw.value] + RawIn(rs[1..])
    else RawIn(rs[1..])
  }

  function SamplesOf(lines: seq<string>, decode: Decoder): seq<Sample> {
    SamplesIn(Results(lines, decode))
  }

  function RawOf(lines: seq<string>, decode: Decoder): seq<string> {
    RawIn(Results(lines, decode))
  }

  lemma {:induction false} InAppend(a: seq<LineResult>, b: seq<LineResult>)
    ensures SamplesIn(a + b) == SamplesIn(a) + SamplesIn(b)
    ensures RawIn(a + b) == RawIn(a) + RawIn(b)
    decreases |a|
  {
    if a == [] {
      assert a + b == b;
    } else {
      assert (a + b)[0] == a[0] && (a + b)[1..] == a[1..] + b;
      InAppend(a[1..], b);
    }
  }

  lemma OfAppend(a: seq<string>, b: seq<string>, decode: Decoder)
    ensures SamplesOf(a + b, decode) == SamplesOf(a, decode) + SamplesOf(b, decode)
    ensures RawOf(a + b, decode) == RawOf(a, decode) + RawOf(b, decode)
  {
    assert Results(a + b, decode) == Results(a, decode) + Results(b, decode);
    InAppend(Results(a, decode), Results(b, decode));
  }

  /** Line results applied in order: a forwarded line goes to the raw
      channel, a sample to the queue, which also counts it. */
  function Apply(rd: Reader, rs: seq<LineResult>): (r: Reader)
    ensures r.carry == rd.carry
    ensures r.queue == rd.queue + SamplesIn(rs)
    ensures r.raw == rd.raw + RawIn(rs)
    ensures r.totalReceived == rd.totalReceived + |SamplesIn(rs)|
    decreases |rs|
  {
    if rs == [] then rd
    else
      var lr := rs[0];
      var rd1 := Reader(
        rd.carry,
        if lr.raw.Some? then rd.raw + [lr.raw.value] else rd.raw,
        if lr.sample.Some? then rd.queue + [lr.sample.value] else rd.queue,
        if lr.sample.Some? then rd.totalReceived + 1 else rd.totalReceived);
      QueueStep(rd.queue, rs);
      RawStep(rd.raw, rs);
      Apply(rd1, rs[1..])
  }

  lemma QueueStep(q: seq<Sample>, rs: seq<LineResult>)
    requires rs != []
    ensures (if rs[0].sample.Some? then q + [rs[0].sample.value] else q) + SamplesIn(rs[1..]) == q + SamplesIn(rs)
  {
    if rs[0].sample.Some? {
      var v, t := rs[0].sample.value, SamplesIn(rs[1..]);
      assert SamplesIn(rs) == [v] + t;
      assert q + [v] + t == q + ([v] + t);
    }
  }

  lemma RawStep(q: seq<string>, rs: seq<LineResult>)
    requires rs != []
    ensures (if rs[0].raw.Some? then q + [rs[0].raw.value] else q) + RawIn(rs[1..]) == q + RawIn(rs)
  {
    if rs[0].raw.Some? {
      var v, t := rs[0].raw.value, RawIn(rs[1..]);
      assert RawIn(rs) == [v] + t;
      assert q + [v] + t == q + ([v] + t);
    }
  }

  /** The lines of one read, each handled exactly once, in order: the raw
      channel and the queue grow by exactly what the lines yield, and
      `totalReceived` by the number of samples queued. */
  function HandleLines(rd: Reader, lines: seq<string>, decode: Decoder): (r: Reader)
    ensures r.carry == rd.carry
    ensures r.queue == rd.queue + SamplesOf(lines, decode)
    ensures r.raw == rd.raw + RawOf(lines, decode)
    ensures r.totalReceived == rd.totalReceived + |SamplesOf(lines, decode)|
  {
    Apply(rd, Results(lines, decode))
  }

  /** One read of `chunk` from the serial port. */
  function Read(rd: Reader, chunk: string, decode: Decoder): (r: Reader)
    ensures LineFramer.NoNewline(r.carry)
    ensures var f := LineFramer.Feed(rd.carry, chunk);
      && r.carry == f.1
      && r.queue == rd.queue + SamplesOf(f.0, decode)
      && r.raw == rd.raw + RawOf(f.0, decode)
    ensures r.totalReceived == rd.totalReceived + (|r.queue| - |rd.queue|)
  {
    var f := LineFramer.Feed(rd.carry, chunk);
    HandleLines(rd.(carry := f.1), f.0, decode)
  }

  /** Where the serial port splits its output does not change what is
      queued, forwarded or counted. */
  lemma ReadTwice(rd: Reader, c1: string, c2: string, decode: Decoder)
    ensures Read(Read(rd, c1, decode), c2, decode) == Read(rd, c1 + c2, decode)
  {
    ReadTwiceChannels(rd, c1, c2, decode);
    LineFramer.FeedTwice(rd.carry, c1, c2);
  }

  lemma ReadTwiceChannels(rd: Reader, c1: string, c2: string, decode: Decoder)
    ensures Read(Read(rd, c1, decode), c2, decode).queue == Read(rd, c1 + c2, decode).queue
    ensures Read(Read(rd, c1, decode), c2, decode).raw == Read(rd, c1 + c2, decode).raw
  {
    var f1 := LineFramer.Feed(rd.carry, c1);
    var f2 := LineFramer.Feed(f1.1, c2);
    LineFramer.FeedTwice(rd.carry, c1, c2);
    ChannelsAppend(rd, f1.0, f2.0, decode);
  }

  lemma ChannelsAppend(rd: Reader, l1: seq<string>, l2: seq<string>, decode: Decoder)
    ensures rd.queue + SamplesOf(l1, decode) + SamplesOf(l2, decode) == rd.queue + SamplesOf(l1 + l2, decode)
    ensures rd.raw + RawOf(l1, decode) + RawOf(l2, decode) == rd.raw + RawOf(l1 + l2, decode)
  {
    var a, b := SamplesOf(l1, decode), SamplesOf(l2, decode);
    var x, y := RawOf(l1, decode), RawOf(l2, decode);
    assert a + b == SamplesOf(l1 + l2, decode) && x + y == RawOf(l1 + l2, decode) by {
      OfAppend(l1, l2, decode);
    }
    ConcatAssoc(rd.queue, a, b);
    ConcatAssoc(rd.raw, x, y);
  }

  lemma ConcatAssoc<T>(a: seq<T>, b: seq<T>, c: seq<T>)
    ensures a + b + c == a + (b + c)
  {
  }
}

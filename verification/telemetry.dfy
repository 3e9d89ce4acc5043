/** Telemetry records shared by both revisions of the PC collector: what a
    decoded wire record is, which lines are command echoes, and when a decoded
    record becomes a sample. */
module Telemetry {
  import opened Wrappers
  import opened Text

  /** A decoded wire record: field name to number. */
  type Record = map<string, real>

  /** Stand-in for `json.loads`: `None` is a decode error. */
  type Decoder = string -> Option<Record>

  /** One accepted record: timestamp `t` (ms), hip angle `h` and ankle angle
      `a` (degrees). */
  datatype Sample = Sample(t: real, h: real, a: real)

  /** Command echoes the device prints; they are never data. */
  predicate IsPrompt(s: string) {
    StartsWith(s, ">") || StartsWith(s, "Command:")
  }

  /** A line dropped before anything else: blank after trimming, or a prompt. */
  predicate Dropped(line: string) {
    var s := Strip(line);
    s == [] || IsPrompt(s)
  }

  /** A decoded record is accepted iff it carries `t`, `h` and `a`. */
  function Accept(rec: Record): (r: Option<Sample>)
    ensures r.Some? <==> "t" in rec && "h" in rec && "a" in rec
    ensures r.Some? ==> r.value == Sample(rec["t"], rec["h"], rec["a"])
  {
    if "t" in rec && "h" in rec && "a" in rec then
      Some(Sample(rec["t"], rec["h"], rec["a"]))
    else
      None
  }

  /** Decode `text` and accept it; decode errors are dropped silently. */
  function DecodeSample(decode: Decoder, text: string): (r: Option<Sample>)
    ensures r.Some? <==> decode(text).Some? && Accept(decode(text).value).Some?
  {
    match decode(text)
    case None => None
    case Some(rec) => Accept(rec)
  }

  /** The timestamps, hip angles and ankle angles of a run of samples. */
  function Times(ss: seq<Sample>): (r: seq<real>)
    ensures |r| == |ss| && forall i :: 0 <= i < |ss| ==> r[i] == ss[i].t
  {
    seq(|ss|, i requires 0 <= i < |ss| => ss[i].t)
  }

  function Hips(ss: seq<Sample>): (r: seq<real>)
    ensures |r| == |ss| && forall i :: 0 <= i < |ss| ==> r[i] == ss[i].h
  {
    seq(|ss|, i requires 0 <= i < |ss| => ss[i].h)
  }

  function Ankles(ss: seq<Sample>): (r: seq<real>)
    ensures |r| == |ss| && forall i :: 0 <= i < |ss| ==> r[i] == ss[i].a
  {
    seq(|ss|, i requires 0 <= i < |ss| => ss[i].a)
  }

  /** Three parallel series: times, hip angles, ankle angles. */
  datatype Snapshot = Snapshot(time: seq<real>, hip: seq<real>, ankle: seq<real>)
}

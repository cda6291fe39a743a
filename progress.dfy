/**
  The progress figure sent after every chunk, and the event-stream framing
  of each message.  The percentage is kept as an exact `real`; the service
  computes it in `f64` and renders it with two decimals, and both the
  rounding and the rendering stay outside the model (rendering is a
  parameter wherever a message is produced).
*/
module Progress {
  import opened Types

  /** `x.min(100.0).max(0.0)`. */
  function Clamp(x: real): (r: real)
    ensures 0.0 <= r <= 100.0
    ensures 0.0 <= x <= 100.0 ==> r == x
    ensures x >= 100.0 ==> r == 100.0
    ensures x <= 0.0 ==> r == 0.0
  {
    var m := if x < 100.0 then x else 100.0;
    if m > 0.0 then m else 0.0
  }

  /** The share of `total` already downloaded, in percent; 0 when the size is unknown. */
  function Percent(downloaded: nat, total: nat): (p: real)
    ensures 0.0 <= p <= 100.0
    ensures total == 0 ==> p == 0.0
    ensures total > 0 && downloaded >= total ==> p == 100.0
  {
    if total > 0 then Clamp((downloaded as real / total as real) * 100.0) else 0.0
  }

  /** Bounds of the figure and its value at the two ends. */
  lemma PercentRange(downloaded: nat, total: nat)
    ensures 0.0 <= Percent(downloaded, total) <= 100.0
    ensures total == 0 ==> Percent(downloaded, total) == 0.0
    ensures total > 0 ==> (Percent(downloaded, total) == 100.0 <==> downloaded >= total)
    ensures total > 0 ==> (Percent(downloaded, total) == 0.0 <==> downloaded == 0)
    ensures total > 0 && downloaded <= total ==>
              Percent(downloaded, total) * (total as real) == (downloaded as real) * 100.0
  {
    if total > 0 {
      var q := downloaded as real / total as real;
      assert q * (total as real) == downloaded as real;
      if downloaded >= total {
        assert q >= 1.0;
      } else {
        assert (1.0 - q) * (total as real) == (total - downloaded) as real;
        assert q < 1.0;
      }
    }
  }

  /** More bytes never give a smaller figure. */
  lemma PercentMonotone(d1: nat, d2: nat, total: nat)
    requires d1 <= d2
    ensures Percent(d1, total) <= Percent(d2, total)
  {
    if total > 0 {
      var t := total as real;
      var q1, q2 := d1 as real / t, d2 as real / t;
      assert q2 - q1 == (d2 - d1) as real / t;
      assert q1 <= q2;
    }
  }

  /** The prefix of every server-sent event frame. */
  const DataPrefix: string := "data: "

  /** Content type of the progress endpoint's response. */
  const EventStreamType: string := "text/event-stream"

  /** `format!("data: {}\n\n", m)`: one event carrying message `m`. */
  function Frame(m: string): (f: string)
    ensures |f| == |m| + 8
  {
    DataPrefix + m + "\n\n"
  }

  /** The bytes an observer's event stream carries for the messages it received. */
  function Frames(ms: seq<string>): (f: string)
    ensures f == [] <==> ms == []
    ensures |f| >= 8 * |ms|
  {
    if ms == [] then [] else Frame(ms[0]) + Frames(ms[1..])
  }

  /** Index of the first line feed in `s`, or `|s|` when there is none. */
  function LineEnd(s: string): (k: nat)
    ensures k <= |s|
    ensures forall j :: 0 <= j < k ==> s[j] != '\n'
    ensures k < |s| ==> s[k] == '\n'
  {
    if s == [] || s[0] == '\n' then 0 else 1 + LineEnd(s[1..])
  }

  /**
    One frame read off the front of a non-empty stream: its data line and
    what follows it; `None` when the stream does not start with a frame.
  */
  function SplitFrame(s: string): (r: Option<(string, string)>)
    ensures r.Some? ==> |r.value.1| < |s|
  {
    if |s| < |DataPrefix| || s[..|DataPrefix|] != DataPrefix then None
    else
      var body := s[|DataPrefix|..];
      var k := LineEnd(body);
      if k + 2 > |body| || body[k..k + 2] != "\n\n" then None
      else Some((body[..k], body[k + 2..]))
  }

  /**
    What a client reading the event stream recovers: each frame's data line,
    in order; `None` when the text is not a sequence of single-line frames.
  */
  function ParseFrames(s: string): (r: Option<seq<string>>)
    decreases |s|
  {
    if s == [] then Some([])
    else match SplitFrame(s)
      case None => None
      case Some((m, rest)) =>
        match ParseFrames(rest)
        case None => None
        case Some(ms) => Some([m] + ms)
  }

  lemma {:induction false} LineEndOf(m: string, rest: string)
    requires '\n' !in m
    ensures LineEnd(m + "\n" + rest) == |m|
  {
    var s := m + "\n" + rest;
    if m != [] {
      assert s[0] == m[0];
      assert s[1..] == m[1..] + "\n" + rest;
      assert '\n' !in m[1..] by {
        assert forall c :: c in m[1..] ==> c in m;
      }
      LineEndOf(m[1..], rest);
    }
  }

  /** The parser reads one frame of a single-line message off the front of the stream. */
  lemma SplitFrameOf(m: string, rest: string)
    requires '\n' !in m
    ensures SplitFrame(Frame(m) + rest) == Some((m, rest))
  {
    var s := Frame(m) + rest;
    var body := s[|DataPrefix|..];
    FrameBody(m, rest);
    LineEndOf(m, "\n" + rest);
    assert body[|m|..|m| + 2] == "\n\n";
    assert body[..|m|] == m;
    assert body[|m| + 2..] == rest;
  }

  /** Where the prefix, the message and the blank line sit in a frame followed by `rest`. */
  lemma FrameBody(m: string, rest: string)
    ensures |Frame(m) + rest| >= |DataPrefix|
    ensures (Frame(m) + rest)[..|DataPrefix|] == DataPrefix
    ensures (Frame(m) + rest)[|DataPrefix|..] == m + "\n" + ("\n" + rest)
  {
    assert Frame(m) + rest == DataPrefix + (m + "\n" + ("\n" + rest));
  }

  /** Framing round trip: a stream of single-line messages parses back to exactly those messages. */
  lemma {:induction false} ParseFramesRoundTrip(ms: seq<string>)
    requires forall i :: 0 <= i < |ms| ==> '\n' !in ms[i]
    ensures ParseFrames(Frames(ms)) == Some(ms)
  {
    if ms != [] {
      ParseFramesRoundTrip(ms[1..]);
      SplitFrameOf(ms[0], Frames(ms[1..]));
      assert [ms[0]] + ms[1..] == ms;
    }
  }
}

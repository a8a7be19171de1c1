/**
 * The WebRTC component: every data-channel message queues 160 audio and 160
 * envelope samples, and every animation frame drains both queues into two
 * plot lines that share one write index. The lines are modelled as one ring
 * whose slots pair the audio value with the envelope value written with it.
 */
module MicrophonePlotWRTC {
  import opened Wrappers
  import opened Seqs
  import opened Ring
  import Frames

  /** The ring's length, `numPoints`. */
  const NumPoints: nat := 96000

  /** `sampleRate` and `secondsPadding`, which fix the silence before a reference recording. */
  const SampleRate: nat := 16000
  const SecondsPadding: nat := 2
  const PaddingSamples: nat := SecondsPadding * SampleRate

  /**
   * One slot of the two lines. `envelope` is `None` where the loop read past
   * the end of the envelope queue: `undefined / 32768` is NaN.
   */
  datatype Sample = Sample(audio: int, envelope: Option<int>)

  /** The closure state: both lines, `bufferIndex`, both queues and `lastTimestamp`. */
  datatype Plot = Plot(ring: Ring<Sample>, audio: seq<int>, envelope: seq<int>, lastTimestamp: Option<real>)

  ghost predicate Valid(p: Plot) {
    p.ring.Valid() && |p.ring.slots| == NumPoints
  }

  /** Both queues hold the same number of samples. */
  predicate InStep(p: Plot) {
    |p.audio| == |p.envelope|
  }

  /** No slot of the envelope line holds NaN. */
  ghost predicate EnvelopeDefined(r: Ring<Sample>) {
    forall i :: 0 <= i < |r.slots| ==> r.slots[i].envelope.Some?
  }

  /** The state when the effect starts: flat lines, index 0, nothing queued, no timestamp. */
  function Initial(): (p: Plot)
    ensures Valid(p) && InStep(p) && EnvelopeDefined(p.ring) && p.lastTimestamp == None
  {
    Plot(Ring(seq(NumPoints, _ => Sample(0, Some(0))), 0), [], [], None)
  }

  // ---------------------------------------------------------------------------
  // The data-channel message
  // ---------------------------------------------------------------------------

  /** `dataChannel.onmessage` as written: a truncated message can queue audio without envelope. */
  function ReceiveAsWritten(p: Plot, msg: seq<Frames.byte>): (p': Plot)
    ensures p'.ring == p.ring && p'.lastTimestamp == p.lastTimestamp
  {
    var q := Frames.OnChannelMessage(p.audio, p.envelope, msg);
    p.(audio := q.audio, envelope := q.envelope)
  }

  /** The message handler with all-or-nothing decoding: a truncated message changes nothing. */
  function Receive(p: Plot, msg: seq<Frames.byte>): (p': Plot)
    ensures p'.ring == p.ring && p'.lastTimestamp == p.lastTimestamp
    ensures InStep(p) ==> InStep(p')
    ensures |msg| < Frames.EnvelopeEnd ==> p' == p
    ensures |msg| >= Frames.EnvelopeEnd ==> p' == ReceiveAsWritten(p, msg)
  {
    Frames.FixedChannelMessageInStep(p.audio, p.envelope, msg);
    var q := Frames.OnChannelMessageFixed(p.audio, p.envelope, msg);
    p.(audio := q.audio, envelope := q.envelope)
  }

  // ---------------------------------------------------------------------------
  // The animation frame
  // ---------------------------------------------------------------------------

  /** The state after a frame, and the marker's ring index if the markers moved. */
  datatype Tick = Tick(plot: Plot, marker: Option<int>)

  /** How many samples a frame writes: none unless mounted and past the first frame. */
  function Plotted(p: Plot, mounted: bool, samplesToPlot: nat): (n: nat)
    ensures n <= |p.audio|
  {
    if mounted && Truthy(p.lastTimestamp) then Min(samplesToPlot, |p.audio|) else 0
  }

  /**
   * Iteration `i` of the loop writes `plotData[i]` and `envelopePlotData[i]`
   * to the same slot; the loop is bounded by the audio queue only.
   */
  function Paired(audio: seq<int>, envelope: seq<int>, n: nat): (vs: seq<Sample>)
    requires n <= |audio|
    ensures |vs| == n
    ensures forall k :: 0 <= k < n ==> vs[k].audio == audio[k]
    ensures forall k :: 0 <= k < n ==> (vs[k].envelope.Some? <==> k < |envelope|)
    ensures forall k :: 0 <= k < n && k < |envelope| ==> vs[k].envelope == Some(envelope[k])
  {
    seq(n, k requires 0 <= k < n => Sample(audio[k], if k < |envelope| then Some(envelope[k]) else None))
  }

  /**
   * `animate(timestamp)`. `mounted` stands for `canvasRef.current &&
   * envelopeCanvasRef.current` and `samplesToPlot` for
   * `Math.floor(elapsedTime * sampleRate)`.
   */
  function Animate(p: Plot, mounted: bool, timestamp: real, samplesToPlot: nat, slider: nat): (t: Tick)
    requires Valid(p)
    ensures Valid(t.plot)
    ensures var n := Plotted(p, mounted, samplesToPlot);
      && t.plot.ring == Write(p.ring, Paired(p.audio, p.envelope, n))
      && t.plot.ring.cursor == Slot(p.ring.cursor, n, NumPoints)
      && p.audio[..n] + t.plot.audio == p.audio
    ensures mounted && Truthy(p.lastTimestamp) ==> t.plot.envelope == Drop(p.envelope, samplesToPlot)
    ensures !(mounted && Truthy(p.lastTimestamp)) ==> t.plot.envelope == p.envelope
    ensures !mounted ==> t == Tick(p, None)
    ensures mounted ==> t.plot.lastTimestamp == Some(timestamp)
    ensures t.marker.Some? <==> mounted && Truthy(p.lastTimestamp)
    ensures t.marker.Some? ==> 0 <= t.marker.value < NumPoints && t.marker.value == Slot(t.plot.ring.cursor, slider, NumPoints)
  {
    if !mounted then
      WriteCursor(p.ring, []);
      Tick(p, None)
    else if Truthy(p.lastTimestamp) then
      var n := Min(samplesToPlot, |p.audio|);
      var ring := Write(p.ring, Paired(p.audio, p.envelope, n));
      WriteCursor(p.ring, Paired(p.audio, p.envelope, n));
      MarkerInRing(ring.cursor, slider, NumPoints);
      var p' := Plot(ring, Drop(p.audio, samplesToPlot), Drop(p.envelope, samplesToPlot), Some(timestamp));
      Tick(p', Some(MarkerIndex(ring.cursor, slider, NumPoints)))
    else
      WriteCursor(p.ring, []);
      Tick(p.(lastTimestamp := Some(timestamp)), None)
  }

  /** The first frame only records its timestamp: no slot is written and nothing is dequeued. */
  lemma FirstFrameWritesNothing(p: Plot, timestamp: real, samplesToPlot: nat, slider: nat)
    requires Valid(p) && p.lastTimestamp == None
    ensures var t := Animate(p, true, timestamp, samplesToPlot, slider);
      t.plot == p.(lastTimestamp := Some(timestamp)) && t.marker == None
  {
  }

  /**
   * With the queues in step, a frame drops the same samples from both, and
   * the audio and envelope values of the `k`-th written sample land in the
   * same slot, `bufferIndex + k`; no slot the frame does not reach changes.
   */
  lemma AnimateInStep(p: Plot, mounted: bool, timestamp: real, samplesToPlot: nat, slider: nat)
    requires Valid(p) && InStep(p)
    ensures var t, n, c := Animate(p, mounted, timestamp, samplesToPlot, slider), Plotted(p, mounted, samplesToPlot), p.ring.cursor;
      && InStep(t.plot)
      && p.envelope[..n] + t.plot.envelope == p.envelope
      && (forall k :: 0 <= k < n && n <= k + NumPoints ==>
            t.plot.ring.slots[Slot(c, k, NumPoints)] == Sample(p.audio[k], Some(p.envelope[k])))
      && (forall d :: n <= d < NumPoints ==> t.plot.ring.slots[Slot(c, d, NumPoints)] == p.ring.slots[Slot(c, d, NumPoints)])
  {
    var n := Plotted(p, mounted, samplesToPlot);
    WriteContents(p.ring, Paired(p.audio, p.envelope, n));
  }

  /** With the queues in step, a frame writes no NaN into the envelope line. */
  lemma AnimateKeepsEnvelopeDefined(p: Plot, mounted: bool, timestamp: real, samplesToPlot: nat, slider: nat)
    requires Valid(p) && InStep(p) && EnvelopeDefined(p.ring)
    ensures EnvelopeDefined(Animate(p, mounted, timestamp, samplesToPlot, slider).plot.ring)
  {
    var vs := Paired(p.audio, p.envelope, Plotted(p, mounted, samplesToPlot));
    WriteKeepsAll(p.ring, vs, (s: Sample) => s.envelope.Some?);
  }

  // ---------------------------------------------------------------------------
  // The truncated message, as written
  // ---------------------------------------------------------------------------

  /**
   * With the handler as written, a 400-byte message on empty queues queues 160
   * audio samples but 34 envelope samples, and the next frame that plots them
   * writes NaN into the envelope line at slot `bufferIndex + 34`.
   */
  lemma TruncatedMessageWritesNaN(p: Plot, msg: seq<Frames.byte>, timestamp: real, samplesToPlot: nat, slider: nat)
    requires Valid(p) && p.audio == [] && p.envelope == [] && Truthy(p.lastTimestamp)
    requires |msg| == 400 && samplesToPlot >= 160
    ensures var p' := ReceiveAsWritten(p, msg);
      && |p'.audio| == 160 && |p'.envelope| == 34
      && Animate(p', true, timestamp, samplesToPlot, slider).plot.ring.slots[Slot(p.ring.cursor, 34, NumPoints)].envelope == None
  {
    Frames.TruncatedChannelMessage(msg);
    var p' := ReceiveAsWritten(p, msg);
    var vs := Paired(p'.audio, p'.envelope, 160);
    WriteLands(p'.ring, vs, 34);
  }

  // ---------------------------------------------------------------------------
  // A run of events
  // ---------------------------------------------------------------------------

  /** What happens to the component: a data-channel message, or an animation frame. */
  datatype Event =
    | Message(bytes: seq<Frames.byte>)
    | Frame(mounted: bool, timestamp: real, samplesToPlot: nat, slider: nat)

  /** The state after one event, with all-or-nothing decoding. */
  function Handle(p: Plot, e: Event): (q: Plot)
    requires Valid(p)
    ensures Valid(q)
  {
    match e
    case Message(bytes) => Receive(p, bytes)
    case Frame(m, ts, s, sl) => Animate(p, m, ts, s, sl).plot
  }

  function Run(p: Plot, events: seq<Event>): (q: Plot)
    requires Valid(p)
    ensures Valid(q)
    decreases |events|
  {
    if events == [] then p else Run(Handle(p, events[0]), events[1..])
  }

  /**
   * With all-or-nothing decoding the queues stay in step through any run of
   * messages and frames, so the envelope line never shows NaN.
   */
  lemma {:induction false} RunKeepsEnvelopeDefined(p: Plot, events: seq<Event>)
    requires Valid(p) && InStep(p) && EnvelopeDefined(p.ring)
    ensures InStep(Run(p, events)) && EnvelopeDefined(Run(p, events).ring)
    decreases |events|
  {
    if events != [] {
      var e := events[0];
      if e.Frame? {
        AnimateInStep(p, e.mounted, e.timestamp, e.samplesToPlot, e.slider);
        AnimateKeepsEnvelopeDefined(p, e.mounted, e.timestamp, e.samplesToPlot, e.slider);
      }
      RunKeepsEnvelopeDefined(Handle(p, e), events[1..]);
    }
  }

  /** The audio samples one event queues: a whole frame's, or none. */
  function AudioIn(e: Event): seq<int> {
    match e
    case Message(bytes) => (match Frames.DecodeFrame(bytes) case Success(f) => f.audio case Failure(_) => [])
    case Frame(_, _, _, _) => []
  }

  /** The envelope samples one event queues: a whole frame's, or none. */
  function EnvelopeIn(e: Event): seq<int> {
    match e
    case Message(bytes) => (match Frames.DecodeFrame(bytes) case Success(f) => f.envelope case Failure(_) => [])
    case Frame(_, _, _, _) => []
  }

  /** How many samples of each queue one event writes into the lines. */
  function Taken(p: Plot, e: Event): (n: nat)
    ensures n <= |p.audio|
  {
    match e
    case Message(_) => 0
    case Frame(m, _, s, _) => Plotted(p, m, s)
  }

  /**
   * With the queues in step, one event neither loses nor reorders a sample of
   * either queue, and takes the same number of samples from both.
   */
  lemma HandleConservesSamples(p: Plot, e: Event)
    requires Valid(p) && InStep(p)
    ensures var q, n := Handle(p, e), Taken(p, e);
      && InStep(q)
      && p.audio[..n] + q.audio == p.audio + AudioIn(e)
      && p.envelope[..n] + q.envelope == p.envelope + EnvelopeIn(e)
  {
    match e
    case Message(bytes) =>
      ReceiveAppendsFrame(p, bytes);
      assert p.audio[..0] == [] && p.envelope[..0] == [];
    case Frame(m, ts, s, sl) =>
      AnimateTakesFromQueues(p, m, ts, s, sl);
  }

  /** A frame takes the same leading samples from both queues and keeps the rest. */
  lemma AnimateTakesFromQueues(p: Plot, mounted: bool, timestamp: real, samplesToPlot: nat, slider: nat)
    requires Valid(p) && InStep(p)
    ensures var q, n := Animate(p, mounted, timestamp, samplesToPlot, slider).plot, Plotted(p, mounted, samplesToPlot);
      && InStep(q)
      && p.audio[..n] + q.audio == p.audio
      && p.envelope[..n] + q.envelope == p.envelope
  {
    AnimateInStep(p, mounted, timestamp, samplesToPlot, slider);
  }

  /** A message appends exactly the samples it decodes to, to each queue. */
  lemma ReceiveAppendsFrame(p: Plot, msg: seq<Frames.byte>)
    ensures var q, e := Receive(p, msg), Message(msg);
      q.audio == p.audio + AudioIn(e) && q.envelope == p.envelope + EnvelopeIn(e)
  {
    match Frames.DecodeFrame(msg)
    case Failure(_) =>
      assert p.audio + [] == p.audio && p.envelope + [] == p.envelope;
    case Success(f) =>
  }

  /** Every audio sample the messages of a run queue, in arrival order. */
  function AllAudioIn(events: seq<Event>): seq<int>
    decreases |events|
  {
    if events == [] then [] else AudioIn(events[0]) + AllAudioIn(events[1..])
  }

  /** Every envelope sample the messages of a run queue, in arrival order. */
  function AllEnvelopeIn(events: seq<Event>): seq<int>
    decreases |events|
  {
    if events == [] then [] else EnvelopeIn(events[0]) + AllEnvelopeIn(events[1..])
  }

  /** Every audio sample the frames of a run write, in writing order. */
  function AllAudioOut(p: Plot, events: seq<Event>): seq<int>
    requires Valid(p)
    decreases |events|
  {
    if events == [] then []
    else p.audio[..Taken(p, events[0])] + AllAudioOut(Handle(p, events[0]), events[1..])
  }

  /** Every envelope sample the frames of a run write, in writing order. */
  function AllEnvelopeOut(p: Plot, events: seq<Event>): seq<int>
    requires Valid(p)
    decreases |events|
  {
    if events == [] then []
    else p.envelope[..Min(Taken(p, events[0]), |p.envelope|)] + AllEnvelopeOut(Handle(p, events[0]), events[1..])
  }

  /**
   * With all-or-nothing decoding no sample of either queue is lost or
   * reordered over any run: what was written followed by what is still queued
   * is what was queued followed by what arrived.
   */
  lemma {:induction false} RunConservesSamples(p: Plot, events: seq<Event>)
    requires Valid(p) && InStep(p)
    ensures var q := Run(p, events);
      && InStep(q)
      && AllAudioOut(p, events) + q.audio == p.audio + AllAudioIn(events)
      && AllEnvelopeOut(p, events) + q.envelope == p.envelope + AllEnvelopeIn(events)
    decreases |events|
  {
    if events != [] {
      var e, rest := events[0], events[1..];
      var p' := Handle(p, e);
      var n := Taken(p, e);
      HandleConservesSamples(p, e);
      RunConservesSamples(p', rest);
      var q := Run(p', rest);
      assert Run(p, events) == q;
      assert AllAudioOut(p, events) == p.audio[..n] + AllAudioOut(p', rest);
      assert AllAudioIn(events) == AudioIn(e) + AllAudioIn(rest);
      ChainConserved(p.audio[..n], AllAudioOut(p', rest), q.audio, p'.audio, p.audio, AudioIn(e), AllAudioIn(rest));
      assert Min(n, |p.envelope|) == n;
      assert AllEnvelopeOut(p, events) == p.envelope[..n] + AllEnvelopeOut(p', rest);
      assert AllEnvelopeIn(events) == EnvelopeIn(e) + AllEnvelopeIn(rest);
      ChainConserved(p.envelope[..n], AllEnvelopeOut(p', rest), q.envelope, p'.envelope, p.envelope, EnvelopeIn(e), AllEnvelopeIn(rest));
    }
  }

  // ---------------------------------------------------------------------------
  // The reference recording overlay
  // ---------------------------------------------------------------------------

  /**
   * The overlay loop run when a reference recording has been decoded: for
   * `i < padding + |wav|`, slot `i` of the line becomes silence before
   * `padding` and `wav[(i - padding) % |wav|]` after it. Writes past the end
   * of the line are dropped, as a typed array drops them.
   */
  method Overlay<T>(line: seq<T>, wav: seq<T>, padding: nat, silence: T) returns (r: seq<T>)
    ensures |r| == |line|
    ensures forall i :: 0 <= i < |line| && i < padding ==> r[i] == silence
    ensures forall i :: padding <= i < |line| && i < padding + |wav| ==> r[i] == wav[i - padding]
    ensures forall i :: padding + |wav| <= i < |line| ==> r[i] == line[i]
  {
    r := line;
    var i := 0;
    while i < padding + |wav|
      invariant 0 <= i <= padding + |wav|
      invariant |r| == |line|
      invariant forall j :: 0 <= j < |line| && j < i && j < padding ==> r[j] == silence
      invariant forall j :: padding <= j < |line| && j < i ==> r[j] == wav[j - padding]
      invariant forall j :: i <= j < |line| ==> r[j] == line[j]
    {
      if i < padding {
        if i < |r| {
          r := r[i := silence];
        }
      } else {
        DivModUnique(i - padding, 0, i - padding, |wav|);
        var index := (i - padding) % |wav|;
        if i < |r| {
          r := r[i := wav[index]];
        }
      }
      i := i + 1;
    }
  }
}

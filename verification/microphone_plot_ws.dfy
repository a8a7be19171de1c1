/**
 * The WebSocket component: every socket message queues 160 audio samples,
 * and every animation frame drains as many queued samples as the elapsed
 * time calls for into the ring, then moves the marker.
 */
module MicrophonePlotWS {
  import opened Wrappers
  import opened Seqs
  import opened Ring
  import Frames

  /** The ring's length, `numPoints`. */
  const NumPoints: nat := 32000

  /** The closure state of the component: the line, `bufferIndex`, `plotData` and `lastTimestamp`. */
  datatype Plot = Plot(ring: Ring<int>, queue: seq<int>, lastTimestamp: Option<real>)

  ghost predicate Valid(p: Plot) {
    p.ring.Valid() && |p.ring.slots| == NumPoints
  }

  /** The state when the effect starts: a flat line, index 0, nothing queued, no timestamp. */
  function Initial(): (p: Plot)
    ensures Valid(p) && p.queue == [] && p.lastTimestamp == None
  {
    Plot(Ring(seq(NumPoints, _ => 0), 0), [], None)
  }

  // ---------------------------------------------------------------------------
  // The socket message
  // ---------------------------------------------------------------------------

  /** `socket.onmessage`: queue the frame's audio samples (those read before a throw, if any). */
  function Receive(p: Plot, msg: seq<Frames.byte>): (p': Plot)
    ensures p'.ring == p.ring && p'.lastTimestamp == p.lastTimestamp
    ensures p'.queue == p.queue + Received(msg)
  {
    Frames.SocketMessageQueues(p.queue, msg);
    p.(queue := Frames.OnSocketMessage(p.queue, msg).queue)
  }

  /** The samples one message adds to the queue: up to 160, from byte 12 on. */
  function Received(msg: seq<Frames.byte>): (vs: seq<int>)
    ensures |vs| <= Frames.SamplesPerFrame
    ensures |msg| >= Frames.AudioEnd ==> |vs| == Frames.SamplesPerFrame
  {
    Frames.ReadInt16s(msg, Frames.HeaderEnd, Min(Frames.SamplesPerFrame, Frames.Available(msg, Frames.HeaderEnd)))
  }

  // ---------------------------------------------------------------------------
  // The animation frame
  // ---------------------------------------------------------------------------

  /** The state after a frame, and the marker's ring index if the marker moved. */
  datatype Tick = Tick(plot: Plot, marker: Option<int>)

  /** How many samples a frame writes: none unless mounted and past the first frame. */
  function Plotted(p: Plot, mounted: bool, samplesToPlot: nat): nat {
    if mounted && Truthy(p.lastTimestamp) then Min(samplesToPlot, |p.queue|) else 0
  }

  /**
   * `animate(timestamp)`. `mounted` stands for `canvasRef.current` and
   * `samplesToPlot` for `Math.floor(elapsedTime * sampleRate)`.
   */
  function Animate(p: Plot, mounted: bool, timestamp: real, samplesToPlot: nat, slider: nat): (t: Tick)
    requires Valid(p)
    ensures Valid(t.plot)
    ensures var n := Plotted(p, mounted, samplesToPlot);
      && t.plot.ring == Write(p.ring, p.queue[..n])
      && p.queue[..n] + t.plot.queue == p.queue
      && t.plot.ring.cursor == Slot(p.ring.cursor, n, NumPoints)
    ensures !mounted ==> t == Tick(p, None)
    ensures mounted ==> t.plot.lastTimestamp == Some(timestamp)
    ensures t.marker.Some? <==> mounted && Truthy(p.lastTimestamp)
    ensures t.marker.Some? ==> 0 <= t.marker.value < NumPoints && t.marker.value == Slot(t.plot.ring.cursor, slider, NumPoints)
  {
    if !mounted then
      Tick(p, None)
    else if Truthy(p.lastTimestamp) then
      var n := Min(samplesToPlot, |p.queue|);
      var ring := Write(p.ring, p.queue[..n]);
      WriteCursor(p.ring, p.queue[..n]);
      MarkerInRing(ring.cursor, slider, NumPoints);
      Tick(Plot(ring, Drop(p.queue, samplesToPlot), Some(timestamp)), Some(MarkerIndex(ring.cursor, slider, NumPoints)))
    else
      WriteCursor(p.ring, []);
      Tick(p.(lastTimestamp := Some(timestamp)), None)
  }

  /** The first frame only records its timestamp: no slot is written and nothing is dequeued. */
  lemma FirstFrameWritesNothing(p: Plot, timestamp: real, samplesToPlot: nat, slider: nat)
    requires Valid(p) && p.lastTimestamp == None
    ensures var t := Animate(p, true, timestamp, samplesToPlot, slider);
      t.plot == p.(lastTimestamp := Some(timestamp)) && t.marker == None
  {
  }

  /**
   * Queued sample `k` of those a frame writes lands at slot `bufferIndex + k`
   * (unless a later one of them lands there too), and no other slot changes.
   */
  lemma AnimateSlots(p: Plot, mounted: bool, timestamp: real, samplesToPlot: nat, slider: nat)
    requires Valid(p)
    ensures var t, n, c := Animate(p, mounted, timestamp, samplesToPlot, slider), Plotted(p, mounted, samplesToPlot), p.ring.cursor;
      && (forall k :: 0 <= k < n && n <= k + NumPoints ==> t.plot.ring.slots[Slot(c, k, NumPoints)] == p.queue[k])
      && (forall d :: n <= d < NumPoints ==> t.plot.ring.slots[Slot(c, d, NumPoints)] == p.ring.slots[Slot(c, d, NumPoints)])
  {
    var n := Plotted(p, mounted, samplesToPlot);
    WriteContents(p.ring, p.queue[..n]);
  }

  // ---------------------------------------------------------------------------
  // A run of events
  // ---------------------------------------------------------------------------

  /** What happens to the component: a socket message, or an animation frame. */
  datatype Event =
    | Message(bytes: seq<Frames.byte>)
    | Frame(mounted: bool, timestamp: real, samplesToPlot: nat, slider: nat)

  /** The state after one event. */
  function Handle(p: Plot, e: Event): (q: Plot)
    requires Valid(p)
    ensures Valid(q)
  {
    match e
    case Message(bytes) => Receive(p, bytes)
    case Frame(m, ts, s, sl) => Animate(p, m, ts, s, sl).plot
  }

  /** The samples one event queues. */
  function ReceivedBy(e: Event): seq<int> {
    match e
    case Message(bytes) => Received(bytes)
    case Frame(_, _, _, _) => []
  }

  /** The samples one event writes into the ring. */
  function PlottedBy(p: Plot, e: Event): seq<int>
    requires Valid(p)
  {
    match e
    case Message(_) => []
    case Frame(m, _, s, _) => p.queue[..Plotted(p, m, s)]
  }

  /** One event neither loses nor reorders a sample. */
  lemma HandleConservesSamples(p: Plot, e: Event)
    requires Valid(p)
    ensures PlottedBy(p, e) + Handle(p, e).queue == p.queue + ReceivedBy(e)
    ensures Handle(p, e).ring == Write(p.ring, PlottedBy(p, e))
  {
    if e.Message? {
      WriteAppend(p.ring, [], []);
    }
  }

  function Run(p: Plot, events: seq<Event>): (q: Plot)
    requires Valid(p)
    ensures Valid(q)
    decreases |events|
  {
    if events == [] then p else Run(Handle(p, events[0]), events[1..])
  }

  /** Every sample the messages of a run queue, in arrival order. */
  function AllReceived(events: seq<Event>): seq<int>
    decreases |events|
  {
    if events == [] then [] else ReceivedBy(events[0]) + AllReceived(events[1..])
  }

  /** Every sample the frames of a run write into the ring, in writing order. */
  function AllPlotted(p: Plot, events: seq<Event>): seq<int>
    requires Valid(p)
    decreases |events|
  {
    if events == [] then [] else PlottedBy(p, events[0]) + AllPlotted(Handle(p, events[0]), events[1..])
  }

  /**
   * No sample is lost or reordered: what was queued plus what arrived is
   * what was written followed by what is still queued.
   */
  lemma {:induction false} RunConservesSamples(p: Plot, events: seq<Event>)
    requires Valid(p)
    ensures AllPlotted(p, events) + Run(p, events).queue == p.queue + AllReceived(events)
    decreases |events|
  {
    if events != [] {
      var e, rest := events[0], events[1..];
      var p' := Handle(p, e);
      var w, q, a := PlottedBy(p, e), Run(p', rest).queue, AllReceived(rest);
      HandleConservesSamples(p, e);
      RunConservesSamples(p', rest);
      assert AllPlotted(p, events) == w + AllPlotted(p', rest);
      assert Run(p, events).queue == q;
      assert AllReceived(events) == ReceivedBy(e) + a;
      ChainConserved(w, AllPlotted(p', rest), q, p'.queue, p.queue, ReceivedBy(e), a);
    }
  }

  /** The ring after a run is the initial ring with exactly the written samples written into it. */
  lemma {:induction false} RunWritesPlotted(p: Plot, events: seq<Event>)
    requires Valid(p)
    ensures Run(p, events).ring == Write(p.ring, AllPlotted(p, events))
    decreases |events|
  {
    if events == [] {
      WriteAppend(p.ring, [], []);
    } else {
      var e, rest := events[0], events[1..];
      var p' := Handle(p, e);
      HandleConservesSamples(p, e);
      RunWritesPlotted(p', rest);
      WriteAppend(p.ring, PlottedBy(p, e), AllPlotted(p', rest));
      assert AllPlotted(p, events) == PlottedBy(p, e) + AllPlotted(p', rest);
      assert Run(p, events) == Run(p', rest);
    }
  }
}

/**
 * Binary frames from the audio server. A frame carries a 12-byte header, 160
 * audio samples and, on the data channel, 160 envelope samples, each a signed
 * 16-bit integer stored low byte first. Reading a sample past the end of the
 * message throws, but the samples read before it have already been queued.
 */
module Frames {
  import opened Wrappers
  import opened Seqs

  type byte = b: int | 0 <= b < 256
  type int16 = v: int | -32768 <= v < 32768

  /** Byte offsets: the header is skipped, then 320 bytes of audio, then 320 of envelope. */
  const HeaderEnd: nat := 12
  const AudioEnd: nat := HeaderEnd + 320
  const EnvelopeEnd: nat := AudioEnd + 320

  /** Samples per frame in each section. */
  const SamplesPerFrame: nat := 160

  // ---------------------------------------------------------------------------
  // One sample: `DataView.getInt16(i, true)`
  // ---------------------------------------------------------------------------

  /** The two's-complement value of a little-endian byte pair. */
  function Int16LE(lo: byte, hi: byte): int16 {
    var u := lo + 256 * hi;
    if u >= 32768 then u - 65536 else u
  }

  /** The little-endian byte pair of a 16-bit value. */
  function EncodeInt16LE(v: int16): (pair: (byte, byte)) {
    var u := if v < 0 then v + 65536 else v;
    (u % 256, u / 256)
  }

  lemma DecodeEncodeInt16(v: int16)
    ensures Int16LE(EncodeInt16LE(v).0, EncodeInt16LE(v).1) == v
  {
  }

  lemma EncodeDecodeInt16(lo: byte, hi: byte)
    ensures EncodeInt16LE(Int16LE(lo, hi)) == (lo, hi)
  {
  }

  /** Reading at `at` needs bytes `at` and `at + 1`; otherwise `getInt16` throws a RangeError. */
  function GetInt16(msg: seq<byte>, at: nat): (r: Option<int16>)
    ensures r.Some? <==> at + 2 <= |msg|
  {
    if at + 2 <= |msg| then Some(Int16LE(msg[at], msg[at + 1])) else None
  }

  /** `count` consecutive samples starting at byte `at`. */
  function ReadInt16s(msg: seq<byte>, at: nat, count: nat): (vs: seq<int16>)
    requires count == 0 || at + 2 * count <= |msg|
    ensures |vs| == count
    ensures forall k :: 0 <= k < count ==> GetInt16(msg, at + 2 * k) == Some(vs[k])
  {
    seq(count, k requires 0 <= k < count => Int16LE(msg[at + 2 * k], msg[at + 2 * k + 1]))
  }

  /** The first sample of a run, then the rest. */
  lemma ReadInt16sCons(msg: seq<byte>, at: nat, n: nat)
    requires at + 2 * (n + 1) <= |msg|
    ensures ReadInt16s(msg, at, n + 1) == [Int16LE(msg[at], msg[at + 1])] + ReadInt16s(msg, at + 2, n)
  {
    var a := ReadInt16s(msg, at, n + 1);
    var b := [Int16LE(msg[at], msg[at + 1])] + ReadInt16s(msg, at + 2, n);
    forall k | 1 <= k < n + 1 ensures a[k] == b[k] {
      assert at + 2 * k == (at + 2) + 2 * (k - 1);
    }
  }

  /** The bytes of a run of samples, in order. */
  function EncodeInt16s(vs: seq<int16>): (bytes: seq<byte>)
    ensures |bytes| == 2 * |vs|
  {
    if vs == [] then []
    else [EncodeInt16LE(vs[0]).0, EncodeInt16LE(vs[0]).1] + EncodeInt16s(vs[1..])
  }

  lemma {:induction false} EncodeInt16sAt(vs: seq<int16>, k: nat)
    requires k < |vs|
    ensures EncodeInt16s(vs)[2 * k] == EncodeInt16LE(vs[k]).0
    ensures EncodeInt16s(vs)[2 * k + 1] == EncodeInt16LE(vs[k]).1
  {
    if k > 0 {
      EncodeInt16sAt(vs[1..], k - 1);
    }
  }

  /** Reading back encoded samples, wherever they sit in the message, gives the samples. */
  lemma ReadEncoded(prefix: seq<byte>, vs: seq<int16>, suffix: seq<byte>)
    ensures var msg := prefix + EncodeInt16s(vs) + suffix;
      ReadInt16s(msg, |prefix|, |vs|) == vs
  {
    var msg := prefix + EncodeInt16s(vs) + suffix;
    forall k | 0 <= k < |vs| ensures ReadInt16s(msg, |prefix|, |vs|)[k] == vs[k] {
      EncodeInt16sAt(vs, k);
      DecodeEncodeInt16(vs[k]);
    }
  }

  /** Samples read from a stretch of bytes depend on that stretch only. */
  lemma ReadInt16sLocal(a: seq<byte>, b: seq<byte>, at: nat, count: nat)
    requires at + 2 * count <= |a| && at + 2 * count <= |b|
    requires a[at..at + 2 * count] == b[at..at + 2 * count]
    ensures ReadInt16s(a, at, count) == ReadInt16s(b, at, count)
  {
    forall k | 0 <= k < count
      ensures a[at + 2 * k] == b[at + 2 * k] && a[at + 2 * k + 1] == b[at + 2 * k + 1]
    {
      assert a[at..at + 2 * count][2 * k] == a[at + 2 * k];
      assert b[at..at + 2 * count][2 * k] == b[at + 2 * k];
      assert a[at..at + 2 * count][2 * k + 1] == a[at + 2 * k + 1];
      assert b[at..at + 2 * count][2 * k + 1] == b[at + 2 * k + 1];
    }
  }

  // ---------------------------------------------------------------------------
  // The push loop: `for (i = from; i < to; i += 2) queue.push(getInt16(i, true))`
  // ---------------------------------------------------------------------------

  /** The queue after the loop, and whether the loop ran to its end rather than throwing. */
  datatype Pushed = Pushed(queue: seq<int>, completed: bool)

  /** The number of iterations of the loop. */
  function Iterations(from: nat, to: nat): nat {
    if from < to then (to - from + 1) / 2 else 0
  }

  /** The number of whole samples the message holds from byte `from` on. */
  function Available(msg: seq<byte>, from: nat): nat {
    if from <= |msg| then (|msg| - from) / 2 else 0
  }

  /**
   * The loop pushes one sample per iteration until it has read up to `to` or a
   * read runs past the end of the message, which throws and ends it.
   */
  function PushInt16s(queue: seq<int>, msg: seq<byte>, from: nat, to: nat): (r: Pushed)
    ensures r.completed <==> Iterations(from, to) <= Available(msg, from)
    ensures r.queue == queue + ReadInt16s(msg, from, Min(Iterations(from, to), Available(msg, from)))
    decreases if from < to then to - from else 0
  {
    if from >= to then
      Pushed(queue, true)
    else
      match GetInt16(msg, from)
      case None => Pushed(queue, false)
      case Some(v) =>
        var r := PushInt16s(queue + [v], msg, from + 2, to);
        var n := Min(Iterations(from + 2, to), Available(msg, from + 2));
        CountsAfterStep(msg, from, to);
        ReadInt16sCons(msg, from, n);
        AppendAssoc(queue, [v], ReadInt16s(msg, from + 2, n));
        r
  }

  /** One iteration uses up one iteration and one available sample. */
  lemma CountsAfterStep(msg: seq<byte>, from: nat, to: nat)
    requires from < to && from + 2 <= |msg|
    ensures Iterations(from + 2, to) + 1 == Iterations(from, to)
    ensures Available(msg, from + 2) + 1 == Available(msg, from)
    ensures from + 2 * (Available(msg, from + 2) + 1) <= |msg|
  {
  }

  // ---------------------------------------------------------------------------
  // The two message handlers
  // ---------------------------------------------------------------------------

  /** `socket.onmessage`: 160 audio samples from bytes 12..331. */
  function OnSocketMessage(queue: seq<int>, msg: seq<byte>): (r: Pushed)
    ensures r.completed <==> |msg| >= AudioEnd
    ensures queue <= r.queue && |r.queue| <= |queue| + SamplesPerFrame
  {
    PushInt16s(queue, msg, HeaderEnd, AudioEnd)
  }

  /** The audio and envelope queues after a data-channel message, and whether it threw. */
  datatype Queues = Queues(audio: seq<int>, envelope: seq<int>, completed: bool)

  /**
   * `dataChannel.onmessage` as written: the audio loop, then, if it did not
   * throw, the envelope loop. Samples pushed before a throw stay queued.
   */
  function OnChannelMessage(audio: seq<int>, envelope: seq<int>, msg: seq<byte>): (r: Queues)
    ensures r.completed <==> |msg| >= EnvelopeEnd
    ensures audio <= r.audio && |r.audio| <= |audio| + SamplesPerFrame
    ensures envelope <= r.envelope && |r.envelope| <= |envelope| + SamplesPerFrame
  {
    var a := PushInt16s(audio, msg, HeaderEnd, AudioEnd);
    if !a.completed then Queues(a.queue, envelope, false)
    else
      var e := PushInt16s(envelope, msg, AudioEnd, EnvelopeEnd);
      Queues(a.queue, e.queue, e.completed)
  }

  /** A whole frame's samples. */
  datatype Frame = Frame(audio: seq<int16>, envelope: seq<int16>)

  datatype FrameError = Truncated(length: nat)

  /** All-or-nothing decoding of a data-channel frame. */
  function DecodeFrame(msg: seq<byte>): (r: Result<Frame, FrameError>)
    ensures r.Success? <==> |msg| >= EnvelopeEnd
    ensures r.Success? ==> |r.value.audio| == SamplesPerFrame && |r.value.envelope| == SamplesPerFrame
    ensures r.Failure? ==> r.error == Truncated(|msg|)
  {
    if |msg| < EnvelopeEnd then Failure(Truncated(|msg|))
    else Success(Frame(ReadInt16s(msg, HeaderEnd, SamplesPerFrame), ReadInt16s(msg, AudioEnd, SamplesPerFrame)))
  }

  /** The corrected handler: a truncated frame leaves both queues as they were. */
  function OnChannelMessageFixed(audio: seq<int>, envelope: seq<int>, msg: seq<byte>): (r: Queues)
    ensures r.completed <==> |msg| >= EnvelopeEnd
    ensures !r.completed ==> r.audio == audio && r.envelope == envelope
    ensures r.completed ==>
      && audio <= r.audio && |r.audio| == |audio| + SamplesPerFrame
      && envelope <= r.envelope && |r.envelope| == |envelope| + SamplesPerFrame
  {
    match DecodeFrame(msg)
    case Failure(_) => Queues(audio, envelope, false)
    case Success(f) => Queues(audio + f.audio, envelope + f.envelope, true)
  }

  /** The bytes of a frame: any header, the audio, the envelope. */
  function EncodeFrame(header: seq<byte>, f: Frame): seq<byte>
    requires |header| == HeaderEnd && |f.audio| == SamplesPerFrame && |f.envelope| == SamplesPerFrame
  {
    header + EncodeInt16s(f.audio) + EncodeInt16s(f.envelope)
  }

  /** Re-encoding samples read from a message gives back the bytes they were read from. */
  lemma EncodeReadInt16s(msg: seq<byte>, at: nat, count: nat)
    requires at + 2 * count <= |msg|
    ensures EncodeInt16s(ReadInt16s(msg, at, count)) == msg[at..at + 2 * count]
  {
    var vs := ReadInt16s(msg, at, count);
    var bytes := EncodeInt16s(vs);
    forall j | 0 <= j < 2 * count ensures bytes[j] == msg[at + j] {
      var k := j / 2;
      EncodeInt16sAt(vs, k);
      EncodeDecodeInt16(msg[at + 2 * k], msg[at + 2 * k + 1]);
    }
  }

  // ---------------------------------------------------------------------------
  // Properties of the socket handler
  // ---------------------------------------------------------------------------

  /**
   * A socket message ends its loop normally exactly when it holds the whole
   * audio section; otherwise it queues the samples that fit before throwing.
   */
  lemma SocketMessageQueues(queue: seq<int>, msg: seq<byte>)
    ensures OnSocketMessage(queue, msg).completed <==> |msg| >= AudioEnd
    ensures OnSocketMessage(queue, msg).queue
         == queue + ReadInt16s(msg, HeaderEnd, Min(SamplesPerFrame, Available(msg, HeaderEnd)))
  {
  }

  /** A whole frame queues exactly its 160 samples, whatever the header and trailing bytes. */
  lemma SocketFrameRoundTrip(queue: seq<int>, header: seq<byte>, audio: seq<int16>, tail: seq<byte>)
    requires |header| == HeaderEnd && |audio| == SamplesPerFrame
    ensures OnSocketMessage(queue, header + EncodeInt16s(audio) + tail) == Pushed(queue + audio, true)
  {
    ReadEncoded(header, audio, tail);
  }

  // ---------------------------------------------------------------------------
  // Properties of the data-channel handler
  // ---------------------------------------------------------------------------

  /** The samples each queue gains from one data-channel message, as written. */
  lemma ChannelMessageGains(audio: seq<int>, envelope: seq<int>, msg: seq<byte>)
    ensures var r := OnChannelMessage(audio, envelope, msg);
      && |r.audio| == |audio| + Min(SamplesPerFrame, Available(msg, HeaderEnd))
      && |r.envelope| == |envelope| + (if |msg| < AudioEnd then 0 else Min(SamplesPerFrame, Available(msg, AudioEnd)))
      && (r.completed <==> |msg| >= EnvelopeEnd)
  {
  }

  /**
   * As written, the two queues gain the same number of samples only when the
   * frame is whole or too short to hold a single audio sample; any other
   * truncated frame leaves the audio queue ahead of the envelope queue.
   */
  lemma ChannelMessageDesync(audio: seq<int>, envelope: seq<int>, msg: seq<byte>)
    ensures var r := OnChannelMessage(audio, envelope, msg);
      |r.audio| - |audio| == |r.envelope| - |envelope| <==> |msg| >= EnvelopeEnd || |msg| < HeaderEnd + 2
  {
    ChannelMessageGains(audio, envelope, msg);
  }

  /** A 400-byte message: 160 audio samples are queued but only 34 envelope samples. */
  lemma TruncatedChannelMessage(msg: seq<byte>)
    requires |msg| == 400
    ensures var r := OnChannelMessage([], [], msg);
      |r.audio| == 160 && |r.envelope| == 34 && !r.completed
  {
    ChannelMessageGains([], [], msg);
  }

  /** A whole frame queues its audio and envelope samples, as written and corrected alike. */
  lemma ChannelFrameRoundTrip(audio: seq<int>, envelope: seq<int>, header: seq<byte>, f: Frame, tail: seq<byte>)
    requires |header| == HeaderEnd && |f.audio| == SamplesPerFrame && |f.envelope| == SamplesPerFrame
    ensures OnChannelMessage(audio, envelope, EncodeFrame(header, f) + tail)
         == Queues(audio + f.audio, envelope + f.envelope, true)
    ensures OnChannelMessageFixed(audio, envelope, EncodeFrame(header, f) + tail)
         == Queues(audio + f.audio, envelope + f.envelope, true)
  {
    var msg := EncodeFrame(header, f) + tail;
    ReadEncoded(header, f.audio, EncodeInt16s(f.envelope) + tail);
    assert msg == header + EncodeInt16s(f.audio) + (EncodeInt16s(f.envelope) + tail);
    ReadEncoded(header + EncodeInt16s(f.audio), f.envelope, tail);
  }

  /** Decoding a frame, then encoding it under the same header, gives back the frame's bytes. */
  lemma DecodeFrameInverse(msg: seq<byte>)
    requires DecodeFrame(msg).Success?
    ensures EncodeFrame(msg[..HeaderEnd], DecodeFrame(msg).value) == msg[..EnvelopeEnd]
  {
    EncodeReadInt16s(msg, HeaderEnd, SamplesPerFrame);
    EncodeReadInt16s(msg, AudioEnd, SamplesPerFrame);
    assert msg[..EnvelopeEnd] == msg[..HeaderEnd] + msg[HeaderEnd..AudioEnd] + msg[AudioEnd..EnvelopeEnd];
  }

  /**
   * The corrected handler keeps the two queues in step: both gain a frame's
   * 160 samples or neither changes, and it agrees with the handler as written
   * on every whole frame.
   */
  lemma FixedChannelMessageInStep(audio: seq<int>, envelope: seq<int>, msg: seq<byte>)
    ensures var r := OnChannelMessageFixed(audio, envelope, msg);
      && |r.audio| - |audio| == |r.envelope| - |envelope|
      && (r.completed <==> |msg| >= EnvelopeEnd)
      && (!r.completed ==> r.audio == audio && r.envelope == envelope)
      && (r.completed ==> r == OnChannelMessage(audio, envelope, msg))
  {
    ChannelMessageGains(audio, envelope, msg);
  }
}

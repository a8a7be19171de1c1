# Microphone plot core, in Dafny

This project models the pure logic inside the three React plot components of a
browser client that shows audio streamed from a recording device:

- **`parseTextGrid`** (`src/MicrophonePlotWRTC.js`). It reads a Praat TextGrid
  file line by line. Each trimmed line takes the first branch whose prefix it
  matches. The reader keeps the top-level fields, the items (tiers) read so
  far, the open item and the open interval. The model is a fold of `Step` over
  the lines (`TextGrid.Run`). The open interval is a reference into a store of
  interval objects, because the original keeps mutating an interval after
  pushing it into an item's list.
- **The binary frame decoders** (`Frames`).
  - The WebSocket component queues 160 little-endian signed 16-bit samples from
    bytes 12..331 of each message.
  - The WebRTC component queues 160 audio samples from bytes 12..331, then 160
    envelope samples from bytes 332..651.
  - A read past the end of the message throws (`RangeError`). The samples
    pushed before the throw stay queued.
- **The circular plot buffer** (`Ring`). A line of `numPoints` values has a
  write index that advances modulo `numPoints` after each write. The marker
  sits at `(bufferIndex + slider) % numPoints`.
- **The three components' event handlers.**
  - The microphone callback writes its input block into the ring
    (`MicrophonePlot`).
  - The WebSocket component has a message handler and the render step
    `animate`, which drains up to `samplesToPlot` queued samples into the ring
    (`MicrophonePlotWS`).
  - The WebRTC component has the same pair over two queues and two lines that
    share one write index, plus the reference-recording overlay
    (`MicrophonePlotWRTC`).

Runs of events (messages and animation frames) are folds too. The run lemmas
show three things:

- No queued sample is lost or reordered: in the WebSocket component always,
  and in the WebRTC component, for both queues, with all-or-nothing frame
  decoding.
- With all-or-nothing frame decoding, the audio and envelope queues stay in step.
- In that case the envelope line never shows NaN.

Files:

| file | module | contents |
|---|---|---|
| `wrappers.dfy` | `Wrappers` | `Option`, `Result`, JavaScript truthiness of a timestamp |
| `seqs.dfy` | `Seqs` | `Min`, `Drop` (`slice`), a regrouping lemma |
| `text.dfy` | `Text` | `split`, `trim`, `startsWith`, `includes`, quote removal |
| `textgrid.dfy` | `TextGrid` | the TextGrid reader and its properties |
| `textgrid_aliasing.dfy` | `TextGridAliasing` | the open interval outliving its item |
| `frames.dfy` | `Frames` | int16 decoding, both message handlers, the all-or-nothing decoder |
| `ring.dfy` | `Ring` | the wrapping ring write and the marker index |
| `microphone_plot.dfy` | `MicrophonePlot` | the microphone callback |
| `microphone_plot_ws.dfy` | `MicrophonePlotWS` | WebSocket component |
| `microphone_plot_wrtc.dfy` | `MicrophonePlotWRTC` | WebRTC component |

Facts about the code that shape the model:

- A data-channel frame is 652 bytes: a 12-byte header, 320 bytes of audio and
  320 bytes of envelope.
- The sequence number and the device timestamp in the header are never
  decoded; the header loops have empty bodies.
- A short frame is not rejected. It is partly queued (see Findings).

## Model

| member | source | states |
|---|---|---|
| Text.Split | src/MicrophonePlotWRTC.js:7 | `split` gives separator-free pieces that join back to the input; there is exactly one piece iff the input holds no separator |
| Text.SplitJoin | src/MicrophonePlotWRTC.js:7 | splitting a join of separator-free pieces gives the pieces back (the inverse of `Join`) |
| Text.Trim | src/MicrophonePlotWRTC.js:21 | `trim` leaves a core that neither starts nor ends with ECMAScript white space; the input is that core with only white space before and after it |
| Text.TrimUnique | src/MicrophonePlotWRTC.js:21 | any white-space-free core that the input pads with white space is what `trim` returns |
| Text.TrimIdempotent | src/MicrophonePlotWRTC.js:21 | trimming an already trimmed line changes nothing |
| Text.Contains | src/MicrophonePlotWRTC.js:37 | `includes` holds iff some position starts an occurrence of the needle |
| Text.Unquote | src/MicrophonePlotWRTC.js:25 | `replace(/"/g, "")` leaves no double quote in the result; a value without quotes comes back unchanged |
| Text.UnquoteKeepsOthers | src/MicrophonePlotWRTC.js:25 | every character other than a double quote occurs in the result exactly as often as in the input |
| Text.UnquoteConcat | src/MicrophonePlotWRTC.js:27 | quote removal works piece by piece, so the kept characters stay in order |
| TextGrid.Classify | src/MicrophonePlotWRTC.js:24-62 | a line takes the item branch iff it starts with `item [`; top-level `xmin`/`xmax` only outside items; item fields only inside an item; interval fields only with an interval open |
| TextGrid.ItemPrefixExcludesEarlierBranches | src/MicrophonePlotWRTC.js:24-42 | an `item [` line cannot match any branch the reader tries before the item branch |
| TextGrid.ValueIsSecondPiece | src/MicrophonePlotWRTC.js:31 | a field's value is the trimmed text between the first `=` and the next `=` or the end of the line |
| TextGrid.ApplyToItem | src/MicrophonePlotWRTC.js:47-52 | among the item's own fields, only an `intervals: size` line touches the interval list, and it resets the list to empty |
| TextGrid.ApplyAppendsItems | src/MicrophonePlotWRTC.js:42-46 | items are only appended; the number of items plus the open item grows by one exactly on an `item [` line, which opens an empty item |
| TextGrid.ApplyKeepsBounds | src/MicrophonePlotWRTC.js:30-34 | once an item is open it stays open, and no line changes the top-level `xmin`/`xmax` |
| TextGrid.ApplyStoreFrame | src/MicrophonePlotWRTC.js:53-58 | a line changes no interval except the open one; an `intervals [` line opens a new interval with every field absent; an interval `xmin`, `xmax` or `text` line sets that field of the open interval to the line's value (the text without its quotes) and changes nothing else; every other line leaves every interval as it was |
| TextGrid.ApplyIntervalFields | src/MicrophonePlotWRTC.js:53-58 | the effects of `intervals [`, interval `xmin` and interval `xmax` lines on the intervals, kind by kind |
| TextGrid.ApplyOtherLines | src/MicrophonePlotWRTC.js:20-62 | a `text` line inside an interval sets the open interval's text to the unquoted value and no other interval; a line of any kind other than `intervals [`, `xmin`, `xmax` or `text` inside an interval leaves the interval store unchanged |
| TextGrid.ApplyIntervalList | src/MicrophonePlotWRTC.js:51-61 | inside an item the interval list changes only on `intervals: size` (reset) and `text` (the open interval, now carrying the text, is appended) |
| TextGrid.ClassifyFieldLine | src/MicrophonePlotWRTC.js:24-62 | the branches that read `split("=")[1]`, other than `size =`, are exactly: `File type`, `Object class`, `xmin`/`xmax` outside an item or inside an open interval, `class`/`name` inside an item, `text` inside an open interval; a `size =` line always has a `=` |
| TextGrid.StepMissingValue | src/MicrophonePlotWRTC.js:24-60 | a line throws on reading its value exactly when it is one of those field lines and has no `=` |
| TextGrid.StepNoIntervalList | src/MicrophonePlotWRTC.js:59-61 | a line throws on `intervals.push` exactly when it is a `text` line with a value, inside an interval, in an item that had no `intervals: size` line |
| TextGrid.StepThrowsOnly | src/MicrophonePlotWRTC.js:20-62 | a line throws exactly in those two cases |
| TextGrid.StepNeverThrows | src/MicrophonePlotWRTC.js:36-54 | `item [`, `tiers?`, `intervals: size` and `intervals [` lines never throw, whatever the state |
| TextGrid.StepIgnoredLine | src/MicrophonePlotWRTC.js:20-62 | a line that matches no branch leaves the state unchanged |
| TextGrid.Run | src/MicrophonePlotWRTC.js:20-63 | the loop over the lines keeps every item's and the open interval's references inside the interval store |
| TextGrid.Resolve | src/MicrophonePlotWRTC.js:61 | a finished item lists, in order, the interval objects its references point to |
| TextGrid.Finish | src/MicrophonePlotWRTC.js:65-70 | the result keeps the header and has one more item when an item is still open |
| TextGrid.ParseTextGrid | src/MicrophonePlotWRTC.js:6-71 | `parseTextGrid` as written: a grid it returns has one item per `item [` line (characterised further by `ParseItemCount`, `GridBoundsSetBeforeItems`, and `StepThrowsOnly` through `Run`) |
| TextGrid.ParseTextGridFixed | src/MicrophonePlotWRTC.js:6-71 | the corrected reader returns one item per `item [` line too, and its closed items are final (`FixedClosedItemsAreFinal`) |
| TextGrid.RunItemCount | src/MicrophonePlotWRTC.js:42-46 | over a run of lines, items plus the open item grow by the number of lines that start with `item [` |
| TextGrid.ParseItemCount | src/MicrophonePlotWRTC.js:42-68 | the grid has exactly one item per `item [` line, the `item []:` header line included |
| TextGrid.RunAppend | src/MicrophonePlotWRTC.js:20 | reading `a + b` is reading `a` and then, unless it threw, `b` |
| TextGrid.RunKeepsBounds | src/MicrophonePlotWRTC.js:30-34 | once an item is open, no later line changes the top-level `xmin`/`xmax` |
| TextGrid.RunFromItemLine | src/MicrophonePlotWRTC.js:30-46 | an `item [` line always succeeds, and nothing after it changes the top-level bounds |
| TextGrid.GridBoundsSetBeforeItems | src/MicrophonePlotWRTC.js:30-46 | the top-level `xmin`/`xmax` of the result are those read up to the first `item [` line |
| TextGrid.FixedApplyKeepsStore | src/MicrophonePlotWRTC.js:42-58 | in the corrected reader a line never reopens, and so never changes, an interval below the closing point |
| TextGrid.FixedRunKeepsStore | src/MicrophonePlotWRTC.js:42-58 | in the corrected reader the intervals of closed items are unchanged by any later lines |
| TextGrid.FixedClosedItemsAreFinal | src/MicrophonePlotWRTC.js:42-58 | corrected reader: the items closed by an `item [` line appear, unchanged, at the head of the final grid |
| TextGrid.FixedFromItemLine | src/MicrophonePlotWRTC.js:42-46 | corrected reader: the items closed by one `item [` line are final |
| TextGridAliasing.TextLineLeavesIntervalOpen | src/MicrophonePlotWRTC.js:59-61 | after a `text` line the open interval is still open and is the last interval of the open item |
| TextGridAliasing.ItemLineAsWritten | src/MicrophonePlotWRTC.js:42-46 | as written, an `item [` line closes the item but leaves its last interval open |
| TextGridAliasing.XminLineWritesOpenInterval | src/MicrophonePlotWRTC.js:55-56 | an `xmin` line inside an item writes its value into the open interval and nothing else |
| TextGridAliasing.ClosedItemChanges | src/MicrophonePlotWRTC.js:44-56 | rewriting an interval that a closed item refers to changes that item in the result |
| TextGridAliasing.AliasingOverwritesClosedItem | src/MicrophonePlotWRTC.js:42-58 | as written, `item [` followed by an `xmin` line with a new value changes the item that the `item [` line closed |
| TextGridAliasing.ItemLineExample | src/MicrophonePlotWRTC.js:42 | `item [2]:` takes the item branch |
| TextGridAliasing.XminLineExample | src/MicrophonePlotWRTC.js:55 | `xmin = 0` inside an open interval takes the interval `xmin` branch |
| TextGridAliasing.XminValueExample | src/MicrophonePlotWRTC.js:56 | the value of `xmin = 0` is `0` |
| TextGridAliasing.AliasingExample | src/MicrophonePlotWRTC.js:42-58 | after any `text` line, the lines `item [2]:` and `xmin = 0` read without error and change the closed item's last interval whenever its `xmin` was not `0` |
| Frames.GetInt16 | src/MicrophonePlotWRTC.js:286 | `getInt16` reads a value iff two bytes remain at the offset |
| Frames.DecodeEncodeInt16 | src/MicrophonePlotWRTC.js:286 | every value in [-32768, 32767] is read back from its little-endian two's-complement bytes |
| Frames.EncodeDecodeInt16 | src/MicrophonePlotWRTC.js:286 | every byte pair is the encoding of the value read from it |
| Frames.ReadInt16s | src/MicrophonePlotWRTC.js:285-287 | sample `k` of a run is the `getInt16` value at byte `at + 2k` |
| Frames.ReadEncoded | src/MicrophonePlotWRTC.js:285-290 | encoded samples are read back in order, whatever bytes surround them |
| Frames.ReadInt16sLocal | src/MicrophonePlotWRTC.js:278-290 | the samples read depend only on the bytes they are read from |
| Frames.EncodeReadInt16s | src/MicrophonePlotWRTC.js:285-290 | re-encoding the samples read gives back the bytes they came from |
| Frames.PushInt16s | src/MicrophonePlotWRTC.js:285-290 | the push loop completes iff the message holds every sample it reads; the queue gains, in order, the samples read before the end or the throw |
| Frames.OnSocketMessage | src/MicrophonePlotWS.js:35-46 | the socket handler completes iff the message has at least 332 bytes, and only appends to the queue, at most 160 samples (exact contents in `SocketMessageQueues` and `SocketFrameRoundTrip`) |
| Frames.SocketMessageQueues | src/MicrophonePlotWS.js:38-43 | a socket message completes iff it has at least 332 bytes; the queue gains up to 160 samples from byte 12 on |
| Frames.SocketFrameRoundTrip | src/MicrophonePlotWS.js:38-43 | a message of any 12-byte header, 160 encoded samples and any tail queues exactly those samples |
| Frames.OnChannelMessage | src/MicrophonePlotWRTC.js:265-290 | the data-channel handler as written completes iff the message has at least 652 bytes, and only appends to each queue, at most 160 samples (exact counts in `ChannelMessageGains`, the mismatch in `ChannelMessageDesync`) |
| Frames.ChannelMessageGains | src/MicrophonePlotWRTC.js:285-290 | how many samples each queue gains from a data-channel message of any length, and that it completes iff the message has at least 652 bytes |
| Frames.ChannelMessageDesync | src/MicrophonePlotWRTC.js:285-290 | as written, the two queues gain equally iff the message has at least 652 bytes or fewer than 14 |
| Frames.TruncatedChannelMessage | src/MicrophonePlotWRTC.js:285-290 | as written, a 400-byte message queues 160 audio but 34 envelope samples |
| Frames.ChannelFrameRoundTrip | src/MicrophonePlotWRTC.js:273-290 | a whole frame queues exactly its 160 audio and 160 envelope samples, as written and corrected, whatever the header and trailing bytes |
| Frames.DecodeFrame | src/MicrophonePlotWRTC.js:273-290 | all-or-nothing decoding succeeds iff the message has at least 652 bytes, with 160 samples per queue, and otherwise reports the message's length (inverse in `DecodeFrameInverse`) |
| Frames.OnChannelMessageFixed | src/MicrophonePlotWRTC.js:265-290 | the corrected handler changes neither queue on a short message and appends exactly 160 samples to each on a whole one (agreement with the original in `FixedChannelMessageInStep`) |
| Frames.DecodeFrameInverse | src/MicrophonePlotWRTC.js:273-290 | a decoded frame, re-encoded under the message's header, gives back the message's first 652 bytes |
| Frames.FixedChannelMessageInStep | src/MicrophonePlotWRTC.js:285-290 | the corrected handler changes neither queue on a short message, gives both the same number of samples, and matches the original on whole frames |
| Ring.Next | src/MicrophonePlot.js:60 | the advanced index is `(bufferIndex + 1) % numPoints` and stays in [0, numPoints) |
| Ring.Put | src/MicrophonePlot.js:59-60 | one write keeps the ring's length and a valid index |
| Ring.Write | src/MicrophonePlot.js:58-61 | the write loop keeps the ring's length and a valid index |
| Ring.WriteCursor | src/MicrophonePlot.js:58-61 | after `n` writes the index is `(old + n) % numPoints` |
| Ring.WriteLands | src/MicrophonePlot.js:58-60 | value `k` is at slot `(old + k) % numPoints` unless a later value hit the same slot (the later one wins) |
| Ring.WriteKeeps | src/MicrophonePlot.js:58-61 | slots `n` or more places ahead of the old index (modulo) keep their values |
| Ring.WriteContents | src/MicrophonePlot.js:58-61 | the whole ring after a write, slot by slot |
| Ring.WriteAppend | src/MicrophonePlot.js:58-61 | writing two blocks in turn is writing their concatenation |
| Ring.JsRem | src/MicrophonePlot.js:65 | JavaScript's `%` lies in [0, n) for a non-negative dividend and in (-n, 0] for a negative one |
| Ring.MarkerIndex | src/MicrophonePlot.js:64-66 | `(bufferIndex + slider) % numPoints` lies in [0, numPoints) for a non-negative dividend and in (-numPoints, 0] otherwise (placement in `MarkerInRing`) |
| Ring.MarkerInRing | src/MicrophonePlot.js:64-66 | with a non-negative slider the marker index lies in [0, numPoints), `slider` slots ahead of the write index |
| MicrophonePlot.OnAudioProcess | src/MicrophonePlot.js:58-66 | the callback writes the block slot by slot from the old index, leaves the index at `(old + n) % numPoints`, and puts the marker inside the ring |
| MicrophonePlotWS.Initial | src/MicrophonePlotWS.js:26-31 | the component starts with a valid ring, an empty queue and no timestamp |
| MicrophonePlotWS.Receive | src/MicrophonePlotWS.js:35-46 | a message only appends to the queue |
| MicrophonePlotWS.Received | src/MicrophonePlotWS.js:38-43 | a message queues at most 160 samples, and exactly 160 if it has at least 332 bytes |
| MicrophonePlotWS.Animate | src/MicrophonePlotWS.js:52-86 | a frame writes the first queued samples, as many as `samplesToPlot` or the whole queue if shorter, drops exactly those, advances the index by their number modulo `numPoints`, records the timestamp, and moves the marker only from the second frame on |
| MicrophonePlotWS.FirstFrameWritesNothing | src/MicrophonePlotWS.js:54-81 | the first frame only records its timestamp |
| MicrophonePlotWS.AnimateSlots | src/MicrophonePlotWS.js:62-65 | written sample `k` lands at slot `(old + k) % numPoints`, and no other slot changes |
| MicrophonePlotWS.HandleConservesSamples | src/MicrophonePlotWS.js:41-68 | one event neither loses nor reorders a sample |
| MicrophonePlotWS.RunConservesSamples | src/MicrophonePlotWS.js:35-86 | over any run, the samples written followed by those still queued are the samples queued at the start followed by those received |
| MicrophonePlotWS.RunWritesPlotted | src/MicrophonePlotWS.js:52-86 | over any run, the ring is the initial ring with exactly the written samples written into it |
| MicrophonePlotWRTC.Initial | src/MicrophonePlotWRTC.js:232-234 | the component starts with valid rings, empty queues in step, a defined envelope line and no timestamp |
| MicrophonePlotWRTC.ReceiveAsWritten | src/MicrophonePlotWRTC.js:264-290 | a data-channel message touches only the queues |
| MicrophonePlotWRTC.Receive | src/MicrophonePlotWRTC.js:264-290 | corrected handler: a short message changes nothing, a whole one does what the original does, and queues in step stay in step |
| MicrophonePlotWRTC.Plotted | src/MicrophonePlotWRTC.js:304 | a frame writes no more samples than the audio queue holds |
| MicrophonePlotWRTC.Paired | src/MicrophonePlotWRTC.js:304-306 | iteration `k` writes audio sample `k` with envelope sample `k`, or NaN once the envelope queue is exhausted |
| MicrophonePlotWRTC.Animate | src/MicrophonePlotWRTC.js:298-325 | a frame writes the paired samples, drops `samplesToPlot` from both queues, advances the shared index by the number written, and moves the markers only from the second frame on |
| MicrophonePlotWRTC.FirstFrameWritesNothing | src/MicrophonePlotWRTC.js:300-322 | the first frame only records its timestamp |
| MicrophonePlotWRTC.AnimateInStep | src/MicrophonePlotWRTC.js:304-311 | with the queues in step, both drop the same samples, and audio and envelope sample `k` land together at slot `(old + k) % numPoints` |
| MicrophonePlotWRTC.AnimateKeepsEnvelopeDefined | src/MicrophonePlotWRTC.js:304-311 | with the queues in step, a frame writes no NaN into the envelope line |
| MicrophonePlotWRTC.TruncatedMessageWritesNaN | src/MicrophonePlotWRTC.js:285-311 | as written, a 400-byte message followed by a frame writes NaN into the envelope line |
| MicrophonePlotWRTC.RunKeepsEnvelopeDefined | src/MicrophonePlotWRTC.js:264-325 | with the corrected handler, the queues stay in step and the envelope line has no NaN through any run |
| MicrophonePlotWRTC.ReceiveAppendsFrame | src/MicrophonePlotWRTC.js:264-290 | corrected handler: a message appends to each queue exactly the samples of the frame it decodes to, and nothing if it is short |
| MicrophonePlotWRTC.AnimateTakesFromQueues | src/MicrophonePlotWRTC.js:304-311 | with the queues in step, a frame takes the same leading samples from both queues, keeps the rest in order, and leaves them in step |
| MicrophonePlotWRTC.HandleConservesSamples | src/MicrophonePlotWRTC.js:264-325 | corrected handler: one event neither loses nor reorders a sample of either queue |
| MicrophonePlotWRTC.RunConservesSamples | src/MicrophonePlotWRTC.js:264-325 | corrected handler, over any run: for each queue, the samples written followed by those still queued are the samples queued at the start followed by those received; the queues stay in step |
| MicrophonePlotWRTC.Overlay | src/MicrophonePlotWRTC.js:130-144 | the overlay puts silence in the first `padding` slots, then the recording sample by sample (the `%` never wraps), and leaves the slots after it alone |

## Left out

- `parseFloat`/`parseInt` inside the reader are left out. Numeric fields keep their raw trimmed text; `size` starts as the text `"0"`.
- JavaScript strings are UTF-16 code units. The model works on Unicode characters; only `trim`'s set of white-space characters matters here.
- The TextGrid file's loading is left out, because it is I/O: the dynamic import, `fetch`, the `slice(1)` of the items and `setPhonemes` (src/MicrophonePlotWRTC.js:101-112).
- The float arithmetic is left out:
  - the `/ 32768` normalisation;
  - `samplesToPlot = Math.floor(elapsedTime * sampleRate)`, which is an input `samplesToPlot: nat`;
  - the marker's pixel position `* (width / numPoints)`.
- A negative `samplesToPlot` is not modelled. It would need the animation timestamps to go backwards, and `slice` would then keep only the queue's tail.
- Samples are kept as integers in the WebSocket and WebRTC components and as opaque values in the microphone callback and the overlay.
- `mounted` stands for `canvasRef.current` (and, in the WebRTC component, `envelopeCanvasRef.current`). When it is false the frame does nothing. Rescheduling through `requestAnimationFrame` is not modelled.
- A NaN timestamp is not modelled. `if (lastTimestamp)` is modelled for `null` and `0` only.
- The following are presentation or browser APIs outside the core, so they are left out:
  - WebGL, canvas, React state, JSX and the phoneme boxes' pixel layout;
  - WebRTC/WebSocket signalling (src/MicrophonePlotWRTC.js:236-259 and 352-367);
  - `getUserMedia`/`AudioContext` capture and `decodeAudioData`.
- The microphone callback's block size (256) is not fixed: a block of any length is modelled.
- The header loops at src/MicrophonePlotWRTC.js:278-283 have empty bodies and are not modelled.
- `MicrophonePlotWRTC.Overlay` is one loop. The envelope overlay at src/MicrophonePlotWRTC.js:166-180 is the same loop on the other line. It assumes, as the plot library's typed array does, that writes past the end of the line are dropped.
- The WebRTC component's two lines are one ring of paired samples, because they share `bufferIndex`.
- Ring.MarkerInRing: the slider is assumed non-negative, as its range input (`min="0"`) guarantees. `Ring.JsRem` covers the negative case.
- `src/App.js` and `src/configs/audiovisualizerConfig.js` are not part of this model.

## Findings

| source | as written | input that shows it | evidently intended | confidence | as-written member | corrected member |
|---|---|---|---|---|---|---|
| src/MicrophonePlotWRTC.js:42-58 | an `item [` line closes the item but keeps `currentInterval`, so the next tier's own `xmin`/`xmax` lines are written into the closed tier's last interval | the line after a tier's last `text` line is `item [2]:`, followed by `xmin = 0`, where that interval's `xmin` was not `0` | a new item closes the open interval, so a closed item's intervals are final | high; not executed | TextGridAliasing.AliasingExample | TextGrid.FixedClosedItemsAreFinal |
| src/MicrophonePlotWRTC.js:285-290 | the audio samples pushed before `getInt16` throws on a short message stay queued, and the envelope queue falls behind | a 400-byte message on empty queues queues 160 audio and 34 envelope samples; the next frame writes NaN into the envelope line at `bufferIndex + 34` | a frame is queued whole or not at all, so audio and envelope stay paired | medium; not executed | MicrophonePlotWRTC.TruncatedMessageWritesNaN | MicrophonePlotWRTC.RunKeepsEnvelopeDefined |

In the first finding the corrected reader is `TextGrid.ParseTextGridFixed`, which is `Step` with `closeOnItem` set. In the second the corrected handler is
`Frames.OnChannelMessageFixed`, and `MicrophonePlotWRTC.Receive` uses it.

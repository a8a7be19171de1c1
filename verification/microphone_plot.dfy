/**
 * The microphone component: every audio-processing callback writes its input
 * block into the ring and moves the marker to a fixed distance (the slider
 * value) ahead of the write index.
 */
module MicrophonePlot {
  import opened Ring

  /** The ring's length, `numPoints`. */
  const NumPoints: nat := 240000

  /** The ring as the component creates it: `numPoints` slots. */
  ghost predicate Valid<T>(r: Ring<T>) {
    r.Valid() && |r.slots| == NumPoints
  }

  /**
   * `scriptNode.onaudioprocess`: the write loop over the input block, then
   * the marker's ring index. The samples are kept as opaque values `T`.
   */
  method OnAudioProcess<T>(ring: Ring<T>, input: seq<T>, slider: nat) returns (r: Ring<T>, marker: int)
    requires Valid(ring)
    ensures Valid(r) && r == Write(ring, input)
    ensures r.cursor == Slot(ring.cursor, |input|, NumPoints)
    ensures forall k :: 0 <= k < |input| && |input| <= k + NumPoints ==> r.slots[Slot(ring.cursor, k, NumPoints)] == input[k]
    ensures forall d :: |input| <= d < NumPoints ==> r.slots[Slot(ring.cursor, d, NumPoints)] == ring.slots[Slot(ring.cursor, d, NumPoints)]
    ensures 0 <= marker < NumPoints && marker == Slot(r.cursor, slider, NumPoints)
  {
    var slots: seq<T>, index: nat := ring.slots, ring.cursor;
    var i := 0;
    while i < |input|
      invariant 0 <= i <= |input|
      invariant |slots| == NumPoints && index < NumPoints
      invariant Write(Ring(slots, index), input[i..]) == Write(ring, input)
    {
      assert input[i..][0] == input[i] && input[i..][1..] == input[i + 1..];
      slots := slots[index := input[i]];
      index := (index + 1) % NumPoints;
      i := i + 1;
    }
    assert input[i..] == [];
    r := Ring(slots, index);
    WriteCursor(ring, input);
    WriteContents(ring, input);
    marker := MarkerIndex(r.cursor, slider, NumPoints);
    MarkerInRing(r.cursor, slider, NumPoints);
  }
}

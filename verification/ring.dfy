/**
 * The circular plot buffer shared by the three components: a line of
 * `numPoints` y-values and a write index `bufferIndex`. Each sample is
 * written at the index, which then advances by one modulo the length.
 */
module Ring {

  /** The ring's slots and its write cursor. */
  datatype Ring<T> = Ring(slots: seq<T>, cursor: nat) {
    ghost predicate Valid() {
      0 < |slots| && cursor < |slots|
    }
  }

  // ---------------------------------------------------------------------------
  // Arithmetic of the wrapping index
  // ---------------------------------------------------------------------------

  lemma MulNonneg(a: int, b: int)
    requires a >= 0 && b >= 0
    ensures a * b >= 0
  {
  }

  /** Quotient and remainder are unique. */
  lemma DivModUnique(x: int, q: int, r: int, n: int)
    requires n > 0 && 0 <= r < n && x == q * n + r
    ensures x % n == r && x / n == q
  {
    var q', r' := x / n, x % n;
    var d := q - q';
    assert d * n == r' - r;
    if d > 0 {
      MulNonneg(d - 1, n);
    } else if d < 0 {
      MulNonneg(-d - 1, n);
    }
  }

  /** Reducing the left summand first does not change the remainder. */
  lemma ModAddLeft(a: nat, b: nat, n: nat)
    requires n > 0
    ensures (a % n + b) % n == (a + b) % n
  {
    var s := a % n + b;
    assert s == (s / n) * n + s % n;
    DivModUnique(a + b, a / n + s / n, s % n, n);
  }

  /** A slot is revisited only after `n` steps. */
  lemma ModStepDistinct(c: nat, d: nat, n: nat)
    requires c < n && 0 < d < n
    ensures (c + d) % n != c
  {
    if c + d < n {
      DivModUnique(c + d, 0, c + d, n);
    } else {
      DivModUnique(c + d, 1, c + d - n, n);
    }
  }

  /** The slot `k` places after `c`. */
  function Slot(c: nat, k: nat, n: nat): (j: nat)
    requires n > 0
    ensures j < n
  {
    (c + k) % n
  }

  // ---------------------------------------------------------------------------
  // Writing a run of samples
  // ---------------------------------------------------------------------------

  /** Counting from the next index is counting one more from this one. */
  lemma SlotAfterNext(c: nat, k: nat, n: nat)
    requires c < n && 0 < k
    ensures Slot(Next(c, n), k - 1, n) == Slot(c, k, n)
  {
    ModAddLeft(c + 1, k - 1, n);
  }

  /** `numPoints - 1` slots after the next index is this index again. */
  lemma SlotWrapsBack(c: nat, n: nat)
    requires c < n
    ensures Slot(Next(c, n), n - 1, n) == c == Slot(c, 0, n)
  {
    SlotAfterNext(c, n, n);
    DivModUnique(c + n, 1, c, n);
    DivModUnique(c, 0, c, n);
  }

  /** The write index after one sample: `(bufferIndex + 1) % numPoints`. */
  function Next(c: nat, n: nat): (c': nat)
    requires c < n
    ensures c' < n
    ensures c' == (c + 1) % n
  {
    if c + 1 < n then
      DivModUnique(c + 1, 0, c + 1, n);
      c + 1
    else
      DivModUnique(c + 1, 1, 0, n);
      0
  }

  /** One iteration: `line.setY(bufferIndex, v)`, then advance the index. */
  function Put<T>(r: Ring<T>, v: T): (r': Ring<T>)
    requires r.Valid()
    ensures r'.Valid() && |r'.slots| == |r.slots|
  {
    Ring(r.slots[r.cursor := v], Next(r.cursor, |r.slots|))
  }

  /**
   * The write loop `for (i = 0; i < values.length; i++)` over `Put`.
   */
  function Write<T>(r: Ring<T>, values: seq<T>): (w: Ring<T>)
    requires r.Valid()
    ensures w.Valid() && |w.slots| == |r.slots|
    decreases |values|
  {
    if values == [] then r else Write(Put(r, values[0]), values[1..])
  }

  /** After `k` samples the cursor has advanced by `k` modulo the length. */
  lemma {:induction false} WriteCursor<T>(r: Ring<T>, values: seq<T>)
    requires r.Valid()
    ensures Write(r, values).cursor == Slot(r.cursor, |values|, |r.slots|)
    decreases |values|
  {
    var n := |r.slots|;
    if values == [] {
      DivModUnique(r.cursor, 0, r.cursor, n);
    } else {
      WriteCursor(Put(r, values[0]), values[1..]);
      ModAddLeft(r.cursor + 1, |values| - 1, n);
    }
  }

  /**
   * Value `k` of a write sits at slot `cursor + k`, unless a later value
   * reached the same slot: only the last `numPoints` values survive.
   */
  lemma {:induction false} WriteLands<T>(r: Ring<T>, values: seq<T>, k: nat)
    requires r.Valid() && k < |values| && |values| <= k + |r.slots|
    ensures Write(r, values).slots[Slot(r.cursor, k, |r.slots|)] == values[k]
    decreases |values|
  {
    var c, n := r.cursor, |r.slots|;
    var r', rest := Put(r, values[0]), values[1..];
    assert Write(r, values) == Write(r', rest);
    if k == 0 {
      WriteLandsFirst(r, values);
    } else {
      SlotAfterNext(c, k, n);
      WriteLands(r', rest, k - 1);
    }
  }

  /** With at most `numPoints` values, the first stays where it was written. */
  lemma WriteLandsFirst<T>(r: Ring<T>, values: seq<T>)
    requires r.Valid() && 0 < |values| <= |r.slots|
    ensures Write(r, values).slots[Slot(r.cursor, 0, |r.slots|)] == values[0]
  {
    var c, n := r.cursor, |r.slots|;
    var r', rest := Put(r, values[0]), values[1..];
    assert Write(r, values) == Write(r', rest);
    SlotWrapsBack(c, n);
    WriteKeeps(r', rest, n - 1);
  }

  /** The slots a write does not reach keep their old values. */
  lemma {:induction false} WriteKeeps<T>(r: Ring<T>, values: seq<T>, d: nat)
    requires r.Valid() && |values| <= d < |r.slots|
    ensures Write(r, values).slots[Slot(r.cursor, d, |r.slots|)] == r.slots[Slot(r.cursor, d, |r.slots|)]
    decreases |values|
  {
    var c, n := r.cursor, |r.slots|;
    if values != [] {
      var r', rest := Put(r, values[0]), values[1..];
      assert Write(r, values) == Write(r', rest);
      SlotAfterNext(c, d, n);
      ModStepDistinct(c, d, n);
      WriteKeeps(r', rest, d - 1);
    }
  }

  /**
   * What the ring holds after a write, slot by slot: the last `numPoints`
   * values at `cursor + k`, and the slots not reached as they were.
   */
  lemma WriteContents<T>(r: Ring<T>, values: seq<T>)
    requires r.Valid()
    ensures var w, c, n := Write(r, values), r.cursor, |r.slots|;
      && (forall k :: 0 <= k < |values| && |values| <= k + n ==> w.slots[Slot(c, k, n)] == values[k])
      && (forall d :: |values| <= d < n ==> w.slots[Slot(c, d, n)] == r.slots[Slot(c, d, n)])
  {
    forall k | 0 <= k < |values| && |values| <= k + |r.slots| {
      WriteLands(r, values, k);
    }
    forall d | |values| <= d < |r.slots| {
      WriteKeeps(r, values, d);
    }
  }

  /** A property every slot and every written value has, every slot has afterwards. */
  lemma {:induction false} WriteKeepsAll<T>(r: Ring<T>, values: seq<T>, P: T -> bool)
    requires r.Valid()
    requires forall i :: 0 <= i < |r.slots| ==> P(r.slots[i])
    requires forall k :: 0 <= k < |values| ==> P(values[k])
    ensures forall i :: 0 <= i < |Write(r, values).slots| ==> P(Write(r, values).slots[i])
    decreases |values|
  {
    if values != [] {
      WriteKeepsAll(Put(r, values[0]), values[1..], P);
    }
  }

  /** Writing two runs one after the other is writing their concatenation. */
  lemma {:induction false} WriteAppend<T>(r: Ring<T>, a: seq<T>, b: seq<T>)
    requires r.Valid()
    ensures Write(Write(r, a), b) == Write(r, a + b)
    decreases |a|
  {
    if a != [] {
      WriteAppend(Put(r, a[0]), a[1..], b);
      assert (a + b)[0] == a[0] && (a + b)[1..] == a[1..] + b;
      assert Write(r, a) == Write(Put(r, a[0]), a[1..]);
    } else {
      assert a + b == b;
    }
  }

  // ---------------------------------------------------------------------------
  // The marker
  // ---------------------------------------------------------------------------

  /** JavaScript's `%`: the remainder takes the sign of the dividend. */
  function JsRem(a: int, n: int): (r: int)
    requires n > 0
    ensures a >= 0 ==> 0 <= r < n
    ensures a < 0 ==> -n < r <= 0
  {
    if a >= 0 then a % n else -((-a) % n)
  }

  /**
   * The ring index the marker is drawn at:
   * `(bufferIndex + parseInt(sliderValue)) % numPoints`.
   */
  function MarkerIndex(cursor: nat, slider: int, n: nat): (m: int)
    requires n > 0
    ensures cursor + slider >= 0 ==> 0 <= m < n
    ensures cursor + slider < 0 ==> m <= 0 && 0 < m + n
  {
    JsRem(cursor + slider, n)
  }

  /** With the slider at or above zero, as its range input allows, the marker index is a ring slot `slider` places ahead of the cursor. */
  lemma MarkerInRing(cursor: nat, slider: int, n: nat)
    requires n > 0 && slider >= 0
    ensures 0 <= MarkerIndex(cursor, slider, n) < n
    ensures MarkerIndex(cursor, slider, n) == Slot(cursor, slider, n)
  {
  }
}

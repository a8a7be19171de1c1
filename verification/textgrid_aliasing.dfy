/**
 * The open interval outlives its item. In the reader as written an `item [`
 * line closes the current item but leaves its last interval open, so an
 * `xmin`, `xmax` or `text` line at the head of the next item is written into
 * an interval that already belongs to the closed item.
 */
module TextGridAliasing {
  import opened Wrappers
  import opened Text
  import opened TextGrid

  /** A line whose branch cannot throw takes one step of the reader. */
  lemma StepAs(st: State, raw: string, c: bool, kind: LineKind)
    requires WellFormed(st)
    requires Classify(Trim(raw), st.current.Some?, st.open.Some?) == kind
    requires ApplyPre(st, kind, Trim(raw))
    ensures Step(st, raw, c) == Success(Apply(st, kind, Trim(raw), c))
  {
  }

  /**
   * The state just after a `text` line: the open interval is the last one the
   * current item refers to.
   */
  predicate IntervalJustRead(st: State) {
    && WellFormed(st)
    && st.current.Some? && st.open.Some?
    && st.current.value.intervals.Some?
    && |st.current.value.intervals.value| > 0
    && st.current.value.intervals.value[|st.current.value.intervals.value| - 1] == st.open.value
  }

  /** Every `text` line inside an open interval leaves the reader in that state. */
  lemma TextLineLeavesIntervalOpen(st: State, line: string, closeOnItem: bool)
    requires ApplyPre(st, IntervalText, line)
    ensures IntervalJustRead(Apply(st, IntervalText, line, closeOnItem))
  {
    ApplyIntervalList(st, IntervalText, line, closeOnItem);
  }

  /** After an `item [` line, as written: the item is closed, its last interval still open. */
  lemma ItemLineAsWritten(st: State, raw: string)
    requires IntervalJustRead(st) && Classify(Trim(raw), true, true) == ItemStart
    ensures var s := Step(st, raw, false);
      && s.Success?
      && s.value.items == st.items + [st.current.value]
      && s.value.store == st.store
      && s.value.open == st.open
      && s.value.current == Some(EmptyItem)
  {
    StepAs(st, raw, false, ItemStart);
  }

  /** An `xmin` line with an interval open writes its value into that interval. */
  lemma XminLineWritesOpenInterval(st: State, raw: string)
    requires WellFormed(st) && st.current.Some? && st.open.Some?
    requires Classify(Trim(raw), true, true) == IntervalXmin && '=' in Trim(raw)
    ensures var s := Step(st, raw, false);
      && s.Success?
      && s.value.items == st.items
      && s.value.current == st.current
      && s.value.store == st.store[st.open.value := st.store[st.open.value].(xmin := Some(Value(Trim(raw))))]
  {
    StepAs(st, raw, false, IntervalXmin);
  }

  /** Two lines that both succeed, run one after the other. */
  lemma RunTwo(st: State, a: string, b: string, c: bool)
    requires WellFormed(st) && Step(st, a, c).Success?
    requires Step(Step(st, a, c).value, b, c).Success?
    ensures Run(st, [a], c) == Step(st, a, c)
    ensures Run(st, [a, b], c) == Step(Step(st, a, c).value, b, c)
  {
    var s1 := Step(st, a, c).value;
    RunCons(st, a, [b], c);
    RunCons(s1, b, [], c);
    RunCons(st, a, [], c);
    assert [a] + [b] == [a, b];
    assert [b] + [] == [b];
    assert [a] + [] == [a];
  }

  /** Rewriting the `xmin` of an interval the closed item refers to changes that item. */
  lemma ClosedItemChanges(st: State, s1: State, s2: State, v: string)
    requires IntervalJustRead(st) && WellFormed(s1) && WellFormed(s2)
    requires s1.items == st.items + [st.current.value] && s1.store == st.store
    requires s2.items == s1.items && s2.current.Some?
    requires s2.store == st.store[st.open.value := st.store[st.open.value].(xmin := Some(v))]
    requires Some(v) != st.store[st.open.value].xmin
    ensures |ResolveAll(s1.items, s1.store)| == |st.items| + 1
    ensures |Finish(s2).items| == |st.items| + 2
    ensures ResolveAll(s1.items, s1.store)[|st.items|] != Finish(s2).items[|st.items|]
  {
    var closed := st.current.value;
    var refs := closed.intervals.value;
    var j := |refs| - 1;
    var before := Resolve(closed, s1.store);
    var after := Resolve(closed, s2.store);
    assert ResolveAll(s1.items, s1.store)[|st.items|] == before;
    assert AppendItem(s2.items, s2.current)[|st.items|] == closed;
    assert Finish(s2).items[|st.items|] == after;
    assert before.intervals.value[j].xmin != after.intervals.value[j].xmin;
  }

  /**
   * Both lines are read without error, and the item the first line closes, as
   * it stood when it was closed, is not the item the grid reports in its place.
   */
  predicate ClosedItemRewritten(st: State, itemLine: string, xminLine: string)
    requires WellFormed(st)
  {
    var r := Run(st, [itemLine, xminLine], false);
    var p := Run(st, [itemLine], false);
    && r.Success? && p.Success?
    && |ResolveAll(p.value.items, p.value.store)| == |st.items| + 1
    && |Finish(r.value).items| == |st.items| + 2
    && ResolveAll(p.value.items, p.value.store)[|st.items|] != Finish(r.value).items[|st.items|]
  }

  /**
   * The reader as written: right after an interval is read, an `item [` line
   * followed by an `xmin` line with a different value rewrites the `xmin` of
   * the closed item's last interval. The item as it stood when it was closed
   * is no longer what the grid reports.
   */
  lemma AliasingOverwritesClosedItem(st: State, itemLine: string, xminLine: string)
    requires IntervalJustRead(st)
    requires Classify(Trim(itemLine), true, true) == ItemStart
    requires Classify(Trim(xminLine), true, true) == IntervalXmin && '=' in Trim(xminLine)
    requires Some(Value(Trim(xminLine))) != st.store[st.open.value].xmin
    ensures ClosedItemRewritten(st, itemLine, xminLine)
  {
    ItemLineAsWritten(st, itemLine);
    var s1 := Step(st, itemLine, false).value;
    XminLineWritesOpenInterval(s1, xminLine);
    var s2 := Step(s1, xminLine, false).value;
    RunTwo(st, itemLine, xminLine, false);
    ClosedItemChanges(st, s1, s2, Value(Trim(xminLine)));
  }

  /** A trimmed line neither starts nor ends with white space, so trimming keeps it. */
  lemma TrimKeepsTight(s: string)
    requires Tight(s)
    ensures Trim(s) == s
  {
    assert Pads(s, 0, s);
    TrimUnique(s, 0, s);
  }

  /** The lines `item [2]:` and `xmin = 0` meet the conditions above. */
  lemma ItemLineExample()
    ensures Classify(Trim("item [2]:"), true, true) == ItemStart
  {
    TrimKeepsTight("item [2]:");
    assert StartsWith("item [2]:", "item [");
  }

  lemma XminLineExample()
    ensures Classify(Trim("xmin = 0"), true, true) == IntervalXmin
  {
    var line := "xmin = 0";
    TrimKeepsTight(line);
    assert line[0] == 'x' && line[1] == 'm';
    assert StartsWith(line, "xmin");
  }

  lemma XminValueExample()
    ensures '=' in Trim("xmin = 0") && Value(Trim("xmin = 0")) == "0"
  {
    TrimKeepsTight("xmin = 0");
    XminPieces();
    ValueIsSecondPiece(["xmin ", " 0"]);
    SpaceZeroTrims();
  }

  lemma XminPieces()
    ensures Join(["xmin ", " 0"], '=') == "xmin = 0"
    ensures forall k :: 0 <= k < 2 ==> '=' !in ["xmin ", " 0"][k]
  {
    assert Join([" 0"], '=') == " 0";
  }

  lemma SpaceZeroTrims()
    ensures Trim(" 0") == "0"
  {
    assert Pads(" 0", 1, "0");
    TrimUnique(" 0", 1, "0");
  }

  /**
   * The counterexample with concrete lines: after an interval's `text` line,
   * the lines `item [2]:` and `xmin = 0` rewrite the closed item's last
   * interval whenever its `xmin` was not `"0"`.
   */
  lemma AliasingExample(st: State)
    requires IntervalJustRead(st) && st.store[st.open.value].xmin != Some("0")
    ensures ClosedItemRewritten(st, "item [2]:", "xmin = 0")
  {
    ItemLineExample();
    XminLineExample();
    XminValueExample();
    AliasingOverwritesClosedItem(st, "item [2]:", "xmin = 0");
  }
}

/**
 * The Praat TextGrid reader of the WebRTC plot component: a line-by-line,
 * first-matching-prefix state machine. Its state is the top-level fields, the
 * items (tiers) read so far, the item being read and the interval being read.
 *
 * Interval objects are shared by reference in the original: once an interval
 * has been pushed into an item's list, the parser still holds it as "the open
 * interval" and keeps updating it, even after the next `item [` line. The model
 * therefore keeps every interval object in a store and lets items hold indices
 * into it; `open` is the index of the interval currently held.
 */
module TextGrid {
  import opened Wrappers
  import opened Text

  /** An interval object; each field stays absent until a line sets it. */
  datatype Interval = Interval(xmin: Option<string>, xmax: Option<string>, text: Option<string>)

  const EmptyInterval := Interval(None, None, None)

  /** An item object while it is being read; `intervals` refers into the interval store. */
  datatype OpenItem = OpenItem(tierClass: Option<string>, name: Option<string>, intervals: Option<seq<nat>>)

  const EmptyItem := OpenItem(None, None, None)

  /**
   * The top-level fields. Numeric fields keep the raw text they were read from:
   * `xmin`/`xmax` start absent (null), and `size` starts as "0", the text of its
   * initial value 0.
   */
  datatype Header = Header(
    fileType: string,
    objectClass: string,
    xmin: Option<string>,
    xmax: Option<string>,
    tiersExist: bool,
    size: string)

  const InitialHeader := Header("", "", None, None, false, "0")

  datatype State = State(
    header: Header,
    items: seq<OpenItem>,
    current: Option<OpenItem>,
    store: seq<Interval>,
    open: Option<nat>)

  const Initial := State(InitialHeader, [], None, [], None)

  /** A finished item, with its interval references resolved. */
  datatype Item = Item(tierClass: Option<string>, name: Option<string>, intervals: Option<seq<Interval>>)

  datatype Grid = Grid(header: Header, items: seq<Item>)

  /**
   * The two ways the reader throws: a field line without `=` (reading the value
   * of `split("=")[1]` fails), and a `text` line for an item whose interval list
   * was never created by an `intervals: size` line.
   */
  datatype ParseError = MissingValue(line: string) | NoIntervalList(line: string)

  /** The branch a trimmed line takes. */
  datatype LineKind =
    | FileType | ObjectClass | GridXmin | GridXmax | Tiers | Size
    | ItemStart | ItemClass | ItemName | IntervalList | IntervalStart
    | IntervalXmin | IntervalXmax | IntervalText | Ignored

  // ---------------------------------------------------------------------------
  // Well-formedness of the state: every reference points into the store.
  // ---------------------------------------------------------------------------

  predicate RefsBelow(refs: seq<nat>, n: nat) {
    forall k :: 0 <= k < |refs| ==> refs[k] < n
  }

  predicate ItemRefsBelow(it: OpenItem, n: nat) {
    it.intervals.Some? ==> RefsBelow(it.intervals.value, n)
  }

  predicate WellFormed(st: State) {
    && (forall k :: 0 <= k < |st.items| ==> ItemRefsBelow(st.items[k], |st.store|))
    && (st.current.Some? ==> ItemRefsBelow(st.current.value, |st.store|))
    && (st.open.Some? ==> st.current.Some? && st.open.value < |st.store|)
  }

  function Count(it: Option<OpenItem>): nat {
    if it.Some? then 1 else 0
  }

  // ---------------------------------------------------------------------------
  // Reading one line
  // ---------------------------------------------------------------------------

  predicate IsItemLine(raw: string) {
    StartsWith(Trim(raw), "item [")
  }

  /** The first matching branch, given whether an item and an interval are open. */
  function Classify(line: string, inItem: bool, inInterval: bool): (k: LineKind)
    ensures k == ItemStart <==> StartsWith(line, "item [")
    ensures k.GridXmin? || k.GridXmax? ==> !inItem
    ensures k.ItemClass? || k.ItemName? || k.IntervalList? || k.IntervalStart? ==> inItem
    ensures k.IntervalXmin? || k.IntervalXmax? || k.IntervalText? ==> inInterval
  {
    ItemPrefixExcludesEarlierBranches(line);
    if StartsWith(line, "File type") then FileType
    else if StartsWith(line, "Object class") then ObjectClass
    else if StartsWith(line, "xmin") && !inItem then GridXmin
    else if StartsWith(line, "xmax") && !inItem then GridXmax
    else if StartsWith(line, "tiers?") then Tiers
    else if StartsWith(line, "size =") then Size
    else if StartsWith(line, "item [") then ItemStart
    else if inItem && StartsWith(line, "class") then ItemClass
    else if inItem && StartsWith(line, "name") then ItemName
    else if inItem && StartsWith(line, "intervals: size") then IntervalList
    else if inItem && StartsWith(line, "intervals [") then IntervalStart
    else if inInterval && StartsWith(line, "xmin") then IntervalXmin
    else if inInterval && StartsWith(line, "xmax") then IntervalXmax
    else if inInterval && StartsWith(line, "text") then IntervalText
    else Ignored
  }

  lemma ItemPrefixExcludesEarlierBranches(line: string)
    ensures StartsWith(line, "item [") ==>
      && !StartsWith(line, "File type") && !StartsWith(line, "Object class")
      && !StartsWith(line, "xmin") && !StartsWith(line, "xmax")
      && !StartsWith(line, "tiers?") && !StartsWith(line, "size =")
  {
    if StartsWith(line, "item [") {
      assert line[0] == 'i';
    }
  }

  /** The branches that read `split("=")[1]`. */
  predicate ReadsValue(k: LineKind) {
    !(k.Tiers? || k.ItemStart? || k.IntervalList? || k.IntervalStart? || k.Ignored?)
  }

  /** `line.split("=")[1].trim()`: the raw value of a field line. */
  function Value(line: string): string
    requires '=' in line
  {
    Trim(Split(line, '=')[1])
  }

  /** A string field's value: the raw value with its double quotes removed. */
  function QuotedValue(line: string): string
    requires '=' in line
  {
    Unquote(Value(line))
  }

  /**
   * A field's value is the trimmed text between the first `=` and the next `=`
   * or the end: for a line made of `=`-free pieces joined by `=`, it is the
   * second piece, trimmed.
   */
  lemma ValueIsSecondPiece(parts: seq<string>)
    requires |parts| >= 2
    requires forall k :: 0 <= k < |parts| ==> '=' !in parts[k]
    ensures '=' in Join(parts, '=')
    ensures Value(Join(parts, '=')) == Trim(parts[1])
  {
    SplitJoin(parts, '=');
  }

  function AppendItem(items: seq<OpenItem>, it: Option<OpenItem>): seq<OpenItem> {
    if it.Some? then items + [it.value] else items
  }

  /** The state change of a line whose branch cannot throw. */
  predicate ApplyPre(st: State, kind: LineKind, line: string) {
    && WellFormed(st)
    && (ReadsValue(kind) ==> '=' in line)
    && (kind.ItemClass? || kind.ItemName? || kind.IntervalList? || kind.IntervalStart? ==> st.current.Some?)
    && (kind.IntervalXmin? || kind.IntervalXmax? || kind.IntervalText? ==> st.open.Some?)
    && (kind.IntervalText? ==> st.current.Some? && st.current.value.intervals.Some?)
    && (kind.GridXmin? || kind.GridXmax? ==> st.current.None?)
  }

  predicate IsHeaderKind(kind: LineKind) {
    kind.FileType? || kind.ObjectClass? || kind.GridXmin? || kind.GridXmax? || kind.Tiers? || kind.Size?
  }

  /** A line of one of the top-level fields. */
  function ApplyToHeader(h: Header, kind: LineKind, line: string): Header
    requires IsHeaderKind(kind) && (ReadsValue(kind) ==> '=' in line)
  {
    match kind
    case FileType => h.(fileType := QuotedValue(line))
    case ObjectClass => h.(objectClass := QuotedValue(line))
    case GridXmin => h.(xmin := Some(Value(line)))
    case GridXmax => h.(xmax := Some(Value(line)))
    case Tiers => h.(tiersExist := Contains(line, "<exists>"))
    case Size => h.(size := Value(line))
  }

  /** A `class`, `name` or `intervals: size` line of the open item. */
  function ApplyToItem(it: OpenItem, kind: LineKind, line: string): (r: OpenItem)
    requires (kind.ItemClass? || kind.ItemName? || kind.IntervalList?) && (ReadsValue(kind) ==> '=' in line)
    ensures r.intervals == (if kind.IntervalList? then Some([]) else it.intervals)
  {
    match kind
    case ItemClass => it.(tierClass := Some(QuotedValue(line)))
    case ItemName => it.(name := Some(QuotedValue(line)))
    case IntervalList => it.(intervals := Some([]))
  }

  /** An `xmin`, `xmax` or `text` line of the open interval; `text` also pushes it. */
  function ApplyToInterval(st: State, kind: LineKind, line: string): (r: State)
    requires kind.IntervalXmin? || kind.IntervalXmax? || kind.IntervalText?
    requires ApplyPre(st, kind, line)
    ensures WellFormed(r)
  {
    var i := st.open.value;
    var iv := st.store[i];
    match kind
    case IntervalXmin => st.(store := st.store[i := iv.(xmin := Some(Value(line)))])
    case IntervalXmax => st.(store := st.store[i := iv.(xmax := Some(Value(line)))])
    case IntervalText =>
      var it := st.current.value;
      var refs := it.intervals.value + [i];
      assert RefsBelow(refs, |st.store|);
      st.(store := st.store[i := iv.(text := Some(QuotedValue(line)))],
          current := Some(it.(intervals := Some(refs))))
  }

  /** The state change of a line whose branch cannot throw. */
  function Apply(st: State, kind: LineKind, line: string, closeOnItem: bool): (r: State)
    requires ApplyPre(st, kind, line)
    ensures WellFormed(r)
  {
    if IsHeaderKind(kind) then
      st.(header := ApplyToHeader(st.header, kind, line))
    else if kind.ItemStart? then
      st.(items := AppendItem(st.items, st.current),
          current := Some(EmptyItem),
          open := if closeOnItem then None else st.open)
    else if kind.ItemClass? || kind.ItemName? || kind.IntervalList? then
      st.(current := Some(ApplyToItem(st.current.value, kind, line)))
    else if kind.IntervalStart? then
      st.(store := st.store + [EmptyInterval], open := Some(|st.store|))
    else if kind.IntervalXmin? || kind.IntervalXmax? || kind.IntervalText? then
      ApplyToInterval(st, kind, line)
    else
      st
  }

  /** Items are only ever appended, one per `item [` line; that line opens a fresh item. */
  lemma ApplyAppendsItems(st: State, kind: LineKind, line: string, closeOnItem: bool)
    requires ApplyPre(st, kind, line)
    ensures var r := Apply(st, kind, line, closeOnItem);
      && st.items <= r.items
      && |r.items| + Count(r.current) == |st.items| + Count(st.current) + (if kind.ItemStart? then 1 else 0)
      && (kind.ItemStart? ==> r.current == Some(EmptyItem) && r.open == (if closeOnItem then None else st.open))
  {
  }

  /** Once an item is open it stays open, and the top-level bounds no longer change. */
  lemma ApplyKeepsBounds(st: State, kind: LineKind, line: string, closeOnItem: bool)
    requires ApplyPre(st, kind, line) && st.current.Some?
    ensures var r := Apply(st, kind, line, closeOnItem);
      && r.current.Some?
      && r.header.xmin == st.header.xmin
      && r.header.xmax == st.header.xmax
  {
  }

  /**
   * Only the open interval is ever changed. An `intervals [` line opens a new,
   * empty interval; an interval `xmin`, `xmax` or `text` line sets that field
   * of the open interval and nothing else; every other line leaves all
   * intervals as they were.
   */
  lemma ApplyStoreFrame(st: State, kind: LineKind, line: string, closeOnItem: bool)
    requires ApplyPre(st, kind, line)
    ensures var r := Apply(st, kind, line, closeOnItem);
      && |st.store| <= |r.store|
      && (forall k :: 0 <= k < |st.store| && Some(k) != st.open ==> r.store[k] == st.store[k])
      && (r.open.Some? ==> r.open == st.open || r.open == Some(|st.store|))
    ensures var r := Apply(st, kind, line, closeOnItem);
      kind.IntervalStart? ==> r.store == st.store + [EmptyInterval] && r.open == Some(|st.store|)
    ensures var r := Apply(st, kind, line, closeOnItem);
      kind.IntervalXmin? ==>
        && r.open == st.open
        && r.store == st.store[st.open.value := st.store[st.open.value].(xmin := Some(Value(line)))]
    ensures var r := Apply(st, kind, line, closeOnItem);
      kind.IntervalXmax? ==>
        && r.open == st.open
        && r.store == st.store[st.open.value := st.store[st.open.value].(xmax := Some(Value(line)))]
    ensures var r := Apply(st, kind, line, closeOnItem);
      kind.IntervalText? ==> r.store == st.store[st.open.value := st.store[st.open.value].(text := Some(QuotedValue(line)))]
    ensures var r := Apply(st, kind, line, closeOnItem);
      !(kind.IntervalStart? || kind.IntervalXmin? || kind.IntervalXmax? || kind.IntervalText?) ==> r.store == st.store
  {
    ApplyIntervalFields(st, kind, line, closeOnItem);
    ApplyOtherLines(st, kind, line, closeOnItem);
    var r := Apply(st, kind, line, closeOnItem);
    forall k | 0 <= k < |st.store| && Some(k) != st.open
      ensures r.store[k] == st.store[k]
    {
      if kind.IntervalStart? {
        assert r.store[k] == (st.store + [EmptyInterval])[k];
      }
    }
  }

  /** The interval lines' effects on the store, one kind at a time. */
  lemma ApplyIntervalFields(st: State, kind: LineKind, line: string, closeOnItem: bool)
    requires ApplyPre(st, kind, line)
    ensures var r := Apply(st, kind, line, closeOnItem);
      kind.IntervalStart? ==> r.store == st.store + [EmptyInterval] && r.open == Some(|st.store|)
    ensures var r := Apply(st, kind, line, closeOnItem);
      kind.IntervalXmin? ==>
        && r.open == st.open
        && r.store == st.store[st.open.value := st.store[st.open.value].(xmin := Some(Value(line)))]
    ensures var r := Apply(st, kind, line, closeOnItem);
      kind.IntervalXmax? ==>
        && r.open == st.open
        && r.store == st.store[st.open.value := st.store[st.open.value].(xmax := Some(Value(line)))]
  {
  }

  /** A `text` line sets only the open interval's text; lines outside an interval change no interval. */
  lemma ApplyOtherLines(st: State, kind: LineKind, line: string, closeOnItem: bool)
    requires ApplyPre(st, kind, line)
    ensures var r := Apply(st, kind, line, closeOnItem);
      kind.IntervalText? ==> r.store == st.store[st.open.value := st.store[st.open.value].(text := Some(QuotedValue(line)))]
    ensures var r := Apply(st, kind, line, closeOnItem);
      !(kind.IntervalStart? || kind.IntervalXmin? || kind.IntervalXmax? || kind.IntervalText?) ==> r.store == st.store
  {
    if kind.IntervalText? {
      assert Apply(st, kind, line, closeOnItem) == ApplyToInterval(st, kind, line);
    }
  }

  /**
   * Within an item, the interval list changes only on an `intervals: size` line
   * (it is reset) or a `text` line (the open interval, now carrying that text, is
   * appended).
   */
  lemma ApplyIntervalList(st: State, kind: LineKind, line: string, closeOnItem: bool)
    requires ApplyPre(st, kind, line) && st.current.Some? && !kind.ItemStart?
    ensures var r := Apply(st, kind, line, closeOnItem);
      var before := st.current.value.intervals;
      var after := r.current.value.intervals;
      && (kind.IntervalList? ==> after == Some([]))
      && (kind.IntervalText? ==>
            && after == Some(before.value + [st.open.value])
            && r.store[st.open.value].text == Some(QuotedValue(line)))
      && (!kind.IntervalList? && !kind.IntervalText? ==> after == before)
  {
  }

  /**
   * One iteration of the reader over a raw line. With `closeOnItem` false this is
   * the reader as written; with it true an `item [` line also forgets the open
   * interval (the corrected reader).
   */
  function Step(st: State, raw: string, closeOnItem: bool): (r: Result<State, ParseError>)
    requires WellFormed(st)
    ensures var line := Trim(raw);
      var kind := Classify(line, st.current.Some?, st.open.Some?);
      r.Failure? <==>
        || (ReadsValue(kind) && '=' !in line)
        || (kind.IntervalText? && '=' in line && st.current.value.intervals.None?)
    ensures var line := Trim(raw);
      var kind := Classify(line, st.current.Some?, st.open.Some?);
      r.Success? ==> ApplyPre(st, kind, line) && r.value == Apply(st, kind, line, closeOnItem)
  {
    var line := Trim(raw);
    var kind := Classify(line, st.current.Some?, st.open.Some?);
    if ReadsValue(kind) && '=' !in line then
      Failure(MissingValue(line))
    else if kind.IntervalText? && st.current.value.intervals.None? then
      Failure(NoIntervalList(line))
    else
      Success(Apply(st, kind, line, closeOnItem))
  }

  /**
   * A trimmed line that reads `split("=")[1]` in a context where its branch
   * applies, other than `size =`: a `File type` or `Object class` line, an
   * `xmin` or `xmax` line outside an item or inside an open interval, a
   * `class` or `name` line inside an item, or a `text` line inside an open
   * interval.
   */
  predicate FieldLine(line: string, inItem: bool, inInterval: bool) {
    || StartsWith(line, "File type") || StartsWith(line, "Object class")
    || ((StartsWith(line, "xmin") || StartsWith(line, "xmax")) && (!inItem || inInterval))
    || (inItem && (StartsWith(line, "class") || StartsWith(line, "name")))
    || (inInterval && StartsWith(line, "text"))
  }

  /** Such a line without `=`: reading its value throws. */
  predicate LacksValue(st: State, line: string) {
    '=' !in line && FieldLine(line, st.current.Some?, st.open.Some?)
  }

  /** A `text` line with a value, inside an interval of an item that has no interval list. */
  predicate LacksIntervalList(st: State, line: string) {
    && st.open.Some? && st.current.Some? && st.current.value.intervals.None?
    && StartsWith(line, "text") && '=' in line
  }

  /** A line's first characters are those of a prefix it starts with. */
  lemma PrefixChars(line: string, p: string, i: nat)
    requires StartsWith(line, p) && i < |p|
    ensures i < |line| && line[i] == p[i]
  {
    assert line[..|p|] == p;
  }

  /** The first character of a line decides which of the branch prefixes it can start with. */
  lemma FirstChars(line: string)
    ensures StartsWith(line, "File type") ==> line != [] && line[0] == 'F'
    ensures StartsWith(line, "Object class") ==> line != [] && line[0] == 'O'
    ensures StartsWith(line, "xmin") || StartsWith(line, "xmax") ==> line != [] && line[0] == 'x'
    ensures StartsWith(line, "class") ==> line != [] && line[0] == 'c'
    ensures StartsWith(line, "name") ==> line != [] && line[0] == 'n'
    ensures StartsWith(line, "size =") ==> line != [] && line[0] == 's' && '=' in line
  {
    if StartsWith(line, "File type") { PrefixChars(line, "File type", 0); }
    if StartsWith(line, "Object class") { PrefixChars(line, "Object class", 0); }
    if StartsWith(line, "xmin") { PrefixChars(line, "xmin", 0); }
    if StartsWith(line, "xmax") { PrefixChars(line, "xmax", 0); }
    if StartsWith(line, "class") { PrefixChars(line, "class", 0); }
    if StartsWith(line, "name") { PrefixChars(line, "name", 0); }
    if StartsWith(line, "size =") { PrefixChars(line, "size =", 0); PrefixChars(line, "size =", 5); }
  }

  /** The prefixes that share a first character differ in the second. */
  lemma SecondChars(line: string)
    ensures StartsWith(line, "tiers?") ==> |line| > 1 && line[0] == 't' && line[1] == 'i'
    ensures StartsWith(line, "text") ==> |line| > 1 && line[0] == 't' && line[1] == 'e'
    ensures StartsWith(line, "item [") ==> |line| > 1 && line[0] == 'i' && line[1] == 't'
    ensures StartsWith(line, "intervals") ==> |line| > 1 && line[0] == 'i' && line[1] == 'n'
  {
    if StartsWith(line, "tiers?") { PrefixChars(line, "tiers?", 0); PrefixChars(line, "tiers?", 1); }
    if StartsWith(line, "text") { PrefixChars(line, "text", 0); PrefixChars(line, "text", 1); }
    if StartsWith(line, "item [") { PrefixChars(line, "item [", 0); PrefixChars(line, "item [", 1); }
    if StartsWith(line, "intervals") { PrefixChars(line, "intervals", 0); PrefixChars(line, "intervals", 1); }
  }

  /**
   * The branches that read a value, other than `size =`, are exactly the field
   * lines; the `text` branch is exactly a `text` line inside an open interval.
   */
  lemma ClassifyFieldLine(line: string, inItem: bool, inInterval: bool)
    requires inInterval ==> inItem
    ensures var k := Classify(line, inItem, inInterval);
      && (ReadsValue(k) && !k.Size? <==> FieldLine(line, inItem, inInterval))
      && (k.Size? ==> '=' in line)
      && (k.IntervalText? <==> inInterval && StartsWith(line, "text"))
  {
    FirstChars(line);
    SecondChars(line);
  }

  /**
   * A line throws the `split("=")[1]` error exactly when it is a field line
   * without `=`.
   */
  lemma StepMissingValue(st: State, raw: string, closeOnItem: bool)
    requires WellFormed(st)
    ensures Step(st, raw, closeOnItem) == Failure(MissingValue(Trim(raw))) <==> LacksValue(st, Trim(raw))
  {
    ClassifyFieldLine(Trim(raw), st.current.Some?, st.open.Some?);
  }

  /** A line throws the `intervals.push` error exactly when it is a `text` line of an item without an interval list. */
  lemma StepNoIntervalList(st: State, raw: string, closeOnItem: bool)
    requires WellFormed(st)
    ensures Step(st, raw, closeOnItem) == Failure(NoIntervalList(Trim(raw))) <==> LacksIntervalList(st, Trim(raw))
  {
    ClassifyFieldLine(Trim(raw), st.current.Some?, st.open.Some?);
  }

  /** A line throws only in one of those two ways. */
  lemma StepThrowsOnly(st: State, raw: string, closeOnItem: bool)
    requires WellFormed(st)
    ensures Step(st, raw, closeOnItem).Failure? <==> LacksValue(st, Trim(raw)) || LacksIntervalList(st, Trim(raw))
  {
    StepMissingValue(st, raw, closeOnItem);
    StepNoIntervalList(st, raw, closeOnItem);
  }

  /** `item [`, `tiers?`, `intervals: size` and `intervals [` lines never throw. */
  lemma StepNeverThrows(st: State, raw: string, closeOnItem: bool)
    requires WellFormed(st)
    requires var line := Trim(raw);
      StartsWith(line, "item [") || StartsWith(line, "tiers?") || StartsWith(line, "intervals")
    ensures Step(st, raw, closeOnItem).Success?
  {
    var line := Trim(raw);
    FirstChars(line);
    SecondChars(line);
    ClassifyFieldLine(line, st.current.Some?, st.open.Some?);
  }

  /** A line that matches no branch leaves the state as it was. */
  lemma StepIgnoredLine(st: State, raw: string, closeOnItem: bool)
    requires WellFormed(st) && Classify(Trim(raw), st.current.Some?, st.open.Some?) == Ignored
    ensures Step(st, raw, closeOnItem) == Success(st)
  {
  }

  /** The reader's loop over all lines, stopping at the first line that throws. */
  function Run(st: State, lines: seq<string>, closeOnItem: bool): (r: Result<State, ParseError>)
    requires WellFormed(st)
    ensures r.Success? ==> WellFormed(r.value)
    decreases |lines|
  {
    if lines == [] then Success(st)
    else
      match Step(st, lines[0], closeOnItem)
      case Failure(e) => Failure(e)
      case Success(next) => Run(next, lines[1..], closeOnItem)
  }

  /** An item with its interval references replaced by the intervals they refer to. */
  function Resolve(it: OpenItem, store: seq<Interval>): (r: Item)
    requires ItemRefsBelow(it, |store|)
    ensures r.tierClass == it.tierClass && r.name == it.name
    ensures r.intervals.Some? <==> it.intervals.Some?
    ensures it.intervals.Some? ==>
      && |r.intervals.value| == |it.intervals.value|
      && forall k :: 0 <= k < |it.intervals.value| ==> r.intervals.value[k] == store[it.intervals.value[k]]
  {
    match it.intervals
    case None => Item(it.tierClass, it.name, None)
    case Some(refs) =>
      Item(it.tierClass, it.name, Some(seq(|refs|, k requires 0 <= k < |refs| => store[refs[k]])))
  }

  function ResolveAll(items: seq<OpenItem>, store: seq<Interval>): (r: seq<Item>)
    requires forall k :: 0 <= k < |items| ==> ItemRefsBelow(items[k], |store|)
    ensures |r| == |items|
    ensures forall k :: 0 <= k < |items| ==> r[k] == Resolve(items[k], store)
  {
    seq(|items|, k requires 0 <= k < |items| => Resolve(items[k], store))
  }

  /** After the last line the open item is appended too. */
  function Finish(st: State): (g: Grid)
    requires WellFormed(st)
    ensures g.header == st.header
    ensures |g.items| == |st.items| + Count(st.current)
  {
    Grid(st.header, ResolveAll(AppendItem(st.items, st.current), st.store))
  }

  function Parse(content: string, closeOnItem: bool): Result<Grid, ParseError> {
    match Run(Initial, Split(content, '\n'), closeOnItem)
    case Failure(e) => Failure(e)
    case Success(st) => Success(Finish(st))
  }

  /** `parseTextGrid` as written: one item per `item [` line. */
  function ParseTextGrid(content: string): (r: Result<Grid, ParseError>)
    ensures r.Success? ==> |r.value.items| == ItemLines(Split(content, '\n'))
  {
    ParseItemCount(content, false);
    Parse(content, false)
  }

  /**
   * The corrected reader: an `item [` line also closes the open interval. It
   * throws on the same inputs as the reader as written and yields as many items.
   */
  function ParseTextGridFixed(content: string): (r: Result<Grid, ParseError>)
    ensures r.Success? ==> |r.value.items| == ItemLines(Split(content, '\n'))
  {
    ParseItemCount(content, true);
    Parse(content, true)
  }

  // ---------------------------------------------------------------------------
  // Properties of the whole run
  // ---------------------------------------------------------------------------

  /** The number of lines that start, once trimmed, with `item [`. */
  function ItemLines(lines: seq<string>): nat {
    if lines == [] then 0
    else (if IsItemLine(lines[0]) then 1 else 0) + ItemLines(lines[1..])
  }

  lemma {:induction false} RunItemCount(st: State, lines: seq<string>, closeOnItem: bool)
    requires WellFormed(st)
    ensures var r := Run(st, lines, closeOnItem);
      r.Success? ==>
        |r.value.items| + Count(r.value.current) == |st.items| + Count(st.current) + ItemLines(lines)
    decreases |lines|
  {
    if lines != [] {
      var s := Step(st, lines[0], closeOnItem);
      if s.Success? {
        var line := Trim(lines[0]);
        ApplyAppendsItems(st, Classify(line, st.current.Some?, st.open.Some?), line, closeOnItem);
        RunItemCount(s.value, lines[1..], closeOnItem);
      }
    }
  }

  /** The grid has exactly one item per `item [` line, including the `item []:` header line. */
  lemma ParseItemCount(content: string, closeOnItem: bool)
    ensures var g := Parse(content, closeOnItem);
      g.Success? ==> |g.value.items| == ItemLines(Split(content, '\n'))
  {
    RunItemCount(Initial, Split(content, '\n'), closeOnItem);
  }

  /** Running over `a + b` is running over `a`, then over `b`. */
  lemma {:induction false} RunAppend(st: State, a: seq<string>, b: seq<string>, closeOnItem: bool)
    requires WellFormed(st)
    ensures var ra := Run(st, a, closeOnItem);
      Run(st, a + b, closeOnItem) == (if ra.Failure? then Failure(ra.error) else Run(ra.value, b, closeOnItem))
    decreases |a|
  {
    if a == [] {
      assert a + b == b;
    } else {
      assert (a + b)[0] == a[0];
      assert (a + b)[1..] == a[1..] + b;
      var s := Step(st, a[0], closeOnItem);
      if s.Success? {
        RunAppend(s.value, a[1..], b, closeOnItem);
      }
    }
  }

  lemma {:induction false} RunKeepsBounds(st: State, lines: seq<string>, closeOnItem: bool)
    requires WellFormed(st) && st.current.Some?
    ensures var r := Run(st, lines, closeOnItem);
      r.Success? ==> r.value.header.xmin == st.header.xmin && r.value.header.xmax == st.header.xmax
    decreases |lines|
  {
    if lines != [] {
      var s := Step(st, lines[0], closeOnItem);
      if s.Success? {
        var line := Trim(lines[0]);
        ApplyKeepsBounds(st, Classify(line, st.current.Some?, st.open.Some?), line, closeOnItem);
        RunKeepsBounds(s.value, lines[1..], closeOnItem);
      }
    }
  }

  lemma {:induction false} RunFromItemLine(st: State, line: string, rest: seq<string>, closeOnItem: bool)
    requires WellFormed(st) && IsItemLine(line)
    ensures var r := Run(st, [line] + rest, closeOnItem);
      var p := Run(st, [line], closeOnItem);
      && p.Success?
      && (r.Success? ==>
            && r.value.header.xmin == p.value.header.xmin
            && r.value.header.xmax == p.value.header.xmax)
  {
    var trimmed := Trim(line);
    ApplyAppendsItems(st, Classify(trimmed, st.current.Some?, st.open.Some?), trimmed, closeOnItem);
    var next := Step(st, line, closeOnItem).value;
    assert ([line] + rest)[1..] == rest;
    assert Run(st, [line], closeOnItem) == Run(next, [], closeOnItem);
    RunKeepsBounds(next, rest, closeOnItem);
  }

  /** Running over all lines, and over the lines up to `k`, both pass through the state before line `k`. */
  lemma SplitAtItemLine(st: State, lines: seq<string>, k: nat, closeOnItem: bool)
    requires WellFormed(st) && k < |lines|
    ensures var q := Run(st, lines[..k], closeOnItem);
      && Run(st, lines, closeOnItem)
         == (if q.Failure? then Failure(q.error) else Run(q.value, [lines[k]] + lines[k + 1..], closeOnItem))
      && Run(st, lines[..k + 1], closeOnItem)
         == (if q.Failure? then Failure(q.error) else Run(q.value, [lines[k]], closeOnItem))
  {
    assert lines == lines[..k] + ([lines[k]] + lines[k + 1..]);
    assert lines[..k + 1] == lines[..k] + [lines[k]];
    RunAppend(st, lines[..k], [lines[k]] + lines[k + 1..], closeOnItem);
    RunAppend(st, lines[..k], [lines[k]], closeOnItem);
  }

  /**
   * The top-level `xmin`/`xmax` are those read before the first `item [` line:
   * whatever follows line `k`, an item line, cannot change them.
   */
  lemma GridBoundsSetBeforeItems(st: State, lines: seq<string>, k: nat, closeOnItem: bool)
    requires WellFormed(st) && k < |lines| && IsItemLine(lines[k])
    ensures var r := Run(st, lines, closeOnItem);
      var p := Run(st, lines[..k + 1], closeOnItem);
      r.Success? ==>
        && p.Success?
        && r.value.header.xmin == p.value.header.xmin
        && r.value.header.xmax == p.value.header.xmax
  {
    SplitAtItemLine(st, lines, k, closeOnItem);
    var q := Run(st, lines[..k], closeOnItem);
    if q.Success? {
      RunFromItemLine(q.value, lines[k], lines[k + 1..], closeOnItem);
    }
  }

  // ---------------------------------------------------------------------------
  // The open interval outlives its item
  // ---------------------------------------------------------------------------

  /** The invariant of the corrected reader after an `item [` line: no interval below `n` is open. */
  predicate ClosedBelow(st: State, n: nat) {
    && WellFormed(st)
    && n <= |st.store|
    && (st.open.None? || st.open.value >= n)
  }

  lemma FixedApplyKeepsStore(st: State, kind: LineKind, line: string, n: nat)
    requires ClosedBelow(st, n) && ApplyPre(st, kind, line)
    ensures var r := Apply(st, kind, line, true);
      && ClosedBelow(r, n)
      && st.items <= r.items
      && r.store[..n] == st.store[..n]
  {
    ApplyAppendsItems(st, kind, line, true);
    ApplyStoreFrame(st, kind, line, true);
  }

  /** In the corrected reader no interval below `n` is ever open again, so none of them changes. */
  lemma {:induction false} FixedRunKeepsStore(st: State, lines: seq<string>, n: nat)
    requires ClosedBelow(st, n)
    ensures var r := Run(st, lines, true);
      r.Success? ==> st.items <= r.value.items && n <= |r.value.store| && r.value.store[..n] == st.store[..n]
    decreases |lines|
  {
    if lines != [] {
      var s := Step(st, lines[0], true);
      if s.Success? {
        var line := Trim(lines[0]);
        FixedApplyKeepsStore(st, Classify(line, st.current.Some?, st.open.Some?), line, n);
        FixedRunKeepsStore(s.value, lines[1..], n);
      }
    }
  }

  /** Resolving against a longer store that agrees on the referenced prefix gives the same item. */
  lemma ResolveInExtendedStore(items: seq<OpenItem>, small: seq<Interval>, big: seq<Interval>)
    requires |small| <= |big| && big[..|small|] == small
    requires forall k :: 0 <= k < |items| ==> ItemRefsBelow(items[k], |small|)
    ensures forall k :: 0 <= k < |items| ==> ItemRefsBelow(items[k], |big|)
    ensures ResolveAll(items, small) == ResolveAll(items, big)
  {
    forall k | 0 <= k < |items|
      ensures Resolve(items[k], small) == Resolve(items[k], big)
    {
      var it := items[k];
      if it.intervals.Some? {
        var refs := it.intervals.value;
        forall j | 0 <= j < |refs| ensures small[refs[j]] == big[refs[j]] {
          assert big[..|small|][refs[j]] == big[refs[j]];
        }
        assert Resolve(it, small).intervals.value == Resolve(it, big).intervals.value;
      }
    }
  }

  /**
   * Corrected reader: once an `item [` line has closed the items before it,
   * nothing later changes them; they appear, resolved, at the head of the grid.
   */
  lemma FixedClosedItemsAreFinal(st: State, lines: seq<string>, k: nat)
    requires WellFormed(st) && k < |lines| && IsItemLine(lines[k])
    ensures var r := Run(st, lines, true);
      var p := Run(st, lines[..k + 1], true);
      r.Success? ==>
        && p.Success?
        && ResolveAll(p.value.items, p.value.store) <= Finish(r.value).items
  {
    SplitAtItemLine(st, lines, k, true);
    var q := Run(st, lines[..k], true);
    if q.Success? {
      FixedFromItemLine(q.value, lines[k], lines[k + 1..]);
    }
  }

  lemma FixedFromItemLine(st: State, line: string, rest: seq<string>)
    requires WellFormed(st) && IsItemLine(line)
    ensures var r := Run(st, [line] + rest, true);
      var p := Run(st, [line], true);
      && p.Success?
      && (r.Success? ==> ResolveAll(p.value.items, p.value.store) <= Finish(r.value).items)
  {
    var trimmed := Trim(line);
    ApplyAppendsItems(st, Classify(trimmed, st.current.Some?, st.open.Some?), trimmed, true);
    var next := Step(st, line, true).value;
    RunCons(st, line, rest, true);
    RunCons(st, line, [], true);
    assert [line] + [] == [line];
    ClosedItemsStayResolved(next, rest);
  }

  lemma ClosedItemsStayResolved(st: State, lines: seq<string>)
    requires ClosedBelow(st, |st.store|)
    ensures var r := Run(st, lines, true);
      r.Success? ==> ResolveAll(st.items, st.store) <= Finish(r.value).items
  {
    var r := Run(st, lines, true);
    FixedRunKeepsStore(st, lines, |st.store|);
    if r.Success? {
      var fin := r.value;
      var all := AppendItem(fin.items, fin.current);
      ResolveInExtendedStore(st.items, st.store, fin.store);
      var head := ResolveAll(st.items, fin.store);
      var whole := Finish(fin).items;
      forall j | 0 <= j < |head| ensures head[j] == whole[j] {
        assert all[j] == st.items[j];
      }
    }
  }

  lemma RunCons(st: State, x: string, xs: seq<string>, closeOnItem: bool)
    requires WellFormed(st)
    ensures var s := Step(st, x, closeOnItem);
      Run(st, [x] + xs, closeOnItem) == (if s.Failure? then Failure(s.error) else Run(s.value, xs, closeOnItem))
  {
    assert ([x] + xs)[0] == x;
    assert ([x] + xs)[1..] == xs;
  }
}

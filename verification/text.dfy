/**
 * The few JavaScript string operations the TextGrid parser relies on:
 * `split` with a one-character separator, `trim`, `startsWith`, `includes`
 * and `replace(/"/g, "")`. Strings are sequences of Unicode characters.
 */
module Text {
  import opened Seqs

  // ---------------------------------------------------------------------------
  // split / join
  // ---------------------------------------------------------------------------

  /** Joins the parts with one separator between neighbours (the inverse of Split). */
  function Join(parts: seq<string>, sep: char): (s: string)
    requires |parts| >= 1
    ensures |s| >= |parts[0]| && s[..|parts[0]|] == parts[0]
    ensures |parts| > 1 ==> |s| > |parts[0]| && s[|parts[0]|] == sep
    decreases |parts|
  {
    if |parts| == 1 then parts[0] else parts[0] + [sep] + Join(parts[1..], sep)
  }

  /**
   * `s.split(sep)`: the maximal separator-free pieces of `s`, in order. An empty
   * string gives one empty piece, and a separator at either end gives an empty piece
   * there.
   */
  function Split(s: string, sep: char): (parts: seq<string>)
    ensures |parts| >= 1
    ensures forall k :: 0 <= k < |parts| ==> sep !in parts[k]
    ensures Join(parts, sep) == s
    ensures sep !in s <==> |parts| == 1
    decreases |s|
  {
    if s == [] then [[]]
    else
      var rest := Split(s[1..], sep);
      assert [s[0]] + s[1..] == s;
      if s[0] == sep then
        JoinEmptyFirst(rest, sep);
        [[]] + rest
      else
        JoinExtendFirst(s[0], rest, sep);
        [[s[0]] + rest[0]] + rest[1..]
  }

  /** An empty first piece contributes only its separator. */
  lemma JoinEmptyFirst(rest: seq<string>, sep: char)
    requires |rest| >= 1
    ensures Join([[]] + rest, sep) == [sep] + Join(rest, sep)
  {
    assert ([[]] + rest)[1..] == rest;
  }

  /** A character in front of the first piece ends up in front of the joined string. */
  lemma JoinExtendFirst(c: char, rest: seq<string>, sep: char)
    requires |rest| >= 1
    ensures Join([[c] + rest[0]] + rest[1..], sep) == [c] + Join(rest, sep)
  {
    var parts := [[c] + rest[0]] + rest[1..];
    assert parts[1..] == rest[1..];
    if |rest| > 1 {
      var tail := [sep] + Join(rest[1..], sep);
      AppendAssoc([c], rest[0], tail);
      AppendAssoc(rest[0], [sep], Join(rest[1..], sep));
      AppendAssoc([c] + rest[0], [sep], Join(rest[1..], sep));
    }
  }

  lemma {:induction false} SplitSeparatorFree(s: string, sep: char)
    requires sep !in s
    ensures Split(s, sep) == [s]
  {
  }

  lemma {:induction false} SplitAfterPiece(a: string, sep: char, t: string)
    requires sep !in a
    ensures Split(a + [sep] + t, sep) == [a] + Split(t, sep)
    decreases |a|
  {
    var s := a + [sep] + t;
    if a == [] {
      assert s[0] == sep && s[1..] == t;
    } else {
      var x, tail := a[0], a[1..] + [sep] + t;
      assert a == [x] + a[1..];
      AppendAssoc([x], a[1..], [sep]);
      AppendAssoc([x], a[1..] + [sep], t);
      assert s == [x] + tail;
      assert s[0] == x && s[1..] == tail;
      SplitAfterPiece(a[1..], sep, t);
      var rest := Split(tail, sep);
      assert rest[0] == a[1..] && rest[1..] == Split(t, sep);
      assert Split(s, sep) == [[x] + rest[0]] + rest[1..];
    }
  }

  /** Splitting a join of separator-free pieces gives the pieces back. */
  lemma {:induction false} SplitJoin(parts: seq<string>, sep: char)
    requires |parts| >= 1
    requires forall k :: 0 <= k < |parts| ==> sep !in parts[k]
    ensures Split(Join(parts, sep), sep) == parts
    decreases |parts|
  {
    if |parts| == 1 {
      SplitSeparatorFree(parts[0], sep);
    } else {
      SplitJoin(parts[1..], sep);
      SplitAfterPiece(parts[0], sep, Join(parts[1..], sep));
      assert [parts[0]] + parts[1..] == parts;
    }
  }

  // ---------------------------------------------------------------------------
  // trim
  // ---------------------------------------------------------------------------

  /**
   * The characters `String.prototype.trim` removes: the white space and line
   * terminators of ECMAScript (sections 12.2 and 12.3 of ECMA-262), 25 code
   * points: U+0009 to U+000D, space, U+00A0, U+1680, U+2000 to U+200A, U+2028,
   * U+2029, U+202F, U+205F, U+3000 and U+FEFF.
   */
  predicate IsSpace(c: char) {
    || ('\t' <= c <= '\r')
    || c == ' ' || c == '\U{00A0}' || c == '\U{1680}'
    || ('\U{2000}' <= c <= '\U{200A}')
    || c == '\U{2028}' || c == '\U{2029}' || c == '\U{202F}' || c == '\U{205F}'
    || c == '\U{3000}' || c == '\U{FEFF}'
  }

  /** Every character of `s` at an index in [lo, hi) is white space. */
  predicate SpaceBetween(s: string, lo: nat, hi: nat) {
    forall i :: lo <= i < hi && i < |s| ==> IsSpace(s[i])
  }

  predicate AllSpace(s: string) {
    SpaceBetween(s, 0, |s|)
  }

  /** `r` neither starts nor ends with white space. */
  predicate Tight(r: string) {
    r == [] || (!IsSpace(r[0]) && !IsSpace(r[|r| - 1]))
  }

  /** `s` is `r` with `lead` white-space characters before it and only white space after it. */
  predicate Pads(s: string, lead: nat, r: string) {
    && lead + |r| <= |s|
    && s[lead..lead + |r|] == r
    && SpaceBetween(s, 0, lead)
    && SpaceBetween(s, lead + |r|, |s|)
  }

  function TrimStart(s: string): (r: string)
    ensures |r| <= |s| && r == s[|s| - |r|..]
    ensures SpaceBetween(s, 0, |s| - |r|)
    ensures r == [] || !IsSpace(r[0])
    decreases |s|
  {
    if s != [] && IsSpace(s[0]) then TrimStart(s[1..]) else s
  }

  function TrimEnd(s: string): (r: string)
    ensures |r| <= |s| && r == s[..|r|]
    ensures SpaceBetween(s, |r|, |s|)
    ensures r == [] || !IsSpace(r[|r| - 1])
    decreases |s|
  {
    if s != [] && IsSpace(s[|s| - 1]) then TrimEnd(s[..|s| - 1]) else s
  }

  /** `s.trim()`: the white-space-free core of `s`, with the white space around it dropped. */
  function Trim(s: string): (r: string)
    ensures Tight(r)
    ensures Pads(s, |s| - |TrimStart(s)|, r)
  {
    TrimStartThenEnd(s);
    TrimEnd(TrimStart(s))
  }

  lemma TrimStartThenEnd(s: string)
    ensures Tight(TrimEnd(TrimStart(s)))
    ensures Pads(s, |s| - |TrimStart(s)|, TrimEnd(TrimStart(s)))
  {
    var t := TrimStart(s);
    StripBothEnds(s, |s| - |t|, t, TrimEnd(t));
  }

  /** Stripping white space from the front, then from the back, leaves a tight core. */
  lemma StripBothEnds(s: string, lead: nat, t: string, r: string)
    requires lead + |t| == |s| && t == s[lead..] && SpaceBetween(s, 0, lead)
    requires t == [] || !IsSpace(t[0])
    requires |r| <= |t| && r == t[..|r|] && SpaceBetween(t, |r|, |t|)
    requires r == [] || !IsSpace(r[|r| - 1])
    ensures Tight(r) && Pads(s, lead, r)
  {
    assert s[lead..lead + |r|] == r;
    forall i | lead + |r| <= i < |s| ensures IsSpace(s[i]) {
      assert s[i] == t[i - lead];
    }
    if r != [] {
      assert r[0] == t[0];
    }
  }

  /** A core obtained by stripping white space from both ends is the one Trim finds. */
  lemma TrimUnique(s: string, lead: nat, r: string)
    requires Pads(s, lead, r) && Tight(r)
    ensures Trim(s) == r
  {
    var v, w := s[..lead], s[lead + |r|..];
    assert s[lead..] == r + w;
    assert s == v + (r + w);
    assert AllSpace(v) && AllSpace(w);
    if r == [] {
      TrimStartOfPadded(v, w);
      TrimAllSpace(w);
    } else {
      TrimStartOfPadded(v, r + w);
      assert (r + w)[0] == r[0];
      TrimEndOfPadded(r, w);
    }
  }

  lemma {:induction false} TrimAllSpace(s: string)
    requires AllSpace(s)
    ensures TrimStart(s) == [] && Trim(s) == []
    decreases |s|
  {
    if s != [] {
      TrimAllSpace(s[1..]);
      assert TrimStart(s) == TrimStart(s[1..]);
    }
  }

  lemma {:induction false} TrimStartOfPadded(w: string, x: string)
    requires AllSpace(w)
    ensures TrimStart(w + x) == TrimStart(x)
    decreases |w|
  {
    if w != [] {
      assert (w + x)[1..] == w[1..] + x;
      TrimStartOfPadded(w[1..], x);
    } else {
      assert w + x == x;
    }
  }

  lemma {:induction false} TrimEndOfPadded(r: string, w: string)
    requires Tight(r) && r != [] && AllSpace(w)
    ensures TrimEnd(r + w) == r
    decreases |w|
  {
    if w != [] {
      var rw := r + w;
      assert rw[..|rw| - 1] == r + w[..|w| - 1];
      TrimEndOfPadded(r, w[..|w| - 1]);
    } else {
      assert r + w == r;
    }
  }

  /** Trimming twice changes nothing further. */
  lemma TrimIdempotent(s: string)
    ensures Trim(Trim(s)) == Trim(s)
  {
    var r := Trim(s);
    assert Pads(r, 0, r) by {
      assert r[0..|r|] == r;
      assert r[..0] == [];
      assert r[|r|..] == [];
    }
    TrimUnique(r, 0, r);
  }

  // ---------------------------------------------------------------------------
  // startsWith / includes / removing quotes
  // ---------------------------------------------------------------------------

  /** `s.startsWith(p)`: `p` is a prefix of `s`. */
  predicate StartsWith(s: string, p: string) {
    p <= s
  }

  /** `t` occurs in `s` starting at index `i`. */
  predicate OccursAt(s: string, t: string, i: nat) {
    i + |t| <= |s| && s[i..i + |t|] == t
  }

  /** `s.includes(t)`: some position of `s` starts an occurrence of `t`. */
  function Contains(s: string, t: string): (r: bool)
    ensures r <==> exists i: nat :: OccursAt(s, t, i)
    decreases |s|
  {
    if StartsWith(s, t) then
      assert OccursAt(s, t, 0);
      true
    else if s == [] then
      false
    else
      var r := Contains(s[1..], t);
      OccursShift(s, t);
      r
  }

  lemma OccursShift(s: string, t: string)
    requires s != [] && !StartsWith(s, t)
    ensures (exists i: nat :: OccursAt(s, t, i)) <==> (exists i: nat :: OccursAt(s[1..], t, i))
  {
    if i: nat :| OccursAt(s, t, i) {
      assert i != 0 by { assert s[..|t|] == s[0..|t|]; }
      assert s[1..][i - 1..i - 1 + |t|] == s[i..i + |t|];
      assert OccursAt(s[1..], t, i - 1);
    }
    if i: nat :| OccursAt(s[1..], t, i) {
      assert s[1..][i..i + |t|] == s[i + 1..i + 1 + |t|];
      assert OccursAt(s, t, i + 1);
    }
  }

  /** `s.replace(/"/g, "")`: every double quote removed, everything else kept. */
  function Unquote(s: string): (r: string)
    ensures '"' !in r
    ensures '"' !in s ==> r == s
    decreases |s|
  {
    if s == [] then []
    else
      assert s == [s[0]] + s[1..];
      (if s[0] == '"' then [] else [s[0]]) + Unquote(s[1..])
  }

  /** Every character other than a double quote occurs as often after removing the quotes as before. */
  lemma {:induction false} UnquoteKeepsOthers(s: string)
    ensures forall c :: c != '"' ==> multiset(Unquote(s))[c] == multiset(s)[c]
    decreases |s|
  {
    if s != [] {
      UnquoteKeepsOthers(s[1..]);
      assert s == [s[0]] + s[1..];
    }
  }

  lemma UnquoteCons(x: char, s: string)
    ensures Unquote([x] + s) == (if x == '"' then [] else [x]) + Unquote(s)
  {
    assert ([x] + s)[0] == x && ([x] + s)[1..] == s;
  }

  /** Removing quotes works piecewise, so the characters kept stay in their order. */
  lemma {:induction false} UnquoteConcat(a: string, b: string)
    ensures Unquote(a + b) == Unquote(a) + Unquote(b)
    decreases |a|
  {
    if a == [] {
      assert a + b == b;
    } else {
      var x, t := a[0], a[1..];
      assert a == [x] + t;
      assert a + b == [x] + (t + b);
      var head := if x == '"' then [] else [x];
      UnquoteCons(x, t + b);
      UnquoteCons(x, t);
      UnquoteConcat(t, b);
      AppendAssoc(head, Unquote(t), Unquote(b));
    }
  }
}

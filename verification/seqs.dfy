/** Small sequence helpers shared by the frame decoders and the render steps. */
module Seqs {

  function Min(a: nat, b: nat): (m: nat)
    ensures m <= a && m <= b && (m == a || m == b)
  {
    if a <= b then a else b
  }

  /**
   * `q.slice(s)` for a start `s` at or above zero: the queue without its
   * first `s` elements, empty when it has no more than `s`.
   */
  function Drop<T>(q: seq<T>, s: nat): (r: seq<T>)
    ensures |r| == |q| - Min(s, |q|)
    ensures q[..Min(s, |q|)] + r == q
  {
    if s >= |q| then [] else q[s..]
  }

  /** Prepending the same elements keeps two splits of a sequence equal. */
  lemma PrependBoth<T>(w: seq<T>, x: seq<T>, q: seq<T>, y: seq<T>, a: seq<T>)
    requires x + q == y + a
    ensures w + x + q == (w + y) + a
  {
    assert w + x + q == w + (x + q);
    assert (w + y) + a == w + (y + a);
  }

  lemma AppendAssoc<T>(a: seq<T>, b: seq<T>, c: seq<T>)
    ensures a + (b + c) == (a + b) + c
  {
  }

  /**
   * Two conservation steps chain: if `w + m == p + r` and `x + q == m + a`, then
   * what leaves over both (`w + x`, then `q`) is what came in over both.
   */
  lemma ChainConserved<T>(w: seq<T>, x: seq<T>, q: seq<T>, m: seq<T>, p: seq<T>, r: seq<T>, a: seq<T>)
    requires w + m == p + r
    requires x + q == m + a
    ensures (w + x) + q == p + (r + a)
  {
    PrependBoth(w, x, q, m, a);
    AppendAssoc(p, r, a);
  }
}

/** `Scrollable<T>` of `src/scrollable.rs`: a list that skips the first
    `offset` pushed items and then keeps at most `max_len` of them, so the
    user interface builds only the rows it shows. */
module ScrollWindow {

  datatype Scrollable<T> = Scrollable(offset: nat, maxLen: nat, items: seq<T>)

  /** `Scrollable::new` */
  function New<T>(offset: nat, maxLen: nat): (s: Scrollable<T>)
    ensures s.items == [] && s.offset == offset && s.maxLen == maxLen
  {
    Scrollable(offset, maxLen, [])
  }

  /** The next push keeps its item. */
  predicate Keeps<T>(s: Scrollable<T>) {
    s.offset == 0 && s.maxLen > 0
  }

  /** `Scrollable::push`: while items are still to be skipped the push only
      counts one off; otherwise, while room is left, it keeps the produced
      item; otherwise it does nothing. */
  function Push<T>(s: Scrollable<T>, produce: () -> T): (r: Scrollable<T>)
    ensures |r.items| + r.maxLen == |s.items| + s.maxLen
    ensures |s.items| <= |r.items| && r.items[..|s.items|] == s.items
    ensures Keeps(s) <==> |r.items| == |s.items| + 1
    ensures Keeps(s) ==> r.items[|s.items|] == produce()
    ensures s.offset > 0 ==> r.offset == s.offset - 1
  {
    if s.offset != 0 then s.(offset := s.offset - 1)
    else if s.maxLen == 0 then s
    else s.(maxLen := s.maxLen - 1, items := s.items + [produce()])
  }

  /** The producer is called only for pushes that are kept: a push that is not
      kept does not depend on it. */
  lemma PushIgnoresProducer<T>(s: Scrollable<T>, p: () -> T, q: () -> T)
    requires !Keeps(s)
    ensures Push(s, p) == Push(s, q)
  {
  }

  /** `Scrollable::get` */
  function Get<T>(s: Scrollable<T>): seq<T> {
    s.items
  }

  /** Pushing each of `xs` in order. */
  function PushAll<T>(s: Scrollable<T>, xs: seq<T>): Scrollable<T> {
    if xs == [] then s else Push(PushAll(s, xs[..|xs| - 1]), () => xs[|xs| - 1])
  }

  function Min(a: int, b: int): int {
    if a <= b then a else b
  }

  /** After pushing `xs`, `s` holds items `offset + 1` through
      `offset + maxLen` of `xs` (as far as there are any), in push order, and
      the room left and the items still to skip are counted down accordingly. */
  ghost predicate Window<T>(s: Scrollable<T>, offset: nat, maxLen: nat, xs: seq<T>) {
    var lo := Min(offset, |xs|);
    var hi := Min(|xs|, offset + maxLen);
    && s.items == xs[lo..hi]
    && s.offset == offset - lo
    && s.maxLen == maxLen - (hi - lo)
  }

  /** One more push moves the window on by one item. */
  lemma WindowStep<T>(s: Scrollable<T>, offset: nat, maxLen: nat, xs: seq<T>, p: () -> T)
    requires Window(s, offset, maxLen, xs)
    ensures Window(Push(s, p), offset, maxLen, xs + [p()])
  {
    var ys := xs + [p()];
    var n := |xs|;
    assert ys[..n] == xs;
    if offset <= n < offset + maxLen {
      assert ys[offset..n] == xs[offset..n];
      assert ys[n] == p();
      assert ys[offset..n + 1] == xs[offset..n] + [p()];
    } else if offset + maxLen <= n {
      assert ys[offset..offset + maxLen] == xs[offset..offset + maxLen];
    }
  }

  /** After pushing `xs` into `New(offset, maxLen)`, the list holds items
      `offset + 1` through `offset + maxLen` of `xs` (as far as there are any),
      in push order, and the room left and the items still to skip are
      counted down accordingly. */
  lemma {:induction false} PushAllWindow<T>(offset: nat, maxLen: nat, xs: seq<T>)
    ensures Window(PushAll(New(offset, maxLen), xs), offset, maxLen, xs)
  {
    if xs != [] {
      var front := xs[..|xs| - 1];
      PushAllWindow(offset, maxLen, front);
      WindowStep(PushAll(New(offset, maxLen), front), offset, maxLen, front, () => xs[|xs| - 1]);
      assert front + [xs[|xs| - 1]] == xs;
    }
  }

  /** Never more items than the room given at construction. */
  lemma KeepsAtMostMaxLen<T>(offset: nat, maxLen: nat, xs: seq<T>)
    ensures |Get(PushAll(New(offset, maxLen), xs))| <= maxLen
  {
    PushAllWindow(offset, maxLen, xs);
  }
}

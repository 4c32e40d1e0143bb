/** Client scenarios: sequences of calls on one FastDequeue and what they
    return, proved from the methods' contracts and the lemmas of DequeModel. */
module Laws {
  import opened Slots
  import opened DequeModel
  import opened Deque

  /** Every insertion, at either end and whether or not it resizes, adds one
      to the size: after `|items|` insertions (alternating ends) `size()` is
      `|items|`, and `isEmpty()` holds exactly when there were none. */
  method InsertionsCount<E>(items: seq<E>) returns (n: int, empty: bool)
    ensures n == |items| && (empty <==> |items| == 0)
  {
    var d := new FastDequeue<E>();
    var i := 0;
    while i < |items|
      invariant 0 <= i <= |items|
      invariant fresh(d) && fresh(d.elements)
      invariant d.Valid() && d.size == i
    {
      ghost var m := d.Model();
      if i % 2 == 0 {
        d.Enqueue(items[i]);
        EnqueueKeepsInv(m, items[i]);
      } else {
        d.EnqueueBack(items[i]);
        EnqueueBackKeepsInv(m, items[i]);
      }
      i := i + 1;
    }
    n := d.Size();
    empty := d.IsEmpty();
  }

  /** Fills a fresh deque with up to 8 items through `Enqueue`; no resize
      happens, so the deque invariant holds and the contents are the items. */
  method Filled<E>(items: seq<E>) returns (d: FastDequeue<E>)
    requires |items| <= 8
    ensures fresh(d) && fresh(d.elements) && d.Valid()
    ensures Steady(d.Model()) && Contents(d.Model()) == items
    ensures d.capacity == 8 && d.left == 0
  {
    d := new FastDequeue<E>();
    InitialIsEmpty<E>();
    var i := 0;
    while i < |items|
      invariant 0 <= i <= |items|
      invariant fresh(d) && fresh(d.elements) && d.Valid()
      invariant Steady(d.Model()) && Contents(d.Model()) == items[..i]
      invariant d.capacity == 8 && d.left == 0
    {
      ghost var m := d.Model();
      d.Enqueue(items[i]);
      PushStep(m, items, i);
      i := i + 1;
    }
  }

  /** One step of `Filled`. */
  lemma PushStep<E>(st: State<E>, items: seq<E>, i: int)
    requires 0 <= i < |items| <= 8
    requires Steady(st) && Contents(st) == items[..i] && st.capacity == 8 && st.left == 0
    ensures Steady(Enqueued(st, items[i])) && Contents(Enqueued(st, items[i])) == items[..i + 1]
    ensures Enqueued(st, items[i]).capacity == 8 && Enqueued(st, items[i]).left == 0
  {
    EnqueueAppends(st, items[i]);
    assert items[..i + 1] == items[..i] + [items[i]];
  }

  /** One step of `FirstInFirstOut`. */
  lemma PopFrontStep<E>(st: State<E>, items: seq<E>, k: int)
    requires 0 <= k < |items|
    requires Steady(st) && Contents(st) == items[k..]
    ensures Steady(Dequeued(st)) && DequeueResult(st) == Some(items[k])
    ensures Contents(Dequeued(st)) == items[k + 1..]
  {
    DequeueRemovesFront(st);
    assert items[k..][1..] == items[k + 1..];
  }

  /** One step of `LastInFirstOut`. */
  lemma PopBackStep<E>(st: State<E>, items: seq<E>, k: int)
    requires 0 <= k < |items|
    requires Steady(st) && Contents(st) == items[..|items| - k]
    ensures Steady(DequeuedBack(st)) && DequeueBackResult(st) == Some(items[|items| - 1 - k])
    ensures Contents(DequeuedBack(st)) == items[..|items| - (k + 1)]
    ensures Reverse(items)[..k + 1] == Reverse(items)[..k] + [items[|items| - 1 - k]]
  {
    DequeueBackRemovesBack(st);
    assert items[..|items| - k][..|items| - k - 1] == items[..|items| - (k + 1)];
  }

  /** First in, first out: up to 8 items enqueued at the `right` end come
      back from `dequeue` in the same order, and one more `dequeue` fails. */
  method FirstInFirstOut<E>(items: seq<E>) returns (outs: seq<E>, last: Option<E>)
    requires |items| <= 8
    ensures outs == items && last == None
  {
    var d := Filled(items);
    outs := [];
    var k := 0;
    while k < |items|
      invariant 0 <= k <= |items|
      invariant fresh(d.elements) && d.Valid()
      invariant Steady(d.Model()) && Contents(d.Model()) == items[k..]
      invariant outs == items[..k]
    {
      ghost var m := d.Model();
      var r := d.Dequeue();
      PopFrontStep(m, items, k);
      outs := outs + [r.value];
      assert items[..k + 1] == items[..k] + [items[k]];
      k := k + 1;
    }
    ghost var m := d.Model();
    last := d.Dequeue();
    DequeueFailsIffEmpty(m);
  }

  /** Last in, first out at the `right` end: up to 8 items enqueued come back
      from `dequeueBack` in reverse order, and one more `dequeueBack` fails. */
  method LastInFirstOut<E>(items: seq<E>) returns (outs: seq<E>, last: Option<E>)
    requires |items| <= 8
    ensures outs == Reverse(items) && last == None
  {
    var d := Filled(items);
    outs := [];
    var k := 0;
    while k < |items|
      invariant 0 <= k <= |items|
      invariant fresh(d.elements) && d.Valid()
      invariant Steady(d.Model()) && Contents(d.Model()) == items[..|items| - k]
      invariant outs == Reverse(items)[..k]
    {
      ghost var m := d.Model();
      var r := d.DequeueBack();
      PopBackStep(m, items, k);
      outs := outs + [r.value];
      k := k + 1;
    }
    assert Reverse(items)[..|items|] == Reverse(items);
    ghost var m := d.Model();
    last := d.DequeueBack();
    DequeueBackFailsIffEmpty(m);
  }

  /** One step of `FilledFromLeft`. */
  lemma PushFrontStep<E>(st: State<E>, items: seq<E>, i: int)
    requires 0 <= i < |items| <= 8
    requires Steady(st) && Contents(st) == Reverse(items[..i]) && st.capacity == 8
    ensures Steady(EnqueuedBack(st, items[i]))
    ensures Contents(EnqueuedBack(st, items[i])) == Reverse(items[..i + 1])
    ensures EnqueuedBack(st, items[i]).capacity == 8
  {
    EnqueueBackPrepends(st, items[i]);
    assert items[..i + 1] == items[..i] + [items[i]];
    ReverseAppend(items[..i], items[i]);
  }

  /** Fills a fresh deque with up to 8 items through `EnqueueBack`; no resize
      happens, so the contents from the `left` end are the items reversed. */
  method FilledFromLeft<E>(items: seq<E>) returns (d: FastDequeue<E>)
    requires |items| <= 8
    ensures fresh(d) && fresh(d.elements) && d.Valid()
    ensures Steady(d.Model()) && Contents(d.Model()) == Reverse(items)
  {
    d := new FastDequeue<E>();
    InitialIsEmpty<E>();
    var i := 0;
    while i < |items|
      invariant 0 <= i <= |items|
      invariant fresh(d) && fresh(d.elements) && d.Valid()
      invariant Steady(d.Model()) && Contents(d.Model()) == Reverse(items[..i])
      invariant d.capacity == 8
    {
      ghost var m := d.Model();
      d.EnqueueBack(items[i]);
      PushFrontStep(m, items, i);
      i := i + 1;
    }
    assert items[..|items|] == items;
  }

  /** One step of `FirstInFirstOutLeftToRight`. */
  lemma PopBackStepReversed<E>(st: State<E>, items: seq<E>, k: int)
    requires 0 <= k < |items|
    requires Steady(st) && Contents(st) == Reverse(items[k..])
    ensures Steady(DequeuedBack(st)) && DequeueBackResult(st) == Some(items[k])
    ensures Contents(DequeuedBack(st)) == Reverse(items[k + 1..])
  {
    DequeueBackRemovesBack(st);
    var s := items[k..];
    assert Reverse(s)[|s| - 1] == s[0];
    assert Reverse(s)[..|s| - 1] == Reverse(s[1..]);
    assert s[1..] == items[k + 1..];
  }

  /** First in, first out from the `left` end: up to 8 items inserted with
      `enqueueBack` come back from `dequeueBack` in the same order, and one
      more `dequeueBack` fails. */
  method FirstInFirstOutLeftToRight<E>(items: seq<E>) returns (outs: seq<E>, last: Option<E>)
    requires |items| <= 8
    ensures outs == items && last == None
  {
    var d := FilledFromLeft(items);
    outs := [];
    var k := 0;
    while k < |items|
      invariant 0 <= k <= |items|
      invariant fresh(d.elements) && d.Valid()
      invariant Steady(d.Model()) && Contents(d.Model()) == Reverse(items[k..])
      invariant outs == items[..k]
    {
      ghost var m := d.Model();
      var r := d.DequeueBack();
      PopBackStepReversed(m, items, k);
      outs := outs + [r.value];
      assert items[..k + 1] == items[..k] + [items[k]];
      k := k + 1;
    }
    ghost var m := d.Model();
    last := d.DequeueBack();
    DequeueBackFailsIffEmpty(m);
  }

  /** The states of `Arranged`, one per call. */
  lemma ArrangedStates<E>(m0: State<E>, m1: State<E>, m2: State<E>, m3: State<E>, a: E, b: E, c: E)
    requires m0 == Initial()
    requires Inv(m0) && m1 == EnqueuedBack(m0, b)
    requires Inv(m1) && m2 == Enqueued(m1, c)
    requires Inv(m2) && m3 == EnqueuedBack(m2, a)
    ensures Steady(m3) && Contents(m3) == [a, b, c]
  {
    InitialIsEmpty<E>();
    EnqueueBackPrepends(m0, b);
    EnqueueAppends(m1, c);
    EnqueueBackPrepends(m2, a);
  }

  /** A fresh deque after `enqueueBack(b)`, `enqueue(c)` and
      `enqueueBack(a)`: the order from the `left` end is a, b, c. */
  method Arranged<E>(a: E, b: E, c: E) returns (d: FastDequeue<E>)
    ensures fresh(d) && fresh(d.elements) && d.Valid()
    ensures Steady(d.Model()) && Contents(d.Model()) == [a, b, c]
  {
    d := new FastDequeue<E>();
    ghost var m0 := d.Model();
    d.EnqueueBack(b);
    ghost var m1 := d.Model();
    d.Enqueue(c);
    ghost var m2 := d.Model();
    d.EnqueueBack(a);
    ArrangedStates(m0, m1, m2, d.Model(), a, b, c);
  }

  /** Both ends together: from a, b, c, `dequeue` gives a, `dequeueBack`
      gives c, `dequeue` gives b, and then removal at either end fails. */
  method BothEnds<E>(a: E, b: E, c: E) returns (x: Option<E>, y: Option<E>, z: Option<E>, u: Option<E>, v: Option<E>)
    ensures x == Some(a) && y == Some(c) && z == Some(b) && u == None && v == None
  {
    var d := Arranged(a, b, c);
    ghost var m := d.Model();
    x := d.Dequeue();
    DequeueRemovesFront(m);
    m := d.Model();
    assert Contents(m) == [b, c];
    y := d.DequeueBack();
    DequeueBackRemovesBack(m);
    m := d.Model();
    assert Contents(m) == [b];
    z := d.Dequeue();
    DequeueRemovesFront(m);
    m := d.Model();
    u := d.Dequeue();
    DequeueFailsIffEmpty(m);
    DequeueKeepsSteady(m);
    m := d.Model();
    v := d.DequeueBack();
    DequeueBackFailsIffEmpty(m);
  }

  /** Removal from a fresh deque fails at both ends, and keeps failing: a
      failed removal changes nothing. */
  method FreshRemovalsFail<E>() returns (x: Option<E>, y: Option<E>, z: Option<E>, n: int)
    ensures x == None && y == None && z == None && n == 0
  {
    var d := new FastDequeue<E>();
    InitialIsEmpty<E>();
    x := d.Dequeue();
    y := d.DequeueBack();
    z := d.Dequeue();
    n := d.Size();
  }

  /** The state after the ninth `enqueue` into a fresh deque and `k` of the
      following removals at the `left` end: 16 slots, `left` at `8 + k`, the
      ninth item in the last slot, the eighth item down to the second in
      slots `8 + k` to 14, and the lower half empty. */
  ghost predicate Draining<E>(st: State<E>, items: seq<E>, k: int)
  {
    |items| == 9 && 0 <= k <= 7 && Inv(st) &&
    st.capacity == 16 && st.left == 8 + k && st.size == 9 - k &&
    st.slots[15] == Some(items[8]) &&
    (forall j :: 8 + k <= j < 15 ==> st.slots[j] == Some(items[15 - j])) &&
    (forall j :: 0 <= j < 8 ==> st.slots[j] == None)
  }

  /** The ninth `enqueue` into a fresh deque resizes from 8 to 16 slots: the
      last slot's copy of the first item is overwritten by the ninth item,
      the other first eight items sit in reverse order below it, and the
      lower half is empty. */
  lemma NinthEnqueue<E>(st: State<E>, items: seq<E>)
    requires |items| == 9
    requires Steady(st) && st.capacity == 8 && st.size == 8 && st.left == 0
    requires Contents(st) == items[..8]
    ensures Draining(Enqueued(st, items[8]), items, 0)
  {
    var t := Enqueued(st, items[8]);
    EnqueueKeepsInv(st, items[8]);
    EnqueueIntoFull(st, items[8]);
    ResizeDoubles(st);
    assert t.slots == Relocation(st.slots, 0)[15 := Some(items[8])];
    forall j | 8 <= j < 15
      ensures t.slots[j] == Some(items[15 - j])
    {
      assert Relocation(st.slots, 0)[j] == st.slots[Ring(0 + (15 - j), 8)];
      assert st.slots[Ring(0 + (15 - j), 8)] == Some(Contents(st)[15 - j]);
    }
  }

  /** The eighth item down to the second (indices 7 down to 1). */
  function Descending<E>(items: seq<E>): (r: seq<Option<E>>)
    requires |items| == 9
  {
    seq(7, k requires 0 <= k < 7 => Some(items[7 - k]))
  }

  /** One of the first seven removals after the ninth `enqueue` returns the
      item at offset `7 - k`. */
  lemma DrainStep<E>(st: State<E>, items: seq<E>, k: int)
    requires Draining(st, items, k) && k < 7
    ensures DequeueResult(st) == Some(items[7 - k]) && Draining(Dequeued(st), items, k + 1)
    ensures Descending(items)[..k + 1] == Descending(items)[..k] + [Some(items[7 - k])]
  {
    DequeueKeepsInv(st);
  }

  /** The eighth removal returns the ninth item and leaves `left` at the
      empty slot 0, so the ninth removal fails with `size` at 1. */
  lemma DrainEnd<E>(st: State<E>, items: seq<E>)
    requires Draining(st, items, 7)
    ensures DequeueResult(st) == Some(items[8]) && Inv(Dequeued(st))
    ensures DequeueResult(Dequeued(st)) == None && Dequeued(Dequeued(st)).size == 1
  {
    DequeueKeepsInv(st);
  }

  /** What the code does with nine items enqueued into a fresh deque and then
      removed with `dequeue`: the resize reversed the first eight and the
      ninth overwrote the first, so the removals return the eighth item down
      to the second, then the ninth, and then fail while `size()` is still 1
      and `isEmpty()` is false. */
  method NineThroughResize<E>(items: seq<E>) returns (outs: seq<Option<E>>, n: int, empty: bool)
    requires |items| == 9
    ensures |outs| == 9
    ensures forall k :: 0 <= k < 7 ==> outs[k] == Some(items[7 - k])
    ensures outs[7] == Some(items[8]) && outs[8] == None
    ensures n == 1 && !empty
  {
    var d := Filled(items[..8]);
    ghost var m := d.Model();
    d.Enqueue(items[8]);
    NinthEnqueue(m, items);
    outs := [];
    var k := 0;
    while k < 7
      invariant 0 <= k <= 7
      invariant fresh(d.elements) && d.Valid() && Draining(d.Model(), items, k)
      invariant outs == Descending(items)[..k]
    {
      m := d.Model();
      var r := d.Dequeue();
      DrainStep(m, items, k);
      outs := outs + [r];
      k := k + 1;
    }
    assert outs == Descending(items);
    m := d.Model();
    var r := d.Dequeue();
    outs := outs + [r];
    r := d.Dequeue();
    outs := outs + [r];
    DrainEnd(m, items);
    n := d.Size();
    empty := d.IsEmpty();
  }
}

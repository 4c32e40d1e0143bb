/** The five fields of a FastDequeue as one value, and each of its operations
    as a function on that value that takes the same branches as the code.  The
    class in module Deque is proved to move between exactly these states; the
    deque laws and the effects of a resize are proved here, on values. */
module DequeModel {
  import opened Slots

  /** The capacities the deque can have: 8, doubled any number of times. */
  predicate IsGrown(c: int)
    decreases if c < 0 then 0 else c
  {
    c == 8 || (c > 8 && c % 2 == 0 && IsGrown(c / 2))
  }

  function Pow2(k: nat): nat
  {
    if k == 0 then 1 else 2 * Pow2(k - 1)
  }

  /** Every reachable capacity is 8 times a power of two. */
  lemma {:induction false} GrownIsEightTimesPowerOfTwo(c: int)
    requires IsGrown(c)
    ensures exists k: nat :: c == 8 * Pow2(k)
    decreases if c < 0 then 0 else c
  {
    if c == 8 {
      assert c == 8 * Pow2(0);
    } else {
      GrownIsEightTimesPowerOfTwo(c / 2);
      var k: nat :| c / 2 == 8 * Pow2(k);
      assert c == 8 * Pow2(k + 1);
    }
  }

  /** The fields `capacity`, `elements` (as the sequence of its slots),
      `left`, `right` and `size`. */
  datatype State<E> = State(capacity: int, slots: seq<Option<E>>, left: int, right: int, size: int)

  /** What every operation keeps, whether or not a resize happened: the array
      has `capacity` slots, the capacity is a doubled 8, both cursors are in
      range, `size` is between 0 and `capacity`, and no more slots are
      occupied than `size` counts. */
  predicate Inv<E>(st: State<E>)
  {
    |st.slots| == st.capacity && IsGrown(st.capacity) &&
    0 <= st.left < st.capacity && 0 <= st.right < st.capacity &&
    0 <= st.size <= st.capacity &&
    Occupied(st.slots) <= st.size
  }

  /** The deque invariant: the occupied slots are exactly the circular run of
      `size` slots starting at `left`, and `right` is the last slot of that
      run (the slot before `left` when the run is empty). */
  ghost predicate Steady<E>(st: State<E>)
  {
    Inv(st) &&
    st.right == Ring(st.left + st.size - 1, st.capacity) &&
    RunShape(st.slots, st.left, st.size)
  }

  /** The elements from the `left` end to the `right` end. */
  ghost function Contents<E>(st: State<E>): seq<E>
    requires Steady(st)
  {
    RunValues(st.slots, st.left, st.size)
  }

  /** The state the constructor builds. */
  function Initial<E>(): State<E>
  {
    State(8, seq(8, _ => None), 0, 8 - 1, 0)
  }

  /** The state `resize` leaves: twice the capacity, the old slots relocated
      to the upper half, `left` at `newCapacity - size` and `right` at
      floorMod(newLeft + size - 1, newCapacity). */
  function Resized<E>(st: State<E>): State<E>
    requires Inv(st) && st.size == st.capacity
  {
    var newCapacity := 2 * st.capacity;
    var newLeft := newCapacity - st.size;
    State(newCapacity, Relocation(st.slots, st.left), newLeft,
          (newLeft + st.size - 1) % newCapacity, st.size)
  }

  /** The state in which `enqueue` writes its item: after a resize when the
      array is full, otherwise with `right` one slot forward, wrapping to 0. */
  function BeforeEnqueue<E>(st: State<E>): State<E>
    requires Inv(st)
  {
    if st.size == st.capacity then Resized(st)
    else if st.right == st.capacity - 1 then st.(right := 0)
    else st.(right := st.right + 1)
  }

  /** The state `enqueue(x)` leaves: `x` written at `right`, `size` one more. */
  function Enqueued<E>(st: State<E>, x: E): State<E>
    requires Inv(st)
  {
    var m := BeforeEnqueue(st);
    m.(slots := m.slots[m.right := Some(x)], size := m.size + 1)
  }

  /** The state in which `enqueueBack` writes its item: after a resize when
      the array is full, otherwise with `left` one slot back, wrapping to the
      last slot through floorMod. */
  function BeforeEnqueueBack<E>(st: State<E>): State<E>
    requires Inv(st)
  {
    if st.size == st.capacity then Resized(st)
    else if st.left == 0 then st.(left := (st.left - 1) % st.capacity)
    else st.(left := st.left - 1)
  }

  /** The state `enqueueBack(x)` leaves: `x` written at `left`, `size` one
      more. */
  function EnqueuedBack<E>(st: State<E>, x: E): State<E>
    requires Inv(st)
  {
    var m := BeforeEnqueueBack(st);
    m.(slots := m.slots[m.left := Some(x)], size := m.size + 1)
  }

  /** What `dequeue` reads: the slot at `left`; `None` is the
      EmptyPCollectionException. */
  function DequeueResult<E>(st: State<E>): Option<E>
    requires Inv(st)
  {
    st.slots[st.left]
  }

  /** The state `dequeue` leaves: unchanged when the slot at `left` is empty;
      otherwise that slot cleared, `left` one slot forward, `size` one less. */
  function Dequeued<E>(st: State<E>): State<E>
    requires Inv(st)
  {
    if st.slots[st.left].Some? then
      st.(slots := st.slots[st.left := None],
          left := (st.left + 1) % st.capacity, size := st.size - 1)
    else st
  }

  /** What `dequeueBack` reads: the slot at `right`. */
  function DequeueBackResult<E>(st: State<E>): Option<E>
    requires Inv(st)
  {
    st.slots[st.right]
  }

  /** The state `dequeueBack` leaves: unchanged when the slot at `right` is
      empty; otherwise that slot cleared, `right` one slot back, `size` one
      less. */
  function DequeuedBack<E>(st: State<E>): State<E>
    requires Inv(st)
  {
    if st.slots[st.right].Some? then
      st.(slots := st.slots[st.right := None],
          right := (st.right - 1) % st.capacity, size := st.size - 1)
    else st
  }

  // ---------------------------------------------------------------------
  // The fresh deque

  /** A fresh deque has capacity 8, every slot empty, `left` 0, `right` 7 and
      size 0; it holds the deque invariant with no contents, and removing at
      either end fails and changes nothing. */
  lemma InitialIsEmpty<E>()
    ensures Initial<E>().capacity == 8 && Initial<E>().size == 0
    ensures Initial<E>().left == 0 && Initial<E>().right == 7
    ensures forall j :: 0 <= j < 8 ==> Initial<E>().slots[j] == None
    ensures Steady(Initial<E>()) && Contents(Initial<E>()) == []
    ensures DequeueResult(Initial<E>()) == None && Dequeued(Initial<E>()) == Initial()
    ensures DequeueBackResult(Initial<E>()) == None && DequeuedBack(Initial<E>()) == Initial()
  {
    OccupiedPrefix(Initial<E>().slots, 0);
  }

  /** In the deque invariant the slots say how many elements there are. */
  lemma SteadyCountsSize<E>(st: State<E>)
    requires Steady(st)
    ensures Occupied(st.slots) == st.size
  {
    RunOccupied(st.slots, st.left, st.size);
  }

  // ---------------------------------------------------------------------
  // Resize

  /** `resize` doubles the capacity and keeps `size` and the number of
      occupied slots; it leaves `left == newCapacity - size` and `right` at
      the last slot; the lower half is empty and the upper half holds the old
      run from `left` onwards in reversed order. */
  lemma ResizeDoubles<E>(st: State<E>)
    requires Inv(st) && st.size == st.capacity
    ensures Inv(Resized(st))
    ensures Resized(st).capacity == 2 * st.capacity && Resized(st).size == st.size
    ensures Resized(st).left == Resized(st).capacity - st.size
    ensures Resized(st).right == Resized(st).capacity - 1
    ensures Occupied(Resized(st).slots) == Occupied(st.slots)
    ensures forall j :: 0 <= j < st.capacity ==> Resized(st).slots[j] == None
    ensures Reverse(Resized(st).slots[st.capacity..]) == st.slots[st.left..] + st.slots[..st.left]
  {
    var n, r := st.capacity, Resized(st);
    assert r.slots == Relocation(st.slots, st.left) && |r.slots| == 2 * n;
    assert IsGrown(2 * n) by {
      assert (2 * n) / 2 == n;
    }
    RingIsFloorMod(2 * n - 1, 2 * n);
    RelocationKeepsOccupied(st.slots, st.left);
    RelocationReversesRun(st.slots, st.left);
  }

  // ---------------------------------------------------------------------
  // The invariant every operation keeps

  /** Every `enqueue` adds exactly one to `size`; the capacity doubles when the
      array was full and stays otherwise; the invariant is kept. */
  lemma EnqueueKeepsInv<E>(st: State<E>, x: E)
    requires Inv(st)
    ensures Inv(Enqueued(st, x)) && Enqueued(st, x).size == st.size + 1
    ensures Enqueued(st, x).capacity == if st.size == st.capacity then 2 * st.capacity else st.capacity
  {
    var m := BeforeEnqueue(st);
    if st.size == st.capacity {
      ResizeDoubles(st);
    }
    OccupiedUpdate(m.slots, m.right, Some(x));
  }

  /** Every `enqueueBack` adds exactly one to `size`; the capacity doubles when
      the array was full and stays otherwise; the invariant is kept. */
  lemma EnqueueBackKeepsInv<E>(st: State<E>, x: E)
    requires Inv(st)
    ensures Inv(EnqueuedBack(st, x)) && EnqueuedBack(st, x).size == st.size + 1
    ensures EnqueuedBack(st, x).capacity == if st.size == st.capacity then 2 * st.capacity else st.capacity
  {
    var m := BeforeEnqueueBack(st);
    if st.size == st.capacity {
      ResizeDoubles(st);
    }
    OccupiedUpdate(m.slots, m.left, Some(x));
  }

  /** `dequeue` keeps the invariant.  When it fails it changes nothing; when it
      succeeds it clears the slot at `left`, moves `left` one slot forward and
      takes one from `size` and from the occupied slots. */
  lemma DequeueKeepsInv<E>(st: State<E>)
    requires Inv(st)
    ensures Inv(Dequeued(st))
    ensures DequeueResult(st).None? ==> Dequeued(st) == st
    ensures DequeueResult(st).Some? ==>
      Dequeued(st).capacity == st.capacity && Dequeued(st).right == st.right &&
      Dequeued(st).left == Ring(st.left + 1, st.capacity) &&
      Dequeued(st).size == st.size - 1 &&
      Dequeued(st).slots == st.slots[st.left := None] &&
      Occupied(Dequeued(st).slots) == Occupied(st.slots) - 1
  {
    OccupiedUpdate(st.slots, st.left, None);
    RingIsFloorMod(st.left + 1, st.capacity);
  }

  /** `dequeueBack` keeps the invariant.  When it fails it changes nothing;
      when it succeeds it clears the slot at `right`, moves `right` one slot
      back and takes one from `size` and from the occupied slots. */
  lemma DequeueBackKeepsInv<E>(st: State<E>)
    requires Inv(st)
    ensures Inv(DequeuedBack(st))
    ensures DequeueBackResult(st).None? ==> DequeuedBack(st) == st
    ensures DequeueBackResult(st).Some? ==>
      DequeuedBack(st).capacity == st.capacity && DequeuedBack(st).left == st.left &&
      DequeuedBack(st).right == Ring(st.right - 1, st.capacity) &&
      DequeuedBack(st).size == st.size - 1 &&
      DequeuedBack(st).slots == st.slots[st.right := None] &&
      Occupied(DequeuedBack(st).slots) == Occupied(st.slots) - 1
  {
    OccupiedUpdate(st.slots, st.right, None);
    RingIsFloorMod(st.right - 1, st.capacity);
  }

  // ---------------------------------------------------------------------
  // The deque laws, where no resize happens

  /** Without a resize, `enqueue` keeps the deque invariant. */
  lemma EnqueueKeepsSteady<E>(st: State<E>, x: E)
    requires Steady(st) && st.size < st.capacity
    ensures Steady(Enqueued(st, x))
  {
    var n, k := st.capacity, st.size;
    EnqueueKeepsInv(st, x);
    assert BeforeEnqueue(st).right == Ring(st.left + k, n);
    PushBackRun(st.slots, st.left, k, x);
    assert Enqueued(st, x) == State(n, st.slots[Ring(st.left + k, n) := Some(x)], st.left, Ring(st.left + k, n), k + 1);
  }

  /** Without a resize, `enqueue` appends its item at the `right` end. */
  lemma EnqueueAppends<E>(st: State<E>, x: E)
    requires Steady(st) && st.size < st.capacity
    ensures Steady(Enqueued(st, x)) && Contents(Enqueued(st, x)) == Contents(st) + [x]
  {
    var n, k := st.capacity, st.size;
    EnqueueKeepsSteady(st, x);
    assert BeforeEnqueue(st).right == Ring(st.left + k, n);
    PushBackRun(st.slots, st.left, k, x);
    assert Enqueued(st, x) == State(n, st.slots[Ring(st.left + k, n) := Some(x)], st.left, Ring(st.left + k, n), k + 1);
  }

  /** Without a resize, `enqueueBack` keeps the deque invariant. */
  lemma EnqueueBackKeepsSteady<E>(st: State<E>, x: E)
    requires Steady(st) && st.size < st.capacity
    ensures Steady(EnqueuedBack(st, x))
  {
    var n, k := st.capacity, st.size;
    EnqueueBackKeepsInv(st, x);
    RingIsFloorMod(st.left - 1, n);
    assert BeforeEnqueueBack(st).left == Ring(st.left - 1, n);
    PushFrontRun(st.slots, st.left, k, x);
    assert EnqueuedBack(st, x) == State(n, st.slots[Ring(st.left - 1, n) := Some(x)], Ring(st.left - 1, n), st.right, k + 1);
  }

  /** Without a resize, `enqueueBack` prepends its item at the `left` end. */
  lemma EnqueueBackPrepends<E>(st: State<E>, x: E)
    requires Steady(st) && st.size < st.capacity
    ensures Steady(EnqueuedBack(st, x)) && Contents(EnqueuedBack(st, x)) == [x] + Contents(st)
  {
    var n, k := st.capacity, st.size;
    EnqueueBackKeepsSteady(st, x);
    RingIsFloorMod(st.left - 1, n);
    assert BeforeEnqueueBack(st).left == Ring(st.left - 1, n);
    PushFrontRun(st.slots, st.left, k, x);
    assert EnqueuedBack(st, x) == State(n, st.slots[Ring(st.left - 1, n) := Some(x)], Ring(st.left - 1, n), st.right, k + 1);
  }

  /** In the deque invariant `dequeue` fails exactly when the deque is empty. */
  lemma DequeueFailsIffEmpty<E>(st: State<E>)
    requires Steady(st)
    ensures DequeueResult(st).None? <==> st.size == 0
  {
    assert Ring(st.left - st.left, st.capacity) == 0;
  }

  /** `dequeue` keeps the deque invariant. */
  lemma DequeueKeepsSteady<E>(st: State<E>)
    requires Steady(st)
    ensures Steady(Dequeued(st))
  {
    DequeueFailsIffEmpty(st);
    if st.size > 0 {
      var n, k, l := st.capacity, st.size, st.left;
      DequeueKeepsInv(st);
      PopFrontRun(st.slots, l, k);
      assert Ring(Ring(l + 1, n) + (k - 1) - 1, n) == st.right;
    }
  }

  /** On a non-empty deque in the deque invariant, `dequeue` returns and
      removes the element at the `left` end. */
  lemma DequeueRemovesFront<E>(st: State<E>)
    requires Steady(st) && st.size > 0
    ensures Steady(Dequeued(st))
    ensures DequeueResult(st) == Some(Contents(st)[0]) && Contents(Dequeued(st)) == Contents(st)[1..]
  {
    var n, k := st.capacity, st.size;
    DequeueKeepsSteady(st);
    PopFrontRun(st.slots, st.left, k);
    RingIsFloorMod(st.left + 1, n);
    assert Dequeued(st) == State(n, st.slots[st.left := None], Ring(st.left + 1, n), st.right, k - 1);
  }

  /** In the deque invariant `dequeueBack` fails exactly when the deque is
      empty. */
  lemma DequeueBackFailsIffEmpty<E>(st: State<E>)
    requires Steady(st)
    ensures DequeueBackResult(st).None? <==> st.size == 0
  {
    assert Ring(st.right - st.left, st.capacity) == Ring(st.size - 1, st.capacity);
  }

  /** `dequeueBack` keeps the deque invariant. */
  lemma DequeueBackKeepsSteady<E>(st: State<E>)
    requires Steady(st)
    ensures Steady(DequeuedBack(st))
  {
    DequeueBackFailsIffEmpty(st);
    if st.size > 0 {
      var n, k, l := st.capacity, st.size, st.left;
      DequeueBackKeepsInv(st);
      PopBackRun(st.slots, l, k);
      assert Ring(st.right - 1, n) == Ring(l + (k - 1) - 1, n);
    }
  }

  /** On a non-empty deque in the deque invariant, `dequeueBack` returns and
      removes the element at the `right` end. */
  lemma DequeueBackRemovesBack<E>(st: State<E>)
    requires Steady(st) && st.size > 0
    ensures Steady(DequeuedBack(st))
    ensures DequeueBackResult(st) == Some(Contents(st)[st.size - 1]) &&
      Contents(DequeuedBack(st)) == Contents(st)[..st.size - 1]
  {
    var n, k := st.capacity, st.size;
    DequeueBackKeepsSteady(st);
    PopBackRun(st.slots, st.left, k);
    RingIsFloorMod(st.right - 1, n);
    assert DequeuedBack(st) == State(n, st.slots[st.right := None], st.left, Ring(st.left + (k - 1) - 1, n), k - 1);
  }

  // ---------------------------------------------------------------------
  // An insertion into a full array, as the code does it

  /** When the array is full, `enqueue` resizes and then writes at the `right`
      that `resize` chose without moving it: the item replaces the copy of the
      old front element in the last slot, slot 0 stays empty although the run
      of `size` slots from `left` reaches it, and the deque invariant is
      broken.  From the deque invariant, one element fewer is stored than
      `size` counts. */
  lemma EnqueueIntoFull<E>(st: State<E>, x: E)
    requires Inv(st) && st.size == st.capacity
    ensures Enqueued(st, x).capacity == 2 * st.capacity && Enqueued(st, x).size == st.size + 1
    ensures Enqueued(st, x).left == st.capacity && Enqueued(st, x).right == 2 * st.capacity - 1
    ensures Resized(st).slots[2 * st.capacity - 1] == st.slots[st.left]
    ensures Enqueued(st, x).slots[2 * st.capacity - 1] == Some(x)
    ensures Enqueued(st, x).slots[0] == None && !Steady(Enqueued(st, x))
    ensures Steady(st) ==> Occupied(Enqueued(st, x).slots) == Enqueued(st, x).size - 1
  {
    ResizeDoubles(st);
    assert Resized(st).slots[2 * st.capacity - 1] == st.slots[Ring(st.left + 0, st.capacity)];
    InsertedIntoRelocation(st, 2 * st.capacity - 1, x);
  }

  /** When the array is full, `enqueueBack` resizes and then writes at the
      `left` that `resize` chose without moving it: the item replaces the copy
      of the old back element, slot 0 stays empty although the run of `size`
      slots from `left` reaches it, and the deque invariant is broken.  From
      the deque invariant, one element fewer is stored than `size` counts. */
  lemma EnqueueBackIntoFull<E>(st: State<E>, x: E)
    requires Inv(st) && st.size == st.capacity
    ensures EnqueuedBack(st, x).capacity == 2 * st.capacity && EnqueuedBack(st, x).size == st.size + 1
    ensures EnqueuedBack(st, x).left == st.capacity && EnqueuedBack(st, x).right == 2 * st.capacity - 1
    ensures Resized(st).slots[st.capacity] == st.slots[Ring(st.left + st.size - 1, st.capacity)]
    ensures EnqueuedBack(st, x).slots[st.capacity] == Some(x)
    ensures EnqueuedBack(st, x).slots[0] == None && !Steady(EnqueuedBack(st, x))
    ensures Steady(st) ==> Occupied(EnqueuedBack(st, x).slots) == EnqueuedBack(st, x).size - 1
  {
    ResizeDoubles(st);
    InsertedIntoRelocation(st, st.capacity, x);
  }

  /** Writing an item into one of the relocated slots of a resized full
      array, with `size` then one more than the old capacity. */
  lemma InsertedIntoRelocation<E>(st: State<E>, p: int, x: E)
    requires Inv(st) && st.size == st.capacity
    requires p == st.capacity || p == 2 * st.capacity - 1
    ensures var r := Resized(st);
      var t := r.(slots := r.slots[p := Some(x)], size := r.size + 1);
      !Steady(t) && (Steady(st) ==> Occupied(t.slots) == t.size - 1)
  {
    var n, r := st.capacity, Resized(st);
    var t := r.(slots := r.slots[p := Some(x)], size := r.size + 1);
    RelocationReversesRun(st.slots, st.left);
    assert t.slots[0] == r.slots[0] == None;
    assert Ring(0 - t.left, t.capacity) < t.size;
    if Steady(st) {
      RunOccupied(st.slots, st.left, n);
      RelocationKeepsOccupied(st.slots, st.left);
      OccupiedUpdate(r.slots, p, Some(x));
      assert r.slots[p] == st.slots[Ring(st.left + (2 * n - 1 - p), n)];
    }
  }
}

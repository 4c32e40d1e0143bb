/** The array-backed double-ended queue FastDequeue, as its code behaves. */
module Deque {
  import opened Slots
  import opened DequeModel

  /** A double-ended queue in one circular array of optional slots.  `left` is
      the slot `Dequeue` reads and `right` the slot `DequeueBack` reads.  When
      the array is full an insertion first calls `Resize`, which doubles it.
      Every method is proved to move the fields to exactly the state that the
      matching function of module DequeModel computes from the old fields. */
  class FastDequeue<E> {
    var capacity: int
    var elements: array<Option<E>>
    var left: int
    var right: int
    var size: int

    /** The fields as a value. */
    ghost function Model(): State<E>
      reads this, elements
    {
      State(capacity, elements[..], left, right, size)
    }

    /** The invariant every operation keeps (`Inv`). */
    ghost predicate Valid()
      reads this, elements
    {
      Inv(Model())
    }

    constructor ()
      ensures Valid() && Model() == Initial() && fresh(elements)
    {
      capacity := 8;
      elements := new Option<E>[8](_ => None);
      left := 0;
      right := 8 - 1;
      size := 0;
      new;
      assert elements[..] == Initial<E>().slots;
      InitialIsEmpty<E>();
    }

    method Size() returns (n: int)
      ensures n == size
      ensures Steady(Model()) ==> n == |Contents(Model())|
    {
      n := size;
    }

    method IsEmpty() returns (e: bool)
      ensures e <==> size == 0
      ensures Steady(Model()) ==> (e <==> Contents(Model()) == [])
    {
      e := size == 0;
    }

    /** Inserts at the `right` end. */
    method Enqueue(item: E)
      requires Valid()
      modifies this, elements
      ensures Valid() && Model() == Enqueued(old(Model()), item)
      ensures elements == old(elements) || fresh(elements)
    {
      ghost var st := Model();
      if size == capacity {
        Resize();
      } else if right == capacity - 1 {
        right := 0;
      } else {
        right := right + 1;
      }
      ghost var s1 := elements[..];
      assert Model() == BeforeEnqueue(st);
      elements[right] := Some(item);
      size := size + 1;
      assert elements[..] == s1[right := Some(item)];
      EnqueueKeepsInv(st, item);
    }

    /** Removes at the `left` end; `None` stands for the
        EmptyPCollectionException. */
    method Dequeue() returns (r: Option<E>)
      requires Valid()
      modifies this, elements
      ensures Valid() && elements == old(elements)
      ensures r == DequeueResult(old(Model())) && Model() == Dequeued(old(Model()))
    {
      ghost var st := Model();
      var element := elements[left];
      if element.Some? {
        var elem := element.value;
        elements[left] := None;
        left := (left + 1) % capacity;
        size := size - 1;
        r := Some(elem);
        assert elements[..] == st.slots[st.left := None];
      } else {
        r := None;
      }
      DequeueKeepsInv(st);
    }

    /** Inserts at the `left` end. */
    method EnqueueBack(item: E)
      requires Valid()
      modifies this, elements
      ensures Valid() && Model() == EnqueuedBack(old(Model()), item)
      ensures elements == old(elements) || fresh(elements)
    {
      ghost var st := Model();
      if size == capacity {
        Resize();
      } else if left == 0 {
        left := (left - 1) % capacity;
      } else {
        left := left - 1;
      }
      ghost var s1 := elements[..];
      assert Model() == BeforeEnqueueBack(st);
      elements[left] := Some(item);
      size := size + 1;
      assert elements[..] == s1[left := Some(item)];
      EnqueueBackKeepsInv(st, item);
    }

    /** Removes at the `right` end; `None` stands for the
        EmptyPCollectionException. */
    method DequeueBack() returns (r: Option<E>)
      requires Valid()
      modifies this, elements
      ensures Valid() && elements == old(elements)
      ensures r == DequeueBackResult(old(Model())) && Model() == DequeuedBack(old(Model()))
    {
      ghost var st := Model();
      var element := elements[right];
      if element.Some? {
        var elem := element.value;
        elements[right] := None;
        right := (right - 1) % capacity;
        size := size - 1;
        r := Some(elem);
        assert elements[..] == st.slots[st.right := None];
      } else {
        r := None;
      }
      DequeueBackKeepsInv(st);
    }

    /** Doubles the array: a new array of twice the capacity, filled with
        empty slots, receives the old slots (`CopyReversed`), and `left` and
        `right` are recomputed for the new capacity (lemma `ResizeDoubles`). */
    method Resize()
      requires Valid() && size == capacity
      modifies this
      ensures Valid() && Model() == Resized(old(Model())) && fresh(elements)
    {
      ghost var st := Model();
      var newCapacity := 2 * capacity;
      var newElements := new Option<E>[newCapacity](_ => None);
      var newLeft := newCapacity - size;
      RingIsFloorMod(newLeft + size - 1, newCapacity);
      var newRight := (newLeft + size - 1) % newCapacity;
      CopyReversed(newElements, newRight);
      capacity := newCapacity;
      elements := newElements;
      left := newLeft;
      right := (newLeft + size - 1) % newCapacity;
      ResizeDoubles(st);
      assert Model() == Resized(st);
    }

    /** The copy loop of `Resize`: reading forward from `left` and writing
        backward from the last new slot, so the old front lands in the last
        slot and the old back at `newCapacity - size`; the run comes out
        reversed.  `left` moves with the reads and, the array being full,
        comes back to where it started. */
    method CopyReversed(newElements: array<Option<E>>, newRight0: int)
      requires elements.Length == capacity && 0 <= left < capacity && size == capacity
      requires newElements != elements
      requires newElements.Length == 2 * capacity && newRight0 == newElements.Length - 1
      requires forall j :: 0 <= j < newElements.Length ==> newElements[j] == None
      modifies this`left, newElements
      ensures left == old(left)
      ensures newElements[..] == Relocation(elements[..], left)
    {
      ghost var s0, l0 := elements[..], left;
      var newCapacity := newElements.Length;
      RelocatingStart(s0, l0, newElements[..]);
      var newRight := newRight0;
      var i := 0;
      while i < size
        invariant 0 <= i <= size
        invariant newRight == newCapacity - 1 - i
        invariant left == Ring(l0 + i, capacity)
        invariant newElements[..] == Relocating(s0, l0, i)
      {
        ghost var before := newElements[..];
        newElements[newRight] := elements[left];
        assert newElements[..] == before[newRight := s0[left]];
        RelocatingStep(s0, l0, i);
        RingIsFloorMod(newRight - 1, newCapacity);
        newRight := (newRight - 1) % newCapacity;
        RingIsFloorMod(left + 1, capacity);
        assert Ring(left + 1, capacity) == Ring(l0 + i + 1, capacity);
        left := (left + 1) % capacity;
        i := i + 1;
      }
    }
  }
}

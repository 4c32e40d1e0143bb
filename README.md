# FastDequeue in Dafny

A model of `FastDequeue<E>`, a generic double-ended queue stored in one
circular array of optional slots. It has two cursors. `left` is the slot that
`dequeue` reads and `enqueueBack` writes. `right` is the slot that
`dequeueBack` reads and `enqueue` writes. When an insertion finds the array
full (`size == capacity`), it first calls `resize`, which replaces the array
with one twice as large.

The model follows the code as written, branch for branch, for non-null items
(a null item is not modelled; see "## Left out").

- `Slots.dfy` (module `Slots`) covers the slot sequences:
  - Java's `Optional` as `Option`;
  - `Math.floorMod` on the range the deque uses (`Ring`);
  - the count of occupied slots;
  - the "circular run" shape that the occupied slots form;
  - the slot order a resize produces (`Relocation`).
- `DequeModel.dfy` (module `DequeModel`) covers the states:
  - the five fields as one value `State`;
  - one function per operation, each computing the new state exactly as the
    code does: `Initial`, `Resized`, `Enqueued`, `EnqueuedBack`, `Dequeued`,
    `DequeuedBack`, with their results;
  - the lemmas about those functions.
- `FastDequeue.dfy` (module `Deque`) is the class:
  - the fields `capacity`, `elements` (an `array<Option<E>>`), `left`, `right`
    and `size`;
  - the methods, each with the same statements as the Java method (the
    `Optional.of` wrapping becomes `Some`, which accepts every value);
  - each method's contract ties its new fields (`Model()`) to the matching
    function of `DequeModel`, applied to the old fields.
- `Laws.dfy` (module `Laws`) holds client programs: sequences of calls on one
  instance, with what they return.

Two invariants are used.

- `Inv` must hold in every reachable state:
  - the array has `capacity` slots;
  - `capacity` is 8 doubled some number of times;
  - both cursors are in range;
  - `0 <= size <= capacity`;
  - no more slots are occupied than `size` counts.
- `Steady` is the deque invariant:
  - the occupied slots are exactly the `size` slots starting at `left`, going
    round the ring;
  - `right` is the last of them.

  `Contents` lists the elements from the `left` end to the `right` end.

## Behaviour as written

The laws hold until the first resize. After it they do not, for these reasons.

- **Resize reverses the run.** The copy loop reads the old array forward from
  `left` and writes the new one backward from its last slot. The old front
  element ends up in the last slot and the old back element at
  `newCapacity - size`. The lemmas `ResizeDoubles` and
  `Slots.RelocationReversesRun` state this. The doc comment above `resize`
  pictures the order as kept. The code does not do that.
- **The insert after a resize overwrites.**
  - After `resize`, `enqueue` does not advance `right`. It writes into the last
    slot, replacing the copy of the old front element.
  - `enqueueBack` likewise writes at `newCapacity - size`, replacing the old
    back element.
  - `size` still goes up by one, so one element fewer is stored than `size`
    counts.
  - Slot 0 is empty but lies inside the run of `size` slots from `left`, so the
    deque invariant is broken. See `EnqueueIntoFull` and `EnqueueBackIntoFull`.
- **Consequence.** Take nine items enqueued into a fresh deque, then nine
  `dequeue` calls.
  - The first seven return the eighth item down to the second.
  - The eighth returns the ninth item.
  - The ninth call fails while `size()` is still 1.

  See `Laws.NineThroughResize`. A deque that kept its order would return the
  nine items in insertion order; this code does not.

This is the behaviour of the code as written. The model does not replace it
with a corrected version.

## Model

| member | source | states |
|---|---|---|
| Slots.Ring | FastDequeue.java:77 | the index is in `[0, n)` and differs from the argument by 0 or ±n, so it is `Math.floorMod` on the range used |
| Slots.RingIsFloorMod | FastDequeue.java:77 | on that range the index equals floorMod (`%` for a positive modulus) |
| Slots.OccupiedUpdate | FastDequeue.java:76 | writing one slot changes the occupied count by what was removed and what was written |
| Slots.RunOccupied | FastDequeue.java:68-78 | when the occupied slots form a run of `k` slots, exactly `k` are occupied |
| Slots.RelocatingStep | FastDequeue.java:135-139 | one copy step writes the slot at offset `i` from the front into new slot `2n-1-i` |
| Slots.RelocationReversesRun | FastDequeue.java:127-145 | after a resize the lower half is empty and the upper half, read backward, is the old ring read forward from `left`, so the run is reversed |
| Slots.RelocationKeepsOccupied | FastDequeue.java:135-139 | the relocation keeps the number of occupied slots |
| Slots.PushBackRun | FastDequeue.java:68 | writing just past the end of a run extends it at the back with the new value |
| Slots.PushFrontRun | FastDequeue.java:92 | writing just before the start of a run extends it at the front with the new value |
| Slots.PopFrontRun | FastDequeue.java:73-78 | the first slot of a non-empty run holds its first value; clearing it leaves the rest of the run from the next slot |
| Slots.PopBackRun | FastDequeue.java:97-102 | the last slot of a non-empty run holds its last value; clearing it leaves the run minus its last value |
| DequeModel.GrownIsEightTimesPowerOfTwo | FastDequeue.java:128 | every capacity that starts at 8 and is only ever doubled is 8·2^k |
| DequeModel.InitialIsEmpty | FastDequeue.java:42-50 | a fresh deque has capacity 8, all slots empty, `left` 0, `right` 7, size 0; it is in the deque invariant with empty contents, and both removals fail and change nothing |
| DequeModel.SteadyCountsSize | FastDequeue.java:52-54 | under the deque invariant, `size` is the number of occupied slots |
| DequeModel.ResizeDoubles | FastDequeue.java:127-145 | resize keeps `Inv` and doubles the capacity; `size` and the occupied count stay the same; it sets `left = newCapacity - size` and `right = newCapacity - 1`; the lower half is empty and the upper half holds the old ring in reversed order |
| DequeModel.EnqueueKeepsInv | FastDequeue.java:60-70 | `enqueue` keeps `Inv` and adds exactly 1 to `size`; capacity doubles if the array was full and stays the same otherwise |
| DequeModel.EnqueueBackKeepsInv | FastDequeue.java:84-94 | `enqueueBack` keeps `Inv` and adds exactly 1 to `size`; capacity doubles if the array was full and stays the same otherwise |
| DequeModel.DequeueKeepsInv | FastDequeue.java:72-83 | `dequeue` keeps `Inv`; a failure changes nothing; a success clears the slot at `left`, moves `left` forward one slot, and lowers `size` and the occupied count by 1 |
| DequeModel.DequeueBackKeepsInv | FastDequeue.java:96-107 | `dequeueBack` keeps `Inv`; a failure changes nothing; a success clears the slot at `right`, moves `right` back one slot, and lowers `size` and the occupied count by 1 |
| DequeModel.EnqueueKeepsSteady | FastDequeue.java:60-70 | with no resize, `enqueue` keeps the deque invariant |
| DequeModel.EnqueueAppends | FastDequeue.java:60-70 | with no resize, `enqueue(x)` makes the contents `old + [x]` |
| DequeModel.EnqueueBackKeepsSteady | FastDequeue.java:84-94 | with no resize, `enqueueBack` keeps the deque invariant |
| DequeModel.EnqueueBackPrepends | FastDequeue.java:84-94 | with no resize, `enqueueBack(x)` makes the contents `[x] + old` |
| DequeModel.DequeueFailsIffEmpty | FastDequeue.java:72-83 | under the deque invariant, `dequeue` fails if and only if `size == 0` |
| DequeModel.DequeueKeepsSteady | FastDequeue.java:72-83 | `dequeue` keeps the deque invariant |
| DequeModel.DequeueRemovesFront | FastDequeue.java:72-83 | on a non-empty deque, `dequeue` returns the first element and leaves the rest |
| DequeModel.DequeueBackFailsIffEmpty | FastDequeue.java:96-107 | under the deque invariant, `dequeueBack` fails if and only if `size == 0` |
| DequeModel.DequeueBackKeepsSteady | FastDequeue.java:96-107 | `dequeueBack` keeps the deque invariant |
| DequeModel.DequeueBackRemovesBack | FastDequeue.java:96-107 | on a non-empty deque, `dequeueBack` returns the last element and leaves the others |
| DequeModel.EnqueueIntoFull | FastDequeue.java:60-70 | an `enqueue` into a full array doubles it and writes the item over the copy of the old front element without moving `right`; slot 0 is empty inside the run, so the deque invariant is broken and, coming from it, one element fewer is stored than `size` counts |
| DequeModel.EnqueueBackIntoFull | FastDequeue.java:84-94 | an `enqueueBack` into a full array doubles it and writes the item over the copy of the old back element without moving `left`; the deque invariant is broken and one element fewer is stored than `size` counts |
| Deque.FastDequeue.constructor | FastDequeue.java:42-50 | the new fields are the initial state, which satisfies `Inv` |
| Deque.FastDequeue.Size | FastDequeue.java:52-54 | returns `size`; under the deque invariant this is the number of elements; no state changes |
| Deque.FastDequeue.IsEmpty | FastDequeue.java:56-58 | true exactly when `size == 0`; under the deque invariant, exactly when the contents are empty; no state changes |
| Deque.FastDequeue.Enqueue | FastDequeue.java:60-70 | keeps `Inv`; the new fields are `Enqueued(old fields, item)`; the array is the old one or a fresh one |
| Deque.FastDequeue.Dequeue | FastDequeue.java:72-83 | keeps `Inv` and the array; returns the slot at `left` (`None` is the exception); the new fields are `Dequeued(old fields)` |
| Deque.FastDequeue.EnqueueBack | FastDequeue.java:84-94 | keeps `Inv`; the new fields are `EnqueuedBack(old fields, item)`; the array is the old one or a fresh one |
| Deque.FastDequeue.DequeueBack | FastDequeue.java:96-107 | keeps `Inv` and the array; returns the slot at `right`; the new fields are `DequeuedBack(old fields)` |
| Deque.FastDequeue.Resize | FastDequeue.java:127-145 | keeps `Inv`; installs a fresh array; the new fields are `Resized(old fields)` |
| Deque.FastDequeue.CopyReversed | FastDequeue.java:135-139 | the copy loop fills the new array with the relocation of the old slots, and `left` comes back to its start after a full lap |
| Laws.InsertionsCount | FastDequeue.java:60-94 | after any number of insertions at alternating ends, with resizes included, `size()` equals the number of insertions and `isEmpty()` holds exactly when there were none |
| Laws.Filled | FastDequeue.java:60-70 | up to 8 `enqueue` calls on a fresh deque keep the deque invariant, and the contents are the items in order |
| Laws.FirstInFirstOut | FastDequeue.java:60-83 | up to 8 items enqueued come back from `dequeue` in the same order, then `dequeue` fails |
| Laws.LastInFirstOut | FastDequeue.java:60-107 | up to 8 items enqueued come back from `dequeueBack` in reverse order, then `dequeueBack` fails |
| Laws.FilledFromLeft | FastDequeue.java:84-94 | up to 8 `enqueueBack` calls on a fresh deque keep the deque invariant, and the contents are the items reversed |
| Laws.FirstInFirstOutLeftToRight | FastDequeue.java:84-107 | up to 8 items inserted with `enqueueBack` come back from `dequeueBack` in the same order, then `dequeueBack` fails |
| Laws.Arranged | FastDequeue.java:60-94 | `enqueueBack(b)`, `enqueue(c)`, `enqueueBack(a)` on a fresh deque give contents a, b, c |
| Laws.BothEnds | FastDequeue.java:72-107 | from contents a, b, c: `dequeue` gives a, `dequeueBack` gives c, `dequeue` gives b, then removals at both ends fail |
| Laws.FreshRemovalsFail | FastDequeue.java:42-107 | on a fresh deque, `dequeue`, `dequeueBack` and `dequeue` again all fail, and `size()` stays 0 |
| Laws.NinthEnqueue | FastDequeue.java:127-145 | the ninth `enqueue` into a fresh deque gives 16 slots with `left` 8 and `right` 15; the ninth item is in slot 15; slots 8 to 14 hold the eighth item down to the second; the lower half is empty |
| Laws.NineThroughResize | FastDequeue.java:60-145 | after nine enqueues, `dequeue` returns the eighth item down to the second, then the ninth, then fails with `size()` 1 and `isEmpty()` false |

## Left out

- Java reflection (`Array.newInstance`) and `Arrays.fill` are modelled as a
  fresh `array<Option<E>>` with every slot `None`.
- The `growthStrategy` function object is replaced by its one value, doubling
  (`n -> n * 2`). Capacity comes only from the constructor (8) and from
  doubling.
- Java exceptions: `EmptyPCollectionException` is the result `None`. The
  `DequeueI` interface and the unused `NotFoundException` import are not part
  of this model.
- The amortized O(1) running-time claims are not modelled. The model covers
  states and results only, not cost.
- Deque.FastDequeue.Enqueue: null items are not modelled. In Java,
  `Optional.of(null)` throws `NullPointerException` after `right` has moved or
  the resize has run, and `size` is left unchanged; the model stores `Some(item)`
  for every item and counts it.
- Deque.FastDequeue.EnqueueBack: null items are not modelled. In Java,
  `Optional.of(null)` throws `NullPointerException` after `left` has moved or
  the resize has run, and `size` is left unchanged; the model stores `Some(item)`
  for every item and counts it.
- Java `int` overflow is not modelled; integers are unbounded. Overflow could
  only occur when sizes and capacities get near 2^31.
- The class doc comment says the cursors "point to the next available slot". In
  the code, `left` and `right` point to the first and last occupied slots. The
  model follows the code.
- Laws.FirstInFirstOut: needs at most 8 items, because the ninth insertion
  resizes and the order is then lost (see `Laws.NineThroughResize`).
- Laws.LastInFirstOut: needs at most 8 items, for the same reason.
- Laws.FirstInFirstOutLeftToRight: needs at most 8 items, for the same reason.
- DequeModel.EnqueueAppends: needs a non-full array, because an `enqueue` into
  a full array does not append (see `DequeModel.EnqueueIntoFull`).
- DequeModel.EnqueueBackPrepends: needs a non-full array, for the same reason
  (see `DequeModel.EnqueueBackIntoFull`).
- No law is proved for states outside the deque invariant beyond `Inv` and the
  concrete nine-item scenario. After an insertion into a full array, the code's
  states have no ordered-contents meaning.

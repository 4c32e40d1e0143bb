/** Slots of a circular array: the optional slot type, index arithmetic modulo
    the array length, and the number of occupied slots. */
module Slots {

  /** A slot of the backing array: empty, or holding one element.  It plays the
      role of java.util.Optional, so a stored value is never confused with an
      empty slot. */
  datatype Option<+T> = None | Some(value: T)

  /** The index `k` taken modulo `n`, for the range of `k` the deque ever
      produces (one step below 0 up to one lap past the end).  On that range it
      is Java's Math.floorMod(k, n), which for a positive divisor coincides with
      Dafny's `%`. */
  function Ring(k: int, n: int): (r: int)
    requires 0 < n && -n <= k < 2 * n
    ensures 0 <= r < n
    ensures r == k || r == k + n || r == k - n
  {
    if k < 0 then k + n else if k < n then k else k - n
  }

  /** `Ring` is Java's floorMod (Dafny's `%`) on its range. */
  lemma RingIsFloorMod(k: int, n: int)
    requires 0 < n && -n <= k < 2 * n
    ensures Ring(k, n) == k % n
  {
  }

  function Flag<T>(o: Option<T>): nat
  {
    if o.Some? then 1 else 0
  }

  /** The number of occupied slots in `s`. */
  function Occupied<T>(s: seq<Option<T>>): (c: nat)
    ensures c <= |s|
  {
    if s == [] then 0 else Flag(s[0]) + Occupied(s[1..])
  }

  lemma {:induction false} OccupiedConcat<T>(a: seq<Option<T>>, b: seq<Option<T>>)
    ensures Occupied(a + b) == Occupied(a) + Occupied(b)
  {
    if a == [] {
      assert a + b == b;
    } else {
      assert (a + b)[1..] == a[1..] + b;
      OccupiedConcat(a[1..], b);
    }
  }

  /** Writing one slot changes the count by what was removed and what was put. */
  lemma OccupiedUpdate<T>(s: seq<Option<T>>, j: int, v: Option<T>)
    requires 0 <= j < |s|
    ensures Occupied(s[j := v]) + Flag(s[j]) == Occupied(s) + Flag(v)
  {
    assert s == s[..j] + ([s[j]] + s[j + 1..]);
    assert s[j := v] == s[..j] + ([v] + s[j + 1..]);
    OccupiedConcat(s[..j], [s[j]] + s[j + 1..]);
    OccupiedConcat(s[..j], [v] + s[j + 1..]);
    OccupiedConcat([s[j]], s[j + 1..]);
    OccupiedConcat([v], s[j + 1..]);
  }

  /** A sequence whose occupied slots are exactly its first `k` has `k` of them. */
  lemma {:induction false} OccupiedPrefix<T>(s: seq<Option<T>>, k: int)
    requires 0 <= k <= |s|
    requires forall j :: 0 <= j < |s| ==> (s[j].Some? <==> j < k)
    ensures Occupied(s) == k
  {
    if s != [] {
      OccupiedPrefix(s[1..], if k == 0 then 0 else k - 1);
    }
  }

  /** A sequence whose occupied slots are exactly the circular run of `k` slots
      starting at `l` has `k` of them. */
  lemma RunOccupied<T>(s: seq<Option<T>>, l: int, k: int)
    requires RunShape(s, l, k)
    ensures Occupied(s) == k
  {
    var n := |s|;
    var tail := if k < n - l then k else n - l;
    var head := k - tail;
    assert s == s[..l] + s[l..];
    OccupiedConcat(s[..l], s[l..]);
    assert forall j :: 0 <= j < n - l ==> (s[l..][j].Some? <==> j < tail) by {
      forall j | 0 <= j < n - l ensures s[l..][j].Some? <==> j < tail {
        assert s[l..][j] == s[l + j];
        assert Ring(l + j - l, n) == j;
      }
    }
    OccupiedPrefix(s[l..], tail);
    assert forall j :: 0 <= j < l ==> (s[..l][j].Some? <==> j < head) by {
      forall j | 0 <= j < l ensures s[..l][j].Some? <==> j < head {
        assert s[..l][j] == s[j];
        assert Ring(j - l, n) == j - l + n;
      }
    }
    OccupiedPrefix(s[..l], head);
  }

  /** Two sequences that are each other's mirror image have the same count. */
  lemma {:induction false} OccupiedMirror<T>(a: seq<Option<T>>, b: seq<Option<T>>)
    requires |a| == |b|
    requires forall i :: 0 <= i < |a| ==> a[i] == b[|b| - 1 - i]
    ensures Occupied(a) == Occupied(b)
  {
    if a != [] {
      var m := |b| - 1;
      assert b == b[..m] + [b[m]];
      OccupiedConcat(b[..m], [b[m]]);
      forall i | 0 <= i < |a[1..]| ensures a[1..][i] == b[..m][|b[..m]| - 1 - i] {
        assert a[1..][i] == a[i + 1];
      }
      OccupiedMirror(a[1..], b[..m]);
    }
  }

  /** Reading a sequence starting from any slot, round to the same slot,
      visits as many occupied slots as there are. */
  lemma OccupiedRotation<T>(s: seq<Option<T>>, l: int)
    requires 0 <= l <= |s|
    ensures Occupied(s[l..] + s[..l]) == Occupied(s)
  {
    var a, b := s[..l], s[l..];
    assert s == a + b;
    OccupiedConcat(b, a);
    OccupiedConcat(a, b);
  }

  function Reverse<T>(s: seq<T>): seq<T>
  {
    seq(|s|, i requires 0 <= i < |s| => s[|s| - 1 - i])
  }

  /** Reversing moves an element added at the back to the front. */
  lemma ReverseAppend<T>(s: seq<T>, x: T)
    ensures Reverse(s + [x]) == [x] + Reverse(s)
  {
    var a, b := Reverse(s + [x]), [x] + Reverse(s);
    forall i | 0 <= i < |a| ensures a[i] == b[i] {
      if i > 0 {
        assert b[i] == Reverse(s)[i - 1] == s[|s| - i];
      }
    }
  }

  /** The new slots after the first `i` steps of a resize of the full slot
      sequence `s` whose front is at `l`: twice as many slots, and slot `j` of
      the last `i` holding the slot at offset `2|s| - 1 - j` from the front;
      the rest are empty. */
  function Relocating<T>(s: seq<Option<T>>, l: int, i: int): (r: seq<Option<T>>)
    requires 0 <= l < |s| && 0 <= i <= |s|
    ensures |r| == 2 * |s|
  {
    seq(2 * |s|, j requires 0 <= j < 2 * |s| =>
      if j < 2 * |s| - i then None else s[Ring(l + (2 * |s| - 1 - j), |s|)])
  }

  /** The slots after the whole resize. */
  function Relocation<T>(s: seq<Option<T>>, l: int): (r: seq<Option<T>>)
    requires 0 <= l < |s|
    ensures |r| == 2 * |s|
  {
    Relocating(s, l, |s|)
  }

  /** Before the first step every new slot is empty. */
  lemma RelocatingStart<T>(s: seq<Option<T>>, l: int, r: seq<Option<T>>)
    requires 0 <= l < |s| && |r| == 2 * |s|
    requires forall j :: 0 <= j < |r| ==> r[j] == None
    ensures r == Relocating(s, l, 0)
  {
  }

  /** Step `i` copies the slot at offset `i` from the front into new slot
      `2|s| - 1 - i`. */
  lemma RelocatingStep<T>(s: seq<Option<T>>, l: int, i: int)
    requires 0 <= l < |s| && 0 <= i < |s|
    ensures Relocating(s, l, i)[2 * |s| - 1 - i := s[Ring(l + i, |s|)]] == Relocating(s, l, i + 1)
  {
    var r, t := Relocating(s, l, i)[2 * |s| - 1 - i := s[Ring(l + i, |s|)]], Relocating(s, l, i + 1);
    forall j | 0 <= j < 2 * |s| ensures r[j] == t[j] {
      if j == 2 * |s| - 1 - i {
        assert l + (2 * |s| - 1 - j) == l + i;
      }
    }
  }

  /** A relocation doubles the slots, leaves the lower half empty, and its
      upper half read backward from the last slot is the old slots read forward
      from the front, round the ring: the relocated run is in reverse order. */
  lemma RelocationReversesRun<T>(s: seq<Option<T>>, l: int)
    requires 0 <= l < |s|
    ensures |Relocation(s, l)| == 2 * |s|
    ensures forall j :: 0 <= j < |s| ==> Relocation(s, l)[j] == None
    ensures Reverse(Relocation(s, l)[|s|..]) == s[l..] + s[..l]
  {
    var n, r, t := |s|, Relocation(s, l), s[l..] + s[..l];
    var u := Reverse(r[n..]);
    forall i | 0 <= i < n ensures u[i] == t[i] {
      var j := 2 * n - 1 - i;
      assert u[i] == r[n..][n - 1 - i] == r[j];
      assert 2 * n - 1 - j == i;
      assert r[j] == s[Ring(l + i, n)];
      if i < n - l {
        assert t[i] == s[l..][i] == s[l + i];
      } else {
        assert t[i] == s[..l][i - (n - l)] == s[l + i - n];
      }
    }
  }

  /** A relocation keeps the number of occupied slots. */
  lemma RelocationKeepsOccupied<T>(s: seq<Option<T>>, l: int)
    requires 0 <= l < |s|
    ensures Occupied(Relocation(s, l)) == Occupied(s)
  {
    var n, r := |s|, Relocation(s, l);
    RelocationReversesRun(s, l);
    assert r == r[..n] + r[n..];
    OccupiedConcat(r[..n], r[n..]);
    OccupiedPrefix(r[..n], 0);
    OccupiedMirror(Reverse(r[n..]), r[n..]);
    OccupiedRotation(s, l);
  }

  /** The occupied slots of `s` are exactly the circular run of `k` slots
      starting at `l`. */
  ghost predicate RunShape<T>(s: seq<Option<T>>, l: int, k: int)
  {
    0 <= l < |s| && 0 <= k <= |s| &&
    forall j :: 0 <= j < |s| ==> (s[j].Some? <==> Ring(j - l, |s|) < k)
  }

  /** The values of the run of `k` slots starting at `l`, in run order. */
  ghost function RunValues<T>(s: seq<Option<T>>, l: int, k: int): (r: seq<T>)
    requires RunShape(s, l, k)
    ensures |r| == k
    ensures forall i :: 0 <= i < k ==> s[Ring(l + i, |s|)] == Some(r[i])
  {
    seq(k, i requires 0 <= i < k && RunShape(s, l, k) =>
      var j := Ring(l + i, |s|);
      assert Ring(j - l, |s|) == i;
      s[j].value)
  }

  /** Writing the slot just past the end of a run that is not the whole
      array extends it at the back. */
  lemma PushBackRun<T>(s: seq<Option<T>>, l: int, k: int, x: T)
    requires RunShape(s, l, k) && k < |s|
    ensures RunShape(s[Ring(l + k, |s|) := Some(x)], l, k + 1)
    ensures RunValues(s[Ring(l + k, |s|) := Some(x)], l, k + 1) == RunValues(s, l, k) + [x]
  {
    var n, p := |s|, Ring(l + k, |s|);
    var t := s[p := Some(x)];
    forall j | 0 <= j < n ensures t[j].Some? <==> Ring(j - l, n) < k + 1 {
      if j != p {
        assert Ring(j - l, n) != k;
      }
    }
    var a, b := RunValues(t, l, k + 1), RunValues(s, l, k) + [x];
    forall i | 0 <= i < k + 1 ensures a[i] == b[i] {
      if i < k {
        assert Ring(l + i, n) != p;
      }
    }
  }

  /** Writing the slot just before the start of a run that is not the whole
      array extends it at the front. */
  lemma PushFrontRun<T>(s: seq<Option<T>>, l: int, k: int, x: T)
    requires RunShape(s, l, k) && k < |s|
    ensures RunShape(s[Ring(l - 1, |s|) := Some(x)], Ring(l - 1, |s|), k + 1)
    ensures RunValues(s[Ring(l - 1, |s|) := Some(x)], Ring(l - 1, |s|), k + 1) == [x] + RunValues(s, l, k)
  {
    var n, p := |s|, Ring(l - 1, |s|);
    var t := s[p := Some(x)];
    forall j | 0 <= j < n ensures t[j].Some? <==> Ring(j - p, n) < k + 1 {
      if j != p {
        assert Ring(j - p, n) == Ring(j - l, n) + 1;
      }
    }
    var a, b := RunValues(t, p, k + 1), [x] + RunValues(s, l, k);
    forall i | 0 <= i < k + 1 ensures a[i] == b[i] {
      if 0 < i {
        assert Ring(p + i, n) == Ring(l + (i - 1), n) != p;
      }
    }
  }

  /** Clearing the first slot of a non-empty run removes its first value. */
  lemma PopFrontRun<T>(s: seq<Option<T>>, l: int, k: int)
    requires RunShape(s, l, k) && 0 < k
    ensures s[l].Some? && s[l].value == RunValues(s, l, k)[0]
    ensures RunShape(s[l := None], Ring(l + 1, |s|), k - 1)
    ensures RunValues(s[l := None], Ring(l + 1, |s|), k - 1) == RunValues(s, l, k)[1..]
  {
    var n, q := |s|, Ring(l + 1, |s|);
    var t := s[l := None];
    assert Ring(l + 0, n) == l;
    forall j | 0 <= j < n ensures t[j].Some? <==> Ring(j - q, n) < k - 1 {
      if j != l {
        assert Ring(j - q, n) + 1 == Ring(j - l, n);
      }
    }
    var a, b := RunValues(t, q, k - 1), RunValues(s, l, k)[1..];
    forall i | 0 <= i < k - 1 ensures a[i] == b[i] {
      assert Ring(q + i, n) == Ring(l + (i + 1), n);
    }
  }

  /** Clearing the last slot of a non-empty run removes its last value. */
  lemma PopBackRun<T>(s: seq<Option<T>>, l: int, k: int)
    requires RunShape(s, l, k) && 0 < k
    ensures s[Ring(l + k - 1, |s|)].Some?
    ensures s[Ring(l + k - 1, |s|)].value == RunValues(s, l, k)[k - 1]
    ensures RunShape(s[Ring(l + k - 1, |s|) := None], l, k - 1)
    ensures RunValues(s[Ring(l + k - 1, |s|) := None], l, k - 1) == RunValues(s, l, k)[..k - 1]
  {
    var n, p := |s|, Ring(l + k - 1, |s|);
    var t := s[p := None];
    assert Ring(l + (k - 1), n) == p;
    forall j | 0 <= j < n ensures t[j].Some? <==> Ring(j - l, n) < k - 1 {
      if j != p {
        assert Ring(j - l, n) != k - 1;
      }
    }
    var a, b := RunValues(t, l, k - 1), RunValues(s, l, k)[..k - 1];
    forall i | 0 <= i < k - 1 ensures a[i] == b[i] {
      assert Ring(l + i, n) != p;
    }
  }
}

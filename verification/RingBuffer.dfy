/** The cyclic buffer of cygwin/examples/test6.c as a value: the fields that
    `buffer_push` and `buffer_pop` update, and the FIFO queue they stand for. */
module RingBuffer {
  import opened Arithmetic

  datatype Ring = Ring(
    values: seq<int>,
    head: nat,
    tail: nat,
    count: nat,
    produced: nat,
    consumed: nat
  )

  function Empty(size: nat): Ring {
    Ring(seq(size, _ => 0), 0, 0, 0, 0, 0)
  }

  /** Both indices lie inside the array, so a push or a pop touches a real slot. */
  predicate InBounds(r: Ring) {
    r.head < |r.values| && r.tail < |r.values|
  }

  function Push(r: Ring, value: int): Ring
    requires InBounds(r)
  {
    Ring(r.values[r.tail := value], r.head, (r.tail + 1) % |r.values|,
         r.count + 1, r.produced + 1, r.consumed)
  }

  function Front(r: Ring): int
    requires InBounds(r)
  {
    r.values[r.head]
  }

  function Pop(r: Ring): Ring
    requires InBounds(r) && 0 < r.count
  {
    Ring(r.values, (r.head + 1) % |r.values|, r.tail,
         r.count - 1, r.produced, r.consumed + 1)
  }

  /** How the indices follow from the two totals. */
  ghost predicate Consistent(r: Ring) {
    && 0 < |r.values|
    && r.count <= |r.values|
    && r.produced == r.consumed + r.count
    && r.head == r.consumed % |r.values|
    && r.tail == r.produced % |r.values|
  }

  /** The live slots, oldest first: `count` of them, starting at `head` and
      wrapping around the end of the array. */
  ghost function Contents(r: Ring): seq<int>
    requires 0 < |r.values|
  {
    seq(r.count, k => r.values[(r.head + k) % |r.values|])
  }

  /** Distinct offsets below the size reach distinct slots. */
  lemma SlotsDiffer(base: nat, i: nat, j: nat, n: nat)
    requires i < j < n
    ensures (base + i) % n != (base + j) % n
  {
    var a, b := (base + i) / n, (base + j) / n;
    MulGap(n, a, b);
  }

  // ---- the FIFO laws ----

  lemma EmptyIsConsistent(size: nat)
    requires 0 < size
    ensures Consistent(Empty(size)) && InBounds(Empty(size)) && Contents(Empty(size)) == []
  {
    DivModUnique(0, 0, 0, size);
  }

  /** A push on a buffer with room appends; no live slot is overwritten. */
  lemma PushAppends(r: Ring, value: int)
    requires Consistent(r) && r.count < |r.values|
    ensures InBounds(r) && Consistent(Push(r, value))
    ensures Contents(Push(r, value)) == Contents(r) + [value]
  {
    var n := |r.values|;
    ModAdd(r.produced, 1, n);
    ModAdd(r.consumed, r.count, n);
    var r' := Push(r, value);
    forall k | 0 <= k < r'.count
      ensures Contents(r')[k] == (Contents(r) + [value])[k]
    {
      if k < r.count {
        SlotsDiffer(r.head, k, r.count, n);
      }
    }
  }

  lemma NextSlot(head: nat, k: nat, n: nat)
    requires head < n
    ensures ((head + 1) % n + k) % n == (head + (k + 1)) % n
    ensures head % n == head
  {
    ModAdd(head + 1, k, n);
    DivModUnique(head, 0, head, n);
  }

  /** A pop on a non-empty buffer removes the oldest value and nothing else. */
  lemma PopRemovesOldest(r: Ring)
    requires Consistent(r) && 0 < r.count
    ensures InBounds(r) && Consistent(Pop(r))
    ensures Contents(r) == [Front(r)] + Contents(Pop(r))
  {
    ModAdd(r.consumed, 1, |r.values|);
    NextSlot(r.head, 0, |r.values|);
    assert Contents(r)[0] == Front(r);
    forall k | 0 <= k < r.count - 1
      ensures Contents(Pop(r))[k] == Contents(r)[k + 1]
    {
      NextSlot(r.head, k, |r.values|);
    }
  }

  /** On a full buffer the same push would destroy the oldest live value: the
      caller's test on `count` is what keeps the queue. */
  lemma PushOnFullOverwrites(r: Ring, value: int)
    requires Consistent(r) && r.count == |r.values|
    ensures InBounds(r) && r.tail == r.head && Front(Push(r, value)) == value
    ensures !Consistent(Push(r, value))
  {
    ModAdd(r.consumed, r.count, |r.values|);
    DivModUnique(r.head + r.count, 1, r.head, |r.values|);
  }
}

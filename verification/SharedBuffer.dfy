/** `SharedBuffer` of cygwin/examples/test6.c: the object whose fields the
    producers and consumers update in place while they hold the mutex. */
module SharedBuffers {
  import opened RingBuffer

  class SharedBuffer {
    const values: array<int>
    var head: nat
    var tail: nat
    var count: nat
    var produced: nat
    var consumed: nat

    /** The buffer as a value: what one step of the protocol transforms. */
    ghost function View(): Ring
      reads this, values
    {
      Ring(values[..], head, tail, count, produced, consumed)
    }

    ghost predicate Valid()
      reads this, values
    {
      Consistent(View())
    }

    /** The queue held by the buffer, oldest value first. */
    ghost function Queue(): seq<int>
      requires Valid()
      reads this, values
    {
      Contents(View())
    }

    constructor (size: nat)
      requires 0 < size
      ensures Valid() && fresh(values) && values.Length == size
      ensures View() == Empty(size) && Queue() == []
    {
      values := new int[size](_ => 0);
      head, tail, count, produced, consumed := 0, 0, 0, 0, 0;
      new;
      EmptyIsConsistent(size);
      assert values[..] == Empty(size).values;
    }

    method BufferPush(value: int)
      requires Valid() && count < values.Length
      modifies this, values
      ensures Valid() && View() == Push(old(View()), value)
      ensures Queue() == old(Queue()) + [value]
    {
      PushAppends(View(), value);
      values[tail] := value;
      tail := (tail + 1) % values.Length;
      count := count + 1;
      produced := produced + 1;
    }

    method BufferPop() returns (value: int)
      requires Valid() && 0 < count
      modifies this
      ensures Valid() && View() == Pop(old(View())) && value == Front(old(View()))
      ensures old(Queue()) == [value] + Queue()
    {
      PopRemovesOldest(View());
      value := values[head];
      head := (head + 1) % values.Length;
      count := count - 1;
      consumed := consumed + 1;
    }
  }
}

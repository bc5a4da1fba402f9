/**
 * The cursor logic of the single-producer ring buffer
 * (src/container/ring_buffer.rs). The buffer has `capacity + 1` slots; `head`
 * is the next slot to read and `tail` the next to write, both stepping from
 * `capacity` back to 0. One slot always stays free, so `head == tail` means
 * empty and `capacity` elements means full. The stored values themselves, and
 * the cache line they are copied through, are not part of this model.
 */
module RingBuffers {
  import opened Wrappers

  /** The largest `u16`; `capacity + 1` must not exceed it. */
  const U16Max: nat := 0xFFFF

  /** A `u16` result of a release build: the value modulo 2^16. */
  function Wrap16(x: int): (r: nat)
    ensures r < 0x1_0000
    ensures 0 <= x < 0x1_0000 ==> r == x
  {
    x % 0x1_0000
  }

  /** Reducing a value below twice the modulus takes at most one subtraction. */
  lemma ModOnce(a: int, m: int)
    requires 0 < m && 0 <= a < 2 * m
    ensures a % m == if a < m then a else a - m
  {
    if a >= m {
      assert a == m + (a - m);
    }
  }

  /** The `u16` sum `tail + capacity` that `len` forms once the buffer has wrapped (`tail < head`) exceeds `u16::MAX`. */
  predicate LenSumOverflows(capacity: nat, head: nat, tail: nat)
  {
    tail < head <= capacity && tail + capacity > U16Max
  }

  /**
   * A debug build's `len` can panic on that overflow exactly when the capacity
   * exceeds 32768: the sum is at most `2 * capacity - 1`, reached with `head`
   * at `capacity` and `tail` one slot behind.
   */
  lemma LenOverflowThreshold(capacity: nat)
    ensures (exists head: nat, tail: nat :: LenSumOverflows(capacity, head, tail)) <==> capacity > 32768
  {
    if capacity > 32768 {
      assert LenSumOverflows(capacity, capacity, capacity - 1);
    }
  }

  class RingBuffer {
    var head: nat
    var tail: nat
    const capacity: nat

    /** Both cursors are slots of the buffer, and `capacity + 1` fits a `u16`. */
    predicate Valid()
      reads this
    {
      capacity < U16Max && head <= capacity && tail <= capacity
    }

    /** The slot after `x`, wrapping `capacity` to 0. */
    function Next(x: nat): (r: nat)
      requires x <= capacity
      ensures r <= capacity
      ensures r == (x + 1) % (capacity + 1)
    {
      ModOnce(x + 1, capacity + 1);
      if x == capacity then 0 else x + 1
    }

    /** The number of elements held: the slots from `head` up to `tail`, going round. */
    function Count(): (r: nat)
      requires Valid()
      reads this
      ensures r <= capacity
      ensures (head + r) % (capacity + 1) == tail
    {
      var r := if tail >= head then tail - head else tail + capacity + 1 - head;
      ModOnce(head + r, capacity + 1);
      r
    }

    /** `new`: both cursors at slot 0. */
    constructor (capacity: nat)
      requires capacity < U16Max
      ensures this.capacity == capacity && head == 0 && tail == 0
      ensures Valid() && Count() == 0
    {
      this.capacity := capacity;
      head := 0;
      tail := 0;
    }

    /**
     * `len`, as written: when the buffer has wrapped it adds `capacity` where
     * `capacity + 1` is meant, so it reports one element too few. The `u16`
     * sum may wrap in a release build; the wrapped difference is the same.
     */
    function Len(): (r: nat)
      requires Valid()
      reads this
      ensures tail >= head ==> r == Count()
      ensures tail < head ==> r + 1 == Count()
    {
      Wrap16((if tail < head then Wrap16(tail + capacity) else tail) - head)
    }

    /** `is_empty`. */
    predicate IsEmpty()
      requires Valid()
      reads this
      ensures IsEmpty() <==> Count() == 0
    {
      tail == head
    }

    /** `is_full`: the slot after `tail` is `head`. */
    predicate IsFull()
      requires Valid()
      reads this
      ensures IsFull() <==> Next(tail) == head
      ensures IsFull() <==> Count() == capacity
    {
      tail + 1 == head || (tail == capacity && head == 0)
    }

    /** `get_forward_length`: the element count, when the buffer has not wrapped. */
    function GetForwardLength(): (r: Option<nat>)
      requires Valid()
      reads this
      ensures r.Some? <==> tail > head
      ensures r.Some? ==> r.value == Count() && r.value > 0
    {
      if tail > head then Some(tail - head) else None
    }

    /** `advance_tail_unchecked`: `tail` moves to the next slot, even over `head`. */
    method AdvanceTailUnchecked()
      requires Valid()
      modifies this
      ensures Valid() && head == old(head) && tail == Next(old(tail))
      ensures old(Count()) < capacity ==> Count() == old(Count()) + 1
      ensures old(Count()) == capacity ==> Count() == 0
    {
      tail := if tail == capacity then 0 else tail + 1;
    }

    /** `push_unchecked`: the value goes into a slot that is not modelled, then `tail` advances. */
    method PushUnchecked()
      requires Valid()
      modifies this
      ensures Valid() && head == old(head) && tail == Next(old(tail))
      ensures old(Count()) < capacity ==> Count() == old(Count()) + 1
    {
      AdvanceTailUnchecked();
    }

    /** `push`: refused, with no change, exactly when full; otherwise one more element. */
    method Push() returns (pushed: bool)
      requires Valid()
      modifies this
      ensures Valid()
      ensures pushed <==> old(Count()) < capacity
      ensures !pushed ==> head == old(head) && tail == old(tail)
      ensures pushed ==> head == old(head) && tail == Next(old(tail)) && Count() == old(Count()) + 1
    {
      if IsFull() {
        return false;
      }
      PushUnchecked();
      return true;
    }

    /** `advance_head_unchecked`: `head` moves to the next slot, even over `tail`. */
    method AdvanceHeadUnchecked()
      requires Valid()
      modifies this
      ensures Valid() && tail == old(tail) && head == Next(old(head))
      ensures old(Count()) > 0 ==> Count() == old(Count()) - 1
      ensures old(Count()) == 0 ==> Count() == capacity
    {
      head := if head == capacity then 0 else head + 1;
    }

    /** `advance_head`: refused, with no change, exactly when empty; otherwise one element fewer. */
    method AdvanceHead() returns (advanced: bool)
      requires Valid()
      modifies this
      ensures Valid()
      ensures advanced <==> old(Count()) > 0
      ensures !advanced ==> head == old(head) && tail == old(tail)
      ensures advanced ==> tail == old(tail) && head == Next(old(head)) && Count() == old(Count()) - 1
    {
      if head != tail {
        AdvanceHeadUnchecked();
        advanced := true;
      } else {
        advanced := false;
      }
    }

    /** `pop`: `None` exactly when empty; otherwise the head element is taken. Only its presence is modelled. */
    method Pop() returns (popped: bool)
      requires Valid()
      modifies this
      ensures Valid()
      ensures popped <==> old(Count()) > 0
      ensures !popped ==> head == old(head) && tail == old(tail)
      ensures popped ==> tail == old(tail) && head == Next(old(head)) && Count() == old(Count()) - 1
    {
      if head == tail {
        popped := false;
      } else {
        AdvanceHeadUnchecked();
        popped := true;
      }
    }

    /** `peek`: `None` exactly when empty. Only the presence of the element is modelled. */
    predicate Peek()
      requires Valid()
      reads this
      ensures Peek() <==> Count() > 0
    {
      head != tail
    }
  }

}

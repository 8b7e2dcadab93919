/** Which slot of the ring a frame goes to (native-plugin/src/ring.hpp). */
module RingSlots {
  import Arithmetic

  /** The slot of frame i: i % capacity, by repeated subtraction. */
  function SlotOf(i: nat, capacity: nat): (slot: nat)
    requires capacity > 0
    ensures slot < capacity
  {
    if i < capacity then i else SlotOf(i - capacity, capacity)
  }

  lemma {:induction false} SlotOfIsRemainder(i: nat, capacity: nat)
    requires capacity > 0
    ensures SlotOf(i, capacity) == i % capacity
  {
    if i >= capacity {
      SlotOfIsRemainder(i - capacity, capacity);
      Arithmetic.OneFewer(i, capacity);
    }
  }

  /** Frames less than a capacity apart do not meet. */
  lemma SlotsDiffer(i: nat, j: nat, capacity: nat)
    requires i < j < i + capacity
    ensures SlotOf(i, capacity) != SlotOf(j, capacity)
  {
    SlotOfIsRemainder(i, capacity);
    SlotOfIsRemainder(j, capacity);
    Arithmetic.RemaindersDiffer(i, j, capacity);
  }
}

/**
 * The ring-buffer queue `LF_Queue<T>`: a preallocated store of slots with a
 * next-write index, a next-read index and an element count.
 *
 * The model is sequential: each atomic counter is a plain field, and the
 * references the queue hands out are modelled as what they designate
 * (`Option<&mut T>` as the slot index, `Option<&T>` as the value in the slot).
 * A producer writes through the slot it was handed by assigning `store[i]`.
 */
module LfQueue {
  import ModArith

  datatype Option<T> = None | Some(value: T)

  /** `usize` is 64 bits wide; `fetch_add` on an `AtomicUsize` wraps at this modulus. */
  const USIZE_MODULUS: nat := 0x1_0000_0000_0000_0000

  /**
   * The `count` slots of a ring of slots that start at `start` and wrap around:
   * the values a reader at `start` meets, in order.
   */
  function Window<T>(slots: seq<T>, start: nat, count: nat): (w: seq<T>)
    requires start < |slots|
    ensures |w| == count
    ensures forall k :: 0 <= k < count ==> w[k] == slots[(start + k) % |slots|]
    decreases count
  {
    if count == 0 then []
    else
      var n := |slots|;
      var next := (start + 1) % n;
      var rest := Window(slots, next, count - 1);
      ConsShifted(slots, start, rest);
      [slots[start]] + rest
  }

  /**
   * Putting the slot at `start` in front of the slots met from the next index
   * gives the slots met from `start`.
   */
  lemma ConsShifted<T>(slots: seq<T>, start: nat, rest: seq<T>)
    requires start < |slots|
    requires forall k :: 0 <= k < |rest| ==> rest[k] == slots[((start + 1) % |slots| + k) % |slots|]
    ensures forall k :: 0 <= k < |rest| + 1 ==> ([slots[start]] + rest)[k] == slots[(start + k) % |slots|]
  {
    var n := |slots|;
    forall k | 0 <= k < |rest| + 1
      ensures ([slots[start]] + rest)[k] == slots[(start + k) % n]
    {
      if k == 0 {
        ModArith.ModUnique(start, 0, start, n);
      } else {
        ModArith.ModPlus(start + 1, k - 1, n);
      }
    }
  }

  /** Dropping the first slot met from `start` leaves the slots met from the next index. */
  lemma WindowTail<T>(slots: seq<T>, start: nat, count: nat)
    requires start < |slots| && count > 0
    ensures Window(slots, (start + 1) % |slots|, count - 1) == Window(slots, start, count)[1..]
  {
  }

  /** Reading one more slot appends the slot just past the window. */
  lemma WindowExtend<T>(slots: seq<T>, start: nat, count: nat)
    requires start < |slots|
    ensures Window(slots, start, count + 1) == Window(slots, start, count) + [slots[(start + count) % |slots|]]
  {
  }

  /** Overwriting the slot just past a window that does not fill the ring leaves the window alone. */
  lemma {:induction false} WindowUnaffected<T>(slots: seq<T>, start: nat, count: nat, v: T)
    requires start < |slots| && count < |slots|
    ensures Window(slots[(start + count) % |slots|:= v], start, count) == Window(slots, start, count)
  {
    var n := |slots|;
    var i := (start + count) % n;
    var a, b := Window(slots[i := v], start, count), Window(slots, start, count);
    forall k | 0 <= k < count
      ensures a[k] == b[k]
    {
      ModArith.ModDistinct(start, k, count, n);
    }
  }

  /** The arithmetic of one publish: the count and the write index both move one step on. */
  lemma PublishStep(r: nat, p: nat, w: nat, c: nat, n: nat)
    requires n > 0 && c == p % USIZE_MODULUS && (r + p) % n == w
    ensures (c + 1) % USIZE_MODULUS == (p + 1) % USIZE_MODULUS
    ensures (w + 1) % n == (r + (p + 1)) % n
  {
    ModArith.ModPlus(p, 1, USIZE_MODULUS);
    ModArith.ModPlus(r + p, 1, n);
  }

  /**
   * The arithmetic of one release: a nonzero count comes from a positive number
   * of pending publishes, and the read index moving one step on keeps its
   * distance to the write index equal to the new count.
   */
  lemma ReleaseStep(r: nat, p: nat, w: nat, c: nat, n: nat)
    requires n > 0 && c == p % USIZE_MODULUS && c != 0 && (r + p) % n == w
    ensures p > 0 && c - 1 == (p - 1) % USIZE_MODULUS
    ensures ((r + 1) % n + (p - 1)) % n == w
  {
    ModArith.ModUnique(p - 1, p / USIZE_MODULUS, p % USIZE_MODULUS - 1, USIZE_MODULUS);
    ModArith.ModPlus(r + 1, p - 1, n);
  }

  class Queue<T> {
    var store: array<T>
    var nextWriteIndex: nat
    var nextReadIndex: nat
    var numElements: nat
    /** Publishes not yet released, counted without `usize` wrap-around. */
    ghost var pending: nat

    /**
     * Object invariant: both indices lie in the store, the element count is the
     * number of pending publishes modulo 2^64, and the write index sits
     * `pending` slots (modulo the capacity) after the read index. With capacity
     * 0 nothing can move, since both updates divide by the capacity.
     */
    ghost predicate Valid()
      reads this
    {
      && store.Length < USIZE_MODULUS
      && numElements == pending % USIZE_MODULUS
      && if store.Length == 0 then
           nextWriteIndex == 0 && nextReadIndex == 0 && pending == 0
         else
           && nextWriteIndex < store.Length
           && nextReadIndex < store.Length
           && (nextReadIndex + pending) % store.Length == nextWriteIndex
    }

    /**
     * The published values not yet read, oldest first. Defined only while no
     * publish has outrun the capacity: there is no "full" check, so beyond that
     * unread slots have been overwritten.
     */
    ghost function Unread(): (s: seq<T>)
      reads this, store
      requires Valid() && pending <= store.Length
      ensures |s| == pending
    {
      if store.Length == 0 then [] else Window(store[..], nextReadIndex, pending)
    }

    /** `new`: `numElemnts` slots holding the default value, both indices and the count at 0. */
    constructor (numElemnts: nat, default: T)
      requires numElemnts < USIZE_MODULUS
      ensures Valid() && fresh(store)
      ensures store.Length == numElemnts
      ensures forall i :: 0 <= i < store.Length ==> store[i] == default
      ensures nextWriteIndex == 0 && nextReadIndex == 0 && numElements == 0
      ensures pending == 0 && Unread() == []
    {
      store := new T[numElemnts](_ => default);
      nextWriteIndex := 0;
      nextReadIndex := 0;
      numElements := 0;
      pending := 0;
    }

    /** `size`: the element count. */
    function Size(): (n: nat)
      reads this
      ensures n == numElements
      ensures Valid() && pending <= store.Length ==> n == pending
    {
      numElements
    }

    /**
     * `get_next_to_write_to`: the slot at the write index when that index is
     * inside the store. The count is not consulted, so on a valid queue the
     * answer is "none" only for capacity 0, and the slot handed out is the one
     * just past the pending elements, whether or not they already fill the store.
     */
    function GetNextToWriteTo(): (slot: Option<nat>)
      reads this
      ensures slot.Some? <==> nextWriteIndex < store.Length
      ensures slot.Some? ==> slot.value == nextWriteIndex
      ensures Valid() ==> (slot.Some? <==> store.Length > 0)
      ensures Valid() && slot.Some? ==> slot.value == (nextReadIndex + pending) % store.Length
    {
      var currentIndex := nextWriteIndex;
      if currentIndex < store.Length then Some(currentIndex) else None
    }

    /**
     * `get_next_to_read`: none when the count is 0, otherwise the value in the
     * slot at the read index, which is the oldest unread value.
     */
    function GetNextToRead(): (r: Option<T>)
      reads this, store
      requires Valid()
      ensures r.Some? <==> numElements > 0
      ensures r.Some? ==> r.value == store[nextReadIndex]
      ensures pending <= store.Length ==> r == if pending == 0 then None else Some(Unread()[0])
    {
      if Size() > 0 then
        var currentIndex := nextReadIndex;
        Some(store[currentIndex])
      else
        None
    }

    /**
     * `update_write_index`: publish the slot at the write index by moving the
     * index one slot on (modulo the capacity) and adding one to the count
     * (wrapping like `fetch_add`). The slot just published joins the unread
     * values unless the store was already full of them.
     */
    method UpdateWriteIndex()
      requires Valid() && store.Length > 0
      modifies this
      ensures Valid() && store == old(store)
      ensures nextWriteIndex == (old(nextWriteIndex) + 1) % store.Length
      ensures numElements == (old(numElements) + 1) % USIZE_MODULUS
      ensures nextReadIndex == old(nextReadIndex) && pending == old(pending) + 1
      ensures old(pending) < store.Length ==> Unread() == old(Unread()) + [store[old(nextWriteIndex)]]
    {
      ghost var p, r, w, c := pending, nextReadIndex, nextWriteIndex, numElements;
      ghost var unread := if p < store.Length then Unread() else [];
      var currentIndex := nextWriteIndex;
      var nextIndex := (currentIndex + 1) % store.Length;
      nextWriteIndex := nextIndex;
      numElements := (numElements + 1) % USIZE_MODULUS;
      pending := pending + 1;
      assert Valid() by {
        PublishStep(r, p, w, c, store.Length);
      }
      if p < store.Length {
        assert Unread() == unread + [store[w]] by {
          WindowExtend(store[..], r, p);
        }
      }
    }

    /**
     * `update_read_index`: release the slot at the read index by moving the
     * index one slot on (modulo the capacity) and taking one from the count.
     * A count of 0 is a fatal assertion failure, so it is a precondition here.
     */
    method UpdateReadIndex()
      requires Valid() && store.Length > 0
      requires numElements != 0
      modifies this
      ensures Valid() && store == old(store)
      ensures nextReadIndex == (old(nextReadIndex) + 1) % store.Length
      ensures numElements == old(numElements) - 1
      ensures nextWriteIndex == old(nextWriteIndex) && pending == old(pending) - 1
      ensures old(pending) <= store.Length ==> Unread() == old(Unread())[1..]
    {
      ghost var p, r, w, c := pending, nextReadIndex, nextWriteIndex, numElements;
      ghost var unread := if p <= store.Length then Unread() else [];
      ReleaseStep(r, p, w, c, store.Length);
      var currentIndex := nextReadIndex;
      var nextIndex := (currentIndex + 1) % store.Length;
      nextReadIndex := nextIndex;
      numElements := numElements - 1;
      pending := pending - 1;
      assert Valid();
      if p <= store.Length {
        assert Unread() == unread[1..] by {
          WindowTail(store[..], r, p);
        }
      }
    }
  }

  /**
   * With no "full" check, a queue whose pending elements fill the store still
   * hands out a write slot: the one at the read index, holding the oldest
   * unread value, which the producer then overwrites.
   */
  lemma FullQueueHandsOutOldestSlot<T>(q: Queue<T>)
    requires q.Valid() && q.store.Length > 0 && q.pending == q.store.Length
    ensures q.GetNextToWriteTo() == Some(q.nextReadIndex)
    ensures q.store[q.nextReadIndex] == q.Unread()[0]
  {
    ModArith.ModUnique(q.nextReadIndex + q.pending, 1, q.nextReadIndex, q.store.Length);
    ModArith.ModUnique(q.nextReadIndex, 0, q.nextReadIndex, q.store.Length);
  }
}

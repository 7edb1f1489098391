# LF_Queue: a ring-buffer queue, modelled and verified in Dafny

This project models `LF_Queue<T>` from `src/lf_queue/lf_queue.rs` of the
low-latency logger: a queue that preallocates a `Vec<T>` of slots filled with
`T::default()` and keeps three counters, the next write index, the next read
index and the number of elements. A producer asks for the slot at the write
index (`get_next_to_write_to`), writes into it through the returned `&mut T`,
and publishes it (`update_write_index`: the write index moves one slot on,
modulo the capacity, and the count goes up by one). A consumer asks for the
value at the read index (`get_next_to_read`, none when the count is 0) and
releases it (`update_read_index`: the read index moves one slot on and the
count goes down by one, with a fatal assertion if the count was 0).

The model is sequential. Each `AtomicUsize` is a plain field of the class
`LfQueue.Queue`; `Option<&mut T>` becomes the slot index (`Option<nat>`) and
`Option<&T>` the value in the slot (`Option<T>`); writing through the handed-out
reference is an assignment to `store[i]`. The element count wraps at 2^64 like
`fetch_add` on a `usize`; a ghost field `pending` counts the publishes not yet
released without wrapping, and the object invariant `Valid()` ties the fields
together: both indices lie in the store, `numElements == pending % 2^64`, and
`(nextReadIndex + pending) % capacity == nextWriteIndex`. While no publish has
outrun the capacity, `Unread()` is the sequence of published, unread values,
oldest first, and every operation is specified against it.

Four behaviours of the code, all followed by the model as written:

- Capacity 0 is accepted by `new`. `get_next_to_write_to` then answers none,
  and both update operations would divide by zero, so they require a nonzero
  capacity.
- There is no "full" check. `get_next_to_write_to` looks only at the write
  index, so on a queue of nonzero capacity it always hands out a slot; when the
  unread values already fill the store, that slot holds the oldest of them
  (`FullQueueHandsOutOldestSlot`), and the count can exceed the capacity.
- `update_read_index` moves the read index before it asserts that the count is
  nonzero. The assertion is modelled as a precondition, so the order has no
  visible effect in the model.
- In the multithreaded test each writer publishes first and only then writes
  into the next slot, so the value a reader gets is whatever the published
  slot held before (`LfQueueTests.ReadAfterFirstWriterIteration`: the default
  on a fresh queue). Each reader polls for data while holding the lock.
  The model of that test (`LfQueueTests.MultithreadedQueueOperations`) runs any
  serialisation of the threads' loop iterations; it shows that a run hangs
  exactly when a reader takes the lock on an empty queue, and that otherwise
  the final size is the number of writer iterations minus the number of reader
  iterations, 0 for the test's 1000 of each.

Files: `mod_arith.dfy` (facts about `%`), `lf_queue.dfy` (the queue),
`lf_queue_tests.dfy` (the two tests as client programs, and the round trip
generalised to a sequence of values).

## Model

| member | source | states |
|---|---|---|
| `LfQueue.Window` | src/lf_queue/lf_queue.rs:50-53 | a reader starting at `start` and advancing modulo the store length meets, as its k-th value, the slot at `(start + k) % length` |
| `LfQueue.WindowExtend` | src/lf_queue/lf_queue.rs:43-47 | one more publish appends the slot just past the unread window |
| `LfQueue.WindowTail` | src/lf_queue/lf_queue.rs:50-53 | one release drops the first slot of the unread window and leaves the window starting at the next index |
| `LfQueue.WindowUnaffected` | src/lf_queue/lf_queue.rs:25-32 | writing the slot just past an unread window that does not fill the store leaves every unread value unchanged |
| `LfQueue.PublishStep` | src/lf_queue/lf_queue.rs:43-47 | a publish moves the count (modulo 2^64) and the write index (modulo the capacity) one step on, keeping the write index `pending` slots after the read index |
| `LfQueue.ReleaseStep` | src/lf_queue/lf_queue.rs:50-61 | a nonzero count means at least one pending publish, decrementing it does not wrap, and moving the read index one step on keeps the write index `pending - 1` slots after it |
| `LfQueue.Queue.constructor` | src/lf_queue/lf_queue.rs:12-19 | `new(n)`: a fresh store of length n with every slot the default value, both indices and the count 0, nothing unread, invariant established |
| `LfQueue.Queue.Size` | src/lf_queue/lf_queue.rs:21-23 | `size` is the element count and, while nothing has been overwritten, the number of unread values; it changes nothing |
| `LfQueue.Queue.GetNextToWriteTo` | src/lf_queue/lf_queue.rs:25-32 | a slot exactly when the write index is inside the store, and then that index; on a valid queue this is exactly when the capacity is nonzero (never "full"), and the slot is the one just past the pending values |
| `LfQueue.Queue.GetNextToRead` | src/lf_queue/lf_queue.rs:34-41 | none exactly when the count is 0, else the value at the read index, which is the oldest unread value; it changes nothing |
| `LfQueue.Queue.UpdateWriteIndex` | src/lf_queue/lf_queue.rs:43-48 | write index becomes (old + 1) mod capacity, count (old + 1) mod 2^64, read index and store unchanged, invariant kept, and the published slot's value joins the unread values |
| `LfQueue.Queue.UpdateReadIndex` | src/lf_queue/lf_queue.rs:50-62 | requires a nonzero count (the assertion); read index becomes (old + 1) mod capacity, count old - 1, write index and store unchanged, invariant kept, and the oldest unread value leaves |
| `LfQueue.FullQueueHandsOutOldestSlot` | src/lf_queue/lf_queue.rs:25-32 | with `capacity` values unread, the write slot handed out is the read slot, holding the oldest unread value |
| `LfQueueTests.Produce` | src/lf_queue/lf_queue.rs:75-77 | take the write slot, write v, publish: the invariant holds, one more pending value, the read index stays and the write index moves one step on, v lands at the old write index and no other slot changes; v becomes the newest unread value unless the store was full, and on a full store it overwrites the oldest unread value |
| `LfQueueTests.Consume` | src/lf_queue/lf_queue.rs:81-83 | read then release: the value returned is the one at the read index, the read index moves one step on and the write index stays; while nothing has been overwritten, the value is the oldest unread one and the rest stay unread in order |
| `LfQueueTests.BasicQueueOperations` | src/lf_queue/lf_queue.rs:71-85 | for any nonzero capacity and value v: size 0, then 1 after writing v and publishing, the read yields v, size 0 after the release; both unwraps succeed |
| `LfQueueTests.ProduceAll` | src/lf_queue/lf_queue.rs:75-77 | producing a sequence into an empty queue leaves that many pending values, and exactly that sequence unread when it fits in the store |
| `LfQueueTests.ConsumeAll` | src/lf_queue/lf_queue.rs:81-83 | consuming every pending value never hits the assertion, empties the queue, and yields the unread values in order |
| `LfQueueTests.PublishThenDrain` | src/lf_queue/lf_queue.rs:71-85 | publishing N values then draining: every read finds a value, size ends 0, and the values come out in publish order when N is at most the capacity |
| `LfQueueTests.WriterIteration` | src/lf_queue/lf_queue.rs:97-100 | the test's writer order (publish, then take the slot and write): the unwrap succeeds, the write index moves one step on and the read index stays, `value` lands in the new write slot and no other slot changes, and the value that joins the unread ones is the published slot's old value |
| `LfQueueTests.ReadAfterFirstWriterIteration` | src/lf_queue/lf_queue.rs:96-111 | on a fresh queue of the test, one writer iteration followed by a read yields the default value, not the value written |
| `LfQueueTests.ReaderIteration` | src/lf_queue/lf_queue.rs:110-112 | the test's reader spins for ever exactly when nothing is pending, leaving both indices alone; otherwise it releases one value, moving the read index one step on, and the oldest unread value leaves; the write index never moves |
| `LfQueueTests.MultithreadedQueueOperations` | src/lf_queue/lf_queue.rs:88-122 | over any lock order of the writer and reader iterations: the run hangs exactly when some reader finds no more writer than reader iterations before it; otherwise the final size is writers minus readers, 0 when they are equal |

## Left out

- Concurrency: the atomics' `Ordering::Relaxed`, thread safety, `Arc`, `Mutex` and `thread::spawn`. The counters are plain fields and the multithreaded test is modelled as one sequential order of its lock-protected loop iterations.
- The thread id in the panic message of `update_read_index`: only the condition that the count is nonzero is modelled.
- `src/log/log.rs` (`LogElement`, `Logger`, `LOG_QUEUE_SIZE`): a payload enum with floating-point variants, a file handle and a constant, with no logic.
- The `Default + Clone` bounds: the default value is a parameter of the constructor.
- Allocation failure in `vec![...]`: the constructor requires only that the capacity fits in a `usize`.
- Borrowing: the lifetimes of the `&mut T` and `&T` that the queue hands out are not modelled; a slot is an index and a read is a copy of the value.
- `LfQueue.Queue.Unread`: the unread values are defined only while no publish has outrun the capacity; beyond that the model states the counters and indices, and which slot is overwritten, but no queue contents.
- `usize` width: a 64-bit target is assumed, so the element count wraps at 2^64 (`USIZE_MODULUS`); on a 32-bit target it would wrap at 2^32.
- LfQueue.Queue.UpdateWriteIndex / UpdateReadIndex: both panic with a division by zero when the capacity is 0, and `update_read_index` panics on its count assertion after it has already stored the advanced read index. The model turns these panics into preconditions (`store.Length > 0`, `numElements != 0`), so it does not describe the state a caught panic would leave behind.

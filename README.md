# limitfifo in Dafny

A model of the Go package `limitfifo`: a FIFO queue of non-nil items whose
storage is a singly linked chain of chunks of 64 slots each. Items are
written at the tail chunk's `last` cursor and read at the head chunk's
`first` cursor. `NewLimitQueue(maxChunkNum)` sets an item limit of
`maxChunkNum * 64`. `Add` panics, and `SafeAdd` returns an `ErrLimitFIFO`
error, when the item is nil or when a new chunk would be needed while the
limit is reached. `Next` returns nil on an empty queue. When a removal
exhausts the head chunk, `Next` resets that chunk if the queue is now empty,
and otherwise moves the head to the next chunk.

Everything is in one module, `LimitFifo` (`limitfifo.dfy`):

- `Chunk<T>` is a class with the Go chunk's fields: `items` (the 64 slots, a
  sequence of `Option<T>`), `first`, `last` and `next`.
- `Queue<T>` is a class with `head`, `tail`, `maxsize` and `count`.
- Ghost fields abstract the structure:
  - `chain` is the chunks from head to tail;
  - `runs` is the items each chunk holds;
  - `Contents` is the queued items, oldest first;
  - `Repr` is the footprint.
- `Valid()` is the representation invariant. Every public operation
  (`Add`, `SafeAdd`, `Next`), and every helper behind `Next`, preserves it
  and states its effect on `Contents` and `count`. It also states where the
  cursors that decide later insertions end up.
- `LinkChunk` is the one exception. It only establishes the weaker
  `Coherent()`, because it leaves an empty tail behind the head. `PutLast`
  then fills that tail and restores `Valid()`.
- `None` stands for Go's nil interface value.

Where the code does something other than its names and messages
suggest, the model follows the code:

- **Items, not chunks.** The parameter name `maxChunkNum`
  (limitfifo.go:41) and the message "out of max chunk number"
  (limitfifo.go:79, 104) suggest a cap on the number of chunks. The code
  compares the item count with `maxChunkNum * 64`, and only when the tail
  chunk is full.
  - With no removal from the head chunk, the two readings agree
    (`CapacityWithoutRemovals`).
  - After removals they differ. The chain may then hold more than
    `maxChunkNum` chunks, and the count may exceed `maxsize`. It stays at
    most `max(maxsize, 1) + 63` (`CountBound`), and that bound is reached
    (`PastTheLimit`).
- **Limit of zero or less.** `NewLimitQueue(0)`, or a negative argument,
  still lets the initial chunk take 64 items. The queue never grows past
  that one chunk (`NonPositiveLimit`).
- **The guard marked FIXME** in `Next` (`head.first >= head.last` after the
  emptiness check) cannot fire in any valid state (`HeadNonEmpty`).

## Model

| member | source | states |
|---|---|---|
| LimitFifo.Chunk.constructor | limitfifo.go:26-30 | a new chunk has 64 nil slots, both cursors at 0 and no successor |
| LimitFifo.Queue.NewLimitQueue | limitfifo.go:41-49 | the new queue is valid and empty, its limit is `maxChunkNum * 64` items, and one fresh empty chunk is both head and tail |
| LimitFifo.Queue.Len | limitfifo.go:52-60 | returns the number of queued items and changes nothing |
| LimitFifo.Queue.Add | limitfifo.go:63-88 | for a non-nil item that fits, appends the item at the back of the contents and adds one to the count. The head and its `first` cursor are unchanged. A tail with room stays the tail and the chain is unchanged; a full tail gets one fresh chunk linked behind it as the new tail. The tail's `last` becomes one more than before, or 1 in the new chunk. The nil and out-of-limit panics are preconditions |
| LimitFifo.ErrLimitFifo.Error | limitfifo.go:99-109 | maps each of the two error codes to its own message and every other code to "unknown error", in both directions |
| LimitFifo.Queue.SafeAdd | limitfifo.go:111-137 | a nil item gives ERR_ADD_NIL; a full tail with the count at or above the limit gives ERR_OUT_OF_SIZE_LIMIT; an error leaves every object unchanged; otherwise there is no error, the item is appended at the back, the head and its `first` cursor are unchanged, a tail with room stays the tail with the chain unchanged, a full tail gets one fresh chunk linked behind it as the new tail, and the tail's `last` is one more than before, or 1 in the new chunk |
| LimitFifo.Queue.PushBack | limitfifo.go:73-87 | appends the item and keeps the invariant, leaving the head and its `first` cursor unchanged; if the tail had room it gets the item, and if it was full a fresh chunk linked behind it becomes the tail holding just the item |
| LimitFifo.Queue.LinkChunk | limitfifo.go:74-77 | a fresh empty chunk becomes the old tail's successor and the new tail; contents and count are unchanged |
| LimitFifo.Queue.ChunkAppended | limitfifo.go:124-125 | a chain grown by an empty chunk behind a full tail is still coherent: linked, numbered and holding the same contents |
| LimitFifo.Queue.PutLast | limitfifo.go:84-87 | writing at the tail's `last` cursor appends the item to the contents, adds one to count and `last`, and restores the full invariant |
| LimitFifo.Queue.ItemPutKeeps | limitfifo.go:132-134 | the slot write and the cursor and count increments keep the queue valid |
| LimitFifo.Queue.ItemPut | limitfifo.go:132-134 | a chain whose tail holds one more item stores the old contents followed by that item, and satisfies the invariant |
| LimitFifo.Queue.Next | limitfifo.go:141-178 | on an empty queue returns nil and changes nothing; otherwise returns the oldest item, removes it from the front, and takes one from the count. It also states which head-chunk case applies: when the head moves on, the new head's `first` is 0. Except when the last item is removed, the tail's `last` is unchanged |
| LimitFifo.Queue.DropWithinHead | limitfifo.go:159-160 | moving `first` past an item of a head chunk that holds more drops the oldest item, keeps the chain, and leaves the tail's `last` unchanged |
| LimitFifo.Queue.ResetHead | limitfifo.go:162-168 | removing the last queued item resets the only chunk to `first == last == 0` with no successor, ready for reuse |
| LimitFifo.Queue.AdvanceHead | limitfifo.go:169-173 | when the head chunk is exhausted and items remain, the next chunk becomes the head and the old head leaves the chain and the footprint; the new head's `first` is 0 and the tail's `last` is unchanged |
| LimitFifo.Queue.HeadNonEmpty | limitfifo.go:150-156 | in a non-empty valid queue the head chunk is non-empty and its `first` slot holds the oldest item, so the FIXME guard never fires |
| LimitFifo.Queue.SingleItemInOneChunk | limitfifo.go:165-168 | a queue holding one item is a single chunk that is both head and tail |
| LimitFifo.Queue.EmptyIsOneResetChunk | limitfifo.go:147-149 | an empty valid queue is one chunk, head and tail, with both cursors at 0 |
| LimitFifo.Queue.CountIsOccupancy | limitfifo.go:33-38 | `count` equals the sum of `last - first` over the chain's chunks |
| LimitFifo.Queue.CountBound | limitfifo.go:122-129 | the count is never negative and never exceeds `max(maxsize, 1) + 63`, because the limit is consulted only when a chunk is linked |
| LimitFifo.Queue.CapacityWithoutRemovals | limitfifo.go:74-82 | if nothing has been removed from the head chunk and the limit is m >= 1 chunks, the count is at most m*64 and an insertion is accepted exactly while fewer than m*64 items are queued |
| LimitFifo.Queue.NonPositiveLimit | limitfifo.go:41-49 | with `maxChunkNum <= 0` the queue stays one chunk of at most 64 items, and an insertion is accepted exactly while that chunk has room |
| LimitFifo.Drain | limitfifo.go:139-178 | calling `Next` until the queue is empty returns every queued item, oldest first, and leaves the queue empty |
| LimitFifo.FillOneChunk | limitfifo.go:111-137 | on `NewLimitQueue(1)`, after 64 `SafeAdd` calls of 0 to 63 the queue holds 0 to 63 in order, so every call succeeded; the chunk is then full, its `first` is still 0, and it holds 0 to 63 in order |
| LimitFifo.RefuseThenRemove | limitfifo.go:122-129 | on that full queue a 65th `SafeAdd` gives ERR_OUT_OF_SIZE_LIMIT; one `Next` then returns 0, leaving 1 to 63 in the one chunk, with `first` at 1 |
| LimitFifo.RefuseThenReadd | limitfifo.go:122-125 | the same `SafeAdd` then succeeds by linking a second chunk, although the limit is one chunk, leaving the items 1 to 64 queued across two chunks |
| LimitFifo.PastTheLimit | limitfifo.go:74-87 | 63 more `Add` calls then fill the second chunk, so the queue spans two chunks, holds `maxsize + 63` items, and refuses further insertions |
| LimitFifo.OneChunkScenario | limitfifo.go:141-178 | on the queue left by `RefuseThenReadd`, draining returns 1 to 64 in order, a further `Next` returns nil, and `Len` is 0 |

## Left out

- The mutex in `Queue` and the locking in every method are not modelled: the model is sequential.
- Garbage collection is not modelled. A chunk dropped by `Next` leaves `Repr` and is otherwise forgotten.
- Go's typed nil interface values are not modelled. `None` stands for every nil item, and `Some` stands for every other item.
- LimitFifo.Queue.Add: the two panics become preconditions (a non-nil item and `CanAccept()`), so a call that would panic cannot be written. Unwinding and `recover` are not modelled.
- The `error` interface plumbing is left out. `SafeAdd` returns `Option<ErrLimitFifo>`, where `None` is Go's nil error.
- Machine-integer overflow of `maxChunkNum * 64` and of `count` is not modelled: integers are unbounded.
- Slots that `Next` has read are never cleared, in the Go code and in the model alike. The model says nothing about their contents.
- The ghost `serial` number of a chunk exists only to tell chunks apart in proofs. It has no Go counterpart.

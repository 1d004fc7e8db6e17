# Replay memory of the HER training loop, modelled in Dafny

`her/experience.py` keeps the agent's past transitions in `ReplayMemory`, a
ring buffer with a fixed capacity. `push` grows the list while it is shorter
than the capacity, writes the new transition at the write cursor `position`
and advances the cursor modulo the capacity, so once the buffer is full every
push overwrites one slot. `sample` draws a batch from distinct slots,
`pull` hands back the whole list and empties the buffer, and `__len__`
reports how many transitions are stored.

The model has two modules.

- `RingSpec` (`ring_spec.dfy`) says on plain values what a ring of capacity
  `c` holds after the pushes `p`, without reference to how it is updated:
  `Stored(p, c)` has `min(|p|, c)` slots, and slot `j` holds push number
  `LastWriter(|p|, c, j)`, the latest push whose number is congruent to `j`
  modulo `c`. Its lemmas connect that definition to a single push step, to the
  filling phase (pushes in push order) and to the wrapped phase (exactly the
  last `c` pushes).
- `Experience` (`experience.dfy`) is the class `ReplayMemory<T>` with the
  source's state: `capacity` (a constant), `memory: seq<T>` and
  `position: nat`, plus a ghost `pushed: seq<T>` holding every push since
  construction or the last `Pull`. Its invariant `Valid()` says: the length is
  at most the capacity; the cursor is below the capacity and equals the number
  of pushes modulo the capacity; while the buffer is filling, the cursor equals
  the length, so the slot appended by line 20 is the slot written by line 21;
  and `memory == Stored(pushed, capacity)`. Every mutating method keeps
  `Valid()` and states its whole new state.

A `Transition` (`her/experience.py:6`) is never inspected by the buffer. It is
the type parameter `T`.

## Model

| member | source | states |
|---|---|---|
| Experience.ReplayMemory.constructor | her/experience.py:10-13 | a new buffer is empty, has its cursor on slot 0, records no pushes, keeps the given capacity, and satisfies the invariant |
| Experience.ReplayMemory.Push | her/experience.py:17-22 | below capacity the record is appended; at capacity it replaces exactly the slot at the old cursor and no other; the cursor becomes (old cursor + 1) mod capacity; the invariant (length at most capacity, cursor in range, cursor equals length while filling, each slot holds its latest push) is kept |
| Experience.ReplayMemory.Sample | her/experience.py:24-25 | given a batch size at most the stored count, returns that many records taken from pairwise distinct slots; each record equals the record in its slot, no record occurs more often than it is stored, and nothing in the buffer changes |
| Experience.ReplayMemory.Pull | her/experience.py:27-32 | returns the contents as they were, which are the pushes in push order when the buffer never wrapped; leaves the buffer empty with the cursor on slot 0 and no recorded pushes, still valid |
| Experience.ReplayMemory.Length | her/experience.py:34-35 | the stored count is at most the capacity and equals the number of pushes since the last drain, capped at the capacity |
| Experience.ReplayMemory.InPushOrder | her/experience.py:19-22 | while no more than capacity records have been pushed, the buffer holds exactly those pushes, in push order |
| Experience.ReplayMemory.HoldsMostRecent | her/experience.py:19-22 | once at least capacity records have been pushed, the length is the capacity, and reading from the cursor onwards and then from slot 0 gives exactly the last capacity pushes, oldest first |
| Experience.PullTwice | her/experience.py:27-32 | two drains in a row: the first returns the contents as they were, the second returns nothing, and the buffer is left empty with its cursor on slot 0 |
| RingSpec.LastWriter | her/experience.py:21-22 | the push that last wrote slot j is one of the pushes made, lands in slot j (number mod capacity is j), and lies within the last capacity pushes |
| RingSpec.NoLaterWrite | her/experience.py:21-22 | no push after the last writer of slot j lands in slot j, so that push is the most recent one to slot j |
| RingSpec.LastWriterUnique | her/experience.py:21-22 | any push among the last capacity pushes that lands in slot j is the last writer of slot j |
| RingSpec.ModSucc | her/experience.py:22 | advancing the push count by one advances the cursor by one, wrapping to 0 at the capacity |
| RingSpec.StoredPush | her/experience.py:19-21 | one push on the reference contents: below capacity it appends the record, at capacity it overwrites the slot numbered (pushes so far) mod capacity and leaves every other slot as it was |
| RingSpec.StoredWhileFilling | her/experience.py:19-22 | with at most capacity pushes the slots hold the pushes in push order |
| RingSpec.StoredOnceFull | her/experience.py:19-22 | with at least capacity pushes the slots, read from the cursor round to just before it, are the last capacity pushes in order |

## Left out

- `Normalizer` (her/experience.py:38-84) is not modelled. It does floating-point work on numpy arrays and torch tensors: Welford's running mean and variance, a square root, the 1e-2 epsilon and clamping.
- The random number generator behind `random.sample` is not modelled. `Sample` chooses its slots nondeterministically by a partial shuffle of a copy. Every ordered choice of distinct slots is possible, but the distribution is not stated.
- Experience.ReplayMemory.Sample: `batchSize <= |memory|` is a precondition. The source has no guard, and `random.sample` raises an error when the batch is larger than the population.
- Experience.ReplayMemory.Sample: the ghost result `picks`, the slot of each drawn record, exists only to state distinctness. The source returns only the records.
- Experience.ReplayMemory.Push: requires `capacity > 0`. With capacity 0 the source fails on line 21 (index into an empty list) before line 22 would divide by zero. A buffer with capacity 0 can still be constructed, measured, sampled with batch size 0 and drained.
- Experience.ReplayMemory.Push: line 20 appends `None` and line 21 overwrites it at the cursor. The model appends the new record itself. The result is the same, because the cursor equals the old length whenever line 20 runs.
- The unused fields `pre_norm_clip` and `post_norm_clip` of `ReplayMemory` (her/experience.py:14-15) are left out. Nothing in the class reads them.
- The four fields of `Transition` and the `*args` packing of `push` are left out. The record is the opaque type parameter `T`.
- A negative capacity is left out. The capacity is a `nat`.
- Aliasing of the list returned by `pull` is not modelled. The source returns the old list object and binds a fresh empty list, so the caller's copy is never touched again. The model returns a value.
- Concurrency is not modelled. The source is single-threaded.

A ring buffer is often described as a preallocated array read back oldest first, with an oversized sample reported as an error. The model follows the code, which differs on all three:

- The code grows the list with `append` until it reaches the capacity. It does not preallocate a fixed array.
- `pull` returns the list in slot order. After a wrap this is not the chronological order. `HoldsMostRecent` states the chronological reading.
- An oversized `sample` is an unguarded failure in the code. It is not a defined error result.

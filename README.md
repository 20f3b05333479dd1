# TimedQueue model

A Dafny model of `WCDB::TimedQueue<Key, Info>`, WCDB's fixed-delay timed
queue (`objc/source/util/timed_queue.hpp`). Producers call `reQueue(key,
info)`. That call drops any element already queued for the key and pushes a
new element on the front of a `std::list`, due at `now + delay`. An
`std::unordered_map` maps each key to the list iterator of its element. A
consumer thread calls `waitUntilExpired(onExpired)`: it waits until the list
is non-empty, then takes the back element once the clock is strictly past
its time. `remove(key)` cancels a key, and `notify()` sets a break flag that
lets a consumer waiting on an empty queue return.

Layout:

- `wrappers.dfy`: `Option`.
- `entries.dfy`: module `Entries`, the element list as a value. It defines
  `Element`, `Without` (what removing a key does to the list), `Pushed`
  (what a re-queue does to it) and `Erase`. Lemmas there cover uniqueness of
  keys, the order of expiry times and the order of consumption.
- `key_index.dfy`: module `KeyIndex`, the key-to-iterator map. A list
  iterator is a handle on a list node. Each node gets a number that no other
  node has, and the map sends a key to the number of its node. `IndexOf`
  builds the map a list should have. Its lemmas show how erasing, popping and
  dereferencing keep that map.
- `timed_queue.dfy`: module `TimedQueueModel`, a `class TimedQueue` whose
  fields stand for the source's `m_list` (`list`), `m_map` (`index`),
  `m_break` (`brk`) and `m_delay` (the constant `delay`). Two more fields
  give list iterators something to designate: `nodes`, the handle of each
  element's list node, and `next`, the handle the next pushed node gets. The
  ghost `clock` is the latest time `reQueue` has seen. `Valid()` is the object invariant:
  - one element per key;
  - distinct node handles;
  - the map is exactly the index of the list;
  - expiry times never increase from the front to the back.
- `scenarios.dfy`: module `TimedQueueScenarios`, client runs built as
  sequences of atomic steps. One of them shows the interleaving behind the
  finding below.

`reQueue`, `remove`, one pass of the wait loop and one pass of the expiry
check are each one critical section of the source, modelled as one atomic
method; `notify` takes no lock in the source and is one atomic method here,
run only between whole `WaitStep` passes (see "## Left out").
`ConsumeWhenExpired` is the exception: it runs several passes of the
expiry check in one method (see "## Left out"); interleavings between passes
are written as separate `TryConsume` calls. The clock is an explicit `now` argument, and the consumer's
repeated clock readings are a `readings` sequence.

The comparison at line 92 is strict (`now > element->time`), so an element
is delivered only at a time strictly after its expiry time.

## Model

| member | source | states |
|---|---|---|
| Entries.Erase | objc/source/util/timed_queue.hpp:131 | erasing through an iterator removes exactly one position: the result is one shorter, positions before `i` are kept and positions after it move up one |
| Entries.Without | objc/source/util/timed_queue.hpp:127-134 | removing a key leaves no element of that key and never lengthens the list |
| Entries.Pushed | objc/source/util/timed_queue.hpp:48-53 | after a re-queue the new element is the front and no other element carries its key |
| Entries.WithoutMembers | objc/source/util/timed_queue.hpp:127-134 | an element survives removal of key `k` if and only if it was in the list and its key is not `k` |
| Entries.WithoutAbsent | objc/source/util/timed_queue.hpp:129-130 | removing a key that is not queued leaves the list unchanged |
| Entries.WithoutAt | objc/source/util/timed_queue.hpp:129-131 | with unique keys, removing the key of position `i` is erasing position `i` |
| Entries.WithoutIdempotent | objc/source/util/timed_queue.hpp:61-65 | removing a key twice is the same as removing it once |
| Entries.RemoveUndoesReQueue | objc/source/util/timed_queue.hpp:43-65 | removing a key right after re-queueing it leaves the list that removing it alone would leave |
| Entries.KeysCons | objc/source/util/timed_queue.hpp:118-121 | the key set of a list is its front key plus the key set of the rest |
| Entries.UniqueTail | objc/source/util/timed_queue.hpp:118-121 | with unique keys, the rest of the list has unique keys and does not contain the front key |
| Entries.ConsUnique | objc/source/util/timed_queue.hpp:53 | pushing an element whose key is not queued keeps keys unique |
| Entries.EraseUnique | objc/source/util/timed_queue.hpp:131 | erasing a position keeps keys unique |
| Entries.EraseNonIncreasing | objc/source/util/timed_queue.hpp:131 | erasing a position keeps expiry times non-increasing from front to back |
| Entries.EraseKeepsOrder | objc/source/util/timed_queue.hpp:131 | erasing another element keeps the relative order of two elements |
| Entries.WithoutUnique | objc/source/util/timed_queue.hpp:127-134 | removing a key keeps keys unique |
| Entries.PushedUnique | objc/source/util/timed_queue.hpp:48-55 | a re-queue keeps at most one element per key |
| Entries.PushedKeys | objc/source/util/timed_queue.hpp:48-55 | after a re-queue the queued keys are the old ones plus the re-queued key |
| Entries.ConsNonIncreasing | objc/source/util/timed_queue.hpp:51-53 | an element due no earlier than the front keeps expiry times ordered when pushed |
| Entries.PushedNonIncreasing | objc/source/util/timed_queue.hpp:48-53 | with a fixed delay and a clock that does not go back, a re-queue keeps expiry times non-increasing from front to back |
| Entries.PushedIsNewest | objc/source/util/timed_queue.hpp:53 | the re-queued element comes before every surviving element in the list, so it is consumed after all of them |
| Entries.PushedKeepsOrder | objc/source/util/timed_queue.hpp:48-53 | a re-queue keeps the relative order of the elements it does not touch |
| Entries.WithoutKeepsOrder | objc/source/util/timed_queue.hpp:127-134 | a removal keeps the relative order of the other elements |
| Entries.BackIsOldest | objc/source/util/timed_queue.hpp:91 | the back, which the consumer reads, comes after every other element: it is the oldest insertion |
| Entries.PopKeepsOrder | objc/source/util/timed_queue.hpp:93 | `pop_back` keeps the relative order of the remaining elements |
| Entries.PrecedesAsymmetric | objc/source/util/timed_queue.hpp:118-121 | with unique keys, consumption order is a strict order |
| Entries.PrecedesExpiresFirst | objc/source/util/timed_queue.hpp:51-53 | in a list ordered by expiry, an element consumed earlier is due no later: delivery follows insertion order |
| Entries.BackIsEarliest | objc/source/util/timed_queue.hpp:91-92 | the back is the earliest to expire; if it has not expired, no element has |
| KeyIndex.Find | objc/source/util/timed_queue.hpp:131 | following a node handle that is in the list gives a position holding that handle |
| KeyIndex.IndexOfKeys | objc/source/util/timed_queue.hpp:118-120 | the map holds exactly the keys of the list |
| KeyIndex.IndexOfAt | objc/source/util/timed_queue.hpp:54-55 | with unique keys, each element's key maps to that element's own node |
| KeyIndex.IndexPoints | objc/source/util/timed_queue.hpp:129-131 | the iterator looked up for a key designates a live node, and that node holds the key's element |
| KeyIndex.IndexOfErase | objc/source/util/timed_queue.hpp:131-132 | erasing an element and its node takes exactly its key out of the map; every other key keeps its iterator |
| KeyIndex.IndexOfPop | objc/source/util/timed_queue.hpp:93-94 | popping the back and erasing its key from the map keeps the map exactly the list's index |
| KeyIndex.HandlesErase | objc/source/util/timed_queue.hpp:131 | erasing a node keeps the node handles distinct |
| KeyIndex.HandlesPush | objc/source/util/timed_queue.hpp:53-54 | a newly pushed node is distinct from every live node |
| KeyIndex.HandlesPop | objc/source/util/timed_queue.hpp:93 | popping a node keeps the handles distinct |
| TimedQueueModel.TimedQueue.constructor | objc/source/util/timed_queue.hpp:38-39 | a new queue has the given delay, empty list and map, and a clear break flag, and satisfies the invariant |
| TimedQueueModel.TimedQueue.UnsafeRemove | objc/source/util/timed_queue.hpp:127-134 | the key's element and node are erased and the key leaves the map; an absent key changes nothing; other keys keep their iterators; the invariant is kept |
| TimedQueueModel.TimedQueue.Remove | objc/source/util/timed_queue.hpp:61-65 | the same new state as `UnsafeRemove`, for any key, queued or not |
| TimedQueueModel.TimedQueue.ReQueue | objc/source/util/timed_queue.hpp:43-59 | the signal is raised if and only if the list was empty; the new list is the old one without the key's element plus the new element, due at `now + delay`, on the front; the key maps to the new node and every other key keeps its iterator; the invariant is kept |
| TimedQueueModel.TimedQueue.PushFront | objc/source/util/timed_queue.hpp:53-55 | the element becomes the front in a fresh node, the key maps to that node, nothing else changes, and the invariant is kept |
| TimedQueueModel.TimedQueue.Notify | objc/source/util/timed_queue.hpp:67-71 | the break flag is set and nothing else changes, so a second call has no further effect |
| TimedQueueModel.TimedQueue.WaitStep | objc/source/util/timed_queue.hpp:77-83 | the consumer goes on if and only if the list is non-empty, returns if and only if it is empty with the break flag set, and blocks if and only if it is empty with the flag clear |
| TimedQueueModel.TimedQueue.TryConsumeAsWritten | objc/source/util/timed_queue.hpp:88-97 | the expiry pass as written, defined only on a non-empty list: strictly past the back's time it pops the back and returns its key and payload, otherwise it changes nothing |
| TimedQueueModel.TimedQueue.TryConsume | objc/source/util/timed_queue.hpp:88-97 | the expiry pass with the emptiness check: it fires if and only if the list is non-empty and `now` is strictly past the back's time; a fired element was the earliest to expire; when nothing fires, no element has expired and nothing changes |
| TimedQueueModel.TimedQueue.ConsumeWhenExpired | objc/source/util/timed_queue.hpp:85-103 | the retry loop delivers the back if and only if some clock reading is strictly past its time; it stops at the first such reading and pops exactly that element; if no reading is past it, nothing changes |
| TimedQueueScenarios.ExpiresAfterDelay | objc/source/util/timed_queue.hpp:43-59 | delay 2, insertion at 0: nothing is delivered at 2, the element is delivered at 3, and the insertion into the empty queue signals |
| TimedQueueScenarios.RefreshReplaces | objc/source/util/timed_queue.hpp:43-59 | a refresh replaces the payload and the due time, and only the first insertion signals |
| TimedQueueScenarios.DeliveredInInsertionOrder | objc/source/util/timed_queue.hpp:89-97 | two keys are delivered in the order they were inserted |
| TimedQueueScenarios.RemovedNeverDelivered | objc/source/util/timed_queue.hpp:61-65 | a removed key is never delivered |
| TimedQueueScenarios.ShutdownOnEmpty | objc/source/util/timed_queue.hpp:67-83 | on an empty queue the consumer blocks before `notify` and returns after it, when `notify` falls between two passes of the wait loop |
| TimedQueueScenarios.ShutdownWaitsForEntries | objc/source/util/timed_queue.hpp:67-97 | the break flag does not stop a consumer while entries are queued |
| TimedQueueScenarios.RemoveBetweenWaitAndConsume | objc/source/util/timed_queue.hpp:84-91 | a `remove` between the wait loop and the expiry check leaves the list empty at `m_list.back()`; the checked pass delivers nothing |
| TimedQueueScenarios.BackRemovedDuringSleep | objc/source/util/timed_queue.hpp:86-103 | the back being waited for is removed between two passes; the next passes wait on the new back and deliver it, not the element first seen |
| TimedQueueScenarios.RetriesUntilPast | objc/source/util/timed_queue.hpp:85-103 | readings 1, 2, 3 and 5 against a due time of 2: delivery at the third pass |

## Left out

- Locking: `m_mutex`, `m_cond` and the atomicity of `m_break` are not modelled. Each critical section is one atomic method (`ConsumeWhenExpired` joins several, see below), and an interleaving is written as a sequence of calls (`scenarios.dfy`).
- Waking: `m_cond.notify_one()` in `reQueue` appears only as the `signal` result of `ReQueue`, and the one in `notify` is not modelled; a consumer that has blocked is assumed to run its next `WaitStep` after the flag is set.
- Notify: runs only between whole `WaitStep` passes. In the source it takes no lock, so its write of `m_break` and its `m_cond.notify_one()` (lines 69-70) can both fall between the consumer's read of the flag at line 78 and its `m_cond.wait` at line 79; the wakeup then finds no waiter and is lost, and the consumer stays blocked with the flag set until a later `reQueue` into the empty list signals (line 56). The model does not capture this interleaving, and `TimedQueueScenarios.ShutdownOnEmpty` shows only the ordering in which the wakeup arrives.
- Blocking: `m_cond.wait` at line 79 is the `Blocked` outcome of `WaitStep`. The loop around it (lines 77-83) has no exit without another thread, so it is not written as a loop.
- Sleeping: `std::this_thread::sleep_for` at line 101 is not modelled. `ConsumeWhenExpired` does not require its readings to respect the sleep.
- ConsumeWhenExpired: its passes run with no other thread's step between them, whereas the source releases the lock after each pass (line 97) and sleeps unlocked (line 101), so a `remove` or `reQueue` may run between passes and the element finally delivered may not be the back seen first, or the list may be empty; its contract covers only runs without such steps, and `TimedQueueScenarios.BackRemovedDuringSleep` writes one such run out pass by pass.
- ConsumeWhenExpired: it stops when its finite `readings` run out, whereas the source keeps reading the clock until an element is due.
- Callback: the `onExpired` call at line 99 is not modelled. The method returns the key and payload it would pass to the callback instead.
- Payload ownership: `std::shared_ptr<Element>` is modelled as a plain value.
- Time: `steady_clock::time_point` and `std::chrono::seconds` are modelled as unbounded integers in one unit. Overflow of the time representation is not modelled.
- Iterators: an iterator is a node handle, and erasing through an iterator finds the node's position with `Find`. The constant cost of `std::list::erase` is not modelled.

## Findings

| source | as written | input that shows it | evidently intended | confidence | as-written member | corrected member |
|---|---|---|---|---|---|---|
| objc/source/util/timed_queue.hpp:84-91 | after the wait loop releases the lock at line 84, or after the sleep at line 101, the consumer re-locks and calls `m_list.back()` at line 91 without checking that the list is non-empty; `back()` on an empty `std::list` is undefined behaviour | queue with delay 2; `reQueue("A", x)` at time 0; the consumer leaves the wait loop with a non-empty list; a producer calls `remove("A")`; the consumer re-locks at time 3 and reads `back()` of an empty list (`TimedQueueScenarios.RemoveBetweenWaitAndConsume`) | re-check emptiness under the lock before reading the back, and go back to waiting when the list is empty | not executed | TimedQueueModel.TimedQueue.TryConsumeAsWritten | TimedQueueModel.TimedQueue.TryConsume |

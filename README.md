# Ring-of-slots lock-free queues, sequential model

This project models the two ring-of-slots queues of the `gremsnoort::lockfree`
library as they behave when one thread drives them. It proves that they
refine a FIFO queue.

- **Slot-reuse queue** `queue_t<T, Storage>` (`lockfree_queue_v2.hpp`):
  - The ring has at least 8 slots. Each slot holds a payload, a `next` link and the `busy` and `consumed` flags.
  - `push` turns a rotating cursor `head` until it finds a free slot. It claims that slot and splices it after the tail `push_end`.
  - `pop` takes the element at `pop_end`. A drained head stays busy as a consumed placeholder until a successor is linked after it. When `pop` then meets that placeholder, it releases it and goes on to the successor.
- **Counted queue** `queue_t<T, alloc>` (`lockfree_queue.hpp`):
  - The ring has exactly the requested size. Each node holds a payload and a `next` link.
  - `push` is refused while the fill counter `count_` has reached `ringsz / 4`. An accepted push overwrites the node after the cursor without any check and links it after the tail.
  - `pop` moves `pop_end` along the links. When it drains the last node, `pop_end` becomes 0 and that node goes into `observed_last`. A later pop hands `pop_end` on to the node's successor once one has been linked.

Each queue has two layers:

- **Value model** (`ReuseSpec`, `CountedSpec`):
  - a datatype for the whole state;
  - a ghost *chain* of slot indices, the logical FIFO chain;
  - an invariant `Inv`;
  - the contents `Elements`, oldest first;
  - step functions `PushStep` and `PopStep`;
  - refinement lemmas.
- **Class** (`ReuseQueue.Queue`, `CountedQueue.Queue`):
  - an `array` of slots updated in place, plus the atomic fields as mutable fields;
  - every compare-and-swap is a compare-and-set method;
  - every loop that can turn more than once on one thread is a loop with its invariants and a termination measure;
  - each public method ensures `Model() == Step(old(Model()))` and the FIFO effect on `Contents()`.

Other conventions:

- Slot `i` has identity `i + 1`, so 0 keeps meaning "none", as the source's null pointer does.
- The cursor arithmetic shared by both queues is in `RingCursor`.

Two facts about the code shape the model:

- The counted queue's allocation calls are commented out (lockfree_queue.hpp:131-132, 161-162, 190-191), so it is a fixed ring of nodes.
- The slot-reuse `push` has no fill counter and never returns false. The `count_` gate exists only in lockfree_queue.hpp.

## Model

| member | source | states |
|---|---|---|
| RingCursor.Succ | lockfree/queue/lockfree_queue_v2.hpp:71-74 | The cursor advance `i + 1`, wrapping to 0 at the ring size, stays in the ring and is 0 exactly at the wrap. The counted queue uses the same step (lockfree_queue.hpp:86-89). |
| RingCursor.SuccIsModulo | lockfree/queue/lockfree_queue_v2.hpp:71-74 | The cursor advance is `(i + 1) mod n`. |
| RingCursor.ProbeReaches | lockfree/queue/lockfree_queue_v2.hpp:70-119 | From any starting slot, every slot is reached after `Dist` advances, which is fewer than the ring size. |
| RingCursor.DistOfProbe | lockfree/queue/lockfree_queue_v2.hpp:70-119 | The first `n` probes from a slot visit pairwise different slots: `Dist` inverts the probe count. |
| RingCursor.DistSucc | lockfree/queue/lockfree_queue.hpp:84-94 | One cursor advance adds one to the distance from any slot other than the one the cursor moves onto. |
| ReuseSpec.Capacity | lockfree/queue/lockfree_queue_v2.hpp:15-16 | The constructor builds `max(requested, 8)` slots: at least 8, at least the request, and equal to one of the two (see line 56). |
| ReuseSpec.FirstFreeProbe | lockfree/queue/lockfree_queue_v2.hpp:70-80 | The probe that claims is the first one from the cursor that finds a non-busy slot. Every earlier probe found a busy slot. |
| ReuseSpec.FreeSlotIsFound | lockfree/queue/lockfree_queue_v2.hpp:70-119 | A free slot anywhere in the ring is found within fewer probes than the ring has slots, so the probe loop ends when some slot is free. |
| ReuseSpec.ClaimIndex | lockfree/queue/lockfree_queue_v2.hpp:77-80 | The slot push claims is a ring slot that was not busy. |
| ReuseSpec.PushProbes | lockfree/queue/lockfree_queue_v2.hpp:68-80 | Push probes one slot per advance from the cursor and claims the first non-busy slot. It never claims a busy one: every slot probed before it was busy (see lines 115-117). |
| ReuseSpec.FilledAfterMark | lockfree/queue/lockfree_queue_v2.hpp:79-85 | Setting `busy` before writing payload, `next` and `consumed` gives the same slot as writing them all at once. |
| ReuseSpec.TailOpen | lockfree/queue/lockfree_queue_v2.hpp:96-107 | Under the invariant, the tail `push_end` names is a busy ring slot whose `next` is 0, so the first link attempt succeeds. |
| ReuseSpec.PushWrites | lockfree/queue/lockfree_queue_v2.hpp:79-111 | The claimed slot ends busy, holding the payload, with `next` 0 and not consumed. With `push_end` 0, both ends name it and no other slot changes. Otherwise the old tail's `next` names it, `push_end` moves to it, and no other slot changes. |
| ReuseSpec.AppendShape | lockfree/queue/lockfree_queue_v2.hpp:87-111 | Appending a ring slot that is not in the chain keeps the chain free of repeats. |
| ReuseSpec.AppendOccupied | lockfree/queue/lockfree_queue_v2.hpp:79-85 | Claiming a free slot and appending it keeps the flags in line: busy exactly on chain slots, and only the head can be consumed. |
| ReuseSpec.LinkedLast | lockfree/queue/lockfree_queue_v2.hpp:96-107 | The last slot of a linked chain has `next` 0. |
| ReuseSpec.LinkedFrame | lockfree/queue/lockfree_queue_v2.hpp:167-182 | Whether the chain is linked depends only on its slots' `next` fields, which pop never writes. |
| ReuseSpec.AppendLinked | lockfree/queue/lockfree_queue_v2.hpp:87-111 | Linking the new slot after the old tail, with its own `next` 0, keeps the chain linked. |
| ReuseSpec.PayloadsFrame | lockfree/queue/lockfree_queue_v2.hpp:167-182 | The payloads of a chain depend only on its slots' payloads. |
| ReuseSpec.PayloadsAppend | lockfree/queue/lockfree_queue_v2.hpp:83 | Writing the payload of a slot outside the chain and appending that slot appends that payload. |
| ReuseSpec.AppendKeepsInv | lockfree/queue/lockfree_queue_v2.hpp:79-111 | A push keeps the invariant with the claimed slot appended to the chain. |
| ReuseSpec.AppendElements | lockfree/queue/lockfree_queue_v2.hpp:79-111 | A push appends its element at the back of the contents. |
| ReuseSpec.PushRefines | lockfree/queue/lockfree_queue_v2.hpp:66-123 | Push is a FIFO enqueue. It keeps the invariant, `x` joins the back of the contents, and both ends are non-zero afterwards. Push always succeeds, so the final `return false` is never reached (lines 121-122). |
| ReuseSpec.RoomMeansFree | lockfree/queue/lockfree_queue_v2.hpp:70-119 | With fewer queued elements than slots minus one (one slot for the placeholder), some slot is free, so push does not loop forever. |
| ReuseSpec.DropHeadKeeps | lockfree/queue/lockfree_queue_v2.hpp:178-182 | Freeing a consumed head that has a successor keeps the invariant with the rest of the chain. The contents become the rest's payloads. |
| ReuseSpec.PayloadsTail | lockfree/queue/lockfree_queue_v2.hpp:167-185 | Dropping the head slot drops the first payload. |
| ReuseSpec.ReleaseKeeps | lockfree/queue/lockfree_queue_v2.hpp:159-186 | Releasing a consumed placeholder that has a successor keeps the invariant and the contents. It leaves an unconsumed slot at `pop_end`. |
| ReuseSpec.ConsumeFrame | lockfree/queue/lockfree_queue_v2.hpp:167-182 | One attempt on a slot changes only that slot's flags: it sets `consumed`, and `busy` stays only when there is no successor. |
| ReuseSpec.InvHeadShape | lockfree/queue/lockfree_queue_v2.hpp:153-161 | Under the invariant, `pop_end` is 0 exactly when the chain is empty. Its slot is busy, and it has a successor exactly when the chain has a second slot. |
| ReuseSpec.ReleasedShape | lockfree/queue/lockfree_queue_v2.hpp:159-186 | After a placeholder with a successor is released, `pop_end` names an unconsumed busy slot. |
| ReuseSpec.PopCases | lockfree/queue/lockfree_queue_v2.hpp:125-214 | The outcome of pop, case by case on the slot at `pop_end`: none, drained without successor, unconsumed, or drained with successor. |
| ReuseSpec.PopFailsIffEmpty | lockfree/queue/lockfree_queue_v2.hpp:130-161 | Pop fails exactly when `pop_end` is 0 or its slot has `next` 0 and is consumed. That is exactly when the contents are empty, and then pop changes nothing. |
| ReuseSpec.DeliverWithSuccessor | lockfree/queue/lockfree_queue_v2.hpp:167-185 | Delivering a head that has a successor hands out the oldest element. It frees the slot and drops it from the chain. |
| ReuseSpec.MarkHeadKeeps | lockfree/queue/lockfree_queue_v2.hpp:169 | Marking the chain head consumed keeps the invariant. |
| ReuseSpec.DeliverLast | lockfree/queue/lockfree_queue_v2.hpp:167-177 | Delivering a head without successor hands out the oldest element. The slot stays busy as the placeholder, `pop_end` is restored to it, and the contents become empty. |
| ReuseSpec.DequeuesTransfer | lockfree/queue/lockfree_queue_v2.hpp:159-186 | A delivering dequeue from a state with the same contents and tail counts as a dequeue from this state. |
| ReuseSpec.PopFails | lockfree/queue/lockfree_queue_v2.hpp:130-161 | A failing pop is a dequeue from empty contents that changes nothing. |
| ReuseSpec.PopDelivers | lockfree/queue/lockfree_queue_v2.hpp:167-185 | Pop on an unconsumed head delivers the oldest element. |
| ReuseSpec.SkipPlaceholder | lockfree/queue/lockfree_queue_v2.hpp:159-186 | Pop on a consumed placeholder with a successor is the pop from the state after the placeholder is released. |
| ReuseSpec.ReleasedDelivers | lockfree/queue/lockfree_queue_v2.hpp:159-186 | The pop after a placeholder is released delivers. |
| ReuseSpec.PopSkips | lockfree/queue/lockfree_queue_v2.hpp:159-186 | Pop releases a consumed placeholder that has gained a successor and delivers the successor's element. |
| ReuseSpec.PopRefines | lockfree/queue/lockfree_queue_v2.hpp:125-214 | Pop is a FIFO dequeue. It keeps the invariant and delivers the oldest element exactly when there is one, dropping it. Otherwise it changes nothing. It never resets `pop_end` to 0 and never moves `push_end`. |
| ReuseSpec.PopReleasesOnlyWithSuccessor | lockfree/queue/lockfree_queue_v2.hpp:172-182 | The delivered head ends consumed. With no successor it stays busy and `pop_end` stays on it. With a successor it is released and `pop_end` moves to the successor. |
| ReuseQueue.Queue.constructor | lockfree/queue/lockfree_queue_v2.hpp:55-62 | Builds exactly `Capacity(sz)` slots, each free, consumed and unlinked (node_t, lines 19-27). All cursors are 0, the chain is empty and so are the contents. |
| ReuseQueue.Queue.Push | lockfree/queue/lockfree_queue_v2.hpp:66-123 | Given a free slot, push returns true, performs `PushStep`, appends the claimed slot to the chain and `x` to the contents, and leaves both ends non-zero. |
| ReuseQueue.Queue.Place | lockfree/queue/lockfree_queue_v2.hpp:70-112 | Probing and then appending performs `PushStep` and appends the claimed slot to the chain. |
| ReuseQueue.Queue.Probe | lockfree/queue/lockfree_queue_v2.hpp:68-80 | The probe loop returns the first free slot in probe order and marks only that slot busy. The cursor ends one past it, and a failed busy claim moves on to the next position (lines 115-117). |
| ReuseQueue.Queue.Append | lockfree/queue/lockfree_queue_v2.hpp:83-111 | Fills the claimed slot and links it as the whole chain or after the tail, with the ends moved as `Filled` says. |
| ReuseQueue.Queue.Pop | lockfree/queue/lockfree_queue_v2.hpp:125-214 | Pop performs `PopStep`. It succeeds exactly when the contents are non-empty and then outputs the oldest element and drops it. On failure it changes nothing, including the output. A set `pop_end` stays set. |
| ReuseQueue.Queue.Poll | lockfree/queue/lockfree_queue_v2.hpp:127-212 | The pop loop reaches the outcome `PopReady` describes: at most one placeholder release, then a delivery or a failure. |
| ReuseQueue.Queue.Round | lockfree/queue/lockfree_queue_v2.hpp:153-185 | One turn of the pop loop. It stops on no slot or on a drained slot without successor, and picks up `pop_end` when its move fails. Otherwise it consumes the slot, delivering it if it was not consumed yet. |
| ReuseQueue.Queue.Attempt | lockfree/queue/lockfree_queue_v2.hpp:167-185 | After `pop_end` moves on, marks the slot consumed and takes its payload if it was not consumed. It then restores `pop_end` when there is no successor, or frees the slot. |
| ReuseQueue.Queue.CasHead | lockfree/queue/lockfree_queue_v2.hpp:75 | Compare-and-set on the cursor, which returns the value seen. |
| ReuseQueue.Queue.CasPushEnd | lockfree/queue/lockfree_queue_v2.hpp:90-91 | Compare-and-set on `push_end`, which returns the value seen. |
| ReuseQueue.Queue.CasPopEnd | lockfree/queue/lockfree_queue_v2.hpp:167-176 | Compare-and-set on `pop_end`, which returns the value seen. |
| ReuseQueue.Queue.CasConsumed | lockfree/queue/lockfree_queue_v2.hpp:168-171 | Compare-and-set on a slot's `consumed` flag. |
| ReuseQueue.Queue.CasBusy | lockfree/queue/lockfree_queue_v2.hpp:179-181 | Compare-and-set on a slot's `busy` flag (also line 80). |
| ReuseQueue.Queue.CasNext | lockfree/queue/lockfree_queue_v2.hpp:100-102 | Compare-and-set on a slot's `next_p` link. |
| CountedSpec.InitialInv | lockfree/queue/lockfree_queue.hpp:65-75 | A freshly built ring keeps the invariant with an empty chain and empty contents. |
| CountedSpec.InvHeadShape | lockfree/queue/lockfree_queue.hpp:149-177 | Under the invariant, `pop_end` set implies `observed_last` is 0. The first node is named by `pop_end` or else by `observed_last`, exactly when the chain is not empty. Its `next` is 0 exactly when it is the only node. |
| CountedSpec.InvCursors | lockfree/queue/lockfree_queue.hpp:52-60 | Under the invariant, the counter is non-negative and the cursor and tail lie in the ring. |
| CountedSpec.LinkedLast | lockfree/queue/lockfree_queue.hpp:107-117 | The last node of a linked chain has `next` 0. |
| CountedSpec.TailOpen | lockfree/queue/lockfree_queue.hpp:107-117 | The tail has `next` 0, and an admitted push writes a node other than the tail, so the first link attempt succeeds. |
| CountedSpec.PushGate | lockfree/queue/lockfree_queue.hpp:81-82 | Push is refused exactly when `count_ >= ringsz / 4`, and a refused push changes nothing. Every push is refused when `ringsz < 4`. `count_` always stays within `0..ringsz / 4`. |
| CountedSpec.DistAround | lockfree/queue/lockfree_queue.hpp:84-89 | The slot after the cursor is `n - 1` advances behind it. |
| CountedSpec.PushSparesChain | lockfree/queue/lockfree_queue.hpp:84-94 | Push overwrites the node after the cursor without checking it. Under the gate, that node is never a queued node or the drained `observed_last` node. |
| CountedSpec.TrailAppend | lockfree/queue/lockfree_queue.hpp:84-94 | After push the chain consists of the nodes the cursor wrote last, still in order. |
| CountedSpec.AppendLinked | lockfree/queue/lockfree_queue.hpp:96-117 | Linking the written node, with `next` 0, after the old tail keeps the chain linked. |
| CountedSpec.TrailDistinct | lockfree/queue/lockfree_queue.hpp:84-94 | The chain of nodes the cursor wrote last names no node twice. |
| CountedSpec.PayloadsAppend | lockfree/queue/lockfree_queue.hpp:93 | Writing the payload of a node outside the chain and appending that node appends that payload. |
| CountedSpec.PushWrites | lockfree/queue/lockfree_queue.hpp:84-117 | An admitted push writes node `(head_ + 1) mod ringsz` with the payload and `next` 0, and `head_` moves onto it. On the first push both ends name that node. Otherwise the old tail links to it and `push_end` moves to it. `count_` goes up by one and nothing else changes. |
| CountedSpec.AppendKeepsInv | lockfree/queue/lockfree_queue.hpp:96-117 | An admitted push keeps the invariant with the written node appended to the chain. |
| CountedSpec.AppendLinks | lockfree/queue/lockfree_queue.hpp:96-117 | The written node becomes the chain's linked last node. |
| CountedSpec.AppendLive | lockfree/queue/lockfree_queue.hpp:99-117 | The written node joins the queued nodes at the back, whether or not a drained `observed_last` node heads the chain. |
| CountedSpec.AppendElements | lockfree/queue/lockfree_queue.hpp:84-117 | An admitted push appends its element at the back of the contents. |
| CountedSpec.PushAccepted | lockfree/queue/lockfree_queue.hpp:84-117 | An admitted push keeps the invariant and appends its element to the contents. |
| CountedSpec.PushRefines | lockfree/queue/lockfree_queue.hpp:79-135 | Push is a FIFO enqueue behind the gate. Admitted, it appends `x` to the contents; refused, it changes nothing. The invariant is kept, and with it `count_ <= ringsz / 4`. |
| CountedSpec.RestKeeps | lockfree/queue/lockfree_queue.hpp:154-195 | Dropping the first chain node keeps the trail and the links of the rest. |
| CountedSpec.PayloadsTail | lockfree/queue/lockfree_queue.hpp:176-178 | Dropping the first node drops the first payload. |
| CountedSpec.HandOffKeeps | lockfree/queue/lockfree_queue.hpp:154-172 | With `pop_end` 0 and a successor behind `observed_last`, pop clears `observed_last` and puts `pop_end` on the successor. It returns nothing, keeps the invariant and keeps the contents. |
| CountedSpec.DeliverWithSuccessor | lockfree/queue/lockfree_queue.hpp:174-195 | Popping a node that has a successor delivers the oldest element and drops it. `pop_end` moves to the successor. |
| CountedSpec.DeliverLast | lockfree/queue/lockfree_queue.hpp:174-195 | Popping the last linked node delivers the last element. It leaves `pop_end` 0 and the node in `observed_last`, and the contents become empty. |
| CountedSpec.PopRefines | lockfree/queue/lockfree_queue.hpp:144-199 | Pop keeps the invariant. When it delivers, it delivers the oldest element and drops it; otherwise it keeps the contents. It never touches the nodes, the cursor or the tail. |
| CountedSpec.PopOutcomes | lockfree/queue/lockfree_queue.hpp:144-199 | Pop delivers exactly when `pop_end` is set. It changes nothing exactly when `pop_end` is 0 and there is no drained node with a successor, which is exactly when the queue is empty (lines 149-153, 159, 172). In the remaining case the hand-off returns false and the next pop delivers (lines 154-172). |
| CountedSpec.PopDrains | lockfree/queue/lockfree_queue.hpp:174-195 | A delivering pop lowers `count_` by one. Popping the last linked node leaves `pop_end` 0 with the node in `observed_last` (lines 179-187); otherwise `pop_end` moves to `next`. |
| CountedQueue.Queue.constructor | lockfree/queue/lockfree_queue.hpp:65-75 | Builds exactly `sz` unlinked nodes (node_t, lines 23-35), with every field 0, an empty chain and empty contents. |
| CountedQueue.Queue.Push | lockfree/queue/lockfree_queue.hpp:79-135 | Push performs `PushStep`. It succeeds exactly when `count_ < ringsz / 4`, and then writes the node after the cursor, appends it to the chain and `x` to the contents. The counter stays within `ringsz / 4`. |
| CountedQueue.Queue.Place | lockfree/queue/lockfree_queue.hpp:84-117 | An admitted push: claim the next slot, write the payload and `next` 0, and link the node. This performs `PushStep`. |
| CountedQueue.Queue.Claim | lockfree/queue/lockfree_queue.hpp:84-90 | The cursor loop: the first attempt expects -1 and fails, and the second moves the cursor one slot on. It returns `Succ(head_)`. |
| CountedQueue.Queue.Link | lockfree/queue/lockfree_queue.hpp:96-117 | Links the written node as the first node (also setting `pop_end`) or after the tail. `push_end` moves to it and `count_` goes up by one. |
| CountedQueue.Queue.Pop | lockfree/queue/lockfree_queue.hpp:144-199 | Pop performs `PopStep` and succeeds exactly when `pop_end` was set. On success it outputs the oldest element and drops it. On failure it keeps the contents and the output, and on an empty queue it changes nothing. |
| CountedQueue.Queue.Poll | lockfree/queue/lockfree_queue.hpp:146-197 | The pop loop, which turns again only after a hand-off, reaches the outcome of `PopStep`. |
| CountedQueue.Queue.Round | lockfree/queue/lockfree_queue.hpp:147-196 | One turn of the pop loop covers four cases. With `expected` 0 it fails, or does the hand-off. A failed `pop_end` move picks up the value seen. Otherwise it consumes the node, records a drained last node in `observed_last` and lowers `count_`. |
| CountedQueue.Queue.CasHead | lockfree/queue/lockfree_queue.hpp:90 | Compare-and-set on the cursor, which returns the value seen. |
| CountedQueue.Queue.CasPushEnd | lockfree/queue/lockfree_queue.hpp:100 | Compare-and-set on `push_end`, which returns the value seen. |
| CountedQueue.Queue.CasPopEnd | lockfree/queue/lockfree_queue.hpp:177 | Compare-and-set on `pop_end`, which returns the value seen (also line 164). |
| CountedQueue.Queue.CasObserved | lockfree/queue/lockfree_queue.hpp:150-160 | Compare-and-set on `observed_last`, which returns the value seen (also line 182). |
| CountedQueue.Queue.CasNext | lockfree/queue/lockfree_queue.hpp:112 | Compare-and-set on a node's `next` link. |

## Left out

- Concurrency: thread interleavings, memory orders and the spurious failures of `compare_exchange_weak`. Every compare-and-swap is a deterministic compare-and-set run by one thread, and the lock-free progress guarantees are not modelled.
- Pointer identity: the source publishes `reinterpret_cast<type_t>(node)`. The model uses slot index + 1 instead, which keeps 0 as the null identity.
- The storage class (`Storage` / `sdk::inplaced_t`) is not part of this model. It is a fixed `array` of slots, and its `check_index` assertion (lockfree_queue.hpp:91) is not modelled.
- ReuseQueue.Queue.Push: requires some non-busy slot, because the source's probe loop (lockfree_queue_v2.hpp:70-119) never ends when every slot is busy. `RoomMeansFree` shows the requirement holds while fewer than `ringsz - 1` elements are queued.
- The retry loops that cannot turn twice when one thread runs the queue are single steps whose success is asserted:
  - the tail-link loops (lockfree_queue_v2.hpp:96-111, lockfree_queue.hpp:107-125);
  - the `observed_last` store loop (lockfree_queue.hpp:180-185).

  The cursor loops and both pop loops are modelled as loops.
- `std::move` of a payload is modelled as a copy: the moved-from payload stays in its slot.
- ReuseSpec.PopStep and CountedSpec.PopStep treat a `pop_end` or `observed_last` beyond the ring as "no slot". This totalises the functions, and the invariant rules that case out.
- Unused or commented-out code:
  - the v2 `observed_last` field and its commented blocks (lockfree_queue_v2.hpp:50, 131-150, 187-209);
  - `wrap_t` and `state_e` (lockfree_queue.hpp:37-50, 137-142);
  - the unused `alloc` template parameter and the commented-out allocations.
- I/O: the `std::printf` at lockfree_queue.hpp:102.
- Default construction of a payload is the array's default value of `T`. `value_type(args...)` is a single value `x`.
- The allocator wrappers, type-level concepts, type aliases, benchmarks, example program and multi-threaded test drivers are not part of this model. The single-consumer order check in lockfree/queue/tests/spsc.cpp:26-29 is what `PopRefines` states for one step.

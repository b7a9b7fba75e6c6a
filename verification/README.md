# Verified core of the dynamic-bandwidth repository

A Dafny model of the algorithms this repository rests on, and proofs of what they
promise. `dafny verify dfyconfig.toml` checks everything. Five components are modelled.

**Red-black trees** (`reordering_buffer/rbtree.c`, `rbtree_augmented.h`, `rbtree.h`).
Nodes are heap objects with the left, right, parent and colour fields of `struct rb_node`,
and the methods do the pointer writes of the C code, case by case. `RbTree` has the tree as
a value and the tree with one subtree cut out, which is the path of parents the loops climb.
`RbMemory` says when memory represents such a pair. `RbRotate`, `RbInsert`, `RbEraseColor`,
`RbSplice`, `RbPropagate`, `RbRelocate` and `RbErase` are the updates, `RbWalk` is the
iteration, and `RbFacts` has what follows from the colour rules.

**Token bucket scheduler** (`sch_tbf.c`, with the rate computation of
`net/sched/sch_generic.c`). `TokenBucket` is the scheduler as a state machine over arrivals,
polls and parameter changes, and its theorems; `ContinuousBucket` compares it with the bucket of
the header comment; `TbfQdisc` is the object with its operations, each tied to that machine;
`PacketRate` is the arithmetic of rates.

**Reorder counter and resequencer** (`reordering_buffer/reorder_counter.c`, and the same
algorithm with verdicts in `nfqueue.c`). `Resequencer` is one packet's effect on a flow, with
sequence numbers either in 32 bits or unbounded; `SequenceWindow` relates the two;
`StreamOrder` has the theorem about streams; `Verdicts` is the `nfqueue.c` variant,
`VerdictOrder` what it does to a stream, and `Drops` which packets it drops. `FlowBufs`, `ReorderCounter`, `NfQueue`, `FlowTables` and
`PacketHandler` are the heap: the buffer over the red-black tree above, the per-port chains of
flows, and the packet handlers on them.

**Attribute and control-message codecs** (`tbf/libnetlink.c`, `net/compat.c`). `Attributes`
says what an encoded attribute tree is and what the parser finds in it, `AttributeBuilder` and
`AttributeParser` are the code on byte arrays, and `ControlMessages` is the translation of
32-bit control messages in two passes over user memory that may change between them;
`UserMessages` says what each pass makes of any user memory, and what of a list laid out there.

**Size and rate tables** (`tbf/tc_core.c`): `SizeTable`.

How the C is rendered:

- `__rb_parent_color` is two fields, parent and colour. A tree also carries a ghost number per
  node that increases along the in-order sequence; it keeps subtrees apart in the proofs.
- While an erasure is halfway (`rbtree_augmented.h:205-230`), memory is compared with the tree it
  is about to be: `HalfLinked` says in which parents and colours the two still differ.
- `container_of` is a map from a tree node to the segment stored with it.
- The clock, the answers of the inner queue, memory allocation, the attribute parser's error
  code and the contents of user memory are parameters. `nfq_set_verdict` is a log, and what it
  returns is a parameter.
- Times, tokens and costs are unbounded integers except where a width matters: the 64-bit wrap
  of `psched_ns_t2l`, the limits of `mult` and `factor`, 32-bit sequence numbers, 16-bit
  attribute fields.
- Bytes are little-endian, and `nlmsg_len` is a field beside the buffer.
- Where a contract needs the place that a descent finds, it is a place `i` in the sorted
  buffer (`Slot`): a segment with that number, or a gap between neighbours before and after it.
  Without a window on the sequence numbers there can be several such gaps, and which one the
  code takes depends on the shape of the tree; every theorem holds for all of them.

Where code and comments disagree the code is followed:

- The comment in `reorder_counter.c:155-167` releases the arriving packet when the buffer is full
  and it comes before the lowest stored one; the code there does nothing. `nfqueue.c` does release it.
- The comments of both files increment the expected number by one and drain while the expected
  number is stored; the code adds the segment size, and `reorder_counter.c` drains everything at
  or before the expected number.
- `nfqueue.c:106` and `:128` return before any of the algorithm. What is modelled is the code
  below them, as it would run without those two returns.
- `sch_tbf.c:410-411` has the refill of the buckets on a change commented out; the model keeps
  the tokens, and the burst bound is proved across changes for that reason.

Properties that hold only under a condition:

- The unsigned comparison in `reorder_counter.c:178` agrees with the order of the sequence
  positions exactly if the two numbers have not wrapped apart (`RawOrder`, `StepWrap`), and
  `WrappedApart` gives a buffer and a packet for which the step goes wrong; `RunApart` reaches them from a new flow.
- With fixed parameters the scheduler sends the same packets at the same polls as the continuous
  bucket of `sch_tbf.c:47-58`, on every run from every start with the same levels, exactly if mtu is at
  most buffer, or no length that fits both buckets costs more at the peak rate than at the rate
  (`LazyExactly`). For a length that does, a run from empty buckets tells the two apart, and if its peak
  cost is above the buffer a scheduler that starts empty never sends it (`LazyCanStarve`). `LazyIsContinuous` is the
  sufficient half for the packets of one run. The peak levels agree after every pause exactly if mtu is
  at most buffer (`PeakLevelExact`).
- A throttled packet can ever be sent exactly if its cost is within the buffer, and its peak cost
  within mtu and also within the buffer plus the peak tokens left (`Fits`, `WatchdogExact`): a pause
  gives the peak bucket no more than the buffer. If that is false of the head of the queue, nothing
  leaves until the parameters change (`Blocked`). Every packet that is admitted can be sent from every
  state exactly if the peak cost of the largest one is within the buffer (`NeverBlocked`), and
  `BlockedAtOnce` is an accepted request with which a new queue is blocked from the start.
- `nfqueue.c` raises expected_next by an unsigned comparison. From any arrival order that begins with the
  first segment and never makes more than 256 segments wait, a stream leaves nothing held exactly if its
  segments, but for a SYN, start in one block of 2^32 numbers (`HeldExactly`). Then all of it is accepted,
  in stream order (`AcceptedInOrder`). `StuckExample` is a stream that is not.

## Model

| member | source | states |
|---|---|---|
| RbTree.InorderPlug | reordering_buffer/rbtree.h:34-38 | the in-order sequence of a tree is that of any subtree between the nodes before and after the path to it |
| RbTree.PlugRedBlack | reordering_buffer/rbtree.c:28-38 | a tree satisfies the colour rules if and only if a subtree does, the path to it fits its black height, and the two meet without red on red or a red root |
| RbFacts.ColoredMeaning | reordering_buffer/rbtree.c:31-33 | the recursive colour invariant holds if and only if no red node has a red child and every path to a leaf has the same number of black nodes |
| RbFacts.LongestPath | reordering_buffer/rbtree.c:35-38 | no path is longer than twice the number of black nodes on every path |
| RbFacts.Logarithmic | reordering_buffer/rbtree.c:35-38 | a valid tree of n nodes has height at most 2 log2(n + 1) |
| RbRoots.ChangeChild | reordering_buffer/rbtree_augmented.h:118-129 | exactly the one pointer to the old node, in its parent or in the root, becomes the new one |
| RbRoots.RotateSetParents | reordering_buffer/rbtree.c:74-82 | the new node takes the old one's parent, colour and place; the old one hangs below it in the given colour; nothing else changes |
| RbRotate.RotateRight | reordering_buffer/rbtree.c:156-171 | the pointer writes of a right rotation turn the represented tree into its rotation, with the augmented values of the two nodes recomputed |
| RbRotate.RotateLeft | reordering_buffer/rbtree.c:199-206 | the pointer writes of a left rotation turn the represented tree into its rotation, with the augmented values of the two nodes recomputed |
| RbRotate.AugmentRotate | reordering_buffer/rbtree_augmented.h:82-89 | the rotate callback gives the new top the old value and the old top its recomputed one |
| RbInsert.ColorFlip | reordering_buffer/rbtree.c:108-128 | case 1 recolours uncle, parent and grandparent and changes nothing else |
| RbInsert.Case2Left | reordering_buffer/rbtree.c:130-154 | case 2 straightens the bend with all links and values right except the pending rotation above it |
| RbInsert.Case2Right | reordering_buffer/rbtree.c:184-197 | on the right side case 2 straightens the opposite bend, with the same exception |
| RbInsert.LeftFixed | reordering_buffer/rbtree.c:130-171 | cases 2 and 3 give a valid black-topped subtree of the same black height, values and in-order sequence |
| RbInsert.RightFixed | reordering_buffer/rbtree.c:184-206 | the same of cases 2 and 3 under a right child |
| RbInsert.FixLeft | reordering_buffer/rbtree.c:130-171 | the pointer writes of cases 2 and 3 produce that subtree |
| RbInsert.FixRight | reordering_buffer/rbtree.c:184-206 | the pointer writes of cases 2 and 3 under a right child produce that subtree |
| RbInsert.FlipSound | reordering_buffer/rbtree.c:108-128 | case 1 moves the only violation two levels up and keeps the in-order sequence |
| RbInsert.Step | reordering_buffer/rbtree.c:91-207 | one iteration keeps the in-order sequence and either ends with a valid tree or leaves only a red node under a red parent or a red root, two levels higher |
| RbInsert.Insert | reordering_buffer/rbtree.c:84-209 | the loop terminates with a valid tree, every stored value up to date, and the in-order sequence unchanged |
| RbInsert.LinkAndInsert | reordering_buffer/rbtree.c:397-408 | linking a node at an empty slot and recolouring inserts it at exactly that in-order position and restores every invariant |
| RbSplice.LinkNode | reordering_buffer/rbtree.h:90-97 | the node becomes a red leaf at the empty slot |
| RbPropagate.Propagate | reordering_buffer/rbtree_augmented.h:61-74 | the early break is sound: the result is that of recomputing every value up to the stop node |
| RbPropagate.PropagateTo | reordering_buffer/rbtree_augmented.h:61-74 | the same where children and values are those of a tree but parents and colours need not be, as long as the parent pointers lead up the path and then to the stop node; only values of the tree change |
| RbFacts.StoredIsFold | reordering_buffer/rbtree_augmented.h:61-92 | for a computation that depends on order only, a stored value is the fold of its subtree's in-order sequence |
| RbSplice.TakeOut | reordering_buffer/rbtree_augmented.h:143-166 | a node with at most one child is replaced by that child in the node's colour |
| RbSplice.Promote | reordering_buffer/rbtree_augmented.h:171-230 | a right child without left child takes its parent's place, colour and left subtree |
| RbRelocate.FindSuccessor | reordering_buffer/rbtree_augmented.h:200-204 | the loop ends at the leftmost node of the right subtree and its parent |
| RbRelocate.HalfLink | reordering_buffer/rbtree_augmented.h:205-210 | memory is the tree without the successor, except that the top of the right subtree already points up at the successor and the successor's own child still does; the successor has the erased node's value |
| RbRelocate.PropagateSpine | reordering_buffer/rbtree_augmented.h:211 | in that half-linked state, propagating from the successor's old parent up to the successor recomputes exactly that path and changes nothing else |
| RbSplice.Seat | reordering_buffer/rbtree_augmented.h:214-230 | the successor takes the erased node's left child, parent, colour and place, its old child goes black below its old parent, and nothing else changes |
| RbRelocate.LinkUp | reordering_buffer/rbtree_augmented.h:214-230 | from the half-linked state these writes give a tree in memory with the successor in the erased node's place |
| RbRelocate.Relocate | reordering_buffer/rbtree_augmented.h:205-230 | in the order of the source, the successor is taken from its place and put in the erased node's place, with the values on the path between them up to date |
| RbErase.EraseAugmented | reordering_buffer/rbtree_augmented.h:134-236 | the node is gone from the in-order sequence, all values are up to date, and a rebalance is asked for exactly at a hole that is one black short |
| RbEraseColor.LeftRestored | reordering_buffer/rbtree.c:281-325 | cases 3 and 4 restore the black height of the subtree, keeping order and values |
| RbEraseColor.RightRestored | reordering_buffer/rbtree.c:356-378 | the same of cases 3 and 4 when the hole is a right child |
| RbEraseColor.FixLeft | reordering_buffer/rbtree.c:281-325 | the pointer writes of cases 3 and 4 produce that subtree |
| RbEraseColor.FixRight | reordering_buffer/rbtree.c:356-378 | the pointer writes of cases 3 and 4 when the hole is a right child produce that subtree |
| RbEraseColor.Case1Short | reordering_buffer/rbtree.c:231-249 | rotating a red sibling up keeps the defect where it is, now with a black sibling under a red parent |
| RbEraseColor.Case2Short | reordering_buffer/rbtree.c:250-280 | flipping a black sibling with black children ends the repair at a red parent and otherwise moves the defect up one level |
| RbEraseColor.Step | reordering_buffer/rbtree.c:222-379 | one iteration keeps the in-order sequence and either ends with a valid tree or leaves a place that is one black short, one level higher |
| RbEraseColor.EraseColor | reordering_buffer/rbtree.c:215-381 | the loop terminates with a valid tree, values up to date and the in-order sequence unchanged |
| RbErase.Erase | reordering_buffer/rbtree_augmented.h:238-245 | exactly the given node is removed from the in-order sequence; colours, black heights, links, root and stored values are all valid again |
| RbErase.EraseNode | reordering_buffer/rbtree.c:410-416 | the same without augmentation |
| RbSplice.ReplaceNode | reordering_buffer/rbtree.c:517-531 | the tree is valid again, and its in-order sequence is the old one with the new node in the victim's place |
| RbWalk.First | reordering_buffer/rbtree.c:434-444 | the first node of the in-order sequence, or null |
| RbWalk.Last | reordering_buffer/rbtree.c:446-456 | the last node of the in-order sequence, or null |
| RbWalk.Next | reordering_buffer/rbtree.c:458-487 | the in-order successor, null after the last node and for a node in no tree |
| RbWalk.Prev | reordering_buffer/rbtree.c:489-515 | the in-order predecessor, null before the first node and for a node in no tree |
| RbWalk.ThereAndBack | reordering_buffer/rbtree.c:458-515 | rb_prev undoes rb_next |
| RbWalk.Walk | reordering_buffer/rbtree.c:434-487 | rb_first and rb_next visit the in-order sequence, each node once |
| RbWalk.FirstPostorder | reordering_buffer/rbtree.c:563-569 | the first node of the postorder sequence, or null |
| RbWalk.NextPostorder | reordering_buffer/rbtree.c:545-561 | the next node of the postorder sequence, or null |
| RbWalk.PostorderWalk | reordering_buffer/rbtree.h:112-125 | the postorder walk visits every node of the tree once, each before its parent |
| PacketRate.Precompute | net/sched/sch_generic.c:1325-1358 | mult is the floor of the scaled reciprocal, nothing overflows, and no larger mult was possible |
| PacketRate.L2TMonotone | net/sched/sch_generic.c:1341-1342 | a longer packet never costs less, with overhead and whole ATM cells |
| PacketRate.L2TWithin | net/sched/sch_generic.c:1334-1346 | the reciprocal never charges more than the exact transmission time |
| PacketRate.L2TClose | net/sched/sch_generic.c:1334-1346 | nor less, but for one nanosecond and one 2^shift-th of a nanosecond for each byte |
| PacketRate.WireIs | sch_tbf.c:129-143 | on an ATM link the wire bytes are 53 for each of the fewest cells of 48 that hold length and overhead; on others they are length and overhead |
| PacketRate.T2LFits | sch_tbf.c:122-143 | a packet no longer than what psched_ns_t2l allows for a time costs no more than that time, in spite of the 64-bit wrap |
| PacketRate.T2LExact | sch_tbf.c:122-143 | a length from 1 on is within psched_ns_t2l if and only if its wire bytes take no longer than the time at the rate, up to the 64-bit wrap; so one byte more does not fit |
| TokenBucket.BitOrSign | sch_tbf.c:241 | the bitwise or of two numbers is non-negative if and only if both are |
| TokenBucket.WatchdogExact | sch_tbf.c:228-256 | after a throttled poll a later poll succeeds if and only if the packet fits (cost within buffer, peak cost within mtu and within buffer plus the peak tokens) and the watchdog time has come; that time is in the future |
| TokenBucket.BurstBound | sch_tbf.c:37-45 | over every run, with any changes of parameters, packets i to k cost at most the depth in force at i plus the time between them; likewise for the peak |
| TokenBucket.ByteBound | sch_tbf.c:37-45 | the bound in bytes: where the rate stays the same, the wire bytes of packets i to k at mult / 2^shift nanoseconds each take no more than that depth and time, plus less than one nanosecond a packet |
| ContinuousBucket.LazyIsContinuous | sch_tbf.c:47-58 | with fixed parameters and the same levels at the start, if mtu is at most buffer, or every packet of the run costs no more at the peak rate or is too long for one of the buckets (then both peak levels may also just be ahead of the rate's), the scheduler sends the same packets at the same polls as the continuous bucket of the header comment |
| ContinuousBucket.LazyExactly | sch_tbf.c:47-58 | for given parameters the two agree on every run from every such start if and only if mtu is at most buffer or no length that fits both buckets costs more at the peak rate |
| ContinuousBucket.LazyCanStarve | sch_tbf.c:228-233 | a packet whose peak cost is between buffer and mtu is sent by the continuous bucket after a pause, and on no run without a change by the scheduler that starts empty |
| ContinuousBucket.PeakLevelExact | sch_tbf.c:228-233 | the peak levels agree after every pause if and only if mtu is at most buffer |
| TokenBucket.InOrder | sch_tbf.c:258-267 | over every run what was sent followed by what is queued is what was queued followed by what arrived: nothing lost, duplicated or reordered |
| TokenBucket.Blocked | sch_tbf.c:241-267 | while the head of the queue does not fit, nothing at all is sent |
| TokenBucket.NeverBlocked | sch_tbf.c:228-241 | with depths sized to max_size, every packet of at most max_size fits in every state if and only if there is no peak rate or the peak cost of max_size is within the buffer |
| TbfQdisc.BlockedAtOnce | sch_tbf.c:332-416 | an accepted request with which a new queue never sends an admitted packet that costs no more than each depth |
| TbfQdisc.SizesFit | sch_tbf.c:332-376 | after every accepted change, in all combinations of the options, a packet of at most max_size costs at most each bucket's depth, and max_size is positive |
| TbfQdisc.AcceptedExactly | sch_tbf.c:332-376 | a request is accepted if and only if a peak rate is above the rate and one byte is within both buckets, and then max_size is the largest length within both: within the burst, or passing at the rate in the time given |
| TbfQdisc.InstalledIs | sch_tbf.c:400-414 | limit, rates and depths that an accepted request installs: the time a burst takes, or else the time given |
| TbfQdisc.Tbf.Levels | sch_tbf.c:228-239 | the step-by-step computation gives the two levels of the state machine |
| TbfQdisc.Tbf.Dequeue | sch_tbf.c:214-272 | one poll of the state machine: the head is sent and both levels are stored, or nothing changes and the watchdog is set; the queue length stays right |
| TbfQdisc.Tbf.Enqueue | sch_tbf.c:184-207 | an oversized packet that cannot be segmented, or one the inner queue refuses, changes nothing; otherwise it goes to the end of the queue |
| TbfQdisc.Tbf.Segment | sch_tbf.c:148-182 | exactly the segments the inner queue takes are appended, in order, and qlen grows by their number |
| TbfQdisc.ArrivedIs | sch_tbf.c:162-175 | wherever a segment stands among the others, it is queued if and only if the inner queue takes it, and in turn |
| TbfQdisc.Tbf.Change | sch_tbf.c:297-420 | which error is returned when; every error leaves the scheduler untouched; success installs all parameters, with the largest mult that fits, sized to the buckets; tokens, time and queue are kept in any case |
| TbfQdisc.Tbf.Reset | sch_tbf.c:274-285 | the queue is empty and both buckets are full as of now, with the parameters unchanged |
| SerialNumber.WindowOrder | reordering_buffer/reorder_counter.h:29-33 | for positions less than 2^31 apart, before() on the wrapped numbers is the order of the positions |
| SerialNumber.Comparable | reordering_buffer/reorder_counter.h:29-33 | two 32-bit numbers are unordered both ways if and only if they are equal |
| SerialNumber.RawOrder | reordering_buffer/reorder_counter.c:178 | the unsigned comparison agrees with the order of the positions if and only if both lie in the same block of 2^32 |
| Resequencer.SlotExists | reordering_buffer/reorder_counter.c:204-222 | there is always a segment with the number or a gap for it |
| Resequencer.NothingLost | reordering_buffer/reorder_counter.c:213-221 | inserting a segment loses nothing: every stored segment and the new one is still covered by one of the same number that is at least as long |
| Resequencer.StepGood | reordering_buffer/reorder_counter.c:112-192 | whatever the numbers, neighbours in the buffer stay in serial order, the buffer never exceeds FBUF_SIZ, and what the count gains is what the buffer gained plus what left it |
| Resequencer.ExpectedIs | reordering_buffer/reorder_counter.c:112-192 | expected_next is the end, modulo 2^32, of the segment that left last, which is the packet itself if it passed alone (one past it for a SYN); it stays if none left |
| Resequencer.PassIs | reordering_buffer/reorder_counter.c:112-137 | a packet passes if and only if its number is not after expected_next; then nothing is counted, and what left and what stays are the buffer in order |
| Resequencer.LeavesIs | reordering_buffer/reorder_counter.c:118-131 | with a packet that passes leave as many segments as the longest chain that starts where it ends, each starting no later than where the one before ends |
| Resequencer.StoreIs | reordering_buffer/reorder_counter.c:143-239 | a packet that does not pass: when the lowest segment leaves, when the packet is forgotten, and otherwise where it is held, in whose stead, and when it counts |
| Resequencer.DrainedAhead | reordering_buffer/reorder_counter.c:123-131 | with exact numbers every key left after the drain loop is after expected_next |
| Resequencer.AlwaysAccounted | reordering_buffer/reorder_counter.c:123-239 | over every run of all flows the count is the segments held plus the segments released, and every buffer stays bounded and ordered |
| SequenceWindow.SlotWrap | reordering_buffer/reorder_counter.c:204-222 | in a window the 32-bit descent can end exactly where the unbounded one can |
| SequenceWindow.StepWrap | reordering_buffer/reorder_counter.c:112-192 | in a window one 32-bit step is the wrapped unbounded step if and only if the full-buffer comparison does not meet numbers that wrapped apart |
| SequenceWindow.WrappedApart | reordering_buffer/reorder_counter.c:171-183 | a full buffer, a packet and a legal end of its descent for which it is not |
| SequenceWindow.NothingDue | reordering_buffer/reorder_counter.c:123-131 | in a window every key left after the drain loop is after expected_next by the 32-bit comparison |
| SequenceWindow.RunWrap | reordering_buffer/reorder_counter.c:112-148 | whole runs with sliding windows take the same branches, build the same buffers, release the same segments and count the same |
| SequenceWindow.RunApart | reordering_buffer/reorder_counter.c:112-192 | a run from a new flow, at the end of which the 32-bit flow is not the wrapped unbounded one |
| StreamOrder.InStreamOrder | reordering_buffer/reorder_counter.c:112-148 | for every arrival order of a contiguous stream that starts with its first segment and never needs more than FBUF_SIZ held, the segments leave in stream order, the buffer ends empty, and the count is the number of segments that arrived before some earlier one |
| FlowBufs.FlowBuf.Search | reordering_buffer/reorder_counter.c:199-222 | the walk down the tree ends at the node with this number or at an empty child slot between its serial neighbours |
| FlowBufs.FlowBuf.Descend | reordering_buffer/reorder_counter.c:199-222 | as a place in the buffer: the segment with this number, or the gap where the order allows it |
| FlowBufs.FlowBuf.Link | reordering_buffer/reorder_counter.c:226-234 | a new segment stands at that place of the buffer, size counts it, and the tree is valid |
| FlowBufs.FlowBuf.Unlink | reordering_buffer/reorder_counter.c:253-257 | the first segment is gone from buffer and tree, and size counts it out |
| ReorderCounter.InsertOrSend | reordering_buffer/reorder_counter.c:195-239 | the larger or newer of two segments with one number stays; otherwise the segment is inserted in its place and counted |
| ReorderCounter.SendPacketAt | reordering_buffer/reorder_counter.c:248-259 | the first segment leaves and expected_next is its end modulo 2^32 |
| ReorderCounter.Drain | reordering_buffer/reorder_counter.c:123-131 | the loop releases exactly the segments that are due |
| ReorderCounter.HandlePacket | reordering_buffer/reorder_counter.c:112-192 | tree, size, expected_next, count and return value all change as the step on sequences says, which ExpectedIs, PassIs, LeavesIs and StoreIs describe |
| FlowTables.FlowTable.Find | reordering_buffer/reorder_counter.c:80-89 | the chain walk finds the flow of the two ports if there is one, and otherwise the end of the chain |
| FlowTables.FlowTable.FindOrCreate | reordering_buffer/reorder_counter.c:68-99 | the table is a map keyed by both ports: an old flow is found, a new one is added, and every chain stays doubly linked with distinct destination ports |
| FlowTables.FlowTable.Remove | reordering_buffer/nfqueue.c:390-399 | unlinking removes exactly this key and this flow, and every chain stays well linked |
| PacketHandler.Receive | reordering_buffer/reorder_counter.c:63-192 | a packet changes only the flow of its ports, as one step from its old state or from a fresh one; the return value says how it was handled; all flows stay sound and apart in memory |
| PacketHandler.Count | reordering_buffer/reorder_counter.c:63-192 | on the heap, each packet is one step of the machine over all flows of the table: reorder_count is the segments held in the table plus those released, and no flow exceeds FBUF_SIZ |
| Verdicts.RuleSorted | reordering_buffer/nfqueue.c:187-276 | the buffer stays ordered and within its 256 places |
| Verdicts.RuleRaises | reordering_buffer/nfqueue.c:195-198 | expected_next only grows as an unsigned number, unless a SYN passes |
| Verdicts.RuleDrains | reordering_buffer/nfqueue.c:202-206 | after a packet passed, the buffer does not start with the number expected next |
| Verdicts.RuleConserves | reordering_buffer/nfqueue.c:187-276 | an id that came in or was held is afterwards judged or held, as often as before |
| Verdicts.OneVerdict | reordering_buffer/nfqueue.c:187-403 | at every point of every run, over all flows and timeouts, an id has been judged or is held exactly as often as it was received |
| VerdictOrder.AcceptedInOrder | reordering_buffer/nfqueue.c:187-276 | for every arrival order of a contiguous stream in one block of 2^32 that starts with its first segment and never needs more than 256 held, every segment is accepted, in stream order, and none stays held |
| VerdictOrder.HeldExactly | reordering_buffer/nfqueue.c:187-276 | for every such arrival order of a contiguous stream, whatever its numbers, nothing stays held at the end if and only if its segments, but for a SYN, start in one block of 2^32 |
| VerdictOrder.InOrderExactly | reordering_buffer/nfqueue.c:187-276 | in particular for a stream that arrives in order |
| VerdictOrder.StuckExample | reordering_buffer/nfqueue.c:195-206 | two segments across 2^32, the second of which is held though it is the next one |
| Drops.DropsExactly | reordering_buffer/nfqueue.c:187-356 | a packet that came in or is held gets a drop verdict if and only if it is superseded: the packet that came in is to be held, this one is it or has its number, and another of that number, at least as long, is held in its stead; all other verdicts accept |
| Drops.DroppedExactly | reordering_buffer/nfqueue.c:187-403 | at every point of every run in which no id comes twice, the ids dropped are exactly those that were superseded, and none of them is accepted or held; the accepted ones are the others that are no longer held |
| Drops.PassesIs | reordering_buffer/nfqueue.c:187-212 | a packet not after expected_next is accepted first, then the held segments as long as each has in turn the number expected next; that number is the largest end, unsigned, among it and what has left, and a SYN sets it |
| Drops.HeldIs | reordering_buffer/nfqueue.c:218-276 | a packet that does not pass: when it is accepted out of turn, and otherwise where it is held and in whose stead, and what a full buffer lets go |
| NfQueue.InsertOrSend | reordering_buffer/nfqueue.c:299-356 | of two packets with one number the smaller or older is dropped and that verdict's return value is returned; otherwise the packet is held without verdict and the result is zero |
| NfQueue.SendPacketAt | reordering_buffer/nfqueue.c:358-378 | the first packet is accepted and leaves, and expected_next is raised to its end if that is greater |
| NfQueue.HandlePacket | reordering_buffer/nfqueue.c:187-276 | flow and verdicts change as the rule on sequences says, which PassesIs, HeldIs and DropsExactly describe, and the return value is that of the branch taken |
| NfQueue.Empty | reordering_buffer/nfqueue.c:382-388 | every held packet is accepted, in order, and none stays held |
| PacketHandler.EmptyAndDestroy | reordering_buffer/nfqueue.c:380-403 | the same, the flow is gone from the table, and every other flow is unchanged and sound |
| PacketHandler.ReceiveVerdict | reordering_buffer/nfqueue.c:130-276 | a packet changes only the flow of its ports, found or made, as the rule says; verdicts and return value follow; all flows stay sound and apart in memory |
| PacketHandler.Judge | reordering_buffer/nfqueue.c:130-276 | on the heap, each packet is one arrival of the machine that OneVerdict is about |
| PacketHandler.Expire | reordering_buffer/nfqueue.c:278-403 | and each timeout is one expiry of it |
| Attributes.AlignMacro | tbf/include/uapi/linux/rtnetlink.h:181-182 | the alignment is the least multiple of four that the macro computes |
| Attributes.HeaderBytes | tbf/include/uapi/linux/rtnetlink.h:174-177 | a header is two bytes of length and two of type, little-endian |
| Attributes.AndNotBits | tbf/libnetlink.c:1362 | a bit of the masked type is set if and only if it is set in the type and not in the flags |
| Attributes.AndNotZero | tbf/libnetlink.c:1350-1353 | with no flags the type is unchanged |
| Attributes.ParsingIs | tbf/libnetlink.c:1355-1371 | on any bytes the loop stands at headers that lie one behind the other, rounded up to four; it ends where what is left is too short for a header or for what it says, and that much is left over; a slot gets the first of its type or nothing |
| Attributes.NoDeficit | tbf/libnetlink.c:1361-1369 | walking an encoded list ends with no bytes left over |
| Attributes.FindsAll | tbf/libnetlink.c:1355-1371 | in an encoded list the parser finds the first attribute of each type, where it was put, and nothing for other types |
| Attributes.FindsKind | tbf/libnetlink.c:1350-1353 | with no flags that goes by the attribute's own type |
| Attributes.Parses | tbf/libnetlink.c:1350-1399 | along any path of nests and compat nests the parser finds the first attribute that has this type, with its exact header and payload, or nothing if the tree has none |
| Attributes.CompatIs | tbf/libnetlink.c:1387-1399 | a compat nest is refused if and only if its length says that the fixed part is missing; nothing is parsed if that is all there is, and otherwise what the header behind the padded fixed part says |
| AttributeBuilder.Frame | tbf/libnetlink.c:1223-1227 | an encoding depends on its own bytes only |
| AttributeBuilder.Message.AddAttr | tbf/libnetlink.c:1210-1229 | a call that does not fit changes nothing; one that fits writes header and data at the tail, leaves every other byte alone, padding included, and advances the length |
| AttributeBuilder.Message.AddNest | tbf/libnetlink.c:1246-1252 | an empty attribute is opened at the tail, or nothing changes |
| AttributeBuilder.Message.NestEnd | tbf/libnetlink.c:1254-1258 | only the length of the nest changes, to what lies between it and the tail |
| AttributeBuilder.Message.AddCompat | tbf/libnetlink.c:1260-1268 | the fixed part and then an empty nest of the same type are opened at the tail, each of them only if it fits |
| AttributeBuilder.Message.CompatEnd | tbf/libnetlink.c:1270-1277 | exactly the two lengths change |
| AttributeBuilder.CompatClosed | tbf/libnetlink.c:1260-1277 | closing an open compat nest gives its encoding |
| AttributeBuilder.Message.Emit | tbf/libnetlink.c:1210-1277 | for every attribute tree that fits, the calls that build it leave its encoding at the tail and the bytes before it unchanged |
| AttributeParser.ParseFlags | tbf/libnetlink.c:1355-1371 | for any bytes whose headers can be read as far as the loop goes, it terminates with the first attribute of each type in the table and the length that is left over |
| AttributeParser.ParseNestedCompat | tbf/libnetlink.c:1387-1399 | a short payload is refused with the table untouched and -1 returned; otherwise the table is that of the nest, or empty if there is none, and 0 is returned; the payload length is unsigned |
| AttributeParser.RoundTrip | tbf/libnetlink.c:1210-1399 | building a list and parsing the same bytes leaves nothing over; every slot holds the first attribute of its type where it was put, or nothing, and with no flags that is the attribute's own type; and so along every path of nests |
| ControlMessages.Count | net/compat.c:134-149 | the first pass returns the room the translated messages take, or the first error |
| ControlMessages.NextIs | net/compat.c:108-117 | the next header is at the next multiple of four behind the message, if that is inside the buffer |
| UserMessages.TotalIs | net/compat.c:134-149 | on any memory the first pass stands at headers each padded to four; it counts the 64-bit room of all if they reach the end of the buffer, and otherwise fails at a length it cannot read, or one too small or past the end |
| ControlMessages.TotalBound | net/compat.c:145-147 | that room is at most twice the user's buffer |
| ControlMessages.SameRoom | net/compat.c:165-193 | with the memory unchanged the second pass fills exactly that room |
| ControlMessages.MessagesAre | net/compat.c:88-116 | the second pass reads a list of messages if and only if message i lies in user memory behind those before it, each padded to four, none past the end, with no room for another behind the last, and there is kernel room for them |
| UserMessages.MessagesFail | net/compat.c:165-187 | every error of the second pass: behind the messages it has read lies one that it cannot read, or whose length is too small, past the end or more than the room left |
| ControlMessages.CopyOver | net/compat.c:165-186 | for any memory the second pass terminates, writes only inside the buffer, and has laid out exactly the messages it read |
| ControlMessages.Stable | net/compat.c:122-206 | with the memory unchanged, what the first pass accepts can only fail by a fault |
| UserMessages.Succeeds | net/compat.c:122-206 | a call succeeds with a list if and only if the second pass finds it and it takes the room the first one counted, which is not nothing and which there is; -ENOBUFS exactly if there is none |
| UserMessages.Delivered | net/compat.c:122-206 | a list that the user lays out in the 32-bit layout, byte by byte with its padding, and leaves alone is the list the kernel gets |
| ControlMessages.WalkLists | net/compat.c:171-184 | walking a laid-out buffer from header to header gives the list of messages back |
| ControlMessages.HeadersAligned | net/compat.c:174-184 | message i lies behind the room of the messages before it, which is a multiple of eight |
| ControlMessages.FromUser | net/compat.c:122-206 | every error is the one the source returns; success means the buffer is filled to its last byte with the level, type and payload of the messages that were in user memory during the second pass |
| SizeTable.Cells | tbf/tc_core.c:80-90 | the least number of ATM cells that hold the bytes |
| SizeTable.AdjustIs | tbf/tc_core.c:92-105 | at least the MPU; the larger of size and MPU, and on an ATM link 53 bytes for each of the fewest cells that hold it |
| SizeTable.ShiftIs | tbf/tc_core.c:189-194 | shifts multiply and divide by a power of two |
| SizeTable.LeastShift | tbf/tc_core.c:180-182 | the least shift that brings the MTU within the table |
| SizeTable.Covers | tbf/tc_core.c:155-157 | every length from 1 to the MTU has a slot in range, computed from an adjusted size no smaller than its own |
| SizeTable.SlotTight | tbf/tc_core.c:155-157 | and some length of the slot has exactly the size it is computed from |
| SizeTable.SizeSpec.FillTable | tbf/tc_core.c:188-196 | the restarts terminate with the least size_log, from its start value, at which every entry fits 16 bits, and every entry is its adjusted size shifted by it |
| SizeTable.SizeSpec.Calc | tbf/tc_core.c:159-200 | defaults, early return, allocation failure, least cell_log and the finished table |
| SizeTable.RateSpec.CalcTable | tbf/tc_core.c:126-153 | the least cell_log if none is given, every entry the time of its slot's adjusted size, and the fields of the rate that are set |

## Left out

- TbfQdisc.Tbf.Dequeue: tokens and times do not overflow, because the 64-bit nanosecond range is treated as unbounded.
- TbfQdisc.Tbf.Segment: does not model qstats.backlog, because the source does not keep it on this path either.
- PacketRate.L2TWithin: is about the formula in the comment of psched_ratecfg_precompute, because psched_l2t_ns is not part of this repository.
- ReorderCounter.InsertOrSend: does not model the 64-bit wrap of reorder_count.
- AttributeParser.ParseNestedCompat: a header that the walk reaches outside the message is not covered, because the source then reads whatever memory is there.
- ControlMessages.FromUser: does not model lengths near INT_MAX, where the alignment in cmsg_compat_nxthdr would overflow an int.
- SizeTable.SizeSpec.FillTable: does not model shifts past the width of an unsigned int.
- StreamOrder.InStreamOrder: is about streams without retransmissions, as the source's comments describe; StepGood, ExpectedIs and AlwaysAccounted cover packets and runs with them.
- VerdictOrder.AcceptedInOrder: is about streams without retransmissions, too; OneVerdict and DroppedExactly cover runs with them.
- PacketHandler.EmptyAndDestroy: does not model the return value, which its caller does not read.
- Timers, libev and last_activity in nfqueue.c; a timeout is an event that may happen to any flow at any time.
- Statistics, dumps and class operations of sch_tbf.c, and the change of its inner queue.
- rta_addattr_l and the fixed-width addattr helpers of libnetlink.c, which follow the same layout rule.
- put_cmsg_compat and the rest of net/compat.c, which translate one message or option at a time.
- The floating-point tick conversion of tc_core.c; the rate table takes any transmission time.
- The RCU variants of rbtree.h and rbtree.c.
- Sockets, netlink I/O, packet header parsing, signal handlers and the command-line programs.

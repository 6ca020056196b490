# Verified model of xsk-rs

xsk-rs is a Rust library for AF_XDP sockets. A user program shares a region of memory, the
UMEM, with the kernel. The region is cut into frames, and frames travel between the program
and the kernel through four rings: the program fills the *fill ring* and the kernel returns
received packets on the *rx ring*; the program submits packets on the *tx ring* and gets
the frames back on the *completion ring*. Nothing in the library stops a program from using
a frame it has given away. Its documentation asks the program not to, and promises that all
is well if it does not. This project models the library down to wrapping u32 ring indices
and single cursor writes, and proves those promises over every run.

| file | models |
|---|---|
| `Words.dfy` | u32 arithmetic, `is_pow_of_two`, masking, `QueueSize` |
| `Ring.dfy` | one ring: masked slots, published and cached indices, both sides interleaved at single accesses |
| `Queues.dfy` | the four queue types as classes, their loops proved against the ring functions |
| `Frames.dfy` | descriptors, configuration, frame layout, addresses |
| `Region.dfy` | the byte region, segment views, the write cursor |
| `Bags.dfy` | sums of bags over sequences |
| `Protocol.dfy` | the frame-ownership protocol: any number of UMEMs, sockets and queue pairs, a nondeterministic kernel, a lossy wire |
| `Ownership.dfy` | what every run of the protocol keeps |
| `Delivery.dfy` | a packet followed along a run, from the write to the read |
| `Batches.dfy` | whole `produce` and `consume` calls as runs of the protocol |
| `Composed.dfy` | the protocol on the rings of `Ring.dfy`, every ring in the middle of calls |
| `Journey.dfy` | one packet's whole way, as a run of the protocol |
| `Paths.dfy`, `Receiver.dfy` | the receiver loop of the `dev1_to_dev2` example under a running kernel |
| `Transmit.dfy`, `Sender.dfy` | its sender loops under a kernel that reads packets from memory when it likes |
| `Lifetime.dfy` | Arc counts, field order and teardown |
| `HandOut.dfy` | which `Socket::new` call gets a fill and completion queue |

`dafny verify dfyconfig.toml` checks the whole project. Proofs hide definitions they do not need
(`hide`), which keeps them cheap and steady.

Main results:

- **The ring is a FIFO.** `Ring.RingRefinesFifo` takes the two sides apart into reserve, each
  slot write, submit, peek, each slot read and release, in any interleaving. What is consumed
  is always a prefix of what was submitted, occupancy by wrapping subtraction is exact, no
  unread slot is ever overwritten and no unwritten slot is ever read, past any number of
  wrap-arounds of the u32 indices.
- **Ownership.** `Ownership.OwnershipInEveryRun`: in every state reachable by user and kernel steps
  in any order, each frame of each UMEM is in exactly one place.
  `Composed.OwnershipOnRealRings` says the same of the net in which every ring is the machine of
  `Ring.dfy`: descriptors in hands and in occupied slots are of pairwise different frames.
- **Delivery.** `Delivery.ReadAsWritten`: a packet written to a frame, submitted some time later,
  carried through rings, kernels and wire during any run, consumed in any host and read some time
  after that, is read exactly as it was written. `Ownership.DeliveryInEveryRun` adds that no packet
  is delivered twice, and `Journey.PacketGetsThrough` that every packet that fits can get through.
- **The example's loops.** `Receiver.ReceiverLoop`, `Sender.SenderLoop` and
  `Sender.SingleThreadedLoop`: frame recycling, counters, whole-packet sends, retry loops,
  packets in flight that stay as they were submitted until their completion is read, when the
  loops panic, and that they end when the kernel keeps working.
- **Segments do not interfere.** `Region.SegmentsAreIndependent` and `Region.ReadsOwnOperations`: the
  shared region behaves as one independent buffer for each segment of each frame.
- **Teardown.** `Lifetime.OnlyThisOrderIsSafe`: of the possible field orders, exactly the one in
  the source is safe in every run of clones, drops and interleaved destructors. Live handles are
  counted from the program's own clones and drops.

Where the code and the documentation disagree the model follows the code. One promise is false
as stated: `build` is meant to reject headrooms that exceed the frame size, but its u32 sum can
wrap, and then an impossible headroom is accepted. `Frames.WrappedHeadroomIsAccepted` gives such
a configuration, and `Frames.BuildIsRightIffUnwrapped` states that `build` decides rightly if and
only if the sum stays below 2^32.

The ring primitives of libxdp are not part of the repository. `Ring.dfy` gives them explicit
bodies, and these are an assumption: reserve is all or nothing and refreshes its cache only when
short; peek hands out at most what its cache shows and refreshes it only when empty; a slot is
addressed by masking; submit and release advance the published index. `HandOut.Libxdp` is the
corresponding assumption about `xsk_socket__create_shared`.

## Model

| member | source | states |
|---|---|---|
| `Words.IsPowOfTwoExact` | src/util.rs:7-12 | the bit test holds of a u32 exactly when it is 2^k for some k below 32 |
| `Words.NewQueueSize` | src/config/mod.rs:33-39 | a queue size is accepted exactly when it is a power of two, and is kept as given; a refused one is reported |
| `Words.MaskIsMod` | src/umem/fill_queue.rs:62-69 | for every accepted size and every unbounded position n, masking n mod 2^32 gives n mod size |
| `Words.WrapSubExact` | src/ring.rs:24-33 | wrapping subtraction of two wrapped positions less than 2^32 apart is their true distance |
| `Ring.ReserveMeaning` | src/umem/fill_queue.rs:59 | a reservation is all or nothing and is refused exactly when the ring lacks the room, in spite of the stale cache |
| `Ring.PeekMeaning` | src/socket/rx_queue.rs:52 | a peek hands out a non-empty run starting at the oldest unread entry exactly when one is asked for and one is there |
| `Ring.RingRefinesFifo` | src/umem/fill_queue.rs:57-72 | in every interleaving of fine-grained steps, what was consumed is a prefix of what was submitted; occupancy is exact; all unread slots hold the submitted entries; a partial read is a prefix of the unread entries |
| `Ring.ReserveIsExact` | src/umem/fill_queue.rs:30-32 | in every reachable state a batch is accepted whole exactly when it fits the true free space, otherwise not at all |
| `Ring.PeekIsExact` | src/socket/rx_queue.rs:26-28 | in every reachable state a peek finds something exactly when something is undelivered, and never more than asked or than there is |
| `Ring.ProduceMeaning` | src/socket/tx_queue.rs:47-75 | a whole produce appends the batch to the ring's history exactly when it fits and changes nothing in it otherwise |
| `Ring.ConsumeMeaning` | src/umem/comp_queue.rs:44-72 | a whole consume returns the oldest entries in order, at least one whenever there is one, and removes exactly those |
| `Ring.BatchProduceIsSingles` | src/umem/fill_queue.rs:50-99 | an accepted batch leaves the very same ring and cache as the same descriptors through `produce_one` |
| `Ring.BatchConsumeIsSingles` | src/socket/rx_queue.rs:43-103 | k entries consumed at once are the same entries, ring and cache as k times `consume_one` |
| `Ring.ProduceIsRun` | src/umem/fill_queue.rs:57-72 | a `produce` call is the run reserve, write each slot, submit of the fine-grained machine, or a refused reserve, and leaves the same ring and cache |
| `Ring.ConsumeIsRun` | src/socket/rx_queue.rs:50-70 | a `consume` call is the run peek, read each slot, release, reads the same entries and leaves the same ring and cache |
| `Queues.FillQueue.Produce` | src/umem/fill_queue.rs:50-75 | the loop over descriptors leaves ring and count as the specification function does, also for an empty slice and for a length of 2^32 or more |
| `Queues.FillQueue.ProduceOne` | src/umem/fill_queue.rs:85-99 | the same for one descriptor |
| `Queues.TxQueue.Produce` | src/socket/tx_queue.rs:47-75 | the loop writes each descriptor's address, u32 length and options into consecutive slots and publishes them together |
| `Queues.TxQueue.ProduceOne` | src/socket/tx_queue.rs:85-103 | the same for one descriptor |
| `Queues.RxQueue.Consume` | src/socket/rx_queue.rs:43-73 | the first `cnt` descriptors take address, length and options from the oldest entries in order, headroom length zero; the rest keep their values |
| `Queues.RxQueue.ConsumeOne` | src/socket/rx_queue.rs:83-103 | the same for one descriptor, which keeps its value when nothing is there |
| `Queues.CompQueue.Consume` | src/umem/comp_queue.rs:44-72 | the first `cnt` descriptors take the addresses of the oldest completed frames, with options and both lengths zero; the rest keep their values |
| `Queues.CompQueue.ConsumeOne` | src/umem/comp_queue.rs:82-99 | the same for one descriptor |
| `Frames.DescriptorRoundTrip` | src/umem/frame/mod.rs:101-105 | a descriptor written to a slot and read back keeps address, options and data length exactly when the length fits a u32 |
| `Frames.NewFrameSize` | src/config/mod.rs:75-81 | a frame size is accepted exactly from 2048 on, and kept as given; a refused one is reported |
| `Frames.Build` | src/config/umem.rs:57-69 | what is accepted is the configuration itself; a refusal reports the frame size and a larger total headroom |
| `Frames.BuildIsRightIffUnwrapped` | src/config/umem.rs:57-69 | for every frame size that can be configured, `build` accepts exactly the headrooms that fit if and only if the headroom sum does not wrap; a wrapped sum is always accepted, although that headroom exceeds the frame |
| `Frames.MtuExact` | src/config/umem.rs:125-127 | the mtu of an accepted configuration is the rest of the frame, or 2^32 more than that when the sum wraps |
| `Frames.LayoutMatchesConfig` | src/umem/mod.rs:356-370 | for accepted configurations the layout's frame size is the configured one exactly when the headroom sum does not wrap; otherwise it is 2^32 too large |
| `Frames.LayoutFields` | src/umem/mod.rs:362-370 | the layout is 256 bytes for XDP programs, the configured headroom, and the rest of the frame for packets |
| `Frames.WrappedHeadroomIsAccepted` | src/config/umem.rs:59-61 | a concrete configuration that is accepted although its headroom exceeds its frame, with a layout that disagrees with it |
| `Frames.BaseIsProduct` | src/umem/mod.rs:185 | frames laid end to end begin at multiples of the frame size |
| `Frames.RegionLenIsProduct` | src/umem/mem/mod.rs:45 | the region is as long as the frame count times the frame size |
| `Frames.SegmentPlaces` | src/umem/mem/mod.rs:76-90 | XDP headroom, headroom segment and data segment follow each other from the start of the frame and fill it |
| `Frames.SegmentInside` | src/umem/mem/mod.rs:76-90 | every headroom and data segment lies within its own frame, behind the XDP headroom, and the frame within the region |
| `Frames.SegmentsDisjoint` | src/umem/mem/mod.rs:119-136 | two different segments, of any frames, never share a byte |
| `Frames.NoAddressOverflow` | src/umem/mod.rs:184-190 | for every accepted configuration without wrapping and every u32 frame count, no 64-bit address computation overflows or goes below zero |
| `Frames.InitialDescs` | src/umem/mod.rs:180-190 | the loop of `Umem::new` yields one blank descriptor for each frame, the i-th at i times the frame size plus 256 plus the headroom, with disjoint segments |
| `Region.WriteTwice` | src/umem/frame/cursor.rs:56-63 | two writes in a row are one write of the joined bytes when the first was complete |
| `Region.WriteReadsBack` | src/umem/frame/cursor.rs:56-63 | the bytes before the position and after the write are kept, what was written is read back, a write falls short only when the segment is full, and at a position beyond the buffer it does nothing |
| `Region.Cursor.SetPos` | src/umem/frame/cursor.rs:33-35 | the position is clamped to the buffer |
| `Region.Cursor.ZeroOut` | src/umem/frame/cursor.rs:46-49 | every byte of the segment is zero and the position is at its start; bytes outside are kept |
| `Region.Cursor.Write` | src/umem/frame/cursor.rs:56-63 | as many bytes as fit go in at the position, which advances by that; bytes outside are kept |
| `Region.Cursor.WriteVectored` | src/umem/frame/cursor.rs:66-76 | the loop that stops at the first short write equals one write of the joined buffers in bytes, position and count, for every list and position |
| `Region.SegmentsAreIndependent` | src/umem/mem/mod.rs:94-159 | after any sequence of operations on any segments of any frames, each segment and its length are what its own operations alone would have made of it |
| `Region.UmemRegion.Operate` | src/umem/mem/mod.rs:140-159 | a cursor call through `headroom_mut` or `data_mut` on the shared byte array and the descriptor is one such operation |
| `Region.Cursor.Overwrite` | src/umem/frame/mod.rs:323-325 | writing through `contents_mut` changes the bytes up to the length and nothing else |
| `Region.ActAll` | src/umem/frame/mod.rs:20-22 | a length that starts within its segment stays within it over any sequence of operations |
| `Region.ActMeaning` | src/umem/frame/cursor.rs:33-49 | zeroing leaves zeros and position zero, positioning clamps and keeps the bytes, overwriting replaces the bytes up to the length and keeps the rest and the position |
| `Region.OutsideUntouched` | src/umem/mem/mod.rs:119-136 | bytes outside every segment are never changed |
| `Region.XdpHeadroomsUntouched` | src/umem/mod.rs:185-187 | in particular the XDP headroom of every frame keeps its bytes over any operations |
| `Region.ReadsOwnOperations` | src/umem/mem/mod.rs:94-115 | what `headroom` and `data` read after any sequence of operations on any segments is what the operations on that segment alone left there, up to its length |
| `Region.UmemRegion.WriteData` | src/umem/mem/mod.rs:152-159 | a cursor write appends within the mtu, and reading through the updated descriptor gives the old contents followed by the bytes written |
| `Ownership.StepSwapsOneItem` | README.md:57-59 | every step of user or kernel takes one description of a frame or packet away and puts one back, in every count |
| `Ownership.StepKeepsHost` | src/lib.rs:24-28 | every step under the usage rule keeps each frame described once, each length within its segment, and behind every description in memory exactly the bytes last put there |
| `Ownership.TokensMove` | src/socket/tx_queue.rs:31-32 | a packet moves from frame to wire to frame to user, or is lost, and is never copied |
| `Ownership.NewUmemIsFresh` | src/umem/mod.rs:180-197 | the descriptors of a new UMEM, with any number of empty rings beside them, are a proper start of a run |
| `Ownership.OwnershipInEveryRun` | README.md:57-59 | in every reachable state of any number of sockets on any number of UMEMs, no frame is described twice, nothing else is described, and every frame is somewhere |
| `Ownership.LengthsInEveryRun` | src/umem/frame/mod.rs:20-22 | in every reachable state each description stays within its segments, so slicing is in range and the u32 length in a slot is lossless |
| `Ownership.DeliveryInEveryRun` | src/umem/mem/mod.rs:110-115 | in every run, what each read of a received frame finds in memory, at any time after the rx consume, is what memory held when that packet was submitted; and no packet is delivered twice |
| `Delivery.SubmittedIsLastWritten` | src/socket/tx_queue.rs:47-75 | whatever happens between a write to a frame and its submission, what is submitted is what was last written |
| `Delivery.ReadIsSubmitted` | src/socket/rx_queue.rs:30-32 | every read of a received frame, until the user writes or gives away the frame, finds the packet as submitted, whatever happens in between |
| `Delivery.ReadAsWritten` | README.md:57-59 | from cursor to reader: the bytes read are the bytes written, over any run between write, submission, delivery and read |
| `Batches.BatchIsMoves` | src/umem/fill_queue.rs:50-75 | a batch, any slice of what a holder has or the front of a ring, is a run of single moves, in order, that changes nothing else in the host |
| `Batches.SliceIsPick` | src/umem/fill_queue.rs:62-69 | any distinct descriptors a holder has, in any order, make such a slice |
| `Composed.StepAllowed` | src/ring.rs:24-33 | whatever the rings do on their own indices and slots, in the middle of calls on both sides, the protocol allows |
| `Composed.ReleaseAllowed` | src/socket/rx_queue.rs:54-70 | what a consumer gets at a release is what it read from the slots, and that is what the protocol hands over |
| `Composed.OwnershipOnRealRings` | README.md:57-59 | in every state of every run on real rings, descriptors in hands and in occupied slots are of pairwise different frames, and every frame is among them |
| `Composed.DeliveryOnRealRings` | src/umem/mem/mod.rs:110-115 | every state of such a run is a reachable state of the protocol, so its delivery theorems hold there |
| `Composed.ProduceOnNet` | src/umem/fill_queue.rs:50-75 | every batch the protocol allows can be handed over by a `produce` call on the real ring, with the same effect |
| `Composed.ConsumeOnNet` | src/socket/rx_queue.rs:43-73 | a `consume` call on a real ring that is not empty hands over at least one entry from the front, as the protocol does |
| `Journey.PacketGetsThrough` | README.md:57-59 | for any two new UMEMs, any packet that fits and any options, there is a run in which it is written, sent, received and read, and all frames are back with their users |
| `Receiver.RxPath.Receive` | src/socket/rx_queue.rs:43-73 | a consume takes the oldest received frames, and some exactly when some are unread |
| `Receiver.RxPath.FillUntilAccepted` | examples/dev1_to_dev2.rs:438-448 | however many attempts are refused, the batch is on the fill ring exactly once when the loop ends, also when a wakeup then fails, and the loop fails only when a wakeup does |
| `Receiver.KernelSideIsInitial` | examples/dev1_to_dev2.rs:391-400 | if every resubmission was exactly what had been received, fill ring, kernel and rx ring together hold exactly the frames first submitted |
| `Receiver.ReceiverRound` | examples/dev1_to_dev2.rs:411-457 | a pass consumes whatever is waiting when the poll reports it, resubmits exactly the frames it consumed, at the first attempt, leaves the handles beyond the fill size alone, and panics only when a system call fails |
| `Receiver.ReceiverLoop` | examples/dev1_to_dev2.rs:391-461 | at every loop head the kernel side holds exactly the first `fq_size` initial frames; the total is the number of frames read and grows with every poll that has something to report; the tail handles are never overwritten; it ends only for the reasons the source has |
| `Transmit.TxPath.KernelTransmit` | src/socket/tx_queue.rs:31-32 | whenever the kernel reads a frame it holds, what it puts on the wire is the packet as submitted |
| `Transmit.TxPath.Complete` | src/umem/comp_queue.rs:44-72 | a consume takes the oldest completions, and some exactly when some are unread |
| `Transmit.TxPath.SendUntilAccepted` | examples/dev1_to_dev2.rs:527-536 | the batch is on the tx ring exactly once when accepted, at most once when a wakeup fails, and not at all while refused; a batch that fits is accepted at the first attempt, and the loop fails only when a wakeup does |
| `Sender.WritePackets` | examples/dev1_to_dev2.rs:507-513 | writing one packet into each blank frame succeeds exactly when all fit the mtu, and then each descriptor describes its packet, whole; bytes outside those data segments are kept in any case |
| `Sender.CompletedFrames` | src/umem/comp_queue.rs:56-66 | frames just completed are distinct frames of the first batch, and resubmitting them always fits the tx ring |
| `Sender.StillInFlight` | examples/dev1_to_dev2.rs:505-513 | writing to the frames just completed leaves every packet whose completion is still to be read as it was submitted |
| `Sender.SenderRound` | examples/dev1_to_dev2.rs:491-545 | a pass consumes completions whenever some are unread and submits as many of them as are due, the next packets in order, disturbs nothing in flight, and panics only when a system call fails or a packet does not fit |
| `Sender.SenderLoop` | examples/dev1_to_dev2.rs:464-554 | consumed <= sent <= target; outstanding is at most the batch and equals it until all is sent; packets are sent in order and whole and stay so in memory until their completion is read, so the wire sees whole packets only; at the end sent = consumed = target, and with a non-empty batch and no failure it comes to that end within as many passes with an eager kernel as there are packets |
| `Sender.SingleThreadedLoop` | examples/dev1_to_dev2.rs:189-330 | the same promises for counters, order, bytes and failures, although the receiving half overwrites the sending handles with arbitrary descriptors; every pass with an eager kernel in which all sent packets arrive brings it further |
| `Lifetime.BooksKept` | src/umem/mem/mod.rs:20-29 | whatever the field order, every step keeps each Arc count equal to live values, live owners and pending decrements, and each destructor call due exactly once |
| `Lifetime.HandlesFromEvents` | src/umem/mod.rs:97-102 | a run leaves as many handles as it has made and cloned and not dropped, of the UMEM and of each socket |
| `Lifetime.TeardownInEveryRun` | src/socket/mod.rs:57-61 | in every run sockets are deleted before their UMEM, that before the munmap, each once, and each only after every handle the program made or cloned has been dropped; handles can be cloned and dropped exactly while held; no drop is stuck; when all is dropped all is released |
| `Lifetime.DropsFinish` | src/umem/mod.rs:97-102 | drops in progress, run in any order, stop within a bound, and only when all are complete |
| `Lifetime.UnmapsTooEarly` | src/umem/mod.rs:99-101 | with `mem` before `inner` there is a run that unmaps a live UMEM |
| `Lifetime.DeletesUmemTooEarly` | src/socket/mod.rs:58-60 | with `_umem` before `_ptr` there is a run that deletes the UMEM under a socket |
| `Lifetime.OnlyThisOrderIsSafe` | src/socket/mod.rs:57-61 | every run is safe if and only if both structs declare their fields in the source's order |
| `HandOut.Verdict` | src/socket/mod.rs:150-220 | `Ok` comes back exactly when every check passes, with libxdp's two rings or, when both are null, with none; each error comes back exactly when its check is the first to fail |
| `HandOut.UmemInner.NewSocket` | src/socket/mod.rs:118-221 | the saved queues are taken by the call, also when it fails, and its result is the verdict on libxdp's reply |
| `HandOut.HandedOutIffUnbound` | src/socket/mod.rs:92-102 | in every run a successful call hands out queues exactly when no socket was bound to its interface and queue |
| `HandOut.OncePerBinding` | src/socket/mod.rs:98-100 | between two hand-outs for one pair its last socket was released |
| `HandOut.BoundIsMadeLessReleased` | src/socket/mod.rs:93-102 | a pair is bound as often as sockets were made for it and not released |
| `HandOut.PairsAreServed` | src/socket/mod.rs:92-102 | a run with two pairs, in which the first call for each gets queues, a second call gets none, and a call after the release of both sockets gets some again |
| `HandOut.SavedAtMostOnce` | src/umem/mod.rs:74-78 | over any calls, failing ones among them, the queues made with the UMEM are handed out by the call for which libxdp first makes a socket, exactly when that call succeeds, and never by another |
| `HandOut.SavedGoToOneCall` | src/umem/mod.rs:319-326 | two calls that get them are one call |

## Left out

- The system calls (`poll`, `sendto`, `getsockopt`, `mmap`): their results are inputs of the loops, and a failing one ends the example's loops as its `unwrap` does.
- Wakeup liveness: `TxQueue::wakeup` maps several errors to success, so whether the kernel is awake afterwards is not decided by this code.
- Builds with overflow checks: they trap at `idx += 1` when a batch reaches index 2^32 - 1, and at the headroom sums of `build` and `mtu` when those wrap; the claims are for wrapping builds.
- Targets with a 32-bit `usize`: addresses are taken as 64-bit.
- Memory ordering inside a ring: the loads and stores of `Ring.dfy` are sequentially consistent, as libxdp's acquire and release accesses make them appear.
- Kernel steps in the middle of a queue call of `Queues.dfy`, `Receiver.dfy`, `Transmit.dfy` and `Sender.dfy`: the kernel runs between calls there; interleaving within calls is what `Ring.dfy` and `Composed.dfy` cover.
- Receiver.ReceiverLoop: runs for any given sequence of polls and stops when they run out, because nothing promises that packets keep arriving; the two threads' hand-shake over channels is left out, and the done flag is an input.
- Sender.SenderLoop: runs for any given sequence of passes and stops when they run out, because nothing promises that the kernel is eager.
- Sender.SingleThreadedLoop: nothing is claimed about the receiver's frames, since that loop consumes into one array and resubmits from another, and so does not follow the usage rule.
- The memory of the saved rings: `Socket::new` drops its boxes when it fails, and the model speaks of which call gets the rings, not of where they are stored.
- A `Socket::new` that fails between making the socket and wrapping it (src/socket/mod.rs:172-179) deletes it while the caller still borrows its `Umem`; `Lifetime.dfy` does not have this path as a step of its own.
- `FillQueue` and `CompQueue` keep only the UMEM alive, so nothing is claimed about using them after their socket is gone.
- `frame_mut` as one call: it is `headroom_mut` and `data_mut` on the same frame, which `Region.UmemRegion.Operate` covers one at a time.
- The bytes of frames the receiver loop gets: it never looks at them.
- Multi-buffer packets, bit flags, `Interface`, error texts, statistics and `Deref`/`AsRef` forms: no hard property.

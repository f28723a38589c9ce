# The sample-buffer path, verified

A Dafny model of how samples travel between the PCIe card and a UHD caller, and proofs about it. It follows the
path from the kernel driver's DMA memory up to `get_buff`:

- **ZeroCopyRing.dfy, ZeroCopySingle.dfy**: the zero-copy ring. The first is a state machine over the smallest
  visible steps of three kinds of thread (releasing callers, the one caller inside `get_buff`, the library's
  callback thread); a statement about all runs is a statement about all interleavings. The second is the ring
  object with its methods as written; its `Valid` ties every field to a run of the machine, and wherever the
  source leaves room for another thread the methods let it take any number of steps.
- **CompletionDrain.dfy, CompletionQueue.dfy**: completion wake-up and drain (interrupt handler, waiting branch of
  `az_read`, the `do_cb` pass), again as a machine and as methods on the shared state. The mask is a parameter.
- **StreamPath.dfy**: several rings, one completion FIFO and one `do_cb` as one system: frame counts bound the
  transfers in flight, which bounds the backlog, which makes the masked count exact, or not. A narrow mask
  can stall some rings, as the receive rings while nothing is sent, or end with all descriptors queued.
- **StreamDeadlock.dfy**: when the system, or some of its rings, can never deliver again, exactly; which backlogs
  that can happen on, with and without failed submits; and that a wide enough mask rules it out.
- **Kernel.dfy, DmaBooks.dfy, DmaManager.dfy, BufferMap.dfy**: the DMA buffer manager. `Kernel.System` is a
  nondeterministic kernel allocator that remembers what is outstanding; its free methods demand an outstanding
  block of exactly that kind, size and addresses, so a double free or a mismatched one does not verify. It also
  records its answers, to copies and remaps too, so that contracts can say why a request was given up and that what
  was obtained is used. `DmaBooks` holds the state as one
  value with its invariant and the lemmas about it, `DmaManager.Driver` the driver's functions as methods.
- **LibpciePatch.dfy**: the script that patches the mask into the closed library, over bytes.
- **FrameSize.dfy**: the coercion of `recv_frame_size`, with the two limits as parameters.
- **MiscRegister.dfy**: the shadow of the MISC register.
- **Sequences.dfy**: shared facts about sequences.

Every lemma carries `{:induction false}`: each proof by induction is written out. The three machines (ring, drain,
system) each define their own `Legal`, `Exec`, `RunSnoc` and, where needed, `RunConcat`: sharing these would mean
passing `Enabled` and `Apply` as function values, which hides the steps from the verifier in every proof about them.

## Assumptions

- One callback per accepted submit, and each buffer handed out is released exactly once.
- The card fills its FIFO before raising the MSI; MSIs may merge; where stated, none is lost. There is one consumer.
- The kernel never hands out memory that overlaps what it has handed out before, neither in kernel addresses nor on
  the bus; `dma_alloc_*` and `dma_map_single` of whole pages give page-aligned bus addresses. Bus addresses and
  physical page addresses of contiguous ranges are one space.
- The page size is a parameter: a multiple of 8 that divides 8 MiB (the fixed-length results also want it to divide
  32 KiB).
- The ioctl does not check its arguments: callers keep `idx` below 256 and `len * 8` within `int`.
- The frame-size limits are defined in a header that is not part of this model: multiples of 8, not of 1024, the
  lower one below 1008.
- `b200_impl.hpp` is not part of this model; the GPIO record starts at zero.

## Where code and documentation differ

- The comment at uhd-overlay/host/lib/usrp/b200/b200_impl.cpp:488-497 says the coerced frame size is never a multiple
  of the maximum transfer size and is aligned to 24 bytes. Neither holds for all requests: 4090 becomes 4096, and only
  requests that round up to a multiple of 1024 are realigned at all. FrameSize proves exactly when.
- The patch script recognises a file it has patched before and leaves it alone, except for a file that holds the old
  x86 pattern once together with its replacement and the old arm pattern once. LibpciePatch proves that this is the
  only exception.
- The log texts call the pool the "1GiB pool"; it is 16 or 8 MiB, searched for from 1 GiB on.

## Model

| member | source | states |
|---|---|---|
| ZeroCopyRing.Invariant | uhd-overlay/host/lib/transport/libusb1_zero_copy.cpp:361-441 | Every interleaving of releases, submits, callbacks and a get_buff that drops the queue lock keeps the ring's invariant: each buffer is once in the queue or once with a caller, and a submitted buffer is in flight, completed or being taken out, never two of these |
| ZeroCopyRing.InvKept | uhd-overlay/host/lib/transport/libusb1_zero_copy.cpp:361-441 | One step of any of the three threads keeps that invariant |
| ZeroCopyRing.StartInv | uhd-overlay/host/lib/transport/libusb1_zero_copy.cpp:329-340 | Both construction loops' starting points satisfy it: a receive pool still to be released, and a transmit pool queued as completed and never submitted |
| ZeroCopyRing.RefinesFifo | uhd-overlay/host/lib/transport/libusb1_zero_copy.cpp:361-441 | Every run of the two-queue ring is a run of one atomic FIFO: a release takes effect on entering _released, a get_buff on popping, nothing else has an effect |
| ZeroCopyRing.StepRefines | uhd-overlay/host/lib/transport/libusb1_zero_copy.cpp:361-441 | Each single step is the corresponding FIFO operation, or none |
| ZeroCopyRing.HandOutOrder | uhd-overlay/host/lib/transport/libusb1_zero_copy.cpp:361-441 | In every run, the buffers handed out so far, then _enqueued, then _released are the pool order followed by all later releases in order |
| ZeroCopyRing.PopsWhatItConsumed | uhd-overlay/host/lib/transport/libusb1_zero_copy.cpp:378-386 | The buffer get_buff pops is the one whose completion it consumed, although the lock was dropped in between; it is in nobody else's hands |
| ZeroCopyRing.BufferOwnership | uhd-overlay/host/lib/transport/libusb1_zero_copy.cpp:95-103 | In every run a buffer held by a caller is in neither queue, not in flight and carries no completion; a buffer in flight is queued with completed still 0 |
| ZeroCopyRing.HeldIsExclusive | uhd-overlay/host/lib/transport/libusb1_zero_copy.cpp:200-213 | The same, from the invariant alone |
| ZeroCopyRing.NoPushWhenFull | uhd-overlay/host/lib/transport/libusb1_zero_copy.cpp:294-296 | No push_back in any run, before or after an error, meets a full circular buffer, so none drops the oldest element |
| ZeroCopyRing.NothingWaitsToBeSubmitted | uhd-overlay/host/lib/transport/libusb1_zero_copy.cpp:427-434 | While running, _released is empty whenever the queue mutex is free; the loop stops only because _released ran out, never on the _enqueued.full() guard; the loop of a get_buff call finds nothing to submit |
| ZeroCopyRing.StoppedForGood | uhd-overlay/host/lib/transport/libusb1_zero_copy.cpp:429-439 | After a failed submit nothing enters _enqueued or the library again in any run; the queue only drains and _released only grows |
| ZeroCopyRing.RejectedBufferStays | uhd-overlay/host/lib/transport/libusb1_zero_copy.cpp:432-439 | The buffer whose submit failed stays first in _released for ever: not lost, not queued, not in flight, not handed out |
| ZeroCopyRing.UndisturbedGet | uhd-overlay/host/lib/transport/libusb1_zero_copy.cpp:362-389 | On a running ring at rest a get_buff call that nobody disturbs can take the completed front buffer |
| ZeroCopySingle.Ring.constructor | uhd-overlay/host/lib/transport/libusb1_zero_copy.cpp:329-340 | A receive ring starts with its whole pool submitted in order, or with the pool up to the rejected buffer if a submit threw; a transmit ring with its pool queued, completed and never submitted |
| ZeroCopySingle.Ring.EnqueueBuffer | uhd-overlay/host/lib/transport/libusb1_zero_copy.cpp:419-425 | Releasing a held buffer while running either puts exactly it at the back of _enqueued or, if submit throws, leaves it alone in _released with STATUS_ERROR; after an error it only joins _released; a running ring makes exactly one submit and throws exactly if the library refuses it |
| ZeroCopySingle.Ring.SubmitWhatWeCan | uhd-overlay/host/lib/transport/libusb1_zero_copy.cpp:427-441 | The loop terminates and keeps the order across both queues; without an exception a running ring ends with _released empty; an exception leaves the rejected buffer first in _released; each buffer moved was accepted by the library, and it throws exactly if one was refused |
| ZeroCopySingle.Ring.ReleasePool | uhd-overlay/host/lib/transport/libusb1_zero_copy.cpp:329-335 | The receive construction loop, buffer by buffer |
| ZeroCopySingle.Ring.QueuePool | uhd-overlay/host/lib/transport/libusb1_zero_copy.cpp:336-339 | The transmit construction loop, buffer by buffer |
| ZeroCopySingle.Ring.GetBuff | uhd-overlay/host/lib/transport/libusb1_zero_copy.cpp:362-389 | With any number of completions and releases by other threads wherever the lock is free, a buffer returned is the one that was first in line when the call began (if any was waiting), is recorded as handed out, and is neither in flight, completed nor queued; no buffer changes hands otherwise; an errored ring returns none and changes nothing; on a running ring a front buffer that is completed when the call begins is handed out, and a call comes back empty only after a timed wait or a sleep on an empty queue |
| ZeroCopySingle.Ring.TakeFront | uhd-overlay/host/lib/transport/libusb1_zero_copy.cpp:378-388 | get_new and the second critical section: the buffer returned is the front read before the lock was dropped |
| ZeroCopySingle.Ring.AsyncCallback | uhd-overlay/host/lib/transport/libusb1_zero_copy.cpp:95-103 | One accepted transfer leaves flight and becomes completed |
| ZeroCopySingle.HistoryGrows | uhd-overlay/host/lib/transport/libusb1_zero_copy.cpp:361-441 | Between two points of one run the sequence of handed-out and waiting buffers only grows at its back |
| CompletionDrain.PassDelivers | scripts/patch-libpcie.py:5-10 | A finished do_cb pass delivers, in FIFO order, exactly the first `backlog mod mask` completions present at its count read, whatever completes, interrupts or gets lost meanwhile |
| CompletionDrain.PassDrains | scripts/patch-libpcie.py:5-10 | With a mask wider than the backlog it delivers all of them |
| CompletionDrain.PassLeaves | scripts/patch-libpcie.py:5-10 | A pass turns a backlog b into modulus * (b / modulus) plus what arrived meanwhile |
| CompletionDrain.FifoBalance | scripts/patch-libpcie.py:5-10 | In every run, entries in the FIFO plus deliveries equal completions: none is lost or doubled |
| CompletionDrain.NothingStranded | pcie-driver/mymodule.c:574-585 | If no MSI is lost and the mask is wide enough, then in every run do_cb waits on a non-empty FIFO only with rd_cond >= 1 or an MSI undelivered, although storing 0 to rd_cond erases interrupts that race with it |
| CompletionDrain.NextPassDelivers | pcie-driver/mymodule.c:577-585 | Even with lost MSIs, the pass after a wait, ended by interrupt or timeout, delivers everything that was in the FIFO when the wait began |
| CompletionDrain.TimeoutEndsWait | pcie-driver/mymodule.c:581-585 | A wait can always end by its timeout, which leads on to the count read |
| CompletionDrain.StuckForever | scripts/patch-libpcie.py:5-10 | Once the masked count of the backlog is 0 and no descriptor is outside it, no later step of any run delivers anything |
| CompletionDrain.DeadlockExactly | scripts/patch-libpcie.py:5-10 | For the drain alone, where any descriptor outside the FIFO may be submitted: in every reachable state some continuation delivers again if and only if the state is not of that kind |
| CompletionDrain.DeadlockReachable | scripts/patch-libpcie.py:5-10 | For the drain alone: some run reaches that state if and only if the mask reads the total number of descriptors as 0 |
| CompletionDrain.MasksAreRemainders | scripts/patch-libpcie.py:18-26 | Masking a 32-bit count with 0x3f or 0x1ff is the remainder modulo 64 or 512 |
| CompletionQueue.Queue.InterruptHandler | pcie-driver/mymodule.c:807-815 | The handler adds one to rd_cond for however many MSIs it stands for |
| CompletionQueue.Queue.WaitForInterrupt | pcie-driver/mymodule.c:567-586 | The wait branch of az_read returns 1 on interrupt and on timeout alike, having stored 0 to rd_cond, and loses nothing of the FIFO |
| CompletionQueue.Queue.PopAll | scripts/patch-libpcie.py:5-10 | The pop loop delivers exactly the entries that were first in the FIFO at its start, while more arrive |
| CompletionQueue.Queue.DoCbPass | scripts/patch-libpcie.py:5-10 | Wait, read the count, mask it, pop that many: what is delivered is the masked count of the FIFO seen at the count read; if the mask exceeds the number of descriptors, that is all of it |
| StreamPath.Reached | uhd-overlay/host/lib/transport/libusb1_zero_copy.cpp:361-441 | Every reachable state of several rings sharing one completion FIFO keeps all rings' invariants, conservation of descriptors, and the link between them: what the rings count as in flight is exactly what the card and the FIFO hold |
| StreamPath.NeverRefusedNeverSpurious | uhd-overlay/host/lib/transport/libusb1_zero_copy.cpp:154-172 | Whatever a ring submits is a descriptor not yet in use, and every popped descriptor has a ring waiting for its callback |
| StreamPath.BacklogBounded | uhd-overlay/host/lib/usrp/b200/b200_impl.cpp:365-370 | Transfers with the card plus backlog never exceed the frames of all rings, so a mask wider than that reads the count exactly |
| StreamPath.PatchedMaskIsExact | uhd-overlay/host/lib/usrp/b200/b200_impl.cpp:514-517 | With the forced 48, 48, 16 and 16 frames and mask 0x1ff every count read in every run is exact, at most 128 < 192 < 512 |
| StreamPath.ForcedTotal | uhd-overlay/host/lib/usrp/b200/b200_impl.cpp:514-517 | Those frame counts total 128 |
| StreamPath.EveryPassDrains | scripts/patch-libpcie.py:5-10 | Inside the running system each do_cb pass delivers everything in the FIFO at its count read if the frames fit the mask |
| StreamPath.NothingStranded | pcie-driver/mymodule.c:574-585 | Inside the running system do_cb never sleeps on a completion unless a wake-up is on its way or an MSI was lost |
| StreamPath.NextPassDelivers | pcie-driver/mymodule.c:577-585 | Inside the running system, even with lost MSIs, the pass after a wait, ended by interrupt or timeout, delivers everything that was in the FIFO when the wait began |
| StreamPath.FullBacklogStarves | scripts/patch-libpcie.py:5-10 | Once all descriptors are in a FIFO the mask reads as 0, no later step of any run delivers a completion or hands any caller a buffer |
| StreamPath.OnlyFullBacklogSticks | scripts/patch-libpcie.py:5-10 | For the 48 + 16 receive rings under 0x3f, all descriptors queued and read as 0 means all 64 in the backlog |
| StreamPath.FullBacklogReachable | scripts/patch-libpcie.py:5-10 | All descriptors of the rings can end up in a FIFO read as 0 if and only if the mask reads their number as 0 |
| StreamPath.StallLasts | scripts/patch-libpcie.py:5-10 | From a stall of some rings on (backlog masked to 0, nothing left to pop, no transfer under way, all their buffers in flight) no run delivers anything or hands out one of their buffers unless another ring submits |
| StreamPath.StallReachable | scripts/patch-libpcie.py:5-10 | Given rings can stall on a given backlog if and only if the mask reads it as 0 and it lies between their own frames and all frames |
| StreamPath.VendorStall | scripts/patch-libpcie.py:5-10 | The device's two receive rings, beside its send rings, can stall under 0x3f, on a backlog of 64 or 128 and on no other |
| StreamPath.VendorStallStarves | scripts/patch-libpcie.py:5-10 | While they are stalled and nothing is sent, no run delivers a sample buffer or a control reply; a backlog of 64 holds exactly their descriptors and is no deadlock of the drain alone |
| StreamPath.PatchRemovesStall | scripts/patch-libpcie.py:5-10 | Under 0x1ff no rings of the device that have frames can stall, on any backlog |
| ZeroCopyRing.BlockedKept | uhd-overlay/host/lib/transport/libusb1_zero_copy.cpp:361-441 | A ring that has stopped, or whose buffers are all in line behind one in flight, stays so under every step but a callback |
| ZeroCopyRing.CanSubmit | uhd-overlay/host/lib/transport/libusb1_zero_copy.cpp:361-441 | Any other ring can bring itself to a submit, wherever its threads stand, without a submit or callback on the way |
| StreamDeadlock.DeadForever | scripts/patch-libpcie.py:5-10 | From a state with nothing to pop, a backlog read as 0, no transfer under way and all rings of a set blocked, no run that submits from that set only delivers anything |
| StreamDeadlock.DeadExactly | scripts/patch-libpcie.py:5-10 | In every reachable state of the system, for any set of rings: some run that submits from these rings only delivers again if and only if the state is not of that kind; for all rings this is the deadlock of the system |
| StreamDeadlock.StalledIsDead | scripts/patch-libpcie.py:5-10 | A stall of some rings is of that kind for them |
| StreamDeadlock.FullBacklogIsDead | scripts/patch-libpcie.py:5-10 | A full backlog read as 0 is of that kind for all rings |
| StreamDeadlock.DeadReachable | scripts/patch-libpcie.py:5-10 | Such a state with a given backlog is reachable if and only if there are that many frames and the mask reads their number as 0 |
| StreamDeadlock.DeadlockPossible | scripts/patch-libpcie.py:5-10 | Completions can be hidden for ever if and only if there are frames, and at least as many as the mask counts to |
| StreamDeadlock.DeadWithoutFailure | uhd-overlay/host/lib/transport/libusb1_zero_copy.cpp:361-441 | Without any failed submit, the deadlock is reachable on a given backlog if and only if the mask reads it as 0 and it lies between the number of rings with frames and the number of frames: the first in line of every ring is hidden |
| StreamDeadlock.WideMaskNeverDies | scripts/patch-libpcie.py:5-10 | With fewer frames than the mask counts to, in every reachable state with completions in the FIFO one can be delivered, without any submit |
| StreamDeadlock.VendorDeadlock | scripts/patch-libpcie.py:5-10 | Under 0x3f the device can be dead on a backlog of 64 or 128 and on no other but the empty one |
| StreamDeadlock.VendorDeadlockUnfailed | scripts/patch-libpcie.py:5-10 | On 64 and on 128 alike no submit need have failed |
| StreamDeadlock.PatchRemovesDeadlock | uhd-overlay/host/lib/usrp/b200/b200_impl.cpp:365-517 | The device with its 48, 48, 16 and 16 frames, and its receive rings alone: under 0x3f completions can be hidden for ever; under 0x1ff never, and in every reachable state with completions in the FIFO one can be delivered |
| StreamPath.DrainOfSystem | scripts/patch-libpcie.py:5-10 | Every run of the system is, seen from the drain, a run of the drain alone |
| StreamPath.RingOfSystem | uhd-overlay/host/lib/transport/libusb1_zero_copy.cpp:361-441 | Every run of the system is, seen from one ring, a run of that ring alone |
| StreamPath.SystemHandOutOrder | uhd-overlay/host/lib/transport/libusb1_zero_copy.cpp:361-441 | Inside the running system each ring hands out in pool order followed by release order, with exclusive ownership |
| DmaBooks.LiveBuffersApart | pcie-driver/mymodule.c:370-434 | Any two live buffers are disjoint for the CPU and for the card, whichever of the three paths served them |
| DmaBooks.LiveBufferReachable | pcie-driver/mymodule.c:231-241 | Every live buffer lies below 0x80000000 and outside [0x3b000000, 0x40000000) |
| DmaBooks.LiveBufferAligned | pcie-driver/mymodule.c:370-434 | Every live buffer starts on a page of the bus, whichever path served it |
| DmaBooks.UsableExactly | pcie-driver/mymodule.c:231-241 | A block passes the window and hole tests if and only if it ends by 0x3b000000, or starts at 0x40000000 or later and ends by 0x80000000 |
| DmaBooks.OneOwnerEach | pcie-driver/mymodule.c:370-434 | Every outstanding block or pool slice has exactly one owner among entries, hold table and sink, and nothing that is not outstanding has any |
| DmaBooks.DropSound | pcie-driver/mymodule.c:173-189 | Giving an entry's memory back, to the kernel or as a pool slice, keeps the books |
| DmaBooks.OwnerHasBlock | pcie-driver/mymodule.c:166-183 | Whether an entry's address lies in the pool tells exactly whether its memory is a slice or a kernel block of the entry's kind, address, bus address and size |
| DmaBooks.SliceCut | pcie-driver/mymodule.c:378-389 | The next slice of the pool is disjoint from all slices in use, usable, aligned, and again within the pool |
| DmaBooks.NewBlockApart | pcie-driver/mymodule.c:398-420 | A block the kernel hands out overlaps no live buffer |
| DmaBooks.WholePagesAreWords | pcie-driver/mymodule.c:468-469 | A page-aligned bus address survives being shifted right and left by 3 |
| DmaBooks.IdentityPasses | pcie-driver/mymodule.c:293-301 | A range between the search limits passes the window and hole tests as its own bus address |
| DmaBooks.NothingOutstanding | pcie-driver/mymodule.c:350-368 | With no entry, hold or sink left, no block and no slice is outstanding |
| Paging.AlignUpIsFormula | pcie-driver/mymodule.c:379 | ALIGN as computed by recursion is the usual rounding formula |
| Paging.PageBytesIsProduct | pcie-driver/mymodule.c:275-284 | The bytes of n pages are the product of the two |
| Paging.AlignedIsRemainder | pcie-driver/mymodule.c:275-284 | An address is a whole number of pages if and only if its remainder by the page size is 0 |
| DmaManager.Driver.constructor | pcie-driver/mymodule.c:500-508 | init_node and the zeroed statics: all entries empty, no pool, books in order |
| DmaManager.Driver.FreeOne | pcie-driver/mymodule.c:173-189 | Frees exactly the entry's memory, by the routine it came from and with its original size and addresses, and empties the entry; does nothing to an empty entry |
| DmaManager.Driver.TryRange | pcie-driver/mymodule.c:285-322 | One candidate of the search: taken only with all pool fields describing the granted range; if passed over, range and mapping are given back and the reason is on record |
| DmaManager.Driver.Places | pcie-driver/mymodule.c:276-284 | Place k of the search is 0x40000000 plus k page blocks, or k times the size if the kernel has no page blocks |
| DmaManager.Driver.SearchSize | pcie-driver/mymodule.c:274-284 | The search for one size terminates within 80 candidates and takes the first that was not passed over, or passes over all |
| DmaManager.Driver.EnsurePool | pcie-driver/mymodule.c:263-328 | Ends holding exactly one range, first fit for 16 MiB or, if all places for that failed, for 8 MiB, or holding nothing and returning -ENOMEM if all places for both failed; with a pool at hand it asks for nothing |
| DmaManager.Driver.TakeSlice | pcie-driver/mymodule.c:380-389 | A slice at the bump offset, which moves on by the rounded size |
| DmaManager.Driver.TryNoncoherent | pcie-driver/mymodule.c:398-408 | The block asked for is returned if it is in the window and outside the hole, and given back otherwise |
| DmaManager.Driver.DrainCma | pcie-driver/mymodule.c:330-348 | The sink takes the first of 64, 48, 32 and 16 MiB the kernel grants, none if it grants none, and nothing is asked when there is a sink |
| DmaManager.Driver.TryCoherents | pcie-driver/mymodule.c:411-433 | The first reachable coherent block; rejected ones go to the hold table; gives up only when the kernel refuses, when a rejected block finds the table full (that one is freed), or after 48 rejected ones |
| DmaManager.Driver.AllocDma | pcie-driver/mymodule.c:370-434 | The pool slice if one fits, else ordinary pages, else coherent ones after the sink; what it returns is within reach and page-aligned and is the only block without an owner; exhaustion is counted exactly when a pool is held and too full; no live buffer's contents change |
| DmaManager.Driver.AllocNode | pcie-driver/mymodule.c:436-485 | Same length or length 0: nothing changes; otherwise only this entry changes and the old memory is freed; the entry is the pool slice if one fits, and if not exactly the one reachable block among the kernel's answers, of the new length, its bus address being the result; it is empty with result 0 if and only if no slice fits and no answer was a reachable block; the rejection above 2 GiB is unreachable; all other live buffers keep their contents |
| DmaBooks.EntryServed | pcie-driver/mymodule.c:391-463 | Whatever reachable block the second or third path obtained is what the entry becomes, with its kind, addresses and size; an empty entry means that they obtained none |
| DmaManager.Driver.ReleaseHolds | pcie-driver/mymodule.c:350-368 | Every hold, the sink, and then the pool with its mapping go back; nothing is outstanding |
| DmaManager.Driver.ReleasePool | pcie-driver/mymodule.c:243-261 | The pool's mapping and range go back and all pool fields are zero |
| DmaManager.Driver.FreeNode | pcie-driver/mymodule.c:487-496 | From any state: all entries empty, no hold, no sink, no pool, nothing outstanding |
| DmaManager.Driver.AzWrite | pcie-driver/mymodule.c:601-615 | The offset is cut to 32 bits; -EINVAL exactly for a bad index, an empty entry or too many bytes, changing nothing; otherwise the copy is made, and the result is the number of bytes stored, or -EFAULT exactly if the copy faulted; no other live buffer changes |
| DmaManager.Driver.AzRead | pcie-driver/mymodule.c:567-598 | The same checks; otherwise the copy is made: 2 with the buffer's first bytes, or -EFAULT exactly if it faulted; 1 for the wait branch |
| DmaManager.Driver.Mmap23 | pcie-driver/mymodule.c:683-752 | The remaps asked for are those of consecutive buffers from 0 on; on success their length is the minimum of the area and the total of the longest allocated prefix; a non-zero result is the answer of the one remap that failed, that of the next segment, after which none is asked for |
| DmaManager.Driver.AllocFixed | pcie-driver/mymodule.c:436-485 | If each index keeps to one length of at most 32 KiB, a request never counts as exhaustion and, with a pool at hand, is served from it |
| DmaManager.Lifetime | pcie-driver/mymodule.c:487-496 | From load to unload, any requests in any order: each changes its own entry only, to its length or to none, the books are in order after each, and in the end every block, range and mapping obtained from the kernel has been given back |
| DmaManager.FixedRequests | pcie-driver/mymodule.c:97-100 | Any requests in any order, each index always with the same length of at most 32 KiB, from any state that such requests leave: the pool, even of 8 MiB, is never found too full and, once obtained, serves every index not used before; other entries stay, and further such requests may follow |
| DmaManager.FixedLifetime | pcie-driver/mymodule.c:97-100 | From load on, such requests never find the pool exhausted; once the first of them have obtained it, it serves every index first requested later |
| DmaManager.WriteThenRead | pcie-driver/mymodule.c:586-615 | What az_write stores in a buffer az_read returns, after any allocations, re-sizes, frees and writes of other buffers in between; the write is refused exactly for an empty or too short buffer, and both succeed unless a copy faults |
| BufferMap.EveryByteOnce | pcie-driver/mymodule.c:702-750 | Every byte x of the mapped run lies in exactly one segment and is byte x - S(i) of buffer i there, S being the prefix sums of len * 8 |
| BufferMap.EveryByteIsTheBuffers | pcie-driver/mymodule.c:702-750 | Byte x of the mapped run is byte x - S(i) of the memory behind buffer i: counted from the kernel page of its address if it has one, whatever its bus address, and from the page of its bus address if not |
| BufferMap.SegmentsMeet | pcie-driver/mymodule.c:702-750 | With page-multiple buffers every segment starts on a page and ends where the next one starts |
| BufferMap.LengthIs | pcie-driver/mymodule.c:702-750 | How long the run is, and when it is complete |
| LibpciePatch.HitsAreAll | scripts/patch-libpcie.py:36-41 | The non-overlapping search finds all matches of a pattern that cannot overlap itself |
| LibpciePatch.PatternsNeverOverlap | scripts/patch-libpcie.py:17-30 | No two of the four patterns can overlap, and none can overlap itself |
| LibpciePatch.SpliceMatches | scripts/patch-libpcie.py:42-44 | Overwriting a match creates no match of any pattern and loses no other |
| LibpciePatch.OneWindow | scripts/patch-libpcie.py:34-47 | For any bytes: the length is kept and at most one window changes, which held the only match of an old pattern and now holds its replacement; no match of that old pattern is left |
| LibpciePatch.AmbiguousLeftAlone | scripts/patch-libpcie.py:48-52 | If no earlier architecture has a match of its old pattern or counts as patched, two matches of this one's mean: refused, nothing changed |
| LibpciePatch.Changes | scripts/patch-libpcie.py:36-52 | Exactly when a run changes a file, in numbers of matches |
| LibpciePatch.Rerun | scripts/patch-libpcie.py:33-55 | A second run changes the file again if and only if it held the old x86 pattern once together with its replacement, and the old arm pattern once |
| LibpciePatch.RerunCanChange | scripts/patch-libpcie.py:33-55 | A 50-byte file for which it does |
| LibpciePatch.TwiceIsEnough | scripts/patch-libpcie.py:33-55 | A third run never changes anything |
| LibpciePatch.FindAll | scripts/patch-libpcie.py:41 | The search loop computes the matches |
| LibpciePatch.PatchFile | scripts/patch-libpcie.py:34-55 | The loop over architectures with its flags computes the decision, and the in-place assignment the spliced file |
| LibpciePatch.Script | scripts/patch-libpcie.py:32-56 | The loop over files computes the files afterwards and the exit status |
| LibpciePatch.ScriptMeans | scripts/patch-libpcie.py:32-56 | Files not named are untouched, all lengths are kept, a replacement once there stays, and exit status 0 means every named file was there and now holds a replacement |
| LibpciePatch.ScriptFiles | scripts/patch-libpcie.py:32-56 | Each file ends as after as many runs over it as it was named before the first missing file |
| LibpciePatch.ScriptStatus | scripts/patch-libpcie.py:32-56 | The exit status is 0 if and only if every named file is there and, as it stands when reached, has the old x86 pattern once, or none and its replacement once, or failing that the same for aarch64; otherwise it is 1 |
| LibpciePatch.SucceedsExactly | scripts/patch-libpcie.py:36-55 | In numbers of matches, exactly when a file counts as patched or is patched |
| LibpciePatch.PatternsMask86 | scripts/patch-libpcie.py:18-23 | The x86 pattern masks with 0x3f and its replacement with 0x1ff |
| LibpciePatch.PatternsMaskArm | scripts/patch-libpcie.py:24-29 | So do the decoded immediates of the aarch64 words |
| LibpciePatch.PatternsKeepRest | scripts/patch-libpcie.py:18-29 | The replacements mask the same variable and are as long as the patterns; the x86 jump keeps its target, and the aarch64 pattern differs in one byte |
| FrameSize.CoerceRecvFrameSize | uhd-overlay/host/lib/usrp/b200/b200_impl.cpp:474-507 | The branches of the constructor compute the coerced size |
| FrameSize.CoercedFits | uhd-overlay/host/lib/usrp/b200/b200_impl.cpp:478-507 | The result is a multiple of 8 between the limits; it is the limit a request exceeds, and at most 15 bytes below and 8 above a request between them |
| FrameSize.MultipleExactly | uhd-overlay/host/lib/usrp/b200/b200_impl.cpp:488-502 | The result is a multiple of 1024 if and only if an unaligned request between the limits rounds up to 1024 m with m = 1 modulo 3 |
| FrameSize.StableExactly | uhd-overlay/host/lib/usrp/b200/b200_impl.cpp:488-502 | Coercing the result again changes it for exactly those requests |
| FrameSize.TwiceIsEnough | uhd-overlay/host/lib/usrp/b200/b200_impl.cpp:488-502 | Coercing twice always gives a stable size that is no multiple of 1024 |
| FrameSize.RealignedBy | uhd-overlay/host/lib/usrp/b200/b200_impl.cpp:500-502 | The realignment of 1024 m takes away 0, 16 or 8 bytes by m modulo 3 |
| FrameSize.RealignedExactly | uhd-overlay/host/lib/usrp/b200/b200_impl.cpp:499-502 | The 24-byte alignment is reached only by requests that round up to a multiple of 1024; the others become the next multiple of 8 |
| FrameSize.SlipExists | uhd-overlay/host/lib/usrp/b200/b200_impl.cpp:488-502 | 4090 becomes 4096 |
| MiscRegister.UnpackPack | uhd-overlay/host/lib/usrp/b200/b200_impl.cpp:1362-1372 | The packed word has 9 bits and gives every field back |
| MiscRegister.PackUnpack | uhd-overlay/host/lib/usrp/b200/b200_impl.cpp:1362-1372 | Every 9-bit word is the packing of what is read off it |
| MiscRegister.PackInjective | uhd-overlay/host/lib/usrp/b200/b200_impl.cpp:1362-1372 | Different states give different words |
| MiscRegister.Layout | uhd-overlay/host/lib/usrp/b200/b200_impl.cpp:1362-1372 | Which bit of the word is which, by its mask |
| MiscRegister.WordTellsBands | uhd-overlay/host/lib/usrp/b200/b200_impl.cpp:1321-1349 | Exactly one band select is high in each direction, and the written word alone tells the bands |
| MiscRegister.Board.constructor | uhd-overlay/host/lib/usrp/b200/b200_impl.cpp:350-358 | Front-end mapping, the two default bands and the codec reset leave the register equal to the packed state with the bands for 800 and 850 MHz |
| MiscRegister.Board.UpdateGpioState | uhd-overlay/host/lib/usrp/b200/b200_impl.cpp:1362-1372 | Writes the packed word of the current state |
| MiscRegister.Board.UpdateBandsel | uhd-overlay/host/lib/usrp/b200/b200_impl.cpp:1314-1352 | Throws for an unknown direction or a frequency above 6 GHz and then changes nothing; otherwise changes only that direction's selects, to those of the frequency, and writes once; the small boards ignore it |
| MiscRegister.Board.ResetCodec | uhd-overlay/host/lib/usrp/b200/b200_impl.cpp:1354-1360 | Two writes: the reset bit high, then low, all other bits as they were |
| MiscRegister.Board.UpdateClockSource | uhd-overlay/host/lib/usrp/b200/b200_impl.cpp:1220-1268 | Which sources are accepted, and that reference select and PLL lock then fit the source; a throw changes nothing; a write happens exactly when the select changed |
| MiscRegister.Board.UpdateTimeSource | uhd-overlay/host/lib/usrp/b200/b200_impl.cpp:1270-1295 | Which sources are accepted, the GPSDO as soon as one was made; a refused one changes nothing; on the small boards the external input never serves as time and clock source at once |
| MiscRegister.Board.UpdateEnables | uhd-overlay/host/lib/usrp/b200/b200_impl.cpp:1431-1461 | Throws exactly for three active chains and then changes nothing; otherwise the mimo bit says whether two of a kind are active, the codec gets the radios' chains and never none, and the register is written once |
| MiscRegister.Perform | uhd-overlay/host/lib/usrp/b200/b200_impl.cpp:1220-1461 | One operation, accepted or throwing, keeps every setting what the last accepted operations made it |
| MiscRegister.Run | uhd-overlay/host/lib/usrp/b200/b200_impl.cpp:1220-1461 | After construction and any operations, failing ones included, the last word written is the packing of the state and every bit follows from the operations: bands one-hot and those of the last frequency accepted in each direction, reference select and lock of the last sources accepted, mimo of the last streamers accepted, codec reset low |
| MiscRegister.OneExternalUse | uhd-overlay/host/lib/usrp/b200/b200_impl.cpp:1220-1295 | On the small boards, after any clock and time source operations, the select shows the clock source and the external input never serves both purposes |
| MiscRegister.SelectFollowsSource | uhd-overlay/host/lib/usrp/b200/b200_impl.cpp:1245-1268 | On the other boards the select tells the external from the GPSDO reference after any operations, and the latter needs a GPSDO made and detected |
| MiscRegister.ExternalUseCanChange | uhd-overlay/host/lib/usrp/b200/b200_impl.cpp:1220-1295 | After any operations the external input can change its use: from clock to time by way of the internal clock source, from time to clock by way of the internal time source |
| MiscRegister.SourcesAccepted | uhd-overlay/host/lib/usrp/b200/b200_impl.cpp:1220-1295 | Exactly which clock and time sources are accepted |
| MiscRegister.TimeNames | uhd-overlay/host/lib/usrp/b200/b200_impl.cpp:1279-1290 | Which value each time source name stands for |
| MiscRegister.ChainOfRadio | uhd-overlay/host/lib/usrp/b200/b200_impl.cpp:1431-1454 | Radio 0 drives the first chains of an unswapped board and the second of the others; two radios receive exactly if both receive chains are on, and likewise for sending |

## Left out

- The internals of the two closed libraries beyond wait, count, mask and pop; whether the jump target that the x86 patch keeps is the right loop head.
- Real time: timeouts are nondeterministic choices, so nothing is claimed about how long get_buff waits, nor that a negative timeout waits for ever.
- The transfer status: the callback always stores COMPLETED, so the io_error in get_new (uhd-overlay/host/lib/transport/libusb1_zero_copy.cpp:203-206) cannot be reached and is not modelled.
- A failed submit inside get_buff would drop a made buffer through its smart pointer, whose header is not part of this model; NothingWaitsToBeSubmitted shows that get_buff never submits.
- Buffer contents and actual_length in the rings: buffers are names, their bytes are modelled in DmaManager.
- The handle-based ring constructor (empty body), pcie_submit (a copy of submit), the ring's destructor, and the second class in that file that pairs two rings.
- do_cb's pop and the callback it runs are one step in StreamPath, and the card may complete transfers in any order.
- The three hold arrays are one array of records, the eight pool variables and the three sink variables one record each, and pool slices in use are remembered in a ghost set only.
- The temporary store of the new length into an entry while alloc_node waits for memory; nothing reads it meanwhile.
- The DMA masks set in alloc_node, cache synchronisation, page protection and logging.
- remap_pfn_range is one step that succeeds or fails; its rounding to pages is not modelled.
- az_read1, mydev_poll with the poll_cond counter it uses, mmap_01, az_probe, module start and stop, and the VMA hooks.
- Errors other than a missing file when the script reads or writes, and what it prints.
- Floating point: frequencies are reals, so a NaN frequency (which the driver rejects) does not occur.
- The codec and PLL calls in update_enables and update_clock_source are single assignments that do not fail; update_atrs, poke failures, and the SYNC register written by update_time_source.
- The rest of the device class: property tree, EEPROM, GPSDO, calibration, discovery, tick rates.

# NamelessOS kernel model

This project models the central pieces of the NamelessOS kernel in Dafny and proves properties of them
over all inputs and all runs. `dafny verify dfyconfig.toml` checks everything.

* **Physical and virtual memory** (`Bits`, `Pmm`, `Pte`, `PageTables`, `TableSteps`, `CloneSteps`,
  `VmSteps`, `FrameCounts`, `Views`, `Vmm`, `CowRefinement`, `FrameRoles`). The frame bitmap refines a set of
  frame numbers. On top of it, `Vmm.Mmu` keeps all frames of memory, CR3 and a TLB that may cache any walk of
  the current tables. Ghost state names every table of every address space by its place (`tree`) and gives
  every frame one use (`role`). `UserLoad`, `CacheTranslation` and `DropTranslation` model the processor.
  `CowRefinement.Run` executes any interleaving of create, fork, map, load, store, switch, destroy and caching,
  and shows that what programs see is what a fork that copies every page would show, each operation failing
  only when frames run out.
* **TCP** (`TcpSeq`, `TcpConn`, `TcpDelivery`, `TcpSend`, `TcpPeers`, `Tcp`). The control block is a record and
  each entry point a function on it; `Tcp.Stack` runs the code's loops and in-place updates and is tied to those
  functions. What a segment delivers, acknowledges and moves is stated exactly in terms of its own fields. The
  theorems are about all event sequences: in-order delivery, the send space against unbounded integer positions,
  retransmit buffers, connection states, and the retransmission timer. `TcpPeers` follows both ends of one
  connection through handshake, transfer and close.
* **Internet checksums** (`Checksum`): one's-complement sums modulo 65535, independent of byte order.
* **Slab heap** (`Seqs`, `SlabGeometry`, `Slabs`, `HeapLists`, `Heap`, `HeapRuns`). Intrusive freelists,
  partial and full lists, empty slabs going back to the frame allocator, and stores of the objects' owners.
* **Processes and scheduler** (`Ring`, `Scheduler`, `BoundedWaiting`). The circular run queue threaded through
  the process table under fork, launch, exit, wait and yield; a process inside the loop of waitpid is part of
  the state, and each operation is atomic on one processor. `BoundedWaiting.Run` shows that the kernel's runs are
  histories of a transition relation; waiting time and waitpid's answers are theorems about all such histories.
* **ELF loader** (`ElfImage`, `ElfFormat`, `Elf`) on top of `Vmm.Mmu`. `ElfFormat` writes ELF64 headers field by
  field and shows that the loader reads them back.

Words of 64 bits are natural numbers with explicit wrap-around; bit operations are defined digit by digit in
`Bits`. Memory allocation success, clocks and segment arrival are arguments.

Where the code does something other than its surroundings suggest, the model follows the code:

* `seq_leq` holds both ways at a distance of exactly 2^31. With nothing outstanding, an acknowledgement 2^31
  away is accepted and `snd_una` passes `snd_nxt`. `TcpSend.ReceiveUna` shows this is the only case.
* A FIN is taken whatever its sequence number: it moves `rcv_nxt` and the state even where the segment's data is
  out of order (`TcpDelivery.ReceiveTakes`, `TcpSend.ReceiveMoves`).
* At 2^31 outstanding numbers a duplicate acknowledgement frees the retransmit buffer (`TcpSend.ReceiveAcks`), and a
  segment of 65516 bytes is never resent, because its 16-bit length is 0 (`TcpSend.SentIsResent`).
* `tcp_checksum` sums in network order but its result is stored in processor order. `Checksum.TcpVerifiesIff`
  shows that a receiver accepts the segment exactly when 257 divides the network-order sum of its bytes.
* A fork that runs out of frames leaves cached translations that still allow writing to pages now marked
  copy-on-write. `Vmm.Mmu.Valid` therefore allows a cached entry to be more permissive than its table entry
  when the frame is private, which no program can notice. `Exact`, equality with a walk, is kept by everything
  except such a fork, and after that holds exactly when every page with a cached writable entry is still
  writable (`VmSteps.ExactAfterFailure`).
* Two ELF segments on one page: the later one replaces the whole page (`ElfImage.SharedPage`).
* A slab of the 4096-byte class holds no object, and the head of its freelist lies behind the page
  (`SlabGeometry.HoldsAnObject`).
* `elf_check` adds up the end of the program header table modulo 2^64; the headers lie in the buffer exactly
  when that sum does not wrap around (`ElfImage.HeadersInsideIff`).

## Model

| member | source | states |
|---|---|---|
| `Pmm.FullWord` | src/pmm/pmm.c:123 | a word is all ones exactly when each of its 64 digits is set, so skipping it skips no free frame |
| `Pmm.SetBitDigits` | src/pmm/pmm_internal.h:16-18 | bitmap_set on a word sets the one digit and leaves the 63 others |
| `Pmm.ClearBitDigits` | src/pmm/pmm_internal.h:19-21 | bitmap_clear on a word clears the one digit and leaves the 63 others |
| `Pmm.Allocator.constructor` | src/pmm/pmm.c:51-53 | all frames used, the counter exact |
| `Pmm.Allocator.IsUsed` | src/pmm/pmm_internal.h:22-24 | bitmap_test says whether the frame is outside the set of free frames |
| `Pmm.Allocator.Alloc` | src/pmm/pmm.c:121-137 | removes and returns the least free frame; returns 0 and changes nothing when none is free; keeps the counter exact |
| `Pmm.Allocator.FreeFrame` | src/pmm/pmm.c:140-146 | adds the frame to the free set, once, and ignores frames outside the bitmap; keeps the counter exact |
| `Pmm.Allocator.MarkRangeUsed` | src/pmm/pmm.c:23-33 | removes exactly the frames the range touches, clipped to 2^20 frames, in u64 arithmetic; keeps the counter exact |
| `Pmm.Allocator.MarkRangeFree` | src/pmm/pmm.c:36-46 | adds exactly the frames from the rounded-down start to the rounded-down end, clipped; keeps the counter exact |
| `Pmm.UsedRange` | src/pmm/pmm.c:23-33 | unless the sum wraps around, a non-empty range marked used takes in exactly the frames that hold one of its addresses |
| `Pmm.FreedRange` | src/pmm/pmm.c:36-46 | a range marked free takes in exactly the frames that end inside it |
| `Ptes.DecodeInjective` | src/vmm/vmm_internal.h:11-24 | the record of fields loses nothing: two words with the same fields are equal |
| `Ptes.DecodeEncode` | src/vmm/vmm_internal.h:11-24 | every well-formed record is the picture of a word |
| `Ptes.MapIsFieldUpdate` | src/vmm/vmm.c:157 | the or-expression for a new entry sets presence and frame and takes the other fields from the flags |
| `Ptes.MarkCowIsFieldUpdate` | src/vmm/vmm.c:203 | the mask-and-or of the clone clears WRITE, sets COW and changes nothing else |
| `Ptes.RelocateIsFieldUpdate` | src/vmm/vmm.c:227 | replacing the address bits of a directory entry changes only the frame |
| `Ptes.CowRemapIsFieldUpdate` | src/vmm/vmm.c:348 | the remapping of the fault handler changes frame, COW and WRITE and nothing else |
| `PageTables.AddressFromIndices` | src/vmm/vmm_internal.h:27-30 | the four indices and the offset determine a user address |
| `PageTables.IndicesFromAddress` | src/vmm/vmm_internal.h:27-30 | every user page has an address with its indices |
| `PageTables.WalkFollowsTree` | src/vmm/vmm.c:91-112 | under the invariant the four-level walk, with the rights that all levels allow, finds exactly the leaf entry of the address space's tree, its rights undiminished |
| `Vmm.Mmu.constructor` | src/vmm/vmm.c:433-436 | the boot state satisfies the invariant with no user address space |
| `Vmm.Mmu.GetOrAllocTable` | src/vmm/vmm.c:39-48 | returns the child table, installing an empty one in a free frame if needed, that frame and no other leaving the free set; every walk is unchanged; fails exactly when the table is missing and no frame is free |
| `Vmm.Mmu.LeafTableFor` | src/vmm/vmm.c:145-155 | the three levels on the way to a page: exactly the missing tables are added, one frame each, and all walks are unchanged; fails exactly when there are fewer free frames than missing tables, and then no frame is left and all walks are unchanged |
| `Vmm.Mmu.MapUserPage` | src/vmm/vmm.c:142-164 | succeeds exactly when there are as many free frames as missing tables; then the walk of the page finds the new frame and flags and all other walks are unchanged; on failure every walk is unchanged; cached translations stay correct |
| `Vmm.Mmu.MapNewPage` | src/elf/elf.c:56-82 | taking, filling and mapping a frame succeeds exactly when there are more free frames than missing tables; it adds one page with the given bytes and takes one frame and the missing tables; failure gives the frame back, leaves at most that one free and shows nobody a difference |
| `Vmm.Mmu.CreateUserPml4` | src/vmm/vmm.c:121-139 | a new address space with no user page and the kernel half of the boot PML4; no walk and no cached translation elsewhere changes |
| `Vmm.Mmu.CloneLeafEntry` | src/vmm/vmm.c:197-207 | one entry of a page table: parent and child end with the same entry, read-only and copy-on-write if it was writable |
| `Vmm.Mmu.ClonePt` | src/vmm/vmm.c:192-209 | succeeds exactly when there are as many free frames as tables at the source; the clone has the entries of the source, both read-only where the source was writable; out of frames, nothing but marks remains |
| `Vmm.Mmu.CloneDir` | src/vmm/vmm.c:213-251 | the same for a PDT or PDPT with everything below it, which succeeds exactly when there is a free frame for every table of the source |
| `Vmm.Mmu.GiveUp` | src/vmm/vmm.c:225 | giving up a directory keeps every address space and view; the child tables below it stay allocated |
| `Vmm.Mmu.ForkPml4` | src/vmm/vmm.c:254-285 | succeeds exactly when there are as many free frames as the parent has tables, and takes that many; the child mirrors the parent, all shared data is read-only in both, the TLB is flushed; a failed fork leaves every address space and every view as it was, and cached entries equal to walks exactly where writing is still allowed |
| `Vmm.Mmu.FreeUserPdpt` | src/vmm/vmm.c:288-302 | frees the PDPT and each PDT and PT below it, no data frame |
| `Vmm.Mmu.DestroyUserPml4` | src/vmm/vmm.c:305-313 | the free set gains exactly the tables of that address space; the other address spaces keep the invariant |
| `Vmm.Mmu.FindLeaf` | src/vmm/vmm.c:324-337 | the walk of the fault handler finds the leaf entry the processor's walk finds |
| `Vmm.Mmu.CowHandle` | src/vmm/vmm.c:320-352 | handles the fault exactly when the page is copy-on-write and a frame is free; then the page is private and writable with the same bytes, its translation is dropped, no other walk changes and nobody sees a difference |
| `Vmm.Mmu.SwitchTo` | src/vmm/vmm.c:115-118 | loads the address space and flushes the TLB unless it is loaded already |
| `Vmm.Mmu.UserStore` | src/vmm/vmm.c:355-362 | a user-mode store, with the fault handler behind it, changes that byte of that page of that address space and nothing anyone else sees |
| `VmSteps.ExactAfterFailure` | src/vmm/vmm.c:264-284 | after a fork that ran out of frames, the cached translations equal the walks if and only if every page with a cached writable entry is still writable in its table |
| `FrameCounts.TablesCount` | src/vmm/vmm.c:288-302 | an address space occupies as many frames as it has tables |
| `FrameCounts.PathTaken` | src/vmm/vmm.c:145-155 | the three levels succeed if and only if there are as many free frames as missing tables, and add exactly those |
| `FrameCounts.ClonedCount` | src/vmm/vmm.c:213-251 | a finished clone took one free frame for every table of its source |
| `FrameCounts.FailedCount` | src/vmm/vmm.c:223-227 | if the clone of one entry finds too few frames, there were too few for the whole directory |
| `Views.WalkReachesData` | src/vmm/vmm.c:91-112 | a walk ends at data that is no table and not free, writable only if private to that page |
| `Views.ClonedViews` | src/vmm/vmm.c:254-285 | after a fork the child sees what the parent sees and no view has changed |
| `Views.AbandonedViews` | src/vmm/vmm.c:225 | a fork that fails is invisible |
| `Views.StoreViews` | src/vmm/vmm.c:348 | a byte stored in a private frame shows in one page of one address space |
| `Views.CachedIsWalk` | src/vmm/vmm.c:282-284 | a cached translation has the frame and rights of the walk, and may allow writing beyond it only to a private page still to be copied |
| `CowRefinement.Step` | src/vmm/vmm.c:121-352 | the event shown is the one of that operation: a load shows the byte the eager-copy specification holds, and create, fork, map and store are invisible only if not enabled or short of frames; the new views are the specification applied to that event; frames, tables and CR3 move accordingly |
| `CowRefinement.Run` | src/vmm/vmm.c:121-352 | for every interleaving, the event of every operation is the one Step allows of it in the state the earlier events lead to, in the specification in which fork copies the whole space; cached translations equal walks if no fork ran out of frames |
| `FrameRoles.SharedIsReadOnly` | src/vmm/vmm.c:201-206 | a data frame reached by two user pages is writable through neither |
| `FrameRoles.OneUsePerFrame` | src/vmm/vmm.c:39-48 | a table frame has one place in one address space; tables, mapped data, free frames and the boot PML4 are disjoint |
| `FrameRoles.ForkTakesTables` | src/vmm/vmm.c:254-285 | a fork takes from the allocator the child's tables and nothing else |
| `FrameRoles.ForkAndDestroy` | src/vmm/vmm.c:254-313 | fork then destroy of the child leaves the free frames and the tables as they were; the fork succeeds exactly when there are as many free frames as the parent has tables |
| `FrameRoles.CreateMapDestroy` | src/vmm/vmm.c:121-313 | create, any maps, destroy: creation fails only without a frame; the allocator has lost one data frame for each request that succeeded and nothing else; a request fails only when the frames have gone into data and at most three tables for each request before |
| `TcpSeq.OrderOfPositions` | src/net/tcp/tcp.c:64-65 | seq_lt and seq_leq agree with the order of integer positions less than 2^31 apart |
| `TcpSeq.OppositePositions` | src/net/tcp/tcp.c:64-65 | at distance 2^31 each number counts as before the other |
| `TcpSeq.WindowTest` | src/net/tcp/tcp.c:257-258 | the window test on a reset accepts exactly the numbers from rcv_nxt to rcv_nxt + 4095 |
| `TcpSeq.AckTest` | src/net/tcp/tcp.c:310-311 | the acknowledgement test accepts exactly the numbers between snd_una and snd_nxt, and the opposite number when the two are equal |
| `TcpDelivery.PushRing` | src/net/tcp/tcp.c:155-160 | pushing at most rx_free bytes appends them to the unread bytes; none is overwritten |
| `TcpDelivery.AdvanceRing` | src/net/tcp/tcp.c:543-546 | reading n bytes leaves the unread bytes without the first n |
| `TcpDelivery.ReceiveDelivers` | src/net/tcp/tcp.c:253-369 | one segment carrying any piece of the stream keeps read plus unread bytes a prefix of it |
| `TcpDelivery.RunDelivers` | src/net/tcp/tcp.c:334-369 | for every run with duplicated, reordered, overlapping or lost pieces less than 2^32 away, bytes read then bytes in the ring are a prefix of the peer's stream |
| `TcpDelivery.FreshConnection` | src/net/tcp/tcp.c:219-221 | an opened connection starts such a run |
| `TcpDelivery.ReceiveTakes` | src/net/tcp/tcp.c:334-357 | exactly what a segment adds: in a state that takes data and at rcv_nxt, as many bytes as 4095 cells less the unread ones have room for, otherwise none; rcv_nxt moves by these, and one more for a FIN |
| `TcpDelivery.FinPhaseKeepsRing` | src/net/tcp/tcp.c:355-369 | a FIN leaves the unread bytes alone, and no state after it takes data |
| `TcpDelivery.FinEndsData` | src/net/tcp/tcp.c:355-369 | a FIN in any state that takes data leads to a state that takes none |
| `TcpDelivery.NoDataAfterEnd` | src/net/tcp/tcp.c:334-336 | after that no event adds data: what is read plus what is left stays what it was |
| `TcpSend.ReceiveUna` | src/net/tcp/tcp.c:305-318 | with at most 2^31 numbers outstanding, a segment moves snd_una forward within the outstanding numbers if and only if it is not the opposite acknowledgement |
| `TcpSend.ReceiveAcks` | src/net/tcp/tcp.c:268-318 | exactly what a segment acknowledges: its number becomes snd_una and its window the send window if and only if it completes the handshake, lies within the outstanding numbers or is the opposite one; the buffer goes exactly if that number is snd_nxt, or 2^31 before it, or the slot closes |
| `TcpSend.OppositeExample` | src/net/tcp/tcp.c:310-312 | a concrete acknowledgement that makes snd_una pass snd_nxt |
| `TcpSend.StepPositions` | src/net/tcp/tcp.c:305-318 | one event moves snd_nxt forward by the bytes and FINs sent and snd_una forward to an acknowledgement number within the outstanding ones, and otherwise neither |
| `TcpSend.RunPositions` | src/net/tcp/tcp.c:305-331 | over every run that keeps fewer than 2^31 numbers outstanding, without opposite acknowledgements, snd_nxt stands at its start plus all that was sent and snd_una at its start plus all that was acknowledged, as unbounded integers; no more is acknowledged than was outstanding or sent |
| `TcpSend.RunBuffer` | src/net/tcp/tcp.c:132-146 | over every run, opposite acknowledgements included, no buffer is held in CLOSED, LISTEN, FIN_WAIT_2 or TIME_WAIT |
| `TcpSend.ReceiveEdges` | src/net/tcp/tcp.c:253-369 | a segment takes a slot along at most two edges of the diagram of section 3.2 of RFC 793, or to CLOSED, never through CLOSED |
| `TcpSend.StepEdges` | src/net/tcp/tcp.c:438-517 | calls and ticks take it along at most one, or to CLOSED |
| `TcpSend.NoWayBack` | src/net/tcp/tcp.c:253-369 | no segment takes an established connection back to LISTEN, SYN_SENT or SYN_RCVD |
| `TcpSend.ReceiveMoves` | src/net/tcp/tcp.c:253-369 | a segment takes a connection exactly along the edges of section 3.2 of RFC 793 for what it brings: an acknowledgement of everything, a SYN-ACK, a FIN, or a reset within 4096 numbers of rcv_nxt |
| `TcpSend.CallMoves` | src/net/tcp/tcp.c:468-517 | tcp_close takes it along the edge of a close, sends and reads nowhere, and a tick nowhere but to CLOSED |
| `TcpSend.Retransmissions` | src/net/tcp/tcp.c:488-517 | an armed segment is resent exactly at ticks 1000, 3000, 7000, 15000 and 31000 after arming and the slot closes at 63000, for every value of the 32-bit tick counter |
| `TcpSend.Arming` | src/net/tcp/tcp.c:132-140 | retx_arm starts that clock exactly for a segment of positive length on an open connection; without memory no buffer is left |
| `TcpSend.SentIsResent` | src/net/tcp/tcp.c:438-515 | what tcp_send sent is resent exactly at those ticks while nothing else happens, and the slot closes at 63000, if and only if there was memory for the copy and the length is not 65516 |
| `TcpSend.SynIsResent` | src/net/tcp/tcp.c:210-435 | the same for the SYN of tcp_connect and the SYN-ACK of a passive open |
| `TcpSend.EntersTimeWait` | src/net/tcp/tcp.c:321-368 | every way into TIME_WAIT starts its clock |
| `TcpSend.TimeWaitEnds` | src/net/tcp/tcp.c:494-500 | a slot stays in TIME_WAIT for 4000 ticks, whatever the counter's value, and is closed at the 4000th |
| `TcpPeers.ThreeWayHandshake` | src/net/tcp/tcp.c:202-302 | tcp_connect, the passive open of its SYN, the SYN-ACK and its acknowledgement leave both ends established, naming each other, agreeing on both sequence spaces, with nothing outstanding, unread or buffered, for all initial numbers |
| `TcpPeers.Transfer` | src/net/tcp/tcp.c:305-465 | a segment sent in synchrony and its acknowledgement: the receiver has the bytes that fit after those it had, the sender learns exactly how many, and keeps the copy exactly if some were not taken |
| `TcpPeers.OrderlyClose` | src/net/tcp/tcp.c:319-485 | close by one end, then the other: FIN_WAIT_1, CLOSE_WAIT, FIN_WAIT_2, LAST_ACK, TIME_WAIT for 4000 ticks, CLOSED; no buffer and no unread byte is lost |
| `TcpPeers.SimultaneousClose` | src/net/tcp/tcp.c:319-485 | crossing FINs take both ends through CLOSING to TIME_WAIT |
| `Tcp.Addressed` | src/net/tcp/tcp.c:184-199 | what one end sends belongs to the slot of the other end and to no slot of another connection |
| `Tcp.Stack.constructor` | src/net/tcp/tcp.c:558-560 | all slots closed, no buffer on the heap |
| `Tcp.Stack.ClearRetx` | src/net/tcp/tcp.c:142-146 | frees the buffer if there is one; every buffer on the heap stays held by a slot |
| `Tcp.Stack.ArmRetx` | src/net/tcp/tcp.c:132-140 | replaces the buffer without losing the old one, and arms the segment for the retransmission schedule; when the allocation fails, leaves no buffer |
| `Tcp.Stack.ConnAlloc` | src/net/tcp/tcp.c:57-61 | the first closed slot, or none when no slot is closed |
| `Tcp.Stack.RxPush` | src/net/tcp/tcp.c:155-160 | the byte loop is the ring operation of the delivery theorem |
| `Tcp.Stack.TakeAckNumber` | src/net/tcp/tcp.c:306-318 | an acknowledgement number within the outstanding ones becomes snd_una, its window the send window, and the buffer goes exactly when the number is snd_nxt |
| `Tcp.Stack.TakeAckStates` | src/net/tcp/tcp.c:319-330 | an acknowledgement of everything moves FIN_WAIT_1, CLOSING and LAST_ACK on, the last freeing the buffer |
| `Tcp.Stack.TakeData` | src/net/tcp/tcp.c:334-352 | in the three states that take data, and at rcv_nxt, the unread bytes gain as much of the segment as fits in 4095, and rcv_nxt moves by that much; otherwise nothing changes |
| `Tcp.Stack.ReceiveOn` | src/net/tcp/tcp.c:253-369 | the code's phases on the slot in place are the transition the theorems are about |
| `Tcp.Stack.Rx` | src/net/tcp/tcp.c:181-251 | the segment goes to the first slot it matches; a SYN to a listener fills a closed slot, only if no slot matches its ports and address, and leaves every other slot alone; otherwise nothing changes; no buffer is lost |
| `Tcp.Stack.ListenOn` | src/net/tcp/tcp.c:373-393 | fills a closed slot that then listens on the port, with nothing unread, without losing a buffer; fails only when none is closed |
| `Tcp.Stack.Connect` | src/net/tcp/tcp.c:396-435 | fills a closed slot with a fresh send space and an armed SYN |
| `Tcp.Stack.Send` | src/net/tcp/tcp.c:438-465 | sends exactly from ESTABLISHED and CLOSE_WAIT with data and memory; advances snd_nxt and re-arms |
| `Tcp.Stack.CloseConn` | src/net/tcp/tcp.c:468-485 | the FIN takes one number; the slot's buffer stays accounted for |
| `Tcp.Stack.TickSlot` | src/net/tcp/tcp.c:491-515 | one slot: TIME_WAIT expires, an expired segment is resent with doubled delay, the sixth expiry closes the slot and frees the buffer |
| `Tcp.Stack.TickAll` | src/net/tcp/tcp.c:488-517 | the loop ticks every slot once with the time of the tick and loses no buffer |
| `Tcp.Stack.ReadFrom` | src/net/tcp/tcp.c:536-548 | hands over the oldest unread bytes; what was unread is those bytes followed by what is still unread |
| `Tcp.CopyOut` | src/net/tcp/tcp.c:543-546 | the copy loop returns the first n unread bytes |
| `Checksum.FoldMeaning` | src/net/ipv4/ipv4_internal.h:51-52 | folding ends in at most 16 bits with the same value modulo 65535, zero only for zero |
| `Checksum.ByteOrder` | src/net/ipv4/ipv4_internal.h:46-49 | the network-order sum of any bytes, odd or even in number, is 256 times the native sum modulo 65535 |
| `Checksum.SameVerdict` | src/net/udp/udp.c:20-21 | a sum is all ones in one byte order exactly when it is in the other |
| `Checksum.VerifiesIff` | src/net/ipv4/ipv4_internal.h:54 | a value stored in a zeroed even-offset field verifies exactly when it is the complement of the folded sum, or all ones in place of zero |
| `Checksum.CsumNative` | src/net/udp/udp.c:22-37 | adds the native sum of the bytes; the u32 never overflows for 16-bit lengths |
| `Checksum.FoldSum` | src/net/udp/udp.c:66-67 | the loop ends with the folded sum |
| `Checksum.PseudoHeaderSum` | src/net/udp/udp.c:44-71 | the pseudo-header adds both 32-bit addresses as 16-bit words, the protocol and the length |
| `Checksum.IpChecksum` | src/net/ipv4/ipv4_internal.h:41-55 | stored natively in any zeroed even-offset field, the result makes the big-endian sum 0xFFFF |
| `Checksum.UdpChecksum` | src/net/udp/udp.c:44-71 | never zero, and makes the big-endian sum of pseudo-header, header and data 0xFFFF (RFC 768) |
| `Checksum.TcpVerifiesIff` | src/net/tcp/tcp.c:69-74 | the TCP checksum as stored verifies if and only if 257 divides the network-order sum of the message, which is when its two bytes are equal |
| `Checksum.TcpExampleRejected` | src/net/tcp/tcp.c:72 | a concrete message whose stored checksum a receiver rejects |
| `SlabGeometry.CacheIndex` | src/heap/heap.c:14-19 | the first cache whose objects are large enough |
| `SlabGeometry.RoundUpPow2` | src/heap/heap.c:21-25 | the least object size that holds the request |
| `SlabGeometry.HoldsAnObject` | src/heap/heap.c:42-53 | a slab page holds at least one object, and the head of its freelist lies inside it, if and only if the object size is at most 2048 |
| `SlabGeometry.PageUsedUp` | src/heap/heap.c:39-46 | objects begin at the first multiple of their size behind the descriptor and use the page up: 508, 254, 127, 63, 31, 15, 7, 3 and 1 of them, and one more would not fit |
| `SlabGeometry.SlotInPage` | src/heap/heap.c:54-57 | every object lies in its page behind the 32-byte descriptor, aligned to its size |
| `SlabGeometry.SlotsApart` | src/heap/heap.c:57 | two objects of a page do not overlap |
| `Slabs.FreeCountMeans` | src/heap/heap.c:121 | free_count never passes total, and equals it exactly when the slab holds no live object |
| `HeapLists.LiveApart` | src/heap/heap.c:66-71 | live objects never overlap each other or a descriptor, and are aligned |
| `Heap.KernelHeap.constructor` | src/heap/heap.c:226-231 | empty caches satisfy the invariant |
| `Heap.KernelHeap.SlabCreate` | src/heap/heap.c:30-63 | a fresh page with as many objects as it can hold and an acyclic freelist of all of them; fails only when no frame is free; no other page changes |
| `Heap.KernelHeap.SlabAllocFrom` | src/heap/heap.c:66-71 | takes the head of the freelist, an object that was not live |
| `Heap.KernelHeap.ToFull` | src/heap/heap.c:85-90 | the slab that became full moves from the head of its partial list to its full list; every other list is as it was |
| `Heap.KernelHeap.PushFree` | src/heap/heap.c:102-108 | the object joins its slab's freelist; only its first word changes |
| `Heap.KernelHeap.ToPartial` | src/heap/heap.c:110-118 | the slab that was full moves to the head of its partial list; every other list is as it was |
| `Heap.KernelHeap.DropEmpty` | src/heap/heap.c:120-126 | a slab without live objects leaves its list and its frame becomes free; frames are conserved |
| `Heap.KernelHeap.CacheAlloc` | src/heap/heap.c:74-92 | keeps the slab invariant: distinct in-page freelists of length free_count, partial slabs strictly between empty and full, each slab on exactly one list; hands out one object that was not live, or NULL exactly when the cache has no partial slab and no frame is free |
| `Heap.KernelHeap.Unlink` | src/heap/heap.c:112-114 | the pointer-to-pointer loop takes exactly that slab off the list and relinks the rest |
| `Heap.KernelHeap.CacheFree` | src/heap/heap.c:101-127 | keeps the slab invariant; the object is no longer live, a slab left empty returns its frame, the contents of all other live objects are untouched |
| `Heap.KernelHeap.Kmalloc` | src/heap/heap.c:157-166 | NULL exactly for size 0 or when no frame is free and every slab of the class is full; otherwise a new live object of the least class that holds the request; the contents of live objects are untouched |
| `Heap.KernelHeap.Kfree` | src/heap/heap.c:174-188 | NULL is ignored; otherwise exactly that object stops being live; frames are conserved |
| `Heap.KernelHeap.Store` | src/heap/heap_internal.h:19-23 | an owner's write anywhere inside a live object leaves the allocator's invariant intact |
| `HeapRuns.OnePagePerUse` | src/heap/heap.c:120-126 | between calls the caches hold exactly the frames with at least one live object |
| `HeapRuns.SameBitmap` | src/pmm/pmm_internal.h:16-24 | the set of free frames determines the bitmap |
| `HeapRuns.Step` | src/heap/heap.c:157-188 | malloc answers NULL exactly for size 0 or when every frame holds a block and each page of the request's class holds as many blocks as it can, otherwise with a block of the least class that fits, apart from all held blocks; free gives back that block; the blocks held and every value an owner has stored in one of them are those of the events |
| `HeapRuns.Run` | src/heap/heap.c:157-188 | every run of requests of up to 2048 bytes: the event of each request is the one Step allows given the earlier events, live objects and stored values are those of the replayed trace; once all blocks are given back the frame bitmap has its starting value |
| `HeapRuns.LastWriteStays` | src/heap/heap.c:66-71 | in the replay a value stays until it is written over or its block is given back |
| `HeapRuns.HeldUntilGiven` | src/heap/heap.c:157-188 | in the replay a block is held from the request that got it until it is given back |
| `Scheduler.Kernel.constructor` | src/process/process.c:213-232 | idle alone is running and in the queue |
| `Scheduler.Kernel.SchedulerAdd` | src/scheduler/scheduler.c:23-32 | the queue stays one cycle, with the new process right after the head |
| `Scheduler.Kernel.SchedulerRemove` | src/scheduler/scheduler.c:35-55 | removes exactly that process, wherever it is, and keeps one cycle; a process not in the queue changes nothing |
| `Scheduler.Kernel.NextRunnable` | src/scheduler/scheduler.c:83-89 | the scan finds the first runnable process after the head, or comes back to the head when there is none |
| `Scheduler.Kernel.Yield` | src/scheduler/scheduler.c:77-126 | switches only to a ready process, the nearest one; leaves exactly one running process; always leaves a zombie |
| `Scheduler.Kernel.AllocPid` | src/process/process.c:17-23 | the least unused slot, or -1 exactly when all are in use |
| `Scheduler.Kernel.KthreadCreate` | src/process/process.c:41-75 | a ready process in an unused slot that is not in the queue; nothing visible on failure |
| `Scheduler.Kernel.Launch` | src/init_launch/init_launch.c:88-98 | the new process is inserted once, in a slot that was not in the queue; fails exactly without a stack or an unused slot, and then changes nothing |
| `Scheduler.Kernel.Fork` | src/process/process.c:87-152 | a child of the current process is inserted once, in a slot that was not in the queue; fails exactly when a resource is missing and then leaves states and queue as they were |
| `Scheduler.Kernel.Exit` | src/syscall/syscall.c:94-104 | the process becomes a zombie with the status it gave, which it has not given before, and another process runs |
| `Scheduler.Kernel.WaitBegin` | src/process/process.c:164-182 | waits exactly for slots in use whose parent is the current process |
| `Scheduler.Kernel.WaitPoll` | src/process/process.c:186-196 | returns, once the child is a zombie, the status that very occupant of the slot gave to exit, and takes it out of queue and table; until then yields |
| `BoundedWaiting.NextProgress` | src/scheduler/scheduler.c:77-126 | unless p runs, every step of the transition relation keeps a ready p waiting, brings it at least one place nearer if it yields and moves it back one if it inserts |
| `BoundedWaiting.RunsInTime` | src/scheduler/scheduler.c:77-126 | in every history, a process ready at distance d has run by the time scheduler_yield has been called d times plus once for each insertion |
| `BoundedWaiting.YieldsSuffice` | src/scheduler/scheduler.c:77-126 | in particular once as many yields have been asked for as its distance plus the forks and launches asked for |
| `BoundedWaiting.ReturnedOnce` | src/process/process.c:186-196 | in every history, two returns of waitpid for the same slot are of different processes |
| `BoundedWaiting.StatusGiven` | src/process/process.c:186-196 | in every history, the status waitpid returns is the one the very process asked for gave to exit |
| `BoundedWaiting.Step` | src/scheduler/scheduler.c:77-126 | every kernel operation is one step of the transition relation, and waitpid returns what that step says |
| `BoundedWaiting.Run` | src/process/process.c:17-196 | every run of the kernel is such a history, from its first to its last state, with the invariant in each and waitpid returning what the history says |
| `ElfImage.HeadersInside` | src/elf/elf.c:10-27 | after elf_check every program header read is inside the buffer |
| `ElfImage.HeadersInsideIff` | src/elf/elf.c:10-27 | after elf_check, in any buffer below 2^63 bytes, all program headers read lie inside the buffer if and only if the end of their table does not wrap around 2^64 |
| `ElfFormat.HeaderReadBack` | src/elf/elf.c:10-27 | entry, table offset, entry size and count are read back from a header written field by field, and elf_check accepts it exactly for class, byte order, type, machine, sizes and table end as the format requires |
| `ElfFormat.ProgramReadBack` | src/elf/elf.c:101-112 | type, rights, offset, address and sizes are read back from a program header written field by field, with PF_X, PF_W and PF_R as its flags |
| `ElfImage.CoversTouched` | src/elf/elf.c:47-54 | the pages mapped for a segment are exactly those that hold an address of it |
| `ElfImage.GuardHolds` | src/elf/elf.c:70-75 | the bounds test before the copy is always true |
| `ElfImage.CopiedSlice` | src/elf/elf.c:62-76 | the zeroed page with the copied slice is the page of the segment's image, byte by byte |
| `ElfImage.LastWins` | src/elf/elf.c:101-116 | a page shows the last segment that covers it |
| `ElfImage.CoveredIsShown` | src/elf/elf.c:101-116 | the image has a page at an address exactly when some segment covers it |
| `ElfImage.MemoryImage` | src/elf/elf.c:32-87 | with disjoint page ranges and p_filesz at most p_memsz, every address of a segment holds its file byte or zero past p_filesz, zero padding around it, under the rights of p_flags |
| `ElfImage.SharedPage` | src/elf/elf.c:56-82 | where a later segment covers the page too, bytes of the earlier one outside the later one's file part read as zero |
| `Elf.FillPage` | src/elf/elf.c:59-76 | the frame's contents are the page of the image |
| `Elf.LoadPage` | src/elf/elf.c:55-84 | one more page of the image is visible exactly when there are more free frames than missing tables; otherwise nothing visible changed and at most one frame is free |
| `Elf.LoadSegment` | src/elf/elf.c:32-87 | maps exactly the pages of the segment with its image and rights; file bytes outside the buffer are refused with nothing changed; otherwise it fails only with at most one free frame left, a prefix of the pages mapped and nothing else |
| `Elf.Load` | src/elf/elf.c:90-127 | on success the address space shows the file's image over what it showed, the entry is e_entry and there was a segment; on failure no other address space changes; a bad header changes nothing; a file with a segment and its bytes in the buffer fails only with at most one free frame left |
| `Elf.ProgramSees` | src/elf/elf.c:90-127 | what a successful load promises about each address, in terms of the loaded program's view of memory |

## Left out

- Huge pages, the boot PML4's low half, vmm_map_page, vmm_unmap_page and vmm_map_kernel_in_user_pml4; the model maps 4 KB user pages only.
- Kernel-mode stores to user pages, which do not take the copy-on-write fault because CR0.WP is clear.
- Freeing the address space that is loaded, as execve's failure after the switch does; `Vmm.Mmu.DestroyUserPml4` keeps the translation claim only for the others.
- Accessed and dirty bits, PCID and global entries; the TLB holds user translations of the current CR3.
- Contents of a frame before it is used: a frame holds either table entries or bytes, and a byte frame reused as a table is read as little-endian words.
- pmm_init's walk of the Multiboot map and its final count; the allocator starts with all frames used and any sequence of range operations may follow.
- Vmm.Mmu.MapUserPage: requires a frame the kernel holds and no entry reaches, as its callers pass; vmm_map_user_page would map any physical address, also a table or a shared frame.
- Vmm.Mmu.MapNewPage: requires a page of the user half; the loader and its callers do not check this.
- Heap.KernelHeap.SlabCreate: excludes the 4096-byte class, whose freelist starts in the page behind the slab; SlabGeometry.HoldsAnObject gives the exact condition.
- Heap.KernelHeap.CacheAlloc: excludes the 4096-byte class for the same reason.
- Heap.KernelHeap.Kmalloc: excludes requests above 2048 bytes, which go to that class or to multi-page blocks.
- Multi-page heap blocks, kzalloc and krealloc.
- Heap.KernelHeap.Store: models aligned eight-byte stores; contents of fresh objects are unspecified, so the zeroing of a new slab page is not visible.
- TCP header parsing, callbacks and tcp_accept; segments sent are given by their fields in `TcpPeers` and are not outputs of `Tcp.Stack`, and a resent segment's bytes are not modelled.
- TCP between two ends over a network that loses, repeats or reorders segments: `TcpPeers` has them arrive, `TcpDelivery.RunDelivers` covers one direction over such a network.
- Tcp.Stack.Send: the segment buffer's own 16-bit length wrap above 65515 bytes affects only the retransmit length, not the copied bytes, which are not modelled.
- TcpSend.RunPositions: excludes the opposite acknowledgement, which the code accepts; TcpSend.ReceiveUna gives the exact condition.
- TCP eventual delivery: a second send replaces the unacknowledged segment and FIN is never retransmitted.
- ElfImage.HeadersInside: excludes a table whose end wraps around 2^64; ElfImage.HeadersInsideIff shows that this is the exact condition.
- Elf.LoadPage: requires a page of the user half.
- Elf.LoadSegment: requires that p_vaddr plus p_memsz and p_offset plus p_filesz do not wrap around 2^64 and that the segment lies in the user half; the loader does not check either.
- Elf.Load: requires that sums of header fields do not wrap around 2^64 and that segments lie in the user half; the loader does not check either.
- Process memory and context: kernel stacks, saved registers and address spaces of the process table; `Scheduler.Kernel.Fork` takes the outcome of their allocation as arguments.
- The timer tick that requests a yield, interrupts inside kernel operations, and several processors.
- PROC_BLOCKED, which no code sets.
- Socket layer, VFS, tmpfs, devfs, TTY, ARP, DHCP, dynamic linking, shell, string routines, drivers and CPU setup: table scans, small rings and port I/O that would add only easier members.

# blue-rdma driver core, modelled in Dafny

This project models the parts of the blue-rdma user-space RDMA driver that are
sequential and integer-only, and proves their properties:

- **The reliable-transport send path.** `SendWrResolver` validates an RDMA Write
  work request. `WrFragmenter` then splits it into chunks of at most 4096 bytes
  whose ends fall on path-MTU (PMTU) boundaries, advancing the packet sequence
  number (PSN), both addresses and the remaining length at each step.
- **The timeout/retransmit worker's bookkeeping.** One round of the worker drains
  the queued tasks into the per-QP timer table, then scans the table and re-sends
  a retry-marked copy of the stored chunk of every timed-out QP.
- **The 24-bit PSN and 16-bit MSN sequence spaces** and their half-space windows.
- **The descriptor bitfields**: the 16-bit common head and the four 64-bit chunks
  of the BTH/RETH meta-report descriptor. Fields are packed least-significant bit
  first, in declaration order, and every setter masks its value to the field width.
- **The memory translation table's bookkeeping**: region validation, the page walk
  of a region, and the `mr_key` map kept beside the table allocator.
- **Physical address resolution** from Linux `/proc/self/pagemap` entries. Bits
  0-54 of an entry are the page frame number and bit 63 is "page present".
  The emulated resolver is modelled too.
- **The ring-buffer register adaptors**: head and tail pointers, and the 64-bit
  base address split over two 32-bit registers.
- **The 2 MiB bump allocator over the u-dma-buf device**, including the parsing of
  its `size` and `phys_addr` sysfs attributes.

## How the model is built

- There is one module per source file: `Send`, `TimeoutRetransmit`, `Constants`,
  `Desc`, `Mtt`, `VirtToPhy`, `Device` and `UDmaBuf`. Two shared modules sit
  beside them:
  - `MachineInt` holds machine-integer subset types, powers of two, and Rust's
    wrapping / saturating / bitwise-and arithmetic.
  - `Wrappers` holds `Option` and `Result`.
- Code that updates state in place is a class whose methods are proved against a
  specification function of the old state:
  - `WrFragmenter.Next`, `Mtt.Register`/`Deregister` and `UDmaBufAllocator.Create`;
  - `TimeoutRetransmitWorker.RunRound`, which works on the table's `array`;
  - the descriptor setters, and `NewWithOpCode`'s two setter calls in sequence;
  - `RingCsr`, the register map.
- Loops stay loops: the drain and the scan in `RunRound`, and the `push` loop of
  the x86 range lookup.
- Collaborators whose code is not part of this model become parameters:
  - `ChunkPos::next` is `posNext`;
  - `TransportTimer` is a type parameter with `reset` and `check`;
  - `qpn_index` and `MAX_QP_CNT` are `qpnIndex` and `maxQpCnt`;
  - the MTT `Alloc` is `AllocFn`/`DeallocFn` over an abstract state;
  - the page size is a parameter;
  - the device's `read_csr`/`write_csr` become a register map with a map of
    failing addresses.
- Two collaborators whose code is not part of this model are given assumed
  definitions instead: the chunk builder (`WrChunkBuilder`'s `set_ibv_params`,
  `set_chunk_meta` and `build`) and `WrChunk::set_is_retry`. "## Left out"
  states what is assumed of them.
- OS I/O is an input:
  - pagemap contents, or the open error;
  - sysfs attribute text, or the read error;
  - the pointer `mmap` returned.
- Rust's unchecked `u64` arithmetic is modelled with release-build semantics,
  wrapping modulo 2^64. Where the source wraps or saturates on purpose, that is
  modelled as well: `wrapping_add` on the PSN, `saturating_add` on addresses.

Two consequences of the fragmenter's code are worth stating:

- A request that fits in one chunk is tagged `Last`, not `Only`, because the
  position starts at `First` (`Send.SingleChunkIsLast`).
- For pmtu 1024, laddr 0x1000, raddr 0x2000 and length 5000, the code yields
  chunks of 4096 and 904 bytes, because 0x1000 is already 4096-aligned
  (`Send.WorkedExample`).

## Model

| member | source | states |
|---|---|---|
| Send.NewResolver | src/send/mod.rs:123-133 | A non-write opcode is `Unimplemented`, and the opcode is checked before the SGE count. A negative `num_sge` is `InvalidInput`. Any other count but 1 is `Unimplemented`. `Ok` holds exactly for a write opcode with one SGE, and wraps the request unchanged. |
| Send.ResolverAccessors | src/send/mod.rs:135-173 | Every accessor of a resolved request returns the wrapped request's field unchanged. |
| Send.Step | src/send/mod.rs:35-77 | The specification of one `next` call. `StepCases`, `StepLen`, `StepShape` and `ZeroLengthStep` state what it emits and how it advances the fields. |
| Send.Fragments | src/send/mod.rs:35-77 | The chunks that successive `next` calls yield from a state. The `Fragments…` lemmas below state their bounds, contiguity, alignment, coverage and positions. |
| Send.ChunkSizeAt | src/send/mod.rs:40-51 | The tentative chunk size never exceeds 4096 and never runs past the top of the address space, so the conversion to `u32` cannot fail. |
| Send.PmtuMask | src/send/mod.rs:41-46 | For a power-of-two pmtu of at most 4096, `y & !(pmtu - 1)` rounds `y` down to a multiple of pmtu. |
| Send.ChunkSizeAtAligned | src/send/mod.rs:46-51 | From a PMTU-aligned address (below the top of the address space), the tentative chunk is a full 4096 bytes. |
| Send.ChunkSizeAligned | src/send/mod.rs:46-51 | The tentative chunk is empty exactly when `laddr > 2^64 - 1 - pmtu`. Otherwise it ends on a PMTU boundary. |
| Send.StepCases | src/send/mod.rs:57-76 | One step either discards its chunk when `raddr + len` overflows (after the PSN and `laddr` have advanced), or emits the chunk and advances every field. |
| Send.StallAtTopOfAddressSpace | src/send/mod.rs:46-51 | Near the top of the address space one step yields a zero-length chunk and leaves every field but the position unchanged, so iteration does not end. |
| Send.ZeroLengthStep | src/send/mod.rs:46-76 | A zero tentative chunk size yields an empty chunk and changes only the position. |
| Send.StepLen | src/send/mod.rs:46-62 | Under a valid pmtu, each emitted length is between 1 and 4096 and at most the remaining length. A shorter-than-remaining chunk ends PMTU-aligned and keeps its position. The final one is `Last` (or `Only` if it started so). |
| Send.StepShape | src/send/mod.rs:57-76 | A step emits a chunk exactly when the remote end does not overflow. The chunk is built from the current fields, and the next state advances PSN, addresses and remaining length by that chunk. |
| Send.NextNoneIffComplete | src/send/mod.rs:36-38 | When the addresses fit, `next` yields `None` exactly when nothing remains. |
| Send.FragmentsEmptyIffComplete | src/send/mod.rs:36-38 | A request yields no chunks exactly when its length is 0. |
| Send.FragmentsChunkBounds | src/send/mod.rs:46-67 | Every emitted chunk has length 1 to 4096 and carries the builder's pmtu and work-request parameters, not marked as a retry. |
| Send.FragmentsContiguous | src/send/mod.rs:69-73 | Chunk i+1 starts where chunk i ends, locally and remotely. Its PSN is chunk i's PSN plus `ceil(len / pmtu)`, wrapping in 32 bits. |
| Send.FragmentsAligned | src/send/mod.rs:46-58 | Every non-final chunk ends on a PMTU boundary. |
| Send.FragmentsPsn24 | src/send/mod.rs:69-70 | Masked to the 24 bits a descriptor keeps, the PSNs of consecutive chunks follow the 24-bit wrapping recurrence. |
| Send.FragmentsCoverage | src/send/mod.rs:57-58 | The chunk lengths sum to the request's length. |
| Send.FragmentsLastIsLast | src/send/mod.rs:57-61 | The final chunk is `Last` for a fragmenter that does not start at `Only` and whose successor yields `Only` from no other position. |
| Send.FragmentsFirstPos | src/send/mod.rs:64-66 | The first chunk of a multi-chunk request carries the starting position. |
| Send.FragmentsMiddlePos | src/send/mod.rs:74 | Each middle chunk's position is the successor of the previous one. |
| Send.SingleChunkIsLast | src/send/mod.rs:57-61 | A request starting at `First` that fits in one chunk is exactly one chunk, tagged `Last`. |
| Send.WorkedExample | src/send/mod.rs:46-76 | pmtu 1024, laddr 0x1000, raddr 0x2000, length 5000 and PSN 0 give (0, 0x1000, 0x2000, 4096, `First`), then (4, 0x2000, 0x3000, 904, `Last`), then nothing. |
| Send.WrFragmenter.constructor | src/send/mod.rs:83-107 | The fragmenter starts at the base PSN with the request's addresses and length, at `First`. Its builder holds the send flags truncated to 8 bits, the rkey, length, lkey and imm. |
| Send.WrFragmenter.IsComplete | src/send/mod.rs:110-112 | A completed fragmenter steps to `None` and stays as it is. |
| Send.WrFragmenter.Next | src/send/mod.rs:35-77 | `next` returns the chunk and updates the fields as one step of the fragmentation does, so successive calls produce `Fragments`. |
| TimeoutRetransmit.DefaultConfig | src/timeout_retransmit.rs:14-35 | The default configuration is check-duration exponent 8, local ACK timeout exponent 4, and 5 retries. |
| TimeoutRetransmit.NewConfig | src/timeout_retransmit.rs:38-44 | `new` stores its three arguments verbatim. |
| TimeoutRetransmit.CheckDurationExact | src/timeout_retransmit.rs:138 | `4096 << exp` is `4096 * 2^exp` nanoseconds whenever the shift does not overflow. |
| TimeoutRetransmit.DefaultCheckDuration | src/timeout_retransmit.rs:138 | The default check interval is 1,048,576 ns. |
| TimeoutRetransmit.CheckDurationNs | src/timeout_retransmit.rs:138 | `4096u64 << exp` in a release build, with the shift amount taken mod 64. `CheckDurationExact` proves it is `4096 * 2^exp` when no bit is shifted out. |
| TimeoutRetransmit.NewEntry | src/timeout_retransmit.rs:74-79 | A new entry holds the given timer and no stored chunk. |
| TimeoutRetransmit.SetLastPacket | src/timeout_retransmit.rs:81-83 | The stored chunk is replaced, not appended to, and the timer is kept. |
| TimeoutRetransmit.TaskQpn | src/timeout_retransmit.rs:100-104 | `qpn` returns the QP number of either kind of task. |
| TimeoutRetransmit.TransportTimerTable.constructor | src/timeout_retransmit.rs:53-60 | A new table has exactly `maxQpCnt` entries, each a fresh entry over the same initial timer. |
| TimeoutRetransmit.TransportTimerTable.GetQpMut | src/timeout_retransmit.rs:62-64 | The lookup finds a slot exactly when `qpn_index(qpn)` is inside the table, and that slot is `qpn_index(qpn)`. |
| TimeoutRetransmit.ApplyTask | src/timeout_retransmit.rs:142-151 | The effect of one drained task on the table. `NoOpTasks` proves that a `ReceiveACK`, or a QP outside the table, changes nothing. |
| TimeoutRetransmit.Drain | src/timeout_retransmit.rs:141-152 | The table after the whole task queue is drained, in queue order. `DrainBySlot`, `UntouchedSlot` and `LastAckReqWins` state it slot by slot. |
| TimeoutRetransmit.Scan | src/timeout_retransmit.rs:153-166 | The scan of the table: the new timers and chunks sent, or the abort at a failed check. `ScanSpec`, `ScanAbortsAtFirstFailure` and `ScanAbortPersists` state its outcome. |
| TimeoutRetransmit.Retries | src/timeout_retransmit.rs:154-162 | The reference definition of the chunks a scan sends, front to back. `ScanSpec` proves that `Scan` sends exactly these, and `RetriesAreRetries` proves they are all retry-marked. |
| TimeoutRetransmit.NoOpTasks | src/timeout_retransmit.rs:141-152 | A `ReceiveACK`, or a task for a QP outside the table, changes nothing. |
| TimeoutRetransmit.DrainBySlot | src/timeout_retransmit.rs:141-152 | Draining keeps the table size. Each slot ends up as the reference per-slot definition says: every `NewAckReq` for that slot, in queue order, resets the timer and replaces the chunk, and entries at other indices do not affect it. |
| TimeoutRetransmit.UntouchedSlot | src/timeout_retransmit.rs:141-152 | A slot that no `NewAckReq` names is unchanged. |
| TimeoutRetransmit.LastAckReqWins | src/timeout_retransmit.rs:145-151 | A slot's stored chunk is the chunk of the last `NewAckReq` for it. |
| TimeoutRetransmit.ScanSpec | src/timeout_retransmit.rs:153-166 | The scan completes exactly when no timer check fails. Then every entry keeps its chunk and takes the timer its check left. The chunks sent are, in index order, the retry-marked copies of the stored chunks of the timed-out entries; an entry with no chunk, or not timed out, sends nothing. |
| TimeoutRetransmit.ScanAbortsAtFirstFailure | src/timeout_retransmit.rs:153-164 | An aborted scan stops at the first entry whose timer check fails, with every earlier check succeeding. |
| TimeoutRetransmit.ScanAbortPersists | src/timeout_retransmit.rs:164 | Once a prefix aborts, entries after it are never checked. |
| TimeoutRetransmit.RetriesAreRetries | src/timeout_retransmit.rs:156-158 | Every chunk the scan sends is marked as a retry. |
| TimeoutRetransmit.TimeoutRetransmitWorker.constructor | src/timeout_retransmit.rs:115-126 | The worker's table holds `maxQpCnt` fresh entries over a timer built from the configured local ACK timeout and retry count. |
| TimeoutRetransmit.TimeoutRetransmitWorker.RunRound | src/timeout_retransmit.rs:137-168 | One round of `run` aborts exactly when the scan of the drained table does. Otherwise it leaves the scanned table, updated in place, and sends the scan's chunks. |
| Constants.PsnConstants | src/constants.rs:1-6 | `PSN_MASK` is 0xFFFFFF, `MAX_PSN_WINDOW` is 2^23, and the window is exactly half the 24-bit PSN space. |
| Constants.MsnConstants | src/constants.rs:8-11 | `MAX_MSN_WINDOW` is 2^15, exactly half the 16-bit MSN space. |
| Constants.PsnMaskIsMod | src/constants.rs:6 | `v & PSN_MASK == v mod 2^24` for every `u32` `v`. |
| Constants.WrappingAddThenMask | src/constants.rs:6 | Wrapping a 32-bit sum and then masking it to 24 bits equals the sum mod 2^24. |
| Desc.FromToBits | src/protocol_impl/desc/mod.rs:156-195 | Encoding a value in `w` bits, least significant first, and reading it back gives the value mod 2^w. |
| Desc.ToFromBits | src/protocol_impl/desc/mod.rs:156-195 | Reading a bit string and encoding it again gives it back. |
| Desc.GetAfterSet | src/protocol_impl/desc/mod.rs:212-292 | A bitfield getter after a setter returns the value masked to the field width. |
| Desc.SetToGet | src/protocol_impl/desc/mod.rs:212-292 | Setting a field to the value it already holds changes nothing. |
| Desc.SetTwice | src/protocol_impl/desc/mod.rs:212-292 | The second of two sets of one field wins. |
| Desc.SetKeepsOutside | src/protocol_impl/desc/mod.rs:212-292 | A setter changes no bit outside its field. |
| Desc.SetInView | src/protocol_impl/desc/mod.rs:156-205 | In a packed layout, setting field k changes exactly field k of the view, to the masked value. |
| Desc.HeadPacked | src/protocol_impl/desc/mod.rs:81-89 | The head's fields (op code 8, extended-op-code flag 1, reserved 5, has-next 1, valid 1) fill its 16 bits in declaration order. |
| Desc.NewWithOpCode | src/protocol_impl/desc/mod.rs:104-109 | A new head has the given op code, the valid bit set, and every other field zero. |
| Desc.RingBufDescUntyped.IsValid | src/protocol_impl/desc/mod.rs:124-127 | `is_valid` is exactly the head's valid bit, its most significant one. |
| Desc.DescSizes | src/protocol_impl/desc/mod.rs:117-122 | The untyped descriptor's 30 rest bytes plus its 2-byte head, and the four 64-bit chunks, are each `DESC_SIZE` (32) bytes. |
| Desc.ChunksPacked | src/protocol_impl/desc/mod.rs:156-195 | Each of the four chunk layouts fills exactly 64 bits in declaration order. |
| Desc.ChunkView0Fields | src/protocol_impl/desc/mod.rs:156-166 | Chunk 0 lists expected PSN, request status, trans, opcode and dqpn. |
| Desc.ChunkView1Fields | src/protocol_impl/desc/mod.rs:168-179 | Chunk 1 lists psn, solicited, ack_req, pad_cnt, the reserved bits and rkey. |
| Desc.ChunkView2Fields | src/protocol_impl/desc/mod.rs:181-185 | Chunk 2 is the virtual address. |
| Desc.ChunkView3Fields | src/protocol_impl/desc/mod.rs:187-195 | Chunk 3 lists dlen, msn, the reserved bits and can_auto_ack. |
| Desc.MetaReportQueueDescBthReth.ExpectedPsn | src/protocol_impl/desc/mod.rs:209-211 | The expected PSN read back is below 2^24. |
| Desc.MetaReportQueueDescBthReth.Trans | src/protocol_impl/desc/mod.rs:221-223 | `trans` is below 2^3. |
| Desc.MetaReportQueueDescBthReth.Opcode | src/protocol_impl/desc/mod.rs:227-229 | `opcode` is below 2^5. |
| Desc.MetaReportQueueDescBthReth.Dqpn | src/protocol_impl/desc/mod.rs:233-235 | `dqpn` is below 2^24. |
| Desc.MetaReportQueueDescBthReth.Psn | src/protocol_impl/desc/mod.rs:239-241 | `psn` is below 2^24. |
| Desc.MetaReportQueueDescBthReth.PadCnt | src/protocol_impl/desc/mod.rs:257-259 | `pad_cnt` is below 2^2. |
| Desc.MetaReportQueueDescBthReth.Msn | src/protocol_impl/desc/mod.rs:281-283 | `msn` is below 2^24. |
| Desc.GettersReadViews | src/protocol_impl/desc/mod.rs:209-292 | Each getter reads the field of its name in its chunk. |
| Desc.MetaReportQueueDescBthReth.SetExpectedPsn | src/protocol_impl/desc/mod.rs:212-214 | Expected PSN becomes `val & 0xFFFFFF`. Every other field of chunk 0 and all other chunks are unchanged. |
| Desc.MetaReportQueueDescBthReth.SetReqStatus | src/protocol_impl/desc/mod.rs:218-220 | Request status becomes `val` exactly; nothing else changes. |
| Desc.MetaReportQueueDescBthReth.SetTrans | src/protocol_impl/desc/mod.rs:224-226 | `trans` becomes `val` masked to 3 bits; nothing else changes. |
| Desc.MetaReportQueueDescBthReth.SetOpcode | src/protocol_impl/desc/mod.rs:230-232 | `opcode` becomes `val` masked to 5 bits; nothing else changes. |
| Desc.MetaReportQueueDescBthReth.SetDqpn | src/protocol_impl/desc/mod.rs:236-238 | `dqpn` becomes `val & 0xFFFFFF`; nothing else changes. |
| Desc.MetaReportQueueDescBthReth.SetPsn | src/protocol_impl/desc/mod.rs:242-244 | `psn` becomes `val & 0xFFFFFF`; nothing else changes. |
| Desc.MetaReportQueueDescBthReth.SetSolicited | src/protocol_impl/desc/mod.rs:248-250 | The solicited flag becomes `val`; nothing else changes. |
| Desc.MetaReportQueueDescBthReth.SetAckReq | src/protocol_impl/desc/mod.rs:254-256 | The ack_req flag becomes `val`; nothing else changes. |
| Desc.MetaReportQueueDescBthReth.SetPadCnt | src/protocol_impl/desc/mod.rs:260-262 | `pad_cnt` becomes `val` masked to 2 bits; nothing else changes. |
| Desc.MetaReportQueueDescBthReth.SetRkey | src/protocol_impl/desc/mod.rs:266-268 | `rkey` becomes `val` exactly; nothing else changes. |
| Desc.MetaReportQueueDescBthReth.SetVa | src/protocol_impl/desc/mod.rs:272-274 | `va` becomes `val` exactly; nothing else changes. |
| Desc.MetaReportQueueDescBthReth.SetDlen | src/protocol_impl/desc/mod.rs:278-280 | `dlen` becomes `val` exactly; nothing else changes. |
| Desc.MetaReportQueueDescBthReth.SetMsn | src/protocol_impl/desc/mod.rs:284-286 | `msn` becomes `val & 0xFFFFFF`; nothing else changes. |
| Desc.MetaReportQueueDescBthReth.SetCanAutoAck | src/protocol_impl/desc/mod.rs:290-292 | The can_auto_ack flag becomes `val`; nothing else changes. |
| Mtt.EnsureValid | src/mtt/mod.rs:59-73 | `ensure_valid` fails (with `InvalidInput`) exactly when `addr + length` overflows 64 bits, the length exceeds `u32::MAX`, or the length is 0. |
| Mtt.GetPageStartVirtAddrs | src/mtt/mod.rs:82-85 | The page walk is `None` exactly when `addr + length` overflows. Otherwise it holds `ceil(length / PAGE_SIZE)` addresses `addr + i * PAGE_SIZE`, all below `addr + length`. |
| Mtt.ValidRegionHasPages | src/mtt/mod.rs:59-85 | A region that passes `ensure_valid` has a page walk of 1 to `length` pages starting at `addr`. |
| Mtt.PageStartsAreAPageApart | src/mtt/mod.rs:82-85 | Consecutive page starts are exactly one page apart. |
| Mtt.RegisterOn | src/mtt/mod.rs:31-42 | `register` as written: the insert only happens with debug assertions. `RegisterResult`, `DebugRegisterThenDeregister` and `ReleaseRegisterThenDeregister` state its outcomes. |
| Mtt.DeregisterOn | src/mtt/mod.rs:45-57 | `deregister`: the key is removed before `dealloc` is asked. `DeregisterOutcome` states its outcomes. |
| Mtt.RegisterRecorded | src/mtt/mod.rs:31-42 | `register` corrected to insert in every build. `RecordedRegisterThenDeregister` and `RecordedIsDebugBuild` state its outcomes. |
| Mtt.RegisterResult | src/mtt/mod.rs:31-41 | A failed allocation is `OutOfMemory` and leaves the map unchanged. A successful one returns the allocator's key and entry. |
| Mtt.DebugRegisterThenDeregister | src/mtt/mod.rs:31-56 | With debug assertions, registering a fresh key records it. Deregistering that key then hands its entry to `dealloc` and restores the map. |
| Mtt.ReleaseRegisterThenDeregister | src/mtt/mod.rs:36-49 | Without debug assertions, registering records nothing, so deregistering the returned key fails with `InvalidInput`. |
| Mtt.RecordedRegisterThenDeregister | src/mtt/mod.rs:31-56 | With the corrected `register`, in every build, deregistering a freshly registered key finds it, hands its entry to `dealloc`, and restores the map. |
| Mtt.RecordedIsDebugBuild | src/mtt/mod.rs:31-42 | The corrected `register` leaves the state a debug build leaves, and returns what any build returns. |
| Mtt.DeregisterOutcome | src/mtt/mod.rs:46-56 | An unknown key gives `InvalidInput` and changes nothing. A known key is removed whatever `dealloc` answers, and the call succeeds exactly when `dealloc` does. |
| Mtt.Mtt.constructor | src/mtt/mod.rs:23-28 | A new table has an empty key map beside a fresh allocator, with the build and `register` variant chosen. |
| Mtt.Mtt.Register | src/mtt/mod.rs:31-42 | `register` updates the allocator and map, returns, and reports the failed `debug_assert!`, as the as-written `RegisterOn` describes. When `recordInEveryBuild` is set, it follows the corrected `RegisterRecorded` instead (see Findings). |
| Mtt.Mtt.Deregister | src/mtt/mod.rs:45-57 | `deregister` updates the allocator and map, and returns, as `DeregisterOn` describes. |
| VirtToPhy.MaskValues | src/mem/virt_to_phy.rs:7-11 | `PFN_MASK` is `2^55 - 1`, and bit 63 is the present bit. |
| VirtToPhy.LittleEndianRoundTrip | src/mem/virt_to_phy.rs:75 | Reading back, little-endian, the `n` bytes of a value below `256^n` gives the value. |
| VirtToPhy.PresentIsTopBit | src/mem/virt_to_phy.rs:77-79 | `(entry >> 63) & 1 != 0` holds exactly when bit 63 is set. |
| VirtToPhy.PfnIsLowBits | src/mem/virt_to_phy.rs:81 | `entry & PFN_MASK` is the entry's low 55 bits. |
| VirtToPhy.DecodeEntry | src/mem/virt_to_phy.rs:77-84 | Decoding a pagemap entry. `DecodeEntrySpec` and `DecodePresentEntry` state what it gives. |
| VirtToPhy.EntryAt | src/mem/virt_to_phy.rs:72-75 | The 8-byte entry read at a byte offset, or `UnexpectedEof` past the end of the file. `VirtToPhysSpec` states its use. |
| VirtToPhy.VirtToPhys | src/mem/virt_to_phy.rs:67-85 | The x86 `virt_to_phys`. `VirtToPhysSpec` and `RangeEntryIsPageLookup` state what it returns. |
| VirtToPhy.DecodeEntrySpec | src/mem/virt_to_phy.rs:77-84 | An entry decodes to `None` exactly when bit 63 is clear. A present page that does not wrap decodes to `pfn * page_size + offset`, which keeps the in-page offset and lies on frame `pfn`. |
| VirtToPhy.DecodePresentEntry | src/mem/virt_to_phy.rs:77-84 | The entry of a present page on frame `pfn` decodes back to that frame with the given offset. |
| VirtToPhy.VirtToPhysSpec | src/mem/virt_to_phy.rs:67-85 | A lookup passes on the open error. It fails with `UnexpectedEof` exactly when the file is too short to hold the entry at byte `8 * (virt_addr / page_size)`. Otherwise it decodes that entry with `virt_addr`'s in-page offset. |
| VirtToPhy.CollectLookups | src/mem/virt_to_phy.rs:47-50 | Collecting succeeds exactly when every page lookup does, giving each page's answer in order. On failure it gives the error of the first failing lookup. |
| VirtToPhy.DefaultVirtToPhysRange | src/mem/virt_to_phy.rs:42-51 | The default range lookup, one lookup per saturated page address. `CollectLookups` and `EmulatedRangeNeverFails` state its outcome. |
| VirtToPhy.ReadExact | src/mem/virt_to_phy.rs:98-99 | `read_exact` into a buffer of `length` bytes fails with `UnexpectedEof` exactly when the buffer is not empty and the file is too short. An empty read succeeds with no bytes; otherwise the bytes are those of the file from the offset on. |
| VirtToPhy.X86VirtToPhysRange | src/mem/virt_to_phy.rs:87-116 | The range read passes on the open error. It fails with `UnexpectedEof` exactly when the buffer is not empty and the file is too short for it. A read of zero bytes always succeeds, with no results. Otherwise it yields one result per entry, and result i is entry i decoded with `start_addr`'s in-page offset. |
| VirtToPhy.RangeEntryIsPageLookup | src/mem/virt_to_phy.rs:67-116 | Where nothing wraps, result i of the x86 range read is what a single lookup of page i computes. |
| VirtToPhy.PhysAddrResolverEmulated.VirtToPhys | src/mem/virt_to_phy.rs:130-132 | The emulated lookup never fails. It is `Some(virt - heap_start)` exactly when `virt >= heap_start`. |
| VirtToPhy.EmulatedRangeNeverFails | src/mem/virt_to_phy.rs:130-132 | The emulated range lookup never fails, and resolves each of the `num_pages` saturated page addresses in order. |
| Device.JoinBaseAddr | src/device/mod.rs:113 | `lo + (hi << 32)` has low word `lo` and high word `hi`. |
| Device.LowWord | src/device/mod.rs:118 | `(p & 0xFFFF_FFFF) as u32` is `p mod 2^32`. |
| Device.HighWord | src/device/mod.rs:119 | `(p >> 32) as u32`. `SplitJoin` and `JoinSplit` prove that it and `LowWord` are the inverse of `JoinBaseAddr`. |
| Device.BaseAddrRoundTrip | src/device/mod.rs:110-120 | On distinct low and high registers, the two words `write_base_addr` leaves read back, joined, as the address written. |
| Device.RingCsr.constructor | src/device/mod.rs:79-120 | The register map starts with the given registers, failing addresses and CSR addresses, and an empty access log. |
| Device.RingCsr.ReadCsr | src/device/mod.rs:111 | A CSR read is logged, changes no register, and returns the register or the access error. |
| Device.RingCsr.WriteCsr | src/device/mod.rs:118 | A CSR write is logged, and changes only the named register, and only when the access succeeds. |
| Device.RingCsr.WriteHead | src/device/mod.rs:83-85 | On a card-bound ring, `write_head` writes `HEAD` only. |
| Device.RingCsr.ReadTail | src/device/mod.rs:87-89 | On a card-bound ring, `read_tail` reads `TAIL` only and changes no register. |
| Device.RingCsr.WriteTail | src/device/mod.rs:96-98 | On a host-bound ring, `write_tail` writes `TAIL` only. |
| Device.RingCsr.ReadHead | src/device/mod.rs:100-102 | On a host-bound ring, `read_head` reads `HEAD` only and changes no register. |
| Device.RingCsr.ReadBaseAddr | src/device/mod.rs:110-114 | The low register is read first. If that fails, its error is returned and the high register is not read. Otherwise the result is `lo + (hi << 32)` or the high register's error. No register changes. |
| Device.RingCsr.WriteBaseAddr | src/device/mod.rs:117-120 | The low word goes to `BASE_ADDR_LOW`. If that fails, nothing is written and the high write is not attempted. Otherwise the high word goes to `BASE_ADDR_HIGH`. No other register changes. |
| UDmaBuf.TrimStart | src/mem/u_dma_buf.rs:58 | The result is a suffix of the text, every character removed before it is white space, and the result does not start with white space: exactly the leading white space is removed. |
| UDmaBuf.TrimEnd | src/mem/u_dma_buf.rs:58 | The result is a prefix of the text, every character removed after it is white space, and the result does not end with white space: exactly the trailing white space is removed. |
| UDmaBuf.IsWhitespace | src/mem/u_dma_buf.rs:58 | Rust's `char::is_whitespace`, the Unicode `White_Space` property. `DigitIsVisible` proves that no digit is white space. |
| UDmaBuf.Trim | src/mem/u_dma_buf.rs:58 | `str::trim`, as `TrimStart` then `TrimEnd`. `TrimNewline` and `BlankAttributeIsInvalid` state what it does to attribute text. |
| UDmaBuf.TrimStartMatches0x | src/mem/u_dma_buf.rs:46 | The text is a whole number of `0x` pairs followed by the result, and the result does not start with `0x`: exactly the leading `0x` pairs are removed. |
| UDmaBuf.FromStrRadix | src/mem/u_dma_buf.rs:46 | A successful parse needs a non-empty text. |
| UDmaBuf.DigitValue | src/mem/u_dma_buf.rs:46 | `char::to_digit(radix)`. `HexChar` proves that each hex digit it writes reads back as its value. |
| UDmaBuf.FromDigits | src/mem/u_dma_buf.rs:46 | A non-empty string of digits whose value fits in 64 bits parses to that value. |
| UDmaBuf.HexDigitsValue | src/mem/u_dma_buf.rs:46 | Reading back the `w` hex digits of a value below `16^w` gives the value. |
| UDmaBuf.TrimNewline | src/mem/u_dma_buf.rs:58 | Trimming an attribute's text followed by its newline gives the text. |
| UDmaBuf.StripHexPrefix | src/mem/u_dma_buf.rs:46 | Stripping `0x` matches from `"0x"` plus digits leaves the digits. |
| UDmaBuf.SizeTotalOfDecimalText | src/mem/u_dma_buf.rs:35-42 | A `size` attribute of decimal digits and a newline gives the decimal value. |
| UDmaBuf.PhysAddrOfHexText | src/mem/u_dma_buf.rs:44-59 | A `phys_addr` attribute of `0x`, hex digits and a newline gives the hex value. |
| UDmaBuf.PhysAddrOfAttribute | src/mem/u_dma_buf.rs:44-59 | Any 64-bit physical address, written as `0x` plus 16 hex digits and a newline, parses back to itself. |
| UDmaBuf.BlankAttributeIsInvalid | src/mem/u_dma_buf.rs:35-59 | An attribute that is only white space is `InvalidData` for both parses. |
| UDmaBuf.SizeTotal | src/mem/u_dma_buf.rs:35-42 | `size_total`: the trimmed text parsed as decimal, or `InvalidData`. `SizeTotalOfDecimalText` and `BlankAttributeIsInvalid` state its outcomes. |
| UDmaBuf.PhysAddr | src/mem/u_dma_buf.rs:44-52 | `phys_addr`: the trimmed text, with every leading `0x` stripped, parsed as hex, or `InvalidData`. `PhysAddrOfHexText`, `PhysAddrOfAttribute` and `BlankAttributeIsInvalid` state its outcomes. |
| UDmaBuf.CheckedAdd | src/mem/u_dma_buf.rs:68 | `checked_add` is `None` exactly when the sum overflows 64 bits, and is the sum otherwise. |
| UDmaBuf.CheckedMul | src/mem/u_dma_buf.rs:69 | `checked_mul` is `None` exactly when the product overflows 64 bits, and is the product otherwise. |
| UDmaBuf.CreateOn | src/mem/u_dma_buf.rs:62-100 | `create` as written, with the null test only. `CreateOutcome`, `CreateSucceeds`, `AdjacentCreates` and `MapFailedIsNotDetected` state its outcomes. |
| UDmaBuf.CreateCheckedOn | src/mem/u_dma_buf.rs:78-93 | `create` with the mapping also tested against `MAP_FAILED`. `CheckedCreateRejectsMapFailed` states its outcomes. |
| UDmaBuf.CreateOutcome | src/mem/u_dma_buf.rs:62-100 | A failed `size_total` is passed on. `OutOfMemory` comes exactly when `(offset + n) * 2 MiB` exceeds the buffer, and a null mapping gives `Other`; in these cases the offset is kept. Otherwise the offset grows by `n`, even if `phys_addr` then fails. |
| UDmaBuf.CreateSucceeds | src/mem/u_dma_buf.rs:63-99 | A successful `create(n)` grows the offset by `n` and maps `n * 2 MiB` bytes at a non-null pointer, within the buffer. The physical address is `base + old_offset * 2 MiB`. |
| UDmaBuf.AdjacentCreates | src/mem/u_dma_buf.rs:62-100 | Two successive successful `create`s hand out adjacent ranges in `[base, base + size_total)`: the second starts where the first ends. |
| UDmaBuf.MapFailedIsNotDetected | src/mem/u_dma_buf.rs:78-93 | As written, a mapping that failed with `MAP_FAILED` is returned as a success and the offset moves on. |
| UDmaBuf.CheckedCreateRejectsMapFailed | src/mem/u_dma_buf.rs:78-93 | With the corrected test, `MAP_FAILED` is an error that keeps the offset, and no success hands out `MAP_FAILED` or null. Every other pointer is treated as before. |
| UDmaBuf.UDmaBufAllocator.constructor | src/mem/u_dma_buf.rs:25-33 | A freshly opened allocator has offset 0, with the `create` variant chosen. |
| UDmaBuf.UDmaBufAllocator.Create | src/mem/u_dma_buf.rs:35-100 | `create(n)` parses both attributes, then updates the offset and returns as the as-written `CreateOn` describes. When `checkMapFailed` is set, it follows the corrected `CreateCheckedOn` instead (see Findings). |
| UDmaBuf.UDmaBufAllocator.CreateWith | src/mem/u_dma_buf.rs:62-100 | Given the two parsed attribute results, the body of `create` updates the offset and returns as `CreateOn` describes, or as `CreateCheckedOn` when `checkMapFailed` is set. |
| UDmaBuf.UDmaBufAllocator.Alloc | src/mem/u_dma_buf.rs:104-107 | `alloc` is `create(1)`, one 2 MiB page. |

## Left out

- Unsafe code is not modelled. Pointer access to the verbs structure (`sg_list`, the `wr` union) and the descriptor `transmute` conversions are foreign memory reinterpretation. The model works on the resolved fields and on bit strings.
- `println!`, `tracing` logging, `spin_sleep`, thread spawning and the flume channel have no effect on the modelled state. `RunRound` is one iteration of the loop over a given task sequence, and a failed scheduler send is only recorded as an attempt.
- OS I/O is an input:
  - opening and reading `/proc/self/pagemap`;
  - reading the sysfs attributes;
  - `mmap`;
  - opening `/dev/udmabuf0`.
  Their results (contents or error) are parameters. The open error of `UDmaBufAllocator::open` is not modelled, and the constructor is the successful open.
- Collaborators whose code is not part of this model are parameters with no behaviour of their own:
  - `TransportTimer`;
  - `qpn_index` and `MAX_QP_CNT`;
  - `ChunkPos::next`;
  - the MTT `Alloc`;
  - `PAGE_SIZE` and `get_page_size`;
  - `DeviceAdaptor::read_csr`/`write_csr`.
- Send.ChunkBuilder.Build: `WrChunkBuilder` (from `crate::queue::abstr`) is not part of this model. It is assumed that a built chunk holds exactly the fields it was built from (`Send.QpChunkBuilder.SetIbvParams` and `Build`) and is not a retry. The "not marked as a retry" clause of `Send.FragmentsChunkBounds` rests on this assumption.
- Send.SetIsRetry: `WrChunk::set_is_retry` is not part of this model. It is assumed to set the retry flag and change nothing else. `TimeoutRetransmit.RetriesAreRetries` rests on this assumption.
- Register-map semantics are a stand-in for the device. A register never written reads as 0, and the failing registers come from a fixed map.
- Debug-build overflow panics are not modelled: unchecked arithmetic wraps as in release builds. Allocation failure of `Vec` is not modelled either, nor is the capacity-overflow panic of `Vec::with_capacity(num_pages)` in the x86 range lookup (any `num_pages` of 2^59 or more).
- The `todo!` on a failed timer check is modelled as an abort outcome only.
- The unit test at src/protocol_impl/desc/mod.rs:302-311 contradicts `is_valid` and is not used.
- Send.Fragments: the chunk-sequence lemmas need `laddr + length <= 2^64 - pmtu`; nearer the top of the address space the iterator stalls (`Send.StallAtTopOfAddressSpace`), so the sequence is not defined there.
- Send.WrFragmenter.Next: requires pmtu of at least 1, so the `unreachable!` panic the source reaches on pmtu 0 is not modelled, and a pmtu of 0 is outside the model (the builder's code, which sets the pmtu, is not part of this model).
- Send.WrFragmenter.Next: the `checked_add` on `laddr` is not modelled as a separate failure, because the chunk never ends past the saturated address and that addition cannot overflow.
- TimeoutRetransmit.TimeoutRetransmitWorker.RunRound: after an aborted round the contents of the table are not stated, since the source panics there and no later state is observable.
- Desc.MetaReportQueueDescBthReth.ReqStatus, Rkey, Va, Dlen and the flag getters carry no contract of their own beyond their types; `Desc.GettersReadViews` states what they read.

## Findings

Each row below has two halves. The as-written function (`Mtt.RegisterOn`, `UDmaBuf.CreateOn`) keeps the source's behaviour, and a lemma exhibits the flaw. The corrected function (`Mtt.RegisterRecorded`, `UDmaBuf.CreateCheckedOn`) carries the intended property. The classes `Mtt.Mtt` and `UDmaBuf.UDmaBufAllocator` implement the code as written by default, and implement the correction when their flag (`recordInEveryBuild`, `checkMapFailed`) is set, which is the setting the rest of the model's reasoning about the intended behaviour uses.

| source | as written | input that shows it | evidently intended | confidence | as-written member | corrected member |
|---|---|---|---|---|---|---|
| src/mtt/mod.rs:36-39 | The `mr_key` insert is the argument of `debug_assert!`, so a release build never records the key | In a release build, any successful `register(n)` followed by `deregister` of the returned key gives `InvalidInput`, and `dealloc` is never called | The insert happens in every build, and only the check that the key was new is debug-only | not executed | Mtt.ReleaseRegisterThenDeregister | Mtt.RecordedRegisterThenDeregister |
| src/mem/u_dma_buf.rs:78-93 | The `mmap` result is tested with `is_null()` | A failed `mmap` returns `MAP_FAILED` (all ones). `create` then returns `Ok` with that pointer, and the offset grows by `n` | The test is against `MAP_FAILED`, so a failed mapping is an error that keeps the offset | not executed | UDmaBuf.MapFailedIsNotDetected | UDmaBuf.CheckedCreateRejectsMapFailed |

# A verified model of dabba's packet path

dabba captures packets from a network interface into pcap files and replays pcap files onto
an interface, through memory that it shares with the kernel; its daemon manages the captures
and replays as threads. This project models that path and the daemon state around it in
Dafny, and proves what every run of it keeps.

`dafny verify dfyconfig.toml` checks everything.

## What is modelled

| file | models |
|---|---|
| `Words`, `Bits`, `Arithmetic`, `Common` | bytes and machine words, byte order, powers of two, division facts, error codes |
| `Pcap`, `PcapFile` | the pcap savefile: its codec, and the file with its offset as the library changes it |
| `RxRing`, `RxFifo`, `RxProgress`, `CaptureThread` | the receive ring: kernel and capture thread as interleaved steps; conservation, order and progress; the loop on memory |
| `TxRing`, `TxProgress`, `ReplayThread` | the transmit ring: kernel and replay thread as interleaved steps; order, overruns and progress; the loop on memory |
| `CaptureReplay` | capture followed by replay, end to end |
| `SockFilter` | the BPF validator, a BPF machine, and what acceptance guarantees about every run |
| `FilterConversion` | socket filters as messages and as native programs, with the memory they take |
| `CpuList`, `CpuLoop`, `CpuPrinter`, `CpuRoundTrip` | the CPU-list parser and printer and their composition |
| `RingLayout`, `PacketMmap` | layout of a packet mapping, its setup and its teardown |
| `Registry`, `Daemon` | the thread, capture and replay queues, on values and as objects |

Endless loops and concurrency are step machines: a run is any list of kernel and thread
steps. A step of a thread is one access to a status or length field of a slot, one `poll`,
`send` or `lseek`, or the transfer of one packet between a slot that the thread owns and its
pcap file, which nobody else uses; such a transfer may be cut short or fail. The classes in `CaptureThread` and `ReplayThread` perform these steps in place on an array of
slots and on an open file, and each is proved to make the machine's step. The results of
system calls (`poll`, `read`, `write`, `mmap`, `setsockopt`, `bind`, `malloc`, `pthread_create`,
`pthread_cancel`, ...) are arguments, so statements hold for all of them. Constants of
`<linux/if_packet.h>`, `<linux/filter.h>` and `<sys/param.h>` are written out. Multi-byte
fields are stored least significant byte first, as on the usual hosts.

## Main results

- **Capture then replay** (`CaptureReplay.CaptureThenReplay`): replaying a captured file hands
  over exactly the captured bytes that the disk took, in order, endlessly, under every kernel
  schedule; a failing read only makes it start over early, and it overruns no slot exactly when
  every packet fits behind the slot header.
- **Receive ring**: every delivered frame is stored once or waits in one slot, whatever `poll`
  does (`RxRing.Conservation`), and frames never overtake by a whole ring
  (`RxRing.ReorderingIsBounded`). Four thread steps per slot store everything that was delivered
  (`RxProgress.DrainsAnyway`). Delivery order is kept in all runs exactly when `poll` neither
  fails nor returns early, or the ring has one slot (`RxFifo.FifoExactly`).
- **Transmit ring**: what the kernel sees in a slot is a whole packet with its length
  (`TxRing.SlotsInFlightWereHanded`); packets go out in file order for every file and every run
  (`TxRing.ReplayOrder`); when slots overrun (`TxRing.OverrunExactly`); and any schedule that
  leaves the thread a slot makes progress (`TxProgress.AnyScheduleHandsOver`).
- **BPF**: `SockFilter.RunsAreSafe`, `SockFilter.RunsEnd`, `SockFilter.RunsFromStart`, and the
  exact limits of acceptance.
- **CPU lists**: `CpuList.ParseAffinity`, `CpuLoop.HangsExactly`, `CpuLoop.ReachedExactly`,
  `CpuRoundTrip.PrintThenParse`.
- **Setup and registries**: `PacketMmap.PacketMmap.Create`, `PacketMmap.RollbackRestores`,
  `Registry.ReachableQueues`, `Daemon.Service.Serve`.

## Where code and expectation part

The model follows the code. These are the places where the code does not do what its comments
or its purpose suggest, with the members that show it and that say exactly when it matters.

- The validator's test for division by a constant zero never fires: `BPF_RVAL` masks with 0x18,
  and `BPF_DIV` has bit 0x10 set (`SockFilter.DivisionTestIsDead`, `SockFilter.ZeroDivisionIsAccepted`,
  `SockFilter.NeverFailsExactly`, `SockFilter.RunsFromStart`).
- The validator's comment says that unconditional jumps are checked for overflow; they are not,
  so an accepted program can loop forever (`SockFilter.EndlessIsAccepted`, `SockFilter.ForwardExactly`).
- The CPU printer carries its counter from group to group and so names CPUs that are not set
  (`CpuRoundTrip.CarriedCounterShows`, `CpuRoundTrip.PrintThenParse`).
- A CPU range with stride 0 hangs the parser, and so do ranges that end too close to 2^32, such
  as the single number 4294967295 (`CpuLoop.HangsExactly`, `CpuPrinter.StrideZeroList`,
  `CpuPrinter.TopNumberList`). Other ranges that end close to 2^32 wrap around, still end, and set
  CPUs that they do not list, as 1-4294967294:3 sets CPU 0 (`CpuLoop.ReachedExactly`,
  `CpuPrinter.WrappedList`).
- The replay thread passes the whole frame size as the room behind the slot header, so a large
  record overruns its slot (`TxRing.OverrunExactly`, `TxRing.LargeRecordOverruns`).
- An empty record ends each round of the replay early, so that later records are never sent
  (`TxRing.LiveExactly`, `TxRing.EmptyRecordHidesTheRest`).
- The capture thread ignores the result of the pcap writer: a record that the disk takes only in
  part breaks the file (`CaptureReplay.CutWriteBreaksFile`).
- A failed or early `poll` makes the capture thread skip a slot, which can reorder frames
  (`RxFifo.Overtakes`, `RxFifo.FifoExactly`).
- `ldab_pcap_rewind` reports 0 whether or not it succeeds (`PcapFile.Savefile.Rewind`).
- `sfp->len` has 16 bits, so a longer message is cut (`FilterConversion.MessageRoundTrip`,
  `FilterConversion.LongMessageIsCut`).
- A new capture whose file header could be written only in part reports whatever `errno` was before;
  when that is 0 it reports success and queues nothing (`Registry.ReportedExactly`,
  `Registry.SilentFailure`).

## Model

| member | source | states |
|---|---|---|
| `Words.Swap32Involutive` | libdabba/pcap.c:130-131 | swapping the bytes of a 32-bit word twice gives the word back |
| `Words.Swap16Involutive` | libdabba/pcap.c:132-133 | swapping the bytes of a 16-bit word twice gives the word back |
| `Words.EncodeBytes` | libdabba/pcap.c:38-52 | the bytes of a 16-bit and a 32-bit field, least significant one first |
| `Words.SwapBytes` | libdabba/pcap.c:130-133 | swapping exchanges the outer bytes of a word and its inner ones |
| `Pcap.HeaderRoundTrip` | libdabba/include/libdabba/pcap.h:42-50 | every file header decodes from its 24 bytes to itself |
| `Pcap.FreshFileBytes` | libdabba/pcap.c:34-57 | the 24 bytes at the head of every Ethernet file that is created |
| `Pcap.MagicIsNotItsOwnSwap` | libdabba/include/libdabba/pcap.h:16-18 | a swapped magic is told apart from a native one |
| `Pcap.AcceptanceIgnoresByteOrder` | libdabba/pcap.c:128-145 | a header is accepted if and only if the header with all fields swapped is |
| `Pcap.AcceptedHeaders` | libdabba/pcap.c:114-145 | the accepted headers are exactly the native and the swapped Ethernet ones of version 2.4; a created file is accepted exactly for Ethernet |
| `Pcap.AcceptedBytes` | libdabba/pcap.c:123-142 | the 24 bytes of an accepted header: bytes 0 to 7 and 20 to 23 are those of a version 2.4 Ethernet file in one byte order or the other, and nothing else matters |
| `Pcap.RecordFields` | libdabba/include/libdabba/pcap.h:82-86 | where in the file each field of a record and its payload are, whatever surrounds the record |
| `Pcap.DecodeOfEncodeRecords` | libdabba/pcap.c:258-313 | any record list is read back from its bytes |
| `Pcap.EncodeOfDecodeRecords` | libdabba/pcap.c:258-313 | only bytes that spell out a record list decode, and to that list |
| `Pcap.SavefileRecordsUnique` | libdabba/pcap.c:301-313 | a file has at most one record list |
| `Pcap.SavefileAppend` | libdabba/pcap.c:202-233 | bytes of further records after a well-formed file make a well-formed file of all records |
| `Pcap.SavefileThenPart` | libdabba/pcap.c:277-289 | a well-formed file followed by a part of a record is well-formed if and only if the part is nothing or all of it |
| `Pcap.ReadAt` | libdabba/pcap.c:301-313 | one read moves the offset forward, past a record header and inside the file when it yields data, and never yields more than the buffer |
| `Pcap.ReadWith` | libdabba/pcap.c:309-312 | a failing read yields nothing and never moves the offset back |
| `Pcap.ReadAtRecord` | libdabba/pcap.c:309-312 | a read at a record yields what fits of its payload and leaves the offset right behind that part |
| `Pcap.ReadAtPart` | libdabba/pcap.c:309-312 | reading where the file was cut off: the rest of a record header is consumed and yields nothing, the rest of a payload comes as a shorter packet |
| `Pcap.ReadAllSavefile` | libdabba/pcap.c:301-313 | reading to the end gives back the payload list if and only if no record is empty and none exceeds the buffer |
| `Pcap.CountSavefile` | dabba/test/tools/pktcnt.c:21-37 | the packet counter counts the records of every well-formed file, empty ones included |
| `Pcap.CountPart` | dabba/test/tools/pktcnt.c:30-32 | a record cut off inside its header is not counted, one cut off in its payload is |
| `Pcap.CountAgreesWithReads` | dabba/test/tools/pktcnt.c:21-37 | counting by skipping and counting by reading agree when every record is readable |
| `PcapFile.OverwriteTwice` | libdabba/pcap.c:277-283 | writing header and payload one after the other is writing them as one |
| `PcapFile.OverwriteAt` | libdabba/pcap.c:277-283 | every byte of the file after a write at an offset: the new ones there, the old ones elsewhere, zeros in a gap |
| `PcapFile.Savefile.Create` | libdabba/pcap.c:156-177 | a created file is a well-formed file without records; one that cannot be created is not touched, and one whose header could not be written in full is gone |
| `PcapFile.Savefile.Open` | libdabba/pcap.c:202-233 | a file opens if and only if no call fails and its bytes are those of a version 2.4 Ethernet header in either byte order; otherwise which error, of open, of a header that cannot be read in full, of a bad one, or of the seek; where the offset is afterwards, at the end for append |
| `PcapFile.Savefile.Write` | libdabba/pcap.c:258-290 | for every split of taken bytes, exactly the prefix of the record that the system took is in the file at the offset: seconds, microseconds, captured and full length, four bytes each, then the packet; the result is the captured length or -1 |
| `PcapFile.Savefile.Read` | libdabba/pcap.c:301-313 | result, buffer and offset for every file and every failing read: the captured length is at byte 8 of the record, the packet behind byte 16, cut to the buffer and to the file; 0 when the header cannot be read, -1 exactly when the read of the payload fails |
| `PcapFile.Savefile.Rewind` | libdabba/pcap.c:321-324 | the offset is at the first record if the seek succeeded; the result is 0 either way |
| `PcapFile.Savefile.ReadPackets` | libdabba/pcap.c:301-313 | the loop of reads returns the packets before the first read that returns 0 |
| `PcapFile.Savefile.CountPackets` | dabba/test/tools/pktcnt.c:21-37 | the counting loop returns 0 for a refused file, and otherwise the number of record headers it can hop over before a read or a seek fails |
| `PcapFile.Savefile.WritePackets` | libdabba/pcap.c:258-290 | successful writes at the end add exactly their records and keep every old byte |
| `PcapFile.StoreAndLoad` | libdabba/pcap.c:156-324 | create, write, open, read, rewind, read again: both readings agree, they are what was written if and only if the buffer can take every packet, and the counter agrees in any case |
| `PcapFile.AppendAndLoad` | libdabba/pcap.c:202-313 | open any well-formed file for append and write m packets: old bytes are a prefix and the count is n + m; reading gives old then new packets if and only if no old record is empty and the buffer can take all of them |
| `RxRing.CapturedBytes` | libdabba/packet-rx.c:57-64 | the captured bytes are the first min(tp_snaplen, frame size) of the frame, at least one |
| `RxRing.IsUserExactly` | libdabba/packet-rx.c:54-55 | a slot is the thread's if and only if masking its status with 1 leaves 1 |
| `RxRing.Conservation` | libdabba/packet-rx.c:44-72 | in every run, whatever poll returns: each delivered frame is stored exactly once or waits in exactly one slot, with its contents, and the thread copies and releases only slots it owns |
| `RxRing.ReturnsOnlyStored` | libdabba/packet-rx.c:54-70 | in every run, a thread step that changes a slot sets its status to 0 and nothing else, and only after its frame has been copied |
| `RxRing.ReorderingIsBounded` | libdabba/packet-rx.c:44-72 | in every run, a frame stored before an earlier delivery is less than one ring ahead of it |
| `RxRing.NotRecording` | libdabba/packet-rx.c:56 | without a pcap file nothing is written in any run |
| `RxFifo.Fifo` | libdabba/packet-rx.c:44-72 | when poll returns only for waiting frames: stored frames are a prefix of the delivered ones, at most a ring behind, and filled slots are one cyclic run from the thread's position |
| `RxFifo.PendingMeansHere` | libdabba/packet-rx.c:49-54 | in such runs, if any frame waits, the slot the thread looks at holds one |
| `RxFifo.Overtakes` | libdabba/packet-rx.c:49-54 | from a skipped slot, two deliveries suffice for the second to be stored first |
| `RxFifo.FifoExactly` | libdabba/packet-rx.c:49-70 | all runs keep delivery order if and only if the ring has one slot or poll neither fails nor returns early |
| `RxFifo.Drains` | libdabba/packet-rx.c:44-72 | when poll returns only for waiting frames: from any state, at most four thread steps per slot store everything delivered, in order |
| `RxProgress.DrainsAnyway` | libdabba/packet-rx.c:44-72 | after any run, whatever poll did or does: any four thread steps per slot, one more if the pending poll fails, store every delivered frame |
| `CaptureThread.Capture.Proceed` | libdabba/packet-rx.c:44-72 | one step of the loop on the shared slots and the open file makes exactly the machine's step |
| `CaptureThread.Capture.Copy` | libdabba/packet-rx.c:56-67 | copying a frame through the pcap writer appends what the system takes of its record |
| `CaptureThread.Capture.Interleave` | libdabba/packet-rx.c:44-72 | any interleaving with the kernel, cut off anywhere, is a run of the machine |
| `TxRing.SlotsInFlightAreStable` | libdabba/packet-tx.c:52-74 | in every run, the thread changes only available slots, and a slot in flight keeps its bytes and both lengths |
| `TxRing.SlotsInFlightWereHanded` | libdabba/packet-tx.c:70-73 | in every run, a slot out of the thread's hands shows the kernel a packet that was handed over, and both length fields are its length: they are stored before the status |
| `TxRing.HandedExactly` | libdabba/packet-tx.c:70-73 | in every run, a packet is handed over in a step if and only if the step turns the status of one slot from 0 to 1; it is the first tp_len bytes of that slot, no other slot changes, the thread goes on to the next slot, and a slot handed over is left alone until the kernel changes it |
| `TxRing.WalksInOrder` | libdabba/packet-tx.c:50-82 | in every run, the thread moves on slot by slot, starts over only after a send, and sends only after the last slot or when there is nothing to read |
| `TxRing.ReadsLive` | libdabba/packet-tx.c:60-68 | reading at a record yields all of it and the next record's offset if it fits a slot, an overrun if not, nothing at the end or at an empty record |
| `TxRing.ReplayOrder` | libdabba/packet-tx.c:50-82 | for every well-formed file, every schedule and every failing read, up to an overrun if there is one: what the kernel is shown are rounds from the first packet on in file order; without failing reads every round is complete, up to the first empty record, before the next; no overrun if all packets fit |
| `TxRing.LiveExactly` | libdabba/packet-tx.c:65-68 | a replay covers all records of a file if and only if none of them is empty |
| `TxRing.EmptyRecordHidesTheRest` | libdabba/packet-tx.c:65-68 | of a file that starts with an empty record, no run hands over anything |
| `TxRing.ReplaysPointwise` | libdabba/packet-tx.c:50-82 | without failing reads, packet k handed over is packet k mod n of the file |
| `TxRing.RestartsPointwise` | libdabba/packet-tx.c:65-68 | even with failing reads, each packet handed over is followed by its successor in the file or by the first packet |
| `TxRing.NextPacket` | libdabba/packet-tx.c:50-82 | from every reachable state a cooperating kernel lets the next packet in order be handed over within thirteen steps, or overrun if it does not fit |
| `TxRing.KeepsHandingOver` | libdabba/packet-tx.c:50-82 | any run without an overrun, failing reads included, can be continued within thirteen steps to hand over one more packet, or to overrun if that packet does not fit; what is handed over stays in order |
| `TxProgress.AnyScheduleHandsOver` | libdabba/packet-tx.c:50-82 | after any run that leaves a slot available: whatever the kernel does, any 2n + 9 thread steps on n slots without a failing read hand over another packet, in order, or overrun if it does not fit |
| `TxRing.OverrunExactly` | libdabba/packet-tx.c:57-63 | no run overruns a slot if and only if every packet up to the first empty record fits behind the slot header, whether reads may fail or not |
| `TxRing.LargeRecordOverruns` | libdabba/packet-tx.c:57-63 | a file with one record of 2017 bytes overruns a slot of 2048 bytes |
| `ReplayThread.Replay.Proceed` | libdabba/packet-tx.c:50-82 | one step of the loop on the shared slots and the open file makes exactly the machine's step |
| `ReplayThread.Replay.ReadNext` | libdabba/packet-tx.c:57-68 | reading into an available slot, or noticing that nothing could be read, makes the machine's read step |
| `ReplayThread.Replay.Interleave` | libdabba/packet-tx.c:50-82 | any interleaving with the kernel, cut off anywhere, is a run of the machine |
| `CaptureReplay.RecordsStored` | libdabba/packet-rx.c:56-67 | when every write is taken in full or not at all, the file grows by exactly the records of the frames taken, in every run |
| `CaptureReplay.CaptureAppends` | libdabba/packet-rx.c:56-67 | a capture into an existing file keeps its bytes and adds exactly the stored frames that the disk took, all of them if it refused none |
| `CaptureReplay.CapturedFields` | libdabba/packet-rx.c:56-67 | the file byte by byte: for every frame taken, its seconds, microseconds, captured length and full length stand at offsets 0, 4, 8 and 12 of its record and the captured bytes at 16, one record right behind the other |
| `CaptureReplay.CutWriteBreaksFile` | libdabba/packet-rx.c:56-67 | after a copy the file is well-formed if and only if the record was taken in full or not at all |
| `CaptureReplay.CaptureThenReplay` | libdabba/packet-tx.c:50-82 | capture then replay: exactly the captured bytes that the disk took, in order, endlessly, in rounds from the first packet when reads fail; no overrun if and only if they fit; all stored frames when no write was refused, in delivery order when poll behaved |
| `SockFilter.IsValid` | libdabba/sock-filter.c:18-141 | the validator's loop accepts exactly the non-empty programs whose last instruction returns (code and 7 is 6) and whose instructions are admissible by the numbers |
| `SockFilter.CheckInsn` | libdabba/sock-filter.c:29-138 | the loop body passes exactly the instructions with a known opcode, a scratch index in range and 32-bit jump targets inside the program |
| `SockFilter.FieldsAreMasks` | libdabba/sock-filter.c:31-79 | class, size, mode, operation, source and value field of an opcode are its masks with 0x07, 0x18, 0xe0, 0xf0, 0x08 and 0x18 |
| `SockFilter.PassesExactly` | libdabba/sock-filter.c:31-137 | an instruction passes if and only if its opcode is known, its scratch index is in range and its 32-bit jump targets lie in the program; the divisor plays no part |
| `SockFilter.PassesByNumbers` | libdabba/sock-filter.c:31-137 | an instruction passes if and only if its masked opcode is one of the listed numbers, its scratch index is below 16 and its jump targets lie in the program |
| `SockFilter.SafeStep` | libdabba/sock-filter.c:29-140 | an instruction of an accepted program goes on inside the program, forward unless it is a wrapping jump, or halts, and fails if and only if it divides by a constant zero |
| `SockFilter.RunsAreSafe` | libdabba/sock-filter.c:29-140 | any run of an accepted program, from any state, on any packet: control stays inside, scratch accesses stay in range |
| `SockFilter.RunsEnd` | libdabba/sock-filter.c:113-140 | accepted and no wrapping jump: every run ends within as many steps as instructions are left, whatever it divides by |
| `SockFilter.RunsHalt` | libdabba/sock-filter.c:113-140 | if moreover nothing divides by a constant zero, that end is a halt |
| `SockFilter.RunsFromStart` | libdabba/sock-filter.c:29-140 | a run from the first instruction stays on reachable instructions, fails only if a reachable one divides by a constant zero, and steps backward only at a reachable jump that wraps |
| `SockFilter.RunsFromStartEnd` | libdabba/sock-filter.c:113-140 | when no reachable jump wraps, a run from the first instruction ends within the length of the program |
| `SockFilter.DivisionTestIsDead` | libdabba/sock-filter.c:75-81 | for no division opcode can the test for a constant divisor be true |
| `SockFilter.ZeroDivisionIsAccepted` | libdabba/sock-filter.c:75-81 | an accepted program that divides by a constant zero |
| `SockFilter.NeverFailsExactly` | libdabba/sock-filter.c:29-140 | over every entry point: no run of an accepted program fails if and only if it has no division by a constant zero |
| `SockFilter.DeadDivisionIsHarmless` | libdabba/sock-filter.c:75-81 | a division by a constant zero that no path reaches: accepted, and no run from the first instruction fails |
| `SockFilter.ForwardExactly` | libdabba/sock-filter.c:103-118 | over every entry point: every step of an accepted program moves forward if and only if no unconditional jump wraps |
| `SockFilter.SelfLoopNeverHalts` | libdabba/sock-filter.c:113-118 | a jump to itself passes and never halts |
| `SockFilter.EndlessIsAccepted` | libdabba/sock-filter.c:113-118 | an accepted program that runs forever |
| `FilterConversion.NativeRoundTrip` | dabbad/sock-filter.c:62-135 | native to message to native is the identity for every program |
| `FilterConversion.MessageRoundTrip` | dabbad/sock-filter.c:62-135 | message to native to message is the identity if and only if all fields and the count fit their native widths |
| `FilterConversion.LongMessageIsCut` | dabbad/sock-filter.c:82-84 | a message of 65537 instructions converts to an accepted program of one |
| `FilterConversion.NativeFilter.FromMessage` | dabbad/sock-filter.c:62-90 | result code, memory for every outcome, and each field of each instruction, cut to its native width; a refused program leaves no memory behind |
| `FilterConversion.NativeFilter.Destroy` | dabbad/sock-filter.c:22-27 | frees the block, which must still be allocated, and clears the length |
| `FilterConversion.MessageFilter.FromNative` | dabbad/sock-filter.c:102-135 | either all allocations succeed, each message has each field of its instruction and their blocks are new and all different, or everything allocated is freed once and the message is empty |
| `FilterConversion.MessageFilter.Destroy` | dabbad/sock-filter.c:34-48 | frees exactly the entries and the table, each once and none that is not allocated |
| `FilterConversion.ThereAndBack` | dabbad/sock-filter.c:62-135 | an accepted program sent as a message is accepted again as the same program, and destroying both gives all memory back |
| `CpuList.ScanCut` | dabbad/thread.c:260-277 | a number never reads on past a comma |
| `CpuList.LookaheadStaysInToken` | dabbad/thread.c:260-278 | what the loop body reads from the rest of the string, searching past the comma, is what the token before the comma says |
| `CpuList.TakeToken` | dabbad/thread.c:255-278 | the pointer comparisons of the loop body read exactly the token |
| `CpuList.SetRange` | dabbad/thread.c:283-286 | for every range that ends: the loop on a 32-bit counter adds exactly the counter values before the first one above b, as far as the set reaches |
| `CpuList.ParseAffinity` | dabbad/thread.c:243-290 | 0 if and only if every token is a number or a range not running backwards; the mask is exactly what the loops of the tokens set, on error of those before the bad one, for every string on which the parser ends |
| `CpuLoop.HangsExactly` | dabbad/thread.c:283-286 | the range loop never ends if and only if b reaches the largest 32-bit number that agrees with a modulo the power-of-two part of the stride |
| `CpuLoop.ReachedExactly` | dabbad/thread.c:283-286 | a range that ends sets exactly the numbers it lists if and only if its counter does not wrap around |
| `CpuLoop.SetsExactly` | dabbad/thread.c:283-286 | nothing listed is left out of the mask, and nothing else is set if and only if no counter value after wrapping around is a CPU; for strides up to the size of the set, if and only if it does not wrap |
| `CpuLoop.WrappedRange` | dabbad/thread.c:283-286 | the range from 1 to 4294967294 in steps of 3 ends, wraps around and sets CPU 0 |
| `CpuLoop.UnwrappedLists` | dabbad/thread.c:254-287 | a list whose ranges do not wrap around ends, and its mask is the union of what the ranges list |
| `CpuLoop.EndsWithRoom` | dabbad/thread.c:283-286 | when one more stride fits below 2^32, the loop hangs exactly for stride 0 and otherwise does not wrap around |
| `CpuPrinter.PrintAffinity` | dabbad/thread.c:171-216 | the printing loops, counter carried over, produce the specified list |
| `CpuPrinter.NoLeadingZero` | dabbad/thread.c:198-209 | numbers are printed without leading zeros |
| `CpuPrinter.ScanDecimal` | dabbad/thread.c:198-209 | a printed number reads back as itself, whatever non-digit follows |
| `CpuPrinter.ScanSigned` | dabbad/thread.c:260-277 | signs negate modulo 2^64 before the cut to 32 bits, and numbers beyond 64 bits saturate |
| `CpuPrinter.SpaceIsSkipped` | dabbad/thread.c:260-277 | white space in front of a number does not matter |
| `CpuPrinter.NoNumber` | dabbad/thread.c:260-277 | nothing is read where no digit, sign or space stands |
| `CpuPrinter.NegativeToken` | dabbad/thread.c:260-281 | a negative number reads as a range from its complement and is refused if and only if it is between 1 and 2^31 - 1 |
| `CpuPrinter.UnreadablePart` | dabbad/thread.c:260-277 | a token is refused if its start, its end or its stride is not a number |
| `CpuPrinter.StrideNeedsRange` | dabbad/thread.c:269-277 | a colon without a dash before it is ignored |
| `CpuPrinter.ParsedItems` | dabbad/thread.c:243-290 | the parser accepts any non-empty printed list and reads exactly the CPUs its entries name |
| `CpuPrinter.LiteralLists` | dabbad/thread.c:243-290 | what the parser makes of 0, 2 with a space and of 3-x, 0-4:x, 7-4, 3:2 and the empty string |
| `CpuPrinter.StrideZeroList` | dabbad/thread.c:243-290 | the text of any range with stride 0 hangs the parser |
| `CpuPrinter.TopNumberList` | dabbad/thread.c:243-290 | the text 4294967295 hangs the parser |
| `CpuPrinter.WrappedList` | dabbad/thread.c:243-290 | the text 1-4294967294:3 is accepted and sets CPU 0, which it does not list |
| `CpuRoundTrip.SetIsNamed` | dabbad/thread.c:180-213 | every set CPU is printed, with or without the carried counter |
| `CpuRoundTrip.ExactWhenFresh` | dabbad/thread.c:180-213 | the printed list names only set CPUs if and only if the mask has no two neighbours followed by a clear, a set and a clear CPU |
| `CpuRoundTrip.PrintThenParse` | dabbad/thread.c:171-290 | printing then parsing: refused exactly for the empty set, nothing ever lost, exact if and only if that pattern is absent |
| `CpuRoundTrip.PrintWithResetThenParse` | dabbad/thread.c:189-192 | with the counter restarted for each group every non-empty set comes back exactly |
| `CpuRoundTrip.PrintAndParse` | dabbad/thread.c:171-290 | the same for both loops run on masks in memory |
| `CpuRoundTrip.CarriedCounterShows` | dabbad/thread.c:175-212 | CPUs 0, 1 and 3 print as 0,1,3,4 |
| `CpuRoundTrip.RunText` | dabbad/thread.c:197-212 | the text for any single run of CPUs: one number, two with a comma, or the first and the last with a dash |
| `CpuRoundTrip.LiteralTexts` | dabbad/thread.c:197-212 | CPUs 0 to 2 print as 0-2, 9 and 10 as 9,10, and 7 as 7 |
| `Bits.PowerOf2Exactly` | libdabba/packet-mmap.c:220 | the mask test holds exactly of 0 and the powers of two |
| `RingLayout.SupportedSizesPass` | libdabba/include/libdabba/packet-mmap.h:73-84 | every supported frame size passes the power-of-two test |
| `RingLayout.AcceptedCounts` | libdabba/packet-mmap.c:220-241 | an accepted frame count is a power of two, at least 8, below 2^32, and fills its blocks |
| `RingLayout.AcceptedByNumbers` | libdabba/packet-mmap.c:220-241 | of powers of two, exactly the counts from 8 up to what fits 32 bits are accepted |
| `RingLayout.MappedLengthExactly` | libdabba/packet-mmap.c:73-77 | for every accepted size and count, the mapped length is that of all frames together, or 0 when that does not fit 32 bits; never anything between |
| `RingLayout.MappableExactly` | libdabba/packet-mmap.c:220-241 | a mapping can be had if and only if size and count are powers of two, with at least eight frames that take less than 2^32 bytes |
| `RingLayout.FramesTile` | libdabba/packet-mmap.c:150-155 | every byte of the mapping is in exactly one frame and no frame sticks out |
| `RingLayout.FrameInOneBlock` | libdabba/packet-mmap.c:233-236 | no frame lies across two blocks |
| `PacketMmap.RollbackRestores` | libdabba/packet-mmap.c:178-187 | whichever step failed, and after full success, teardown restores rings, mappings and heap exactly |
| `PacketMmap.OrderMatters` | libdabba/packet-mmap.c:182-184 | unregistering before unmapping would leave both behind |
| `PacketMmap.FramesTileMapping` | libdabba/packet-mmap.c:150-155 | for every accepted size and count with a mapping that is not empty: the frames do not overlap, cover exactly the mapping, and none lies across two blocks |
| `PacketMmap.PacketMmap.Create` | libdabba/packet-mmap.c:204-254 | the result code for every argument and outcome: that of the first failing call, registration, mapping, vector or bind; on failure the system is unchanged and, after a failed call, the structure all zero, while a refused size leaves it untouched; on success exactly the ring of that kind, the mapping and the vector are held, the socket is bound to the device, and the vector's entries tile the mapping, eight to a block |
| `PacketMmap.PacketMmap.CreateVector` | libdabba/packet-mmap.c:137-158 | entry a is frame a of the mapping |
| `PacketMmap.PacketMmap.Destroy` | libdabba/packet-mmap.c:178-187 | gives back vector, mapping and ring in that order and zeroes the structure |
| `PacketMmap.CreateThenDestroy` | libdabba/packet-mmap.c:178-254 | create, and destroy on success, leaves the system as it was |
| `Registry.AlwaysAgree` | dabbad/thread.c:48-83 | every sequence of RPCs, whatever the system calls return, keeps the counted lengths, the ids and the order of threads and jobs in step |
| `Registry.ReportedExactly` | dabbad/capture.c:228-319 | a start reports 0 if and only if its job is queued or a capture could not create its file with errno 0; it queues a job if and only if every call succeeded |
| `Registry.StartReports` | dabbad/capture.c:228-319 | a start reports the code of the first of its calls that fails, 0 if none does, and takes place if and only if none does |
| `Registry.SilentFailure` | dabbad/capture.c:268-273 | a capture that reports 0 and is not queued |
| `Registry.ReachableQueues` | dabbad/thread.c:299-344 | in every reachable state the thread queue is the disjoint union of capture and replay threads |
| `Registry.JobsStaySupported` | dabbad/capture.c:294-303 | in every run every queued job has a supported frame size and a power of two of at least eight frames that take less than 2^32 bytes |
| `Registry.StopEffect` | dabbad/capture.c:154-170 | a job found by id has its thread; stopping removes exactly that thread and that job |
| `Registry.StopAllEffect` | dabbad/capture.c:198-216 | stop-all leaves a suffix of the queue, empty if and only if it reports 0, otherwise the code of the first failing cancellation; it removes exactly those threads and leaves the other kind alone |
| `Daemon.ThreadQueue.Start` | dabbad/thread.c:299-316 | a thread is queued if and only if it was created and detached |
| `Daemon.ThreadQueue.Stop` | dabbad/thread.c:324-344 | result code, and the queue without that thread on success |
| `Daemon.ThreadQueue.Get` | dabbad/thread.c:416-478 | the fill loop stays within the cached length and lists all threads in queue order |
| `Daemon.CheckSettings` | dabbad/replay.c:111-130 | settings pass exactly with a named interface, a named file, a frame size of 2048, 16384 or 65536 and at least one frame |
| `Daemon.JobQueue.Start` | dabbad/capture.c:228-319 | the code of the first failing call, errno for the pcap file; both queues extended if and only if all calls succeed |
| `Daemon.JobQueue.Stop` | dabbad/replay.c:141-171 | the code of the cancellation if the id is known; both queues without that id on success |
| `Daemon.JobQueue.StopAll` | dabbad/replay.c:182-211 | the loop ends and stops exactly the jobs before the first failing cancellation |
| `Daemon.JobQueue.Get` | dabbad/capture.c:337-410 | the fill loop stays within the cached length and lists all jobs in queue order |
| `Daemon.Service.Start` | dabbad/replay.c:222-286 | a start RPC on the shared queues is the registry's start and keeps agreement |
| `Daemon.Service.Stop` | dabbad/capture.c:143-175 | a stop RPC on the shared queues is the registry's stop and keeps agreement |
| `Daemon.Service.StopAll` | dabbad/capture.c:186-217 | a stop-all RPC on the shared queues is the registry's stop-all and keeps agreement |
| `Daemon.Service.Serve` | dabbad/capture.c:143-319 | any sequence of RPCs on the shared queues with their cached lengths has exactly the registry's effect and keeps agreement |

## Left out

- TxRing.ReplayOrder: the rewind succeeds, as it does on every regular file; reads fail or not, but return everything the file has.
- CpuList.ParseAffinity: says nothing about strings on which the parser does not end; CpuLoop.HangsExactly says which ranges those have.
- CaptureReplay.CaptureThenReplay: what a replay makes of a file after a write that was cut off in between; CaptureReplay.CutWriteBreaksFile says that such a file is not well-formed.
- RxRing.Conservation: frames come with at least one captured byte, as the assertion in the pcap writer demands.
- PacketMmap.PacketMmap.Create: the socket has no ring yet, as in its callers, which pass a socket they just opened.
- The order in which frames reach the wire, which the kernel's own position in the transmit ring decides.
- Records of byte-swapped files: the code swaps the file header only and reads record headers in native order.
- The capacity of the buffer that the CPU printer writes to.
- Reading a received slot's header field by field: its metadata is one value here, read in one step.
- File descriptors in start and stop: not every path of the code closes them, and nothing is claimed about them.
- The thread scheduling RPCs and the copying of settings into the lists that the get RPCs return, beyond ids and frame geometry.
- The interface RPCs, the command line client, the RPC transport and daemonizing: I/O and field copying with easy frame conditions only.

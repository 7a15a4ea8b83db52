# AESD character driver: a Dafny model

The driver keeps a log of text lines. `aesd_write` takes byte chunks of any
shape, keeps the unfinished line as pending input and commits each completed
line to one of ten ring slots, evicting the oldest. `aesd_read` serves absolute
positions in everything ever committed. The socket server writes each received
chunk to the device and sends back all the device holds, under a mutex.

The project proves that this code is what a far simpler object looks like from
outside: one string of accepted bytes. `Lines.dfy` cuts strings into lines,
`Ring.dfy` has the ring as both structs keep it (its results hold for any
capacity from 1 to 127; the code has ten slots), `Device.dfy` a device fed byte
by byte and what it holds after any stream. `Kernel.dfy` gives the kernel
services (allocation and user copies may fail at any call), `CircularBuffer.dfy`
the stand-alone buffer, and `Driver.dfy` the driver itself: real arrays, in-place
fields, loops and pointers, with the ghost string `history`. Its invariant
`Valid` says that the C state is the one `history` leads to and that every
allocated buffer has one owner. `Readers.dfy` follows one open file while anybody
writes; `Server.dfy` and `Threads.dfy` are one critical section of the server and
all threads together, with processes that bypass the mutex.

Main results:

- `AesdDev.Write` appends exactly the bytes it reports, also when an allocation
  fails half way; `AesdDev.Read` returns exactly the committed bytes at its
  position. Every contract of the driver speaks about the same string.
- `Retention`, `WriteIsRingAdds`, `ChunkingInvariance`, `Conservation`: what any
  stream of bytes, cut into writes anywhere, leaves in slots, indices and counters.
- `EveryByteAccounted`: over any run a reader gets every byte it passes, except
  those evicted before the read and those lost in a failed copy.
- `AesdDev.Write`, `AesdDev.Read` and `ServeChunk` say exactly what a failed
  allocation or user copy costs; a read leaves the caller's buffer alone behind the
  bytes it delivers, and a request whose write failed still gets its reply.
- `SnapshotReplies`, `SnapshotIffNoLineBetween`: in every interleaving, with
  processes that bypass the mutex, a complete reply is the live part of the log
  right after its own write if and only if no write in between accepted a newline.
- `ExecutionIsTold`, `ReplyCarriesItsReads`: the actions determine the log of writes
  and the replies; each unlock adds one reply, with exactly what the reads of its
  thread have returned since it opened the device. `NoRequestIsStuck`: from every
  reachable world any request can still be answered.

Where the code does not do what one might expect, the exact condition is proved:

- The C expression for the number of entries is right exactly when the write
  index is not below the read index (`NumEntriesExact`); reachable rings are such.
- The driver and the add-entry routine move the read index by different
  expressions; they agree exactly when a full ring has equal indices (`CommitIsAdd`).
- A write loses track of the pending buffer exactly when that buffer exists and
  holds no bytes, and the first allocation succeeds (`AesdDev.Write`). Memory leaks
  that way exactly when the buffer is also longer than zero: the zero-length one
  that a write of no bytes leaves behind occupies none. Two one-line writes leak
  (`TwoLinesLeak`). Teardown frees everything else (`AesdDev.FreeAll`).
- A read whose copy to user space fails still moves the position: a byte that was
  live is not delivered exactly when that copy failed (`EveryByteAccounted`), and
  one does get lost that way (`FailedCopyLosesByte`).
- A write by a process that does not take the server's mutex can make a reply a
  mixture that the device never held: `ForeignWriteCanSpoilReply` is an execution
  that ends with such a reply. `SnapshotIffNoLineBetween` is the exact condition; it
  speaks of the position where the reply ends, since bytes alone can agree by
  chance (`LiveBytesCanRepeat`).

The C functions are split into smaller methods along their statements; the
branches, their order and the stop tests are those of the code. Ghost parameters
only carry what a part may assume.

## Model

| member | source | states |
|---|---|---|
| ByteLines.LinesRoundTrip | aesd-char-driver/main.c:231-282 | cutting a stream at newlines loses nothing: lines and tail spell it |
| ByteLines.LinesAreLines | aesd-char-driver/main.c:231-282 | each line has one newline, as its last byte, and the tail has none |
| ByteLines.LinesUnique | aesd-char-driver/main.c:231-282 | no other lines and newline-free rest spell the same stream |
| ByteLines.LinesCount | aesd-char-driver/main.c:233-233 | a stream has as many lines as bytes 10, and each line ends with its only byte 10 |
| ByteLines.LinesAppend | aesd-char-driver/main.c:206-282 | later bytes only meet the pending tail; completed lines stay |
| ByteLines.LinesStay | aesd-char-driver/main.c:231-282 | more bytes complete no line iff there is no newline among them |
| RingSpec.CRemainderOfDistance | aesd-char-driver/main.c:392-397 | truncating remainder and 8-bit conversion give the ring distance iff the difference is not negative, and what they give otherwise |
| RingSpec.NumEntriesExact | aesd-char-driver/aesd-circular-buffer.c:40-45 | the entry count is right iff full or the write index is not below the read index |
| RingSpec.CommitIsAdd | aesd-char-driver/main.c:234-249 | the two ways to advance the read index agree iff a full ring has equal indices |
| RingSpec.AddKeepsLast | aesd-char-driver/aesd-circular-buffer.c:69-86 | adding keeps the index invariant, never clears the full flag, and drops only the oldest entry of a full ring |
| RingSpec.AddAllKeepsLast | aesd-char-driver/aesd-circular-buffer.c:69-86 | the same over any sequence of adds from any valid ring |
| RingSpec.FreshRingIndices | aesd-char-driver/aesd-circular-buffer.c:69-93 | after n adds from init: index invariant, write index n modulo the capacity, full iff n reaches the capacity, unused slots untouched |
| RingSpec.FreshRingReads | aesd-char-driver/aesd-circular-buffer.c:40-93 | after any adds from init the ring reads as the last entries, as many as it has slots, and the C entry count is their number |
| RingSpec.EntriesFrom | aesd-char-driver/main.c:114-120 | `total_entries` is the number of live entries from the first one read through the newest |
| RingSpec.StopTestsExact | aesd-char-driver/main.c:121-129 | one of the two stop tests fires iff no entry is left |
| RingSpec.LocateExact | aesd-char-driver/aesd-circular-buffer.c:48-59 | the lookup names the only entry and offset at a position, and finds one iff the position is before the end |
| RingSpec.LocateReadsTheByte | aesd-char-driver/aesd-circular-buffer.c:20-27 | the located byte is the byte at that position of all entries laid end to end |
| DeviceSpec.ReplayIsRingOfLines | aesd-char-driver/main.c:231-282 | after any stream slots, indices and flag are those of one add-entry call per line, and the tail is pending |
| DeviceSpec.RingReads | aesd-char-driver/main.c:234-249 | reachable rings satisfy the index invariant, hold the last ten lines, and are full iff ten lines were committed |
| DeviceSpec.TenLines | aesd-char-driver/main.c:233-249 | after n newlines (bytes 10) the ring holds the last ten lines, or all n of them, and is full iff n is at least ten |
| DeviceSpec.LiveSlots | aesd-char-driver/main.c:392-402 | the slot k steps after the read index holds the k-th oldest live line |
| DeviceSpec.CounterIsEvicted | aesd-char-driver/main.c:236-238 | `total_bytes_evicted` is the length of all lines no longer live |
| DeviceSpec.Retention | aesd-char-driver/main.c:185-288 | the ring holds exactly the last ten lines in order; counter and pending bytes are what precedes and follows |
| DeviceSpec.SlotShape | aesd-char-driver/main.c:233-276 | every occupied slot holds one line with its newline last, others are empty, the pending bytes have no newline |
| DeviceSpec.Conservation | aesd-char-driver/main.c:236-282 | evicted, live and pending bytes spell the whole stream, and their counts add up to its length |
| DeviceSpec.HistoryGrows | aesd-char-driver/main.c:236-249 | committed and evicted bytes only grow at the end |
| DeviceSpec.CounterMonotone | aesd-char-driver/main.c:236-238 | `total_bytes_evicted` never decreases |
| DeviceSpec.LongerByWholeLines | aesd-char-driver/main.c:236-249 | a log has no more committed bytes than an earlier one iff it has the same lines |
| DeviceSpec.WriteIsRingAdds | aesd-char-driver/main.c:206-282 | one write is one add-entry call per line of pending bytes plus data, and counts exactly the bytes that fall out |
| DeviceSpec.ChunkingInvariance | aesd-char-driver/main.c:206-282 | any cut of the data into writes leaves the same slots, indices, counter and pending bytes as one write |
| DeviceSpec.PositionRoundTrip | aesd-char-driver/main.c:374-411 | the position of byte j of live line k is found as (k, j) and holds that byte of the log |
| DeviceSpec.FoundIffLive | aesd-char-driver/main.c:374-411 | a position past the evicted bytes is found iff it is before the end of the log |
| KernelServices.Kernel.Kmalloc | aesd-char-driver/main.c:210-216 | a fresh live buffer of the requested size, or NULL |
| KernelServices.Kernel.Kfree | aesd-char-driver/main.c:178-178 | only NULL or a live buffer may be freed, and it is live no more |
| KernelServices.Kernel.Memcpy | aesd-char-driver/main.c:138-138 | between live buffers and within bounds; exactly the range changes |
| KernelServices.Kernel.CopyFromUser | aesd-char-driver/main.c:225-228 | copies a beginning of the range, zeroes the rest, and returns the number of bytes not copied |
| KernelServices.Kernel.CopyToUser | aesd-char-driver/main.c:166-170 | copies a beginning of the range, leaves the rest alone, and returns the number of bytes not copied |
| CircularBuffer.CircularBuffer.Init | aesd-char-driver/aesd-circular-buffer.c:91-94 | the empty ring |
| CircularBuffer.CircularBuffer.AddEntry | aesd-char-driver/aesd-circular-buffer.c:69-86 | keeps the last ten entries, in order |
| CircularBuffer.CircularBuffer.FindEntryOffsetForFpos | aesd-char-driver/aesd-circular-buffer.c:29-60 | the slot and offset of a position, or a miss that leaves the offset alone |
| CircularBuffer.LookupAfterAdds | aesd-char-driver/aesd-circular-buffer.c:20-60 | after any adds, of any sizes, the lookup names the byte at the position in the last ten entries, and misses iff past their end |
| AesdDriver.AesdDev.constructor | aesd-char-driver/main.c:325-344 | the initial device: nothing accepted, nothing allocated |
| AesdDriver.AesdDev.BuffersAreDistinct | aesd-char-driver/main.c:236-260 | occupied slots and the pending input refer to pairwise different live buffers, and exactly the occupied slots have one |
| AesdDriver.AesdDev.EvictOldest | aesd-char-driver/main.c:236-240 | the oldest line of a full ring is freed and counted, and the read index steps on |
| AesdDriver.AesdDev.MakeRoom | aesd-char-driver/main.c:236-244 | frees the oldest line of a full ring, counts its bytes, and sets the full flag for the tenth line |
| AesdDriver.AesdDev.StoreEntry | aesd-char-driver/main.c:246-249 | the line buffer becomes the newest slot and has no other owner |
| AesdDriver.AesdDev.CommitEntry | aesd-char-driver/main.c:234-249 | commits one line in slots, indices, flag and counter |
| AesdDriver.AesdDev.CarryOver | aesd-char-driver/main.c:256-275 | the unread bytes get a buffer of their own, or nothing is pending |
| AesdDriver.AesdDev.StartNextLine | aesd-char-driver/main.c:233-277 | the whole newline branch of the write loop |
| AesdDriver.AesdDev.DropPending | aesd-char-driver/main.c:219-222 | a pending buffer with bytes is freed, one without is forgotten |
| AesdDriver.AesdDev.ReplacePending | aesd-char-driver/main.c:219-223 | frees the old pending buffer if it holds bytes; one that holds none is leaked |
| AesdDriver.AesdDev.GrowPending | aesd-char-driver/main.c:207-223 | the pending bytes survive the reallocation |
| AesdDriver.AesdDev.StageInput | aesd-char-driver/main.c:206-228 | a failed first allocation or user copy leaves the logical state alone; otherwise the new bytes follow the pending ones |
| AesdDriver.AesdDev.ScanNewline | aesd-char-driver/main.c:233-277 | the loop invariant survives a commit and the new buffer |
| AesdDriver.AesdDev.ScanByte | aesd-char-driver/main.c:232-279 | one iteration accepts one byte and keeps the buffer layout |
| AesdDriver.AesdDev.ScanInput | aesd-char-driver/main.c:231-282 | accepts exactly the reported bytes; stops early only after a newline and a failed allocation |
| AesdDriver.AesdDev.Write | aesd-char-driver/main.c:185-288 | the log grows by exactly the reported bytes, also when an allocation fails half way, and errors (-12, -14) accept none; at most one allocation or user copy fails, and none iff all bytes are accepted and a pending buffer is left; exactly one idle pending buffer can leak, and when |
| AesdDriver.AesdDev.FindEntryOffsetForFpos | aesd-char-driver/main.c:374-411 | the slot and offset of an absolute position, or the sentinel when evicted or not yet committed |
| AesdDriver.AesdDev.StartReading | aesd-char-driver/main.c:103-110 | reading starts at the live line and offset of the position, or not at all iff the position is at or past the end |
| AesdDriver.AesdDev.CopyPart | aesd-char-driver/main.c:137-161 | each memcpy stays in bounds and extends the gathered text |
| AesdDriver.AesdDev.FinishEntry | aesd-char-driver/main.c:145-161 | an entry copied to its end leads to the start of the next |
| AesdDriver.AesdDev.ReadEntry | aesd-char-driver/main.c:130-162 | one turn of the read loop |
| AesdDriver.AesdDev.CountEntries | aesd-char-driver/main.c:114-120 | `total_entries` is the number of lines from the first one read through the newest |
| AesdDriver.AesdDev.NothingLeft | aesd-char-driver/main.c:121-129 | the stop tests fire iff every line is read |
| AesdDriver.AesdDev.GatherEntries | aesd-char-driver/main.c:114-163 | the loop gathers count bytes or all that is left, across slots and the end of the array |
| AesdDriver.AesdDev.FetchLines | aesd-char-driver/main.c:103-163 | lookup and loop together give the bytes due at a position |
| AesdDriver.AesdDev.Deliver | aesd-char-driver/main.c:103-175 | delivers the bytes due, or loses them in the copy; the position moves past them either way; nothing else in the caller's buffer changes |
| AesdDriver.AesdDev.Read | aesd-char-driver/main.c:66-183 | the committed bytes from the position, or from the oldest live line; the caller's buffer keeps what is behind the bytes returned, all of it when the allocation fails (-12), and what is behind those due when the copy fails (-14); the device and its buffers stay as they were |
| AesdDriver.AesdDev.FreeAll | aesd-char-driver/main.c:442-457 | every owned buffer is live when freed; afterwards exactly the leaked ones are allocated |
| AesdDriver.TwoLinesLeak | aesd-char-driver/main.c:219-223 | two one-line writes and an unload leave a buffer allocated |
| Readers.RunGoesOn | aesd-char-driver/main.c:66-288 | whatever a read or write call may do continues any run |
| Readers.ReadsInOrder | aesd-char-driver/main.c:89-175 | what a read got is its range of the log at any later time, and later reads start at or after its end |
| Readers.OnlyEvictedBytesSkipped | aesd-char-driver/main.c:91-94 | consecutive reads are adjacent, or the second starts at the oldest live line and all in between is evicted |
| Readers.EveryByteAccounted | aesd-char-driver/main.c:89-180 | each byte passed was passed by one read, which delivered it iff it was not evicted before and the copy succeeded |
| Readers.FailedCopyLosesByte | aesd-char-driver/main.c:165-175 | a two-state run in which a failed copy passes a live byte that is never delivered |
| Readers.ReadsAreContiguous | server/server.c:194-208 | undisturbed successful reads of any sizes give one contiguous slice |
| Readers.ReadToEnd | server/server.c:194-208 | from position 0 until a read returns 0, reads of any positive sizes give exactly the live lines |
| Readers.ReadToEndStops | server/server.c:198-208 | at most as many reads return data as there are live bytes |
| Server.SendingGoesOn | server/server.c:198-208 | each read extends what was sent by the next bytes; a read of nothing means all live lines are sent |
| Server.ReadStaysInside | server/server.c:194-208 | a read returns at most 2048 bytes; one that returns fewer ends at the end of the log, and any that returns data further on |
| Server.SendAll | server/server.c:194-208 | sends all that its reads delivered: the live lines, complete unless a read failed, and a beginning of them otherwise |
| Server.ServeChunk | server/server.c:173-236 | writes the chunk and sends the last ten lines right after it, also when the write fails or is cut short; an incomplete reply takes a failure besides the write's, and what was delivered until then is sent; nothing when an open fails |
| RequestThreads.StepKeepsExclusive | server/server.c:173-236 | only the mutex holder is between lock and unlock |
| RequestThreads.StepKeepsInv | server/server.c:156-237 | every step of every thread or foreign writer keeps the invariant of the machine |
| RequestThreads.LogsBetween | aesd-char-driver/main.c:231-282 | between two writes the log gains no line iff no write in between accepted a newline |
| RequestThreads.ExecutionIsTold | server/server.c:173-236 | the log of writes and the replies are those that the actions tell: one reply per unlock, in that order, from the thread that unlocks, with the data of its reads and the number of its write |
| RequestThreads.SentSinceOpen | server/server.c:189-208 | what a thread has to send is all its reads have returned since it last opened the device |
| RequestThreads.ReplyCarriesItsReads | server/server.c:189-236 | an unlock adds exactly one reply, of its thread, with exactly what the reads of that thread returned since it opened the device |
| RequestThreads.MutexCanBeReleased | server/server.c:173-236 | in every reachable world the holder can run on until it gives up the mutex |
| RequestThreads.NoRequestIsStuck | server/server.c:157-236 | from every reachable world a thread outside the critical section can get any chunk answered by the live part of the log right after its write, whatever that write returns |
| RequestThreads.AnyOutcomeIsAStep | server/server.c:175-208 | every outcome that the driver allows, and a failed open, is a step of the machine |
| RequestThreads.SnapshotReplies | server/server.c:173-236 | in every interleaving the writes have one order and replies follow it; a complete reply ends at the end of the log it saw last; while no write in between accepts a newline, a reply is a beginning of the last ten lines right after its own write, all of them when complete |
| RequestThreads.SnapshotIffNoLineBetween | server/server.c:173-236 | a complete reply is the live part of the log right after its own write, up to its end, iff no write in between accepted a newline |
| RequestThreads.MutexSuffices | server/server.c:173-236 | without foreign writers every complete reply is that snapshot, every other a beginning of it |
| RequestThreads.MutualExclusion | server/server.c:173-236 | no two threads are in the critical section together |
| RequestThreads.ForeignWriteCanSpoilReply | server/server.c:183-208 | an execution with one thread and one foreign write ends with a complete reply that the device never held |
| RequestThreads.LiveBytesCanRepeat | aesd-char-driver/main.c:236-249 | two different logs can have the same live bytes |

## Left out

- Integer limits: `size_t`, `loff_t` and the `int` loop counter are unbounded here; the kernel caps `count` below `INT_MAX`, and byte totals near 2^64 are not modelled. `uint8_t` indices and the C remainder are modelled exactly.
- Concurrency inside one file operation: each runs under the device semaphore and is one atomic step.
- `aesd_dev_add_entry` (aesd-char-driver/main.c:423-440): never called, and the same code as the stand-alone add routine, which is modelled.
- `AESD_CIRCULAR_BUFFER_FOREACH`: a plain ten-step traversal.
- Module registration, `aesd_open`, `aesd_release` and debug output: kernel plumbing.
- User memory: buffers known to be in user space and disjoint from everything the kernel allocates.
- A zero-size allocation: an ordinary fresh empty buffer here, as `kfree` treats it.
- Sockets, `recv` and the result of `sendto`, signals, daemon mode, logging, thread creation and joining: `sent` is what is handed to the socket. A thread may receive any non-empty chunk up to the buffer size at any time.
- File descriptors: opens may fail, closing has no effect on the device.
- The timer thread and the plain-file branch of the server: not compiled in the configured build.
- The assignment examples, scripts and tests of the repository: no part of the driver or its server.

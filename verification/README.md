# A verified model of the device drivers and their clients

The repository holds two Linux character devices for the Raspberry Pi and the
programs around them. This project models their behaviour in Dafny and proves
what they promise, and where they do not keep a promise, exactly when they do.

**The RAM disk** (`asgn1/asgn1.c`). File contents live in a list of pages of 4096
bytes, grown by writes and freed by a write-only open. `RamDisk.dfy` has the device
as a class over page arrays and a kernel allocator that may refuse;
`FlatFile.dfy` is its specification, a flat byte file and a machine of open files
over it. `RamDiskSystem.dfy` proves that every run of calls over any number of
descriptors is a run of that machine, and that pages are conserved up to module exit.

**The interrupt pipeline** (`asgn2/asgn.c`, `asgn2/gpio.c`). Half bytes arrive by
interrupt, are paired into bytes, queued in a 64-slot ring, drained into pages by a
tasklet and read one session (file) per open. `Wire.dfy` is the wire format,
`Pipeline.dfy` the step system, one locked section or call per step, and
`PipelineDriver.dfy` the driver as a class of mutable globals, each entry point
proved to do exactly its step. The results about runs are in `PipelineCalls.dfy` (who
may open, when a read waits), `PipelineRing.dfy` (ring and lock),
`PipelineSessions.dfy` (size slots), `PipelinePages.dfy` (pages, reads) and
`Delivery.dfy` (from pins to reader). The limits the code relies on are stated as
`Delivery.GoodRun`: at most 100 sessions, nothing dropped or refused, ring contents
that fit on the one page in use, and reads only of a closed, drained head session
asked for in full. `GoodRuns.dfy` shows that such runs exist for all files that fit.
Outside these limits the `Iff` lemmas say what happens, and `FailingRuns.dfy` has runs
from module start that show each failure.

**Protocols between processes.** `OpenGate.dfy` is the check-then-increment open of
both drivers, `WaitProtocol.dfy` the exclusive sleep and wake-up of
`lab03/wait/wait_event.c`, and `TaskletWake.dfy` the wake-up from interrupt through
tasklet to readers. Each is a step system with one shared access per step and any
number of processes.

**Copy loops.** `CopyLoops.dfy` has `my_fread`, `my_fwrite` and the mapping test of
`asgn1/mmap_test.c` running on the paged disk under an environment that shortens,
interrupts and fails calls; `MyCat.dfy` has `lab01/my_cat.c`.

`Machine.dfy` holds the 32-bit `int` and `size_t` and 64-bit `loff_t` conversions. All
wrap-around and truncation in the modelled code is written out with them.

## What is false of the code, and when it holds

Each entry names the lemma or method with the exact condition; names after a semicolon
are runs from the start that show the failure.

- A mapping with a nonzero page offset is not what was asked for: a byte offset is
  compared with page indexes (`RamDisk.Disk.Mmap`; `RamDiskSystem.WrongMapping`).
- The limit on opens is not kept when opens overlap; `m - 1 + k` is the sharp bound
  (`OpenGate.LimitKeptIff`, `OpenGate.BoundReached`).
- A session that crosses a page is not delivered (`PipelinePages.ReadPromiseIff`,
  `PipelinePages.LongSessionOutcome`; `FailingRuns.LongSessionNotDelivered`; admitted at
  `asgn2/asgn.c:270`), and with two pages held the tasklet writes to the wrong one
  (`PipelinePages.DrainedByteIff`; `FailingRuns.OverwrittenByte`).
- Reading an empty session at read offset 0 frees a page with unread bytes
  (`PipelinePages.EmptySessionIff`; `FailingRuns.EmptyReadLosesByte`).
- Size slots are never cleared (`PipelineSessions.SlotHoldsIff`;
  `FailingRuns.SlotUsedTwice`).
- A dropped byte or a refused page leaves the spin lock held for good
  (`PipelineRing.LockLostIff`, `PipelineRing.FrozenByLostLock`;
  `FailingRuns.LockLostByRefusal`, `FailingRuns.LockLostByDrop`).
- A signal between the end of the wait and the clearing of the flag strands the other
  readers (`WaitProtocol.StrandsIff`; `WaitProtocol.StrandingRun`).
- A read does not wait for its session to be closed: with bytes unread, or after a
  signal, it takes the unfinished one and the count goes to -1
  (`PipelineCalls.ReadWaitsIff`, `TaskletWake.InterruptedTakes`;
  `PipelineCalls.ReadOfUnfinishedSession`).
- Taking a session at count 0, or losing the lock, loses the wake-up of a sleeper
  (`TaskletWake.LosesIff`; `TaskletWake.LosingRun`, `TaskletWake.LosingByLock`).
- An open yields more than one session when a second reader is already asleep
  (`Delivery.OneSessionPerOpen`; `FailingRuns.TwoSessionsInOneOpen`), or when the session
  was empty and no page was held (`Delivery.OpenEndsIff`;
  `FailingRuns.EmptyFilesInOneOpen`).
- `my_cat` takes a failed write for a complete one: it drops data and exits normally
  (`MyCat.Cat`).
- `my_fwrite` of 2^31 bytes or more writes nothing and returns a negative number
  (`CopyLoops.Fd.MyFwrite`). A shorter buffer that does not fit on the machine is never
  written in full (`CopyLoops.Fd.WriteCalls`).
- A page refused to `asgn1_write` leaks its list node: nodes are pages plus refusals
  (`RamDisk.Disk.AddPage`, which keeps `RamDisk.Disk.Valid`).
- `SEEK_END` and the clamp of `asgn1_lseek` use the page capacity, not the data size
  (`FlatFile.SeekEndIff`); a zero-length write at a position past the data extends the
  data size (`FlatFile.EmptyWriteIff`).

## Model

| member | source | states |
|---|---|---|
| `FlatFile.CopyInCopyOut` | asgn1/asgn1.c:117-120 | For every data, every cutting into writes and every positive read sizes: after a write-only open, writing all chunks, releasing, opening again and reading until a read returns nothing, the bytes read are exactly the bytes written (the promise of `asgn1/test.sh`) |
| `FlatFile.ChunkedWrite` | asgn1/asgn1.c:302-306 | Full writes through one descriptor of an empty file leave the concatenation of the chunks as data, with size and position at its end |
| `FlatFile.ChunkedRead` | asgn1/asgn1.c:194-200 | Successive reads of any sizes return adjacent slices: together the bytes between the first and the last position, and the file is unchanged |
| `FlatFile.WritesCompose` | asgn1/asgn1.c:242-311 | Two writes at a moving position are one write of both buffers: bytes, untouched bytes, size and page count agree |
| `FlatFile.ReadAfterWrite` | asgn1/asgn1.c:146-311 | Reading a range that was written returns the bytes written, whatever the file held before |
| `FlatFile.RunKeepsCount` | asgn1/asgn1.c:113-135 | In every run of complete calls the process count is the number of open descriptors |
| `FlatFile.LimitKept` | asgn1/asgn1.c:108-113 | In every run of complete calls that leaves the limit alone the process count stays within it |
| `FlatFile.EmptyWriteIff` | asgn1/asgn1.c:244-306 | A write of nothing keeps the old bytes, and the data size exactly when its position is not past the data |
| `FlatFile.SeekEndIff` | asgn1/asgn1.c:217-229 | A seek to the end finds the end of the data if and only if the data fills its pages |
| `FlatFile.RelativeSeeksAdd` | asgn1/asgn1.c:214-229 | Relative seeks by d and then e, not clamped on the way, are one by d + e; one by 0 stays |
| `RamDisk.Disk.Read` | asgn1/asgn1.c:146-201 | The page walk returns exactly min(count, data size - position) bytes of the flat contents at the position, nothing past the end, and advances the position by that |
| `RamDisk.Disk.Gather` | asgn1/asgn1.c:168-192 | The loop over the pages, with its page and offset counters and early break, returns the requested slice of the concatenated pages |
| `RamDisk.Disk.Write` | asgn1/asgn1.c:242-311 | Either the buffer sits at the position, every other old byte is unchanged, the data size is max(old, position + count) and the pages are max(old, needed); or a page was refused, nothing is written and the pages obtained stay |
| `RamDisk.Disk.Grow` | asgn1/asgn1.c:257-274 | The growth loop appends new pages until the end of the write fits, or stops at the first refusal with the old pages in place |
| `RamDisk.Disk.AddPage` | asgn1/asgn1.c:259-273 | One page is linked at the end of the list, or refused by the allocator; a refused page costs its list node |
| `RamDisk.Disk.Scatter` | asgn1/asgn1.c:276-300 | The page-by-page copy is one splice into the concatenated pages |
| `RamDisk.Disk.Store` | asgn1/asgn1.c:302-306 | After growth the write patches the flat contents at the position and updates position and data size |
| `RamDisk.Disk.Seek` | asgn1/asgn1.c:203-236 | The result and the new position are offset, old position + offset or 4096 times the pages + offset, for modes 0, 1 and 2, where that lies between 0 and the capacity, else 0 or the capacity; any other mode is -22 and moves nothing |
| `RamDisk.Disk.Open` | asgn1/asgn1.c:101-126 | Refused exactly at the limit; access mode 1 leaves an empty file and returns every page; any other leaves pages and size alone |
| `RamDisk.Disk.FreeMemoryPages` | asgn1/asgn1.c:73-95 | Every live page is returned once, every node of the list is freed, and the file is empty |
| `RamDisk.Disk.FreeFirst` | asgn1/asgn1.c:84-86 | The first page leaves the list and goes from live to freed; the rest stay in order |
| `RamDisk.Kernel.FreePage` | asgn1/asgn1.c:84 | A page can be returned only while it is live, so never twice |
| `RamDisk.Disk.Mmap` | asgn1/asgn1.c:370-400 | The mapping holds exactly the pages of the range from the byte offset on, each list page at its place and nothing outside, and each page of the range is backed by the page at its file offset exactly when the page offset is zero (the byte offset is compared with page indexes) |
| `RamDisk.MappedByte` | asgn1/asgn1.c:387-391 | Through a mapping that backs its range from offset zero, the byte at start + a is byte a of the flat file |
| `RamDisk.StoreMapped` | asgn1/asgn1.c:387-391 | A store through the mapping patches that one byte of the flat file |
| `RamDisk.FlatSlice` | asgn1/asgn1.c:149-150 | Division and remainder of a position by the page size find its bytes in the concatenated pages |
| `RamDisk.ConcatPatch` | asgn1/asgn1.c:279-282 | Patching one page is patching the flat contents at its offset |
| `RamDiskSystem.System.Execute` | asgn1/asgn1.c:101-311 | Whole-run refinement: every script of open, release, read, write, lseek and ioctl over any number of descriptors gives results and positions that are a run of the flat-file machine; new bytes are unspecified, a write may be refused |
| `RamDiskSystem.System.Perform` | asgn1/asgn1.c:101-351 | Any one call is a step of the flat-file machine on the state it finds |
| `RamDiskSystem.System.WriteFile` | asgn1/asgn1.c:242-311 | A write through one descriptor moves only that descriptor's position |
| `RamDiskSystem.System.Exit` | asgn1/asgn1.c:475-488 | After module exit the list is empty and every page ever handed out has been returned; the only nodes missing are those lost with a refused page |
| `RamDiskSystem.MapAndExecute` | asgn1/asgn1.c:101-400 | A mapping from offset zero shows the file, byte for byte, after every script of calls in which no write-only open succeeds |
| `RamDiskSystem.WrongMapping` | asgn1/asgn1.c:373-391 | A request that is answered wrongly: page offset 2^20 wraps to zero, so the answer to it on a device of one page is a mapping that shows the first page |
| `CopyLoops.Fd.MyFread` | asgn1/mmap_test.c:19-46 | For every splitting and interruption the loop returns what one read of the whole request would; at any failure what it has is a prefix of that; a request of 2^31 bytes or more reads nothing |
| `CopyLoops.Fd.MyFwrite` | asgn1/mmap_test.c:49-70 | Unless the program exits, the result is the buffer size as an `ssize_t` and the file is as after one write of the whole buffer, however it was split, interrupted or refused a page on the way, exactly when the buffer is shorter than 2^31 bytes, which is when the result is not negative; a longer one changes neither file nor position |
| `CopyLoops.Fd.WriteCalls` | asgn1/mmap_test.c:54-67 | After a number of calls known in advance the loop, unless a call failed, has written everything if and only if the buffer fits on the machine; in any number of calls it writes no further than that |
| `CopyLoops.Fd.WriteLoop` | asgn1/mmap_test.c:54-67 | At every exit exactly the first `done` bytes are in place and nothing else has changed |
| `CopyLoops.PartMore` | asgn1/mmap_test.c:65-66 | A further short write extends the part that is written |
| `CopyLoops.PartRefused` | asgn1/asgn1.c:262-273 | A write that is refused a page costs none of the bytes written before |
| `CopyLoops.PartAll` | asgn1/mmap_test.c:49-70 | All parts written make one write of everything |
| `CopyLoops.WriteRewindRead` | asgn1/mmap_test.c:114-139 | my_fwrite, rewind, my_fread gives the bytes back, over the paged disk and any schedule of short and interrupted calls |
| `CopyLoops.SameAsMapped` | asgn1/mmap_test.c:82 | The comparison with the mapped range is true exactly when the buffer is the beginning of the flat file |
| `CopyLoops.ReadAndCompare` | asgn1/mmap_test.c:73-86 | Never reports a read problem or a difference between reading and mapping |
| `CopyLoops.MmapTest` | asgn1/mmap_test.c:114-151 | The whole mapping test agrees unless a system call fails, also after a byte is changed through the mapping, and a later read sees that change |
| `MyCat.Cat` | lab01/my_cat.c:38-76 | The exit is normal if and only if no read failed, whatever the writes did; on normal exit the output equals the input if and only if no write failed; without failed writes the output is a prefix of the input at every exit; it terminates by (input left, interruptions left) |
| `MyCat.CopyOut` | lab01/my_cat.c:42-61 | The inner loop accounts for every byte of the chunk; its EINTR branch is never taken because -1 compares as a large `size_t` |
| `Wire.ReadHalfByte` | asgn2/gpio.c:102-114 | Less than 16, and bit 0, 1, 2, 3 set exactly when line 7, 17, 22, 24 of the register is high |
| `Wire.PinLines` | asgn2/gpio.c:107-111 | Presenting a half byte drives exactly these four lines, each by its bit, and no other |
| `Wire.HighHalfFirst` | asgn2/asgn.c:171-178 | Two samples make 16 times the first half byte plus the second |
| `Wire.PinsCarryHalfByte` | asgn2/gpio.c:107-111 | Whatever the other pins show, the half byte presented is the half byte read |
| `Wire.Halves` | asgn2/asgn.c:172-178 | Two samples, high half first, put the byte together again |
| `Wire.BytesOfEncode` | asgn2/asgn.c:171-178 | Any byte sequence presented as samples is reassembled |
| `Wire.WireRoundTrip` | asgn2/asgn.c:166-198 | Any list of NUL-free files, framed and presented as samples with arbitrary noise, splits into exactly those files |
| `Wire.FrameOfSplit` | asgn2/asgn.c:184-198 | Splitting loses nothing: framing the closed files and adding the open one gives the stream back |
| `Pipeline.WalkShape` | asgn2/asgn.c:306-350 | The page walk of a read keeps list length, page sizes, indexes and offsets in range |
| `PipelineDriver.Driver.Interrupt` | asgn2/asgn.c:164-206 | The handler does to the globals exactly what the interrupt step says, in place |
| `PipelineDriver.Driver.Deliver` | asgn2/asgn.c:184-199 | Its locked section: NUL closes a session, another byte is queued and counted, a full ring keeps the lock |
| `PipelineDriver.Driver.TaskletCopy` | asgn2/asgn.c:109-152 | The loop over the ring is the drain step, including the returns that keep the lock |
| `PipelineDriver.Driver.CopyByte` | asgn2/asgn.c:120-149 | One round: the byte goes to a new page or to the first page of the list |
| `PipelineDriver.Driver.Read` | asgn2/asgn.c:287-295 | End of file exactly with the mark set; sleep exactly with no mark, count 0 and equal offsets; neither changes anything; any other read that stays in the data moves the head on by one modulo 100 and the count down by one |
| `PipelineDriver.Driver.Open` | asgn2/asgn.c:236-254 | 0 exactly for reading below the limit, then the count is one more and the end-of-file mark clear; else -13 for the writing modes and -16 at the limit, with no global changed |
| `PipelineCalls.OpenBalance` | asgn2/asgn.c:236-266 | In every run without wild behaviour the count is the successful opens less the releases, and while nobody sets the limit at most one |
| `PipelineCalls.OneOpenAtATime` | asgn2/asgn.c:236-266 | With as many opens as releases at least, and the limit left alone, exactly zero or one file is open in every such run |
| `PipelineCalls.ReadWaitsIff` | asgn2/asgn.c:287-303 | A read waits if and only if the end-of-file mark is clear, the count is 0 and the offsets are equal; otherwise, the mark being clear, it takes the head session, closed or not, or overflows the count |
| `PipelineCalls.ReadOfUnfinishedSession` | asgn2/asgn.c:292-303 | For any nonzero byte a run that sends only this byte, and a read in it that returns the byte, takes the unfinished session and leaves the count at -1 |
| `PipelineCalls.WaitsLikeProtocol` | asgn2/asgn.c:292-294 | The reader of the wake-up protocol looks at the count exactly when the read of the pipeline waits |
| `PipelineCalls.DeliverWildIff` | asgn2/asgn.c:167-197 | The locked section of the interrupt leaves the driver's data exactly when the count overflows, or a byte is to be queued, there is room, and head plus count is below zero and no multiple of 100 |
| `PipelineDriver.Driver.Take` | asgn2/asgn.c:297-303 | The head session is taken and the list walked, exactly as the step says |
| `PipelineDriver.Driver.WalkList` | asgn2/asgn.c:306-353 | The loop over the list, removing pages as it goes, computes the page walk |
| `PipelineDriver.Driver.ReadPage` | asgn2/asgn.c:308-350 | One page of it: amount, copy, removal and stop |
| `PipelineDriver.Driver.Execute` | asgn2/asgn.c:109-360 | Over any run of interrupts, tasklets and calls, globals and replies are those of the step system |
| `PipelineDriver.Serve` | asgn2/asgn.c:109-360 | The driver from module start through any run within its limits returns the files sent, in order and exact |
| `PipelineRing.RingIsQueue` | asgn2/asgn.c:119-197 | In every run the ring holds, in order, the bytes accepted and not yet drained, never more than 64 |
| `PipelineRing.Dequeues` | asgn2/asgn.c:119-122 | Any number of dequeues takes a prefix of the queue and leaves the tail index as it was, so an index computed before the lock stays right |
| `PipelineRing.Enqueue` | asgn2/asgn.c:167-197 | An accepted byte goes to the end of the queue and disturbs no other |
| `PipelineRing.QueueStep` | asgn2/asgn.c:109-360 | Any step takes bytes from the front and adds at the end, nothing else |
| `PipelineRing.CountIsSince` | asgn2/asgn.c:119-197 | While the lock is free, the ring holds what was queued since the last tasklet |
| `PipelineRing.DropNeedsBurst` | asgn2/asgn.c:189-192 | A byte is dropped only when 64 bytes were queued since the last tasklet |
| `PipelineRing.DrainRefused` | asgn2/asgn.c:128-144 | A tasklet loses the lock exactly when one of its bytes needs a page and is refused it |
| `PipelineRing.LockLostIff` | asgn2/asgn.c:128-192 | In every run the lock is left held if and only if some step dropped a byte or was refused a page |
| `PipelineRing.FrozenByLostLock` | asgn2/asgn.c:116-192 | Once the lock is lost no byte is ever queued, counted or stored again |
| `PipelineRing.TakeFrame` | asgn2/asgn.c:297-356 | A read changes the session head and the pages only, and head plus count stays the same modulo the slots |
| `PipelineSessions.Accounting` | asgn2/asgn.c:168-197 | In every run head + count is the number of NULs taken modulo 100, and each slot is the 32-bit sum of the lengths of all sessions that ever used it |
| `PipelineSessions.SlotHoldsIff` | asgn2/asgn.c:168-197 | In every run that has accepted less than 4 GiB, the size slot of a session is its length if and only if every other session of that slot is empty (slots are never cleared) |
| `PipelineSessions.SizesBeforeReuse` | asgn2/asgn.c:168-197 | Before any slot is used again the slots are the NUL-split of the accepted stream |
| `PipelineSessions.DrainFrame` | asgn2/asgn.c:109-152 | The tasklet touches no session counter, size or read offset |
| `PipelinePages.PageArithmetic` | asgn2/asgn.c:128-149 | In every run whose reads free only full pages: write offset = data size mod 4096 and pages = ceil(data size / 4096), refused pages included |
| `PipelinePages.RestOfSession` | asgn2/asgn.c:311-316 | The wrapping `size_t` expression of the read equals the bytes left of the session |
| `PipelinePages.ReadWithinPage` | asgn2/asgn.c:297-350 | A drained session that ends on the first page is returned exactly and removed from the unread stream; its page is freed when it ends the page |
| `PipelinePages.ReadPromiseIff` | asgn2/asgn.c:267-272 | A read of a drained session returns it, within the room asked for, if and only if the session ends on the first page and the request is as long as the session |
| `PipelinePages.LongSessionOutcome` | asgn2/asgn.c:306-350 | The exact reply to a full request for a session that crosses a page: it leaves the page if and only if the session is under a page, or 2^31 bytes or more, or further pages are held and less than a page is left after the first; otherwise it returns the rest of the first page, frees every page held and does not end the open |
| `PipelinePages.OnePageOfLongSession` | asgn2/asgn.c:306-350 | With one page held and a session of a page or more, any request below 2^31 gets min(rest of the page, request) bytes; offset, mark, pages and data size afterwards |
| `PipelinePages.RoundSizeIs` | asgn2/asgn.c:310-318 | A round moves all that is left of the session when that is under a page, whatever was asked for, else the minimum of the request and the rest of the page |
| `PipelinePages.EmptySessionIff` | asgn2/asgn.c:334-340 | Reading an empty session returns nothing, and leaves the unread stream as it was if and only if no page is held or the read offset is not zero |
| `PipelinePages.DrainedByteIff` | asgn2/asgn.c:124-149 | A drained byte is appended to the unread stream if and only if it starts a page, or at most one page is held, or it meets equal bytes |
| `Delivery.FifoDelivery` | asgn2/asgn.c:109-356 | In every run within the limits: the reads have returned the first files sent, each exactly; page and ring hold the rest, in order; the lock is free and the session count exact |
| `Delivery.DeliveryInvariant` | asgn2/asgn.c:109-356 | The invariant of such runs: slots are file lengths, numbering, stream and half-byte state |
| `Delivery.PinsToReader` | asgn2/asgn.c:109-356 | From pin samples that encode files to the reader: the files come out one by one, all of them once all sessions are read |
| `Delivery.OneSessionPerOpen` | asgn2/asgn.c:287-347 | In such a run a step that takes a nonempty session hands over the next file; after that and until the next open every read that starts gets the end of file, and a further session is handed over exactly when a reader goes on that was asleep when this one was taken |
| `Delivery.OpenEndsIff` | asgn2/asgn.c:307-347 | In such a run a read that takes a session ends the open if and only if the session is not empty or a page is held |
| `Delivery.EofUntilOpen` | asgn2/asgn.c:287-290 | In every run, once a session has been read, a read that starts before the next open gets the end of file |
| `Delivery.ToggleParity` | asgn2/asgn.c:171-178 | In every run the next sample is a high half exactly after an even number of samples |
| `Delivery.DrainCalm` | asgn2/asgn.c:119-151 | A whole drain onto one page moves the ring to the end of the unread stream |
| `GoodRuns.GoodRunExists` | asgn2/asgn.c:109-356 | The limits can be met: for every list of at most 100 nonempty NUL-free files of at most 4096 bytes in all, some run within the limits sends exactly these files and hands all of them over |
| `GoodRuns.AllAccepted` | asgn2/asgn.c:166-197 | In such a run every byte sent is accepted |
| `FailingRuns.LockLostByRefusal` | asgn2/asgn.c:128-144 | For every nonzero byte a run of one byte and one tasklet that loses the lock to a refused page |
| `FailingRuns.LockLostByDrop` | asgn2/asgn.c:189-192 | For any 65 nonzero bytes the run that sends them with no tasklet: its last step drops the last byte and the lock is lost |
| `FailingRuns.EmptyReadLosesByte` | asgn2/asgn.c:334-340 | A run with an empty file and one byte of the next in which a read of any size returns nothing and frees the page with the unread byte |
| `FailingRuns.OverwrittenByte` | asgn2/asgn.c:124-146 | For any 4097 bytes and one more, different from the second: a run that accepts and drains them all, after which the last byte sits in place of the second |
| `FailingRuns.LongSessionNotDelivered` | asgn2/asgn.c:306-350 | For any session of 4097 bytes a run in which it is closed, drained and asked for in full, and not delivered |
| `FailingRuns.SlotUsedTwice` | asgn2/asgn.c:195-197 | A run of 101 sessions whose shared slot is the size of neither of the two sessions in it |
| `FailingRuns.TwoSessionsInOneOpen` | asgn2/asgn.c:287-303 | For any two nonzero bytes a run within the limits with one open and two reads that go to sleep; each then gets a file of its own |
| `FailingRuns.EmptyFilesInOneOpen` | asgn2/asgn.c:297-353 | A run within the limits in which two reads of one open take an empty file each |
| `OpenGate.OpenBound` | asgn1/asgn1.c:101-113 | Under every interleaving with at most k opens in flight and limits at most m, the count is the number of holders and at most m - 1 + k |
| `OpenGate.StepKeeps` | asgn1/asgn1.c:103-135 | The inductive invariant: count plus openers that have read a value below m and not yet incremented |
| `OpenGate.CountIsBalance` | asgn1/asgn1.c:113-135 | In every interleaving the count is the completed increments less the releases of open files |
| `OpenGate.ReleasedStaysOut` | asgn1/asgn1.c:129-135 | After its release a process holds no file until it completes another increment |
| `OpenGate.UndisturbedOpenIff` | asgn1/asgn1.c:103-113 | An open nobody disturbs, its two reads in either order, succeeds exactly below the limit and changes nothing otherwise |
| `OpenGate.ReleaseGivesPlaceBack` | asgn1/asgn1.c:103-135 | From any state within the limit a holder's release and an undisturbed open of another process exchange the two |
| `OpenGate.BoundReached` | asgn1/asgn1.c:103-113 | For all k and m some run reaches m - 1 + k |
| `OpenGate.LimitKeptIff` | asgn2/asgn.c:244-250 | The limit itself is kept in all runs if and only if opens never overlap |
| `WaitProtocol.NobodyStranded` | lab03/wait/wait_event.c:65-88 | For any number of readers and writers: while data is ready and a reader sleeps, a writer has still to wake or some awake reader has still to check, clear or hand on, unless a reader that was through left on a signal |
| `WaitProtocol.StrandsIff` | lab03/wait/wait_event.c:69-74 | A step strands a reader if and only if it is such a signal exit with data ready, somebody asleep, no writer pending and nobody else awake |
| `WaitProtocol.StrandingRun` | lab03/wait/wait_event.c:72-73 | For any two readers a run that strands one of them |
| `WaitProtocol.StrandedStays` | lab03/wait/wait_event.c:69-86 | A stranded reader stays so until another reader, another write or a signal comes |
| `WaitProtocol.AwakeReaderTakes` | lab03/wait/wait_event.c:69-74 | Once data is ready, the flag has been cleared by the time an awake reader that is not leaving on a signal has made four steps of its own, in every interleaving with other readers and writers |
| `WaitProtocol.InterruptedLeaves` | lab03/wait/wait_event.c:69-73 | A sleeper that signals reach with no data ready has left after four steps of its own: off the queue and gone, the order of the others, flag and writers as they were |
| `WaitProtocol.PassesOnlyOnData` | lab03/wait/wait_event.c:69-74 | A reader gets past the wait only by its own look at the flag that finds it set, and is then off the queue |
| `TaskletWake.NoLostWakeUp` | asgn2/asgn.c:152-202 | For any number of readers and interrupts, in every run without a drop, a refused page or a session taken at count 0: while a reader sleeps and the count is not zero, an interrupt has still to schedule, or the tasklet is pending, or it has not reached its wake-up, and the lock is free |
| `TaskletWake.LosesIff` | asgn2/asgn.c:116-303 | A step loses a wake-up if and only if somebody sleeps and either a session is taken at count 0 with no wake-up coming, or a drop or refused page loses the lock while the count is not zero and before the tasklet is past its locked section |
| `TaskletWake.LosingRun` | asgn2/asgn.c:292-303 | For any three readers a run in which two take one session and the third sleeps on a count of -1 |
| `TaskletWake.LosingByLock` | asgn2/asgn.c:128-192 | Two runs that lose the wake-up of a sleeper by the lock although the tasklet is scheduled: one whose last step is the drop that loses the lock, one whose last step is the refused page that does |
| `TaskletWake.SleepsForEver` | asgn2/asgn.c:116-192 | After the lock is lost a sleeper sleeps on, whatever the others do, unless a signal comes |
| `TaskletWake.WakeUpArrives` | asgn2/asgn.c:152-202 | A wake-up on its way arrives: in every interleaving that loses no lock every reader is off the queue by the fourth step of interrupt and tasklet towards it |
| `TaskletWake.InterruptedTakes` | asgn2/asgn.c:292-303 | A sleeper that signals reach at count 0 has taken a session that is not there after four steps of its own, and the count is -1 (the result of the wait is not looked at) |
| `TaskletWake.TakesAtOnce` | asgn2/asgn.c:292-303 | A read that finds a session closed or bytes unread takes one with its next step |

## Left out

- User-copy faults: every copy to or from user space completes, so the paths of `asgn1/asgn1.c:289-292` and `asgn2/asgn.c:321-325` after a partial copy are not taken.
- User buffers are values, so reading into or writing from the driver's own mapping is not modelled.
- The EFAULT answer of both ioctls to a bad user address.
- Page tables and memory ordering: `remap_pfn_range` is a map update, and a mapping is followed only until the next truncation frees its pages.
- Access-mode checks of the VFS (reading a write-only descriptor) are not part of the drivers and not modelled; `O_ACCMODE` 1 is write-only.
- The machine has fewer than 2^18 page frames in low memory, where `GFP_KERNEL` pages come from, so `num_pages * PAGE_SIZE` does not wrap; this is the only bound put on the disk.
- asgn1 calls are atomic with respect to each other, except for the counters of open (`OpenGate`).
- RamDisk.Disk.Write: requires position plus length below 2^63, as the VFS does.
- RamDisk.Disk.Mmap: the range is page-aligned and below 3 GiB, as the kernel passes it.
- CopyLoops.Fd.MyFwrite: a buffer shorter than 2^31 bytes is required to fit on the machine; one that does not is the subject of `CopyLoops.Fd.WriteCalls`.
- CopyLoops.MmapTest: the changed byte and its value are parameters; `random() % j` with j = 0 (division by zero) is not modelled, nor is the final ioctl.
- MyCat.Cat: `write` is assumed to accept at least one byte when it succeeds, and reads are interrupted finitely often.
- Pipeline: a step that would compute an index or address outside the driver's data, or overflow an `int`, sets `wild`, after which the model says nothing.
- Pipeline: a step system with locked sections, the reader's head and count update and each read as atomic steps; races inside them are not modelled. In each tasklet run the allocator gives one answer, which suffices because 64 bytes never need two pages.
- Pipeline: the step in which a sleeping read goes on may occur in any state; `Delivery.GoodRun` admits it only while a read is asleep.
- Pipeline: once the lock is lost the real handlers spin; the model lets them do nothing.
- Pipeline: list nodes of pages removed by a read are never freed by asgn2; nodes are not counted there.
- OpenGate.OpenBound: counts an open as in flight from its first counter read to its increment or refusal.
- `data_ready` and the wait queues: enqueue, check again, sleep; exclusive wake-one in the lab, wake-all of non-exclusive readers in asgn2. An interrupted exclusive waiter that was already woken hands the wake-up on, as the kernel's abort path does.
- `setgpiofunc`, register access and IRQ requests of `gpio.c`: foreign hardware.
- Module initialisation and registration, cdev, class, proc status output, udev and `printk`.
- `lab03/seek`, `lab03/list`, `lab03/taints`, `lab04`, `read.c`, `write.c` and `seek_test.c`: thin wrappers that would add only easy members.

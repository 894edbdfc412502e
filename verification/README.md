# Protocols and buffers of the drivers, the scheduler and the QEMU devices

A Dafny model of the state machines and buffer transformations of this repository, with proofs of what they do over
whole runs. `dafny verify dfyconfig.toml` checks all of it.

| files | component |
|---|---|
| `VhostMemory.dfy` | vhost memory map: sections are rounded, merged and looked up |
| `VhostSection.dfy`, `VhostDirtyLog.dfy`, `VhostSync.dfy`, `VhostLog.dfy`, `VhostTranslation.dfy` | vhost dirty log: bits of a range, whole syncs, sizes, reference counts, start and stop; its agreement with the memory map |
| `Serial.dfy`, `SerialRegisters.dfy`, `SerialRun.dfy`, `SerialBytes.dfy`, `SerialReceive.dfy`, `SerialInterrupts.dfy`, `SerialDevice.dfy` | 16550A UART: state, register bytes, invariants over runs, the fate of transmitted and of received bytes, interrupts, the device object |
| `LunixProtocol.dfy` | XMesh packet parser of the sensor driver |
| `Scheduler.dfy` | priority round-robin scheduler |
| `VirtioSerial.dfy` | flow control of virtio-serial ports |
| `SpaprVty.dfy`, `Terminal3270.dfy` | virtual terminal ring, 3270 escaping |
| `CryptoRun.dfy`, `AuthLength.dfy`, `TlsRecord.dfy`, `ScatterList.dfy`, `AsyncQueue.dfy` | cryptodev: chunked ciphering, TLS records, page lists, job queue |
| `Bytes.dfy`, `Arithmetic.dfy` | shared facts on sequences and division |

Code that changes state in place is a class or a method over arrays, proved against functions on values; the
properties are proved of those functions, over any run. What the code calls but does not define is a parameter:
backend answers, modem lines, page pinning, and ciphers and hashes, of which only streaming and inversion are asked.

Where the code falls short of what it promises, the exact condition is proved:

- A 3270 command equal to IAC, followed by exactly 1024 bytes IAC, needs one byte more than the output buffer has;
  nothing else overflows it (`Terminal3270.FirstChunkFitsExactly`).
- The vhost log is fetched in chunks of 64 pages, and all pages of a chunk are marked for the section synced first. A
  dirty page of another section in that chunk is marked in its own memory region exactly when both map into one region
  at the same distance (`VhostSync.MarkedInOwnRegion`, `VhostSync.SharedChunkMisreports`). A log that is no longer global
  when its last holder gives it up is freed without its chunks (`VhostLog.Vhost.Unreference`).
- A change of the memory map replaces the sections before the old log is reported. A dirty page of an old section is
  marked in its place exactly when the first new section with a byte in its chunk maps there coherently; otherwise, as
  for a section that moves or goes, it is lost or marked elsewhere (`VhostLog.Vhost.Commit`,
  `VhostSync.MovedSectionLosesPage`). The bits of a log that is kept are reported by the same rule when it is synced, which
  may attribute them to another region (`VhostSync.ReportedAcrossMaps`).
- A ring that is not set up makes the log cover the whole address space, in 2^46 chunks (`VhostLog.UnsetRingSize`).
- The scheduler continues with a removed node exactly when the task behind the current one dies and, HIGH tasks being
  left, is itself HIGH (`Scheduler.State.Die`); a LOW task behind a LOW current one dying among HIGH tasks lets the
  current LOW task keep the processor (`Scheduler.BuriedIsEligible`).
- A hash-only request in the decrypt direction hashes the destination in the zero-copy path and the source in the
  other one (`CryptoRun.PathsAgree`). The comment in main.c only says that hashing follows decryption. More than a page
  of source that overlaps a destination behind it is written over before it is read (`CryptoRun.OverlapLosesByte`).
- An empty destination, which a tag length close to 2^32 brings about, behind a source that fills the page table puts an
  end mark behind the table (`ScatterList.Session.GetUserbuf`, `ScatterList.StrayExample`). An SRTP request without
  an authenticated buffer can succeed on entries of an earlier one (`ScatterList.Session.GetUserbufSrtp`,
  `ScatterList.NullAuthExample`); the distance of its source is cut to 32 bits, and a failed sg_copy goes unnoticed.
- The announced TLS length counts a padding block that a cipher of block size one does not write, and it is computed in
  an int that a large tag length wraps (`TlsRecord.LengthAsAnnounced`, `TlsRecord.WrappedLengthExample`). Without a MAC
  a bad padding is accepted (`TlsRecord.PadIgnoredWithoutMac`). A tag longer than the digest carries old bytes of the hash output, and beyond 64 bytes what lies behind it
  (`TlsRecord.TagShowsStack`, `TlsRecord.AuthAndEncrypt`).
- A merge in the vhost map compares an inclusive with an exclusive end (`VhostMemory.MergeKeepsPrevious`), which is
  harmless for sections in order; a section that shares a page with the previous one may be dropped
  (`VhostMemory.DroppedExactly`, `VhostMemory.MisalignedIsDropped`).
- A UART reset leaves the FIFO enable as it was but clears the bits that report it (`SerialRun.ResetIsOk`). At exactly
  the trigger level serial_can_receive offers no byte, below and above it at least one (`SerialBytes.OffersNothing`,
  `SerialBytes.TriggerLevelOffersNothing`); its comment speaks of the cases below and above only.
- One call of the packet parser drops whatever follows a completed packet (`LunixProtocol.CallsMerge`), and neither
  start nor end byte is compared with its signature. A sensor frame with less than 14 bytes of payload stores bytes of
  earlier packets (`LunixProtocol.UpdateComesFromFrame`).
- A failed allocation of a job item uses up one of the 64 places for good (`AsyncQueue.CryptPriv.CountIsExact`).
- A short write to a virtio console, and any write without a backend, drops data (`VirtioSerial.PassedOverIsDelivered`).

## Model

| member | source | states |
|---|---|---|
| `VhostMemory.TranslatesAccepted` | qemu-3.0.0/hw/virtio/vhost.c:526-631 | for any sections in address order without overlap, every address of every accepted section looks up to the host base of its region plus the section's offset plus its distance from the section's start, with at least the rest of the section behind it |
| `VhostMemory.TranslatesOnlyAccepted` | qemu-3.0.0/hw/virtio/vhost.c:526-631 | every address that resolves lies in a host page of an accepted section, at the same offset from its host address |
| `VhostMemory.AlignedAllAccepted` | qemu-3.0.0/hw/virtio/vhost.c:571-616 | page-aligned sections are never dropped |
| `VhostMemory.AlignedResolvesExactly` | qemu-3.0.0/hw/virtio/vhost.c:881-899 | for page-aligned input an address resolves if and only if some input section contains it |
| `VhostMemory.AddSectionKeepsInv` | qemu-3.0.0/hw/virtio/vhost.c:556-630 | adding, merging or dropping one section keeps the list ordered and disjoint, covering all accepted sections and nothing outside their host pages |
| `VhostMemory.AddAllInv` | qemu-3.0.0/hw/virtio/vhost.c:526-631 | the same over the whole update, with accepted sections coming from the input only |
| `VhostMemory.DecisionMeans` | qemu-3.0.0/hw/virtio/vhost.c:572-616 | in order, a section is added behind the previous one, dropped, or merged into exactly the union of the two page hulls |
| `VhostMemory.MergeKeepsPrevious` | qemu-3.0.0/hw/virtio/vhost.c:593-601 | mixing an inclusive with an exclusive end keeps all of the previous section if and only if the new one, rounded, reaches at least as far |
| `VhostMemory.DroppedExactly` | qemu-3.0.0/hw/virtio/vhost.c:572-616 | a section is dropped if and only if its first host page starts inside the previous section and the two cannot be merged |
| `VhostMemory.MergedExactly` | qemu-3.0.0/hw/virtio/vhost.c:572-605 | two sections are merged if and only if the new one's first host page starts inside the previous section or right behind it, both map into one region at the same distance, and the backend agrees |
| `VhostMemory.NeighboursAreMerged` | qemu-3.0.0/hw/virtio/vhost.c:572-624 | unless the backend vetoes a merge, no entry of the table continues the one in front of it: adjacent coherent sections become one entry |
| `VhostMemory.MisalignedIsDropped` | qemu-3.0.0/hw/virtio/vhost.c:577-583 | a concrete pair of ordered, disjoint sections inside one page of which the second is dropped |
| `VhostMemory.VhostDev.Begin` | qemu-3.0.0/hw/virtio/vhost.c:411-417 | an update starts with an empty list |
| `VhostMemory.VhostDev.RoundToPages` | qemu-3.0.0/hw/virtio/vhost.c:540-552 | start aligned down and size up to the page size of the block |
| `VhostMemory.VhostDev.RegionAddSection` | qemu-3.0.0/hw/virtio/vhost.c:526-631 | the list becomes what the specification of one section says, updated in place |
| `VhostMemory.VhostDev.Commit` | qemu-3.0.0/hw/virtio/vhost.c:435-469 | the table describes the committed sections, rebuilt only when they changed |
| `VhostMemory.VhostDev.Update` | qemu-3.0.0/hw/virtio/vhost.c:411-469 | one whole update of the memory listener ends with the table of the folded section list |
| `VhostMemory.VhostDev.RegionLookup` | qemu-3.0.0/hw/virtio/vhost.c:881-899 | first region that contains the address, or failure when none does |
| `VhostDirtyLog.ReportsExactly` | qemu-3.0.0/hw/virtio/vhost.c:82-105 | exactly the pages of the set bits of the range are reported, each once and in address order |
| `VhostDirtyLog.MarksExactly` | qemu-3.0.0/hw/virtio/vhost.c:93-103 | a mark is made if and only if its page was dirty, and then in the memory region of the section, at an offset whose distance from the section's offset is the page's distance from the section's guest address |
| `VhostDirtyLog.SyncRegion` | qemu-3.0.0/hw/virtio/vhost.c:63-106 | given the bounds, exactly the chunks of the overlap are cleared, and exactly their set bits are marked, lowest first, each in the section's memory region with `offset - section.off == page - section.gpa` |
| `VhostDirtyLog.SyncChunks` | qemu-3.0.0/hw/virtio/vhost.c:82-105 | the loop over chunks reports the pages of the old contents in order and clears the range |
| `VhostDirtyLog.ReportWord` | qemu-3.0.0/hw/virtio/vhost.c:93-103 | the loop over the bits of a fetched word marks each of its pages once, lowest first |
| `VhostDirtyLog.RunConserves` | qemu-3.0.0/hw/virtio/vhost.c:82-105 | with the backend setting bits between any two steps: every raised bit has been reported exactly as often as it was raised, or is in the log or the fetched word |
| `VhostLog.LogSizeCovers` | qemu-3.0.0/hw/virtio/vhost.c:159-175 | a log of the computed size has a chunk for the last byte of every region and ring |
| `VhostLog.LogSizeIsNeeded` | qemu-3.0.0/hw/virtio/vhost.c:159-175 | and no smaller log has: the last chunk of the computed size holds the last byte of a region or ring |
| `VhostLog.AssertsHold` | qemu-3.0.0/hw/virtio/vhost.c:79-80 | both bounds asserts hold when the log covers the ranges, and also when it does not but the sync is limited to its own addresses |
| `VhostLog.Dev.GetLogSize` | qemu-3.0.0/hw/virtio/vhost.c:159-175 | the loops compute the number of chunks needed for regions and rings |
| `VhostLog.UnsetRingSize` | qemu-3.0.0/hw/virtio/vhost.c:169-173 | with a ring that is not set up, whose last address wraps around, the log has exactly 2^46 chunks |
| `VhostLog.Dev.SetSections` | qemu-3.0.0/hw/virtio/vhost.c:453-469 | one region for each section |
| `VhostLog.Dev.SyncDirtyBitmap` | qemu-3.0.0/hw/virtio/vhost.c:108-138 | a sync over all regions and rings stays inside the log and leaves exactly the log and the marks of its sweeps, in order |
| `VhostSync.SweptLog` | qemu-3.0.0/hw/virtio/vhost.c:82-105 | over any sequence of region syncs a chunk is emptied if and only if one of them touches it |
| `VhostSync.SweptMarks` | qemu-3.0.0/hw/virtio/vhost.c:82-105 | a page is marked if and only if its bit was set and some region sync touches its chunk, and then for the first one that does |
| `VhostSync.MarkedOnce` | qemu-3.0.0/hw/virtio/vhost.c:88-103 | over any sequence of region syncs no page is marked twice |
| `VhostSync.SweptAppend` | qemu-3.0.0/hw/virtio/vhost.c:125-136 | the syncs of a sequence compose: log and marks of both parts |
| `VhostSync.MarkedForFirstSection` | qemu-3.0.0/hw/virtio/vhost.c:148-157 | after a sync of all sections over the whole log a dirty page is marked if and only if some section reaches its chunk through a region or ring, and then for the first such section in the list |
| `VhostSync.MarkedInOwnRegion` | qemu-3.0.0/hw/virtio/vhost.c:82-101 | a dirty page of a section is marked in its own memory region, as far from the section's offset as the page is from its guest address, if and only if that first section maps into the same region at the same distance |
| `VhostSync.EveryMarkHasPlace` | qemu-3.0.0/hw/virtio/vhost.c:93-103 | every mark of a sync is of a page whose bit was set, in the memory region of one of the sections and at the page's distance from it; a page inside that section is marked inside its part of the region |
| `VhostSync.MarkedBehindHole` | qemu-3.0.0/hw/virtio/vhost.c:96-101 | a concrete section at guest address 2^32 with offset 2^31 in its region: its first page is marked at offset 2^31 |
| `VhostTranslation.MarkIsTranslation` | qemu-3.0.0/hw/virtio/vhost.c:96-101 | a page inside the section it is marked for is marked at exactly the host address to which the device's own memory table translates it |
| `VhostTranslation.MarkIsOriginal` | qemu-3.0.0/hw/virtio/vhost.c:96-101 | and that is the host address which the listener's section gives it, however the sections were rounded and merged |
| `VhostSync.SharedChunkMisreports` | qemu-3.0.0/hw/virtio/vhost.c:82-101 | two concrete sections of different regions in one chunk, with the region table they give: the dirty page of the second is marked in the first region and not in its own |
| `VhostSync.CoveringReports` | qemu-3.0.0/hw/virtio/vhost.c:148-157 | with one region for each section, when sections that share a chunk map coherently into one region, every dirty page with a byte in a section is marked in its own region |
| `VhostSync.MarkedWhereAttributed` | qemu-3.0.0/hw/virtio/vhost.c:140-157 | a sync by any map marks a page where a section, of this map or of an earlier one, has it if and only if the page is dirty and the first section of the map with a byte in its chunk maps there coherently |
| `VhostSync.ReportedAcrossMaps` | qemu-3.0.0/hw/virtio/vhost.c:435-517 | bits set under one section list and reported under another: exactly those pages are marked in their place whose chunks the new list attributes to it |
| `VhostSync.KeptPlacesReport` | qemu-3.0.0/hw/virtio/vhost.c:435-517 | a list that attributes all chunks of the earlier sections to them reports all their dirty pages where they belong |
| `VhostSync.MovedSectionLosesPage` | qemu-3.0.0/hw/virtio/vhost.c:435-517 | a concrete section that moves: its dirty page is not marked at all |
| `VhostLog.Dev.LogSyncRange` | qemu-3.0.0/hw/virtio/vhost.c:148-157 | the loop over the sections: over the whole log it marks exactly what a sync of all sections marks |
| `VhostLog.Dev.LogSync` | qemu-3.0.0/hw/virtio/vhost.c:140-146 | an ordinary sync of a started, logging device needs no more than the coverage invariant, and has exactly the effect of its sweeps |
| `VhostLog.Vhost.LogGet` | qemu-3.0.0/hw/virtio/vhost.c:206-222 | the global log of that kind when it has the size asked for, else a new one without any bit set; one more reference, and the other kind stays |
| `VhostLog.Vhost.Unreference` | qemu-3.0.0/hw/virtio/vhost.c:224-249 | one reference less; without references the log is freed, reported if asked to, and no longer global, otherwise its bits stay; its chunks are released if and only if it was still one of the global logs |
| `VhostLog.Vhost.LogPut` | qemu-3.0.0/hw/virtio/vhost.c:224-253 | the device gives its log up and reference counts stay the number of holders; a freed log has been reported exactly, one with other holders keeps every bit |
| `VhostLog.Vhost.LogResize` | qemu-3.0.0/hw/virtio/vhost.c:261-277 | a log of the new size; the old one is synced inside its own range although the region table was replaced: reported exactly if that frees it, else its bits stay for its other holders; of the sections of an earlier map exactly the pages that the present one attributes to them are marked in their place, now or in a sync of the log that is kept |
| `VhostLog.Vhost.FitLog` | qemu-3.0.0/hw/virtio/vhost.c:492-507 | the log ends between the needed size and that plus the buffer |
| `VhostLog.Vhost.Commit` | qemu-3.0.0/hw/virtio/vhost.c:419-519 | a changed map keeps log coverage, a log no larger than needed plus the buffer, and reference counts; a dirty page of a section of the old map is marked in its place, now if the old log is freed or in a sync by the new map of a log that stays, if and only if the new map attributes its chunk to it |
| `VhostLog.Vhost.MigrationLog` | qemu-3.0.0/hw/virtio/vhost.c:779-806 | switching logging keeps them too; the setting changes only when the backend accepts, and then a started device has a log of the needed size, or none |
| `VhostLog.Vhost.Start` | qemu-3.0.0/hw/virtio/vhost.c:1487-1566 | so does starting, whether it succeeds or fails |
| `VhostLog.Vhost.Stop` | qemu-3.0.0/hw/virtio/vhost.c:1569-1590 | and stopping, which releases the log and, if that frees it, reports exactly its pages |
| `VhostLog.Vhost.NoDanglingLog` | qemu-3.0.0/hw/virtio/vhost.c:206-253 | no device holds a freed log, and the count of a held log is the number of devices that hold it |
| `SerialRun.StepKeepsOk` | qemu-3.0.0/hw/char/serial.c:121-149 | every register access, receive, break, watch, timer or poll callback and reset ends with line and identification register as the rest of the state calls for, DR set in FIFO mode exactly when the receive FIFO holds something, and the transmitter consistent |
| `SerialRun.XmitKeepsOk` | qemu-3.0.0/hw/char/serial.c:237-287 | whatever the backend answers, the transmit loop terminates with the transmitter at rest or waiting for the watch |
| `Serial.RoundOk` | qemu-3.0.0/hw/char/serial.c:239-283 | a round keeps what the asserts at its head need and makes progress |
| `SerialRun.XmitRound` | qemu-3.0.0/hw/char/serial.c:237-287 | one round of the loop, seen from where the whole loop ends |
| `SerialRun.ResetIsOk` | qemu-3.0.0/hw/char/serial.c:864-902 | a reset ends in a consistent state with the line low; the identification register then tells the truth about the FIFOs if and only if they were off |
| `SerialInterrupts.MostUrgentIdentified` | qemu-3.0.0/hw/char/serial.c:121-149 | in every reachable state the line is raised if and only if some enabled source requests it, and the identified one has the highest rank of those requested: line status, timeout, received data, transmitter, modem |
| `SerialInterrupts.ReadIirWithdraws` | qemu-3.0.0/hw/char/serial.c:517-523 | reading the identification withdraws a transmit interrupt when it shows one, and no other request |
| `SerialInterrupts.ReadLsrWithdraws` | qemu-3.0.0/hw/char/serial.c:530-537 | reading the line status withdraws its interrupt and no other |
| `SerialInterrupts.TimeoutRequests` | qemu-3.0.0/hw/char/serial.c:595-601 | the timer requests the timeout interrupt if and only if bytes wait |
| `SerialInterrupts.ReadRbrWithdraws` | qemu-3.0.0/hw/char/serial.c:490-504 | with FIFOs on, a read ends the timeout, and the data interrupt if and only if what is left is below the trigger level; data ready and break go with the last byte |
| `SerialInterrupts.ReadMsrWithdraws` | qemu-3.0.0/hw/char/serial.c:545-553 | outside loopback a read of the modem status shows the lines as sampled and every change since the last read, and leaves no change noted |
| `SerialInterrupts.ChangesAreNoted` | qemu-3.0.0/hw/char/serial.c:202-214 | a changed modem line stays noted, the ring only when it ends |
| `SerialInterrupts.EnableRequests` | qemu-3.0.0/hw/char/serial.c:400-412 | enabling the transmit interrupt requests it at once if and only if the holding register is empty |
| `SerialInterrupts.EnablePolls` | qemu-3.0.0/hw/char/serial.c:380-390 | enabling the modem interrupt samples the lines and starts polling, if the backend has lines; disabling it ends the polling |
| `SerialInterrupts.FlushRequests` | qemu-3.0.0/hw/char/serial.c:416-439 | a flushed receiver is empty, without timeout, data or break to report; a flushed transmitter asks for bytes; the half that is not flushed keeps its bytes; the FIFO enable, its report and the trigger level follow the written bits |
| `SerialInterrupts.WriteThrRequests` | qemu-3.0.0/hw/char/serial.c:239-252 | after a written byte the transmit interrupt is pending if and only if the holding register is empty again |
| `SerialInterrupts.EnableReadsBack` | qemu-3.0.0/hw/char/serial.c:510-516 | a written interrupt enable register reads back in its four low bits |
| `SerialInterrupts.DivisorWritten` | qemu-3.0.0/hw/char/serial.c:345-352 | which accesses, with the latch open, set the divisor, and to what |
| `SerialInterrupts.ResetReads` | qemu-3.0.0/hw/char/serial.c:864-902 | after a reset every register but the modem status reads as the constants of the code, and nothing is requested |
| `SerialBytes.XmitConserves` | qemu-3.0.0/hw/char/serial.c:237-287 | the loop neither loses nor repeats nor reorders a byte, and what left the shift register stays so |
| `SerialBytes.StepConserves` | qemu-3.0.0/hw/char/serial.c:354-370 | an event loses exactly the oldest waiting byte on an overrun, all waiting bytes on a flush, all pending ones on a reset, and adds exactly the byte written |
| `SerialBytes.EveryByteAccounted` | qemu-3.0.0/hw/char/serial.c:237-287 | over every run, resolved, shifting and waiting bytes are the written ones in order of writing, the others being counted as lost |
| `SerialBytes.NothingLostMeansEverythingInFlight` | qemu-3.0.0/hw/char/serial.c:354-370 | they are all the bytes written if and only if no event lost one |
| `SerialBytes.EmptyMeansNothingPending` | qemu-3.0.0/hw/char/serial.c:285-286 | LSR.TEMT is set if and only if no written byte is pending |
| `SerialBytes.RetryLimit` | qemu-3.0.0/hw/char/serial.c:262-279 | the watch that fires after the fourth retry gets rid of the byte in any case |
| `SerialBytes.UnblockedEmpties` | qemu-3.0.0/hw/char/serial.c:237-287 | in loopback, or while the backend does not block, the loop deals with every byte in flight, each once and in order, and ends with the transmitter empty |
| `SerialBytes.BlockedWaits` | qemu-3.0.0/hw/char/serial.c:262-279 | while a backend blocks and can be watched no byte is dealt with, the retry is counted and the watch set |
| `SerialBytes.OfferIsSafe` | qemu-3.0.0/hw/char/serial.c:564-583 | a backend that keeps to what serial_can_receive offers never causes an overrun |
| `SerialBytes.OffersNothing` | qemu-3.0.0/hw/char/serial.c:564-583 | nothing is offered if and only if the FIFO holds exactly the trigger level or is full, or without FIFOs a byte is unread |
| `SerialBytes.TriggerLevelOffersNothing` | qemu-3.0.0/hw/char/serial.c:564-583 | a concrete FIFO of one byte at trigger level one for which nothing is offered |
| `SerialReceive.EveryByteReadInOrder` | qemu-3.0.0/hw/char/serial.c:486-509 | over every run, the bytes that reads of the buffer returned from the FIFO, followed by those still in it, are in order the bytes that arrived from the backend, a break or the loopback, without the ones counted as lost; with none lost they are all of them |
| `SerialReceive.StepReceives` | qemu-3.0.0/hw/char/serial.c:609-631 | for every event: the byte it returns followed by the FIFO it leaves are the first sixteen of those in the FIFO followed by those that arrive; a flush or reset empties it; the single buffer holds the byte that came last |
| `SerialReceive.ReadsOldest` | qemu-3.0.0/hw/char/serial.c:486-500 | a read returns and removes the oldest byte of the FIFO, zero from an empty one, and without FIFOs the single byte |
| `SerialReceive.SingleBufferReadsLatest` | qemu-3.0.0/hw/char/serial.c:498-500 | without FIFOs a read returns the byte that came last, in every state of every run |
| `SerialReceive.XmitTakes` | qemu-3.0.0/hw/char/serial.c:253-261 | in loopback the receiver gets exactly the bytes that leave the shift register, in order, and otherwise none |
| `SerialReceive.OverrunFlagged` | qemu-3.0.0/hw/char/serial.c:111-119 | an overrun is flagged if and only if a byte finds the FIFO full or the single buffer unread |
| `SerialReceive.OfferReachesTrigger` | qemu-3.0.0/hw/char/serial.c:564-583 | below the trigger level a burst reaches it if and only if it has the size the device offers to take |
| `SerialRegisters.LsrMasks` | qemu-3.0.0/hw/char/serial.c:93-123 | or-ing a mask sets the named bits of the line status byte, and a mask tests them together |
| `SerialRegisters.LsrClears` | qemu-3.0.0/hw/char/serial.c:364-425 | and-ing with a complement clears the named bits and no other |
| `SerialRegisters.LsrRoundTrip` | qemu-3.0.0/hw/char/serial.c:239-254 | each test of one bit of the line status byte sees that bit |
| `SerialRegisters.RegisterLayout` | qemu-3.0.0/hw/char/serial.c:121-141 | the positions of the line status and enable bits and the identification codes, in numbers |
| `SerialRegisters.MsrMasks` | qemu-3.0.0/hw/char/serial.c:550-551 | the deltas are tested and cleared together, the levels stay |
| `SerialRegisters.FcrMasks` | qemu-3.0.0/hw/char/serial.c:416-439 | the enable bit and the trigger level stick; a changed enable bit asks for both flushes |
| `SerialRegisters.MslByteIsMsrAfter` | qemu-3.0.0/hw/char/serial.c:202-214 | shifting and exclusive-or set the delta of each changed modem line, of the ring only on its fall |
| `SerialRegisters.IirUpdate` | qemu-3.0.0/hw/char/serial.c:141-141 | recomputing the identification keeps its FIFO bits |
| `SerialRegisters.IirTest` | qemu-3.0.0/hw/char/serial.c:517-523 | the test for a transmit interrupt accepts that cause and no other |
| `SerialRegisters.IerChanged` | qemu-3.0.0/hw/char/serial.c:377-378 | the changed enable bits are those that differ |
| `SerialRegisters.LoopbackWiring` | qemu-3.0.0/hw/char/serial.c:539-544 | in loopback OUT2, OUT1, DTR and RTS read back as DCD, RI, DSR and CTS, without deltas |
| `SerialDevice.SerialState.Identify` | qemu-3.0.0/hw/char/serial.c:121-140 | the identification computed from the register bytes is the code of the interrupt with the highest priority |
| `SerialDevice.SerialState.SampleLines` | qemu-3.0.0/hw/char/serial.c:202-214 | the new modem status byte, and whether a level changed |
| `SerialDevice.SerialState.FlushBits` | qemu-3.0.0/hw/char/serial.c:416-439 | the bits of a FIFO control write that ask for the flushes, with enable bit and trigger level kept |
| `SerialDevice.SerialState.UpdateIrq` | qemu-3.0.0/hw/char/serial.c:121-149 | identification byte and line follow the priority order of the register bytes |
| `SerialDevice.SerialState.UpdateMsl` | qemu-3.0.0/hw/char/serial.c:190-226 | modem status after reading the lines |
| `SerialDevice.SerialState.Receive1` | qemu-3.0.0/hw/char/serial.c:609-631 | FIFO mode stores what fits and flags an overrun; otherwise the buffer register is overwritten |
| `SerialDevice.SerialState.CanReceive` | qemu-3.0.0/hw/char/serial.c:564-583 | the number of bytes offered to the backend |
| `SerialDevice.SerialState.ReceiveBreak` | qemu-3.0.0/hw/char/serial.c:585-592 | a zero byte with the break condition |
| `SerialDevice.SerialState.FifoTimeout` | qemu-3.0.0/hw/char/serial.c:595-601 | the timeout interrupt only with bytes waiting |
| `SerialDevice.SerialState.Xmit` | qemu-3.0.0/hw/char/serial.c:237-287 | the loop with its four asserts computes the specified state |
| `SerialDevice.SerialState.WatchCallback` | qemu-3.0.0/hw/char/serial.c:228-235 | transmission resumes |
| `SerialDevice.SerialState.IoportWrite` | qemu-3.0.0/hw/char/serial.c:337-476 | all register writes |
| `SerialDevice.SerialState.WriteFcr` | qemu-3.0.0/hw/char/serial.c:416-439 | flush, switch and trigger level |
| `SerialDevice.SerialState.WriteIer` | qemu-3.0.0/hw/char/serial.c:377-414 | enable bits, polling, and the transmit interrupt on the rising edge |
| `SerialDevice.SerialState.IoportRead` | qemu-3.0.0/hw/char/serial.c:478-562 | value and state for each register read; the receive buffer as `SerialReceive.ReadsOldest` says |
| `SerialDevice.SerialState.ReadRbr` | qemu-3.0.0/hw/char/serial.c:486-509 | the returned byte followed by the FIFO behind the read is the FIFO before it; zero from an empty FIFO, the single byte without FIFOs; and the whole state behind it |
| `SerialDevice.SerialState.ReadIir` | qemu-3.0.0/hw/char/serial.c:517-523 | the identification byte, withdrawing a transmit interrupt |
| `SerialDevice.SerialState.ReadLsr` | qemu-3.0.0/hw/char/serial.c:530-537 | the line status byte, clearing break and overrun |
| `SerialDevice.SerialState.Reset` | qemu-3.0.0/hw/char/serial.c:864-902 | everything but the FIFO enable and the trigger level |
| `LunixProtocol.RoundTrip` | DriversDev/lunix-tng-helpcode-20181010/lunix-protocol.c:211-267 | any number of frames so encoded, each in any pieces of its own, come out in order and byte for byte |
| `LunixProtocol.FrameParses` | DriversDev/lunix-tng-helpcode-20181010/lunix-protocol.c:133-204 | a frame of any payload length, with its bytes raw, behind 0x7E, or behind 0x7D after an exclusive-or with 0x20, yields exactly that frame and a fresh state |
| `LunixProtocol.Xor20IsXor` | DriversDev/lunix-tng-helpcode-20181010/lunix-protocol.c:165-166 | the parser decodes a byte behind 0x7D by the exclusive-or of its bits with 0x20 |
| `LunixProtocol.SpecialsSpelled` | DriversDev/lunix-tng-helpcode-20181010/lunix-protocol.c:161-170 | the escaped forms of 0x7E and 0x7D are 7D 5E and 7D 5D, or 7E 7E and 7E 7D |
| `LunixProtocol.FramePrefixWaits` | DriversDev/lunix-tng-helpcode-20181010/lunix-protocol.c:133-204 | no proper prefix of it completes a packet |
| `LunixProtocol.ChunkingIsInvisible` | DriversDev/lunix-tng-helpcode-20181010/lunix-protocol.c:211-267 | the pieces in which a packet arrives do not matter |
| `LunixProtocol.FeedSplit` | DriversDev/lunix-tng-helpcode-20181010/lunix-protocol.c:211-267 | if a completes no packet, a then b is a followed by b in one call; if it does, the rest of that call is dropped |
| `LunixProtocol.CallsMerge` | DriversDev/lunix-tng-helpcode-20181010/lunix-protocol.c:211-267 | two calls do what one call with all the bytes does if and only if the first completes no packet or the second has no bytes |
| `LunixProtocol.FeedKeepsInv` | DriversDev/lunix-tng-helpcode-20181010/lunix-protocol.c:151-157 | from every reachable state position follows from field, progress and stored length, an escape is pending only inside an unfinished escaped field, and the overflow branch is not taken |
| `LunixProtocol.InvBoundsPosition` | DriversDev/lunix-tng-helpcode-20181010/lunix-protocol.c:151-157 | the position never exceeds 265 |
| `LunixProtocol.UpdateComesFromFrame` | DriversDev/lunix-tng-helpcode-20181010/lunix-protocol.c:57-83 | the update is a function of the frame alone if and only if its payload has at least 14 bytes, it is no sensor frame, or it names no sensor; else bytes of earlier packets are stored |
| `LunixProtocol.LongFrameUpdates` | DriversDev/lunix-tng-helpcode-20181010/lunix-protocol.c:57-83 | from 14 bytes of payload on a frame with byte 4 equal to 0x0B updates only the node of bytes 9 and 10, with the little-endian words at 18, 20 and 22 |
| `LunixProtocol.Protocol.Init` | DriversDev/lunix-tng-helpcode-20181010/lunix-protocol.c:115-120 | the start state |
| `LunixProtocol.Protocol.ParseState` | DriversDev/lunix-tng-helpcode-20181010/lunix-protocol.c:133-204 | the reading loop of one field |
| `LunixProtocol.Protocol.UpdateSensors` | DriversDev/lunix-tng-helpcode-20181010/lunix-protocol.c:57-83 | sensor values after a packet |
| `LunixProtocol.Protocol.ReceivedBuf` | DriversDev/lunix-tng-helpcode-20181010/lunix-protocol.c:211-267 | one call moves the state as specified and updates sensors exactly when a packet is complete |
| `Scheduler.FairRotation` | Scheduler/scheduler-prio.c:272-290 | without HIGH tasks n stops make each of n tasks current once and end where they began; with h of them, h stops make each HIGH task current once and no LOW one |
| `Scheduler.RunConsistent` | Scheduler/scheduler-prio.c:115-146 | in every state of every run ids and pids are distinct, hashigh counts the HIGH tasks and the ring has nproc + 1 - dead_children of them |
| `Scheduler.EventKeepsConsistent` | Scheduler/scheduler-prio.c:76-290 | each event keeps that |
| `Scheduler.StoppedIsEligible` | Scheduler/scheduler-prio.c:272-290 | a stop hands over to a task that may run |
| `Scheduler.BuriedIsEligible` | Scheduler/scheduler-prio.c:234-265 | so does a death, if and only if it is not that of a LOW successor of a LOW task with HIGH tasks around |
| `Scheduler.NextAfterDeath` | Scheduler/scheduler-prio.c:234-265 | which task that is: the first eligible one in ring order behind the dead task if it was current, behind the current one if not, or the current one itself when the successor dies among HIGH tasks; the others follow in ring order |
| `Scheduler.CreatedIsNext` | Scheduler/scheduler-prio.c:115-146 | a new task is LOW and next behind the current one, the others keep their order |
| `Scheduler.PrioritisedExactly` | Scheduler/scheduler-prio.c:76-110 | with distinct ids exactly the task with the id changes |
| `Scheduler.LosesRingExample` | Scheduler/scheduler-prio.c:234-264 | a concrete run, two tasks made HIGH, to a state in which the death of the successor leaves the scheduler with the removed node |
| `Scheduler.LoseRing` | Scheduler/scheduler-prio.c:234-264 | the same calls on the linked ring: the current node is no longer in it |
| `Scheduler.State.constructor` | Scheduler/scheduler-prio.c:500-520 | the initial ring is one cycle over shell and tasks |
| `Scheduler.State.CreateTask` | Scheduler/scheduler-prio.c:115-146 | a LOW task with a new id right behind the current one, in an intact ring |
| `Scheduler.State.SetPriority` | Scheduler/scheduler-prio.c:76-110 | the first task with the id changes, the count follows, the ring does not |
| `Scheduler.State.Stop` | Scheduler/scheduler-prio.c:272-290 | the ring turned to the next eligible task |
| `Scheduler.State.Unlink` | Scheduler/scheduler-prio.c:247-248 | the ring without the node is again one cycle with next and prev inverse |
| `Scheduler.State.Die` | Scheduler/scheduler-prio.c:235-271 | after any death but the last one the ring is intact and turned as specified, if and only if the scheduler does not end on the removed node |
| `VirtioSerial.Port.DeliveredInOrder` | qemu-3.0.0/hw/char/virtio-serial-bus.c:157-209 | in every reachable state the bytes a backend took are in order those the port is done with, without the lost ones; with none lost they are a prefix of the guest stream that covers the returned elements |
| `VirtioSerial.ProgressIsPrefix` | qemu-3.0.0/hw/char/virtio-serial-bus.c:180-207 | position and returned elements mark a prefix of the stream, all of it when nothing is left |
| `VirtioSerial.PassedOverIsDelivered` | qemu-3.0.0/hw/char/virtio-console.c:47-103 | no byte is passed over that no backend took if and only if there is none, or a backend is connected and the port is no console or the write was not short |
| `VirtioSerial.AccountedNext` | qemu-3.0.0/hw/char/virtio-serial-bus.c:181-199 | passing over more bytes than a backend took keeps the order of the delivered ones and counts the others |
| `Bytes.NothingLost` | qemu-3.0.0/hw/char/virtio-serial-bus.c:181-199 | everything passed over was delivered if and only if none was lost |
| `VirtioSerial.Port.FlushBuffer` | qemu-3.0.0/hw/char/virtio-serial-bus.c:181-199 | a buffer done with, or the position saved: the port is throttled if and only if a connected backend that is no console's takes less than the rest of the buffer, and then in front of the first byte it did not take |
| `VirtioSerial.Port.HaveData` | qemu-3.0.0/hw/char/virtio-console.c:47-103 | a port is throttled if and only if its connected backend takes less than it is given and it is no console; the backend gets the first bytes of the buffer |
| `VirtioSerial.Port.FlushElement` | qemu-3.0.0/hw/char/virtio-serial-bus.c:180-200 | the buffers of an element from the saved position on; it throttles only in front of a byte that the backend did not take, and never when that takes every write in full |
| `VirtioSerial.Port.DoFlushQueuedData` | qemu-3.0.0/hw/char/virtio-serial-bus.c:157-209 | for all answers of the backend: works until throttled or everything offered has been returned; a newly throttled port holds a byte the backend did not take; one whose backend takes every write in full ends unthrottled, with no byte lost and every remaining byte delivered; bytes are lost only on a console or without a backend |
| `VirtioSerial.Port.HandleOutput` | qemu-3.0.0/hw/char/virtio-serial-bus.c:496-513 | a kick of an open port, with the same outcome |
| `VirtioSerial.Port.ThrottlePort` | qemu-3.0.0/hw/char/virtio-serial-bus.c:329-341 | throttling, and scheduling of the bottom half |
| `VirtioSerial.Port.FlushQueuedDataBh` | qemu-3.0.0/hw/char/virtio-serial-bus.c:322-327 | the bottom half, with the same outcome |
| `SpaprVty.RunFaithful` | qemu-3.0.0/hw/char/spapr_vty.c:31-84 | over any run of receives and reads the replies, concatenated and stripped, are the accepted bytes up to what is still queued |
| `SpaprVty.StripExpand` | qemu-3.0.0/hw/char/spapr_vty.c:62-71 | removing the NUL behind each CR undoes the insertion, also with NULs in the stream |
| `SpaprVty.FittingIsLongest` | qemu-3.0.0/hw/char/spapr_vty.c:59-79 | a reply is the longest one that fits and splits no CR from its NUL |
| `SpaprVty.ReplyKeepsPairs` | qemu-3.0.0/hw/char/spapr_vty.c:68-77 | each reply is an expansion by itself |
| `SpaprVty.IndexArithmetic` | qemu-3.0.0/hw/char/spapr_vty.c:24-50 | the wrap of the 32-bit indices changes neither slot nor fill |
| `SpaprVty.Device.CanReceive` | qemu-3.0.0/hw/char/spapr_vty.c:24-29 | the free space |
| `SpaprVty.Device.Receive` | qemu-3.0.0/hw/char/spapr_vty.c:31-52 | the ring takes what fits and pulses the line when data meets an empty ring |
| `SpaprVty.Device.GetChars` | qemu-3.0.0/hw/char/spapr_vty.c:54-84 | the reply and the ring after it |
| `Terminal3270.InsertIacEscapeChar` | qemu-3.0.0/hw/char/terminal3270.c:205-225 | in place, every IAC is doubled, although the loop stops early and overwrites its input |
| `Terminal3270.DecodeEscape` | qemu-3.0.0/hw/char/terminal3270.c:204-225 | a receiver following RFC 854 recovers the data from its escaped form |
| `Terminal3270.FirstChunkFitsExactly` | qemu-3.0.0/hw/char/terminal3270.c:236-264 | the first chunk fits into the buffer if and only if it is not the command IAC with 1024 bytes IAC and nothing more |
| `Terminal3270.SentDecodes` | qemu-3.0.0/hw/char/terminal3270.c:254-268 | all chunks decode to the command and the whole data stream |
| `Terminal3270.Terminal.Transmit` | qemu-3.0.0/hw/char/terminal3270.c:255-268 | the chunking loop |
| `Terminal3270.Terminal.WritePayload` | qemu-3.0.0/hw/char/terminal3270.c:231-270 | what is sent, consumed and returned for every command and stream, stopping at the first failed write and not before, or that the end mark goes beyond the buffer, which happens exactly for IAC with 1024 bytes IAC |
| `CryptoRun.ChunkedEqualsWhole` | Chat/cryptodev/cryptodev-linux-1.9/main.c:104-182 | page by page or at once: the same output, hash input and final IV, for both directions |
| `CryptoRun.PathsAgree` | Chat/cryptodev/cryptodev-linux-1.9/main.c:80-95 | both paths leave the same session and destination if and only if the request is no hash-only decrypt with different buffer contents |
| `CryptoRun.WholeHashes` | Chat/cryptodev/cryptodev-linux-1.9/main.c:56-100 | what is hashed in one pass: the source when encrypting, the destination as it is afterwards when decrypting, which without a cipher is as it was |
| `CryptoRun.BothHashPlaintext` | Chat/cryptodev/cryptodev-linux-1.9/main.c:66-95 | encrypting and then decrypting feeds both hashes the same bytes, the plaintext |
| `CryptoRun.PagesHash` | Chat/cryptodev/cryptodev-linux-1.9/main.c:126-155 | page by page, for any overlap: deciphering hashes all of the final destination; enciphering, or hashing only, all of the source, if no page is written over source bytes still to be read |
| `CryptoRun.ChunkedRoundTrip` | Chat/cryptodev/cryptodev-linux-1.9/main.c:104-159 | decrypting what was encrypted restores it, however both are chunked |
| `CryptoRun.BlockwiseStreams` | Chat/cryptodev/cryptodev-linux-1.9/main.c:66-95 | work block by block, chaining a value, may be resumed behind whole blocks |
| `CryptoRun.BlockwiseIsStreaming` | Chat/cryptodev/cryptodev-linux-1.9/main.c:66-95 | every mode whose blocks divide a page has the law the theorems above ask for: block chaining, and counter modes of block size 1 that drop the rest of a block |
| `CryptoRun.IntactPagesAgree` | Chat/cryptodev/cryptodev-linux-1.9/main.c:126-155 | page by page is all at once, for every cipher, memory and overlap in which no page is written over source bytes still to be read |
| `CryptoRun.OverlapLosesByte` | Chat/cryptodev/cryptodev-linux-1.9/main.c:126-155 | for every other overlap a memory in which copying page by page loses a byte |
| `CryptoRun.Session.HashAndCrypt` | Chat/cryptodev/cryptodev-linux-1.9/main.c:56-100 | the hash gets the source when encrypting, before ciphering, and the deciphered destination when decrypting; output and IV are the cipher's |
| `CryptoRun.Session.RunStd` | Chat/cryptodev/cryptodev-linux-1.9/main.c:104-159 | through the bounce buffer, page by page in one memory, also when source and destination overlap; the hash gets all of the final destination when deciphering, and otherwise all of the source that was not written over unread |
| `CryptoRun.Session.RunZc` | Chat/cryptodev/cryptodev-linux-1.9/main.c:164-182 | all at once for equal or disjoint buffers, or page by page when pages cannot be had; nothing else is written; the hash as in the other path |
| `CryptoRun.Session.Run` | Chat/cryptodev/cryptodev-linux-1.9/main.c:210-245 | block size check and choice of the path; unless buffers overlap in a way that the path does not bear or the paths disagree, the output of the cipher on the whole source, and the hash of the source when encrypting and of the result when decrypting |
| `TlsRecord.RoundTrip` | Chat/cryptodev/cryptodev-linux-1.9/authenc.c:354-471 | decryption restores every text and its length if and only if there is no MAC, or the tag lies inside the hash output and both sides find the same bytes behind the digest |
| `TlsRecord.TagShowsStack` | Chat/cryptodev/cryptodev-linux-1.9/authenc.c:386-393 | a tag no longer than the digest is part of it; a longer one also shows what the hash output held before |
| `TlsRecord.OpenAcceptsExactly` | Chat/cryptodev/cryptodev-linux-1.9/authenc.c:409-467 | with MAC and block cipher a record is accepted with a text if and only if the tag length is permitted and it deciphers to that text, its MAC and a uniform padding |
| `TlsRecord.RefusalsExactly` | Chat/cryptodev/cryptodev-linux-1.9/authenc.c:409-467 | a record is invalid if and only if its tag is longer than any digest or than what the padding leaves, and a bad message if and only if it is neither invalid nor some text with its MAC and a uniform padding |
| `TlsRecord.WrongTagIsBadMessage` | Chat/cryptodev/cryptodev-linux-1.9/authenc.c:430-467 | a text with a tag that is not its own, or behind a bad padding, is a bad message |
| `TlsRecord.LengthAsAnnounced` | Chat/cryptodev/cryptodev-linux-1.9/authenc.c:193-209 | the encrypted length is the announced one if and only if the block size exceeds one and the padded length is an int; then it is never longer |
| `TlsRecord.WrappedLengthExample` | Chat/cryptodev/cryptodev-linux-1.9/authenc.c:193-209 | a concrete tag length for which 32 bytes are announced for a record of 2^32 + 32 |
| `TlsRecord.PadIgnoredWithoutMac` | Chat/cryptodev/cryptodev-linux-1.9/authenc.c:419-430 | without a MAC a bad padding goes unnoticed |
| `TlsRecord.LongTagRefused` | Chat/cryptodev/cryptodev-linux-1.9/authenc.c:430-434 | a tag longer than any digest is refused, whatever the record holds |
| `TlsRecord.PadIsPadding` | Chat/cryptodev/cryptodev-linux-1.9/authenc.c:327-349 | the verified pads are exactly the uniform ones of section 6.2.3.2 of RFC 5246 |
| `TlsRecord.PadRecord` | Chat/cryptodev/cryptodev-linux-1.9/authenc.c:315-325 | padding written behind the text |
| `TlsRecord.VerifyRecordPad` | Chat/cryptodev/cryptodev-linux-1.9/authenc.c:327-349 | size of a verified pad, or failure |
| `TlsRecord.AuthAndEncrypt` | Chat/cryptodev/cryptodev-linux-1.9/authenc.c:366-408 | tag and padding are appended in place and all of it ciphered, for every tag length; bytes behind the hash output are read if and only if the tag is longer than 64 bytes |
| `TlsRecord.DecryptAndCheck` | Chat/cryptodev/cryptodev-linux-1.9/authenc.c:409-470 | text and length, or the error code |
| `ScatterList.GetUserPages` | Chat/cryptodev/cryptodev-linux-1.9/zc.c:49-94 | exactly the pages of the buffer, entries that denote exactly its bytes, and nothing else touched; an empty buffer marks the entry at its start, which may lie behind the table |
| `ScatterList.HoldsDenotes` | Chat/cryptodev/cryptodev-linux-1.9/zc.c:81-92 | such a table portion is a list of that many entries and denotes the buffer |
| `ScatterList.CopyDenotes` | Chat/cryptodev/cryptodev-linux-1.9/util.c:59-79 | the copy denotes the first bytes; it fits if and only if the list has that many bytes and the copy needs no more than the slots |
| `ScatterList.AdvanceDenotes` | Chat/cryptodev/cryptodev-linux-1.9/util.c:28-53 | exactly the consumed bytes are dropped; nothing is left if and only if all are consumed |
| `ScatterList.SgCopy` | Chat/cryptodev/cryptodev-linux-1.9/util.c:59-79 | the copying loop, its error included |
| `ScatterList.SgAdvance` | Chat/cryptodev/cryptodev-linux-1.9/util.c:28-53 | the advancing loop, in place |
| `ScatterList.SliceTable` | Chat/cryptodev/cryptodev-linux-1.9/authenc.c:162-170 | copied and advanced, the list denotes the bytes from diff to auth_len whenever the copy fits; that it does is not checked |
| `ScatterList.Session.AdjustSgArray` | Chat/cryptodev/cryptodev-linux-1.9/zc.c:96-120 | tables doubled until they are large enough, with their contents, or an error that leaves the size as it was |
| `ScatterList.GrownDoubles` | Chat/cryptodev/cryptodev-linux-1.9/zc.c:96-120 | the size is doubled as often as the pages need, and no oftener |
| `ScatterList.Session.GetUserbuf` | Chat/cryptodev/cryptodev-linux-1.9/zc.c:143-220 | for all arguments both buffers, or the longer length of a shared one; success and each error exactly by table growth and pinning; the end mark leaves the table if and only if an empty destination comes behind a source that fills it |
| `ScatterList.Session.GetUserbufSrtp` | Chat/cryptodev/cryptodev-linux-1.9/authenc.c:105-173 | succeeds exactly under its checks, and the tables denote both views if and only if the authenticated buffer is not null |
| `ScatterList.NullAuthExample` | Chat/cryptodev/cryptodev-linux-1.9/authenc.c:131-156 | a concrete request without an authenticated buffer is accepted, and its list is an entry of an earlier request |
| `ScatterList.EmptyDestination` | Chat/cryptodev/cryptodev-linux-1.9/authenc.c:193-209 | the destination length is zero exactly for the tag lengths that complete the text to 2^32 |
| `ScatterList.StrayExample` | Chat/cryptodev/cryptodev-linux-1.9/authenc.c:687-688 | 32 pages of text and such a tag fill the preallocated table, behind which the end mark goes |
| `AsyncQueue.CryptPriv.FetchedInOrder` | Chat/cryptodev/cryptodev-linux-1.9/ioctl.c:573-641 | jobs come out in the order of queueing, none lost and none twice |
| `AsyncQueue.CryptPriv.CountIsExact` | Chat/cryptodev/cryptodev-linux-1.9/ioctl.c:580-598 | the counter is the number of items in all places, up to allocations under way or failed, and at most 64 |
| `AsyncQueue.CryptPriv.NoItemTwice` | Chat/cryptodev/cryptodev-linux-1.9/ioctl.c:573-641 | no item is twice on a list, on two lists, or on a list and in a hand |
| `AsyncQueue.CryptPriv.AllocateItems` | Chat/cryptodev/cryptodev-linux-1.9/ioctl.c:482-489 | sixteen new items on the free list, or none and -ENOMEM |
| `AsyncQueue.CryptPriv.Open` | Chat/cryptodev/cryptodev-linux-1.9/ioctl.c:456-508 | an open file has sixteen free items; a failed allocation gives all of them back |
| `AsyncQueue.CryptPriv.SubmitTake` | Chat/cryptodev/cryptodev-linux-1.9/ioctl.c:580-591 | a free item, leave to allocate one, or -EBUSY |
| `AsyncQueue.CryptPriv.SubmitPut` | Chat/cryptodev/cryptodev-linux-1.9/ioctl.c:600-604 | the job goes to the end of the todo list |
| `AsyncQueue.CryptPriv.WorkerTake` | Chat/cryptodev/cryptodev-linux-1.9/ioctl.c:433-436 | the whole todo list moves to the worker |
| `AsyncQueue.CryptPriv.WorkerSplice` | Chat/cryptodev/cryptodev-linux-1.9/ioctl.c:445-448 | handled jobs are appended to the done list |
| `AsyncQueue.CryptPriv.FetchTake` | Chat/cryptodev/cryptodev-linux-1.9/ioctl.c:621-628 | the oldest completed job, or -EBUSY |
| `AsyncQueue.CryptPriv.FetchReturn` | Chat/cryptodev/cryptodev-linux-1.9/ioctl.c:630-635 | the job is copied out and the item is free again |

## Left out

- VhostMemory.AddSectionKeepsInv: assumes that neither a section nor its page hull wraps around 64 bits, and the address order that the memory listener guarantees.
- Which sections vhost takes an interest in, ring mapping checks, the IOMMU and the backend's memory table messages.
- VHOST_LOG_PAGE (4096) and the 64-bit chunk are those of QEMU's vhost.h, which is not part of this repository; VHOST_LOG_BUFFER is a parameter.
- A log word is a set of bit positions; atomic exchange is one step.
- VhostLog.Dev.LogSync: sizes are unbounded, so the overflow of a last address beyond 64 bits is not modelled; a failed allocation of a shared log is not either.
- VirtioSerial.Port.HaveData: the backend's answers are given in advance as a function of the number and length of the write, between -1 and the length; its writability watch is the unthrottling event.
- VirtioSerial.Port.FlushBuffer: a backend that answers a write of no bytes with an error throttles the port without holding a byte; whether one does lies in the character layer, which is not part of this model.
- VirtioSerial: closed ports, unplugged devices and the discarding of queued data, and the emergency write of virtio-serial-bus.c:600, which goes past the queue.
- UART: timers (when they fire is free), baud rate, wakeup, migration, backend change, and the nested receive that accepting input may cause, which is a separate event here.
- SerialDevice.SerialState.Xmit: the backend's answers are given in advance as a function of the round.
- SerialDevice.SerialState.IoportWrite: only the low sixteen bits of a written value are modelled; nothing in the registers depends on the others.
- Lunix: the iteration limit of debugging builds; line discipline, sensor buffers and the character device.
- Scheduler: signals and waiting are events; a failed fork, a waited pid outside the ring and the last death, after which the program ends, are excluded; which process really runs is not modelled.
- Terminal3270.Terminal.WritePayload: says that the one overflowing request overflows, not what then becomes of the memory behind the buffer.
- Terminal3270: negotiation, timing marks and the inbound direction.
- SpaprVty: the hypercalls around the ring.
- CryptoRun.Session.Run: copy faults, hash reset and finalisation and the session table are not modelled; the order of hashing is.
- CryptoRun.Session.RunZc: what a cipher leaves in overlapping, unequal buffers that are handed to it at once is up to the kernel and not modelled.
- TlsRecord.AuthAndEncrypt: what lies behind the hash output is given, the block size is at most 256, and the destination has room for the sealed record; lengths do not wrap.
- TlsRecord.RoundTrip: leaves out the empty record of a session with neither MAC nor cipher.
- ScatterList.Session.GetUserbuf: buffers do not wrap around the address space, so page counts are exact; what an end mark behind the table does to the memory there is not modelled.
- Authenticated modes other than TLS, and their user interface.
- AsyncQueue: sleeping and waking; each locked section is one step, with one worker as the work queue guarantees.
- The other UARTs, the scheduler without priorities, sockets and chat programs, file tools, sensor lookup tables and device registration: simpler members of the same kinds, or plumbing.

# Verified models of the flash stack, the firmware update and three small kernels

The project models six parts of an ESP32 code base and proves what each of them is for.

**Two-core flash/cache handshake** (`cache_utils.dfy`, `cache_progress.dfy`). While one core uses the flash, both caches are
off and the other core waits in a loop in IRAM. The model interleaves single C statements of both
cores: a recursive lock, a mailbox of one slot per core that the IPC task serves in order, two flags,
two loops, context switches and task migration. An invariant is kept by every statement; from it
follow the safety of every state of every run, over any number of rounds, that the lock is free exactly
when it has been given as often as taken, that no run can get stuck, also if the lock owner is pinned to
a core, and that every task can have its turn on either core.

**Flash data path** (`nor_flash.dfy`, `memspi_host.dfy`, `flash_bus.dfy`, `erase_plan.dfy`,
`flash_cache.dfy`, `spi_chip.dfy`, `esp_flash.dfy`, `encrypted_write.dfy`). At the bottom is NOR flash:
programming is bitwise AND, erasing sets 0xFF. The class `SpiChip.Chip` holds the bytes, the
memory-mapped view of them, the write enable latch and a ghost log of everything that goes over the
bus. On top of it are the chip commands, the chunk loops of the generic driver with the slicers of the
SPI host, and the calls of the flash API. What the bus lock, the chip and the timers answer is chosen
freely, so each contract holds for every failure at every place; what is known before a call sends anything
(the checks of the request, the buffer that the allocator has, what reading a half row back would come to) is
a parameter. Three constants say what may be relied
on: a chip that `obeys` executes every command it is sent, provided its write enable latch is set; one
that `responds` becomes idle in time; `encrypts` says that the encryption hardware takes the blocks it
is given. A chip that may still be `working` on a command answers a read with anything.
`FlashBus.Summary` folds the log into what the contracts speak about: the state of the bus, commands the
chip refused or was sent before it was seen to be idle, failed requests and failed `end` calls among them, the
numbers of yields, starts and flushes, the page programs and the erase commands in order. With the failed
requests in the log the calls have exact conditions: on a chip that obeys and responds, and without a failed
request, they succeed if and only if the request was in order.

**Mapping flash pages** (`flash_mmap.dfy`). Lists of pages are merged into runs, the runs are mapped one
by one, and a failure unmaps what was mapped. The driver below may refuse, which it records, or else finds a
range that is mapped already or maps it at a free address.

**Flash simulator** (`spi_flash_sim.dfy`). The simulator that the host tests use, with a flag per sector
that it is erased and wear counters, and the mock of the erase call.

**Firmware update** (`ota_spec.dfy`, `ota_properties.dfy`, `ota_runs.dfy`, `ota_final_check.dfy`,
`ota_handler.dfy`). The class
`OtaHandler.Handler` follows the C++ class method by method and is proved against functions from state
to state; the guarantees are proved about those functions for every sequence of packets, timeouts and
aborts, also after the end, and for every behaviour of the updater, the hash and the callbacks.

**Kernels**: the yield timer over a 32-bit clock (`yield_timer.dfy`), the table-driven CRC-16
(`crc16.dfy`) and Bresenham lines in a frame buffer (`ssd1306_line.dfy`). `arith.dfy` holds facts about
division.

Where the code and its comments, or the code and what one would expect of it, differ, the model follows
the code:

* A command that the chip ignored is reported as the result of disabling writes again, so success does
  not always mean that the chip did what it was told
  (`src/components/spi_flash/spi_flash_chip_generic.c:192-194`, `218-220`, `272-274`). The exact conditions, with the
  failing answers: a page program that reports success was executed if and only if writes were enabled and
  the chip obeys (`SpiChip.SuccessIsTrueExactly`), an erase, which enables writes itself, if and only if the
  chip obeys (`SpiChip.EraseSuccessIsTrueExactly`). Writes are proved to be enabled wherever a command is sent,
  so on a chip that obeys nothing is ever refused, and success of a write, an erase or an encrypted write is
  the full effect, without further conditions. On any other chip it is the full effect if the log shows no
  refusal; and whatever happens, every byte has its old value or the new one.
* A read does not look at the status of the chip (`src/components/spi_flash/spi_flash_chip_generic.c:225-256`): after
  a write or an erase that timed out it reports success for bytes that the flash does not hold. What is read is
  what the flash holds, whatever the chip answers, if and only if the chip is idle
  (`SpiChip.ReadIsTrueExactly`), as it is proved to be after every write and erase that reported success.
* After a failed `end` in the middle of a write or an erase the program calls `end` again
  (`src/components/spi_flash/esp_flash_api.c:689-692`, `1099-1102`). `FlashBus.Disciplined` is exact: an
  operation leaves the bus idle if and only if no `end` failed before its last event.
* Two paths end a write or an erase without a flush, even if something was written already. One is a yield
  that fails (`src/components/spi_flash/esp_flash_api.c:649-653`, `1053-1058`). The hooks that come with the code never
  let it fail: `spi_flash_os_yield` always returns success, and other errors of the check abort
  (`src/components/spi_flash/spi_flash_chip_generic.c:415-426`); the path needs other hooks. The other is that the bus
  is not held any more at the end and the second `start` is refused
  (`src/components/spi_flash/esp_flash_api.c:227-232`): `EspFlash.EndFlushCache` says that it skips the flush exactly
  then. The cache is proved to agree with the flash after success and after every failure whose log shows a
  flush since the call began.
* If the chip reports an error, an encrypted write clears `bus_acquired` and then asserts it
  (`src/components/spi_flash/esp_flash_api.c:1246-1247`). The model returns `Abort` exactly then, with the bus
  still held; a chip that obeys and responds, with encryption hardware that accepts the blocks, never
  gets there.
* On ESP32 a half row is completed with what is read back from the flash, and a failure of that is ignored
  (`src/components/spi_flash/esp_flash_api.c:1189`, `1196`). The range itself is proved to be written
  correctly in any case. Everything around it is kept, whatever is read back, if and only if no row is written
  in half or the other half of each is 0 in the flash already (`EncryptedWrite.OutsideKeptExactly`);
  `EncryptedWrite.LostHalf` gives, for every cipher, what would have to be read to clear all of it.
* The bounds checks add in 32 bits; `EspFlash.BoundsCheckExact` says which requests they let through.
* `spi_flash_mmap_pages` is commented to give one contiguous block of addresses
  (`src/components/spi_flash/flash_mmap.c:210-213`), but nothing checks that the runs are mapped next to
  each other. `FlashMmap.ContiguousExactly`: whatever the memory driver does, they are if and only if each
  page is the successor of the one before; for any other list it has a driver that leaves gaps.
* The number of chunks wraps to 0 for one-byte chunks of an image of 2^32 - 1 bytes; then the update
  would call itself again and again. `OtaRuns.TotalIsPositive` shows that this is the only such
  configuration, and the other lemmas exclude it.
* A restart of the update refills the retries
  (`src/main/include/thingsboard/OTA_Handler.h:212`): restarts are not bounded
  (`OtaRuns.RestartsAreUnbounded`).
* A start that finds the updater or a callback missing ends the update without stopping the watchdog of
  an update that was under way (`src/main/include/thingsboard/OTA_Handler.h:111-115`). Then the
  watchdog fires into an update that is over: it ends it again, requests a chunk, or goes on to the final
  check, which calls the updater, also one that is missing (`OtaRuns.LeftoverWatchdogFires`).
* `Stop_Firmware_Update` does not ask whether an update is running (`OTA_Handler.h:123-130`), although it is
  described as if it did (`src/main/include/thingsboard/ThingsBoard.h:928-933`), and `Cleanup_Subscriptions`
  calls it in any case (`436`). An abort after the end calls both callbacks once more, with failure, also after a
  success; if the update had ended by an abort, it calls a member of the null pointer that the first abort left
  (`OtaProperties.LateAbortEffect`). The model enters that as `NullCall` in the log and ends there.
* A packet of the awaited chunk that arrives after the end is processed (`OTA_Handler.h:137-191`): the update
  goes on although it was told to have failed, or a null pointer is called. `OtaRuns.BoundaryState` is exact: what
  holds between events holds after a run if and only if none of these three things happened in it.
* `OtaRuns.CommitsAreSafe` admits late aborts and excludes late packets; it holds if and only if a leftover
  watchdog does not match the new image in the number of chunks and the digest. A late packet can commit an
  image that the updater did not store: `OtaFinalCheck.LatePacketCommits` says that the commit is safe if and
  only if stored and hashed bytes were still in step, and `OtaFinalCheck.FailedWriteLeavesRest` how they get
  out of step.
* The simulator copies an image into flash whose sectors are flagged erased
  (`src/components/spi_flash/sim/SpiFlash.cpp:66-80`); the flags are right exactly if the image is blank.
* `erase_block` of the simulator drops the results of its sectors and always reports success. All sectors
  of the block are flagged erased afterwards if and only if none of those that were not is worn out and
  the total leaves room for all of them (`SpiFlashSim.AllErasedExactly`); `SpiFlashSim.LimitedEraseBlock`
  is a chip where it reports success over a block that is half erased.

## Model

| member | source | states |
|---|---|---|
| CacheUtils.StepKeepsInv | src/components/spi_flash/cache_utils.c:100-258 | every statement of either core, every lock operation and every context switch keeps the invariant of the handshake |
| CacheUtils.RunsAreSafe | src/components/spi_flash/cache_utils.c:116-258 | in every state of every run the assertions hold; between disabling and restoring, both caches are off, the other core is inside its loop and both cores have scheduler and interrupts off; between rounds everything is restored |
| CacheUtils.LateRestoreIsHarmless | src/components/spi_flash/cache_utils.c:136-140 | when the blocked core restores its cache after the round, no later round has its caches off, and the restore changes neither cache |
| CacheUtils.DisablingIsPaired | src/components/spi_flash/cache_utils.c:118-257 | scheduler and interrupts are switched off only where they are on, and back on on the core that switched them off |
| CacheUtils.NoLostWakeUp | src/components/spi_flash/cache_utils.c:131-138 | a waiting core for which the operation is complete can leave, and no other step takes that away, not even the start of a new round |
| CacheUtils.LockIsCounted | src/components/spi_flash/cache_utils.c:100-108 | in every state of every run the lock is free exactly if it has been given as often as it has been taken, and otherwise its depth is the difference |
| CacheUtils.LockHasOneOwner | src/components/spi_flash/cache_utils.c:100-108 | in every run only the owner gives the lock or takes it again, and only a free lock gets another owner |
| CacheUtils.ProgramOrder | src/components/spi_flash/cache_utils.c:152-258 | the owner executes the statements in the order of the source, and leaves out the request to the other core exactly if the scheduler does not run |
| CacheUtils.FlagsHaveWriters | src/components/spi_flash/cache_utils.c:116-258 | in every run the two flags are written by the statements that write them in the source, with their values, and by nothing else; the scheduler runs exactly from the step on that starts it |
| CacheProgress.HandshakeStepDecreasesRank | src/components/spi_flash/cache_utils.c:152-258 | every statement of the handshake brings the end of the round nearer |
| CacheProgress.HandshakeNeverStuck | src/components/spi_flash/cache_utils.c:179-198 | while a round is unfinished, some statement of it, by the lock owner where its affinity allows it or by a block function in its way, can be executed at once or after one context switch |
| CacheProgress.NeverDeadlocked | src/components/spi_flash/cache_utils.c:116-258 | from the end of every run the round can be finished in a bounded number of steps, its flash operation done exactly once if it has not been yet; both cores are then fully restored, a lock taken once is free and one taken more often is held by the same task, once less; tasks were only switched to cores that the affinity of the lock owner allows |
| CacheProgress.EveryTaskHasItsTurn | src/components/spi_flash/cache_utils.c:100-258 | from the end of every run in which the scheduler has been started, every task on either core can begin a flash operation after what is in progress has been finished, do it once, and leave the lock free |
| NorFlash.EraseWriteRead | src/components/spi_flash/sim/SpiFlash.cpp:185-195 | data programmed anywhere in an erased range is what the range then holds |
| NorFlash.ProgramPadded | src/components/spi_flash/spi_flash_chip_generic.c:286-294 | bytes 0xFF around the data program nothing: padding for DTR alignment is invisible |
| MemspiHost.WriteSliceFits | src/components/spi_flash/memspi_host_driver.c:205-227 | a write slice makes progress, is aligned, stays in one page and 64 bytes, pads by at most one byte at each end, and is as long as these limits allow |
| MemspiHost.WriteSliceStuck | src/components/spi_flash/memspi_host_driver.c:205-227 | for any page size, a write slice carries no data exactly in DTR mode at an odd address that begins a page |
| MemspiHost.ReadSliceFits | src/components/spi_flash/memspi_host_driver.c:229-249 | a read slice makes progress, is aligned, at most 64 bytes long, and as long as that allows |
| FlashBus.StartsMatchEnds | src/components/spi_flash/esp_flash_api.c:184-209 | on a disciplined bus successful starts and ends pair up, starts never nest |
| FlashBus.CommandsOnHeldBus | src/components/spi_flash/esp_flash_api.c:643-698 | on a disciplined bus every program, erase and read command is sent while the bus is held |
| FlashBus.EveryCommandWaits | src/components/spi_flash/spi_flash_chip_generic.c:173-276 | in a log without hasty commands the chip was seen to be idle before every program and erase command, after the command before it |
| FlashBus.EveryProgramFits | src/components/spi_flash/spi_flash_chip_generic.c:284-299 | every page program in the log of a chip is at most 64 bytes, stays in its page and in the chip |
| SpiChip.SuccessIsTrueExactly | src/components/spi_flash/spi_flash_chip_generic.c:258-276 | a page program that reports success did program the page, for all answers of the chip, if and only if writes were enabled and the chip obeys |
| SpiChip.EraseSuccessIsTrueExactly | src/components/spi_flash/spi_flash_chip_generic.c:173-223 | an erase that reports success did erase the unit, for all answers of the chip, if and only if the chip obeys |
| SpiChip.ReadIsTrueExactly | src/components/spi_flash/spi_flash_chip_generic.c:225-256 | what is read is what the flash holds, for all answers of the chip, if and only if the chip is idle |
| SpiChip.Chip.constructor | src/components/spi_flash/include/esp_flash.h:94-107 | a chip at rest with an empty log satisfies the invariant, whatever it may be relied on for |
| SpiChip.Chip.CommandsWait | src/components/spi_flash/spi_flash_chip_generic.c:173-276 | no program or erase command in the log of a chip is sent before the chip was seen to be idle after the last one |
| SpiChip.Chip.WaitIdle | src/components/spi_flash/spi_flash_chip_generic.c:431-478 | idle, not supported, timeout or read error as a function of the polling, the busy flag and the latch: a latch still set after a command is reported as not supported; only a successful polling counts as having seen the chip idle, and as one poll |
| SpiChip.Chip.SetWriteProtect | src/components/spi_flash/spi_flash_chip_generic.c:369-386 | latch and result as functions of what the chip answers; success means the latch has the value asked for, and a chip that obeys and responds always succeeds |
| SpiChip.Chip.HostProgram | src/components/spi_flash/memspi_host_driver.c:168-179 | the data is anded into the flash if and only if the latch was set and the chip executes the command, which an obedient one does; the latch then falls; nothing changes otherwise; the address assertion holds |
| SpiChip.Chip.HostErase | src/components/spi_flash/memspi_host_driver.c:144-165 | the unit is blanked if and only if the latch was set and the chip executes the command, which an obedient one does; nothing changes otherwise |
| SpiChip.Chip.Conclude | src/components/spi_flash/spi_flash_chip_generic.c:266-275 | after a command the chip is busy until it is seen to be idle; a command that was ignored makes the result that of disabling writes |
| SpiChip.Chip.PageProgram | src/components/spi_flash/spi_flash_chip_generic.c:258-276 | result, memory and write enable latch for every answer of the chip; success sends exactly this page program and leaves the chip idle; with the latch set an obedient chip refuses nothing, and if it responds the call succeeds with two polls and without disabling writes |
| SpiChip.Chip.EraseUnit | src/components/spi_flash/spi_flash_chip_generic.c:173-223 | result and memory for every answer of the chip; success sends exactly one erase command and leaves the chip idle; on an obedient chip it is never refused and the unit is blank, and if it responds the call succeeds, with writes enabled once; on any other it is blank if and only if it was not refused, else unchanged |
| SpiChip.Chip.WriteSlice | src/components/spi_flash/spi_flash_chip_generic.c:285-300 | one turn of the write loop enables writes once and programs the next bytes of the data and no others, with the page program that the slicer gives; an obedient chip refuses nothing |
| SpiChip.Chip.Write | src/components/spi_flash/spi_flash_chip_generic.c:278-304 | a write of any length sends the slices of the host in order, or the first of them up to a failure, and nothing else; each byte becomes old and data on an obedient chip, which needs only to respond for the write to succeed; success leaves the chip idle; on failure each byte is old or new |
| SpiChip.Chip.ReadSlice | src/components/spi_flash/spi_flash_chip_generic.c:241-253 | one turn of the read loop copies the next bytes of the flash if the chip is idle, whatever was read besides them |
| SpiChip.Chip.ReadSlices | src/components/spi_flash/spi_flash_chip_generic.c:237-253 | the read loop gets exactly the bytes of the range, in slices, if the chip is idle, and any bytes if it is not |
| SpiChip.Chip.Read | src/components/spi_flash/spi_flash_chip_generic.c:225-256 | a read fills the buffer with exactly the bytes of the range if the chip is idle, with any bytes if it is not, or leaves it alone |
| SpiChip.Chip.CheckAndFlushCache | src/components/spi_flash/flash_mmap.c:355-382 | the mapped pages that overlap the range show the flash again and the others are as before; on ESP32 all do, if one of them overlaps it |
| SpiChip.Chip.FlushCache | src/components/spi_flash/memspi_host_driver.c:128-134 | the flush of the host does so for SPI1 and nothing for other hosts |
| FlashCache.AlignedCoversOverlaps | src/components/spi_flash/flash_mmap.c:358-362 | the pages from the aligned start on for the aligned length are those that overlap the range |
| FlashCache.FlushRestoresCoherence | src/components/spi_flash/esp_flash_api.c:234-239 | flushing the modified range makes the whole memory-mapped view agree with the flash |
| FlashCache.PageMask | src/components/spi_flash/flash_mmap.c:359-361 | masking an address is rounding it down to a page |
| EspFlash.BoundsCheckExact | src/components/spi_flash/esp_flash_api.c:1013-1015 | the bounds check lets through the requests inside the chip and those whose end wraps around into it |
| EspFlash.RegionsOverlapExact | src/components/spi_flash/esp_flash_api.c:1287-1292 | regions overlap if and only if they share an address, or one is empty and lies inside the other |
| EspFlash.ChunksRoundUp | src/components/spi_flash/esp_flash_api.c:1039-1050 | the number of chunks is the length divided by the limit, rounded up |
| EspFlash.EndFlushCache | src/components/spi_flash/esp_flash_api.c:224-241 | the end of an operation flushes unless the bus is not held and its start is refused; it succeeds if and only if the operation did and no request failed, keeps the first error, and leaves the bus idle exactly if no end had failed before |
| EspFlash.WriteChunk | src/components/spi_flash/esp_flash_api.c:1052-1103 | one chunk: what it leaves of bus, memory and log on every path, and the page programs it sends; success comes without a failed request, and without one on a chip that obeys and responds; full effect on success on an obedient chip |
| EspFlash.WriteChunks | src/components/spi_flash/esp_flash_api.c:1037-1107 | the chunk loop refines one write for both chunk sizes, with one yield and one start for each chunk and exactly the page programs of the chunks; success exactly without a failed request on a chip that obeys and responds; full effect on success on an obedient chip |
| EspFlash.NextChunk | src/components/spi_flash/esp_flash_api.c:1039-1050 | a chunk is the next bytes of the data, copied through a buffer of 32 bytes if the chip cannot read it in place |
| EspFlash.Write | src/components/spi_flash/esp_flash_api.c:1002-1122 | success on a chip that obeys (or that refused nothing) makes each byte of the range old and data and changes no other, with one yield and one start for each piece of 8192 bytes, or of 32 bytes if the data has to be copied first; on a chip that obeys and responds and without a failed request it succeeds if and only if the request is admitted and lies in the chip, else nothing is sent; failures leave old or new bytes; bus discipline; a flush covers exactly the pages of the range and is only missing if a yield or a start failed last; the mapped view agrees with the flash after success and after every flush |
| EspFlash.CheckProtection | src/components/spi_flash/esp_flash_api.c:616-641 | succeeds if and only if no request failed and no protected region overlaps the range, and answers protected only for an overlap; without a failed request the log shows the start, the reading of the protection and the end |
| EspFlash.EraseUnits | src/components/spi_flash/esp_flash_api.c:643-694 | the loop sends the planned commands in order, each with its own yield and start, or the first of them up to a failure; it never underflows, and erases exactly the range on a chip that obeys |
| EspFlash.EraseRegion | src/components/spi_flash/esp_flash_api.c:590-699 | on a chip that obeys and responds and without a failed request it succeeds if and only if the request is admitted, names whole sectors of the chip and overlaps no protected region, and answers protected only for such an overlap; it then sends exactly the plan and blanks exactly the range; with a protected overlap nothing is erased; bus discipline; coherence |
| EspFlash.ReadChunk | src/components/spi_flash/esp_flash_api.c:887-910 | one chunk, direct or through the second buffer, always releases the bus; its bytes are those of the flash if the chip is idle; a failed end still leaves them in the buffer |
| EspFlash.Read | src/components/spi_flash/esp_flash_api.c:849-923 | succeeds if and only if the request is admitted and lies in the chip, there is a buffer where one is needed, and no request failed; it fills the buffer with the bytes of the range, with one start for each piece of 16384 bytes or of the size of that buffer, and they are those of the flash if the chip is idle; failure fills it with the pieces whose reading was complete; the bus is idle on every path |
| EspFlash.EraseWriteReadBack | src/components/spi_flash/esp_flash_api.c:590-1122 | erase, write and read back give the data that was written, for all inputs, on every chip that obeys; on one that also responds, and without a failed request, they succeed if and only if the range may be erased and there is a buffer where one is needed |
| ErasePlan.PlanErasesRange | src/components/spi_flash/esp_flash_api.c:662-677 | mixed block and sector erase blanks exactly the range |
| ErasePlan.SameAsSectorBySector | src/components/spi_flash/sim/flash_mock.cpp:107-118 | it gives the same memory as erasing sector by sector |
| ErasePlan.PlanIsExactCover | src/components/spi_flash/esp_flash_api.c:664-679 | the commands are aligned, stay in the range and cover it |
| ErasePlan.PlanIsShortest | src/components/spi_flash/esp_flash_api.c:664-679 | no set of aligned sector and block erases that covers exactly the range has fewer commands |
| EncryptedWrite.EncryptedRoundTrip | src/components/spi_flash/esp_flash_api.c:1124-1285 | what was written encrypted into an erased range decrypts to the data, and nothing else has changed |
| EncryptedWrite.BlockIsOneSlice | src/components/spi_flash/spi_flash_chip_generic.c:320-349 | a naturally aligned block goes out as one page program of exactly its size |
| EncryptedWrite.NaturalBlockInOneGo | src/components/spi_flash/spi_flash_chip_generic.c:322-330 | for such a block the block size chosen is the whole length, so the loop runs once |
| EncryptedWrite.ChipWriteEncrypted | src/components/spi_flash/spi_flash_chip_generic.c:306-367 | one row is written as one block with exactly one page program of its size; success on a chip that obeys programs its encryption; a reliable chip always succeeds, with writes enabled before the block and by the write itself and one wait more than the write needs |
| EncryptedWrite.KindFits | src/components/spi_flash/esp_flash_api.c:1175-1217 | every row is one naturally aligned block in the chip that holds the next piece of data: of 32 bytes on ESP32, elsewhere the longest that address, rest and hardware allow, of 64 bytes only if the hardware takes them |
| EncryptedWrite.PrepareRow | src/components/spi_flash/esp_flash_api.c:1180-1199 | the row is the piece of data, completed where it is a half row by what is read back, right or stale |
| EncryptedWrite.ProgramRow | src/components/spi_flash/esp_flash_api.c:1180-1194 | programming bytes over what the flash holds already changes only what is between them |
| EncryptedWrite.ProgramRowInside | src/components/spi_flash/esp_flash_api.c:1180-1199 | whatever was read back, programming the row programs the piece of data in it |
| EncryptedWrite.LostHalf | src/components/spi_flash/esp_flash_api.c:1181-1196 | for every cipher, memory and request there are halves that clear every byte next to the data |
| EncryptedWrite.OutsideKeptExactly | src/components/spi_flash/esp_flash_api.c:1180-1199 | nothing but the range changes, whatever is read back, if and only if every other half of a row that is written in half is 0 in the flash already |
| EncryptedWrite.RightHalves | src/components/spi_flash/esp_flash_api.c:1180-1199 | with halves read back correctly exactly the range changes, also if the writing stops half way |
| EncryptedWrite.AnyHalves | src/components/spi_flash/esp_flash_api.c:1180-1199 | with any halves the range is written correctly |
| EncryptedWrite.HalvesAtEnds | src/components/spi_flash/esp_flash_api.c:1175-1202 | a row is written in half exactly at an end of the request that is not aligned to 32 bytes, on ESP32 |
| EncryptedWrite.SendRow | src/components/spi_flash/esp_flash_api.c:1229-1260 | one start, one block, one end; Abort exactly if the chip reports an error, and then the bus is still held |
| EncryptedWrite.NextRow | src/components/spi_flash/esp_flash_api.c:1175-1264 | one turn of the loop sends one page program, for the next part of the rows that the data and its halves make up, and programs it in full if nothing was refused |
| EncryptedWrite.WriteEncrypted | src/components/spi_flash/esp_flash_api.c:1124-1285 | the page programs are the rows of the request, one behind the other: 32 bytes each on ESP32, elsewhere the longest aligned blocks of 16, 32 or 64 bytes that the rest and the hardware allow, never 64 if it takes 32 at most; on success all of them, on failure the first. Success on a chip that obeys programs exactly the rows made of the data and the halves read back: the range holds the encryption of the data; nothing else changes if the reading succeeds, as it must for aligned requests, and nothing further than 16 bytes away in any case; a reliable chip without a failed request succeeds if and only if the request is on the main chip, inside it and aligned; Abort, with the bus held, exactly if the chip reports an error; requests that are refused send nothing; else the bus is idle after it |
| FlashMmap.RunsAreExact | src/components/spi_flash/flash_mmap.c:129-149 | the runs expand to the pages in order, and none could be joined to the next |
| FlashMmap.RunsAreUnique | src/components/spi_flash/flash_mmap.c:129-149 | they are the only runs with these two properties |
| FlashMmap.OneRunExactly | src/components/spi_flash/flash_mmap.c:115-127 | a list of pages is a single run if and only if each page is the successor of the one before |
| FlashMmap.ContiguousExactly | src/components/spi_flash/flash_mmap.c:210-213 | every driver maps the runs to one contiguous block of addresses if and only if the pages are consecutive |
| FlashMmap.ShortListsAreValid | src/components/spi_flash/flash_mmap.c:151-157 | products of pages and of run lengths fit an int for every list of fewer than 32768 pages whose addresses do |
| FlashMmap.CountRuns | src/components/spi_flash/flash_mmap.c:115-127 | the number counted is the number of runs |
| FlashMmap.MergePages | src/components/spi_flash/flash_mmap.c:129-149 | the table is filled with the runs; the assertion on its size holds |
| FlashMmap.PagesToBytes | src/components/spi_flash/flash_mmap.c:151-157 | runs become byte ranges without overflow |
| FlashMmap.MappedKeys | src/components/spi_flash/flash_mmap.c:190-222 | mappings added at new addresses and removed again leave what was there before |
| FlashMmap.MmapPages | src/components/spi_flash/flash_mmap.c:159-230 | either every run is mapped in order at an address of its own, or the mappings are as before; if there is memory and the driver does not refuse, it succeeds if and only if no run is mapped already, also by a run in front of it; consecutive pages become one mapping, of exactly their bytes, at the address returned |
| FlashMmap.Mmap | src/components/spi_flash/flash_mmap.c:54-112 | if there is memory and the driver does not refuse, the range is mapped at the address returned: the handle is empty if and only if a mapping held it before, which stays as it is; otherwise it holds that address, mapped to exactly the range; errors change nothing |
| FlashMmap.Munmap | src/components/spi_flash/flash_mmap.c:233-247 | unmapping a handle restores the mappings without it; the assertion holds |
| SpiFlashSim.SpiFlash.constructor | src/components/spi_flash/sim/SpiFlash.cpp:42-81 | the memory is blank but for the image, and the erased flags are right exactly if the image is blank |
| SpiFlashSim.SpiFlash.SetEraseCyclesLimit | src/components/spi_flash/sim/SpiFlash.cpp:241-249 | the counters respect a new limit exactly if none is above it already |
| SpiFlashSim.SpiFlash.EraseSector | src/components/spi_flash/sim/SpiFlash.cpp:124-154 | refused exactly at a limit; counts only real erasures; on a trusted chip the sector is blank even if it was skipped |
| SpiFlashSim.SpiFlash.EraseBlock | src/components/spi_flash/sim/SpiFlash.cpp:112-122 | always reports success; flags and counters are those of erasing sector after sector; all sectors are flagged if and only if the limits have room; a sector that did not get its flag keeps its bytes; on a trusted chip the block is blank if and only if each sector is flagged or was blank; invariants kept |
| SpiFlashSim.AllErasedExactly | src/components/spi_flash/sim/SpiFlash.cpp:112-154 | erasing sectors one after the other flags all of them if and only if none that needs it is worn out and the total leaves room for all that need it; then each of those costs one cycle |
| SpiFlashSim.RangeErasedExactly | src/components/spi_flash/sim/SpiFlash.cpp:112-154 | with right flags, exactly the range has been blanked if and only if each of its sectors is flagged at the end or was blank |
| SpiFlashSim.LimitedEraseBlock | src/components/spi_flash/sim/SpiFlash.cpp:112-122 | a chip with a total limit where the block erase reports success over a block that is half erased |
| SpiFlashSim.SpiFlash.Write | src/components/spi_flash/sim/SpiFlash.cpp:162-198 | ands the data in unless a limit is reached; clears the flags of exactly the sectors it touches, up to the first that is worn out; keeps the flags right |
| SpiFlashSim.SpiFlash.Read | src/components/spi_flash/sim/SpiFlash.cpp:200-224 | returns the bytes unless a limit is reached |
| SpiFlashSim.SpiFlash.EraseRegion | src/components/spi_flash/sim/flash_mock.cpp:107-118 | the mock erase erases sector after sector up to the first that the limits do not allow: result, flags, counters and memory are those of that number of sectors |
| SpiFlashSim.RefusalOfNext | src/components/spi_flash/sim/SpiFlash.cpp:124-154 | erasing one sector after the other, the next one is refused if and only if it is worn out, erased or not, or the total has reached its limit with those that needed it |
| SpiFlashSim.WriteKeepsSound | src/components/spi_flash/sim/SpiFlash.cpp:173-195 | after a write every sector still flagged erased holds nothing but 0xFF |
| SpiFlashSim.CountOneMore | src/components/spi_flash/sim/SpiFlash.cpp:126-148 | the total is the sum over the sectors and no limit is exceeded |
| OtaRuns.CommitsAreSafe | src/main/include/thingsboard/OTA_Handler.h:137-274 | under any packets, timeouts and aborts, also late aborts, updater->end is called only on accepted chunks 0 to total-1 in order, all hashed, with the expected digest, if and only if no watchdog is left over from an update that had as many chunks and the same digest |
| OtaRuns.LeftoverCommits | src/main/include/thingsboard/OTA_Handler.h:103-310 | if one is, the next timeout calls updater->end on an image that was not received |
| OtaRuns.WatchdogAfterStart | src/main/include/thingsboard/OTA_Handler.h:103-118 | after a start the watchdog is off or a request is outstanding, if and only if updater and callbacks are there or no watchdog was running |
| OtaRuns.LeftoverWatchdogFires | src/main/include/thingsboard/OTA_Handler.h:103-310 | otherwise its timeout ends an update that is over again, requests a chunk of it, or finishes it |
| OtaRuns.BoundaryState | src/main/include/thingsboard/OTA_Handler.h:103-310 | between events written and hashed bytes agree and the watchdog runs exactly while a chunk is outstanding; at the end each callback was called once and the watchdog is off: after any run, if and only if no watchdog was left over at the start and no packet or abort came after the end |
| OtaRuns.LateAbortBreaks | src/main/include/thingsboard/ThingsBoard.h:421-437 | an abort after the end of a run calls both callbacks once more, with failure, or the null callback if the end was an abort |
| OtaRuns.CommitsTheImage | src/main/include/thingsboard/OTA_Handler.h:106-274 | with a server that answers each chunk with its slice, what is committed is the image, byte for byte |
| OtaFinalCheck.HonestProgress | src/main/include/thingsboard/OTA_Handler.h:137-274 | as long as an update with an honest server goes on, what is stored and hashed is the beginning of the image, and with the last slice it is the image |
| OtaFinalCheck.HonestServerPassesCheck | src/main/include/thingsboard/OTA_Handler.h:185-260 | in every run with an honest server and the digest of its image, the last accepted chunk is followed by updater->end or an abort, never by a restart or a failure |
| OtaFinalCheck.LatePacketCommits | src/main/include/thingsboard/OTA_Handler.h:137-274 | the last chunk taken after the end commits the update; the commit is safe if and only if stored and hashed bytes were in step |
| OtaFinalCheck.FailedWriteLeavesRest | src/main/include/thingsboard/OTA_Handler.h:163-171 | they are not after a write that failed half way with no retries left |
| OtaRuns.LastChunkEmpty | src/main/include/thingsboard/OTA_Handler.h:106-106 | the last chunk is empty exactly if the chunk size divides the image size |
| OtaRuns.TotalIsPositive | src/main/include/thingsboard/OTA_Handler.h:106-106 | the chunk count is positive except for one configuration |
| OtaRuns.TimeoutsRetry | src/main/include/thingsboard/OTA_Handler.h:279-310 | each timeout up to the number of retries requests the same chunk again |
| OtaRuns.LastTimeoutEnds | src/main/include/thingsboard/OTA_Handler.h:279-310 | the timeout after the last retry ends the update, with one failure callback |
| OtaRuns.RetriesAreRefilled | src/main/include/thingsboard/OTA_Handler.h:185-217 | an accepted chunk and a restart give all retries back |
| OtaRuns.ReactSpendsBudget | src/main/include/thingsboard/OTA_Handler.h:137-310 | every event ends the update, restarts it, is ignored, or lowers the measure of chunks and retries left |
| OtaRuns.RestartFreeRunIsBounded | src/main/include/thingsboard/OTA_Handler.h:137-310 | a run without restarts handles a bounded number of events |
| OtaRuns.RestartsAreUnbounded | src/main/include/thingsboard/OTA_Handler.h:210-217 | an updater whose begin fails makes any number of restarts |
| OtaRuns.NoRetriesNoRestart | src/main/include/thingsboard/OTA_Handler.h:279-305 | without chunk retries nothing is restarted |
| OtaProperties.ReactGood | src/main/include/thingsboard/OTA_Handler.h:123-310 | every possible event that does not come too late keeps the invariant of the update |
| OtaProperties.LateBreaks | src/main/include/thingsboard/OTA_Handler.h:123-310 | a packet that is not ignored, an abort or a timeout after the end leaves the update ended twice, ended with its watchdog running, or in a call through the null pointer |
| OtaProperties.LateAbortEffect | src/main/include/thingsboard/OTA_Handler.h:123-130 | what an abort after the end tells whom |
| OtaHandler.Handler.ProcessFirmwarePacket | src/main/include/thingsboard/OTA_Handler.h:137-191 | the method has the effect of the function the lemmas are about |
| OtaHandler.Handler.FinishFirmwareUpdate | src/main/include/thingsboard/OTA_Handler.h:241-274 | likewise for the final check and commit |
| OtaHandler.Handler.Fail | src/main/include/thingsboard/OTA_Handler.h:279-305 | likewise for the handling of failures, which terminates |
| OtaHandler.Handler.StartFirmwareUpdate | src/main/include/thingsboard/OTA_Handler.h:103-118 | likewise for the start of an update, which leaves a running watchdog as it is if the updater is missing |
| OtaHandler.Handler.StopFirmwareUpdate | src/main/include/thingsboard/OTA_Handler.h:123-130 | likewise for an abort, at any time |
| OtaHandler.Handler.HandleRequestTimeout | src/main/include/thingsboard/OTA_Handler.h:307-310 | likewise for a timeout |
| YieldTimer.AppFunc.OsCheckYield | src/components/spi_flash/spi_flash_os_func_app.c:354-368 | the check and its effect on the two readings |
| YieldTimer.AppFunc.Operate | src/components/spi_flash/spi_flash_chip_generic.c:407-429 | one erase or write step has the effect of one step of the run |
| YieldTimer.StarvationIsBounded | src/components/spi_flash/spi_flash_os_func_app.c:146-388 | at every release the time since the last yield or pause is below the duration plus the longest step, across any number of timer wraps |
| YieldTimer.YieldsExactlyWhenDue | src/components/spi_flash/spi_flash_os_func_app.c:354-368 | if no pause lasts a whole turn of the timer, a yield is requested exactly when it is due |
| YieldTimer.WholeTurnIsMissed | src/components/spi_flash/spi_flash_os_func_app.c:362-366 | a pause of exactly one turn of the timer is missed and a yield requested that is not due |
| Crc16.Crc16 | src/main/include/blue/bt_main.c:156-163 | the loop folds the table step over the buffer |
| Crc16.ShiftFeeds | src/main/include/blue/bt_main.c:146-163 | the shift register of that section of the specification: the generator is fed back exactly if the bit that leaves differs from the one that comes in |
| Crc16.TableIsEightSteps | src/main/include/blue/bt_main.c:34-66 | every table entry is eight steps of the bitwise division of its index |
| Crc16.CrcIsLfsr | src/main/include/blue/bt_main.c:146-163 | for every message and start the check sequence is the shift register of section 3.3.5 of the Bluetooth Core Specification 4.2, Vol 3 Part A, with generator D^16+D^15+D^2+1 |
| Crc16.CrcComposes | src/main/include/blue/bt_main.c:156-163 | the check sequence of a concatenation continues that of its first part |
| Crc16.AppendedCheckIsZero | src/main/include/blue/bt_main.c:156-163 | a message with its own check sequence appended, low byte first, has check sequence 0 |
| Crc16.AdjacentErrorsDetected | src/main/include/blue/bt_main.c:146-163 | different messages of one length that agree outside two adjacent bytes have different check sequences |
| Ssd1306Line.LineIsAccurate | src/components/ssd1306/ssd1306.c:488-529 | every pixel is within half a pixel of the ideal line, on its side of the start point |
| Ssd1306Line.LineEnds | src/components/ssd1306/ssd1306.c:488-529 | the first and the last pixel are the end points |
| Ssd1306Line.LineHasNoDoubles | src/components/ssd1306/ssd1306.c:488-529 | no pixel is plotted twice, so their number is the longer distance plus one |
| Ssd1306Line.ErrorTerm | src/components/ssd1306/ssd1306.c:505-513 | the error term in its range says that the minor coordinate is the nearest one |
| Ssd1306Line.Display.Pixel | src/components/ssd1306/ssd1306.c:469-486 | one pixel gets the wanted state and all others keep theirs |
| Ssd1306Line.Display.PixelIsBit | src/components/ssd1306/ssd1306.c:469-486 | a pixel is bit `1 << (y % 8)` of the byte of its column in page `y / 8` |
| Ssd1306Line.Display.DrawLine | src/components/ssd1306/ssd1306.c:488-529 | exactly the pixels of the line, in order, get the wanted state, all others keep theirs |

## Left out

- EspFlash.Write: null buffers are not modelled; the request is assumed not to wrap around 2^32, which `EspFlash.BoundsCheckExact` shows the code does not check.
- EspFlash.EraseRegion: same assumption on the request; the option that bypasses block erase is the case of a block size of 0.
- EspFlash.Read: same assumption on the request; a buffer of size 0 counts as none; the host below always succeeds in reading, as the memory SPI host does.
- EncryptedWrite.WriteEncrypted: same assumption on the request; the page size is a multiple of 64 and the chip size of 32. The cipher is any invertible function of a 16-byte block and its address; the check of the encryption hardware may refuse anything.
- SpiChip.Chip.Write: in DTR mode page and chip size are assumed to be even (`MemspiHost.WriteSliceStuck` shows what goes wrong otherwise); chips have 24-bit addresses, as the memory SPI host asserts; chips with vendor write routines are not modelled.
- SpiChip.Chip.WaitIdle: the polling loop and its delays are left out; it answers idle, not supported, timeout or a read error.
- SpiFlashSim.SpiFlash.EraseSector: wear counters do not wrap at 2^32.
- YieldTimer.StarvationIsBounded: speaks about erase and write steps, which check before they start; reads do not check, so a task that only reads never yields.
- FlashMmap.MmapPages: esp_mmu_map and esp_mmu_unmap are not part of this model but a contract: the driver may refuse any mapping, else it finds the mapping that holds the range or makes one at a free address; ranges that overlap a mapping in part are mapped like others, and the capabilities argument is left out.
- The variants of the flash lock that use a bus lock or a mutex instead of disabling the caches.
- The single-core and no-OS branches of cache_utils.c.
- Suspend and resume of erase operations, auto-suspend, and the options that verify writes and warn about setting zeros to ones.
- Vendor chip drivers, register access, I/O modes, octal and HPM initialisation.
- Chip erase, chip detection, write protection calls and the statistics counters.
- Reset of the simulator's counters: `reset_erase_cycles` clears only `sizeof` of an expression, so the sum invariant ends there.
- Flipped displays: the pixel routine rotates a byte that it never rotated back, so lines are modelled for displays that are not flipped.
- Messages to the update server, logging, and what a call through a null pointer does.
- The rest of the Bluetooth code, MQTT and HTTP clients, sensors, Wi-Fi and the main loop.

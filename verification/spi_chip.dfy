/** One SPI flash chip: the commands of spi_flash_chip_generic.c on top of the SPI host, down to
    the bytes of the NOR array.

    Whatever the bus lock, the chip and the timers answer is chosen freely by the methods that
    ask. The ghost field log records what goes over the bus. */
module SpiChip {
  import opened ErasePlan
  import opened FlashBus
  import opened FlashCache
  import opened MemspiHost
  import opened NorFlash

  datatype Err =
    | Ok
    | NotSupported   // ESP_ERR_NOT_SUPPORTED: the chip ignored a command
    | NotFound       // ESP_ERR_NOT_FOUND: write enable did not take
    | Timeout
    | InvalidArg
    | InvalidSize
    | NotInitialised
    | UnsupportedChip // ESP_ERR_FLASH_UNSUPPORTED_CHIP
    | Protected      // ESP_ERR_FLASH_PROTECTED
    | NoMem
    | Fail
    | Abort          // an assertion of the program fails

  /** What the polling of the status register comes to. */
  datatype Poll = Polled | TimedOut | PollFailed

  function WaitResult(poll: Poll, busy: bool, wel: bool): Err {
    match poll
    case PollFailed => Fail
    case TimedOut => Timeout
    case Polled => if busy && wel then NotSupported else Ok
  }

  /** Disabling or enabling writes: the polling before it, whether the chip does it, and whether the
      latch can be read back. */
  datatype Latching = Latching(poll: Poll, takes: bool, readsBack: bool)

  function LatchAfter(l: Latching, on: bool, wel: bool): bool {
    if l.poll == Polled && l.takes then !on else wel
  }

  function LatchResult(l: Latching, on: bool, wel: bool): Err {
    if !l.readsBack then Fail
    else if LatchAfter(l, on, wel) == on then NotFound
    else Ok
  }

  /** All that a chip answers to one page program: to the polling before and after the command,
      whether it executes a command that it may execute, and to disabling writes at the end. */
  datatype Answers = Answers(before: Poll, executes: bool, after: Poll, disabling: Latching)

  /** What spi_flash_chip_generic_page_program returns, and whether the page was programmed. */
  function ProgramOutcome(busy: bool, wel: bool, a: Answers): (Err, bool) {
    var waited := WaitResult(a.before, busy, wel);
    if waited != Ok && waited != NotSupported then (waited, false)
    else
      var executed := wel && a.executes;
      var latch := wel && !executed;
      var done := WaitResult(a.after, true, latch);
      if done == NotSupported then (LatchResult(a.disabling, true, latch), executed) else (done, executed)
  }

  /** The write enable latch after it. */
  function LatchLeft(busy: bool, wel: bool, a: Answers): bool {
    var waited := WaitResult(a.before, busy, wel);
    if waited != Ok && waited != NotSupported then wel
    else
      var latch := wel && !a.executes;
      if WaitResult(a.after, true, latch) == NotSupported then LatchAfter(a.disabling, true, latch) else latch
  }

  /** The answers of a chip that, if it obeys, executes what it may execute. */
  predicate Allowed(obeys: bool, a: Answers) {
    obeys ==> a.executes
  }

  /** Success means that the page was programmed, for all answers of the chip. */
  ghost predicate SuccessIsTrue(obeys: bool, wel: bool) {
    forall busy, a :: Allowed(obeys, a) && ProgramOutcome(busy, wel, a).0 == Ok ==> ProgramOutcome(busy, wel, a).1
  }

  /** That holds if and only if writes were enabled and the chip obeys. Without the one, the command
      is ignored and nothing is left to notice; without the other, the latch that is still set is
      noticed, but the report is lost when writes are disabled. */
  lemma SuccessIsTrueExactly(obeys: bool, wel: bool)
    ensures SuccessIsTrue(obeys, wel) <==> obeys && wel
  {
    var ignored := Answers(Polled, obeys, Polled, Latching(Polled, true, true));
    assert Allowed(obeys, ignored);
    assert !(obeys && wel) ==> ProgramOutcome(false, wel, ignored) == (Ok, false);
  }

  /** What a chip answers to an erase: to enabling writes, and then as to a page program. */
  datatype EraseAnswers = EraseAnswers(enabling: Latching, command: Answers)

  /** What spi_flash_chip_generic_erase_sector and _block return, and whether the unit was erased: like a
      page program, but writes are enabled first. */
  function EraseOutcome(busy: bool, wel: bool, a: EraseAnswers): (Err, bool) {
    var enabled := LatchResult(a.enabling, false, wel);
    if enabled != Ok then (enabled, false)
    else ProgramOutcome(busy && a.enabling.poll != Polled, LatchAfter(a.enabling, false, wel), a.command)
  }

  predicate EraseAllowed(obeys: bool, a: EraseAnswers) {
    (obeys ==> a.enabling.takes) && Allowed(obeys, a.command)
  }

  /** Success means that the unit was erased, for all answers of the chip. */
  ghost predicate EraseSuccessIsTrue(obeys: bool) {
    forall busy, wel, a :: EraseAllowed(obeys, a) && EraseOutcome(busy, wel, a).0 == Ok ==> EraseOutcome(busy, wel, a).1
  }

  /** That holds if and only if the chip obeys. */
  lemma EraseSuccessIsTrueExactly(obeys: bool)
    ensures EraseSuccessIsTrue(obeys) <==> obeys
  {
    var latching := Latching(Polled, true, true);
    var ignored := EraseAnswers(latching, Answers(Polled, obeys, Polled, latching));
    assert EraseAllowed(obeys, ignored);
    assert !obeys ==> EraseOutcome(false, false, ignored) == (Ok, false);
  }

  /** What the bus carries in answer to a read: a chip that is still working on a program or an erase
      answers anything. */
  function ReadAnswer(working: bool, content: Bytes, anything: Bytes): Bytes {
    if working && |anything| == |content| then anything else content
  }

  /** What is read is what the flash holds, for all answers of the chip. */
  ghost predicate ReadIsTrue(working: bool) {
    forall content, anything :: ReadAnswer(working, content, anything) == content
  }

  /** No read looks at the status of the chip, so that holds if and only if the chip is idle already. */
  lemma ReadIsTrueExactly(working: bool)
    ensures ReadIsTrue(working) <==> !working
  {
    assert ReadAnswer(working, [0x00], [0x01]) == [0x00] <==> !working;
  }

  /** For every page program the chip was seen to be idle three times, and writes were enabled once. */
  predicate KeptUp(before: Summary, now: Summary) {
    var n := |now.sent| - |before.sent|;
    n >= 0 && now.upkeep == Upkept(before.upkeep, 3 * n, n)
  }

  datatype Region = Region(offset: nat, size: nat)

  const UINT32: nat := 0x1_0000_0000
  const ADDRESSES: nat := 0x100_0000   // 24-bit addresses

  /** The slice of a request lies in the chip and holds the next bytes of the request. */
  predicate Safe(s: Slice, address: nat, len: nat, size: nat) {
    && s.align <= address < s.align + s.len <= size
    && 0 < Payload(s, address, len) <= len
    && address - s.align + Payload(s, address, len) <= s.len
  }

  lemma FitsIsSafe(dtr: bool, address: nat, len: nat, s: Slice, size: nat)
    requires 0 < len && address + len <= size && (dtr ==> size % 2 == 0) && Fits(dtr, address, len, s)
    ensures Safe(s, address, len, size)
  {
  }

  lemma SliceIsSafe(dtr: bool, address: nat, len: nat, pageSize: nat, size: nat)
    requires 0 < len && address + len <= size && pageSize > 0
    requires dtr ==> pageSize % 2 == 0 && size % 2 == 0
    ensures var s := MemspiHost.WriteSlice(dtr, address, len, pageSize);
            && Safe(s, address, len, size) && s.len <= MAX_WRITE_BYTES
            && ProgramFits(Program(s.align, s.len, true), dtr, pageSize, size)
  {
    WriteSliceFits(dtr, address, len, pageSize);
    FitsIsSafe(dtr, address, len, MemspiHost.WriteSlice(dtr, address, len, pageSize), size);
  }

  /** The buffer handed to the host, preset to 0xFF: programming its first len bytes programs the
      piece. */
  method FillBuffer(leftOff: nat, piece: Bytes, len: nat, ghost mem: Bytes, ghost align: nat) returns (sent: Bytes)
    requires leftOff + |piece| <= len <= MAX_WRITE_BYTES && align + len <= |mem|
    ensures |sent| == len && Programmed(mem, align, sent) == Programmed(mem, align + leftOff, piece)
  {
    var rest := MAX_WRITE_BYTES - leftOff - |piece|;
    var buffer := Blank(leftOff) + piece + Blank(rest);
    assert |buffer| == MAX_WRITE_BYTES;
    sent := buffer[..len];
    BlankTail(leftOff, piece, rest, len - leftOff - |piece|);
    ProgramPadded(mem, align, leftOff, piece, len - leftOff - |piece|);
  }

  lemma ReadSliceIsSafe(dtr: bool, address: nat, len: nat, size: nat)
    requires 0 < len && address + len <= size && (dtr ==> size % 2 == 0)
    ensures var s := MemspiHost.ReadSlice(dtr, address, len);
            Safe(s, address, len, size) && s.len <= MAX_READ_BYTES
  {
    ReadSliceFits(dtr, address, len);
    FitsIsSafe(dtr, address, len, MemspiHost.ReadSlice(dtr, address, len), size);
  }

  /** The part that was asked for, of what was read into temp. */
  lemma PieceOfAnswer(temp: Bytes, answer: Bytes, leftOff: nat, dataLen: nat, mem: Bytes, align: nat, idle: bool)
    requires |answer| <= |temp| && leftOff + dataLen <= |answer| && align + |answer| <= |mem|
    requires idle ==> answer == mem[align..align + |answer|]
    ensures var piece := Filled(temp, 0, answer)[leftOff..leftOff + dataLen];
            |piece| == dataLen && (idle ==> piece == mem[align + leftOff..align + leftOff + dataLen])
  {
    SliceOfFilled(temp, answer, leftOff, leftOff + dataLen);
    SliceOfSlice(mem, align, align + |answer|, leftOff, leftOff + dataLen);
  }

  class Chip {
    const size: nat
    const pageSize: nat
    const geometry: Geometry
    const dtr: bool
    const spi1: bool               // the host is SPI1, whose flash is memory-mapped
    const esp32: bool              // a flush synchronises the whole cache
    const regions: seq<Region>     // protectable regions
    const locked: set<nat>         // those of them that are protected
    const obeys: bool              // the chip executes every command, with the latch set where it must be
    const responds: bool           // the chip becomes idle in time and its status can be read
    const encrypts: bool           // the encryption hardware accepts the blocks it is given

    var mem: Bytes
    var cache: Cache
    var busy: bool                 // chip->busy
    var working: bool              // the chip may still be executing a command
    var wel: bool                  // write enable latch of the chip
    ghost var log: seq<Event>
    ghost var summary: Summary     // of the log

    ghost predicate Valid()
      reads this
    {
      && |mem| == size <= ADDRESSES
      && pageSize > 0 && (dtr ==> pageSize % 2 == 0 && size % 2 == 0)
      && PagesExist(size, cache)
      && Recorded(log, summary, dtr, pageSize, size) && summary.hasty == 0
      && (summary.ready ==> !working)
    }

    /** A chip at rest that nothing has been sent to. */
    constructor (mem: Bytes, cache: Cache, pageSize: nat, geometry: Geometry, dtr: bool, spi1: bool, esp32: bool,
                 regions: seq<Region>, locked: set<nat>, obeys: bool, responds: bool, encrypts: bool)
      requires |mem| <= ADDRESSES && pageSize > 0 && (dtr ==> pageSize % 2 == 0 && |mem| % 2 == 0)
      requires PagesExist(|mem|, cache)
      ensures Valid() && summary.bus == Idle && log == [] && !busy && !working && !wel
      ensures size == |mem| && this.mem == mem && this.cache == cache && this.pageSize == pageSize
      ensures this.geometry == geometry && this.dtr == dtr && this.spi1 == spi1 && this.esp32 == esp32
      ensures this.regions == regions && this.locked == locked
      ensures this.obeys == obeys && this.responds == responds && this.encrypts == encrypts
    {
      size := |mem|;
      this.mem, this.cache, this.pageSize, this.geometry := mem, cache, pageSize, geometry;
      this.dtr, this.spi1, this.esp32, this.regions, this.locked := dtr, spi1, esp32, regions, locked;
      this.obeys, this.responds, this.encrypts := obeys, responds, encrypts;
      busy, working, wel, log, summary := false, false, false, [], START;
      RecordNothing(dtr, pageSize, |mem|);
    }

    ghost method Emit(event: Event)
      requires Valid() && ProgramFits(event, dtr, pageSize, size)
      requires (Changes(event) ==> summary.ready) && (event == Ready ==> !working)
      modifies `log, `summary
      ensures Valid() && log == old(log) + [event]
      ensures summary == Next(old(summary), event)
    {
      RecordOneMore(log, summary, event, dtr, pageSize, size);
      log, summary := log + [event], Next(summary, event);
    }

    /** Before every program and erase command in its log the chip was seen to be idle, after the command
        before it. */
    lemma CommandsWait(i: nat) returns (j: nat)
      requires Valid() && i < |log| && Changes(log[i])
      ensures IdleSince(log, j, i)
    {
      RecordedSummary(log, summary, dtr, pageSize, size);
      assert log[..|log|] == log;
      j := EveryCommandWaits(log, |log|, i);
    }

    // -------------------------------------------------------------------------------------
    // Bus lock, yield and cache
    // -------------------------------------------------------------------------------------

    /** rom_spiflash_api_funcs->start. */
    method Start() returns (e: Err)
      requires Valid()
      modifies `log, `summary
      ensures Valid() && e in {Ok, Fail}
      ensures log == old(log) + [Event.Start(e == Ok)] && summary == Next(old(summary), Event.Start(e == Ok))
    {
      var acquired: bool := *;
      e := if acquired then Ok else Fail;
      Emit(Event.Start(acquired));
    }

    /** rom_spiflash_api_funcs->end: the error so far wins over that of the end. */
    method End(err: Err) returns (e: Err)
      requires Valid()
      modifies `log, `summary
      ensures Valid()
      ensures || (e == err && log == old(log) + [Event.End(true)] && summary == Next(old(summary), Event.End(true)))
              || (e == (if err == Ok then Fail else err) && log == old(log) + [Event.End(false)]
                  && summary == Next(old(summary), Event.End(false)))
    {
      var ok: bool := *;
      Emit(Event.End(ok));
      e := if err == Ok && !ok then Fail else err;
    }

    /** spi_flash_chip_generic_yield. */
    method Yield() returns (e: Err)
      requires Valid()
      modifies `log, `summary
      ensures Valid() && e in {Ok, Fail}
      ensures log == old(log) + [Event.Yield(e == Ok)] && summary == Next(old(summary), Event.Yield(e == Ok))
    {
      var ok: bool := *;
      e := if ok then Ok else Fail;
      Emit(Event.Yield(ok));
    }

    /** get_protected_regions, whose answer is locked. */
    method ReadProtection() returns (e: Err)
      requires Valid()
      modifies `log, `summary
      ensures Valid() && e in {Ok, Fail} && log == old(log) + [Event.ReadProtection(e == Ok)]
      ensures summary == Next(old(summary), Event.ReadProtection(e == Ok))
    {
      var ok: bool := *;
      e := if ok then Ok else Fail;
      Emit(Event.ReadProtection(ok));
    }

    /** spi_flash_check_and_flush_cache: visits the MMU pages of the range in order and stops at the
        end of the chip, on ESP32 at the first mapped page. */
    method CheckAndFlushCache(start: nat, length: nat)
      requires Valid() && 0 < length && start + length <= size
      modifies `cache
      ensures Valid() && Flushed(esp32, mem, old(cache), cache, start, length)
    {
      var page := start / MMU_PAGE;
      var pageStart := page * MMU_PAGE;
      var aligned := FlashCache.Aligned(start, length);
      var addr := pageStart;
      ghost var before := cache;
      ghost var end := FlushBegins(esp32, mem, cache, start, length);
      while addr < pageStart + aligned
        invariant addr == page * MMU_PAGE && page <= end
        invariant FlushAt(esp32, mem, before, cache, start, length, page, end)
      {
        FlushNext(esp32, mem, before, cache, start, length, page, end);
        if addr >= size {
          return;
        }
        if page in cache {
          if esp32 {
            cache := map p | p in cache :: PageOf(mem, p);
            FlushAllPages(mem, before, cache, start, length, page);
            return;
          }
          cache := cache[page := PageOf(mem, page)];
        }
        addr, page := addr + MMU_PAGE, page + 1;
      }
      FlushEnds(esp32, mem, before, cache, start, length, end);
    }

    /** memspi_host_flush_cache. */
    method FlushCache(start: nat, length: nat)
      requires Valid() && 0 < length && start + length <= size
      modifies `cache, `log, `summary
      ensures Valid() && summary == Next(old(summary), Flush)
      ensures if spi1 then Flushed(esp32, mem, old(cache), cache, start, length) else cache == old(cache)
    {
      Emit(Flush);
      if spi1 {
        CheckAndFlushCache(start, length);
      }
    }

    // -------------------------------------------------------------------------------------
    // Chip commands
    // -------------------------------------------------------------------------------------

    /** spi_flash_chip_generic_wait_idle: a chip that still has its write enable latch set did
        not accept the command it was sent. */
    method WaitIdle() returns (e: Err, ghost poll: Poll)
      requires Valid() && summary.bus == Held
      modifies `busy, `working, `log, `summary
      ensures Valid() && OnlyReads(old(summary), summary)
      ensures e == WaitResult(poll, old(busy), wel) && (responds ==> poll == Polled)
      ensures busy == (old(busy) && poll != Polled) && (poll == Polled ==> summary.ready)
      ensures working == (old(working) && poll != Polled)
      ensures summary.upkeep == Upkept(old(summary.upkeep), if poll == Polled then 1 else 0, 0)
    {
      var timeout: bool, readFails: bool := *, *;
      if readFails && !responds {
        return Fail, PollFailed;
      }
      if timeout && !responds {
        return Timeout, TimedOut;
      }
      working := false;
      Emit(Ready);
      if busy {
        busy := false;
        if wel {
          return NotSupported, Polled;
        }
      }
      return Ok, Polled;
    }

    /** spi_flash_chip_generic_set_write_protect: the error of the first wait is lost, the result
        is that of reading the latch back. */
    method SetWriteProtect(on: bool) returns (e: Err, ghost l: Latching)
      requires Valid() && summary.bus == Held
      modifies `busy, `working, `wel, `log, `summary
      ensures Valid() && OnlyReads(old(summary), summary)
      ensures e == LatchResult(l, on, old(wel)) && wel == LatchAfter(l, on, old(wel))
      ensures summary.upkeep == if l.poll == Polled then Latched(old(summary.upkeep), on) else old(summary.upkeep)
      ensures (obeys ==> l.takes) && (responds ==> l.poll == Polled && l.readsBack)
      ensures busy == (old(busy) && l.poll != Polled) && working == (old(working) && l.poll != Polled)
    {
      var takes: bool, readable: bool := *, *;
      takes, readable := takes || obeys, readable || responds;
      ghost var poll;
      e, poll := WaitIdle();
      if e == Ok || e == NotSupported {
        if takes {
          wel := !on;
        }
        Emit(WriteProtect(on));
      }
      l := Latching(poll, takes, readable);
      if !readable {
        return Fail, l;
      }
      return if wel == on then NotFound else Ok, l;
    }

    /** memspi_host_program_page: a chip whose latch is not set ignores the command. */
    method HostProgram(data: Bytes, address: nat) returns (ghost executes: bool)
      requires Valid() && address + |data| <= ADDRESSES && address + |data| <= size
      requires ProgramFits(Program(address, |data|, true), dtr, pageSize, size) && summary.ready
      modifies `working, `wel, `log, `summary, `mem
      ensures Valid() && (obeys ==> executes)
      ensures summary == Next(old(summary), Program(address, |data|, old(wel) && executes))
      ensures wel == (old(wel) && !executes) && working == (old(wel) && executes)
      ensures mem == if old(wel) && executes then Programmed(old(mem), address, data) else old(mem)
    {
      var accepted: bool := *;
      accepted := accepted || obeys;
      executes := accepted;
      accepted := accepted && wel;
      if accepted {
        mem := Programmed(mem, address, data);
        wel := false;
      }
      Emit(Program(address, |data|, accepted));
      working := accepted;
    }

    /** memspi_host_erase_sector and memspi_host_erase_block. */
    method HostErase(unit: Command) returns (ghost executes: bool)
      requires Valid() && unit.at < ADDRESSES && unit.at + Size(geometry, unit) <= size && summary.ready
      modifies `working, `wel, `log, `summary, `mem
      ensures Valid() && (obeys ==> executes)
      ensures summary == Next(old(summary), Erase(unit, old(wel) && executes))
      ensures wel == (old(wel) && !executes) && working == (old(wel) && executes)
      ensures mem == if old(wel) && executes then Erased(old(mem), unit.at, Size(geometry, unit)) else old(mem)
    {
      var accepted: bool := *;
      accepted := accepted || obeys;
      executes := accepted;
      accepted := accepted && wel;
      if accepted {
        mem := Erased(mem, unit.at, Size(geometry, unit));
        wel := false;
      }
      Emit(Erase(unit, accepted));
      working := accepted;
    }

    /** The end of a page program and of an erase: the chip is busy until it is seen to be idle, and writes
        are disabled if it ignored the command. */
    method Conclude() returns (e: Err, ghost after: Poll, ghost disabling: Latching)
      requires Valid() && summary.bus == Held
      modifies `busy, `working, `wel, `log, `summary
      ensures Valid() && OnlyReads(old(summary), summary)
      ensures var ignored := WaitResult(after, true, old(wel)) == NotSupported;
              && e == (if ignored then LatchResult(disabling, true, old(wel)) else WaitResult(after, true, old(wel)))
              && wel == if ignored then LatchAfter(disabling, true, old(wel)) else old(wel)
      ensures responds ==> after == Polled
      ensures e == Ok ==> !busy && !working
      ensures after == Polled && !old(wel) ==> summary.upkeep == Upkept(old(summary.upkeep), 1, 0)
    {
      disabling := *;
      busy := true;
      e, after := WaitIdle();
      if e == NotSupported {
        e, disabling := SetWriteProtect(true);
      }
    }

    /** spi_flash_chip_generic_page_program with the host command below it. A command the chip
        did not accept is reported as the result of disabling writes again. */
    method PageProgram(data: Bytes, address: nat) returns (e: Err, ghost a: Answers)
      requires Valid() && address + |data| <= size
      requires ProgramFits(Program(address, |data|, true), dtr, pageSize, size)
      requires summary.bus == Held
      modifies `busy, `working, `wel, `log, `summary, `mem
      ensures Valid() && OnlyCommands(old(summary), summary)
      ensures Allowed(obeys, a) && e == ProgramOutcome(old(busy), old(wel), a).0
      ensures wel == LatchLeft(old(busy), old(wel), a)
      ensures obeys && responds && old(wel) ==> summary.upkeep == Upkept(old(summary.upkeep), 2, 0)
      ensures mem == if ProgramOutcome(old(busy), old(wel), a).1 then Programmed(old(mem), address, data) else old(mem)
      ensures Sent(old(summary.sent), summary.sent, [Slice(address, |data|)], e == Ok)
      ensures e == Ok ==> !busy && !working
      ensures e == Ok ==>
                if summary.refused == old(summary.refused) then mem == Programmed(old(mem), address, data)
                else mem == old(mem) && summary.refused == old(summary.refused) + 1
      ensures obeys && old(wel) ==> summary.refused == old(summary.refused)
      ensures obeys && responds && old(wel) ==> e == Ok
    {
      ghost var executes, before, after, disabling := true, Polled, Polled, Latching(Polled, true, true);
      e, before := WaitIdle();
      if e == Ok || e == NotSupported {
        executes := HostProgram(data, address);
        e, after, disabling := Conclude();
      }
      a := Answers(before, executes, after, disabling);
    }

    /** spi_flash_chip_generic_erase_sector and spi_flash_chip_generic_erase_block, which differ in the
        command and in the number of bytes erased, after writes have been enabled. */
    method SendErase(unit: Command) returns (e: Err, ghost a: Answers)
      requires Valid() && unit.at + Size(geometry, unit) <= size && unit.at < ADDRESSES
      requires summary.bus == Held
      modifies `busy, `working, `wel, `log, `summary, `mem
      ensures Valid() && summary == old(summary).(refused := summary.refused, erases := summary.erases,
                                                  failedBefore := summary.failedBefore, ready := summary.ready,
                                                  upkeep := summary.upkeep)
      ensures Allowed(obeys, a) && e == ProgramOutcome(old(busy), old(wel), a).0
      ensures wel == LatchLeft(old(busy), old(wel), a)
      ensures obeys && responds && old(wel) ==> summary.upkeep == Upkept(old(summary.upkeep), 2, 0)
      ensures var done := ProgramOutcome(old(busy), old(wel), a).1;
              && mem == (if done then Erased(old(mem), unit.at, Size(geometry, unit)) else old(mem))
              && (e == Ok ==> summary.refused == old(summary.refused) + if done then 0 else 1)
      ensures old(summary.refused) <= summary.refused
      ensures obeys && old(wel) ==> summary.refused == old(summary.refused)
      ensures Sent(old(summary.erases), summary.erases, [unit], e == Ok) && (e == Ok ==> !busy && !working)
      ensures obeys && responds && old(wel) ==> e == Ok
    {
      ghost var executes, before, after, disabling := true, Polled, Polled, Latching(Polled, true, true);
      e, before := WaitIdle();
      if e == Ok || e == NotSupported {
        executes := HostErase(unit);
        e, after, disabling := Conclude();
      }
      a := Answers(before, executes, after, disabling);
    }

    /** The whole of it. Enabling writes never answers that it is not supported. */
    method EraseUnit(unit: Command) returns (e: Err, ghost a: EraseAnswers)
      requires Valid() && unit.at + Size(geometry, unit) <= size && unit.at < ADDRESSES
      requires summary.bus == Held
      modifies `busy, `working, `wel, `log, `summary, `mem
      ensures Valid() && summary.bus == Held
      ensures summary.failedEnds == old(summary.failedEnds) && summary.flushes == old(summary.flushes)
      ensures summary.pauses == old(summary.pauses) && summary.starts == old(summary.starts)
      ensures summary.failures == old(summary.failures) && summary.sent == old(summary.sent)
      ensures summary.refused >= old(summary.refused)
      ensures obeys && responds ==> summary.upkeep == Upkept(old(summary.upkeep), 3, 1)
      ensures EraseAllowed(obeys, a) && e == EraseOutcome(old(busy), old(wel), a).0 && e != Protected
      ensures mem == if EraseOutcome(old(busy), old(wel), a).1 then Erased(old(mem), unit.at, Size(geometry, unit))
                     else old(mem)
      ensures Sent(old(summary.erases), summary.erases, [unit], e == Ok) && (e == Ok ==> !busy && !working)
      ensures e == Ok ==>
                if summary.refused == old(summary.refused) then mem == Erased(old(mem), unit.at, Size(geometry, unit))
                else mem == old(mem) && summary.refused == old(summary.refused) + 1
      ensures obeys ==> summary.refused == old(summary.refused)
      ensures obeys && responds ==> e == Ok
    {
      ghost var enabling: Latching, answers: Answers := *, *;
      answers := answers.(executes := answers.executes || obeys);
      e, enabling := SetWriteProtect(false);
      if e == Ok {
        e, answers := SendErase(unit);
      }
      a := EraseAnswers(enabling, answers);
    }

    // -------------------------------------------------------------------------------------
    // Writing and reading any length
    // -------------------------------------------------------------------------------------

    /** Enables writes and sends one page program. */
    method EnableAndProgram(sent: Bytes, address: nat) returns (e: Err, enabled: bool)
      requires Valid() && address + |sent| <= size && summary.bus == Held
      requires ProgramFits(Program(address, |sent|, true), dtr, pageSize, size)
      modifies `busy, `working, `wel, `log, `summary, `mem
      ensures Valid() && OnlyCommands(old(summary), summary)
      ensures Sent(old(summary.sent), summary.sent, [Slice(address, |sent|)], e == Ok)
      ensures e == Ok ==> enabled && !busy && !working
      ensures obeys ==> summary.refused == old(summary.refused)
      ensures obeys && responds ==> e == Ok && summary.upkeep == Upkept(old(summary.upkeep), 3, 1)
      ensures mem == old(mem) || (enabled && mem == Programmed(old(mem), address, sent))
      ensures e == Ok && summary.refused == old(summary.refused) ==> mem == Programmed(old(mem), address, sent)
    {
      ghost var l, a;
      e, l := SetWriteProtect(false);
      enabled := e == Ok;
      if enabled {
        e, a := PageProgram(sent, address);
      }
    }

    /** One turn of spi_flash_chip_generic_write: the next slice of the data, in DTR mode padded
        with bytes that program nothing. */
    method WriteSlice(data: Bytes, address: nat) returns (e: Err, written: nat)
      requires Valid() && 0 < |data| && address + |data| <= size && summary.bus == Held
      modifies `busy, `working, `wel, `log, `summary, `mem
      ensures Valid() && OnlyCommands(old(summary), summary)
      ensures written <= |data|
      ensures var slice := MemspiHost.WriteSlice(dtr, address, |data|, pageSize);
              && Sent(old(summary.sent), summary.sent, [slice], e == Ok)
              && (e == Ok ==> 0 < written == Payload(slice, address, |data|))
      ensures obeys ==> summary.refused == old(summary.refused)
      ensures e == Ok ==> !busy && !working
      ensures obeys && responds ==> e == Ok && summary.upkeep == Upkept(old(summary.upkeep), 3, 1)
      ensures mem == old(mem) || mem == Programmed(old(mem), address, data[..written])
      ensures e == Ok && summary.refused == old(summary.refused) ==>
                mem == Programmed(old(mem), address, data[..written])
    {
      SliceIsSafe(dtr, address, |data|, pageSize, size);
      var slice := MemspiHost.WriteSlice(dtr, address, |data|, pageSize);
      var leftOff := address - slice.align;
      var writeLen := Payload(slice, address, |data|);
      var sent := FillBuffer(leftOff, data[..writeLen], slice.len, mem, slice.align);
      var enabled;
      e, enabled := EnableAndProgram(sent, slice.align);
      written := if enabled then writeLen else 0;
    }

    /** The first done bytes of the data have been programmed, as far as the commands were accepted. */
    ghost predicate Wrote(before: Summary, content: Bytes, address: nat, data: Bytes, done: nat, ok: bool)
      reads this
      requires done <= |data| && address + |data| <= |content|
    {
      && OnlyCommands(before, summary) && (obeys ==> summary.refused == before.refused)
      && (ok && done > 0 ==> !busy && !working) && |summary.sent| >= |before.sent|
      && (obeys && responds ==> KeptUp(before, summary))
      && Progress(content, mem, address, data, done, ok && summary.refused == before.refused)
    }

    /** Writes the next slice of the data. */
    method WriteNext(data: Bytes, address: nat, done: nat, ghost before: Summary, ghost content: Bytes,
                     ghost slice: Slice, ghost n: nat)
      returns (e: Err, next: nat)
      requires Valid() && done < |data| && address + |data| <= size == |content| && summary.bus == Held
      requires Wrote(before, content, address, data, done, true)
      requires slice == MemspiHost.WriteSlice(dtr, address + done, |data| - done, pageSize)
      requires n == Payload(slice, address + done, |data| - done)
      modifies `busy, `working, `wel, `log, `summary, `mem
      ensures Valid() && done <= next <= |data| && (obeys && responds ==> e == Ok)
      ensures Wrote(before, content, address, data, next, e == Ok)
      ensures Sent(old(summary.sent), summary.sent, [slice], e == Ok) && (e == Ok ==> done < next == done + n)
    {
      ghost var was, refused := mem, summary.refused;
      var rest := data[done..];
      var written;
      e, written := WriteSlice(rest, address + done);
      next := done + written;
      NextPiece(data, done, written);
      ProgrammedIsPartly(was, address + done, data[done..next]);
      MoreProgress(content, was, mem, address, data, done, next, refused == before.refused,
                   e == Ok && summary.refused == before.refused);
    }

    /** Where the loop below stands: what it has written, and what it has sent of all the slices. */
    ghost predicate WriteAt(before: Summary, content: Bytes, address: nat, data: Bytes, done: nat, all: seq<Slice>,
                            left: seq<Slice>, e: Err)
      reads this
      requires address + |data| <= |content| && pageSize > 0 && (dtr ==> pageSize % 2 == 0)
    {
      && done <= |data| && Wrote(before, content, address, data, done, e == Ok) && (obeys && responds ==> e == Ok)
      && SentBut(before.sent, summary.sent, all, left, e == Ok)
      && (e == Ok ==> left == Slices(dtr, address + done, |data| - done, pageSize))
    }

    lemma WriteEnds(before: Summary, content: Bytes, address: nat, data: Bytes, done: nat, all: seq<Slice>,
                    left: seq<Slice>, e: Err)
      requires address + |data| <= |content| && pageSize > 0 && (dtr ==> pageSize % 2 == 0)
      requires WriteAt(before, content, address, data, done, all, left, e) && (e == Ok ==> done == |data|)
      ensures Wrote(before, content, address, data, |data|, e == Ok) && Sent(before.sent, summary.sent, all, e == Ok)
    {
      AllSent(before.sent, summary.sent, all, left, e == Ok);
      PartlyOfMore(content, mem, address, data, done);
      assert data[..|data|] == data;
    }

    /** One turn of the loop: the first of the slices that are left. */
    method WriteTurn(data: Bytes, address: nat, done: nat, ghost before: Summary, ghost content: Bytes,
                     ghost all: seq<Slice>, ghost left: seq<Slice>)
      returns (e: Err, next: nat, ghost rest: seq<Slice>)
      requires Valid() && done < |data| && address + |data| <= size == |content| && summary.bus == Held
      requires WriteAt(before, content, address, data, done, all, left, Ok)
      modifies `busy, `working, `wel, `log, `summary, `mem
      ensures Valid() && WriteAt(before, content, address, data, next, all, rest, e) && (e == Ok ==> done < next)
    {
      ghost var sent := summary.sent;
      ghost var slice, n;
      slice, n, rest := FirstSlice(dtr, address + done, |data| - done, pageSize);
      e, next := WriteNext(data, address, done, before, content, slice, n);
      NextSent(before.sent, sent, summary.sent, all, left, [slice], rest, e == Ok);
    }

    /** spi_flash_chip_generic_write: cuts the data at page boundaries and at 64 bytes. */
    method Write(data: Bytes, address: nat) returns (e: Err)
      requires Valid() && address + |data| <= size && summary.bus == Held
      modifies `busy, `working, `wel, `log, `summary, `mem
      ensures Valid() && OnlyCommands(old(summary), summary)
      ensures PartlyProgrammed(old(mem), mem, address, data)
      ensures Sent(old(summary.sent), summary.sent, Slices(dtr, address, |data|, pageSize), e == Ok)
      ensures obeys ==> summary.refused == old(summary.refused)
      ensures e == Ok && |data| > 0 ==> !busy && !working
      ensures obeys && responds ==> e == Ok && KeptUp(old(summary), summary)
      ensures e == Ok && summary.refused == old(summary.refused) ==> mem == Programmed(old(mem), address, data)
    {
      e := Ok;
      var done: nat := 0;
      ghost var before, content, all := summary, mem, Slices(dtr, address, |data|, pageSize);
      ghost var left := all;
      NothingSent(summary.sent, all);
      NoProgress(mem, address, data);
      while e == Ok && done < |data|
        invariant done <= |data| && Valid() && summary.bus == before.bus
        invariant WriteAt(before, content, address, data, done, all, left, e)
        decreases e == Ok, |data| - done
      {
        e, done, left := WriteTurn(data, address, done, before, content, all, left);
      }
      WriteEnds(before, content, address, data, done, all, left, e);
      assert data[..|data|] == data;
    }

    /** memspi_host_read. */
    method HostRead(buffer: array<Byte>, address: nat, len: nat) returns (ghost answer: Bytes)
      requires Valid() && address + len <= size && len <= buffer.Length
      modifies `log, `summary, buffer
      ensures Valid() && summary == Next(old(summary), Event.Read(address, len))
      ensures |answer| == len && (!working ==> answer == mem[address..address + len])
      ensures buffer[..] == Filled(old(buffer[..]), 0, answer)
    {
      var anything: Bytes := *;
      var carried := ReadAnswer(working, mem[address..address + len], anything);
      forall i | 0 <= i < len {
        buffer[i] := carried[i];
      }
      answer := carried;
      Emit(Event.Read(address, len));
    }

    /** One turn of spi_flash_chip_generic_read: the next bytes of the flash, through a buffer of the
        size of a slice. */
    method ReadSlice(address: nat, length: nat) returns (piece: Bytes)
      requires Valid() && 0 < length && address + length <= size && summary.bus == Held
      modifies `log, `summary
      ensures Valid() && summary == AfterReads(old(summary))
      ensures 0 < |piece| <= length && (!working ==> piece == mem[address..address + |piece|])
    {
      var temp := new Byte[MAX_READ_BYTES];
      ReadSliceIsSafe(dtr, address, length, size);
      var slice := MemspiHost.ReadSlice(dtr, address, length);
      var leftOff := address - slice.align;
      var dataLen := Payload(slice, address, length);
      ghost var before := temp[..];
      ghost var answer := HostRead(temp, slice.align, slice.len);
      PieceOfAnswer(before, answer, leftOff, dataLen, mem, slice.align, !working);
      piece := temp[..][leftOff..leftOff + dataLen];
    }

    /** The loop: in DTR mode it reads a byte more at either end than asked. */
    method ReadSlices(buffer: array<Byte>, at: nat, address: nat, length: nat) returns (ghost got: Bytes)
      requires Valid() && address + length <= size && at + length <= buffer.Length && summary.bus == Held
      modifies `log, `summary, buffer
      ensures Valid() && (summary == old(summary) || summary == AfterReads(old(summary)))
      ensures |got| == length && (!working ==> got == mem[address..address + length])
      ensures buffer[..] == Filled(old(buffer[..]), at, got)
    {
      ghost var was, content, first := summary, mem, buffer[..];
      var done := 0;
      got := [];
      FillNothing(first, at);
      while done < length
        invariant 0 <= done <= length && Valid() && |got| == done
        invariant summary == was || summary == AfterReads(was)
        invariant !working ==> got == content[address..address + done]
        invariant buffer[..] == Filled(first, at, got)
      {
        var piece := ReadSlice(address + done, length - done);
        CopyIn(buffer, at + done, piece);
        FillAppend(first, at, got, piece);
        SliceAppend(content, address, done, |piece|);
        done, got := done + |piece|, got + piece;
      }
    }

    /** spi_flash_chip_generic_read. It does not look at the status: what it gets is what the flash
        holds if the chip is idle. */
    method Read(buffer: array<Byte>, at: nat, address: nat, length: nat) returns (e: Err, ghost got: Bytes)
      requires Valid() && address + length <= size && at + length <= buffer.Length && summary.bus == Held
      modifies `log, `summary, buffer
      ensures Valid() && e in {Ok, NotSupported}
      ensures summary == AfterReads(old(summary)).(failures := old(summary.failures) + if e == Ok then 0 else 1)
      ensures e == Ok ==> |got| == length && (!working ==> got == mem[address..address + length])
      ensures buffer[..] == if e == Ok then Filled(old(buffer[..]), at, got) else old(buffer[..])
    {
      var configured: bool := *;
      Emit(Configure(configured));
      if !configured {
        return NotSupported, [];
      }
      got := ReadSlices(buffer, at, address, length);
      e := Ok;
    }
  }
}

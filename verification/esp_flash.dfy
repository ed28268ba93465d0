/** esp_flash_write, esp_flash_read and esp_flash_erase_region of esp_flash_api.c: they cut a
    request into chunks and release the bus between them. */
module EspFlash {
  import opened Arith
  import opened ErasePlan
  import opened FlashBus
  import opened FlashCache
  import opened MemspiHost
  import opened NorFlash
  import opened SpiChip

  const MAX_WRITE_CHUNK: nat := 8192
  const MAX_READ_CHUNK: nat := 16384
  const STACK_BUFFER: nat := 32

  /** The check address > size || address + length > size, added in 32 bits. */
  predicate BoundsRejected(size: nat, address: nat, length: nat) {
    address > size || (address + length) % UINT32 > size
  }

  /** What the check lets through: the requests inside the chip, and those whose end wraps to an
      address inside it. */
  lemma BoundsCheckExact(size: nat, address: nat, length: nat)
    requires size < UINT32 && address < UINT32 && length < UINT32
    ensures !BoundsRejected(size, address, length) <==>
              address + length <= size || (address <= size && UINT32 <= address + length <= UINT32 + size)
  {
  }

  predicate Within(x: nat, start: nat, len: nat) {
    start <= x < start + len
  }

  /** regions_overlap, with the ends computed in 32 bits. */
  predicate RegionsOverlap(aStart: nat, aLen: nat, bStart: nat, bLen: nat) {
    (aStart + aLen) % UINT32 > bStart && (bStart + bLen) % UINT32 > aStart
  }

  /** Some address is in both regions; an empty region counts as overlapping if it lies inside the other
      one. */
  ghost predicate Overlapping(aStart: nat, aLen: nat, bStart: nat, bLen: nat) {
    || (exists x: nat :: Within(x, aStart, aLen) && Within(x, bStart, bLen))
    || (bLen == 0 && aStart < bStart < aStart + aLen)
  }

  /** What the comparison finds. */
  lemma RegionsOverlapExact(aStart: nat, aLen: nat, bStart: nat, bLen: nat)
    requires aStart + aLen < UINT32 && bStart + bLen < UINT32 && aLen > 0
    ensures RegionsOverlap(aStart, aLen, bStart, bLen) <==> Overlapping(aStart, aLen, bStart, bLen)
  {
    if RegionsOverlap(aStart, aLen, bStart, bLen) && bLen > 0 {
      var x := if aStart < bStart then bStart else aStart;
      assert Within(x, aStart, aLen) && Within(x, bStart, bLen);
    }
  }

  /** What is known of a request before anything is sent: whether the chip is initialised and has the
      operation, and whether the operating system lets a write or an erase touch the range. */
  datatype Admission = Admission(initialised: bool, supported: bool, safe: bool)

  /** The checks at the beginning of every call. */
  function Admit(a: Admission): (e: Err)
    ensures e == Ok <==> a.initialised && a.supported && a.safe
    ensures e == NotInitialised <==> !a.initialised
    ensures e == UnsupportedChip ==> !a.supported
    ensures e == InvalidArg <==> a.initialised && a.supported && !a.safe
  {
    if !a.initialised then NotInitialised
    else if !a.supported then UnsupportedChip
    else if !a.safe then InvalidArg
    else Ok
  }

  /** The number of chunks of at most limit bytes that a length is cut into. */
  function Chunks(len: nat, limit: nat): nat
    decreases len
  {
    if len == 0 || limit == 0 then 0 else 1 + Chunks(len - Min(len, limit), limit)
  }

  /** All chunks are full but the last. */
  lemma {:induction false} ChunksRoundUp(len: nat, limit: nat)
    requires limit > 0
    ensures if len == 0 then Chunks(len, limit) == 0
            else (Chunks(len, limit) - 1) * limit < len <= Chunks(len, limit) * limit
    decreases len
  {
    if len > 0 {
      var rest := len - Min(len, limit);
      ChunksRoundUp(rest, limit);
      var k := Chunks(rest, limit);
      assert (k + 1) * limit == k * limit + limit && (k - 1) * limit == k * limit - limit;
    }
  }

  // ---------------------------------------------------------------------------------------
  // The end of every operation
  // ---------------------------------------------------------------------------------------

  /** How a chunk loop may leave the bus, acquired being what the loop remembers of it. A failed
      end leaves acquired set although the bus is idle again. */
  predicate LeftAs(before: Summary, now: Summary, acquired: bool) {
    && now.flushes == before.flushes
    && (|| (now.failedEnds == before.failedEnds && now.bus == if acquired then Held else Idle)
        || (now.failedEnds > before.failedEnds && acquired && now.bus == Idle))
  }

  /** The events at the end of an operation, after the start if the bus was not held. */
  function FlushedSummary(held: Summary, endOk: bool): Summary {
    Next(Next(held, Flush), Event.End(endOk))
  }

  /** What the end of an operation adds to what the loop did. There is no flush exactly if the start was
      refused. */
  predicate Ended(before: Summary, was: Summary, now: Summary, acquired: bool, startRefused: bool, err: Err, e: Err) {
    && Disciplined(before, now) && now.failedBefore == was.failedEnds
    && now.refused == was.refused && now.erases == was.erases && now.sent == was.sent && now.pauses == was.pauses
    && now.starts == was.starts + (if acquired then 0 else 1)
    && now.flushes == before.flushes + (if startRefused then 0 else 1)
    && now.failures >= was.failures && (e == Ok <==> err == Ok && now.failures == was.failures)
    && (if err != Ok then e == err else e in {Ok, Fail})
    && (startRefused ==> !acquired && e != Ok && now.bus == was.bus)
  }

  lemma FlushEnds(before: Summary, now: Summary, acquired: bool, err: Err, endOk: bool)
    requires LeftAs(before, now, acquired)
    ensures var held := if acquired then now else Next(now, Event.Start(true));
            Ended(before, now, FlushedSummary(held, endOk), acquired, false, err,
                  if err == Ok && !endOk then Fail else err)
  {
  }

  lemma RefusedEnds(before: Summary, now: Summary, err: Err)
    requires LeftAs(before, now, false)
    ensures Ended(before, now, Next(now, Event.Start(false)), false, true, err, if err == Ok then Fail else err)
  {
  }

  /** The last thing that happened is that the operation was not let on. */
  predicate GaveUp(log: seq<Event>) {
    log != [] && log[|log| - 1] in {Event.Yield(false), Event.Start(false)}
  }

  /** flash_end_flush_cache. There is no flush exactly if the bus was not held any more and is not given
      again: startRefused. */
  method EndFlushCache(chip: Chip, err: Err, acquired: bool, address: nat, length: nat, ghost before: Summary)
    returns (e: Err, ghost startRefused: bool)
    requires chip.Valid() && 0 < length && address + length <= chip.size
    requires LeftAs(before, chip.summary, acquired)
    modifies chip`cache, chip`log, chip`summary
    ensures chip.Valid() && Ended(before, old(chip.summary), chip.summary, acquired, startRefused, err, e)
    ensures startRefused ==> GaveUp(chip.log)
    ensures if chip.spi1 && !startRefused
            then Flushed(chip.esp32, chip.mem, old(chip.cache), chip.cache, address, length)
            else chip.cache == old(chip.cache)
  {
    startRefused := false;
    ghost var now := chip.summary;
    if !acquired {
      var acquireErr := chip.Start();
      if acquireErr != Ok {
        RefusedEnds(before, now, err);
        return if err == Ok then acquireErr else err, true;
      }
    }
    chip.FlushCache(address, length);
    e := chip.End(err);
    FlushEnds(before, now, acquired, err, true);
    FlushEnds(before, now, acquired, err, false);
  }

  // ---------------------------------------------------------------------------------------
  // esp_flash_write
  // ---------------------------------------------------------------------------------------

  /** The beginning of every turn of a loop: yield, then start. */
  method TakeBus(chip: Chip) returns (e: Err, yielded: bool)
    requires chip.Valid() && chip.summary.bus == Idle
    modifies chip`log, chip`summary
    ensures chip.Valid() && e in {Ok, Fail} && (e == Ok ==> yielded) && (e != Ok ==> GaveUp(chip.log))
    ensures chip.summary == old(chip.summary).(
              bus := if e == Ok then Held else Idle, failedBefore := old(chip.summary.failedEnds),
              failures := old(chip.summary.failures) + if e == Ok then 0 else 1,
              pauses := old(chip.summary.pauses) + 1, starts := old(chip.summary.starts) + if yielded then 1 else 0)
  {
    yielded := false;
    e := chip.Yield();
    if e == Ok {
      yielded := true;
      e := chip.Start();
    }
  }

  /** Success comes without a failed request; without one a chip that obeys and responds gives success. */
  predicate Served(chip: Chip, before: Summary, now: Summary, e: Err) {
    && now.failures >= before.failures
    && (e == Ok ==> now.failures == before.failures)
    && (chip.obeys && chip.responds && now.failures == before.failures ==> e == Ok)
  }

  /** Where a loop that takes the bus for every turn stands. It still holds the bus after its last turn, and
      has given up if it was not let on. */
  ghost predicate LoopAt(chip: Chip, before: Summary, acquired: bool, yielded: bool, finished: bool, e: Err)
    reads chip
  {
    && LeftAs(before, chip.summary, acquired)
    && (!yielded ==> e != Ok && !acquired && chip.summary.failedBefore == before.failedEnds && GaveUp(chip.log))
    && (e == Ok ==> acquired == finished && chip.summary.failedEnds == before.failedEnds)
  }

  /** One turn of the loop: yield, start, write and, except after the last chunk, end. */
  method WriteChunk(chip: Chip, chunk: Bytes, address: nat, last: bool)
    returns (e: Err, acquired: bool, yielded: bool)
    requires chip.Valid() && address + |chunk| <= chip.size && chip.summary.bus == Idle
    modifies chip`busy, chip`working, chip`wel, chip`log, chip`summary, chip`mem
    ensures chip.Valid()
    ensures LoopAt(chip, old(chip.summary), acquired, yielded, last, e)
    ensures chip.summary.erases == old(chip.summary.erases)
    ensures chip.summary.refused >= old(chip.summary.refused)
    ensures chip.obeys ==> chip.summary.refused == old(chip.summary.refused)
    ensures e == Ok ==>
              && chip.summary.pauses == old(chip.summary.pauses) + 1
              && chip.summary.starts == old(chip.summary.starts) + 1
    ensures Served(chip, old(chip.summary), chip.summary, e)
    ensures Sent(old(chip.summary.sent), chip.summary.sent,
                 Slices(chip.dtr, address, |chunk|, chip.pageSize), e == Ok)
    ensures e == Ok && |chunk| > 0 ==> !chip.working
    ensures PartlyProgrammed(old(chip.mem), chip.mem, address, chunk)
    ensures e == Ok && (chip.obeys || chip.summary.refused == old(chip.summary.refused)) ==>
              chip.mem == Programmed(old(chip.mem), address, chunk)
  {
    ProgrammedIsPartly(chip.mem, address, chunk);
    e, yielded := TakeBus(chip);
    acquired := e == Ok;
    if e != Ok {
      return;
    }
    e := chip.Write(chunk, address);
    if e != Ok || last {
      return;
    }
    e := chip.End(e);
    if e == Ok {
      acquired := false;
    }
  }

  function WriteLimit(direct: bool): nat {
    if direct then MAX_WRITE_CHUNK else STACK_BUFFER
  }

  /** The next chunk: from the data itself or, if the chip cannot read it there, from a copy of it on the
      stack. */
  method NextChunk(data: Bytes, done: nat, direct: bool) returns (chunk: Bytes)
    requires done < |data|
    ensures |chunk| == Min(|data| - done, WriteLimit(direct)) && chunk == data[done..done + |chunk|]
  {
    if direct {
      var writeLen := Min(|data| - done, MAX_WRITE_CHUNK);
      chunk := data[done..done + writeLen];
    } else {
      var tempBuf := new Byte[STACK_BUFFER];
      var writeLen := Min(|data| - done, tempBuf.Length);
      CopyIn(tempBuf, 0, data[done..done + writeLen]);
      chunk := tempBuf[..writeLen];
    }
  }

  /** The page programs of all chunks. */
  function ChunkSlices(dtr: bool, address: nat, len: nat, limit: nat, pageSize: nat): seq<Slice>
    requires limit > 0 && pageSize > 0 && (dtr ==> pageSize % 2 == 0)
    decreases len
  {
    if len == 0 then []
    else
      var n := Min(len, limit);
      Slices(dtr, address, n, pageSize) + ChunkSlices(dtr, address + n, len - n, limit, pageSize)
  }

  /** The chunks of what is left have not been sent yet. */
  predicate ChunksLeft(before: Summary, now: Summary, len: nat, left: nat, limit: nat) {
    && now.pauses + Chunks(left, limit) == before.pauses + Chunks(len, limit)
    && now.starts + Chunks(left, limit) == before.starts + Chunks(len, limit)
  }

  lemma ChunksStep(len: nat, limit: nat)
    requires len > 0 && limit > 0
    ensures Chunks(len, limit) == 1 + Chunks(len - Min(len, limit), limit)
  {
  }

  /** What the loop has written when some of the data is left. */
  ghost predicate WroteChunks(chip: Chip, before: Summary, mem: Bytes, address: nat, data: Bytes, done: nat,
                              limit: nat, e: Err)
    reads chip
    requires done <= |data| && address + |data| <= |mem|
  {
    && Served(chip, before, chip.summary, e) && chip.summary.erases == before.erases
    && chip.summary.refused >= before.refused && (chip.obeys ==> chip.summary.refused == before.refused)
    && (e == Ok && done > 0 ==> !chip.working)
    && (e == Ok ==> ChunksLeft(before, chip.summary, |data|, |data| - done, limit))
    && Progress(mem, chip.mem, address, data, done, e == Ok && chip.summary.refused == before.refused)
  }

  /** One turn of the loop: the next chunk. */
  method WriteNextChunk(chip: Chip, data: Bytes, address: nat, done: nat, direct: bool,
                        ghost before: Summary, ghost mem: Bytes)
    returns (e: Err, acquired: bool, yielded: bool, next: nat)
    requires chip.Valid() && done < |data| && address + |data| <= chip.size == |mem|
    requires LoopAt(chip, before, false, true, false, Ok)
    requires WroteChunks(chip, before, mem, address, data, done, WriteLimit(direct), Ok)
    modifies chip`busy, chip`working, chip`wel, chip`log, chip`summary, chip`mem
    ensures chip.Valid() && next == done + Min(|data| - done, WriteLimit(direct))
    ensures LoopAt(chip, before, acquired, yielded, next == |data|, e)
    ensures Sent(old(chip.summary.sent), chip.summary.sent,
                 Slices(chip.dtr, address + done, next - done, chip.pageSize), e == Ok)
    ensures WroteChunks(chip, before, mem, address, data, next, WriteLimit(direct), e)
  {
    ghost var was, refused := chip.mem, chip.summary.refused;
    ChunksStep(|data| - done, WriteLimit(direct));
    var chunk := NextChunk(data, done, direct);
    next := done + |chunk|;
    e, acquired, yielded := WriteChunk(chip, chunk, address + done, next == |data|);
    MoreProgress(mem, was, chip.mem, address, data, done, next, refused == before.refused,
                 e == Ok && chip.summary.refused == before.refused);
    assert |data| - next < |data|;
  }

  /** The same, as the first of the chunks that are left. */
  method WriteTurn(chip: Chip, data: Bytes, address: nat, done: nat, direct: bool,
                   ghost before: Summary, ghost mem: Bytes, ghost all: seq<Slice>, ghost left: seq<Slice>)
    returns (e: Err, acquired: bool, yielded: bool, next: nat, ghost rest: seq<Slice>)
    requires chip.Valid() && done < |data| && address + |data| <= chip.size == |mem|
    requires LoopAt(chip, before, false, true, false, Ok)
    requires WroteChunks(chip, before, mem, address, data, done, WriteLimit(direct), Ok)
    requires SentBut(before.sent, chip.summary.sent, all, left, true)
    requires left == ChunkSlices(chip.dtr, address + done, |data| - done, WriteLimit(direct), chip.pageSize)
    modifies chip`busy, chip`working, chip`wel, chip`log, chip`summary, chip`mem
    ensures chip.Valid() && done < next <= |data|
    ensures LoopAt(chip, before, acquired, yielded, next == |data|, e)
    ensures WroteChunks(chip, before, mem, address, data, next, WriteLimit(direct), e)
    ensures SentBut(before.sent, chip.summary.sent, all, rest, e == Ok)
    ensures rest == ChunkSlices(chip.dtr, address + next, |data| - next, WriteLimit(direct), chip.pageSize)
  {
    ghost var sent := chip.summary.sent;
    e, acquired, yielded, next := WriteNextChunk(chip, data, address, done, direct, before, mem);
    rest := ChunkSlices(chip.dtr, address + next, |data| - next, WriteLimit(direct), chip.pageSize);
    NextSent(before.sent, sent, chip.summary.sent, all, left,
             Slices(chip.dtr, address + done, next - done, chip.pageSize), rest, e == Ok);
  }

  /** The loop: pieces of 8192 bytes, or of 32 bytes if they have to be copied first. */
  method WriteChunks(chip: Chip, data: Bytes, address: nat, direct: bool)
    returns (e: Err, acquired: bool, yielded: bool)
    requires chip.Valid() && 0 < |data| && address + |data| <= chip.size && chip.summary.bus == Idle
    modifies chip`busy, chip`working, chip`wel, chip`log, chip`summary, chip`mem
    ensures chip.Valid() && LoopAt(chip, old(chip.summary), acquired, yielded, true, e)
    ensures chip.summary.erases == old(chip.summary.erases)
    ensures chip.summary.refused >= old(chip.summary.refused)
    ensures chip.obeys ==> chip.summary.refused == old(chip.summary.refused)
    ensures Served(chip, old(chip.summary), chip.summary, e) && (e == Ok ==> !chip.working)
    ensures Sent(old(chip.summary.sent), chip.summary.sent,
                 ChunkSlices(chip.dtr, address, |data|, WriteLimit(direct), chip.pageSize), e == Ok)
    ensures e == Ok ==>
              && chip.summary.pauses == old(chip.summary.pauses) + Chunks(|data|, WriteLimit(direct))
              && chip.summary.starts == old(chip.summary.starts) + Chunks(|data|, WriteLimit(direct))
    ensures PartlyProgrammed(old(chip.mem), chip.mem, address, data)
    ensures e == Ok && (chip.obeys || chip.summary.refused == old(chip.summary.refused)) ==>
              chip.mem == Programmed(old(chip.mem), address, data)
  {
    ghost var before, mem := chip.summary, chip.mem;
    ghost var all := ChunkSlices(chip.dtr, address, |data|, WriteLimit(direct), chip.pageSize);
    ghost var left := all;
    NoProgress(mem, address, data);
    NothingSent(before.sent, all);
    var done := 0;
    e, acquired, yielded := Ok, false, true;
    while e == Ok && done < |data|
      invariant 0 <= done <= |data| && chip.Valid()
      invariant LoopAt(chip, before, acquired, yielded, done == |data|, e)
      invariant WroteChunks(chip, before, mem, address, data, done, WriteLimit(direct), e)
      invariant SentBut(before.sent, chip.summary.sent, all, left, e == Ok)
      invariant left == ChunkSlices(chip.dtr, address + done, |data| - done, WriteLimit(direct), chip.pageSize)
      decreases e == Ok, |data| - done
    {
      e, acquired, yielded, done, left := WriteTurn(chip, data, address, done, direct, before, mem, all, left);
    }
    AllSent(before.sent, chip.summary.sent, all, left, e == Ok);
    AllProgress(mem, chip.mem, address, data, done, e == Ok && chip.summary.refused == before.refused);
  }

  /** The length was cut into n pieces of the given size, all of them full but the last. */
  predicate Pieces(len: nat, size: nat, n: int) {
    if len == 0 then n == 0 else (n - 1) * size < len <= n * size
  }

  /** esp_flash_write once the request has been checked. */
  method WriteChecked(chip: Chip, data: Bytes, address: nat, direct: bool) returns (e: Err)
    requires chip.Valid() && chip.summary.bus == Idle && 0 < |data| && address + |data| <= chip.size
    modifies chip`busy, chip`working, chip`wel, chip`log, chip`summary, chip`mem, chip`cache
    ensures chip.Valid() && Disciplined(old(chip.summary), chip.summary)
    ensures chip.summary.refused >= old(chip.summary.refused) && chip.summary.erases == old(chip.summary.erases)
    ensures chip.obeys ==> chip.summary.refused == old(chip.summary.refused)
    ensures Served(chip, old(chip.summary), chip.summary, e)
    ensures e == Ok ==>
              && !chip.working && chip.summary.bus == Idle
              && chip.summary.pauses == old(chip.summary.pauses) + Chunks(|data|, WriteLimit(direct))
              && chip.summary.starts == old(chip.summary.starts) + Chunks(|data|, WriteLimit(direct))
    ensures Sent(old(chip.summary.sent), chip.summary.sent,
                 ChunkSlices(chip.dtr, address, |data|, WriteLimit(direct), chip.pageSize), e == Ok)
    ensures PartlyProgrammed(old(chip.mem), chip.mem, address, data)
    ensures e == Ok && (chip.obeys || chip.summary.refused == old(chip.summary.refused)) ==>
              chip.mem == Programmed(old(chip.mem), address, data)
    ensures chip.summary.flushes == old(chip.summary.flushes) || chip.summary.flushes == old(chip.summary.flushes) + 1
    ensures chip.summary.flushes == old(chip.summary.flushes) ==> GaveUp(chip.log)
    ensures if chip.spi1 && chip.summary.flushes > old(chip.summary.flushes)
            then Flushed(chip.esp32, chip.mem, old(chip.cache), chip.cache, address, |data|)
            else chip.cache == old(chip.cache)
    ensures chip.spi1 && (e == Ok || chip.summary.flushes > old(chip.summary.flushes)) ==>
              Coherent(old(chip.mem), old(chip.cache)) ==> Coherent(chip.mem, chip.cache)
  {
    var acquired, yielded;
    e, acquired, yielded := WriteChunks(chip, data, address, direct);
    if !yielded {
      return;
    }
    PartlySameOutside(old(chip.mem), chip.mem, address, data);
    ghost var startRefused;
    e, startRefused := EndFlushCache(chip, e, acquired, address, |data|, old(chip.summary));
    if chip.spi1 && !startRefused && Coherent(old(chip.mem), old(chip.cache)) {
      FlushRestoresCoherence(old(chip.mem), chip.mem, old(chip.cache), chip.cache, address, |data|, chip.esp32);
    }
  }

  /** esp_flash_write. */
  method Write(chip: Chip, data: Bytes, address: nat, direct: bool, a: Admission) returns (e: Err)
    requires chip.Valid() && chip.summary.bus == Idle && address + |data| < UINT32
    modifies chip`busy, chip`working, chip`wel, chip`log, chip`summary, chip`mem, chip`cache
    ensures chip.Valid() && Disciplined(old(chip.summary), chip.summary)
    ensures e == Ok ==> chip.summary.bus == Idle
    ensures chip.summary.refused >= old(chip.summary.refused)
    ensures chip.obeys ==> chip.summary.refused == old(chip.summary.refused)
    ensures chip.summary.erases == old(chip.summary.erases)
    ensures e == Ok && (|data| > 0 || !old(chip.working)) ==> !chip.working
    ensures Admit(a) != Ok ==> e == Admit(a)
    ensures Admit(a) == Ok && address + |data| > chip.size ==> e == InvalidArg
    ensures Admit(a) != Ok || address + |data| > chip.size || |data| == 0 ==>
              chip.log == old(chip.log) && chip.mem == old(chip.mem) && chip.cache == old(chip.cache)
    ensures Served(chip, old(chip.summary), chip.summary, e) || Admit(a) != Ok || address + |data| > chip.size
    ensures e == Ok ==>
              var limit := if direct then 8192 else 32;
              && Pieces(|data|, limit, chip.summary.pauses - old(chip.summary.pauses))
              && Pieces(|data|, limit, chip.summary.starts - old(chip.summary.starts))
              && chip.summary.sent == old(chip.summary.sent)
                                      + ChunkSlices(chip.dtr, address, |data|, limit, chip.pageSize)
    ensures PartlyProgrammed(old(chip.mem), chip.mem, address, data)
    ensures e == Ok && (chip.obeys || chip.summary.refused == old(chip.summary.refused)) ==>
              chip.mem == Programmed(old(chip.mem), address, data)
    ensures chip.summary.flushes == old(chip.summary.flushes) || chip.summary.flushes == old(chip.summary.flushes) + 1
    ensures chip.summary.flushes == old(chip.summary.flushes) ==> chip.log == old(chip.log) || GaveUp(chip.log)
    ensures if chip.spi1 && chip.summary.flushes > old(chip.summary.flushes)
            then Flushed(chip.esp32, chip.mem, old(chip.cache), chip.cache, address, |data|)
            else chip.cache == old(chip.cache)
    ensures chip.spi1 && (e == Ok || chip.summary.flushes > old(chip.summary.flushes)) ==>
              Coherent(old(chip.mem), old(chip.cache)) ==> Coherent(chip.mem, chip.cache)
  {
    Unprogrammed(chip.mem, address, data);
    e := Admit(a);
    if e != Ok {
      return;
    }
    if BoundsRejected(chip.size, address, |data|) {
      return InvalidArg;
    }
    if |data| == 0 {
      ProgramNothing(chip.mem, address);
      assert data == [];
      return Ok;
    }
    ChunksRoundUp(|data|, WriteLimit(direct));
    e := WriteChecked(chip, data, address, direct);
  }

  // ---------------------------------------------------------------------------------------
  // esp_flash_erase_region
  // ---------------------------------------------------------------------------------------

  /** A protected region of the chip overlaps the range. */
  ghost predicate ProtectedOverlap(chip: Chip, start: nat, len: nat) {
    exists i: nat :: i in chip.locked && i < |chip.regions|
      && Overlapping(start, len, chip.regions[i].offset, chip.regions[i].size)
  }

  /** The protectable regions end below 2^32. */
  predicate RegionsFit(regions: seq<Region>) {
    forall r :: r in regions ==> r.offset + r.size < UINT32
  }

  /** Region i is protected and found to overlap the range. */
  predicate Blocks(chip: Chip, i: nat, start: nat, len: nat) {
    i < |chip.regions| && i in chip.locked
    && RegionsOverlap(start, len, chip.regions[i].offset, chip.regions[i].size)
  }

  lemma OverlapBlocks(chip: Chip, start: nat, len: nat)
    requires 0 < len && start + len < UINT32 && RegionsFit(chip.regions)
    ensures ProtectedOverlap(chip, start, len) <==> exists i: nat :: Blocks(chip, i, start, len)
  {
    forall i: nat | i < |chip.regions|
      ensures Blocks(chip, i, start, len) <==>
                i in chip.locked && Overlapping(start, len, chip.regions[i].offset, chip.regions[i].size)
    {
      assert chip.regions[i] in chip.regions;
      RegionsOverlapExact(start, len, chip.regions[i].offset, chip.regions[i].size);
    }
  }

  /** Compares the protected regions with the range. */
  method CompareRegions(chip: Chip, start: nat, len: nat) returns (e: Err)
    ensures e in {Ok, Protected}
    ensures e == Protected <==> exists i: nat :: Blocks(chip, i, start, len)
  {
    e := Ok;
    var i := 0;
    while i < |chip.regions| && e == Ok
      invariant 0 <= i <= |chip.regions| && e in {Ok, Protected}
      invariant e == Protected ==> exists j: nat :: Blocks(chip, j, start, len)
      invariant e == Ok ==> forall j: nat :: j < i ==> !Blocks(chip, j, start, len)
    {
      if Blocks(chip, i, start, len) {
        e := Protected;
      }
      i := i + 1;
    }
  }

  /** Reads the protection of the chip and compares it with the range. */
  method CheckProtection(chip: Chip, start: nat, len: nat) returns (e: Err)
    requires chip.Valid() && chip.summary.bus == Idle && 0 < len && start + len <= chip.size
    requires |chip.regions| > 0 && RegionsFit(chip.regions)
    modifies chip`log, chip`summary
    ensures chip.Valid() && chip.summary.bus == Idle
    ensures chip.summary.erases == old(chip.summary.erases)
    ensures chip.summary.refused == old(chip.summary.refused) && chip.summary.flushes == old(chip.summary.flushes)
    ensures chip.summary.failedBefore == old(chip.summary.failedEnds)
    ensures e == Ok ==> chip.summary.failedEnds == old(chip.summary.failedEnds)
    ensures chip.summary.pauses == old(chip.summary.pauses) && chip.summary.sent == old(chip.summary.sent)
    ensures chip.summary.starts == old(chip.summary.starts) + 1
    ensures chip.summary.failures >= old(chip.summary.failures)
    ensures e == Ok <==> chip.summary.failures == old(chip.summary.failures) && !ProtectedOverlap(chip, start, len)
    ensures e == Protected ==> ProtectedOverlap(chip, start, len)
    ensures chip.summary.failures == old(chip.summary.failures) ==>
              chip.log == old(chip.log) + [Event.Start(true), Event.ReadProtection(true), Event.End(true)]
    ensures chip.summary.failures == old(chip.summary.failures) && ProtectedOverlap(chip, start, len) ==> e == Protected
  {
    OverlapBlocks(chip, start, len);
    e := chip.Start();
    if e != Ok {
      return;
    }
    e := chip.ReadProtection();
    if e == Ok {
      e := CompareRegions(chip, start, len);
    }
    e := chip.End(e);
  }

  /** One turn of the loop: yield, start, erase and, except after the last unit, end. */
  method EraseStep(chip: Chip, unit: Command, last: bool) returns (e: Err, acquired: bool, yielded: bool)
    requires chip.Valid() && unit.at + Size(chip.geometry, unit) <= chip.size && unit.at < ADDRESSES
    requires chip.summary.bus == Idle
    modifies chip`busy, chip`working, chip`wel, chip`log, chip`summary, chip`mem
    ensures chip.Valid()
    ensures LoopAt(chip, old(chip.summary), acquired, yielded, last, e)
    ensures chip.summary.refused >= old(chip.summary.refused)
    ensures chip.obeys ==> chip.summary.refused == old(chip.summary.refused)
    ensures e == Ok ==>
              && chip.summary.pauses == old(chip.summary.pauses) + 1
              && chip.summary.starts == old(chip.summary.starts) + 1
    ensures Served(chip, old(chip.summary), chip.summary, e) && chip.summary.sent == old(chip.summary.sent)
    ensures e != Protected && (e == Ok ==> !chip.working)
    ensures chip.mem == old(chip.mem) || chip.mem == Erased(old(chip.mem), unit.at, Size(chip.geometry, unit))
    ensures Sent(old(chip.summary.erases), chip.summary.erases, [unit], e == Ok)
    ensures e == Ok && (chip.obeys || chip.summary.refused == old(chip.summary.refused)) ==>
              chip.mem == Erased(old(chip.mem), unit.at, Size(chip.geometry, unit))
  {
    e, yielded := TakeBus(chip);
    acquired := e == Ok;
    if e != Ok {
      return;
    }
    ghost var answers;
    e, answers := chip.EraseUnit(unit);
    if e != Ok || last {
      return;
    }
    e := chip.End(Ok);
    if e == Ok {
      acquired := false;
    }
  }

  /** What the loop has erased when it is at an address and some of the units are left. */
  ghost predicate EraseAt(chip: Chip, before: Summary, mem: Bytes, start: nat, at: nat, remain: nat,
                          plan: seq<Command>, left: seq<Command>, acquired: bool, yielded: bool, e: Err)
    reads chip
    requires start <= at <= |mem|
  {
    && LoopAt(chip, before, acquired, yielded, remain == 0, e) && Follows(chip.geometry, at, remain, left)
    && Served(chip, before, chip.summary, e) && chip.summary.sent == before.sent
    && chip.summary.refused >= before.refused && (chip.obeys ==> chip.summary.refused == before.refused)
    && e != Protected && (e == Ok && at > start ==> !chip.working)
    && SentBut(before.erases, chip.summary.erases, plan, left, e == Ok)
    && (e == Ok ==> chip.summary.pauses + |left| == before.pauses + |plan|
                    && chip.summary.starts + |left| == before.starts + |plan|)
    && EraseProgress(mem, chip.mem, start, at - start, e == Ok && chip.summary.refused == before.refused)
  }

  lemma EraseBegins(chip: Chip, start: nat, len: nat, plan: seq<Command>)
    requires chip.summary.bus == Idle && start <= |chip.mem| && 0 < len && Follows(chip.geometry, start, len, plan)
    ensures EraseAt(chip, chip.summary, chip.mem, start, start, len, plan, plan, false, true, Ok)
  {
    NothingSent(chip.summary.erases, plan);
    EraseNothing(chip.mem, start);
  }

  lemma EraseEnds(chip: Chip, before: Summary, mem: Bytes, start: nat, len: nat, at: nat, remain: nat,
                  plan: seq<Command>, left: seq<Command>, acquired: bool, yielded: bool, e: Err)
    requires start <= at && at + remain == start + len <= |mem| && (e == Ok ==> remain == 0)
    requires EraseAt(chip, before, mem, start, at, remain, plan, left, acquired, yielded, e)
    ensures PartlyErased(mem, chip.mem, start, len) && Sent(before.erases, chip.summary.erases, plan, e == Ok)
    ensures e == Ok ==> left == []
  {
    AllSent(before.erases, chip.summary.erases, plan, left, e == Ok);
  }

  /** One turn of the loop: a whole block where the address and the rest allow it, else a sector. */
  method EraseNext(chip: Chip, eraseAddr: nat, lenRemain: nat, ghost before: Summary, ghost mem: Bytes,
                   ghost start: nat, ghost plan: seq<Command>, ghost left: seq<Command>)
    returns (e: Err, acquired: bool, yielded: bool, nextAddr: nat, nextRemain: nat)
    requires chip.Valid() && 0 < lenRemain && start <= eraseAddr && eraseAddr + lenRemain <= chip.size == |mem|
    requires EraseAt(chip, before, mem, start, eraseAddr, lenRemain, plan, left, false, true, Ok)
    modifies chip`busy, chip`working, chip`wel, chip`log, chip`summary, chip`mem
    ensures chip.Valid() && nextRemain < lenRemain && nextAddr + nextRemain == eraseAddr + lenRemain && left != []
    ensures EraseAt(chip, before, mem, start, nextAddr, nextRemain, plan, left[1..], acquired, yielded, e)
  {
    ghost var was, sent, refused := chip.mem, chip.summary.erases, chip.summary.refused;
    var unit := Choice(chip.geometry, eraseAddr, lenRemain);
    var size := Size(chip.geometry, unit);
    e, acquired, yielded := EraseStep(chip, unit, lenRemain == size);
    nextAddr, nextRemain := eraseAddr + size, lenRemain - size;
    NextSent(before.erases, sent, chip.summary.erases, plan, left, [unit], left[1..], e == Ok);
    MoreErased(mem, was, chip.mem, start, eraseAddr - start, nextAddr - start, refused == before.refused,
               e == Ok && chip.summary.refused == before.refused);
  }

  /** The loop. */
  method EraseUnits(chip: Chip, start: nat, len: nat, ghost plan: seq<Command>)
    returns (e: Err, acquired: bool, yielded: bool)
    requires chip.Valid() && 0 < len && start + len <= chip.size && chip.summary.bus == Idle
    requires Follows(chip.geometry, start, len, plan)
    modifies chip`busy, chip`working, chip`wel, chip`log, chip`summary, chip`mem
    ensures chip.Valid() && LoopAt(chip, old(chip.summary), acquired, yielded, true, e)
    ensures chip.summary.refused >= old(chip.summary.refused) && (e == Ok ==> !chip.working)
    ensures chip.obeys ==> chip.summary.refused == old(chip.summary.refused)
    ensures Served(chip, old(chip.summary), chip.summary, e) && chip.summary.sent == old(chip.summary.sent)
    ensures e != Protected && PartlyErased(old(chip.mem), chip.mem, start, len)
    ensures Sent(old(chip.summary.erases), chip.summary.erases, plan, e == Ok)
    ensures e == Ok ==>
              && chip.summary.pauses == old(chip.summary.pauses) + |plan|
              && chip.summary.starts == old(chip.summary.starts) + |plan|
    ensures e == Ok && (chip.obeys || chip.summary.refused == old(chip.summary.refused)) ==>
              chip.mem == Erased(old(chip.mem), start, len)
  {
    var eraseAddr, lenRemain: nat := start, len;
    ghost var left, before, mem := plan, chip.summary, chip.mem;
    EraseBegins(chip, start, len, plan);
    e, acquired, yielded := Ok, false, true;
    while e == Ok && lenRemain > 0
      invariant start <= eraseAddr && eraseAddr + lenRemain == start + len && chip.Valid()
      invariant acquired ==> e != Ok || lenRemain == 0
      invariant !yielded ==> e != Ok
      invariant EraseAt(chip, before, mem, start, eraseAddr, lenRemain, plan, left, acquired, yielded, e)
      decreases e == Ok, lenRemain
    {
      e, acquired, yielded, eraseAddr, lenRemain :=
        EraseNext(chip, eraseAddr, lenRemain, before, mem, start, plan, left);
      left := left[1..];
      assert lenRemain < len;
    }
    EraseEnds(chip, before, mem, start, len, eraseAddr, lenRemain, plan, left, acquired, yielded, e);
  }

  /** esp_flash_erase_region once the request has been checked. */
  method EraseChecked(chip: Chip, start: nat, len: nat) returns (e: Err)
    requires chip.Valid() && chip.summary.bus == Idle && 0 < len && start + len <= chip.size
    requires chip.geometry.Valid() && start % chip.geometry.sector == 0 && len % chip.geometry.sector == 0
    modifies chip`busy, chip`working, chip`wel, chip`log, chip`summary, chip`mem, chip`cache
    ensures chip.Valid() && Disciplined(old(chip.summary), chip.summary)
    ensures chip.summary.refused >= old(chip.summary.refused)
    ensures chip.obeys ==> chip.summary.refused == old(chip.summary.refused)
    ensures Served(chip, old(chip.summary), chip.summary, e) && chip.summary.sent == old(chip.summary.sent)
    ensures PartlyErased(old(chip.mem), chip.mem, start, len)
    ensures Sent(old(chip.summary.erases), chip.summary.erases, Plan(chip.geometry, start, len), e == Ok)
    ensures e != Protected
    ensures e == Ok ==>
              var plan := Plan(chip.geometry, start, len);
              && !chip.working && chip.summary.bus == Idle
              && chip.summary.pauses == old(chip.summary.pauses) + |plan|
              && chip.summary.starts == old(chip.summary.starts) + |plan|
    ensures e == Ok && (chip.obeys || chip.summary.refused == old(chip.summary.refused)) ==>
              chip.mem == Erased(old(chip.mem), start, len)
    ensures chip.summary.flushes == old(chip.summary.flushes) || chip.summary.flushes == old(chip.summary.flushes) + 1
    ensures chip.summary.flushes == old(chip.summary.flushes) ==> GaveUp(chip.log)
    ensures if chip.spi1 && chip.summary.flushes > old(chip.summary.flushes)
            then Flushed(chip.esp32, chip.mem, old(chip.cache), chip.cache, start, len)
            else chip.cache == old(chip.cache)
    ensures chip.spi1 && (e == Ok || chip.summary.flushes > old(chip.summary.flushes)) ==>
              Coherent(old(chip.mem), old(chip.cache)) ==> Coherent(chip.mem, chip.cache)
  {
    PlanFollows(chip.geometry, start, len);
    var acquired, yielded;
    e, acquired, yielded := EraseUnits(chip, start, len, Plan(chip.geometry, start, len));
    if !yielded {
      return;
    }
    ghost var startRefused;
    e, startRefused := EndFlushCache(chip, e, acquired, start, len, old(chip.summary));
    if chip.spi1 && !startRefused && Coherent(old(chip.mem), old(chip.cache)) {
      FlushRestoresCoherence(old(chip.mem), chip.mem, old(chip.cache), chip.cache, start, len, chip.esp32);
    }
  }

  /** The request names whole sectors of the chip. */
  predicate Erasable(chip: Chip, start: nat, len: nat) {
    && chip.geometry.sector > 0 && chip.geometry.block % chip.geometry.sector == 0 && start + len <= chip.size
    && start % chip.geometry.sector == 0 && len % chip.geometry.sector == 0
  }

  /** Nothing that can be checked beforehand stands against erasing the range. */
  ghost predicate MayErase(chip: Chip, start: nat, len: nat, a: Admission) {
    Admit(a) == Ok && Erasable(chip, start, len) && (len > 0 ==> !ProtectedOverlap(chip, start, len))
  }

  /** esp_flash_erase_region. */
  method EraseRegion(chip: Chip, start: nat, len: nat, a: Admission) returns (e: Err)
    requires chip.Valid() && chip.summary.bus == Idle && start + len < UINT32 && RegionsFit(chip.regions)
    modifies chip`busy, chip`working, chip`wel, chip`log, chip`summary, chip`mem, chip`cache
    ensures chip.Valid() && Disciplined(old(chip.summary), chip.summary)
    ensures e == Ok ==> chip.summary.bus == Idle
    ensures chip.summary.refused >= old(chip.summary.refused) && chip.summary.sent == old(chip.summary.sent)
    ensures chip.obeys ==> chip.summary.refused == old(chip.summary.refused)
    ensures e == Ok && (len > 0 || !old(chip.working)) ==> !chip.working
    ensures Admit(a) != Ok ==> e == Admit(a)
    ensures Admit(a) == Ok && !chip.geometry.Valid() ==> e == NotInitialised
    ensures Admit(a) == Ok && chip.geometry.Valid() && !Erasable(chip, start, len) ==> e == InvalidArg
    ensures Admit(a) != Ok || !Erasable(chip, start, len) || len == 0 ==>
              chip.log == old(chip.log) && chip.mem == old(chip.mem) && chip.cache == old(chip.cache)
    ensures chip.summary.failures >= old(chip.summary.failures)
    ensures e == Ok ==> MayErase(chip, start, len, a) && chip.summary.failures == old(chip.summary.failures)
    ensures chip.obeys && chip.responds && chip.summary.failures == old(chip.summary.failures) ==>
              (e == Ok <==> MayErase(chip, start, len, a))
    ensures e == Protected ==> ProtectedOverlap(chip, start, len)
    ensures PartlyErased(old(chip.mem), chip.mem, start, len)
    ensures e == Ok ==>
              var plan := Plan(chip.geometry, start, len);
              && chip.summary.erases == old(chip.summary.erases) + plan
              && chip.summary.pauses == old(chip.summary.pauses) + |plan|
              && chip.summary.starts
                 == old(chip.summary.starts) + |plan| + if len > 0 && |chip.regions| > 0 then 1 else 0
    ensures Erasable(chip, start, len) ==>
              Sent(old(chip.summary.erases), chip.summary.erases, Plan(chip.geometry, start, len), e == Ok)
    ensures e == Ok && (chip.obeys || chip.summary.refused == old(chip.summary.refused)) ==>
              chip.mem == Erased(old(chip.mem), start, len)
    ensures len > 0 && ProtectedOverlap(chip, start, len) ==>
              && e != Ok && chip.mem == old(chip.mem) && chip.summary.erases == old(chip.summary.erases)
              && (e == Protected || Admit(a) != Ok || !Erasable(chip, start, len)
                  || chip.summary.failures > old(chip.summary.failures))
    ensures if chip.spi1 && chip.summary.flushes > old(chip.summary.flushes)
            then Flushed(chip.esp32, chip.mem, old(chip.cache), chip.cache, start, len)
            else chip.cache == old(chip.cache)
    ensures chip.spi1 && (e == Ok || chip.summary.flushes > old(chip.summary.flushes)) ==>
              Coherent(old(chip.mem), old(chip.cache)) ==> Coherent(chip.mem, chip.cache)
  {
    e := Admit(a);
    if e != Ok {
      return;
    }
    if !chip.geometry.Valid() {
      return NotInitialised;
    }
    if BoundsRejected(chip.size, start, len) {
      return InvalidArg;
    }
    if start % chip.geometry.sector != 0 || len % chip.geometry.sector != 0 {
      return InvalidArg;
    }
    if len == 0 {
      EraseNothing(chip.mem, start);
      return Ok;
    }
    if |chip.regions| > 0 {
      e := CheckProtection(chip, start, len);
      if e != Ok {
        return;
      }
    }
    e := EraseChecked(chip, start, len);
  }

  // ---------------------------------------------------------------------------------------
  // esp_flash_read
  // ---------------------------------------------------------------------------------------

  /** The bus is idle again, and nothing was programmed, erased or refused. */
  predicate ReadOnly(before: Summary, now: Summary) {
    && now.bus == Idle && now.erases == before.erases && now.sent == before.sent
    && now.refused == before.refused && now.pauses == before.pauses && now.failures >= before.failures
  }

  /** The failed requests other than ends. */
  function FailedOther(s: Summary): int {
    s.failures - s.failedEnds
  }

  /** Reads one chunk into the given buffer. The bus is always released, and the data is valid even
      if that fails. */
  method ReadTo(chip: Chip, target: array<Byte>, at: nat, address: nat, length: nat)
    returns (e: Err, complete: bool, ghost got: Bytes)
    requires chip.Valid() && address + length <= chip.size && at + length <= target.Length
    requires chip.summary.bus == Idle
    modifies chip`log, chip`summary, target
    ensures chip.Valid() && ReadOnly(old(chip.summary), chip.summary)
    ensures chip.summary.starts == old(chip.summary.starts) + 1
    ensures (e == Ok <==> chip.summary.failures == old(chip.summary.failures)) && (e == Ok ==> complete)
    ensures FailedOther(chip.summary) == FailedOther(old(chip.summary)) + if complete then 0 else 1
    ensures complete ==> |got| == length && (!chip.working ==> got == chip.mem[address..address + length])
    ensures target[..] == if complete then Filled(old(target[..]), at, got) else old(target[..])
  {
    e := chip.Start();
    if e != Ok {
      return e, false, [];
    }
    e, got := chip.Read(target, at, address, length);
    complete := e == Ok;
    e := chip.End(e);
  }

  /** The same, or through a second buffer. */
  method ReadChunk(chip: Chip, direct: bool, temp: array<Byte>, buffer: array<Byte>, at: nat,
                   address: nat, length: nat)
    returns (e: Err, complete: bool, ghost got: Bytes)
    requires chip.Valid() && address + length <= chip.size && at + length <= buffer.Length
    requires chip.summary.bus == Idle && temp != buffer && (direct || length <= temp.Length)
    modifies chip`log, chip`summary, buffer, temp
    ensures chip.Valid() && ReadOnly(old(chip.summary), chip.summary)
    ensures chip.summary.starts == old(chip.summary.starts) + 1
    ensures (e == Ok <==> chip.summary.failures == old(chip.summary.failures)) && (e == Ok ==> complete)
    ensures FailedOther(chip.summary) == FailedOther(old(chip.summary)) + if complete then 0 else 1
    ensures complete ==> |got| == length && (!chip.working ==> got == chip.mem[address..address + length])
    ensures buffer[..] == if complete then Filled(old(buffer[..]), at, got) else old(buffer[..])
  {
    if direct {
      e, complete, got := ReadTo(chip, buffer, at, address, length);
    } else {
      e, complete, got := ReadTo(chip, temp, 0, address, length);
      if complete {
        SliceOfFilled(old(temp[..]), got, 0, length);
        assert temp[0..length] == got;
        Copy(buffer, at, temp, 0, length);
      }
    }
  }

  lemma GotMore(first: Bytes, got: Bytes, piece: Bytes, mem: Bytes, address: nat, idle: bool)
    requires |got| + |piece| <= |first| && address + |got| + |piece| <= |mem|
    requires idle ==> got == mem[address..address + |got|]
    requires idle ==> piece == mem[address + |got|..address + |got| + |piece|]
    ensures Filled(Filled(first, 0, got), |got|, piece) == Filled(first, 0, got + piece)
    ensures idle ==> got + piece == mem[address..address + |got| + |piece|]
  {
    FillAppend(first, 0, got, piece);
    SliceAppend(mem, address, |got|, |piece|);
  }

  /** What has reached the buffer. */
  ghost predicate Got(chip: Chip, first: Bytes, buffer: Bytes, address: nat, got: Bytes)
    reads chip
  {
    && |got| <= |first| && address + |got| <= |chip.mem| && buffer == Filled(first, 0, got)
    && (!chip.working ==> got == chip.mem[address..address + |got|])
  }

  /** One turn of the loop. */
  method ReadNext(chip: Chip, direct: bool, temp: array<Byte>, buffer: array<Byte>, address: nat, done: nat,
                  toRead: nat, ghost first: Bytes, ghost got: Bytes)
    returns (e: Err, complete: bool, ghost now: Bytes)
    requires chip.Valid() && address + done + toRead <= chip.size && done + toRead <= buffer.Length == |first|
    requires chip.summary.bus == Idle && temp != buffer && (direct || toRead <= temp.Length)
    requires |got| == done && Got(chip, first, buffer[..], address, got)
    modifies chip`log, chip`summary, buffer, temp
    ensures chip.Valid() && ReadOnly(old(chip.summary), chip.summary)
    ensures chip.summary.starts == old(chip.summary.starts) + 1
    ensures (e == Ok <==> chip.summary.failures == old(chip.summary.failures)) && (e == Ok ==> complete)
    ensures FailedOther(chip.summary) == FailedOther(old(chip.summary)) + if complete then 0 else 1
    ensures |now| == (if complete then done + toRead else done) && Got(chip, first, buffer[..], address, now)
  {
    ghost var piece;
    e, complete, piece := ReadChunk(chip, direct, temp, buffer, done, address + done, toRead);
    now := got;
    if complete {
      GotMore(first, got, piece, chip.mem, address, !chip.working);
      now := got + piece;
    }
  }

  /** The number of reads that were carried out. */
  function Completed(before: Summary, now: Summary): nat {
    var n := (now.starts - before.starts) - (FailedOther(now) - FailedOther(before));
    if n < 0 then 0 else n
  }

  /** What was got is what the completed reads gave. */
  predicate GotChunks(before: Summary, now: Summary, got: nat, length: nat, chunk: nat) {
    got == Min(length, Completed(before, now) * chunk)
  }

  lemma OneMoreRead(length: nat, chunk: nat, turns: nat, done: nat)
    requires chunk > 0 && done < length && done == Min(length, turns * chunk)
    ensures done + Min(chunk, length - done) == Min(length, (turns + 1) * chunk)
  {
    assert (turns + 1) * chunk == turns * chunk + chunk;
  }

  /** Where the loop stands after a number of complete reads. */
  ghost predicate ReadSoFar(chip: Chip, before: Summary, first: Bytes, buffer: Bytes, address: nat, length: nat,
                            chunk: nat, got: Bytes, turns: nat, e: Err)
    reads chip
    requires chunk > 0
  {
    && ReadOnly(before, chip.summary) && (e == Ok <==> chip.summary.failures == before.failures)
    && turns == (chip.summary.starts - before.starts) - (FailedOther(chip.summary) - FailedOther(before))
    && |got| == Min(length, turns * chunk)
    && (e == Ok ==> chip.summary.starts + Chunks(length - |got|, chunk) == before.starts + Chunks(length, chunk))
    && Got(chip, first, buffer, address, got)
  }

  /** One turn of the loop. */
  method ReadTurn(chip: Chip, direct: bool, temp: array<Byte>, buffer: array<Byte>, address: nat, length: nat,
                  done: nat, chunk: nat, ghost before: Summary, ghost first: Bytes, ghost got: Bytes, ghost turns: nat)
    returns (e: Err, next: nat, ghost now: Bytes, ghost nowTurns: nat)
    requires chip.Valid() && address + length <= chip.size && length <= buffer.Length == |first| && 0 < chunk
    requires temp != buffer && (direct || chunk <= temp.Length) && |got| == done < length
    requires ReadSoFar(chip, before, first, buffer[..], address, length, chunk, got, turns, Ok)
    modifies chip`log, chip`summary, buffer, temp
    ensures chip.Valid() && |now| == next <= length && (e == Ok ==> done < next)
    ensures ReadSoFar(chip, before, first, buffer[..], address, length, chunk, now, nowTurns, e)
  {
    ChunksStep(length - done, chunk);
    OneMoreRead(length, chunk, turns, done);
    var toRead := Min(chunk, length - done);
    var complete;
    e, complete, now := ReadNext(chip, direct, temp, buffer, address, done, toRead, first, got);
    next, nowTurns := if complete then done + toRead else done, if complete then turns + 1 else turns;
  }

  /** The loop; got is what reached the buffer: the chunks that were read. */
  method ReadChunks(chip: Chip, direct: bool, temp: array<Byte>, chunk: nat, buffer: array<Byte>,
                    address: nat, length: nat)
    returns (e: Err, ghost got: Bytes)
    requires chip.Valid() && address + length <= chip.size && length <= buffer.Length && chunk > 0
    requires chip.summary.bus == Idle && temp != buffer && (direct || chunk <= temp.Length)
    modifies chip`log, chip`summary, buffer, temp
    ensures chip.Valid() && ReadOnly(old(chip.summary), chip.summary)
    ensures e == Ok <==> chip.summary.failures == old(chip.summary.failures)
    ensures e == Ok ==> chip.summary.starts == old(chip.summary.starts) + Chunks(length, chunk) && |got| == length
    ensures GotChunks(old(chip.summary), chip.summary, |got|, length, chunk)
    ensures !chip.working ==> got == chip.mem[address..address + |got|]
    ensures buffer[..] == Filled(old(buffer[..]), 0, got)
  {
    ghost var first, was, turns := buffer[..], chip.summary, 0;
    FillNothing(first, 0);
    e, got := Ok, [];
    var done := 0;
    while e == Ok && done < length
      invariant |got| == done <= length && chip.Valid()
      invariant ReadSoFar(chip, was, first, buffer[..], address, length, chunk, got, turns, e)
      decreases e == Ok, length - done
    {
      e, done, got, turns := ReadTurn(chip, direct, temp, buffer, address, length, done, chunk, was, first, got, turns);
    }
  }

  lemma PiecesOfMin(len: nat, size: nat, n: nat)
    requires len > 0 && size > 0
    ensures Pieces(len, Min(size, len), n) ==> Pieces(len, size, n)
  {
    if len < size && n > 1 {
      ProductAtLeast(n - 1, len);
    }
  }

  lemma ProductAtLeast(k: nat, x: nat)
    requires k > 0
    ensures k * x >= x
  {
  }

  /** esp_flash_read once the request has been checked, with the buffer for the chunks. */
  method ReadChecked(chip: Chip, direct: bool, temp: array<Byte>, chunk: nat, buffer: array<Byte>,
                     address: nat, length: nat)
    returns (e: Err, ghost got: Bytes)
    requires chip.Valid() && address + length <= chip.size && 0 < length <= buffer.Length && chunk > 0
    requires chip.summary.bus == Idle && temp != buffer && (direct || chunk <= temp.Length)
    requires direct ==> chunk == Min(16384, length)
    modifies chip`log, chip`summary, buffer, temp
    ensures chip.Valid() && ReadOnly(old(chip.summary), chip.summary)
    ensures e == Ok <==> chip.summary.failures == old(chip.summary.failures)
    ensures e == Ok ==>
              && |got| == length
              && Pieces(length, if direct then 16384 else chunk, chip.summary.starts - old(chip.summary.starts))
    ensures GotChunks(old(chip.summary), chip.summary, |got|, length, chunk)
    ensures !chip.working ==> got == chip.mem[address..address + |got|]
    ensures buffer[..] == Filled(old(buffer[..]), 0, got)
  {
    ChunksRoundUp(length, chunk);
    PiecesOfMin(length, 16384, Chunks(length, chunk));
    e, got := ReadChunks(chip, direct, temp, chunk, buffer, address, length);
  }

  /** esp_flash_read. Unless the buffer can be read into directly, the chunks go through a second
      one, whose size the allocator decides, 0 if there is none. What is got is what the flash holds if the
      chip is idle. */
  method Read(chip: Chip, buffer: array<Byte>, address: nat, length: nat, direct: bool, a: Admission, actualLen: nat)
    returns (e: Err, ghost got: Bytes)
    requires chip.Valid() && chip.summary.bus == Idle
    requires length <= buffer.Length && address + length < UINT32
    modifies chip`log, chip`summary, buffer
    ensures chip.Valid() && ReadOnly(old(chip.summary), chip.summary)
    ensures e == Ok <==>
              && a.initialised && a.supported && address + length <= chip.size
              && (length == 0 || direct || actualLen > 0) && chip.summary.failures == old(chip.summary.failures)
    ensures !a.initialised ==> e == NotInitialised
    ensures a.initialised && !a.supported ==> e == UnsupportedChip
    ensures a.initialised && a.supported && address + length > chip.size ==> e == InvalidArg
    ensures a.initialised && a.supported && address + length <= chip.size && length > 0 && !direct && actualLen == 0 ==>
              e == NoMem
    ensures !a.initialised || !a.supported || address + length > chip.size || length == 0 || (!direct && actualLen == 0)
            ==> chip.log == old(chip.log)
    ensures e == Ok ==>
              Pieces(length, if direct then 16384 else actualLen, chip.summary.starts - old(chip.summary.starts))
    ensures |got| <= length && (got != [] ==> address + |got| <= chip.size)
    ensures GotChunks(old(chip.summary), chip.summary, |got|, length, if direct then Min(16384, length) else actualLen)
    ensures buffer[..] == Filled(old(buffer[..]), 0, got)
    ensures got != [] && !chip.working ==> got == chip.mem[address..address + |got|]
    ensures e == Ok ==> address + length <= chip.size && |got| == length
    ensures e == Ok && !chip.working ==> buffer[..length] == chip.mem[address..address + length]
  {
    got := [];
    FillNothing(buffer[..], 0);
    e := Admit(a.(safe := true));
    if e != Ok {
      return;
    }
    if BoundsRejected(chip.size, address, length) {
      return InvalidArg, [];
    }
    if length == 0 {
      return Ok, [];
    }
    var temp, chunk: nat := new Byte[0], Min(MAX_READ_CHUNK, length);
    if !direct {
      if actualLen == 0 {
        return NoMem, [];
      }
      temp, chunk := new Byte[actualLen], actualLen;
    }
    e, got := ReadChecked(chip, direct, temp, chunk, buffer, address, length);
  }

  // ---------------------------------------------------------------------------------------
  // Round trip
  // ---------------------------------------------------------------------------------------

  method EraseAndWrite(chip: Chip, start: nat, len: nat, data: Bytes, address: nat, direct: bool, a: Admission)
    returns (e: Err)
    requires chip.Valid() && chip.summary.bus == Idle && RegionsFit(chip.regions)
    requires start + len < UINT32 && start <= address && address + |data| <= start + len
    modifies chip`busy, chip`working, chip`wel, chip`log, chip`summary, chip`mem, chip`cache
    ensures chip.Valid() && (e == Ok ==> chip.summary.bus == Idle && start + len <= chip.size)
    ensures e == Ok && |data| > 0 ==> !chip.working
    ensures chip.summary.refused >= old(chip.summary.refused) && chip.summary.failures >= old(chip.summary.failures)
    ensures e == Ok && (chip.obeys || chip.summary.refused == old(chip.summary.refused)) ==>
              chip.mem == Programmed(Erased(old(chip.mem), start, len), address, data)
    ensures e == Ok ==> MayErase(chip, start, len, a) && chip.summary.failures == old(chip.summary.failures)
    ensures chip.obeys && chip.responds && chip.summary.failures == old(chip.summary.failures) ==>
              (e == Ok <==> MayErase(chip, start, len, a))
  {
    e := EraseRegion(chip, start, len, a);
    if e == Ok {
      e := Write(chip, data, address, direct, a);
    }
  }

  /** Erasing a range, writing anywhere in it and reading it back gives the data, if all three
      report success and the chip obeys. The read goes to a chip that is idle again. */
  method EraseWriteReadBack(chip: Chip, start: nat, len: nat, data: Bytes, address: nat, direct: bool,
                            a: Admission, actualLen: nat)
    returns (ok: bool, content: Bytes)
    requires chip.Valid() && chip.summary.bus == Idle && RegionsFit(chip.regions)
    requires start + len < UINT32 && start <= address && address + |data| <= start + len
    modifies chip`busy, chip`working, chip`wel, chip`log, chip`summary, chip`mem, chip`cache
    ensures chip.Valid() && (ok && |data| > 0 ==> !chip.working)
    ensures ok && (chip.obeys || chip.summary.refused == old(chip.summary.refused)) ==> content == data
    ensures chip.obeys && chip.responds && chip.summary.failures == old(chip.summary.failures) ==>
              (ok <==> MayErase(chip, start, len, a) && (|data| == 0 || direct || actualLen > 0))
  {
    content := [];
    var e := EraseAndWrite(chip, start, len, data, address, direct, a);
    if e != Ok {
      return false, [];
    }
    var buffer := new Byte[|data|];
    ghost var got;
    e, got := Read(chip, buffer, address, |data|, direct, a, actualLen);
    ok, content := e == Ok, buffer[..];
    EraseWriteRead(old(chip.mem), start, len, address, data);
  }
}

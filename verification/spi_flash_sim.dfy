/** The flash simulator of sim/SpiFlash.cpp: bytes, a flag per sector that it is erased, wear
    counters and their limits; and the mock esp_flash_erase_region of sim/flash_mock.cpp. */
module SpiFlashSim {
  import opened Arith
  import opened NorFlash

  const SEC_SIZE: nat := 4096   // SPI_FLASH_SEC_SIZE

  // ---------------------------------------------------------------------------------------
  // What the flags and the counters mean
  // ---------------------------------------------------------------------------------------

  predicate SectorBlank(mem: Bytes, sectorSize: nat, s: nat) {
    forall i :: s * sectorSize <= i < s * sectorSize + sectorSize && i < |mem| ==> mem[i] == BLANK
  }

  /** A sector whose flag is set holds nothing but 0xFF. */
  predicate Sound(mem: Bytes, states: seq<bool>, sectorSize: nat) {
    forall s :: 0 <= s < |states| && states[s] ==> SectorBlank(mem, sectorSize, s)
  }

  function Sum(counts: seq<nat>): nat {
    if counts == [] then 0 else Sum(counts[..|counts| - 1]) + counts[|counts| - 1]
  }

  lemma {:induction false} SumOneMore(counts: seq<nat>, i: nat)
    requires i < |counts|
    ensures Sum(counts[i := counts[i] + 1]) == Sum(counts) + 1
    decreases |counts|
  {
    var n := |counts| - 1;
    if i == n {
      assert counts[i := counts[i] + 1][..n] == counts[..n];
    } else {
      assert counts[i := counts[i] + 1][..n] == counts[..n][i := counts[..n][i] + 1];
      SumOneMore(counts[..n], i);
    }
  }

  lemma {:induction false} SumZero(n: nat)
    ensures Sum(seq(n, _ => 0)) == 0
  {
    if n > 0 {
      SumZero(n - 1);
      assert seq(n, _ => 0)[..n - 1] == seq(n - 1, _ => 0);
    }
  }

  /** The total counts every erase cycle, and no limit has been exceeded; 0 is no limit. */
  predicate Counts(total: nat, cycles: seq<nat>, totalLimit: nat, cyclesLimit: nat) {
    && total == Sum(cycles)
    && (totalLimit != 0 ==> total <= totalLimit)
    && (cyclesLimit != 0 ==> forall s :: 0 <= s < |cycles| ==> cycles[s] <= cyclesLimit)
  }

  lemma CountOneMore(total: nat, cycles: seq<nat>, totalLimit: nat, cyclesLimit: nat, s: nat)
    requires s < |cycles| && Counts(total, cycles, totalLimit, cyclesLimit)
    requires totalLimit == 0 || total < totalLimit
    requires cyclesLimit == 0 || cycles[s] < cyclesLimit
    ensures Counts(total + 1, cycles[s := cycles[s] + 1], totalLimit, cyclesLimit)
  {
    SumOneMore(cycles, s);
  }

  lemma ErasedAgain(mem: Bytes, states: seq<bool>, sectorSize: nat, s: nat)
    requires Sound(mem, states, sectorSize) && s < |states| && states[s] && s * sectorSize + sectorSize <= |mem|
    ensures Erased(mem, s * sectorSize, sectorSize) == mem
  {
    assert SectorBlank(mem, sectorSize, s);
  }

  lemma EraseKeepsSound(mem: Bytes, states: seq<bool>, sectorSize: nat, s: nat)
    requires Sound(mem, states, sectorSize) && s < |states| && s * sectorSize + sectorSize <= |mem|
    ensures Sound(Erased(mem, s * sectorSize, sectorSize), states[s := true], sectorSize)
  {
    var after, flags := Erased(mem, s * sectorSize, sectorSize), states[s := true];
    forall t | 0 <= t < |flags| && flags[t] ensures SectorBlank(after, sectorSize, t) {
      if t != s {
        assert SectorBlank(mem, sectorSize, t);
      }
    }
  }

  lemma DivMonotone(a: nat, b: nat, d: nat)
    requires a <= b && d > 0
    ensures a / d <= b / d
  {
    var p, q := a / d, b / d;
    if p > q {
      MulMonotone(q + 1, p, d);
    }
  }

  /** The last sector that a range touches. */
  function LastSector(addr: nat, size: nat, sectorSize: nat): nat
    requires sectorSize > 0
  {
    if size > 0 then (addr + size - 1) / sectorSize else addr / sectorSize
  }

  predicate Touched(addr: nat, size: nat, sectorSize: nat, s: nat)
    requires sectorSize > 0
  {
    addr / sectorSize <= s <= LastSector(addr, size, sectorSize)
  }

  lemma ByteTouches(addr: nat, size: nat, sectorSize: nat, s: nat, i: nat)
    requires sectorSize > 0 && s * sectorSize <= i < s * sectorSize + sectorSize && addr <= i < addr + size
    ensures Touched(addr, size, sectorSize, s)
  {
    DivModUnique(i, sectorSize, s, i - s * sectorSize);
    DivMonotone(addr, i, sectorSize);
    DivMonotone(i, addr + size - 1, sectorSize);
  }

  lemma WriteKeepsSound(mem: Bytes, states: seq<bool>, flags: seq<bool>, sectorSize: nat, addr: nat, data: Bytes)
    requires Sound(mem, states, sectorSize) && sectorSize > 0 && addr + |data| <= |mem|
    requires |flags| == |states|
    requires forall s :: 0 <= s < |flags| && flags[s] ==> states[s] && !Touched(addr, |data|, sectorSize, s)
    ensures Sound(Programmed(mem, addr, data), flags, sectorSize)
  {
    var after := Programmed(mem, addr, data);
    forall s | 0 <= s < |flags| && flags[s] ensures SectorBlank(after, sectorSize, s) {
      assert SectorBlank(mem, sectorSize, s);
      forall i | s * sectorSize <= i < s * sectorSize + sectorSize && i < |after| ensures after[i] == BLANK {
        if addr <= i < addr + |data| {
          ByteTouches(addr, |data|, sectorSize, s, i);
        }
      }
    }
  }

  lemma FewerFlagsSound(mem: Bytes, states: seq<bool>, flags: seq<bool>, sectorSize: nat)
    requires Sound(mem, states, sectorSize) && |flags| == |states|
    requires forall s :: 0 <= s < |flags| && flags[s] ==> states[s]
    ensures Sound(mem, flags, sectorSize)
  {
  }

  lemma SectorInChip(s: nat, sectors: nat, sectorSize: nat)
    requires s < sectors
    ensures s * sectorSize + sectorSize <= sectors * sectorSize
  {
    MulMonotone(s + 1, sectors, sectorSize);
    assert (s + 1) * sectorSize == s * sectorSize + sectorSize;
  }

  lemma PagesOfSector(sector: nat, pageSize: nat, pagesPerSector: nat, sectorSize: nat)
    requires pageSize > 0 && sectorSize % pageSize == 0 && pagesPerSector == sectorSize / pageSize
    ensures pagesPerSector * pageSize == sectorSize
    ensures (sector * pagesPerSector) * pageSize == sector * sectorSize
  {
    Associate(sector, pagesPerSector, pageSize);
  }

  lemma RangeInSectors(addr: nat, size: nat, sectors: nat, sectorSize: nat)
    requires sectorSize > 0 && addr < sectors * sectorSize && addr + size <= sectors * sectorSize
    ensures addr / sectorSize <= LastSector(addr, size, sectorSize) < sectors
  {
    DivInRange(addr, sectors, sectorSize);
    if size > 0 {
      DivInRange(addr + size - 1, sectors, sectorSize);
      DivMonotone(addr, addr + size - 1, sectorSize);
    }
  }

  lemma NextPage(i: nat, start: nat, count: nat, pageSize: nat)
    requires start <= i < start + count
    ensures (i + 1) * pageSize == i * pageSize + pageSize
    ensures (i + 1 - start) * pageSize == (i - start) * pageSize + pageSize
    ensures (i + 1 - start) * pageSize <= count * pageSize
  {
    MulMonotone(i + 1 - start, count, pageSize);
  }

  // ---------------------------------------------------------------------------------------
  // What erasing sector after sector does
  // ---------------------------------------------------------------------------------------

  /** Flags and counters; both limits are 0 for none. */
  datatype Wear = Wear(states: seq<bool>, cycles: seq<nat>, total: nat)

  datatype Limits = Limits(total: nat, cycles: nat)

  predicate Worn(w: Wear, l: Limits, s: nat)
    requires s < |w.cycles|
  {
    l.cycles != 0 && w.cycles[s] >= l.cycles
  }

  /** Sectors start to start + n exist. */
  predicate InWear(w: Wear, start: nat, n: nat) {
    |w.states| == |w.cycles| && start + n <= |w.states|
  }

  /** A limit that has been reached refuses the sector. */
  predicate Refuses(w: Wear, l: Limits, s: nat)
    requires s < |w.cycles|
  {
    (l.total != 0 && w.total >= l.total) || Worn(w, l, s)
  }

  function EraseOne(w: Wear, l: Limits, s: nat): Wear
    requires InWear(w, s, 1)
  {
    if Refuses(w, l, s) || w.states[s] then w
    else Wear(w.states[s := true], w.cycles[s := w.cycles[s] + 1], w.total + 1)
  }

  function EraseMany(w: Wear, l: Limits, start: nat, n: nat): (v: Wear)
    requires InWear(w, start, n)
    ensures |v.states| == |w.states| && |v.cycles| == |w.cycles|
  {
    if n == 0 then w else EraseOne(EraseMany(w, l, start, n - 1), l, start + n - 1)
  }

  /** How many of the sectors are not flagged erased. */
  function Unerased(states: seq<bool>, start: nat, n: nat): nat
    requires start + n <= |states|
  {
    if n == 0 then 0 else Unerased(states, start, n - 1) + (if states[start + n - 1] then 0 else 1)
  }

  predicate AllErased(states: seq<bool>, start: nat, n: nat)
    requires start + n <= |states|
  {
    forall s :: start <= s < start + n ==> states[s]
  }

  /** No sector that has to be erased is worn out, and the total leaves room for all of them. */
  predicate CanErase(w: Wear, l: Limits, start: nat, n: nat)
    requires InWear(w, start, n)
  {
    && (forall s :: start <= s < start + n && !w.states[s] ==> !Worn(w, l, s))
    && (Unerased(w.states, start, n) == 0 || l.total == 0 || w.total + Unerased(w.states, start, n) <= l.total)
  }

  /** Other sectors keep flags and counters, and no flag is lost. */
  lemma {:induction false} EraseManyKeeps(w: Wear, l: Limits, start: nat, n: nat)
    requires InWear(w, start, n)
    ensures var v := EraseMany(w, l, start, n);
            && (forall s :: 0 <= s < |w.states| && !(start <= s < start + n) ==>
                  v.states[s] == w.states[s] && v.cycles[s] == w.cycles[s])
            && (forall s :: 0 <= s < |w.states| && w.states[s] ==> v.states[s])
  {
    if n > 0 {
      EraseManyKeeps(w, l, start, n - 1);
    }
  }

  lemma CanEraseMore(w: Wear, l: Limits, start: nat, n: nat)
    requires InWear(w, start, n + 1)
    ensures CanErase(w, l, start, n + 1) <==>
              && CanErase(w, l, start, n)
              && (w.states[start + n] || (!Worn(w, l, start + n)
                  && (l.total == 0 || w.total + Unerased(w.states, start, n) < l.total)))
  {
  }

  lemma AllErasedMore(before: seq<bool>, after: seq<bool>, start: nat, n: nat)
    requires start + n < |before| && (after == before || after == before[start + n := true])
    ensures AllErased(after, start, n + 1) <==> AllErased(before, start, n) && after[start + n]
  {
    if AllErased(after, start, n + 1) {
      forall s | start <= s < start + n ensures before[s] {
        assert after[s];
      }
    }
  }

  lemma NextUnchanged(w: Wear, l: Limits, start: nat, n: nat)
    requires InWear(w, start, n + 1)
    ensures var v, s := EraseMany(w, l, start, n), start + n;
            v.states[s] == w.states[s] && v.cycles[s] == w.cycles[s]
  {
    EraseManyKeeps(w, l, start, n);
  }

  /** All sectors end up flagged if and only if the limits have room for those that were not; then
      each of those has cost one cycle. */
  lemma {:induction false} AllErasedExactly(w: Wear, l: Limits, start: nat, n: nat)
    requires InWear(w, start, n)
    ensures AllErased(EraseMany(w, l, start, n).states, start, n) <==> CanErase(w, l, start, n)
    ensures CanErase(w, l, start, n) ==>
              EraseMany(w, l, start, n).total == w.total + Unerased(w.states, start, n)
  {
    if n > 0 {
      var s, before := start + n - 1, EraseMany(w, l, start, n - 1);
      AllErasedExactly(w, l, start, n - 1);
      NextUnchanged(w, l, start, n - 1);
      CanEraseMore(w, l, start, n - 1);
      var after := EraseOne(before, l, s);
      AllErasedMore(before.states, after.states, start, n - 1);
    }
  }

  /** A total of one cycle stops a block of two sectors after the first. */
  lemma LimitStopsBlock()
    ensures var w, l := Wear([false, false], [0, 0], 0), Limits(1, 0);
            !CanErase(w, l, 0, 2) && EraseMany(w, l, 0, 2) == Wear([true, false], [1, 0], 1)
  {
    var w, l := Wear([false, false], [0, 0], 0), Limits(1, 0);
    assert EraseMany(w, l, 0, 1) == Wear([true, false], [1, 0], 1);
    AllErasedExactly(w, l, 0, 2);
  }

  /** No sector of the range is worn out, flagged or not, and the total is below its limit when the last
      one comes. */
  predicate LimitsAllow(w: Wear, l: Limits, start: nat, n: nat)
    requires InWear(w, start, n)
  {
    && (forall s :: start <= s < start + n ==> !Worn(w, l, s))
    && (n == 0 || l.total == 0 || w.total + Unerased(w.states, start, n - 1) < l.total)
  }

  lemma AllowedCanErase(w: Wear, l: Limits, start: nat, n: nat)
    requires InWear(w, start, n) && LimitsAllow(w, l, start, n)
    ensures CanErase(w, l, start, n)
  {
  }

  /** Erasing one sector after the other, the first that is refused is the first that the limits do not
      allow. */
  lemma RefusalOfNext(w: Wear, l: Limits, start: nat, n: nat)
    requires InWear(w, start, n + 1) && LimitsAllow(w, l, start, n)
    ensures Refuses(EraseMany(w, l, start, n), l, start + n) <==> !LimitsAllow(w, l, start, n + 1)
  {
    AllowedCanErase(w, l, start, n);
    AllErasedExactly(w, l, start, n);
    NextUnchanged(w, l, start, n);
    var v := EraseMany(w, l, start, n);
    assert Worn(v, l, start + n) <==> Worn(w, l, start + n);
    assert LimitsAllow(w, l, start, n + 1) <==>
             !Worn(w, l, start + n) && (l.total == 0 || w.total + Unerased(w.states, start, n) < l.total);
  }

  predicate SectorSame(mem: Bytes, after: Bytes, sectorSize: nat, s: nat)
    requires |after| == |mem|
  {
    forall i :: s * sectorSize <= i < s * sectorSize + sectorSize && i < |mem| ==> after[i] == mem[i]
  }

  /** A sector that has got its flag is blank; every other sector is as it was. */
  predicate SectorTells(mem: Bytes, states: seq<bool>, after: Bytes, flags: seq<bool>, sectorSize: nat, s: nat)
    requires |after| == |mem| && |flags| == |states| && s < |states|
  {
    if flags[s] && !states[s] then SectorBlank(after, sectorSize, s) else SectorSame(mem, after, sectorSize, s)
  }

  predicate FlagsTell(mem: Bytes, states: seq<bool>, after: Bytes, flags: seq<bool>, sectorSize: nat) {
    && |after| == |mem| && |flags| == |states|
    && forall s: nat :: s < |states| ==> SectorTells(mem, states, after, flags, sectorSize, s)
  }

  lemma SectorsApart(s: nat, t: nat, sectorSize: nat)
    requires s < t
    ensures s * sectorSize + sectorSize <= t * sectorSize
  {
    MulMonotone(s + 1, t, sectorSize);
    assert (s + 1) * sectorSize == s * sectorSize + sectorSize;
  }

  /** One more sector, erased or not. */
  lemma FlagsTellMore(mem: Bytes, states: seq<bool>, was: Bytes, flags: seq<bool>, sectorSize: nat, s: nat)
    requires FlagsTell(mem, states, was, flags, sectorSize)
    requires s < |flags| && !flags[s] && s * sectorSize + sectorSize <= |mem|
    requires forall t :: 0 <= t < |states| && states[t] ==> flags[t]
    ensures FlagsTell(mem, states, Erased(was, s * sectorSize, sectorSize), flags[s := true], sectorSize)
  {
    var after, now := Erased(was, s * sectorSize, sectorSize), flags[s := true];
    forall t: nat | t < |states| ensures SectorTells(mem, states, after, now, sectorSize, t) {
      assert SectorTells(mem, states, was, flags, sectorSize, t);
      if t < s {
        SectorsApart(t, s, sectorSize);
      } else if s < t {
        SectorsApart(s, t, sectorSize);
      }
    }
  }

  /** Byte i lies in one sector, which is among n sectors exactly if the byte is among theirs. */
  lemma ByteInSector(i: nat, sectors: nat, sectorSize: nat, start: nat, n: nat) returns (s: nat)
    requires sectorSize > 0 && i < sectors * sectorSize
    ensures s < sectors && s * sectorSize <= i < s * sectorSize + sectorSize
    ensures start <= s < start + n <==> start * sectorSize <= i < start * sectorSize + n * sectorSize
  {
    s := i / sectorSize;
    DivInRange(i, sectors, sectorSize);
    if s < start {
      SectorsApart(s, start, sectorSize);
    } else {
      MulMonotone(start, s, sectorSize);
    }
    assert (start + n) * sectorSize == start * sectorSize + n * sectorSize;
    if s < start + n {
      SectorsApart(s, start + n, sectorSize);
    } else {
      MulMonotone(start + n, s, sectorSize);
    }
  }

  /** The sectors that are blank after the erasure: those flagged then, and those that were blank. */
  predicate BlankAfter(mem: Bytes, flags: seq<bool>, sectorSize: nat, start: nat, n: nat)
    requires start + n <= |flags|
  {
    forall s: nat :: start <= s < start + n ==> flags[s] || SectorBlank(mem, sectorSize, s)
  }

  lemma RangeUntouched(mem: Bytes, states: seq<bool>, after: Bytes, flags: seq<bool>, sectorSize: nat,
                       start: nat, n: nat)
    requires sectorSize > 0 && |mem| == |states| * sectorSize && start + n <= |states|
    requires FlagsTell(mem, states, after, flags, sectorSize)
    requires forall s :: 0 <= s < |states| && !(start <= s < start + n) ==> flags[s] == states[s]
    ensures PartlyErased(mem, after, start * sectorSize, n * sectorSize)
  {
    forall i: nat | i < |mem|
      ensures after[i] == mem[i]
              || (start * sectorSize <= i < start * sectorSize + n * sectorSize && after[i] == BLANK)
    {
      var s := ByteInSector(i, |states|, sectorSize, start, n);
      assert SectorTells(mem, states, after, flags, sectorSize, s);
    }
  }

  lemma BlankIsErased(mem: Bytes, states: seq<bool>, after: Bytes, flags: seq<bool>, sectorSize: nat,
                      start: nat, n: nat)
    requires sectorSize > 0 && |mem| == |states| * sectorSize && start + n <= |states|
    requires Sound(mem, states, sectorSize) && FlagsTell(mem, states, after, flags, sectorSize)
    requires BlankAfter(mem, flags, sectorSize, start, n)
    ensures forall i: nat :: i < |after| && start * sectorSize <= i < start * sectorSize + n * sectorSize ==>
              after[i] == BLANK
  {
    forall i: nat | i < |after| && start * sectorSize <= i < start * sectorSize + n * sectorSize
      ensures after[i] == BLANK
    {
      var s := ByteInSector(i, |states|, sectorSize, start, n);
      assert SectorTells(mem, states, after, flags, sectorSize, s);
      assert states[s] ==> SectorBlank(mem, sectorSize, s);
    }
  }

  lemma NotBlankStays(mem: Bytes, states: seq<bool>, after: Bytes, flags: seq<bool>, sectorSize: nat,
                      start: nat, n: nat)
    returns (i: nat)
    requires sectorSize > 0 && start + n <= |states| && FlagsTell(mem, states, after, flags, sectorSize)
    requires !BlankAfter(mem, flags, sectorSize, start, n)
    ensures i < |after| && start * sectorSize <= i < start * sectorSize + n * sectorSize && after[i] != BLANK
  {
    var s: nat :| start <= s < start + n && !flags[s] && !SectorBlank(mem, sectorSize, s);
    i :| s * sectorSize <= i < s * sectorSize + sectorSize && i < |mem| && mem[i] != BLANK;
    assert SectorTells(mem, states, after, flags, sectorSize, s);
    MulMonotone(start, s, sectorSize);
    SectorsApart(s, start + n, sectorSize);
    assert (start + n) * sectorSize == start * sectorSize + n * sectorSize;
  }

  /** On a chip whose flags are right the range is erased exactly if each of its sectors is flagged
      at the end or was blank before. */
  lemma RangeErasedExactly(mem: Bytes, states: seq<bool>, after: Bytes, flags: seq<bool>, sectorSize: nat,
                           start: nat, n: nat)
    requires sectorSize > 0 && |mem| == |states| * sectorSize && start + n <= |states|
    requires Sound(mem, states, sectorSize) && FlagsTell(mem, states, after, flags, sectorSize)
    requires forall s :: 0 <= s < |states| && !(start <= s < start + n) ==> flags[s] == states[s]
    ensures start * sectorSize + n * sectorSize <= |mem|
    ensures after == Erased(mem, start * sectorSize, n * sectorSize) <==> BlankAfter(mem, flags, sectorSize, start, n)
  {
    var first, size := start * sectorSize, n * sectorSize;
    assert (start + n) * sectorSize == first + size;
    MulMonotone(start + n, |states|, sectorSize);
    RangeUntouched(mem, states, after, flags, sectorSize, start, n);
    if BlankAfter(mem, flags, sectorSize, start, n) {
      BlankIsErased(mem, states, after, flags, sectorSize, start, n);
      assert after == Erased(mem, first, size);
    } else {
      var i := NotBlankStays(mem, states, after, flags, sectorSize, start, n);
      assert Erased(mem, first, size)[i] == BLANK;
    }
  }

  ghost predicate Apart(a: object, b: object) {
    a != b
  }

  datatype Rc = Ok | Failed

  class SpiFlash {
    const chipSize: nat
    const blockSize: nat
    const sectorSize: nat
    const pageSize: nat
    const sectors: nat
    const memory: array<Byte>
    const eraseStates: array<bool>
    const eraseCycles: array<nat>
    var totalLimit: nat       // 0: no limit
    var cyclesLimit: nat
    var total: nat

    ghost predicate Valid()
      reads this
    {
      && pageSize > 0 && sectorSize > 0 && sectorSize % pageSize == 0
      && sectors * sectorSize == chipSize
      && Apart(memory, eraseStates) && Apart(memory, eraseCycles) && Apart(eraseStates, eraseCycles)
      && memory.Length == chipSize && eraseStates.Length == sectors && eraseCycles.Length == sectors
    }

    ghost predicate Counted()
      reads this, eraseCycles
    {
      Counts(total, eraseCycles[..], totalLimit, cyclesLimit)
    }

    ghost predicate Trusted()
      reads this, memory, eraseStates
    {
      Sound(memory[..], eraseStates[..], sectorSize)
    }

    ghost function State(): (w: Wear)
      requires Valid()
      reads this, eraseStates, eraseCycles
      ensures |w.states| == |w.cycles| == sectors
    {
      Wear(eraseStates[..], eraseCycles[..], total)
    }

    function GetLimits(): Limits
      reads this
    {
      Limits(totalLimit, cyclesLimit)
    }

    predicate TotalReached()
      reads this
    {
      totalLimit != 0 && total >= totalLimit
    }

    predicate WornOut(s: nat)
      requires s < eraseCycles.Length
      reads this, eraseCycles
    {
      cyclesLimit != 0 && eraseCycles[s] >= cyclesLimit
    }

    /** init: the memory starts blank and every flag set; then an image is copied in without
        clearing any flag. */
    constructor (chipSize: nat, blockSize: nat, sectorSize: nat, pageSize: nat, offset: nat, image: Bytes)
      requires pageSize > 0 && sectorSize > 0 && sectorSize % pageSize == 0 && chipSize % sectorSize == 0
      requires offset + |image| <= chipSize
      ensures Valid() && Counted()
      ensures fresh(memory) && fresh(eraseStates) && fresh(eraseCycles)
      ensures this.chipSize == chipSize && this.blockSize == blockSize
      ensures this.sectorSize == sectorSize && this.pageSize == pageSize
      ensures State() == Wear(seq(sectors, _ => true), seq(sectors, _ => 0), 0) && GetLimits() == Limits(0, 0)
      ensures memory[..] == Filled(Blank(chipSize), offset, image)
      ensures Trusted() <==> image == Blank(|image|)
    {
      this.chipSize, this.blockSize, this.sectorSize, this.pageSize := chipSize, blockSize, sectorSize, pageSize;
      sectors := chipSize / sectorSize;
      memory := new Byte[chipSize](_ => BLANK);
      eraseStates := new bool[chipSize / sectorSize](_ => true);
      eraseCycles := new nat[chipSize / sectorSize](_ => 0);
      totalLimit, cyclesLimit, total := 0, 0, 0;
      new;
      forall i | 0 <= i < |image| {
        memory[offset + i] := image[i];
      }
      SumZero(sectors);
      assert eraseCycles[..] == seq(sectors, _ => 0);
      ImageTrust(memory[..], eraseStates[..], sectorSize, offset, image);
    }

    /** set_erase_cycles_limit. A limit below what some sector has seen already is exceeded at once. */
    method SetEraseCyclesLimit(limit: nat)
      modifies this`cyclesLimit
      ensures cyclesLimit == limit
      ensures old(Counted()) ==>
                (Counted() <==> (limit == 0 || forall s :: 0 <= s < eraseCycles.Length ==> eraseCycles[s] <= limit))
    {
      cyclesLimit := limit;
    }

    /** set_total_erase_cycles_limit. */
    method SetTotalEraseCyclesLimit(limit: nat)
      modifies this`totalLimit
      ensures totalLimit == limit
      ensures old(Counted()) ==> (Counted() <==> (limit == 0 || total <= limit))
    {
      totalLimit := limit;
    }

    /** erase_page. */
    method ErasePage(page: nat)
      requires Valid() && page * pageSize + pageSize <= chipSize
      modifies memory
      ensures memory[..] == Erased(old(memory[..]), page * pageSize, pageSize)
    {
      forall i | page * pageSize <= i < page * pageSize + pageSize {
        memory[i] := BLANK;
      }
    }

    /** The pages of one sector. */
    method ErasePages(sector: nat)
      requires Valid() && sector < sectors
      modifies memory
      ensures sector * sectorSize + sectorSize <= chipSize
      ensures memory[..] == Erased(old(memory[..]), sector * sectorSize, sectorSize)
    {
      SectorInChip(sector, sectors, sectorSize);
      ghost var first, mem := sector * sectorSize, memory[..];
      var pagesPerSector := sectorSize / pageSize;
      var startPage := sector * pagesPerSector;
      PagesOfSector(sector, pageSize, pagesPerSector, sectorSize);
      assert memory[..] == Erased(mem, first, 0);
      for i := startPage to startPage + pagesPerSector
        invariant first <= i * pageSize <= first + sectorSize
        invariant i * pageSize == first + (i - startPage) * pageSize
        invariant memory[..] == Erased(mem, first, i * pageSize - first)
      {
        NextPage(i, startPage, pagesPerSector, pageSize);
        EraseSplit(mem, first, i * pageSize - first, pageSize);
        ErasePage(i);
      }
    }

    /** erase_sector. A limit that has been reached refuses; a sector that is flagged erased is
        skipped and its counters stay. On a trusted chip the skipping cannot be seen. */
    method EraseSector(sector: nat) returns (rc: Rc)
      requires Valid() && sector < sectors
      modifies this`total, memory, eraseStates, eraseCycles
      ensures sector * sectorSize + sectorSize <= chipSize
      ensures rc == if old(TotalReached() || WornOut(sector)) then Failed else Ok
      ensures rc == Failed || old(eraseStates[sector]) ==>
                && memory[..] == old(memory[..]) && eraseStates[..] == old(eraseStates[..])
                && eraseCycles[..] == old(eraseCycles[..]) && total == old(total)
      ensures rc == Ok && !old(eraseStates[sector]) ==>
                && memory[..] == Erased(old(memory[..]), sector * sectorSize, sectorSize)
                && eraseStates[..] == old(eraseStates[..])[sector := true]
                && eraseCycles[..] == old(eraseCycles[..])[sector := old(eraseCycles[sector]) + 1]
                && total == old(total) + 1
      ensures old(Counted()) ==> Counted()
      ensures old(Trusted()) ==> Trusted()
      ensures old(Trusted()) && rc == Ok ==>
                memory[..] == Erased(old(memory[..]), sector * sectorSize, sectorSize)
    {
      SectorInChip(sector, sectors, sectorSize);
      if TotalReached() {
        return Failed;
      }
      if WornOut(sector) {
        return Failed;
      }
      if eraseStates[sector] {
        if Trusted() {
          ErasedAgain(memory[..], eraseStates[..], sectorSize, sector);
        }
        return Ok;
      }
      if Trusted() {
        EraseKeepsSound(memory[..], eraseStates[..], sectorSize, sector);
      }
      if Counted() {
        CountOneMore(total, eraseCycles[..], totalLimit, cyclesLimit, sector);
      }
      ErasePages(sector);
      CountErase(sector);
      return Ok;
    }

    method CountErase(sector: nat)
      requires Valid() && sector < sectors
      modifies this`total, eraseStates, eraseCycles
      ensures eraseCycles[..] == old(eraseCycles[..])[sector := old(eraseCycles[sector]) + 1]
      ensures total == old(total) + 1
      ensures eraseStates[..] == old(eraseStates[..])[sector := true]
    {
      eraseCycles[sector] := eraseCycles[sector] + 1;
      total := total + 1;
      eraseStates[sector] := true;
    }

    /** erase_block. The answers of the single sectors are dropped: the result is always success, but
        the block is fully flagged only if no sector that has to be erased is worn out and the total
        leaves room for all of them. The block is made of n sectors from start on. */
    method EraseBlock(block: nat) returns (rc: Rc, ghost start: nat, ghost n: nat)
      requires Valid() && blockSize % sectorSize == 0 && block * blockSize + blockSize <= chipSize
      modifies this`total, memory, eraseStates, eraseCycles
      ensures rc == Ok
      ensures start * sectorSize == block * blockSize && n * sectorSize == blockSize && start + n <= sectors
      ensures State() == EraseMany(old(State()), GetLimits(), start, n)
      ensures FlagsTell(old(memory[..]), old(eraseStates[..]), memory[..], eraseStates[..], sectorSize)
      ensures AllErased(eraseStates[..], start, n) <==> CanErase(old(State()), GetLimits(), start, n)
      ensures old(Counted()) ==> Counted()
      ensures PartlyErased(old(memory[..]), memory[..], block * blockSize, blockSize)
      ensures old(Trusted()) ==>
                && Trusted()
                && (memory[..] == Erased(old(memory[..]), block * blockSize, blockSize)
                    <==> BlankAfter(old(memory[..]), eraseStates[..], sectorSize, start, n))
    {
      ghost var mem, was := memory[..], State();
      var sectorsPerBlock := blockSize / sectorSize;
      var startSector := block * sectorsPerBlock;
      start, n := startSector, sectorsPerBlock;
      BlockInChip(block, start, n);
      EraseSectors(startSector, startSector + sectorsPerBlock);
      BlockResult(start, n, mem, was, memory[..], eraseStates[..]);
      rc := Ok;
    }

    /** Its loop. */
    method EraseSectors(start: nat, end: nat)
      requires Valid() && start <= end <= sectors
      modifies this`total, memory, eraseStates, eraseCycles
      ensures State() == EraseMany(old(State()), GetLimits(), start, end - start)
      ensures FlagsTell(old(memory[..]), old(eraseStates[..]), memory[..], eraseStates[..], sectorSize)
      ensures old(Counted()) ==> Counted()
      ensures old(Trusted()) ==> Trusted()
    {
      ghost var mem, was := memory[..], State();
      for i := start to end
        invariant old(Counted()) ==> Counted()
        invariant old(Trusted()) ==> Trusted()
        invariant State() == EraseMany(was, GetLimits(), start, i - start)
        invariant FlagsTell(mem, was.states, memory[..], eraseStates[..], sectorSize)
      {
        var _ := EraseOneOfRange(i, start, mem, was);
      }
    }

    /** Erases one more sector of a range. */
    method EraseOneOfRange(sector: nat, ghost start: nat, ghost mem: Bytes, ghost was: Wear) returns (rc: Rc)
      requires Valid() && start <= sector < sectors && |mem| == chipSize && |was.states| == |was.cycles| == sectors
      requires FlagsTell(mem, was.states, memory[..], eraseStates[..], sectorSize)
      requires State() == EraseMany(was, GetLimits(), start, sector - start)
      modifies this`total, memory, eraseStates, eraseCycles
      ensures rc == if Refuses(old(State()), GetLimits(), sector) then Failed else Ok
      ensures rc == Failed ==> State() == old(State())
      ensures State() == EraseMany(was, GetLimits(), start, sector - start + 1)
      ensures FlagsTell(mem, was.states, memory[..], eraseStates[..], sectorSize)
      ensures old(Counted()) ==> Counted()
      ensures old(Trusted()) ==> Trusted()
    {
      SectorInChip(sector, sectors, sectorSize);
      EraseManyKeeps(was, GetLimits(), start, sector - start);
      ghost var before := State();
      if !eraseStates[sector] {
        FlagsTellMore(mem, was.states, memory[..], eraseStates[..], sectorSize, sector);
      }
      rc := EraseSector(sector);
      assert State() == EraseOne(before, GetLimits(), sector);
    }

    lemma BlockInChip(block: nat, start: nat, n: nat)
      requires Valid() && blockSize % sectorSize == 0 && block * blockSize + blockSize <= chipSize
      requires n == blockSize / sectorSize && start == block * n
      ensures start * sectorSize == block * blockSize && n * sectorSize == blockSize && start + n <= sectors
    {
      PagesOfSector(block, sectorSize, n, blockSize);
      assert (start + n) * sectorSize == start * sectorSize + n * sectorSize;
      if start + n > sectors {
        SectorsApart(sectors, start + n, sectorSize);
      }
    }

    lemma BlockResult(start: nat, n: nat, mem: Bytes, was: Wear, after: Bytes, flags: seq<bool>)
      requires Valid() && start + n <= sectors
      requires |mem| == chipSize && |was.states| == sectors && |was.cycles| == sectors
      requires FlagsTell(mem, was.states, after, flags, sectorSize)
      requires flags == EraseMany(was, GetLimits(), start, n).states
      ensures AllErased(flags, start, n) <==> CanErase(was, GetLimits(), start, n)
      ensures PartlyErased(mem, after, start * sectorSize, n * sectorSize)
      ensures Sound(mem, was.states, sectorSize) ==>
                && start * sectorSize + n * sectorSize <= |mem|
                && (after == Erased(mem, start * sectorSize, n * sectorSize)
                    <==> BlankAfter(mem, flags, sectorSize, start, n))
    {
      EraseManyKeeps(was, GetLimits(), start, n);
      AllErasedExactly(was, GetLimits(), start, n);
      RangeUntouched(mem, was.states, after, flags, sectorSize, start, n);
      if Sound(mem, was.states, sectorSize) {
        RangeErasedExactly(mem, was.states, after, flags, sectorSize, start, n);
      }
    }

    ghost predicate NoneWornOut(addr: nat, size: nat)
      requires Valid()
      reads this, eraseCycles
    {
      forall s :: 0 <= s < sectors && Touched(addr, size, sectorSize, s) ==> !WornOut(s)
    }

    /** The sectors from start to s are not worn out, so that the loop below comes to clear the flag of s. */
    ghost predicate Cleared(start: nat, end: nat, s: nat)
      requires Valid()
      reads this, eraseCycles
    {
      start <= s <= end && s < sectors && forall t :: start <= t <= s ==> !WornOut(t)
    }

    /** The check and the flags of sectors start to end: they lose their flags, up to the first that
        is worn out. */
    method ClearSectors(start: nat, end: nat) returns (rc: Rc)
      requires Valid() && start <= end < sectors
      modifies eraseStates
      ensures rc == Ok <==> forall s :: start <= s <= end ==> !WornOut(s)
      ensures forall s: nat :: s < sectors ==> eraseStates[s] == (old(eraseStates[s]) && !Cleared(start, end, s))
    {
      for i := start to end + 1
        invariant forall s :: start <= s < i ==> !WornOut(s) && !eraseStates[s]
        invariant forall s :: 0 <= s < sectors && !(start <= s < i) ==> eraseStates[s] == old(eraseStates[s])
      {
        if WornOut(i) {
          return Failed;
        }
        eraseStates[i] := false;
      }
      return Ok;
    }

    ghost predicate FlagLost(addr: nat, size: nat, s: nat)
      requires Valid()
      reads this, eraseCycles
    {
      Cleared(addr / sectorSize, LastSector(addr, size, sectorSize), s)
    }

    /** The same for the sectors that a range touches. */
    method ClearFlags(addr: nat, size: nat) returns (rc: Rc)
      requires Valid() && addr + size <= chipSize && addr < chipSize
      modifies eraseStates
      ensures rc == Ok <==> NoneWornOut(addr, size)
      ensures forall s: nat :: s < sectors ==>
                eraseStates[s] == (old(eraseStates[s]) && !FlagLost(addr, size, s))
      ensures forall s: nat :: s < sectors && eraseStates[s] ==> old(eraseStates[s])
      ensures rc == Ok ==> forall s: nat :: s < sectors && Touched(addr, size, sectorSize, s) ==> !eraseStates[s]
    {
      RangeInSectors(addr, size, sectors, sectorSize);
      rc := ClearSectors(addr / sectorSize, LastSector(addr, size, sectorSize));
    }

    method ProgramBytes(addr: nat, data: Bytes)
      requires Valid() && addr + |data| <= chipSize
      modifies memory
      ensures memory[..] == Programmed(old(memory[..]), addr, data)
    {
      ghost var mem := memory[..];
      for ctr := 0 to |data|
        invariant forall i :: 0 <= i < memory.Length ==>
                    memory[i] == if addr <= i < addr + ctr then data[i - addr] & mem[i] else mem[i]
      {
        memory[addr + ctr] := data[ctr] & memory[addr + ctr];
      }
    }

    /** write. The flags of the sectors in front of the first that is worn out are cleared although
        nothing is written. */
    method Write(addr: nat, data: Bytes) returns (rc: Rc)
      requires Valid() && addr + |data| <= chipSize && addr < chipSize
      modifies memory, eraseStates
      ensures rc == Ok <==> (!TotalReached() && NoneWornOut(addr, |data|))
      ensures memory[..] == if rc == Ok then Programmed(old(memory[..]), addr, data) else old(memory[..])
      ensures forall s: nat :: s < sectors ==>
                eraseStates[s] == (old(eraseStates[s]) && (TotalReached() || !FlagLost(addr, |data|, s)))
      ensures rc == Ok ==> forall s: nat :: s < sectors && Touched(addr, |data|, sectorSize, s) ==> !eraseStates[s]
      ensures old(Trusted()) ==> Trusted()
    {
      if TotalReached() {
        return Failed;
      }
      ghost var mem, flags := memory[..], eraseStates[..];
      rc := ClearFlags(addr, |data|);
      if rc == Ok {
        if old(Trusted()) {
          WriteKeepsSound(mem, flags, eraseStates[..], sectorSize, addr, data);
        }
        ProgramBytes(addr, data);
      } else if old(Trusted()) {
        FewerFlagsSound(mem, flags, eraseStates[..], sectorSize);
      }
    }

    /** read. */
    method Read(addr: nat, size: nat) returns (rc: Rc, content: Bytes)
      requires Valid() && addr + size <= chipSize && addr < chipSize
      ensures rc == Ok <==> (!TotalReached() && NoneWornOut(addr, size))
      ensures content == if rc == Ok then memory[addr..addr + size] else []
    {
      if TotalReached() {
        return Failed, [];
      }
      RangeInSectors(addr, size, sectors, sectorSize);
      for i := addr / sectorSize to LastSector(addr, size, sectorSize) + 1
        invariant forall s :: addr / sectorSize <= s < i ==> !WornOut(s)
      {
        if WornOut(i) {
          return Failed, [];
        }
      }
      return Ok, memory[addr..addr + size];
    }

    /** The mock esp_flash_erase_region: single sectors up to the first that the limits do not allow; done
        of them. */
    method EraseRegion(startAddr: nat, size: nat) returns (rc: Rc, ghost done: nat)
      requires Valid() && sectorSize == SEC_SIZE && startAddr / SEC_SIZE + size / SEC_SIZE <= sectors
      modifies this`total, memory, eraseStates, eraseCycles
      ensures done <= size / SEC_SIZE && (rc == Ok <==> done == size / SEC_SIZE)
      ensures LimitsAllow(old(State()), GetLimits(), startAddr / SEC_SIZE, done)
      ensures rc != Ok ==> !LimitsAllow(old(State()), GetLimits(), startAddr / SEC_SIZE, done + 1)
      ensures State() == EraseMany(old(State()), GetLimits(), startAddr / SEC_SIZE, done)
      ensures FlagsTell(old(memory[..]), old(eraseStates[..]), memory[..], eraseStates[..], sectorSize)
      ensures old(Counted()) ==> Counted()
      ensures old(Trusted()) ==> Trusted()
      ensures old(Trusted()) ==>
                && startAddr / SEC_SIZE * SEC_SIZE + done * SEC_SIZE <= chipSize
                && memory[..] == Erased(old(memory[..]), startAddr / SEC_SIZE * SEC_SIZE, done * SEC_SIZE)
    {
      var start := startAddr / SEC_SIZE;
      ghost var mem, was := memory[..], State();
      rc, done := EraseUpTo(start, start + size / SEC_SIZE);
      RangeResult(start, done, mem, was, rc);
    }

    /** Its loop. */
    method EraseUpTo(start: nat, end: nat) returns (rc: Rc, ghost done: nat)
      requires Valid() && start <= end <= sectors
      modifies this`total, memory, eraseStates, eraseCycles
      ensures done <= end - start && (rc == Ok <==> done == end - start)
      ensures RangeAt(old(memory[..]), old(State()), start, done, rc)
      ensures old(Counted()) ==> Counted()
      ensures old(Trusted()) ==> Trusted()
    {
      rc := Ok;
      var sector := start;
      done := 0;
      ghost var mem, was := memory[..], State();
      while sector != end && rc == Ok
        invariant start <= sector <= end
        invariant old(Counted()) ==> Counted()
        invariant old(Trusted()) ==> Trusted()
        invariant if rc == Ok then start + done == sector else start + done + 1 == sector
        invariant RangeAt(mem, was, start, done, rc)
        decreases end - sector
      {
        rc, done := EraseAllowed(sector, start, mem, was);
        sector := sector + 1;
      }
    }

    /** Where the loop stands: done sectors from start have been erased, and the limits allow no more if the
        next one was refused. */
    ghost predicate RangeAt(mem: Bytes, was: Wear, start: nat, done: nat, rc: Rc)
      requires Valid()
      reads this, memory, eraseStates, eraseCycles
    {
      && |mem| == chipSize && |was.states| == |was.cycles| == sectors && start + done <= sectors
      && FlagsTell(mem, was.states, memory[..], eraseStates[..], sectorSize)
      && State() == EraseMany(was, GetLimits(), start, done) && LimitsAllow(was, GetLimits(), start, done)
      && (rc != Ok ==> start + done < sectors && !LimitsAllow(was, GetLimits(), start, done + 1))
    }

    /** One turn of the loop. */
    method EraseAllowed(sector: nat, ghost start: nat, ghost mem: Bytes, ghost was: Wear)
      returns (rc: Rc, ghost done: nat)
      requires Valid() && start <= sector < sectors && RangeAt(mem, was, start, sector - start, Ok)
      modifies this`total, memory, eraseStates, eraseCycles
      ensures start + done == (if rc == Ok then sector + 1 else sector) && RangeAt(mem, was, start, done, rc)
      ensures old(Counted()) ==> Counted()
      ensures old(Trusted()) ==> Trusted()
    {
      RefusalOfNext(was, GetLimits(), start, sector - start);
      rc := EraseOneOfRange(sector, start, mem, was);
      done := if rc == Ok then sector + 1 - start else sector - start;
    }

    lemma RangeResult(start: nat, done: nat, mem: Bytes, was: Wear, rc: Rc)
      requires Valid() && RangeAt(mem, was, start, done, rc)
      ensures Sound(mem, was.states, sectorSize) ==>
                && start * sectorSize + done * sectorSize <= chipSize
                && memory[..] == Erased(mem, start * sectorSize, done * sectorSize)
    {
      AllowedCanErase(was, GetLimits(), start, done);
      BlockResult(start, done, mem, was, memory[..], eraseStates[..]);
    }
  }

  /** A chip of one block of two one-byte sectors, both written to. */
  method WrittenChip() returns (flash: SpiFlash)
    ensures fresh(flash) && fresh(flash.memory) && fresh(flash.eraseStates) && fresh(flash.eraseCycles)
    ensures flash.Valid() && flash.chipSize == flash.blockSize == 2 && flash.sectorSize == 1
    ensures flash.memory[..] == [0x00, 0x00]
    ensures flash.State() == Wear([false, false], [0, 0], 0) && flash.GetLimits() == Limits(0, 0)
  {
    flash := new SpiFlash(2, 2, 1, 1, 0, []);
    assert !flash.TotalReached() && flash.NoneWornOut(0, 2);
    var written := flash.Write(0, [0x00, 0x00]);
    assert Touched(0, 2, 1, 0) && Touched(0, 2, 1, 1);
  }

  /** EraseBlock answers Ok although the limit stops it half way. */
  method LimitedEraseBlock() returns (rc: Rc, content: Bytes)
    ensures rc == Ok && content == [BLANK, 0x00]
  {
    var flash := WrittenChip();
    flash.SetTotalEraseCyclesLimit(1);
    ghost var mem := flash.memory[..];
    ghost var start, n;
    rc, start, n := flash.EraseBlock(0);
    LimitStopsBlock();
    content := flash.memory[..];
    assert SectorTells(mem, [false, false], content, [true, false], 1, 0);
    assert SectorTells(mem, [false, false], content, [true, false], 1, 1);
  }

  /** With every flag set the flags are right if and only if the image is blank. */
  lemma ImageTrust(mem: Bytes, states: seq<bool>, sectorSize: nat, offset: nat, image: Bytes)
    requires sectorSize > 0 && |mem| == |states| * sectorSize && offset + |image| <= |mem|
    requires mem == Filled(Blank(|mem|), offset, image) && forall s :: 0 <= s < |states| ==> states[s]
    ensures Sound(mem, states, sectorSize) <==> image == Blank(|image|)
  {
    if Sound(mem, states, sectorSize) {
      forall i | 0 <= i < |image| ensures image[i] == BLANK {
        var s := (offset + i) / sectorSize;
        DivInRange(offset + i, |states|, sectorSize);
        assert states[s] && SectorBlank(mem, sectorSize, s);
        assert mem[offset + i] == image[i];
      }
    }
  }

  lemma DivInRange(a: nat, n: nat, d: nat)
    requires d > 0 && a < n * d
    ensures a / d < n && a / d * d <= a < a / d * d + d
  {
    if a / d >= n {
      MulMonotone(n, a / d, d);
    }
  }
}

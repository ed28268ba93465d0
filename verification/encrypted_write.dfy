/** esp_flash_write_encrypted of esp_flash_api.c and spi_flash_chip_generic_write_encrypted, for
    any block cipher that works on 16 bytes and depends on the address. */
module EncryptedWrite {
  import opened Arith
  import opened EspFlash
  import opened FlashBus
  import opened FlashCache
  import opened MemspiHost
  import opened NorFlash
  import opened SpiChip

  const BLOCK: nat := 16

  datatype Cipher = Cipher(enc: (nat, Bytes) -> Bytes, dec: (nat, Bytes) -> Bytes)

  ghost predicate BlockLaw(c: Cipher, addr: nat, b: Bytes) {
    |b| == BLOCK ==>
      && |c.enc(addr, b)| == BLOCK && c.dec(addr, c.enc(addr, b)) == b
      && |c.dec(addr, b)| == BLOCK && c.enc(addr, c.dec(addr, b)) == b
  }

  ghost predicate Lawful(c: Cipher) {
    forall addr: nat, b: Bytes :: BlockLaw(c, addr, b)
  }

  /** Block by block; data comes in whole blocks, a rest would be left as it is. */
  function Encrypted(c: Cipher, addr: nat, data: Bytes): (r: Bytes)
    requires Lawful(c)
    ensures |r| == |data|
    decreases |data|
  {
    if |data| < BLOCK then data
    else
      assert BlockLaw(c, addr, data[..BLOCK]);
      c.enc(addr, data[..BLOCK]) + Encrypted(c, addr + BLOCK, data[BLOCK..])
  }

  function Decrypted(c: Cipher, addr: nat, data: Bytes): (r: Bytes)
    requires Lawful(c)
    ensures |r| == |data|
    decreases |data|
  {
    if |data| < BLOCK then data
    else
      assert BlockLaw(c, addr, data[..BLOCK]);
      c.dec(addr, data[..BLOCK]) + Decrypted(c, addr + BLOCK, data[BLOCK..])
  }

  lemma {:induction false} DecryptEncrypted(c: Cipher, addr: nat, data: Bytes)
    requires Lawful(c)
    ensures Decrypted(c, addr, Encrypted(c, addr, data)) == data
    decreases |data|
  {
    if |data| >= BLOCK {
      var first, rest := data[..BLOCK], data[BLOCK..];
      assert BlockLaw(c, addr, first);
      var sealed := Encrypted(c, addr, data);
      assert sealed[..BLOCK] == c.enc(addr, first) && sealed[BLOCK..] == Encrypted(c, addr + BLOCK, rest);
      DecryptEncrypted(c, addr + BLOCK, rest);
      assert data == first + rest;
    }
  }

  lemma {:induction false} EncryptAppend(c: Cipher, addr: nat, a: Bytes, b: Bytes)
    requires Lawful(c) && |a| % BLOCK == 0
    ensures Encrypted(c, addr, a + b) == Encrypted(c, addr, a) + Encrypted(c, addr + |a|, b)
    decreases |a|
  {
    if a == [] {
      assert a + b == b;
    } else {
      var first, rest := a[..BLOCK], a[BLOCK..];
      assert (a + b)[..BLOCK] == first && (a + b)[BLOCK..] == rest + b;
      EncryptAppend(c, addr + BLOCK, rest, b);
    }
  }

  lemma MiddleOf(a: Bytes, b: Bytes, rest: Bytes)
    ensures (a + (b + rest))[|a|..|a| + |b|] == b
  {
  }

  /** Encrypting a piece of the data gives that piece of the encrypted data. */
  lemma EncryptedPiece(c: Cipher, addr: nat, data: Bytes, from: nat, to: nat)
    requires Lawful(c) && from % BLOCK == 0 && (to - from) % BLOCK == 0 && from <= to <= |data|
    ensures Encrypted(c, addr, data)[from..to] == Encrypted(c, addr + from, data[from..to])
  {
    var a, b, rest := data[..from], data[from..to], data[to..];
    assert data == a + (b + rest);
    EncryptAppend(c, addr, a, b + rest);
    EncryptAppend(c, addr + from, b, rest);
    MiddleOf(Encrypted(c, addr, a), Encrypted(c, addr + from, b), Encrypted(c, addr + to, rest));
  }

  lemma EncryptOne(c: Cipher, addr: nat, b: Bytes)
    requires Lawful(c) && |b| == BLOCK
    ensures |c.dec(addr, b)| == BLOCK
    ensures Encrypted(c, addr, c.dec(addr, b)) == b
  {
    assert BlockLaw(c, addr, b);
    var d := c.dec(addr, b);
    assert d[..BLOCK] == d && d[BLOCK..] == [];
  }

  /** What was written encrypted into an erased range decrypts to the data. */
  lemma EncryptedRoundTrip(c: Cipher, mem: Bytes, addr: nat, data: Bytes)
    requires Lawful(c) && |data| % BLOCK == 0 && addr + |data| <= |mem|
    requires mem[addr..addr + |data|] == Blank(|data|)
    ensures var after := Programmed(mem, addr, Encrypted(c, addr, data));
            && Decrypted(c, addr, after[addr..addr + |data|]) == data
            && SameOutside(mem, after, addr, |data|)
  {
    var sealed := Encrypted(c, addr, data);
    var after := Programmed(mem, addr, sealed);
    forall i | 0 <= i < |data| ensures after[addr + i] == sealed[i] {
      assert mem[addr + i] == mem[addr..addr + |data|][i];
      AndBlank(sealed[i]);
    }
    assert after[addr..addr + |data|] == sealed;
    DecryptEncrypted(c, addr, data);
  }

  /** A row whose ends hold what the flash holds there already: half a row decrypted and encrypted
      again. */
  function Row(mem: Bytes, rowAddr: nat, addr: nat, sealed: Bytes, end: nat): Bytes
    requires rowAddr <= addr && addr + |sealed| <= end <= |mem|
  {
    mem[rowAddr..addr] + sealed + mem[addr + |sealed|..end]
  }

  lemma RowAt(mem: Bytes, rowAddr: nat, addr: nat, sealed: Bytes, end: nat, i: nat)
    requires rowAddr <= addr && addr + |sealed| <= end <= |mem| && rowAddr <= i < end
    ensures |Row(mem, rowAddr, addr, sealed, end)| == end - rowAddr
    ensures Row(mem, rowAddr, addr, sealed, end)[i - rowAddr]
            == if addr <= i < addr + |sealed| then sealed[i - addr] else mem[i]
  {
  }

  /** Programming bytes over themselves changes nothing, and so does programming them in part. */
  lemma ProgramRow(mem: Bytes, rowAddr: nat, addr: nat, sealed: Bytes, end: nat)
    requires rowAddr <= addr && addr + |sealed| <= end <= |mem|
    ensures Programmed(mem, rowAddr, Row(mem, rowAddr, addr, sealed, end)) == Programmed(mem, addr, sealed)
  {
    var row := Row(mem, rowAddr, addr, sealed, end);
    forall i | 0 <= i < |mem| ensures Programmed(mem, rowAddr, row)[i] == Programmed(mem, addr, sealed)[i] {
      if rowAddr <= i < end {
        RowAt(mem, rowAddr, addr, sealed, end, i);
        AndBlank(mem[i]);
      }
    }
  }

  lemma ProgramRowPartly(mem: Bytes, after: Bytes, rowAddr: nat, addr: nat, sealed: Bytes, end: nat)
    requires rowAddr <= addr && addr + |sealed| <= end <= |mem|
    requires PartlyProgrammed(mem, after, rowAddr, Row(mem, rowAddr, addr, sealed, end))
    ensures PartlyProgrammed(mem, after, addr, sealed)
  {
    var row := Row(mem, rowAddr, addr, sealed, end);
    forall i: nat | i < |mem| ensures MayBe(mem, after, addr, sealed, i) {
      assert MayBe(mem, after, rowAddr, row, i);
      AndBlank(mem[i]);
    }
  }

  predicate SameInside(a: Bytes, b: Bytes, addr: nat, len: nat) {
    |a| == |b| && forall i :: addr <= i < addr + len && i < |a| ==> a[i] == b[i]
  }

  /** At most one block away from the range. */
  predicate SameFarOff(a: Bytes, b: Bytes, addr: nat, len: nat) {
    |a| == |b| && forall i :: 0 <= i < |a| && (i + BLOCK < addr || i >= addr + len + BLOCK) ==> a[i] == b[i]
  }

  /** Whatever else a row holds, programming it programs the piece of data in it. */
  lemma ProgramRowInside(mem: Bytes, rowAddr: nat, row: Bytes, addr: nat, sealed: Bytes)
    requires rowAddr + |row| <= |mem| && rowAddr <= addr && addr + |sealed| <= rowAddr + |row|
    requires row[addr - rowAddr..addr - rowAddr + |sealed|] == sealed
    ensures SameInside(Programmed(mem, rowAddr, row), Programmed(mem, addr, sealed), addr, |sealed|)
  {
    var off := addr - rowAddr;
    forall i | addr <= i < addr + |sealed|
      ensures Programmed(mem, rowAddr, row)[i] == Programmed(mem, addr, sealed)[i]
    {
      assert row[off..off + |sealed|][i - addr] == row[i - rowAddr];
    }
  }

  // ---------------------------------------------------------------------------------------
  // Half rows
  // ---------------------------------------------------------------------------------------

  /** On ESP32 rows have 32 bytes. What is missing of the first and of the last one, in front of the data
      and behind it. */
  function FrontLen(esp32: bool, address: nat, len: nat): nat {
    if esp32 && len > 0 && address % 32 != 0 then BLOCK else 0
  }

  function BackLen(esp32: bool, address: nat, len: nat): nat {
    if esp32 && len > 0 && (address + len) % 32 != 0 then BLOCK else 0
  }

  /** The half rows that complete the data. */
  datatype Halves = Halves(front: Bytes, back: Bytes)

  predicate HalvesFit(esp32: bool, address: nat, len: nat, h: Halves) {
    |h.front| == FrontLen(esp32, address, len) && |h.back| == BackLen(esp32, address, len)
  }

  /** A request to write whole blocks, with its half rows in the chip. */
  predicate Blocks(size: nat, esp32: bool, address: nat, len: nat) {
    && address % BLOCK == 0 && len % BLOCK == 0
    && FrontLen(esp32, address, len) <= address && address + len + BackLen(esp32, address, len) <= size
  }

  lemma BlocksFit(size: nat, esp32: bool, address: nat, len: nat)
    requires address % BLOCK == 0 && len % BLOCK == 0 && address + len <= size && size % 32 == 0
    ensures Blocks(size, esp32, address, len)
  {
    if BackLen(esp32, address, len) > 0 {
      OddSixteen(address + len);
      RoomForRow(address + len - BLOCK, size);
    }
  }

  /** The rows that go out, in plain and encrypted. */
  function Rows(data: Bytes, h: Halves): Bytes {
    h.front + data + h.back
  }

  function SealedRows(c: Cipher, address: nat, data: Bytes, h: Halves): (r: Bytes)
    requires Lawful(c) && |h.front| <= address
    ensures |r| == |h.front| + |data| + |h.back|
  {
    Encrypted(c, address - |h.front|, Rows(data, h))
  }

  lemma SealedInParts(c: Cipher, esp32: bool, address: nat, data: Bytes, h: Halves)
    requires Lawful(c) && HalvesFit(esp32, address, |data|, h) && |data| % BLOCK == 0 && |h.front| <= address
    ensures SealedRows(c, address, data, h)
            == Encrypted(c, address - |h.front|, h.front) + Encrypted(c, address, data)
               + Encrypted(c, address + |data|, h.back)
  {
    EncryptAppend(c, address - |h.front|, h.front + data, h.back);
    EncryptAppend(c, address - |h.front|, h.front, data);
  }

  /** The flash after the rows have been programmed. */
  function Rewritten(c: Cipher, mem: Bytes, esp32: bool, address: nat, data: Bytes, h: Halves): (r: Bytes)
    requires Lawful(c) && HalvesFit(esp32, address, |data|, h) && Blocks(|mem|, esp32, address, |data|)
    ensures |r| == |mem|
  {
    Programmed(mem, address - |h.front|, SealedRows(c, address, data, h))
  }

  /** Each half encrypts to what the flash holds in its place. */
  predicate ReadRight(c: Cipher, mem: Bytes, esp32: bool, address: nat, len: nat, h: Halves)
    requires Lawful(c) && HalvesFit(esp32, address, len, h) && Blocks(|mem|, esp32, address, len)
  {
    && Encrypted(c, address - |h.front|, h.front) == mem[address - |h.front|..address]
    && Encrypted(c, address + len, h.back) == mem[address + len..address + len + |h.back|]
  }

  /** Rows whose ends are what the flash holds change what is between them. */
  lemma ProgramRows(mem: Bytes, after: Bytes, low: nat, rows: Bytes, front: Bytes, address: nat, sealed: Bytes,
                    back: Bytes)
    requires low + |front| == address && address + |sealed| + |back| <= |mem|
    requires rows == front + sealed + back && front == mem[low..address]
    requires back == mem[address + |sealed|..address + |sealed| + |back|]
    ensures Programmed(mem, low, rows) == Programmed(mem, address, sealed)
    ensures PartlyProgrammed(mem, after, low, rows) ==> PartlyProgrammed(mem, after, address, sealed)
  {
    var end := address + |sealed| + |back|;
    assert rows == Row(mem, low, address, sealed, end);
    ProgramRow(mem, low, address, sealed, end);
    if PartlyProgrammed(mem, after, low, rows) {
      ProgramRowPartly(mem, after, low, address, sealed, end);
    }
  }

  /** With right halves nothing but the range changes, even if the rows are programmed in part. */
  lemma RightHalves(c: Cipher, mem: Bytes, after: Bytes, esp32: bool, address: nat, data: Bytes, h: Halves)
    requires Lawful(c) && HalvesFit(esp32, address, |data|, h) && Blocks(|mem|, esp32, address, |data|)
    requires ReadRight(c, mem, esp32, address, |data|, h)
    ensures Rewritten(c, mem, esp32, address, data, h) == Programmed(mem, address, Encrypted(c, address, data))
    ensures PartlyProgrammed(mem, after, address - |h.front|, SealedRows(c, address, data, h)) ==>
              PartlyProgrammed(mem, after, address, Encrypted(c, address, data))
  {
    var low := address - |h.front|;
    var front, sealed, back := Encrypted(c, low, h.front), Encrypted(c, address, data),
                               Encrypted(c, address + |data|, h.back);
    SealedInParts(c, esp32, address, data, h);
    ProgramRows(mem, after, low, SealedRows(c, address, data, h), front, address, sealed, back);
  }

  /** With any halves the range is written correctly. */
  lemma AnyHalves(c: Cipher, mem: Bytes, esp32: bool, address: nat, data: Bytes, h: Halves)
    requires Lawful(c) && HalvesFit(esp32, address, |data|, h) && Blocks(|mem|, esp32, address, |data|)
    ensures SameInside(Rewritten(c, mem, esp32, address, data, h),
                       Programmed(mem, address, Encrypted(c, address, data)), address, |data|)
  {
    SealedInParts(c, esp32, address, data, h);
    var front, sealed, back := Encrypted(c, address - |h.front|, h.front), Encrypted(c, address, data),
                               Encrypted(c, address + |data|, h.back);
    MiddleOf(front, sealed, back);
    assert front + sealed + back == front + (sealed + back);
    ProgramRowInside(mem, address - |h.front|, SealedRows(c, address, data, h), address, Encrypted(c, address, data));
  }

  /** A byte of a half row that is not part of the data. */
  predicate Neighbour(esp32: bool, address: nat, len: nat, i: nat) {
    || address - FrontLen(esp32, address, len) <= i < address
    || address + len <= i < address + len + BackLen(esp32, address, len)
  }

  predicate NeighboursZero(mem: Bytes, esp32: bool, address: nat, len: nat) {
    forall i: nat :: Neighbour(esp32, address, len, i) && i < |mem| ==> mem[i] == 0x00
  }

  function Zeros(n: nat): Bytes {
    seq(n, _ => 0x00)
  }

  /** Whatever the cipher, there are halves that clear every byte next to the data. */
  lemma LostHalf(c: Cipher, mem: Bytes, esp32: bool, address: nat, data: Bytes) returns (h: Halves)
    requires Lawful(c) && Blocks(|mem|, esp32, address, |data|)
    ensures HalvesFit(esp32, address, |data|, h)
    ensures NeighboursZero(Rewritten(c, mem, esp32, address, data, h), esp32, address, |data|)
  {
    var zeros := Zeros(BLOCK);
    var front: Bytes, back: Bytes := [], [];
    if FrontLen(esp32, address, |data|) > 0 {
      EncryptOne(c, address - BLOCK, zeros);
      front := c.dec(address - BLOCK, zeros);
    }
    if BackLen(esp32, address, |data|) > 0 {
      EncryptOne(c, address + |data|, zeros);
      back := c.dec(address + |data|, zeros);
    }
    h := Halves(front, back);
    SealedInParts(c, esp32, address, data, h);
    var low, sealed := address - |front|, SealedRows(c, address, data, h);
    var after := Rewritten(c, mem, esp32, address, data, h);
    forall i: nat | Neighbour(esp32, address, |data|, i) && i < |mem| ensures after[i] == 0x00 {
      assert sealed[i - low] == 0x00;
      AndZero(mem[i]);
    }
  }

  lemma AndZero(b: Byte)
    ensures b & 0x00 == 0x00 && 0x00 & b == 0x00
  {
  }

  /** Nothing but the range changes, whatever is read back. */
  ghost predicate AlwaysKeepsOutside(c: Cipher, mem: Bytes, esp32: bool, address: nat, data: Bytes)
    requires Lawful(c) && Blocks(|mem|, esp32, address, |data|)
  {
    forall h :: HalvesFit(esp32, address, |data|, h) ==>
      SameOutside(mem, Rewritten(c, mem, esp32, address, data, h), address, |data|)
  }

  /** That is so if and only if no row is written in half, or the other half of each is 0 in the flash
      already. */
  lemma OutsideKeptExactly(c: Cipher, mem: Bytes, esp32: bool, address: nat, data: Bytes)
    requires Lawful(c) && Blocks(|mem|, esp32, address, |data|)
    ensures AlwaysKeepsOutside(c, mem, esp32, address, data) <==> NeighboursZero(mem, esp32, address, |data|)
    ensures !NeedsReadBack(esp32, address, |data|) ==> NeighboursZero(mem, esp32, address, |data|)
  {
    if NeighboursZero(mem, esp32, address, |data|) {
      forall h | HalvesFit(esp32, address, |data|, h)
        ensures SameOutside(mem, Rewritten(c, mem, esp32, address, data, h), address, |data|)
      {
        ZeroNeighboursStay(c, mem, esp32, address, data, h);
      }
    } else {
      var h := LostHalf(c, mem, esp32, address, data);
      var after := Rewritten(c, mem, esp32, address, data, h);
      var i: nat :| Neighbour(esp32, address, |data|, i) && i < |mem| && mem[i] != 0x00;
      assert after[i] == 0x00;
    }
  }

  lemma ZeroNeighboursStay(c: Cipher, mem: Bytes, esp32: bool, address: nat, data: Bytes, h: Halves)
    requires Lawful(c) && HalvesFit(esp32, address, |data|, h) && Blocks(|mem|, esp32, address, |data|)
    requires NeighboursZero(mem, esp32, address, |data|)
    ensures SameOutside(mem, Rewritten(c, mem, esp32, address, data, h), address, |data|)
  {
    SealedInParts(c, esp32, address, data, h);
    var low, sealed := address - |h.front|, SealedRows(c, address, data, h);
    var after := Rewritten(c, mem, esp32, address, data, h);
    forall i: nat | i < |mem| && !(address <= i < address + |data|) ensures mem[i] == after[i] {
      if low <= i < low + |sealed| {
        assert Neighbour(esp32, address, |data|, i);
        AndZero(sealed[i - low]);
      }
    }
  }

  /** Some row is only half covered by the data: the rest of it has to be read back. */
  predicate NeedsReadBack(esp32: bool, address: nat, len: nat) {
    FrontLen(esp32, address, len) > 0 || BackLen(esp32, address, len) > 0
  }

  // ---------------------------------------------------------------------------------------
  // Rows
  // ---------------------------------------------------------------------------------------

  /** A naturally aligned block of the encryption hardware. */
  predicate NaturalBlock(addr: nat, len: nat) {
    (len == 16 && addr % 16 == 0) || (len == 32 && addr % 32 == 0) || (len == 64 && addr % 64 == 0)
  }

  lemma BlockInPage(addr: nat, len: nat, pageSize: nat)
    requires len > 0 && addr % len == 0 && pageSize > 0 && pageSize % len == 0
    ensures addr % pageSize + len <= pageSize
  {
    MultipleRemainder(addr, pageSize, len);
    MultipleGap(addr % pageSize, pageSize, len);
  }

  lemma BlockDivides(addr: nat, len: nat, pageSize: nat)
    requires NaturalBlock(addr, len) && pageSize % 64 == 0
    ensures addr % len == 0 && pageSize % len == 0
  {
  }

  lemma BlockIsEven(addr: nat, len: nat)
    requires NaturalBlock(addr, len)
    ensures addr % 2 == 0 && len % 2 == 0
  {
    var q := addr / len;
    if len == 16 {
      assert addr == 2 * (8 * q);
    } else if len == 32 {
      assert addr == 2 * (16 * q);
    } else {
      assert addr == 2 * (32 * q);
    }
  }

  /** Such a block is one slice, in either mode: it goes out as one page program. */
  lemma BlockIsOneSlice(dtr: bool, addr: nat, len: nat, pageSize: nat)
    requires NaturalBlock(addr, len) && pageSize > 0 && pageSize % 64 == 0 && (dtr ==> pageSize % 2 == 0)
    ensures Slices(dtr, addr, len, pageSize) == [Slice(addr, len)]
  {
    BlockDivides(addr, len, pageSize);
    BlockInPage(addr, len, pageSize);
    BlockIsEven(addr, len);
    assert DtrAlign(dtr, addr, len) == Slice(addr, len);
    WriteSliceIs(dtr, addr, len, pageSize);
    var s, n, rest := FirstSlice(dtr, addr, len, pageSize);
  }

  /** The block size chosen for an address and the remaining length. */
  function BlockSize(addr: nat, length: nat): nat {
    if addr % 64 == 0 && length >= 64 then 64
    else if addr % 32 == 0 && length >= 32 then 32
    else 16
  }

  lemma NaturalBlockInOneGo(addr: nat, len: nat)
    requires NaturalBlock(addr, len)
    ensures BlockSize(addr, len) == len
  {
  }

  /** A chip that executes what it is sent, answers in time and encrypts what it is given. */
  predicate Reliable(chip: Chip) {
    chip.obeys && chip.responds && chip.encrypts
  }

  /** One turn of the loop below: a block goes out as one page program. */
  method WriteBlock(chip: Chip, c: Cipher, block: Bytes, address: nat) returns (e: Err)
    requires chip.Valid() && Lawful(c) && chip.summary.bus == Held
    requires NaturalBlock(address, |block|) && address + |block| <= chip.size && chip.pageSize % 64 == 0
    modifies chip`busy, chip`working, chip`wel, chip`log, chip`summary, chip`mem
    ensures chip.Valid() && OnlyCommands(old(chip.summary), chip.summary)
    ensures PartlyProgrammed(old(chip.mem), chip.mem, address, Encrypted(c, address, block))
    ensures Sent(old(chip.summary.sent), chip.summary.sent, [Slice(address, |block|)], e == Ok)
    ensures e == Ok ==> !chip.working
    ensures chip.obeys ==> chip.summary.refused == old(chip.summary.refused)
    ensures e == Ok && chip.summary.refused == old(chip.summary.refused) ==>
              chip.mem == Programmed(old(chip.mem), address, Encrypted(c, address, block))
    ensures chip.obeys && chip.responds ==> e == Ok && chip.summary.upkeep == Upkept(old(chip.summary.upkeep), 5, 2)
  {
    BlockIsOneSlice(chip.dtr, address, |block|, chip.pageSize);
    Unprogrammed(chip.mem, address, Encrypted(c, address, block));
    ghost var l, poll;
    e, l := chip.SetWriteProtect(false);
    if e != Ok {
      return;
    }
    e := chip.Write(Encrypted(c, address, block), address);
    if e != Ok {
      return;
    }
    e, poll := chip.WaitIdle();
  }

  /** spi_flash_chip_generic_write_encrypted. The hardware writes the block it was given last in
      place of the plain data, whatever length is asked for, so that each block must be one page
      program of exactly the size that was prepared. */
  method ChipWriteEncrypted(chip: Chip, c: Cipher, row: Bytes, address: nat) returns (e: Err)
    requires chip.Valid() && Lawful(c) && chip.summary.bus == Held
    requires NaturalBlock(address, |row|) && address + |row| <= chip.size && chip.pageSize % 64 == 0
    modifies chip`busy, chip`working, chip`wel, chip`log, chip`summary, chip`mem
    ensures chip.Valid() && OnlyCommands(old(chip.summary), chip.summary)
    ensures PartlyProgrammed(old(chip.mem), chip.mem, address, Encrypted(c, address, row))
    ensures Sent(old(chip.summary.sent), chip.summary.sent, [Slice(address, |row|)], e == Ok)
    ensures e == Ok ==> !chip.working
    ensures chip.obeys ==> chip.summary.refused == old(chip.summary.refused)
    ensures e == Ok && (chip.obeys || chip.summary.refused == old(chip.summary.refused)) ==>
              chip.mem == Programmed(old(chip.mem), address, Encrypted(c, address, row))
    ensures Reliable(chip) ==> e == Ok && chip.summary.upkeep == Upkept(old(chip.summary.upkeep), 5, 2)
  {
    Unprogrammed(chip.mem, address, Encrypted(c, address, row));
    var accepts: bool := *;
    if !accepts && !chip.encrypts {
      return NotSupported;
    }
    ghost var sealed := Encrypted(c, address, row);
    var addr, length, turns := address, |row|, 0;
    e := Ok;
    while length > 0
      invariant if turns == 0 then length == |row| && addr == address else length == 0 && turns == 1
      invariant chip.Valid() && OnlyCommands(old(chip.summary), chip.summary)
      invariant chip.obeys ==> chip.summary.refused == old(chip.summary.refused)
      invariant e == Ok && (turns == 0 ==> chip.mem == old(chip.mem))
      invariant chip.summary.sent == old(chip.summary.sent) + if turns == 0 then [] else [Slice(address, |row|)]
      invariant if turns == 0 then chip.summary.upkeep == old(chip.summary.upkeep)
                else Reliable(chip) ==> chip.summary.upkeep == Upkept(old(chip.summary.upkeep), 5, 2)
      invariant turns == 1 ==> !chip.working && PartlyProgrammed(old(chip.mem), chip.mem, address, sealed)
      invariant turns == 1 && chip.summary.refused == old(chip.summary.refused) ==>
                  chip.mem == Programmed(old(chip.mem), address, sealed)
    {
      NaturalBlockInOneGo(addr, length);
      var blockSize := BlockSize(addr, length);
      e := WriteBlock(chip, c, row, addr);
      if e != Ok {
        return;
      }
      addr, length, turns := addr + blockSize, length - blockSize, turns + 1;
    }
  }

  /** What reading one block back comes to: it succeeds, or the buffer holds what it happened to hold. */
  datatype Reading = Reading(succeeds: bool, stale: Bytes)

  /** A chip that is still working answers anything, which is no success. */
  function Heard(r: Reading, working: bool): Reading {
    r.(succeeds := r.succeeds && !working)
  }

  function ReadBack(c: Cipher, mem: Bytes, at: nat, r: Reading): (block: Bytes)
    requires Lawful(c) && at + BLOCK <= |mem|
    ensures |block| == BLOCK
  {
    EncryptOne(c, at, mem[at..at + BLOCK]);
    if r.succeeds then c.dec(at, mem[at..at + BLOCK])
    else if |r.stale| == BLOCK then r.stale
    else Blank(BLOCK)
  }

  /** esp_flash_read_encrypted of one block, whose failure the caller ignores. */
  method ReadDecrypted(chip: Chip, c: Cipher, address: nat, r: Reading) returns (block: Bytes)
    requires chip.Valid() && Lawful(c) && address + BLOCK <= chip.size && (r.succeeds ==> !chip.working)
    ensures block == ReadBack(c, chip.mem, address, r)
  {
    block := ReadBack(c, chip.mem, address, r);
  }

  /** The halves that go with a request, read before anything is written. */
  function HalvesRead(c: Cipher, mem: Bytes, esp32: bool, address: nat, len: nat, front: Reading, back: Reading)
    : (h: Halves)
    requires Lawful(c) && Blocks(|mem|, esp32, address, len)
    ensures HalvesFit(esp32, address, len, h)
  {
    Halves(if FrontLen(esp32, address, len) > 0 then ReadBack(c, mem, address - BLOCK, front) else [],
           if BackLen(esp32, address, len) > 0 then ReadBack(c, mem, address + len, back) else [])
  }

  lemma HalvesReadRight(c: Cipher, mem: Bytes, esp32: bool, address: nat, len: nat, front: Reading, back: Reading)
    requires Lawful(c) && Blocks(|mem|, esp32, address, len)
    requires FrontLen(esp32, address, len) > 0 ==> front.succeeds
    requires BackLen(esp32, address, len) > 0 ==> back.succeeds
    ensures ReadRight(c, mem, esp32, address, len, HalvesRead(c, mem, esp32, address, len, front, back))
  {
    if FrontLen(esp32, address, len) > 0 {
      EncryptOne(c, address - BLOCK, mem[address - BLOCK..address]);
    }
    if BackLen(esp32, address, len) > 0 {
      EncryptOne(c, address + len, mem[address + len..address + len + BLOCK]);
    }
  }

  /** Which part of a row the next piece of data is. */
  datatype Kind = SecondHalf | FirstHalf | Whole(len: nat) {
    function RowSize(): nat {
      if Whole? then len else BLOCK
    }

    function RowLen(): nat {
      if Whole? then len else 2 * BLOCK
    }

    function RowAddr(addr: nat): int {
      if SecondHalf? then addr - BLOCK else addr
    }
  }

  /** On ESP32 a row is always 32 bytes, elsewhere a block of 64, 32 or 16 bytes; rest is what is
      left of the data. */
  function KindOf(esp32: bool, max64: bool, addr: nat, first: bool, rest: nat): Kind {
    if esp32 then
      if first && addr % 32 != 0 then SecondHalf
      else if rest == 16 then FirstHalf
      else Whole(32)
    else if addr % 64 == 0 && rest >= 64 && max64 then Whole(64)
    else if addr % 32 == 0 && rest >= 32 then Whole(32)
    else Whole(16)
  }

  lemma OddSixteen(x: nat)
    requires x % 16 == 0 && x % 32 != 0
    ensures x >= 16 && (x - 16) % 32 == 0 && (x + 16) % 32 == 0
  {
  }

  lemma RoomForRow(addr: nat, size: nat)
    requires addr % 32 == 0 && size % 32 == 0 && addr < size
    ensures addr + 32 <= size && (addr + 32) % 32 == 0
  {
  }

  /** The page program of a row, the data ending at the given address: on ESP32 a whole row of 32 bytes,
      elsewhere the longest block that the address, the rest of the data and the hardware allow. */
  predicate RowSent(esp32: bool, max64: bool, row: Slice, end: nat) {
    if esp32 then row.len == 32 && row.align % 32 == 0
    else
      && (row.len == 16 || row.len == 32 || (row.len == 64 && max64))
      && row.align % row.len == 0 && row.align + row.len <= end
      && (row.align % 32 == 0 && row.align + 32 <= end ==> row.len >= 32)
      && (row.align % 64 == 0 && row.align + 64 <= end && max64 ==> row.len == 64)
  }

  /** Where the rows from an address on end. */
  function RowsEnd(low: nat, rows: seq<Slice>): nat {
    if rows == [] then low else rows[|rows| - 1].align + rows[|rows| - 1].len
  }

  /** Such rows, each behind the one before it. */
  predicate RowsSent(esp32: bool, max64: bool, low: nat, end: nat, rows: seq<Slice>) {
    rows == [] || (
      var n := |rows| - 1;
      && RowsSent(esp32, max64, low, end, rows[..n])
      && rows[n].align == RowsEnd(low, rows[..n]) && RowSent(esp32, max64, rows[n], end))
  }

  lemma OneMoreRow(esp32: bool, max64: bool, low: nat, end: nat, rows: seq<Slice>, row: Slice)
    requires RowsSent(esp32, max64, low, end, rows) && row.align == RowsEnd(low, rows)
    requires RowSent(esp32, max64, row, end)
    ensures RowsSent(esp32, max64, low, end, rows + [row]) && RowsEnd(low, rows + [row]) == row.align + row.len
  {
    assert (rows + [row])[..|rows|] == rows;
  }

  /** The row is a natural block in the chip, and the piece of data lies in it. */
  lemma KindFits(esp32: bool, max64: bool, addr: nat, first: bool, rest: nat, size: nat)
    requires addr % BLOCK == 0 && rest >= BLOCK && addr + rest <= size && size % 32 == 0
    requires rest == BLOCK || rest >= 2 * BLOCK
    requires esp32 && !first ==> addr % 32 == 0
    ensures var k := KindOf(esp32, max64, addr, first, rest);
            && 0 < k.RowSize() <= rest && k.RowSize() in {16, 32, 64}
            && (esp32 && k.RowSize() < rest ==> (addr + k.RowSize()) % 32 == 0)
            && 0 <= k.RowAddr(addr) && NaturalBlock(k.RowAddr(addr), k.RowLen())
            && addr + k.RowSize() <= k.RowAddr(addr) + k.RowLen() <= size
            && RowSent(esp32, max64, Slice(k.RowAddr(addr), k.RowLen()), addr + rest)
  {
    if esp32 {
      if first && addr % 32 != 0 {
        OddSixteen(addr);
      } else {
        RoomForRow(addr, size);
      }
    }
  }

  /** A row of a piece of data and, if it is a half, the other half. */
  function RowFor(kind: Kind, front: Bytes, piece: Bytes, back: Bytes): Bytes {
    match kind
    case SecondHalf => front + piece
    case FirstHalf => piece + back
    case Whole(_) => piece
  }

  /** The row for the piece of data at an address. */
  method PrepareRow(chip: Chip, c: Cipher, addr: nat, piece: Bytes, kind: Kind, front: Reading, back: Reading)
    returns (row: Bytes)
    requires chip.Valid() && Lawful(c) && |piece| == kind.RowSize() && |piece| % BLOCK == 0
    requires 0 <= kind.RowAddr(addr) && kind.RowAddr(addr) + kind.RowLen() <= chip.size
    requires (kind.SecondHalf? && front.succeeds) || (kind.FirstHalf? && back.succeeds) ==> !chip.working
    ensures |row| == kind.RowLen() && |row| % BLOCK == 0
    ensures row == RowFor(kind, if kind.SecondHalf? then ReadBack(c, chip.mem, addr - BLOCK, front) else [], piece,
                          if kind.FirstHalf? then ReadBack(c, chip.mem, addr + BLOCK, back) else [])
  {
    match kind {
      case SecondHalf =>
        var half := ReadDecrypted(chip, c, addr - BLOCK, front);
        row := half + piece;
      case FirstHalf =>
        var half := ReadDecrypted(chip, c, addr + BLOCK, back);
        row := piece + half;
      case Whole(_) =>
        row := piece;
    }
  }

  // ---------------------------------------------------------------------------------------
  // esp_flash_write_encrypted
  // ---------------------------------------------------------------------------------------

  /** A row that has been written took one start and no failed request; without one a reliable chip writes
      it. */
  predicate RowServed(reliable: bool, before: Summary, now: Summary, e: Err) {
    && now.failures >= before.failures && now.pauses == before.pauses && e in {Ok, Fail, Abort}
    && (e == Ok ==> now.failures == before.failures && now.starts == before.starts + 1)
    && (reliable && now.failures == before.failures ==> e == Ok)
  }

  /** start, write_encrypted and end for one row. If the chip reports an error, chipErr, the program
      clears bus_acquired and then asserts it. */
  method SendRow(chip: Chip, c: Cipher, row: Bytes, rowAddr: nat) returns (e: Err, ghost chipErr: Err)
    requires chip.Valid() && Lawful(c) && chip.summary.bus == Idle && chip.pageSize % 64 == 0
    requires NaturalBlock(rowAddr, |row|) && rowAddr + |row| <= chip.size
    modifies chip`busy, chip`working, chip`wel, chip`log, chip`summary, chip`mem
    ensures chip.Valid() && chip.summary.bus == if e == Abort then Held else Idle
    ensures (e == Abort <==> chipErr != Ok) && (Reliable(chip) ==> chipErr == Ok)
    ensures chip.summary.erases == old(chip.summary.erases) && chip.summary.refused >= old(chip.summary.refused)
    ensures chip.obeys ==> chip.summary.refused == old(chip.summary.refused)
    ensures chip.summary.flushes == old(chip.summary.flushes) && (e == Ok ==> !chip.working)
    ensures RowServed(Reliable(chip), old(chip.summary), chip.summary, e)
    ensures Sent(old(chip.summary.sent), chip.summary.sent, [Slice(rowAddr, |row|)], e == Ok)
    ensures PartlyProgrammed(old(chip.mem), chip.mem, rowAddr, Encrypted(c, rowAddr, row))
    ensures e == Ok && (chip.obeys || chip.summary.refused == old(chip.summary.refused)) ==>
              chip.mem == Programmed(old(chip.mem), rowAddr, Encrypted(c, rowAddr, row))
  {
    Unprogrammed(chip.mem, rowAddr, Encrypted(c, rowAddr, row));
    chipErr := Ok;
    e := chip.Start();
    if e != Ok {
      return;
    }
    e := ChipWriteEncrypted(chip, c, row, rowAddr);
    chipErr := e;
    if e != Ok {
      return Abort, chipErr;
    }
    e := chip.End(Ok);
  }

  /** Where the loop may be: between blocks, on ESP32 between rows. */
  predicate AtRow(esp32: bool, address: nat, len: nat, i: nat) {
    && address % BLOCK == 0 && len % BLOCK == 0 && i % BLOCK == 0 && i <= len
    && (esp32 && 0 < i < len ==> (address + i) % 32 == 0)
  }

  lemma RestInBlocks(address: nat, len: nat, i: nat)
    requires address % BLOCK == 0 && len % BLOCK == 0 && i % BLOCK == 0 && i < len
    ensures (address + i) % BLOCK == 0 && (len - i == BLOCK || len - i >= 2 * BLOCK)
    ensures (i + 16) % BLOCK == 0 && (i + 32) % BLOCK == 0 && (i + 64) % BLOCK == 0
  {
  }

  /** How much of the rows has been written once i bytes of the data have. */
  function Covered(len: nat, h: Halves, i: nat): nat {
    if i == 0 then 0 else if i >= len then |h.front| + len + |h.back| else |h.front| + i
  }

  /** The row for the data from i on, and where the loop is after it. */
  predicate KindAt(esp32: bool, max64: bool, address: nat, len: nat, i: nat, size: nat, k: Kind)
    requires i < len
  {
    var addr := address + i;
    && k == KindOf(esp32, max64, addr, i == 0, len - i)
    && 0 < k.RowSize() <= len - i && k.RowSize() % BLOCK == 0
    && AtRow(esp32, address, len, i + k.RowSize())
    && 0 <= k.RowAddr(addr) && NaturalBlock(k.RowAddr(addr), k.RowLen())
    && addr + k.RowSize() <= k.RowAddr(addr) + k.RowLen() <= size
    && RowSent(esp32, max64, Slice(k.RowAddr(addr), k.RowLen()), address + len)
    && (k.SecondHalf? <==> i == 0 && FrontLen(esp32, address, len) > 0)
    && (k.FirstHalf? <==> i + k.RowSize() == len && BackLen(esp32, address, len) > 0)
  }

  lemma NextKindFits(esp32: bool, max64: bool, address: nat, len: nat, i: nat, size: nat)
    requires AtRow(esp32, address, len, i) && i < len && address + len <= size && size % 32 == 0
    ensures KindAt(esp32, max64, address, len, i, size, KindOf(esp32, max64, address + i, i == 0, len - i))
  {
    RestInBlocks(address, len, i);
    KindFits(esp32, max64, address + i, i == 0, len - i, size);
    HalvesAtEnds(esp32, max64, address, len, i);
  }

  lemma HalvesAtEnds(esp32: bool, max64: bool, address: nat, len: nat, i: nat)
    requires AtRow(esp32, address, len, i) && i < len
    ensures var k := KindOf(esp32, max64, address + i, i == 0, len - i);
            && (k.SecondHalf? <==> i == 0 && FrontLen(esp32, address, len) > 0)
            && (k.FirstHalf? <==> i + k.RowSize() == len && BackLen(esp32, address, len) > 0)
  {
    var addr, rest := address + i, len - i;
    if !esp32 {
    } else if i == 0 && address % 32 != 0 {
      OddSixteen(address);
    } else {
      AlignedRest(addr, rest);
      assert address + len == addr + rest;
    }
  }

  lemma AlignedRest(addr: nat, rest: nat)
    requires addr % 32 == 0 && rest % BLOCK == 0 && rest > 0
    ensures rest == BLOCK ==> (addr + rest) % 32 != 0
    ensures rest == 32 ==> (addr + rest) % 32 == 0
  {
  }

  lemma RowsSlice(data: Bytes, h: Halves, i: nat, j: nat)
    requires i <= j <= |data|
    ensures Rows(data, h)[|h.front| + i..|h.front| + j] == data[i..j]
    ensures Rows(data, h)[..|h.front| + j] == h.front + data[..j]
    ensures Rows(data, h)[|h.front| + i..] == data[i..] + h.back
  {
  }

  /** Which part of the rows the next row is. */
  predicate RowIsNext(data: Bytes, h: Halves, i: nat, kind: Kind, row: Bytes, from: nat, to: nat) {
    && from == Covered(|data|, h, i) && to == Covered(|data|, h, i + kind.RowSize())
    && from <= to <= |Rows(data, h)| && row == Rows(data, h)[from..to] && to - from == kind.RowLen()
    && from % BLOCK == 0 && (to - from) % BLOCK == 0
  }

  lemma FrontInBlocks(len: nat, i: nat)
    requires len in {0, BLOCK} && i % BLOCK == 0
    ensures (len + i) % BLOCK == 0
  {
  }

  lemma NextOfRows(data: Bytes, h: Halves, i: nat, kind: Kind, row: Bytes)
    requires i < i + kind.RowSize() <= |data| && i % BLOCK == 0
    requires |h.front| in {0, BLOCK} && |h.back| in {0, BLOCK} && kind.RowLen() % BLOCK == 0
    requires kind.SecondHalf? <==> i == 0 && |h.front| > 0
    requires kind.FirstHalf? <==> i + kind.RowSize() == |data| && |h.back| > 0
    requires row == RowFor(kind, h.front, data[i..i + kind.RowSize()], h.back)
    ensures RowIsNext(data, h, i, kind, row, Covered(|data|, h, i), Covered(|data|, h, i + kind.RowSize()))
  {
    RowsSlice(data, h, i, i + kind.RowSize());
    FrontInBlocks(|h.front|, i);
    var all, from, to := Rows(data, h), Covered(|data|, h, i), Covered(|data|, h, i + kind.RowSize());
    match kind
    case SecondHalf => assert all[from..to] == all[..|h.front| + BLOCK];
    case FirstHalf => assert all[from..to] == all[|h.front| + i..];
    case Whole(n) => assert all[from..to] == all[|h.front| + i..|h.front| + i + n];
  }

  /** A half that is read now is the one that was there before. */
  lemma SameReading(c: Cipher, before: Bytes, mem: Bytes, at: nat, r: Reading)
    requires Lawful(c) && |mem| == |before| && at + BLOCK <= |mem|
    requires forall j :: at <= j < |mem| ==> mem[j] == before[j]
    ensures ReadBack(c, mem, at, r) == ReadBack(c, before, at, r)
  {
    assert mem[at..at + BLOCK] == before[at..at + BLOCK];
  }

  /** The half that a row needs is the one that completes the request. */
  lemma HalvesUsed(c: Cipher, before: Bytes, mem: Bytes, esp32: bool, address: nat, data: Bytes, i: nat, kind: Kind,
                   front: Reading, back: Reading)
    requires Lawful(c) && Blocks(|before|, esp32, address, |data|) && |mem| == |before|
    requires kind.SecondHalf? ==> i == 0 && FrontLen(esp32, address, |data|) > 0
    requires kind.FirstHalf? ==> i + BLOCK == |data| && BackLen(esp32, address, |data|) > 0
    requires i == 0 ==> mem == before
    requires forall j :: address + i <= j < |mem| ==> mem[j] == before[j]
    ensures var h := HalvesRead(c, before, esp32, address, |data|, front, back);
            && (kind.SecondHalf? ==> h.front == ReadBack(c, mem, address - BLOCK, front))
            && (kind.FirstHalf? ==> h.back == ReadBack(c, mem, address + i + BLOCK, back))
  {
    if kind.FirstHalf? {
      SameReading(c, before, mem, address + i + BLOCK, back);
    }
  }

  lemma RowPrepared(c: Cipher, before: Bytes, mem: Bytes, esp32: bool, max64: bool, address: nat, data: Bytes, i: nat,
                    front: Reading, back: Reading, kind: Kind, row: Bytes)
    requires Lawful(c) && |mem| == |before| && |mem| % 32 == 0 && i < |data| && address + |data| <= |mem|
    requires AtRow(esp32, address, |data|, i) && Blocks(|mem|, esp32, address, |data|)
    requires Untouched(before, mem, address, i)
    requires kind == KindOf(esp32, max64, address + i, i == 0, |data| - i)
    requires 0 < kind.RowSize() <= |data| - i && 0 <= kind.RowAddr(address + i)
    requires address + i + kind.RowSize() <= kind.RowAddr(address + i) + kind.RowLen() <= |mem|
    requires row == RowFor(kind, if kind.SecondHalf? then ReadBack(c, mem, address + i - BLOCK, front) else [],
                           data[i..i + kind.RowSize()],
                           if kind.FirstHalf? then ReadBack(c, mem, address + i + BLOCK, back) else [])
    ensures var h := HalvesRead(c, before, esp32, address, |data|, front, back);
            RowIsNext(data, h, i, kind, row, Covered(|data|, h, i), Covered(|data|, h, i + kind.RowSize()))
  {
    HalvesAtEnds(esp32, max64, address, |data|, i);
    HalvesUsed(c, before, mem, esp32, address, data, i, kind, front, back);
    NextOfRows(data, HalvesRead(c, before, esp32, address, |data|, front, back), i, kind, row);
  }

  lemma RowAddrIs(data: Bytes, h: Halves, address: nat, i: nat, kind: Kind)
    requires |h.front| <= address && (kind.SecondHalf? <==> i == 0 && |h.front| > 0) && |h.front| in {0, BLOCK}
    requires i < |data|
    ensures kind.RowAddr(address + i) == address - |h.front| + Covered(|data|, h, i)
  {
  }

  /** Prepares the next row. */
  method PrepareNext(chip: Chip, c: Cipher, address: nat, data: Bytes, kind: Kind, i: nat,
                     front: Reading, back: Reading, ghost max64: bool, ghost before: Bytes, ghost h: Halves)
    returns (row: Bytes)
    requires chip.Valid() && Lawful(c) && chip.size % 32 == 0 && i < |data| && address + |data| <= chip.size
    requires AtRow(chip.esp32, address, |data|, i) && Blocks(chip.size, chip.esp32, address, |data|)
    requires Untouched(before, chip.mem, address, i)
    requires h == HalvesRead(c, before, chip.esp32, address, |data|, front, back)
    requires kind == KindOf(chip.esp32, max64, address + i, i == 0, |data| - i)
    requires 0 < kind.RowSize() <= |data| - i && 0 <= kind.RowAddr(address + i) && kind.RowSize() % BLOCK == 0
    requires address + i + kind.RowSize() <= kind.RowAddr(address + i) + kind.RowLen() <= chip.size
    requires (kind.SecondHalf? && front.succeeds) || (kind.FirstHalf? && back.succeeds) ==> !chip.working
    ensures |row| == kind.RowLen()
    ensures RowIsNext(data, h, i, kind, row, Covered(|data|, h, i), Covered(|data|, h, i + kind.RowSize()))
  {
    row := PrepareRow(chip, c, address + i, data[i..i + kind.RowSize()], kind, front, back);
    RowPrepared(c, before, chip.mem, chip.esp32, max64, address, data, i, front, back, kind, row);
  }

  /** A request, what completes its rows, and the rows encrypted. */
  ghost predicate Planned(c: Cipher, mem: Bytes, esp32: bool, address: nat, data: Bytes, front: Reading, back: Reading,
                          h: Halves, low: nat, sealed: Bytes)
  {
    && Lawful(c) && |mem| % 32 == 0 && address + |data| <= |mem| && Blocks(|mem|, esp32, address, |data|)
    && h == HalvesRead(c, mem, esp32, address, |data|, front, back) && low == address - |h.front|
    && sealed == Encrypted(c, low, Rows(data, h))
  }

  /** What has not been written yet is as it was. */
  predicate Untouched(before: Bytes, mem: Bytes, address: nat, i: nat) {
    |mem| == |before| && (i == 0 ==> mem == before) && forall j :: address + i <= j < |mem| ==> mem[j] == before[j]
  }

  lemma ProgressLeaves(before: Bytes, mem: Bytes, address: nat, len: nat, h: Halves, sealed: Bytes, i: nat, full: bool)
    requires |h.front| <= address && i < len
    requires Progress(before, mem, address - |h.front|, sealed, Covered(len, h, i), full)
    ensures Untouched(before, mem, address, i)
  {
    PartlySameOutside(before, mem, address - |h.front|, sealed[..Covered(len, h, i)]);
  }

  lemma NextSealed(c: Cipher, low: nat, data: Bytes, h: Halves, sealed: Bytes, i: nat, kind: Kind, row: Bytes,
                   from: nat, to: nat)
    requires Lawful(c) && sealed == Encrypted(c, low, Rows(data, h)) && RowIsNext(data, h, i, kind, row, from, to)
    ensures to <= |sealed| && Encrypted(c, low + from, row) == sealed[from..to]
  {
    EncryptedPiece(c, low, Rows(data, h), from, to);
  }

  /** What sending one row does: to the bus and the log, and to the flash in the place of the row. */
  ghost predicate RowEffect(chip: Chip, before: Summary, mem: Bytes, low: nat, sealed: Bytes, from: nat, to: nat,
                            e: Err, chipErr: Err)
    reads chip
    requires from <= to
  {
    && chip.summary.bus == (if e == Abort then Held else Idle)
    && (e == Abort <==> chipErr != Ok) && (Reliable(chip) ==> chipErr == Ok)
    && chip.summary.erases == before.erases && chip.summary.refused >= before.refused
    && (chip.obeys ==> chip.summary.refused == before.refused)
    && chip.summary.flushes == before.flushes && (e == Ok ==> !chip.working)
    && RowServed(Reliable(chip), before, chip.summary, e)
    && Sent(before.sent, chip.summary.sent, [Slice(low + from, to - from)], e == Ok)
    && Piece(mem, chip.mem, low, sealed, from, to, e == Ok && chip.summary.refused == before.refused)
  }

  /** Sends a row that has been prepared. */
  method SendPrepared(chip: Chip, c: Cipher, row: Bytes, rowAddr: nat, ghost low: nat, ghost data: Bytes,
                      ghost h: Halves, ghost sealed: Bytes, ghost i: nat, ghost kind: Kind)
    returns (e: Err, ghost chipErr: Err)
    requires chip.Valid() && Lawful(c) && chip.summary.bus == Idle && chip.pageSize % 64 == 0
    requires NaturalBlock(rowAddr, |row|) && rowAddr + |row| <= chip.size && low + |sealed| <= chip.size
    requires RowIsNext(data, h, i, kind, row, Covered(|data|, h, i), Covered(|data|, h, i + kind.RowSize()))
    requires rowAddr == low + Covered(|data|, h, i) && sealed == Encrypted(c, low, Rows(data, h))
    modifies chip`busy, chip`working, chip`wel, chip`log, chip`summary, chip`mem
    ensures chip.Valid()
    ensures RowEffect(chip, old(chip.summary), old(chip.mem), low, sealed, Covered(|data|, h, i),
                      Covered(|data|, h, i + kind.RowSize()), e, chipErr)
  {
    NextSealed(c, low, data, h, sealed, i, kind, row, Covered(|data|, h, i), Covered(|data|, h, i + kind.RowSize()));
    e, chipErr := SendRow(chip, c, row, rowAddr);
  }

  /** A half row can only be read back from an idle chip: the one in front of the first row, or the one
      behind the last. */
  predicate MayRead(chip: Chip, len: nat, i: nat, front: Reading, back: Reading)
    reads chip
  {
    if i == 0 then front.succeeds || (back.succeeds && len == BLOCK) ==> !chip.working else !chip.working
  }

  /** Prepares and sends the next row. */
  method SendNext(chip: Chip, c: Cipher, address: nat, data: Bytes, ghost max64: bool, kind: Kind, i: nat,
                  front: Reading, back: Reading, ghost before: Bytes, ghost h: Halves, ghost low: nat,
                  ghost sealed: Bytes)
    returns (e: Err, ghost chipErr: Err)
    requires chip.Valid() && chip.summary.bus == Idle && chip.pageSize % 64 == 0
    requires Planned(c, before, chip.esp32, address, data, front, back, h, low, sealed)
    requires i < |data| && AtRow(chip.esp32, address, |data|, i) && Untouched(before, chip.mem, address, i)
    requires KindAt(chip.esp32, max64, address, |data|, i, chip.size, kind) && MayRead(chip, |data|, i, front, back)
    modifies chip`busy, chip`working, chip`wel, chip`log, chip`summary, chip`mem
    ensures chip.Valid()
    ensures var from, to := Covered(|data|, h, i), Covered(|data|, h, i + kind.RowSize());
            && from <= to && Slice(low + from, to - from) == Slice(kind.RowAddr(address + i), kind.RowLen())
            && RowEffect(chip, old(chip.summary), old(chip.mem), low, sealed, from, to, e, chipErr)
  {
    var row := PrepareNext(chip, c, address, data, kind, i, front, back, max64, before, h);
    RowAddrIs(data, h, address, i, kind);
    e, chipErr := SendPrepared(chip, c, row, kind.RowAddr(address + i), low, data, h, sealed, i, kind);
  }

  /** One turn of the loop: it writes the next part of the rows. */
  method NextRow(chip: Chip, c: Cipher, address: nat, data: Bytes, max64: bool, i: nat, front: Reading, back: Reading,
                 ghost before: Bytes, ghost h: Halves, ghost low: nat, ghost sealed: Bytes)
    returns (e: Err, next: nat, ghost chipErr: Err)
    requires chip.Valid() && chip.summary.bus == Idle && chip.pageSize % 64 == 0
    requires Planned(c, before, chip.esp32, address, data, front, back, h, low, sealed)
    requires i < |data| && AtRow(chip.esp32, address, |data|, i) && Untouched(before, chip.mem, address, i)
    requires MayRead(chip, |data|, i, front, back)
    modifies chip`busy, chip`working, chip`wel, chip`log, chip`summary, chip`mem
    ensures chip.Valid() && i < next && AtRow(chip.esp32, address, |data|, next)
    ensures var from, to := Covered(|data|, h, i), Covered(|data|, h, next);
            && from <= to && RowSent(chip.esp32, max64, Slice(low + from, to - from), address + |data|)
            && RowEffect(chip, old(chip.summary), old(chip.mem), low, sealed, from, to, e, chipErr)
  {
    NextKindFits(chip.esp32, max64, address, |data|, i, chip.size);
    var kind := KindOf(chip.esp32, max64, address + i, i == 0, |data| - i);
    next := i + kind.RowSize();
    e, chipErr := SendNext(chip, c, address, data, max64, kind, i, front, back, before, h, low, sealed);
  }

  /** What the loop has sent when the rows are covered up to some byte. */
  ghost predicate RowsAt(esp32: bool, reliable: bool, max64: bool, before: Summary, now: Summary, low: nat, end: nat,
                         rows: seq<Slice>, covered: nat, e: Err)
  {
    && now.sent == before.sent + rows && RowsSent(esp32, max64, low, end, rows)
    && now.failures >= before.failures && now.pauses == before.pauses && e in {Ok, Fail, Abort}
    && (e == Ok ==> && RowsEnd(low, rows) == low + covered
                    && now.failures == before.failures && now.starts == before.starts + |rows|)
    && (reliable && now.failures == before.failures ==> e == Ok)
  }

  lemma RowsOneMore(esp32: bool, reliable: bool, max64: bool, before: Summary, was: Summary, now: Summary, low: nat,
                    end: nat, rows: seq<Slice>, from: nat, to: nat, e: Err)
    returns (more: seq<Slice>)
    requires RowsAt(esp32, reliable, max64, before, was, low, end, rows, from, Ok) && from <= to
    requires RowSent(esp32, max64, Slice(low + from, to - from), end)
    requires RowServed(reliable, was, now, e) && Sent(was.sent, now.sent, [Slice(low + from, to - from)], e == Ok)
    ensures RowsAt(esp32, reliable, max64, before, now, low, end, more, to, e)
  {
    var row := Slice(low + from, to - from);
    OneMoreRow(esp32, max64, low, end, rows, row);
    more := if now.sent == was.sent then rows else rows + [row];
    assert before.sent + (rows + [row]) == was.sent + [row];
  }

  /** Where the loop over the rows stands when i bytes of the data have been dealt with. */
  ghost predicate WriteAt(chip: Chip, before: Summary, mem: Bytes, address: nat, len: nat, h: Halves, low: nat,
                          sealed: Bytes, max64: bool, front: Reading, back: Reading, i: nat, rows: seq<Slice>,
                          e: Err, chipErr: Err)
    reads chip
  {
    && AtRow(chip.esp32, address, len, i) && chip.summary.bus == (if e == Abort then Held else Idle)
    && (e == Abort <==> chipErr != Ok) && (Reliable(chip) ==> chipErr == Ok)
    && chip.summary.erases == before.erases && chip.summary.refused >= before.refused
    && (chip.obeys ==> chip.summary.refused == before.refused)
    && chip.summary.flushes == before.flushes && (e == Ok ==> MayRead(chip, len, i, front, back))
    && Progress(mem, chip.mem, low, sealed, Covered(len, h, i), e == Ok && chip.summary.refused == before.refused)
    && RowsAt(chip.esp32, Reliable(chip), max64, before, chip.summary, low, address + len, rows, Covered(len, h, i), e)
  }

  /** One turn of the loop. */
  method WriteRow(chip: Chip, c: Cipher, address: nat, data: Bytes, max64: bool, i: nat, front: Reading, back: Reading,
                  ghost before: Summary, ghost mem: Bytes, ghost h: Halves, ghost low: nat, ghost sealed: Bytes,
                  ghost rows: seq<Slice>)
    returns (e: Err, next: nat, ghost chipErr: Err, ghost more: seq<Slice>)
    requires chip.Valid() && chip.pageSize % 64 == 0 && i < |data|
    requires Planned(c, mem, chip.esp32, address, data, front, back, h, low, sealed)
    requires WriteAt(chip, before, mem, address, |data|, h, low, sealed, max64, front, back, i, rows, Ok, Ok)
    modifies chip`busy, chip`working, chip`wel, chip`log, chip`summary, chip`mem
    ensures chip.Valid() && i < next <= |data|
    ensures WriteAt(chip, before, mem, address, |data|, h, low, sealed, max64, front, back, next, more, e, chipErr)
  {
    ghost var was, summary := chip.mem, chip.summary;
    ProgressLeaves(mem, was, address, |data|, h, sealed, i, summary.refused == before.refused);
    e, next, chipErr := NextRow(chip, c, address, data, max64, i, front, back, mem, h, low, sealed);
    ghost var from, to := Covered(|data|, h, i), Covered(|data|, h, next);
    MoreProgress(mem, was, chip.mem, low, sealed, from, to, summary.refused == before.refused,
                 e == Ok && chip.summary.refused == before.refused);
    more := RowsOneMore(chip.esp32, Reliable(chip), max64, before, summary, chip.summary, low, address + |data|, rows,
                        from, to, e);
  }

  /** The loop over the rows. */
  method WriteRows(chip: Chip, c: Cipher, address: nat, data: Bytes, max64: bool, front: Reading, back: Reading,
                   ghost h: Halves, ghost low: nat, ghost sealed: Bytes)
    returns (e: Err, ghost chipErr: Err, ghost rows: seq<Slice>)
    requires chip.Valid() && chip.summary.bus == Idle && chip.pageSize % 64 == 0 && 0 < |data|
    requires Planned(c, chip.mem, chip.esp32, address, data, front, back, h, low, sealed)
    requires MayRead(chip, |data|, 0, front, back)
    modifies chip`busy, chip`working, chip`wel, chip`log, chip`summary, chip`mem
    ensures chip.Valid() && chip.summary.bus == if e == Abort then Held else Idle
    ensures (e == Abort <==> chipErr != Ok) && (Reliable(chip) ==> chipErr == Ok)
    ensures chip.summary.erases == old(chip.summary.erases) && chip.summary.refused >= old(chip.summary.refused)
    ensures chip.obeys ==> chip.summary.refused == old(chip.summary.refused)
    ensures chip.summary.flushes == old(chip.summary.flushes) && (e == Ok ==> !chip.working)
    ensures low + |sealed| <= |chip.mem| == |old(chip.mem)|
    ensures RowsAt(chip.esp32, Reliable(chip), max64, old(chip.summary), chip.summary, low, address + |data|, rows,
                   |sealed|, e)
    ensures PartlyProgrammed(old(chip.mem), chip.mem, low, sealed)
    ensures e == Ok && chip.summary.refused == old(chip.summary.refused) ==>
              chip.mem == Programmed(old(chip.mem), low, sealed)
  {
    ghost var mem, before := chip.mem, chip.summary;
    var i := 0;
    e, chipErr, rows := Ok, Ok, [];
    NoProgress(mem, low, sealed);
    while e == Ok && i < |data|
      invariant i <= |data| && chip.Valid() && (e == Ok ==> chipErr == Ok)
      invariant WriteAt(chip, before, mem, address, |data|, h, low, sealed, max64, front, back, i, rows, e, chipErr)
      decreases e == Ok, |data| - i
    {
      e, i, chipErr, rows :=
        WriteRow(chip, c, address, data, max64, i, front, back, before, mem, h, low, sealed, rows);
    }
    AllProgress(mem, chip.mem, low, sealed, Covered(|data|, h, i), e == Ok && chip.summary.refused == before.refused);
  }

  lemma NearIsNotFar(mem: Bytes, after: Bytes, low: nat, sealed: Bytes, address: nat, dataLen: nat)
    requires PartlyProgrammed(mem, after, low, sealed) && |mem| == |after|
    requires address <= low + BLOCK && low + |sealed| <= address + dataLen + BLOCK
    ensures SameFarOff(mem, after, address, dataLen)
  {
    PartlySameOutside(mem, after, low, sealed);
  }

  lemma RowsAreNear(c: Cipher, esp32: bool, address: nat, data: Bytes, h: Halves)
    requires Lawful(c) && HalvesFit(esp32, address, |data|, h) && |h.front| <= address
    ensures address <= address - |h.front| + BLOCK
    ensures address - |h.front| + |SealedRows(c, address, data, h)| <= address + |data| + BLOCK
  {
  }

  /** What the rows of a request may leave, and what that means for the request. */
  lemma RowsMean(c: Cipher, mem: Bytes, after: Bytes, esp32: bool, address: nat, data: Bytes, h: Halves, ok: bool)
    requires Lawful(c) && HalvesFit(esp32, address, |data|, h) && Blocks(|mem|, esp32, address, |data|)
    requires PartlyProgrammed(mem, after, address - |h.front|, SealedRows(c, address, data, h))
    requires ok ==> ReadRight(c, mem, esp32, address, |data|, h)
    ensures SameFarOff(mem, after, address, |data|)
    ensures ok ==> PartlyProgrammed(mem, after, address, Encrypted(c, address, data))
    ensures SameInside(Rewritten(c, mem, esp32, address, data, h),
                       Programmed(mem, address, Encrypted(c, address, data)), address, |data|)
    ensures ok ==> Rewritten(c, mem, esp32, address, data, h) == Programmed(mem, address, Encrypted(c, address, data))
  {
    RowsAreNear(c, esp32, address, data, h);
    NearIsNotFar(mem, after, address - |h.front|, SealedRows(c, address, data, h), address, |data|);
    AnyHalves(c, mem, esp32, address, data, h);
    if ok {
      RightHalves(c, mem, after, esp32, address, data, h);
    }
  }

  lemma PlanRequest(c: Cipher, mem: Bytes, esp32: bool, address: nat, data: Bytes, front: Reading, back: Reading)
    returns (h: Halves, low: nat, sealed: Bytes)
    requires Lawful(c) && |mem| % 32 == 0 && Blocks(|mem|, esp32, address, |data|)
    ensures Planned(c, mem, esp32, address, data, front, back, h, low, sealed)
    ensures HalvesFit(esp32, address, |data|, h) && low == address - |h.front|
    ensures sealed == SealedRows(c, address, data, h) && low + |sealed| <= |mem|
    ensures Rewritten(c, mem, esp32, address, data, h) == Programmed(mem, low, sealed)
    ensures && (FrontLen(esp32, address, |data|) > 0 ==> front.succeeds)
            && (BackLen(esp32, address, |data|) > 0 ==> back.succeeds)
            ==> ReadRight(c, mem, esp32, address, |data|, h)
  {
    h := HalvesRead(c, mem, esp32, address, |data|, front, back);
    low, sealed := address - |h.front|, SealedRows(c, address, data, h);
    if && (FrontLen(esp32, address, |data|) > 0 ==> front.succeeds)
       && (BackLen(esp32, address, |data|) > 0 ==> back.succeeds) {
      HalvesReadRight(c, mem, esp32, address, |data|, front, back);
    }
  }

  /** Both half rows that a request needs are read back. If the chip is working at the beginning, it still
      is when the first row is prepared. */
  predicate ReadsBack(esp32: bool, address: nat, len: nat, front: Reading, back: Reading, working: bool) {
    && (FrontLen(esp32, address, len) > 0 ==> Heard(front, working).succeeds)
    && (BackLen(esp32, address, len) > 0 ==> Heard(back, working && len == BLOCK).succeeds)
  }

  /** The half rows that complete a request. */
  function HalvesHeard(c: Cipher, mem: Bytes, esp32: bool, address: nat, len: nat, front: Reading, back: Reading,
                       working: bool)
    : (h: Halves)
    requires Lawful(c) && Blocks(|mem|, esp32, address, len)
    ensures HalvesFit(esp32, address, len, h)
  {
    HalvesRead(c, mem, esp32, address, len, Heard(front, working), Heard(back, working && len == BLOCK))
  }

  /** What a request leaves in the flash, all of it having been written or not. */
  ghost predicate Outcome(c: Cipher, mem: Bytes, after: Bytes, esp32: bool, address: nat, data: Bytes,
                          front: Reading, back: Reading, working: bool, all: bool)
    requires Lawful(c) && Blocks(|mem|, esp32, address, |data|)
  {
    var h := HalvesHeard(c, mem, esp32, address, |data|, front, back, working);
    var wanted := Programmed(mem, address, Encrypted(c, address, data));
    && SameFarOff(mem, after, address, |data|)
    && (ReadsBack(esp32, address, |data|, front, back, working) ==>
          PartlyProgrammed(mem, after, address, Encrypted(c, address, data)))
    && (all ==> after == Rewritten(c, mem, esp32, address, data, h) && SameInside(after, wanted, address, |data|))
    && (all && ReadsBack(esp32, address, |data|, front, back, working) ==> after == wanted)
  }

  lemma RowsGiveOutcome(c: Cipher, mem: Bytes, after: Bytes, esp32: bool, address: nat, data: Bytes, front: Reading,
                        back: Reading, working: bool, all: bool, h: Halves, low: nat, sealed: Bytes)
    requires Lawful(c) && |mem| % 32 == 0 && Blocks(|mem|, esp32, address, |data|)
    requires h == HalvesHeard(c, mem, esp32, address, |data|, front, back, working)
    requires low == address - |h.front| && sealed == SealedRows(c, address, data, h)
    requires PartlyProgrammed(mem, after, low, sealed) && low + |sealed| <= |mem|
    requires all ==> after == Programmed(mem, low, sealed)
    ensures Outcome(c, mem, after, esp32, address, data, front, back, working, all)
  {
    var first, last := Heard(front, working), Heard(back, working && |data| == BLOCK);
    var _, _, _ := PlanRequest(c, mem, esp32, address, data, first, last);
    RowsMean(c, mem, after, esp32, address, data, h, ReadsBack(esp32, address, |data|, front, back, working));
  }

  /** What the rows of a request amount to. */
  ghost predicate SentRows(chip: Chip, max64: bool, before: Summary, address: nat, len: nat, rows: seq<Slice>, e: Err)
    reads chip
  {
    var low := address - FrontLen(chip.esp32, address, len);
    && low >= 0 && RowsSent(chip.esp32, max64, low, address + len, rows)
    && chip.summary.sent == before.sent + rows && chip.summary.pauses == before.pauses
    && (e == Ok && len > 0 ==> RowsEnd(low, rows) == address + len + BackLen(chip.esp32, address, len))
  }

  /** esp_flash_write_encrypted once the request has been checked. */
  method WriteBlocks(chip: Chip, c: Cipher, address: nat, data: Bytes, max64: bool, front: Reading, back: Reading)
    returns (e: Err, ghost chipErr: Err, ghost rows: seq<Slice>)
    requires chip.Valid() && Lawful(c) && chip.summary.bus == Idle && chip.pageSize % 64 == 0
    requires chip.size % 32 == 0 && Blocks(chip.size, chip.esp32, address, |data|) && 0 < |data|
    modifies chip`busy, chip`working, chip`wel, chip`log, chip`summary, chip`mem
    ensures chip.Valid() && chip.summary.bus == if e == Abort then Held else Idle
    ensures (e == Abort <==> chipErr != Ok) && (Reliable(chip) ==> chipErr == Ok)
    ensures chip.summary.erases == old(chip.summary.erases) && chip.summary.flushes == old(chip.summary.flushes)
    ensures chip.obeys ==> chip.summary.refused == old(chip.summary.refused)
    ensures chip.summary.failures >= old(chip.summary.failures) && (e == Ok ==> !chip.working)
    ensures e == Ok ==>
              && chip.summary.failures == old(chip.summary.failures)
              && chip.summary.starts == old(chip.summary.starts) + |rows|
    ensures Reliable(chip) && chip.summary.failures == old(chip.summary.failures) ==> e == Ok
    ensures SentRows(chip, max64, old(chip.summary), address, |data|, rows, e) && e in {Ok, Fail, Abort}
    ensures Outcome(c, old(chip.mem), chip.mem, chip.esp32, address, data, front, back, old(chip.working),
                    e == Ok && (chip.obeys || chip.summary.refused == old(chip.summary.refused)))
  {
    ghost var mem, working, refused := chip.mem, chip.working, chip.summary.refused;
    var first, last := Heard(front, chip.working), Heard(back, chip.working && |data| == BLOCK);
    ghost var h, low, sealed := PlanRequest(c, mem, chip.esp32, address, data, first, last);
    e, chipErr, rows := WriteRows(chip, c, address, data, max64, first, last, h, low, sealed);
    RowsGiveOutcome(c, mem, chip.mem, chip.esp32, address, data, front, back, working,
                    e == Ok && (chip.obeys || chip.summary.refused == refused), h, low, sealed);
  }

  /** What refuses a request before anything is sent: encryption is for the main flash only. */
  predicate Encryptable(chip: Chip, address: nat, len: nat, isMain: bool, initialised: bool) {
    isMain && initialised && address + len <= chip.size && address % BLOCK == 0 && len % BLOCK == 0
  }

  /** esp_flash_write_encrypted, with what reading the two half rows back would come to. chipErr is the
      error that the chip reported if it did; rows are the page programs. */
  method WriteEncrypted(chip: Chip, c: Cipher, address: nat, data: Bytes, max64: bool, isMain: bool, initialised: bool,
                        front: Reading, back: Reading)
    returns (e: Err, ghost chipErr: Err, ghost rows: seq<Slice>)
    requires chip.Valid() && Lawful(c) && chip.summary.bus == Idle && chip.pageSize % 64 == 0
    requires chip.size % 32 == 0 && address + |data| < UINT32
    modifies chip`busy, chip`working, chip`wel, chip`log, chip`summary, chip`mem, chip`cache
    ensures chip.Valid() && chip.summary.bus == if e == Abort then Held else Idle
    ensures (e == Abort <==> chipErr != Ok) && (Reliable(chip) ==> chipErr == Ok)
    ensures chip.summary.erases == old(chip.summary.erases)
    ensures chip.obeys ==> chip.summary.refused == old(chip.summary.refused)
    ensures !isMain ==> e == NotSupported
    ensures isMain && !initialised ==> e == NotInitialised
    ensures isMain && initialised && (address + |data| > chip.size || address % BLOCK != 0) ==> e == InvalidArg
    ensures isMain && initialised && address + |data| <= chip.size && address % BLOCK == 0 && |data| % BLOCK != 0 ==>
              e == InvalidSize
    ensures !Encryptable(chip, address, |data|, isMain, initialised) || |data| == 0 ==>
              chip.log == old(chip.log) && chip.mem == old(chip.mem) && chip.cache == old(chip.cache)
    ensures chip.summary.failures >= old(chip.summary.failures)
    ensures e == Ok ==>
              && Encryptable(chip, address, |data|, isMain, initialised)
              && chip.summary.failures == old(chip.summary.failures) && (|data| > 0 ==> !chip.working)
              && chip.summary.starts == old(chip.summary.starts) + |rows| + if |data| > 0 then 1 else 0
    ensures Reliable(chip) && chip.summary.failures == old(chip.summary.failures) ==>
              (e == Ok <==> Encryptable(chip, address, |data|, isMain, initialised))
    ensures Encryptable(chip, address, |data|, isMain, initialised) ==>
              && Blocks(chip.size, chip.esp32, address, |data|)
              && SentRows(chip, max64, old(chip.summary), address, |data|, rows, e)
    ensures Encryptable(chip, address, |data|, isMain, initialised)
            && ReadsBack(chip.esp32, address, |data|, front, back, old(chip.working)) ==>
              PartlyProgrammed(old(chip.mem), chip.mem, address, Encrypted(c, address, data))
    ensures SameFarOff(old(chip.mem), chip.mem, address, |data|)
    ensures e == Ok && (chip.obeys || chip.summary.refused == old(chip.summary.refused)) ==>
              var h := HalvesHeard(c, old(chip.mem), chip.esp32, address, |data|, front, back, old(chip.working));
              && chip.mem == Rewritten(c, old(chip.mem), chip.esp32, address, data, h)
              && SameInside(chip.mem, Programmed(old(chip.mem), address, Encrypted(c, address, data)), address, |data|)
              && (ReadsBack(chip.esp32, address, |data|, front, back, old(chip.working)) ==>
                    chip.mem == Programmed(old(chip.mem), address, Encrypted(c, address, data)))
    ensures chip.summary.flushes == old(chip.summary.flushes) || chip.summary.flushes == old(chip.summary.flushes) + 1
    ensures chip.summary.flushes == old(chip.summary.flushes) ==>
              chip.log == old(chip.log) || e == Abort || GaveUp(chip.log)
    ensures if chip.spi1 && chip.summary.flushes > old(chip.summary.flushes)
            then Flushed(chip.esp32, chip.mem, old(chip.cache), chip.cache, address, |data|)
            else chip.cache == old(chip.cache)
    ensures chip.spi1 && ReadsBack(chip.esp32, address, |data|, front, back, old(chip.working))
            && (e == Ok || chip.summary.flushes > old(chip.summary.flushes)) ==>
              Coherent(old(chip.mem), old(chip.cache)) ==> Coherent(chip.mem, chip.cache)
  {
    e, chipErr, rows := Ok, Ok, [];
    if !isMain {
      return NotSupported, Ok, [];
    }
    if !initialised {
      return NotInitialised, Ok, [];
    }
    if (address + |data|) % UINT32 > chip.size || address % BLOCK != 0 {
      return InvalidArg, Ok, [];
    }
    if |data| == 0 {
      NothingEncrypted(c, chip.mem, chip.esp32, address);
      return Ok, Ok, [];
    }
    if |data| % BLOCK != 0 {
      return InvalidSize, Ok, [];
    }
    BlocksFit(chip.size, chip.esp32, address, |data|);
    e, chipErr, rows := WriteBlocks(chip, c, address, data, max64, front, back);
    if e == Abort {
      return;
    }
    ghost var startRefused;
    e, startRefused := EndFlushCache(chip, e, false, address, |data|, chip.summary);
    if chip.spi1 && !startRefused && Coherent(old(chip.mem), old(chip.cache))
       && ReadsBack(chip.esp32, address, |data|, front, back, old(chip.working)) {
      PartlySameOutside(old(chip.mem), chip.mem, address, Encrypted(c, address, data));
      FlushRestoresCoherence(old(chip.mem), chip.mem, old(chip.cache), chip.cache, address, |data|, chip.esp32);
    }
  }

  /** An empty request. */
  lemma NothingEncrypted(c: Cipher, mem: Bytes, esp32: bool, address: nat)
    requires Lawful(c) && address <= |mem|
    ensures Programmed(mem, address, []) == mem && PartlyProgrammed(mem, mem, address, [])
  {
    ProgramNothing(mem, address);
    Unprogrammed(mem, address, []);
  }
}

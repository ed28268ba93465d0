/** The slicers of memspi_host_driver.c: the largest piece of a request that one command of the
    SPI host may carry. */
module MemspiHost {
  import opened Arith

  const MAX_WRITE_BYTES: nat := 64   // SPI_FLASH_HAL_MAX_WRITE_BYTES
  const MAX_READ_BYTES: nat := 64    // SPI_FLASH_HAL_MAX_READ_BYTES

  datatype Slice = Slice(align: nat, len: nat)

  /** In DTR mode addresses and lengths are even. */
  function DtrAlign(dtr: bool, address: nat, len: nat): Slice {
    if !dtr then Slice(address, len)
    else if address % 2 != 0 && len % 2 != 0 then Slice(address - 1, len + 1)
    else if address % 2 != 0 && len % 2 == 0 then Slice(address - 1, len + 2)
    else if address % 2 == 0 && len % 2 != 0 then Slice(address, len + 1)
    else Slice(address, len)
  }

  /** memspi_host_write_data_slicer. */
  function WriteSlice(dtr: bool, address: nat, len: nat, pageSize: nat): Slice
    requires pageSize > 0
  {
    var s := DtrAlign(dtr, address, len);
    var endBound := (s.align / pageSize + 1) * pageSize;
    Slice(s.align, Min(Min(endBound - s.align, MAX_WRITE_BYTES), s.len))
  }

  /** memspi_host_read_data_slicer. */
  function ReadSlice(dtr: bool, address: nat, len: nat): Slice {
    var s := DtrAlign(dtr, address, len);
    Slice(s.align, Min(MAX_READ_BYTES, s.len))
  }

  /** The bytes of the request that a slice carries. */
  function Payload(s: Slice, address: nat, len: nat): int {
    Min(s.align + s.len, address + len) - address
  }

  predicate WithinPage(address: nat, len: nat, pageSize: nat)
    requires pageSize > 0
  {
    len > 0 && address % pageSize + len <= pageSize
  }

  lemma EndOfPage(address: nat, pageSize: nat)
    requires pageSize > 0
    ensures (address / pageSize + 1) * pageSize == address - address % pageSize + pageSize
  {
    var q := address / pageSize;
    assert address == q * pageSize + address % pageSize;
    assert (q + 1) * pageSize == q * pageSize + pageSize;
  }

  predicate Fits(dtr: bool, address: nat, len: nat, s: Slice) {
    && s.align <= address < s.align + s.len && address - s.align <= 1
    && (if dtr then s.align % 2 == 0 && s.len % 2 == 0 && s.align + s.len <= address + len + 1
        else s.align == address && s.align + s.len <= address + len)
  }

  lemma CutFits(dtr: bool, address: nat, len: nat, limit: nat)
    requires len > 0 && limit > 0 && (dtr ==> limit % 2 == 0)
    ensures var s := DtrAlign(dtr, address, len);
            Fits(dtr, address, len, Slice(s.align, Min(limit, s.len)))
  {
  }

  lemma RoomFits(dtr: bool, address: nat, len: nat, room: nat)
    requires len > 0 && room > 0 && (dtr ==> room % 2 == 0)
    ensures var s := DtrAlign(dtr, address, len);
            var cut := Slice(s.align, Min(Min(room, MAX_WRITE_BYTES), s.len));
            && Fits(dtr, address, len, cut)
            && 0 < cut.len <= MAX_WRITE_BYTES && cut.len <= room
            && (cut.len == MAX_WRITE_BYTES || cut.len == room || cut.align + cut.len >= address + len)
  {
    CutFits(dtr, address, len, Min(room, MAX_WRITE_BYTES));
  }

  /** The slice is the aligned request, cut at the end of the page and at 64 bytes. */
  lemma WriteSliceIs(dtr: bool, address: nat, len: nat, pageSize: nat)
    requires pageSize > 0
    ensures var s := DtrAlign(dtr, address, len);
            WriteSlice(dtr, address, len, pageSize)
            == Slice(s.align, Min(Min(pageSize - s.align % pageSize, MAX_WRITE_BYTES), s.len))
  {
    EndOfPage(DtrAlign(dtr, address, len).align, pageSize);
  }

  lemma RoomIsEven(dtr: bool, address: nat, len: nat, pageSize: nat)
    requires len > 0 && pageSize > 0 && (dtr ==> pageSize % 2 == 0)
    ensures var room := pageSize - DtrAlign(dtr, address, len).align % pageSize;
            room > 0 && (dtr ==> room % 2 == 0)
  {
    if dtr {
      EvenRemainder(DtrAlign(dtr, address, len).align, pageSize);
    }
  }

  /** What a write slice guarantees: it makes progress, keeps the DTR alignment and pads the
      request by at most one byte at each end, stays within one page and 64 bytes, and is as
      long as these limits allow. */
  lemma WriteSliceFits(dtr: bool, address: nat, len: nat, pageSize: nat)
    requires len > 0 && pageSize > 0 && (dtr ==> pageSize % 2 == 0)
    ensures var s := WriteSlice(dtr, address, len, pageSize);
            && Fits(dtr, address, len, s)
            && s.len <= 64 && WithinPage(s.align, s.len, pageSize)
            && (|| s.len == 64
                || s.align % pageSize + s.len == pageSize
                || s.align + s.len >= address + len)
  {
    RoomIsEven(dtr, address, len, pageSize);
    RoomFits(dtr, address, len, pageSize - DtrAlign(dtr, address, len).align % pageSize);
    WriteSliceIs(dtr, address, len, pageSize);
  }

  /** Without the even page size there is exactly one way for a write to make no progress: in DTR
      mode, an odd address at the start of a page. */
  lemma WriteSliceStuck(dtr: bool, address: nat, len: nat, pageSize: nat)
    requires len > 0 && pageSize > 0
    ensures Payload(WriteSlice(dtr, address, len, pageSize), address, len) == 0
            <==> dtr && address % 2 == 1 && address % pageSize == 0
  {
    WriteSliceIs(dtr, address, len, pageSize);
    if dtr && address % 2 == 1 {
      StepRemainder(address - 1, 1, pageSize);
    }
  }

  /** What a read slice guarantees; reads may cross pages. */
  lemma ReadSliceFits(dtr: bool, address: nat, len: nat)
    requires len > 0
    ensures var s := ReadSlice(dtr, address, len);
            && Fits(dtr, address, len, s)
            && s.len <= 64
            && (s.len == 64 || s.align + s.len >= address + len)
  {
    CutFits(dtr, address, len, MAX_READ_BYTES);
  }

  /** The slices that a write is cut into. */
  function Slices(dtr: bool, address: nat, len: nat, pageSize: nat): seq<Slice>
    requires pageSize > 0 && (dtr ==> pageSize % 2 == 0)
    decreases len
  {
    if len == 0 then []
    else
      WriteSliceFits(dtr, address, len, pageSize);
      var s := WriteSlice(dtr, address, len, pageSize);
      [s] + Slices(dtr, address + Payload(s, address, len), len - Payload(s, address, len), pageSize)
  }

  /** The first slice, its payload and the other slices. */
  lemma FirstSlice(dtr: bool, address: nat, len: nat, pageSize: nat) returns (s: Slice, n: nat, rest: seq<Slice>)
    requires len > 0 && pageSize > 0 && (dtr ==> pageSize % 2 == 0)
    ensures s == WriteSlice(dtr, address, len, pageSize) && n == Payload(s, address, len) && 0 < n <= len
    ensures rest == Slices(dtr, address + n, len - n, pageSize) && Slices(dtr, address, len, pageSize) == [s] + rest
  {
    WriteSliceFits(dtr, address, len, pageSize);
    s := WriteSlice(dtr, address, len, pageSize);
    n := Payload(s, address, len);
    rest := Slices(dtr, address + n, len - n, pageSize);
  }
}

/** The memory-mapped view of the flash: for each mapped MMU page the content that the cache
    shows, which is stale if it differs from the flash. */
module FlashCache {
  import opened NorFlash

  const MMU_PAGE: nat := 0x1_0000   // SPI_FLASH_MMU_PAGE_SIZE

  type Cache = map<nat, Bytes>

  predicate PagesExist(size: nat, cache: Cache) {
    forall p :: p in cache ==> (p + 1) * MMU_PAGE <= size
  }

  function PageOf(mem: Bytes, p: nat): Bytes
    requires (p + 1) * MMU_PAGE <= |mem|
  {
    mem[p * MMU_PAGE..(p + 1) * MMU_PAGE]
  }

  /** No mapped page is stale. */
  predicate Coherent(mem: Bytes, cache: Cache) {
    PagesExist(|mem|, cache) && forall p :: p in cache ==> cache[p] == PageOf(mem, p)
  }

  predicate Overlaps(p: nat, addr: nat, len: nat) {
    p * MMU_PAGE < addr + len && addr < (p + 1) * MMU_PAGE
  }

  /** Every mapped page that overlaps the range shows the flash again. The others are as before, but on
      ESP32 a flush of one page is a flush of all. */
  predicate Flushed(esp32: bool, mem: Bytes, before: Cache, after: Cache, addr: nat, len: nat)
    requires PagesExist(|mem|, before)
  {
    var all := esp32 && exists p :: p in before && Overlaps(p, addr, len);
    && after.Keys == before.Keys
    && forall p :: p in before ==> after[p] == if all || Overlaps(p, addr, len) then PageOf(mem, p) else before[p]
  }

  lemma SamePage(a: Bytes, b: Bytes, addr: nat, len: nat, p: nat)
    requires SameOutside(a, b, addr, len) && (p + 1) * MMU_PAGE <= |a| && !Overlaps(p, addr, len)
    ensures PageOf(a, p) == PageOf(b, p)
  {
  }

  /** Flushing the modified range brings the cache back in line with the flash. */
  lemma FlushRestoresCoherence(old_: Bytes, mem: Bytes, before: Cache, after: Cache, addr: nat, len: nat,
                                esp32: bool)
    requires Coherent(old_, before) && SameOutside(old_, mem, addr, len)
    requires PagesExist(|mem|, before) && Flushed(esp32, mem, before, after, addr, len)
    ensures Coherent(mem, after)
  {
    forall p | p in after ensures after[p] == PageOf(mem, p) {
      if !Overlaps(p, addr, len) {
        SamePage(old_, mem, addr, len, p);
      }
    }
  }

  /** The length of the range rounded up to whole pages from the start of its first page. */
  function Aligned(start: nat, length: nat): nat {
    (length + (start - start / MMU_PAGE * MMU_PAGE) + MMU_PAGE - 1) / MMU_PAGE * MMU_PAGE
  }

  /** The pages from the first one on for the aligned length are those that overlap the range. */
  lemma AlignedCoversOverlaps(start: nat, length: nat, p: nat)
    requires length > 0
    ensures Overlaps(p, start, length) <==>
              start / MMU_PAGE * MMU_PAGE <= p * MMU_PAGE < start / MMU_PAGE * MMU_PAGE + Aligned(start, length)
  {
    var room := length + (start - start / MMU_PAGE * MMU_PAGE);
    assert room <= (room + MMU_PAGE - 1) / MMU_PAGE * MMU_PAGE;
  }

  /** The same in page numbers. */
  lemma PagesOfRange(start: nat, length: nat) returns (end: nat)
    requires length > 0
    ensures start / MMU_PAGE < end && end * MMU_PAGE == start / MMU_PAGE * MMU_PAGE + Aligned(start, length)
    ensures forall p: nat :: Overlaps(p, start, length) <==> start / MMU_PAGE <= p < end
  {
    end := start / MMU_PAGE + (length + (start - start / MMU_PAGE * MMU_PAGE) + MMU_PAGE - 1) / MMU_PAGE;
    forall p: nat ensures Overlaps(p, start, length) <==> start / MMU_PAGE <= p < end {
      AlignedCoversOverlaps(start, length, p);
    }
  }

  /** The mapped pages from first on, up to the one given, show the flash again. */
  predicate FlushedTo(mem: Bytes, before: Cache, after: Cache, first: nat, page: nat)
    requires PagesExist(|mem|, before)
  {
    && after.Keys == before.Keys
    && forall p :: p in before ==> after[p] == if first <= p < page then PageOf(mem, p) else before[p]
  }

  /** Where the loop stands that visits the pages of a range up to end, on ESP32 up to the first mapped one. */
  ghost predicate FlushAt(esp32: bool, mem: Bytes, before: Cache, after: Cache, start: nat, length: nat, page: nat,
                          end: nat)
  {
    && PagesExist(|mem|, before) && start / MMU_PAGE <= page <= end
    && (forall p: nat :: Overlaps(p, start, length) <==> start / MMU_PAGE <= p < end)
    && FlushedTo(mem, before, after, start / MMU_PAGE, page)
    && (esp32 ==> forall p :: p in before ==> !(start / MMU_PAGE <= p < page))
  }

  lemma FlushBegins(esp32: bool, mem: Bytes, cache: Cache, start: nat, length: nat) returns (end: nat)
    requires PagesExist(|mem|, cache) && length > 0
    ensures FlushAt(esp32, mem, cache, cache, start, length, start / MMU_PAGE, end)
    ensures end * MMU_PAGE == start / MMU_PAGE * MMU_PAGE + Aligned(start, length)
  {
    end := PagesOfRange(start, length);
  }

  /** A page that is not mapped, or one that is. */
  lemma FlushNext(esp32: bool, mem: Bytes, before: Cache, after: Cache, start: nat, length: nat, page: nat, end: nat)
    requires FlushAt(esp32, mem, before, after, start, length, page, end) && page < end
    ensures Overlaps(page, start, length) && (page in after <==> page in before)
    ensures page !in before ==> FlushAt(esp32, mem, before, after, start, length, page + 1, end)
    ensures page in before && !esp32 ==>
              FlushAt(esp32, mem, before, after[page := PageOf(mem, page)], start, length, page + 1, end)
  {
  }

  lemma FlushEnds(esp32: bool, mem: Bytes, before: Cache, after: Cache, start: nat, length: nat, end: nat)
    requires FlushAt(esp32, mem, before, after, start, length, end, end)
    ensures Flushed(esp32, mem, before, after, start, length)
  {
  }

  lemma FlushAllPages(mem: Bytes, before: Cache, after: Cache, start: nat, length: nat, page: nat)
    requires PagesExist(|mem|, before) && page in before && Overlaps(page, start, length)
    requires after.Keys == before.Keys && forall p :: p in after ==> after[p] == PageOf(mem, p)
    ensures Flushed(true, mem, before, after, start, length)
  {
  }

  /** Address masks of a page are divisions. */
  lemma PageMask(x: bv32)
    ensures x & !0xFFFF == (x / 0x1_0000) * 0x1_0000
    ensures x & 0xFFFF == x % 0x1_0000
  {
  }
}

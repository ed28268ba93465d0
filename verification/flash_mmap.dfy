/** Mapping flash pages into the address space: flash_mmap.c. */
module FlashMmap {

  const PAGE_SIZE: nat := 0x1_0000   // CONFIG_MMU_PAGE_SIZE
  const INT_MAX: nat := 0x7FFF_FFFF

  /** A run of consecutive page numbers. */
  datatype Run = Run(first: int, count: nat)

  /** A list of runs after one more page, which lengthens the last run or starts a new one. */
  function Extend(runs: seq<Run>, continues: bool, page: int): (r: seq<Run>)
    requires runs != []
    ensures |r| == |runs| + if continues then 0 else 1
  {
    var m := |runs| - 1;
    if continues then runs[..m] + [Run(runs[m].first, runs[m].count + 1)] else runs + [Run(page, 1)]
  }

  /** The runs of the first k pages: a page continues the last run if it follows the page before. */
  function RunsUpTo(pages: seq<int>, k: nat): (r: seq<Run>)
    requires 0 < k <= |pages|
    ensures r != [] && r[|r| - 1].count > 0 && r[|r| - 1].first + r[|r| - 1].count == pages[k - 1] + 1
  {
    if k == 1 then [Run(pages[0], 1)]
    else Extend(RunsUpTo(pages, k - 1), pages[k - 1] == pages[k - 2] + 1, pages[k - 1])
  }

  function Runs(pages: seq<int>): seq<Run>
    requires pages != []
  {
    RunsUpTo(pages, |pages|)
  }

  function Pages(run: Run): seq<int> {
    seq(run.count, i => run.first + i)
  }

  /** The pages of a list of runs, in order. */
  function Expand(runs: seq<Run>): seq<int> {
    if runs == [] then [] else Expand(runs[..|runs| - 1]) + Pages(runs[|runs| - 1])
  }

  /** No run is empty, and none continues the one before it. */
  predicate Maximal(runs: seq<Run>) {
    runs == [] || (
      var m := |runs| - 1;
      && runs[m].count > 0 && Maximal(runs[..m])
      && (m > 0 ==> runs[m].first != runs[m - 1].first + runs[m - 1].count))
  }

  lemma MaximalOneMore(runs: seq<Run>, run: Run)
    ensures Maximal(runs + [run]) <==>
              && Maximal(runs) && run.count > 0
              && (runs != [] ==> run.first != runs[|runs| - 1].first + runs[|runs| - 1].count)
  {
    assert (runs + [run])[..|runs|] == runs;
  }

  lemma ExpandOneMore(runs: seq<Run>, run: Run)
    ensures Expand(runs + [run]) == Expand(runs) + Pages(run)
  {
    assert (runs + [run])[..|runs|] == runs;
  }

  lemma PagesOneMore(first: int, count: nat)
    ensures Pages(Run(first, count + 1)) == Pages(Run(first, count)) + [first + count]
    ensures Pages(Run(first, 0)) == []
  {
  }

  /** The last run grows by one page. */
  lemma GrowLast(init: seq<Run>, first: int, count: nat)
    requires count > 0
    ensures Expand(init + [Run(first, count + 1)]) == Expand(init + [Run(first, count)]) + [first + count]
    ensures Maximal(init + [Run(first, count + 1)]) == Maximal(init + [Run(first, count)])
  {
    PagesOneMore(first, count);
    ExpandOneMore(init, Run(first, count));
    ExpandOneMore(init, Run(first, count + 1));
    MaximalOneMore(init, Run(first, count));
    MaximalOneMore(init, Run(first, count + 1));
  }

  /** A new run of one page. */
  lemma NewRun(before: seq<Run>, page: int)
    ensures Expand(before + [Run(page, 1)]) == Expand(before) + [page]
    ensures Maximal(before + [Run(page, 1)]) <==>
              Maximal(before) && (before != [] ==> page != before[|before| - 1].first + before[|before| - 1].count)
  {
    PagesOneMore(page, 0);
    assert Pages(Run(page, 1)) == [page];
    ExpandOneMore(before, Run(page, 1));
    MaximalOneMore(before, Run(page, 1));
  }

  lemma ExtendExpands(runs: seq<Run>, page: int)
    requires runs != [] && Maximal(runs)
    ensures var m := |runs| - 1;
            var next := Extend(runs, page == runs[m].first + runs[m].count, page);
            Expand(next) == Expand(runs) + [page] && Maximal(next)
  {
    var m := |runs| - 1;
    MaximalOneMore(runs[..m], runs[m]);
    assert runs == runs[..m] + [runs[m]];
    GrowLast(runs[..m], runs[m].first, runs[m].count);
    NewRun(runs, page);
  }

  lemma TakeOneMore(pages: seq<int>, k: nat)
    requires 0 < k <= |pages|
    ensures pages[..k] == pages[..k - 1] + [pages[k - 1]] && pages[..k][..k - 1] == pages[..k - 1]
  {
  }

  lemma FirstRun(page: int)
    ensures Expand([Run(page, 1)]) == [page] && Maximal([Run(page, 1)])
  {
    NewRun([], page);
    assert [] + [Run(page, 1)] == [Run(page, 1)];
  }

  lemma {:induction false} UpToIsExact(pages: seq<int>, k: nat)
    requires 0 < k <= |pages|
    ensures Expand(RunsUpTo(pages, k)) == pages[..k] && Maximal(RunsUpTo(pages, k))
  {
    TakeOneMore(pages, k);
    if k == 1 {
      FirstRun(pages[0]);
    } else {
      UpToIsExact(pages, k - 1);
      var before := RunsUpTo(pages, k - 1);
      ExtendExpands(before, pages[k - 1]);
      assert RunsUpTo(pages, k) == Extend(before, pages[k - 1] == pages[k - 2] + 1, pages[k - 1]);
    }
  }

  /** The runs expand to the pages they came from, and are maximal. */
  lemma RunsAreExact(pages: seq<int>)
    requires pages != []
    ensures Expand(Runs(pages)) == pages && Maximal(Runs(pages))
  {
    UpToIsExact(pages, |pages|);
    assert pages[..|pages|] == pages;
  }

  lemma SameLast(a: seq<int>, x: int, pages: seq<int>, k: nat)
    requires k <= |pages| && a + [x] == pages[..k]
    ensures k > 0 && a == pages[..k - 1] && x == pages[k - 1]
  {
    assert |a + [x]| == k && (a + [x])[..k - 1] == a && (a + [x])[k - 1] == x;
    TakeOneMore(pages, k);
  }

  lemma {:induction false} SplitUnique(pages: seq<int>, k: nat, init: seq<Run>, last: Run)
    requires k <= |pages| && Maximal(init + [last]) && Expand(init + [last]) == pages[..k]
    ensures k > 0 && RunsUpTo(pages, k) == init + [last]
    decreases k
  {
    MaximalOneMore(init, last);
    if last.count > 1 {
      var shorter := Run(last.first, last.count - 1);
      GrowLast(init, last.first, last.count - 1);
      SameLast(Expand(init + [shorter]), last.first + last.count - 1, pages, k);
      SplitUnique(pages, k - 1, init, shorter);
    } else {
      NewRun(init, last.first);
      SameLast(Expand(init), last.first, pages, k);
      if init == [] {
        assert k == 1 && last == Run(pages[0], 1);
      } else {
        var m := |init| - 1;
        assert init == init[..m] + [init[m]];
        SplitUnique(pages, k - 1, init[..m], init[m]);
      }
    }
  }

  /** They are the only maximal runs that expand to the pages. */
  lemma RunsAreUnique(pages: seq<int>, runs: seq<Run>)
    requires pages != [] && Maximal(runs) && Expand(runs) == pages
    ensures runs == Runs(pages)
  {
    var m := |runs| - 1;
    assert runs == runs[..m] + [runs[m]] && pages[..|pages|] == pages;
    SplitUnique(pages, |pages|, runs[..m], runs[m]);
  }

  lemma {:induction false} FewerRunsInPrefix(pages: seq<int>, k: nat, n: nat)
    requires 0 < k <= n <= |pages|
    ensures |RunsUpTo(pages, k)| <= |RunsUpTo(pages, n)|
  {
    if k < n {
      FewerRunsInPrefix(pages, k, n - 1);
    }
  }

  /** s_find_non_contiguous_block_nums. */
  method CountRuns(pages: array<int>) returns (nums: nat)
    requires pages.Length > 0
    ensures nums == |Runs(pages[..])|
  {
    ghost var all := pages[..];
    nums := 1;
    var lastEnd := pages[0] + 1;
    for i := 1 to pages.Length
      invariant nums == |RunsUpTo(all, i)|
      invariant lastEnd == all[i - 1] + 1
    {
      if pages[i] != lastEnd {
        nums := nums + 1;
      }
      lastEnd := pages[i] + 1;
    }
  }

  /** Conversion of a C int to uint32_t. */
  function ToUint32(x: int): (r: nat)
    requires -0x8000_0000 <= x <= INT_MAX
    ensures r < 0x1_0000_0000 && (r - x) % 0x1_0000_0000 == 0
  {
    if x < 0 then x + 0x1_0000_0000 else x
  }

  predicate IntPages(pages: seq<int>) {
    forall i :: 0 <= i < |pages| ==> -0x8000_0000 <= pages[i] < INT_MAX
  }

  /** The first rows of the table hold the runs. */
  ghost predicate Holds(table: array2<int>, runs: seq<Run>)
    requires table.Length1 == 2
    reads table
  {
    && |runs| <= table.Length0
    && forall k :: 0 <= k < |runs| ==> table[k, 0] == runs[k].first && table[k, 1] == runs[k].count
  }

  /** Enters one page: it starts a new row or lengthens the last one. */
  method EnterPage(table: array2<int>, id: nat, continues: bool, page: int, blockNums: nat, ghost runs: seq<Run>)
    returns (next: nat)
    requires table.Length1 == 2 && table.Length0 == blockNums && runs != [] && id == |runs| - 1 && Holds(table, runs)
    requires |Extend(runs, continues, page)| <= blockNums
    modifies table
    ensures next == |Extend(runs, continues, page)| - 1 && Holds(table, Extend(runs, continues, page))
  {
    next := id;
    if !continues {
      next := next + 1;
      assert next < blockNums;
      table[next, 0], table[next, 1] := page, 1;
    } else {
      table[next, 1] := table[next, 1] + 1;
    }
  }

  /** s_merge_contiguous_pages. */
  method MergePages(pages: array<int>, blockNums: nat, outBlocks: array2<int>)
    requires pages.Length > 0 && IntPages(pages[..]) && blockNums == |Runs(pages[..])|
    requires outBlocks.Length0 == blockNums && outBlocks.Length1 == 2
    modifies outBlocks
    ensures Holds(outBlocks, Runs(pages[..]))
  {
    ghost var all := pages[..];
    var lastEnd := ToUint32(pages[0] + 1);
    var id := 0;
    outBlocks[id, 0], outBlocks[id, 1] := pages[0], 1;
    for i := 1 to pages.Length
      invariant id == |RunsUpTo(all, i)| - 1 && Holds(outBlocks, RunsUpTo(all, i))
      invariant lastEnd == ToUint32(all[i - 1] + 1)
    {
      var continues := ToUint32(pages[i]) == lastEnd;
      FewerRunsInPrefix(all, i + 1, |all|);
      id := EnterPage(outBlocks, id, continues, pages[i], blockNums, RunsUpTo(all, i));
      lastEnd := ToUint32(pages[i] + 1);
    }
  }

  lemma {:induction false} RunsWithin(pages: seq<int>, k: nat, limit: int)
    requires 0 < k <= |pages| && forall i :: 0 <= i < |pages| ==> 0 <= pages[i] < limit
    ensures forall r :: r in RunsUpTo(pages, k) ==> 0 <= r.first && 0 < r.count && r.first + r.count <= limit
    ensures var r := RunsUpTo(pages, k); r[|r| - 1].first + r[|r| - 1].count == pages[k - 1] + 1
  {
    if k > 1 {
      RunsWithin(pages, k - 1, limit);
      var before := RunsUpTo(pages, k - 1);
      assert before[|before| - 1] in before;
    }
  }

  /** A mapped range of flash addresses. */
  datatype Range = Range(paddr: nat, size: nat)

  type Mappings = map<nat, Range>   // by virtual address

  function Bytes(run: Run): Range
    requires run.first >= 0
  {
    Range(run.first * PAGE_SIZE, run.count * PAGE_SIZE)
  }

  /** s_pages_to_bytes: the products fit an int. */
  method PagesToBytes(blocks: array2<int>, ghost runs: seq<Run>)
    requires blocks.Length0 == |runs| && blocks.Length1 == 2 && Holds(blocks, runs)
    requires forall r :: r in runs ==> 0 <= r.first * PAGE_SIZE <= INT_MAX && r.count * PAGE_SIZE <= INT_MAX
    modifies blocks
    ensures forall k :: 0 <= k < |runs| ==> blocks[k, 0] == Bytes(runs[k]).paddr && blocks[k, 1] == Bytes(runs[k]).size
  {
    for i := 0 to blocks.Length0
      invariant forall k :: 0 <= k < i ==> blocks[k, 0] == Bytes(runs[k]).paddr && blocks[k, 1] == Bytes(runs[k]).size
      invariant forall k :: i <= k < |runs| ==> blocks[k, 0] == runs[k].first && blocks[k, 1] == runs[k].count
    {
      assert runs[i] in runs;
      assert blocks[i, 0] * PAGE_SIZE <= INT_MAX && blocks[i, 1] * PAGE_SIZE <= INT_MAX;
      blocks[i, 0] := blocks[i, 0] * PAGE_SIZE;
      blocks[i, 1] := blocks[i, 1] * PAGE_SIZE;
    }
  }

  // ---------------------------------------------------------------------------------------
  // Mapping and unmapping
  // ---------------------------------------------------------------------------------------

  datatype Err = Ok | NoMem | InvalidState | NotFound | Fail

  /** Range a contains range b. */
  predicate Contains(a: Range, b: Range) {
    a.paddr <= b.paddr && b.paddr + b.size <= a.paddr + a.size
  }

  predicate InRange(r: Range, x: nat) {
    r.paddr <= x < r.paddr + r.size
  }

  /** That is, all addresses of b are in a. */
  lemma ContainsExactly(a: Range, b: Range)
    requires b.size > 0
    ensures Contains(a, b) <==> forall x :: InRange(b, x) ==> InRange(a, x)
  {
    assert InRange(b, b.paddr) && InRange(b, b.paddr + b.size - 1);
  }

  /** Some mapping holds the range already. */
  predicate Mapped(m: Mappings, range: Range) {
    exists v: nat :: v in m && Contains(m[v], range)
  }

  /** The range is mapped and begins at the given address. */
  ghost predicate MappedAt(m: Mappings, range: Range, ptr: nat) {
    exists v: nat :: v in m && Contains(m[v], range) && ptr == v + range.paddr - m[v].paddr
  }

  /** The driver below: it may refuse any mapping; else it finds the one that holds the range already, or
      makes one at an unused address. */
  class Mmu {
    var mappings: Mappings
    ghost var refusals: seq<Err>   // what it answered when it refused

    constructor ()
      ensures mappings == map[] && refusals == []
    {
      mappings, refusals := map[], [];
    }

    method Map(range: Range) returns (e: Err, vaddr: nat)
      modifies this
      ensures refusals == if e in {NoMem, Fail} then old(refusals) + [e] else old(refusals)
      ensures e !in {NoMem, Fail} ==> e == if Mapped(old(mappings), range) then InvalidState else Ok
      ensures e == Ok ==> vaddr !in old(mappings) && mappings == old(mappings)[vaddr := range]
      ensures e == InvalidState ==> MappedAt(mappings, range, vaddr)
      ensures e != Ok ==> mappings == old(mappings)
    {
      var refuses: bool, free: nat, noMem: bool := *, *, *;
      if refuses {
        e := if noMem then NoMem else Fail;
        refusals := refusals + [e];
        return e, 0;
      }
      if Mapped(mappings, range) {
        var v: nat :| v in mappings && Contains(mappings[v], range);
        return InvalidState, v + range.paddr - mappings[v].paddr;
      }
      if free in mappings {
        refusals := refusals + [NoMem];
        return NoMem, 0;
      }
      mappings := mappings[free := range];
      return Ok, free;
    }

    method Unmap(vaddr: nat) returns (e: Err)
      modifies `mappings
      ensures e == if vaddr in old(mappings) then Ok else NotFound
      ensures mappings == old(mappings) - {vaddr}
    {
      e := if vaddr in mappings then Ok else NotFound;
      mappings := mappings - {vaddr};
    }
  }

  function Set(s: seq<nat>): set<nat> {
    set i | 0 <= i < |s| :: s[i]
  }

  lemma SetOneMore(s: seq<nat>, x: nat)
    ensures Set(s + [x]) == Set(s) + {x}
  {
    var t := s + [x];
    assert t[|s|] == x && forall i :: 0 <= i < |s| ==> t[i] == s[i];
    forall y | y in Set(s) ensures y in Set(t) {
      var i :| 0 <= i < |s| && s[i] == y;
      assert t[i] == y;
    }
  }

  /** after is before with one more mapping for every range, at different new addresses. */
  ghost predicate Adds(before: Mappings, after: Mappings, vaddrs: seq<nat>, ranges: seq<Range>) {
    if vaddrs == [] then ranges == [] && after == before
    else
      var n := |vaddrs| - 1;
      && |ranges| == |vaddrs| && vaddrs[n] in after && after[vaddrs[n]] == ranges[n]
      && vaddrs[n] !in before && vaddrs[n] !in Set(vaddrs[..n])
      && Adds(before, after - {vaddrs[n]}, vaddrs[..n], ranges[..n])
  }

  lemma MappedOneMore(before: Mappings, now: Mappings, vaddrs: seq<nat>, ranges: seq<Range>, v: nat, r: Range)
    requires Adds(before, now, vaddrs, ranges) && v !in now
    ensures Adds(before, now[v := r], vaddrs + [v], ranges + [r])
  {
    MappedKeys(before, now, vaddrs, ranges);
    assert (vaddrs + [v])[..|vaddrs|] == vaddrs && (ranges + [r])[..|vaddrs|] == ranges;
    assert now[v := r] - {v} == now;
  }

  lemma {:induction false} MappedKeys(before: Mappings, after: Mappings, vaddrs: seq<nat>, ranges: seq<Range>)
    requires Adds(before, after, vaddrs, ranges)
    ensures |ranges| == |vaddrs| && after.Keys == before.Keys + Set(vaddrs) && before.Keys !! Set(vaddrs)
    ensures after - Set(vaddrs) == before
    decreases |vaddrs|
  {
    if vaddrs == [] {
      assert after - Set(vaddrs) == before;
    } else {
      var n := |vaddrs| - 1;
      MappedKeys(before, after - {vaddrs[n]}, vaddrs[..n], ranges[..n]);
      SetOneMore(vaddrs[..n], vaddrs[n]);
      assert vaddrs == vaddrs[..n] + [vaddrs[n]];
      assert after - Set(vaddrs) == after - {vaddrs[n]} - Set(vaddrs[..n]);
    }
  }

  lemma {:induction false} MappedDistinct(before: Mappings, after: Mappings, vaddrs: seq<nat>, ranges: seq<Range>,
                                          i: nat)
    requires Adds(before, after, vaddrs, ranges) && i < |vaddrs|
    ensures vaddrs[i] in after && vaddrs[i] !in Set(vaddrs[..i])
    decreases |vaddrs|
  {
    var n := |vaddrs| - 1;
    if i < n {
      MappedDistinct(before, after - {vaddrs[n]}, vaddrs[..n], ranges[..n], i);
      assert vaddrs[..n][..i] == vaddrs[..i];
    }
  }

  /** The handle of a mapping: the addresses to unmap. */
  class MmapBlock {
    const vaddrList: array<nat>
    const listNum: nat

    constructor (vaddrs: array<nat>, n: nat)
      requires n <= vaddrs.Length
      ensures vaddrList == vaddrs && listNum == n
    {
      vaddrList, listNum := vaddrs, n;
    }
  }

  /** Unmaps the first n addresses of the list, all of which are mapped: the driver never answers
      that one is not. */
  method UnmapList(mmu: Mmu, vaddrs: array<nat>, n: nat, ghost before: Mappings, ghost ranges: seq<Range>)
    requires n <= vaddrs.Length && Adds(before, mmu.mappings, vaddrs[..n], ranges)
    modifies mmu`mappings
    ensures mmu.mappings == before
  {
    ghost var start, list := mmu.mappings, vaddrs[..n];
    for i := 0 to n
      invariant mmu.mappings == start - Set(list[..i])
    {
      MappedDistinct(before, start, list, ranges, i);
      var e := mmu.Unmap(vaddrs[i]);
      assert e != NotFound;
      SetOneMore(list[..i], list[i]);
      assert list[..i + 1] == list[..i] + [list[i]];
    }
    assert list[..n] == list;
    MappedKeys(before, start, list, ranges);
  }

  function Ranges(runs: seq<Run>): seq<Range>
    requires forall r :: r in runs ==> r.first >= 0
  {
    seq(|runs|, i requires 0 <= i < |runs| => Bytes(runs[i]))
  }

  /** Page numbers whose addresses fit an int, and so do the sizes of their runs: the only run that is too
      long is that of all 32768 such pages. */
  predicate ValidPages(pages: seq<int>) {
    && (forall i :: 0 <= i < |pages| ==> 0 <= pages[i] * PAGE_SIZE <= INT_MAX)
    && (pages != [] ==> forall r :: r in Runs(pages) ==> r.count * PAGE_SIZE <= INT_MAX)
  }

  /** Every list of fewer pages is valid. */
  lemma ShortListsAreValid(pages: seq<int>)
    requires |pages| * PAGE_SIZE <= INT_MAX
    requires forall i :: 0 <= i < |pages| ==> 0 <= pages[i] * PAGE_SIZE <= INT_MAX
    ensures ValidPages(pages)
  {
    if pages != [] {
      RunsAreShort(pages, |pages|);
    }
  }

  lemma {:induction false} RunsAreShort(pages: seq<int>, k: nat)
    requires 0 < k <= |pages|
    ensures forall r :: r in RunsUpTo(pages, k) ==> r.count <= k
  {
    if k > 1 {
      RunsAreShort(pages, k - 1);
      var before := RunsUpTo(pages, k - 1);
      assert before[|before| - 1] in before;
    }
  }

  lemma RunsInRange(pages: seq<int>)
    requires pages != [] && ValidPages(pages)
    ensures IntPages(pages)
    ensures forall r :: r in Runs(pages) ==> 0 <= r.first * PAGE_SIZE <= INT_MAX && r.count * PAGE_SIZE <= INT_MAX
    ensures forall r :: r in Runs(pages) ==> r.first >= 0
  {
    RunsWithin(pages, |pages|, INT_MAX / PAGE_SIZE + 1);
  }

  ghost predicate HoldsRanges(blocks: array2<int>, ranges: seq<Range>)
    reads blocks
  {
    && blocks.Length0 == |ranges| && blocks.Length1 == 2
    && forall k :: 0 <= k < |ranges| ==> blocks[k, 0] == ranges[k].paddr && blocks[k, 1] == ranges[k].size
  }

  /** The merged runs of the pages, in bytes. */
  method PrepareBlocks(pages: array<int>) returns (blocks: array2<int>)
    requires pages.Length > 0 && ValidPages(pages[..])
    ensures fresh(blocks)
    ensures forall r :: r in Runs(pages[..]) ==> r.first >= 0
    ensures HoldsRanges(blocks, Ranges(Runs(pages[..])))
  {
    RunsInRange(pages[..]);
    var blockNum := CountRuns(pages);
    blocks := new int[blockNum, 2];
    MergePages(pages, blockNum, blocks);
    PagesToBytes(blocks, Runs(pages[..]));
  }

  /** One of the ranges contains the range. */
  predicate InSome(ranges: seq<Range>, range: Range) {
    exists j :: 0 <= j < |ranges| && Contains(ranges[j], range)
  }

  lemma {:induction false} MappedAfter(before: Mappings, after: Mappings, vaddrs: seq<nat>, ranges: seq<Range>,
                                       range: Range)
    requires Adds(before, after, vaddrs, ranges)
    ensures Mapped(after, range) <==> Mapped(before, range) || InSome(ranges, range)
    decreases |vaddrs|
  {
    if vaddrs != [] {
      var n := |vaddrs| - 1;
      var less := after - {vaddrs[n]};
      MappedAfter(before, less, vaddrs[..n], ranges[..n], range);
      assert Mapped(after, range) <==> Mapped(less, range) || Contains(ranges[n], range) by {
        assert forall v :: v in after <==> v in less || v == vaddrs[n];
      }
      assert InSome(ranges, range) <==> InSome(ranges[..n], range) || Contains(ranges[n], range) by {
        assert ranges == ranges[..n] + [ranges[n]];
      }
    }
  }

  /** Range k is mapped neither before nor by the ranges in front of it. */
  predicate IsNew(before: Mappings, ranges: seq<Range>, k: nat)
    requires k < |ranges|
  {
    !Mapped(before, ranges[k]) && !InSome(ranges[..k], ranges[k])
  }

  predicate AllNew(before: Mappings, ranges: seq<Range>) {
    forall k: nat :: k < |ranges| ==> IsNew(before, ranges, k)
  }

  /** Maps block k behind the ones in front of it. */
  method MapNext(mmu: Mmu, blocks: array2<int>, vaddrs: array<nat>, k: nat, ghost before: Mappings,
                 ghost ranges: seq<Range>)
    returns (e: Err)
    requires HoldsRanges(blocks, ranges) && k < vaddrs.Length == |ranges|
    requires Adds(before, mmu.mappings, vaddrs[..k], ranges[..k])
    modifies mmu, vaddrs
    ensures mmu.refusals == if e in {NoMem, Fail} then old(mmu.refusals) + [e] else old(mmu.refusals)
    ensures e !in {NoMem, Fail} ==> e == if IsNew(before, ranges, k) then Ok else InvalidState
    ensures var n := if e == Ok then k + 1 else k;
            Adds(before, mmu.mappings, vaddrs[..n], ranges[..n])
  {
    ghost var now, list := mmu.mappings, vaddrs[..k];
    var range := Range(blocks[k, 0], blocks[k, 1]);
    MappedAfter(before, now, list, ranges[..k], range);
    var vaddr;
    e, vaddr := mmu.Map(range);
    if e == Ok {
      MappedOneMore(before, now, list, ranges[..k], vaddr, range);
      vaddrs[k] := vaddr;
      assert vaddrs[..k + 1] == list + [vaddr];
      assert ranges[..k + 1] == ranges[..k] + [range];
    }
  }

  /** Maps one block after the other until the driver refuses one or finds it mapped. */
  method MapBlocks(mmu: Mmu, blocks: array2<int>, vaddrs: array<nat>, ghost ranges: seq<Range>)
    returns (e: Err, successful: nat)
    requires HoldsRanges(blocks, ranges) && vaddrs.Length == |ranges|
    modifies mmu, vaddrs
    ensures successful <= |ranges| && (e == Ok ==> successful == |ranges|)
    ensures Adds(old(mmu.mappings), mmu.mappings, vaddrs[..successful], ranges[..successful])
    ensures mmu.refusals == if e in {NoMem, Fail} then old(mmu.refusals) + [e] else old(mmu.refusals)
    ensures e !in {NoMem, Fail} ==> e == if AllNew(old(mmu.mappings), ranges) then Ok else InvalidState
  {
    ghost var before := mmu.mappings;
    e, successful := Ok, 0;
    while e == Ok && successful < blocks.Length0
      invariant 0 <= successful <= |ranges|
      invariant Adds(before, mmu.mappings, vaddrs[..successful], ranges[..successful])
      invariant mmu.refusals == if e in {NoMem, Fail} then old(mmu.refusals) + [e] else old(mmu.refusals)
      invariant e in {Ok, InvalidState, NoMem, Fail}
      invariant forall k: nat :: k < successful ==> IsNew(before, ranges, k)
      invariant e == InvalidState ==> successful < |ranges| && !IsNew(before, ranges, successful)
      decreases e == Ok, |ranges| - successful
    {
      e := MapNext(mmu, blocks, vaddrs, successful, before, ranges);
      if e == Ok {
        successful := successful + 1;
      }
    }
  }

  // ---------------------------------------------------------------------------------------
  // One block of memory
  // ---------------------------------------------------------------------------------------

  predicate Consecutive(pages: seq<int>)
    requires pages != []
  {
    forall i :: 0 <= i < |pages| ==> pages[i] == pages[0] + i
  }

  lemma {:induction false} OneRunUpTo(pages: seq<int>, k: nat)
    requires 0 < k <= |pages|
    ensures |RunsUpTo(pages, k)| == 1 <==> Consecutive(pages[..k])
    ensures Consecutive(pages[..k]) ==> RunsUpTo(pages, k) == [Run(pages[0], k)]
  {
    if k > 1 {
      OneRunUpTo(pages, k - 1);
      TakeOneMore(pages, k);
      assert Consecutive(pages[..k]) <==> Consecutive(pages[..k - 1]) && pages[..k][k - 1] == pages[0] + k - 1;
    }
  }

  /** The pages are a single run if and only if each is the successor of the one before. */
  lemma OneRunExactly(pages: seq<int>)
    requires pages != []
    ensures |Runs(pages)| == 1 <==> Consecutive(pages)
    ensures Consecutive(pages) ==> Runs(pages) == [Run(pages[0], |pages|)]
  {
    OneRunUpTo(pages, |pages|);
    assert pages[..|pages|] == pages;
  }

  /** Each range is mapped right behind the one before it. */
  predicate Contiguous(vaddrs: seq<nat>, ranges: seq<Range>)
    requires |vaddrs| == |ranges|
  {
    forall i :: 0 < i < |vaddrs| ==> vaddrs[i] == vaddrs[i - 1] + ranges[i - 1].size
  }

  /** Whatever addresses the driver chooses. */
  ghost predicate AlwaysContiguous(before: Mappings, ranges: seq<Range>) {
    forall after, vaddrs :: Adds(before, after, vaddrs, ranges) && |vaddrs| == |ranges| ==>
      Contiguous(vaddrs, ranges)
  }

  lemma {:induction false} Above(used: set<nat>) returns (base: nat)
    ensures forall v :: v in used ==> v < base
  {
    if used == {} {
      base := 0;
    } else {
      var v :| v in used;
      var rest := Above(used - {v});
      base := if v < rest then rest else v + 1;
      assert used == (used - {v}) + {v};
    }
  }

  /** A driver that leaves one page unused behind every range. */
  lemma {:induction false} MapWithGaps(before: Mappings, ranges: seq<Range>)
    returns (after: Mappings, vaddrs: seq<nat>, next: nat)
    ensures Adds(before, after, vaddrs, ranges) && |vaddrs| == |ranges|
    ensures forall v :: v in after ==> v < next
    ensures ranges != [] ==> next == vaddrs[|vaddrs| - 1] + ranges[|ranges| - 1].size + PAGE_SIZE
    ensures forall i :: 0 < i < |vaddrs| ==> vaddrs[i] == vaddrs[i - 1] + ranges[i - 1].size + PAGE_SIZE
  {
    if ranges == [] {
      next := Above(before.Keys);
      after, vaddrs := before, [];
    } else {
      var n := |ranges| - 1;
      var now, list, v := MapWithGaps(before, ranges[..n]);
      MappedOneMore(before, now, list, ranges[..n], v, ranges[n]);
      assert ranges == ranges[..n] + [ranges[n]];
      after, vaddrs, next := now[v := ranges[n]], list + [v], v + ranges[n].size + PAGE_SIZE;
    }
  }

  /** The pages are sure to become one block of memory if and only if they are consecutive; for any
      other list there is a driver that maps the runs apart. */
  lemma ContiguousExactly(pages: seq<int>, before: Mappings)
    requires pages != [] && ValidPages(pages)
    ensures forall r :: r in Runs(pages) ==> r.first >= 0
    ensures AlwaysContiguous(before, Ranges(Runs(pages))) <==> Consecutive(pages)
  {
    RunsInRange(pages);
    OneRunExactly(pages);
    var ranges := Ranges(Runs(pages));
    if |ranges| > 1 {
      var after, vaddrs, next := MapWithGaps(before, ranges);
      assert !Contiguous(vaddrs, ranges) by {
        assert vaddrs[1] != vaddrs[0] + ranges[0].size;
      }
    }
  }

  /** spi_flash_mmap_pages. Either every run of the pages is mapped, in order, or nothing has
      changed. Consecutive pages become one block of memory, at the address returned. If the allocator
      has room and the driver does not refuse, it succeeds exactly if no run is mapped already, also by a
      run in front of it. */
  method MmapPages(mmu: Mmu, pages: array<int>, hasRoom: bool) returns (e: Err, ptr: nat, handle: MmapBlock?)
    requires pages.Length > 0 && ValidPages(pages[..])
    modifies mmu
    ensures forall r :: r in Runs(pages[..]) ==> r.first >= 0
    ensures if !hasRoom then e == NoMem && mmu.refusals == old(mmu.refusals)
            else if mmu.refusals == old(mmu.refusals)
            then e == if AllNew(old(mmu.mappings), Ranges(Runs(pages[..]))) then Ok else InvalidState
            else e in {NoMem, Fail} && mmu.refusals == old(mmu.refusals) + [e]
    ensures e == Ok ==>
              && handle != null && fresh(handle) && 0 < handle.listNum <= handle.vaddrList.Length
              && Adds(old(mmu.mappings), mmu.mappings, handle.vaddrList[..handle.listNum], Ranges(Runs(pages[..])))
              && ptr == handle.vaddrList[0]
    ensures e == Ok && Consecutive(pages[..]) ==>
              && handle.listNum == 1 && ptr in mmu.mappings
              && mmu.mappings[ptr] == Range(pages[0] * PAGE_SIZE, pages.Length * PAGE_SIZE)
    ensures e != Ok ==> handle == null && mmu.mappings == old(mmu.mappings)
  {
    RunsInRange(pages[..]);
    OneRunExactly(pages[..]);
    ghost var ranges := Ranges(Runs(pages[..]));
    ptr, handle := 0, null;
    var blocks := PrepareBlocks(pages);
    if !hasRoom {
      return NoMem, 0, null;
    }
    var vaddrs := new nat[blocks.Length0];
    var successful;
    e, successful := MapBlocks(mmu, blocks, vaddrs, ranges);
    if e != Ok {
      UnmapList(mmu, vaddrs, successful, old(mmu.mappings), ranges[..successful]);
      return;
    }
    assert ranges[..successful] == ranges;
    handle := new MmapBlock(vaddrs, successful);
    ptr := vaddrs[0];
  }

  /** spi_flash_mmap. If the allocator has room and the driver does not refuse, the range is mapped at the
      address returned: by a mapping that held it before, which stays as it is and is not the handle's to
      unmap, or by a new one. */
  method Mmap(mmu: Mmu, range: Range, hasRoom: bool) returns (e: Err, ptr: nat, handle: MmapBlock?)
    modifies mmu
    ensures if !hasRoom then e == NoMem && mmu.refusals == old(mmu.refusals)
            else if mmu.refusals == old(mmu.refusals) then e == Ok
            else e in {NoMem, Fail} && mmu.refusals == old(mmu.refusals) + [e]
    ensures e == Ok ==>
              && handle != null && fresh(handle) && handle.listNum <= handle.vaddrList.Length
              && MappedAt(mmu.mappings, range, ptr)
              && (handle.listNum == 0 <==> Mapped(old(mmu.mappings), range))
              && (if handle.listNum == 0 then mmu.mappings == old(mmu.mappings)
                  else handle.listNum == 1 && handle.vaddrList[0] == ptr
                       && ptr !in old(mmu.mappings) && mmu.mappings == old(mmu.mappings)[ptr := range])
              && Adds(old(mmu.mappings), mmu.mappings, handle.vaddrList[..handle.listNum],
                      if handle.listNum == 0 then [] else [range])
    ensures e != Ok ==> handle == null && mmu.mappings == old(mmu.mappings)
  {
    handle, ptr := null, 0;
    if !hasRoom {
      return NoMem, 0, null;
    }
    var vaddrs := new nat[1];
    e, ptr := mmu.Map(range);
    if e == Ok {
      vaddrs[0] := ptr;
      MappedOneMore(old(mmu.mappings), old(mmu.mappings), [], [], ptr, range);
      assert vaddrs[..1] == [] + [ptr] && [] + [range] == [range];
      handle := new MmapBlock(vaddrs, 1);
      assert Contains(mmu.mappings[ptr], range);
    } else if e == InvalidState {
      e := Ok;
      handle := new MmapBlock(vaddrs, 0);
    }
  }

  /** spi_flash_munmap undoes the mapping of the handle, whatever else has been mapped or unmapped
      since: before is what is mapped apart from it. */
  method Munmap(mmu: Mmu, handle: MmapBlock, ghost before: Mappings, ghost ranges: seq<Range>)
    requires handle.listNum <= handle.vaddrList.Length
    requires Adds(before, mmu.mappings, handle.vaddrList[..handle.listNum], ranges)
    modifies mmu`mappings
    ensures mmu.mappings == before
  {
    UnmapList(mmu, handle.vaddrList, handle.listNum, before, ranges);
  }
}

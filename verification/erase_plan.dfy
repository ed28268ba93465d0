/** Which erase commands esp_flash_erase_region sends: whole blocks where it can, single sectors
    elsewhere. */
module ErasePlan {
  import opened Arith
  import opened NorFlash

  /** A range of sectors to erase. A block size of 0 means that the chip has no block erase. */
  datatype Geometry = Geometry(sector: nat, block: nat) {
    predicate Valid() {
      sector > 0 && block % sector == 0
    }
  }

  datatype Command = Sector(at: nat) | Block(at: nat)

  function Size(g: Geometry, c: Command): nat {
    if c.Sector? then g.sector else g.block
  }

  /** The choice made for the erase address at when len bytes remain. */
  predicate UseBlock(g: Geometry, at: nat, len: nat) {
    g.block > 0 && len >= g.block && at % g.block == 0
  }

  function Choice(g: Geometry, at: nat, len: nat): Command {
    if UseBlock(g, at, len) then Block(at) else Sector(at)
  }

  lemma ChoiceFits(g: Geometry, at: nat, len: nat)
    requires g.Valid() && len > 0 && len % g.sector == 0
    ensures 0 < Size(g, Choice(g, at, len)) <= len
    ensures (len - Size(g, Choice(g, at, len))) % g.sector == 0
  {
    DivModUnique(0, g.sector, 0, 0);
    MultipleGap(0, len, g.sector);
    DivModUnique(g.sector, g.sector, 1, 0);
    MultipleDifference(len, Size(g, Choice(g, at, len)), g.sector);
  }

  function Plan(g: Geometry, at: nat, len: nat): seq<Command>
    requires g.Valid() && len % g.sector == 0
    decreases len
  {
    if len == 0 then []
    else
      ChoiceFits(g, at, len);
      var c := Choice(g, at, len);
      [c] + Plan(g, at + Size(g, c), len - Size(g, c))
  }

  /** A loop that erases its choice each time sends the given commands. */
  predicate Follows(g: Geometry, at: nat, len: nat, cs: seq<Command>)
    decreases |cs|
  {
    if cs == [] then len == 0
    else
      && cs[0] == Choice(g, at, len) && 0 < Size(g, cs[0]) <= len
      && Follows(g, at + Size(g, cs[0]), len - Size(g, cs[0]), cs[1..])
  }

  lemma {:induction false} PlanFollows(g: Geometry, at: nat, len: nat)
    requires g.Valid() && len % g.sector == 0
    ensures Follows(g, at, len, Plan(g, at, len))
    decreases len
  {
    if len > 0 {
      ChoiceFits(g, at, len);
      var c := Choice(g, at, len);
      PlanFollows(g, at + Size(g, c), len - Size(g, c));
      assert Plan(g, at, len)[1..] == Plan(g, at + Size(g, c), len - Size(g, c));
    }
  }

  /** Erases the units of a sequence of commands. */
  function EraseAll(g: Geometry, mem: Bytes, cs: seq<Command>): Bytes
    requires forall c :: c in cs ==> c.at + Size(g, c) <= |mem|
    decreases |cs|
  {
    if cs == [] then mem
    else EraseAll(g, Erased(mem, cs[0].at, Size(g, cs[0])), cs[1..])
  }

  lemma {:induction false} PlanInRange(g: Geometry, at: nat, len: nat)
    requires g.Valid() && len % g.sector == 0
    ensures forall c :: c in Plan(g, at, len) ==> at <= c.at && c.at + Size(g, c) <= at + len
    decreases len
  {
    if len > 0 {
      PlanCons(g, at, len);
      var c := Choice(g, at, len);
      PlanInRange(g, at + Size(g, c), len - Size(g, c));
    }
  }

  lemma EraseAllCons(g: Geometry, mem: Bytes, c: Command, cs: seq<Command>)
    requires forall d :: d in [c] + cs ==> d.at + Size(g, d) <= |mem|
    ensures c.at + Size(g, c) <= |mem| && forall d :: d in cs ==> d.at + Size(g, d) <= |mem|
    ensures EraseAll(g, mem, [c] + cs) == EraseAll(g, Erased(mem, c.at, Size(g, c)), cs)
  {
    var all := [c] + cs;
    assert all[0] == c && all[1..] == cs && all[0] in all;
    forall d | d in cs ensures d.at + Size(g, d) <= |mem| {
      assert d in all;
    }
  }

  /** The memory after the plan. */
  function PlanErased(g: Geometry, mem: Bytes, at: nat, len: nat): Bytes
    requires g.Valid() && len % g.sector == 0 && at + len <= |mem|
  {
    PlanInRange(g, at, len);
    EraseAll(g, mem, Plan(g, at, len))
  }

  lemma PlanErasedNext(g: Geometry, mem: Bytes, at: nat, len: nat)
    requires g.Valid() && 0 < len && len % g.sector == 0 && at + len <= |mem|
    ensures var size := Size(g, Choice(g, at, len));
            && 0 < size <= len && (len - size) % g.sector == 0
            && PlanErased(g, mem, at, len) == PlanErased(g, Erased(mem, at, size), at + size, len - size)
  {
    PlanInRange(g, at, len);
    PlanCons(g, at, len);
    var c := Choice(g, at, len);
    EraseAllCons(g, mem, c, Plan(g, at + Size(g, c), len - Size(g, c)));
  }

  lemma EraseNothing(mem: Bytes, at: nat)
    requires at <= |mem|
    ensures Erased(mem, at, 0) == mem
  {
  }

  /** The plan erases exactly the range. */
  lemma {:induction false} PlanErasesRange(g: Geometry, mem: Bytes, at: nat, len: nat)
    requires g.Valid() && len % g.sector == 0 && at + len <= |mem|
    ensures PlanErased(g, mem, at, len) == Erased(mem, at, len)
    decreases len
  {
    if len == 0 {
      EraseNothing(mem, at);
    } else {
      var size := Size(g, Choice(g, at, len));
      PlanErasedNext(g, mem, at, len);
      PlanErasesRange(g, Erased(mem, at, size), at + size, len - size);
      EraseSplit(mem, at, size, len - size);
    }
  }

  /** Erasing sector by sector gives the same memory. */
  lemma SameAsSectorBySector(g: Geometry, mem: Bytes, at: nat, len: nat)
    requires g.Valid() && len % g.sector == 0 && at + len <= |mem|
    ensures var single := Geometry(g.sector, 0);
            && single.Valid()
            && (forall c :: c in Plan(single, at, len) ==> c.Sector? && c.at + Size(g, c) <= |mem|)
            && (forall c :: c in Plan(g, at, len) ==> c.at + Size(g, c) <= |mem|)
            && EraseAll(g, mem, Plan(single, at, len)) == EraseAll(g, mem, Plan(g, at, len))
  {
    var single := Geometry(g.sector, 0);
    DivModUnique(0, g.sector, 0, 0);
    PlanInRange(g, at, len);
    PlanInRange(single, at, len);
    PlanErasesRange(g, mem, at, len);
    PlanErasesRange(single, mem, at, len);
    OnlySectors(g.sector, at, len);
    SectorsEraseAlike(g, mem, Plan(single, at, len));
  }

  lemma {:induction false} OnlySectors(sector: nat, at: nat, len: nat)
    requires Geometry(sector, 0).Valid() && len % sector == 0
    ensures forall c :: c in Plan(Geometry(sector, 0), at, len) ==> c.Sector?
    decreases len
  {
    if len > 0 {
      PlanCons(Geometry(sector, 0), at, len);
      OnlySectors(sector, at + sector, len - sector);
    }
  }

  lemma {:induction false} SectorsEraseAlike(g: Geometry, mem: Bytes, cs: seq<Command>)
    requires forall c :: c in cs ==> c.Sector? && c.at + g.sector <= |mem|
    ensures EraseAll(g, mem, cs) == EraseAll(Geometry(g.sector, 0), mem, cs)
    decreases |cs|
  {
    if cs != [] {
      SectorsEraseAlike(g, Erased(mem, cs[0].at, g.sector), cs[1..]);
    }
  }

  // ---------------------------------------------------------------------------------------
  // No other set of commands is shorter
  // ---------------------------------------------------------------------------------------

  /** A command erases the naturally aligned unit at its address. */
  predicate Aligned(g: Geometry, c: Command) {
    Size(g, c) > 0 && c.at % Size(g, c) == 0
  }

  predicate Covers(g: Geometry, c: Command, x: nat) {
    c.at <= x < c.at + Size(g, c)
  }

  ghost predicate Covered(g: Geometry, cs: seq<Command>, x: nat) {
    exists c :: c in cs && Covers(g, c, x)
  }

  /** Any commands that erase all of the range and nothing else, in any order, overlapping or
      not. */
  ghost predicate ExactCover(g: Geometry, cs: seq<Command>, start: nat, len: nat) {
    && (forall c :: c in cs ==> Aligned(g, c) && start <= c.at && c.at + Size(g, c) <= start + len)
    && (forall x {:trigger Covered(g, cs, x)} :: start <= x < start + len ==> Covered(g, cs, x))
  }

  /** Address a is not strictly inside a block that lies in the range. */
  predicate Boundary(g: Geometry, start: nat, end: nat, a: nat) {
    g.block == 0 || a % g.block == 0 || a - a % g.block < start || a - a % g.block + g.block > end
  }

  lemma BoundaryStep(g: Geometry, start: nat, end: nat, a: nat)
    requires g.Valid() && start <= a < end && a % g.sector == 0
    requires Boundary(g, start, end, a)
    ensures Boundary(g, start, end, a + Size(g, Choice(g, a, end - a)))
    ensures (a + Size(g, Choice(g, a, end - a))) % g.sector == 0
  {
    var s, b := g.sector, g.block;
    DivModUnique(s, s, 1, 0);
    MultipleSum(a, Size(g, Choice(g, a, end - a)), s);
    if b > 0 {
      if UseBlock(g, a, end - a) {
        StepRemainder(a, b, b);
      } else {
        MultipleRemainder(a, b, s);
        MultipleGap(a % b, b, s);
        StepRemainder(a, s, b);
      }
    }
  }

  /** Whatever covers a boundary begins there. */
  lemma CoverBeginsAtBoundary(g: Geometry, start: nat, end: nat, a: nat, c: Command)
    requires g.Valid() && a % g.sector == 0 && Boundary(g, start, end, a)
    requires Aligned(g, c) && start <= c.at && c.at + Size(g, c) <= end && Covers(g, c, a)
    ensures c.at == a
  {
    var size := Size(g, c);
    var q := c.at / size;
    assert c.at == q * size;
    DivModUnique(a, size, q, a - c.at);
  }

  function StartSet(cs: seq<Command>): set<nat> {
    set i | 0 <= i < |cs| :: cs[i].at
  }

  lemma StartSetCons(c: Command, tail: seq<Command>)
    ensures StartSet([c] + tail) == {c.at} + StartSet(tail)
  {
    var cs := [c] + tail;
    assert cs[0] == c && forall i :: 0 < i < |cs| ==> cs[i] == tail[i - 1];
    forall x | x in StartSet(tail) ensures x in StartSet(cs) {
      var i :| 0 <= i < |tail| && tail[i].at == x;
      assert cs[i + 1].at == x;
    }
  }

  lemma BoundaryIsStart(g: Geometry, cover: seq<Command>, start: nat, len: nat, a: nat)
    requires g.Valid() && ExactCover(g, cover, start, len)
    requires start <= a < start + len && a % g.sector == 0 && Boundary(g, start, start + len, a)
    ensures a in StartSet(cover)
  {
    assert Covered(g, cover, a);
    var c :| c in cover && Covers(g, c, a);
    CoverBeginsAtBoundary(g, start, start + len, a, c);
  }

  lemma PlanCons(g: Geometry, at: nat, len: nat)
    requires g.Valid() && len > 0 && len % g.sector == 0
    ensures var c := Choice(g, at, len);
            && 0 < Size(g, c) <= len && (len - Size(g, c)) % g.sector == 0
            && Plan(g, at, len) == [c] + Plan(g, at + Size(g, c), len - Size(g, c))
  {
    ChoiceFits(g, at, len);
  }

  /** Every command of the plan begins where some command of the cover begins. */
  lemma {:induction false} PlanStartsNeeded(g: Geometry, cover: seq<Command>, start: nat, len: nat, a: nat)
    requires g.Valid() && ExactCover(g, cover, start, len)
    requires start <= a <= start + len && (start + len - a) % g.sector == 0 && a % g.sector == 0
    requires Boundary(g, start, start + len, a)
    ensures StartSet(Plan(g, a, start + len - a)) <= StartSet(cover)
    decreases start + len - a
  {
    var rest := start + len - a;
    if rest > 0 {
      PlanCons(g, a, rest);
      BoundaryStep(g, start, start + len, a);
      BoundaryIsStart(g, cover, start, len, a);
      var c := Choice(g, a, rest);
      PlanStartsNeeded(g, cover, start, len, a + Size(g, c));
      StartSetCons(c, Plan(g, a + Size(g, c), rest - Size(g, c)));
    }
  }

  lemma {:induction false} FewerStartsThanCommands(cs: seq<Command>)
    ensures |StartSet(cs)| <= |cs|
  {
    if cs != [] {
      var n := |cs| - 1;
      FewerStartsThanCommands(cs[..n]);
      assert StartSet(cs) == StartSet(cs[..n]) + {cs[n].at};
    }
  }

  lemma OneMoreStart(x: nat, starts: set<nat>)
    requires x !in starts
    ensures |{x} + starts| == 1 + |starts|
  {
  }

  /** The commands of the plan begin at different addresses. */
  lemma {:induction false} PlanStartsDiffer(g: Geometry, at: nat, len: nat)
    requires g.Valid() && len % g.sector == 0
    ensures |StartSet(Plan(g, at, len))| == |Plan(g, at, len)|
    ensures forall x :: x in StartSet(Plan(g, at, len)) ==> at <= x
    decreases len
  {
    if len > 0 {
      PlanCons(g, at, len);
      var c := Choice(g, at, len);
      var rest := Plan(g, at + Size(g, c), len - Size(g, c));
      PlanStartsDiffer(g, at + Size(g, c), len - Size(g, c));
      StartSetCons(c, rest);
      OneMoreStart(c.at, StartSet(rest));
    }
  }

  lemma SubsetIsSmaller(a: set<nat>, b: set<nat>)
    requires a <= b
    ensures |a| <= |b|
  {
    assert b == a + (b - a);
  }

  /** The mixed block and sector erase uses the fewest commands of all that erase exactly the
      sector-aligned range. */
  lemma PlanIsShortest(g: Geometry, cover: seq<Command>, start: nat, len: nat)
    requires g.Valid() && start % g.sector == 0 && len % g.sector == 0
    requires ExactCover(g, cover, start, len)
    ensures |Plan(g, start, len)| <= |cover|
  {
    PlanStartsNeeded(g, cover, start, len, start);
    PlanStartsDiffer(g, start, len);
    FewerStartsThanCommands(cover);
    SubsetIsSmaller(StartSet(Plan(g, start, len)), StartSet(cover));
  }

  lemma AlignedStep(g: Geometry, at: nat, len: nat)
    requires g.Valid() && at % g.sector == 0 && len > 0 && len % g.sector == 0
    ensures Aligned(g, Choice(g, at, len))
    ensures (at + Size(g, Choice(g, at, len))) % g.sector == 0
  {
    DivModUnique(g.sector, g.sector, 1, 0);
    MultipleSum(at, Size(g, Choice(g, at, len)), g.sector);
  }

  lemma CoverCons(g: Geometry, c: Command, tail: seq<Command>, start: nat, len: nat)
    requires Aligned(g, c) && c.at == start && Size(g, c) <= len
    requires ExactCover(g, tail, start + Size(g, c), len - Size(g, c))
    ensures ExactCover(g, [c] + tail, start, len)
  {
    var cs := [c] + tail;
    forall x: nat | start <= x < start + len ensures Covered(g, cs, x) {
      if x < start + Size(g, c) {
        assert c in cs && Covers(g, c, x);
      } else {
        assert Covered(g, tail, x);
        var k :| k in tail && Covers(g, k, x);
        assert k in cs;
      }
    }
  }

  /** The plan is itself such a cover. */
  lemma {:induction false} PlanIsExactCover(g: Geometry, start: nat, len: nat)
    requires g.Valid() && start % g.sector == 0 && len % g.sector == 0
    ensures ExactCover(g, Plan(g, start, len), start, len)
    decreases len
  {
    if len > 0 {
      PlanCons(g, start, len);
      AlignedStep(g, start, len);
      var c := Choice(g, start, len);
      PlanIsExactCover(g, start + Size(g, c), len - Size(g, c));
      CoverCons(g, c, Plan(g, start + Size(g, c), len - Size(g, c)), start, len);
    }
  }
}

/** NOR flash as a sequence of bytes: programming can only clear bits, erasing sets them all. */
module NorFlash {

  type Byte = bv8
  type Bytes = seq<Byte>

  const BLANK: Byte := 0xFF

  /** mem after programming data at addr. */
  function Programmed(mem: Bytes, addr: nat, data: Bytes): Bytes
    requires addr + |data| <= |mem|
  {
    seq(|mem|, i requires 0 <= i < |mem| =>
      if addr <= i < addr + |data| then mem[i] & data[i - addr] else mem[i])
  }

  /** mem after erasing len bytes at addr. */
  function Erased(mem: Bytes, addr: nat, len: nat): Bytes
    requires addr + len <= |mem|
  {
    seq(|mem|, i requires 0 <= i < |mem| => if addr <= i < addr + len then BLANK else mem[i])
  }

  /** len bytes of value 0xFF. */
  function Blank(len: nat): Bytes {
    seq(len, _ => BLANK)
  }

  lemma AndBlank(b: Byte)
    ensures b & BLANK == b && BLANK & b == b && b & b == b
  {
  }

  /** Two adjacent programs are one. */
  lemma ProgramSplit(mem: Bytes, addr: nat, first: Bytes, second: Bytes)
    requires addr + |first| + |second| <= |mem|
    ensures Programmed(Programmed(mem, addr, first), addr + |first|, second)
            == Programmed(mem, addr, first + second)
  {
  }

  /** Bytes of value 0xFF before and after the data program nothing. */
  lemma ProgramPadded(mem: Bytes, addr: nat, before: nat, data: Bytes, after: nat)
    requires addr + before + |data| + after <= |mem|
    ensures Programmed(mem, addr, Blank(before) + data + Blank(after))
            == Programmed(mem, addr + before, data)
  {
    var padded := Blank(before) + data + Blank(after);
    forall i | 0 <= i < |mem|
      ensures Programmed(mem, addr, padded)[i] == Programmed(mem, addr + before, data)[i]
    {
      if addr <= i < addr + |padded| && !(addr + before <= i < addr + before + |data|) {
        assert padded[i - addr] == BLANK;
        AndBlank(mem[i]);
      }
    }
  }

  lemma BlankTail(before: nat, data: Bytes, after: nat, kept: nat)
    requires kept <= after
    ensures (Blank(before) + data + Blank(after))[..before + |data| + kept] == Blank(before) + data + Blank(kept)
  {
  }

  /** Programming nothing. */
  lemma ProgramNothing(mem: Bytes, addr: nat)
    requires addr <= |mem|
    ensures Programmed(mem, addr, []) == mem
  {
  }

  /** Two adjacent erasures are one. */
  lemma EraseSplit(mem: Bytes, addr: nat, first: nat, second: nat)
    requires addr + first + second <= |mem|
    ensures Erased(Erased(mem, addr, first), addr + first, second) == Erased(mem, addr, first + second)
  {
  }

  /** What is written into an erased range is what is read back from it. */
  lemma EraseWriteRead(mem: Bytes, start: nat, len: nat, addr: nat, data: Bytes)
    requires start + len <= |mem| && start <= addr && addr + |data| <= start + len
    ensures Programmed(Erased(mem, start, len), addr, data)[addr..addr + |data|] == data
  {
    var after := Programmed(Erased(mem, start, len), addr, data);
    forall i | 0 <= i < |data| ensures after[addr + i] == data[i] {
      AndBlank(data[i]);
    }
  }

  /** mem is old_ with some bytes of the data programmed: nothing outside the range has changed,
      and every byte inside has its old or its new value. */
  predicate PartlyProgrammed(old_: Bytes, mem: Bytes, addr: nat, data: Bytes) {
    && |mem| == |old_|
    && forall i {:trigger MayBe(old_, mem, addr, data, i)} :: 0 <= i < |mem| ==> MayBe(old_, mem, addr, data, i)
  }

  predicate MayBe(old_: Bytes, mem: Bytes, addr: nat, data: Bytes, i: nat)
    requires i < |mem| == |old_|
  {
    mem[i] == old_[i] || (addr <= i < addr + |data| && mem[i] == old_[i] & data[i - addr])
  }

  predicate PartlyErased(old_: Bytes, mem: Bytes, addr: nat, len: nat) {
    && |mem| == |old_|
    && forall i :: 0 <= i < |mem| ==> mem[i] == old_[i] || (addr <= i < addr + len && mem[i] == BLANK)
  }

  /** One more piece of the data, programmed after an earlier part of it. */
  lemma ProgramOneMore(old_: Bytes, was: Bytes, mem: Bytes, addr: nat, data: Bytes, done: nat, len: nat)
    requires done + len <= |data| && addr + |data| <= |old_|
    requires PartlyProgrammed(old_, was, addr, data[..done])
    requires PartlyProgrammed(was, mem, addr + done, data[done..done + len])
    ensures PartlyProgrammed(old_, mem, addr, data[..done + len])
  {
    var whole := data[..done + len];
    forall i: nat | i < |mem| ensures MayBe(old_, mem, addr, whole, i) {
      assert MayBe(old_, was, addr, data[..done], i);
      assert MayBe(was, mem, addr + done, data[done..done + len], i);
    }
  }

  lemma ProgrammedIsPartly(mem: Bytes, addr: nat, data: Bytes)
    requires addr + |data| <= |mem|
    ensures PartlyProgrammed(mem, mem, addr, data)
    ensures PartlyProgrammed(mem, Programmed(mem, addr, data), addr, data)
  {
    var after := Programmed(mem, addr, data);
    forall i: nat | i < |mem| ensures MayBe(mem, after, addr, data, i) && MayBe(mem, mem, addr, data, i) {
    }
  }

  lemma Unprogrammed(mem: Bytes, addr: nat, data: Bytes)
    ensures PartlyProgrammed(mem, mem, addr, data)
  {
    forall i: nat | i < |mem| ensures MayBe(mem, mem, addr, data, i) {
    }
  }

  predicate SameOutside(a: Bytes, b: Bytes, addr: nat, len: nat) {
    |a| == |b| && forall i :: 0 <= i < |a| && !(addr <= i < addr + len) ==> a[i] == b[i]
  }

  lemma PartlySameOutside(old_: Bytes, mem: Bytes, addr: nat, data: Bytes)
    requires PartlyProgrammed(old_, mem, addr, data)
    ensures SameOutside(old_, mem, addr, |data|)
  {
    forall i: nat | i < |mem| && !(addr <= i < addr + |data|) ensures old_[i] == mem[i] {
      assert MayBe(old_, mem, addr, data, i);
    }
  }

  /** The first len bytes of what is left of the data after done. */
  lemma NextPiece(data: Bytes, done: nat, len: nat)
    requires done + len <= |data|
    ensures data[done..][..len] == data[done..done + len]
  {
  }

  lemma PartlyOfMore(old_: Bytes, mem: Bytes, addr: nat, data: Bytes, len: nat)
    requires len <= |data| && PartlyProgrammed(old_, mem, addr, data[..len])
    ensures PartlyProgrammed(old_, mem, addr, data)
    ensures len == |data| ==> data[..len] == data
  {
    var some := data[..len];
    forall i: nat | i < |mem| ensures MayBe(old_, mem, addr, data, i) {
      assert MayBe(old_, mem, addr, some, i);
    }
  }

  lemma ProgramAllOfOneMore(old_: Bytes, addr: nat, data: Bytes, done: nat, len: nat)
    requires done + len <= |data| && addr + |data| <= |old_|
    ensures Programmed(Programmed(old_, addr, data[..done]), addr + done, data[done..done + len])
            == Programmed(old_, addr, data[..done + len])
  {
    ProgramSplit(old_, addr, data[..done], data[done..done + len]);
    assert data[..done + len] == data[..done] + data[done..done + len];
  }

  /** The first n bytes of the data have been programmed at low, partly or, if full, in full. */
  predicate Progress(before: Bytes, mem: Bytes, low: nat, data: Bytes, n: nat, full: bool) {
    && n <= |data| && low + |data| <= |before|
    && PartlyProgrammed(before, mem, low, data[..n])
    && (full ==> mem == Programmed(before, low, data[..n]))
  }

  /** So have the bytes between from and to. */
  predicate Piece(was: Bytes, mem: Bytes, low: nat, data: Bytes, from: nat, to: nat, full: bool) {
    && from <= to <= |data| && low + |data| <= |was|
    && PartlyProgrammed(was, mem, low + from, data[from..to])
    && (full ==> mem == Programmed(was, low + from, data[from..to]))
  }

  lemma NoProgress(mem: Bytes, low: nat, data: Bytes)
    requires low + |data| <= |mem|
    ensures Progress(mem, mem, low, data, 0, true)
  {
    ProgramNothing(mem, low);
    Unprogrammed(mem, low, []);
    assert data[..0] == [];
  }

  lemma MoreProgress(before: Bytes, was: Bytes, mem: Bytes, low: nat, data: Bytes, from: nat, to: nat,
                     full: bool, nowFull: bool)
    requires Progress(before, was, low, data, from, full) && Piece(was, mem, low, data, from, to, nowFull)
    requires nowFull ==> full
    ensures Progress(before, mem, low, data, to, nowFull)
  {
    ProgramOneMore(before, was, mem, low, data, from, to - from);
    ProgramAllOfOneMore(before, low, data, from, to - from);
  }

  lemma AllProgress(before: Bytes, mem: Bytes, low: nat, data: Bytes, n: nat, full: bool)
    requires Progress(before, mem, low, data, n, full)
    ensures PartlyProgrammed(before, mem, low, data)
    ensures full && n == |data| ==> mem == Programmed(before, low, data)
  {
    PartlyOfMore(before, mem, low, data, n);
    assert data[..|data|] == data;
  }

  lemma EraseOneMore(old_: Bytes, was: Bytes, mem: Bytes, addr: nat, done: nat, len: nat)
    requires addr + done + len <= |old_|
    requires PartlyErased(old_, was, addr, done)
    requires PartlyErased(was, mem, addr + done, len)
    ensures PartlyErased(old_, mem, addr, done + len)
    ensures was == Erased(old_, addr, done) && mem == Erased(was, addr + done, len)
            ==> mem == Erased(old_, addr, done + len)
  {
    EraseSplit(old_, addr, done, len);
  }

  /** The first n bytes of the range have been erased, partly or, if full, in full. */
  predicate EraseProgress(before: Bytes, mem: Bytes, addr: nat, n: nat, full: bool) {
    && addr + n <= |before| && PartlyErased(before, mem, addr, n)
    && (full ==> mem == Erased(before, addr, n))
  }

  /** One more unit, which was erased or not. */
  lemma MoreErased(before: Bytes, was: Bytes, mem: Bytes, addr: nat, from: nat, to: nat, full: bool, nowFull: bool)
    requires EraseProgress(before, was, addr, from, full) && from <= to && addr + to <= |before|
    requires mem == was || mem == Erased(was, addr + from, to - from)
    requires nowFull ==> full && mem == Erased(was, addr + from, to - from)
    ensures EraseProgress(before, mem, addr, to, nowFull)
  {
    EraseOneMore(before, was, mem, addr, from, to - from);
  }

  // ---------------------------------------------------------------------------------------
  // Buffers
  // ---------------------------------------------------------------------------------------

  /** A buffer after content has been copied to the given place in it. */
  function Filled(buffer: Bytes, at: nat, content: Bytes): Bytes
    requires at + |content| <= |buffer|
  {
    seq(|buffer|, i requires 0 <= i < |buffer| =>
      if at <= i < at + |content| then content[i - at] else buffer[i])
  }

  /** Two adjacent copies are one. */
  lemma FillAppend(buffer: Bytes, at: nat, got: Bytes, piece: Bytes)
    requires at + |got| + |piece| <= |buffer|
    ensures Filled(Filled(buffer, at, got), at + |got|, piece) == Filled(buffer, at, got + piece)
  {
  }

  lemma SliceAppend(mem: Bytes, from: nat, done: nat, len: nat)
    requires from + done + len <= |mem|
    ensures mem[from..from + done] + mem[from + done..from + done + len] == mem[from..from + done + len]
  {
  }

  lemma FillNothing(buffer: Bytes, at: nat)
    requires at <= |buffer|
    ensures Filled(buffer, at, []) == buffer
  {
  }

  lemma SliceOfSlice(s: Bytes, a: nat, b: nat, c: nat, d: nat)
    requires a <= b <= |s| && c <= d <= b - a
    ensures s[a..b][c..d] == s[a + c..a + d]
  {
    forall k | 0 <= k < d - c ensures s[a..b][c..d][k] == s[a + c..a + d][k] {
      assert s[a..b][c + k] == s[a + (c + k)];
    }
  }

  lemma SliceOfFilled(buffer: Bytes, content: Bytes, c: nat, d: nat)
    requires c <= d <= |content| <= |buffer|
    ensures Filled(buffer, 0, content)[c..d] == content[c..d]
  {
  }

  /** memcpy. */
  method Copy(to: array<Byte>, at: nat, source: array<Byte>, from: nat, len: nat)
    requires to != source && at + len <= to.Length && from + len <= source.Length
    modifies to
    ensures to[..] == Filled(old(to[..]), at, source[from..from + len])
  {
    forall i | 0 <= i < len {
      to[at + i] := source[from + i];
    }
  }

  method CopyIn(to: array<Byte>, at: nat, content: Bytes)
    requires at + |content| <= to.Length
    modifies to
    ensures to[..] == Filled(old(to[..]), at, content)
  {
    forall i | 0 <= i < |content| {
      to[at + i] := content[i];
    }
  }
}

/** The frame check sequence of bt_main.c: a table-driven CRC-16. */
module Crc16 {

  type Word = bv16
  type Byte = bv8

  function Pick(i: Byte, a: Word, b: Word, c: Word, d: Word, e: Word, f: Word, g: Word, h: Word): Word {
    var j := i & 7;
    if j < 4 then (if j < 2 then (if j == 0 then a else b) else (if j == 2 then c else d))
    else (if j < 6 then (if j == 4 then e else f) else (if j == 6 then g else h))
  }

  /** crc16_table. */
  function Table(i: Byte): Word {
    if i < 0x08 then Pick(i, 0x0000, 0xC0C1, 0xC181, 0x0140, 0xC301, 0x03C0, 0x0280, 0xC241)
    else if i < 0x10 then Pick(i, 0xC601, 0x06C0, 0x0780, 0xC741, 0x0500, 0xC5C1, 0xC481, 0x0440)
    else if i < 0x18 then Pick(i, 0xCC01, 0x0CC0, 0x0D80, 0xCD41, 0x0F00, 0xCFC1, 0xCE81, 0x0E40)
    else if i < 0x20 then Pick(i, 0x0A00, 0xCAC1, 0xCB81, 0x0B40, 0xC901, 0x09C0, 0x0880, 0xC841)
    else if i < 0x28 then Pick(i, 0xD801, 0x18C0, 0x1980, 0xD941, 0x1B00, 0xDBC1, 0xDA81, 0x1A40)
    else if i < 0x30 then Pick(i, 0x1E00, 0xDEC1, 0xDF81, 0x1F40, 0xDD01, 0x1DC0, 0x1C80, 0xDC41)
    else if i < 0x38 then Pick(i, 0x1400, 0xD4C1, 0xD581, 0x1540, 0xD701, 0x17C0, 0x1680, 0xD641)
    else if i < 0x40 then Pick(i, 0xD201, 0x12C0, 0x1380, 0xD341, 0x1100, 0xD1C1, 0xD081, 0x1040)
    else if i < 0x48 then Pick(i, 0xF001, 0x30C0, 0x3180, 0xF141, 0x3300, 0xF3C1, 0xF281, 0x3240)
    else if i < 0x50 then Pick(i, 0x3600, 0xF6C1, 0xF781, 0x3740, 0xF501, 0x35C0, 0x3480, 0xF441)
    else if i < 0x58 then Pick(i, 0x3C00, 0xFCC1, 0xFD81, 0x3D40, 0xFF01, 0x3FC0, 0x3E80, 0xFE41)
    else if i < 0x60 then Pick(i, 0xFA01, 0x3AC0, 0x3B80, 0xFB41, 0x3900, 0xF9C1, 0xF881, 0x3840)
    else if i < 0x68 then Pick(i, 0x2800, 0xE8C1, 0xE981, 0x2940, 0xEB01, 0x2BC0, 0x2A80, 0xEA41)
    else if i < 0x70 then Pick(i, 0xEE01, 0x2EC0, 0x2F80, 0xEF41, 0x2D00, 0xEDC1, 0xEC81, 0x2C40)
    else if i < 0x78 then Pick(i, 0xE401, 0x24C0, 0x2580, 0xE541, 0x2700, 0xE7C1, 0xE681, 0x2640)
    else if i < 0x80 then Pick(i, 0x2200, 0xE2C1, 0xE381, 0x2340, 0xE101, 0x21C0, 0x2080, 0xE041)
    else if i < 0x88 then Pick(i, 0xA001, 0x60C0, 0x6180, 0xA141, 0x6300, 0xA3C1, 0xA281, 0x6240)
    else if i < 0x90 then Pick(i, 0x6600, 0xA6C1, 0xA781, 0x6740, 0xA501, 0x65C0, 0x6480, 0xA441)
    else if i < 0x98 then Pick(i, 0x6C00, 0xACC1, 0xAD81, 0x6D40, 0xAF01, 0x6FC0, 0x6E80, 0xAE41)
    else if i < 0xA0 then Pick(i, 0xAA01, 0x6AC0, 0x6B80, 0xAB41, 0x6900, 0xA9C1, 0xA881, 0x6840)
    else if i < 0xA8 then Pick(i, 0x7800, 0xB8C1, 0xB981, 0x7940, 0xBB01, 0x7BC0, 0x7A80, 0xBA41)
    else if i < 0xB0 then Pick(i, 0xBE01, 0x7EC0, 0x7F80, 0xBF41, 0x7D00, 0xBDC1, 0xBC81, 0x7C40)
    else if i < 0xB8 then Pick(i, 0xB401, 0x74C0, 0x7580, 0xB541, 0x7700, 0xB7C1, 0xB681, 0x7640)
    else if i < 0xC0 then Pick(i, 0x7200, 0xB2C1, 0xB381, 0x7340, 0xB101, 0x71C0, 0x7080, 0xB041)
    else if i < 0xC8 then Pick(i, 0x5000, 0x90C1, 0x9181, 0x5140, 0x9301, 0x53C0, 0x5280, 0x9241)
    else if i < 0xD0 then Pick(i, 0x9601, 0x56C0, 0x5780, 0x9741, 0x5500, 0x95C1, 0x9481, 0x5440)
    else if i < 0xD8 then Pick(i, 0x9C01, 0x5CC0, 0x5D80, 0x9D41, 0x5F00, 0x9FC1, 0x9E81, 0x5E40)
    else if i < 0xE0 then Pick(i, 0x5A00, 0x9AC1, 0x9B81, 0x5B40, 0x9901, 0x59C0, 0x5880, 0x9841)
    else if i < 0xE8 then Pick(i, 0x8801, 0x48C0, 0x4980, 0x8941, 0x4B00, 0x8BC1, 0x8A81, 0x4A40)
    else if i < 0xF0 then Pick(i, 0x4E00, 0x8EC1, 0x8F81, 0x4F40, 0x8D01, 0x4DC0, 0x4C80, 0x8C41)
    else if i < 0xF8 then Pick(i, 0x4400, 0x84C1, 0x8581, 0x4540, 0x8701, 0x47C0, 0x4680, 0x8641)
    else Pick(i, 0x8201, 0x42C0, 0x4380, 0x8341, 0x4100, 0x81C1, 0x8081, 0x4040)
  }

  /** crc16_byte. */
  function CrcByte(crc: Word, data: Byte): Word {
    (crc >> 8) ^ Table(((crc ^ (data as Word)) & 0xFF) as Byte)
  }

  /** What crc16 computes. */
  function Crc(crc: Word, message: seq<Byte>): Word {
    if message == [] then crc
    else CrcByte(Crc(crc, message[..|message| - 1]), message[|message| - 1])
  }

  /** crc16. */
  method Crc16(start: Word, buffer: array<Byte>, len: nat) returns (crc: Word)
    requires len <= buffer.Length
    ensures crc == Crc(start, buffer[..len])
  {
    crc := start;
    for i := 0 to len
      invariant crc == Crc(start, buffer[..i])
    {
      crc := CrcByte(crc, buffer[i]);
      assert buffer[..i + 1][..i] == buffer[..i];
    }
  }

  lemma {:induction false} CrcComposes(crc: Word, a: seq<Byte>, b: seq<Byte>)
    ensures Crc(crc, a + b) == Crc(Crc(crc, a), b)
    decreases |b|
  {
    if b == [] {
      assert a + b == a;
    } else {
      var n := |b| - 1;
      CrcComposes(crc, a, b[..n]);
      assert (a + b)[..|a + b| - 1] == a + b[..n];
    }
  }

  lemma CrcOne(crc: Word, data: Byte)
    ensures Crc(crc, [data]) == CrcByte(crc, data)
  {
    assert [data][..0] == [];
  }

  // ---------------------------------------------------------------------------------------
  // The shift register of the Bluetooth Core Specification 4.2, Vol 3 Part A, section 3.3.5
  // ---------------------------------------------------------------------------------------

  /** One bit, with the generator D^16 + D^15 + D^2 + 1: the feedback 0x8005 if the bit that leaves
      the register differs from the one that comes in. */
  function Shift(register: Word, bit: Word): Word {
    (register << 1) ^ (0x8005 & (0 - ((register >> 15) ^ bit)))
  }

  lemma ShiftFeeds(register: Word, bit: Word)
    requires bit <= 1
    ensures register >> 15 == bit ==> Shift(register, bit) == register << 1
    ensures register >> 15 != bit ==> Shift(register, bit) == (register << 1) ^ 0x8005
  {
  }

  function Lfsr(register: Word, bits: seq<Word>): Word
    decreases |bits|
  {
    if bits == [] then register else Lfsr(Shift(register, bits[0]), bits[1..])
  }

  lemma LfsrCons(register: Word, bit: Word, rest: seq<Word>)
    ensures Lfsr(register, [bit] + rest) == Lfsr(Shift(register, bit), rest)
  {
    assert ([bit] + rest)[1..] == rest;
  }

  /** The n low bits of a word in the order they are sent, least significant first. */
  function BitsOf(word: Word, n: nat): seq<Word>
    decreases n
  {
    if n == 0 then [] else [word & 1] + BitsOf(word >> 1, n - 1)
  }

  function Bits(message: seq<Byte>): seq<Word> {
    if message == [] then [] else Bits(message[..|message| - 1]) + BitsOf(message[|message| - 1] as Word, 8)
  }

  lemma {:induction false} LfsrComposes(register: Word, a: seq<Word>, b: seq<Word>)
    ensures Lfsr(register, a + b) == Lfsr(Lfsr(register, a), b)
    decreases |a|
  {
    if a == [] {
      assert a + b == b;
    } else {
      assert (a + b)[1..] == a[1..] + b;
      LfsrComposes(Shift(register, a[0]), a[1..], b);
    }
  }

  /** The word with its bits in the opposite order. */
  function Reverse(x: Word): Word {
    var a := ((x & 0x5555) << 1) | ((x >> 1) & 0x5555);
    var b := ((a & 0x3333) << 2) | ((a >> 2) & 0x3333);
    var c := ((b & 0x0F0F) << 4) | ((b >> 4) & 0x0F0F);
    (c << 8) | (c >> 8)
  }

  lemma ReverseTwice(x: Word)
    ensures Reverse(Reverse(x)) == x
  {
  }

  // ---------------------------------------------------------------------------------------
  // Table, single steps and shift register
  // ---------------------------------------------------------------------------------------

  /** One bit of the reversed register, the incoming bit being zero. */
  function Step(x: Word): Word {
    (x >> 1) ^ (0xA001 & (0 - (x & 1)))
  }

  function StepN(x: Word, n: nat): Word
    decreases n
  {
    if n == 0 then x else StepN(Step(x), n - 1)
  }

  /** Eight steps, written out. */
  function EightSteps(x: Word): Word {
    var a := (x >> 1) ^ (0xA001 & (0 - (x & 1)));
    var b := (a >> 1) ^ (0xA001 & (0 - (a & 1)));
    var c := (b >> 1) ^ (0xA001 & (0 - (b & 1)));
    var d := (c >> 1) ^ (0xA001 & (0 - (c & 1)));
    var e := (d >> 1) ^ (0xA001 & (0 - (d & 1)));
    var f := (e >> 1) ^ (0xA001 & (0 - (e & 1)));
    var g := (f >> 1) ^ (0xA001 & (0 - (f & 1)));
    (g >> 1) ^ (0xA001 & (0 - (g & 1)))
  }

  lemma EightStepsAreSteps(x: Word)
    ensures EightSteps(x) == Step(Step(Step(Step(Step(Step(Step(Step(x))))))))
  {
  }

  lemma EightStepsAreStepN(x: Word)
    ensures EightSteps(x) == StepN(x, 8)
  {
    EightStepsAreSteps(x);
    var a := Step(x);
    var b := Step(a);
    var c := Step(b);
    var d := Step(c);
    var e := Step(d);
    var f := Step(e);
    var g := Step(f);
    var h := Step(g);
    assert StepN(h, 0) == h;
    assert StepN(g, 1) == h;
    assert StepN(f, 2) == h;
    assert StepN(e, 3) == h;
    assert StepN(d, 4) == h;
    assert StepN(c, 5) == h;
    assert StepN(b, 6) == h;
    assert StepN(a, 7) == h;
  }

  /** The table holds eight steps of every byte. */
  lemma TableIsEightSteps(i: Byte)
    ensures Table(i) == EightSteps(i as Word)
  {
  }

  lemma EightStepsSplit(x: Word)
    ensures EightSteps(x) == (x >> 8) ^ EightSteps(x & 0xFF)
  {
  }

  lemma LowByteOnly(crc: Word, data: Byte)
    ensures (crc ^ (data as Word)) >> 8 == crc >> 8
  {
  }

  /** One table look-up is eight steps. */
  lemma ByteIsEightSteps(crc: Word, data: Byte)
    ensures CrcByte(crc, data) == EightSteps(crc ^ (data as Word))
  {
    EightStepsSplit(crc ^ (data as Word));
    LowByteOnly(crc, data);
    TableIsEightSteps(((crc ^ (data as Word)) & 0xFF) as Byte);
  }

  /** A step sees the lowest of the incoming bits and leaves the others to the next steps. */
  lemma StepLate(x: Word, bits: Word)
    ensures Step(x ^ bits) == Step(x ^ (bits & 1)) ^ (bits >> 1)
  {
  }

  lemma StepIsShift(x: Word, bits: Word)
    ensures Reverse(Step(x ^ (bits & 1))) == Shift(Reverse(x), bits & 1)
  {
  }

  /** The word has no bits above the n lowest. */
  predicate Fits(word: Word, n: nat)
    decreases n
  {
    if n == 0 then word == 0 else Fits(word >> 1, n - 1)
  }

  lemma ByteFits(word: Word)
    requires word <= 0xFF
    ensures Fits(word, 8)
  {
    var a := word >> 1;
    var b := a >> 1;
    var c := b >> 1;
    var d := c >> 1;
    var e := d >> 1;
    var f := e >> 1;
    var g := f >> 1;
    assert g >> 1 == 0;
    assert Fits(g >> 1, 0);
    assert Fits(g, 1);
    assert Fits(f, 2);
    assert Fits(e, 3);
    assert Fits(d, 4);
    assert Fits(c, 5);
    assert Fits(b, 6);
    assert Fits(a, 7);
  }

  /** One step for every bit. */
  function Serial(x: Word, bits: Word, n: nat): Word
    decreases n
  {
    if n == 0 then x else Serial(Step(x ^ (bits & 1)), bits >> 1, n - 1)
  }

  lemma {:induction false} StepsAreSerial(x: Word, bits: Word, n: nat)
    requires Fits(bits, n)
    ensures StepN(x ^ bits, n) == Serial(x, bits, n)
    decreases n
  {
    if n > 0 {
      StepLate(x, bits);
      StepsAreSerial(Step(x ^ (bits & 1)), bits >> 1, n - 1);
    }
  }

  lemma {:induction false} SerialIsLfsr(x: Word, bits: Word, n: nat)
    ensures Reverse(Serial(x, bits, n)) == Lfsr(Reverse(x), BitsOf(bits, n))
    decreases n
  {
    if n > 0 {
      StepIsShift(x, bits);
      SerialIsLfsr(Step(x ^ (bits & 1)), bits >> 1, n - 1);
      LfsrCons(Reverse(x), bits & 1, BitsOf(bits >> 1, n - 1));
    }
  }

  lemma ByteIsLfsr(crc: Word, data: Byte)
    ensures Reverse(CrcByte(crc, data)) == Lfsr(Reverse(crc), BitsOf(data as Word, 8))
  {
    ByteIsEightSteps(crc, data);
    EightStepsAreStepN(crc ^ (data as Word));
    ByteFits(data as Word);
    StepsAreSerial(crc, data as Word, 8);
    SerialIsLfsr(crc, data as Word, 8);
  }

  lemma {:induction false} MessageIsLfsr(crc: Word, message: seq<Byte>)
    ensures Reverse(Crc(crc, message)) == Lfsr(Reverse(crc), Bits(message))
  {
    if message != [] {
      var n := |message| - 1;
      MessageIsLfsr(crc, message[..n]);
      ByteIsLfsr(Crc(crc, message[..n]), message[n]);
      LfsrComposes(Reverse(crc), Bits(message[..n]), BitsOf(message[n] as Word, 8));
    }
  }

  /** The table-driven check sequence is the content of the shift register, with its bits in the
      opposite order, after the message has gone through it bit by bit. */
  lemma CrcIsLfsr(crc: Word, message: seq<Byte>)
    ensures Crc(crc, message) == Reverse(Lfsr(Reverse(crc), Bits(message)))
  {
    MessageIsLfsr(crc, message);
    ReverseTwice(Crc(crc, message));
  }

  // ---------------------------------------------------------------------------------------
  // What the check sequence detects
  // ---------------------------------------------------------------------------------------

  function Low(w: Word): Byte {
    (w & 0xFF) as Byte
  }

  function High(w: Word): Byte {
    (w >> 8) as Byte
  }

  /** A byte that agrees with the low byte of the register only shifts it. */
  lemma NoFeedback(crc: Word, data: Byte)
    requires ((crc ^ (data as Word)) & 0xFF) as Byte == 0
    ensures CrcByte(crc, data) == crc >> 8
  {
    assert Table(0) == 0;
  }

  lemma LowAgrees(crc: Word)
    ensures ((crc ^ (Low(crc) as Word)) & 0xFF) as Byte == 0
  {
  }

  lemma HighAgrees(crc: Word)
    ensures (((crc >> 8) ^ (High(crc) as Word)) & 0xFF) as Byte == 0
    ensures (crc >> 8) >> 8 == 0
  {
  }

  lemma OwnBytes(crc: Word)
    ensures CrcByte(crc, Low(crc)) == crc >> 8
    ensures CrcByte(crc >> 8, High(crc)) == 0
  {
    LowAgrees(crc);
    NoFeedback(crc, Low(crc));
    HighAgrees(crc);
    NoFeedback(crc >> 8, High(crc));
  }

  /** A message followed by its own check sequence, low byte first, has the check sequence 0. */
  lemma AppendedCheckIsZero(crc: Word, message: seq<Byte>)
    ensures var fcs := Crc(crc, message); Crc(crc, message + [Low(fcs), High(fcs)]) == 0
  {
    var fcs := Crc(crc, message);
    var tail := [Low(fcs), High(fcs)];
    CrcComposes(crc, message, tail);
    TwoBytes(fcs, Low(fcs), High(fcs));
    OwnBytes(fcs);
  }

  lemma TwoBytes(crc: Word, a: Byte, b: Byte)
    ensures Crc(crc, [a, b]) == CrcByte(CrcByte(crc, a), b)
  {
    assert [a, b] == [a] + [b];
    CrcComposes(crc, [a], [b]);
    CrcOne(crc, a);
    CrcOne(CrcByte(crc, a), b);
  }

  /** Eight steps backwards: the highest bit of a word tells whether the last step fed back. */
  function EightBack(x: Word): Word {
    var a := ((x ^ (0xA001 & (0 - (x >> 15)))) << 1) | (x >> 15);
    var b := ((a ^ (0xA001 & (0 - (a >> 15)))) << 1) | (a >> 15);
    var c := ((b ^ (0xA001 & (0 - (b >> 15)))) << 1) | (b >> 15);
    var d := ((c ^ (0xA001 & (0 - (c >> 15)))) << 1) | (c >> 15);
    var e := ((d ^ (0xA001 & (0 - (d >> 15)))) << 1) | (d >> 15);
    var f := ((e ^ (0xA001 & (0 - (e >> 15)))) << 1) | (e >> 15);
    var g := ((f ^ (0xA001 & (0 - (f >> 15)))) << 1) | (f >> 15);
    ((g ^ (0xA001 & (0 - (g >> 15)))) << 1) | (g >> 15)
  }

  lemma BackUndoesSteps(x: Word)
    ensures EightBack(EightSteps(x)) == x
  {
  }

  /** The byte whose table entry has the high byte of the word. */
  function FromHigh(w: Word): Word {
    var h := w >> 8;
    var f := h ^ (h >> 2) ^ (h >> 4) ^ (h >> 6);
    (f ^ (f << 1)) & 0xFF
  }

  lemma FromHighUndoes(x: Word)
    ensures FromHigh(EightSteps(x)) == x & 0xFF
  {
  }

  lemma FromHighIgnoresLow(x: Word, data: Byte)
    ensures FromHigh(x ^ (data as Word)) == FromHigh(x)
  {
  }

  lemma XorTwice(x: Word, data: Byte)
    ensures ((((x ^ (data as Word)) & 0xFF) ^ x) & 0xFF) as Byte == data
    ensures (((x ^ (data as Word)) ^ x) & 0xFF) as Byte == data
    ensures (x ^ (data as Word)) ^ (data as Word) == x
  {
  }

  lemma BackOfByte(crc: Word, data: Byte)
    ensures EightBack(CrcByte(crc, data)) == crc ^ (data as Word)
  {
    ByteIsEightSteps(crc, data);
    BackUndoesSteps(crc ^ (data as Word));
  }

  lemma HighOfByte(crc: Word, data: Byte)
    ensures FromHigh(CrcByte(crc, data)) == (crc ^ (data as Word)) & 0xFF
  {
    ByteIsEightSteps(crc, data);
    FromHighUndoes(crc ^ (data as Word));
  }

  /** The register before a byte, recovered from the one after it. */
  function Before(after: Word, data: Byte): Word {
    EightBack(after) ^ (data as Word)
  }

  lemma BeforeRecovered(crc: Word, data: Byte)
    ensures Before(CrcByte(crc, data), data) == crc
  {
    BackOfByte(crc, data);
    XorTwice(crc, data);
  }

  /** Two bytes recovered from the register before and after them. */
  function First(crc: Word, after: Word): Byte {
    ((FromHigh(EightBack(after)) ^ crc) & 0xFF) as Byte
  }

  function Second(between: Word, after: Word): Byte {
    ((EightBack(after) ^ between) & 0xFF) as Byte
  }

  lemma FirstRecovered(crc: Word, a: Byte, b: Byte)
    ensures First(crc, CrcByte(CrcByte(crc, a), b)) == a
  {
    BackOfByte(CrcByte(crc, a), b);
    FromHighIgnoresLow(CrcByte(crc, a), b);
    HighOfByte(crc, a);
    XorTwice(crc, a);
  }

  lemma SecondRecovered(between: Word, b: Byte)
    ensures Second(between, CrcByte(between, b)) == b
  {
    BackOfByte(between, b);
    XorTwice(between, b);
  }

  lemma PairInjective(crc: Word, a: Byte, b: Byte, c: Byte, d: Byte)
    requires CrcByte(CrcByte(crc, a), b) == CrcByte(CrcByte(crc, c), d)
    ensures a == c && b == d
  {
    FirstRecovered(crc, a, b);
    FirstRecovered(crc, c, d);
    SecondRecovered(CrcByte(crc, a), b);
    SecondRecovered(CrcByte(crc, c), d);
  }

  /** Different registers stay different. */
  lemma {:induction false} CrcInjective(x: Word, y: Word, message: seq<Byte>)
    requires Crc(x, message) == Crc(y, message)
    ensures x == y
  {
    if message != [] {
      var n := |message| - 1;
      BeforeRecovered(Crc(x, message[..n]), message[n]);
      BeforeRecovered(Crc(y, message[..n]), message[n]);
      CrcInjective(x, y, message[..n]);
    }
  }

  /** Two messages that differ in nothing but two adjacent bytes have different check sequences. */
  lemma AdjacentBytesDetected(crc: Word, front: seq<Byte>, a: Byte, b: Byte, c: Byte, d: Byte, rest: seq<Byte>)
    requires a != c || b != d
    ensures Crc(crc, front + [a, b] + rest) != Crc(crc, front + [c, d] + rest)
  {
    if Crc(crc, front + [a, b] + rest) == Crc(crc, front + [c, d] + rest) {
      var start := Crc(crc, front);
      CrcComposes(crc, front + [a, b], rest);
      CrcComposes(crc, front + [c, d], rest);
      CrcComposes(crc, front, [a, b]);
      CrcComposes(crc, front, [c, d]);
      CrcInjective(Crc(start, [a, b]), Crc(start, [c, d]), rest);
      TwoBytes(start, a, b);
      TwoBytes(start, c, d);
      PairInjective(start, a, b, c, d);
      assert false;
    }
  }

  lemma ByteAtOnce(crc: Word, b: Byte, d: Byte)
    requires b != d
    ensures CrcByte(crc, b) != CrcByte(crc, d)
  {
    SecondRecovered(crc, b);
    SecondRecovered(crc, d);
  }

  /** Any two different messages of the same length that agree outside two adjacent bytes have
      different check sequences. */
  lemma AdjacentErrorsDetected(crc: Word, m: seq<Byte>, n: seq<Byte>, k: nat)
    requires |m| == |n| && k < |m| && m != n
    requires forall i :: 0 <= i < |m| && i != k && i != k + 1 ==> m[i] == n[i]
    ensures Crc(crc, m) != Crc(crc, n)
  {
    if k + 1 < |m| {
      var front, rest := m[..k], m[k + 2..];
      assert m == front + [m[k], m[k + 1]] + rest;
      assert n == front + [n[k], n[k + 1]] + rest;
      AdjacentBytesDetected(crc, front, m[k], m[k + 1], n[k], n[k + 1], rest);
    } else {
      assert m == m[..k] + [m[k]] && n == m[..k] + [n[k]];
      ByteAtOnce(Crc(crc, m[..k]), m[k], n[k]);
      CrcComposes(crc, m[..k], [m[k]]);
      CrcComposes(crc, m[..k], [n[k]]);
      CrcOne(Crc(crc, m[..k]), m[k]);
      CrcOne(Crc(crc, m[..k]), n[k]);
    }
  }
}

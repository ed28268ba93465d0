/** Drawing a line into the frame buffer of the display: ssd1306.c. The display is not flipped. */
module Ssd1306Line {
  import opened Arith

  type Byte = bv8

  const WIDTH: nat := 128   // segments of a page

  // ---------------------------------------------------------------------------------------
  // The ideal line
  // ---------------------------------------------------------------------------------------

  function Abs(x: int): nat {
    if x < 0 then -x else x
  }

  /** The number of steps on the minor axis, minor long in all, after i of major steps: the nearest
      whole number to i * minor / major, halves rounded up. */
  function Nearest(minor: nat, major: nat, i: nat): nat {
    if major == 0 then 0 else (2 * (minor * i) + major) / (2 * major)
  }

  /** The error term of the loop says where between two pixels the ideal line passes; whenever it is
      in its range, the steps taken are the nearest. */
  lemma ErrorTerm(minor: nat, major: nat, i: nat, k: nat, e: int)
    requires major > 0 && e == 2 * (minor * i) - 2 * (major * k) - major && -2 * major <= e < 0
    ensures k == Nearest(minor, major, i)
  {
    var d := 2 * major;
    assert 2 * (minor * i) + major == k * d + (e + d);
    DivModUnique(2 * (minor * i) + major, d, k, e + d);
  }

  /** Within half a pixel of the ideal line, in whole numbers: twice the error times major. */
  lemma NearestIsHalfPixel(minor: nat, major: nat, i: nat)
    requires major > 0
    ensures 0 - major <= 2 * (minor * i) - 2 * (major * Nearest(minor, major, i)) < major
  {
    var n, d := 2 * (minor * i) + major, 2 * major;
    assert n == d * (n / d) + n % d;
    assert d * (n / d) == 2 * (major * (n / d));
  }

  lemma NearestEnds(minor: nat, major: nat)
    requires major > 0
    ensures Nearest(minor, major, 0) == 0
    ensures Nearest(minor, major, major) == minor
  {
    DivModUnique(major, 2 * major, 0, major);
    assert 2 * (minor * major) + major == minor * (2 * major) + major;
    DivModUnique(2 * (minor * major) + major, 2 * major, minor, major);
  }

  lemma NearestInRange(minor: nat, major: nat, i: nat)
    requires i <= major
    ensures Nearest(minor, major, i) <= minor
  {
    if major > 0 {
      NearestIsHalfPixel(minor, major, i);
      var k := Nearest(minor, major, i);
      MulMonotone(i, major, minor);
      if k > minor {
        MulMonotone(minor + 1, k, major);
        assert (minor + 1) * major == minor * major + major;
      }
    }
  }

  lemma StepProduct(x: nat, i: nat)
    ensures x * (i + 1) == x * i + x
  {
  }

  datatype Point = Point(x: int, y: int)

  function Sign(from: int, to: int): int {
    if to > from then 1 else -1
  }

  /** The i-th pixel of the line: one step at a time on the longer axis. */
  function PointAt(a: Point, b: Point, i: nat): Point {
    var dx, dy := Abs(b.x - a.x), Abs(b.y - a.y);
    var sx, sy := Sign(a.x, b.x), Sign(a.y, b.y);
    if dx > dy then Point(a.x + sx * i, a.y + sy * Nearest(dy, dx, i))
    else Point(a.x + sx * Nearest(dx, dy, i), a.y + sy * i)
  }

  function Length(a: Point, b: Point): nat {
    var dx, dy := Abs(b.x - a.x), Abs(b.y - a.y);
    1 + if dx > dy then dx else dy
  }

  function Line(a: Point, b: Point): seq<Point> {
    seq(Length(a, b), i requires 0 <= i < Length(a, b) => PointAt(a, b, i))
  }

  /** The line begins and ends at the end points. */
  lemma LineEnds(a: Point, b: Point)
    ensures Line(a, b)[0] == a && Line(a, b)[Length(a, b) - 1] == b
  {
    var dx, dy := Abs(b.x - a.x), Abs(b.y - a.y);
    if dx > dy {
      NearestEnds(dy, dx);
    } else if dy > 0 {
      NearestEnds(dx, dy);
    }
  }

  /** Every pixel is within half a pixel of the ideal line, measured on the minor axis towards the end
      point and scaled by twice the length of the major one. */
  lemma LineIsAccurate(a: Point, b: Point, i: nat)
    requires i < Length(a, b)
    ensures var dx, dy := Abs(b.x - a.x), Abs(b.y - a.y);
            var p := Line(a, b)[i];
            if dx > dy then
              p.x == a.x + Sign(a.x, b.x) * i && Abs(2 * (dy * i) - 2 * (dx * (Sign(a.y, b.y) * (p.y - a.y)))) <= dx
            else
              p.y == a.y + Sign(a.y, b.y) * i && Abs(2 * (dx * i) - 2 * (dy * (Sign(a.x, b.x) * (p.x - a.x)))) <= dy
  {
    var dx, dy := Abs(b.x - a.x), Abs(b.y - a.y);
    if dx > dy {
      NearestIsHalfPixel(dy, dx, i);
    } else if dy > 0 {
      NearestIsHalfPixel(dx, dy, i);
    }
  }

  /** No two pixels are the same. */
  lemma LineHasNoDoubles(a: Point, b: Point, i: nat, j: nat)
    requires i < j < Length(a, b)
    ensures Line(a, b)[i] != Line(a, b)[j]
  {
  }

  /** A box that holds both ends holds the line. */
  lemma LineInBox(a: Point, b: Point, i: nat, width: int, height: int)
    requires i < Length(a, b)
    requires 0 <= a.x < width && 0 <= b.x < width && 0 <= a.y < height && 0 <= b.y < height
    ensures 0 <= PointAt(a, b, i).x < width && 0 <= PointAt(a, b, i).y < height
  {
    var dx, dy := Abs(b.x - a.x), Abs(b.y - a.y);
    if dx > dy {
      NearestInRange(dy, dx, i);
    } else {
      NearestInRange(dx, dy, i);
    }
  }

  // ---------------------------------------------------------------------------------------
  // The frame buffer
  // ---------------------------------------------------------------------------------------

  /** 1 << bits in uint8_t. */
  function Mask(bits: nat): Byte
    requires bits < 8
  {
    match bits
    case 0 => 0x01
    case 1 => 0x02
    case 2 => 0x04
    case 3 => 0x08
    case 4 => 0x10
    case 5 => 0x20
    case 6 => 0x40
    case 7 => 0x80
  }

  /** The masks are the shifts of one bit, and the numbers of the eight rows of a page. */
  lemma MaskIsShift(bits: nat)
    requires bits < 8
    ensures Mask(bits) == (1 as Byte) << bits
    ensures Mask(bits) as int == [1, 2, 4, 8, 16, 32, 64, 128][bits]
  {
    match bits
    case 0 | 1 | 2 | 3 | 4 | 5 | 6 | 7 =>
  }

  predicate BitSet(b: Byte, bits: nat)
    requires bits < 8
  {
    b & Mask(bits) != 0
  }

  function WithBit(b: Byte, bits: nat, invert: bool): Byte
    requires bits < 8
  {
    if invert then b & !Mask(bits) else b | Mask(bits)
  }

  /** Changing one bit of a byte changes that bit and no other. */
  lemma OneBitChanges(b: Byte, bits: nat, other: nat, invert: bool)
    requires bits < 8 && other < 8
    ensures BitSet(WithBit(b, bits, invert), other) == if other == bits then !invert else BitSet(b, other)
  {
  }

  class Display {
    const pages: nat
    const segs: array2<Byte>   // _page[]._segs[]

    ghost predicate Valid() {
      segs.Length0 == pages && segs.Length1 == WIDTH
    }

    predicate Inside(p: Point) {
      0 <= p.x < WIDTH && 0 <= p.y < 8 * pages
    }

    /** The state of a pixel. */
    predicate Lit(p: Point)
      requires Valid() && Inside(p)
      reads segs
    {
      BitSet(segs[p.y / 8, p.x], p.y % 8)
    }

    constructor (pages: nat)
      ensures Valid() && this.pages == pages && fresh(segs)
      ensures forall p :: Inside(p) ==> !Lit(p)
    {
      this.pages := pages;
      segs := new Byte[pages, WIDTH](( _, _ ) => 0);
    }

    /** A pixel is bit y % 8 of the byte of its column in page y / 8. */
    lemma PixelIsBit(p: Point)
      requires Valid() && Inside(p)
      ensures Lit(p) <==> segs[p.y / 8, p.x] & ((1 as Byte) << (p.y % 8)) != 0
    {
      MaskIsShift(p.y % 8);
    }

    /** _ssd1306_pixel. */
    method Pixel(p: Point, invert: bool)
      requires Valid() && Inside(p)
      modifies segs
      ensures forall q :: Inside(q) ==> Lit(q) == if q == p then !invert else old(Lit(q))
    {
      var page, bits := p.y / 8, p.y % 8;
      forall q | Inside(q) && q.y / 8 == page && q.x == p.x
        ensures BitSet(WithBit(segs[page, p.x], bits, invert), q.y % 8) == if q == p then !invert else Lit(q)
      {
        OneBitChanges(segs[page, p.x], bits, q.y % 8, invert);
      }
      segs[page, p.x] := WithBit(segs[page, p.x], bits, invert);
    }

    /** The loop for a line that is longer than high: one pixel per column. */
    method DrawFlat(a: Point, b: Point, invert: bool) returns (ghost plotted: seq<Point>)
      requires Valid() && Inside(a) && Inside(b) && Abs(b.x - a.x) > Abs(b.y - a.y)
      modifies segs
      ensures plotted == Line(a, b)
      ensures forall q :: Inside(q) ==> Lit(q) == if q in plotted then !invert else old(Lit(q))
    {
      var dx, dy, sx, sy := Abs(b.x - a.x), Abs(b.y - a.y), Sign(a.x, b.x), Sign(a.y, b.y);
      var x1, y1, e := a.x, a.y, -dx;
      ghost var k: nat := 0;
      plotted := [];
      for i := 0 to dx + 1
        invariant x1 == a.x + sx * i && y1 == a.y + sy * k
        invariant e == 2 * (dy * i) - 2 * (dx * k) - dx && -2 * dx <= e < 0
        invariant |plotted| == i && forall j :: 0 <= j < i ==> plotted[j] == PointAt(a, b, j)
        invariant forall q :: Inside(q) ==> Lit(q) == if q in plotted then !invert else old(Lit(q))
      {
        ErrorTerm(dy, dx, i, k, e);
        LineInBox(a, b, i, WIDTH, 8 * pages);
        assert PointAt(a, b, i) == Point(x1, y1);
        Pixel(Point(x1, y1), invert);
        plotted := plotted + [Point(x1, y1)];
        StepProduct(dy, i);
        StepProduct(dx, k);
        x1 := x1 + sx;
        e := e + 2 * dy;
        if e >= 0 {
          y1, k := y1 + sy, k + 1;
          e := e - 2 * dx;
        }
      }
    }

    /** The loop for a line that is at least as high as long: one pixel per row. */
    method DrawSteep(a: Point, b: Point, invert: bool) returns (ghost plotted: seq<Point>)
      requires Valid() && Inside(a) && Inside(b) && Abs(b.x - a.x) <= Abs(b.y - a.y)
      modifies segs
      ensures plotted == Line(a, b)
      ensures forall q :: Inside(q) ==> Lit(q) == if q in plotted then !invert else old(Lit(q))
    {
      var dx, dy, sx, sy := Abs(b.x - a.x), Abs(b.y - a.y), Sign(a.x, b.x), Sign(a.y, b.y);
      var x1, y1, e := a.x, a.y, -dy;
      ghost var k: nat := 0;
      plotted := [];
      for i := 0 to dy + 1
        invariant (y1 == a.y + sy * i && x1 == a.x + sx * k) || (dy == 0 && i == 1)
        invariant dy > 0 ==> e == 2 * (dx * i) - 2 * (dy * k) - dy && -2 * dy <= e < 0
        invariant i == 0 ==> k == 0
        invariant |plotted| == i && forall j :: 0 <= j < i ==> plotted[j] == PointAt(a, b, j)
        invariant forall q :: Inside(q) ==> Lit(q) == if q in plotted then !invert else old(Lit(q))
      {
        if dy > 0 {
          ErrorTerm(dx, dy, i, k, e);
        }
        LineInBox(a, b, i, WIDTH, 8 * pages);
        assert PointAt(a, b, i) == Point(x1, y1);
        Pixel(Point(x1, y1), invert);
        plotted := plotted + [Point(x1, y1)];
        StepProduct(dx, i);
        StepProduct(dy, k);
        y1 := y1 + sy;
        e := e + 2 * dx;
        if e >= 0 {
          x1, k := x1 + sx, k + 1;
          e := e - 2 * dy;
        }
      }
    }

    /** _ssd1306_line: the pixels of the line are set or cleared, all others keep their state. */
    method DrawLine(a: Point, b: Point, invert: bool) returns (ghost plotted: seq<Point>)
      requires Valid() && Inside(a) && Inside(b)
      modifies segs
      ensures plotted == Line(a, b)
      ensures forall q :: Inside(q) ==> Lit(q) == if q in plotted then !invert else old(Lit(q))
    {
      if Abs(b.x - a.x) > Abs(b.y - a.y) {
        plotted := DrawFlat(a, b, invert);
      } else {
        plotted := DrawSteep(a, b, invert);
      }
    }
  }
}

/**
 The two pixel paths of services/vnc/rfb.go: a generic one, for any image and any pixel
 format the client asks for, and a hand-written one for RGBA images and the 15-bit format
 of the "Thousands" mode, which also reuses its output buffer from frame to frame.
 */
module Vnc {
  import opened Words

  datatype PixelFormat = PixelFormat(
    bpp: byte, depth: byte, bigEndian: byte, trueColour: byte,
    redMax: u16, greenMax: u16, blueMax: u16,
    redShift: byte, greenShift: byte, blueShift: byte)

  predicate IsScreensThousands(f: PixelFormat) {
    && f.bpp == 16 && (f.depth == 16 || f.depth == 15) && f.trueColour != 0
    && f.redMax == 0x1f && f.greenMax == 0x1f && f.blueMax == 0x1f
    && f.redShift == 10 && f.greenShift == 5 && f.blueShift == 0
  }

  /** image.RGBA, with its rectangle given by its least point and its size. */
  datatype Image = Image(pix: seq<byte>, stride: nat, minX: int, minY: int, width: nat, height: nat)

  predicate WellFormed(im: Image) {
    forall x, y :: 0 <= x < im.width && 0 <= y < im.height ==> 0 <= Offset(im, x, y) && Offset(im, x, y) + 4 <= |im.pix|
  }

  /** PixOffset, counted from the least point. */
  function Offset(im: Image, x: int, y: int): int {
    y * im.stride + x * 4
  }

  /** An image as image.NewRGBA makes it; every point of it has its four bytes. */
  predicate Contiguous(im: Image): (c: bool)
    ensures c ==> WellFormed(im)
  {
    if im.minX == 0 && im.minY == 0 && im.stride == 4 * im.width && |im.pix| == 4 * (im.height * im.width)
    then ContiguousFits(im); true
    else false
  }

  lemma ContiguousFits(im: Image)
    requires im.stride == 4 * im.width && |im.pix| == 4 * (im.height * im.width)
    ensures WellFormed(im)
  {
    forall x, y | 0 <= x < im.width && 0 <= y < im.height
      ensures 0 <= Offset(im, x, y) && Offset(im, x, y) + 4 <= |im.pix|
    {
      OffsetInRows(im, x, y);
      Times(y, im.width);
      TimesMonotone(y + 1, im.height, im.width);
    }
  }

  lemma OffsetInRows(im: Image, x: nat, y: nat)
    requires im.stride == 4 * im.width
    ensures Offset(im, x, y) == 4 * (y * im.width + x)
  {
    assert y * (4 * im.width) == 4 * (y * im.width);
  }

  lemma Times(a: nat, c: nat)
    ensures (a + 1) * c == a * c + c
  {
  }

  lemma TimesMonotone(a: nat, b: nat, c: nat)
    requires a <= b
    ensures a * c <= b * c
  {
    assert b * c == a * c + (b - a) * c;
  }

  /** The red, green and blue of At(x, y); a point outside the rectangle is black. */
  function At(im: Image, x: int, y: int): (byte, byte, byte)
    requires WellFormed(im)
  {
    var dx, dy := x - im.minX, y - im.minY;
    if 0 <= dx < im.width && 0 <= dy < im.height then
      var i := Offset(im, dx, dy);
      (im.pix[i], im.pix[i + 1], im.pix[i + 2])
    else (0, 0, 0)
  }

  /** Only a maximum of five bits is supported; anything else is logged and taken as zero. */
  function InRange(v: u32, max: u16): u32 {
    if max == 0x1f then v / 0x800 else 0
  }

  /** `v << s` on uint32 */
  function Shl32(v: u32, s: byte): u32 {
    if s >= 32 then 0 else v * Pow2(s) % TWO32
  }

  function Or32(a: u32, b: u32): u32 {
    assert Pow2(32) == TWO32 by {
      assert Pow2(8) == 256 && Pow2(16) == 65536 by { assert Pow2(4) == 16; assert Pow2(12) == 4096; }
      assert Pow2(20) == 16 * Pow2(16) && Pow2(24) == 16 * Pow2(20);
      assert Pow2(28) == 16 * Pow2(24) && Pow2(32) == 16 * Pow2(28);
    }
    BitOrBound(a, b, 32);
    BitOr(a, b)
  }

  /** The pixel value of a colour; RGBA() spreads each component over 16 bits. */
  function PixelValue(f: PixelFormat, c: (byte, byte, byte)): u32 {
    Or32(Or32(Shl32(InRange(c.0 as int * 0x101, f.redMax), f.redShift),
              Shl32(InRange(c.1 as int * 0x101, f.greenMax), f.greenShift)),
         Shl32(InRange(c.2 as int * 0x101, f.blueMax), f.blueShift))
  }

  function Two(w: u16, bigEndian: bool): seq<byte> {
    if bigEndian then [Hi(w), Lo(w)] else [Lo(w), Hi(w)]
  }

  predicate Supported(f: PixelFormat) {
    f.bpp == 8 || f.bpp == 16 || f.bpp == 32
  }

  function PixelBytes(f: PixelFormat, u: u32): seq<byte> {
    if f.bpp == 32 then
      if f.bigEndian != 0 then Two(Hi16(u), true) + Two(Lo16(u), true)
      else Two(Lo16(u), false) + Two(Hi16(u), false)
    else if f.bpp == 16 then Two(Lo16(u), f.bigEndian != 0)
    else [Lo(Lo16(u))]
  }

  /** What the generic path emits: the rest of row y from x on, and the rows from y on. */
  function Row(f: PixelFormat, im: Image, y: nat, x: nat): seq<byte>
    requires WellFormed(im) && x <= im.width
    decreases im.width - x
  {
    if x == im.width then [] else PixelBytes(f, PixelValue(f, At(im, x, y))) + Row(f, im, y, x + 1)
  }

  function Rows(f: PixelFormat, im: Image, y: nat): seq<byte>
    requires WellFormed(im) && y <= im.height
    decreases im.height - y
  {
    if y == im.height then [] else Row(f, im, y, 0) + Rows(f, im, y + 1)
  }

  // ---------------------------------------------------------------- the fast path

  /** `uint16(v & 248)` */
  function High5(v: byte): u16 {
    v - v % 8
  }

  function Or16(a: u16, b: u16): u16 {
    assert Pow2(16) == 65536 by { assert Pow2(4) == 16; assert Pow2(8) == 256; assert Pow2(12) == 4096; }
    BitOrBound(a, b, 16);
    BitOr(a, b)
  }

  function Thousands(r: byte, g: byte, b: byte): u16 {
    Or16(Or16(High5(r) * 128, High5(g) * 4), b / 8)
  }

  /** Two bytes for every four; what is left of an incomplete pixel is dropped. */
  function FastBytes(pix: seq<byte>, bigEndian: bool): (out: seq<byte>)
    ensures |out| == |pix| / 4 * 2
  {
    if |pix| < 4 then []
    else Two(Thousands(pix[0], pix[1], pix[2]), bigEndian) + FastBytes(pix[4..], bigEndian)
  }

  // ---------------------------------------------------------------- refinement

  /** Scaling a component up to 16 bits and back down to 5 keeps its 5 high bits. */
  lemma FiveBits(v: byte)
    ensures v as int * 0x101 / 0x800 == v / 8
  {
    var a, b := v / 8, v % 8;
    assert v as int * 0x101 == 0x800 * a + (8 * a + 0x101 * b);
  }

  lemma SmallPowers()
    ensures Pow2(0) == 1 && Pow2(5) == 32 && Pow2(10) == 1024
  {
    assert Pow2(2) == 4;
    assert Pow2(6) == 64;
  }

  /** Nothing is shifted out of five bits. */
  lemma ShiftFits(a: nat, p: nat)
    requires a < 32 && p <= 1024
    ensures a * p % TWO32 == a * p
  {
    assert a * p <= 32 * 1024 by {
      TimesMonotone(a, 32, p);
    }
  }

  lemma High5IsEights(v: byte)
    ensures High5(v) == v / 8 * 8
  {
  }

  /** The three components, each in its place. */
  lemma Placed(f: PixelFormat, r: byte, g: byte, b: byte)
    requires IsScreensThousands(f)
    ensures Shl32(InRange(r as int * 0x101, f.redMax), f.redShift) == High5(r) * 128
    ensures Shl32(InRange(g as int * 0x101, f.greenMax), f.greenShift) == High5(g) * 4
    ensures Shl32(InRange(b as int * 0x101, f.blueMax), f.blueShift) == b / 8
  {
    hide Pow2, High5;
    SmallPowers();
    FiveBits(r);
    FiveBits(g);
    FiveBits(b);
    High5IsEights(r);
    High5IsEights(g);
    ShiftFits(r / 8, 1024);
    ShiftFits(g / 8, 32);
    ShiftFits(b / 8, 1);
  }

  /** A component of five bits is its five high bits; a component of any other size is dropped. */
  function Five(v: byte, max: u16): nat {
    if max == 0x1f then (v / 8) as int else 0
  }

  lemma Component(v: byte, max: u16, shift: byte)
    requires shift <= 27
    ensures Five(v, max) < 32
    ensures Shl32(InRange(v as int * 0x101, max), shift) == Five(v, max) * Pow2(shift)
    ensures Five(v, max) * Pow2(shift) < 32 * Pow2(shift) <= TWO32
  {
    hide Pow2;
    FiveBits(v);
    PowersGrow(shift, 27);
    assert Pow2(27) * 32 == TWO32 by { LargePowers(); }
    var a, p := Five(v, max), Pow2(shift);
    TimesMonotone(a + 1, 32, p);
    Times(a, p);
    BelowWrap(a * p);
  }

  lemma BelowWrap(n: nat)
    requires n < TWO32
    ensures n % TWO32 == n
  {
  }

  lemma {:induction false} PowersGrow(m: nat, n: nat)
    requires m <= n
    ensures Pow2(m) <= Pow2(n)
  {
    if m < n {
      PowersGrow(m, n - 1);
    }
  }

  lemma {:induction false} PowersMultiply(m: nat, n: nat)
    ensures Pow2(m + n) == Pow2(m) * Pow2(n)
  {
    if n > 0 {
      PowersMultiply(m, n - 1);
      assert Pow2(m + n) == 2 * Pow2(m + (n - 1));
      assert 2 * (Pow2(m) * Pow2(n - 1)) == Pow2(m) * (2 * Pow2(n - 1));
    }
  }

  lemma LargePowers()
    ensures Pow2(27) == 0x800_0000
  {
    SmallPowers();
    PowersMultiply(10, 10);
    PowersMultiply(20, 5);
    PowersMultiply(25, 2);
    assert Pow2(2) == 4;
  }

  /**
   For every format whose components lie apart, red above green above blue, the pixel value is
   made of the five high bits of each colour in their places.
   */
  lemma PixelValueIsSum(f: PixelFormat, r: byte, g: byte, b: byte)
    requires f.blueShift + 5 <= f.greenShift && f.greenShift + 5 <= f.redShift <= 27
    ensures PixelValue(f, (r, g, b)) ==
            Five(r, f.redMax) * Pow2(f.redShift) + Five(g, f.greenMax) * Pow2(f.greenShift) +
            Five(b, f.blueMax) * Pow2(f.blueShift)
  {
    hide Pow2, BitOr, Shl32, InRange, Five;
    var rs, gs, bs := f.redShift as int, f.greenShift as int, f.blueShift as int;
    Component(r, f.redMax, f.redShift);
    Component(g, f.greenMax, f.greenShift);
    Component(b, f.blueMax, f.blueShift);
    var x, y, z := Five(r, f.redMax), Five(g, f.greenMax), Five(b, f.blueMax);
    FitsBelow(y, gs, rs);
    FitsBelow(z, bs, gs);
    BitOrDisjoint(x, rs, y * Pow2(gs));
    PowersMultiply(rs - gs, gs);
    var w := x * Pow2(rs - gs) + y;
    Distributes(x, Pow2(rs - gs), y, Pow2(gs));
    BitOrDisjoint(w, gs, z * Pow2(bs));
  }

  lemma Distributes(x: nat, p: nat, y: nat, q: nat)
    ensures (x * p + y) * q == x * (p * q) + y * q
  {
    assert x * p * q == x * (p * q);
  }

  lemma FitsBelow(v: nat, low: nat, high: nat)
    requires v < 32 && low + 5 <= high
    ensures v * Pow2(low) < Pow2(high)
  {
    hide Pow2;
    SmallPowers();
    PowersMultiply(low, 5);
    PowersGrow(low + 5, high);
    TimesMonotone(v + 1, 32, Pow2(low));
    Times(v, Pow2(low));
  }

  /** A point outside the rectangle is pushed as black. */
  lemma OutsideIsBlack(f: PixelFormat, im: Image, x: int, y: int)
    requires WellFormed(im)
    requires x < im.minX || y < im.minY || x >= im.minX + im.width || y >= im.minY + im.height
    ensures PixelValue(f, At(im, x, y)) == 0
  {
    hide WellFormed, Pow2;
    assert At(im, x, y) == (0, 0, 0);
    assert forall p: nat :: 0 * p == 0;
    assert BitOr(0, 0) == 0;
  }

  lemma SamePixel(f: PixelFormat, r: byte, g: byte, b: byte)
    requires IsScreensThousands(f)
    ensures Lo16(PixelValue(f, (r, g, b))) == Thousands(r, g, b)
  {
    hide BitOr, Pow2, Shl32, InRange, High5, IsScreensThousands;
    Placed(f, r, g, b);
  }

  /** From any pixel on, the generic path emits what the fast path makes of the bytes from there on. */
  lemma {:induction false} SameFrom(f: PixelFormat, im: Image, y: nat, x: nat, k: nat)
    requires Contiguous(im) && IsScreensThousands(f)
    requires y < im.height && x <= im.width && k == y * im.width + x && 4 * k <= |im.pix|
    ensures Row(f, im, y, x) + Rows(f, im, y + 1) == FastBytes(im.pix[4 * k..], f.bigEndian != 0)
    decreases im.height - y, im.width - x
  {
    hide PixelValue, PixelBytes, Thousands, At, WellFormed, Contiguous, FastBytes, IsScreensThousands;
    if x < im.width {
      var s := im.pix[4 * k..];
      PixelBound(im, x, y, k);
      SameBytes(f, s[0], s[1], s[2]);
      SameFrom(f, im, y, x + 1, k + 1);
      assert s[4..] == im.pix[4 * (k + 1)..];
      FastStep(s, f.bigEndian != 0);
      var p := PixelBytes(f, PixelValue(f, At(im, x, y)));
      assert Row(f, im, y, x) + Rows(f, im, y + 1) == p + (Row(f, im, y, x + 1) + Rows(f, im, y + 1));
    } else if y + 1 < im.height {
      RowBound(im, y, k);
      SameFrom(f, im, y + 1, 0, k);
      assert Row(f, im, y, x) + Rows(f, im, y + 1) == Rows(f, im, y + 1);
    } else {
      RowBound(im, y, k);
      FastStep(im.pix[4 * k..], f.bigEndian != 0);
    }
  }

  lemma FastStep(s: seq<byte>, bigEndian: bool)
    ensures |s| < 4 ==> FastBytes(s, bigEndian) == []
    ensures |s| >= 4 ==>
      FastBytes(s, bigEndian) == Two(Thousands(s[0], s[1], s[2]), bigEndian) + FastBytes(s[4..], bigEndian)
  {
    hide Thousands, Two;
  }

  lemma SameBytes(f: PixelFormat, r: byte, g: byte, b: byte)
    requires IsScreensThousands(f)
    ensures PixelBytes(f, PixelValue(f, (r, g, b))) == Two(Thousands(r, g, b), f.bigEndian != 0)
  {
    hide PixelValue, Thousands;
    SamePixel(f, r, g, b);
  }

  lemma PixelBound(im: Image, x: nat, y: nat, k: nat)
    requires Contiguous(im) && x < im.width && y < im.height && k == y * im.width + x
    ensures Offset(im, x, y) == 4 * k && 4 * k + 4 <= |im.pix|
    ensures At(im, x, y) == (im.pix[4 * k], im.pix[4 * k + 1], im.pix[4 * k + 2])
  {
    hide Offset;
    OffsetInRows(im, x, y);
    assert WellFormed(im);
  }

  lemma RowBound(im: Image, y: nat, k: nat)
    requires Contiguous(im) && y < im.height && k == y * im.width + im.width
    ensures k == (y + 1) * im.width
    ensures y + 1 == im.height ==> 4 * k == |im.pix|
    ensures 4 * k <= |im.pix|
  {
    hide WellFormed;
    Times(y, im.width);
    TimesMonotone(y + 1, im.height, im.width);
  }

  lemma QuadsOf(pix: seq<byte>, n: nat)
    requires |pix| == 4 * n
    ensures |pix| / 4 * 2 == n * 2
  {
  }

  lemma Commutes(a: nat, b: nat)
    ensures a * b == b * a
  {
  }

  /**
   For every contiguous image and either byte order, the fast path emits just what the
   generic path emits, which is two bytes for every pixel.
   */
  lemma FastPathRefinesGenericPath(f: PixelFormat, im: Image)
    requires Contiguous(im) && IsScreensThousands(f)
    ensures FastBytes(im.pix, f.bigEndian != 0) == Rows(f, im, 0)
    ensures |Rows(f, im, 0)| == im.width * im.height * 2
  {
    hide FastBytes, WellFormed, Row, IsScreensThousands;
    var n := im.height * im.width;
    QuadsOf(im.pix, n);
    Commutes(im.height, im.width);
    assert im.pix[0..] == im.pix;
    if im.height > 0 {
      SameFrom(f, im, 0, 0, 0);
    }
  }

  // ---------------------------------------------------------------- what the generic path emits

  function BigEndian(s: seq<byte>): nat {
    if s == [] then 0 else BigEndian(s[..|s| - 1]) * 0x100 + s[|s| - 1] as int
  }

  function LittleEndian(s: seq<byte>): nat {
    if s == [] then 0 else s[0] as int + LittleEndian(s[1..]) * 0x100
  }

  /** Read in the order asked for, the bytes of a pixel are its value, cut down to the size asked for. */
  lemma PixelBytesRead(f: PixelFormat, u: u32)
    requires f.bpp in {8, 16, 32}
    ensures var b := PixelBytes(f, u);
            && |b| == f.bpp as int / 8
            && (if f.bigEndian != 0 then BigEndian(b) else LittleEndian(b)) ==
               if f.bpp == 8 then u % 0x100 else if f.bpp == 16 then u % 0x1_0000 else u
  {
    hide BigEndian, LittleEndian, Hi, Lo, Hi16, Lo16;
    var lo, hi := Lo16(u), Hi16(u);
    WordOfOctets(lo);
    WordOfOctets(hi);
    LongOfWords(u);
    if f.bpp == 8 {
      OneOctet(Lo(lo));
    } else if f.bpp == 16 {
      TwoOctets(Hi(lo), Lo(lo));
    } else {
      FourOctets(Hi(hi), Lo(hi), Hi(lo), Lo(lo));
      assert Two(hi, true) + Two(lo, true) == [Hi(hi), Lo(hi), Hi(lo), Lo(lo)];
      assert Two(lo, false) + Two(hi, false) == [Lo(lo), Hi(lo), Lo(hi), Hi(hi)];
    }
  }

  lemma WordOfOctets(w: u16)
    ensures Hi(w) as int * 0x100 + Lo(w) as int == w && Lo(w) == w % 0x100
  {
  }

  lemma LongOfWords(u: u32)
    ensures Hi16(u) * 0x1_0000 + Lo16(u) == u && Lo16(u) == u % 0x1_0000 && Lo16(u) % 0x100 == u % 0x100
  {
    var q := u / 0x1_0000;
    assert u == q * 0x100 * 0x100 + u % 0x1_0000;
  }

  lemma OneOctet(a: byte)
    ensures BigEndian([a]) == LittleEndian([a]) == a as int
  {
    assert [a][..0] == [] && [a][1..] == [];
  }

  lemma TwoOctets(a: byte, b: byte)
    ensures BigEndian([a, b]) == LittleEndian([b, a]) == a as int * 0x100 + b as int
  {
    OneOctet(a);
    assert [a, b][..1] == [a] && [b, a][1..] == [a];
  }

  lemma FourOctets(a: byte, b: byte, c: byte, d: byte)
    ensures BigEndian([a, b, c, d]) == LittleEndian([d, c, b, a]) ==
            (a as int * 0x100 + b as int) * 0x1_0000 + (c as int * 0x100 + d as int)
  {
    TwoOctets(a, b);
    assert [a, b, c, d][..3] == [a, b, c] && [a, b, c][..2] == [a, b];
    assert [d, c, b, a][1..] == [c, b, a] && [c, b, a][1..] == [b, a];
  }

  /** Every size has its number of bytes for every pixel. */
  lemma {:induction false} RowsLength(f: PixelFormat, im: Image, y: nat)
    requires WellFormed(im) && f.bpp in {8, 16, 32} && y <= im.height
    ensures |Rows(f, im, y)| == (im.height - y) * (f.bpp as int / 8 * im.width)
    decreases im.height - y
  {
    hide PixelValue, Row;
    if y < im.height {
      RowLength(f, im, y, 0);
      RowsLength(f, im, y + 1);
      Times(im.height - (y + 1), f.bpp as int / 8 * im.width);
    }
  }

  lemma {:induction false} RowLength(f: PixelFormat, im: Image, y: nat, x: nat)
    requires WellFormed(im) && f.bpp in {8, 16, 32} && x <= im.width
    ensures |Row(f, im, y, x)| == f.bpp as int / 8 * (im.width - x)
    decreases im.width - x
  {
    hide PixelValue, PixelBytes, At;
    if x < im.width {
      PixelBytesRead(f, PixelValue(f, At(im, x, y)));
      RowLength(f, im, y, x + 1);
    }
  }

  predicate Holds(s: seq<byte>, at: nat, p: seq<byte>) {
    at + |p| <= |s| && s[at..at + |p|] == p
  }

  lemma HoldsConcat(a: seq<byte>, b: seq<byte>, at: nat, p: seq<byte>)
    ensures Holds(a, at, p) ==> Holds(a + b, at, p)
    ensures Holds(b, at, p) ==> Holds(a + b, |a| + at, p)
    ensures Holds(a + b, 0, a)
  {
    if Holds(a, at, p) {
      assert (a + b)[at..at + |p|] == a[at..at + |p|];
    }
    if Holds(b, at, p) {
      assert (a + b)[|a| + at..|a| + at + |p|] == b[at..at + |p|];
    }
  }

  lemma RowUnfold(f: PixelFormat, im: Image, y: nat, x: nat)
    requires WellFormed(im) && x < im.width
    ensures Row(f, im, y, x) == PixelBytes(f, PixelValue(f, At(im, x, y))) + Row(f, im, y, x + 1)
  {
    hide PixelValue, PixelBytes, At, WellFormed;
  }

  lemma {:induction false} PixelInRow(f: PixelFormat, im: Image, y: nat, x0: nat, x: nat, at: nat)
    requires WellFormed(im) && f.bpp in {8, 16, 32} && x0 <= x < im.width
    requires at == (x - x0) * (f.bpp as int / 8)
    ensures Holds(Row(f, im, y, x0), at, PixelBytes(f, PixelValue(f, At(im, x, y))))
    decreases x - x0
  {
    hide PixelValue, PixelBytes, At, Row, Holds, WellFormed;
    var k := f.bpp as int / 8;
    var p := PixelBytes(f, PixelValue(f, At(im, x0, y)));
    PixelBytesRead(f, PixelValue(f, At(im, x0, y)));
    RowUnfold(f, im, y, x0);
    if x0 < x {
      Times(x - (x0 + 1), k);
      PixelInRow(f, im, y, x0 + 1, x, at - k);
      HoldsConcat(p, Row(f, im, y, x0 + 1), at - k, PixelBytes(f, PixelValue(f, At(im, x, y))));
    } else {
      HoldsConcat(p, Row(f, im, y, x0 + 1), 0, p);
    }
  }

  lemma RowsUnfold(f: PixelFormat, im: Image, y: nat)
    requires WellFormed(im) && y < im.height
    ensures Rows(f, im, y) == Row(f, im, y, 0) + Rows(f, im, y + 1)
  {
    hide Row, WellFormed;
  }

  lemma {:induction false} PixelInRows(f: PixelFormat, im: Image, y0: nat, y: nat, x: nat, up: nat, at: nat)
    requires WellFormed(im) && f.bpp in {8, 16, 32} && y0 <= y < im.height && x < im.width
    requires up == (y - y0) * (f.bpp as int / 8 * im.width) && at == x * (f.bpp as int / 8)
    ensures Holds(Rows(f, im, y0), up + at, PixelBytes(f, PixelValue(f, At(im, x, y))))
    decreases y - y0
  {
    hide PixelValue, PixelBytes, At, Row, Rows, Holds, WellFormed;
    var width := f.bpp as int / 8 * im.width;
    var p, row, below := PixelBytes(f, PixelValue(f, At(im, x, y))), Row(f, im, y0, 0), Rows(f, im, y0 + 1);
    RowLength(f, im, y0, 0);
    RowsUnfold(f, im, y0);
    if y0 == y {
      PixelInRow(f, im, y, 0, x, at);
      HoldsConcat(row, below, at, p);
    } else {
      Times(y - (y0 + 1), width);
      PixelInRows(f, im, y0 + 1, y, x, up - width, at);
      HoldsConcat(row, below, up - width + at, p);
    }
  }

  /** Pixel (x, y) comes after y whole rows and x pixels, and there is nothing but the pixels. */
  lemma PixelAt(f: PixelFormat, im: Image, x: nat, y: nat, at: nat)
    requires WellFormed(im) && f.bpp in {8, 16, 32} && x < im.width && y < im.height
    requires at == (y * im.width + x) * (f.bpp as int / 8)
    ensures |Rows(f, im, 0)| == im.height * im.width * (f.bpp as int / 8)
    ensures Holds(Rows(f, im, 0), at, PixelBytes(f, PixelValue(f, At(im, x, y))))
  {
    hide Rows, PixelBytes, PixelValue, At, Holds, WellFormed;
    var k := f.bpp as int / 8;
    Placement(k, y, im.width, x);
    Placement(k, im.height, im.width, 0);
    RowsLength(f, im, 0);
    PixelInRows(f, im, 0, y, x, y * (k * im.width), x * k);
  }

  lemma Placement(k: nat, y: nat, w: nat, x: nat)
    ensures (y * w + x) * k == y * (k * w) + x * k
    ensures y * w * k == y * (k * w)
  {
    assert (y * w + x) * k == y * w * k + x * k;
  }


  /** On any image the two can only agree if it has a pixel's worth of bytes for every point. */
  lemma AgreementNeedsOneQuadPerPoint(f: PixelFormat, im: Image)
    requires WellFormed(im) && IsScreensThousands(f)
    requires FastBytes(im.pix, f.bigEndian != 0) == Rows(f, im, 0)
    ensures |im.pix| / 4 == im.height * im.width
  {
    hide FastBytes, Rows, WellFormed;
    RowsLength(f, im, 0);
    assert f.bpp as int / 8 == 2;
    assert im.height * (2 * im.width) == 2 * (im.height * im.width);
  }

  // ---------------------------------------------------------------- when the two paths agree

  /** An image of any stride with its least point at the origin, in whole pixels. */
  predicate Anchored(im: Image) {
    im.minX == 0 && im.minY == 0 && im.stride >= 4 * im.width && im.stride % 4 == 0
  }

  /** With no bytes to spare there is one row only, or no gap between rows. */
  lemma NoGaps(im: Image)
    requires WellFormed(im) && Anchored(im) && im.width > 0 && im.height > 0
    requires |im.pix| / 4 == im.height * im.width
    ensures OneRun(im)
  {
    var w, h := im.width, im.height;
    assert Offset(im, w - 1, h - 1) + 4 <= |im.pix|;
    Times(h - 1, w);
    if h > 1 && im.stride > 4 * w {
      var gap := im.stride - 4 * w;
      assert (h - 1) * im.stride == 4 * ((h - 1) * w) + (h - 1) * gap;
      TimesMonotone(1, h - 1, gap);
      assert false;
    }
  }

  predicate OneRun(im: Image) {
    && (im.height == 1 || im.stride == 4 * im.width)
    && 4 * (im.height * im.width) <= |im.pix|
  }

  /** The same points as an image of their own, without the bytes behind them. */
  function Packed(im: Image): (p: Image)
    requires Anchored(im) && OneRun(im)
    ensures Contiguous(p)
  {
    im.(pix := im.pix[..4 * (im.height * im.width)], stride := 4 * im.width)
  }

  lemma SamePoint(im: Image, x: nat, y: nat)
    requires WellFormed(im) && Anchored(im) && OneRun(im) && x < im.width && y < im.height
    ensures At(Packed(im), x, y) == At(im, x, y)
  {
    hide Contiguous;
    if im.height > 1 {
      OffsetInRows(im, x, y);
    }
    PixelBound(Packed(im), x, y, y * im.width + x);
  }

  lemma {:induction false} SameRow(f: PixelFormat, im: Image, y: nat, x: nat)
    requires WellFormed(im) && Anchored(im) && OneRun(im) && y < im.height && x <= im.width
    ensures Row(f, Packed(im), y, x) == Row(f, im, y, x)
    decreases im.width - x
  {
    hide PixelValue, PixelBytes, At, WellFormed, Contiguous;
    if x < im.width {
      SamePoint(im, x, y);
      SameRow(f, im, y, x + 1);
    }
  }

  lemma {:induction false} SameRows(f: PixelFormat, im: Image, y: nat)
    requires WellFormed(im) && Anchored(im) && OneRun(im) && y <= im.height
    ensures Rows(f, Packed(im), y) == Rows(f, im, y)
    decreases im.height - y
  {
    hide Row, WellFormed, Contiguous;
    if y < im.height {
      SameRow(f, im, y, 0);
      SameRows(f, im, y + 1);
    }
  }

  /** What is left of an incomplete pixel makes no difference to the fast path. */
  lemma {:induction false} FastWhole(s: seq<byte>, n: nat, bigEndian: bool)
    requires |s| / 4 == n
    ensures FastBytes(s[..4 * n], bigEndian) == FastBytes(s, bigEndian)
  {
    hide FastBytes;
    FastStep(s, bigEndian);
    FastStep(s[..4 * n], bigEndian);
    if n > 0 {
      FastWhole(s[4..], n - 1, bigEndian);
      assert s[..4 * n][4..] == s[4..][..4 * (n - 1)];
    }
  }

  /**
   Exactly when the choice of the path cannot be seen, for an image at the origin, whatever
   its stride and its contents: when it has just one pixel's worth of bytes for every point.
   */
  lemma AgreementExactly(f: PixelFormat, im: Image)
    requires WellFormed(im) && Anchored(im) && IsScreensThousands(f)
    ensures FastBytes(im.pix, f.bigEndian != 0) == Rows(f, im, 0) <==> |im.pix| / 4 == im.height * im.width
  {
    hide FastBytes, Rows, WellFormed, IsScreensThousands;
    var fast, rows := FastBytes(im.pix, f.bigEndian != 0), Rows(f, im, 0);
    if fast == rows {
      AgreementNeedsOneQuadPerPoint(f, im);
    } else if |im.pix| / 4 == im.height * im.width {
      if im.width == 0 || im.height == 0 {
        EmptyAgrees(f, im);
      } else {
        NoGaps(im);
        SameRows(f, im, 0);
        FastPathRefinesGenericPath(f, Packed(im));
        FastWhole(im.pix, im.height * im.width, f.bigEndian != 0);
      }
      assert false;
    }
  }

  lemma EmptyAgrees(f: PixelFormat, im: Image)
    requires WellFormed(im) && IsScreensThousands(f) && (im.width == 0 || im.height == 0)
    requires |im.pix| / 4 == im.height * im.width
    ensures FastBytes(im.pix, f.bigEndian != 0) == Rows(f, im, 0)
  {
    hide FastBytes, Rows, WellFormed;
    RowsLength(f, im, 0);
    FastStep(im.pix, f.bigEndian != 0);
  }

  /** SubImage at the origin keeps the stride and the bytes: only the whole image is pushed right. */
  lemma SubImagesAgreeExactly(f: PixelFormat, im: Image, w: nat, h: nat)
    requires Contiguous(im) && IsScreensThousands(f) && 0 < w <= im.width && 0 < h <= im.height
    ensures var sub := im.(width := w, height := h);
            && WellFormed(sub)
            && (FastBytes(im.pix, f.bigEndian != 0) == Rows(f, sub, 0) <==> w == im.width && h == im.height)
  {
    hide FastBytes, Rows, IsScreensThousands, Contiguous;
    var sub := im.(width := w, height := h);
    SubImageFits(im, w, h);
    SmallerArea(w, h, im.width, im.height);
    AgreementExactly(f, sub);
  }

  lemma SubImageFits(im: Image, w: nat, h: nat)
    requires Contiguous(im) && w <= im.width && h <= im.height
    ensures WellFormed(im.(width := w, height := h)) && Anchored(im.(width := w, height := h))
    ensures |im.pix| / 4 == im.height * im.width
  {
    var sub := im.(width := w, height := h);
    forall x, y | 0 <= x < w && 0 <= y < h
      ensures 0 <= Offset(sub, x, y) && Offset(sub, x, y) + 4 <= |sub.pix|
    {
      assert Offset(sub, x, y) == Offset(im, x, y);
    }
  }

  lemma SmallerArea(w: nat, h: nat, w': nat, h': nat)
    requires 0 < w <= w' && 0 < h <= h'
    ensures h * w == h' * w' <==> w == w' && h == h'
  {
    TimesMonotone(h, h', w);
    assert h' * w' == h' * w + h' * (w' - w);
    if w < w' {
      TimesMonotone(1, w' - w, h');
    } else if h < h' {
      assert h' * w == h * w + (h' - h) * w;
      TimesMonotone(1, h' - h, w);
    }
  }

  /** The left half of a black square, for one: twice the bytes come out. */
  lemma LeftHalfDisagrees(f: PixelFormat)
    requires IsScreensThousands(f)
    ensures var half := Image(seq(16, _ => 0), 8, 0, 0, 1, 2);
            WellFormed(half) && FastBytes(half.pix, f.bigEndian != 0) != Rows(f, half, 0)
  {
    hide FastBytes, Rows, IsScreensThousands;
    SubImagesAgreeExactly(f, Image(seq(16, _ => 0), 8, 0, 0, 2, 2), 1, 2);
  }

  // ---------------------------------------------------------------- the code

  class Conn {
    var format: PixelFormat
    /** kept from frame to frame, with whatever the last frame left in it */
    var buf8: array<byte>
    /** what has been written to the client */
    var bw: seq<byte>

    constructor (format: PixelFormat)
      ensures this.format == format && bw == []
    {
      this.format, buf8, bw := format, new byte[0], [];
    }

    /** pushRGBAScreensThousandsLocked */
    method PushThousands(im: Image)
      modifies this`buf8, this`bw, buf8
      ensures bw == old(bw) + FastBytes(im.pix, format.bigEndian != 0)
    {
      var pixels := |im.pix| / 4;
      if buf8.Length < pixels * 2 {
        buf8 := new byte[pixels * 2];
      }
      FillThousands(im.pix, format.bigEndian != 0, buf8);
      bw := bw + buf8[..pixels * 2];
    }

    /** The loop: red, green and blue make up a word, which is stored when alpha comes by. */
    static method FillThousands(pix: seq<byte>, isBigEndian: bool, buf: array<byte>)
      requires |pix| / 4 * 2 <= buf.Length
      modifies buf
      ensures buf[..|pix| / 4 * 2] == FastBytes(pix, isBigEndian)
    {
      hide Thousands, FastBytes, Partial;
      var u16: u16 := 0;
      var out, i := 0, 0;
      ghost var k := 0;
      assert pix[0..] == pix;
      while i < |pix|
        invariant 0 <= i <= |pix| && 4 * k <= i < 4 * k + 4 && out == 2 * k
        invariant i > 4 * k ==> u16 == Partial(pix[4 * k..i])
        invariant buf[..out] + FastBytes(pix[4 * k..], isBigEndian) == FastBytes(pix, isBigEndian)
      {
        var v8 := pix[i];
        PartialNext(pix, k, i);
        if i % 4 == 0 {
          u16 := High5(v8) * 128;
        } else if i % 4 == 1 {
          u16 := Or16(u16, High5(v8) * 4);
        } else if i % 4 == 2 {
          u16 := Or16(u16, v8 / 8);
        } else {
          FastStep(pix[4 * k..], isBigEndian);
          StoredWord(pix, k, u16);
          Store(buf, out, u16, isBigEndian);
          out, k := out + 2, k + 1;
          assert pix[4 * (k - 1)..][4..] == pix[4 * k..];
        }
        i := i + 1;
      }
      FastStep(pix[4 * k..], isBigEndian);
    }

    static method Store(buf: array<byte>, out: nat, u16: u16, isBigEndian: bool)
      requires out + 2 <= buf.Length
      modifies buf
      ensures buf[..out + 2] == old(buf[..out]) + Two(u16, isBigEndian)
    {
      var hb, lb := Hi(u16), Lo(u16);
      if isBigEndian {
        buf[out] := hb;
        buf[out + 1] := lb;
      } else {
        buf[out] := lb;
        buf[out + 1] := hb;
      }
    }

    /** pushGenericLocked; it gives up on a pixel size it does not know. */
    method PushGeneric(im: Image) returns (failed: bool)
      requires WellFormed(im)
      modifies this`bw
      ensures failed <==> !Supported(format) && im.width > 0 && im.height > 0
      ensures !failed ==> bw == old(bw) + Rows(format, im, 0)
    {
      hide PixelValue, PixelBytes, At;
      for y := 0 to im.height
        invariant y > 0 ==> Supported(format) || im.width == 0
        invariant bw + Rows(format, im, y) == old(bw) + Rows(format, im, 0)
      {
        for x := 0 to im.width
          invariant x > 0 ==> Supported(format)
          invariant bw + (Row(format, im, y, x) + Rows(format, im, y + 1)) == old(bw) + Rows(format, im, 0)
        {
          var u := PixelValue(format, At(im, x, y));
          if !Supported(format) {
            return true;
          }
          bw := bw + PixelBytes(format, u);
        }
      }
      return false;
    }

    /** The choice in pushFrameLocked, for an RGBA image as image.NewRGBA makes it: it cannot be seen from outside. */
    method Push(im: Image) returns (failed: bool)
      requires Contiguous(im)
      modifies this`buf8, this`bw, buf8
      ensures !failed ==> bw == old(bw) + Rows(format, im, 0)
      ensures failed <==> !Supported(format) && im.width > 0 && im.height > 0
    {
      if IsScreensThousands(format) {
        FastPathRefinesGenericPath(format, im);
        PushThousands(im);
        failed := false;
      } else {
        failed := PushGeneric(im);
      }
    }
  }

  /** The word as it is built up from the first components of a pixel. */
  function Partial(s: seq<byte>): u16
    requires 0 < |s| < 4
  {
    if |s| == 1 then High5(s[0]) * 128
    else if |s| == 2 then Or16(High5(s[0]) * 128, High5(s[1]) * 4)
    else Or16(Or16(High5(s[0]) * 128, High5(s[1]) * 4), s[2] / 8)
  }

  lemma PartialNext(pix: seq<byte>, k: nat, i: nat)
    requires 4 * k <= i < 4 * k + 4 && i < |pix|
    ensures i % 4 == i - 4 * k
    ensures i == 4 * k ==> Partial(pix[4 * k..i + 1]) == High5(pix[i]) * 128
    ensures i == 4 * k + 1 ==> Partial(pix[4 * k..i + 1]) == Or16(Partial(pix[4 * k..i]), High5(pix[i]) * 4)
    ensures i == 4 * k + 2 ==> Partial(pix[4 * k..i + 1]) == Or16(Partial(pix[4 * k..i]), pix[i] / 8)
  {
    hide Or16;
    assert pix[4 * k..i + 1] == pix[4 * k..i] + [pix[i]];
  }

  lemma StoredWord(pix: seq<byte>, k: nat, w: u16)
    requires 4 * k + 4 <= |pix| && w == Partial(pix[4 * k..4 * k + 3])
    ensures w == Thousands(pix[4 * k..][0], pix[4 * k..][1], pix[4 * k..][2])
  {
  }
}

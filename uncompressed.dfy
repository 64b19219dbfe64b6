/**
 * The uncompressed decoders: 1, 4, 8, 16, 24 and 32 bits per pixel.
 *
 * Each one walks the file rows in stream order and writes file row t to
 * output row RowMap(height, t) through a running index i (step_up is
 * -2 * width for bottom-up images, 0 for top-down ones). The pixel each
 * decoder must leave at buffer index j is stated by a Pixel function of
 * the stream, and every method is proved to produce exactly those pixels
 * and to leave the cursor |height| strides further on.
 */
module Uncompressed {

  import opened Bits
  import opened Stream
  import opened Raster
  import opened Pixels

  // Row strides in bytes. Widths are non-negative wherever a row is read;
  // `& 3` on the non-negative value 4 - k (0 <= k <= 4) is `% 4`.

  /** 1 bit per pixel: padded_width = ((width + 31) / 32) * 32 bits. */
  function Stride1(width: int): int
  {
    ((width + 31) / 32) * 4
  }

  /** 4 bits per pixel: skip = (4 - ((width % 8) + 1) / 2) & 3. */
  function Skip4(width: int): int
  {
    (4 - ((width % 8) + 1) / 2) % 4
  }

  function Stride4(width: int): int
  {
    (width + 1) / 2 + Skip4(width)
  }

  /** 8 bits per pixel: skip = (4 - width % 4) & 3. */
  function Skip8(width: int): int
  {
    (4 - width % 4) % 4
  }

  function Stride8(width: int): int
  {
    width + Skip8(width)
  }

  /** 16 bits per pixel: the rows are read back to back, without padding. */
  function Stride16(width: int): int
  {
    2 * width
  }

  /** 24 bits per pixel: skip = (4 - (width * 3) % 4) & 3. */
  function Skip24(width: int): int
  {
    (4 - (3 * width) % 4) % 4
  }

  function Stride24(width: int): int
  {
    3 * width + Skip24(width)
  }

  /** 32 bits per pixel: the rows are read back to back. */
  function Stride32(width: int): int
  {
    4 * width
  }

  // Every padded row is a whole number of 32-bit words, and the padding
  // is less than a word.

  lemma {:induction false} Stride1Aligned(width: nat)
    ensures Stride1(width) % 4 == 0 && width <= 8 * Stride1(width) < width + 32
  {
    var q, r := width / 32, width % 32;
    if r == 0 {
      DivModUnique(width + 31, 32, q, 31);
    } else {
      DivModUnique(width + 31, 32, q + 1, r - 1);
    }
  }

  lemma {:induction false} Stride4Aligned(width: nat)
    ensures Stride4(width) % 4 == 0 && (width + 1) / 2 <= Stride4(width) < (width + 1) / 2 + 4
  {
    var q, r := width / 8, width % 8;
    var h := (r + 1) / 2;
    assert 0 <= h <= 4 && r + 1 == 2 * h + (r + 1) % 2;
    DivModUnique(width + 1, 2, 4 * q + h, (r + 1) % 2);
    assert Skip4(width) == (4 - h) % 4;
    assert h + (4 - h) % 4 == if h == 0 then 0 else 4;
    assert Stride4(width) == 4 * q + (if h == 0 then 0 else 4);
  }

  /** Padding n up to the next multiple of four adds fewer than four bytes. */
  lemma {:induction false} PadTo4(n: nat)
    ensures (n + (4 - n % 4) % 4) % 4 == 0
    ensures n <= n + (4 - n % 4) % 4 < n + 4
  {
    var q, r := n / 4, n % 4;
    assert n == 4 * q + r && 0 <= r < 4;
    if r == 0 {
      DivModUnique(n, 4, q, 0);
    } else {
      assert (4 - r) % 4 == 4 - r;
      DivModUnique(n + (4 - r), 4, q + 1, 0);
    }
  }

  lemma {:induction false} Stride8Aligned(width: nat)
    ensures Stride8(width) % 4 == 0 && width <= Stride8(width) < width + 4
  {
    PadTo4(width);
  }

  lemma {:induction false} Stride24Aligned(width: nat)
    ensures Stride24(width) % 4 == 0 && 3 * width <= Stride24(width) < 3 * width + 4
  {
    PadTo4(3 * width);
  }

  // The pixel at column c of the file row that starts at stream offset row.

  /** 1 bit per pixel: bit 7 - c % 8 of byte c / 8, through the table. */
  function RowPixel1(data: seq<Byte>, row: int, clut: seq<Rgb>, c: nat): (p: Rgb)
    requires |clut| == 256
    ensures p == clut[0] || p == clut[1]
    ensures c % 8 == 0 ==> p == clut[ByteAt(data, row + c / 8) / 0x80]
    ensures c % 8 == 7 ==> p == clut[ByteAt(data, row + c / 8) % 2]
  {
    assert Pow2(7) == 0x80;
    clut[Shr(ByteAt(data, row + c / 8), 7 - c % 8) % 2]
  }

  /** 4 bits per pixel: the high nibble of byte c / 2 for even c, the low one for odd c. */
  function RowPixel4(data: seq<Byte>, row: int, clut: seq<Rgb>, c: nat): (p: Rgb)
    requires |clut| == 256
    ensures p in clut[..16]
    ensures !(0 <= row + c / 2 < |data|) ==> p == clut[15]
  {
    var b := ByteAt(data, row + c / 2);
    clut[if c % 2 == 0 then b / 16 else b % 16]
  }

  /** 8 bits per pixel: byte c, through the table. */
  function RowPixel8(data: seq<Byte>, row: int, clut: seq<Rgb>, c: nat): (p: Rgb)
    requires |clut| == 256
    ensures 0 <= row + c < |data| ==> p == clut[data[row + c]]
    ensures !(0 <= row + c < |data|) ==> p == clut[255]
  {
    clut[ByteAt(data, row + c)]
  }

  /** 24 bits per pixel: bytes B, G, R at 3c, alpha 0. */
  function RowPixel24(data: seq<Byte>, row: int, c: nat): (p: Rgb)
    ensures p.alpha == 0
    ensures 0 <= row + 3 * c && row + 3 * c + 3 <= |data| ==> [p.blue, p.green, p.red] == data[row + 3 * c..row + 3 * c + 3]
  {
    var at := row + 3 * c;
    Rgb(ByteAt(data, at), ByteAt(data, at + 1), ByteAt(data, at + 2), 0)
  }

  /**
   * 16 bits per pixel, in a slot that held prev: with BI_BITFIELDS the
   * masks come from the first three table entries, otherwise X1R5G5B5.
   */
  function RowPixel16(data: seq<Byte>, row: int, clut: seq<Rgb>, bitfields: bool, prev: Rgb, c: nat): (p: Rgb)
    requires |clut| == 256
    ensures bitfields ==> p.alpha == 0
    ensures bitfields ==>
              var w := Word16(ByteAt(data, row + 2 * c), ByteAt(data, row + 2 * c + 1));
              var mb, mg, mr := Mask16(clut[0]), Mask16(clut[1]), Mask16(clut[2]);
              && mb == clut[0].blue + 0x100 * clut[0].green
              && mg == clut[1].blue + 0x100 * clut[1].green
              && mr == clut[2].blue + 0x100 * clut[2].green
              && p.blue == Shl(And(w, mb), 8) / Pow2(Msb(mb))
              && p.green == Shl(And(w, mg), 8) / Pow2(Msb(mg))
              && p.red == Shl(And(w, mr), 8) / Pow2(Msb(mr))
    ensures !bitfields ==> p == MaskPixel(Word16(ByteAt(data, row + 2 * c), ByteAt(data, row + 2 * c + 1)), 0x001F, 0x03E0, 0x7C00)
                                 .(alpha := prev.alpha)
  {
    var c0, c1 := ByteAt(data, row + 2 * c), ByteAt(data, row + 2 * c + 1);
    if bitfields then MaskPixel(Word16(c0, c1), Mask16(clut[0]), Mask16(clut[1]), Mask16(clut[2]))
    else
      Direct16Is555(prev, c0, c1);
      Direct16(prev, c0, c1)
  }

  /** 32 bits per pixel, in a slot that held prev: with BI_BITFIELDS as for 16 bits, otherwise bytes B, G, R. */
  function RowPixel32(data: seq<Byte>, row: int, clut: seq<Rgb>, bitfields: bool, prev: Rgb, c: nat): (p: Rgb)
    requires |clut| == 256
    ensures bitfields ==> p.alpha == 0
    ensures bitfields ==>
              var at := row + 4 * c;
              var w := Word32(ByteAt(data, at), ByteAt(data, at + 1), ByteAt(data, at + 2), ByteAt(data, at + 3));
              var mb, mg, mr := Mask32(clut[0]), Mask32(clut[1]), Mask32(clut[2]);
              && mb == clut[0].blue + 0x100 * clut[0].green + 0x1_0000 * clut[0].red + 0x100_0000 * clut[0].alpha
              && mg == clut[1].blue + 0x100 * clut[1].green + 0x1_0000 * clut[1].red + 0x100_0000 * clut[1].alpha
              && mr == clut[2].blue + 0x100 * clut[2].green + 0x1_0000 * clut[2].red + 0x100_0000 * clut[2].alpha
              && p.blue == Shl(And(w, mb), 8) / Pow2(Msb(mb))
              && p.green == Shl(And(w, mg), 8) / Pow2(Msb(mg))
              && p.red == Shl(And(w, mr), 8) / Pow2(Msb(mr))
    ensures !bitfields ==> p.alpha == prev.alpha
    ensures !bitfields ==>
              var at := row + 4 * c;
              p.blue + 0x100 * p.green + 0x1_0000 * p.red
              == Word32(ByteAt(data, at), ByteAt(data, at + 1), ByteAt(data, at + 2), ByteAt(data, at + 3)) % 0x100_0000
  {
    var at := row + 4 * c;
    var c0, c1, c2, c3 := ByteAt(data, at), ByteAt(data, at + 1), ByteAt(data, at + 2), ByteAt(data, at + 3);
    if bitfields then MaskPixel(Word32(c0, c1, c2, c3), Mask32(clut[0]), Mask32(clut[1]), Mask32(clut[2]))
    else Direct32(prev, c0, c1, c2, c3)
  }

  /**
   * The 16-bit masks read only the blue and green bytes of table entries
   * 0 to 2: their red and alpha bytes never change a BI_BITFIELDS pixel.
   */
  lemma {:induction false} Bitfields16IgnoresRedAlpha(data: seq<Byte>, row: int, clut: seq<Rgb>, other: seq<Rgb>, prev: Rgb, c: nat)
    requires |clut| == 256 && |other| == 256
    requires forall i :: 0 <= i < 3 ==> other[i].blue == clut[i].blue && other[i].green == clut[i].green
    ensures RowPixel16(data, row, other, true, prev, c) == RowPixel16(data, row, clut, true, prev, c)
  {
    var c0, c1 := ByteAt(data, row + 2 * c), ByteAt(data, row + 2 * c + 1);
    assert Mask16(other[0]) == Mask16(clut[0]) && Mask16(other[1]) == Mask16(clut[1]) && Mask16(other[2]) == Mask16(clut[2]) by {
      assert other[0].blue == clut[0].blue && other[0].green == clut[0].green;
      assert other[1].blue == clut[1].blue && other[1].green == clut[1].green;
      assert other[2].blue == clut[2].blue && other[2].green == clut[2].green;
    }
  }

  // The same, as the row pixel function of Raster.PixelOf: the pixel
  // made of column c of the file row at stream offset row, over a slot
  // that held prev.

  function Rows1(data: seq<Byte>, clut: seq<Rgb>): (int, nat, Rgb) -> Rgb
    requires |clut| == 256
  {
    (row: int, c: nat, prev: Rgb) => RowPixel1(data, row, clut, c)
  }

  function Rows4(data: seq<Byte>, clut: seq<Rgb>): (int, nat, Rgb) -> Rgb
    requires |clut| == 256
  {
    (row: int, c: nat, prev: Rgb) => RowPixel4(data, row, clut, c)
  }

  function Rows8(data: seq<Byte>, clut: seq<Rgb>): (int, nat, Rgb) -> Rgb
    requires |clut| == 256
  {
    (row: int, c: nat, prev: Rgb) => RowPixel8(data, row, clut, c)
  }

  function Rows24(data: seq<Byte>): (int, nat, Rgb) -> Rgb
  {
    (row: int, c: nat, prev: Rgb) => RowPixel24(data, row, c)
  }

  function Rows16(data: seq<Byte>, clut: seq<Rgb>, bitfields: bool): (int, nat, Rgb) -> Rgb
    requires |clut| == 256
  {
    (row: int, c: nat, prev: Rgb) => RowPixel16(data, row, clut, bitfields, prev, c)
  }

  function Rows32(data: seq<Byte>, clut: seq<Rgb>, bitfields: bool): (int, nat, Rgb) -> Rgb
    requires |clut| == 256
  {
    (row: int, c: nat, prev: Rgb) => RowPixel32(data, row, clut, bitfields, prev, c)
  }

  /** load_1T */
  method Load1T(data: seq<Byte>, pos: int, width: int, height: int, buf: array<Rgb>, clut: seq<Rgb>)
    returns (next: int)
    requires |clut| == 256
    requires width >= 0 || height == 0
    requires buf.Length == width * Abs(height)
    modifies buf
    ensures next == pos + Abs(height) * Stride1(width)
    ensures buf[..] == Decoded(old(buf[..]), pos, Stride1(width), width, height, Rows1(data, clut))
  {
    ghost var orig := buf[..];
    var rows := Abs(height);
    var i := if height > 0 then (height - 1) * width else 0;
    var stepUp := if height > 0 then -2 * width else 0;
    var cur := pos;
    var iy := rows;
    ghost var t: nat := 0;
    FillStart(orig, pos, Stride1(width), width, height, Rows1(data, clut));
    while iy != 0
      invariant 0 <= iy <= rows && t == rows - iy
      invariant i == RowBase(height, width, t)
      invariant cur == RowPos(pos, Stride1(width), t)
      invariant Filled(buf[..], orig, pos, Stride1(width), width, height, t, Rows1(data, clut))
    {
      ghost var before := buf[..];
      RowBaseInside(height, width, t);
      i, cur := Row1T(data, width, buf, clut, i, cur);
      FillRow(before, buf[..], orig, pos, Stride1(width), width, height, t, Rows1(data, clut));
      assert cur == RowPos(pos, Stride1(width), t + 1);
      i := i + stepUp;
      iy, t := iy - 1, t + 1;
    }
    FillEnd(buf[..], orig, pos, Stride1(width), width, height, Rows1(data, clut));
    RowPosIsOffset(pos, Stride1(width), rows);
    next := cur;
  }

  /**
   * One file row of load_1T: padded_width bits are read MSB first, a byte
   * whenever the bit counter n runs out; only the first width reach buf.
   */
  method Row1T(data: seq<Byte>, width: int, buf: array<Rgb>, clut: seq<Rgb>, i0: int, row: int)
    returns (i: int, cur: int)
    requires |clut| == 256
    requires 0 <= width && 0 <= i0 && i0 + width <= buf.Length
    modifies buf
    ensures i == i0 + width && cur == row + Stride1(width)
    ensures RowFilled(buf[..], old(buf[..]), i0, width, row, Rows1(data, clut))
  {
    var paddedWidth := ((width + 31) / 32) * 32;
    PaddedBits(width);
    i, cur := i0, row;
    var ix, n := 0, 0;
    var val: int := 0;
    while ix < paddedWidth
      invariant 0 <= ix <= paddedWidth
      invariant i == i0 + (if ix < width then ix else width)
      invariant cur == row + ix / 8 + (if ix % 8 == 0 then 0 else 1)
      invariant n == (if ix % 8 == 0 then 0 else 8 - ix % 8)
      invariant ix % 8 != 0 ==> val == Shl(ByteAt(data, row + ix / 8), ix % 8)
      invariant RowFilled(buf[..], old(buf[..]), i0, i - i0, row, Rows1(data, clut))
    {
      ghost var b := ByteAt(data, row + ix / 8);
      NextBit(ix);
      if n == 0 {
        val := ByteAt(data, cur);
        cur := cur + 1;
        n := 8;
      }
      assert val == Shl(b, ix % 8);
      if ix < width {
        BitPixel(data, row, clut, ix, val);
        RowExtend(buf[..], old(buf[..]), i0, ix, row, Rows1(data, clut));
        buf[i] := clut[(val / 0x80) % 2];      // val & 0x80 ? 1 : 0
        i := i + 1;
      }
      ShlNext(b, ix % 8);
      val := val * 2;                          // val <<= 1
      ix, n := ix + 1, n - 1;
    }
  }

  /** Bit 7 of val, once shifted ix % 8 times, is the bit RowPixel1 picks for column ix. */
  lemma {:induction false} BitPixel(data: seq<Byte>, row: int, clut: seq<Rgb>, ix: nat, val: int)
    requires |clut| == 256 && val == Shl(ByteAt(data, row + ix / 8), ix % 8)
    ensures clut[(val / 0x80) % 2] == RowPixel1(data, row, clut, ix)
  {
    BitOfShifted(ByteAt(data, row + ix / 8), ix % 8);
  }

  /** Moving from bit ix to bit ix + 1 of a row. */
  lemma {:induction false} NextBit(ix: nat)
    ensures ix % 8 == 7 ==> (ix + 1) / 8 == ix / 8 + 1 && (ix + 1) % 8 == 0
    ensures ix % 8 != 7 ==> (ix + 1) / 8 == ix / 8 && (ix + 1) % 8 == ix % 8 + 1
  {
  }

  /** The padded row of load_1T is a whole number of bytes: Stride1 of them. */
  lemma {:induction false} PaddedBits(width: nat)
    ensures var p := ((width + 31) / 32) * 32;
      width <= p && p % 8 == 0 && p / 8 == Stride1(width)
  {
    var q := (width + 31) / 32;
    Stride1Aligned(width);
    DivModUnique(q * 32, 8, q * 4, 0);
  }

  /** load_4T */
  method Load4T(data: seq<Byte>, pos: int, width: int, height: int, buf: array<Rgb>, clut: seq<Rgb>)
    returns (next: int)
    requires |clut| == 256
    requires width >= 0 || height == 0
    requires buf.Length == width * Abs(height)
    modifies buf
    ensures next == pos + Abs(height) * Stride4(width)
    ensures buf[..] == Decoded(old(buf[..]), pos, Stride4(width), width, height, Rows4(data, clut))
  {
    ghost var orig := buf[..];
    var rows := Abs(height);
    var i := if height > 0 then (height - 1) * width else 0;
    var stepUp := if height > 0 then -2 * width else 0;
    var cur := pos;
    var iy := rows;
    ghost var t: nat := 0;
    FillStart(orig, pos, Stride4(width), width, height, Rows4(data, clut));
    while iy != 0
      invariant 0 <= iy <= rows && t == rows - iy
      invariant i == RowBase(height, width, t)
      invariant cur == RowPos(pos, Stride4(width), t)
      invariant Filled(buf[..], orig, pos, Stride4(width), width, height, t, Rows4(data, clut))
    {
      ghost var before := buf[..];
      RowBaseInside(height, width, t);
      i, cur := Row4T(data, width, buf, clut, i, cur);
      FillRow(before, buf[..], orig, pos, Stride4(width), width, height, t, Rows4(data, clut));
      assert cur + Skip4(width) == RowPos(pos, Stride4(width), t + 1);
      cur := cur + Skip4(width);               // Bseek(b, skip, 1)
      i := i + stepUp;
      iy, t := iy - 1, t + 1;
    }
    FillEnd(buf[..], orig, pos, Stride4(width), width, height, Rows4(data, clut));
    RowPosIsOffset(pos, Stride4(width), rows);
    next := cur;
  }

  /** The two pixels of one 4-bit byte: the high nibble at even column ix, the low one after it. */
  lemma {:induction false} Pixel4Pair(data: seq<Byte>, row: int, clut: seq<Rgb>, ix: nat)
    requires |clut| == 256 && ix % 2 == 0
    ensures RowPixel4(data, row, clut, ix) == clut[ByteAt(data, row + ix / 2) / 16]
    ensures RowPixel4(data, row, clut, ix + 1) == clut[ByteAt(data, row + ix / 2) % 16]
    ensures (ix + 1) / 2 == ix / 2 && (ix + 1 + 1) / 2 == ix / 2 + 1 && (ix + 2) % 2 == 0
  {
  }

  /** One file row of load_4T: a byte per two pixels, high nibble first. */
  method Row4T(data: seq<Byte>, width: int, buf: array<Rgb>, clut: seq<Rgb>, i0: int, row: int)
    returns (i: int, cur: int)
    requires |clut| == 256
    requires 0 <= width && 0 <= i0 && i0 + width <= buf.Length
    modifies buf
    ensures i == i0 + width && cur == row + (width + 1) / 2
    ensures RowFilled(buf[..], old(buf[..]), i0, width, row, Rows4(data, clut))
  {
    i, cur := i0, row;
    var ix := 0;
    while ix < width
      invariant 0 <= ix <= width
      invariant ix % 2 == 0 || ix == width
      invariant i == i0 + ix && cur == row + (ix + 1) / 2
      invariant RowFilled(buf[..], old(buf[..]), i0, ix, row, Rows4(data, clut))
    {
      var val := ByteAt(data, cur);
      cur := cur + 1;
      Pixel4Pair(data, row, clut, ix);
      RowExtend(buf[..], old(buf[..]), i0, ix, row, Rows4(data, clut));
      buf[i] := clut[val / 16];        // valH >>= 4
      i, ix := i + 1, ix + 1;
      if ix < width {
        RowExtend(buf[..], old(buf[..]), i0, ix, row, Rows4(data, clut));
        buf[i] := clut[val % 16];      // valL &= 0xf
        i, ix := i + 1, ix + 1;
      }
    }
  }

  /** load_8T */
  method Load8T(data: seq<Byte>, pos: int, width: int, height: int, buf: array<Rgb>, clut: seq<Rgb>)
    returns (next: int)
    requires |clut| == 256
    requires width >= 0 || height == 0
    requires buf.Length == width * Abs(height)
    modifies buf
    ensures next == pos + Abs(height) * Stride8(width)
    ensures buf[..] == Decoded(old(buf[..]), pos, Stride8(width), width, height, Rows8(data, clut))
  {
    ghost var orig := buf[..];
    var rows := Abs(height);
    var i := if height > 0 then (height - 1) * width else 0;
    var stepUp := if height > 0 then -2 * width else 0;
    var cur := pos;
    var iy := rows;
    ghost var t: nat := 0;
    FillStart(orig, pos, Stride8(width), width, height, Rows8(data, clut));
    while iy != 0
      invariant 0 <= iy <= rows && t == rows - iy
      invariant i == RowBase(height, width, t)
      invariant cur == RowPos(pos, Stride8(width), t)
      invariant Filled(buf[..], orig, pos, Stride8(width), width, height, t, Rows8(data, clut))
    {
      ghost var before := buf[..];
      RowBaseInside(height, width, t);
      i, cur := Row8T(data, width, buf, clut, i, cur);
      FillRow(before, buf[..], orig, pos, Stride8(width), width, height, t, Rows8(data, clut));
      assert cur + Skip8(width) == RowPos(pos, Stride8(width), t + 1);
      cur := cur + Skip8(width);               // Bseek(b, skip, 1)
      i := i + stepUp;
      iy, t := iy - 1, t + 1;
    }
    FillEnd(buf[..], orig, pos, Stride8(width), width, height, Rows8(data, clut));
    RowPosIsOffset(pos, Stride8(width), rows);
    next := cur;
  }

  /** One file row of load_8T: a byte per pixel. */
  method Row8T(data: seq<Byte>, width: int, buf: array<Rgb>, clut: seq<Rgb>, i0: int, row: int)
    returns (i: int, cur: int)
    requires |clut| == 256
    requires 0 <= width && 0 <= i0 && i0 + width <= buf.Length
    modifies buf
    ensures i == i0 + width && cur == row + width
    ensures RowFilled(buf[..], old(buf[..]), i0, width, row, Rows8(data, clut))
  {
    i, cur := i0, row;
    var ix := 0;
    while ix < width
      invariant 0 <= ix <= width
      invariant i == i0 + ix && cur == row + ix
      invariant RowFilled(buf[..], old(buf[..]), i0, ix, row, Rows8(data, clut))
    {
      RowExtend(buf[..], old(buf[..]), i0, ix, row, Rows8(data, clut));
      buf[i] := clut[ByteAt(data, cur)];
      ix, i, cur := ix + 1, i + 1, cur + 1;
    }
  }

  /** load_24T */
  method Load24T(data: seq<Byte>, pos: int, width: int, height: int, buf: array<Rgb>)
    returns (next: int)
    requires width >= 0 || height == 0
    requires buf.Length == width * Abs(height)
    modifies buf
    ensures next == pos + Abs(height) * Stride24(width)
    ensures buf[..] == Decoded(old(buf[..]), pos, Stride24(width), width, height, Rows24(data))
  {
    ghost var orig := buf[..];
    var rows := Abs(height);
    var i := if height > 0 then (height - 1) * width else 0;
    var stepUp := if height > 0 then -2 * width else 0;
    var cur := pos;
    var iy := rows;
    ghost var t: nat := 0;
    FillStart(orig, pos, Stride24(width), width, height, Rows24(data));
    while iy != 0
      invariant 0 <= iy <= rows && t == rows - iy
      invariant i == RowBase(height, width, t)
      invariant cur == RowPos(pos, Stride24(width), t)
      invariant Filled(buf[..], orig, pos, Stride24(width), width, height, t, Rows24(data))
    {
      ghost var before := buf[..];
      RowBaseInside(height, width, t);
      i, cur := Row24T(data, width, buf, i, cur);
      FillRow(before, buf[..], orig, pos, Stride24(width), width, height, t, Rows24(data));
      assert cur + Skip24(width) == RowPos(pos, Stride24(width), t + 1);
      cur := cur + Skip24(width);               // Bseek(b, skip, 1)
      i := i + stepUp;
      iy, t := iy - 1, t + 1;
    }
    FillEnd(buf[..], orig, pos, Stride24(width), width, height, Rows24(data));
    RowPosIsOffset(pos, Stride24(width), rows);
    next := cur;
  }

  /** One file row of load_24T: three bytes B, G, R per pixel. */
  method Row24T(data: seq<Byte>, width: int, buf: array<Rgb>, i0: int, row: int)
    returns (i: int, cur: int)
    requires 0 <= width && 0 <= i0 && i0 + width <= buf.Length
    modifies buf
    ensures i == i0 + width && cur == row + 3 * width
    ensures RowFilled(buf[..], old(buf[..]), i0, width, row, Rows24(data))
  {
    i, cur := i0, row;
    var ix := 0;
    while ix < width
      invariant 0 <= ix <= width
      invariant i == i0 + ix && cur == row + 3 * ix
      invariant RowFilled(buf[..], old(buf[..]), i0, ix, row, Rows24(data))
    {
      RowExtend(buf[..], old(buf[..]), i0, ix, row, Rows24(data));
      buf[i] := Rgb(ByteAt(data, cur), ByteAt(data, cur + 1), ByteAt(data, cur + 2), 0);
      ix, i, cur := ix + 1, i + 1, cur + 3;
    }
  }

  /** load_16. Bread fills a short read from stale bytes, which is not modelled: the rows must be in the stream. */
  method Load16(data: seq<Byte>, pos: int, width: int, height: int, buf: array<Rgb>, clut: seq<Rgb>, bitfields: bool)
    returns (next: int)
    requires |clut| == 256
    requires 0 <= pos && pos + Abs(height) * Stride16(width) <= |data|
    requires width >= 0 || height == 0
    requires buf.Length == width * Abs(height)
    modifies buf
    ensures next == pos + Abs(height) * Stride16(width)
    ensures buf[..] == Decoded(old(buf[..]), pos, Stride16(width), width, height, Rows16(data, clut, bitfields))
  {
    ghost var orig := buf[..];
    var rows := Abs(height);
    var i := if height > 0 then (height - 1) * width else 0;
    var stepUp := if height > 0 then -2 * width else 0;
    var cur := pos;
    var iy := rows;
    ghost var t: nat := 0;
    FillStart(orig, pos, Stride16(width), width, height, Rows16(data, clut, bitfields));
    while iy != 0
      invariant 0 <= iy <= rows && t == rows - iy
      invariant i == RowBase(height, width, t)
      invariant cur == RowPos(pos, Stride16(width), t)
      invariant Filled(buf[..], orig, pos, Stride16(width), width, height, t, Rows16(data, clut, bitfields))
    {
      ghost var before := buf[..];
      RowBaseInside(height, width, t);
      i, cur := Row16(data, width, buf, clut, bitfields, i, cur);
      FillRow(before, buf[..], orig, pos, Stride16(width), width, height, t, Rows16(data, clut, bitfields));
      assert cur == RowPos(pos, Stride16(width), t + 1);
      i := i + stepUp;
      iy, t := iy - 1, t + 1;
    }
    FillEnd(buf[..], orig, pos, Stride16(width), width, height, Rows16(data, clut, bitfields));
    RowPosIsOffset(pos, Stride16(width), rows);
    next := cur;
  }

  /**
   * One file row of load_16. With bitfields the masks are built once from
   * the table (the C does it before the row loop) and every pixel clears
   * alpha; without, alpha is left as it was.
   */
  method Row16(data: seq<Byte>, width: int, buf: array<Rgb>, clut: seq<Rgb>, bitfields: bool, i0: int, row: int)
    returns (i: int, cur: int)
    requires |clut| == 256
    requires 0 <= width && 0 <= i0 && i0 + width <= buf.Length
    modifies buf
    ensures i == i0 + width && cur == row + 2 * width
    ensures RowFilled(buf[..], old(buf[..]), i0, width, row, Rows16(data, clut, bitfields))
  {
    var maskBlue, maskGreen, maskRed := Mask16(clut[0]), Mask16(clut[1]), Mask16(clut[2]);
    i, cur := i0, row;
    var ix := 0;
    while ix < width
      invariant 0 <= ix <= width
      invariant i == i0 + ix && cur == row + 2 * ix
      invariant RowFilled(buf[..], old(buf[..]), i0, ix, row, Rows16(data, clut, bitfields))
    {
      var c0, c1 := ByteAt(data, cur), ByteAt(data, cur + 1);   // Bread(b, c, 2)
      RowExtend(buf[..], old(buf[..]), i0, ix, row, Rows16(data, clut, bitfields));
      if bitfields {
        buf[i] := MaskPixel(Word16(c0, c1), maskBlue, maskGreen, maskRed);
      } else {
        buf[i] := Direct16(buf[i], c0, c1);
      }
      ix, i, cur := ix + 1, i + 1, cur + 2;
    }
  }

  /** load_32. Bread fills a short read from stale bytes, which is not modelled: the rows must be in the stream. */
  method Load32(data: seq<Byte>, pos: int, width: int, height: int, buf: array<Rgb>, clut: seq<Rgb>, bitfields: bool)
    returns (next: int)
    requires |clut| == 256
    requires 0 <= pos && pos + Abs(height) * Stride32(width) <= |data|
    requires width >= 0 || height == 0
    requires buf.Length == width * Abs(height)
    modifies buf
    ensures next == pos + Abs(height) * Stride32(width)
    ensures buf[..] == Decoded(old(buf[..]), pos, Stride32(width), width, height, Rows32(data, clut, bitfields))
  {
    ghost var orig := buf[..];
    var rows := Abs(height);
    var i := if height > 0 then (height - 1) * width else 0;
    var stepUp := if height > 0 then -2 * width else 0;
    var cur := pos;
    var iy := rows;
    ghost var t: nat := 0;
    FillStart(orig, pos, Stride32(width), width, height, Rows32(data, clut, bitfields));
    while iy != 0
      invariant 0 <= iy <= rows && t == rows - iy
      invariant i == RowBase(height, width, t)
      invariant cur == RowPos(pos, Stride32(width), t)
      invariant Filled(buf[..], orig, pos, Stride32(width), width, height, t, Rows32(data, clut, bitfields))
    {
      ghost var before := buf[..];
      RowBaseInside(height, width, t);
      i, cur := Row32(data, width, buf, clut, bitfields, i, cur);
      FillRow(before, buf[..], orig, pos, Stride32(width), width, height, t, Rows32(data, clut, bitfields));
      assert cur == RowPos(pos, Stride32(width), t + 1);
      i := i + stepUp;
      iy, t := iy - 1, t + 1;
    }
    FillEnd(buf[..], orig, pos, Stride32(width), width, height, Rows32(data, clut, bitfields));
    RowPosIsOffset(pos, Stride32(width), rows);
    next := cur;
  }

  /** One file row of load_32: four bytes per pixel, byte 1 repeated in the top of the word. */
  method Row32(data: seq<Byte>, width: int, buf: array<Rgb>, clut: seq<Rgb>, bitfields: bool, i0: int, row: int)
    returns (i: int, cur: int)
    requires |clut| == 256
    requires 0 <= width && 0 <= i0 && i0 + width <= buf.Length
    modifies buf
    ensures i == i0 + width && cur == row + 4 * width
    ensures RowFilled(buf[..], old(buf[..]), i0, width, row, Rows32(data, clut, bitfields))
  {
    var maskBlue, maskGreen, maskRed := Mask32(clut[0]), Mask32(clut[1]), Mask32(clut[2]);
    i, cur := i0, row;
    var ix := 0;
    while ix < width
      invariant 0 <= ix <= width
      invariant i == i0 + ix && cur == row + 4 * ix
      invariant RowFilled(buf[..], old(buf[..]), i0, ix, row, Rows32(data, clut, bitfields))
    {
      var c0, c1, c2, c3 := ByteAt(data, cur), ByteAt(data, cur + 1), ByteAt(data, cur + 2), ByteAt(data, cur + 3);
      RowExtend(buf[..], old(buf[..]), i0, ix, row, Rows32(data, clut, bitfields));
      if bitfields {
        buf[i] := MaskPixel(Word32(c0, c1, c2, c3), maskBlue, maskGreen, maskRed);
      } else {
        buf[i] := Direct32(buf[i], c0, c1, c2, c3);
      }
      ix, i, cur := ix + 1, i + 1, cur + 4;
    }
  }
}

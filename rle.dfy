/**
 * The run-length decoders load_8C (BI_RLE8) and load_4C (BI_RLE4).
 *
 * Both keep a column ix and an output row iy, starting at row height - 1,
 * and read two-byte codes: a nonzero count n followed by a value writes n
 * pixels at buffer index ix + iy * width; a zero followed by 0 ends the
 * row, by 1 ends the bitmap, by 2 moves the cursors by the next two bytes,
 * and by n >= 3 introduces n literal pixels, padded to an even number of
 * bytes. A row that fills up without an end-of-line code starts again at
 * column 0 of the same row.
 *
 * The C checks neither the buffer bounds nor the end of the stream.
 * A write outside the buffer is undefined behaviour: Fail(OutOfBounds).
 * Past the end Bgetc returns -1. Where that value becomes a pixel count
 * (a run of -1 pixels, or of 0xFFFFFFFF in the unsigned RLE4 decoder)
 * or a colour-table index (clut[-1] in RLE8) the C is again undefined:
 * Fail(Truncated). Where it is harmless it is modelled as the value the
 * C gets: -1 for the cursor moves, 0xF for an RLE4 nibble, and nothing
 * for a discarded pad byte. With width <= 0 and height >= 1 the outer
 * loop never ends: Fail(Diverges).
 */
module Rle {

  import opened Failures
  import opened Stream
  import opened Bits
  import opened Pixels

  datatype Mode = Rle8 | Rle4

  /** The decoder's state: the buffer, the cursors ix and iy, and the stream position. */
  datatype Cursor = Cursor(cells: seq<Rgb>, ix: int, iy: int, pos: nat)

  /** cells with the pixels px written from index base on. */
  function Paint(cells: seq<Rgb>, base: int, px: seq<Rgb>): (s: seq<Rgb>)
    requires 0 <= base && base + |px| <= |cells|
    ensures |s| == |cells|
  {
    cells[..base] + px + cells[base + |px|..]
  }

  /** Painting changes exactly the cells from base to base + |px|. */
  lemma {:induction false} PaintAt(cells: seq<Rgb>, base: int, px: seq<Rgb>, j: int)
    requires 0 <= base && base + |px| <= |cells| && 0 <= j < |cells|
    ensures Paint(cells, base, px)[j] == if base <= j < base + |px| then px[j - base] else cells[j]
  {
  }

  /** Writing the next pixel of px extends a painted prefix by one. */
  lemma {:induction false} PaintNext(cells: seq<Rgb>, base: int, px: seq<Rgb>, d: nat)
    requires 0 <= base && base + |px| <= |cells| && d < |px|
    ensures Paint(cells, base, px[..d])[base + d := px[d]] == Paint(cells, base, px[..d + 1])
  {
    var a, b := Paint(cells, base, px[..d])[base + d := px[d]], Paint(cells, base, px[..d + 1]);
    assert |a| == |b|;
    forall j | 0 <= j < |a|
      ensures a[j] == b[j]
    {
      PaintAt(cells, base, px[..d], j);
      PaintAt(cells, base, px[..d + 1], j);
    }
  }

  // The pixels each kind of code writes.

  /** An RLE8 run: n times clut[v]. */
  function Run8Pixels(clut: seq<Rgb>, v: Byte, n: nat): (px: seq<Rgb>)
    requires |clut| == 256
    ensures |px| == n
  {
    seq(n, k => clut[v])
  }

  /** Pixel k of a 4-bit pair takes the high nibble of b when k is even, the low one when k is odd. */
  function Nibble(b: Byte, k: int): (v: int)
    ensures 0 <= v < 16
  {
    if k % 2 == 0 then b / 16 else b % 16
  }

  /** The nibbles are `0xf & (b >> 4)` and `0xf & b`. */
  lemma {:induction false} NibbleBits(b: Byte)
    ensures And(Shr(b, 4), 15) == Nibble(b, 0)
    ensures And(b, 15) == Nibble(b, 1)
  {
    var h := b / 16;
    assert Pow2(4) == 16;
    assert Shr(b, 4) == h && 0 <= h < 16;
    assert h % 16 == h;
    AndLowMask(h, 4);
    AndLowMask(b, 4);
  }

  /** An RLE4 run: n pixels alternately clut[v >> 4] and clut[v & 0xf]. */
  function Run4Pixels(clut: seq<Rgb>, v: Byte, n: nat): (px: seq<Rgb>)
    requires |clut| == 256
    ensures |px| == n
  {
    seq(n, k => clut[Nibble(v, k)])
  }

  /** An RLE8 literal: n pixels, one per byte from data[start] on. */
  function Literal8Pixels(clut: seq<Rgb>, data: seq<Byte>, start: nat, n: nat): (px: seq<Rgb>)
    requires |clut| == 256 && start + n <= |data|
    ensures |px| == n
  {
    seq(n, k requires 0 <= k < n => clut[data[start + k]])
  }

  /** An RLE4 literal: n pixels, two per byte from data[start] on, high nibble first. */
  function Literal4Pixels(clut: seq<Rgb>, data: seq<Byte>, start: nat, n: nat): (px: seq<Rgb>)
    requires |clut| == 256
    ensures |px| == n
  {
    seq(n, k => clut[Nibble(ByteAt(data, start + k / 2), k)])
  }

  /** The pad byte after an RLE8 literal of n pixels: `n & 1`. */
  function Pad8(n: int): int
  {
    n % 2
  }

  /** The pad byte after an RLE4 literal of n pixels: `(n & 3) == 1 || (n & 3) == 2`. */
  function Pad4(n: int): int
  {
    if n % 4 == 1 || n % 4 == 2 then 1 else 0
  }

  /** A literal and its pad always take an even number of bytes, so codes stay 16-bit aligned. */
  lemma {:induction false} LiteralsAligned(n: nat)
    ensures (n + Pad8(n)) % 2 == 0
    ensures ((n + 1) / 2 + Pad4(n)) % 2 == 0
  {
    var q, r := n / 4, n % 4;
    assert n == 4 * q + r;
    DivModUnique(n + 1, 2, 2 * q + (r + 1) / 2, (r + 1) % 2);
    DivModUnique(n, 2, 2 * q + r / 2, r % 2);
  }

  lemma {:induction false} EvenPlus2(a: int, b: int)
    requires a % 2 == 0 && b == a + 2
    ensures b % 2 == 0
  {
    DivModUnique(b, 2, a / 2 + 1, 0);
  }

  /** The buffer index the cursor writes at: `p = &buf[ix + iy * width]`. */
  function Index(c: Cursor, width: int): int
  {
    c.ix + c.iy * width
  }

  /**
   * Writing px at the cursor and moving ix past it; outside the buffer the C is undefined.
   * On success exactly the cells under px change and the stream moves on to pos.
   */
  function Put(c: Cursor, width: int, px: seq<Rgb>, pos: nat): (r: Result<Cursor>)
    ensures r.Ok? <==> 0 <= Index(c, width) && Index(c, width) + |px| <= |c.cells|
    ensures r.Fail? ==> r.error == OutOfBounds
    ensures r.Ok? ==> |r.value.cells| == |c.cells| && r.value.ix == c.ix + |px| && r.value.iy == c.iy && r.value.pos == pos
    ensures r.Ok? ==> forall j :: 0 <= j < |c.cells| ==>
              r.value.cells[j] == if Index(c, width) <= j < Index(c, width) + |px| then px[j - Index(c, width)] else c.cells[j]
  {
    var base := Index(c, width);
    if base < 0 || base + |px| > |c.cells| then Fail(OutOfBounds)
    else
      assert forall j :: 0 <= j < |c.cells| ==> Paint(c.cells, base, px)[j] == if base <= j < base + |px| then px[j - base] else c.cells[j] by {
        forall j | 0 <= j < |c.cells| {
          PaintAt(c.cells, base, px, j);
        }
      }
      Ok(Cursor(Paint(c.cells, base, px), c.ix + |px|, c.iy, pos))
  }

  /**
   * A run code: the count n at c.pos is nonzero and the value v follows it.
   * RLE8 paints n cells with clut[v]; RLE4 paints them alternately with
   * clut[v >> 4] and clut[v & 0xf]. The cells around them keep their colours.
   */
  function Run(mode: Mode, data: seq<Byte>, width: int, clut: seq<Rgb>, c: Cursor): (r: Result<Cursor>)
    requires |clut| == 256 && c.pos < |data| && data[c.pos] != 0
    ensures r.Ok? <==> (mode == Rle4 || c.pos + 1 < |data|)
                       && 0 <= Index(c, width) && Index(c, width) + data[c.pos] <= |c.cells|
    ensures r.Fail? ==> r.error == if mode == Rle8 && c.pos + 1 >= |data| then Truncated else OutOfBounds
    ensures r.Ok? ==> |r.value.cells| == |c.cells| && r.value.ix == c.ix + data[c.pos] && r.value.iy == c.iy && r.value.pos == c.pos + 2
    ensures r.Ok? ==> forall j :: 0 <= j < |c.cells| && !(Index(c, width) <= j < Index(c, width) + data[c.pos]) ==>
              r.value.cells[j] == c.cells[j]
    ensures r.Ok? && mode == Rle8 ==> forall j :: Index(c, width) <= j < Index(c, width) + data[c.pos] ==>
              r.value.cells[j] == clut[data[c.pos + 1]]
    ensures r.Ok? && mode == Rle4 ==> forall j :: Index(c, width) <= j < Index(c, width) + data[c.pos] ==>
              r.value.cells[j] == clut[if (j - Index(c, width)) % 2 == 0 then ByteAt(data, c.pos + 1) / 16 else ByteAt(data, c.pos + 1) % 16]
  {
    var n := data[c.pos];
    match mode
    case Rle8 =>
      // a missing value byte indexes clut[-1]
      if c.pos + 1 >= |data| then Fail(Truncated)
      else Put(c, width, Run8Pixels(clut, data[c.pos + 1], n), c.pos + 2)
    case Rle4 =>
      Put(c, width, Run4Pixels(clut, ByteAt(data, c.pos + 1), n), c.pos + 2)
  }

  /**
   * A literal code of n >= 3 pixels, whose bytes follow the two-byte
   * escape at c.pos. The code takes those bytes and at most one pad byte,
   * ending on an even number of bytes.
   */
  function Literal(mode: Mode, data: seq<Byte>, width: int, clut: seq<Rgb>, c: Cursor, n: nat): (r: Result<Cursor>)
    requires |clut| == 256
  {
    match mode
    case Rle8 => Literal8(data, width, clut, c, n)
    case Rle4 => Literal4(data, width, clut, c, n)
  }

  /** An RLE8 literal: one byte per pixel, through the table, then a pad byte when n is odd. */
  function Literal8(data: seq<Byte>, width: int, clut: seq<Rgb>, c: Cursor, n: nat): (r: Result<Cursor>)
    requires |clut| == 256
    ensures r.Ok? <==> c.pos + 2 + n <= |data| && 0 <= Index(c, width) && Index(c, width) + n <= |c.cells|
    ensures r.Fail? ==> r.error == if c.pos + 2 + n > |data| then Truncated else OutOfBounds
    ensures r.Ok? ==> |r.value.cells| == |c.cells| && r.value.ix == c.ix + n && r.value.iy == c.iy
    ensures r.Ok? ==> (r.value.pos - c.pos) % 2 == 0 && c.pos + 2 + n <= r.value.pos <= c.pos + 3 + n
    ensures r.Ok? ==> forall j :: 0 <= j < |c.cells| && !(Index(c, width) <= j < Index(c, width) + n) ==>
              r.value.cells[j] == c.cells[j]
    ensures r.Ok? ==> forall j :: Index(c, width) <= j < Index(c, width) + n ==>
              r.value.cells[j] == clut[data[c.pos + 2 + (j - Index(c, width))]]
  {
    // a missing pixel byte indexes clut[-1]; a missing pad byte is read and dropped
    if c.pos + 2 + n > |data| then Fail(Truncated)
    else
      var end := c.pos + 2 + n + Pad8(n);
      assert (end - c.pos) % 2 == 0 && c.pos + 2 + n <= end <= c.pos + 3 + n by {
        LiteralsAligned(n);
        EvenPlus2(n + Pad8(n), end - c.pos);
      }
      Literal8Painted(c, width, clut, data, n, end);
      Put(c, width, Literal8Pixels(clut, data, c.pos + 2, n), end)
  }

  /** An RLE4 literal: one byte per two pixels, high nibble first, then a pad byte when n & 3 is 1 or 2. */
  function Literal4(data: seq<Byte>, width: int, clut: seq<Rgb>, c: Cursor, n: nat): (r: Result<Cursor>)
    requires |clut| == 256
    ensures r.Ok? <==> 0 <= Index(c, width) && Index(c, width) + n <= |c.cells|
    ensures r.Fail? ==> r.error == OutOfBounds
    ensures r.Ok? ==> |r.value.cells| == |c.cells| && r.value.ix == c.ix + n && r.value.iy == c.iy
    ensures r.Ok? ==> (r.value.pos - c.pos) % 2 == 0 && c.pos + 2 + (n + 1) / 2 <= r.value.pos <= c.pos + 3 + (n + 1) / 2
    ensures r.Ok? ==> forall j :: 0 <= j < |c.cells| && !(Index(c, width) <= j < Index(c, width) + n) ==>
              r.value.cells[j] == c.cells[j]
    ensures r.Ok? ==> forall j :: Index(c, width) <= j < Index(c, width) + n ==>
              r.value.cells[j] == clut[Nibble(ByteAt(data, c.pos + 2 + (j - Index(c, width)) / 2), j - Index(c, width))]
  {
    var end := c.pos + 2 + (n + 1) / 2 + Pad4(n);
    assert (end - c.pos) % 2 == 0 && c.pos + 2 + (n + 1) / 2 <= end <= c.pos + 3 + (n + 1) / 2 by {
      LiteralsAligned(n);
      EvenPlus2((n + 1) / 2 + Pad4(n), end - c.pos);
    }
    Literal4Painted(c, width, clut, data, n, end);
    Put(c, width, Literal4Pixels(clut, data, c.pos + 2, n), end)
  }

  /** The cells an RLE8 literal paints take their colours from the bytes after the escape, in order. */
  lemma {:induction false} Literal8Painted(c: Cursor, width: int, clut: seq<Rgb>, data: seq<Byte>, n: nat, pos: nat)
    requires |clut| == 256 && c.pos + 2 + n <= |data|
    ensures var r := Put(c, width, Literal8Pixels(clut, data, c.pos + 2, n), pos);
            r.Ok? ==> forall j :: Index(c, width) <= j < Index(c, width) + n ==>
              r.value.cells[j] == clut[data[c.pos + 2 + (j - Index(c, width))]]
  {
  }

  /** The cells an RLE4 literal paints take their colours from the nibbles after the escape, high nibble first. */
  lemma {:induction false} Literal4Painted(c: Cursor, width: int, clut: seq<Rgb>, data: seq<Byte>, n: nat, pos: nat)
    requires |clut| == 256
    ensures var r := Put(c, width, Literal4Pixels(clut, data, c.pos + 2, n), pos);
            r.Ok? ==> forall j :: Index(c, width) <= j < Index(c, width) + n ==>
              r.value.cells[j] == clut[Nibble(ByteAt(data, c.pos + 2 + (j - Index(c, width)) / 2), j - Index(c, width))]
  {
  }

  /**
   * One code, read at c.pos. A count or escape byte missing at the end of
   * the stream starts a run or literal of -1 (0xFFFFFFFF) pixels.
   */
  function Step(mode: Mode, data: seq<Byte>, width: int, clut: seq<Rgb>, c: Cursor): (r: Result<Cursor>)
    requires |clut| == 256
    ensures r.Ok? ==> c.pos < |data| && c.pos < r.value.pos && |r.value.cells| == |c.cells|
  {
    if c.pos >= |data| then Fail(Truncated)
    else if data[c.pos] != 0 then Run(mode, data, width, clut, c)
    else if c.pos + 1 >= |data| then Fail(Truncated)
    else
      var code := data[c.pos + 1];
      if code == 0 then Ok(c.(ix := width, iy := c.iy - 1, pos := c.pos + 2))
      else if code == 1 then Ok(c.(ix := width, iy := -1, pos := c.pos + 2))
      else if code == 2 then
        Ok(c.(ix := c.ix + Getc(data, c.pos + 2), iy := c.iy - Getc(data, c.pos + 3), pos := c.pos + 4))
      else Literal(mode, data, width, clut, c, code)
  }

  /**
   * The whole decode from state c: codes are read while ix < width; then
   * the outer loop stops once iy < 0, or restarts the row at column 0.
   */
  function Decode(mode: Mode, data: seq<Byte>, width: int, clut: seq<Rgb>, c: Cursor): (r: Result<seq<Rgb>>)
    requires |clut| == 256
    ensures r.Ok? ==> |r.value| == |c.cells|
    decreases |data| - c.pos, if c.ix < width then 0 else 1
  {
    if c.ix < width then
      match Step(mode, data, width, clut, c)
      case Fail(e) => Fail(e)
      case Ok(next) => Decode(mode, data, width, clut, next)
    else if c.iy < 0 then Ok(c.cells)
    else if width <= 0 then Fail(Diverges)
    else Decode(mode, data, width, clut, c.(ix := 0))
  }

  /** A code read below the end of the row is followed by the rest of the decode. */
  lemma {:induction false} DecodeStep(mode: Mode, data: seq<Byte>, width: int, clut: seq<Rgb>, c: Cursor, next: Cursor)
    requires |clut| == 256 && c.ix < width && Step(mode, data, width, clut, c) == Ok(next)
    ensures Decode(mode, data, width, clut, c) == Decode(mode, data, width, clut, next)
  {
  }

  /** A full row on a row index still >= 0 starts again at column 0. */
  lemma {:induction false} DecodeRestart(mode: Mode, data: seq<Byte>, width: int, clut: seq<Rgb>, c: Cursor)
    requires |clut| == 256 && width > 0 && c.ix >= width && c.iy >= 0
    ensures Decode(mode, data, width, clut, c) == Decode(mode, data, width, clut, c.(ix := 0))
  {
  }

  /** An end-of-bitmap code ends the decode: every cell keeps what it holds, whether a code painted it or not. */
  lemma {:induction false} EndOfBitmap(mode: Mode, data: seq<Byte>, width: int, clut: seq<Rgb>, c: Cursor)
    requires |clut| == 256 && c.ix < width && c.pos + 1 < |data| && data[c.pos] == 0 && data[c.pos + 1] == 1
    ensures Decode(mode, data, width, clut, c) == Ok(c.cells)
  {
    DecodeStep(mode, data, width, clut, c, c.(ix := width, iy := -1, pos := c.pos + 2));
  }

  /**
   * A delta code paints nothing: the decode goes on from the same cells
   * with the cursor dx columns right and dy rows down (lower row index).
   */
  lemma {:induction false} Delta(mode: Mode, data: seq<Byte>, width: int, clut: seq<Rgb>, c: Cursor)
    requires |clut| == 256 && c.ix < width && c.pos + 1 < |data| && data[c.pos] == 0 && data[c.pos + 1] == 2
    ensures Decode(mode, data, width, clut, c)
            == Decode(mode, data, width, clut, Cursor(c.cells, c.ix + Getc(data, c.pos + 2), c.iy - Getc(data, c.pos + 3), c.pos + 4))
  {
    DecodeStep(mode, data, width, clut, c, Cursor(c.cells, c.ix + Getc(data, c.pos + 2), c.iy - Getc(data, c.pos + 3), c.pos + 4));
  }

  /**
   * An 8 x 2 RLE8 image: a delta of 3 right and 1 down from the top row's
   * start, a run of two pixels of colour 5, then end of bitmap. Cells 3 and
   * 4 of the bottom row take the colour; the skipped cells and the whole
   * top row keep what the buffer held.
   */
  lemma {:induction false} DeltaExample(clut: seq<Rgb>, cells: seq<Rgb>)
    requires |clut| == 256 && |cells| == 16
    ensures Decode(Rle8, [0, 2, 3, 1, 2, 5, 0, 1], 8, clut, Start(cells, 8, 2, 0)) == Ok(cells[3 := clut[5]][4 := clut[5]])
  {
    var data: seq<Byte> := [0, 2, 3, 1, 2, 5, 0, 1];
    var c := Start(cells, 8, 2, 0);
    DecodeRestart(Rle8, data, 8, clut, c);
    Delta(Rle8, data, 8, clut, c.(ix := 0));
    var moved := Cursor(cells, 3, 0, 4);
    var painted := Run(Rle8, data, 8, clut, moved);
    assert painted.Ok? && painted.value.cells == cells[3 := clut[5]][4 := clut[5]];
    DecodeStep(Rle8, data, 8, clut, moved, painted.value);
    EndOfBitmap(Rle8, data, 8, clut, painted.value);
  }

  /** Where load_8C and load_4C start: row height - 1, about to test the outer loop. */
  function Start(cells: seq<Rgb>, width: int, height: int, pos: nat): Cursor
  {
    Cursor(cells, width, height - 1, pos)
  }

  // The decoders.

  /** `*p++ = px[k]`: the next pixel of a code written at base + k. */
  method PutNext(buf: array<Rgb>, base: int, ghost orig: seq<Rgb>, ghost px: seq<Rgb>, k: nat, p: Rgb)
    requires 0 <= base && base + |px| <= |orig| == buf.Length && k < |px| && p == px[k]
    requires buf[..] == Paint(orig, base, px[..k])
    modifies buf
    ensures buf[..] == Paint(orig, base, px[..k + 1])
  {
    PaintNext(orig, base, px, k);
    buf[base + k] := p;
  }

  /** The `while(val--)` loop of an RLE8 run. */
  method PutRun8(buf: array<Rgb>, base: int, clut: seq<Rgb>, v: Byte, n: nat)
    requires |clut| == 256 && 0 <= base && base + n <= buf.Length
    modifies buf
    ensures buf[..] == Paint(old(buf[..]), base, Run8Pixels(clut, v, n))
  {
    ghost var px := Run8Pixels(clut, v, n);
    var k := 0;
    while k < n
      invariant 0 <= k <= n
      invariant buf[..] == Paint(old(buf[..]), base, px[..k])
    {
      PutNext(buf, base, old(buf[..]), px, k, clut[v]);
      k := k + 1;
    }
    assert px[..n] == px;
  }

  /** The `while(val--)` loop of an RLE8 literal, one byte per pixel. */
  method PutLiteral8(buf: array<Rgb>, base: int, clut: seq<Rgb>, data: seq<Byte>, start: nat, n: nat)
    requires |clut| == 256 && 0 <= base && base + n <= buf.Length && start + n <= |data|
    modifies buf
    ensures buf[..] == Paint(old(buf[..]), base, Literal8Pixels(clut, data, start, n))
  {
    ghost var px := Literal8Pixels(clut, data, start, n);
    var k := 0;
    while k < n
      invariant 0 <= k <= n
      invariant buf[..] == Paint(old(buf[..]), base, px[..k])
    {
      var valS := data[start + k];
      PutNext(buf, base, old(buf[..]), px, k, clut[valS]);
      k := k + 1;
    }
    assert px[..n] == px;
  }

  /** The two pixels an RLE4 run draws from one pair position on. */
  lemma {:induction false} Run4Pair(clut: seq<Rgb>, v: Byte, n: nat, k: nat)
    requires |clut| == 256 && k < n && k % 2 == 0
    ensures Run4Pixels(clut, v, n)[k] == clut[v / 16]
    ensures k + 1 < n ==> Run4Pixels(clut, v, n)[k + 1] == clut[v % 16]
    ensures (k + 2) % 2 == 0
  {
  }

  /** The `while(val--)` loop of an RLE4 run: two pixels per turn, the second only while the count lasts. */
  method PutRun4(buf: array<Rgb>, base: int, clut: seq<Rgb>, v: Byte, n: nat)
    requires |clut| == 256 && 0 <= base && base + n <= buf.Length
    modifies buf
    ensures buf[..] == Paint(old(buf[..]), base, Run4Pixels(clut, v, n))
  {
    ghost var px := Run4Pixels(clut, v, n);
    var k := 0;
    while k < n
      invariant 0 <= k <= n && (k % 2 == 0 || k == n)
      invariant buf[..] == Paint(old(buf[..]), base, px[..k])
    {
      Run4Pair(clut, v, n, k);
      PutNext(buf, base, old(buf[..]), px, k, clut[v / 16]);
      k := k + 1;
      if k < n {
        PutNext(buf, base, old(buf[..]), px, k, clut[v % 16]);
        k := k + 1;
      }
    }
    assert px[..n] == px;
  }

  /** The two pixels of an RLE4 literal from one pair position on, both from byte k / 2. */
  lemma {:induction false} Literal4Pair(clut: seq<Rgb>, data: seq<Byte>, start: nat, n: nat, k: nat)
    requires |clut| == 256 && k < n && k % 2 == 0
    ensures Literal4Pixels(clut, data, start, n)[k] == clut[ByteAt(data, start + k / 2) / 16]
    ensures k + 1 < n ==> Literal4Pixels(clut, data, start, n)[k + 1] == clut[ByteAt(data, start + k / 2) % 16]
    ensures (k + 2) % 2 == 0 && (k + 1) / 2 == k / 2 && (k + 2 + 1) / 2 == k / 2 + 1 && (k + 1 + 1) / 2 == k / 2 + 1
  {
  }

  /** The `while(val--)` loop of an RLE4 literal: one byte read per pair of pixels. */
  method PutLiteral4(buf: array<Rgb>, base: int, clut: seq<Rgb>, data: seq<Byte>, start: nat, n: nat)
    requires |clut| == 256 && 0 <= base && base + n <= buf.Length
    modifies buf
    ensures buf[..] == Paint(old(buf[..]), base, Literal4Pixels(clut, data, start, n))
  {
    ghost var px := Literal4Pixels(clut, data, start, n);
    var k, at := 0, start;
    while k < n
      invariant 0 <= k <= n && (k % 2 == 0 || k == n)
      invariant at == start + (k + 1) / 2
      invariant buf[..] == Paint(old(buf[..]), base, px[..k])
    {
      var valS := ByteAt(data, at);
      Literal4Pair(clut, data, start, n, k);
      at := at + 1;
      PutNext(buf, base, old(buf[..]), px, k, clut[valS / 16]);
      k := k + 1;
      if k < n {
        PutNext(buf, base, old(buf[..]), px, k, clut[valS % 16]);
        k := k + 1;
      }
    }
    assert px[..n] == px;
  }

  /** A method's status and cursors, as the Step they perform. */
  function Outcome(r: Result<()>, c: Cursor): Result<Cursor>
  {
    if r.Ok? then Ok(c) else Fail(r.error)
  }

  /** An RLE8 run code at cur: `valS = Bgetc(b)`, then the run. */
  method RunCode8(data: seq<Byte>, width: int, clut: seq<Rgb>, buf: array<Rgb>, ix: int, iy: int, cur: nat)
    returns (r: Result<()>, ix': int, iy': int, cur': nat)
    requires |clut| == 256 && cur < |data| && data[cur] != 0
    modifies buf
    ensures Run(Rle8, data, width, clut, Cursor(old(buf[..]), ix, iy, cur)) == Outcome(r, Cursor(buf[..], ix', iy', cur'))
  {
    var val := data[cur];
    if cur + 1 >= |data| {
      return Fail(Truncated), ix, iy, cur;
    }
    var valS := data[cur + 1];
    var base := ix + iy * width;
    if base < 0 || base + val > buf.Length {
      return Fail(OutOfBounds), ix, iy, cur;
    }
    PutRun8(buf, base, clut, valS, val);
    return Ok(()), ix + val, iy, cur + 2;
  }

  /** An RLE4 run code at cur. */
  method RunCode4(data: seq<Byte>, width: int, clut: seq<Rgb>, buf: array<Rgb>, ix: int, iy: int, cur: nat)
    returns (r: Result<()>, ix': int, iy': int, cur': nat)
    requires |clut| == 256 && cur < |data| && data[cur] != 0
    modifies buf
    ensures Run(Rle4, data, width, clut, Cursor(old(buf[..]), ix, iy, cur)) == Outcome(r, Cursor(buf[..], ix', iy', cur'))
  {
    var val := data[cur];
    var valS := ByteAt(data, cur + 1);
    var base := ix + iy * width;
    if base < 0 || base + val > buf.Length {
      return Fail(OutOfBounds), ix, iy, cur;
    }
    PutRun4(buf, base, clut, valS, val);
    return Ok(()), ix + val, iy, cur + 2;
  }

  /** An RLE8 literal of n pixels after the escape at cur, then the pad byte when n is odd. */
  method LiteralCode8(data: seq<Byte>, width: int, clut: seq<Rgb>, buf: array<Rgb>, ix: int, iy: int, cur: nat, n: nat)
    returns (r: Result<()>, ix': int, iy': int, cur': nat)
    requires |clut| == 256
    modifies buf
    ensures Literal(Rle8, data, width, clut, Cursor(old(buf[..]), ix, iy, cur), n) == Outcome(r, Cursor(buf[..], ix', iy', cur'))
  {
    if cur + 2 + n > |data| {
      return Fail(Truncated), ix, iy, cur;
    }
    var base := ix + iy * width;
    if base < 0 || base + n > buf.Length {
      return Fail(OutOfBounds), ix, iy, cur;
    }
    PutLiteral8(buf, base, clut, data, cur + 2, n);
    var skip := if n % 2 == 1 then 1 else 0;
    return Ok(()), ix + n, iy, cur + 2 + n + skip;
  }

  /** An RLE4 literal of n pixels after the escape at cur, then the pad byte when n & 3 is 1 or 2. */
  method LiteralCode4(data: seq<Byte>, width: int, clut: seq<Rgb>, buf: array<Rgb>, ix: int, iy: int, cur: nat, n: nat)
    returns (r: Result<()>, ix': int, iy': int, cur': nat)
    requires |clut| == 256
    modifies buf
    ensures Literal(Rle4, data, width, clut, Cursor(old(buf[..]), ix, iy, cur), n) == Outcome(r, Cursor(buf[..], ix', iy', cur'))
  {
    var base := ix + iy * width;
    if base < 0 || base + n > buf.Length {
      return Fail(OutOfBounds), ix, iy, cur;
    }
    PutLiteral4(buf, base, clut, data, cur + 2, n);
    var skip := if n % 4 == 1 || n % 4 == 2 then 1 else 0;
    return Ok(()), ix + n, iy, cur + 2 + (n + 1) / 2 + skip;
  }

  /** One turn of load_8C's inner loop: one code read at cur. */
  method Code8(data: seq<Byte>, width: int, clut: seq<Rgb>, buf: array<Rgb>, ix: int, iy: int, cur: nat)
    returns (r: Result<()>, ix': int, iy': int, cur': nat)
    requires |clut| == 256
    modifies buf
    ensures Step(Rle8, data, width, clut, Cursor(old(buf[..]), ix, iy, cur)) == Outcome(r, Cursor(buf[..], ix', iy', cur'))
  {
    if cur >= |data| {
      return Fail(Truncated), ix, iy, cur;
    }
    if data[cur] != 0 {
      r, ix', iy', cur' := RunCode8(data, width, clut, buf, ix, iy, cur);
      return;
    }
    if cur + 1 >= |data| {
      return Fail(Truncated), ix, iy, cur;
    }
    var code := data[cur + 1];
    if code == 0 {
      // end of line
      return Ok(()), width, iy - 1, cur + 2;
    } else if code == 1 {
      // end of bitmap
      return Ok(()), width, -1, cur + 2;
    } else if code == 2 {
      // cursor move
      var dx := Getc(data, cur + 2);
      var dy := Getc(data, cur + 3);
      return Ok(()), ix + dx, iy - dy, cur + 4;
    }
    r, ix', iy', cur' := LiteralCode8(data, width, clut, buf, ix, iy, cur, code);
  }

  /** One turn of load_4C's inner loop: one code read at cur. */
  method Code4(data: seq<Byte>, width: int, clut: seq<Rgb>, buf: array<Rgb>, ix: int, iy: int, cur: nat)
    returns (r: Result<()>, ix': int, iy': int, cur': nat)
    requires |clut| == 256
    modifies buf
    ensures Step(Rle4, data, width, clut, Cursor(old(buf[..]), ix, iy, cur)) == Outcome(r, Cursor(buf[..], ix', iy', cur'))
  {
    if cur >= |data| {
      return Fail(Truncated), ix, iy, cur;
    }
    if data[cur] != 0 {
      r, ix', iy', cur' := RunCode4(data, width, clut, buf, ix, iy, cur);
      return;
    }
    if cur + 1 >= |data| {
      return Fail(Truncated), ix, iy, cur;
    }
    var code := data[cur + 1];
    if code == 0 {
      // end of line
      return Ok(()), width, iy - 1, cur + 2;
    } else if code == 1 {
      // end of bitmap
      return Ok(()), width, -1, cur + 2;
    } else if code == 2 {
      // cursor move
      var dx := Getc(data, cur + 2);
      var dy := Getc(data, cur + 3);
      return Ok(()), ix + dx, iy - dy, cur + 4;
    }
    r, ix', iy', cur' := LiteralCode4(data, width, clut, buf, ix, iy, cur, code);
  }

  /** load_8C: decodes the RLE8 stream from pos into buf, bottom row first. */
  method Load8C(data: seq<Byte>, pos: nat, width: int, height: int, buf: array<Rgb>, clut: seq<Rgb>)
    returns (r: Result<()>)
    requires |clut| == 256
    modifies buf
    ensures Decode(Rle8, data, width, clut, Start(old(buf[..]), width, height, pos))
            == if r.Ok? then Ok(buf[..]) else Fail(r.error)
  {
    ghost var d := Decode(Rle8, data, width, clut, Start(buf[..], width, height, pos));
    var ix, iy, cur := width, height - 1, pos;
    if width <= 0 {
      // no code is ever read; the outer loop spins while iy >= 0
      if iy >= 0 {
        return Fail(Diverges);
      }
      return Ok(());
    }
    while iy >= 0
      invariant ix >= width
      invariant Decode(Rle8, data, width, clut, Cursor(buf[..], ix, iy, cur)) == d
      decreases |data| - cur
    {
      ix := 0;
      ghost var cur0 := cur;
      while ix < width
        invariant (cur == cur0 && ix == 0) || (cur0 < cur && cur0 < |data|)
        invariant Decode(Rle8, data, width, clut, Cursor(buf[..], ix, iy, cur)) == d
        decreases |data| - cur
      {
        var status;
        status, ix, iy, cur := Code8(data, width, clut, buf, ix, iy, cur);
        if status.Fail? {
          return status;
        }
      }
    }
    return Ok(());
  }

  /** load_4C: decodes the RLE4 stream from pos into buf, bottom row first. */
  method Load4C(data: seq<Byte>, pos: nat, width: int, height: int, buf: array<Rgb>, clut: seq<Rgb>)
    returns (r: Result<()>)
    requires |clut| == 256
    modifies buf
    ensures Decode(Rle4, data, width, clut, Start(old(buf[..]), width, height, pos))
            == if r.Ok? then Ok(buf[..]) else Fail(r.error)
  {
    ghost var d := Decode(Rle4, data, width, clut, Start(buf[..], width, height, pos));
    var ix, iy, cur := width, height - 1, pos;
    if width <= 0 {
      if iy >= 0 {
        return Fail(Diverges);
      }
      return Ok(());
    }
    while iy >= 0
      invariant ix >= width
      invariant Decode(Rle4, data, width, clut, Cursor(buf[..], ix, iy, cur)) == d
      decreases |data| - cur
    {
      ix := 0;
      ghost var cur0 := cur;
      while ix < width
        invariant (cur == cur0 && ix == 0) || (cur0 < cur && cur0 < |data|)
        invariant Decode(Rle4, data, width, clut, Cursor(buf[..], ix, iy, cur)) == d
        decreases |data| - cur
      {
        var status;
        status, ix, iy, cur := Code4(data, width, clut, buf, ix, iy, cur);
        if status.Fail? {
          return status;
        }
      }
    }
    return Ok(());
  }
}
